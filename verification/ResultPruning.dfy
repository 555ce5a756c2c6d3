/** Cleaning a list of results: near a better result others are dropped, and the best come first. */
module ResultPruning {
  import opened Coordinates
  import opened Payloads

  datatype Result = Result(coord: Coord, quality: real, origin: string, elements: seq<Element>)

  /** Results count as equal when these agree; of the elements only the number is compared. */
  predicate Same(a: Result, b: Result) {
    a.coord == b.coord && a.quality == b.quality && |a.elements| == |b.elements| && a.origin == b.origin
  }

  /** The difference of two decimeter coordinates in meters, rounded. */
  function Meters(a: int, b: int): nat {
    (Abs(a - b) + 5) / 10
  }

  function Square(n: nat): nat {
    n * n
  }

  /** The square of the distance in meters. */
  function GridDistance(a: Coord, b: Coord): nat {
    if a == b then 0 else Square(Meters(a.x, b.x)) + Square(Meters(a.y, b.y))
  }

  lemma GridDistanceSymmetric(a: Coord, b: Coord)
    ensures GridDistance(a, b) == GridDistance(b, a)
  {
    assert Meters(a.x, b.x) == Meters(b.x, a.x) && Meters(a.y, b.y) == Meters(b.y, a.y);
  }

  // ----- what the square says about the exact distance

  /** The square of the exact distance in decimeters. */
  function ExactSquare(a: Coord, b: Coord): nat {
    var dx, dy := Abs(a.x - b.x), Abs(a.y - b.y);
    dx * dx + dy * dy
  }

  /** Unless the coordinates are the same, it is the sum of the squares of both differences, rounded to meters. */
  lemma SquaresOfMeters(a: Coord, b: Coord) returns (mx: nat, my: nat)
    ensures GridDistance(a, b) == mx * mx + my * my
    ensures -5 <= 10 * mx - Abs(a.x - b.x) <= 5 && -5 <= 10 * my - Abs(a.y - b.y) <= 5
  {
    if a == b {
      mx, my := 0, 0;
    } else {
      mx, my := (Abs(a.x - b.x) + 5) / 10, (Abs(a.y - b.y) + 5) / 10;
    }
  }

  /** Two natural numbers are together at most 1.415 times as large as the square root of the sum of their squares. */
  lemma SumOfTwo(x: nat, y: nat, s: nat)
    requires x * x + y * y <= s * s
    ensures 1000 * (x + y) <= 1415 * s
  {
    assert (x - y) * (x - y) >= 0;
    assert (x + y) * (x + y) + (x - y) * (x - y) == 2 * (x * x + y * y);
    assert (1415 * s) * (1415 * s) == 2002225 * (s * s);
    assert (1000 * (x + y)) * (1000 * (x + y)) == 1000000 * ((x + y) * (x + y));
    if 1000 * (x + y) > 1415 * s {
      Squares(1415 * s, 1000 * (x + y));
    }
  }

  lemma Squares(x: nat, y: nat)
    requires x < y
    ensures x * x < y * y
  {
    assert y * y - x * x == (y - x) * (y + x);
  }

  /** Where both differences change by at most 5, the distance changes by less than 8. */
  lemma NearAfterRounding(x: nat, y: nat, u: nat, v: nat, s: nat)
    requires x * x + y * y <= s * s && -5 <= u - x <= 5 && -5 <= v - y <= 5
    ensures u * u + v * v < (s + 8) * (s + 8)
  {
    SumOfTwo(x, y, s);
    GrownSquare(x, u);
    GrownSquare(y, v);
    assert (s + 8) * (s + 8) == s * s + 16 * s + 64;
  }

  lemma GrownSquare(x: nat, u: nat)
    requires u <= x + 5
    ensures u * u <= x * x + 10 * x + 25
  {
    if u < x + 5 {
      Squares(u, x + 5);
    }
    assert (x + 5) * (x + 5) == x * x + 10 * x + 25;
  }

  lemma TenTimes(m: nat, n: nat)
    ensures (10 * m) * (10 * m) + (10 * n) * (10 * n) == 100 * (m * m + n * n)
  {
    assert (10 * m) * (10 * m) == 100 * (m * m) && (10 * n) * (10 * n) == 100 * (n * n);
  }

  /** Results nearer than the proximity by 0.8 meters are close, those farther by as much are not. */
  lemma CloseIsNear(a: Result, b: Result, proximity: nat)
    requires proximity > 0
    ensures ExactSquare(a.coord, b.coord) <= (10 * proximity - 8) * (10 * proximity - 8) ==>
              Close(a, b, proximity * proximity)
    ensures ExactSquare(a.coord, b.coord) >= (10 * proximity + 8) * (10 * proximity + 8) ==>
              !Close(a, b, proximity * proximity)
  {
    var mx, my := SquaresOfMeters(a.coord, b.coord);
    var dx, dy := Abs(a.coord.x - b.coord.x), Abs(a.coord.y - b.coord.y);
    TenTimes(mx, my);
    assert (10 * proximity) * (10 * proximity) == 100 * (proximity * proximity);
    if dx * dx + dy * dy <= (10 * proximity - 8) * (10 * proximity - 8) {
      NearAfterRounding(dx, dy, 10 * mx, 10 * my, 10 * proximity - 8);
    }
    if mx * mx + my * my < proximity * proximity {
      NearAfterRounding(10 * mx, 10 * my, dx, dy, 10 * proximity);
    }
  }

  /** Results that differ by the proximity along one axis are not close. */
  lemma FarAlongAxis(a: Result, b: Result, proximity: nat)
    requires proximity > 0
    requires Abs(a.coord.x - b.coord.x) >= 10 * proximity || Abs(a.coord.y - b.coord.y) >= 10 * proximity
    ensures !Close(a, b, proximity * proximity)
  {
    var mx, my := SquaresOfMeters(a.coord, b.coord);
    if mx >= proximity {
      AtLeastSquare(mx, my, proximity);
    } else {
      AtLeastSquare(my, mx, proximity);
    }
  }

  lemma AtLeastSquare(m: nat, n: nat, p: nat)
    requires m >= p
    ensures m * m + n * n >= p * p
  {
    if m > p {
      Squares(p, m);
    }
  }

  /** Equal results differ at most in which elements they have. */
  lemma SameIff(a: Result, b: Result)
    ensures Same(a, b) <==> |a.elements| == |b.elements| && b == a.(elements := b.elements)
    ensures Same(a, b) <==> Same(b, a)
  {
  }

  predicate Close(a: Result, b: Result, limit: nat) {
    GridDistance(a.coord, b.coord) < limit
  }

  /** A result gives way to another that is close and at least as good. */
  predicate GivesWay(a: Result, b: Result, limit: nat) {
    a.quality <= b.quality && Close(a, b, limit)
  }

  predicate Beaten(listed: seq<Result>, i: nat, limit: nat)
    requires i < |listed|
  {
    exists j | 0 <= j < |listed| && j != i :: GivesWay(listed[i], listed[j], limit)
  }

  function Without(listed: seq<Result>, i: nat): seq<Result>
    requires i < |listed|
  {
    listed[..i] + listed[i + 1..]
  }

  /** Going on from place i: a result that is beaten by any that is still listed is taken out. */
  function Pruned(listed: seq<Result>, i: nat, limit: nat): seq<Result>
    requires i <= |listed|
    decreases |listed| - i
  {
    if i == |listed| then listed
    else if Beaten(listed, i, limit) then Pruned(Without(listed, i), i, limit)
    else Pruned(listed, i + 1, limit)
  }

  // ----- what is left

  /** Any two results at different places of the list are at least the proximity apart. */
  ghost predicate FarApart(listed: seq<Result>, limit: nat) {
    forall i, j | 0 <= i < j < |listed| :: !Close(listed[i], listed[j], limit)
  }

  ghost predicate Settled(listed: seq<Result>, i: nat, limit: nat)
    requires i <= |listed|
  {
    forall a | 0 <= a < i :: !Beaten(listed, a, limit)
  }

  lemma StillSettled(listed: seq<Result>, i: nat, limit: nat)
    requires i < |listed| && Settled(listed, i, limit)
    ensures Settled(Without(listed, i), i, limit)
  {
    var less := Without(listed, i);
    forall a | 0 <= a < i
      ensures !Beaten(less, a, limit)
    {
      assert !Beaten(listed, a, limit);
      forall j | 0 <= j < |less| && j != a
        ensures !GivesWay(less[a], less[j], limit)
      {
        assert less[j] == listed[if j < i then j else j + 1];
      }
    }
  }

  lemma {:induction false} PrunedIsSettled(listed: seq<Result>, i: nat, limit: nat)
    requires i <= |listed| && Settled(listed, i, limit)
    ensures var left := Pruned(listed, i, limit); Settled(left, |left|, limit)
    decreases |listed| - i
  {
    if i < |listed| {
      if Beaten(listed, i, limit) {
        StillSettled(listed, i, limit);
        PrunedIsSettled(Without(listed, i), i, limit);
      } else {
        PrunedIsSettled(listed, i + 1, limit);
      }
    }
  }

  /** Whatever the order of the list, what is left is at least the proximity apart. */
  lemma SurvivorsFarApart(listed: seq<Result>, limit: nat)
    ensures FarApart(Pruned(listed, 0, limit), limit)
  {
    PrunedIsSettled(listed, 0, limit);
    var left := Pruned(listed, 0, limit);
    forall i, j | 0 <= i < j < |left|
      ensures !Close(left[i], left[j], limit)
    {
      assert !Beaten(left, i, limit) && !Beaten(left, j, limit);
      assert !GivesWay(left[i], left[j], limit) && !GivesWay(left[j], left[i], limit);
      GridDistanceSymmetric(left[i].coord, left[j].coord);
    }
  }

  lemma {:induction false} SurvivorsWereListed(listed: seq<Result>, i: nat, limit: nat, r: Result)
    requires i <= |listed| && r in Pruned(listed, i, limit)
    ensures r in listed
    decreases |listed| - i
  {
    if i < |listed| {
      if Beaten(listed, i, limit) {
        SurvivorsWereListed(Without(listed, i), i, limit, r);
      } else {
        SurvivorsWereListed(listed, i + 1, limit, r);
      }
    }
  }

  // ----- what became of the others

  /** Each result of the path gives way to the next. */
  ghost predicate Chain(path: seq<Result>, limit: nat) {
    path != [] && forall k | 0 <= k < |path| - 1 :: GivesWay(path[k], path[k + 1], limit)
  }

  /** From one result, over results that each give way to the next, to another. */
  ghost predicate Leads(r: Result, t: Result, limit: nat) {
    exists path :: Chain(path, limit) && path[0] == r && path[|path| - 1] == t
  }

  lemma LeadsToItself(r: Result, limit: nat)
    ensures Leads(r, r, limit)
  {
    assert Chain([r], limit);
  }

  lemma LeadsOn(r: Result, s: Result, t: Result, limit: nat)
    requires GivesWay(r, s, limit) && Leads(s, t, limit)
    ensures Leads(r, t, limit)
  {
    var path :| Chain(path, limit) && path[0] == s && path[|path| - 1] == t;
    var longer := [r] + path;
    forall k | 0 <= k < |longer| - 1
      ensures GivesWay(longer[k], longer[k + 1], limit)
    {
      assert k > 0 ==> longer[k] == path[k - 1];
    }
    assert Chain(longer, limit);
  }

  lemma {:induction false} ChainImproves(path: seq<Result>, limit: nat)
    requires Chain(path, limit)
    ensures path[0].quality <= path[|path| - 1].quality
    decreases |path|
  {
    if |path| > 1 {
      assert GivesWay(path[0], path[1], limit);
      forall k | 0 <= k < |path[1..]| - 1
        ensures GivesWay(path[1..][k], path[1..][k + 1], limit)
      {
        assert GivesWay(path[k + 1], path[k + 2], limit);
      }
      ChainImproves(path[1..], limit);
    }
  }

  lemma LeadsImproves(r: Result, t: Result, limit: nat)
    requires Leads(r, t, limit)
    ensures r.quality <= t.quality
  {
    var path :| Chain(path, limit) && path[0] == r && path[|path| - 1] == t;
    ChainImproves(path, limit);
  }

  /** Every result gives way, possibly over others, to one that is left; so the best quality is among those. */
  lemma {:induction false} EveryResultLeadsToSurvivor(listed: seq<Result>, i: nat, limit: nat, r: Result)
    returns (t: Result)
    requires i <= |listed| && r in listed
    ensures t in Pruned(listed, i, limit) && Leads(r, t, limit) && r.quality <= t.quality
    decreases |listed| - i
  {
    if i == |listed| {
      t := r;
      LeadsToItself(r, limit);
    } else if !Beaten(listed, i, limit) {
      t := EveryResultLeadsToSurvivor(listed, i + 1, limit, r);
    } else {
      var less := Without(listed, i);
      if r in less {
        t := EveryResultLeadsToSurvivor(less, i, limit, r);
      } else {
        assert r == listed[i];
        var j :| 0 <= j < |listed| && j != i && GivesWay(listed[i], listed[j], limit);
        assert listed[j] == less[if j < i then j else j - 1];
        t := EveryResultLeadsToSurvivor(less, i, limit, listed[j]);
        LeadsOn(r, listed[j], t, limit);
        LeadsImproves(r, t, limit);
      }
    }
  }

  lemma TakenOut(listed: seq<Result>, i: nat, j: nat, less: seq<Result>, limit: nat)
    requires i < |listed| && j < |listed| && j != i && GivesWay(listed[i], listed[j], limit)
             && less == Without(listed, i)
    ensures Pruned(listed, i, limit) == Pruned(less, i, limit)
  {
  }

  lemma AllKept(listed: seq<Result>, i: nat, limit: nat)
    requires i <= |listed| && forall a | i <= a < |listed| :: !Beaten(listed, a, limit)
    ensures Pruned(listed, i, limit) == listed
    decreases |listed| - i
  {
    if i < |listed| {
      AllKept(listed, i + 1, limit);
    }
  }

  /**
   * Which results are left depends on the order of the list, which is that of a hash table; and a dropped result may be
   * farther than the proximity from all that are left.
   */
  lemma OrderDecides(a: Result, b: Result, c: Result, limit: nat)
    requires GivesWay(a, b, limit) && GivesWay(b, c, limit) && !Close(a, c, limit)
    ensures Pruned([a, b, c], 0, limit) == [c] && Pruned([b, a, c], 0, limit) == [a, c]
  {
    GridDistanceSymmetric(a.coord, c.coord);
    TakenOut([a, b, c], 0, 1, [b, c], limit);
    TakenOut([b, c], 0, 1, [c], limit);
    AllKept([c], 0, limit);
    TakenOut([b, a, c], 0, 2, [a, c], limit);
    AllKept([a, c], 0, limit);
  }

  lemma InARow(a: Coord, b: Coord, m: nat, square: nat)
    requires a != b && a.y == b.y && Meters(a.x, b.x) == m && square == m * m
    ensures GridDistance(a, b) == square
  {
    var none := Meters(a.y, b.y);
    assert none == 0;
    assert Square(none) == 0;
  }

  /** Three such results: nine meters from one to the next, with a proximity of ten meters. */
  lemma OrderDecidesForSome()
    ensures exists a, b, c :: GivesWay(a, b, 100) && GivesWay(b, c, 100) && !Close(a, c, 100)
  {
    var a, b, c := Result(Coord(0, 0), 1.0, "", []), Result(Coord(90, 0), 2.0, "", []),
        Result(Coord(180, 0), 3.0, "", []);
    InARow(a.coord, b.coord, 9, 81);
    InARow(b.coord, c.coord, 9, 81);
    InARow(a.coord, c.coord, 18, 324);
    assert GivesWay(a, b, 100) && GivesWay(b, c, 100) && !Close(a, c, 100);
  }

  // ----- the program

  ghost predicate Represented(r: Result, listed: seq<Result>) {
    exists k | 0 <= k < |listed| :: Same(r, listed[k])
  }

  ghost predicate NoTwoSame(listed: seq<Result>) {
    forall i, j | 0 <= i < j < |listed| :: !Same(listed[i], listed[j])
  }

  /** Put the results into a hash table, which keeps one of several equal ones and may list them in any order. */
  method Collect(results: seq<Result>) returns (listed: seq<Result>)
    ensures NoTwoSame(listed)
    ensures forall r | r in listed :: r in results
    ensures forall r | r in results :: Represented(r, listed)
  {
    listed := [];
    for n := 0 to |results|
      invariant NoTwoSame(listed)
      invariant forall r | r in listed :: r in results
      invariant forall m | 0 <= m < n :: Represented(results[m], listed)
    {
      var known := false;
      for k := 0 to |listed|
        invariant known <==> exists i | 0 <= i < k :: Same(results[n], listed[i])
      {
        known := known || Same(results[n], listed[k]);
      }
      if !known {
        listed := InsertSomewhere(listed, results[n]);
      }
    }
  }

  method InsertSomewhere(listed: seq<Result>, r: Result) returns (longer: seq<Result>)
    requires NoTwoSame(listed) && !Represented(r, listed)
    ensures NoTwoSame(longer)
    ensures forall t :: t in longer <==> t in listed || t == r
    ensures forall t :: Represented(t, listed) || Same(t, r) ==> Represented(t, longer)
  {
    var at :| 0 <= at <= |listed|;
    longer := listed[..at] + [r] + listed[at..];
    forall i, j | 0 <= i < j < |longer|
      ensures !Same(longer[i], longer[j])
    {
      assert i != at ==> longer[i] == listed[if i < at then i else i - 1];
      assert j != at ==> longer[j] == listed[if j < at then j else j - 1];
    }
    forall t | Represented(t, listed) || Same(t, r)
      ensures Represented(t, longer)
    {
      if Same(t, r) {
        assert Same(t, longer[at]);
      } else {
        var k :| 0 <= k < |listed| && Same(t, listed[k]);
        assert Same(t, longer[if k < at then k else k + 1]);
      }
    }
  }

  /** Remove results close to even better results. */
  method RemoveClose(results: seq<Result>, limit: nat) returns (listed: seq<Result>)
    ensures listed == Pruned(results, 0, limit)
  {
    listed := results;
    var outer := 0;
    while outer < |listed|
      invariant outer <= |listed| && Pruned(listed, outer, limit) == Pruned(results, 0, limit)
      decreases |listed| - outer
    {
      var removedOuter := false;
      var inner := 0;
      ghost var before := listed;
      while !removedOuter && inner < |listed|
        invariant removedOuter ==> Beaten(before, outer, limit) && listed == Without(before, outer)
        invariant !removedOuter ==> listed == before && inner <= |listed|
        invariant !removedOuter ==>
                    forall j | 0 <= j < inner && j != outer :: !GivesWay(before[outer], before[j], limit)
        decreases !removedOuter, |before| - inner
      {
        if inner != outer && !(listed[outer].quality > listed[inner].quality) {
          if GridDistance(listed[outer].coord, listed[inner].coord) < limit {
            assert GivesWay(before[outer], before[inner], limit);
            listed := listed[..outer] + listed[outer + 1..];
            removedOuter := true;
          }
        }
        inner := inner + 1;
      }
      if !removedOuter {
        outer := outer + 1;
      }
    }
  }

  ghost predicate BestFirst(results: seq<Result>) {
    forall i, j | 0 <= i < j < |results| :: results[i].quality >= results[j].quality
  }

  method InsertByQuality(sorted: seq<Result>, r: Result, ghost limit: nat) returns (longer: seq<Result>)
    requires BestFirst(sorted)
    ensures BestFirst(longer) && multiset(longer) == multiset(sorted) + multiset{r}
    ensures forall t :: t in longer <==> t in sorted || t == r
    ensures FarApart(sorted, limit) && (forall t | t in sorted :: !Close(t, r, limit)) ==> FarApart(longer, limit)
  {
    var at := 0;
    while at < |sorted| && sorted[at].quality >= r.quality
      invariant at <= |sorted| && forall i | 0 <= i < at :: sorted[i].quality >= r.quality
    {
      at := at + 1;
    }
    longer := sorted[..at] + [r] + sorted[at..];
    InsertedInOrder(sorted, at, r);
    if FarApart(sorted, limit) && (forall t | t in sorted :: !Close(t, r, limit)) {
      StillFarApart(sorted, at, r, limit);
    }
  }

  lemma InsertedInOrder(sorted: seq<Result>, at: nat, r: Result)
    requires at <= |sorted| && BestFirst(sorted)
    requires (forall i | 0 <= i < at :: sorted[i].quality >= r.quality)
             && (at < |sorted| ==> sorted[at].quality < r.quality)
    ensures var longer := sorted[..at] + [r] + sorted[at..];
            && BestFirst(longer) && multiset(longer) == multiset(sorted) + multiset{r}
            && forall t :: t in longer <==> t in sorted || t == r
  {
    assert sorted == sorted[..at] + sorted[at..];
  }

  lemma StillFarApart(sorted: seq<Result>, at: nat, r: Result, limit: nat)
    requires at <= |sorted| && FarApart(sorted, limit) && forall t | t in sorted :: !Close(t, r, limit)
    ensures FarApart(sorted[..at] + [r] + sorted[at..], limit)
  {
    var longer := sorted[..at] + [r] + sorted[at..];
    forall i, j | 0 <= i < j < |longer|
      ensures !Close(longer[i], longer[j], limit)
    {
      if i == at {
        assert longer[j] == sorted[j - 1] && longer[j] in sorted;
        GridDistanceSymmetric(r.coord, longer[j].coord);
      } else {
        assert longer[i] == sorted[if i < at then i else i - 1];
        assert j != at ==> longer[j] == sorted[if j < at then j else j - 1];
      }
    }
  }

  /** Sort by quality, the highest first; nothing is promised about the order of equally good results. */
  method SortByQuality(results: seq<Result>, ghost limit: nat) returns (sorted: seq<Result>)
    ensures BestFirst(sorted) && multiset(sorted) == multiset(results)
    ensures forall t :: t in sorted <==> t in results
    ensures FarApart(results, limit) ==> FarApart(sorted, limit)
  {
    sorted := [];
    for n := 0 to |results|
      invariant BestFirst(sorted) && multiset(sorted) == multiset(results[..n])
      invariant forall t :: t in sorted <==> t in results[..n]
      invariant FarApart(results, limit) ==> FarApart(sorted, limit)
    {
      assert results[..n + 1] == results[..n] + [results[n]];
      sorted := InsertByQuality(sorted, results[n], limit);
    }
    assert results[..|results|] == results;
  }

  /** Remove results close to even better ones, unless the proximity is zero. */
  method Thin(results: seq<Result>, limit: nat) returns (kept: seq<Result>)
    ensures FarApart(kept, limit)
    ensures forall r | r in kept :: r in results
    ensures forall r | r in results :: exists t :: t in kept && r.quality <= t.quality
  {
    var listed := Collect(results);
    kept := RemoveClose(listed, limit);
    SurvivorsFarApart(listed, limit);
    forall r | r in kept
      ensures r in results
    {
      SurvivorsWereListed(listed, 0, limit, r);
    }
    forall r | r in results
      ensures exists t :: t in kept && r.quality <= t.quality
    {
      var k :| 0 <= k < |listed| && Same(r, listed[k]);
      var t := EveryResultLeadsToSurvivor(listed, 0, limit, listed[k]);
    }
  }

  /** Any two of the results are farther from each other than so many decimeters, by the exact distance. */
  ghost predicate ExactlyApart(results: seq<Result>, decimeters: nat) {
    forall i, j | 0 <= i < j < |results| ::
      ExactSquare(results[i].coord, results[j].coord) > decimeters * decimeters
  }

  lemma SurvivorsExactlyApart(results: seq<Result>, proximity: nat)
    requires proximity > 0 && FarApart(results, proximity * proximity)
    ensures ExactlyApart(results, 10 * proximity - 8)
  {
    forall i, j | 0 <= i < j < |results|
      ensures ExactSquare(results[i].coord, results[j].coord) > (10 * proximity - 8) * (10 * proximity - 8)
    {
      CloseIsNear(results[i], results[j], proximity);
    }
  }

  /** The cleaned list: no new results, none close to another, for each input one at least as good, the best first. */
  method Clean(results: seq<Result>, duplicateProximity: int) returns (cleaned: seq<Result>)
    ensures BestFirst(cleaned)
    ensures duplicateProximity <= 0 ==> multiset(cleaned) == multiset(results)
    ensures forall r | r in cleaned :: r in results
    ensures duplicateProximity > 0 ==> FarApart(cleaned, duplicateProximity * duplicateProximity)
    ensures duplicateProximity > 0 ==> ExactlyApart(cleaned, 10 * duplicateProximity - 8)
    ensures forall r | r in results :: exists t :: t in cleaned && r.quality <= t.quality
  {
    var kept, limit := results, 0;
    if duplicateProximity > 0 {
      limit := duplicateProximity * duplicateProximity;
      kept := Thin(results, limit);
    }
    cleaned := SortByQuality(kept, limit);
    if duplicateProximity > 0 {
      SurvivorsExactlyApart(cleaned, duplicateProximity);
    }
  }
}
