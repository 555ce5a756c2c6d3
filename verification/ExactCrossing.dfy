/** What the ray cast decides about an edge, said of the points of the edge as they lie in the plane. */
module ExactCrossing {
  import opened Coordinates
  import opened RegionTest

  /** The point at fraction t of an extent from a to b. */
  function Between(a: int, b: int, t: real): real {
    a as real + t * (b - a) as real
  }

  /** The point at fraction t of the edge from p to q lies on the line of the ray. */
  ghost predicate MeetsAt(p: Coord, q: Coord, c: Coord, t: real) {
    0.0 <= t <= 1.0 && Between(p.y, q.y, t) == c.y as real
  }

  /** And it lies to the left of c. */
  ghost predicate LeftAt(p: Coord, q: Coord, c: Coord, t: real) {
    MeetsAt(p, q, c, t) && Between(p.x, q.x, t) < c.x as real
  }

  /** The fraction of the edge at which it meets the line. */
  lemma Meeting(p: Coord, q: Coord, c: Coord) returns (t: real)
    requires Min(p.y, q.y) < c.y <= Max(p.y, q.y)
    ensures MeetsAt(p, q, c, t)
  {
    var f, d := (c.y - p.y) as real, (q.y - p.y) as real;
    t := f / d;
    Quotient(f, d, t);
  }

  lemma Quotient(f: real, d: real, t: real)
    requires d != 0.0 && t == f / d && (0.0 <= f <= d || d <= f <= 0.0)
    ensures 0.0 <= t <= 1.0 && t * d == f
  {
  }

  lemma SameProduct(t: real, d: real, f: real, w: real)
    requires t * d == f
    ensures (t * w) * d == f * w
  {
  }

  lemma ScaledLess(x: real, y: real, d: real)
    ensures d > 0.0 ==> (x < y <==> x * d < y * d)
    ensures d < 0.0 ==> (x < y <==> x * d > y * d)
  {
    assert (y - x) * d == y * d - x * d;
    assert d > 0.0 && x < y ==> (y - x) * d > 0.0;
    assert d > 0.0 && x >= y ==> (x - y) * d >= 0.0;
    assert d < 0.0 && x < y ==> (y - x) * -d > 0.0;
    assert d < 0.0 && x >= y ==> (x - y) * -d >= 0.0;
  }

  lemma IntProduct(a: int, b: int)
    ensures (a * b) as real == a as real * b as real
  {
  }

  lemma RatioIsReal(n: int, d: int, s: int, x: real)
    requires d != 0 && x * d as real == n as real
    ensures RatioBelow(n, d, s) <==> x < s as real
  {
    IntProduct(s, d);
    ScaledLess(x, s as real, d as real);
  }

  lemma RatioAtMostIsReal(n: int, d: int, s: int, x: real)
    requires d != 0 && x * d as real == n as real
    ensures RatioAtMost(n, d, s) <==> x <= s as real
  {
    IntProduct(s, d);
    ScaledLess(s as real, x, d as real);
  }

  /** How far the meeting point is from p along the x axis, times the denominator. */
  lemma MeetingRatio(p: Coord, q: Coord, c: Coord, t: real)
    requires Straddles(p, q, c) && MeetsAt(p, q, c, t)
    ensures (t * (q.x - p.x) as real) * Run(p, q) as real == Rise(p, q, c) as real
  {
    SameProduct(t, (q.y - p.y) as real, (c.y - p.y) as real, (q.x - p.x) as real);
    IntProduct(c.y - p.y, q.x - p.x);
  }

  /** The edge has a point that lies on the line, above the edge's lower end, and left of c. */
  ghost predicate CrossesLeft(p: Coord, q: Coord, c: Coord) {
    Min(p.y, q.y) < c.y <= Max(p.y, q.y) && exists t: real :: LeftAt(p, q, c, t)
  }

  /** An edge counts for exact arithmetic exactly if some point of it, above its lower end, lies left of c. */
  lemma ExactIsGeometric(p: Coord, q: Coord, c: Coord)
    ensures Straddle.Hits(p, q, c) <==> Min(p.y, q.y) < c.y <= Max(p.y, q.y)
    ensures Exact.Hits(p, q, c) <==> CrossesLeft(p, q, c)
  {
    if Straddles(p, q, c) {
      var t := Meeting(p, q, c);
      LeftIff(p, q, c, t);
      forall s: real | LeftAt(p, q, c, s)
        ensures Exact.Hits(p, q, c)
      {
        LeftIff(p, q, c, s);
      }
    }
  }

  lemma LeftIff(p: Coord, q: Coord, c: Coord, t: real)
    requires Straddles(p, q, c) && MeetsAt(p, q, c, t)
    ensures Exact.Hits(p, q, c) <==> LeftAt(p, q, c, t)
  {
    MeetingRatio(p, q, c, t);
    RatioIsReal(Rise(p, q, c), Run(p, q), c.x - p.x, t * (q.x - p.x) as real);
  }

  /** Comparing a truncated quotient with an integer, in terms of the exact quotient x. */
  lemma TruncBelowReal(n: int, d: int, s: int, x: real)
    requires d != 0 && x * d as real == n as real
    ensures TruncDiv(n, d) < s <==> x < s as real && (x < 0.0 ==> x <= (s - 1) as real)
  {
    TruncBelow(n, d, s);
    RatioIsReal(n, d, s, x);
    RatioIsReal(n, d, 0, x);
    RatioAtMostIsReal(n, d, s - 1, x);
  }

  lemma TruncOfReal(n: int, d: int, r: int, x: real)
    requires d != 0 && x * d as real == n as real && r == TruncDiv(n, d)
    ensures if x >= 0.0 then 0.0 <= r as real <= x < r as real + 1.0 else r as real - 1.0 < x <= r as real <= 0.0
  {
    TruncBelowReal(n, d, r, x);
    TruncBelowReal(n, d, r + 1, x);
    TruncBelowReal(n, d, 0, x);
    TruncBelowReal(n, d, 1, x);
  }

  /** The integer crossing is the exact one, with the part of its distance from p behind the point dropped. */
  lemma CrossingTruncates(p: Coord, q: Coord, c: Coord, t: real)
    requires Straddles(p, q, c) && MeetsAt(p, q, c, t)
    ensures var exact, computed := Between(p.x, q.x, t), CrossingX(p, q, c) as real;
            if exact >= p.x as real then p.x as real <= computed <= exact < computed + 1.0
            else computed - 1.0 < exact <= computed <= p.x as real
  {
    var x, r := t * (q.x - p.x) as real, CrossingX(p, q, c) - p.x;
    MeetingRatio(p, q, c, t);
    TruncOfReal(Rise(p, q, c), Run(p, q), r, x);
    assert CrossingX(p, q, c) as real == p.x as real + r as real;
  }

  /** The integer next to x on the side of a. */
  function TruncatedFrom(a: int, x: real): int {
    if x >= a as real then x.Floor else -((-x).Floor)
  }

  /** The edge has a point on the line whose x value, rounded to an integer toward p, is less than that of c. */
  ghost predicate TruncatedLeft(p: Coord, q: Coord, c: Coord) {
    && Min(p.y, q.y) < c.y <= Max(p.y, q.y)
    && exists t: real :: MeetsAt(p, q, c, t) && TruncatedFrom(p.x, Between(p.x, q.x, t)) < c.x
  }

  /** What the program decides about an edge: the exact crossing, so truncated, is left of c. */
  lemma CodedIsGeometric(p: Coord, q: Coord, c: Coord)
    ensures Coded.Hits(p, q, c) <==> TruncatedLeft(p, q, c)
  {
    ShortcutHarmless(p, q, c);
    if Straddles(p, q, c) {
      var t := Meeting(p, q, c);
      Truncated(p, q, c, t);
      forall s: real | MeetsAt(p, q, c, s)
        ensures TruncatedFrom(p.x, Between(p.x, q.x, s)) == CrossingX(p, q, c)
      {
        Truncated(p, q, c, s);
      }
    }
  }

  lemma Truncated(p: Coord, q: Coord, c: Coord, t: real)
    requires Straddles(p, q, c) && MeetsAt(p, q, c, t)
    ensures TruncatedFrom(p.x, Between(p.x, q.x, t)) == CrossingX(p, q, c)
  {
    CrossingTruncates(p, q, c, t);
  }

  // ----- rings

  /** The vertex that is reached before vertex i, which for the first one is the last. */
  function Before(ring: Ring, i: nat): Coord
    requires i < |ring|
  {
    ring[if i == 0 then |ring| - 1 else i - 1]
  }

  /** Which vertices have an edge from the vertex before that passes the test. */
  function Passing(t: Test, ring: Ring, c: Coord): nat -> bool {
    (i: nat) => i < |ring| && t.Hits(ring[i], Before(ring, i), c)
  }

  /** The numbers below n that pass. */
  ghost function Chosen(passes: nat -> bool, n: nat): set<nat> {
    set i: nat | i < n && passes(i)
  }

  lemma OneMoreNumber(passes: nat -> bool, n: nat)
    ensures |Chosen(passes, n + 1)| == |Chosen(passes, n)| + if passes(n) then 1 else 0
  {
    if passes(n) {
      assert Chosen(passes, n + 1) == Chosen(passes, n) + {n};
    } else {
      assert Chosen(passes, n + 1) == Chosen(passes, n);
    }
  }

  lemma OneMoreEdge(t: Test, ring: Ring, c: Coord, i: nat)
    requires i < |ring|
    ensures var start := [ring[|ring| - 1]];
            t.OnWalk(start + ring[..i + 1], c) ==
            t.OnWalk(start + ring[..i], c) + if Passing(t, ring, c)(i) then 1 else 0
  {
    var walk := [ring[|ring| - 1]] + ring[..i];
    WalkExtend(t, walk, ring[i], c);
    assert walk + [ring[i]] == [ring[|ring| - 1]] + ring[..i + 1];
    assert walk[i] == Before(ring, i);
  }

  lemma {:induction false} HitsOfFront(t: Test, ring: Ring, c: Coord, n: nat)
    requires 0 < |ring| && n <= |ring|
    ensures t.OnWalk([ring[|ring| - 1]] + ring[..n], c) == |Chosen(Passing(t, ring, c), n)|
  {
    if n == 0 {
      NothingOnVertex(t, ring[|ring| - 1], ring[..0], c);
      assert Chosen(Passing(t, ring, c), 0) == {};
    } else {
      HitsOfFront(t, ring, c, n - 1);
      OneMoreNumber(Passing(t, ring, c), n - 1);
      OneMoreEdge(t, ring, c, n - 1);
    }
  }

  lemma NothingOnVertex(t: Test, p: Coord, none: seq<Coord>, c: Coord)
    requires none == []
    ensures t.OnWalk([p] + none, c) == 0
  {
  }

  /** The exact answer counts the edges that have a point, above their lower end, on the ray from the left. */
  lemma ExactCountsEdges(ring: Ring, c: Coord)
    ensures Exact.OnRing(ring, c) ==
            |set i: nat | i < |ring| && CrossesLeft(ring[i], Before(ring, i), c)|
  {
    EdgesCounted(Exact, ring, c);
    forall i: nat | i < |ring|
      ensures Exact.Hits(ring[i], Before(ring, i), c) == CrossesLeft(ring[i], Before(ring, i), c)
    {
      ExactIsGeometric(ring[i], Before(ring, i), c);
    }
    assert Chosen(Passing(Exact, ring, c), |ring|)
        == set i: nat | i < |ring| && CrossesLeft(ring[i], Before(ring, i), c);
  }

  /** And the program's answer counts those whose crossing is on it when truncated. */
  lemma InsideCountsEdges(ring: Ring, c: Coord)
    ensures InsideRing(ring, c) <==>
            |set i: nat | i < |ring| && TruncatedLeft(ring[i], Before(ring, i), c)| % 2 == 1
  {
    RoundingOfRing(ring, c);
    EdgesCounted(Coded, ring, c);
    forall i: nat | i < |ring|
      ensures Coded.Hits(ring[i], Before(ring, i), c) == TruncatedLeft(ring[i], Before(ring, i), c)
    {
      CodedIsGeometric(ring[i], Before(ring, i), c);
    }
    assert Chosen(Passing(Coded, ring, c), |ring|)
        == set i: nat | i < |ring| && TruncatedLeft(ring[i], Before(ring, i), c);
  }

  lemma EdgesCounted(t: Test, ring: Ring, c: Coord)
    ensures t.OnRing(ring, c) == |Chosen(Passing(t, ring, c), |ring|)|
  {
    if ring == [] {
      assert Chosen(Passing(t, ring, c), 0) == {};
    } else {
      HitsOfFront(t, ring, c, |ring|);
      assert ring[..|ring|] == ring;
    }
  }
}
