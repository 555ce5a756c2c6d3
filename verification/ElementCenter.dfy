/** The center of a node, a way or a relation: the mean of sampled nodes, found with a queue of elements. */
module ElementCenter {
  import opened Coordinates
  import opened Counters
  import opened Division
  import opened Options
  import opened Sequences

  datatype Element = Node(id: nat) | Way(id: nat) | Relation(id: nat) | Unknown(id: nat)

  /** What is known about ways, relations and the positions of nodes; a stored way has nodes. */
  datatype Database = Database(ways: map<nat, seq<nat>>, relations: map<nat, seq<Element>>, coords: map<nat, Coord>) {
    ghost predicate Valid() {
      forall w | w in ways :: ways[w] != []
    }
  }

  // ----- samples of a way

  /** The places of a way of n nodes whose nodes are taken: both ends, and more in between the longer the way is. */
  function SampleIndices(n: nat): set<nat>
    requires n > 0
  {
    if n == 1 then {0}
    else
      {0, n - 1}
      + (if n > 3 then {n / 2} else {})
      + (if n > 6 then {n / 4, n * 3 / 4} else {})
      + (if n > 12 then {n / 8, n * 3 / 8, n * 5 / 8, n * 7 / 8} else {})
  }

  lemma SamplesInRange(n: nat)
    requires n > 0
    ensures forall i | i in SampleIndices(n) :: i < n
  {
  }

  /** The k-th eighth of the way. */
  function Eighth(n: nat, k: nat): nat {
    n * k / 8
  }

  lemma EighthsSpread(n: nat, k: nat)
    requires n > 12
    ensures Eighth(n, k) < Eighth(n, k + 1) <= Eighth(n, k) + n / 8 + 1
  {
    var whole := n * k;
    assert n * (k + 1) == whole + n;
  }

  lemma EighthSampled(n: nat, k: nat)
    requires n > 12 && k < 8
    ensures Eighth(n, k) in SampleIndices(n)
  {
    if k == 2 {
      assert n * 2 / 8 == n / 4;
    } else if k == 4 {
      assert n * 4 / 8 == n / 2;
    } else if k == 6 {
      assert n * 6 / 8 == n * 3 / 4;
    }
  }

  /** Of a long way the nine samples are nine different nodes, and no stretch of more than an eighth is left out. */
  lemma SamplesSpread(n: nat)
    requires n > 12
    ensures forall k | 0 <= k < 8 :: Eighth(n, k) in SampleIndices(n)
    ensures forall k | 0 <= k < 7 :: Eighth(n, k) < Eighth(n, k + 1) <= Eighth(n, k) + n / 8 + 1
    ensures n - 1 in SampleIndices(n) && Eighth(n, 7) < n - 1 <= Eighth(n, 7) + n / 8 + 1
  {
    forall k | 0 <= k < 8
      ensures Eighth(n, k) in SampleIndices(n) && Eighth(n, k) < Eighth(n, k + 1) <= Eighth(n, k) + n / 8 + 1
    {
      EighthSampled(n, k);
      EighthsSpread(n, k);
    }
    assert Eighth(n, 7) == n * 7 / 8;
  }

  function Sampled(db: Database, e: Element): set<nat>
    requires db.Valid()
  {
    match e
    case Node(id) => {id}
    case Way(id) =>
      if id in db.ways then
        SamplesInRange(|db.ways[id]|);
        set i | i in SampleIndices(|db.ways[id]|) :: db.ways[id][i]
      else {}
    case Relation(_) => {}
    case Unknown(_) => {}
  }

  // ----- the elements of the queue, level by level

  /** What processing an element adds to the queue: the members of a relation, the last one first. */
  function Members(db: Database, e: Element): seq<Element> {
    if e.Relation? && e.id in db.relations then Reversed(db.relations[e.id]) else []
  }

  function NextLevel(db: Database, queue: seq<Element>): seq<Element> {
    if queue == [] then [] else Members(db, queue[0]) + NextLevel(db, queue[1..])
  }

  function Level(db: Database, queue: seq<Element>, k: nat): seq<Element> {
    if k == 0 then queue else NextLevel(db, Level(db, queue, k - 1))
  }

  lemma {:induction false} NextLevelSplit(db: Database, a: seq<Element>, b: seq<Element>)
    ensures NextLevel(db, a + b) == NextLevel(db, a) + NextLevel(db, b)
  {
    if a == [] {
      assert a + b == b;
    } else {
      assert (a + b)[1..] == a[1..] + b;
      NextLevelSplit(db, a[1..], b);
      assert Members(db, a[0]) + (NextLevel(db, a[1..]) + NextLevel(db, b))
          == Members(db, a[0]) + NextLevel(db, a[1..]) + NextLevel(db, b);
    }
  }

  lemma {:induction false} LevelSplit(db: Database, a: seq<Element>, b: seq<Element>, k: nat)
    ensures Level(db, a + b, k) == Level(db, a, k) + Level(db, b, k)
  {
    if k > 0 {
      LevelSplit(db, a, b, k - 1);
      NextLevelSplit(db, Level(db, a, k - 1), Level(db, b, k - 1));
    }
  }

  lemma {:induction false} LevelOfMembers(db: Database, e: Element, k: nat)
    ensures Level(db, [e], k + 1) == Level(db, Members(db, e), k)
  {
    if k > 0 {
      LevelOfMembers(db, e, k - 1);
    } else {
      assert [e][1..] == [];
      assert NextLevel(db, [e]) == Members(db, e) + NextLevel(db, []);
      assert Level(db, [e], 0) == [e] && Level(db, [e], 1) == NextLevel(db, Level(db, [e], 0));
    }
  }

  lemma {:induction false} StaysEmpty(db: Database, queue: seq<Element>, j: nat, k: nat)
    requires j <= k && Level(db, queue, j) == []
    ensures Level(db, queue, k) == []
  {
    if j < k {
      StaysEmpty(db, queue, j, k - 1);
    }
  }

  // ----- when the queue runs empty

  /** After some number of levels there are no elements. */
  ghost predicate RunsEmpty(db: Database, queue: seq<Element>) {
    exists k: nat :: Level(db, queue, k) == []
  }

  ghost predicate HasMemberIn(db: Database, id: nat, ids: set<nat>) {
    id in db.relations && exists m :: m in db.relations[id] && m.Relation? && m.id in ids
  }

  /** Each of these relations has one of them as a member: from there the unfolding never ends. */
  ghost predicate Trap(db: Database, ids: set<nat>) {
    forall id | id in ids :: HasMemberIn(db, id, ids)
  }

  /** The element is a relation that contains itself, directly or over others, or contains one that does. */
  ghost predicate Circular(db: Database, e: Element) {
    e.Relation? && exists ids :: Trap(db, ids) && e.id in ids
  }

  lemma {:induction false} NextLevelHas(db: Database, queue: seq<Element>, e: Element, m: Element)
    requires e in queue && m in Members(db, e)
    ensures m in NextLevel(db, queue)
  {
    if queue[0] != e {
      NextLevelHas(db, queue[1..], e, m);
    }
  }

  lemma TrappedMember(db: Database, ids: set<nat>, e: Element) returns (m: Element)
    requires Trap(db, ids) && e.Relation? && e.id in ids
    ensures m in Members(db, e) && m.Relation? && m.id in ids
  {
    assert HasMemberIn(db, e.id, ids);
    m :| m in db.relations[e.id] && m.Relation? && m.id in ids;
    ReversedMembers(db.relations[e.id]);
  }

  ghost predicate Trapped(ids: set<nat>, queue: seq<Element>) {
    exists e :: e in queue && e.Relation? && e.id in ids
  }

  lemma TrapGoesOn(db: Database, ids: set<nat>, queue: seq<Element>)
    requires Trap(db, ids) && Trapped(ids, queue)
    ensures Trapped(ids, NextLevel(db, queue))
  {
    var e :| e in queue && e.Relation? && e.id in ids;
    var m := TrappedMember(db, ids, e);
    NextLevelHas(db, queue, e, m);
  }

  lemma {:induction false} TrapNeverEmpties(db: Database, ids: set<nat>, queue: seq<Element>, k: nat)
    requires Trap(db, ids) && Trapped(ids, queue)
    ensures Trapped(ids, Level(db, queue, k))
  {
    if k > 0 {
      TrapNeverEmpties(db, ids, queue, k - 1);
      TrapGoesOn(db, ids, Level(db, queue, k - 1));
    }
  }

  lemma {:induction false} AllRunEmpty(db: Database, queue: seq<Element>)
    requires forall e | e in queue :: RunsEmpty(db, [e])
    ensures RunsEmpty(db, queue)
  {
    if queue == [] {
      assert Level(db, [], 0) == [];
    } else {
      AllRunEmpty(db, queue[1..]);
      assert queue[0] in queue;
      var i: nat :| Level(db, [queue[0]], i) == [];
      var j: nat :| Level(db, queue[1..], j) == [];
      StaysEmpty(db, [queue[0]], i, i + j);
      StaysEmpty(db, queue[1..], j, i + j);
      assert [queue[0]] + queue[1..] == queue;
      LevelSplit(db, [queue[0]], queue[1..], i + j);
    }
  }

  /** The queue that starts with an element runs empty exactly when the element is not circular. */
  lemma RunsEmptyIff(db: Database, e: Element)
    ensures RunsEmpty(db, [e]) <==> !Circular(db, e)
  {
    if Circular(db, e) && RunsEmpty(db, [e]) {
      var k: nat :| Level(db, [e], k) == [];
      var ids :| Trap(db, ids) && e.id in ids;
      assert e in [e];
      TrapNeverEmpties(db, ids, [e], k);
      assert false;
    }
    if !RunsEmpty(db, [e]) {
      EndlessIsCircular(db, e);
    }
  }

  lemma EndlessIsCircular(db: Database, e: Element)
    requires !RunsEmpty(db, [e])
    ensures Circular(db, e)
  {
    var endless := set id | id in db.relations && !RunsEmpty(db, [Relation(id)]);
    forall id | id in endless
      ensures HasMemberIn(db, id, endless)
    {
      var m := EndlessMember(db, Relation(id));
      assert m in db.relations[id] && m == Relation(m.id);
    }
    var m := EndlessMember(db, e);
    assert Trap(db, endless) && e == Relation(e.id) && e.id in endless;
  }

  /** What is endless is a known relation with an endless member. */
  lemma EndlessMember(db: Database, e: Element) returns (m: Element)
    requires !RunsEmpty(db, [e])
    ensures e.Relation? && e.id in db.relations && m in db.relations[e.id] && !RunsEmpty(db, [m])
    ensures m.Relation? && m.id in db.relations
  {
    m := EndlessMemberOnly(db, e);
    var deeper := EndlessMemberOnly(db, m);
  }

  lemma EndlessMemberOnly(db: Database, e: Element) returns (m: Element)
    requires !RunsEmpty(db, [e])
    ensures e.Relation? && e.id in db.relations && m in db.relations[e.id] && !RunsEmpty(db, [m])
  {
    if forall m | m in Members(db, e) :: RunsEmpty(db, [m]) {
      AllRunEmpty(db, Members(db, e));
      var k: nat :| Level(db, Members(db, e), k) == [];
      LevelOfMembers(db, e, k);
      assert false;
    }
    m :| m in Members(db, e) && !RunsEmpty(db, [m]);
    if e.Relation? && e.id in db.relations {
      ReversedMembers(db.relations[e.id]);
    }
  }

  // ----- the nodes that are collected

  /** The nodes sampled from the elements of a queue. */
  function SampledFrom(db: Database, queue: seq<Element>): set<nat>
    requires db.Valid()
  {
    if queue == [] then {} else Sampled(db, queue[0]) + SampledFrom(db, queue[1..])
  }

  /** The nodes sampled from the first k levels of a queue. */
  function Gathered(db: Database, queue: seq<Element>, k: nat): set<nat>
    requires db.Valid()
  {
    if k == 0 then {} else Gathered(db, queue, k - 1) + SampledFrom(db, Level(db, queue, k - 1))
  }

  /** The number of elements on the first k levels of a queue. */
  function Work(db: Database, queue: seq<Element>, k: nat): nat {
    if k == 0 then 0 else Work(db, queue, k - 1) + |Level(db, queue, k - 1)|
  }

  lemma {:induction false} SampledSplit(db: Database, a: seq<Element>, b: seq<Element>)
    requires db.Valid()
    ensures SampledFrom(db, a + b) == SampledFrom(db, a) + SampledFrom(db, b)
  {
    if a == [] {
      assert a + b == b;
    } else {
      assert (a + b)[1..] == a[1..] + b;
      SampledSplit(db, a[1..], b);
    }
  }

  lemma {:induction false} GatheredSplit(db: Database, a: seq<Element>, b: seq<Element>, k: nat)
    requires db.Valid()
    ensures Gathered(db, a + b, k) == Gathered(db, a, k) + Gathered(db, b, k)
  {
    if k > 0 {
      var la, lb := Level(db, a, k - 1), Level(db, b, k - 1);
      GatheredSplit(db, a, b, k - 1);
      LevelSplit(db, a, b, k - 1);
      SampledSplit(db, la, lb);
      UnionsExchanged(Gathered(db, a, k - 1), Gathered(db, b, k - 1), SampledFrom(db, la), SampledFrom(db, lb));
    }
  }

  lemma UnionsExchanged(a: set<nat>, b: set<nat>, c: set<nat>, d: set<nat>)
    ensures (a + b) + (c + d) == (a + c) + (b + d)
  {
  }

  lemma {:induction false} WorkSplit(db: Database, a: seq<Element>, b: seq<Element>, k: nat)
    ensures Work(db, a + b, k) == Work(db, a, k) + Work(db, b, k)
  {
    if k > 0 {
      WorkSplit(db, a, b, k - 1);
      LevelSplit(db, a, b, k - 1);
    }
  }

  lemma {:induction false} GatheredFromElement(db: Database, e: Element, k: nat)
    requires db.Valid()
    ensures Gathered(db, [e], k + 1) == Sampled(db, e) + Gathered(db, Members(db, e), k)
    ensures Work(db, [e], k + 1) == 1 + Work(db, Members(db, e), k)
  {
    if k == 0 {
      assert SampledFrom(db, [e]) == Sampled(db, e);
      assert Gathered(db, [e], 1) == Gathered(db, [e], 0) + SampledFrom(db, Level(db, [e], 0));
      assert Work(db, [e], 1) == Work(db, [e], 0) + |Level(db, [e], 0)|;
    } else {
      GatheredFromElement(db, e, k - 1);
      LevelOfMembers(db, e, k - 1);
    }
  }

  lemma {:induction false} SampledFromSome(db: Database, queue: seq<Element>, n: nat)
    requires db.Valid()
    ensures n in SampledFrom(db, queue) <==> exists r :: r in queue && n in Sampled(db, r)
  {
    if queue != [] {
      SampledFromSome(db, queue[1..], n);
      assert queue == [queue[0]] + queue[1..];
    }
  }

  /**
   * An element is met on some level of the unfolding: it is the given one, a member of it, a member of a member, ...
   */
  ghost predicate MetWithin(db: Database, queue: seq<Element>, k: nat, r: Element) {
    exists j: nat :: j < k && r in Level(db, queue, j)
  }

  lemma {:induction false} GatheredFromMet(db: Database, queue: seq<Element>, k: nat, n: nat)
    requires db.Valid()
    ensures n in Gathered(db, queue, k) <==> exists r :: MetWithin(db, queue, k, r) && n in Sampled(db, r)
  {
    if k > 0 {
      GatheredFromMet(db, queue, k - 1, n);
      SampledFromSome(db, Level(db, queue, k - 1), n);
      forall r
        ensures MetWithin(db, queue, k, r) <==> MetWithin(db, queue, k - 1, r) || r in Level(db, queue, k - 1)
      {
      }
    }
  }

  ghost predicate Met(db: Database, e: Element, r: Element) {
    exists j: nat :: r in Level(db, [e], j)
  }

  /** The collected nodes are the samples of the elements met, and no others. */
  lemma CollectedFromMet(db: Database, e: Element, k: nat, n: nat)
    requires db.Valid() && Level(db, [e], k) == []
    ensures n in Gathered(db, [e], k) <==> exists r :: Met(db, e, r) && n in Sampled(db, r)
  {
    GatheredFromMet(db, [e], k, n);
    forall r
      ensures Met(db, e, r) <==> MetWithin(db, [e], k, r)
    {
      if Met(db, e, r) {
        var j: nat :| r in Level(db, [e], j);
        if j >= k {
          StaysEmpty(db, [e], k, j);
        }
      }
    }
  }

  lemma NothingMore(db: Database, queue: seq<Element>, k: nat)
    requires db.Valid() && Level(db, queue, k) == []
    ensures Level(db, queue, k + 1) == [] && Gathered(db, queue, k + 1) == Gathered(db, queue, k)
            && Work(db, queue, k + 1) == Work(db, queue, k)
  {
    assert Gathered(db, queue, k + 1) == Gathered(db, queue, k) + SampledFrom(db, Level(db, queue, k));
  }

  /** What an element gives first, and what is left for its members. */
  lemma ElementFirst(db: Database, e: Element, k: nat)
    requires db.Valid() && Level(db, [e], k) == []
    ensures var members := Members(db, e);
            && Level(db, members, k) == []
            && Gathered(db, [e], k) == Sampled(db, e) + Gathered(db, members, k)
            && Work(db, [e], k) == 1 + Work(db, members, k)
  {
    assert k > 0;
    var members, j := Members(db, e), k - 1;
    LevelOfMembers(db, e, j);
    assert Level(db, members, j) == [];
    GatheredFromElement(db, e, j);
    NothingMore(db, members, j);
  }

  /** One turn of the loop: the first element gives its samples and its members, and there is one element less to do. */
  lemma OneElement(db: Database, queue: seq<Element>, k: nat)
    requires db.Valid() && queue != [] && Level(db, queue, k) == []
    ensures var rest := queue[1..] + Members(db, queue[0]);
            && Level(db, rest, k) == []
            && Sampled(db, queue[0]) + Gathered(db, rest, k) == Gathered(db, queue, k)
            && Work(db, rest, k) + 1 == Work(db, queue, k)
  {
    var first, others, members := [queue[0]], queue[1..], Members(db, queue[0]);
    assert queue == first + others;
    LevelSplit(db, first, others, k);
    GatheredSplit(db, first, others, k);
    WorkSplit(db, first, others, k);
    ElementFirst(db, queue[0], k);
    LevelSplit(db, others, members, k);
    GatheredSplit(db, others, members, k);
    WorkSplit(db, others, members, k);
  }

  // ----- sums and means

  function X(db: Database): nat -> int {
    n => if n in db.coords then db.coords[n].x else 0
  }

  function Y(db: Database): nat -> int {
    n => if n in db.coords then db.coords[n].y else 0
  }

  ghost function SumOver(f: nat -> int, nodes: set<nat>): int {
    if nodes == {} then 0 else var n :| n in nodes; f(n) + SumOver(f, nodes - {n})
  }

  /** A sum does not depend on the order. */
  lemma {:induction false} SumWithout(f: nat -> int, nodes: set<nat>, n: nat)
    requires n in nodes
    ensures SumOver(f, nodes) == f(n) + SumOver(f, nodes - {n})
  {
    var m :| m in nodes && SumOver(f, nodes) == f(m) + SumOver(f, nodes - {m});
    if m != n {
      SumWithout(f, nodes - {m}, n);
      SumWithout(f, nodes - {n}, m);
      assert nodes - {m} - {n} == nodes - {n} - {m};
    }
  }

  lemma {:induction false} SumBounds(f: nat -> int, nodes: set<nat>, low: int, high: int)
    requires forall n | n in nodes :: low <= f(n) <= high
    ensures |nodes| * low <= SumOver(f, nodes) <= |nodes| * high
  {
    if nodes != {} {
      var n :| n in nodes && SumOver(f, nodes) == f(n) + SumOver(f, nodes - {n});
      SumBounds(f, nodes - {n}, low, high);
      assert |nodes - {n}| == |nodes| - 1;
      OneMore(|nodes| - 1, low);
      OneMore(|nodes| - 1, high);
    }
  }

  lemma OneMore(k: nat, a: int)
    ensures (k + 1) * a == k * a + a
  {
  }

  /** The low 32 bits of a number, read as a signed number. */
  function ToInt32(n: nat): int {
    var low := n % 0x1_0000_0000;
    if low < 0x8000_0000 then low else low - 0x1_0000_0000
  }

  /** A signed sum divided by an unsigned count: the division is one of unsigned 64-bit numbers. */
  function Mean(sum: int, count: nat): int
    requires count > 0
  {
    ToInt32((sum % WORD) / count)
  }

  lemma Distributed(count: nat, a: int, d: int)
    ensures count * (a + d) == count * a + count * d
  {
  }

  lemma Apart(count: nat, a: int, b: int)
    ensures a < b ==> count * a + count <= count * b
  {
    if a < b {
      Distributed(count, a, b - a);
      MulMono(1, b - a, count);
    }
  }

  lemma QuotientWithin(sum: int, count: nat, low: int, high: int)
    requires count > 0 && count * low <= sum <= count * high
    ensures low <= sum / count <= high
  {
    var q := sum / count;
    assert sum == count * q + sum % count;
    Apart(count, q, low);
    Apart(count, high, q);
  }

  /** The mean of coordinates that are not negative is their exact mean, rounded down, and lies between them. */
  lemma MeanWithin(sum: int, count: nat, low: int, high: int)
    requires 0 < count <= 0x1_0000_0000 && 0 <= low && high < 0x8000_0000
    requires count * low <= sum <= count * high
    ensures Mean(sum, count) == sum / count && low <= Mean(sum, count) <= high
  {
    QuotientWithin(sum, count, low, high);
    assert 0 <= count * low;
    MulMono(count, 0x1_0000_0000, high);
    SmallQuotient(sum, count, sum / count);
  }

  lemma SmallQuotient(sum: nat, count: nat, q: nat)
    requires count > 0 && sum < WORD && q == sum / count < 0x8000_0000
    ensures Mean(sum, count) == q
  {
    assert sum % WORD == sum;
  }

  function Pow2(n: nat): (p: nat)
    ensures p > 0
  {
    if n == 0 then 1 else 2 * Pow2(n - 1)
  }

  lemma OddTimesOdd(i: nat, j: nat)
    ensures (2 * i + 1) * (2 * j + 1) % 2 == 1
  {
    assert (2 * i + 1) * (2 * j + 1) == 2 * (2 * i * j + i + j) + 1;
  }

  lemma Halved(c: nat, q: nat, h: nat)
    requires c * q == 2 * h
    ensures c % 2 == 0 ==> c / 2 * q == h
    ensures q % 2 == 0 ==> c * (q / 2) == h
    ensures c % 2 == 0 || q % 2 == 0
  {
    var i, j := c / 2, q / 2;
    if c % 2 == 0 {
      assert 2 * i * q == 2 * (i * q);
    }
    if q % 2 == 0 {
      assert c * (2 * j) == 2 * (c * j);
    }
    assert c == 2 * i + c % 2 && q == 2 * j + q % 2;
    OddTimesOdd(i, j);
  }

  /** What a divisor below 2^m leaves of 2^n is a multiple of 2^(n - m). */
  lemma {:induction false} Cofactor(c: nat, q: nat, n: nat, m: nat)
    requires c * q == Pow2(n) && c < Pow2(m) && m <= n
    ensures q % Pow2(n - m) == 0
  {
    if n > m {
      Halved(c, q, Pow2(n - 1));
      if c % 2 == 1 {
        Cofactor(c, q / 2, n - 1, m);
        TwiceDivides(q / 2, Pow2(n - 1 - m));
      } else if m > 0 {
        Cofactor(c / 2, q, n - 1, m - 1);
      }
    }
  }

  lemma TwiceDivides(a: nat, d: nat)
    requires d > 0 && a % d == 0
    ensures 2 * a % (2 * d) == 0
  {
    var k := a / d;
    assert 2 * a == k * (2 * d);
    MultipleOf(k, 2 * d);
  }

  lemma {:induction false} MultipleOf(k: nat, d: nat)
    requires d > 0
    ensures k * d % d == 0 && k * d / d == k
  {
    QuotientIs(k * d, d, k, 0);
  }

  const HALF_WORD := 0x1_0000_0000

  lemma PowersOfTwo()
    ensures Pow2(32) == HALF_WORD && Pow2(64) == WORD
  {
    assert Pow2(8) == 0x100;
    assert Pow2(16) == 0x1_0000;
    assert Pow2(24) == 0x100_0000;
    assert Pow2(32) == 0x1_0000_0000;
    assert Pow2(40) == 0x100_0000_0000;
    assert Pow2(48) == 0x1_0000_0000_0000;
    assert Pow2(56) == 0x100_0000_0000_0000;
  }

  lemma RemainderShows(q: nat, count: nat, r: nat, carry: nat, k: nat)
    requires WORD == q * count + r && q + carry == k * HALF_WORD
    ensures (HALF_WORD - k * count) * HALF_WORD == r - carry * count
  {
    assert (q + carry) * count == k * count * HALF_WORD == q * count + carry * count;
  }

  /** The quotient of the word size, or the next number, is a multiple of the half word exactly if nothing remains. */
  lemma WordQuotient(count: nat, carry: nat)
    requires 0 < count < HALF_WORD && carry <= 1 && (WORD % count == 0 ==> carry == 0)
    ensures (WORD / count + carry) % HALF_WORD == 0 <==> WORD % count == 0
  {
    var q, r := WORD / count, WORD % count;
    assert WORD == q * count + r;
    if r == 0 {
      PowersOfTwo();
      assert count * q == Pow2(64);
      Cofactor(count, q, 64, 32);
    } else if (q + carry) % HALF_WORD == 0 {
      RemainderShows(q, count, r, carry, (q + carry) / HALF_WORD);
    }
  }

  /** Seen as an unsigned word, a negative sum has as quotient its own, that of the word size, and perhaps one more. */
  lemma UnsignedQuotient(sum: int, count: nat) returns (carry: nat)
    requires 0 < count && -WORD <= sum < 0
    ensures carry <= 1 && (WORD % count == 0 ==> carry == 0)
    ensures (sum % WORD) / count == sum / count + WORD / count + carry
  {
    var q, r, q', r' := sum / count, sum % count, WORD / count, WORD % count;
    assert sum == q * count + r && WORD == q' * count + r';
    assert sum % WORD == sum + WORD;
    carry := if r + r' < count then 0 else 1;
    assert (q + q' + carry) * count == q * count + q' * count + carry * count;
    QuotientIs(sum + WORD, count, q + q' + carry, r + r' - carry * count);
  }

  lemma SameLowBits(n: nat, q: int)
    requires -0x8000_0000 <= q < 0 && n >= -q
    ensures ToInt32(q + n) == q <==> n % HALF_WORD == 0
  {
  }

  /**
   * Where the exact mean, rounded down, fits 32 bits, it is what is computed if and only if the sum is not negative or
   * the count divides the word size, that is, is a power of two.
   */
  lemma MeanExactIff(sum: int, count: nat)
    requires 0 < count < HALF_WORD && -0x8000_0000 <= sum / count < 0x8000_0000
    ensures Mean(sum, count) == sum / count <==> sum >= 0 || WORD % count == 0
  {
    if sum < 0 {
      NegativeQuotient(sum, count);
      var carry := UnsignedQuotient(sum, count);
      WordQuotient(count, carry);
      SameLowBits(WORD / count + carry, sum / count);
    } else {
      var q := sum / count;
      assert sum == count * q + sum % count;
      MulMono(q + 1, 0x8000_0000, count);
      SmallQuotient(sum, count, q);
    }
  }

  lemma NegativeQuotient(sum: int, count: nat)
    requires 0 < count < HALF_WORD && sum < 0 && -0x8000_0000 <= sum / count
    ensures sum / count < 0 && -WORD <= sum && HALF_WORD <= WORD / count
  {
    var q := sum / count;
    assert sum == count * q + sum % count;
    Apart(count, -1, q);
    MulMono(-0x8000_0000, q, count);
    assert WORD == count * (WORD / count) + WORD % count;
    Apart(count, WORD / count, HALF_WORD);
  }

  /** The mean of three times -1 is a large positive number. */
  lemma NegativeMean()
    ensures Mean(-3, 3) == 0x5555_5554
  {
    assert -3 % WORD == 0xFFFF_FFFF_FFFF_FFFD;
    assert 0xFFFF_FFFF_FFFF_FFFD / 3 == 0x5555_5555_5555_5554;
  }

  // ----- the program

  /** The nodes sampled from everything an element unfolds to. */
  ghost function Collected(db: Database, e: Element): set<nat>
    requires db.Valid() && !Circular(db, e)
  {
    RunsEmptyIff(db, e);
    var k: nat :| Level(db, [e], k) == [];
    Gathered(db, [e], k)
  }

  lemma CollectedIff(db: Database, e: Element, n: nat)
    requires db.Valid() && !Circular(db, e)
    ensures n in Collected(db, e) <==> exists r :: Met(db, e, r) && n in Sampled(db, r)
  {
    RunsEmptyIff(db, e);
    var k: nat :| Level(db, [e], k) == [] && Collected(db, e) == Gathered(db, [e], k);
    CollectedFromMet(db, e, k, n);
  }

  lemma GatheredIsCollected(db: Database, e: Element, k: nat)
    requires db.Valid() && !Circular(db, e) && Level(db, [e], k) == []
    ensures Gathered(db, [e], k) == Collected(db, e)
  {
    forall n
      ensures n in Gathered(db, [e], k) <==> n in Collected(db, e)
    {
      CollectedFromMet(db, e, k, n);
      CollectedIff(db, e, n);
    }
  }

  /** Unfold an element with a queue and collect the nodes. */
  method CollectNodes(db: Database, element: Element) returns (nodeIds: set<nat>)
    requires db.Valid() && !Circular(db, element)
    ensures nodeIds == Collected(db, element)
  {
    RunsEmptyIff(db, element);
    ghost var k: nat :| Level(db, [element], k) == [];
    nodeIds := {};
    var queue := [element];
    while queue != []
      invariant Level(db, queue, k) == []
      invariant nodeIds + Gathered(db, queue, k) == Gathered(db, [element], k)
      decreases Work(db, queue, k)
    {
      OneElement(db, queue, k);
      var cur := queue[0];
      nodeIds := nodeIds + Sampled(db, cur);
      queue := queue[1..] + Members(db, cur);
    }
    GatheredFromNothing(db, k);
    GatheredIsCollected(db, element, k);
  }

  lemma {:induction false} GatheredFromNothing(db: Database, k: nat)
    requires db.Valid()
    ensures Gathered(db, [], k) == {} && Level(db, [], k) == []
  {
    if k > 0 {
      GatheredFromNothing(db, k - 1);
    }
  }

  function Located(db: Database, nodes: set<nat>): set<nat> {
    set n | n in nodes && n in db.coords
  }

  lemma OneNode(db: Database, todo: set<nat>, n: nat)
    requires n in todo
    ensures var before, after := Located(db, todo), Located(db, todo - {n});
            if n in db.coords then
              && SumOver(X(db), before) == db.coords[n].x + SumOver(X(db), after)
              && SumOver(Y(db), before) == db.coords[n].y + SumOver(Y(db), after)
              && |before| == 1 + |after|
            else before == after
  {
    var before, after := Located(db, todo), Located(db, todo - {n});
    if n in db.coords {
      SumWithout(X(db), before, n);
      SumWithout(Y(db), before, n);
      assert after == before - {n};
    } else {
      assert after == before;
    }
  }

  /** The mean position of those collected nodes whose position is known, where there are any. */
  method CenterOf(db: Database, element: Element) returns (center: Option<Coord>)
    requires db.Valid() && !Circular(db, element)
    ensures var located := Located(db, Collected(db, element));
            center ==
            if located == {} then None
            else Some(Coord(Mean(SumOver(X(db), located), |located|), Mean(SumOver(Y(db), located), |located|)))
  {
    var nodeIds := CollectNodes(db, element);
    ghost var located := Located(db, nodeIds);
    var sumX, sumY, count := 0, 0, 0;
    var todo := nodeIds;
    while todo != {}
      invariant todo <= nodeIds
      invariant sumX + SumOver(X(db), Located(db, todo)) == SumOver(X(db), located)
      invariant sumY + SumOver(Y(db), Located(db, todo)) == SumOver(Y(db), located)
      invariant count + |Located(db, todo)| == |located|
      decreases |todo|
    {
      var nodeId :| nodeId in todo;
      OneNode(db, todo, nodeId);
      if nodeId in db.coords {
        sumX := sumX + db.coords[nodeId].x;
        sumY := sumY + db.coords[nodeId].y;
        count := count + 1;
      }
      todo := todo - {nodeId};
    }
    assert Located(db, {}) == {};
    if count > 0 {
      center := Some(Coord(Mean(sumX, count), Mean(sumY, count)));
    } else {
      center := None;
    }
  }

  /** Where positions are not negative, the center lies in the bounding box of the positions it is taken from. */
  lemma CenterInBox(db: Database, located: set<nat>, low: Coord, high: Coord)
    requires 0 < |located| <= 0x1_0000_0000 && 0 <= low.x && 0 <= low.y && high.x < 0x8000_0000 && high.y < 0x8000_0000
    requires forall n | n in located ::
               n in db.coords && low.x <= db.coords[n].x <= high.x && low.y <= db.coords[n].y <= high.y
    ensures low.x <= Mean(SumOver(X(db), located), |located|) <= high.x
    ensures low.y <= Mean(SumOver(Y(db), located), |located|) <= high.y
  {
    SumBounds(X(db), located, low.x, high.x);
    SumBounds(Y(db), located, low.y, high.y);
    MeanWithin(SumOver(X(db), located), |located|, low.x, high.x);
    MeanWithin(SumOver(Y(db), located), |located|, low.y, high.y);
  }
}
