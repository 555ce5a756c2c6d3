/** Which nodes the center of an element is taken from, said without the queue, and the center of a single node. */
module CenterSamples {
  import opened Coordinates
  import opened Counters
  import opened ElementCenter
  import opened Options
  import opened Sequences

  // ----- which nodes of a way are sampled

  /** The sampled places in order: the ends and, the longer the way is, the middle, the quarters and the eighths. */
  function SamplesInOrder(n: nat): seq<nat>
    requires n > 0
  {
    if n == 1 then [0]
    else if n < 4 then [0, n - 1]
    else if n < 7 then [0, n / 2, n - 1]
    else if n < 13 then [0, n / 4, n / 2, n * 3 / 4, n - 1]
    else [0, n / 8, n / 4, n * 3 / 8, n / 2, n * 5 / 8, n * 3 / 4, n * 7 / 8, n - 1]
  }

  function PlaceSet(s: seq<nat>): set<nat> {
    set x | x in s
  }

  lemma OneMorePlace(s: seq<nat>, x: nat)
    requires x !in s
    ensures |PlaceSet(s + [x])| == |PlaceSet(s)| + 1
  {
    assert PlaceSet(s + [x]) == PlaceSet(s) + {x};
  }

  lemma {:induction false} AsManyAsPlaces(s: seq<nat>)
    requires Increasing(s)
    ensures |PlaceSet(s)| == |s|
  {
    if s != [] {
      var front, last := s[..|s| - 1], s[|s| - 1];
      AsManyAsPlaces(front);
      OneMorePlace(front, last);
      assert s == front + [last];
    }
  }

  lemma QuartersIncrease(n: nat)
    requires 7 <= n
    ensures 0 < n / 4 < n / 2 < n * 3 / 4 < n - 1
  {
  }

  lemma EighthsIncrease(n: nat)
    requires 13 <= n
    ensures 0 < n / 8 < n / 4 < n * 3 / 8 < n / 2
    ensures n / 2 < n * 5 / 8 < n * 3 / 4 < n * 7 / 8 < n - 1
  {
  }

  lemma SamplesIncrease(n: nat)
    requires n > 0
    ensures Increasing(SamplesInOrder(n))
  {
    if n >= 13 {
      EighthsIncrease(n);
      NineInOrder(n, n / 8, n / 4, n * 3 / 8, n / 2, n * 5 / 8, n * 3 / 4, n * 7 / 8);
    } else if n >= 7 {
      QuartersIncrease(n);
    }
  }

  /** The samples are these places, each once: one, two, three, five or nine of them. */
  lemma SamplesAre(n: nat)
    requires n > 0
    ensures SampleIndices(n) == PlaceSet(SamplesInOrder(n))
    ensures Increasing(SamplesInOrder(n)) && |SampleIndices(n)| == |SamplesInOrder(n)|
  {
    SamplesIncrease(n);
    AsManyAsPlaces(SamplesInOrder(n));
    PlacesAreSamples(n);
  }

  lemma PlacesAreSamples(n: nat)
    requires n > 0
    ensures PlaceSet(SamplesInOrder(n)) == SampleIndices(n)
  {
  }

  lemma NineInOrder(n: nat, a: nat, b: nat, c: nat, d: nat, e: nat, f: nat, g: nat)
    requires 0 < a < b < c < d < e < f < g < n - 1
    ensures Increasing([0, a, b, c, d, e, f, g, n - 1])
  {
  }

  // ----- what is collected, element by element

  lemma CollectedWithoutMembers(db: Database, e: Element)
    requires db.Valid() && !Circular(db, e) && Members(db, e) == []
    ensures Collected(db, e) == Sampled(db, e)
  {
    RunsEmptyIff(db, e);
    var k: nat :| Level(db, [e], k) == [];
    GatheredIsCollected(db, e, k);
    ElementFirst(db, e, k);
    GatheredFromNothing(db, k);
  }

  /** Of a node the node itself is collected, and of an element of unknown type nothing. */
  lemma CollectedOfNode(db: Database, id: nat)
    requires db.Valid()
    ensures Collected(db, Node(id)) == {id} && Collected(db, Unknown(id)) == {}
  {
    CollectedWithoutMembers(db, Node(id));
    CollectedWithoutMembers(db, Unknown(id));
  }

  /** Of a way the nodes at the sampled places are collected, and of a way that is not known nothing. */
  lemma CollectedOfWay(db: Database, id: nat, n: nat)
    requires db.Valid()
    ensures n in Collected(db, Way(id)) <==>
            id in db.ways && exists i :: i in SampleIndices(|db.ways[id]|) && i < |db.ways[id]| && db.ways[id][i] == n
  {
    CollectedWithoutMembers(db, Way(id));
    if id in db.ways {
      SamplesInRange(|db.ways[id]|);
    }
  }

  lemma {:induction false} GatheredOfMany(db: Database, queue: seq<Element>, k: nat, n: nat)
    requires db.Valid()
    ensures n in Gathered(db, queue, k) <==> exists m :: m in queue && n in Gathered(db, [m], k)
    ensures Level(db, queue, k) == [] ==> forall m | m in queue :: Level(db, [m], k) == []
  {
    if queue == [] {
      GatheredFromNothing(db, k);
    } else {
      assert queue == [queue[0]] + queue[1..];
      GatheredOfMany(db, queue[1..], k, n);
      GatheredSplit(db, [queue[0]], queue[1..], k);
      LevelSplit(db, [queue[0]], queue[1..], k);
      assert forall m :: m in queue <==> m == queue[0] || m in queue[1..];
    }
  }

  /** Of a relation that is collected which is collected of one of its members. */
  lemma CollectedOfRelation(db: Database, id: nat, n: nat)
    requires db.Valid() && !Circular(db, Relation(id))
    ensures id in db.relations ==> forall m | m in db.relations[id] :: !Circular(db, m)
    ensures n in Collected(db, Relation(id)) <==>
            id in db.relations && exists m :: m in db.relations[id] && !Circular(db, m) && n in Collected(db, m)
  {
    var e, members := Relation(id), Members(db, Relation(id));
    RunsEmptyIff(db, e);
    var k: nat :| Level(db, [e], k) == [];
    GatheredIsCollected(db, e, k);
    ElementFirst(db, e, k);
    GatheredOfMany(db, members, k, n);
    if id in db.relations {
      ReversedMembers(db.relations[id]);
      forall m | m in db.relations[id]
        ensures !Circular(db, m) && Gathered(db, [m], k) == Collected(db, m)
      {
        assert m in members;
        RunsEmptyIff(db, m);
        GatheredIsCollected(db, m, k);
      }
    }
  }

  // ----- the center of a node

  lemma MeanOfOne(x: int)
    requires FitsInt32(x)
    ensures Mean(x, 1) == x
  {
    MeanExactIff(x, 1);
  }

  lemma SumOfOne(f: nat -> int, n: nat)
    ensures SumOver(f, {n}) == f(n)
  {
    SumWithout(f, {n}, n);
    assert {n} - {n} == {};
  }

  /** The center of a node is its own position, negative or not. */
  method CenterOfNode(db: Database, id: nat) returns (center: Option<Coord>)
    requires db.Valid()
    requires id in db.coords ==> FitsInt32(db.coords[id].x) && FitsInt32(db.coords[id].y)
    ensures center == if id in db.coords then Some(db.coords[id]) else None
  {
    center := CenterOf(db, Node(id));
    CollectedOfNode(db, id);
    ghost var located := Located(db, {id});
    if id in db.coords {
      assert located == {id};
      SumOfOne(X(db), id);
      SumOfOne(Y(db), id);
      MeanOfOne(db.coords[id].x);
      MeanOfOne(db.coords[id].y);
    } else {
      assert located == {};
    }
  }
}
