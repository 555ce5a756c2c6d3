/** Storing simplified ways, and what use counters remember over any run of stored ways and named nodes. */
module WayStore {
  import opened Coordinates
  import opened Counters
  import opened MapIds
  import opened SegmentDistance
  import opened Sequences
  import opened WaySimplification

  /** The counters after one more use of each listed node; a 16-bit counter wraps around. */
  function Counted(uses: map<NodeId, nat>, nodes: seq<NodeId>): map<NodeId, nat>
    requires forall n | n in nodes :: n in uses
  {
    if nodes == [] then uses
    else
      var last := |nodes| - 1;
      var before := Counted(uses, nodes[..last]);
      if nodes[last] in before then before[nodes[last] := Increased(before[nodes[last]])] else before
  }

  lemma {:induction false} CountedKeys(uses: map<NodeId, nat>, nodes: seq<NodeId>)
    requires forall n | n in nodes :: n in uses
    ensures Counted(uses, nodes).Keys == uses.Keys
  {
    if nodes != [] {
      CountedKeys(uses, nodes[..|nodes| - 1]);
      assert nodes[|nodes| - 1] in nodes;
    }
  }

  lemma ModuloAdds(a: nat, b: nat)
    ensures (a % COUNTER_LIMIT + b) % COUNTER_LIMIT == (a + b) % COUNTER_LIMIT
  {
  }

  /** Each counter has grown by the occurrences of its node, modulo its width. */
  lemma {:induction false} CountedAt(uses: map<NodeId, nat>, nodes: seq<NodeId>, n: NodeId)
    requires forall m | m in nodes :: m in uses
    requires n in uses && uses[n] < COUNTER_LIMIT
    ensures n in Counted(uses, nodes)
    ensures Counted(uses, nodes)[n] == (uses[n] + Occurrences(nodes, n)) % COUNTER_LIMIT
  {
    CountedKeys(uses, nodes);
    if nodes != [] {
      var front := nodes[..|nodes| - 1];
      CountedKeys(uses, front);
      CountedAt(uses, front, n);
      assert nodes[|nodes| - 1] in nodes;
      ModuloAdds(uses[n] + Occurrences(front, n), 1);
    }
  }

  /** The shared tables: nodes with their counters, and the ways stored so far. */
  datatype Tables = Tables(nodes: NodeTable, ways: map<WayId, seq<NodeId>>)

  /** What changes the tables: a way is simplified and stored, or a node turns out to have a name. */
  datatype Event = Store(id: WayId, way: seq<NodeId>) | Name(node: NodeId)

  /** The program stops at any other event: unknown nodes, ids taken or 0, oversized ways. */
  predicate Legal(s: Tables, e: Event) {
    && s.nodes.Valid()
    && match e
       case Store(id, way) =>
         |way| >= 2 ==> s.nodes.Knows(way) && |way| <= BUFFER_SIZE && id != 0 && id !in s.ways
       case Name(node) => node in s.nodes.coords
  }

  /** The nodes whose counters an event increases. */
  function Touched(s: Tables, e: Event): seq<NodeId>
    requires Legal(s, e)
  {
    match e
    case Store(_, way) => if |way| < 2 then [] else Simplified(s.nodes, way)
    case Name(node) => [node]
  }

  lemma TouchedKnown(s: Tables, e: Event)
    requires Legal(s, e)
    ensures forall n | n in Touched(s, e) :: n in s.nodes.uses
  {
    if e.Store? && |e.way| >= 2 {
      forall n | n in Simplified(s.nodes, e.way)
        ensures n in s.nodes.uses
      {
        OutputIsInWay(s.nodes, e.way, n);
      }
    }
  }

  function Step(s: Tables, e: Event): Tables
    requires Legal(s, e)
  {
    TouchedKnown(s, e);
    var nodes := s.nodes.(uses := Counted(s.nodes.uses, Touched(s, e)));
    match e
    case Store(id, way) => if |way| < 2 then s else Tables(nodes, s.ways[id := Simplified(s.nodes, way)])
    case Name(_) => s.(nodes := nodes)
  }

  lemma StepCounts(s: Tables, e: Event, n: NodeId)
    requires Legal(s, e) && n in s.nodes.uses
    ensures n in Step(s, e).nodes.uses
    ensures Step(s, e).nodes.uses[n] == (s.nodes.uses[n] + Occurrences(Touched(s, e), n)) % COUNTER_LIMIT
  {
    TouchedKnown(s, e);
    CountedAt(s.nodes.uses, Touched(s, e), n);
    ModuloAdds(s.nodes.uses[n], 0);
  }

  lemma StepKeepsValid(s: Tables, e: Event)
    requires Legal(s, e)
    ensures Step(s, e).nodes.Valid() && Step(s, e).nodes.coords == s.nodes.coords
  {
    TouchedKnown(s, e);
    CountedKeys(s.nodes.uses, Touched(s, e));
    forall n | n in s.nodes.uses
      ensures Step(s, e).nodes.uses[n] < COUNTER_LIMIT
    {
      StepCounts(s, e, n);
    }
  }

  // ----- runs

  ghost predicate HappensAt(states: seq<Tables>, events: seq<Event>, k: nat)
    requires k < |events| < |states|
  {
    Legal(states[k], events[k]) && states[k + 1] == Step(states[k], events[k])
  }

  /** A run: the tables before the first event and after each event. */
  ghost predicate IsRun(states: seq<Tables>, events: seq<Event>) {
    && |states| == |events| + 1
    && states[0].nodes.Valid()
    && forall k | 0 <= k < |events| :: HappensAt(states, events, k)
  }

  /** How often node n was used by the first k events, without any wrap-around. */
  ghost function UseCount(states: seq<Tables>, events: seq<Event>, k: nat, n: NodeId): nat
    requires IsRun(states, events) && k <= |events|
  {
    if k == 0 then 0
    else
      assert HappensAt(states, events, k - 1);
      UseCount(states, events, k - 1, n) + Occurrences(Touched(states[k - 1], events[k - 1]), n)
  }

  /** Event k of the run named n or stored a way that kept n. */
  ghost predicate UsedBy(states: seq<Tables>, events: seq<Event>, k: nat, n: NodeId)
    requires IsRun(states, events) && k < |events|
  {
    assert HappensAt(states, events, k);
    n in Touched(states[k], events[k])
  }

  /** Counters hold the number of uses, modulo their width. */
  lemma {:induction false} CounterIsUseCount(states: seq<Tables>, events: seq<Event>, k: nat, n: NodeId)
    requires IsRun(states, events) && k <= |events| && n in states[0].nodes.uses
    ensures n in states[k].nodes.uses
    ensures states[k].nodes.uses[n] == (states[0].nodes.uses[n] + UseCount(states, events, k, n)) % COUNTER_LIMIT
  {
    if k == 0 {
      ModuloAdds(states[0].nodes.uses[n], 0);
    } else {
      CounterIsUseCount(states, events, k - 1, n);
      assert HappensAt(states, events, k - 1);
      StepCounts(states[k - 1], events[k - 1], n);
      ModuloAdds(states[0].nodes.uses[n] + UseCount(states, events, k - 1, n),
          Occurrences(Touched(states[k - 1], events[k - 1]), n));
    }
  }

  /** A node is counted as used exactly when some earlier event kept or named it. */
  lemma {:induction false} UsedIff(states: seq<Tables>, events: seq<Event>, k: nat, n: NodeId)
    requires IsRun(states, events) && k <= |events|
    ensures UseCount(states, events, k, n) > 0 <==> exists j :: 0 <= j < k && UsedBy(states, events, j, n)
  {
    if k > 0 {
      UsedIff(states, events, k - 1, n);
      assert HappensAt(states, events, k - 1);
      OccursIff(Touched(states[k - 1], events[k - 1]), n);
      assert UsedBy(states, events, k - 1, n) <==> n in Touched(states[k - 1], events[k - 1]);
    }
  }

  /** An event uses the node it names, or those of the way that it has stored. */
  lemma UsedByEvent(states: seq<Tables>, events: seq<Event>, k: nat, n: NodeId)
    requires IsRun(states, events) && k < |events|
    ensures UsedBy(states, events, k, n) <==>
            match events[k]
            case Name(m) => m == n
            case Store(id, way) => |way| >= 2 && id in states[k + 1].ways && n in states[k + 1].ways[id]
  {
    assert HappensAt(states, events, k);
  }

  /** A named node is used once more, and a node of a stored way as often as it occurs in what is stored. */
  lemma UsesOfEvent(states: seq<Tables>, events: seq<Event>, k: nat, n: NodeId)
    requires IsRun(states, events) && k < |events|
    ensures events[k].Name? ==>
              UseCount(states, events, k + 1, n) ==
              UseCount(states, events, k, n) + if events[k].node == n then 1 else 0
    ensures events[k].Store? && |events[k].way| >= 2 ==>
              && events[k].id in states[k + 1].ways
              && var stored := states[k + 1].ways[events[k].id];
                 UseCount(states, events, k + 1, n) == UseCount(states, events, k, n) + Occurrences(stored, n)
    ensures events[k].Store? && |events[k].way| < 2 ==>
              UseCount(states, events, k + 1, n) == UseCount(states, events, k, n)
  {
    assert HappensAt(states, events, k);
    if events[k].Name? {
      assert Occurrences([events[k].node], n) == Occurrences([], n) + if events[k].node == n then 1 else 0;
    }
  }

  /** Storing a way changes no other way and no position, and naming a node changes no way at all. */
  lemma OthersStay(states: seq<Tables>, events: seq<Event>, k: nat)
    requires IsRun(states, events) && k < |events|
    ensures states[k + 1].nodes.coords == states[k].nodes.coords
    ensures forall id | id in states[k].ways ::
              id in states[k + 1].ways && states[k + 1].ways[id] == states[k].ways[id]
    ensures forall id | id in states[k + 1].ways ::
              id in states[k].ways || (events[k].Store? && events[k].id == id && |events[k].way| >= 2)
  {
    assert HappensAt(states, events, k);
  }

  ghost predicate FreshRun(states: seq<Tables>, events: seq<Event>) {
    IsRun(states, events) && forall n | n in states[0].nodes.uses :: states[0].nodes.uses[n] == 0
  }

  /** Some split of the way happens at index i. */
  predicate IsSplit(t: NodeTable, way: seq<NodeId>, a: nat, b: nat, i: nat)
    requires a < i < b < |way|
    decreases b - a
  {
    Splits(t, way, a, b) &&
    var d := SplitPoint(t, way, a, b);
    i == d || (if i < d then IsSplit(t, way, a, d, i) else IsSplit(t, way, d, b, i))
  }

  lemma {:induction false} SurvivesIff(t: NodeTable, way: seq<NodeId>, a: nat, b: nat, i: nat)
    requires a < i < b < |way| && t.Knows(way)
    ensures Survives(t, way, a, b, i) <==> IsSplit(t, way, a, b, i) || t.uses[way[i]] != 0
    decreases b - a
  {
    if Splits(t, way, a, b) {
      var d := SplitPoint(t, way, a, b);
      if i < d {
        SurvivesIff(t, way, a, d, i);
      } else if i > d {
        SurvivesIff(t, way, d, b, i);
      }
    }
  }

  lemma SmallModulo(u: nat)
    requires u < COUNTER_LIMIT
    ensures u % COUNTER_LIMIT == u
  {
  }

  /** Started from zero, a counter is the use count modulo its width. */
  lemma FreshCounter(states: seq<Tables>, events: seq<Event>, k: nat, n: NodeId)
    requires FreshRun(states, events) && k <= |events| && n in states[0].nodes.uses
    ensures n in states[k].nodes.uses && states[k].nodes.uses[n] == UseCount(states, events, k, n) % COUNTER_LIMIT
  {
    CounterIsUseCount(states, events, k, n);
  }

  lemma KeptNow(t: NodeTable, way: seq<NodeId>, i: nat)
    requires 0 < i < |way| - 1 && t.Knows(way)
    ensures way[i] in t.uses
    ensures Keeps(t, way, i) <==> IsSplit(t, way, 0, |way| - 1, i) || t.uses[way[i]] != 0
  {
    assert way[i] in way;
    SurvivesIff(t, way, 0, |way| - 1, i);
  }

  /**
   * At any moment of a run that started with fresh counters, an inner node of a way is kept if
   * and only if it is a split point or its uses so far are not a multiple of the counter's width.
   */
  lemma KeptIff(states: seq<Tables>, events: seq<Event>, k: nat, way: seq<NodeId>, i: nat)
    requires FreshRun(states, events) && k <= |events| && states[k].nodes.Knows(way)
    requires 0 < i < |way| - 1
    ensures Keeps(states[k].nodes, way, i)
       <==> IsSplit(states[k].nodes, way, 0, |way| - 1, i) || UseCount(states, events, k, way[i]) % COUNTER_LIMIT != 0
  {
    KeptNow(states[k].nodes, way, i);
    UsesStayKnown(states, events, k, way[i]);
    FreshCounter(states, events, k, way[i]);
  }

  lemma {:induction false} UsesStayKnown(states: seq<Tables>, events: seq<Event>, k: nat, n: NodeId)
    requires IsRun(states, events) && k <= |events| && n in states[k].nodes.uses
    ensures n in states[0].nodes.uses
  {
    if k > 0 {
      assert HappensAt(states, events, k - 1);
      TouchedKnown(states[k - 1], events[k - 1]);
      CountedKeys(states[k - 1].nodes.uses, Touched(states[k - 1], events[k - 1]));
      UsesStayKnown(states, events, k - 1, n);
    }
  }

  /**
   * Junctions stick: a node that event j named or kept in a stored way is kept, at each place it
   * occurs, in the way stored by any later event k, as long as its counter has not overflowed.
   */
  lemma JunctionsStick(states: seq<Tables>, events: seq<Event>, j: nat, k: nat, i: nat)
    requires FreshRun(states, events) && j < k < |events|
    requires events[k].Store? && |events[k].way| >= 2 && i < |events[k].way|
    requires UsedBy(states, events, j, events[k].way[i])
    requires UseCount(states, events, k, events[k].way[i]) < COUNTER_LIMIT
    ensures HappensAt(states, events, k) && Keeps(states[k].nodes, events[k].way, i)
    ensures events[k].id in states[k + 1].ways && events[k].way[i] in states[k + 1].ways[events[k].id]
  {
    var way := events[k].way;
    assert HappensAt(states, events, k);
    UsedIff(states, events, k, way[i]);
    if 0 < i < |way| - 1 {
      SmallModulo(UseCount(states, events, k, way[i]));
      KeptIff(states, events, k, way, i);
    }
    KeptIsInOutput(states[k].nodes, way, i);
  }

  /** Without overflow, counters never decrease. */
  lemma CountersGrow(states: seq<Tables>, events: seq<Event>, j: nat, k: nat, n: NodeId)
    requires FreshRun(states, events) && j <= k <= |events| && n in states[0].nodes.uses
    requires UseCount(states, events, k, n) < COUNTER_LIMIT
    ensures n in states[j].nodes.uses && n in states[k].nodes.uses
    ensures states[j].nodes.uses[n] <= states[k].nodes.uses[n]
  {
    FreshCounter(states, events, j, n);
    FreshCounter(states, events, k, n);
    UseCountGrows(states, events, j, k, n);
    SmallModulo(UseCount(states, events, j, n));
    SmallModulo(UseCount(states, events, k, n));
  }

  lemma {:induction false} UseCountGrows(states: seq<Tables>, events: seq<Event>, j: nat, k: nat, n: NodeId)
    requires IsRun(states, events) && j <= k <= |events|
    ensures UseCount(states, events, j, n) <= UseCount(states, events, k, n)
    decreases k - j
  {
    if j < k {
      UseCountGrows(states, events, j, k - 1, n);
    }
  }

  /** Stored ways have at least two nodes: the first and the last one of the way are never lost. */
  lemma StoredWayHasEnds(s: Tables, id: WayId, way: seq<NodeId>)
    requires Legal(s, Store(id, way)) && |way| >= 2
    ensures var out := Step(s, Store(id, way)).ways[id];
            |out| >= 2 && out[0] == way[0] && out[|out| - 1] == way[|way| - 1]
  {
    EndsRemain(s.nodes, way);
  }

  /** A counter that overflows forgets: named once more, a node on a straight way is dropped again. */
  lemma OverflowForgets(s: Tables, a: NodeId, n: NodeId, b: NodeId)
    requires s.nodes.Valid() && s.nodes.Knows([a, n, b]) && n in [a, n, b]
    requires s.nodes.uses[n] == COUNTER_LIMIT - 1
    requires s.nodes.Distance(a, n, b) <= EPSILON
    ensures Simplified(s.nodes, [a, n, b]) == [a, n, b]
    ensures var after := Step(s, Name(n)).nodes;
            after.Knows([a, n, b]) && Simplified(after, [a, n, b]) == [a, b]
  {
    var after := Step(s, Name(n)).nodes;
    StepKeepsValid(s, Name(n));
    StepCounts(s, Name(n), n);
    assert Occurrences([n], n) == 1 by {
      assert Occurrences([n][..0], n) == 0;
    }
    SimplifiedTriple(s.nodes, a, n, b);
    SimplifiedTriple(after, a, n, b);
  }

  lemma SimplifiedTriple(t: NodeTable, a: NodeId, n: NodeId, b: NodeId)
    requires t.Knows([a, n, b]) && n in [a, n, b] && t.Distance(a, n, b) <= EPSILON
    ensures Simplified(t, [a, n, b]) == if t.uses[n] != 0 then [a, n, b] else [a, b]
  {
    var way := [a, n, b];
    assert way[1] == n;
    FarthestMeaning(t, way, 0, 2, 2);
    assert !Splits(t, way, 0, 2);
    assert KeptAmong(t, way, 1) == [a] by {
      assert KeptAmong(t, way, 0) == [];
    }
    assert KeptAmong(t, way, 2) == if t.uses[n] != 0 then [a, n] else [a];
  }

  // ----- a run that reaches the overflow

  lemma SimplifiedPair(t: NodeTable, a: NodeId, n: NodeId)
    requires t.Knows([a, n])
    ensures Simplified(t, [a, n]) == [a, n]
  {
    assert KeptAmong(t, [a, n], 0) == [];
    assert KeptAmong(t, [a, n], 1) == [a];
  }

  lemma OneMoreEvent(states: seq<Tables>, events: seq<Event>, e: Event)
    requires IsRun(states, events) && Legal(states[|events|], e)
    ensures IsRun(states + [Step(states[|events|], e)], events + [e])
  {
    var more, longer := states + [Step(states[|events|], e)], events + [e];
    forall k | 0 <= k < |longer|
      ensures HappensAt(more, longer, k)
    {
      assert k < |events| ==> HappensAt(states, events, k);
    }
  }

  /** Only ways from a to n have been stored, one after the other, and only their numbers are taken. */
  ghost predicate PairsStored(states: seq<Tables>, events: seq<Event>, a: NodeId, n: NodeId) {
    && IsRun(states, events)
    && (forall k | 0 <= k < |events| :: events[k] == Store(k + 1, [a, n]))
    && forall id | id in states[|events|].ways :: 1 <= id <= |events|
  }

  /** A table after a way from a to n was stored. */
  lemma PairStep(s: Tables, id: WayId, a: NodeId, n: NodeId)
    requires Legal(s, Store(id, [a, n])) && a != n
    ensures var after := Step(s, Store(id, [a, n]));
            && after.nodes.Valid() && after.nodes.coords == s.nodes.coords && after.nodes.metric == s.nodes.metric
            && after.nodes.Knows([a, n]) && after.ways == s.ways[id := [a, n]]
            && n in s.nodes.uses && after.nodes.uses[n] == (s.nodes.uses[n] + 1) % COUNTER_LIMIT
  {
    var e := Store(id, [a, n]);
    assert n in [a, n];
    SimplifiedPair(s.nodes, a, n);
    StepKeepsValid(s, e);
    StepCounts(s, e, n);
    assert [a, n][..1] == [a] && [a][..0] == [];
    assert Occurrences([a, n], n) == Occurrences([a], n) + 1 && Occurrences([a], n) == 0;
  }

  /** Ways from a to n, stored one after the other. */
  lemma {:induction false} StorePairs(s: Tables, a: NodeId, n: NodeId, k: nat)
    returns (states: seq<Tables>, events: seq<Event>)
    requires s.nodes.Valid() && s.nodes.Knows([a, n]) && a != n && s.ways == map[]
    ensures PairsStored(states, events, a, n) && states[0] == s && |events| == k
    ensures var t := states[k].nodes;
            t.Valid() && t.coords == s.nodes.coords && t.metric == s.nodes.metric && t.Knows([a, n])
  {
    if k == 0 {
      states, events := [s], [];
    } else {
      states, events := StorePairs(s, a, n, k - 1);
      var last, e := states[k - 1], Store(k, [a, n]);
      assert Legal(last, e);
      OneMoreEvent(states, events, e);
      PairStep(last, k, a, n);
      states, events := states + [Step(last, e)], events + [e];
    }
  }

  /** Nodes stay known, with their coordinates, throughout a run. */
  lemma {:induction false} KnownThroughout(states: seq<Tables>, events: seq<Event>, k: nat, way: seq<NodeId>)
    requires IsRun(states, events) && k <= |events| && states[0].nodes.Knows(way)
    ensures states[k].nodes.Valid() && states[k].nodes.Knows(way)
    ensures states[k].nodes.coords == states[0].nodes.coords && states[k].nodes.metric == states[0].nodes.metric
  {
    if k > 0 {
      KnownThroughout(states, events, k - 1, way);
      assert HappensAt(states, events, k - 1);
      StepKeepsValid(states[k - 1], events[k - 1]);
    }
  }

  lemma {:induction false} PairsCount(states: seq<Tables>, events: seq<Event>, a: NodeId, n: NodeId, k: nat)
    requires PairsStored(states, events, a, n) && k <= |events| && states[0].nodes.Knows([a, n]) && a != n
    ensures n in states[0].nodes.uses && n in states[k].nodes.uses
    ensures states[k].nodes.uses[n] == (states[0].nodes.uses[n] + k) % COUNTER_LIMIT
  {
    assert n in [a, n];
    if k == 0 {
      ModuloAdds(states[0].nodes.uses[n], 0);
    } else {
      PairsCount(states, events, a, n, k - 1);
      assert HappensAt(states, events, k - 1);
      PairStep(states[k - 1], k, a, n);
      ModuloAdds(states[0].nodes.uses[n] + (k - 1), 1);
    }
  }

  /**
   * From fresh counters, a straight way through n keeps it if and only if the number of the ways stored is not a
   * multiple of 65536.
   */
  lemma KeptAfterPairs(states: seq<Tables>, events: seq<Event>, a: NodeId, n: NodeId, b: NodeId, k: nat)
    requires PairsStored(states, events, a, n) && k <= |events| && a != n
    requires states[0].nodes.Knows([a, n, b]) && n in states[0].nodes.uses && states[0].nodes.uses[n] == 0
    requires states[0].nodes.Distance(a, n, b) <= EPSILON
    ensures states[k].nodes.Knows([a, n, b])
    ensures Simplified(states[k].nodes, [a, n, b]) == if k % 65536 != 0 then [a, n, b] else [a, b]
  {
    assert n in [a, n, b] && a in [a, n, b];
    KnownThroughout(states, events, k, [a, n, b]);
    PairsCount(states, events, a, n, k);
    SimplifiedTriple(states[k].nodes, a, n, b);
  }

  /**
   * From fresh counters: after 65535 stored ways that end at n, a straight way through n keeps it; after one more of
   * them it does not, although all of them use n.
   */
  lemma OverflowReached(s: Tables, a: NodeId, n: NodeId, b: NodeId) returns (states: seq<Tables>, events: seq<Event>)
    requires s.nodes.Valid() && s.ways == map[] && (forall m | m in s.nodes.uses :: s.nodes.uses[m] == 0)
    requires s.nodes.Knows([a, n, b]) && a != n && s.nodes.Distance(a, n, b) <= EPSILON
    ensures PairsStored(states, events, a, n) && FreshRun(states, events) && |events| == COUNTER_LIMIT && states[0] == s
    ensures forall k | 0 <= k < COUNTER_LIMIT :: UsedBy(states, events, k, n)
    ensures var before, after := states[COUNTER_LIMIT - 1].nodes, states[COUNTER_LIMIT].nodes;
            && before.Knows([a, n, b]) && Simplified(before, [a, n, b]) == [a, n, b]
            && after.Knows([a, n, b]) && Simplified(after, [a, n, b]) == [a, b]
  {
    assert n in [a, n, b] && a in [a, n, b];
    states, events := StorePairs(s, a, n, COUNTER_LIMIT);
    forall k | 0 <= k < COUNTER_LIMIT
      ensures UsedBy(states, events, k, n)
    {
      assert HappensAt(states, events, k) && n in [a, n];
      SimplifiedPair(states[k].nodes, a, n);
    }
    KeptAfterPairs(states, events, a, n, b, COUNTER_LIMIT - 1);
    KeptAfterPairs(states, events, a, n, b, COUNTER_LIMIT);
  }

  // ----- the program

  /** The importer's simplification stage with its static buffer. */
  class WaySimplifier {
    var nodes: NodeTable
    var ways: map<WayId, seq<NodeId>>
    const buffer: array<NodeId>

    ghost predicate Valid()
      reads this
    {
      nodes.Valid() && nodes.metric == ToSegment && buffer.Length == BUFFER_SIZE
    }

    ghost function State(): Tables
      reads this
    {
      Tables(nodes, ways)
    }

    constructor (nodes: NodeTable)
      requires nodes.Valid() && nodes.metric == ToSegment
      ensures Valid() && State() == Tables(nodes, map[]) && fresh(buffer)
    {
      this.nodes := nodes;
      ways := map[];
      buffer := new NodeId[BUFFER_SIZE];
    }

    method IncreaseCounter(n: NodeId)
      requires Valid() && n in nodes.uses
      modifies this`nodes
      ensures Valid() && nodes.coords == old(nodes.coords) && nodes.metric == old(nodes.metric)
      ensures nodes.uses == old(nodes.uses)[n := Increased(old(nodes.uses)[n])]
    {
      nodes := nodes.(uses := nodes.uses[n := Increased(nodes.uses[n])]);
    }

    method NameNode(n: NodeId)
      requires Valid() && Legal(State(), Name(n))
      modifies this`nodes
      ensures Valid() && State() == Step(old(State()), Name(n))
    {
      ghost var before := State();
      IncreaseCounter(n);
      assert Counted(before.nodes.uses, [n][..0]) == before.nodes.uses;
    }

    /** Simplify a way, count its remaining nodes as used, and store it. */
    method SimplifyWay(id: WayId, way: seq<NodeId>)
      requires Valid() && Legal(State(), Store(id, way))
      modifies this`nodes, this`ways, buffer
      ensures Valid() && State() == Step(old(State()), Store(id, way))
    {
      if |way| < 2 {
        return;
      }
      var size := ApplyRamerDouglasPeucker(nodes, way, buffer);
      ghost var before := State();
      EndsRemain(nodes, way);
      if size < 2 {
        assert false;
      }
      var stored := buffer[..size];
      TouchedKnown(before, Store(id, way));
      for k := 0 to size
        invariant Valid() && nodes.coords == before.nodes.coords && nodes.metric == before.nodes.metric
                  && ways == before.ways && buffer[..size] == stored
        invariant forall n | n in stored[..k] :: n in before.nodes.uses
        invariant nodes.uses.Keys == before.nodes.uses.Keys
        invariant nodes.uses == Counted(before.nodes.uses, stored[..k])
      {
        assert stored[..k + 1][..k] == stored[..k];
        assert buffer[k] == stored[k];
        IncreaseCounter(buffer[k]);
      }
      assert stored[..size] == stored;
      ways := ways[id := stored];
    }
  }
}
