/** Ways lose the nodes that lie close to a straight line, unless another way or a name needs them. */
module WaySimplification {
  import opened Coordinates
  import opened Counters
  import opened MapIds
  import opened SegmentDistance

  const EPSILON := 400  // a corridor of 2 m, squared, in decimetres
  const BUFFER_SIZE := 8192

  /** Squared distance from the second coordinate to the segment between the first and the third. */
  type Metric = (Coord, Coord, Coord) -> nat

  /**
   * The nodes of the map: their coordinates, how often each is known to be needed (16 bits), and
   * the distance in use, which is ToSegment in the program.
   */
  datatype NodeTable = NodeTable(coords: map<NodeId, Coord>, uses: map<NodeId, nat>, metric: Metric) {
    predicate Valid() {
      uses.Keys == coords.Keys && forall n | n in uses :: uses[n] < COUNTER_LIMIT
    }

    predicate Knows(way: seq<NodeId>) {
      forall n | n in way :: n != 0 && n in coords && n in uses
    }

    /** The squared distance between a node and the segment of two others; 0 when one of them is unknown. */
    function Distance(a: NodeId, between: NodeId, b: NodeId): nat {
      if a in coords && between in coords && b in coords then metric(coords[a], coords[between], coords[b]) else 0
    }
  }

  /** The candidate for a split: a squared distance and the index it occurs at. */
  datatype Best = Best(distance: int, index: int)

  // ----- specification: recursive Ramer-Douglas-Peucker

  /** The first of the most distant nodes among the indices after a and before i. */
  function Farthest(t: NodeTable, way: seq<NodeId>, a: nat, b: nat, i: nat): Best
    requires a < i <= b < |way|
  {
    if i == a + 1 then Best(-1, -1)
    else
      var best := Farthest(t, way, a, b, i - 1);
      var d := t.Distance(way[a], way[i - 1], way[b]);
      if d > best.distance then Best(d, i - 1) else best
  }

  lemma {:induction false} FarthestMeaning(t: NodeTable, way: seq<NodeId>, a: nat, b: nat, i: nat)
    requires a < i <= b < |way|
    ensures var best := Farthest(t, way, a, b, i);
            && (forall j | a < j < i :: t.Distance(way[a], way[j], way[b]) <= best.distance)
            && (best.distance >= 0 ==>
                  a < best.index < i && best.distance == t.Distance(way[a], way[best.index], way[b]))
            && (forall j | a < j < i && j < best.index :: t.Distance(way[a], way[j], way[b]) < best.distance)
  {
    if i > a + 1 {
      FarthestMeaning(t, way, a, b, i - 1);
    }
  }

  predicate Splits(t: NodeTable, way: seq<NodeId>, a: nat, b: nat)
    requires a < b < |way|
  {
    Farthest(t, way, a, b, b).distance > EPSILON
  }

  function SplitPoint(t: NodeTable, way: seq<NodeId>, a: nat, b: nat): (d: nat)
    requires a < b < |way| && Splits(t, way, a, b)
    ensures a < d < b
  {
    FarthestMeaning(t, way, a, b, b);
    Farthest(t, way, a, b, b).index
  }

  /** Does the node at index i survive the simplification of the stretch from a to b? */
  predicate Survives(t: NodeTable, way: seq<NodeId>, a: nat, b: nat, i: nat)
    requires a < i < b < |way| && t.Knows(way)
    decreases b - a
  {
    if Splits(t, way, a, b) then
      var d := SplitPoint(t, way, a, b);
      i == d || (if i < d then Survives(t, way, a, d, i) else Survives(t, way, d, b, i))
    else
      t.uses[way[i]] != 0
  }

  predicate Keeps(t: NodeTable, way: seq<NodeId>, i: nat)
    requires i < |way| && t.Knows(way)
  {
    i == 0 || i == |way| - 1 || Survives(t, way, 0, |way| - 1, i)
  }

  function KeptAmong(t: NodeTable, way: seq<NodeId>, n: nat): seq<NodeId>
    requires n <= |way| && t.Knows(way)
  {
    if n == 0 then [] else KeptAmong(t, way, n - 1) + if Keeps(t, way, n - 1) then [way[n - 1]] else []
  }

  function Simplified(t: NodeTable, way: seq<NodeId>): seq<NodeId>
    requires t.Knows(way)
  {
    KeptAmong(t, way, |way|)
  }

  // ----- what simplification promises

  /** The output visits kept indices in increasing order, all of them: it is a subsequence of the way. */
  ghost function KeptIndices(t: NodeTable, way: seq<NodeId>, n: nat): seq<nat>
    requires n <= |way| && t.Knows(way)
  {
    if n == 0 then [] else KeptIndices(t, way, n - 1) + if Keeps(t, way, n - 1) then [n - 1] else []
  }

  lemma {:induction false} IndicesOfKept(t: NodeTable, way: seq<NodeId>, n: nat)
    requires n <= |way| && t.Knows(way)
    ensures var idx := KeptIndices(t, way, n);
            && |KeptAmong(t, way, n)| == |idx|
            && (forall k | 0 <= k < |idx| ::
                  idx[k] < n && KeptAmong(t, way, n)[k] == way[idx[k]] && Keeps(t, way, idx[k]))
            && (forall k, m | 0 <= k < m < |idx| :: idx[k] < idx[m])
            && (forall i | 0 <= i < n && Keeps(t, way, i) :: i in idx)
  {
    if n > 0 {
      IndicesOfKept(t, way, n - 1);
    }
  }

  lemma EndsOfIncreasing(idx: seq<nat>, first: nat, last: nat, most: nat)
    requires first < |idx| && last < |idx| && forall k, m | 0 <= k < m < |idx| :: idx[k] < idx[m]
    requires idx[first] == 0 && idx[last] == most && forall k | 0 <= k < |idx| :: idx[k] <= most
    ensures first == 0 && last == |idx| - 1
  {
    var least, greatest := idx[0], idx[|idx| - 1];
  }

  /** At least two nodes remain, the first and the last one among them. */
  lemma EndsRemain(t: NodeTable, way: seq<NodeId>)
    requires |way| >= 2 && t.Knows(way)
    ensures var out := Simplified(t, way);
            |out| >= 2 && out[0] == way[0] && out[|out| - 1] == way[|way| - 1]
  {
    IndicesOfKept(t, way, |way|);
    var idx := KeptIndices(t, way, |way|);
    assert Keeps(t, way, 0) && Keeps(t, way, |way| - 1);
    assert 0 in idx && |way| - 1 in idx;
    var first :| 0 <= first < |idx| && idx[first] == 0;
    var last :| 0 <= last < |idx| && idx[last] == |way| - 1;
    EndsOfIncreasing(idx, first, last, |way| - 1);
  }

  /** A node with a nonzero counter is never removed. */
  lemma {:induction false} NeededSurvives(t: NodeTable, way: seq<NodeId>, a: nat, b: nat, i: nat)
    requires a < i < b < |way| && t.Knows(way)
    requires t.uses[way[i]] != 0
    ensures Survives(t, way, a, b, i)
    decreases b - a
  {
    if Splits(t, way, a, b) {
      var d := SplitPoint(t, way, a, b);
      if i < d {
        NeededSurvives(t, way, a, d, i);
      } else if i > d {
        NeededSurvives(t, way, d, b, i);
      }
    }
  }

  lemma NeededKept(t: NodeTable, way: seq<NodeId>, i: nat)
    requires i < |way| && t.Knows(way) && t.uses[way[i]] != 0
    ensures Keeps(t, way, i)
  {
    if 0 < i < |way| - 1 {
      NeededSurvives(t, way, 0, |way| - 1, i);
    }
  }

  ghost predicate KeptWithin(t: NodeTable, way: seq<NodeId>, a: nat, b: nat, i: nat)
    requires a <= i <= b < |way| && t.Knows(way)
  {
    i == a || i == b || Survives(t, way, a, b, i)
  }

  /** A removed node was unneeded and close to a segment whose two end nodes are kept. */
  lemma {:induction false} RemovedWasClose(t: NodeTable, way: seq<NodeId>, a: nat, b: nat, i: nat)
    returns (l: nat, r: nat)
    requires a < i < b < |way| && t.Knows(way)
    requires !Survives(t, way, a, b, i)
    ensures a <= l < i < r <= b
    ensures KeptWithin(t, way, a, b, l) && KeptWithin(t, way, a, b, r)
    ensures t.Distance(way[l], way[i], way[r]) <= EPSILON
    ensures t.uses[way[i]] == 0
    decreases b - a
  {
    if Splits(t, way, a, b) {
      var d := SplitPoint(t, way, a, b);
      if i < d {
        l, r := RemovedWasClose(t, way, a, d, i);
      } else {
        l, r := RemovedWasClose(t, way, d, b, i);
      }
    } else {
      FarthestMeaning(t, way, a, b, b);
      l, r := a, b;
    }
  }

  /**
   * Every node that is left out lies within the corridor around the exact segment between two
   * nodes of the output, and nobody needed it.
   */
  lemma CorridorOfWay(t: NodeTable, way: seq<NodeId>, i: nat) returns (l: nat, r: nat)
    requires t.metric == ToSegment
    requires i < |way| && t.Knows(way) && !Keeps(t, way, i)
    ensures l < i < r < |way| && Keeps(t, way, l) && Keeps(t, way, r)
    ensures way[l] in Simplified(t, way) && way[r] in Simplified(t, way)
    ensures InCorridor(t.coords[way[l]], t.coords[way[i]], t.coords[way[r]])
    ensures t.uses[way[i]] == 0
  {
    l, r := RemovedWasClose(t, way, 0, |way| - 1, i);
    assert way[l] in way && way[i] in way && way[r] in way;
    CloseIsInCorridor(t.coords[way[l]], t.coords[way[i]], t.coords[way[r]]);
    KeptIsInOutput(t, way, l);
    KeptIsInOutput(t, way, r);
  }

  lemma KeptIsInOutput(t: NodeTable, way: seq<NodeId>, i: nat)
    requires i < |way| && t.Knows(way) && Keeps(t, way, i)
    ensures way[i] in Simplified(t, way)
  {
    IndicesOfKept(t, way, |way|);
    var idx := KeptIndices(t, way, |way|);
    var k :| 0 <= k < |idx| && idx[k] == i;
    assert Simplified(t, way)[k] == way[i];
  }

  lemma OutputIsInWay(t: NodeTable, way: seq<NodeId>, n: NodeId)
    requires t.Knows(way) && n in Simplified(t, way)
    ensures n in way
  {
    IndicesOfKept(t, way, |way|);
  }

  // ----- the program: an explicit stack over one array

  /** Search the stretch between a and b for its most distant node, skipping removed ones. */
  method FindFarthest(t: NodeTable, ghost way: seq<NodeId>, result: array<NodeId>, a: nat, b: nat)
    returns (dmax: int, dnode: int)
    requires a < b < |way| <= result.Length && t.Knows(way)
    requires forall i | a <= i <= b :: result[i] == way[i]
    ensures Best(dmax, dnode) == Farthest(t, way, a, b, b)
  {
    dmax, dnode := -1, -1;
    for i := a + 1 to b
      invariant Best(dmax, dnode) == Farthest(t, way, a, b, i)
    {
      assert way[i] in way;
      if result[i] == 0 { continue; }
      var dsquare := t.Distance(result[a], result[i], result[b]);
      if dsquare > dmax {
        dmax, dnode := dsquare, i;
      }
    }
  }

  /** The contents of the result array at a finished index. */
  function Finished(t: NodeTable, way: seq<NodeId>, i: nat): NodeId
    requires i < |way| && t.Knows(way)
  {
    if Keeps(t, way, i) then way[i] else 0
  }

  /** The index up to which the way is still unfinished: the right end of the topmost stretch. */
  function Frontier(stack: seq<(nat, nat)>): nat {
    if stack == [] then 0 else stack[|stack| - 1].1
  }

  /**
   * The stretches on the stack follow each other from the start of the way up to the frontier,
   * and inside each of them survival is decided by the stretch alone.
   */
  ghost predicate Pending(t: NodeTable, way: seq<NodeId>, stack: seq<(nat, nat)>)
    requires t.Knows(way)
  {
    && (forall k | 0 <= k < |stack| ::
          stack[k].0 < stack[k].1 < |way| && Keeps(t, way, stack[k].0) && Keeps(t, way, stack[k].1))
    && (forall k | 0 <= k < |stack| - 1 :: stack[k].1 == stack[k + 1].0)
    && (stack != [] ==> stack[0].0 == 0)
    && (forall k, i | 0 <= k < |stack| && stack[k].0 < i < stack[k].1 ::
          Keeps(t, way, i) == Survives(t, way, stack[k].0, stack[k].1, i))
  }

  lemma PendingPop(t: NodeTable, way: seq<NodeId>, stack: seq<(nat, nat)>)
    requires t.Knows(way) && Pending(t, way, stack) && stack != []
    ensures var rest := stack[..|stack| - 1];
            Pending(t, way, rest) && Frontier(rest) == stack[|stack| - 1].0
  {
    var rest := stack[..|stack| - 1];
    assert forall k | 0 <= k < |rest| :: rest[k] == stack[k];
  }

  lemma PendingSplit(t: NodeTable, way: seq<NodeId>, rest: seq<(nat, nat)>, a: nat, b: nat, d: nat)
    requires t.Knows(way) && a < d < b < |way| && Pending(t, way, rest) && Frontier(rest) == a
    requires Keeps(t, way, a) && Keeps(t, way, b)
    requires forall i | a < i < b :: Keeps(t, way, i) == Survives(t, way, a, b, i)
    requires Splits(t, way, a, b) && d == SplitPoint(t, way, a, b)
    ensures Pending(t, way, rest + [(a, d), (d, b)])
  {
    var stack := rest + [(a, d), (d, b)];
    var n := |rest|;
    assert forall k | 0 <= k < n :: stack[k] == rest[k];
    assert Keeps(t, way, d) by {
      assert Survives(t, way, a, b, d);
    }
    forall k | 0 <= k < |stack| - 1
      ensures stack[k].1 == stack[k + 1].0
    {
      assert k < n - 1 ==> rest[k].1 == rest[k + 1].0;
    }
    forall i | a < i < d
      ensures Keeps(t, way, i) == Survives(t, way, a, d, i)
    {
      assert Survives(t, way, a, b, i) == Survives(t, way, a, d, i);
    }
    forall i | d < i < b
      ensures Keeps(t, way, i) == Survives(t, way, d, b, i)
    {
      assert Survives(t, way, a, b, i) == Survives(t, way, d, b, i);
    }
  }

  /** Remove the nodes inside a stretch that nobody needs. */
  method RemoveUnneeded(t: NodeTable, way: seq<NodeId>, result: array<NodeId>, a: nat, b: nat)
    requires a < b < |way| <= result.Length && t.Knows(way)
    requires forall k | a < k < b :: result[k] == way[k]
    requires !Splits(t, way, a, b)
    modifies result
    ensures forall k | 0 <= k < result.Length && !(a < k < b) :: result[k] == old(result[k])
    ensures forall k | a < k < b :: result[k] == if Survives(t, way, a, b, k) then way[k] else 0
  {
    for i := a + 1 to b
      invariant forall k | 0 <= k < result.Length && !(a < k < i) :: result[k] == old(result[k])
      invariant forall k | a < k < i :: result[k] == if Survives(t, way, a, b, k) then way[k] else 0
    {
      assert result[i] == way[i] && way[i] in way;
      if t.uses[result[i]] == 0 {
        result[i] := 0;
      }
    }
  }

  /** Move the remaining nodes to the front of the array. */
  method Compact(t: NodeTable, way: seq<NodeId>, result: array<NodeId>) returns (p: nat)
    requires |way| <= result.Length && t.Knows(way)
    requires forall i | 0 <= i < |way| :: result[i] == Finished(t, way, i)
    modifies result
    ensures p <= |way| && result[..p] == Simplified(t, way)
  {
    p := 0;
    for i := 0 to |way|
      invariant p <= i
      invariant result[..p] == KeptAmong(t, way, i)
      invariant forall k | i <= k < |way| :: result[k] == Finished(t, way, k)
    {
      assert way[i] in way;
      if result[i] > 0 {
        if i > p {
          result[p] := result[i];
        }
        p := p + 1;
      }
    }
  }

  lemma {:induction false} StackBound(stack: seq<(nat, nat)>, t: NodeTable, way: seq<NodeId>)
    requires t.Knows(way) && Pending(t, way, stack)
    ensures |stack| <= Frontier(stack)
  {
    if stack != [] {
      PendingPop(t, way, stack);
      StackBound(stack[..|stack| - 1], t, way);
    }
  }

  /** The state of the main loop: untouched up to the frontier, finished from there on. */
  ghost predicate Progress(t: NodeTable, way: seq<NodeId>, stack: seq<(nat, nat)>, s: seq<NodeId>)
    requires t.Knows(way)
  {
    && Pending(t, way, stack)
    && |stack| <= Frontier(stack) < |way| <= |s|
    && (forall i | 0 <= i < Frontier(stack) :: s[i] == way[i])
    && (forall i | Frontier(stack) <= i < |way| :: s[i] == Finished(t, way, i))
  }

  lemma ProgressRemoves(t: NodeTable, way: seq<NodeId>, stack: seq<(nat, nat)>, s: seq<NodeId>, s': seq<NodeId>)
    requires t.Knows(way) && Progress(t, way, stack, s) && stack != [] && |s'| == |s|
    requires var (a, b) := stack[|stack| - 1];
             && (forall k | 0 <= k < |s| && !(a < k < b) :: s'[k] == s[k])
             && (forall k | a < k < b :: s'[k] == if Survives(t, way, a, b, k) then way[k] else 0)
    ensures Progress(t, way, stack[..|stack| - 1], s')
  {
    PendingPop(t, way, stack);
    StackBound(stack[..|stack| - 1], t, way);
  }

  lemma ProgressSplits(t: NodeTable, way: seq<NodeId>, stack: seq<(nat, nat)>, s: seq<NodeId>)
    requires t.Knows(way) && Progress(t, way, stack, s) && stack != []
    requires var (a, b) := stack[|stack| - 1]; Splits(t, way, a, b)
    ensures var (a, b) := stack[|stack| - 1];
            var d := SplitPoint(t, way, a, b);
            Progress(t, way, stack[..|stack| - 1] + [(a, d), (d, b)], s)
  {
    var (a, b) := stack[|stack| - 1];
    PendingPop(t, way, stack);
    PendingSplit(t, way, stack[..|stack| - 1], a, b, SplitPoint(t, way, a, b));
    StackBound(stack[..|stack| - 1] + [(a, SplitPoint(t, way, a, b)), (SplitPoint(t, way, a, b), b)], t, way);
  }

  lemma ProgressTop(t: NodeTable, way: seq<NodeId>, stack: seq<(nat, nat)>, s: seq<NodeId>)
    requires t.Knows(way) && Progress(t, way, stack, s) && stack != []
    ensures var (a, b) := stack[|stack| - 1];
            a < b < |way| && b == Frontier(stack) && forall i | a <= i <= b :: s[i] == way[i]
  {
  }

  function Measure(stack: seq<(nat, nat)>): int {
    2 * Frontier(stack) - |stack|
  }

  /** Take the topmost stretch off the stack: split it, or finish it. */
  method ProcessTop(t: NodeTable, way: seq<NodeId>, result: array<NodeId>, stack: seq<(nat, nat)>)
    returns (recursion: seq<(nat, nat)>)
    requires t.Knows(way) && stack != [] && Progress(t, way, stack, result[..])
    modifies result
    ensures Progress(t, way, recursion, result[..])
    ensures Measure(recursion) < Measure(stack)
  {
    ghost var before := result[..];
    ProgressTop(t, way, stack, before);
    var (a, b) := stack[|stack| - 1];
    recursion := stack[..|stack| - 1];
    assert forall i | a <= i <= b :: result[i] == before[i];
    var dmax, dnode := FindFarthest(t, way, result, a, b);
    if dmax > EPSILON {
      ProgressSplits(t, way, stack, before);
      recursion := recursion + [(a, dnode), (dnode, b)];
    } else {
      RemoveUnneeded(t, way, result, a, b);
      ProgressRemoves(t, way, stack, before, result[..]);
      PendingPop(t, way, stack);
    }
  }

  /**
   * Ramer-Douglas-Peucker with an explicit stack: the front of the array finally holds what the
   * recursive specification keeps. The stack runs empty because the frontier never moves right
   * and a split adds a stretch.
   */
  method ApplyRamerDouglasPeucker(t: NodeTable, way: seq<NodeId>, result: array<NodeId>) returns (p: nat)
    requires 2 <= |way| <= result.Length && t.Knows(way)
    modifies result
    ensures p <= |way| && result[..p] == Simplified(t, way)
  {
    forall i | 0 <= i < |way| {
      result[i] := way[i];
    }
    var recursion: seq<(nat, nat)> := [(0, |way| - 1)];
    while recursion != []
      invariant Progress(t, way, recursion, result[..])
      decreases Measure(recursion)
    {
      recursion := ProcessTop(t, way, result, recursion);
    }
    p := Compact(t, way, result);
  }
}
