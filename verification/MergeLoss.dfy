/**
 * When merging loses edges. A polygon looks for partners at the two ends it had at the beginning of its search; the
 * search keeps all edges if and only if no partner that takes such an end away is followed by another one at the same
 * end.
 */
module MergeLoss {
  import opened Coordinates
  import opened EdgeSums
  import opened RingAssembly
  import opened Sequences

  /** The end at which the search finds a partner; the first one is preferred. */
  datatype Side = Front | Back {
    predicate Takes(first: Coord, last: Coord, x: Path)
      requires x != []
    {
      match this
      case Front => MatchesFirst(first, x)
      case Back => !MatchesFirst(first, x) && (last == x[0] || last == x[|x| - 1])
    }

    function EndOf(first: Coord, last: Coord): Coord {
      if this == Front then first else last
    }

    /** The end that a polygon has now. */
    function Current(a: Path): Coord
      requires a != []
    {
      if this == Front then a[0] else a[|a| - 1]
    }
  }

  /**
   * Among the polygons still to be looked at there is one of at least two vertices that is found at an end which is
   * gone already, or which an open polygon before it takes away.
   */
  ghost predicate Spoilt(side: Side, rest: seq<Path>, first: Coord, last: Coord, gone: bool)
    requires NoneEmpty(rest)
  {
    rest != [] &&
    var x := rest[0];
    if side.Takes(first, last, x) then (gone && |x| > 1) || Spoilt(side, rest[1..], first, last, gone || !Closed(x))
    else Spoilt(side, rest[1..], first, last, gone)
  }

  // ----- one merge

  /** The edges are those of a and b, but with the matched coordinate replaced by the end that a has now. */
  ghost predicate Exchanged(a: Path, b: Path, r: Path, matched: Coord, current: Coord, x: Coord) {
    forall e :: OfEdge(e).At(r) + OfEdge(e).At([matched, x])
        == OfEdge(e).At(a) + OfEdge(e).At(b) + OfEdge(e).At([current, x])
  }

  lemma PairEdge(e: Segment, p: Coord, q: Coord)
    ensures OfEdge(e).At([p, q]) == if Edge(p, q) == e then 1 else 0
  {
    EdgesExtend(e, [p], q);
    assert [p] + [q] == [p, q];
  }

  lemma ExchangedAtFirst(a: Path, b: Path, u: Coord, rest: Path, front: bool)
    requires a != [] && rest != [] && b == [u] + rest
    ensures Exchanged(a, b, if front then Reversed(rest) + a else a + rest, u,
                      if front then a[0] else a[|a| - 1], rest[0])
  {
    var current := if front then a[0] else a[|a| - 1];
    forall e
      ensures OfEdge(e).At(if front then Reversed(rest) + a else a + rest) + OfEdge(e).At([u, rest[0]])
           == OfEdge(e).At(a) + OfEdge(e).At(b) + OfEdge(e).At([current, rest[0]])
    {
      EdgesOfConcatenation(e, [u], rest);
      PairEdge(e, u, rest[0]);
      PairEdge(e, current, rest[0]);
      if front {
        EdgesReversed(e, rest);
        EdgesOfConcatenation(e, Reversed(rest), a);
      } else {
        EdgesOfConcatenation(e, a, rest);
      }
    }
  }

  lemma ExchangedAtLast(a: Path, b: Path, rest: Path, u: Coord, front: bool)
    requires a != [] && rest != [] && b == rest + [u]
    ensures Exchanged(a, b, if front then rest + a else a + Reversed(rest), u,
                      if front then a[0] else a[|a| - 1], rest[|rest| - 1])
  {
    var x := rest[|rest| - 1];
    var current := if front then a[0] else a[|a| - 1];
    forall e
      ensures OfEdge(e).At(if front then rest + a else a + Reversed(rest)) + OfEdge(e).At([u, x])
           == OfEdge(e).At(a) + OfEdge(e).At(b) + OfEdge(e).At([current, x])
    {
      EdgesExtend(e, rest, u);
      PairEdge(e, u, x);
      PairEdge(e, current, x);
      if front {
        EdgesOfConcatenation(e, rest, a);
      } else {
        EdgesReversed(e, rest);
        EdgesOfConcatenation(e, a, Reversed(rest));
      }
    }
  }

  /** Whatever the ends are now: one edge of b changes one of its ends. */
  lemma MergeExchanges(side: Side, a: Path, first: Coord, last: Coord, b: Path) returns (x: Coord)
    requires a != [] && |b| > 1 && side.Takes(first, last, b)
    ensures x == if side.EndOf(first, last) == b[0] then b[1] else b[|b| - 2]
    ensures Exchanged(a, b, Merged(a, first, last, b), side.EndOf(first, last), side.Current(a), x)
  {
    var n := |b| - 1;
    assert b == [b[0]] + b[1..] && b == b[..n] + [b[n]];
    if side.EndOf(first, last) == b[0] {
      ExchangedAtFirst(a, b, b[0], b[1..], side == Front);
      x := b[1];
    } else {
      ExchangedAtLast(a, b, b[..n], b[n], side == Front);
      x := b[n - 1];
    }
  }

  /** The ends of a after a merge: the matched one is the other end of b, the other one stays. */
  lemma EndsAfterMerge(side: Side, a: Path, first: Coord, last: Coord, b: Path)
    requires a != [] && |b| > 1 && side.Takes(first, last, b)
    ensures var r := Merged(a, first, last, b);
            && r != []
            && side.Current(r) == (if side.EndOf(first, last) == b[0] then b[|b| - 1] else b[0])
            && (if side == Front then Back else Front).Current(r) == (if side == Front then Back else Front).Current(a)
  {
  }

  lemma SingleMerges(a: Path, first: Coord, last: Coord, b: Path)
    requires |b| == 1 && Touches(first, last, b)
    ensures Merged(a, first, last, b) == a
  {
  }

  // ----- the number of edge ends at a coordinate

  function EndsAt(c: Coord): Segment -> nat {
    (e: Segment) => (if e.a == c then 1 else 0) + (if e.b == c then 1 else 0)
  }

  ghost function Degree(list: seq<Path>, c: Coord): nat {
    SumOver(list, EndsAt(c))
  }

  lemma PairDegree(p: Coord, q: Coord, c: Coord)
    ensures Sum(SegmentsOf([p, q]), EndsAt(c)) == (if p == c then 1 else 0) + (if q == c then 1 else 0)
  {
    assert [p, q][..1] == [p];
    assert SegmentsOf([p, q]) == [Edge(p, q)];
    SumOne(Edge(p, q), EndsAt(c));
  }

  /** Merging moves one edge end from the matched coordinate to the end that the polygon has now. */
  lemma DegreeMoves(side: Side, list: seq<Path>, a: nat, b: nat, first: Coord, last: Coord, c: Coord)
    requires a < b < |list| && NoneEmpty(list) && |list[b]| > 1 && side.Takes(first, last, list[b])
    ensures var after := MergedAt(list, a, b, Merged(list[a], first, last, list[b]));
            Degree(after, c) + (if side.EndOf(first, last) == c then 1 else 0) ==
            Degree(list, c) + (if side.Current(list[a]) == c then 1 else 0)
  {
    var r := Merged(list[a], first, last, list[b]);
    var after := MergedAt(list, a, b, r);
    var u, v := side.EndOf(first, last), side.Current(list[a]);
    var x := MergeExchanges(side, list[a], first, last, list[b]);
    forall e
      ensures OfEdge(e).Over(after + [[u, x]]) == OfEdge(e).Over(list + [[v, x]])
    {
      MergedAtTally(OfEdge(e), list, a, b, r);
      OverExtend(OfEdge(e), after, [u, x]);
      OverExtend(OfEdge(e), list, [v, x]);
    }
    SameEdgesSameSum(after + [[u, x]], list + [[v, x]], EndsAt(c));
    SumOverExtend(after, [u, x], EndsAt(c));
    SumOverExtend(list, [v, x], EndsAt(c));
    PairDegree(u, x, c);
    PairDegree(v, x, c);
  }

  /** Merging a single vertex only drops it. */
  lemma DegreeStays(list: seq<Path>, a: nat, b: nat, first: Coord, last: Coord, c: Coord)
    requires a < b < |list| && NoneEmpty(list) && |list[b]| == 1 && Touches(first, last, list[b])
    ensures var after := MergedAt(list, a, b, Merged(list[a], first, last, list[b]));
            Degree(after, c) == Degree(list, c) && after[a] == list[a]
  {
    SingleMerges(list[a], first, last, list[b]);
    var after := MergedAt(list, a, b, list[a]);
    forall e
      ensures OfEdge(e).Over(after) == OfEdge(e).Over(list)
    {
      MergedAtTally(OfEdge(e), list, a, b, list[a]);
    }
    SameEdgesSameSum(after, list, EndsAt(c));
  }

  // ----- a whole search

  /** What is still to be looked at after a merge. */
  lemma RestAfter(list: seq<Path>, a: nat, b: nat, r: Path)
    requires a < b < |list| && NoneEmpty(list) && r != []
    ensures NoneEmpty(MergedAt(list, a, b, r)) && MergedAt(list, a, b, r)[b..] == list[b..][1..]
            && MergedAt(list, a, b, r)[a] == r
  {
  }

  ghost predicate IsGone(side: Side, list: seq<Path>, a: nat, first: Coord, last: Coord)
    requires a < |list| && list[a] != []
  {
    side.Current(list[a]) != side.EndOf(first, last)
  }

  /** Whether the search loses edges at a side, from polygon b on. */
  ghost predicate SpoiltFrom(side: Side, list: seq<Path>, a: nat, b: nat, first: Coord, last: Coord)
    requires a < b <= |list| && NoneEmpty(list)
  {
    Spoilt(side, list[b..], first, last, IsGone(side, list, a, first, last))
  }

  /** The first end never comes to lie at the back. */
  lemma {:induction false} FrontDegree(list: seq<Path>, a: nat, b: nat, first: Coord, last: Coord)
    requires a < b <= |list| && NoneEmpty(list) && first != last && Back.Current(list[a]) != first
    ensures Degree(Absorbed(list, a, b, first, last), first)
            + (if SpoiltFrom(Front, list, a, b, first, last) then 1 else 0)
         <= Degree(list, first)
    decreases |list| - b
  {
    if b < |list| {
      var x := list[b];
      if !Touches(first, last, x) {
        assert list[b..][1..] == list[b + 1..];
        FrontDegree(list, a, b + 1, first, last);
      } else {
        var side := if MatchesFirst(first, x) then Front else Back;
        var after := MergedAt(list, a, b, Merged(list[a], first, last, x));
        MergedIsPath(list[a], first, last, x);
        RestAfter(list, a, b, Merged(list[a], first, last, x));
        if |x| == 1 {
          DegreeStays(list, a, b, first, last, first);
        } else {
          DegreeMoves(side, list, a, b, first, last, first);
          EndsAfterMerge(side, list[a], first, last, x);
        }
        FrontDegree(after, a, b, first, last);
      }
    }
  }

  /** If the first end is spared, front merges leave the degrees alone, and the second end is treated likewise. */
  lemma {:induction false} BackDegree(list: seq<Path>, a: nat, b: nat, first: Coord, last: Coord)
    requires a < b <= |list| && NoneEmpty(list) && first != last && !SpoiltFrom(Front, list, a, b, first, last)
    ensures Degree(Absorbed(list, a, b, first, last), last)
            + (if SpoiltFrom(Back, list, a, b, first, last) then 1 else 0)
         <= Degree(list, last)
    decreases |list| - b
  {
    if b < |list| {
      var x := list[b];
      if !Touches(first, last, x) {
        assert list[b..][1..] == list[b + 1..];
        BackDegree(list, a, b + 1, first, last);
      } else {
        var side := if MatchesFirst(first, x) then Front else Back;
        var after := MergedAt(list, a, b, Merged(list[a], first, last, x));
        MergedIsPath(list[a], first, last, x);
        RestAfter(list, a, b, Merged(list[a], first, last, x));
        if |x| == 1 {
          DegreeStays(list, a, b, first, last, last);
        } else {
          DegreeMoves(side, list, a, b, first, last, last);
          EndsAfterMerge(side, list[a], first, last, x);
        }
        BackDegree(after, a, b, first, last);
      }
    }
  }

  ghost predicate SameEdgesOver(before: seq<Path>, after: seq<Path>) {
    forall e :: OfEdge(e).Over(after) == OfEdge(e).Over(before)
  }

  lemma LiveMergeKeepsEdges(side: Side, list: seq<Path>, a: nat, b: nat, first: Coord, last: Coord)
    requires a < b < |list| && NoneEmpty(list) && side.Takes(first, last, list[b])
    requires |list[b]| == 1 || !IsGone(side, list, a, first, last)
    ensures SameEdgesOver(list, MergedAt(list, a, b, Merged(list[a], first, last, list[b])))
  {
    var r := Merged(list[a], first, last, list[b]);
    if |list[b]| == 1 {
      SingleMerges(list[a], first, last, list[b]);
    } else {
      var x := MergeExchanges(side, list[a], first, last, list[b]);
    }
    forall e
      ensures OfEdge(e).Over(MergedAt(list, a, b, r)) == OfEdge(e).Over(list)
    {
      MergedAtTally(OfEdge(e), list, a, b, r);
    }
  }

  lemma {:induction false} UnspoiltKeepsEdges(list: seq<Path>, a: nat, b: nat, first: Coord, last: Coord)
    requires a < b <= |list| && NoneEmpty(list)
    requires !SpoiltFrom(Front, list, a, b, first, last) && !SpoiltFrom(Back, list, a, b, first, last)
    ensures SameEdgesOver(list, Absorbed(list, a, b, first, last))
    decreases |list| - b
  {
    if b < |list| {
      var x := list[b];
      if !Touches(first, last, x) {
        assert list[b..][1..] == list[b + 1..];
        UnspoiltKeepsEdges(list, a, b + 1, first, last);
      } else {
        var side := if MatchesFirst(first, x) then Front else Back;
        var after := MergedAt(list, a, b, Merged(list[a], first, last, x));
        MergedIsPath(list[a], first, last, x);
        RestAfter(list, a, b, Merged(list[a], first, last, x));
        LiveMergeKeepsEdges(side, list, a, b, first, last);
        if |x| == 1 {
          SingleMerges(list[a], first, last, x);
        } else {
          EndsAfterMerge(side, list[a], first, last, x);
        }
        UnspoiltKeepsEdges(after, a, b, first, last);
      }
    }
  }

  /** The search of the open polygon at a loses edges: the polygons after it, as they lie in the list, decide it. */
  ghost predicate Loses(list: seq<Path>, a: nat)
    requires a < |list| && NoneEmpty(list)
  {
    && !Closed(list[a])
    && var first, last := list[a][0], list[a][|list[a]| - 1];
       Spoilt(Front, list[a + 1..], first, last, false) || Spoilt(Back, list[a + 1..], first, last, false)
  }

  /**
   * The search for partners of one polygon keeps every edge with its multiplicity if and only if none of the polygons
   * after it, of two or more vertices, is found at an end that an open polygon before it was found at.
   */
  lemma SearchKeepsEdgesIff(list: seq<Path>, a: nat)
    requires a < |list| && NoneEmpty(list)
    ensures SameEdgesOver(list, AbsorbedAt(list, a)) <==> !Loses(list, a)
  {
    var first, last := list[a][0], list[a][|list[a]| - 1];
    if first != last {
      var after := Absorbed(list, a, a + 1, first, last);
      if SameEdgesOver(list, after) {
        FrontDegree(list, a, a + 1, first, last);
        SameEdgesSameSum(after, list, EndsAt(first));
        BackDegree(list, a, a + 1, first, last);
        SameEdgesSameSum(after, list, EndsAt(last));
        assert !SpoiltFrom(Front, list, a, a + 1, first, last) && !SpoiltFrom(Back, list, a, a + 1, first, last);
      } else if !Loses(list, a) {
        assert !SpoiltFrom(Front, list, a, a + 1, first, last) && !SpoiltFrom(Back, list, a, a + 1, first, last);
        UnspoiltKeepsEdges(list, a, a + 1, first, last);
      }
    }
  }

  // ----- all searches

  /** No search of a pass loses edges. */
  ghost predicate LosslessPass(list: seq<Path>, a: nat)
    requires a <= |list| && NoneEmpty(list)
    decreases |list| - a
  {
    a < |list| ==> !Loses(list, a) && LosslessPass(AbsorbedAt(list, a), a + 1)
  }

  ghost predicate Lossless(list: seq<Path>)
    requires NoneEmpty(list)
    decreases |list|
  {
    |list| > 1 ==> LosslessPass(list, 0) && (|Pass(list, 0)| < |list| ==> Lossless(Pass(list, 0)))
  }

  lemma {:induction false} LosslessPassKeepsEdges(list: seq<Path>, a: nat)
    requires a <= |list| && NoneEmpty(list) && LosslessPass(list, a)
    ensures SameEdgesOver(list, Pass(list, a))
    decreases |list| - a
  {
    if a < |list| {
      SearchKeepsEdgesIff(list, a);
      LosslessPassKeepsEdges(AbsorbedAt(list, a), a + 1);
    }
  }

  /** Merging keeps every edge if none of the searches loses one. */
  lemma {:induction false} LosslessKeepsEdges(list: seq<Path>)
    requires NoneEmpty(list) && Lossless(list)
    ensures SameEdgesOver(list, MergedAll(list))
    decreases |list|
  {
    if |list| > 1 && |Pass(list, 0)| < |list| {
      LosslessPassKeepsEdges(list, 0);
      LosslessKeepsEdges(Pass(list, 0));
    }
  }

  lemma {:induction false} TwoEndsLosslessPass(list: seq<Path>, a: nat)
    requires a <= |list| && NoneEmpty(list) && AtMostTwoEnds(list)
    ensures LosslessPass(list, a)
    decreases |list| - a
  {
    if a < |list| {
      var after := AbsorbedAt(list, a);
      AbsorbedAccounts(list, a, a + 1, list[a][0], list[a][|list[a]| - 1]);
      AccountsReflexive(list);
      SearchKeepsEdgesIff(list, a);
      AccountsKeepsTwo(list, after);
      TwoEndsLosslessPass(after, a + 1);
    }
  }

  /** None does when no coordinate ends more than two polygons. */
  lemma {:induction false} TwoEndsLossless(list: seq<Path>)
    requires NoneEmpty(list) && AtMostTwoEnds(list)
    ensures Lossless(list)
    decreases |list|
  {
    if |list| > 1 {
      TwoEndsLosslessPass(list, 0);
      if |Pass(list, 0)| < |list| {
        PassAccounts(list, 0);
        AccountsKeepsTwo(list, Pass(list, 0));
        TwoEndsLossless(Pass(list, 0));
      }
    }
  }
}
