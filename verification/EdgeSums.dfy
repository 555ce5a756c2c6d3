/** Sums over the edges of paths, which depend on the edges alone and not on how these are strung together. */
module EdgeSums {
  import opened Coordinates
  import opened RingAssembly
  import opened Sequences

  ghost function SegmentsOf(s: Path): seq<Segment> {
    if |s| < 2 then [] else SegmentsOf(s[..|s| - 1]) + [Edge(s[|s| - 2], s[|s| - 1])]
  }

  ghost function Segments(list: seq<Path>): seq<Segment> {
    if list == [] then [] else Segments(list[..|list| - 1]) + SegmentsOf(list[|list| - 1])
  }

  ghost function Sum(segments: seq<Segment>, w: Segment -> nat): nat {
    if segments == [] then 0
    else
      var n := |segments| - 1;
      Sum(segments[..n], w) + w(segments[n])
  }

  lemma SumOne(e: Segment, w: Segment -> nat)
    ensures Sum([e], w) == w(e)
  {
    assert [e][..0] == [];
    assert Sum([], w) == 0;
  }

  lemma {:induction false} SumJoin(s: seq<Segment>, t: seq<Segment>, w: Segment -> nat)
    ensures Sum(s + t, w) == Sum(s, w) + Sum(t, w)
  {
    if t == [] {
      assert s + t == s;
    } else {
      var n := |t| - 1;
      SumJoin(s, t[..n], w);
      assert (s + t)[..|s| + n] == s + t[..n];
    }
  }

  lemma SumWithout(s: seq<Segment>, k: nat, w: Segment -> nat)
    requires k < |s|
    ensures Sum(s, w) == Sum(s[..k] + s[k + 1..], w) + w(s[k])
  {
    SumJoin(s[..k + 1], s[k + 1..], w);
    assert s[..k + 1] + s[k + 1..] == s && s[..k + 1][..k] == s[..k];
    SumJoin(s[..k], s[k + 1..], w);
  }

  lemma OccurrencesWithout(s: seq<Segment>, k: nat, e: Segment)
    requires k < |s|
    ensures Occurrences(s, e) == Occurrences(s[..k] + s[k + 1..], e) + if s[k] == e then 1 else 0
  {
    var before, here, after := s[..k], [s[k]], s[k + 1..];
    assert s == before + (here + after);
    OccurrencesSplit(before, here + after, e);
    OccurrencesSplit(here, after, e);
    OccurrencesSplit(before, after, e);
    assert here[..0] == [];
  }

  lemma LastOccurs(s: seq<Segment>)
    requires s != []
    ensures Occurrences(s, s[|s| - 1]) > 0
  {
  }

  ghost predicate SameOccurrences(s: seq<Segment>, t: seq<Segment>) {
    forall e :: Occurrences(s, e) == Occurrences(t, e)
  }

  /** Only which segments there are, and how often, matters, not their order. */
  lemma {:induction false} SumReordered(s: seq<Segment>, t: seq<Segment>, w: Segment -> nat)
    requires SameOccurrences(s, t)
    ensures Sum(s, w) == Sum(t, w)
  {
    if s == [] {
      if t != [] {
        LastOccurs(t);
        assert false;
      }
    } else {
      var n := |s| - 1;
      assert Occurrences(s, s[n]) == Occurrences(t, s[n]);
      var k := OccursAt(t, s[n]);
      var rest := t[..k] + t[k + 1..];
      forall e
        ensures Occurrences(s[..n], e) == Occurrences(rest, e)
      {
        OccurrencesWithout(t, k, e);
      }
      SumReordered(s[..n], rest, w);
      SumWithout(t, k, w);
    }
  }

  lemma {:induction false} SegmentsOfPath(s: Path, e: Segment)
    ensures Occurrences(SegmentsOf(s), e) == OfEdge(e).At(s)
  {
    if |s| >= 2 {
      SegmentsOfPath(s[..|s| - 1], e);
    }
  }

  lemma {:induction false} SegmentsOfPaths(list: seq<Path>, e: Segment)
    ensures Occurrences(Segments(list), e) == OfEdge(e).Over(list)
  {
    if list != [] {
      SegmentsOfPaths(list[..|list| - 1], e);
      SegmentsOfPath(list[|list| - 1], e);
      OccurrencesSplit(Segments(list[..|list| - 1]), SegmentsOf(list[|list| - 1]), e);
    }
  }

  ghost function SumOver(list: seq<Path>, w: Segment -> nat): nat {
    Sum(Segments(list), w)
  }

  lemma SumOverExtend(list: seq<Path>, s: Path, w: Segment -> nat)
    ensures SumOver(list + [s], w) == SumOver(list, w) + Sum(SegmentsOf(s), w)
  {
    assert (list + [s])[..|list|] == list;
    SumJoin(Segments(list), SegmentsOf(s), w);
  }

  /** Paths with the same edges have the same sums. */
  lemma SameEdgesSameSum(a: seq<Path>, b: seq<Path>, w: Segment -> nat)
    requires forall e :: OfEdge(e).Over(a) == OfEdge(e).Over(b)
    ensures SumOver(a, w) == SumOver(b, w)
  {
    forall e
      ensures Occurrences(Segments(a), e) == Occurrences(Segments(b), e)
    {
      SegmentsOfPaths(a, e);
      SegmentsOfPaths(b, e);
    }
    SumReordered(Segments(a), Segments(b), w);
  }
}
