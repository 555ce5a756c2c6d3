/**
 * A list of polygons of which two searches lose an edge each, and each of them gains the edge that the other one loses.
 */
module CancelledLosses {
  import opened Coordinates
  import opened MergeLoss
  import opened RingAssembly
  import opened Sequences

  ghost predicate Different(v: seq<Coord>) {
    |v| == 6 && forall i, j | 0 <= i < j < 6 :: v[i] != v[j]
  }

  // The list at the beginning, and after each of the six merges.

  function Start(v: seq<Coord>): seq<Path>
    requires |v| == 6
  {
    [[v[4], v[5]], [v[1], v[2]], [v[1], v[3], v[0]], [v[3], v[2], v[0]], [v[2], v[0]], [v[2], v[2]], [v[4], v[0]]]
  }

  function One(v: seq<Coord>): seq<Path>
    requires |v| == 6
  {
    [[v[0], v[4], v[5]], [v[1], v[2]], [v[1], v[3], v[0]], [v[3], v[2], v[0]], [v[2], v[0]], [v[2], v[2]]]
  }

  function Two(v: seq<Coord>): seq<Path>
    requires |v| == 6
  {
    [[v[0], v[4], v[5]], [v[0], v[3], v[1], v[2]], [v[3], v[2], v[0]], [v[2], v[0]], [v[2], v[2]]]
  }

  function Three(v: seq<Coord>): seq<Path>
    requires |v| == 6
  {
    [[v[0], v[4], v[5]], [v[0], v[3], v[1], v[2], v[0]], [v[3], v[2], v[0]], [v[2], v[2]]]
  }

  function Four(v: seq<Coord>): seq<Path>
    requires |v| == 6
  {
    [[v[0], v[4], v[5]], [v[0], v[3], v[1], v[2], v[0], v[2]], [v[3], v[2], v[0]]]
  }

  function Five(v: seq<Coord>): seq<Path>
    requires |v| == 6
  {
    [[v[2], v[0], v[2], v[1], v[3], v[0], v[4], v[5]], [v[3], v[2], v[0]]]
  }

  function Six(v: seq<Coord>): seq<Path>
    requires |v| == 6
  {
    [[v[3], v[2], v[2], v[0], v[2], v[1], v[3], v[0], v[4], v[5]]]
  }

  // ----- one step of a search

  lemma Skip(list: seq<Path>, a: nat, b: nat, first: Coord, last: Coord)
    requires a < b < |list| && NoneEmpty(list) && !Touches(first, last, list[b])
    ensures Absorbed(list, a, b, first, last) == Absorbed(list, a, b + 1, first, last)
  {
  }

  /** Polygon b is merged into polygon a. */
  ghost predicate Takes(list: seq<Path>, a: nat, b: nat, first: Coord, last: Coord, next: seq<Path>) {
    && a < b < |list| && NoneEmpty(list) && NoneEmpty(next) && Touches(first, last, list[b])
    && next == MergedAt(list, a, b, Merged(list[a], first, last, list[b]))
  }

  lemma Take(list: seq<Path>, a: nat, b: nat, first: Coord, last: Coord, next: seq<Path>)
    requires Takes(list, a, b, first, last, next) && b <= |next|
    ensures Absorbed(list, a, b, first, last) == Absorbed(next, a, b, first, last)
  {
    MergedIsPath(list[a], first, last, list[b]);
  }

  // ----- the six merges

  lemma ReversedTwo(p: Coord, q: Coord)
    ensures Reversed([p, q]) == [q, p]
  {
    ReversedSplit([p], q);
    assert [p] + [q] == [p, q] && Reversed([p]) == [p] && [q] + [p] == [q, p];
  }

  lemma FirstMerge(v: seq<Coord>)
    requires Different(v)
    ensures Takes(Start(v), 0, 6, v[4], v[5], One(v))
  {
    assert [v[4], v[0]][1..] == [v[0]] && Reversed([v[0]]) == [v[0]];
    assert Merged([v[4], v[5]], v[4], v[5], [v[4], v[0]]) == [v[0], v[4], v[5]];
  }

  lemma SecondMerge(v: seq<Coord>)
    requires Different(v)
    ensures Takes(One(v), 1, 2, v[1], v[2], Two(v))
  {
    assert [v[1], v[3], v[0]][1..] == [v[3], v[0]];
    ReversedTwo(v[3], v[0]);
    assert Merged([v[1], v[2]], v[1], v[2], [v[1], v[3], v[0]]) == [v[0], v[3], v[1], v[2]];
  }

  lemma ThirdMerge(v: seq<Coord>)
    requires Different(v)
    ensures Takes(Two(v), 1, 3, v[1], v[2], Three(v))
  {
    assert [v[2], v[0]][1..] == [v[0]];
    assert Merged([v[0], v[3], v[1], v[2]], v[1], v[2], [v[2], v[0]]) == [v[0], v[3], v[1], v[2], v[0]];
  }

  lemma FourthMerge(v: seq<Coord>)
    requires Different(v)
    ensures Takes(Three(v), 1, 3, v[1], v[2], Four(v))
  {
    assert [v[2], v[2]][1..] == [v[2]];
    assert Merged([v[0], v[3], v[1], v[2], v[0]], v[1], v[2], [v[2], v[2]]) == [v[0], v[3], v[1], v[2], v[0], v[2]];
  }

  lemma FifthMerge(v: seq<Coord>)
    requires Different(v)
    ensures Takes(Four(v), 0, 1, v[0], v[5], Five(v))
  {
    var b := [v[0], v[3], v[1], v[2], v[0], v[2]];
    var rest := [v[3], v[1], v[2], v[0], v[2]];
    assert b[1..] == rest;
    var back := Reversed(rest);
    assert back[0] == v[2] && back[1] == v[0] && back[2] == v[2] && back[3] == v[1] && back[4] == v[3];
    assert back == [v[2], v[0], v[2], v[1], v[3]];
    assert Merged([v[0], v[4], v[5]], v[0], v[5], b) == [v[2], v[0], v[2], v[1], v[3], v[0], v[4], v[5]];
  }

  lemma SixthMerge(v: seq<Coord>)
    requires Different(v)
    ensures Takes(Five(v), 0, 1, v[0], v[5], Six(v))
  {
    var a := [v[2], v[0], v[2], v[1], v[3], v[0], v[4], v[5]];
    assert [v[3], v[2], v[0]][..2] == [v[3], v[2]];
    assert Merged(a, v[0], v[5], [v[3], v[2], v[0]]) == [v[3], v[2], v[2], v[0], v[2], v[1], v[3], v[0], v[4], v[5]];
  }

  // ----- the passes

  lemma FirstSearch(v: seq<Coord>)
    requires Different(v)
    ensures AbsorbedAt(Start(v), 0) == One(v)
  {
    var list, first, last := Start(v), v[4], v[5];
    Skip(list, 0, 1, first, last);
    Skip(list, 0, 2, first, last);
    Skip(list, 0, 3, first, last);
    Skip(list, 0, 4, first, last);
    Skip(list, 0, 5, first, last);
    FirstMerge(v);
    Take(list, 0, 6, first, last, One(v));
  }

  lemma SecondSearch(v: seq<Coord>)
    requires Different(v)
    ensures AbsorbedAt(One(v), 1) == Four(v)
  {
    var first, last := v[1], v[2];
    SecondMerge(v);
    Take(One(v), 1, 2, first, last, Two(v));
    Skip(Two(v), 1, 2, first, last);
    ThirdMerge(v);
    Take(Two(v), 1, 3, first, last, Three(v));
    FourthMerge(v);
    Take(Three(v), 1, 3, first, last, Four(v));
  }

  lemma ThirdSearch(v: seq<Coord>)
    requires Different(v)
    ensures AbsorbedAt(Four(v), 0) == Six(v)
  {
    FifthMerge(v);
    Take(Four(v), 0, 1, v[0], v[5], Five(v));
    SixthMerge(v);
    Take(Five(v), 0, 1, v[0], v[5], Six(v));
  }

  lemma FirstPass(v: seq<Coord>)
    requires Different(v)
    ensures Pass(Start(v), 0) == Four(v)
  {
    FirstSearch(v);
    SecondSearch(v);
    assert AbsorbedAt(Four(v), 2) == Four(v);
    assert Pass(Four(v), 3) == Four(v);
    assert Pass(Four(v), 2) == Four(v);
    assert Pass(One(v), 1) == Four(v);
  }

  lemma AllMerged(v: seq<Coord>)
    requires Different(v)
    ensures MergedAll(Start(v)) == Six(v)
  {
    FirstPass(v);
    ThirdSearch(v);
    assert Pass(Six(v), 1) == Six(v);
    assert Pass(Four(v), 0) == Six(v);
    assert MergedAll(Six(v)) == Six(v);
    assert MergedAll(Four(v)) == Six(v);
  }

  // ----- the edges

  lemma KeptBy(side: Side, list: seq<Path>, a: nat, b: nat, first: Coord, last: Coord, next: seq<Path>)
    requires Takes(list, a, b, first, last, next) && side.Takes(first, last, list[b])
             && !IsGone(side, list, a, first, last)
    ensures SameEdgesOver(list, next)
  {
    LiveMergeKeepsEdges(side, list, a, b, first, last);
  }

  /** At an end that is gone, the matched end of an edge becomes the current end. */
  lemma MovedBy(side: Side, list: seq<Path>, a: nat, b: nat, first: Coord, last: Coord, next: seq<Path>, e: Segment)
    requires Takes(list, a, b, first, last, next) && side.Takes(first, last, list[b]) && |list[b]| > 1
    ensures var u, w := side.EndOf(first, last), side.Current(list[a]);
            var x := if u == list[b][0] then list[b][1] else list[b][|list[b]| - 2];
            OfEdge(e).Over(next) + OfEdge(e).At([u, x]) == OfEdge(e).Over(list) + OfEdge(e).At([w, x])
  {
    var x := MergeExchanges(side, list[a], first, last, list[b]);
    MergedAtTally(OfEdge(e), list, a, b, Merged(list[a], first, last, list[b]));
  }

  lemma FirstThreeKeep(v: seq<Coord>)
    requires Different(v)
    ensures SameEdgesOver(Start(v), Three(v))
  {
    FirstMerge(v);
    KeptBy(Front, Start(v), 0, 6, v[4], v[5], One(v));
    SecondMerge(v);
    KeptBy(Front, One(v), 1, 2, v[1], v[2], Two(v));
    ThirdMerge(v);
    KeptBy(Back, Two(v), 1, 3, v[1], v[2], Three(v));
  }

  /** The fourth merge loses the edge from 2 to 2 and gains one from 0 to 2; the sixth does the opposite. */
  lemma LossesCancel(v: seq<Coord>)
    requires Different(v)
    ensures SameEdgesOver(Start(v), MergedAll(Start(v)))
  {
    AllMerged(v);
    FirstThreeKeep(v);
    FourthMerge(v);
    FifthMerge(v);
    KeptBy(Front, Four(v), 0, 1, v[0], v[5], Five(v));
    SixthMerge(v);
    forall e
      ensures OfEdge(e).Over(Six(v)) == OfEdge(e).Over(Start(v))
    {
      MovedBy(Back, Three(v), 1, 3, v[1], v[2], Four(v), e);
      MovedBy(Front, Five(v), 0, 1, v[0], v[5], Six(v), e);
    }
  }

  /** Yet two searches lose an edge: merging keeps all edges although it is not lossless. */
  lemma KeptThoughNotLossless(v: seq<Coord>)
    requires Different(v)
    ensures !Lossless(Start(v)) && SameEdgesOver(Start(v), MergedAll(Start(v)))
  {
    LossesCancel(v);
    FirstSearch(v);
    SecondSearchLoses(v);
    assert !LosslessPass(One(v), 1);
    assert !LosslessPass(Start(v), 0);
  }

  lemma SecondSearchLoses(v: seq<Coord>)
    requires Different(v)
    ensures Loses(One(v), 1)
  {
    var rest := [[v[1], v[3], v[0]], [v[3], v[2], v[0]], [v[2], v[0]], [v[2], v[2]]];
    assert One(v)[2..] == rest;
    assert rest[1..] == [[v[3], v[2], v[0]], [v[2], v[0]], [v[2], v[2]]];
    assert rest[1..][1..] == [[v[2], v[0]], [v[2], v[2]]];
    assert rest[1..][1..][1..] == [[v[2], v[2]]];
    assert Spoilt(Back, [[v[2], v[2]]], v[1], v[2], true);
    assert Spoilt(Back, [[v[2], v[0]], [v[2], v[2]]], v[1], v[2], false);
    assert Spoilt(Back, [[v[3], v[2], v[0]], [v[2], v[0]], [v[2], v[2]]], v[1], v[2], false);
    assert Spoilt(Back, rest, v[1], v[2], false);
  }

  /** There are six different coordinates. */
  lemma SixCoordinates()
    ensures Different([Coord(1, 1), Coord(2, 9), Coord(3, 4), Coord(4, 8), Coord(5, 2), Coord(6, 7)])
  {
    var v := [Coord(1, 1), Coord(2, 9), Coord(3, 4), Coord(4, 8), Coord(5, 2), Coord(6, 7)];
    assert forall i | 0 <= i < 6 :: v[i].x == i + 1;
  }
}
