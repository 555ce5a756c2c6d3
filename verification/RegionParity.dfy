/**
 * From ways to answers: the exact even-odd parity over all rings of a region is a property of the
 * ways alone, however they were attached and merged; and when the program's answer is this parity.
 */
module RegionParity {
  import opened Coordinates
  import opened EdgeSums
  import opened MapIds
  import opened RegionTest
  import opened Regions
  import opened RingAssembly

  /** Whether the ray left of c meets an edge, as a number. */
  function Met(c: Coord): Segment -> nat {
    (e: Segment) => Exact.Hit(e.a, e.b, c)
  }

  lemma {:induction false} WalkMet(s: Path, c: Coord)
    ensures Sum(SegmentsOf(s), Met(c)) == Exact.OnWalk(s, c)
  {
    if |s| >= 2 {
      var n := |s| - 1;
      WalkMet(s[..n], c);
      ExactSymmetric(s[n], s[n - 1], c);
    }
  }

  ghost function OnWalks(list: seq<Path>, c: Coord): nat {
    if list == [] then 0 else OnWalks(list[..|list| - 1], c) + Exact.OnWalk(list[|list| - 1], c)
  }

  lemma {:induction false} WalksMet(list: seq<Path>, c: Coord)
    ensures SumOver(list, Met(c)) == OnWalks(list, c)
  {
    if list != [] {
      var n := |list| - 1;
      WalksMet(list[..n], c);
      WalkMet(list[n], c);
      SumOverExtend(list[..n], list[n], Met(c));
      assert list[..n] + [list[n]] == list;
    }
  }

  ghost function OnRingsBy(t: Test, rings: seq<Ring>, c: Coord): nat {
    if rings == [] then 0 else OnRingsBy(t, rings[..|rings| - 1], c) + t.OnRing(rings[|rings| - 1], c)
  }

  // ----- rings as closed paths

  function Closing(rings: seq<Ring>): (r: seq<Path>)
    ensures |r| == |rings|
  {
    if rings == [] then []
    else
      var n := |rings| - 1;
      Closing(rings[..n]) + [if rings[n] == [] then [] else rings[n] + [rings[n][0]]]
  }

  lemma ClosingStep(rings: seq<Ring>)
    requires rings != []
    ensures Closing(rings)[..|rings| - 1] == Closing(rings[..|rings| - 1])
  {
  }

  lemma {:induction false} ClosingEdges(rings: seq<Ring>, e: Segment)
    ensures OfEdge(e).Over(Closing(rings)) == OnRings(e, rings)
  {
    if rings != [] {
      ClosingStep(rings);
      ClosingEdges(rings[..|rings| - 1], e);
    }
  }

  lemma ClosingRing(ring: Ring, c: Coord)
    requires ring != []
    ensures Exact.OnWalk(ring + [ring[0]], c) == Exact.OnRing(ring, c)
  {
    var last := ring[|ring| - 1];
    WalkPrepend(Exact, last, ring, c);
    WalkExtend(Exact, ring, ring[0], c);
    ExactSymmetric(ring[0], last, c);
  }

  lemma {:induction false} ClosingCrossings(rings: seq<Ring>, c: Coord)
    ensures OnWalks(Closing(rings), c) == OnRingsBy(Exact, rings, c)
  {
    if rings != [] {
      ClosingStep(rings);
      ClosingCrossings(rings[..|rings| - 1], c);
      var ring := rings[|rings| - 1];
      if ring != [] {
        ClosingRing(ring, c);
      }
    }
  }

  /**
   * If the rings have the edges of the ways, the ray meets as many of the one as of the other, so
   * the parity of all its crossings is decided by the ways.
   */
  lemma CrossingsDecidedByWays(ways: seq<Path>, rings: seq<Ring>, c: Coord)
    requires SameEdges(ways, rings)
    ensures OnRingsBy(Exact, rings, c) == OnWalks(ways, c)
  {
    forall e
      ensures OfEdge(e).Over(Closing(rings)) == OfEdge(e).Over(ways)
    {
      ClosingEdges(rings, e);
    }
    SameEdgesSameSum(Closing(rings), ways, Met(c));
    WalksMet(Closing(rings), c);
    WalksMet(ways, c);
    ClosingCrossings(rings, c);
  }

  // ----- the answer of the program

  /** How many of the rings have the point inside, as the program computes it. */
  ghost function Containing(rings: seq<Ring>, c: Coord): nat {
    if rings == [] then 0
    else Containing(rings[..|rings| - 1], c) + if InsideRing(rings[|rings| - 1], c) then 1 else 0
  }

  lemma {:induction false} AnswerIsSomeRing(rings: seq<Ring>, c: Coord)
    ensures InsideAnyRing(rings, c) <==> Containing(rings, c) > 0
  {
    if rings != [] {
      var n := |rings| - 1;
      AnswerIsSomeRing(rings[..n], c);
      assert rings == rings[..n] + [rings[n]];
    }
  }

  lemma ParityAdds(a: nat, b: nat, p: nat, m: nat)
    requires a % 2 == b % 2
    ensures (a + (p + m)) % 2 == (b + p % 2 + m) % 2
  {
  }

  lemma {:induction false} ParityOfRings(rings: seq<Ring>, c: Coord)
    ensures OnRingsBy(Exact, rings, c) % 2 == (Containing(rings, c) + OnRingsBy(Misrounded, rings, c)) % 2
  {
    if rings != [] {
      var n := |rings| - 1;
      ParityOfRings(rings[..n], c);
      RoundingOfRing(rings[n], c);
      ParityAdds(OnRingsBy(Exact, rings[..n], c), Containing(rings[..n], c) + OnRingsBy(Misrounded, rings[..n], c),
                 Plain.OnRing(rings[n], c), Misrounded.OnRing(rings[n], c));
      assert Containing(rings, c) == Containing(rings[..n], c) + Plain.OnRing(rings[n], c) % 2;
    }
  }

  /**
   * The program asks whether some ring has the point inside. That is the even-odd answer of the ways if and only if the
   * number of rings with the point inside is zero, or odd together with the number of misrounded edges.
   */
  lemma AnswerOfWaysIff(ways: seq<Path>, rings: seq<Ring>, c: Coord)
    requires SameEdges(ways, rings)
    ensures (InsideAnyRing(rings, c) <==> OnWalks(ways, c) % 2 == 1) <==>
            var m := OnRingsBy(Misrounded, rings, c);
            if Containing(rings, c) == 0 then m % 2 == 0 else (Containing(rings, c) + m) % 2 == 1
  {
    CrossingsDecidedByWays(ways, rings, c);
    AnswerIsSomeRing(rings, c);
    ParityOfRings(rings, c);
  }

  lemma {:induction false} EvenlyMisrounded(rings: seq<Ring>, c: Coord)
    requires forall ring | ring in rings :: Misrounded.OnRing(ring, c) % 2 == 0
    ensures OnRingsBy(Misrounded, rings, c) % 2 == 0
  {
    if rings != [] {
      var n := |rings| - 1;
      assert rings[n] in rings;
      EvenlyMisrounded(rings[..n], c);
    }
  }

  /**
   * For a region whose ways end in pairs, and where no ring rounds an odd number of edges the wrong way, the program
   * gives the exact even-odd answer of the ways if and only if the number of rings with the point inside is zero or
   * odd.
   */
  lemma RegionAnswerIff(region: Region, ways: seq<Path>, c: Coord)
    requires Outlines(region, ways) && AtMostTwoEnds(ways) && EndsPaired(ways)
    requires forall ring | ring in region.polygons :: Misrounded.OnRing(ring, c) % 2 == 0
    ensures (InsideAnyRing(region.polygons, c) <==> OnWalks(ways, c) % 2 == 1)
       <==> Containing(region.polygons, c) == 0 || Containing(region.polygons, c) % 2 == 1
  {
    AnswerOfWaysIff(ways, region.polygons, c);
    EvenlyMisrounded(region.polygons, c);
  }

  /** So it does for every recorded region and every point that at most one ring has inside. */
  lemma RecordedRegionAnswers(index: RegionIndex, id: RelationId, c: Coord)
    requires index.Valid() && id in index.regions
    requires var ways := index.db.Boundary(index.db.relMembers[id]); AtMostTwoEnds(ways) && EndsPaired(ways)
    requires forall ring | ring in index.regions[id].polygons :: Misrounded.OnRing(ring, c) % 2 == 0
    requires Containing(index.regions[id].polygons, c) <= 1
    ensures InsideAnyRing(index.regions[id].polygons, c)
            <==> OnWalks(index.db.Boundary(index.db.relMembers[id]), c) % 2 == 1
  {
    RegionAnswerIff(index.regions[id], index.db.Boundary(index.db.relMembers[id]), c);
  }

  lemma TriangleHolds(u: Coord, v: Coord, w: Coord, c: Coord)
    requires u.x == v.x && u.y == w.y && u.y < c.y <= v.y
    requires u.x < c.x && CrossingX(w, v, c) >= c.x && !Exact.Hits(w, v, c)
    ensures Plain.OnRing([u, v, w], c) == 1 && Exact.OnRing([u, v, w], c) == 1
  {
    Triangle(Plain, u, v, w, c);
    Triangle(Exact, u, v, w, c);
  }

  lemma Triangle(t: Test, u: Coord, v: Coord, w: Coord, c: Coord)
    ensures t.OnRing([u, v, w], c) == t.Hit(u, w, c) + t.Hit(v, u, c) + t.Hit(w, v, c)
  {
    WalkOfFour(t, w, u, v, w, c);
    assert [w] + [u, v, w] == [w, u, v, w];
  }
}
