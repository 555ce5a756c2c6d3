/**
 * Relations for which the program loses an edge of a boundary way: three polygons that end in one coordinate are merged
 * at the end that was recorded for the first of them, which is not its end any more at the second merge.
 */
module LostEdge {
  import opened Coordinates
  import opened MapIds
  import opened RegionTest
  import opened Regions
  import opened RingAssembly
  import opened Sequences

  /** The ways 0-1, 2-3 and 4-5, and then those from 5, 3 and 1 to 6. */
  function WayNodes(n: seq<NodeId>, i: nat): seq<NodeId>
    requires |n| == 7 && i < 6
  {
    if i < 3 then [n[2 * i], n[2 * i + 1]] else [n[11 - 2 * i], n[6]]
  }

  /** A relation whose members are these ways, between seven nodes at different coordinates. */
  ghost predicate ThreeArms(db: Database, members: seq<Member>, n: seq<NodeId>, c: seq<Coord>) {
    && |members| == 6 && |n| == |c| == 7
    && (forall i | 0 <= i < 7 :: n[i] in db.node2Coord && db.node2Coord[n[i]] == c[i])
    && (forall i, j | 0 <= i < j < 7 :: c[i] != c[j])
    && forall i | 0 <= i < 6 :: db.Attached(members[i]) && db.wayNodes[members[i].id] == WayNodes(n, i)
  }

  lemma KnownPair(coords: map<NodeId, Coord>, i: NodeId, j: NodeId)
    requires i in coords && j in coords
    ensures Known(coords, [i, j]) == [coords[i], coords[j]] && Known(coords, [j]) == [coords[j]]
  {
    assert Known(coords, []) == [];
    assert [i][..0] == [] && Known(coords, [i]) == [] + [coords[i]];
    assert [j][..0] == [] && Known(coords, [j]) == [] + [coords[j]];
    assert [i, j][..1] == [i];
  }

  /** The path of the way. */
  function WayPath(c: seq<Coord>, i: nat): Path
    requires |c| == 7 && i < 6
  {
    if i < 3 then [c[2 * i], c[2 * i + 1]] else [c[11 - 2 * i], c[6]]
  }

  lemma WayKnown(db: Database, members: seq<Member>, n: seq<NodeId>, c: seq<Coord>, i: nat)
    requires ThreeArms(db, members, n, c) && i < 6
    ensures db.PathOf(members[i].id) == WayPath(c, i)
  {
    var nodes := WayNodes(n, i);
    KnownPair(db.node2Coord, nodes[0], nodes[1]);
  }

  lemma AllLocated(db: Database, members: seq<Member>, n: seq<NodeId>, c: seq<Coord>)
    requires ThreeArms(db, members, n, c)
    ensures db.Located(members) && db.Complete(members)
  {
    forall m | m in members
      ensures db.Attached(m) && db.PathOf(m.id) != []
    {
      var i :| 0 <= i < |members| && members[i] == m;
      WayKnown(db, members, n, c, i);
    }
  }

  lemma Step(db: Database, members: seq<Member>, n: seq<NodeId>, c: seq<Coord>, i: nat)
    requires ThreeArms(db, members, n, c) && i < 6 && db.Located(members)
    ensures Assembled(db, members[..i + 1]) == Placed(db.node2Coord, WayNodes(n, i), Assembled(db, members[..i]))
  {
    AssembledExtend(db, members, i);
  }

  // ----- attaching

  /** A way that meets none of the polygons starts one of its own. */
  lemma StartsOwn(coords: map<NodeId, Coord>, i: NodeId, j: NodeId, list: seq<Path>)
    requires i in coords && j in coords
    requires forall m | 0 <= m < |list| :: list[m] != [] && !IsEndOf(coords[i], list[m]) && !IsEndOf(coords[j], list[m])
    ensures Placed(coords, [i, j], list) == list + [[coords[i], coords[j]]]
  {
    KnownPair(coords, i, j);
    PlacedAt(coords, [i, j], list, |list|);
  }

  /** A way that leads on from the last vertex of a polygon is attached there. */
  lemma LeadsOn(coords: map<NodeId, Coord>, i: NodeId, j: NodeId, list: seq<Path>, k: nat)
    requires i in coords && j in coords && k < |list| && list[k] != []
    requires list[k][|list[k]| - 1] == coords[i] != list[k][0]
    requires forall m | 0 <= m < k :: list[m] != [] && !IsEndOf(coords[i], list[m]) && !IsEndOf(coords[j], list[m])
    ensures Placed(coords, [i, j], list) == list[k := list[k] + [coords[j]]]
  {
    KnownPair(coords, i, j);
    assert [i, j][1..] == [j];
    PlacedAt(coords, [i, j], list, k);
  }

  lemma FirstThree(db: Database, members: seq<Member>, n: seq<NodeId>, c: seq<Coord>)
    requires ThreeArms(db, members, n, c) && db.Located(members)
    ensures Assembled(db, members[..3]) == [[c[0], c[1]], [c[2], c[3]], [c[4], c[5]]]
  {
    Step(db, members, n, c, 0);
    Step(db, members, n, c, 1);
    Step(db, members, n, c, 2);
    assert members[..0] == [];
    StartsOwn(db.node2Coord, n[0], n[1], []);
    StartsOwn(db.node2Coord, n[2], n[3], [[c[0], c[1]]]);
    StartsOwn(db.node2Coord, n[4], n[5], [[c[0], c[1]], [c[2], c[3]]]);
  }

  lemma ThirdOfThree(coords: map<NodeId, Coord>, i: NodeId, j: NodeId, x: Path, y: Path, z: Path)
    requires i in coords && j in coords && x != [] && y != [] && z != [] && z[|z| - 1] == coords[i] != z[0]
    requires !IsEndOf(coords[i], x) && !IsEndOf(coords[j], x) && !IsEndOf(coords[i], y) && !IsEndOf(coords[j], y)
    ensures Placed(coords, [i, j], [x, y, z]) == [x, y, z + [coords[j]]]
  {
    LeadsOn(coords, i, j, [x, y, z], 2);
  }

  lemma SecondOfThree(coords: map<NodeId, Coord>, i: NodeId, j: NodeId, x: Path, y: Path, z: Path)
    requires i in coords && j in coords && x != [] && y != [] && y[|y| - 1] == coords[i] != y[0]
    requires !IsEndOf(coords[i], x) && !IsEndOf(coords[j], x)
    ensures Placed(coords, [i, j], [x, y, z]) == [x, y + [coords[j]], z]
  {
    LeadsOn(coords, i, j, [x, y, z], 1);
  }

  lemma FirstOfThree(coords: map<NodeId, Coord>, i: NodeId, j: NodeId, x: Path, y: Path, z: Path)
    requires i in coords && j in coords && x != [] && x[|x| - 1] == coords[i] != x[0]
    ensures Placed(coords, [i, j], [x, y, z]) == [x + [coords[j]], y, z]
  {
    LeadsOn(coords, i, j, [x, y, z], 0);
  }

  lemma Fourth(db: Database, members: seq<Member>, n: seq<NodeId>, c: seq<Coord>)
    requires ThreeArms(db, members, n, c) && db.Located(members)
    ensures Assembled(db, members[..4]) == [[c[0], c[1]], [c[2], c[3]], [c[4], c[5], c[6]]]
  {
    FirstThree(db, members, n, c);
    Step(db, members, n, c, 3);
    ThirdOfThree(db.node2Coord, n[5], n[6], [c[0], c[1]], [c[2], c[3]], [c[4], c[5]]);
    assert [c[4], c[5]] + [c[6]] == [c[4], c[5], c[6]];
  }

  lemma Fifth(db: Database, members: seq<Member>, n: seq<NodeId>, c: seq<Coord>)
    requires ThreeArms(db, members, n, c) && db.Located(members)
    ensures Assembled(db, members[..5]) == [[c[0], c[1]], [c[2], c[3], c[6]], [c[4], c[5], c[6]]]
  {
    Fourth(db, members, n, c);
    Step(db, members, n, c, 4);
    SecondOfThree(db.node2Coord, n[3], n[6], [c[0], c[1]], [c[2], c[3]], [c[4], c[5], c[6]]);
    assert [c[2], c[3]] + [c[6]] == [c[2], c[3], c[6]];
  }

  /** The other three are attached to these, from the last to the first. */
  lemma AllSix(db: Database, members: seq<Member>, n: seq<NodeId>, c: seq<Coord>)
    requires ThreeArms(db, members, n, c) && db.Located(members)
    ensures Assembled(db, members) == [[c[0], c[1], c[6]], [c[2], c[3], c[6]], [c[4], c[5], c[6]]]
  {
    Fifth(db, members, n, c);
    Step(db, members, n, c, 5);
    FirstOfThree(db.node2Coord, n[1], n[6], [c[0], c[1]], [c[2], c[3], c[6]], [c[4], c[5], c[6]]);
    assert [c[0], c[1]] + [c[6]] == [c[0], c[1], c[6]];
    assert members[..6] == members;
  }

  // ----- merging

  lemma BackToBack(a: Path, first: Coord, last: Coord, u: Coord, v: Coord)
    requires first != u && first != last && last != u
    ensures Touches(first, last, [u, v, last]) && Merged(a, first, last, [u, v, last]) == a + [v, u]
  {
    var b := [u, v, last];
    assert b[..|b| - 1] == [u] + [v];
    ReversedSplit([u], v);
    assert Reversed([u]) == [u];
    assert Reversed(b[..|b| - 1]) == [v] + [u];
    assert b[0] == u && b[|b| - 1] == last;
  }

  lemma MergingThem(e: Coord, f: Coord, c: Coord, d: Coord, a: Coord, b: Coord, p: Coord)
    requires e != c && e != a && e != p && c != p && a != p
    ensures MergedAll([[e, f, p], [c, d, p], [a, b, p]]) == [[e, f, p, d, c, b, a]]
  {
    var one, two, three := [e, f, p], [c, d, p], [a, b, p];
    var both, all := one + [d, c], one + [d, c] + [b, a];
    BackToBack(one, e, p, c, d);
    BackToBack(both, e, p, a, b);
    assert MergedAt([one, two, three], 0, 1, both) == [both, three];
    assert MergedAt([both, three], 0, 1, all) == [all];
    assert Absorbed([all], 0, 1, e, p) == [all];
    assert Absorbed([both, three], 0, 1, e, p) == [all];
    assert Absorbed([one, two, three], 0, 1, e, p) == [all];
    assert Pass([one, two, three], 0) == Pass([all], 1) == [all];
    assert MergedAll([one, two, three]) == MergedAll([all]) == [all];
    assert all == [e, f, p, d, c, b, a];
  }

  // ----- the edge

  lemma {:induction false} Nowhere(e: Segment, s: Path, n: nat)
    requires n <= |s| && forall k | 0 < k < n :: Edge(s[k - 1], s[k]) != e
    ensures OfEdge(e).At(s[..n]) == 0
  {
    if n > 1 {
      Nowhere(e, s, n - 1);
      EdgesExtend(e, s[..n - 1], s[n - 1]);
      assert s[..n - 1] + [s[n - 1]] == s[..n];
    }
  }

  /** The way from 5 to 6 is one of the ways. */
  lemma OnWays(db: Database, members: seq<Member>, n: seq<NodeId>, c: seq<Coord>)
    requires ThreeArms(db, members, n, c)
    ensures OfEdge(Edge(c[5], c[6])).Over(db.Boundary(members)) > 0
  {
    var t := OfEdge(Edge(c[5], c[6]));
    WayKnown(db, members, n, c, 3);
    BoundaryExtend(db, members, 3);
    EdgesExtend(t.e, [c[5]], c[6]);
    assert [c[5]] + [c[6]] == [c[5], c[6]];
    OverExtend(t, db.Boundary(members[..3]), [c[5], c[6]]);
    BoundaryGrows(db, members, t, 4);
  }

  lemma {:induction false} BoundaryGrows(db: Database, members: seq<Member>, t: Tally, k: nat)
    requires k <= |members|
    ensures t.Over(db.Boundary(members[..k])) <= t.Over(db.Boundary(members))
    decreases |members| - k
  {
    if k == |members| {
      assert members[..k] == members;
    } else {
      BoundaryExtend(db, members, k);
      if db.Attached(members[k]) {
        OverExtend(t, db.Boundary(members[..k]), db.PathOf(members[k].id));
      } else {
        assert db.Boundary(members[..k]) + [] == db.Boundary(members[..k]);
      }
      BoundaryGrows(db, members, t, k + 1);
    }
  }

  /** It is not among the edges of what is left after merging. */
  lemma OffRing(c: seq<Coord>)
    requires |c| == 7 && forall i, j | 0 <= i < j < 7 :: c[i] != c[j]
    ensures OnRing(Edge(c[5], c[6]), [c[0], c[1], c[6], c[3], c[2], c[5], c[4]]) == 0
  {
    var s := [c[0], c[1], c[6], c[3], c[2], c[5], c[4], c[0]];
    forall k | 0 < k < 8
      ensures Edge(s[k - 1], s[k]) != Edge(c[5], c[6])
    {
      EdgeHasItsEnds(s[k - 1], s[k], c[5], c[6]);
      assert s[k - 1] == c[5] ==> s[k] == c[4];
      assert s[k - 1] == c[6] ==> s[k] == c[3];
    }
    Nowhere(Edge(c[5], c[6]), s, 8);
    assert s[..8] == s == [c[0], c[1], c[6], c[3], c[2], c[5], c[4]] + [c[0]];
  }

  lemma EdgeHasItsEnds(p: Coord, q: Coord, u: Coord, v: Coord)
    ensures Edge(p, q) == Edge(u, v) <==> (p == u && q == v) || (p == v && q == u)
  {
  }

  /** All ways are known, yet the region that is recorded for such a relation lacks an edge of one of them. */
  lemma EdgeIsLost(db: Database, members: seq<Member>, n: seq<NodeId>, c: seq<Coord>, region: Region)
    requires ThreeArms(db, members, n, c)
    ensures db.Located(members) && db.Complete(members)
    ensures BuiltFrom(db, members, region) ==>
              && OnRings(Edge(c[5], c[6]), region.polygons) == 0 < OfEdge(Edge(c[5], c[6])).Over(db.Boundary(members))
              && !SameEdges(db.Boundary(members), region.polygons)
  {
    AllLocated(db, members, n, c);
    if BuiltFrom(db, members, region) {
      AllSix(db, members, n, c);
      MergingThem(c[0], c[1], c[2], c[3], c[4], c[5], c[6]);
      assert region.polygons == [[c[0], c[1], c[6], c[3], c[2], c[5], c[4]]];
      assert region.polygons[..0] == [];
      OffRing(c);
      OnWays(db, members, n, c);
    }
  }

  /** Such a relation, with ids as they can be stored: none is zero. */
  lemma SuchARelation() returns (db: Database, n: seq<NodeId>, c: seq<Coord>)
    ensures 1 in db.relMembers && ThreeArms(db, db.relMembers[1], n, c)
    ensures 0 !in db.node2Coord && 0 !in db.wayNodes && 0 !in db.relMembers
  {
    n := [1, 2, 3, 4, 5, 6, 7];
    c := [Coord(1, 4), Coord(2, 3), Coord(3, 8), Coord(4, 2), Coord(5, 9), Coord(6, 1), Coord(7, 0)];
    var coords: map<NodeId, Coord> := map[1 := c[0], 2 := c[1], 3 := c[2], 4 := c[3], 5 := c[4], 6 := c[5], 7 := c[6]];
    var ways: map<WayId, seq<NodeId>> :=
      map[11 := [1, 2], 12 := [3, 4], 13 := [5, 6], 14 := [6, 7], 15 := [4, 7], 16 := [2, 7]];
    var members := [Member(Way, 11, 1), Member(Way, 12, 1), Member(Way, 13, 1), Member(Way, 14, 1),
        Member(Way, 15, 1), Member(Way, 16, 1)];
    db := Database(coords, ways, map[1 := members]);
    assert forall i | 0 <= i < 7 :: c[i].x == i + 1 && n[i] == i + 1;
    forall i | 0 <= i < 6
      ensures db.Attached(members[i]) && db.wayNodes[members[i].id] == WayNodes(n, i)
    {
      assert members[i].id == 11 + i;
    }
  }

  /** Building the region of such a relation on a fresh index records one, and it lacks the edge. */
  method BuildLosesEdge(db: Database, id: RelationId, ghost n: seq<NodeId>, ghost c: seq<Coord>)
    returns (index: RegionIndex)
    requires id in db.relMembers && ThreeArms(db, db.relMembers[id], n, c)
    ensures index.Valid() && index.db == db && id in index.regions
    ensures OnRings(Edge(c[5], c[6]), index.regions[id].polygons)
            == 0 < OfEdge(Edge(c[5], c[6])).Over(db.Boundary(db.relMembers[id]))
  {
    AllLocated(db, db.relMembers[id], n, c);
    index := new RegionIndex(db);
    index.BuildPolygonForRelation(id);
    EdgeIsLost(db, db.relMembers[id], n, c, index.regions[id]);
  }
}
