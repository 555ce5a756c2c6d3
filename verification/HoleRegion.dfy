/** Relations with an outer and an inner way: a point in the hole between them is inside for the program. */
module HoleRegion {
  import opened Coordinates
  import opened MapIds
  import opened RegionParity
  import opened RegionTest
  import opened Regions
  import opened RingAssembly

  /** A relation of two closed ways without a common end. */
  ghost predicate TwoClosedWays(db: Database, members: seq<Member>, outer: Path, inner: Path) {
    && |members| == 2 && db.Attached(members[0]) && db.Attached(members[1])
    && db.PathOf(members[0].id) == outer && db.PathOf(members[1].id) == inner
    && |outer| > 1 && |inner| > 1 && Closed(outer) && Closed(inner) && outer[0] != inner[0]
    && EndsKnown(db, members[1].id, inner)
  }

  /** The first and the last node of a way have coordinates, which are those of the ends of its path. */
  ghost predicate EndsKnown(db: Database, id: WayId, path: Path)
    requires id in db.wayNodes && path != []
  {
    var nodes := db.wayNodes[id];
    && nodes != [] && nodes[0] in db.node2Coord && nodes[|nodes| - 1] in db.node2Coord
    && db.node2Coord[nodes[0]] == path[0] && db.node2Coord[nodes[|nodes| - 1]] == path[|path| - 1]
  }

  lemma BothLocated(db: Database, members: seq<Member>, outer: Path, inner: Path)
    requires TwoClosedWays(db, members, outer, inner)
    ensures db.Located(members) && db.Complete(members)
  {
    forall m | m in members
      ensures db.Attached(m) && db.PathOf(m.id) != []
    {
      assert m == members[0] || m == members[1];
    }
  }

  lemma TwoPolygons(db: Database, members: seq<Member>, outer: Path, inner: Path)
    requires TwoClosedWays(db, members, outer, inner) && db.Located(members)
    ensures Assembled(db, members) == [outer, inner] && db.Boundary(members) == [outer, inner]
  {
    AssembledExtend(db, members, 0);
    AssembledExtend(db, members, 1);
    BoundaryExtend(db, members, 0);
    BoundaryExtend(db, members, 1);
    assert members[..0] == [] && members[..2] == members;
    assert Assembled(db, members[..1]) == [outer];
    PlacedAt(db.node2Coord, db.wayNodes[members[1].id], [outer], 1);
  }

  lemma NothingToDo(outer: Path, inner: Path)
    requires outer != [] && inner != [] && Closed(outer) && Closed(inner)
    ensures MergedAll([outer, inner]) == [outer, inner]
  {
    assert Pass([outer, inner], 2) == [outer, inner];
    assert Pass([outer, inner], 1) == [outer, inner];
  }

  /** The region of the relation consists of the two ways, each without its repeated vertex. */
  lemma RingsOfTwo(db: Database, members: seq<Member>, outer: Path, inner: Path, region: Region)
    requires TwoClosedWays(db, members, outer, inner) && db.Located(members) && BuiltFrom(db, members, region)
    ensures region.polygons == [outer[..|outer| - 1], inner[..|inner| - 1]]
  {
    TwoPolygons(db, members, outer, inner);
    NothingToDo(outer, inner);
    ClosedRings(outer, inner, region.polygons);
  }

  lemma ClosedRings(outer: Path, inner: Path, rings: seq<Ring>)
    requires |outer| > 1 && |inner| > 1 && Closed(outer) && Closed(inner) && RingsOf([outer, inner], rings)
    ensures rings == [outer[..|outer| - 1], inner[..|inner| - 1]]
  {
  }

  lemma WalksOfTwo(outer: Path, inner: Path, c: Coord)
    ensures OnWalks([outer, inner], c) == Exact.OnWalk(outer, c) + Exact.OnWalk(inner, c)
  {
    assert [outer, inner][..1] == [outer];
    assert OnWalks([outer], c) == Exact.OnWalk(outer, c);
  }

  /** Both ways have the point inside, by exact counting and for the program. */
  ghost predicate InBoth(outer: Path, inner: Path, c: Coord)
    requires outer != [] && inner != []
  {
    && InsideRing(outer[..|outer| - 1], c) && InsideRing(inner[..|inner| - 1], c)
    && Exact.OnWalk(outer, c) % 2 == 1 && Exact.OnWalk(inner, c) % 2 == 1
  }

  lemma InSome(rings: seq<Ring>, ring: Ring, c: Coord)
    requires rings != [] && rings[0] == ring && InsideRing(ring, c)
    ensures InsideAnyRing(rings, c)
  {
    assert rings[0] in rings;
  }

  /** A point that both ways have inside is outside by even-odd counting of the ways, and the program has it inside. */
  lemma HoleOfRelation(db: Database, members: seq<Member>, outer: Path, inner: Path, region: Region, c: Coord)
    requires TwoClosedWays(db, members, outer, inner) && InBoth(outer, inner, c) && db.Located(members)
    requires BuiltFrom(db, members, region)
    ensures InsideAnyRing(region.polygons, c) && OnWalks(db.Boundary(members), c) % 2 == 0
  {
    RingsOfTwo(db, members, outer, inner, region);
    TwoPolygons(db, members, outer, inner);
    HoleOfTwo(outer, inner, region.polygons, db.Boundary(members), c);
  }

  lemma HoleOfTwo(outer: Path, inner: Path, rings: seq<Ring>, ways: seq<Path>, c: Coord)
    requires outer != [] && inner != [] && InBoth(outer, inner, c)
    requires rings == [outer[..|outer| - 1], inner[..|inner| - 1]] && ways == [outer, inner]
    ensures InsideAnyRing(rings, c) && OnWalks(ways, c) % 2 == 0
  {
    TwoOdd(outer, inner, c);
    InSome(rings, rings[0], c);
  }

  lemma TwoOdd(outer: Path, inner: Path, c: Coord)
    requires Exact.OnWalk(outer, c) % 2 == 1 && Exact.OnWalk(inner, c) % 2 == 1
    ensures OnWalks([outer, inner], c) % 2 == 0
  {
    WalksOfTwo(outer, inner, c);
    SumOfOdd(Exact.OnWalk(outer, c), Exact.OnWalk(inner, c));
  }

  lemma SumOfOdd(a: nat, b: nat)
    requires a % 2 == 1 && b % 2 == 1
    ensures (a + b) % 2 == 0
  {
  }

  // ----- such a relation

  lemma KnownMore(coords: map<NodeId, Coord>, nodes: seq<NodeId>, path: Path, i: NodeId)
    requires Known(coords, nodes) == path && i in coords
    ensures Known(coords, nodes + [i]) == path + [coords[i]]
  {
    assert (nodes + [i])[..|nodes|] == nodes;
  }

  lemma KnownThree(coords: map<NodeId, Coord>, i: NodeId, j: NodeId, k: NodeId, u: Coord, v: Coord, w: Coord)
    requires i in coords && j in coords && k in coords && coords[i] == u && coords[j] == v && coords[k] == w
    ensures Known(coords, [i, j, k, i]) == [u, v, w, u]
  {
    assert [] + [i] == [i] && [i] + [j] == [i, j] && [i, j] + [k] == [i, j, k] && [i, j, k] + [i] == [i, j, k, i];
    assert [] + [u] == [u] && [u] + [v] == [u, v] && [u, v] + [w] == [u, v, w] && [u, v, w] + [u] == [u, v, w, u];
    KnownMore(coords, [], [], i);
    KnownMore(coords, [i], [u], j);
    KnownMore(coords, [i, j], [u, v], k);
    KnownMore(coords, [i, j, k], [u, v, w], i);
  }

  lemma TriangleWalk(u: Coord, v: Coord, w: Coord, c: Coord)
    requires u.x == v.x && u.y == w.y && u.y < c.y <= v.y
    requires u.x < c.x && CrossingX(w, v, c) >= c.x && !Exact.Hits(w, v, c)
    ensures InsideRing([u, v, w, u][..3], c) && Exact.OnWalk([u, v, w, u], c) % 2 == 1
  {
    TriangleHolds(u, v, w, c);
    assert [u, v, w, u][..3] == [u, v, w];
    ClosingRing([u, v, w], c);
    assert [u, v, w] + [u] == [u, v, w, u];
  }

  lemma PointInBoth(p: Coord, q: Coord, r: Coord, u: Coord, v: Coord, w: Coord, c: Coord)
    requires p == Coord(0, 0) && q == Coord(0, 90) && r == Coord(90, 0)
    requires u == Coord(10, 10) && v == Coord(10, 40) && w == Coord(40, 10) && c == Coord(20, 15)
    ensures InBoth([p, q, r, p], [u, v, w, u], c)
  {
    TriangleWalk(p, q, r, c);
    TriangleWalk(u, v, w, c);
  }

  /** A relation of an outer and an inner triangle. */
  lemma TwoTriangles(p: Coord, q: Coord, r: Coord, u: Coord, v: Coord, w: Coord) returns (db: Database)
    requires p != u
    ensures 1 in db.relMembers && TwoClosedWays(db, db.relMembers[1], [p, q, r, p], [u, v, w, u])
    ensures 0 !in db.node2Coord && 0 !in db.wayNodes && 0 !in db.relMembers
  {
    var coords: map<NodeId, Coord> := map[1 := p, 2 := q, 3 := r, 4 := u, 5 := v, 6 := w];
    var ways: map<WayId, seq<NodeId>> := map[11 := [1, 2, 3, 1], 12 := [4, 5, 6, 4]];
    db := Database(coords, ways, map[1 := [Member(Way, 11, 1), Member(Way, 12, 2)]]);
    KnownThree(coords, 1, 2, 3, p, q, r);
    KnownThree(coords, 4, 5, 6, u, v, w);
    assert EndsKnown(db, 12, [u, v, w, u]);
  }

  /** Such a relation and a point in both of its ways; no id is zero. */
  lemma SuchAHole() returns (db: Database, outer: Path, inner: Path, c: Coord)
    ensures 1 in db.relMembers && TwoClosedWays(db, db.relMembers[1], outer, inner) && InBoth(outer, inner, c)
    ensures 0 !in db.node2Coord && 0 !in db.wayNodes && 0 !in db.relMembers
  {
    var p, q, r, u, v, w := Coord(0, 0), Coord(0, 90), Coord(90, 0), Coord(10, 10), Coord(10, 40), Coord(40, 10);
    outer, inner, c := [p, q, r, p], [u, v, w, u], Coord(20, 15);
    PointInBoth(p, q, r, u, v, w, c);
    db := TwoTriangles(p, q, r, u, v, w);
  }

  /** Asking a fresh index about the point: it answers "inside". */
  method AskForHole(db: Database, id: RelationId, ghost outer: Path, ghost inner: Path, c: Coord)
    returns (index: RegionIndex, inside: bool)
    requires id in db.relMembers && TwoClosedWays(db, db.relMembers[id], outer, inner) && InBoth(outer, inner, c)
    ensures inside && OnWalks(db.Boundary(db.relMembers[id]), c) % 2 == 0
  {
    BothLocated(db, db.relMembers[id], outer, inner);
    index := new RegionIndex(db);
    var answer := index.NodeInsideRelationRegion(c, id);
    HoleOfRelation(db, db.relMembers[id], outer, inner, index.regions[id], c);
    inside := answer.value;
  }
}
