/**
 * Relations turned into regions: all boundary ways attached, polygons merged, rings closed, a box drawn around them.
 */
module Regions {
  import opened Coordinates
  import opened MapIds
  import opened Options
  import opened RingAssembly
  import opened RegionTest

  datatype Kind = UnknownElementType | Node | Way | Relation

  /** A relation's member together with its role flags (1 is outer, 2 is inner). */
  datatype Member = Member(kind: Kind, id: nat, flags: nat) {
    /** A way whose role has one of the two lowest flag bits. */
    predicate OnBoundary() {
      kind.Way? && flags % 4 != 0
    }
  }

  /** The parts of the map database that are consulted; they do not change meanwhile. */
  datatype Database = Database(
    node2Coord: map<NodeId, Coord>,
    wayNodes: map<WayId, seq<NodeId>>,
    relMembers: map<RelationId, seq<Member>>)
  {
    predicate Attached(m: Member) {
      m.OnBoundary() && m.id in wayNodes
    }

    function PathOf(id: WayId): Path
      requires id in wayNodes
    {
      Known(node2Coord, wayNodes[id])
    }

    /** The paths of a relation's boundary ways that are in the database. */
    ghost function Boundary(members: seq<Member>): seq<Path> {
      if members == [] then []
      else
        var n := |members| - 1;
        Boundary(members[..n]) + if Attached(members[n]) then [PathOf(members[n].id)] else []
    }

    function Expected(members: seq<Member>): nat {
      if members == [] then 0
      else Expected(members[1..]) + if members[0].OnBoundary() then 1 else 0
    }

    ghost predicate Complete(members: seq<Member>) {
      forall m | m in members && m.OnBoundary() :: m.id in wayNodes
    }

    /** Boundary ways have at least one node whose coordinates are known. */
    ghost predicate Located(members: seq<Member>) {
      forall m | m in members && Attached(m) :: PathOf(m.id) != []
    }
  }

  // ----- counting boundary ways

  lemma {:induction false} ExpectedSplit(db: Database, members: seq<Member>, k: nat)
    requires k <= |members|
    ensures db.Expected(members) == db.Expected(members[..k]) + db.Expected(members[k..])
  {
    if k == 0 {
      assert members[0..] == members;
    } else {
      ExpectedSplit(db, members[1..], k - 1);
      assert members[1..][..k - 1] == members[..k][1..] && members[1..][k - 1..] == members[k..];
    }
  }

  lemma ExpectedOne(db: Database, m: Member)
    ensures db.Expected([m]) == if m.OnBoundary() then 1 else 0
  {
    assert db.Expected([m][1..]) == 0;
  }

  /** All boundary ways are attached exactly when the counts agree. */
  lemma {:induction false} BoundaryCount(db: Database, members: seq<Member>)
    ensures |db.Boundary(members)| <= db.Expected(members)
    ensures |db.Boundary(members)| == db.Expected(members) <==> db.Complete(members)
  {
    if members != [] {
      var n := |members| - 1;
      BoundaryCount(db, members[..n]);
      ExpectedSplit(db, members, n);
      assert members[n..] == [members[n]];
      ExpectedOne(db, members[n]);
      assert members[n] in members;
      assert forall m | m in members :: m == members[n] || m in members[..n];
    }
  }

  lemma {:induction false} NoBoundaryLeft(db: Database, members: seq<Member>, k: nat)
    requires k <= |members| && |db.Boundary(members[..k])| == db.Expected(members)
    ensures db.Boundary(members[..k]) == db.Boundary(members)
    decreases |members| - k
  {
    if k == |members| {
      assert members[..k] == members;
    } else {
      BoundaryCount(db, members[..k]);
      ExpectedSplit(db, members, k);
      assert members[k..][0] == members[k];
      assert members[..k + 1][..k] == members[..k];
      NoBoundaryLeft(db, members, k + 1);
    }
  }

  // ----- when the rings close

  lemma {:induction false} OtherPath(t: Tally, list: seq<Path>, k: nat) returns (j: nat)
    requires k < |list| && t.At(list[k]) < t.Over(list)
    ensures j < |list| && j != k && t.At(list[j]) > 0
  {
    var n := |list| - 1;
    if k == n {
      j := SomePath(t, list[..n]);
    } else if t.At(list[n]) > 0 {
      j := n;
    } else {
      j := OtherPath(t, list[..n], k);
    }
  }

  lemma {:induction false} SomePath(t: Tally, list: seq<Path>) returns (j: nat)
    requires t.Over(list) > 0
    ensures j < |list| && t.At(list[j]) > 0
  {
    var n := |list| - 1;
    if t.At(list[n]) > 0 {
      j := n;
    } else {
      j := SomePath(t, list[..n]);
    }
  }

  lemma {:induction false} TwoPaths(t: Tally, list: seq<Path>, i: nat, j: nat)
    requires i < j < |list|
    ensures t.At(list[i]) + t.At(list[j]) <= t.Over(list)
  {
    OverErase(t, list, j);
    OverHas(t, list[..j] + list[j + 1..], i);
  }

  ghost predicate AllClosed(list: seq<Path>)
    requires NoneEmpty(list)
  {
    forall k | 0 <= k < |list| :: Closed(list[k])
  }

  lemma {:induction false} ClosedEndsEven(c: Coord, list: seq<Path>)
    requires NoneEmpty(list) && AllClosed(list)
    ensures OfEnd(c).Over(list) % 2 == 0
  {
    if list != [] {
      var n := |list| - 1;
      assert forall k | 0 <= k < n :: list[..n][k] == list[k];
      ClosedEndsEven(c, list[..n]);
      assert Closed(list[n]);
    }
  }

  /** Every coordinate at which a way ends is an end of exactly one other. */
  ghost predicate EndsPaired(ways: seq<Path>) {
    forall c :: OfEnd(c).Over(ways) != 1
  }

  lemma OpenPathHasPartner(list: seq<Path>, k: nat)
    requires NoneEmpty(list) && AtMostTwoEnds(list) && k < |list| && !Closed(list[k])
    requires OfEnd(list[k][0]).Over(list) != 1
    ensures !NothingToMerge(list)
  {
    var t := OfEnd(list[k][0]);
    OverHas(t, list, k);
    var j := OtherPath(t, list, k);
    TwoPaths(t, list, if j < k then j else k, if j < k then k else j);
    assert t.Over(list) <= 2;
    assert !Closed(list[j]);
    if j < k {
      assert !NoPartner(list[j], list[k]);
    } else {
      assert !NoPartner(list[k], list[j]);
    }
  }

  /** After merging, all rings are closed if and only if the ends of the ways come in pairs. */
  lemma ClosedIffPaired(ways: seq<Path>, list: seq<Path>)
    requires AtMostTwoEnds(ways) && Accounts(ways, list)
    requires NoneEmpty(list) && NothingToMerge(list)
    ensures AllClosed(list) <==> EndsPaired(ways)
  {
    AccountsKeepsTwo(ways, list);
    if AllClosed(list) {
      forall c
        ensures OfEnd(c).Over(ways) != 1
      {
        ClosedEndsEven(c, list);
        assert Settled(OfEnd(c).Over(list), OfEnd(c).Over(ways));
      }
    } else {
      var k :| 0 <= k < |list| && !Closed(list[k]);
      var c := list[k][0];
      assert Settled(OfEnd(c).Over(list), OfEnd(c).Over(ways));
      if OfEnd(c).Over(list) != 1 {
        OpenPathHasPartner(list, k);
      }
      assert OfEnd(c).Over(ways) <= 2;
    }
  }

  // ----- rings

  /** How often an edge is part of a ring, the edge that closes the ring included. */
  ghost function OnRing(e: Segment, ring: Ring): nat {
    if ring == [] then 0 else OfEdge(e).At(ring + [ring[0]])
  }

  ghost function OnRings(e: Segment, rings: seq<Ring>): nat {
    if rings == [] then 0 else OnRings(e, rings[..|rings| - 1]) + OnRing(e, rings[|rings| - 1])
  }

  /** A closed path without its repeated vertex; an open one unchanged. */
  function DropRepeated(s: Path): Ring
    requires s != []
  {
    if Closed(s) then s[..|s| - 1] else s
  }

  ghost predicate RingsOf(list: seq<Path>, rings: seq<Ring>) {
    && NoneEmpty(list)
    && |rings| == |list|
    && forall k | 0 <= k < |list| :: rings[k] == DropRepeated(list[k])
  }

  /** Whether e is missing between the last and the first vertex of an open path. */
  ghost function Gap(e: Segment, s: Path): nat {
    if s == [] || Closed(s) || Edge(s[|s| - 1], s[0]) != e then 0 else 1
  }

  ghost function Gaps(e: Segment, list: seq<Path>): nat {
    if list == [] then 0 else Gaps(e, list[..|list| - 1]) + Gap(e, list[|list| - 1])
  }

  lemma RingOfPath(e: Segment, s: Path)
    requires s != []
    ensures OnRing(e, DropRepeated(s)) == OfEdge(e).At(s) + Gap(e, s)
  {
    if Closed(s) {
      if |s| > 1 {
        assert s[..|s| - 1] + [s[0]] == s;
      }
    } else {
      EdgesExtend(e, s, s[0]);
    }
  }

  lemma RingsOfFront(list: seq<Path>, rings: seq<Ring>)
    requires RingsOf(list, rings) && list != []
    ensures var n := |list| - 1;
            RingsOf(list[..n], rings[..n]) && rings[n] == DropRepeated(list[n])
  {
    var n := |list| - 1;
    assert forall m | 0 <= m < n :: list[..n][m] == list[m] && rings[..n][m] == rings[m];
  }

  /** Rings have the edges of their paths and the edges that close the open ones. */
  lemma {:induction false} RingsOfPaths(e: Segment, list: seq<Path>, rings: seq<Ring>)
    requires RingsOf(list, rings)
    ensures OnRings(e, rings) == OfEdge(e).Over(list) + Gaps(e, list)
  {
    if list != [] {
      var n := |list| - 1;
      RingsOfFront(list, rings);
      RingsOfPaths(e, list[..n], rings[..n]);
      RingOfPath(e, list[n]);
    }
  }

  lemma {:induction false} GapShows(e: Segment, list: seq<Path>, k: nat)
    requires k < |list| && Gap(e, list[k]) > 0
    ensures Gaps(e, list) > 0
  {
    var n := |list| - 1;
    if k < n {
      GapShows(e, list[..n], k);
    }
  }

  lemma {:induction false} NoGaps(e: Segment, list: seq<Path>)
    requires NoneEmpty(list) && AllClosed(list)
    ensures Gaps(e, list) == 0
  {
    if list != [] {
      var n := |list| - 1;
      assert forall k | 0 <= k < n :: list[..n][k] == list[k];
      NoGaps(e, list[..n]);
    }
  }

  ghost predicate SameEdges(ways: seq<Path>, rings: seq<Ring>) {
    forall e :: OnRings(e, rings) == OfEdge(e).Over(ways)
  }

  /**
   * When no coordinate ends more than two ways, the edges of the rings are the edges of the ways,
   * one for one, if and only if the ends of the ways come in pairs.
   */
  lemma RingsAreWaysIff(ways: seq<Path>, list: seq<Path>, rings: seq<Ring>)
    requires AtMostTwoEnds(ways) && Accounts(ways, list)
    requires RingsOf(list, rings) && NothingToMerge(list)
    ensures SameEdges(ways, rings) <==> EndsPaired(ways)
  {
    ClosedIffPaired(ways, list);
    forall e
      ensures OnRings(e, rings) == OfEdge(e).Over(ways) + Gaps(e, list)
    {
      RingsOfPaths(e, list, rings);
    }
    if AllClosed(list) {
      forall e
        ensures Gaps(e, list) == 0
      {
        NoGaps(e, list);
      }
    } else {
      var k :| 0 <= k < |list| && !Closed(list[k]);
      var e := Edge(list[k][|list[k]| - 1], list[k][0]);
      GapShows(e, list, k);
      assert OnRings(e, rings) != OfEdge(e).Over(ways);
    }
  }

  // ----- the bounding box

  const INT_RANGE := 0x3fff_ffff

  const NOTHING := Box(INT_RANGE, INT_RANGE, -1, -1)

  function Covering(box: Box, s: Path): Box {
    if s == [] then box else Covering(box, s[1..]).Include(s[0])
  }

  ghost function BoxOf(ways: seq<Path>): Box {
    if ways == [] then NOTHING else Covering(BoxOf(ways[..|ways| - 1]), ways[|ways| - 1])
  }

  lemma {:induction false} CoveringHolds(box: Box, s: Path)
    ensures Covering(box, s).Encloses(s)
    ensures forall c | box.Contains(c) :: Covering(box, s).Contains(c)
  {
    if s != [] {
      CoveringHolds(box, s[1..]);
      assert forall c | c in s :: c == s[0] || c in s[1..];
    }
  }

  /** The recorded box contains every vertex. */
  lemma {:induction false} BoxHoldsVertices(ways: seq<Path>, c: Coord)
    requires IsVertex(c, ways)
    ensures BoxOf(ways).Contains(c)
  {
    var n := |ways| - 1;
    CoveringHolds(BoxOf(ways[..n]), ways[n]);
    if c !in ways[n] {
      var k :| 0 <= k < |ways| && c in ways[k];
      assert ways[..n][k] == ways[k];
      BoxHoldsVertices(ways[..n], c);
    }
  }

  /** No smaller box does: each side is either the initial one or passes through a vertex. */
  ghost predicate Tight(box: Box, ways: seq<Path>) {
    && (box.minx == NOTHING.minx || exists c :: IsVertex(c, ways) && c.x == box.minx)
    && (box.miny == NOTHING.miny || exists c :: IsVertex(c, ways) && c.y == box.miny)
    && (box.maxx == NOTHING.maxx || exists c :: IsVertex(c, ways) && c.x == box.maxx)
    && (box.maxy == NOTHING.maxy || exists c :: IsVertex(c, ways) && c.y == box.maxy)
  }

  lemma {:induction false} CoveringTight(box: Box, s: Path, ways: seq<Path>)
    requires Tight(box, ways)
    requires forall c | c in s :: IsVertex(c, ways)
    ensures Tight(Covering(box, s), ways)
  {
    if s != [] {
      CoveringTight(box, s[1..], ways);
      assert IsVertex(s[0], ways);
    }
  }

  lemma {:induction false} BoxTight(ways: seq<Path>)
    ensures Tight(BoxOf(ways), ways)
  {
    if ways != [] {
      var n := |ways| - 1;
      BoxTight(ways[..n]);
      assert ways == ways[..n] + [ways[n]];
      VertexExtend(ways[..n], ways[n]);
      assert Tight(BoxOf(ways[..n]), ways);
      CoveringTight(BoxOf(ways[..n]), ways[n], ways);
    }
  }

  // ----- attaching all ways of a relation

  lemma {:induction false} KnownIsFront(coords: map<NodeId, Coord>, nodes: seq<NodeId>, j: nat)
    requires j < |nodes|
    ensures var rest := Known(coords, nodes[j + 1..]);
            Known(coords, nodes[j..]) == if nodes[j] in coords then [coords[nodes[j]]] + rest else rest
  {
    KnownSplit(coords, nodes[j..], 1);
    assert nodes[j..][1..] == nodes[j + 1..];
    assert nodes[j..][..1] == [nodes[j]] && Known(coords, [nodes[j]][..0]) == [];
  }

  /** Widen the box by the nodes of a way, last node first. */
  method WidenBox(coords: map<NodeId, Coord>, nodes: seq<NodeId>, box0: Box) returns (box: Box)
    ensures box == Covering(box0, Known(coords, nodes))
  {
    box := box0;
    var i := |nodes| - 1;
    while i >= 0
      invariant -1 <= i < |nodes|
      invariant box == Covering(box0, Known(coords, nodes[i + 1..]))
    {
      KnownIsFront(coords, nodes, i);
      if nodes[i] in coords {
        var c := coords[nodes[i]];
        assert ([c] + Known(coords, nodes[i + 1..]))[1..] == Known(coords, nodes[i + 1..]);
        if c.x < box.minx { box := box.(minx := c.x); }
        if c.x > box.maxx { box := box.(maxx := c.x); }
        if c.y < box.miny { box := box.(miny := c.y); }
        if c.y > box.maxy { box := box.(maxy := c.y); }
      }
      i := i - 1;
    }
    assert nodes[0..] == nodes;
  }

  /** The list after a way was offered to its polygons: the first that takes it has it, or it starts one of its own. */
  function Placed(coords: map<NodeId, Coord>, nodes: seq<NodeId>, list: seq<Path>): seq<Path>
    requires nodes != []
  {
    if list == [] then [Known(coords, nodes)]
    else if Attachable(coords, nodes, list[0]) then [Extended(coords, nodes, list[0])] + list[1..]
    else [list[0]] + Placed(coords, nodes, list[1..])
  }

  lemma {:induction false} PlacedAt(coords: map<NodeId, Coord>, nodes: seq<NodeId>, list: seq<Path>, k: nat)
    requires nodes != [] && k <= |list|
    requires forall m | 0 <= m < k :: !Attachable(coords, nodes, list[m])
    ensures k == |list| ==> Placed(coords, nodes, list) == list + [Known(coords, nodes)]
    ensures k < |list| && Attachable(coords, nodes, list[k]) ==>
              Placed(coords, nodes, list) == list[k := Extended(coords, nodes, list[k])]
  {
    if k > 0 {
      PlacedAt(coords, nodes, list[1..], k - 1);
      assert list == [list[0]] + list[1..];
    }
  }

  /** Attach a way to the first polygon that takes it, or let it start a polygon of its own. */
  method AttachWay(coords: map<NodeId, Coord>, nodes: seq<NodeId>, list0: seq<Path>) returns (list: seq<Path>)
    requires NoneEmpty(list0) && nodes != [] && Known(coords, nodes) != []
    ensures list == Placed(coords, nodes, list0)
    ensures NoneEmpty(list)
    ensures Accounts(list0 + [Known(coords, nodes)], list)
    ensures (forall k | 0 <= k < |list0| :: !Attachable(coords, nodes, list0[k])) ==>
              list == list0 + [Known(coords, nodes)]
    ensures (exists k | 0 <= k < |list0| :: Attachable(coords, nodes, list0[k])) ==> |list| == |list0|
  {
    list := list0;
    for k := 0 to |list0|
      invariant list == list0
      invariant forall m | 0 <= m < k :: !Attachable(coords, nodes, list0[m])
    {
      var added, polygon := AddWayToPolygon(coords, nodes, list[k]);
      if added {
        PlacedAt(coords, nodes, list0, k);
        GluedInPlace(list0, k, Known(coords, nodes), polygon);
        list := list[k := polygon];
        return;
      }
    }
    var _, polygon := AddWayToPolygon(coords, nodes, []);
    list := list + [polygon];
    PlacedAt(coords, nodes, list0, |list0|);
    AccountsReflexive(list);
  }

  lemma BoundaryExtend(db: Database, members: seq<Member>, i: nat)
    requires i < |members|
    ensures db.Boundary(members[..i + 1])
         == db.Boundary(members[..i]) + if db.Attached(members[i]) then [db.PathOf(members[i].id)] else []
  {
    assert members[..i + 1][..i] == members[..i];
  }

  lemma BoxExtend(ways: seq<Path>, way: Path)
    ensures BoxOf(ways + [way]) == Covering(BoxOf(ways), way)
  {
    assert (ways + [way])[..|ways|] == ways;
  }

  lemma AccountsForOneMore(ways: seq<Path>, before: seq<Path>, way: Path, after: seq<Path>)
    requires Accounts(ways, before) && Accounts(before + [way], after)
    ensures Accounts(ways + [way], after)
  {
    AccountsExtend(ways, before, way);
    AccountsTransitive(ways + [way], before + [way], after);
  }

  /** Count the boundary ways, last member first. */
  method CountBoundary(db: Database, members: seq<Member>) returns (expected: nat)
    ensures expected == db.Expected(members)
  {
    expected := 0;
    var i := |members| - 1;
    while i >= 0
      invariant -1 <= i < |members|
      invariant expected == db.Expected(members[i + 1..])
    {
      assert members[i..][1..] == members[i + 1..];
      if members[i].OnBoundary() {
        expected := expected + 1;
      }
      i := i - 1;
    }
    assert members[0..] == members;
  }

  /** The polygons after all boundary ways of some members were placed, in the order of the members. */
  ghost function Assembled(db: Database, members: seq<Member>): seq<Path>
    requires db.Located(members)
  {
    if members == [] then []
    else
      var n := |members| - 1;
      var before := Assembled(db, members[..n]);
      if db.Attached(members[n]) then Placed(db.node2Coord, db.wayNodes[members[n].id], before) else before
  }

  lemma AssembledExtend(db: Database, members: seq<Member>, i: nat)
    requires i < |members| && db.Located(members)
    ensures Assembled(db, members[..i + 1]) ==
            if db.Attached(members[i])
                then Placed(db.node2Coord, db.wayNodes[members[i].id], Assembled(db, members[..i]))
            else Assembled(db, members[..i])
  {
    assert members[..i + 1][..i] == members[..i];
  }

  lemma {:induction false} AssembledLeft(db: Database, members: seq<Member>, k: nat)
    requires k <= |members| && db.Located(members) && |db.Boundary(members[..k])| == db.Expected(members)
    ensures Assembled(db, members[..k]) == Assembled(db, members)
    decreases |members| - k
  {
    if k == |members| {
      assert members[..k] == members;
    } else {
      BoundaryCount(db, members[..k]);
      ExpectedSplit(db, members, k);
      assert members[k..][0] == members[k];
      BoundaryExtend(db, members, k);
      AssembledExtend(db, members, k);
      AssembledLeft(db, members, k + 1);
    }
  }

  /** The state of the assembly once the first upto members were looked at for the first time. */
  ghost predicate Swept(db: Database, members: seq<Member>, upto: nat, attached: seq<bool>, list: seq<Path>, box: Box,
                        additions: nat)
    requires db.Located(members)
  {
    && upto <= |members| == |attached|
    && list == Assembled(db, members[..upto])
    && (forall k | 0 <= k < |members| :: attached[k] <==> k < upto && db.Attached(members[k]))
    && NoneEmpty(list)
    && Accounts(db.Boundary(members[..upto]), list)
    && box == BoxOf(db.Boundary(members[..upto]))
    && additions == |db.Boundary(members[..upto])| <= db.Expected(members)
  }

  lemma SweptOnePast(db: Database, members: seq<Member>, i: nat, attached: seq<bool>, list: seq<Path>, box: Box,
                     additions: nat)
    requires i < |members| && db.Located(members) && Swept(db, members, i, attached, list, box, additions)
    requires !db.Attached(members[i])
    ensures Swept(db, members, i + 1, attached, list, box, additions)
  {
    BoundaryExtend(db, members, i);
    AssembledExtend(db, members, i);
    assert db.Boundary(members[..i]) + [] == db.Boundary(members[..i]);
  }

  lemma SweptOneMore(db: Database, members: seq<Member>, i: nat, attached: seq<bool>, list: seq<Path>, box: Box,
                     additions: nat, after: seq<Path>)
    requires i < |members| && db.Located(members) && Swept(db, members, i, attached, list, box, additions)
    requires db.Attached(members[i]) && after == Placed(db.node2Coord, db.wayNodes[members[i].id], list)
    requires NoneEmpty(after) && Accounts(list + [db.PathOf(members[i].id)], after)
    ensures Swept(db, members, i + 1, attached[i := true], after, Covering(box, db.PathOf(members[i].id)),
            additions + 1)
  {
    var way := db.PathOf(members[i].id);
    BoundaryExtend(db, members, i);
    AssembledExtend(db, members, i);
    AccountsForOneMore(db.Boundary(members[..i]), list, way, after);
    BoxExtend(db.Boundary(members[..i]), way);
    BoundaryWithin(db, members, i + 1);
  }

  lemma BoundaryWithin(db: Database, members: seq<Member>, k: nat)
    requires k <= |members|
    ensures |db.Boundary(members[..k])| <= db.Expected(members)
  {
    BoundaryCount(db, members[..k]);
    ExpectedSplit(db, members, k);
  }

  lemma NothingSwept(db: Database, members: seq<Member>)
    requires db.Located(members)
    ensures Swept(db, members, 0, seq(|members|, _ => false), [], NOTHING, 0)
  {
    assert members[..0] == [];
    AccountsReflexive([]);
  }

  /** One sweep over the members. Only the first sweep finds ways to attach. */
  method Sweep(db: Database, members: seq<Member>, expected: nat, attached0: seq<bool>, list0: seq<Path>, box0: Box,
               additions0: nat, ghost first: bool)
    returns (attached: seq<bool>, list: seq<Path>, box: Box, additions: nat, ghost upto: nat)
    requires db.Located(members) && expected == db.Expected(members)
    requires Swept(db, members, if first then 0 else |members|, attached0, list0, box0, additions0)
    ensures Swept(db, members, upto, attached, list, box, additions)
    ensures upto == |members| || additions == expected
  {
    attached, list, box, additions := attached0, list0, box0, additions0;
    upto := if first then 0 else |members|;
    var i := 0;
    while i < |members| && additions < expected
      invariant 0 <= i <= |members|
      invariant upto == if first then i else |members|
      invariant Swept(db, members, upto, attached, list, box, additions)
    {
      var m := members[i];
      if !attached[i] && m.OnBoundary() && m.id in db.wayNodes {
        var nodes := db.wayNodes[m.id];
        assert db.Attached(m) && m in members;
        ghost var before := list;
        list := AttachWay(db.node2Coord, nodes, list);
        SweptOneMore(db, members, i, attached, before, box, additions, list);
        box := WidenBox(db.node2Coord, nodes, box);
        additions := additions + 1;
        attached := attached[i := true];
        upto := i + 1;
      } else if first {
        SweptOnePast(db, members, i, attached, list, box, additions);
        upto := i + 1;
      }
      i := i + 1;
    }
  }

  /**
   * Sweep over the members until all expected ways are attached or |members| + 5 sweeps are done:
   * exactly the boundary ways in the database are attached, each of them once.
   */
  method AttachWays(db: Database, members: seq<Member>) returns (list: seq<Path>, box: Box, complete: bool)
    requires db.Located(members)
    ensures list == Assembled(db, members)
    ensures NoneEmpty(list)
    ensures Accounts(db.Boundary(members), list)
    ensures box == BoxOf(db.Boundary(members))
    ensures complete <==> db.Complete(members)
  {
    var expected := CountBoundary(db, members);
    var attached, additions := seq(|members|, _ => false), 0;
    list, box := [], NOTHING;
    ghost var upto := 0;
    NothingSwept(db, members);
    var wrapAround := 0;
    while additions < expected && wrapAround < |members| + 5
      invariant Swept(db, members, upto, attached, list, box, additions)
      invariant if wrapAround == 0 then upto == 0 else upto == |members| || additions == expected
      decreases |members| + 5 - wrapAround
    {
      attached, list, box, additions, upto := Sweep(db, members, expected, attached, list, box, additions,
                                                          wrapAround == 0);
      wrapAround := wrapAround + 1;
    }
    if additions == expected {
      NoBoundaryLeft(db, members, upto);
      AssembledLeft(db, members, upto);
    }
    assert members[..|members|] == members;
    BoundaryCount(db, members);
    complete := additions == expected;
  }

  // ----- the finished region

  /** Drop the repeated vertex of every closed polygon; report whether all were closed. */
  method CloseRings(list: seq<Path>) returns (rings: seq<Ring>)
    requires NoneEmpty(list)
    ensures RingsOf(list, rings)
  {
    rings := list;
    for i := 0 to |list|
      invariant |rings| == |list|
      invariant forall k | 0 <= k < i :: rings[k] == DropRepeated(list[k])
      invariant forall k | i <= k < |list| :: rings[k] == list[k]
    {
      var polygon := rings[i];
      if polygon[0] == polygon[|polygon| - 1] {
        rings := rings[i := polygon[..|polygon| - 1]];
      }
    }
  }

  /**
   * What a region owes to the ways it was built from: its box is the box of the ways and holds
   * every ring, and, as long as no coordinate ends more than two ways, its rings have exactly the
   * edges of the ways if and only if the ends of the ways come in pairs.
   */
  ghost predicate Outlines(region: Region, ways: seq<Path>) {
    && region.box == BoxOf(ways)
    && region.Valid()
    && (AtMostTwoEnds(ways) ==> (SameEdges(ways, region.polygons) <==> EndsPaired(ways)))
  }

  lemma RingsStayInBox(ways: seq<Path>, list: seq<Path>, rings: seq<Ring>)
    requires RingsOf(list, rings) && VerticesWithin(list, ways)
    ensures Region(rings, BoxOf(ways)).Valid()
  {
    forall ring, c | ring in rings && c in ring
      ensures BoxOf(ways).Contains(c)
    {
      var k :| 0 <= k < |rings| && rings[k] == ring;
      assert c in list[k];
      assert IsVertex(c, list);
      BoxHoldsVertices(ways, c);
    }
  }

  /** A finished region is what attaching, merging and closing make of the ways, with the box of the ways. */
  ghost predicate BuiltFrom(db: Database, members: seq<Member>, region: Region)
    requires db.Located(members)
  {
    && NoneEmpty(Assembled(db, members))
    && RingsOf(MergedAll(Assembled(db, members)), region.polygons)
    && region.box == BoxOf(db.Boundary(members))
  }

  lemma MergedRegionOutlines(ways: seq<Path>, attached: seq<Path>, list: seq<Path>, rings: seq<Ring>)
    requires Accounts(ways, attached) && VerticesWithin(list, attached)
    requires RingsOf(list, rings) && NothingToMerge(list)
    requires AtMostTwoEnds(attached) ==> Accounts(attached, list)
    ensures Outlines(Region(rings, BoxOf(ways)), ways)
  {
    RingsStayInBox(ways, list, rings);
    if AtMostTwoEnds(ways) {
      AccountsKeepsTwo(ways, attached);
      AccountsTransitive(ways, attached, list);
      RingsAreWaysIff(ways, list, rings);
    }
  }

  /** The regions built so far, by relation. */
  class RegionIndex {
    const db: Database
    var regions: map<RelationId, Region>

    constructor (db: Database)
      ensures this.db == db && regions == map[] && Valid()
    {
      this.db := db;
      regions := map[];
    }

    ghost predicate Valid()
      reads this
    {
      forall id | id in regions ::
        && id in db.relMembers && db.Located(db.relMembers[id])
        && BuiltFrom(db, db.relMembers[id], regions[id])
        && Outlines(regions[id], db.Boundary(db.relMembers[id]))
    }

    /** The relation is in the database with all its boundary ways. */
    ghost predicate Buildable(id: RelationId)
      reads this
    {
      id in db.relMembers && db.relMembers[id] != [] && db.Complete(db.relMembers[id])
    }

    method BuildPolygonForRelation(id: RelationId)
      requires Valid()
      requires id in db.relMembers ==> db.Located(db.relMembers[id])
      modifies this`regions
      ensures Valid()
      ensures if Buildable(id) then id in regions else regions == old(regions)
      ensures forall other | other != id :: other in regions <==> other in old(regions)
      ensures forall other | other in old(regions) :: regions[other] == old(regions)[other]
    {
      if id in regions || id !in db.relMembers || |db.relMembers[id]| == 0 {
        return;
      }
      var members := db.relMembers[id];
      var attached, box, complete := AttachWays(db, members);
      var list := MergePolygons(attached);
      if complete {
        var rings := CloseRings(list);
        MergedRegionOutlines(db.Boundary(members), attached, list, rings);
        regions := regions[id := Region(rings, box)];
      }
    }

    /** Whether a coordinate lies in the region of a relation; None where looking up the region fails. */
    method NodeInsideRelationRegion(c: Coord, id: RelationId) returns (inside: Option<bool>)
      requires Valid()
      requires id in db.relMembers ==> db.Located(db.relMembers[id])
      modifies this`regions
      ensures Valid()
      ensures Buildable(id) ==> inside.Some?
      ensures inside == if id in regions then Some(InsideAnyRing(regions[id].polygons, c)) else None
      ensures forall other | other in old(regions) :: other in regions && regions[other] == old(regions)[other]
    {
      BuildPolygonForRelation(id);
      if id !in regions {
        return None;
      }
      var success := InsideRegion(regions[id], c);
      return Some(success);
    }
  }
}
