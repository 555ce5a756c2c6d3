/** Which members of a relation, and which of their nodes, make up its region. */
module RegionMembers {
  import opened Coordinates
  import opened MapIds
  import opened RegionTest
  import opened Regions
  import opened RingAssembly
  import opened Sequences

  /** The bits of a member's role, as they are numbered in the file. */
  const ROLE_OUTER := 1
  const ROLE_INNER := 2

  /** The flags have the bit of a role. */
  predicate HasRole(flags: nat, role: nat)
    requires role > 0
  {
    flags / role % 2 == 1
  }

  lemma SomeRole(flags: nat)
    ensures flags % 4 != 0 <==> HasRole(flags, ROLE_OUTER) || HasRole(flags, ROLE_INNER)
  {
  }

  /** The member is a way with the role outer or the role inner. */
  predicate OuterOrInnerWay(m: Member) {
    m.kind == Way && (HasRole(m.flags, ROLE_OUTER) || HasRole(m.flags, ROLE_INNER))
  }

  // ----- members that do not count

  lemma {:induction false} BoundarySplit(db: Database, a: seq<Member>, b: seq<Member>)
    ensures db.Boundary(a + b) == db.Boundary(a) + db.Boundary(b)
  {
    if b == [] {
      assert a + b == a;
    } else {
      var n := |b| - 1;
      BoundarySplit(db, a, b[..n]);
      assert (a + b)[..|a| + n] == a + b[..n];
      BoundaryExtend(db, a + b, |a| + n);
      assert (a + b)[..|a| + n + 1] == a + b;
      Regroup(db.Boundary(a), db.Boundary(b[..n]), if db.Attached(b[n]) then [db.PathOf(b[n].id)] else []);
    }
  }

  lemma BoundaryOfOne(db: Database, m: Member)
    ensures db.Boundary([m]) == if OuterOrInnerWay(m) && m.id in db.wayNodes then [db.PathOf(m.id)] else []
  {
    SomeRole(m.flags);
    assert [m][..0] == [];
  }

  lemma LocatedIs(db: Database, a: seq<Member>, m: Member, b: seq<Member>)
    requires db.Located(a + [m] + b)
    ensures db.Located(a + b) && db.Located(a) && db.Located(a + [m])
    ensures OuterOrInnerWay(m) && m.id in db.wayNodes ==> db.PathOf(m.id) != []
  {
    SomeRole(m.flags);
    assert forall x :: x in a + [m] + b <==> x in a + b || x == m;
    assert forall x :: x in a + [m] <==> x in a || x == m;
  }

  lemma {:induction false} AssembledWithout(db: Database, a: seq<Member>, m: Member, b: seq<Member>)
    requires db.Located(a + [m] + b) && db.Located(a + b) && !OuterOrInnerWay(m)
    ensures Assembled(db, a + [m] + b) == Assembled(db, a + b)
  {
    SomeRole(m.flags);
    if b == [] {
      assert (a + [m])[..|a|] == a && a + [m] + b == a + [m] && a + b == a;
    } else {
      var n := |b| - 1;
      LocatedFront(db, a + [m] + b, a + [m] + b[..n], b[n]);
      LocatedFront(db, a + b, a + b[..n], b[n]);
      AssembledWithout(db, a, m, b[..n]);
      assert (a + [m] + b)[..|a| + 1 + n] == a + [m] + b[..n] && (a + b)[..|a| + n] == a + b[..n];
    }
  }

  lemma LocatedFront(db: Database, all: seq<Member>, front: seq<Member>, last: Member)
    requires db.Located(all) && all == front + [last]
    ensures db.Located(front)
  {
    assert forall x | x in front :: x in all;
  }

  /** A member that is no way, or a way with another role, changes nothing about the region. */
  lemma OtherMembersIgnored(db: Database, a: seq<Member>, m: Member, b: seq<Member>, region: Region)
    requires m.kind != Way || !(HasRole(m.flags, ROLE_OUTER) || HasRole(m.flags, ROLE_INNER))
    requires db.Located(a + [m] + b)
    ensures db.Boundary(a + [m] + b) == db.Boundary(a + b)
    ensures db.Complete(a + [m] + b) <==> db.Complete(a + b)
    ensures db.Located(a + b) && (BuiltFrom(db, a + [m] + b, region) <==> BuiltFrom(db, a + b, region))
  {
    LocatedIs(db, a, m, b);
    AssembledWithout(db, a, m, b);
    BoundarySplit(db, a + [m], b);
    BoundarySplit(db, a, [m]);
    BoundarySplit(db, a, b);
    BoundaryOfOne(db, m);
    assert db.Boundary(a) + [] == db.Boundary(a);
    SomeRole(m.flags);
    assert forall x :: x in a + [m] + b <==> x in a + b || x == m;
  }

  /** A known way with the role outer or inner adds its path, at its own place; without it there is no region. */
  lemma OuterAndInnerCount(db: Database, a: seq<Member>, m: Member, b: seq<Member>)
    requires m.kind == Way && (HasRole(m.flags, ROLE_OUTER) || HasRole(m.flags, ROLE_INNER))
    ensures m.id in db.wayNodes ==>
              db.Boundary(a + [m] + b) == db.Boundary(a) + [db.PathOf(m.id)] + db.Boundary(b)
    ensures m.id !in db.wayNodes ==> !db.Complete(a + [m] + b)
    ensures m.id in db.wayNodes ==> (db.Complete(a + [m] + b) <==> db.Complete(a + b))
  {
    BoundarySplit(db, a + [m], b);
    BoundarySplit(db, a, [m]);
    BoundaryOfOne(db, m);
    SomeRole(m.flags);
    assert m in a + [m] + b;
    assert forall x :: x in a + [m] + b <==> x in a + b || x == m;
  }

  /** Such a way goes to the first polygon, of those made of the members before it, that it can be attached to. */
  lemma PlacedInOrder(db: Database, a: seq<Member>, m: Member)
    requires m.kind == Way && (HasRole(m.flags, ROLE_OUTER) || HasRole(m.flags, ROLE_INNER)) && m.id in db.wayNodes
    requires db.Located(a + [m])
    ensures db.Located(a)
    ensures Assembled(db, a + [m]) == Placed(db.node2Coord, db.wayNodes[m.id], Assembled(db, a))
  {
    SomeRole(m.flags);
    LocatedFront(db, a + [m], a, m);
    assert (a + [m])[..|a|] == a;
  }

  // ----- nodes

  /** The path of a way whose nodes all have coordinates has these, one by one. */
  lemma {:induction false} PathOfKnownNodes(coords: map<NodeId, Coord>, nodes: seq<NodeId>)
    requires forall n | n in nodes :: n in coords
    ensures |Known(coords, nodes)| == |nodes|
    ensures forall i | 0 <= i < |nodes| :: Known(coords, nodes)[i] == coords[nodes[i]]
  {
    if nodes != [] {
      assert nodes[|nodes| - 1] in nodes;
      PathOfKnownNodes(coords, nodes[..|nodes| - 1]);
    }
  }

  /** A node without coordinates is passed over. */
  lemma UnknownNodeIgnored(coords: map<NodeId, Coord>, a: seq<NodeId>, n: NodeId, b: seq<NodeId>)
    requires n !in coords
    ensures Known(coords, a + [n] + b) == Known(coords, a + b)
  {
    KnownSplit(coords, a + [n] + b, |a| + 1);
    KnownSplit(coords, a + b, |a|);
    assert (a + [n] + b)[..|a| + 1] == a + [n] && (a + [n] + b)[|a| + 1..] == b;
    assert (a + b)[..|a|] == a && (a + b)[|a|..] == b;
    assert (a + [n])[..|a|] == a;
  }

  // ----- where a way is glued to a polygon

  /**
   * The path of a way whose ends have coordinates is glued to a polygon with its first vertex, where that is an end of
   * the polygon, and else with its last one; and in front, where this is possible, and else behind.
   */
  lemma FirstMatchIsTaken(coords: map<NodeId, Coord>, nodes: seq<NodeId>, polygon: Path)
    requires nodes != [] && nodes[0] in coords && nodes[|nodes| - 1] in coords && polygon != []
    ensures var way, extended := Known(coords, nodes), Extended(coords, nodes, polygon);
            && way != []
            && (Attachable(coords, nodes, polygon) <==> IsEndOf(way[0], polygon) || IsEndOf(way[|way| - 1], polygon))
            && var first, last := way[0], way[|way| - 1];
               && (first == polygon[0] ==> extended == Reversed(way[1..]) + polygon)
               && (first != polygon[0] && first == polygon[|polygon| - 1] ==> extended == polygon + way[1..])
               && (!IsEndOf(first, polygon) && last == polygon[0] ==> extended == way[..|way| - 1] + polygon)
               && (!IsEndOf(first, polygon) && last != polygon[0] && last == polygon[|polygon| - 1] ==>
                     extended == polygon + Reversed(way[..|way| - 1]))
               && (!IsEndOf(first, polygon) && !IsEndOf(last, polygon) ==> extended == polygon)
  {
    var n := |nodes| - 1;
    KnownFirst(coords, nodes);
    assert Known(coords, nodes) == Known(coords, nodes[..n]) + [coords[nodes[n]]];
  }

  /** A way whose first node has no coordinates is refused; without those of its last node only the first one counts. */
  lemma UnknownEndsRefused(coords: map<NodeId, Coord>, nodes: seq<NodeId>, polygon: Path)
    requires nodes != [] && polygon != []
    ensures nodes[0] !in coords ==> !Attachable(coords, nodes, polygon) && Extended(coords, nodes, polygon) == polygon
    ensures nodes[0] in coords && nodes[|nodes| - 1] !in coords ==>
              (Attachable(coords, nodes, polygon) <==> IsEndOf(coords[nodes[0]], polygon))
  {
  }
}
