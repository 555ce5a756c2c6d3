/** How the ways of a relation are glued end to end into polygons. */
module RingAssembly {
  import opened Coordinates
  import opened MapIds
  import opened Sequences

  type Path = seq<Coord>

  /** An edge without a direction: its two ends in a fixed order. */
  datatype Segment = Segment(a: Coord, b: Coord)

  function Edge(p: Coord, q: Coord): Segment {
    if p.x < q.x || (p.x == q.x && p.y <= q.y) then Segment(p, q) else Segment(q, p)
  }

  /**
   * Things to count on paths: how often an edge is walked, how often a coordinate is an end, how many edges there are.
   */
  datatype Tally = OfEdge(e: Segment) | OfEnd(c: Coord) | OfAnyEdge {
    ghost function At(s: Path): nat
      decreases |s|
    {
      match this
      case OfEdge(e) =>
        if |s| < 2 then 0
        else At(s[..|s| - 1]) + if Edge(s[|s| - 2], s[|s| - 1]) == e then 1 else 0
      case OfEnd(c) =>
        if s == [] then 0
        else (if s[0] == c then 1 else 0) + (if s[|s| - 1] == c then 1 else 0)
      case OfAnyEdge =>
        if s == [] then 0 else |s| - 1
    }

    ghost function Over(list: seq<Path>): nat {
      if list == [] then 0 else Over(list[..|list| - 1]) + At(list[|list| - 1])
    }
  }

  predicate Closed(s: Path)
    requires s != []
  {
    s[0] == s[|s| - 1]
  }

  /** The coordinates of those nodes of a way that have any, in order. */
  function Known(coords: map<NodeId, Coord>, nodes: seq<NodeId>): Path {
    if nodes == [] then []
    else
      var n := |nodes| - 1;
      Known(coords, nodes[..n]) + if nodes[n] in coords then [coords[nodes[n]]] else []
  }

  /** t continues s. */
  ghost predicate Joined(s: Path, t: Path, r: Path) {
    && s != [] && t != []
    && s[|s| - 1] == t[0]
    && r == s + t[1..]
  }

  /** r is a with b attached to one of its ends, b being turned around where that is needed. */
  ghost predicate Glued(a: Path, b: Path, r: Path) {
    || Joined(a, b, r)
    || Joined(a, Reversed(b), r)
    || Joined(b, a, r)
    || Joined(Reversed(b), a, r)
  }

  // ----- what gluing keeps

  lemma EdgesExtend(e: Segment, s: Path, c: Coord)
    requires s != []
    ensures OfEdge(e).At(s + [c]) == OfEdge(e).At(s) + if Edge(s[|s| - 1], c) == e then 1 else 0
  {
    assert (s + [c])[..|s|] == s;
  }

  lemma {:induction false} EdgesJoin(e: Segment, s: Path, t: Path, r: Path)
    requires Joined(s, t, r)
    ensures OfEdge(e).At(r) == OfEdge(e).At(s) + OfEdge(e).At(t)
  {
    var n := |t| - 1;
    if n == 0 {
      assert r == s;
    } else {
      JoinedFront(s, t, r);
      EdgesJoin(e, s, t[..n], r[..|r| - 1]);
    }
  }

  /** Without its last vertex the second path still continues the first. */
  lemma JoinedFront(s: Path, t: Path, r: Path)
    requires Joined(s, t, r) && |t| > 1
    ensures Joined(s, t[..|t| - 1], r[..|r| - 1]) && r[|r| - 1] == t[|t| - 1] && r[|r| - 2] == t[|t| - 2]
  {
    var n := |t| - 1;
    assert t[..n][1..] == t[1..][..n - 1];
  }

  lemma {:induction false} EdgesReversed(e: Segment, s: Path)
    ensures OfEdge(e).At(Reversed(s)) == OfEdge(e).At(s)
  {
    if |s| >= 2 {
      EdgesReversed(e, s[1..]);
      EdgesExtend(e, Reversed(s[1..]), s[0]);
      EdgesExtend(e, [s[0]], s[1]);
      assert [s[0]] + [s[1]] == [s[0], s[1]];
      EdgesJoin(e, [s[0], s[1]], s[1..], s);
    }
  }

  lemma JoiningKeeps(t: Tally, a: Path, b: Path, r: Path)
    requires Joined(a, b, r)
    ensures t.At(r) + (if t == OfEnd(b[0]) then 2 else 0) == t.At(a) + t.At(b)
  {
    if t.OfEdge? {
      EdgesJoin(t.e, a, b, r);
    } else if t.OfEnd? {
      assert r[|r| - 1] == b[|b| - 1];
    }
  }

  lemma ReversingKeeps(t: Tally, s: Path)
    ensures t.At(Reversed(s)) == t.At(s)
  {
    if t.OfEdge? {
      EdgesReversed(t.e, s);
    }
  }

  /** The coordinate at which two paths were glued. */
  ghost function Joint(a: Path, b: Path, r: Path): Coord
    requires Glued(a, b, r)
  {
    if Joined(a, b, r) then b[0]
    else if Joined(a, Reversed(b), r) then b[|b| - 1]
    else a[0]
  }

  /** Gluing keeps every edge and takes the joint twice from the ends. */
  lemma GluingKeeps(t: Tally, a: Path, b: Path, r: Path)
    requires Glued(a, b, r)
    ensures t.At(r) + (if t == OfEnd(Joint(a, b, r)) then 2 else 0) == t.At(a) + t.At(b)
  {
    ReversingKeeps(t, b);
    if Joined(a, b, r) {
      JoiningKeeps(t, a, b, r);
    } else if Joined(a, Reversed(b), r) {
      JoiningKeeps(t, a, Reversed(b), r);
    } else if Joined(b, a, r) {
      JoiningKeeps(t, b, a, r);
    } else {
      JoiningKeeps(t, Reversed(b), a, r);
    }
  }

  lemma JoiningKeepsVertices(a: Path, b: Path, r: Path)
    requires Joined(a, b, r)
    ensures forall c :: c in r <==> c in a || c in b
  {
    assert forall c :: c in b ==> c == b[0] || c in b[1..];
  }

  lemma GluingKeepsVertices(a: Path, b: Path, r: Path)
    requires Glued(a, b, r)
    ensures forall c :: c in r <==> c in a || c in b
  {
    ReversedMembers(b);
    if Joined(a, b, r) {
      JoiningKeepsVertices(a, b, r);
    } else if Joined(a, Reversed(b), r) {
      JoiningKeepsVertices(a, Reversed(b), r);
    } else if Joined(b, a, r) {
      JoiningKeepsVertices(b, a, r);
    } else {
      JoiningKeepsVertices(Reversed(b), a, r);
    }
  }

  // ----- attaching one way

  lemma KnownExtend(coords: map<NodeId, Coord>, nodes: seq<NodeId>, i: nat, j: nat)
    requires i <= j < |nodes|
    ensures Known(coords, nodes[i..j + 1])
         == Known(coords, nodes[i..j]) + if nodes[j] in coords then [coords[nodes[j]]] else []
  {
    assert nodes[i..j + 1][..j - i] == nodes[i..j];
  }

  lemma {:induction false} KnownSplit(coords: map<NodeId, Coord>, nodes: seq<NodeId>, j: nat)
    requires j <= |nodes|
    ensures Known(coords, nodes) == Known(coords, nodes[..j]) + Known(coords, nodes[j..])
  {
    if j == |nodes| {
      assert nodes[..j] == nodes;
    } else {
      var n := |nodes| - 1;
      KnownSplit(coords, nodes[..n], j);
      assert nodes[..n][..j] == nodes[..j] && nodes[..n][j..] == nodes[j..n];
      KnownExtend(coords, nodes, j, n);
      assert nodes[j..n + 1] == nodes[j..];
    }
  }

  method AppendForward(coords: map<NodeId, Coord>, nodes: seq<NodeId>, start: nat, polygon0: Path)
    returns (polygon: Path)
    requires start <= |nodes|
    ensures polygon == polygon0 + Known(coords, nodes[start..])
  {
    polygon := polygon0;
    for j := start to |nodes|
      invariant polygon == polygon0 + Known(coords, nodes[start..j])
    {
      KnownExtend(coords, nodes, start, j);
      if nodes[j] in coords {
        polygon := polygon + [coords[nodes[j]]];
      }
    }
    assert nodes[start..|nodes|] == nodes[start..];
  }

  lemma KnownReversedExtend(coords: map<NodeId, Coord>, nodes: seq<NodeId>, i: nat, j: nat)
    requires i <= j < |nodes|
    ensures var rest := Reversed(Known(coords, nodes[i..j]));
            Reversed(Known(coords, nodes[i..j + 1])) == if nodes[j] in coords then [coords[nodes[j]]] + rest else rest
  {
    KnownExtend(coords, nodes, i, j);
    if nodes[j] in coords {
      ReversedSplit(Known(coords, nodes[i..j]), coords[nodes[j]]);
    }
  }

  method PrependForward(coords: map<NodeId, Coord>, nodes: seq<NodeId>, polygon0: Path) returns (polygon: Path)
    requires nodes != []
    ensures polygon == Reversed(Known(coords, nodes[1..])) + polygon0
  {
    polygon := polygon0;
    ghost var front: Path := [];
    for j := 1 to |nodes|
      invariant front == Reversed(Known(coords, nodes[1..j]))
      invariant polygon == front + polygon0
    {
      KnownReversedExtend(coords, nodes, 1, j);
      if nodes[j] in coords {
        Regroup([coords[nodes[j]]], front, polygon0);
        polygon := [coords[nodes[j]]] + polygon;
        front := [coords[nodes[j]]] + front;
      }
    }
    assert nodes[1..|nodes|] == nodes[1..];
  }

  method PrependBackward(coords: map<NodeId, Coord>, nodes: seq<NodeId>, polygon0: Path) returns (polygon: Path)
    requires nodes != []
    ensures polygon == Known(coords, nodes[..|nodes| - 1]) + polygon0
  {
    polygon := polygon0;
    var j := |nodes| - 2;
    while j >= 0
      invariant -1 <= j < |nodes| - 1
      invariant Known(coords, nodes[..j + 1]) + polygon == Known(coords, nodes[..|nodes| - 1]) + polygon0
    {
      KnownExtend(coords, nodes, 0, j);
      if nodes[j] in coords {
        polygon := [coords[nodes[j]]] + polygon;
      }
      j := j - 1;
    }
  }

  method AppendBackward(coords: map<NodeId, Coord>, nodes: seq<NodeId>, polygon0: Path) returns (polygon: Path)
    requires nodes != []
    ensures polygon == polygon0 + Reversed(Known(coords, nodes[..|nodes| - 1]))
  {
    polygon := polygon0;
    var j := |nodes| - 2;
    while j >= 0
      invariant -1 <= j < |nodes| - 1
      invariant polygon + Reversed(Known(coords, nodes[..j + 1]))
                == polygon0 + Reversed(Known(coords, nodes[..|nodes| - 1]))
    {
      KnownReversedExtend(coords, nodes, 0, j);
      if nodes[j] in coords {
        polygon := polygon + [coords[nodes[j]]];
      }
      j := j - 1;
    }
  }

  predicate IsEndOf(c: Coord, polygon: Path) {
    polygon != [] && (c == polygon[0] || c == polygon[|polygon| - 1])
  }

  /** Which ways a polygon accepts. */
  predicate Attachable(coords: map<NodeId, Coord>, nodes: seq<NodeId>, polygon: Path)
    requires nodes != []
  {
    var first, last := nodes[0], nodes[|nodes| - 1];
    || polygon == []
    || (first in coords
        && (IsEndOf(coords[first], polygon) || (last in coords && IsEndOf(coords[last], polygon))))
  }

  /** What becomes of a polygon when a way is offered to it; the first matching case of four is taken. */
  function Extended(coords: map<NodeId, Coord>, nodes: seq<NodeId>, polygon: Path): Path
    requires nodes != []
  {
    var n := |nodes| - 1;
    if polygon == [] then Known(coords, nodes)
    else if nodes[0] !in coords then polygon
    else if coords[nodes[0]] == polygon[0] then Reversed(Known(coords, nodes[1..])) + polygon
    else if coords[nodes[0]] == polygon[|polygon| - 1] then polygon + Known(coords, nodes[1..])
    else if nodes[n] !in coords then polygon
    else if coords[nodes[n]] == polygon[0] then Known(coords, nodes[..n]) + polygon
    else if coords[nodes[n]] == polygon[|polygon| - 1] then polygon + Reversed(Known(coords, nodes[..n]))
    else polygon
  }

  lemma GluedAtFirst(polygon: Path, first: Coord, rest: Path)
    requires polygon != []
    ensures polygon[0] == first ==> Glued(polygon, [first] + rest, Reversed(rest) + polygon)
    ensures polygon[|polygon| - 1] == first ==> Glued(polygon, [first] + rest, polygon + rest)
  {
    var way := [first] + rest;
    assert way[1..] == rest;
    if polygon[0] == first {
      ReversedOntoFront(polygon, way);
    }
    if polygon[|polygon| - 1] == first {
      assert Joined(polygon, way, polygon + rest);
    }
  }

  lemma ReversedOntoFront(polygon: Path, way: Path)
    requires polygon != [] && way != [] && polygon[0] == way[0]
    ensures Joined(Reversed(way), polygon, Reversed(way[1..]) + polygon)
  {
    assert [way[0]] + polygon[1..] == polygon;
    Regroup(Reversed(way[1..]), [way[0]], polygon[1..]);
  }

  lemma GluedAtLast(polygon: Path, rest: Path, last: Coord)
    requires polygon != []
    ensures polygon[0] == last ==> Glued(polygon, rest + [last], rest + polygon)
    ensures polygon[|polygon| - 1] == last ==> Glued(polygon, rest + [last], polygon + Reversed(rest))
  {
    var way := rest + [last];
    ReversedSplit(rest, last);
    if polygon[0] == last {
      assert rest + polygon == way + polygon[1..];
      assert Joined(way, polygon, rest + polygon);
    }
    if polygon[|polygon| - 1] == last {
      assert Reversed(way)[1..] == Reversed(rest);
      assert Joined(polygon, Reversed(way), polygon + Reversed(rest));
    }
  }

  lemma KnownFirst(coords: map<NodeId, Coord>, nodes: seq<NodeId>)
    requires nodes != [] && nodes[0] in coords
    ensures Known(coords, nodes) == [coords[nodes[0]]] + Known(coords, nodes[1..])
  {
    KnownSplit(coords, nodes, 1);
    assert nodes[..1] == [nodes[0]] && [nodes[0]][..0] == [];
    assert Known(coords, [nodes[0]]) == Known(coords, []) + [coords[nodes[0]]];
  }

  /** The way ends up glued to the polygon. */
  lemma ExtendedIsGlued(coords: map<NodeId, Coord>, nodes: seq<NodeId>, polygon: Path)
    requires nodes != [] && polygon != [] && Attachable(coords, nodes, polygon)
    ensures Glued(polygon, Known(coords, nodes), Extended(coords, nodes, polygon))
  {
    var n := |nodes| - 1;
    KnownFirst(coords, nodes);
    if IsEndOf(coords[nodes[0]], polygon) {
      GluedAtFirst(polygon, coords[nodes[0]], Known(coords, nodes[1..]));
    } else {
      GluedAtLast(polygon, Known(coords, nodes[..n]), coords[nodes[n]]);
    }
  }

  /**
   * Attach a way to a polygon where an end of the way meets an end of the polygon; an empty
   * polygon takes any way.
   */
  method AddWayToPolygon(coords: map<NodeId, Coord>, nodes: seq<NodeId>, polygon0: Path)
    returns (added: bool, polygon: Path)
    requires nodes != []
    ensures added <==> Attachable(coords, nodes, polygon0)
    ensures polygon == Extended(coords, nodes, polygon0)
    ensures !added ==> polygon == polygon0
    ensures added && polygon0 != [] ==> Glued(polygon0, Known(coords, nodes), polygon)
  {
    polygon := polygon0;
    if polygon == [] {
      polygon := AppendForward(coords, nodes, 0, polygon);
      assert nodes[0..] == nodes;
      return true, polygon;
    }
    if Attachable(coords, nodes, polygon) {
      ExtendedIsGlued(coords, nodes, polygon);
    }
    if nodes[0] !in coords {
      return false, polygon;
    }
    var coord := coords[nodes[0]];
    if polygon[0] == coord {
      polygon := PrependForward(coords, nodes, polygon);
      return true, polygon;
    } else if polygon[|polygon| - 1] == coord {
      polygon := AppendForward(coords, nodes, 1, polygon);
      return true, polygon;
    }
    if nodes[|nodes| - 1] !in coords {
      return false, polygon;
    }
    coord := coords[nodes[|nodes| - 1]];
    if polygon[0] == coord {
      polygon := PrependBackward(coords, nodes, polygon);
      return true, polygon;
    } else if polygon[|polygon| - 1] == coord {
      polygon := AppendBackward(coords, nodes, polygon);
      return true, polygon;
    }
    return false, polygon;
  }

  // ----- lists of polygons

  lemma {:induction false} OverUpdate(t: Tally, list: seq<Path>, k: nat, x: Path)
    requires k < |list|
    ensures t.Over(list[k := x]) + t.At(list[k]) == t.Over(list) + t.At(x)
  {
    var n := |list| - 1;
    if k < n {
      OverUpdate(t, list[..n], k, x);
      assert list[k := x][..n] == list[..n][k := x];
    } else {
      assert list[k := x][..n] == list[..n];
    }
  }

  lemma {:induction false} OverErase(t: Tally, list: seq<Path>, k: nat)
    requires k < |list|
    ensures t.Over(list[..k] + list[k + 1..]) + t.At(list[k]) == t.Over(list)
  {
    var n := |list| - 1;
    if k < n {
      ErasedFront(list, k);
      OverErase(t, list[..n], k);
    } else {
      assert list[..k] + list[k + 1..] == list[..n];
    }
  }

  lemma ErasedFront<T>(s: seq<T>, k: nat)
    requires k < |s| - 1
    ensures var n, rest := |s| - 1, s[..k] + s[k + 1..];
            rest[..n - 1] == s[..n][..k] + s[..n][k + 1..] && rest[n - 1] == s[n]
  {
  }

  lemma OverExtend(t: Tally, list: seq<Path>, x: Path)
    ensures t.Over(list + [x]) == t.Over(list) + t.At(x)
  {
    assert (list + [x])[..|list|] == list;
  }

  ghost predicate NoneEmpty(list: seq<Path>) {
    forall k | 0 <= k < |list| :: list[k] != []
  }

  ghost predicate IsVertex(c: Coord, list: seq<Path>) {
    exists k :: 0 <= k < |list| && c in list[k]
  }

  ghost predicate Settled(now: nat, before: nat) {
    now <= before && (before - now) % 2 == 0
  }

  /**
   * The polygons account for the ways: the same edges, each the same number of times, the same
   * vertices, and no end of a polygon that is not an end of a way, ends vanishing in pairs only.
   */
  ghost predicate Accounts(ways: seq<Path>, polygons: seq<Path>) {
    && (forall e :: OfEdge(e).Over(polygons) == OfEdge(e).Over(ways))
    && (forall c :: Settled(OfEnd(c).Over(polygons), OfEnd(c).Over(ways)))
    && (forall c :: IsVertex(c, polygons) <==> IsVertex(c, ways))
  }

  lemma AccountsTransitive(a: seq<Path>, b: seq<Path>, c: seq<Path>)
    requires Accounts(a, b) && Accounts(b, c)
    ensures Accounts(a, c)
  {
    forall x
      ensures Settled(OfEnd(x).Over(c), OfEnd(x).Over(a))
    {
      assert Settled(OfEnd(x).Over(c), OfEnd(x).Over(b)) && Settled(OfEnd(x).Over(b), OfEnd(x).Over(a));
    }
  }

  lemma VertexExtend(list: seq<Path>, x: Path)
    ensures forall c :: IsVertex(c, list + [x]) <==> IsVertex(c, list) || c in x
  {
    forall c
      ensures IsVertex(c, list + [x]) <==> IsVertex(c, list) || c in x
    {
      assert (list + [x])[|list|] == x;
      assert forall k | 0 <= k < |list| :: (list + [x])[k] == list[k];
    }
  }

  lemma AccountsExtend(ways: seq<Path>, polygons: seq<Path>, x: Path)
    requires Accounts(ways, polygons)
    ensures Accounts(ways + [x], polygons + [x])
  {
    forall t: Tally
      ensures t.Over(ways + [x]) == t.Over(ways) + t.At(x) && t.Over(polygons + [x]) == t.Over(polygons) + t.At(x)
    {
      OverExtend(t, ways, x);
      OverExtend(t, polygons, x);
    }
    forall c
      ensures Settled(OfEnd(c).Over(polygons + [x]), OfEnd(c).Over(ways + [x]))
    {
      assert Settled(OfEnd(c).Over(polygons), OfEnd(c).Over(ways));
    }
    VertexExtend(ways, x);
    VertexExtend(polygons, x);
  }

  /** Gluing x to the polygon at k accounts for x. */
  lemma GluedInPlace(list: seq<Path>, k: nat, x: Path, r: Path)
    requires k < |list| && Glued(list[k], x, r)
    ensures Accounts(list + [x], list[k := r])
  {
    forall t: Tally
      ensures t.Over(list[k := r]) + (if t == OfEnd(Joint(list[k], x, r)) then 2 else 0) == t.Over(list + [x])
    {
      GluingKeeps(t, list[k], x, r);
      OverUpdate(t, list, k, r);
      OverExtend(t, list, x);
    }
    forall c
      ensures Settled(OfEnd(c).Over(list[k := r]), OfEnd(c).Over(list + [x]))
    {
    }
    VertexExtend(list, x);
    GluingKeepsVertices(list[k], x, r);
    forall c
      ensures IsVertex(c, list[k := r]) <==> IsVertex(c, list + [x])
    {
      VertexUpdate(c, list, k, r);
    }
  }

  lemma VertexUpdate(c: Coord, list: seq<Path>, k: nat, r: Path)
    requires k < |list|
    ensures c in r ==> IsVertex(c, list[k := r])
    ensures IsVertex(c, list) ==> IsVertex(c, list[k := r]) || c in list[k]
    ensures IsVertex(c, list[k := r]) ==> IsVertex(c, list) || c in r
  {
    assert list[k := r][k] == r;
    if IsVertex(c, list) {
      var m :| 0 <= m < |list| && c in list[m];
      assert m != k ==> list[k := r][m] == list[m];
    }
    if IsVertex(c, list[k := r]) {
      var m :| 0 <= m < |list| && c in list[k := r][m];
      assert m != k ==> list[k := r][m] == list[m];
    }
  }

  // ----- merging polygons

  /** No coordinate is an end of more than two of the paths (a path with equal ends counts twice). */
  ghost predicate AtMostTwoEnds(list: seq<Path>) {
    forall c :: OfEnd(c).Over(list) <= 2
  }

  predicate Touches(first: Coord, last: Coord, b: Path)
    requires b != []
  {
    first == b[0] || first == b[|b| - 1] || last == b[0] || last == b[|b| - 1]
  }

  /**
   * What becomes of polygon a when b is merged into it, given the two ends a had when the
   * search for partners began; the first matching case of four is taken.
   */
  function Merged(a: Path, first: Coord, last: Coord, b: Path): Path
    requires b != []
  {
    if first == b[0] then Reversed(b[1..]) + a
    else if first == b[|b| - 1] then b[..|b| - 1] + a
    else if last == b[0] then a + b[1..]
    else if last == b[|b| - 1] then a + Reversed(b[..|b| - 1])
    else a
  }

  predicate MatchesFirst(first: Coord, b: Path)
    requires b != []
  {
    first == b[0] || first == b[|b| - 1]
  }

  /** The end at which b is merged is still an end of a. */
  predicate Live(a: Path, first: Coord, last: Coord, b: Path)
    requires a != [] && b != []
  {
    if MatchesFirst(first, b) then a[0] == first else a[|a| - 1] == last
  }

  method MergeInto(polygonA0: Path, first: Coord, last: Coord, polygonB: Path) returns (matched: bool, polygonA: Path)
    requires polygonB != []
    ensures matched <==> Touches(first, last, polygonB)
    ensures polygonA == Merged(polygonA0, first, last, polygonB)
  {
    polygonA := polygonA0;
    matched := true;
    var n := |polygonB|;
    if first == polygonB[0] {
      for p := 1 to n
        invariant polygonA == Reversed(polygonB[1..p]) + polygonA0
      {
        OneMoreInFront(polygonB, 1, p, polygonA0);
        polygonA := [polygonB[p]] + polygonA;
      }
      assert polygonB[1..n] == polygonB[1..];
    } else if first == polygonB[n - 1] {
      polygonA := PutInFront(polygonB, polygonA);
    } else if last == polygonB[0] {
      polygonA := PutBehind(polygonB, polygonA);
    } else if last == polygonB[n - 1] {
      for p := n - 1 downto 0
        invariant polygonA == polygonA0 + Reversed(polygonB[p..n - 1])
      {
        OneMoreBehind(polygonB, p, n - 1, polygonA0);
        polygonA := polygonA + [polygonB[p]];
      }
    } else {
      matched := false;
    }
  }

  lemma OneMoreInFront(b: Path, i: nat, p: nat, a: Path)
    requires i <= p < |b|
    ensures [b[p]] + (Reversed(b[i..p]) + a) == Reversed(b[i..p + 1]) + a
  {
    ReversedSplit(b[i..p], b[p]);
    assert b[i..p] + [b[p]] == b[i..p + 1];
    Regroup([b[p]], Reversed(b[i..p]), a);
  }

  lemma OneMoreBehind(b: Path, p: nat, j: nat, a: Path)
    requires p < j <= |b|
    ensures a + Reversed(b[p + 1..j]) + [b[p]] == a + Reversed(b[p..j])
  {
    assert b[p..j][0] == b[p] && b[p..j][1..] == b[p + 1..j];
    Regroup(a, Reversed(b[p + 1..j]), [b[p]]);
  }

  /** All vertices of b but the last, in front of a. */
  method PutInFront(polygonB: Path, polygonA0: Path) returns (polygonA: Path)
    requires polygonB != []
    ensures polygonA == polygonB[..|polygonB| - 1] + polygonA0
  {
    var n := |polygonB|;
    polygonA := polygonA0;
    for p := n - 1 downto 0
      invariant polygonA == polygonB[p..n - 1] + polygonA0
    {
      assert polygonB[p..n - 1] == [polygonB[p]] + polygonB[p + 1..n - 1];
      Regroup([polygonB[p]], polygonB[p + 1..n - 1], polygonA0);
      polygonA := [polygonB[p]] + polygonA;
    }
  }

  /** All vertices of b but the first, behind a. */
  method PutBehind(polygonB: Path, polygonA0: Path) returns (polygonA: Path)
    requires polygonB != []
    ensures polygonA == polygonA0 + polygonB[1..]
  {
    var n := |polygonB|;
    polygonA := polygonA0;
    for p := 1 to n
      invariant polygonA == polygonA0 + polygonB[1..p]
    {
      assert polygonB[1..p + 1] == polygonB[1..p] + [polygonB[p]];
      Regroup(polygonA0, polygonB[1..p], [polygonB[p]]);
      polygonA := polygonA + [polygonB[p]];
    }
    assert polygonB[1..n] == polygonB[1..];
  }

  lemma MergedIsJoined(a: Path, first: Coord, last: Coord, b: Path)
    requires a != [] && b != [] && Touches(first, last, b) && Live(a, first, last, b)
    ensures MatchesFirst(first, b) ==>
              exists s | s == b || s == Reversed(b) :: s[|s| - 1] == first && Joined(s, a, Merged(a, first, last, b))
    ensures !MatchesFirst(first, b) ==>
              exists s | s == b || s == Reversed(b) :: s[0] == last && Joined(a, s, Merged(a, first, last, b))
  {
    var r := Merged(a, first, last, b);
    if first == b[0] {
      assert r == Reversed(b) + a[1..];
      assert Joined(Reversed(b), a, r);
    } else if first == b[|b| - 1] {
      assert r == b + a[1..];
      assert Joined(b, a, r);
    } else if last == b[0] {
      assert Joined(a, b, r);
    } else {
      ReversedSplit(b[..|b| - 1], b[|b| - 1]);
      assert b[..|b| - 1] + [b[|b| - 1]] == b;
      assert r == a + Reversed(b)[1..];
      assert Joined(a, Reversed(b), r);
    }
  }

  /** At a live end, merging keeps every edge and uses the matched coordinate up. */
  lemma LiveMergeKeeps(t: Tally, a: Path, first: Coord, last: Coord, b: Path)
    requires a != [] && b != [] && Touches(first, last, b) && Live(a, first, last, b)
    ensures var used := if MatchesFirst(first, b) then first else last;
            t.At(Merged(a, first, last, b)) + (if t == OfEnd(used) then 2 else 0) == t.At(a) + t.At(b)
  {
    var r := Merged(a, first, last, b);
    MergedIsJoined(a, first, last, b);
    ReversingKeeps(t, b);
    if MatchesFirst(first, b) {
      var s :| (s == b || s == Reversed(b)) && s[|s| - 1] == first && Joined(s, a, r);
      JoiningKeeps(t, s, a, r);
    } else {
      var s :| (s == b || s == Reversed(b)) && s[0] == last && Joined(a, s, r);
      JoiningKeeps(t, a, s, r);
    }
  }

  lemma {:induction false} EdgesOfConcatenation(e: Segment, s: Path, t: Path)
    requires s != [] && t != []
    ensures OfEdge(e).At(s + t) == OfEdge(e).At(s) + OfEdge(e).At(t) + if Edge(s[|s| - 1], t[0]) == e then 1 else 0
  {
    EdgesExtend(e, s, t[0]);
    EdgesJoin(e, s + [t[0]], t, s + t);
  }

  /**
   * A merge keeps the edges if and only if b is a single vertex or the end it is merged at is
   * still an end of a.
   */
  lemma MergeKeepsEdgesIff(a: Path, first: Coord, last: Coord, b: Path)
    requires a != [] && b != [] && Touches(first, last, b)
    ensures (forall e :: OfEdge(e).At(Merged(a, first, last, b)) == OfEdge(e).At(a) + OfEdge(e).At(b))
       <==> |b| == 1 || Live(a, first, last, b)
  {
    var r := Merged(a, first, last, b);
    if Live(a, first, last, b) {
      forall e
        ensures OfEdge(e).At(r) == OfEdge(e).At(a) + OfEdge(e).At(b)
      {
        LiveMergeKeeps(OfEdge(e), a, first, last, b);
      }
    } else if |b| == 1 {
      assert r == a;
    } else {
      if first == b[0] || (!MatchesFirst(first, b) && last == b[0]) {
        StaleAtStart(a, first, last, b);
      } else {
        StaleAtFinish(a, first, last, b);
      }
    }
  }

  lemma StaleAtStart(a: Path, first: Coord, last: Coord, b: Path)
    requires a != [] && |b| > 1 && Touches(first, last, b) && !Live(a, first, last, b)
    requires first == b[0] || (!MatchesFirst(first, b) && last == b[0])
    ensures var lost := OfEdge(Edge(b[0], b[1]));
            lost.At(Merged(a, first, last, b)) + 1 == lost.At(a) + lost.At(b)
  {
    var lost, rest := Edge(b[0], b[1]), b[1..];
    EdgesOfConcatenation(lost, [b[0]], rest);
    assert b == [b[0]] + rest;
    if first == b[0] {
      EdgesReversed(lost, rest);
      EdgesOfConcatenation(lost, Reversed(rest), a);
    } else {
      EdgesOfConcatenation(lost, a, rest);
    }
  }

  lemma StaleAtFinish(a: Path, first: Coord, last: Coord, b: Path)
    requires a != [] && |b| > 1 && Touches(first, last, b) && !Live(a, first, last, b)
    requires first != b[0] && (first == b[|b| - 1] || last != b[0])
    ensures var lost := OfEdge(Edge(b[|b| - 2], b[|b| - 1]));
            lost.At(Merged(a, first, last, b)) + 1 == lost.At(a) + lost.At(b)
  {
    var n := |b| - 1;
    var lost, rest := Edge(b[n - 1], b[n]), b[..n];
    EdgesExtend(lost, rest, b[n]);
    assert b == rest + [b[n]];
    if first == b[n] {
      EdgesOfConcatenation(lost, rest, a);
    } else {
      EdgesReversed(lost, rest);
      EdgesOfConcatenation(lost, a, Reversed(rest));
    }
  }

  /** Three paths that share an end: merging the third one loses the edge that leads to it. */
  lemma ThreePathsAtOneEnd()
    ensures var p, q, u, v := Coord(0, 0), Coord(9, 0), Coord(0, 5), Coord(0, 7);
            var once := Merged([p, q], p, q, [p, u]);
            var twice := Merged(once, p, q, [p, v]);
            once == [u, p, q] && twice == [v, u, p, q] && OfEdge(Edge(p, v)).At(twice) == 0
                && OfEdge(Edge(p, v)).At([p, v]) == 1
  {
    var p, q, u, v := Coord(0, 0), Coord(9, 0), Coord(0, 5), Coord(0, 7);
    var e := Edge(p, v);
    EdgesExtend(e, [v], u);
    EdgesExtend(e, [v, u], p);
    EdgesExtend(e, [v, u, p], q);
    assert [v] + [u] == [v, u] && [v, u] + [p] == [v, u, p] && [v, u, p] + [q] == [v, u, p, q];
    EdgesExtend(e, [p], v);
    assert [p] + [v] == [p, v];
  }

  ghost predicate VerticesWithin(list: seq<Path>, before: seq<Path>) {
    forall c :: IsVertex(c, list) ==> IsVertex(c, before)
  }

  /** The list in which polygon b has been merged into polygon a. */
  function MergedAt(list: seq<Path>, a: nat, b: nat, r: Path): seq<Path>
    requires a < b < |list|
  {
    list[a := r][..b] + list[b + 1..]
  }

  lemma MergedAtVertices(list: seq<Path>, a: nat, b: nat, r: Path)
    requires a < b < |list|
    requires forall c | c in r :: c in list[a] || c in list[b]
    ensures VerticesWithin(MergedAt(list, a, b, r), list)
  {
    var after := MergedAt(list, a, b, r);
    forall c | IsVertex(c, after)
      ensures IsVertex(c, list)
    {
      var k :| 0 <= k < |after| && c in after[k];
      assert after[k] == if k == a then r else if k < b then list[k] else list[k + 1];
    }
  }

  lemma MergedAtTally(t: Tally, list: seq<Path>, a: nat, b: nat, r: Path)
    requires a < b < |list|
    ensures t.Over(MergedAt(list, a, b, r)) + t.At(list[a]) + t.At(list[b]) == t.Over(list) + t.At(r)
  {
    OverUpdate(t, list, a, r);
    OverErase(t, list[a := r], b);
    assert list[a := r][..b] + list[a := r][b + 1..] == MergedAt(list, a, b, r);
  }

  lemma LiveMergeVertices(a: Path, first: Coord, last: Coord, b: Path)
    requires a != [] && b != [] && Touches(first, last, b) && Live(a, first, last, b)
    ensures forall c :: c in Merged(a, first, last, b) <==> c in a || c in b
  {
    var r := Merged(a, first, last, b);
    MergedIsJoined(a, first, last, b);
    ReversedMembers(b);
    if MatchesFirst(first, b) {
      var s :| (s == b || s == Reversed(b)) && s[|s| - 1] == first && Joined(s, a, r);
      JoiningKeepsVertices(s, a, r);
    } else {
      var s :| (s == b || s == Reversed(b)) && s[0] == last && Joined(a, s, r);
      JoiningKeepsVertices(a, s, r);
    }
  }

  lemma VertexKept(list: seq<Path>, a: nat, b: nat, r: Path, c: Coord)
    requires a < b < |list| && IsVertex(c, list)
    requires c in list[a] || c in list[b] ==> c in r
    ensures IsVertex(c, MergedAt(list, a, b, r))
  {
    var after := MergedAt(list, a, b, r);
    var k :| 0 <= k < |list| && c in list[k];
    var m := if k == a || k == b then a else if k < b then k else k - 1;
    assert after[m] == if m == a then r else list[k];
  }

  /** A merge at a live end accounts for both polygons and leaves the matched coordinate without ends. */
  lemma LiveMergeAccounts(list: seq<Path>, a: nat, b: nat, first: Coord, last: Coord)
    requires a < b < |list| && list[a] != [] && list[b] != []
    requires Touches(first, last, list[b]) && Live(list[a], first, last, list[b])
    requires AtMostTwoEnds(list)
    ensures var after := MergedAt(list, a, b, Merged(list[a], first, last, list[b]));
            var used := if MatchesFirst(first, list[b]) then first else last;
            Accounts(list, after) && OfEnd(used).Over(after) == 0
  {
    var r := Merged(list[a], first, last, list[b]);
    var after := MergedAt(list, a, b, r);
    var used := if MatchesFirst(first, list[b]) then first else last;
    forall t: Tally
      ensures t.Over(after) + (if t == OfEnd(used) then 2 else 0) == t.Over(list)
    {
      LiveMergeKeeps(t, list[a], first, last, list[b]);
      MergedAtTally(t, list, a, b, r);
    }
    forall c
      ensures Settled(OfEnd(c).Over(after), OfEnd(c).Over(list))
    {
    }
    assert OfEnd(used).Over(list) <= 2;
    LiveMergeVertices(list[a], first, last, list[b]);
    MergedAtVertices(list, a, b, r);
    forall c | IsVertex(c, list)
      ensures IsVertex(c, after)
    {
      VertexKept(list, a, b, r, c);
    }
  }

  lemma {:induction false} OverHas(t: Tally, list: seq<Path>, k: nat)
    requires k < |list|
    ensures t.At(list[k]) <= t.Over(list)
  {
    OverErase(t, list, k);
  }

  /** The end remembered for a polygon is still its end, or no path ends there any more. */
  ghost predicate Fresh(list: seq<Path>, end: Coord, current: Coord) {
    current == end || OfEnd(end).Over(list) == 0
  }

  lemma AccountsKeepsTwo(a: seq<Path>, b: seq<Path>)
    requires Accounts(a, b) && AtMostTwoEnds(a)
    ensures AtMostTwoEnds(b)
  {
    forall c
      ensures OfEnd(c).Over(b) <= 2
    {
      assert Settled(OfEnd(c).Over(b), OfEnd(c).Over(a));
    }
  }

  /** One merge step of the search for partners of polygon a, when no coordinate ends more than two paths. */
  lemma MergeStep(list: seq<Path>, a: nat, b: nat, first: Coord, last: Coord)
    requires a < b < |list| && NoneEmpty(list) && AtMostTwoEnds(list)
    requires Touches(first, last, list[b])
    requires Fresh(list, first, list[a][0]) && Fresh(list, last, list[a][|list[a]| - 1])
    ensures var r := Merged(list[a], first, last, list[b]);
            var after := MergedAt(list, a, b, r);
            && Accounts(list, after)
            && r != [] && Fresh(after, first, r[0]) && Fresh(after, last, r[|r| - 1])
  {
    var r := Merged(list[a], first, last, list[b]);
    var after := MergedAt(list, a, b, r);
    OverHas(OfEnd(first), list, b);
    OverHas(OfEnd(last), list, b);
    LiveMergeAccounts(list, a, b, first, last);
    assert Settled(OfEnd(first).Over(after), OfEnd(first).Over(list));
    assert Settled(OfEnd(last).Over(after), OfEnd(last).Over(list));
  }

  /** An open polygon shares no end with another one. */
  predicate NoPartner(a: Path, b: Path)
    requires a != [] && b != []
  {
    Closed(a) || !Touches(a[0], a[|a| - 1], b)
  }

  ghost predicate NothingToMerge(list: seq<Path>)
    requires NoneEmpty(list)
  {
    forall i, j | 0 <= i < j < |list| :: NoPartner(list[i], list[j])
  }

  // ----- the merge loop as a function of the list

  /** What merging into polygon a gives, when it is compared with the polygons from b on. */
  ghost function Absorbed(list: seq<Path>, a: nat, b: nat, first: Coord, last: Coord): (r: seq<Path>)
    requires a < b <= |list| && NoneEmpty(list)
    ensures a < |r| <= |list| && NoneEmpty(r)
    decreases |list| - b
  {
    if b == |list| then list
    else if Touches(first, last, list[b]) then
      MergedIsPath(list[a], first, last, list[b]);
      Absorbed(MergedAt(list, a, b, Merged(list[a], first, last, list[b])), a, b, first, last)
    else Absorbed(list, a, b + 1, first, last)
  }

  lemma MergedIsPath(a: Path, first: Coord, last: Coord, b: Path)
    requires a != [] && b != []
    ensures Merged(a, first, last, b) != []
  {
  }

  /** Going through the polygons from a on, each open one absorbs later ones. */
  ghost function Pass(list: seq<Path>, a: nat): (r: seq<Path>)
    requires a <= |list| && NoneEmpty(list)
    ensures |r| <= |list| && NoneEmpty(r)
    decreases |list| - a
  {
    if a == |list| then list
    else Pass(AbsorbedAt(list, a), a + 1)
  }

  ghost function AbsorbedAt(list: seq<Path>, a: nat): (r: seq<Path>)
    requires a < |list| && NoneEmpty(list)
    ensures a < |r| <= |list| && NoneEmpty(r)
  {
    var first, last := list[a][0], list[a][|list[a]| - 1];
    if first == last then list else Absorbed(list, a, a + 1, first, last)
  }

  /** Passes are repeated as long as they shorten the list. */
  ghost function MergedAll(list: seq<Path>): (r: seq<Path>)
    requires NoneEmpty(list)
    ensures |r| <= |list| && NoneEmpty(r)
    decreases |list|
  {
    if |list| <= 1 || |Pass(list, 0)| == |list| then list else MergedAll(Pass(list, 0))
  }

  // ----- what merging keeps in any case

  /** The same vertices, and as many edges. */
  ghost predicate SameExtent(before: seq<Path>, after: seq<Path>) {
    && (forall c :: IsVertex(c, after) <==> IsVertex(c, before))
    && OfAnyEdge.Over(after) == OfAnyEdge.Over(before)
  }

  lemma MergedHas(a: Path, first: Coord, last: Coord, b: Path)
    requires a != [] && b != [] && first in a && last in a && Touches(first, last, b)
    ensures forall c :: c in Merged(a, first, last, b) <==> c in a || c in b
    ensures |Merged(a, first, last, b)| == |a| + |b| - 1
  {
    ReversedMembers(b[1..]);
    ReversedMembers(b[..|b| - 1]);
    assert b == [b[0]] + b[1..] && b == b[..|b| - 1] + [b[|b| - 1]];
  }

  lemma MergeKeepsExtent(list: seq<Path>, a: nat, b: nat, first: Coord, last: Coord)
    requires a < b < |list| && NoneEmpty(list) && first in list[a] && last in list[a] && Touches(first, last, list[b])
    ensures SameExtent(list, MergedAt(list, a, b, Merged(list[a], first, last, list[b])))
  {
    var r := Merged(list[a], first, last, list[b]);
    MergedHas(list[a], first, last, list[b]);
    MergedAtTally(OfAnyEdge, list, a, b, r);
    MergedAtVertices(list, a, b, r);
    forall c | IsVertex(c, list)
      ensures IsVertex(c, MergedAt(list, a, b, r))
    {
      VertexKept(list, a, b, r, c);
    }
  }

  lemma {:induction false} AbsorbedKeepsExtent(list: seq<Path>, a: nat, b: nat, first: Coord, last: Coord)
    requires a < b <= |list| && NoneEmpty(list) && first in list[a] && last in list[a]
    ensures SameExtent(list, Absorbed(list, a, b, first, last))
    decreases |list| - b
  {
    if b < |list| {
      if Touches(first, last, list[b]) {
        MergedHas(list[a], first, last, list[b]);
        MergeKeepsExtent(list, a, b, first, last);
        AbsorbedKeepsExtent(MergedAt(list, a, b, Merged(list[a], first, last, list[b])), a, b, first, last);
      } else {
        AbsorbedKeepsExtent(list, a, b + 1, first, last);
      }
    }
  }

  lemma {:induction false} PassKeepsExtent(list: seq<Path>, a: nat)
    requires a <= |list| && NoneEmpty(list)
    ensures SameExtent(list, Pass(list, a))
    decreases |list| - a
  {
    if a < |list| {
      AbsorbedKeepsExtent(list, a, a + 1, list[a][0], list[a][|list[a]| - 1]);
      PassKeepsExtent(AbsorbedAt(list, a), a + 1);
    }
  }

  /** Whatever the ends, merging keeps the vertices and the number of edges. */
  lemma {:induction false} MergingKeepsExtent(list: seq<Path>)
    requires NoneEmpty(list)
    ensures SameExtent(list, MergedAll(list))
    decreases |list|
  {
    if |list| > 1 && |Pass(list, 0)| < |list| {
      PassKeepsExtent(list, 0);
      MergingKeepsExtent(Pass(list, 0));
    }
  }

  // ----- what it keeps when no coordinate ends more than two polygons

  lemma {:induction false} AbsorbedAccounts(list: seq<Path>, a: nat, b: nat, first: Coord, last: Coord)
    requires a < b <= |list| && NoneEmpty(list) && AtMostTwoEnds(list)
    requires Fresh(list, first, list[a][0]) && Fresh(list, last, list[a][|list[a]| - 1])
    ensures Accounts(list, Absorbed(list, a, b, first, last))
    decreases |list| - b
  {
    if b < |list| {
      if Touches(first, last, list[b]) {
        var after := MergedAt(list, a, b, Merged(list[a], first, last, list[b]));
        MergeStep(list, a, b, first, last);
        AccountsKeepsTwo(list, after);
        AbsorbedAccounts(after, a, b, first, last);
        AccountsTransitive(list, after, Absorbed(after, a, b, first, last));
      } else {
        AbsorbedAccounts(list, a, b + 1, first, last);
      }
    }
  }

  lemma {:induction false} PassAccounts(list: seq<Path>, a: nat)
    requires a <= |list| && NoneEmpty(list) && AtMostTwoEnds(list)
    ensures Accounts(list, Pass(list, a))
    decreases |list| - a
  {
    if a < |list| {
      var after := AbsorbedAt(list, a);
      AbsorbedAccounts(list, a, a + 1, list[a][0], list[a][|list[a]| - 1]);
      AccountsKeepsTwo(list, after);
      PassAccounts(after, a + 1);
      AccountsTransitive(list, after, Pass(after, a + 1));
    }
  }

  /** When no coordinate ends more than two polygons, merging keeps every edge with its multiplicity. */
  lemma {:induction false} MergingAccounts(list: seq<Path>)
    requires NoneEmpty(list) && AtMostTwoEnds(list)
    ensures Accounts(list, MergedAll(list))
    decreases |list|
  {
    if |list| > 1 && |Pass(list, 0)| < |list| {
      var after := Pass(list, 0);
      PassAccounts(list, 0);
      AccountsKeepsTwo(list, after);
      MergingAccounts(after);
      AccountsTransitive(list, after, MergedAll(after));
    }
  }

  // ----- when merging ends

  lemma {:induction false} NothingAbsorbed(list: seq<Path>, a: nat, b: nat, first: Coord, last: Coord)
    requires a < b <= |list| && NoneEmpty(list) && |Absorbed(list, a, b, first, last)| == |list|
    ensures Absorbed(list, a, b, first, last) == list
    ensures forall j | b <= j < |list| :: !Touches(first, last, list[j])
    decreases |list| - b
  {
    if b < |list| && !Touches(first, last, list[b]) {
      NothingAbsorbed(list, a, b + 1, first, last);
    }
  }

  lemma {:induction false} NothingPassed(list: seq<Path>, a: nat)
    requires a <= |list| && NoneEmpty(list) && |Pass(list, a)| == |list|
    ensures Pass(list, a) == list
    ensures forall i, j | a <= i < j < |list| :: NoPartner(list[i], list[j])
    decreases |list| - a
  {
    if a < |list| {
      if !Closed(list[a]) {
        NothingAbsorbed(list, a, a + 1, list[a][0], list[a][|list[a]| - 1]);
      }
      NothingPassed(list, a + 1);
    }
  }

  /** In the end no open polygon has a partner. */
  lemma {:induction false} MergingEnds(list: seq<Path>)
    requires NoneEmpty(list)
    ensures NothingToMerge(MergedAll(list))
    decreases |list|
  {
    if |list| > 1 {
      if |Pass(list, 0)| == |list| {
        NothingPassed(list, 0);
      } else {
        MergingEnds(Pass(list, 0));
      }
    }
  }

  // ----- the merge loop

  /** Merge into the open polygon at a every later polygon that matches one of the ends it had at the beginning. */
  method AbsorbPartners(list0: seq<Path>, a: nat) returns (list: seq<Path>, matched: bool)
    requires a < |list0| && NoneEmpty(list0) && !Closed(list0[a])
    ensures list == AbsorbedAt(list0, a)
    ensures matched <==> |list| < |list0|
  {
    list, matched := list0, false;
    var firstA, lastA := list[a][0], list[a][|list[a]| - 1];
    var b := a + 1;
    while b < |list|
      invariant a < b <= |list| <= |list0| && NoneEmpty(list)
      invariant Absorbed(list, a, b, firstA, lastA) == AbsorbedAt(list0, a)
      invariant matched <==> |list| < |list0|
      decreases |list| - b
    {
      var found, merged := MergeInto(list[a], firstA, lastA, list[b]);
      if found {
        MergedIsPath(list[a], firstA, lastA, list[b]);
        assert MergedAt(list, a, b, merged) == list[a := merged][..b] + list[a := merged][b + 1..];
        list := list[a := merged];
        list := list[..b] + list[b + 1..];
        matched := true;
      } else {
        b := b + 1;
      }
    }
  }

  lemma AccountsReflexive(list: seq<Path>)
    ensures Accounts(list, list)
  {
  }

  /** One pass over the list. */
  method MergeOnce(list0: seq<Path>) returns (list: seq<Path>, matched: bool)
    requires NoneEmpty(list0)
    ensures list == Pass(list0, 0)
    ensures matched <==> |list| < |list0|
  {
    list, matched := list0, false;
    var a := 0;
    while a < |list|
      invariant a <= |list| <= |list0| && NoneEmpty(list)
      invariant Pass(list, a) == Pass(list0, 0)
      invariant matched <==> |list| < |list0|
      decreases |list| - a
    {
      if !Closed(list[a]) {
        var found;
        list, found := AbsorbPartners(list, a);
        matched := matched || found;
      }
      a := a + 1;
    }
  }

  /** Merge polygons until none of the open ones has a partner left. */
  method MergePolygons(list0: seq<Path>) returns (list: seq<Path>)
    requires NoneEmpty(list0)
    ensures list == MergedAll(list0)
    ensures NoneEmpty(list) && NothingToMerge(list)
    ensures AtMostTwoEnds(list0) ==> Accounts(list0, list)
    ensures SameExtent(list0, list)
  {
    list := list0;
    var stillMatching := true;
    while stillMatching && |list| > 1
      invariant NoneEmpty(list)
      invariant if stillMatching then MergedAll(list) == MergedAll(list0) else list == MergedAll(list0)
      decreases |list|, if stillMatching then 1 else 0
    {
      ghost var before := list;
      list, stillMatching := MergeOnce(list);
      if !stillMatching {
        NothingPassed(before, 0);
      }
    }
    MergingEnds(list0);
    MergingKeepsExtent(list0);
    if AtMostTwoEnds(list0) {
      MergingAccounts(list0);
    }
  }
}
