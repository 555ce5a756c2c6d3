/** The point-in-region test: a bounding-box rejection followed by an integer even-odd ray cast. */
module RegionTest {
  import opened Coordinates
  import opened Sequences

  /** A closed polygon whose last vertex is joined to its first one. */
  type Ring = seq<Coord>

  datatype Box = Box(minx: int, miny: int, maxx: int, maxy: int) {
    predicate Contains(c: Coord) {
      minx <= c.x <= maxx && miny <= c.y <= maxy
    }

    ghost predicate Encloses(ring: Ring) {
      forall c | c in ring :: Contains(c)
    }

    /** The box, enlarged where c lies outside it. */
    function Include(c: Coord): Box {
      Box(Min(minx, c.x), Min(miny, c.y), Max(maxx, c.x), Max(maxy, c.y))
    }
  }

  datatype Region = Region(polygons: seq<Ring>, box: Box) {
    ghost predicate Valid() {
      forall ring | ring in polygons :: box.Encloses(ring)
    }
  }

  /** The ray through c meets the edge between p and q; an upper end point on the ray counts, a lower one does not. */
  predicate Straddles(p: Coord, q: Coord, c: Coord) {
    (p.y < c.y && q.y >= c.y) || (q.y < c.y && p.y >= c.y)
  }

  /** Numerator and denominator of the crossing's distance from p along the x axis. */
  function Rise(p: Coord, q: Coord, c: Coord): int {
    (c.y - p.y) * (q.x - p.x)
  }

  function Run(p: Coord, q: Coord): int {
    q.y - p.y
  }

  /** Where the ray meets the edge, as computed in integers starting from p. */
  function CrossingX(p: Coord, q: Coord, c: Coord): int
    requires Straddles(p, q, c)
  {
    p.x + TruncDiv(Rise(p, q, c), Run(p, q))
  }

  /** The questions asked about an edge, the vertex reached first in the ring being q and the next one p. */
  datatype Test =
    | Straddle    // does the ray's line meet the edge?
    | Coded       // the condition under which the program flips its answer
    | Plain       // the same without the shortcut on the x values
    | Exact       // is the crossing, as a rational number, left of c?
    | Misrounded  // the rational crossing is left of c, by less than one, and was rounded up
  {
    predicate Hits(p: Coord, q: Coord, c: Coord) {
      && Straddles(p, q, c)
      && match this
         case Straddle => true
         case Coded => (p.x <= c.x || q.x <= c.x) && CrossingX(p, q, c) < c.x
         case Plain => CrossingX(p, q, c) < c.x
         case Exact => RatioBelow(Rise(p, q, c), Run(p, q), c.x - p.x)
         case Misrounded =>
           && RatioBelow(Rise(p, q, c), Run(p, q), c.x - p.x)
           && RatioBelow(Rise(p, q, c), Run(p, q), 0)
           && !RatioAtMost(Rise(p, q, c), Run(p, q), c.x - p.x - 1)
    }

    function Hit(p: Coord, q: Coord, c: Coord): nat {
      if Hits(p, q, c) then 1 else 0
    }

    /** How many edges of an open walk pass the test. */
    function OnWalk(s: seq<Coord>, c: Coord): nat {
      if |s| < 2 then 0 else OnWalk(s[..|s| - 1], c) + Hit(s[|s| - 1], s[|s| - 2], c)
    }

    /** How many edges of a ring pass the test. */
    function OnRing(ring: Ring, c: Coord): nat {
      if ring == [] then 0 else OnWalk([ring[|ring| - 1]] + ring, c)
    }
  }

  ghost predicate InsideRing(ring: Ring, c: Coord) {
    Plain.OnRing(ring, c) % 2 == 1
  }

  ghost predicate InsideAnyRing(polygons: seq<Ring>, c: Coord) {
    exists ring | ring in polygons :: InsideRing(ring, c)
  }

  // ----- single edges

  /** The integer crossing stays between the x values of the edge. */
  lemma CrossingWithinEdge(p: Coord, q: Coord, c: Coord)
    requires Straddles(p, q, c)
    ensures Min(p.x, q.x) <= CrossingX(p, q, c) <= Max(p.x, q.x)
  {
    FractionOfExtent(c.y - p.y, Run(p, q), q.x - p.x);
  }

  /** The shortcut on the x values never changes an answer. */
  lemma ShortcutHarmless(p: Coord, q: Coord, c: Coord)
    ensures Coded.Hits(p, q, c) == Plain.Hits(p, q, c)
  {
    if Straddles(p, q, c) {
      CrossingWithinEdge(p, q, c);
    }
  }

  /** Rounding can only lose an edge, and it does so exactly when the edge is misrounded. */
  lemma RoundingOfEdge(p: Coord, q: Coord, c: Coord)
    ensures Exact.Hit(p, q, c) == Plain.Hit(p, q, c) + Misrounded.Hit(p, q, c)
  {
    if Straddles(p, q, c) {
      TruncBelow(Rise(p, q, c), Run(p, q), c.x - p.x);
    }
  }

  lemma ExactSymmetric(p: Coord, q: Coord, c: Coord)
    ensures Exact.Hits(p, q, c) == Exact.Hits(q, p, c)
  {
    var dy := q.y - p.y;
    assert (c.y - q.y) * (p.x - q.x) - (c.x - q.x) * (p.y - q.y)
        == -((c.y - p.y) * (q.x - p.x) - (c.x - p.x) * dy);
  }

  // ----- walks and rings

  lemma {:induction false} WalkJoin(t: Test, a: seq<Coord>, b: seq<Coord>, c: Coord)
    requires a != [] && b != [] && a[|a| - 1] == b[0]
    ensures t.OnWalk(a + b[1..], c) == t.OnWalk(a, c) + t.OnWalk(b, c)
  {
    var s := a + b[1..];
    if |b| == 1 {
      assert s == a;
    } else {
      var b', last := b[..|b| - 1], b[|b| - 1];
      WalkJoin(t, a, b', c);
      WalkExtend(t, a + b'[1..], last, c);
      WalkExtend(t, b', last, c);
      assert s == a + b'[1..] + [last] && b == b' + [last];
      assert (a + b'[1..])[|a + b'[1..]| - 1] == b'[|b'| - 1];
    }
  }

  lemma WalkExtend(t: Test, s: seq<Coord>, p: Coord, c: Coord)
    requires s != []
    ensures t.OnWalk(s + [p], c) == t.OnWalk(s, c) + t.Hit(p, s[|s| - 1], c)
  {
    assert (s + [p])[..|s|] == s;
  }

  /** The answer does not depend on the vertex a ring starts with. */
  lemma RotateOnce(t: Test, ring: Ring, c: Coord)
    requires ring != []
    ensures t.OnRing(ring[1..] + [ring[0]], c) == t.OnRing(ring, c)
  {
    var last := ring[|ring| - 1];
    var turned := ring[1..] + [ring[0]];
    WalkJoin(t, [last, ring[0]], ring, c);
    assert [last, ring[0]] + ring[1..] == [last] + ring;
    WalkJoin(t, ring, [last, ring[0]], c);
    assert ring + [last, ring[0]][1..] == [ring[0]] + turned;
  }

  lemma {:induction false} StartVertexIrrelevant(t: Test, ring: Ring, k: nat, c: Coord)
    requires k <= |ring|
    ensures t.OnRing(ring[k..] + ring[..k], c) == t.OnRing(ring, c)
  {
    if k == 0 {
      assert ring[0..] + ring[..0] == ring;
    } else {
      var before := ring[k - 1..] + ring[..k - 1];
      StartVertexIrrelevant(t, ring, k - 1, c);
      RotateOnce(t, before, c);
      assert before[1..] + [before[0]] == ring[k..] + ring[..k];
    }
  }

  lemma {:induction false} WalkParity(s: seq<Coord>, c: Coord)
    requires s != []
    ensures Straddle.OnWalk(s, c) % 2 == if (s[0].y < c.y) == (s[|s| - 1].y < c.y) then 0 else 1
  {
    if |s| > 1 {
      WalkParity(s[..|s| - 1], c);
    }
  }

  /** A closed walk crosses any horizontal line an even number of times. */
  lemma StraddlingEdgesEven(ring: Ring, c: Coord)
    ensures Straddle.OnRing(ring, c) % 2 == 0
  {
    if ring != [] {
      WalkParity([ring[|ring| - 1]] + ring, c);
    }
  }

  lemma {:induction false} WalkShortcut(s: seq<Coord>, c: Coord)
    ensures Coded.OnWalk(s, c) == Plain.OnWalk(s, c)
    ensures Exact.OnWalk(s, c) == Plain.OnWalk(s, c) + Misrounded.OnWalk(s, c)
  {
    if |s| >= 2 {
      WalkShortcut(s[..|s| - 1], c);
      ShortcutHarmless(s[|s| - 1], s[|s| - 2], c);
      RoundingOfEdge(s[|s| - 1], s[|s| - 2], c);
    }
  }

  /**
   * The program's answer for a ring is the exact even-odd answer if and only if an even number
   * of edges is misrounded.
   */
  lemma RoundingOfRing(ring: Ring, c: Coord)
    ensures Coded.OnRing(ring, c) == Plain.OnRing(ring, c)
    ensures Exact.OnRing(ring, c) == Plain.OnRing(ring, c) + Misrounded.OnRing(ring, c)
    ensures InsideRing(ring, c) == (Exact.OnRing(ring, c) % 2 == 1) <==> Misrounded.OnRing(ring, c) % 2 == 0
  {
    if ring != [] {
      WalkShortcut([ring[|ring| - 1]] + ring, c);
    }
  }

  /** A crossing that lies strictly between c.x - 1 and c.x. */
  predicate NearMiss(p: Coord, q: Coord, c: Coord) {
    && Straddles(p, q, c)
    && RatioBelow(Rise(p, q, c), Run(p, q), c.x - p.x)
    && !RatioAtMost(Rise(p, q, c), Run(p, q), c.x - p.x - 1)
  }

  lemma {:induction false} NoNearMissOnWalk(s: seq<Coord>, c: Coord)
    requires forall k | 0 < k < |s| :: !NearMiss(s[k], s[k - 1], c)
    ensures Misrounded.OnWalk(s, c) == 0
  {
    if |s| >= 2 {
      var n := |s| - 1;
      NoNearMissOnWalk(s[..n], c);
      assert !NearMiss(s[n], s[n - 1], c);
    }
  }

  /** When no edge crosses the ray within the last unit left of c, the answer is the exact one. */
  lemma ExactWithoutNearMiss(ring: Ring, c: Coord)
    requires ring != [] ==> !NearMiss(ring[0], ring[|ring| - 1], c)
    requires forall k | 0 < k < |ring| :: !NearMiss(ring[k], ring[k - 1], c)
    ensures InsideRing(ring, c) <==> Exact.OnRing(ring, c) % 2 == 1
  {
    if ring != [] {
      var s := [ring[|ring| - 1]] + ring;
      forall k | 0 < k < |s|
        ensures !NearMiss(s[k], s[k - 1], c)
      {
        assert s[k] == ring[k - 1];
        assert k > 1 ==> s[k - 1] == ring[k - 2];
      }
      NoNearMissOnWalk(s, c);
    }
    RoundingOfRing(ring, c);
  }

  lemma WalkPrepend(t: Test, p: Coord, s: seq<Coord>, c: Coord)
    requires s != []
    ensures t.OnWalk([p] + s, c) == t.Hit(s[0], p, c) + t.OnWalk(s, c)
  {
    var edge := [p, s[0]];
    WalkJoin(t, edge, s, c);
    assert edge + s[1..] == [p] + s;
    WalkExtend(t, [p], s[0], c);
    assert [p] + [s[0]] == edge;
  }

  lemma {:induction false} ExactWalkBackwards(s: seq<Coord>, c: Coord)
    ensures Exact.OnWalk(Reversed(s), c) == Exact.OnWalk(s, c)
  {
    if |s| >= 2 {
      ExactWalkBackwards(s[1..], c);
      WalkPrepend(Exact, s[0], s[1..], c);
      assert [s[0]] + s[1..] == s;
      WalkExtend(Exact, Reversed(s[1..]), s[0], c);
      ExactSymmetric(s[0], s[1], c);
    }
  }

  /** The exact answer does not depend on the direction a ring is walked in. */
  lemma ExactBackwards(ring: Ring, c: Coord)
    ensures Exact.OnRing(Reversed(ring), c) == Exact.OnRing(ring, c)
  {
    if ring != [] {
      var first, last, r := ring[0], ring[|ring| - 1], Reversed(ring);
      ExactWalkBackwards([last] + ring, c);
      assert Reversed([last] + ring) == r + [last];
      WalkExtend(Exact, r, last, c);
      WalkPrepend(Exact, first, r, c);
      ExactSymmetric(first, last, c);
    }
  }

  lemma SameParity(p: nat, m: nat, p': nat, m': nat)
    requires p + m == p' + m'
    ensures p % 2 == p' % 2 <==> (m + m') % 2 == 0
  {
  }

  /** The answer survives a change of direction if and only if the misrounded edges of both directions add up evenly. */
  lemma DirectionMatters(ring: Ring, c: Coord)
    ensures InsideRing(Reversed(ring), c) == InsideRing(ring, c)
       <==> (Misrounded.OnRing(ring, c) + Misrounded.OnRing(Reversed(ring), c)) % 2 == 0
  {
    RoundingOfRing(ring, c);
    RoundingOfRing(Reversed(ring), c);
    ExactBackwards(ring, c);
    SameParity(Plain.OnRing(ring, c), Misrounded.OnRing(ring, c),
               Plain.OnRing(Reversed(ring), c), Misrounded.OnRing(Reversed(ring), c));
  }

  // ----- the bounding box

  lemma {:induction false} WalkLeftOfBox(s: seq<Coord>, box: Box, c: Coord)
    requires forall v | v in s :: box.Contains(v)
    requires !box.Contains(c)
    ensures Plain.OnWalk(s, c) == if c.x > box.maxx then Straddle.OnWalk(s, c) else 0
  {
    if |s| >= 2 {
      var p, q := s[|s| - 1], s[|s| - 2];
      WalkLeftOfBox(s[..|s| - 1], box, c);
      assert box.Contains(p) && box.Contains(q);
      if Straddles(p, q, c) {
        CrossingWithinEdge(p, q, c);
      }
    }
  }

  /** Rejecting a point outside the box changes no answer. */
  lemma BoxRejectionHarmless(ring: Ring, box: Box, c: Coord)
    requires box.Encloses(ring)
    requires !box.Contains(c)
    ensures !InsideRing(ring, c)
  {
    if ring != [] {
      WalkLeftOfBox([ring[|ring| - 1]] + ring, box, c);
      StraddlingEdgesEven(ring, c);
    }
  }

  /** A triangle and a point right of its slanted edge: the exact test says outside, the program says inside. */
  lemma RoundingCanFlipAnswer()
    ensures var ring, c := [Coord(4, 3), Coord(5, 0), Coord(0, 0)], Coord(5, 1);
            InsideRing(ring, c) && Exact.OnRing(ring, c) % 2 == 0
  {
    var u, v, w, c := Coord(4, 3), Coord(5, 0), Coord(0, 0), Coord(5, 1);
    WalkOfFour(Plain, w, u, v, w, c);
    WalkOfFour(Exact, w, u, v, w, c);
    assert [w] + [u, v, w] == [w, u, v, w];
  }

  lemma WalkOfFour(t: Test, p: Coord, q: Coord, r: Coord, s: Coord, c: Coord)
    ensures t.OnWalk([p, q, r, s], c) == t.Hit(q, p, c) + t.Hit(r, q, c) + t.Hit(s, r, c)
  {
    WalkPrepend(t, p, [q, r, s], c);
    WalkPrepend(t, q, [r, s], c);
    WalkPrepend(t, r, [s], c);
    assert [p] + [q, r, s] == [p, q, r, s] && [q] + [r, s] == [q, r, s] && [r] + [s] == [r, s];
  }

  // ----- the program

  /** Flip the answer if the edge between two vertices is crossed left of c. */
  method PassEdge(p: Coord, q: Coord, c: Coord, odd: bool) returns (oddNodes: bool)
    ensures oddNodes <==> odd != Coded.Hits(p, q, c)
  {
    oddNodes := odd;
    if Straddles(p, q, c) && (p.x <= c.x || q.x <= c.x) {
      var intermediate := CrossingX(p, q, c);
      oddNodes := oddNodes != (intermediate < c.x);
    }
  }

  lemma NextEdge(polygon: Ring, i: nat, walk: seq<Coord>, c: Coord)
    requires i < |polygon| && walk == [polygon[|polygon| - 1]] + polygon[..i]
    ensures walk + [polygon[i]] == [polygon[|polygon| - 1]] + polygon[..i + 1]
    ensures Coded.OnWalk(walk + [polygon[i]], c) == Coded.OnWalk(walk, c) + Coded.Hit(polygon[i], walk[i], c)
  {
    WalkExtend(Coded, walk, polygon[i], c);
  }

  lemma ParityStep(n: nat, hit: bool)
    ensures (n + if hit then 1 else 0) % 2 == 1 <==> (n % 2 == 1) != hit
  {
  }

  /** The even-odd loop over one polygon. */
  method CastRay(polygon: Ring, c: Coord) returns (oddNodes: bool)
    ensures oddNodes <==> InsideRing(polygon, c)
  {
    var polyCorners := |polygon|;
    var j := polyCorners - 1;
    oddNodes := false;
    ghost var walk := if polygon == [] then [] else [polygon[j]];
    for i := 0 to polyCorners
      invariant if polyCorners == 0 then walk == [] else 0 <= j < polyCorners
      invariant polyCorners > 0 ==> walk == [polygon[polyCorners - 1]] + polygon[..i] && walk[i] == polygon[j]
      invariant oddNodes <==> Coded.OnWalk(walk, c) % 2 == 1
    {
      NextEdge(polygon, i, walk, c);
      ParityStep(Coded.OnWalk(walk, c), Coded.Hits(polygon[i], polygon[j], c));
      oddNodes := PassEdge(polygon[i], polygon[j], c, oddNodes);
      walk := walk + [polygon[i]];
      j := i;
    }
    RoundingOfRing(polygon, c);
    assert polygon[..polyCorners] == polygon;
  }

  /** Box rejection, then one ray per polygon until one of them answers "inside". */
  method InsideRegion(region: Region, c: Coord) returns (success: bool)
    requires region.Valid()
    ensures success <==> InsideAnyRing(region.polygons, c)
  {
    if c.x < region.box.minx || c.x > region.box.maxx || c.y < region.box.miny || c.y > region.box.maxy {
      forall ring | ring in region.polygons
        ensures !InsideRing(ring, c)
      {
        BoxRejectionHarmless(ring, region.box, c);
      }
      return false;
    }
    success := false;
    for k := 0 to |region.polygons|
      invariant !success
      invariant forall m | 0 <= m < k :: !InsideRing(region.polygons[m], c)
    {
      var oddNodes := CastRay(region.polygons[k], c);
      if oddNodes {
        return true;
      }
    }
  }

  // ----- machine integers

  /** Every intermediate value of the ray cast fits a 32-bit int when the edge's extents and their product do. */
  lemma NoOverflow(p: Coord, q: Coord, c: Coord)
    requires Straddles(p, q, c)
    requires FitsInt32(p.x) && FitsInt32(q.x)
    requires Abs(q.x - p.x) < INT32_LIMIT && Abs(q.y - p.y) < INT32_LIMIT
             && Abs(q.x - p.x) * Abs(q.y - p.y) < INT32_LIMIT
    ensures FitsInt32(c.y - p.y) && FitsInt32(q.x - p.x) && FitsInt32(Run(p, q))
    ensures FitsInt32(Rise(p, q, c)) && FitsInt32(CrossingX(p, q, c))
  {
    AbsTimes(c.y - p.y, q.x - p.x);
    MulMono(Abs(c.y - p.y), Abs(q.y - p.y), Abs(q.x - p.x));
    CrossingWithinEdge(p, q, c);
  }
}
