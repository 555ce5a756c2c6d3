/** The measured distance against the exact one, and which nodes of a way are dropped because of it. */
module InnerCorridor {
  import opened Coordinates
  import opened MapIds
  import opened SegmentDistance
  import opened WaySimplification

  // ----- the nearest point of a segment

  /** The squared distance to a moving point, at x + s * w and y + s * v, in powers of s. */
  lemma Expanded(x: real, w: real, y: real, v: real, s: real)
    ensures (x + s * w) * (x + s * w) + (y + s * v) * (y + s * v)
         == x * x + y * y + 2.0 * (s * (x * w + y * v)) + (s * s) * (w * w + v * v)
  {
    ExpandedSquare(x, w, s);
    ExpandedSquare(y, v, s);
    Distributes(s, x * w, y * v);
    Distributes(s * s, w * w, v * v);
  }

  lemma ExpandedSquare(x: real, w: real, s: real)
    ensures (x + s * w) * (x + s * w) == x * x + 2.0 * (s * (x * w)) + (s * s) * (w * w)
  {
    var d := s * w;
    assert (x + d) * (x + d) == x * x + 2.0 * (x * d) + d * d;
    assert x * d == s * (x * w);
    assert d * d == (s * s) * (w * w);
  }

  lemma Distributes(s: real, x: real, y: real)
    ensures s * (x + y) == s * x + s * y
  {
  }

  /** With l the squared length and t * l the negated middle coefficient, s is the worse the farther it is from t. */
  lemma Parabola(l: real, m: real, t: real, s: real, c: real)
    requires t * l == -m && 0.0 <= l
    requires 0.0 <= s <= 1.0 && c == if t < 0.0 then 0.0 else if t > 1.0 then 1.0 else t
    ensures 2.0 * (c * m) + (c * c) * l <= 2.0 * (s * m) + (s * s) * l
  {
    Scaled(s, l, t, m);
    Scaled(c, l, t, m);
    Nearer(s, t, c);
    NonNegative(s * s - 2.0 * (s * t) - (c * c - 2.0 * (c * t)), l);
    SplitProduct(s * s - 2.0 * (s * t), c * c - 2.0 * (c * t), l);
  }

  lemma Scaled(s: real, l: real, t: real, m: real)
    requires t * l == -m
    ensures 2.0 * (s * m) + (s * s) * l == (s * s - 2.0 * (s * t)) * l
  {
    assert s * (t * l) == (s * t) * l;
    assert s * m == -((s * t) * l);
    assert (s * s - 2.0 * (s * t)) * l == (s * s) * l - 2.0 * ((s * t) * l);
  }

  lemma Nearer(s: real, t: real, c: real)
    requires 0.0 <= s <= 1.0 && c == if t < 0.0 then 0.0 else if t > 1.0 then 1.0 else t
    ensures c * c - 2.0 * (c * t) <= s * s - 2.0 * (s * t)
  {
    if t < 0.0 {
      NonNegative(s, s - 2.0 * t);
      assert s * (s - 2.0 * t) == s * s - 2.0 * (s * t);
    } else if t > 1.0 {
      NonNegative(1.0 - s, 2.0 * t - 1.0 - s);
      BeyondEnd(s, t);
    } else {
      SquareNonNegative(s - t);
      assert (s - t) * (s - t) == s * s - 2.0 * (s * t) + t * t;
    }
  }

  lemma BeyondEnd(s: real, t: real)
    ensures (1.0 - s) * (2.0 * t - 1.0 - s) == 2.0 * t - 1.0 - 2.0 * (s * t) + s * s
  {
    var d := 2.0 * t - 1.0 - s;
    assert (1.0 - s) * d == d - s * d;
    assert s * d == 2.0 * (s * t) - s - s * s;
  }

  lemma NonNegative(x: real, l: real)
    requires 0.0 <= x && 0.0 <= l
    ensures 0.0 <= x * l
  {
  }

  lemma SplitProduct(x: real, y: real, l: real)
    ensures (x - y) * l == x * l - y * l
  {
  }

  /** The fraction of a segment at which it is nearest to p. */
  function NearestFraction(a: Coord, p: Coord, b: Coord): (t: real)
    ensures 0.0 <= t <= 1.0
  {
    if a == b || Position(a, p, b) < 0.0 then 0.0 else if Position(a, p, b) > 1.0 then 1.0 else Position(a, p, b)
  }

  /** No point of the segment is nearer. */
  lemma NearestIsNearest(a: Coord, p: Coord, b: Coord, s: real)
    requires 0.0 <= s <= 1.0
    ensures ExactSquare(a, b, NearestFraction(a, p, b), p) <= ExactSquare(a, b, s, p)
  {
    var c := NearestFraction(a, p, b);
    var k, m, l := Coefficients(a, p, b);
    assert ExactSquare(a, b, s, p) == k + 2.0 * (s * m) + (s * s) * l;
    assert ExactSquare(a, b, c, p) == k + 2.0 * (c * m) + (c * c) * l;
    if a == b {
      Parabola(l, m, 0.0, s, c);
    } else {
      Parabola(l, m, Position(a, p, b), s, c);
    }
  }

  /** The squared distance along the segment is a polynomial in s. */
  lemma Coefficients(a: Coord, p: Coord, b: Coord) returns (k: real, m: real, l: real)
    ensures forall s: real :: ExactSquare(a, b, s, p) == k + 2.0 * (s * m) + (s * s) * l
    ensures 0.0 <= l
    ensures if a == b then m == 0.0 else Position(a, p, b) * l == -m
  {
    var x, y := (a.x - p.x) as real, (a.y - p.y) as real;
    var w, v := (b.x - a.x) as real, (b.y - a.y) as real;
    k, m, l := x * x + y * y, x * w + y * v, w * w + v * v;
    SquareNonNegative(w);
    SquareNonNegative(v);
    forall s: real
      ensures ExactSquare(a, b, s, p) == k + 2.0 * (s * m) + (s * s) * l
    {
      ExactParts(a, b, s, p, x + s * w, y + s * v);
      Expanded(x, w, y, v, s);
    }
    if a != b {
      PositionScaled(a, p, b, x, y, w, v);
    }
  }

  lemma PositionScaled(a: Coord, p: Coord, b: Coord, x: real, y: real, w: real, v: real)
    requires a != b
    requires x == (a.x - p.x) as real && y == (a.y - p.y) as real
    requires w == (b.x - a.x) as real && v == (b.y - a.y) as real
    ensures Position(a, p, b) * (w * w + v * v) == -(x * w + y * v)
  {
    IntSquares(a.x - b.x, a.y - b.y);
    OppositeSquares(w, (a.x - b.x) as real);
    OppositeSquares(v, (a.y - b.y) as real);
    AlongIsReal(a, p, b, x, y, w, v);
    Quotient(Along(a, p, b) as real, SquareDistance(a, b) as real);
  }

  lemma OppositeSquares(x: real, y: real)
    requires y == -x
    ensures x * x == y * y
  {
  }

  lemma Quotient(n: real, d: real)
    requires d != 0.0
    ensures (n / d) * d == n
  {
  }

  lemma AlongIsReal(a: Coord, p: Coord, b: Coord, x: real, y: real, w: real, v: real)
    requires x == (a.x - p.x) as real && y == (a.y - p.y) as real
    requires w == (b.x - a.x) as real && v == (b.y - a.y) as real
    ensures Along(a, p, b) as real == -(x * w + y * v)
  {
    NegatedProduct(p.x - a.x, b.x - a.x, x, w);
    NegatedProduct(p.y - a.y, b.y - a.y, y, v);
  }

  lemma NegatedProduct(f: int, g: int, x: real, w: real)
    requires x == (-f) as real && w == g as real
    ensures (f * g) as real == -(x * w)
  {
    assert (f * g) as real == f as real * g as real;
    assert x == -(f as real);
  }

  // ----- what is measured

  /** The grid point the distance is measured to: an end of the segment beyond it, and else the rounded foot. */
  function MeasuredTo(a: Coord, p: Coord, b: Coord): Coord {
    if a == b || Position(a, p, b) < 0.0 then a
    else if Position(a, p, b) > 1.0 then b
    else Foot(a, b, NearestFraction(a, p, b))
  }

  /** On each axis the grid point is less than 1.5 away from the nearest point of the segment. */
  lemma MeasuredToNearest(a: Coord, p: Coord, b: Coord)
    ensures var t, g := NearestFraction(a, p, b), MeasuredTo(a, p, b);
            && ToSegment(a, p, b) == SquareDistance(g, p)
            && -1.5 <= g.x as real - (a.x as real + Part(t, b.x - a.x)) <= 1.5
            && -1.5 <= g.y as real - (a.y as real + Part(t, b.y - a.y)) <= 1.5
  {
    var t := NearestFraction(a, p, b);
    if a != b && 0.0 <= Position(a, p, b) <= 1.0 {
      RoundedPart(t, b.x - a.x);
      RoundedPart(t, b.y - a.y);
    }
  }

  /** Moving a point by at most 1.5 on each axis takes a square distance of 319 to at most 400. */
  lemma DisplacedInner(u: real, v: real, e: real, f: real)
    requires u * u + v * v <= 319.0
    requires -1.5 <= e <= 1.5 && -1.5 <= f <= 1.5
    ensures (u + e) * (u + e) + (v + f) * (v + f) <= 400.0
  {
    InnerCrossTerm(u, e);
    InnerCrossTerm(v, f);
    SmallSquare(e);
    SmallSquare(f);
    assert (u + e) * (u + e) == u * u + 2.0 * (u * e) + e * e;
    assert (v + f) * (v + f) == v * v + 2.0 * (v * f) + f * f;
  }

  lemma InnerCrossTerm(u: real, e: real)
    requires -1.5 <= e <= 1.5
    ensures 2.0 * (u * e) <= 0.12 * (u * u) + 18.75
  {
    SquareNonNegative(0.12 * u - e);
    SmallSquare(e);
    assert (0.12 * u - e) * (0.12 * u - e) == 0.12 * (0.12 * (u * u)) - 0.12 * (2.0 * (u * e)) + e * e;
  }

  /** p is at most sqrt(319) decimetres away from the exact segment between a and b. */
  ghost predicate InInnerCorridor(a: Coord, p: Coord, b: Coord) {
    exists s: real :: 0.0 <= s <= 1.0 && ExactSquare(a, b, s, p) <= 319.0
  }

  /** What lies in the inner corridor is measured to be within 20 decimetres of the segment. */
  lemma InnerCorridorIsClose(a: Coord, p: Coord, b: Coord)
    requires InInnerCorridor(a, p, b)
    ensures ToSegment(a, p, b) <= EPSILON
  {
    var s: real :| 0.0 <= s <= 1.0 && ExactSquare(a, b, s, p) <= 319.0;
    NearestIsNearest(a, p, b, s);
    MeasuredToNearest(a, p, b);
    PointNearby(a, p, b, NearestFraction(a, p, b), MeasuredTo(a, p, b));
  }

  lemma PointNearby(a: Coord, p: Coord, b: Coord, t: real, g: Coord)
    requires ExactSquare(a, b, t, p) <= 319.0
    requires -1.5 <= g.x as real - (a.x as real + Part(t, b.x - a.x)) <= 1.5
    requires -1.5 <= g.y as real - (a.y as real + Part(t, b.y - a.y)) <= 1.5
    ensures SquareDistance(g, p) <= EPSILON
  {
    var u, v := (a.x - p.x) as real + Part(t, b.x - a.x), (a.y - p.y) as real + Part(t, b.y - a.y);
    var x, y := (g.x - p.x) as real, (g.y - p.y) as real;
    ExactParts(a, b, t, p, u, v);
    DisplacedInner(u, v, x - u, y - v);
    SumBack(u, x);
    SumBack(v, y);
    IntSquares(g.x - p.x, g.y - p.y);
  }

  lemma SumBack(u: real, x: real)
    ensures (u + (x - u)) * (u + (x - u)) == x * x
  {
    assert u + (x - u) == x;
  }

  /** The corridor is twenty decimetres wide, these included. */
  lemma CorridorWidth()
    ensures var a, b := Coord(0, 0), Coord(100, 0);
            ToSegment(a, Coord(-20, 0), b) <= EPSILON < ToSegment(a, Coord(-20, 1), b)
  {
    var a, b := Coord(0, 0), Coord(100, 0);
    BeforeStart(a, Coord(-20, 0), b, 400);
    BeforeStart(a, Coord(-20, 1), b, 401);
  }

  lemma BeforeStart(a: Coord, p: Coord, b: Coord, square: nat)
    requires a != b && Along(a, p, b) < 0 && SquareDistance(a, p) == square
    ensures ToSegment(a, p, b) == square
  {
    SideOfEnds(Along(a, p, b), SquareDistance(a, b));
  }

  /** Where the nearest point is an end of the segment, the distance is measured exactly. */
  lemma EndsMeasuredExactly(a: Coord, p: Coord, b: Coord)
    requires a == b || Along(a, p, b) < 0 || Along(a, p, b) > SquareDistance(a, b)
    ensures ToSegment(a, p, b) as real == ExactSquare(a, b, NearestFraction(a, p, b), p)
  {
    var g := MeasuredTo(a, p, b);
    if a != b {
      SideOfEnds(Along(a, p, b), SquareDistance(a, b));
    }
    var x, y := (g.x - p.x) as real, (g.y - p.y) as real;
    IntSquares(g.x - p.x, g.y - p.y);
    ExactParts(a, b, NearestFraction(a, p, b), p, x, y);
  }

  lemma SideOfEnds(n: int, d: nat)
    requires d > 0
    ensures n < 0 <==> Fraction(n, d) < 0.0
    ensures n > d <==> Fraction(n, d) > 1.0
  {
    var q := Fraction(n, d);
    Quotient(n as real, d as real);
  }

  /** An extent v is rounded to r: to the nearest integer, but from -0.5 on downwards to the one after that. */
  ghost predicate Rounded(v: real, r: int) {
    if v > -0.5 then -0.5 < r as real - v <= 0.5 else 0.5 <= r as real - v < 1.5
  }

  /** The foot is rounded so on each axis, seen from a. */
  lemma FootIsRounded(a: Coord, b: Coord, t: real)
    ensures Rounded(Part(t, b.x - a.x), Foot(a, b, t).x - a.x)
    ensures Rounded(Part(t, b.y - a.y), Foot(a, b, t).y - a.y)
  {
    RoundedExtent(Part(t, b.x - a.x));
    RoundedExtent(Part(t, b.y - a.y));
  }

  lemma RoundedExtent(v: real)
    ensures Rounded(v, TruncReal(v + 0.5))
  {
  }

  // ----- which nodes are dropped

  /** A node that nobody needs survives only if it was far from the segment between two that are kept. */
  lemma {:induction false} SurvivorWasFar(t: NodeTable, way: seq<NodeId>, a: nat, b: nat, i: nat)
    returns (l: nat, r: nat)
    requires a < i < b < |way| && t.Knows(way)
    requires Survives(t, way, a, b, i) && t.uses[way[i]] == 0
    ensures a <= l < i < r <= b
    ensures KeptWithin(t, way, a, b, l) && KeptWithin(t, way, a, b, r)
    ensures t.Distance(way[l], way[i], way[r]) > EPSILON
    decreases b - a
  {
    var d := SplitPoint(t, way, a, b);
    if i < d {
      l, r := SurvivorWasFar(t, way, a, d, i);
    } else if i > d {
      l, r := SurvivorWasFar(t, way, d, b, i);
    } else {
      FarthestMeaning(t, way, a, b, b);
      l, r := a, b;
    }
  }

  /** So an inner node that is kept is needed, or outside the inner corridor of a segment between two nodes kept. */
  lemma KeptWasFarOrNeeded(t: NodeTable, way: seq<NodeId>, i: nat) returns (l: nat, r: nat)
    requires t.metric == ToSegment
    requires 0 < i < |way| - 1 && t.Knows(way) && Keeps(t, way, i) && t.uses[way[i]] == 0
    ensures l < i < r < |way| && Keeps(t, way, l) && Keeps(t, way, r)
    ensures !InInnerCorridor(t.coords[way[l]], t.coords[way[i]], t.coords[way[r]])
  {
    l, r := SurvivorWasFar(t, way, 0, |way| - 1, i);
    assert way[l] in way && way[i] in way && way[r] in way;
    var a, p, b := t.coords[way[l]], t.coords[way[i]], t.coords[way[r]];
    if InInnerCorridor(a, p, b) {
      InnerCorridorIsClose(a, p, b);
    }
  }

  /** All nodes between a and b lie in the inner corridor of these two. */
  ghost predicate Straight(t: NodeTable, way: seq<NodeId>, a: nat, b: nat)
    requires a < b < |way| && t.Knows(way)
  {
    forall j | a < j < b :: InInnerCorridor(t.coords[way[a]], t.coords[way[j]], t.coords[way[b]])
  }

  /** Of a straight stretch exactly the nodes that are needed survive. */
  lemma StraightStretch(t: NodeTable, way: seq<NodeId>, a: nat, b: nat, i: nat)
    requires t.metric == ToSegment
    requires a < i < b < |way| && t.Knows(way) && Straight(t, way, a, b)
    ensures Survives(t, way, a, b, i) <==> t.uses[way[i]] != 0
  {
    if Splits(t, way, a, b) {
      var d := SplitPoint(t, way, a, b);
      FarthestMeaning(t, way, a, b, b);
      assert way[a] in way && way[d] in way && way[b] in way;
      InnerCorridorIsClose(t.coords[way[a]], t.coords[way[d]], t.coords[way[b]]);
    }
  }

  /** Of a straight way only the ends and the nodes that are needed are stored. */
  lemma StraightWay(t: NodeTable, way: seq<NodeId>, i: nat)
    requires t.metric == ToSegment
    requires i < |way| && |way| >= 2 && t.Knows(way) && Straight(t, way, 0, |way| - 1)
    ensures Keeps(t, way, i) <==> i == 0 || i == |way| - 1 || t.uses[way[i]] != 0
  {
    if 0 < i < |way| - 1 {
      StraightStretch(t, way, 0, |way| - 1, i);
    }
  }
}
