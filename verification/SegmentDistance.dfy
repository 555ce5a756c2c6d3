/** The squared distance from a point to a segment, with the nearest point rounded to the grid. */
module SegmentDistance {
  import opened Coordinates

  /** The conversion from double to int: the fraction is dropped, toward zero. */
  function TruncReal(r: real): int {
    if r >= 0.0 then r.Floor else -((-r).Floor)
  }

  function Norm(dx: int, dy: int): (n: nat)
    ensures n == 0 <==> dx == 0 && dy == 0
  {
    assert dx * dx >= 0 && dy * dy >= 0;
    assert dx != 0 ==> dx * dx > 0;
    assert dy != 0 ==> dy * dy > 0;
    dx * dx + dy * dy
  }

  function SquareDistance(p: Coord, q: Coord): (n: nat)
    ensures n == 0 <==> p == q
  {
    Norm(p.x - q.x, p.y - q.y)
  }

  /** The scalar product of the vectors from a to p and from a to b. */
  function Along(a: Coord, p: Coord, b: Coord): int {
    (p.x - a.x) * (b.x - a.x) + (p.y - a.y) * (b.y - a.y)
  }

  function Fraction(n: int, d: int): real
    requires d != 0
  {
    n as real / d as real
  }

  /** Where the perpendicular through p meets the line from a to b: 0 at a, 1 at b. */
  function Position(a: Coord, p: Coord, b: Coord): real
    requires a != b
  {
    Fraction(Along(a, p, b), SquareDistance(a, b))
  }

  /** The fraction t of an extent w. */
  function Part(t: real, w: int): real {
    t * w as real
  }

  /** The grid point taken for the point at fraction t between a and b. */
  function Foot(a: Coord, b: Coord, t: real): Coord {
    Coord(a.x + TruncReal(Part(t, b.x - a.x) + 0.5), a.y + TruncReal(Part(t, b.y - a.y) + 0.5))
  }

  function ToSegment(a: Coord, p: Coord, b: Coord): nat {
    if a == b then SquareDistance(a, p)
    else
      var t := Position(a, p, b);
      if t < 0.0 then SquareDistance(a, p)
      else if t > 1.0 then SquareDistance(b, p)
      else SquareDistance(Foot(a, b, t), p)
  }

  // ----- rounding

  /**
   * Rounding part of an extent w stays within it and is off by less than 1.5, by at most 0.5 where w is not negative.
   */
  lemma RoundedPart(t: real, w: int)
    requires 0.0 <= t <= 1.0
    ensures var r := TruncReal(Part(t, w) + 0.5);
            && Min(0, w) <= r <= Max(0, w)
            && -1.5 < r as real - Part(t, w) < 1.5
            && (w >= 0 ==> -0.5 <= r as real - Part(t, w) <= 0.5)
  {
    PartWithin(t, w);
  }

  lemma PartWithin(t: real, w: int)
    requires 0.0 <= t <= 1.0
    ensures if w >= 0 then 0.0 <= Part(t, w) <= w as real else w as real <= Part(t, w) <= 0.0
  {
    if w >= 0 {
      PartOfReal(t, w as real);
    } else {
      PartOfReal(t, (-w) as real);
      assert Part(t, w) == -Part(t, -w);
    }
  }

  lemma PartOfReal(t: real, x: real)
    requires 0.0 <= t <= 1.0 && 0.0 <= x
    ensures 0.0 <= t * x <= x
  {
  }

  lemma Monotone(x: real, y: real, z: real)
    requires x <= y && 0.0 <= z
    ensures x * z <= y * z
  {
  }

  // ----- the corridor

  /** The exact squared distance from p to the point at fraction s between a and b. */
  ghost function ExactSquare(a: Coord, b: Coord, s: real, p: Coord): real {
    var ex := a.x as real + Part(s, b.x - a.x) - p.x as real;
    var ey := a.y as real + Part(s, b.y - a.y) - p.y as real;
    ex * ex + ey * ey
  }

  /** p is at most sqrt(490) decimetres away from the exact segment between a and b. */
  ghost predicate InCorridor(a: Coord, p: Coord, b: Coord) {
    exists s: real :: 0.0 <= s <= 1.0 && ExactSquare(a, b, s, p) <= 490.0
  }

  lemma SquareNonNegative(u: real)
    ensures u * u >= 0.0
  {
  }

  /** Moving a point by at most 1.5 on each axis takes a square distance of 400 to at most 490. */
  lemma Displaced(u: real, v: real, e: real, f: real)
    requires u * u + v * v <= 400.0
    requires -1.5 <= e <= 1.5 && -1.5 <= f <= 1.5
    ensures (u + e) * (u + e) + (v + f) * (v + f) <= 490.0
  {
    // 2ue <= ku^2 + e^2/k for every k > 0; k = 0.106 is near the optimum
    CrossTerm(u, e);
    CrossTerm(v, f);
    SmallSquare(e);
    SmallSquare(f);
    assert (u + e) * (u + e) == u * u + 2.0 * (u * e) + e * e;
    assert (v + f) * (v + f) == v * v + 2.0 * (v * f) + f * f;
  }

  lemma SmallSquare(e: real)
    requires -1.5 <= e <= 1.5
    ensures e * e <= 2.25
  {
    if e >= 0.0 {
      Monotone(e, 1.5, e);
    } else {
      var d := -e;
      Monotone(d, 1.5, d);
      SquareOfOpposite(e, d);
    }
  }

  lemma SquareOfOpposite(e: real, d: real)
    requires d == -e
    ensures e * e == d * d
  {
  }

  lemma CrossTerm(u: real, e: real)
    requires -1.5 <= e <= 1.5
    ensures 2.0 * (u * e) <= 0.106 * (u * u) + 21.25
  {
    SquareNonNegative(0.106 * u - e);
    SmallSquare(e);
    assert (0.106 * u - e) * (0.106 * u - e) == 0.106 * (0.106 * (u * u)) - 0.106 * (2.0 * (u * e)) + e * e;
  }

  lemma IntSquares(x: int, y: int)
    ensures Norm(x, y) as real == x as real * x as real + y as real * y as real
  {
    assert (x * x) as real == x as real * x as real;
    assert (y * y) as real == y as real * y as real;
  }

  /** A point the program takes to be within 20 decimetres of a segment lies in the exact corridor. */
  lemma CloseIsInCorridor(a: Coord, p: Coord, b: Coord)
    requires ToSegment(a, p, b) <= 400
    ensures InCorridor(a, p, b)
  {
    if a == b || Position(a, p, b) < 0.0 {
      NearEnd(a, p, b, 0.0, a);
    } else if Position(a, p, b) > 1.0 {
      NearEnd(a, p, b, 1.0, b);
    } else {
      FootIsInCorridor(a, p, b, Position(a, p, b));
    }
  }

  lemma NearEnd(a: Coord, p: Coord, b: Coord, s: real, end: Coord)
    requires (s == 0.0 && end == a) || (s == 1.0 && end == b)
    requires SquareDistance(end, p) <= 400
    ensures ExactSquare(a, b, s, p) <= 490.0
  {
    var x, y := end.x - p.x, end.y - p.y;
    assert Part(s, b.x - a.x) == (end.x - a.x) as real && Part(s, b.y - a.y) == (end.y - a.y) as real;
    ExactParts(a, b, s, p, x as real, y as real);
    IntSquares(x, y);
  }

  lemma FootIsInCorridor(a: Coord, p: Coord, b: Coord, t: real)
    requires 0.0 <= t <= 1.0 && SquareDistance(Foot(a, b, t), p) <= 400
    ensures ExactSquare(a, b, t, p) <= 490.0
  {
    var foot := Foot(a, b, t);
    var u, v := (foot.x - p.x) as real, (foot.y - p.y) as real;
    assert u * u + v * v <= 400.0 by {
      IntSquares(foot.x - p.x, foot.y - p.y);
    }
    var e := FootError(t, a.x, b.x);
    var f := FootError(t, a.y, b.y);
    Displaced(u, v, e, f);
    ExactParts(a, b, t, p, u + e, v + f);
  }

  /** How far the exact point is from its rounded coordinate. */
  lemma FootError(t: real, a: int, b: int) returns (e: real)
    requires 0.0 <= t <= 1.0
    ensures -1.5 <= e <= 1.5
    ensures e == Part(t, b - a) - TruncReal(Part(t, b - a) + 0.5) as real
  {
    RoundedPart(t, b - a);
    e := Part(t, b - a) - TruncReal(Part(t, b - a) + 0.5) as real;
  }

  lemma ExactParts(a: Coord, b: Coord, s: real, p: Coord, x: real, y: real)
    requires x == (a.x - p.x) as real + Part(s, b.x - a.x)
    requires y == (a.y - p.y) as real + Part(s, b.y - a.y)
    ensures ExactSquare(a, b, s, p) == x * x + y * y
  {
  }

  // ----- machine integers

  /** Any two of the points differ by no more than this on each axis: about 3.2 kilometers. */
  const REACH := 0x7fff

  predicate Near(p: Coord, q: Coord) {
    Abs(p.x - q.x) <= REACH && Abs(p.y - q.y) <= REACH
  }

  lemma ProductBound(u: int, v: int)
    requires Abs(u) <= REACH && Abs(v) <= REACH
    ensures Abs(u * v) <= REACH * REACH
  {
    AbsTimes(u, v);
    MulMono(Abs(u), REACH, Abs(v));
    MulMono(Abs(v), REACH, REACH);
  }

  /** Both squares and their sum fit. */
  predicate SquareFits(p: Coord, q: Coord) {
    && FitsInt32((p.x - q.x) * (p.x - q.x)) && FitsInt32((p.y - q.y) * (p.y - q.y))
    && FitsInt32(SquareDistance(p, q))
  }

  lemma SquareBound(p: Coord, q: Coord)
    requires Near(p, q)
    ensures SquareFits(p, q)
  {
    ProductBound(p.x - q.x, p.x - q.x);
    ProductBound(p.y - q.y, p.y - q.y);
  }

  /** Both products and their sum fit. */
  predicate AlongFits(a: Coord, p: Coord, b: Coord) {
    && FitsInt32((p.x - a.x) * (b.x - a.x)) && FitsInt32((p.y - a.y) * (b.y - a.y))
    && FitsInt32(Along(a, p, b))
  }

  lemma AlongBound(a: Coord, p: Coord, b: Coord)
    requires Near(p, a) && Near(b, a)
    ensures AlongFits(a, p, b)
  {
    ProductBound(p.x - a.x, b.x - a.x);
    ProductBound(p.y - a.y, b.y - a.y);
  }

  /** The rounded foot point lies in the box of the segment. */
  lemma FootWithin(a: Coord, b: Coord, t: real)
    requires 0.0 <= t <= 1.0
    ensures Min(a.x, b.x) <= Foot(a, b, t).x <= Max(a.x, b.x)
    ensures Min(a.y, b.y) <= Foot(a, b, t).y <= Max(a.y, b.y)
  {
    RoundedPart(t, b.x - a.x);
    RoundedPart(t, b.y - a.y);
  }

  /**
   * Points this near to each other are measured without leaving 32-bit ints: every product, every sum and the result.
   */
  lemma NoOverflow(a: Coord, p: Coord, b: Coord)
    requires Near(p, a) && Near(p, b) && Near(b, a)
    ensures AlongFits(a, p, b) && SquareFits(a, b) && SquareFits(a, p) && SquareFits(b, p)
    ensures forall t: real | 0.0 <= t <= 1.0 ::
              Min(a.x, b.x) <= Foot(a, b, t).x <= Max(a.x, b.x) && Min(a.y, b.y) <= Foot(a, b, t).y <= Max(a.y, b.y)
    ensures forall t: real | 0.0 <= t <= 1.0 :: SquareFits(Foot(a, b, t), p)
    ensures FitsInt32(ToSegment(a, p, b))
  {
    AlongBound(a, p, b);
    SquareBound(a, b);
    SquareBound(a, p);
    SquareBound(b, p);
    forall t: real | 0.0 <= t <= 1.0
      ensures Min(a.x, b.x) <= Foot(a, b, t).x <= Max(a.x, b.x) && Min(a.y, b.y) <= Foot(a, b, t).y <= Max(a.y, b.y)
      ensures SquareFits(Foot(a, b, t), p)
    {
      FootWithin(a, b, t);
      SquareBound(Foot(a, b, t), p);
    }
  }
}
