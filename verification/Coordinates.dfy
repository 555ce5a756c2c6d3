/** Points on the decimetre grid and the integer division of C++. */
module Coordinates {

  datatype Coord = Coord(x: int, y: int)

  const INT32_LIMIT := 0x8000_0000

  predicate FitsInt32(n: int) {
    -INT32_LIMIT <= n < INT32_LIMIT
  }

  function Min(a: int, b: int): int {
    if a <= b then a else b
  }

  function Max(a: int, b: int): int {
    if a <= b then b else a
  }

  function Abs(a: int): nat {
    if a < 0 then -a else a
  }

  /** The quotient rounded toward zero, whatever the signs (Dafny's own `/` is Euclidean). */
  function TruncDiv(n: int, d: int): int
    requires d != 0
  {
    var q := Abs(n) / Abs(d);
    if (n < 0) == (d < 0) then q else -q
  }

  /** n / d < s, written without division. */
  predicate RatioBelow(n: int, d: int, s: int)
    requires d != 0
  {
    if d > 0 then n < s * d else n > s * d
  }

  /** n / d <= s, written without division. */
  predicate RatioAtMost(n: int, d: int, s: int)
    requires d != 0
  {
    if d > 0 then n <= s * d else n >= s * d
  }

  lemma MulMono(i: int, j: int, b: nat)
    requires i <= j
    ensures i * b <= j * b
  {
  }

  /** Comparing a floored quotient of naturals with an integer is comparing the exact quotient. */
  lemma FloorBelow(a: nat, b: nat, s: int)
    requires 0 < b
    ensures a / b < s <==> a < s * b
    ensures a / b <= s <==> a < (s + 1) * b
  {
    var k := a / b;
    assert k * b <= a < (k + 1) * b;
    if k < s {
      MulMono(k + 1, s, b);
    } else {
      MulMono(s, k, b);
    }
    if k <= s {
      MulMono(k + 1, s + 1, b);
    } else {
      MulMono(s + 1, k, b);
    }
  }

  /**
   * Comparing the truncated quotient with an integer gives the exact answer, except when the
   * exact quotient is negative and lies strictly between s - 1 and s.
   */
  lemma TruncBelow(n: int, d: int, s: int)
    requires d != 0
    ensures TruncDiv(n, d) < s <==> RatioBelow(n, d, s) && (RatioBelow(n, d, 0) ==> RatioAtMost(n, d, s - 1))
  {
    var a, b := Abs(n), Abs(d);
    ScaledSign(s, d);
    ScaledSign(s - 1, d);
    if (n < 0) == (d < 0) {
      FloorBelow(a, b, s);
    } else {
      FloorBelow(a, b, -s);
      assert (-s + 1) * b == -((s - 1) * b) && (s - 1) * b == s * b - b;
    }
  }

  lemma ScaledSign(s: int, d: int)
    ensures s * d == if d < 0 then -(s * Abs(d)) else s * Abs(d)
  {
  }

  lemma AbsTimes(a: int, b: int)
    ensures Abs(a * b) == Abs(a) * Abs(b)
  {
    if a < 0 {
      assert a * b == -((-a) * b);
    }
  }

  lemma ProductSign(a: int, b: int)
    ensures a * b < 0 <==> a < 0 < b || b < 0 < a
    ensures a * b == 0 <==> a == 0 || b == 0
  {
  }

  lemma FractionOfLength(f: nat, d: nat, w: nat)
    requires 0 < d && f <= d
    ensures 0 <= f * w / d <= w
  {
    MulMono(f, d, w);
    assert f * w < (w + 1) * d;
    FloorBelow(f * w, d, w);
  }

  /** A fraction f / d between 0 and 1 of an extent w, truncated, stays between 0 and w. */
  lemma FractionOfExtent(f: int, d: int, w: int)
    requires d != 0 && (0 <= f <= d || d <= f <= 0)
    ensures Min(0, w) <= TruncDiv(f * w, d) <= Max(0, w)
  {
    FractionOfLength(Abs(f), Abs(d), Abs(w));
    TruncOfProduct(f, w, d);
    ProductSign(f, w);
  }

  lemma TruncOfProduct(f: int, w: int, d: int)
    requires d != 0
    ensures Abs(TruncDiv(f * w, d)) == Abs(f) * Abs(w) / Abs(d)
    ensures f * w == 0 ==> TruncDiv(f * w, d) == 0
    ensures TruncDiv(f * w, d) < 0 ==> (f * w < 0) != (d < 0)
    ensures TruncDiv(f * w, d) > 0 ==> (f * w < 0) == (d < 0)
  {
    AbsTimes(f, w);
    assert Abs(f * w) / Abs(d) >= 0;
  }
}
