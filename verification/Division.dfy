/** Quotient and remainder. */
module Division {

  lemma SmallMultiple(e: int, d: int)
    requires -d < e * d < d
    ensures e == 0
  {
  }

  /** Quotient and remainder are determined by what they add up to. */
  lemma QuotientIs(n: int, d: nat, q: int, r: nat)
    requires r < d && n == q * d + r
    ensures n / d == q && n % d == r
  {
    var e: int := n / d;
    assert n == e * d + n % d;
    assert (e - q) * d == r - n % d;
    SmallMultiple(e - q, d);
  }
}
