/** Facts about products and quotients. */
module Arithmetic {

  lemma MulMonotone(a: int, b: int, c: nat)
    ensures a <= b ==> a * c <= b * c
  {
  }

  /** Division is determined by quotient and remainder. */
  lemma DivMod(n: int, d: int, q: int, r: int)
    requires 0 <= r < d && n == d * q + r
    ensures n / d == q && n % d == r
  {
    var e := n / d - q;
    assert e * d == r - n % d;
    MulMonotone(1, e, d);
    MulMonotone(e, -1, d);
  }
}
