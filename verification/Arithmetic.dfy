/** Facts about products and quotients. */
module Arithmetic {

  lemma MulMono(a: int, b: int, s: int)
    requires a <= b && s >= 0
    ensures a * s <= b * s
  {
  }

  lemma DivTimes(a: nat, d: nat)
    requires d > 0
    ensures a / d * d <= a < (a / d + 1) * d
  {
    assert a == a / d * d + a % d;
  }
}
