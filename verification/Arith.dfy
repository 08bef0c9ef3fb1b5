/** Products, quotients and remainders with a variable divisor. */
module Arith {
  import opened Basics

  function Times(a: nat, b: nat): nat {
    a * b
  }

  lemma Distribute(a: int, b: int, d: int)
    ensures (a + b) * d == a * d + b * d
  {}

  lemma MulMono(a: int, b: int, d: nat)
    requires a <= b
    ensures a * d <= b * d
  {
    assert (b - a) * d >= 0;
  }

  lemma DivMod(x: int, d: nat)
    requires d > 0
    ensures x == (x / d) * d + x % d && 0 <= x % d < d
  {}

  /** A quotient and remainder pair is the only one. */
  lemma DivModUnique(x: int, d: nat, q: int, r: int)
    requires x == q * d + r && 0 <= r < d
    ensures x / d == q && x % d == r
  {
    DivMod(x, d);
    if q != x / d {
      var lo, hi := Min(q, x / d), Max(q, x / d);
      MulMono(lo + 1, hi, d);
      Distribute(lo, 1, d);
    }
  }
}
