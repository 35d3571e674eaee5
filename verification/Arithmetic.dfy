/**
  Bytes, and division with products of variables.
*/
module Arithmetic {

  type u8 = x: nat | x < 256

  lemma ProductGrows(a: int, d: int)
    requires d > 0 && a >= 1
    ensures a * d >= d && -a * d == -(a * d)
  {
  }

  lemma SmallProduct(a: int, d: int)
    requires d > 0 && -d < a * d < d
    ensures a == 0
  {
    if a >= 1 {
      ProductGrows(a, d);
    } else if a <= -1 {
      ProductGrows(-a, d);
    }
  }

  /** Quotient and remainder are unique. */
  lemma Remainder(x: int, d: int, q: int, r: int)
    requires 0 <= r < d && x == q * d + r
    ensures x % d == r && x / d == q
  {
    assert x == (x / d) * d + x % d;
    assert (q - x / d) * d == x % d - r by {
      assert (q - x / d) * d == q * d - (x / d) * d;
    }
    SmallProduct(q - x / d, d);
  }
}
