/**
  Exclusive or on natural numbers of any width, as addition without carries, and its relation to
  shifts and powers of two.
*/
module Gf2 {
  import Arithmetic

  function Xor(a: nat, b: nat): (c: nat)
    decreases a + b
  {
    if a == 0 then b
    else if b == 0 then a
    else 2 * Xor(a / 2, b / 2) + (if a % 2 == b % 2 then 0 else 1)
  }

  function Pow(k: nat): (p: nat)
    ensures p >= 1
  {
    if k == 0 then 1 else 2 * Pow(k - 1)
  }

  /** The halves of an exclusive or are exclusive ors. */
  lemma XorHalves(a: nat, b: nat)
    ensures Xor(a, b) / 2 == Xor(a / 2, b / 2)
    ensures Xor(a, b) % 2 == if a % 2 == b % 2 then 0 else 1
  {
  }

  lemma {:induction false} XorZero(a: nat)
    ensures Xor(a, 0) == a == Xor(0, a)
  {
  }

  lemma {:induction false} XorSelf(a: nat)
    ensures Xor(a, a) == 0
  {
    if a > 0 {
      XorSelf(a / 2);
    }
  }

  lemma {:induction false} XorCommutes(a: nat, b: nat)
    ensures Xor(a, b) == Xor(b, a)
    decreases a + b
  {
    if a > 0 && b > 0 {
      XorCommutes(a / 2, b / 2);
    }
  }

  lemma {:induction false} XorAssociates(a: nat, b: nat, c: nat)
    ensures Xor(Xor(a, b), c) == Xor(a, Xor(b, c))
    decreases a + b + c
  {
    if a > 0 && b > 0 && c > 0 {
      XorAssociates(a / 2, b / 2, c / 2);
      XorHalves(a, b);
      XorHalves(b, c);
      XorFromHalves(Xor(a, b), c);
      XorFromHalves(a, Xor(b, c));
    }
  }

  lemma XorFromHalves(a: nat, b: nat)
    ensures Xor(a, b) == 2 * Xor(a / 2, b / 2) + (if a % 2 == b % 2 then 0 else 1)
  {
  }

  /** Four terms in any pairing. */
  lemma XorSwap(a: nat, b: nat, c: nat, d: nat)
    ensures Xor(Xor(a, b), Xor(c, d)) == Xor(Xor(a, c), Xor(b, d))
  {
    XorAssociates(a, b, Xor(c, d));
    XorAssociates(b, c, d);
    XorCommutes(b, c);
    XorAssociates(c, b, d);
    XorAssociates(a, c, Xor(b, d));
  }

  lemma {:induction false} XorCancels(a: nat, b: nat, c: nat)
    ensures Xor(a, c) == Xor(b, c) <==> a == b
  {
    XorAssociates(a, c, c);
    XorAssociates(b, c, c);
    XorSelf(c);
    XorZero(a);
    XorZero(b);
  }

  lemma XorDoubles(a: nat, b: nat)
    ensures Xor(2 * a, 2 * b) == 2 * Xor(a, b)
  {
    XorFromHalves(2 * a, 2 * b);
  }

  /** `a << k`. */
  function Shl(a: nat, k: nat): nat {
    if k == 0 then a else 2 * Shl(a, k - 1)
  }

  /** The low k bits of `a`. */
  function Low(a: nat, k: nat): (r: nat)
    ensures r < Pow(k)
  {
    if k == 0 then 0 else a % 2 + 2 * Low(a / 2, k - 1)
  }

  lemma {:induction false} ShlIsTimes(a: nat, k: nat)
    ensures Shl(a, k) == a * Pow(k)
  {
    if k > 0 {
      ShlIsTimes(a, k - 1);
      assert a * Pow(k) == 2 * (a * Pow(k - 1));
    }
  }

  lemma LowHalves(a: nat, k: nat)
    requires k > 0
    ensures Low(a, k) / 2 == Low(a / 2, k - 1) && Low(a, k) % 2 == a % 2
  {
  }

  lemma {:induction false} LowSplits(a: nat, k: nat) returns (q: nat)
    ensures a == q * Pow(k) + Low(a, k)
  {
    if k == 0 {
      q := a;
    } else {
      q := LowSplits(a / 2, k - 1);
      assert q * Pow(k) == 2 * (q * Pow(k - 1));
    }
  }

  lemma LowIsMod(a: nat, k: nat)
    ensures Low(a, k) == a % Pow(k)
  {
    var q := LowSplits(a, k);
    Arithmetic.Remainder(a, Pow(k), q, Low(a, k));
  }

  lemma {:induction false} LowSmall(a: nat, k: nat)
    requires a < Pow(k)
    ensures Low(a, k) == a
  {
    if k > 0 {
      LowSmall(a / 2, k - 1);
    }
  }

  lemma {:induction false} XorShifts(a: nat, b: nat, k: nat)
    ensures Xor(Shl(a, k), Shl(b, k)) == Shl(Xor(a, b), k)
  {
    if k > 0 {
      XorShifts(a, b, k - 1);
      XorDoubles(Shl(a, k - 1), Shl(b, k - 1));
    }
  }

  lemma {:induction false} ShlAdds(a: nat, j: nat, k: nat)
    ensures Shl(Shl(a, j), k) == Shl(a, j + k)
  {
    if k > 0 {
      ShlAdds(a, j, k - 1);
    }
  }

  lemma {:induction false} ShlWidth(a: nat, j: nat, k: nat)
    requires a < Pow(j)
    ensures Shl(a, k) < Pow(j + k)
  {
    if k > 0 {
      ShlWidth(a, j, k - 1);
    }
  }

  lemma {:induction false} ShlOne(j: nat)
    ensures Shl(1, j) == Pow(j)
  {
    if j > 0 {
      ShlOne(j - 1);
    }
  }

  /** The width does not grow, and the top bit is the exclusive or of the top bits. */
  lemma {:induction false} XorWidth(a: nat, b: nat, w: nat)
    requires a < Pow(w) && b < Pow(w)
    ensures Xor(a, b) < Pow(w)
    ensures w > 0 ==> (Xor(a, b) >= Pow(w - 1) <==> (a >= Pow(w - 1)) != (b >= Pow(w - 1)))
  {
    if w > 0 {
      XorWidth(a / 2, b / 2, w - 1);
      XorFromHalves(a, b);
      if w > 1 {
        assert Pow(w - 1) == 2 * Pow(w - 2);
      }
    }
  }

  /** Bits that do not overlap add. */
  lemma {:induction false} XorDisjoint(a: nat, r: nat, k: nat)
    requires r < Pow(k)
    ensures Xor(Shl(a, k), r) == Shl(a, k) + r
  {
    if k == 0 {
      XorZero(a);
    } else {
      XorDisjoint(a, r / 2, k - 1);
      XorFromHalves(Shl(a, k), r);
    }
  }

  /** Truncation distributes. */
  lemma {:induction false} XorTruncates(a: nat, b: nat, k: nat)
    ensures Low(Xor(a, b), k) == Xor(Low(a, k), Low(b, k))
  {
    hide Low, Xor;
    if k == 0 {
      TruncatesToNothing(a, b);
    } else {
      XorTruncates(a / 2, b / 2, k - 1);
      XorHalves(a, b);
      LowHalves(a, k);
      LowHalves(b, k);
      LowHalves(Xor(a, b), k);
      XorHalves(Low(a, k), Low(b, k));
    }
  }

  lemma TruncatesToNothing(a: nat, b: nat)
    ensures Low(Xor(a, b), 0) == Xor(Low(a, 0), Low(b, 0))
  {
  }
}
