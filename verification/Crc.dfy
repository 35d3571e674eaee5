/**
  The CRC generators of crc8.h and crc16.h with the most significant bit first: a register of w
  bits, the polynomial without its top term, tables filled by doubling.
*/
module Crc {
  import opened Gf2
  import opened Arithmetic

  // ----- the register, one bit at a time

  /** One shift of the register. */
  function Step(c: nat, w: nat, p: nat): (d: nat)
    requires w > 0
    ensures d < Pow(w)
  {
    Low(Xor(2 * c, if c >= Pow(w - 1) then p else 0), w)
  }

  function Steps(n: nat, c: nat, w: nat, p: nat): nat
    requires w > 0
  {
    if n == 0 then c else Steps(n - 1, Step(c, w, p), w, p)
  }

  /** Message bits enter at the top: the k low bits of v, the highest first. */
  function Feed(c: nat, v: nat, k: nat, w: nat, p: nat): nat
    requires w > 0
    decreases k
  {
    if k == 0 then c
    else
      var bit := if v >= Pow(k - 1) then 1 else 0;
      Feed(Step(Xor(c, Shl(bit, w - 1)), w, p), Low(v, k - 1), k - 1, w, p)
  }

  /** The CRC of a message, bit by bit. */
  function Serial(c: nat, data: seq<u8>, w: nat, p: nat): nat
    requires w > 0
    decreases |data|
  {
    if data == [] then c else Serial(Feed(c, data[0], 8, w, p), data[1..], w, p)
  }

  // ----- division by the polynomial with its top term

  /** A shift is a step of long division: the bit that leaves the register takes the whole polynomial
      with it. */
  lemma StepReduces(c: nat, w: nat, p: nat)
    requires w > 0 && c < Pow(w) && p < Pow(w)
    ensures Step(c, w, p) == if c >= Pow(w - 1) then Xor(2 * c, Pow(w) + p) else 2 * c
  {
    hide Xor, Low, Shl;
    assert Pow(w) == 2 * Pow(w - 1);
    if c >= Pow(w - 1) {
      var low := 2 * (c - Pow(w - 1));
      ShlOne(w);
      XorDisjoint(1, low, w);
      XorDisjoint(1, p, w);
      XorSwap(Pow(w), low, Pow(w), p);
      XorSelf(Pow(w));
      XorZero(Xor(low, p));
      XorTruncates(2 * c, p, w);
      LowIsMod(2 * c, w);
      Arithmetic.Remainder(2 * c, Pow(w), 1, low);
      LowSmall(p, w);
    } else {
      XorZero(2 * c);
      LowSmall(2 * c, w);
    }
  }

  // ----- linearity

  lemma StepLinear(a: nat, b: nat, w: nat, p: nat)
    requires w > 0 && a < Pow(w) && b < Pow(w)
    ensures Step(Xor(a, b), w, p) == Xor(Step(a, w, p), Step(b, w, p))
  {
    var x, y := if a >= Pow(w - 1) then p else 0, if b >= Pow(w - 1) then p else 0;
    XorWidth(a, b, w);
    XorDoubles(a, b);
    XorSwap(2 * a, x, 2 * b, y);
    XorTruncates(Xor(2 * a, x), Xor(2 * b, y), w);
    XorSelf(p);
    XorZero(p);
  }

  lemma {:induction false} StepsLinear(n: nat, a: nat, b: nat, w: nat, p: nat)
    requires w > 0 && a < Pow(w) && b < Pow(w)
    ensures Steps(n, Xor(a, b), w, p) == Xor(Steps(n, a, w, p), Steps(n, b, w, p))
  {
    if n > 0 {
      StepLinear(a, b, w, p);
      StepsLinear(n - 1, Step(a, w, p), Step(b, w, p), w, p);
    }
  }

  lemma {:induction false} StepsWidth(n: nat, c: nat, w: nat, p: nat)
    requires w > 0 && c < Pow(w)
    ensures Steps(n, c, w, p) < Pow(w)
  {
    if n > 0 {
      StepsWidth(n - 1, Step(c, w, p), w, p);
    }
  }

  lemma {:induction false} LastStep(n: nat, c: nat, w: nat, p: nat)
    requires w > 0
    ensures Steps(n + 1, c, w, p) == Step(Steps(n, c, w, p), w, p)
  {
    if n > 0 {
      LastStep(n - 1, Step(c, w, p), w, p);
    }
  }

  /** While the top bit is clear a step only shifts. */
  lemma {:induction false} StepsShift(n: nat, c: nat, w: nat, p: nat)
    requires n <= w && w > 0 && c < Pow(w - n)
    ensures Steps(n, c, w, p) == Shl(c, n) < Pow(w)
  {
    ShlWidth(c, w - n, n);
    if n > 0 {
      StepShifts(c, w, n, p);
      StepsShift(n - 1, 2 * c, w, p);
      ShlAdds(c, 1, n - 1);
      assert Shl(c, 1) == 2 * c;
    }
  }

  lemma StepShifts(c: nat, w: nat, n: nat, p: nat)
    requires 0 < n <= w && c < Pow(w - n)
    ensures Step(c, w, p) == 2 * c < Pow(w - n + 1)
  {
    PowGrows(w - n, w - 1);
    PowGrows(w - n + 1, w);
    XorZero(2 * c);
    LowSmall(2 * c, w);
  }

  lemma {:induction false} PowGrows(j: nat, k: nat)
    requires j <= k
    ensures Pow(j) <= Pow(k)
  {
    if j < k {
      PowGrows(j, k - 1);
    }
  }

  lemma PowByte()
    ensures Pow(8) == 256 && Pow(7) == 128 && Pow(1) == 2 && Pow(0) == 1
  {
  }

  // ----- a byte at a time

  /** A byte entering the register. */
  function Next(c: nat, b: nat, w: nat, p: nat): nat
    requires w >= 8
  {
    Steps(8, Xor(c, Shl(b, w - 8)), w, p)
  }

  /** What the table holds for byte b. */
  function Entry(b: nat, w: nat, p: nat): nat
    requires w >= 8
  {
    Steps(8, Shl(b, w - 8), w, p)
  }

  /** Feeding k bits one by one is the same as adding them at the top first and shifting k times. */
  lemma {:induction false} FeedAtOnce(c: nat, v: nat, k: nat, w: nat, p: nat)
    requires k <= w && w > 0 && v < Pow(k) && c < Pow(w)
    ensures Feed(c, v, k, w, p) == Steps(k, Xor(c, Shl(v, w - k)), w, p)
    decreases k
  {
    hide Xor, Shl, Low, Pow, Step;
    if k == 0 {
      PowByte();
      ShlZero(w);
      XorZero(c);
    } else {
      var bit, r := if v >= Pow(k - 1) then 1 else 0, Low(v, k - 1);
      PowByte();
      TopBit(v, k, bit, w);
      var top, rest := Shl(bit, w - 1), Shl(r, w - k);
      ShlWidth(bit, 1, w - 1);
      ShlWidth(r, k - 1, w - k);
      XorAssociates(c, top, rest);
      XorWidth(c, top, w);
      PowGrows(w - 1, w);
      StepLinear(Xor(c, top), rest, w, p);
      StepShifts(rest, w, 1, p);
      ShlAdds(r, w - k, 1);
      ShlOnce(rest);
      FeedAtOnce(Step(Xor(c, top), w, p), r, k - 1, w, p);
    }
  }

  lemma ShlOnce(a: nat)
    ensures Shl(a, 1) == 2 * a
  {
  }

  lemma {:induction false} ShlZero(k: nat)
    ensures Shl(0, k) == 0
  {
    if k > 0 {
      ShlZero(k - 1);
    }
  }

  /** v is its top bit and the rest. */
  lemma TopBit(v: nat, k: nat, bit: nat, w: nat)
    requires 0 < k <= w && v < Pow(k) && bit == if v >= Pow(k - 1) then 1 else 0
    ensures Shl(v, w - k) == Xor(Shl(bit, w - 1), Shl(Low(v, k - 1), w - k))
  {
    var rest := if bit == 1 then v - Pow(k - 1) else v;
    assert rest < Pow(k - 1);
    hide Xor, Shl, Low, Pow;
    ShlOne(k - 1);
    ShlZero(k - 1);
    XorDisjoint(bit, rest, k - 1);
    LowOfSum(v, k - 1, bit, rest);
    XorShifts(Shl(bit, k - 1), rest, w - k);
    ShlAdds(bit, k - 1, w - k);
  }

  lemma LowOfSum(v: nat, k: nat, bit: nat, rest: nat)
    requires bit <= 1 && rest < Pow(k) && v == Shl(bit, k) + rest
    ensures Low(v, k) == rest
  {
    hide Xor, Low;
    XorDisjoint(bit, rest, k);
    XorTruncates(Shl(bit, k), rest, k);
    LowSmall(rest, k);
    ShlOne(k);
    ShlZero(k);
    LowOfPow(k);
    LowSmall(0, k);
    XorZero(rest);
  }

  lemma {:induction false} LowOfPow(k: nat)
    ensures Low(Pow(k), k) == 0
  {
    if k > 0 {
      LowOfPow(k - 1);
    }
  }

  lemma FeedIsNext(c: nat, b: u8, w: nat, p: nat)
    requires w >= 8 && c < Pow(w)
    ensures Feed(c, b, 8, w, p) == Next(c, b, w, p) < Pow(w)
  {
    hide Xor, Shl, Low, Steps, Pow, Feed, Step;
    PowByte();
    FeedAtOnce(c, b, 8, w, p);
    ShlWidth(b, 8, w - 8);
    XorWidth(c, Shl(b, w - 8), w);
    StepsWidth(8, Xor(c, Shl(b, w - 8)), w, p);
  }

  /** The table step: look up the top byte, shift the others. */
  lemma TableStep(c: nat, hi: nat, lo: nat, b: u8, w: nat, p: nat)
    requires w >= 8 && hi < 256 && lo < Pow(w - 8) && c == Shl(hi, w - 8) + lo
    ensures c < Pow(w) && Next(c, b, w, p) == Xor(Entry(Xor(hi, b), w, p), Shl(lo, 8))
  {
    hide Xor, Shl, Low, Steps, Pow, Step;
    PowByte();
    XorDisjoint(hi, lo, w - 8);
    XorShifts(hi, b, w - 8);
    var top := Shl(Xor(hi, b), w - 8);
    XorCommutes(Shl(hi, w - 8), lo);
    XorAssociates(lo, Shl(hi, w - 8), Shl(b, w - 8));
    XorWidth(hi, b, 8);
    ShlWidth(Xor(hi, b), 8, w - 8);
    ShlWidth(hi, 8, w - 8);
    PowGrows(w - 8, w);
    XorWidth(Shl(hi, w - 8), lo, w);
    StepsLinear(8, lo, top, w, p);
    StepsShift(8, lo, w, p);
    XorCommutes(Shl(lo, 8), Entry(Xor(hi, b), w, p));
  }

  // ----- the table

  /** Doubling the index is one more step of the register. */
  lemma EntryDoubles(b: nat, w: nat, p: nat)
    requires w >= 8 && b < 128
    ensures Entry(2 * b, w, p) == Step(Entry(b, w, p), w, p)
  {
    assert Pow(7) == 128;
    ShlWidth(b, 7, w - 8);
    StepShifts(Shl(b, w - 8), w, 1, p);
    ShlAdds(b, 1, w - 8);
    ShlAdds(b, w - 8, 1);
    assert Shl(b, 1) == 2 * b && Shl(Shl(b, w - 8), 1) == 2 * Shl(b, w - 8);
    LastStep(8, Shl(b, w - 8), w, p);
  }

  lemma EntryOfOne(w: nat, p: nat)
    requires w >= 8
    ensures Entry(1, w, p) == Step(Pow(w - 1), w, p)
  {
    ShlOne(w - 8);
    PowGrows(w - 8, w - 7);
    assert Pow(w - 7) == 2 * Pow(w - 8);
    StepsShift(7, Pow(w - 8), w, p);
    ShlAdds(1, w - 8, 7);
    ShlOne(w - 1);
    LastStep(7, Pow(w - 8), w, p);
  }

  /** Entries are linear in the index. */
  lemma EntrySum(m: nat, j: nat, w: nat, p: nat)
    requires w >= 8 && m < 8 && j < Pow(m)
    ensures Pow(m) + j < 256 && Entry(Pow(m) + j, w, p) == Xor(Entry(j, w, p), Entry(Pow(m), w, p))
  {
    hide Xor, Shl, Low, Steps, Step;
    assert Pow(m + 1) == 2 * Pow(m);
    PowByte();
    PowGrows(m + 1, 8);
    ShlOne(m);
    XorDisjoint(1, j, m);
    XorCommutes(Pow(m), j);
    XorShifts(j, Pow(m), w - 8);
    ShlWidth(j, 8, w - 8);
    ShlWidth(Pow(m), 8, w - 8);
    StepsLinear(8, Shl(j, w - 8), Shl(Pow(m), w - 8), w, p);
  }

  /** Bits above the register do not come back into it. */
  lemma RemainderStep(rem: nat, w: nat, p: nat)
    requires 0 < w <= 32
    ensures Low(Xor(Low(2 * rem, 32), if Low(rem, w) >= Pow(w - 1) then p else 0), w) == Step(Low(rem, w), w, p)
  {
    var x := if Low(rem, w) >= Pow(w - 1) then p else 0;
    XorTruncates(Low(2 * rem, 32), x, w);
    XorTruncates(2 * Low(rem, w), x, w);
    LowLow(2 * rem, 32, w);
    LowDouble(rem, w);
  }

  lemma {:induction false} LowLow(a: nat, j: nat, k: nat)
    requires k <= j
    ensures Low(Low(a, j), k) == Low(a, k)
  {
    if k > 0 {
      LowHalves(a, j);
      LowLow(a / 2, j - 1, k - 1);
    }
  }

  lemma LowDouble(a: nat, k: nat)
    requires k > 0
    ensures Low(2 * Low(a, k), k) == Low(2 * a, k)
  {
    hide Low;
    LowHalves(2 * a, k);
    LowHalves(2 * Low(a, k), k);
    LowLow(a, k, k - 1);
  }

  /** The inner loop: the entries from i to 2 * i from those below i. */
  method FillUpper(crctab: array<nat>, i: nat, remaind: nat, w: nat, ghost m: nat, ghost p: nat)
    requires 8 <= w && crctab.Length == 256 && i == Pow(m) && m < 8 && 2 * i <= 256
    requires Low(remaind, w) == Entry(i, w, p)
    requires forall k :: 0 <= k < i ==> crctab[k] == Entry(k, w, p)
    modifies crctab
    ensures forall k :: 0 <= k < 2 * i ==> crctab[k] == Entry(k, w, p)
  {
    hide Xor, Shl, Low, Steps, Step, Entry, Pow;
    var j := 0;
    while j < i
      invariant j <= i
      invariant forall k :: 0 <= k < i + j ==> crctab[k] == Entry(k, w, p)
    {
      EntrySum(m, j, w, p);
      XorTruncates(crctab[j], remaind, w);
      EntryWidth(j, w, p);
      crctab[i + j] := Low(Xor(crctab[j], remaind), w);
      j := j + 1;
    }
  }

  /** sMakeCRCTable of both headers, with the remainder in a 32-bit register. */
  method MakeCRCTable(w: nat, polynom: nat) returns (crctab: array<nat>)
    requires 8 <= w <= 32
    ensures fresh(crctab) && crctab.Length == 256
    ensures forall k :: 0 <= k < 256 ==> crctab[k] == Entry(k, w, polynom)
  {
    hide Xor, Shl, Low, Steps, Step, Entry;
    var msbit := Pow(w - 1);
    var remaind := msbit;
    crctab := new nat[256](_ => 0);
    EntryZero(w, polynom);
    ghost var m := 0;
    assert Pow(8) == 256;
    LowSmall(msbit, w);
    var i := 1;
    while i < 256
      invariant m <= 8 && i == Pow(m)
      invariant Low(remaind, w) == if m == 0 then Pow(w - 1) else Entry(Pow(m - 1), w, polynom)
      invariant forall k :: 0 <= k < i ==> crctab[k] == Entry(k, w, polynom)
      decreases 8 - m
    {
      PowOrder(m, 8);
      RemainderStep(remaind, w, polynom);
      if m == 0 {
        EntryOfOne(w, polynom);
      } else {
        PowGrows(m, 7);
        assert Pow(7) == 128;
        EntryDoubles(Pow(m - 1), w, polynom);
      }
      remaind := Xor(Low(2 * remaind, 32), if Low(remaind, w) >= msbit then polynom else 0);
      FillUpper(crctab, i, remaind, w, m, polynom);
      i := i * 2;
      m := m + 1;
    }
    PowOrder(8, m);
  }

  lemma EntryZero(w: nat, p: nat)
    requires w >= 8
    ensures Entry(0, w, p) == 0
  {
    ShlZero(w - 8);
    StepsShift(8, 0, w, p);
    ShlZero(8);
  }

  lemma EntryWidth(j: nat, w: nat, p: nat)
    requires w >= 8 && j < 256
    ensures Entry(j, w, p) < Pow(w) && Low(Entry(j, w, p), w) == Entry(j, w, p)
  {
    hide Xor, Shl, Low, Steps, Pow, Step;
    PowByte();
    ShlWidth(j, 8, w - 8);
    StepsWidth(8, Shl(j, w - 8), w, p);
    LowSmall(Entry(j, w, p), w);
  }

  lemma {:induction false} PowOrder(j: nat, k: nat)
    ensures Pow(j) < Pow(k) <==> j < k
  {
    if j > 0 && k > 0 {
      PowOrder(j - 1, k - 1);
    }
  }
}
