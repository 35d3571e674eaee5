/**
  crc8 with the least significant bit first: the register shifts right and the table is filled from
  its middle downwards.
*/
module CrcLsb {
  import opened Gf2
  import opened Crc
  import opened Arithmetic

  /** One shift of the register. */
  function StepR(c: nat, p: nat): nat {
    Xor(c / 2, if c % 2 == 1 then p else 0)
  }

  function StepsR(n: nat, c: nat, p: nat): nat {
    if n == 0 then c else StepsR(n - 1, StepR(c, p), p)
  }

  /** Message bits enter at the bottom: the k low bits of v, the lowest first. */
  function FeedR(c: nat, v: nat, k: nat, p: nat): nat
    decreases k
  {
    if k == 0 then c else FeedR(StepR(Xor(c, v % 2), p), v / 2, k - 1, p)
  }

  function SerialR(c: nat, data: seq<u8>, p: nat): nat
    decreases |data|
  {
    if data == [] then c else SerialR(FeedR(c, data[0], 8, p), data[1..], p)
  }

  /** What the table holds for byte b. */
  function EntryR(b: nat, p: nat): nat { StepsR(8, b, p) }

  lemma StepRLinear(a: nat, b: nat, p: nat)
    ensures StepR(Xor(a, b), p) == Xor(StepR(a, p), StepR(b, p))
  {
    var x, y := if a % 2 == 1 then p else 0, if b % 2 == 1 then p else 0;
    XorHalves(a, b);
    XorSwap(a / 2, x, b / 2, y);
    XorSelf(p);
    XorZero(p);
  }

  lemma {:induction false} StepsRLinear(n: nat, a: nat, b: nat, p: nat)
    ensures StepsR(n, Xor(a, b), p) == Xor(StepsR(n, a, p), StepsR(n, b, p))
  {
    if n > 0 {
      StepRLinear(a, b, p);
      StepsRLinear(n - 1, StepR(a, p), StepR(b, p), p);
    }
  }

  lemma {:induction false} StepsRWidth(n: nat, c: nat, p: nat)
    requires c < 256 && p < 256
    ensures StepsR(n, c, p) < 256
  {
    if n > 0 {
      PowByte();
      XorWidth(c / 2, if c % 2 == 1 then p else 0, 8);
      StepsRWidth(n - 1, StepR(c, p), p);
    }
  }

  lemma {:induction false} LastStepR(n: nat, c: nat, p: nat)
    ensures StepsR(n + 1, c, p) == StepR(StepsR(n, c, p), p)
  {
    if n > 0 {
      LastStepR(n - 1, StepR(c, p), p);
    }
  }

  /** Feeding k bits one by one is adding them first and shifting k times. */
  lemma {:induction false} FeedRAtOnce(c: nat, v: nat, k: nat, p: nat)
    requires v < Pow(k)
    ensures FeedR(c, v, k, p) == StepsR(k, Xor(c, v), p)
    decreases k
  {
    hide Xor, StepR;
    if k == 0 {
      XorZero(c);
    } else {
      var bit, rest := v % 2, v / 2;
      FeedRAtOnce(StepR(Xor(c, bit), p), rest, k - 1, p);
      BitAndRest(v);
      XorAssociates(c, bit, 2 * rest);
      StepRLinear(Xor(c, bit), 2 * rest, p);
      StepREven(rest, p);
    }
  }

  lemma StepREven(a: nat, p: nat)
    ensures StepR(2 * a, p) == a
  {
    XorZero(a);
  }

  lemma BitAndRest(v: nat)
    ensures v == Xor(v % 2, 2 * (v / 2))
  {
    XorFromHalves(v % 2, 2 * (v / 2));
    XorZero(v / 2);
  }

  /** Halving the index is one more step of the register. */
  lemma EntryHalves(m: nat, p: nat)
    requires m < 7
    ensures EntryR(Pow(m), p) == StepR(EntryR(Pow(m + 1), p), p)
  {
    LastStepR(8, Pow(m + 1), p);
    XorZero(Pow(m));
    assert Pow(m + 1) == 2 * Pow(m);
    FirstStepR(8, Pow(m + 1), p);
  }

  lemma FirstStepR(n: nat, c: nat, p: nat)
    ensures StepsR(n + 1, c, p) == StepsR(n, StepR(c, p), p)
  {
  }

  lemma EntryOfTop(p: nat)
    ensures EntryR(128, p) == StepR(1, p)
  {
    hide StepR;
    LastStepR(7, 128, p);
    RightShift(7, p);
    PowByte();
  }

  lemma {:induction false} RightShift(m: nat, p: nat)
    ensures StepsR(m, Pow(m), p) == 1
  {
    if m > 0 {
      XorZero(Pow(m - 1));
      RightShift(m - 1, p);
    }
  }

  /** The entries at multiples of 2^m are right. */
  ghost predicate FilledAt(table: seq<nat>, m: nat, p: nat) {
    forall q: nat :: Shl(q, m) < |table| ==> table[Shl(q, m)] == EntryR(Shl(q, m), p)
  }

  /** Of the multiples of 2^m, the even ones and those below the 2n-th are right. */
  ghost predicate FilledBelow(table: seq<nat>, m: nat, n: nat, p: nat) {
    forall q: nat :: (q < 2 * n || q % 2 == 0) && Shl(q, m) < |table| ==> table[Shl(q, m)] == EntryR(Shl(q, m), p)
  }

  /** make_t<unsigned, true>::sMakeCRCTable. */
  method MakeCRCTable(polynom: u8) returns (crctab: array<nat>)
    ensures fresh(crctab) && crctab.Length == 256
    ensures forall k :: 0 <= k < 256 ==> crctab[k] == EntryR(k, polynom)
  {
    hide Xor, StepsR, StepR, FilledAt;
    var remaind := 1;
    crctab := new nat[256](_ => 0);
    PowByte();
    FilledAtStart(crctab[..], polynom);
    ghost var m := 8;
    var i := 128;
    while i > 0
      invariant 0 <= m <= 8 && i == (if m == 0 then 0 else Pow(m - 1))
      invariant remaind == if m == 8 then 1 else EntryR(Pow(m), polynom)
      invariant FilledAt(crctab[..], m, polynom)
      decreases i
    {
      if m == 8 {
        EntryOfTop(polynom);
      } else {
        EntryHalves(m - 1, polynom);
      }
      remaind := StepR(remaind, polynom);
      FillOdd(crctab, m - 1, i, remaind, polynom);
      m := m - 1;
      i := i / 2;
    }
    FilledEverywhere(crctab[..], polynom);
  }

  /** The inner loop: entries at odd multiples of i from those at even ones. */
  method FillOdd(crctab: array<nat>, ghost m: nat, i: nat, remaind: nat, ghost p: u8)
    requires crctab.Length == 256 && m <= 7 && i == Pow(m) && remaind == EntryR(i, p)
    requires FilledAt(crctab[..], m + 1, p)
    modifies crctab
    ensures FilledAt(crctab[..], m, p)
  {
    hide Xor, StepsR, Low, Shl, EntryR, FilledAt, FilledBelow;
    ghost var n: nat := 0;
    EvenPlaces(crctab[..], m, p);
    var j := 0;
    while j < 256
      invariant j == Shl(2 * n, m) <= 256
      invariant FilledBelow(crctab[..], m, n, p)
      decreases 256 - j
    {
      PlaceWithin(n, m);
      OddPlace(crctab[..], n, m, p);
      crctab[i + j] := Low(Xor(crctab[j], remaind), 8);
      j := j + 2 * i;
      n := n + 1;
    }
    AllPlaces(crctab[..], m, n, p);
  }

  lemma FilledAtStart(table: seq<nat>, p: nat)
    requires |table| == 256 && forall k :: 0 <= k < 256 ==> table[k] == 0
    ensures FilledAt(table, 8, p)
  {
    forall q: nat | Shl(q, 8) < 256 ensures table[Shl(q, 8)] == EntryR(Shl(q, 8), p) {
      PowByte();
      ShlIsTimes(q, 8);
      EntryRZero(8, p);
    }
  }

  lemma FilledEverywhere(table: seq<nat>, p: nat)
    requires |table| == 256 && FilledAt(table, 0, p)
    ensures forall k :: 0 <= k < 256 ==> table[k] == EntryR(k, p)
  {
    forall k | 0 <= k < 256 ensures table[k] == EntryR(k, p) {
      assert Shl(k, 0) == k;
    }
  }

  lemma {:induction false} EntryRZero(n: nat, p: nat)
    ensures StepsR(n, 0, p) == 0
  {
    if n > 0 {
      XorZero(0);
      EntryRZero(n - 1, p);
    }
  }

  lemma {:induction false} ShlOrder(a: nat, b: nat, m: nat)
    ensures a < b <==> Shl(a, m) < Shl(b, m)
  {
    if m > 0 {
      ShlOrder(a, b, m - 1);
    }
  }

  lemma {:induction false} ShlDouble(n: nat, m: nat)
    ensures Shl(2 * n, m) == Shl(n, m + 1) == 2 * Shl(n, m)
    ensures Shl(n + 1, m) == Shl(n, m) + Pow(m)
  {
    if m > 0 {
      ShlDouble(n, m - 1);
    }
  }

  lemma {:induction false} ShlOfPow(j: nat, k: nat)
    ensures Shl(Pow(j), k) == Pow(j + k)
  {
    if k > 0 {
      ShlOfPow(j, k - 1);
    }
  }

  lemma EvenPlaces(table: seq<nat>, m: nat, p: nat)
    requires FilledAt(table, m + 1, p)
    ensures FilledBelow(table, m, 0, p) && Shl(0, m) == 0
  {
    ShlZero(m);
    forall q: nat | q % 2 == 0 && Shl(q, m) < |table| ensures table[Shl(q, m)] == EntryR(Shl(q, m), p) {
      ShlDouble(q / 2, m);
    }
  }

  /** An even multiple below 256 leaves room for the odd one after it. */
  lemma PlaceWithin(n: nat, m: nat)
    requires m <= 7 && Shl(2 * n, m) < 256
    ensures Shl(2 * n + 1, m) == Shl(2 * n, m) + Pow(m) < 256
    ensures Shl(2 * n + 2, m) == Shl(2 * n, m) + 2 * Pow(m) <= 256
  {
    PowByte();
    ShlOfPow(7 - m, m + 1);
    ShlDouble(n, m);
    ShlDouble(2 * n, m);
    ShlDouble(2 * n + 1, m);
    ShlDouble(n + 1, m);
    ShlOrder(n, Pow(7 - m), m + 1);
    ShlOrder(Pow(7 - m), n + 1, m + 1);
  }

  lemma OddPlace(table: seq<nat>, n: nat, m: nat, p: u8)
    requires |table| == 256 && m <= 7 && Shl(2 * n, m) + Pow(m) < 256
    requires Shl(2 * n + 1, m) == Shl(2 * n, m) + Pow(m)
    requires FilledBelow(table, m, n, p)
    ensures
      var j := Shl(2 * n, m);
      FilledBelow(table[j + Pow(m) := Low(Xor(table[j], EntryR(Pow(m), p)), 8)], m, n + 1, p)
  {
    hide Xor, Low, Shl, StepsR;
    var j := Shl(2 * n, m);
    OddEntry(n, m, p);
    var after := table[j + Pow(m) := Low(Xor(table[j], EntryR(Pow(m), p)), 8)];
    forall q: nat | (q < 2 * n + 2 || q % 2 == 0) && Shl(q, m) < 256 ensures after[Shl(q, m)] == EntryR(Shl(q, m), p) {
      ShlOrder(q, 2 * n + 1, m);
      ShlOrder(2 * n + 1, q, m);
    }
  }

  lemma OddEntry(n: nat, m: nat, p: u8)
    requires m <= 7 && Shl(2 * n, m) + Pow(m) < 256
    ensures var j := Shl(2 * n, m); Low(Xor(EntryR(j, p), EntryR(Pow(m), p)), 8) == EntryR(j + Pow(m), p)
  {
    hide Xor, Low, Shl, StepsR;
    var j := Shl(2 * n, m);
    ShlDouble(n, m);
    XorDisjoint(n, Pow(m), m + 1);
    StepsRLinear(8, j, Pow(m), p);
    StepsRWidth(8, j + Pow(m), p);
    PowByte();
    LowSmall(EntryR(j + Pow(m), p), 8);
  }

  lemma AllPlaces(table: seq<nat>, m: nat, n: nat, p: nat)
    requires FilledBelow(table, m, n, p) && Shl(2 * n, m) >= |table|
    ensures FilledAt(table, m, p)
  {
    forall q: nat | Shl(q, m) < |table| ensures table[Shl(q, m)] == EntryR(Shl(q, m), p) {
      ShlOrder(q, 2 * n, m);
    }
  }

  // ----- whole buffers

  lemma ByteStepR(c: u8, b: u8, p: u8)
    ensures Xor(c, b) < 256 && FeedR(c, b, 8, p) == EntryR(Xor(c, b), p) < 256
  {
    hide Xor, FeedR, StepsR;
    PowByte();
    XorWidth(c, b, 8);
    FeedRAtOnce(c, b, 8, p);
    StepsRWidth(8, Xor(c, b), p);
  }

  /** crc8_t::sMCalcCRCofBuf with this table. */
  method CalcCrc8(crctab: array<nat>, data: seq<u8>, init: u8, polynom: u8) returns (crc: nat)
    requires crctab.Length == 256 && forall k :: 0 <= k < 256 ==> crctab[k] == EntryR(k, polynom)
    ensures crc < 256 && crc == SerialR(init, data, polynom)
  {
    hide Xor, FeedR, EntryR;
    crc := init;
    for i := 0 to |data|
      invariant crc < 256
      invariant SerialR(init, data, polynom) == SerialR(crc, data[i..], polynom)
    {
      ByteStepR(crc, data[i], polynom);
      assert data[i..][1..] == data[i + 1..];
      crc := crctab[Xor(crc, data[i])];
    }
  }

  lemma {:induction false} SerialRAppend(c: u8, data: seq<u8>, b: u8, p: u8)
    ensures SerialR(c, data, p) < 256
    ensures SerialR(c, data + [b], p) == FeedR(SerialR(c, data, p), b, 8, p)
    decreases |data|
  {
    if data == [] {
      assert data + [b] == [b] && [b][1..] == [];
    } else {
      assert (data + [b])[1..] == data[1..] + [b];
      ByteStepR(c, data[0], p);
      SerialRAppend(FeedR(c, data[0], 8, p), data[1..], b, p);
    }
  }

  /** A message followed by its crc8 always has the checking constant as its crc8. */
  lemma Crc8Residue(init: u8, data: seq<u8>, p: u8)
    ensures SerialR(init, data, p) < 256
    ensures SerialR(init, data + [SerialR(init, data, p)], p) == EntryR(Xor(init, init), p) == 0
  {
    hide Xor, FeedR, SerialR;
    SerialRAppend(init, data, 0, p);
    var crc := SerialR(init, data, p);
    SerialRAppend(init, data, crc, p);
    ByteStepR(crc, crc, p);
    XorSelf(crc);
    XorSelf(init);
    EntryRZero(8, p);
  }

  // ----- one changed byte

  /** With the top bit of the polynomial set, the bit shifted out can be told from the result. */
  lemma StepRInjective(a: u8, b: u8, p: u8)
    requires p >= 128 && a != b
    ensures StepR(a, p) != StepR(b, p)
  {
    hide Xor;
    PowByte();
    var x, y := a / 2, b / 2;
    assert Pow(7) == 128;
    XorZero(x);
    XorZero(y);
    XorWidth(x, p, 8);
    XorWidth(y, p, 8);
    XorCancels(x, y, p);
  }

  lemma {:induction false} StepsRInjective(n: nat, a: u8, b: u8, p: u8)
    requires p >= 128 && a != b
    ensures StepsR(n, a, p) != StepsR(n, b, p)
  {
    if n > 0 {
      StepsRWidth(1, a, p);
      StepsRWidth(1, b, p);
      StepRInjective(a, b, p);
      StepsRInjective(n - 1, StepR(a, p), StepR(b, p), p);
    }
  }

  /** The register differs after different registers take the same byte, or one register takes
      different bytes. */
  lemma FeedRDiffers(a: u8, b: u8, x: u8, y: u8, p: u8)
    requires p >= 128 && (a == b) != (x == y)
    ensures FeedR(a, x, 8, p) != FeedR(b, y, 8, p)
    ensures FeedR(a, x, 8, p) < 256 && FeedR(b, y, 8, p) < 256
  {
    hide Xor, FeedR, StepsR;
    ByteStepR(a, x, p);
    ByteStepR(b, y, p);
    if x == y {
      XorCancels(a, b, x);
    } else {
      XorCommutes(a, x);
      XorCommutes(a, y);
      XorCancels(x, y, a);
    }
    StepsRInjective(8, Xor(a, x), Xor(b, y), p);
  }

  lemma {:induction false} SerialRInjective(a: u8, b: u8, data: seq<u8>, p: u8)
    requires p >= 128 && a != b
    ensures SerialR(a, data, p) != SerialR(b, data, p)
    decreases |data|
  {
    hide FeedR;
    if data != [] {
      FeedRDiffers(a, b, data[0], data[0], p);
      SerialRInjective(FeedR(a, data[0], 8, p), FeedR(b, data[0], 8, p), data[1..], p);
    }
  }

  /** Then no change of a single byte goes unnoticed, anywhere in a buffer of any length. */
  lemma {:induction false} OneByteIsNoticed(c: u8, pre: seq<u8>, x: u8, y: u8, post: seq<u8>, p: u8)
    requires p >= 128 && x != y
    ensures SerialR(c, pre + [x] + post, p) != SerialR(c, pre + [y] + post, p)
    decreases |pre|
  {
    hide FeedR;
    if pre == [] {
      assert ([x] + post)[1..] == post && ([y] + post)[1..] == post;
      assert pre + [x] + post == [x] + post && pre + [y] + post == [y] + post;
      FeedRDiffers(c, c, x, y, p);
      SerialRInjective(FeedR(c, x, 8, p), FeedR(c, y, 8, p), post, p);
    } else {
      assert (pre + [x] + post)[1..] == pre[1..] + [x] + post;
      assert (pre + [y] + post)[1..] == pre[1..] + [y] + post;
      ByteStepR(c, pre[0], p);
      OneByteIsNoticed(FeedR(c, pre[0], 8, p), pre[1..], x, y, post, p);
    }
  }

  /** Without that bit some byte can always be replaced by another one unnoticed. */
  lemma LowPolynomialMisses(c: u8, p: u8) returns (x: u8, y: u8)
    requires p < 128
    ensures x != y && SerialR(c, [x], p) == SerialR(c, [y], p)
  {
    hide Xor, FeedR, StepsR;
    PowByte();
    var kernel := 2 * p + 1;
    XorWidth(c, kernel, 8);
    x, y := Xor(c, kernel), c;
    SerialROne(c, x, p);
    SerialROne(c, y, p);
    ByteStepR(c, x, p);
    ByteStepR(c, y, p);
    XorSelf(c);
    XorAssociates(c, c, kernel);
    XorZero(kernel);
    KernelEntryR(p);
    if x == y {
      XorSelf(c);
    }
  }

  lemma SerialROne(c: u8, x: u8, p: u8)
    ensures SerialR(c, [x], p) == FeedR(c, x, 8, p)
  {
    assert [x][1..] == [];
  }

  lemma KernelEntryR(p: u8)
    ensures EntryR(2 * p + 1, p) == 0 == EntryR(0, p)
  {
    hide Xor;
    XorSelf(p);
    assert StepR(2 * p + 1, p) == 0;
    FirstStepR(7, 2 * p + 1, p);
    EntryRZero(7, p);
    EntryRZero(8, p);
  }
}
