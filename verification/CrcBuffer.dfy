/**
  Checksums of whole buffers by table, against the bit-serial register; what appending the checksum
  does; which errors it cannot miss.
*/
module CrcBuffer {
  import opened Gf2
  import opened Crc
  import opened Arithmetic

  // ----- table-driven CRC equals the bit-serial one

  /** crc8_t::sMCalcCRCofBuf. */
  method CalcCrc8(crctab: array<nat>, data: seq<u8>, init: u8, polynom: nat) returns (crc: nat)
    requires crctab.Length == 256 && forall k :: 0 <= k < 256 ==> crctab[k] == Entry(k, 8, polynom)
    ensures crc < 256 && crc == Serial(init, data, 8, polynom)
  {
    crc := init;
    for i := 0 to |data|
      invariant crc < 256
      invariant Serial(init, data, 8, polynom) == Serial(crc, data[i..], 8, polynom)
    {
      ByteStep8(crc, data[i], polynom);
      assert data[i..][1..] == data[i + 1..];
      crc := crctab[Xor(crc, data[i])];
    }
  }

  lemma ByteStep8(c: u8, b: u8, p: nat)
    ensures Xor(c, b) < 256 && Feed(c, b, 8, 8, p) == Entry(Xor(c, b), 8, p) < 256
  {
    hide Xor, Feed, Steps, Shl, Pow, Step;
    PowByte();
    XorWidth(c, b, 8);
    FeedIsNext(c, b, 8, p);
    ShlNone(b);
    ShlNone(Xor(c, b));
  }

  lemma ShlNone(a: nat)
    ensures Shl(a, 0) == a
  {
  }

  /** crc16_t::sMCalcCRCofBuf. */
  method CalcCrc16(crctab: array<nat>, data: seq<u8>, init: nat, polynom: nat) returns (crc: nat)
    requires init < 0x1_0000
    requires crctab.Length == 256 && forall k :: 0 <= k < 256 ==> crctab[k] == Entry(k, 16, polynom)
    ensures crc < 0x1_0000 && crc == Serial(init, data, 16, polynom)
  {
    hide Xor, Feed, Entry;
    crc := init;
    for i := 0 to |data|
      invariant crc < 0x1_0000
      invariant Serial(init, data, 16, polynom) == Serial(crc, data[i..], 16, polynom)
    {
      ByteStep16(crc, data[i], polynom);
      assert data[i..][1..] == data[i + 1..];
      crc := Xor(crc * 256 % 0x1_0000, crctab[Xor(crc / 256, data[i]) % 256]);
    }
  }

  lemma ByteStep16(c: nat, b: u8, p: nat)
    requires c < 0x1_0000
    ensures Xor(c / 256, b) < 256
    ensures Feed(c, b, 8, 16, p) == Xor(c * 256 % 0x1_0000, Entry(Xor(c / 256, b), 16, p)) < 0x1_0000
  {
    hide Xor, Feed, Steps, Pow, Step, Next;
    PowByte();
    Pow16();
    var hi, lo := c / 256, c % 256;
    XorWidth(hi, b, 8);
    FeedIsNext(c, b, 16, p);
    Shl8(hi);
    Shl8(lo);
    TableStep(c, hi, lo, b, 16, p);
    XorCommutes(Entry(Xor(hi, b), 16, p), Shl(lo, 8));
  }

  lemma Pow16()
    ensures Pow(16) == 0x1_0000
  {
    PowByte();
    assert Pow(12) == 4096;
  }

  lemma Shl8(a: nat)
    ensures Shl(a, 8) == 256 * a
  {
    PowByte();
    ShlIsTimes(a, 8);
  }

  // ----- appending the checksum

  lemma {:induction false} SerialAppend(c: nat, data: seq<u8>, b: u8, w: nat, p: nat)
    requires w > 0
    ensures Serial(c, data + [b], w, p) == Feed(Serial(c, data, w, p), b, 8, w, p)
    decreases |data|
  {
    if data == [] {
      assert data + [b] == [b];
      SerialOne(c, b, w, p);
    } else {
      assert (data + [b])[1..] == data[1..] + [b];
      SerialAppend(Feed(c, data[0], 8, w, p), data[1..], b, w, p);
    }
  }

  lemma SerialOne(c: nat, b: u8, w: nat, p: nat)
    requires w > 0
    ensures Serial(c, [b], w, p) == Feed(c, b, 8, w, p)
  {
    assert [b][1..] == [];
  }

  /** The checking constant: the table entry of the initial value combined with itself. */
  function CheckingConstant(init: u8, polynom: nat): nat {
    Entry(Xor(init, init), 8, polynom)
  }

  /** A message followed by its crc8 always has the checking constant as its crc8, whatever the
      polynomial and the initial value. */
  lemma Crc8Residue(init: u8, data: seq<u8>, p: nat)
    ensures Serial(init, data, 8, p) < 256
    ensures Serial(init, data + [Serial(init, data, 8, p)], 8, p) == CheckingConstant(init, p) == 0
  {
    hide Xor, Feed, Serial, Entry;
    SerialWidth(init, data, 8, p);
    PowByte();
    var crc := Serial(init, data, 8, p);
    SerialAppend(init, data, crc, 8, p);
    ByteStep8(crc, crc, p);
    XorSelf(crc);
    XorSelf(init);
    EntryZero(8, p);
  }

  lemma {:induction false} SerialWidth(c: nat, data: seq<u8>, w: nat, p: nat)
    requires w >= 8 && c < Pow(w)
    ensures Serial(c, data, w, p) < Pow(w)
    decreases |data|
  {
    if data != [] {
      FeedIsNext(c, data[0], w, p);
      SerialWidth(Feed(c, data[0], 8, w, p), data[1..], w, p);
    }
  }

  /** Appending a crc16, its high byte first, leaves the register empty. */
  lemma Crc16Residue(init: nat, data: seq<u8>, p: nat)
    requires init < 0x1_0000
    ensures
      var crc := Serial(init, data, 16, p);
      crc < 0x1_0000 && Serial(init, data + [crc / 256] + [crc % 256], 16, p) == 0
  {
    hide Xor, Feed, Serial, Entry;
    Pow16();
    SerialWidth(init, data, 16, p);
    var crc := Serial(init, data, 16, p);
    SerialAppend(init, data, crc / 256, 16, p);
    ByteStep16(crc, crc / 256, p);
    XorSelf(crc / 256);
    EntryZero(16, p);
    XorZero(crc * 256 % 0x1_0000);
    var low := crc * 256 % 0x1_0000;
    assert low == crc % 256 * 256;
    SerialAppend(init, data + [crc / 256], crc % 256, 16, p);
    ByteStep16(low, crc % 256, p);
    assert low / 256 == crc % 256 && low * 256 % 0x1_0000 == 0;
    XorSelf(crc % 256);
    XorZero(0);
  }

  // ----- errors in one byte

  /** With an odd polynomial a step loses nothing. */
  lemma StepInjective(a: nat, b: nat, w: nat, p: nat)
    requires w > 0 && a < Pow(w) && b < Pow(w) && a != b && p % 2 == 1
    ensures Step(a, w, p) != Step(b, w, p)
  {
    var d := Xor(a, b);
    StepLinear(a, b, w, p);
    XorWidth(a, b, w);
    XorSelf(b);
    XorCancels(a, b, b);
    StepOfNonzero(d, w, p);
    XorSelf(Step(b, w, p));
  }

  lemma StepOfNonzero(d: nat, w: nat, p: nat)
    requires w > 0 && 0 < d < Pow(w) && p % 2 == 1
    ensures Step(d, w, p) != 0
  {
    if d >= Pow(w - 1) {
      XorHalves(2 * d, p);
      LowHalves(Xor(2 * d, p), w);
    } else {
      XorZero(2 * d);
      LowSmall(2 * d, w);
    }
  }

  lemma {:induction false} StepsInjective(n: nat, a: nat, b: nat, w: nat, p: nat)
    requires w > 0 && a < Pow(w) && b < Pow(w) && a != b && p % 2 == 1
    ensures Steps(n, a, w, p) != Steps(n, b, w, p)
  {
    if n > 0 {
      StepInjective(a, b, w, p);
      StepsInjective(n - 1, Step(a, w, p), Step(b, w, p), w, p);
    }
  }

  lemma {:induction false} SerialInjective(a: nat, b: nat, data: seq<u8>, w: nat, p: nat)
    requires w >= 8 && a < Pow(w) && b < Pow(w) && a != b && p % 2 == 1
    ensures Serial(a, data, w, p) != Serial(b, data, w, p)
    decreases |data|
  {
    if data != [] {
      FeedDiffers(a, b, data[0], data[0], w, p);
      SerialInjective(Feed(a, data[0], 8, w, p), Feed(b, data[0], 8, w, p), data[1..], w, p);
    }
  }

  /** The register differs after different registers take the same byte, or one register takes
      different bytes. */
  lemma FeedDiffers(a: nat, b: nat, x: u8, y: u8, w: nat, p: nat)
    requires w >= 8 && a < Pow(w) && b < Pow(w) && p % 2 == 1
    requires (a == b) != (x == y)
    ensures Feed(a, x, 8, w, p) != Feed(b, y, 8, w, p)
    ensures Feed(a, x, 8, w, p) < Pow(w) && Feed(b, y, 8, w, p) < Pow(w)
  {
    hide Xor, Shl, Steps, Step, Feed, Pow;
    FeedIsNext(a, x, w, p);
    FeedIsNext(b, y, w, p);
    PowByte();
    ShlWidth(x, 8, w - 8);
    ShlWidth(y, 8, w - 8);
    XorWidth(a, Shl(x, w - 8), w);
    XorWidth(b, Shl(y, w - 8), w);
    if x == y {
      XorCancels(a, b, Shl(x, w - 8));
    } else {
      ShlInjective(x, y, w - 8);
      XorCommutes(a, Shl(x, w - 8));
      XorCommutes(a, Shl(y, w - 8));
      XorCancels(Shl(x, w - 8), Shl(y, w - 8), a);
    }
    StepsInjective(8, Xor(a, Shl(x, w - 8)), Xor(b, Shl(y, w - 8)), w, p);
  }

  lemma {:induction false} ShlInjective(a: nat, b: nat, k: nat)
    requires a != b
    ensures Shl(a, k) != Shl(b, k)
  {
    if k > 0 {
      ShlInjective(a, b, k - 1);
    }
  }

  /** With an odd polynomial, no change of a single byte goes unnoticed, anywhere in a buffer of any
      length. */
  lemma {:induction false} OneByteIsNoticed(c: nat, pre: seq<u8>, x: u8, y: u8, post: seq<u8>, w: nat, p: nat)
    requires w >= 8 && c < Pow(w) && p % 2 == 1 && x != y
    ensures Serial(c, pre + [x] + post, w, p) != Serial(c, pre + [y] + post, w, p)
    decreases |pre|
  {
    if pre == [] {
      assert ([x] + post)[1..] == post && ([y] + post)[1..] == post;
      assert pre + [x] + post == [x] + post && pre + [y] + post == [y] + post;
      FeedDiffers(c, c, x, y, w, p);
      SerialInjective(Feed(c, x, 8, w, p), Feed(c, y, 8, w, p), post, w, p);
    } else {
      assert (pre + [x] + post)[1..] == pre[1..] + [x] + post;
      assert (pre + [y] + post)[1..] == pre[1..] + [y] + post;
      FeedIsNext(c, pre[0], w, p);
      OneByteIsNoticed(Feed(c, pre[0], 8, w, p), pre[1..], x, y, post, w, p);
    }
  }

  /** For crc8 this needs an odd polynomial: with an even one some byte can always be replaced by
      another one unnoticed. */
  lemma EvenPolynomialMisses(c: u8, p: nat) returns (x: u8)
    requires p % 2 == 0
    ensures x != 0 && Serial(c, [x], 8, p) == Serial(c, [0], 8, p)
  {
    hide Feed;
    PowByte();
    var half := Low(p, 8) / 2;
    x := 128 + half;
    SerialOne(c, x, 8, p);
    SerialOne(c, 0, 8, p);
    ByteStep8(c, x, p);
    ByteStep8(c, 0, p);
    XorZero(c);
    KernelStep(x, p);
    KernelEntry(c, x, p);
  }

  lemma KernelStep(x: u8, p: nat)
    requires p % 2 == 0 && x == 128 + Low(p, 8) / 2
    ensures Step(x, 8, p) == 0
  {
    hide Xor;
    PowByte();
    XorTruncates(2 * x, p, 8);
    LowHalves(p, 8);
    LowOfDouble(x);
    XorSelf(Low(p, 8));
  }

  lemma LowOfDouble(x: u8)
    requires x >= 128
    ensures Low(2 * x, 8) == 2 * (x - 128)
  {
    hide Low, Pow;
    PowByte();
    LowIsMod(2 * x, 8);
  }

  lemma KernelEntry(c: u8, x: u8, p: nat)
    requires Step(x, 8, p) == 0
    ensures Xor(c, x) < 256 && Entry(Xor(c, x), 8, p) == Entry(c, 8, p)
  {
    hide Xor, Steps, Step, Pow;
    PowByte();
    XorWidth(c, x, 8);
    StepsLinear(8, c, x, 8, p);
    ShlNone(Xor(c, x));
    ShlNone(c);
    StepsFirst(x, p);
    StepsShift(7, 0, 8, p);
    ShlZero(7);
    XorZero(Steps(8, c, 8, p));
  }

  lemma StepsFirst(x: nat, p: nat)
    ensures Steps(8, x, 8, p) == Steps(7, Step(x, 8, p), 8, p)
  {
  }
}
