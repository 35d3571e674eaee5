/**
  The generator with the least significant bit first is the other one seen in a mirror: register,
  bytes and polynomial with their bits reversed.
*/
module CrcMirror {
  import opened Gf2
  import opened Crc
  import opened CrcLsb
  import opened Arithmetic

  /** The low k bits in reverse order. */
  function Mirror(a: nat, k: nat): (r: nat)
    ensures r < Pow(k)
  {
    if k == 0 then 0 else Top(a % 2, k - 1) + Mirror(a / 2, k - 1)
  }

  function Top(bit: nat, k: nat): nat { if bit == 1 then Pow(k) else 0 }

  function MirrorAll(data: seq<u8>): (r: seq<u8>)
    ensures |r| == |data|
  {
    PowByte();
    if data == [] then [] else [Mirror(data[0], 8)] + MirrorAll(data[1..])
  }

  lemma TopAdds(bit: nat, k: nat, r: nat)
    requires bit < 2 && r < Pow(k)
    ensures Top(bit, k) + r == Xor(Top(bit, k), r)
  {
    ShlOne(k);
    XorDisjoint(1, r, k);
    XorZero(r);
  }

  lemma TopsAdd(x: nat, y: nat, k: nat)
    requires x < 2 && y < 2
    ensures Xor(Top(x, k), Top(y, k)) == Top(if x == y then 0 else 1, k)
  {
    XorSelf(Pow(k));
    XorZero(Pow(k));
    XorZero(0);
  }

  lemma MirrorSplits(a: nat, k: nat)
    requires k > 0
    ensures Mirror(a, k) == Xor(Top(a % 2, k - 1), Mirror(a / 2, k - 1))
  {
    TopAdds(a % 2, k - 1, Mirror(a / 2, k - 1));
  }

  lemma MirrorNone(a: nat, b: nat)
    ensures Mirror(Xor(a, b), 0) == Xor(Mirror(a, 0), Mirror(b, 0))
  {
  }

  lemma {:induction false} MirrorXor(a: nat, b: nat, k: nat)
    ensures Mirror(Xor(a, b), k) == Xor(Mirror(a, k), Mirror(b, k))
  {
    hide Xor, Mirror, Top, Pow;
    if k == 0 {
      MirrorNone(a, b);
    } else {
      MirrorXor(a / 2, b / 2, k - 1);
      XorHalves(a, b);
      MirrorSplits(a, k);
      MirrorSplits(b, k);
      MirrorSplits(Xor(a, b), k);
      XorSwap(Top(a % 2, k - 1), Mirror(a / 2, k - 1), Top(b % 2, k - 1), Mirror(b / 2, k - 1));
      TopsAdd(a % 2, b % 2, k - 1);
    }
  }

  /** A number with a bit to spare. */
  lemma {:induction false} MirrorDoubles(a: nat, k: nat)
    requires a < Pow(k)
    ensures Mirror(a, k + 1) == 2 * Mirror(a, k)
  {
    if k > 0 {
      MirrorDoubles(a / 2, k - 1);
      assert Pow(k) == 2 * Pow(k - 1);
    } else {
      assert Mirror(0, 1) == Top(0, 0) + Mirror(0, 0);
    }
  }

  /** Mirroring twice is doing nothing. */
  lemma {:induction false} MirrorTwice(a: nat, k: nat)
    requires a < Pow(k)
    ensures Mirror(Mirror(a, k), k) == a
  {
    hide Xor;
    if k > 0 {
      var low := Mirror(a / 2, k - 1);
      MirrorTwice(a / 2, k - 1);
      MirrorSplits(a, k);
      hide Mirror;
      MirrorXor(Top(a % 2, k - 1), low, k);
      MirrorDoubles(low, k - 1);
      MirrorTop(a % 2, k - 1);
      LowestAdds(a);
    }
  }

  lemma LowestAdds(a: nat)
    ensures Xor(a % 2, 2 * (a / 2)) == a
  {
    XorDisjoint(a / 2, a % 2, 1);
    XorCommutes(2 * (a / 2), a % 2);
    assert Shl(a / 2, 1) == 2 * (a / 2);
  }

  lemma {:induction false} MirrorTop(bit: nat, k: nat)
    requires bit < 2
    ensures Mirror(Top(bit, k), k + 1) == bit
  {
    if k > 0 {
      MirrorTop(bit, k - 1);
      assert Pow(k) == 2 * Pow(k - 1);
    } else {
      assert Mirror(bit, 1) == Top(bit, 0) + Mirror(0, 0);
    }
  }

  /** One shift to the right is one to the left in the mirror. */
  lemma StepMirrored(c: nat, p: nat, w: nat)
    requires w > 0 && c < Pow(w)
    ensures Mirror(StepR(c, p), w) == Step(Mirror(c, w), w, Mirror(p, w))
  {
    hide Xor;
    var m, low, q := Mirror(c, w), Mirror(c / 2, w - 1), Mirror(p, w);
    MirrorXor(c / 2, if c % 2 == 1 then p else 0, w);
    MirrorDoubles(c / 2, w - 1);
    MirrorZero(w);
    XorTruncates(2 * m, if c % 2 == 1 then q else 0, w);
    LowSmall(q, w);
    LowSmall(0, w);
    DropsTop(c % 2, low, w);
  }

  lemma {:induction false} MirrorZero(k: nat)
    ensures Mirror(0, k) == 0
  {
    if k > 0 {
      MirrorZero(k - 1);
    }
  }

  lemma DropsTop(bit: nat, low: nat, w: nat)
    requires w > 0 && bit < 2 && low < Pow(w - 1)
    ensures Low(2 * (Top(bit, w - 1) + low), w) == 2 * low
  {
    LowIsMod(2 * (Top(bit, w - 1) + low), w);
    Remainder(2 * (Top(bit, w - 1) + low), Pow(w), bit, 2 * low);
  }

  lemma {:induction false} StepsMirrored(n: nat, c: u8, p: u8)
    ensures Mirror(StepsR(n, c, p), 8) == Steps(n, Mirror(c, 8), 8, Mirror(p, 8))
  {
    if n > 0 {
      PowByte();
      StepsRWidth(1, c, p);
      StepMirrored(c, p, 8);
      StepsMirrored(n - 1, StepR(c, p), p);
    }
  }

  lemma FeedMirrored(c: u8, b: u8, p: u8)
    ensures FeedR(c, b, 8, p) < 256 && Mirror(b, 8) < 256
    ensures Mirror(FeedR(c, b, 8, p), 8) == Feed(Mirror(c, 8), Mirror(b, 8), 8, 8, Mirror(p, 8))
  {
    hide Xor, FeedR, Feed, StepsR, Steps, Mirror;
    PowByte();
    ByteStepR(c, b, p);
    StepsMirrored(8, Xor(c, b), p);
    MirrorXor(c, b, 8);
    FeedAtOnce(Mirror(c, 8), Mirror(b, 8), 8, 8, Mirror(p, 8));
  }

  /** The checksum of a message, least significant bit first, is the mirror image of the checksum of
      the mirrored message with the mirrored polynomial, most significant bit first. */
  lemma {:induction false} SerialMirrored(c: u8, data: seq<u8>, p: u8)
    ensures Mirror(SerialR(c, data, p), 8) == Serial(Mirror(c, 8), MirrorAll(data), 8, Mirror(p, 8))
    decreases |data|
  {
    hide FeedR, Feed, Mirror;
    if data != [] {
      FeedMirrored(c, data[0], p);
      SerialMirrored(FeedR(c, data[0], 8, p), data[1..], p);
    }
  }
}
