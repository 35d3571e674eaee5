/**
  The Internet checksum of in_cksum (RFC 1071, section 1) over 16-bit words.
*/
module Checksum {

  type u16 = x: nat | x < 0x1_0000

  function Sum(ws: seq<u16>): nat {
    if ws == [] then 0 else ws[0] + Sum(ws[1..])
  }

  lemma {:induction false} SumConcat(a: seq<u16>, b: seq<u16>)
    ensures Sum(a + b) == Sum(a) + Sum(b)
  {
    if a == [] {
      assert a + b == b;
    } else {
      assert (a + b)[1..] == a[1..] + b;
      SumConcat(a[1..], b);
    }
  }

  lemma {:induction false} SumBound(ws: seq<u16>)
    ensures Sum(ws) <= |ws| * 0xFFFF
  {
    if ws != [] {
      SumBound(ws[1..]);
    }
  }

  // ----- ones' complement arithmetic

  /** Addition of 16-bit words with the carry added back. */
  function Plus(a: u16, b: u16): u16 {
    if a + b > 0xFFFF then a + b - 0xFFFF else a + b
  }

  /** The ones' complement sum of the words, from the left. */
  function OnesSum(acc: u16, ws: seq<u16>): u16
    decreases |ws|
  {
    if ws == [] then acc else OnesSum(Plus(acc, ws[0]), ws[1..])
  }

  /** The word that stands for a number: its remainder by 65535, but 65535 instead of 0 for numbers
      above 0. */
  function Folded(n: nat): u16 {
    if n == 0 then 0 else (n - 1) % 0xFFFF + 1
  }

  lemma PlusFolds(n: nat, w: u16)
    ensures Plus(Folded(n), w) == Folded(n + w)
  {
    if n > 0 {
      var q := (n - 1) / 0xFFFF;
      assert n - 1 == q * 0xFFFF + (Folded(n) - 1);
    }
  }

  lemma {:induction false} OnesSumFolds(n: nat, ws: seq<u16>)
    ensures OnesSum(Folded(n), ws) == Folded(n + Sum(ws))
    decreases |ws|
  {
    if ws != [] {
      PlusFolds(n, ws[0]);
      OnesSumFolds(n + ws[0], ws[1..]);
    }
  }

  // ----- the two folds of the code, on a signed 32-bit accumulator

  const INT_LIMIT := 0x8000_0000

  /** `~sum` cut to 16 bits after adding back the carries twice. */
  function Answer(sum: nat): u16 {
    var once := sum / 0x1_0000 + sum % 0x1_0000;
    var twice := once + once / 0x1_0000;
    0xFFFF - twice % 0x1_0000
  }

  /** Two folds are enough for every sum the accumulator can hold. */
  lemma TwoFolds(sum: nat)
    requires sum < INT_LIMIT
    ensures Answer(sum) == 0xFFFF - Folded(sum)
  {
    var hi, lo := sum / 0x1_0000, sum % 0x1_0000;
    assert sum == hi * 0x1_0000 + lo;
    var once := hi + lo;
    FoldedStep(sum, hi, once);
    if once >= 0x1_0000 {
      assert once / 0x1_0000 == 1;
      FoldedStep(once, 1, once - 0xFFFF);
    }
  }

  lemma FoldedStep(n: nat, q: nat, r: nat)
    requires n == q * 0xFFFF + r && (r == 0 ==> n == 0)
    ensures Folded(n) == Folded(r)
  {
    if r > 0 {
      assert n - 1 == q * 0xFFFF + (r - 1);
      AddMultiples(r - 1, q);
    }
  }

  lemma {:induction false} AddMultiples(x: nat, q: nat)
    ensures (x + q * 0xFFFF) % 0xFFFF == x % 0xFFFF
  {
    if q > 0 {
      AddMultiples(x, q - 1);
    }
  }

  /** Up to 32768 words, and a byte, the accumulator does not overflow. */
  lemma AccumulatorSuffices(ws: seq<u16>, tail: seq<u16>)
    requires |ws| <= 0x8000 && |tail| <= 1 && (tail != [] ==> tail[0] < 256)
    ensures Sum(ws + tail) < INT_LIMIT
  {
    SumBound(ws);
    SumConcat(ws, tail);
  }

  /** in_cksum: `ws` are the words as the machine reads them, `tail` an odd last byte, read by a
      little-endian machine into a zeroed word. */
  method Cksum(ws: seq<u16>, tail: seq<u16>) returns (answer: u16)
    requires |tail| <= 1 && (tail != [] ==> tail[0] < 256)
    requires Sum(ws + tail) < INT_LIMIT
    ensures answer == 0xFFFF - OnesSum(0, ws + tail)
  {
    var left, sum, w := 2 * |ws| + |tail|, 0, 0;
    SumConcat(ws, tail);
    while left > 1
      invariant left == 2 * (|ws| - w) + |tail| && w <= |ws| && sum + Sum(ws[w..]) == Sum(ws)
    {
      assert ws[w..][1..] == ws[w + 1..];
      sum := sum + ws[w];
      w := w + 1;
      left := left - 2;
    }
    if left == 1 {
      sum := sum + tail[0];
    }
    TwoFolds(sum);
    OnesSumFolds(0, ws + tail);
    answer := Answer(sum);
  }

  // ----- what the receiver checks

  /** A buffer with the checksum of the rest put into a zeroed word at place k. */
  function Stored(ws: seq<u16>, k: nat, answer: u16): seq<u16>
    requires k < |ws|
  {
    ws[k := answer]
  }

  lemma SumOfStored(ws: seq<u16>, k: nat, x: u16)
    requires k < |ws| && ws[k] == 0
    ensures Sum(ws[k := x]) == Sum(ws) + x
  {
    var a, b := ws[..k], ws[k + 1..];
    assert ws == a + [0] + b && ws[k := x] == a + [x] + b;
    SumConcat(a + [0], b);
    SumConcat(a, [0]);
    SumConcat(a + [x], b);
    SumConcat(a, [x]);
    assert [x as u16][1..] == [] && [0 as u16][1..] == [];
  }

  /** With its checksum in a word that was zero, wherever it is, a buffer checks to zero, unless all
      its words are zero: the checksum is then 65535 and the check still gives zero. */
  lemma ChecksToZero(ws: seq<u16>, k: nat)
    requires k < |ws| && ws[k] == 0
    ensures 0xFFFF - OnesSum(0, Stored(ws, k, 0xFFFF - OnesSum(0, ws))) == 0
  {
    var s := Folded(Sum(ws));
    OnesSumFolds(0, ws);
    var x: u16 := 0xFFFF - s;
    SumOfStored(ws, k, x);
    OnesSumFolds(0, Stored(ws, k, x));
    PlusFolds(Sum(ws), x);
  }

  /** A buffer checks to zero exactly when its words, not all zero, add up to a multiple of 65535: a
      change that keeps the remainder, as a swap of words, goes unnoticed, and no other does. */
  lemma WhatIsChecked(ws: seq<u16>)
    ensures 0xFFFF - OnesSum(0, ws) == 0 <==> Sum(ws) > 0 && Sum(ws) % 0xFFFF == 0
  {
    OnesSumFolds(0, ws);
    if Sum(ws) > 0 {
      var n := Sum(ws) - 1;
      assert n == n / 0xFFFF * 0xFFFF + n % 0xFFFF;
      if n % 0xFFFF == 0xFFFE {
        AddMultiples(0, n / 0xFFFF + 1);
      }
    }
  }

  /** The order of the words does not matter. */
  lemma OrderDoesNotMatter(a: seq<u16>, b: seq<u16>)
    requires multiset(a) == multiset(b)
    ensures OnesSum(0, a) == OnesSum(0, b)
  {
    SumOfMultiset(a, b);
    OnesSumFolds(0, a);
    OnesSumFolds(0, b);
  }

  lemma {:induction false} SumOfMultiset(a: seq<u16>, b: seq<u16>)
    requires multiset(a) == multiset(b)
    ensures Sum(a) == Sum(b)
  {
    if a == [] {
      assert |multiset(b)| == 0;
    } else {
      assert a[0] in multiset(b);
      var j :| 0 <= j < |b| && b[j] == a[0];
      SumWithout(b, j);
      MultisetWithout(a, 0);
      MultisetWithout(b, j);
      assert a[..0] + a[1..] == a[1..];
      SumOfMultiset(a[1..], b[..j] + b[j + 1..]);
    }
  }

  lemma {:induction false} SumWithout(b: seq<u16>, j: nat)
    requires j < |b|
    ensures Sum(b) == b[j] + Sum(b[..j] + b[j + 1..])
  {
    if j == 0 {
      assert b[..0] + b[1..] == b[1..];
    } else {
      var rest := b[..j] + b[j + 1..];
      assert rest[1..] == b[1..][..j - 1] + b[1..][j..] && rest[0] == b[0];
      SumWithout(b[1..], j - 1);
    }
  }

  lemma MultisetWithout(b: seq<u16>, j: nat)
    requires j < |b|
    ensures multiset(b[..j] + b[j + 1..]) == multiset(b) - multiset{b[j]}
  {
    assert b == b[..j] + [b[j]] + b[j + 1..];
    assert multiset(b) == multiset(b[..j]) + multiset{b[j]} + multiset(b[j + 1..]);
  }
}
