/**
  The UTF-8 codec of CCodeConv.cpp and the buffer conversions of CText.cpp built on it.
*/
module Utf8 {
  import opened Arithmetic

  type u32 = x: nat | x < 0x1_0000_0000

  /** Code points that have an encoding of their own: those of 21 bits. */
  const LIMIT := 0x20_0000

  // ----- one code point

  /** CCodeUTF8::MCharLenInline. */
  function CharLen(code: nat): (n: nat)
    ensures 1 <= n <= 4
  {
    if code < 0x80 then 1 else if code < 0x800 then 2 else if code < 0x1_0000 then 3 else 4
  }

  /** CCodeUTF8::MSeqLen: a byte that cannot lead counts as a character of its own. */
  function SeqLen(lead: u8): (n: nat)
    ensures 1 <= n <= 4
  {
    if lead < 0x80 then 1
    else if lead / 32 == 0x6 then 2
    else if lead / 16 == 0xe then 3
    else if lead / 8 == 0x1e then 4
    else 1
  }

  /** The bytes of a code point; of a lead byte only the low four bits above 18 survive. */
  function Encode(code: u32): (s: seq<u8>)
    ensures |s| == CharLen(code)
  {
    if code < 0x80 then [code]
    else if code < 0x800 then [0xc0 + code / 64, 0x80 + code % 64]
    else if code < 0x1_0000 then [0xe0 + code / 4096, 0x80 + code / 64 % 64, 0x80 + code % 64]
    else [0xf0 + code / 0x4_0000 % 16, 0x80 + code / 4096 % 64, 0x80 + code / 64 % 64, 0x80 + code % 64]
  }

  function Min(a: nat, b: nat): nat { if a < b then a else b }

  /** How many bytes the next character takes: a sequence cut short by the end is taken as it is. */
  function NextLen(s: seq<u8>): (n: nat)
    requires s != []
    ensures 1 <= n <= |s|
  {
    Min(SeqLen(s[0]), |s|)
  }

  /** The code point the next bytes stand for, wrapped to the width of their number. */
  function Decode(s: seq<u8>): (code: nat)
    requires s != []
    ensures code < LIMIT
  {
    match NextLen(s)
    case 1 => s[0]
    case 2 => Two(s[0], s[1])
    case 3 => Three(s[0], s[1], s[2])
    case _ => Four(s[0], s[1], s[2], s[3])
  }

  lemma LeadBits(a: nat)
    ensures a * 0x4_0000 % LIMIT == a % 8 * 0x4_0000
  {
    var q, r := a / 8, a % 8;
    assert a * 0x4_0000 == q * LIMIT + r * 0x4_0000;
  }

  lemma MiddleBits(b: nat)
    ensures b * 4096 % 0x4_0000 == b % 64 * 4096
  {
    var q, r := b / 64, b % 64;
    assert b * 4096 == q * 0x4_0000 + r * 4096;
  }

  lemma LowBits(c: nat)
    ensures c * 64 % 4096 == c % 64 * 64
  {
    var q, r := c / 64, c % 64;
    assert c * 64 == q * 4096 + r * 64;
  }

  function Two(a: nat, b: nat): (r: nat)
    ensures r < LIMIT
  {
    a * 64 % 0x800 + b % 64
  }

  function Three(a: nat, b: nat, c: nat): (r: nat)
    ensures r < LIMIT
  {
    a * 4096 % 0x1_0000 + b * 64 % 4096 + c % 64
  }

  function Four(a: nat, b: nat, c: nat, d: nat): (r: nat)
    ensures r < LIMIT
  {
    LeadBits(a);
    MiddleBits(b);
    LowBits(c);
    a * 0x4_0000 % LIMIT + b * 4096 % 0x4_0000 + c * 64 % 4096 + d % 64
  }

  lemma TwoOf(h: nat, l: nat)
    requires h < 32 && l < 64
    ensures Two(0xc0 + h, 0x80 + l) == 64 * h + l
  {
  }

  lemma ThreeOf(h: nat, m: nat, l: nat)
    requires h < 16 && m < 64 && l < 64
    ensures Three(0xe0 + h, 0x80 + m, 0x80 + l) == 4096 * h + 64 * m + l
  {
  }

  lemma FourOf(h: nat, k: nat, m: nat, l: nat)
    requires h < 8 && k < 64 && m < 64 && l < 64
    ensures Four(0xf0 + h, 0x80 + k, 0x80 + m, 0x80 + l) == 0x4_0000 * h + 4096 * k + 64 * m + l
  {
  }

  /** Decoding what was encoded, whatever follows, gives the code point back exactly when it has at
      most 21 bits. */
  lemma OneRoundTrip(code: u32, rest: seq<u8>)
    ensures (NextLen(Encode(code) + rest) == CharLen(code) && Decode(Encode(code) + rest) == code) <==> code < LIMIT
  {
    hide Two, Three, Four;
    if code < LIMIT {
      LeadTells(code);
    }
    if 0x80 <= code < 0x800 {
      TwoOf(code / 64, code % 64);
    } else if 0x800 <= code < 0x1_0000 {
      ThreeOf(code / 4096, code / 64 % 64, code % 64);
      Digits(code);
    } else if 0x1_0000 <= code < LIMIT {
      FourOf(code / 0x4_0000, code / 4096 % 64, code / 64 % 64, code % 64);
      Digits(code);
    }
  }

  lemma Digits(code: nat)
    ensures code == code / 4096 * 4096 + code / 64 % 64 * 64 + code % 64
    ensures code == code / 0x4_0000 * 0x4_0000 + code / 4096 % 64 * 4096 + code / 64 % 64 * 64 + code % 64
  {
  }

  lemma LeadTells(code: u32)
    requires code < LIMIT
    ensures SeqLen(Encode(code)[0]) == CharLen(code)
  {
  }

  // ----- the form of the bytes: section 3 of RFC 3629

  predicate Leads(b: u8, n: nat) {
    match n
    case 1 => b < 0x80
    case 2 => b / 32 == 0x6
    case 3 => b / 16 == 0xe
    case 4 => b / 8 == 0x1e
    case _ => false
  }

  ghost predicate WellFormed(t: seq<u8>) {
    t != [] && Leads(t[0], |t|) && forall i :: 1 <= i < |t| ==> t[i] / 64 == 2
  }

  /** A number with six more bits from each of these bytes. */
  function Extended(n: nat, t: seq<u8>): nat
    decreases |t|
  {
    if t == [] then n else Extended(n * 64 + t[0] % 64, t[1..])
  }

  /** The bits of a first byte that are not marks: seven of a single one, else five, four or three. */
  function FirstBits(b: u8, n: nat): nat {
    match n
    case 1 => b % 0x80
    case 2 => b % 32
    case 3 => b % 16
    case _ => b % 8
  }

  function Payload(t: seq<u8>): nat
    requires t != []
  {
    Extended(FirstBits(t[0], |t|), t[1..])
  }

  lemma {:induction false} ExtendedIs(n: nat, t: seq<u8>)
    ensures |t| == 0 ==> Extended(n, t) == n
    ensures |t| == 1 ==> Extended(n, t) == n * 64 + t[0] % 64
    ensures |t| == 2 ==> Extended(n, t) == (n * 64 + t[0] % 64) * 64 + t[1] % 64
    ensures |t| == 3 ==> Extended(n, t) == ((n * 64 + t[0] % 64) * 64 + t[1] % 64) * 64 + t[2] % 64
    decreases |t|
  {
    if t != [] {
      ExtendedIs(n * 64 + t[0] % 64, t[1..]);
    }
  }

  /** A code point is written in that form, carrying its bits. */
  lemma EncodedForm(code: u32)
    requires code < LIMIT
    ensures WellFormed(Encode(code)) && Payload(Encode(code)) == code
  {
    hide Extended, Payload;
    EncodedBits(code);
  }

  lemma EncodedBits(code: u32)
    requires code < LIMIT
    ensures Payload(Encode(code)) == code
  {
    var s := Encode(code);
    var first: nat := FirstBits(s[0], |s|);
    ExtendedIs(first, s[1..]);
    Digits(code);
    hide Extended;
    if |s| == 2 {
      assert first == code / 64 && s[1] % 64 == code % 64;
    } else if |s| == 3 {
      assert first == code / 4096 && s[1] % 64 == code / 64 % 64 && s[2] % 64 == code % 64;
    } else if |s| == 4 {
      FourthBits(code);
    }
  }

  lemma FourthBits(code: u32)
    requires 0x1_0000 <= code < LIMIT
    ensures var s := Encode(code);
      ((FirstBits(s[0], 4) * 64 + s[1] % 64) * 64 + s[2] % 64) * 64 + s[3] % 64 == code
  {
    var s := Encode(code);
    Digits(code);
    assert FirstBits(s[0], 4) == code / 0x4_0000;
    assert s[1] % 64 == code / 4096 % 64 && s[2] % 64 == code / 64 % 64 && s[3] % 64 == code % 64;
  }

  /** And it is the shortest form that carries them, the only one of its length. */
  lemma OnlyForm(code: u32, t: seq<u8>)
    requires code < LIMIT && WellFormed(t) && Payload(t) == code
    ensures |Encode(code)| <= |t|
    ensures |t| == |Encode(code)| ==> t == Encode(code)
  {
    ExtendedIs(FirstBits(t[0], |t|), t[1..]);
    if |t| == |Encode(code)| {
      SameDigits(code, t);
    }
  }

  lemma SameDigits(code: u32, t: seq<u8>)
    requires code < LIMIT && WellFormed(t) && Payload(t) == code && |t| == |Encode(code)|
    ensures t == Encode(code)
  {
    var n: nat := FirstBits(t[0], |t|);
    ExtendedIs(n, t[1..]);
    hide Extended;
    if |t| == 2 {
      NextDigit(code, n, t[1]);
    } else if |t| == 3 {
      NextDigit(code, n * 64 + t[1] % 64, t[2]);
      NextDigit(n * 64 + t[1] % 64, n, t[1]);
    } else if |t| == 4 {
      FourDigits(code, t, n);
    }
  }

  lemma FourDigits(code: u32, t: seq<u8>, n: nat)
    requires code < LIMIT && WellFormed(t) && |t| == 4 == |Encode(code)| && n == FirstBits(t[0], 4)
    requires code == ((n * 64 + t[1] % 64) * 64 + t[2] % 64) * 64 + t[3] % 64
    ensures t == Encode(code)
  {
    var k: nat := n * 64 + t[1] % 64;
    var m: nat := k * 64 + t[2] % 64;
    NextDigit(code, m, t[3]);
    NextDigit(m, k, t[2]);
    NextDigit(k, n, t[1]);
  }

  lemma NextDigit(n: nat, m: nat, b: u8)
    requires n == m * 64 + b % 64
    ensures n / 64 == m && n % 64 == b % 64 && n / 4096 == m / 64 && n / 0x4_0000 == m / 4096
    ensures b / 64 == 2 ==> b == 0x80 + n % 64
  {
    assert n / 4096 == n / 64 / 64 && n / 0x4_0000 == n / 64 / 4096;
  }

  /** Any bytes are decoded by the same rule, marks or no marks, on the width of their number: 8, 11,
      16 or 21 bits. */
  lemma DecodedForm(s: seq<u8>)
    requires s != []
    ensures Decode(s) == Extended(s[0], s[1..NextLen(s)]) % (match NextLen(s) case 1 => 0x100 case 2 => 0x800 case 3 => 0x1_0000 case _ => LIMIT)
  {
    var n := NextLen(s);
    var t := s[1..n];
    ExtendedIs(s[0], t);
    if n == 2 {
      TwoIs(s[0], t[0]);
    } else if n == 3 {
      ThreeIs(s[0], t[0], t[1]);
    } else if n == 4 {
      FourIs(s[0], t[0], t[1], t[2]);
    }
  }

  lemma TwoIs(a: nat, b: nat)
    ensures Two(a, b) == (a * 64 + b % 64) % 0x800
  {
    Remainder(a * 64, 0x800, a / 32, a % 32 * 64);
    Remainder(a * 64 + b % 64, 0x800, a / 32, a % 32 * 64 + b % 64);
  }

  lemma ThreeIs(a: nat, b: nat, c: nat)
    ensures Three(a, b, c) == ((a * 64 + b % 64) * 64 + c % 64) % 0x1_0000
  {
    LowBits(b);
    var low := b % 64 * 64 + c % 64;
    Remainder(a * 4096, 0x1_0000, a / 16, a % 16 * 4096);
    Remainder(a * 4096 + low, 0x1_0000, a / 16, a % 16 * 4096 + low);
  }

  lemma FourIs(a: nat, b: nat, c: nat, d: nat)
    ensures Four(a, b, c, d) == (((a * 64 + b % 64) * 64 + c % 64) * 64 + d % 64) % LIMIT
  {
    MiddleBits(b);
    LowBits(c);
    var low := b % 64 * 4096 + c % 64 * 64 + d % 64;
    Remainder(a * 0x4_0000, LIMIT, a / 8, a % 8 * 0x4_0000);
    Remainder(a * 0x4_0000 + low, LIMIT, a / 8, a % 8 * 0x4_0000 + low);
  }

  // ----- sequences

  /** All code points have at most 21 bits. */
  ghost predicate Narrow(cs: seq<nat>) {
    forall i :: 0 <= i < |cs| ==> cs[i] < LIMIT
  }

  function EncodeAll(cs: seq<u32>): (s: seq<u8>) {
    if cs == [] then [] else Encode(cs[0]) + EncodeAll(cs[1..])
  }

  function DecodeAll(s: seq<u8>): (cs: seq<nat>)
    decreases |s|
  {
    if s == [] then [] else [Decode(s)] + DecodeAll(s[NextLen(s)..])
  }

  function SizeOf(cs: seq<u32>): nat {
    if cs == [] then 0 else CharLen(cs[0]) + SizeOf(cs[1..])
  }

  /** Every sequence of code points below 0x200000 is decoded from its encoding, which has the
      announced number of bytes. */
  lemma {:induction false} RoundTrip(cs: seq<u32>)
    requires Narrow(cs)
    ensures DecodeAll(EncodeAll(cs)) == cs && |EncodeAll(cs)| == SizeOf(cs)
    decreases |cs|
  {
    if cs != [] {
      OneRoundTrip(cs[0], EncodeAll(cs[1..]));
      RoundTrip(cs[1..]);
      assert EncodeAll(cs)[CharLen(cs[0])..] == EncodeAll(cs[1..]);
    }
  }

  /** Decoding any bytes gives between a quarter as many code points and as many as bytes, all of at
      most 21 bits. */
  lemma {:induction false} DecodeBounds(s: seq<u8>)
    ensures |DecodeAll(s)| <= |s| <= 4 * |DecodeAll(s)|
    ensures Narrow(DecodeAll(s))
    decreases |s|
  {
    if s != [] {
      DecodeBounds(s[NextLen(s)..]);
    }
  }

  // ----- order

  function Lex(a: seq<nat>, b: seq<nat>): bool {
    b != [] && (a == [] || a[0] < b[0] || (a[0] == b[0] && Lex(a[1..], b[1..])))
  }

  /** Two encodings differ before either ends, the smaller code point having the smaller byte. */
  lemma FirstDifference(c: u32, d: u32) returns (i: nat)
    requires c < d < LIMIT
    ensures i < CharLen(c) && i < CharLen(d)
    ensures Encode(c)[..i] == Encode(d)[..i] && Encode(c)[i] < Encode(d)[i]
  {
    var s, t := Encode(c), Encode(d);
    LeadOrder(c, d);
    if s[0] != t[0] {
      i := 0;
    } else {
      SameLead(c, d);
      i := if s[1] != t[1] then 1 else if |s| > 2 && s[2] != t[2] then 2 else 3;
      TailOrder(c, d, i);
    }
  }

  /** With equal leads the first different byte is smaller. */
  lemma TailOrder(c: u32, d: u32, i: nat)
    requires c < d < LIMIT && Encode(c)[0] == Encode(d)[0] && CharLen(c) == CharLen(d) > 1
    requires i == if Encode(c)[1] != Encode(d)[1] then 1 else if CharLen(c) > 2 && Encode(c)[2] != Encode(d)[2] then 2 else 3
    ensures i < CharLen(c) && Encode(c)[..i] == Encode(d)[..i] && Encode(c)[i] < Encode(d)[i]
  {
    var s, t := Encode(c), Encode(d);
    DigitOrder(c, d);
    if i == 1 {
      assert s[1] < t[1];
    } else if i == 2 {
      assert s[2] < t[2];
      assert s[..2] == t[..2] == [s[0], s[1]];
    } else {
      assert CharLen(c) == 4 && s[3] < t[3];
      assert s[..3] == t[..3] == [s[0], s[1], s[2]];
    }
  }

  /** Comparing numbers by their digits to the base 64, the highest first. */
  lemma DigitOrder(c: nat, d: nat)
    requires c < d
    ensures c / 64 == d / 64 ==> c % 64 < d % 64
    ensures c / 4096 == d / 4096 && c / 64 % 64 != d / 64 % 64 ==> c / 64 % 64 < d / 64 % 64
    ensures c / 4096 == d / 4096 && c / 64 % 64 == d / 64 % 64 ==> c / 64 == d / 64
    ensures c / 0x4_0000 == d / 0x4_0000 && c / 4096 % 64 != d / 4096 % 64 ==> c / 4096 % 64 < d / 4096 % 64
    ensures c / 0x4_0000 == d / 0x4_0000 && c / 4096 % 64 == d / 4096 % 64 ==> c / 4096 == d / 4096
  {
    assert c / 4096 == c / 64 / 64 && d / 4096 == d / 64 / 64;
    assert c / 0x4_0000 == c / 4096 / 64 && d / 0x4_0000 == d / 4096 / 64;
  }

  lemma LeadOrder(c: u32, d: u32)
    requires c < d < LIMIT
    ensures Encode(c)[0] <= Encode(d)[0]
  {
  }

  /** Equal leads mean equal lengths, above one byte for different code points. */
  lemma SameLead(c: u32, d: u32)
    requires c < d < LIMIT && Encode(c)[0] == Encode(d)[0]
    ensures CharLen(c) == CharLen(d) > 1
  {
  }

  lemma {:induction false} LexAfter(a: seq<nat>, b: seq<nat>, i: nat)
    requires i < |a| && i < |b| && a[..i] == b[..i] && a[i] < b[i]
    ensures Lex(a, b) && !Lex(b, a)
  {
    if i > 0 {
      TailOfPrefix(a, i);
      TailOfPrefix(b, i);
      LexAfter(a[1..], b[1..], i - 1);
    }
  }

  lemma TailOfPrefix(a: seq<nat>, i: nat)
    requires 0 < i <= |a|
    ensures a[..i][0] == a[0] && a[1..][..i - 1] == a[..i][1..]
  {
  }

  lemma {:induction false} LexPrefix(p: seq<nat>, a: seq<nat>, b: seq<nat>)
    ensures Lex(p + a, p + b) == Lex(a, b)
  {
    if p == [] {
      assert p + a == a && p + b == b;
    } else {
      assert (p + a)[1..] == p[1..] + a && (p + b)[1..] == p[1..] + b;
      LexPrefix(p[1..], a, b);
    }
  }

  /** Comparing encoded texts byte by byte compares the texts code point by code point. */
  lemma {:induction false} OrderKept(cs: seq<u32>, ds: seq<u32>)
    requires Narrow(cs) && Narrow(ds)
    ensures Lex(EncodeAll(cs), EncodeAll(ds)) == Lex(cs, ds)
  {
    if cs == [] || ds == [] {
    } else if cs[0] == ds[0] {
      OrderKept(cs[1..], ds[1..]);
      LexPrefix(Encode(cs[0]), EncodeAll(cs[1..]), EncodeAll(ds[1..]));
    } else if cs[0] < ds[0] {
      var i := FirstDifference(cs[0], ds[0]);
      LexAfter(EncodeAll(cs), EncodeAll(ds), i);
    } else {
      var i := FirstDifference(ds[0], cs[0]);
      LexAfter(EncodeAll(ds), EncodeAll(cs), i);
    }
  }

  // ----- buffers

  /** ICodeConv::MSizeOf of a range that is not empty. */
  method MSizeOf(cs: seq<u32>) returns (size: nat)
    requires cs != []
    ensures size == SizeOf(cs)
  {
    size := CharLen(cs[0]);
    var i := 1;
    SizePrefix(cs, 0);
    while i != |cs|
      invariant 1 <= i <= |cs| && size + SizeOf(cs[i..]) == SizeOf(cs)
      decreases |cs| - i
    {
      SizePrefix(cs, i);
      size := size + CharLen(cs[i]);
      i := i + 1;
    }
  }

  lemma SizePrefix(cs: seq<u32>, i: nat)
    requires i < |cs|
    ensures SizeOf(cs[i..]) == CharLen(cs[i]) + SizeOf(cs[i + 1..])
    ensures cs[0..] == cs
  {
    assert cs[i..][1..] == cs[i + 1..];
  }

  /** CText::length_code. */
  method LengthCode(cs: seq<u32>) returns (size: nat)
    ensures size == |EncodeAll(cs)|
  {
    EncodedSize(cs);
    if cs == [] {
      return 0;
    }
    size := MSizeOf(cs);
  }

  lemma {:induction false} EncodedSize(cs: seq<u32>)
    ensures |EncodeAll(cs)| == SizeOf(cs)
  {
    if cs != [] {
      EncodedSize(cs[1..]);
    }
  }

  /** CCodeUTF8::MAppend: writes the code point if it fits. */
  method MAppend(code: u32, dest: array<u8>, at: nat) returns (n: nat)
    requires at <= dest.Length
    modifies dest
    ensures n == if at + CharLen(code) <= dest.Length then CharLen(code) else 0
    ensures n > 0 ==> dest[..at + n] == old(dest[..at]) + Encode(code)
    ensures n == 0 ==> dest[..] == old(dest[..])
    ensures forall i :: at + n <= i < dest.Length ==> dest[i] == old(dest[i])
  {
    if CharLen(code) > dest.Length - at {
      return 0;
    }
    n := CharLen(code);
    if code < 0x80 {
      dest[at] := code;
    } else if code < 0x800 {
      dest[at] := 0xc0 + code / 64;
      dest[at + 1] := 0x80 + code % 64;
    } else if code < 0x1_0000 {
      dest[at] := 0xe0 + code / 4096;
      dest[at + 1] := 0x80 + code / 64 % 64;
      dest[at + 2] := 0x80 + code % 64;
    } else {
      dest[at] := 0xf0 + code / 0x4_0000 % 16;
      dest[at + 1] := 0x80 + code / 4096 % 64;
      dest[at + 2] := 0x80 + code / 64 % 64;
      dest[at + 3] := 0x80 + code % 64;
    }
  }

  /** CCodeUTF8::MNext at a position inside the buffer: it moves on by at least one byte and never
      past the end. */
  method MNext(src: seq<u8>, at: nat) returns (code: nat, next: nat)
    requires at < |src|
    ensures at < next <= |src|
    ensures code == Decode(src[at..]) && next == at + NextLen(src[at..])
  {
    var len := SeqLen(src[at]);
    var remain := |src| - at;
    if len > remain {
      len := remain;
    }
    match len {
      case 1 =>
        code := src[at];
      case 2 =>
        code := Two(src[at], src[at + 1]);
      case 3 =>
        code := Three(src[at], src[at + 1], src[at + 2]);
      case _ =>
        code := Four(src[at], src[at + 1], src[at + 2], src[at + 3]);
    }
    next := at + len;
  }

  /** CText::MFromUCS4: as many code points as fit, whole.  `k`: how many, `n`: their bytes. */
  method MFromUCS4(src: seq<u32>, dest: array<u8>) returns (k: nat, n: nat)
    modifies dest
    ensures k <= |src| && n <= dest.Length
    ensures dest[..n] == EncodeAll(src[..k])
    ensures k < |src| ==> |EncodeAll(src[..k + 1])| > dest.Length
  {
    k, n := 0, 0;
    while k != |src| && n != dest.Length
      invariant k <= |src| && n <= dest.Length && dest[..n] == EncodeAll(src[..k])
      decreases |src| - k
    {
      EncodeNext(src, k);
      var m := MAppend(src[k], dest, n);
      if m == 0 {
        return;
      }
      k, n := k + 1, n + m;
    }
    if k < |src| {
      EncodeNext(src, k);
    }
  }

  lemma {:induction false} EncodeAppend(cs: seq<u32>, c: u32)
    ensures EncodeAll(cs + [c]) == EncodeAll(cs) + Encode(c)
  {
    if cs == [] {
      assert cs + [c] == [c] && [c][1..] == [];
    } else {
      assert (cs + [c])[1..] == cs[1..] + [c];
      EncodeAppend(cs[1..], c);
    }
  }

  lemma EncodeNext(src: seq<u32>, k: nat)
    requires k < |src|
    ensures EncodeAll(src[..k + 1]) == EncodeAll(src[..k]) + Encode(src[k])
  {
    assert src[..k + 1] == src[..k] + [src[k]];
    EncodeAppend(src[..k], src[k]);
  }

  /** CText::MToUCS4: decodes until the source ends or the destination is full; it returns how many
      places are left. */
  method MToUCS4(src: seq<u8>, dest: array<nat>) returns (left: nat)
    modifies dest
    ensures left == dest.Length - Min(dest.Length, |DecodeAll(src)|)
    ensures dest[..dest.Length - left] == DecodeAll(src)[..dest.Length - left]
  {
    hide Decode, NextLen;
    var at, k := 0, 0;
    assert src[0..] == src;
    while at != |src| && k != dest.Length
      invariant at <= |src| && k <= dest.Length && dest[..k] + DecodeAll(src[at..]) == DecodeAll(src)
      decreases |src| - at
    {
      ghost var done, rest := dest[..k], src[at..];
      var code, next := MNext(src, at);
      assert rest[NextLen(rest)..] == src[next..];
      dest[k] := code;
      assert dest[..k + 1] == done + [code];
      Regroup(done, code, DecodeAll(src[next..]));
      at, k := next, k + 1;
    }
    left := dest.Length - k;
  }

  lemma Regroup(a: seq<nat>, c: nat, b: seq<nat>)
    ensures a + [c] + b == a + ([c] + b)
  {
  }

  /** A text written to bytes and read back, into buffers of the announced sizes, is unchanged. */
  method ThereAndBack(text: seq<u32>) returns (back: array<nat>)
    requires Narrow(text)
    ensures back[..] == text
  {
    var size := LengthCode(text);
    var bytes := new u8[size];
    var k, n := MFromUCS4(text, bytes);
    if k < |text| {
      PrefixIsShorter(text, k + 1);
    }
    assert text[..k] == text;
    RoundTrip(text);
    back := new nat[|text|];
    var left := MToUCS4(bytes[..n], back);
    assert back[..back.Length] == back[..];
  }

  lemma {:induction false} PrefixIsShorter(cs: seq<u32>, k: nat)
    requires k <= |cs|
    ensures |EncodeAll(cs[..k])| <= |EncodeAll(cs)|
  {
    if k > 0 {
      assert cs[..k][1..] == cs[1..][..k - 1];
      PrefixIsShorter(cs[1..], k - 1);
    }
  }
}
