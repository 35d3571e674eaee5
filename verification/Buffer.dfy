/**
  The u8 buffer with head-room of CBuffer.cpp, held by one owner: one block of storage in which
  the data occupies [start, start + size), and insertion that moves bytes in place.
*/
module Buffer {
  import opened Arithmetic

  const DEF_BUF_RESERVE := 256

  /** The start offset is a 16-bit field of the block's header. */
  const OFFSET_RANGE := 0x1_0000

  /** How many bytes to ask for so that `n` fit; 0 when the allocator can never hold them. */
  function RequiredLen(n: nat, cur: nat, beginSize: nat, max: nat): nat {
    if n > max then 0
    else
      var size :=
        if 4 * n <= 3 * DEF_BUF_RESERVE then DEF_BUF_RESERVE
        else if n <= 0x800 then 3 * n / 2
        else if n <= 0x1000 then n + 512
        else if n <= 0x3000 then n + 1024
        else if n <= 0xFFFF then n + 512
        else n + DEF_BUF_RESERVE;
      var len := size + beginSize;
      if len < cur || len > max then max else len
  }

  /** Below the allocator's limit there is room for the head-room and the data. */
  lemma RequiredLenFits(n: nat, cur: nat, beginSize: nat, max: nat)
    requires cur <= n
    ensures n > max ==> RequiredLen(n, cur, beginSize, max) == 0
    ensures n <= max ==> n <= RequiredLen(n, cur, beginSize, max) <= max
    ensures n <= max && beginSize + n > RequiredLen(n, cur, beginSize, max) ==> RequiredLen(n, cur, beginSize, max) == max
  {
  }

  /** Without the limit it leaves between 64 and 1024 bytes to grow into. */
  lemma RequiredLenReserve(n: nat, cur: nat, beginSize: nat, max: nat)
    requires cur <= n <= max
    ensures var len := RequiredLen(n, cur, beginSize, max);
      len == max || beginSize + n + 64 <= len <= beginSize + n + 1024
    ensures RequiredLen(n, cur, beginSize, max) == max ==> max <= beginSize + n + 1024
  {
  }

  function Min(a: int, b: int): int { if a < b then a else b }

  /** `s` with the n bytes at `from` copied to `to`. */
  function Moved(s: seq<u8>, to: nat, from: nat, n: nat): (t: seq<u8>)
    requires to + n <= |s| && from + n <= |s|
    ensures |t| == |s|
    ensures forall i :: 0 <= i < |s| ==> t[i] == if to <= i < to + n then s[from + (i - to)] else s[i]
  {
    s[..to] + s[from..from + n] + s[to + n..]
  }

  /** libc: copies, also between ranges that overlap. */
  method memmove(a: array<u8>, to: nat, from: nat, n: nat)
    requires to + n <= a.Length && from + n <= a.Length
    modifies a
    ensures a[..] == Moved(old(a[..]), to, from, n)
  {
    forall i | 0 <= i < n {
      a[to + i] := a[from + i];
    }
  }

  /** libc: the ranges must not overlap. */
  method memcpy(a: array<u8>, to: nat, from: nat, n: nat)
    requires to + n <= a.Length && from + n <= a.Length
    requires to + n <= from || from + n <= to
    modifies a
    ensures a[..] == Moved(old(a[..]), to, from, n)
  {
    memmove(a, to, from, n);
  }

  /** `Hole(at)`: n bytes at `at` in the storage are the caller's to fill.  `NoMemory`: the code
      stops because no block was given.  `Overrun`: the code would move bytes outside the block or
      lose high bits of the start offset. */
  datatype Inserted = Nothing | Hole(at: nat) | NoMemory | Overrun {
    predicate Matches(v: Verdict) {
      match v
      case Works => Hole?
      case NoBlock => NoMemory?
      case OutOfBounds => Overrun?
    }
  }

  /** Where the data lies in a block of `cap` bytes. */
  datatype Layout = Layout(start: nat, size: nat, cap: nat) {
    predicate Valid() { start + size <= cap }
    function Tail(): nat requires Valid() { cap - size - start }
  }

  /** Whether inserting n bytes after the first p needs a new block. */
  predicate NeedsBlock(l: Layout, n: nat)
    requires l.Valid()
  {
    l.start + l.Tail() < n
  }

  /** The front is used up and everything must slide to restore head-room. */
  predicate SlidesAll(l: Layout, p: nat, n: nat, beginSize: nat)
    requires l.Valid()
  {
    p == 0 < l.size && l.start < n <= l.Tail() && l.start < beginSize
  }

  /** How far everything slides. */
  function SlideBy(l: Layout, n: nat, beginSize: nat): nat
    requires l.Valid() && l.start < beginSize && n <= l.Tail()
  {
    Min(l.Tail() - n, beginSize - l.start)
  }

  /** Where the data begin after an insertion into an old block. */
  function StartAfter(l: Layout, p: nat, n: nat, beginSize: nat): nat
    requires l.Valid()
  {
    if p == 0 && n <= l.start then l.start - n
    else if SlidesAll(l, p, n, beginSize) then l.start + SlideBy(l, n, beginSize)
    else if l.Tail() < n && !NeedsBlock(l, n) then 0
    else l.start
  }

  lemma StartInTail(l: Layout, p: nat, n: nat, beginSize: nat)
    requires l.Valid() && n <= l.Tail() && !(p == 0 && n <= l.start)
    ensures StartAfter(l, p, n, beginSize) == l.start + if SlidesAll(l, p, n, beginSize) then SlideBy(l, n, beginSize) else 0
  {
  }

  /** When everything slides the head-room is restored, or no byte is left behind the data. */
  lemma HeadRoomRestored(l: Layout, n: nat, beginSize: nat)
    requires l.Valid() && SlidesAll(l, 0, n, beginSize)
    ensures var s := StartAfter(l, 0, n, beginSize);
      l.start <= s <= beginSize && s + l.size + n <= l.cap && (s == beginSize || s + l.size + n == l.cap)
  {
  }

  /** Exactly when inserting stays inside the block. */
  predicate Safe(l: Layout, p: nat, n: nat, beginSize: nat, max: nat)
    requires l.Valid()
  {
    if SlidesAll(l, p, n, beginSize) then n <= l.size && l.start + SlideBy(l, n, beginSize) < OFFSET_RANGE
    else NeedsBlock(l, n) ==> l.start + l.size + n <= RequiredLen(l.size + n, l.size, beginSize, max)
  }

  function Data(s: seq<u8>, start: nat, size: nat): (d: seq<u8>)
    requires start + size <= |s|
    ensures |d| == size
  {
    s[start..start + size]
  }

  lemma DataOfPrefix(s: seq<u8>, t: seq<u8>, start: nat, size: nat)
    requires start + size <= |s| <= |t| && t[..|s|] == s
    ensures Data(s, start, size) == Data(t, start, size)
  {
    assert forall i :: 0 <= i < |s| ==> t[..|s|][i] == s[i];
  }

  /** `t` is `s` with a hole of n bytes after its first p. */
  ghost predicate Opened(s: seq<u8>, t: seq<u8>, p: nat, n: nat) {
    && p <= |s| && |t| == |s| + n
    && t[..p] == s[..p]
    && t[p + n..] == s[p..]
  }

  lemma OpenedBytewise(s: seq<u8>, start: nat, t: seq<u8>, start2: nat, size: nat, p: nat, n: nat)
    requires p <= size && start + size <= |s| && start2 + size + n <= |t|
    requires forall j :: start2 <= j < start2 + p ==> t[j] == s[j - start2 + start]
    requires forall j :: start2 + n + p <= j < start2 + n + size ==> t[j] == s[j - n - start2 + start]
    ensures Opened(Data(s, start, size), Data(t, start2, size + n), p, n)
  {
    var d, e := Data(s, start, size), Data(t, start2, size + n);
    assert e[..p] == d[..p];
    assert |e[p + n..]| == |d[p..]|;
    forall i | 0 <= i < |d[p..]| ensures e[p + n..][i] == d[p..][i] {
      assert t[start2 + n + (p + i)] == s[start + (p + i)];
    }
  }

  lemma FrontOpens(s: seq<u8>, start: nat, size: nat, n: nat)
    requires start + size <= |s| && n <= start
    ensures Opened(Data(s, start, size), Data(s, start - n, size + n), 0, n)
  {
    OpenedBytewise(s, start, s, start - n, size, 0, n);
  }

  lemma SuffixInTwo(s: seq<u8>, start: nat, size: nat, p: nat, n: nat, shift: nat, j: nat)
    requires start + size + n + shift <= |s| && p + n <= size
    requires start + shift + n + p <= j < start + shift + n + size
    ensures
      var t := Moved(s, start + size + shift, start + size - n, n);
      Moved(t, start + p + n + shift, start + p, size - p - n)[j] == s[j - n - shift]
  {
    var t := Moved(s, start + size + shift, start + size - n, n);
    if j < start + size + shift {
      assert t[j - n - shift] == s[j - n - shift];
    }
  }

  /** The suffix in two moves, its last n bytes first, everything `shift` bytes further. */
  lemma TwoMovesOpen(s: seq<u8>, start: nat, size: nat, p: nat, n: nat, shift: nat)
    requires start + size + n + shift <= |s| && p + n <= size
    requires shift > 0 ==> p == 0
    ensures
      var t := Moved(s, start + size + shift, start + size - n, n);
      Opened(Data(s, start, size), Data(Moved(t, start + p + n + shift, start + p, size - p - n), start + shift, size + n), p, n)
  {
    var t := Moved(s, start + size + shift, start + size - n, n);
    var u := Moved(t, start + p + n + shift, start + p, size - p - n);
    forall j | start + shift + n + p <= j < start + shift + n + size ensures u[j] == s[j - n - (start + shift) + start] {
      SuffixInTwo(s, start, size, p, n, shift, j);
    }
    OpenedBytewise(s, start, u, start + shift, size, p, n);
  }

  lemma OneMoveOpens(s: seq<u8>, start: nat, size: nat, p: nat, n: nat)
    requires start + size + n <= |s| && p <= size
    ensures Opened(Data(s, start, size), Data(Moved(s, start + p + n, start + p, size - p), start, size + n), p, n)
  {
    var t := Moved(s, start + p + n, start + p, size - p);
    OpenedBytewise(s, start, t, start, size, p, n);
  }

  /** Prefix to the front, then the suffix behind the hole. */
  lemma SlidingOpens(s: seq<u8>, start: nat, size: nat, p: nat, n: nat)
    requires start + size <= |s| && p <= size && size + n <= |s|
    ensures
      var t := Moved(s, 0, start, p);
      Opened(Data(s, start, size), Data(Moved(t, p + n, start + p, size - p), 0, size + n), p, n)
  {
    var t := Moved(s, 0, start, p);
    var u := Moved(t, p + n, start + p, size - p);
    OpenedBytewise(s, start, u, 0, size, p, n);
  }

  function Filled(s: seq<u8>, at: nat, xs: seq<u8>): (t: seq<u8>)
    requires at + |xs| <= |s|
    ensures |t| == |s|
  {
    s[..at] + xs + s[at + |xs|..]
  }

  lemma FillsHole(d: seq<u8>, s: seq<u8>, start: nat, size: nat, p: nat, xs: seq<u8>)
    requires start + size <= |s| && Opened(d, Data(s, start, size), p, |xs|)
    ensures Data(Filled(s, start + p, xs), start, size) == With(d, p, xs)
  {
    var at, t := start + p, Data(s, start, size);
    var f := Filled(s, at, xs);
    assert f[..at] == s[..at] && f[at..at + |xs|] == xs && f[at + |xs|..] == s[at + |xs|..];
    assert f[start..at] == s[start..at] == t[..p];
    assert f[at + |xs|..start + size] == s[at + |xs|..start + size] == t[p + |xs|..];
    assert f[start..start + size] == f[start..at] + f[at..at + |xs|] + f[at + |xs|..start + size];
  }

  /** Whether inserting n > 0 bytes works, finds no block, or leaves the bounds. */
  datatype Verdict = Works | NoBlock | OutOfBounds

  function Judge(l: Layout, held: bool, p: nat, n: nat, beginSize: nat, max: nat, available: bool): Verdict
    requires l.Valid()
  {
    var len := RequiredLen(l.size + n, l.size, beginSize, max);
    if NeedsBlock(l, n) && (len == 0 || !available) then NoBlock
    else if !held then (if beginSize % OFFSET_RANGE + n <= len then Works else OutOfBounds)
    else if Safe(l, p, n, beginSize, max) then Works
    else OutOfBounds
  }

  lemma JudgeNothing(n: nat, beginSize: nat, max: nat, available: bool)
    requires n > 0
    ensures Judge(Layout(0, 0, 0), false, 0, n, beginSize, max, available) ==
      var len := RequiredLen(n, 0, beginSize, max);
      if len == 0 || !available then NoBlock else if beginSize % OFFSET_RANGE + n <= len then Works else OutOfBounds
  {
    hide RequiredLen;
    assert NeedsBlock(Layout(0, 0, 0), n);
  }

  lemma JudgeTail(l: Layout, p: nat, n: nat, beginSize: nat, max: nat)
    requires l.Valid() && n <= l.Tail()
    ensures Judge(l, true, p, n, beginSize, max, true) ==
      if SlidesAll(l, p, n, beginSize) && (l.size < n || l.start + SlideBy(l, n, beginSize) >= OFFSET_RANGE) then OutOfBounds else Works
  {
  }

  /** Where head-room or both ends together suffice, inserting works whatever the allocator says. */
  lemma JudgeRoom(l: Layout, p: nat, n: nat, beginSize: nat, max: nat, available: bool)
    requires l.Valid() && p <= l.size && n > 0
    ensures n <= l.Tail() || (p == 0 && n <= l.start) ==>
      Judge(l, true, p, n, beginSize, max, available) == Judge(l, true, p, n, beginSize, max, true) != NoBlock
    ensures (p == 0 && n <= l.start) || l.Tail() < n <= l.start + l.Tail() ==>
      Judge(l, true, p, n, beginSize, max, available) == Works
  {
  }

  lemma NothingOpens(t: seq<u8>)
    ensures Opened([], t, 0, |t|)
  {
  }

  /** `d` with `xs` written over what stands after its first p, as far as it goes. */
  function Over(d: seq<u8>, p: nat, xs: seq<u8>): seq<u8> {
    if p > |d| then d else if p + |xs| <= |d| then d[..p] + xs + d[p + |xs|..] else d[..p] + xs[..|d| - p]
  }

  lemma FilledOver(s: seq<u8>, start: nat, size: nat, p: nat, xs: seq<u8>)
    requires start + size <= |s| && p <= size && start + p + |xs| <= |s|
    ensures Data(Filled(s, start + p, xs), start, size) == Over(Data(s, start, size), p, xs)
  {
    var at, d := start + p, Data(s, start, size);
    var f := Filled(s, at, xs);
    assert f[..at] == s[..at] && f[at..at + |xs|] == xs && f[at + |xs|..] == s[at + |xs|..];
    assert f[start..at] == s[start..at] == d[..p];
    if p + |xs| <= size {
      assert f[start..start + size] == f[start..at] + f[at..at + |xs|] + f[at + |xs|..start + size];
      assert f[at + |xs|..start + size] == f[at + |xs|..][..size - p - |xs|] == d[p + |xs|..];
    } else {
      assert f[start..start + size] == f[start..at] + f[at..start + size];
      assert f[at..start + size] == f[at..at + |xs|][..size - p];
    }
  }

  lemma AtTheEnds(d: seq<u8>, x: u8)
    ensures With(d, |d|, [x]) == d + [x] && With(d, 0, [x]) == [x] + d
    ensures Over(d, 0, [x]) == (if d == [] then [] else [x] + d[1..]) && Over(d, |d|, [x]) == d
  {
  }

  /** `d` with `xs` inserted after its first p. */
  function With(d: seq<u8>, p: nat, xs: seq<u8>): seq<u8> {
    if p <= |d| then d[..p] + xs + d[p..] else d
  }

  class CBuffer {
    const BEGIN_SIZE: nat
    const maxSize: nat            // of the allocator
    var storage: array?<u8>     // its length is the block's FBufSize
    var start: nat
    var size: nat

    ghost predicate Valid()
      reads this
    {
      if storage == null then start == 0 && size == 0
      else start + size <= storage.Length && start < OFFSET_RANGE
    }

    function Shape(): Layout
      reads this
      requires Valid()
      ensures Shape().Valid()
    {
      Layout(start, size, if storage == null then 0 else storage.Length)
    }

    ghost function Contents(): (s: seq<u8>)
      reads this, storage
      requires Valid()
      ensures |s| == size
    {
      if storage == null then [] else Data(storage[..], start, size)
    }

    constructor (aBeginSize: int, aMaxSize: nat)
      ensures Valid() && storage == null && Contents() == []
      ensures BEGIN_SIZE == (if aBeginSize < 0 then DEF_BUF_RESERVE else aBeginSize) && maxSize == aMaxSize
    {
      BEGIN_SIZE := if aBeginSize < 0 then DEF_BUF_RESERVE else aBeginSize;
      maxSize := aMaxSize;
      storage := null;
      start, size := 0, 0;
    }

    function RequredBufLen(n: nat): nat
      reads this
    {
      RequiredLen(n, size, BEGIN_SIZE, maxSize)
    }

    function Judged(p: nat, n: nat, available: bool): Verdict
      reads this
      requires Valid()
    {
      Judge(Shape(), storage != null, p, n, BEGIN_SIZE, maxSize, available)
    }

    /** A block for `n` bytes behind head-room, or null; `available`: the allocator's answer. */
    method MAllocate(n: nat, available: bool) returns (p: array?<u8>, offset: nat)
      ensures p == null <==> RequredBufLen(n) == 0 || !available
      ensures p != null ==> fresh(p) && p.Length == RequredBufLen(n)
      ensures offset == BEGIN_SIZE % OFFSET_RANGE
    {
      var len := RequredBufLen(n);
      offset := BEGIN_SIZE % OFFSET_RANGE;
      if len == 0 || !available {
        return null, offset;
      }
      p := new u8[len](_ => 0);
    }

    /** The block enlarged to hold `n` bytes, its old bytes at the same offsets. */
    method MReAllocate(a: array<u8>, n: nat, available: bool) returns (p: array?<u8>)
      requires a.Length <= RequredBufLen(n) || RequredBufLen(n) == 0
      ensures p == null <==> RequredBufLen(n) == 0 || !available
      ensures p != null ==> fresh(p) && p.Length == RequredBufLen(n) && p[..a.Length] == a[..]
    {
      var len := RequredBufLen(n);
      if len == 0 || !available {
        return null;
      }
      p := new u8[len](i requires 0 <= i reads a => if i < a.Length then a[i] else 0);
    }

    /** Room for n bytes after the first p of the data. */
    method MInsertImpl(p: nat, n: nat, available: bool) returns (r: Inserted)
      requires Valid() && p <= size
      modifies this, storage
      ensures Valid()
      ensures storage == old(storage) || fresh(storage)
      ensures if n == 0 then r == Nothing else r.Matches(old(Judged(p, n, available)))
      ensures old(start) <= BEGIN_SIZE ==> start <= BEGIN_SIZE
      ensures !r.Hole? ==> storage == old(storage) && start == old(start) && size == old(size) && Contents() == old(Contents())
      ensures r.Hole? ==> storage != null && r.at == start + p && Opened(old(Contents()), Contents(), p, n)
      ensures r.Hole? && old(storage) != null ==> start == old(StartAfter(Shape(), p, n, BEGIN_SIZE))
      ensures r.Hole? && old(storage) == null ==> start == BEGIN_SIZE % OFFSET_RANGE
      ensures r.Hole? && old(storage) != null && n <= old(storage.Length - size) ==> storage == old(storage)
      ensures r.Hole? && (old(storage) == null || n > old(storage.Length - size)) ==>
        storage.Length == RequiredLen(old(size) + n, old(size), BEGIN_SIZE, maxSize)
    {
      hide Opened, Data, RequiredLen, Moved, Judge, Safe;
      if n == 0 {
        return Nothing;
      }
      if storage == null {
        r := InsertIntoNothing(n, available);
        return;
      }
      var front, tail := start, storage.Length - size - start;
      JudgeRoom(Shape(), p, n, BEGIN_SIZE, maxSize, available);
      if p == 0 && front >= n {
        r := InsertInFront(n);
      } else if tail >= n {
        r := InsertIntoTail(p, n);
      } else if front + tail >= n {
        r := InsertBySliding(p, n);
      } else {
        r := InsertByReallocating(p, n, available);
      }
    }

    method InsertIntoNothing(n: nat, available: bool) returns (r: Inserted)
      requires Valid() && storage == null && n > 0
      modifies this
      ensures Valid()
      ensures storage == old(storage) || fresh(storage)
      ensures r.Matches(old(Judged(0, n, available)))
      ensures old(start) <= BEGIN_SIZE ==> start <= BEGIN_SIZE
      ensures !r.Hole? ==> storage == old(storage) && start == old(start) && size == old(size)
      ensures r.Hole? ==> storage != null && r.at == start && Opened([], Contents(), 0, n)
      ensures r.Hole? ==> start == BEGIN_SIZE % OFFSET_RANGE && storage.Length == RequiredLen(n, 0, BEGIN_SIZE, maxSize)
    {
      hide RequiredLen, Data, Safe, Judge, Opened;
      JudgeNothing(n, BEGIN_SIZE, maxSize, available);
      var a, offset := MAllocate(n, available);
      if a == null {
        return NoMemory;
      }
      if a.Length < offset + n {
        return Overrun;
      }
      assert 0 <= offset < OFFSET_RANGE;
      storage, start, size := a, offset, n;
      NothingOpens(Contents());
      r := Hole(start);
    }

    method InsertInFront(n: nat) returns (r: Inserted)
      requires Valid() && storage != null && n <= start
      modifies this
      ensures Valid() && storage == old(storage)
      ensures old(start) <= BEGIN_SIZE ==> start <= BEGIN_SIZE
      ensures r == Hole(start) && Opened(old(Contents()), Contents(), 0, n)
      ensures start == old(start) - n
    {
      FrontOpens(storage[..], start, size, n);
      start, size := start - n, size + n;
      r := Hole(start);
    }

    /** There is room behind the data. */
    method InsertIntoTail(p: nat, n: nat) returns (r: Inserted)
      requires Valid() && storage != null && p <= size && 0 < n <= storage.Length - size - start
      requires !(p == 0 && start >= n)
      modifies this, storage
      ensures Valid() && storage == old(storage)
      ensures r.Matches(old(Judged(p, n, true)))
      ensures old(start) <= BEGIN_SIZE ==> start <= BEGIN_SIZE
      ensures r.Overrun? ==> start == old(start) && size == old(size) && Contents() == old(Contents())
      ensures r.Hole? ==> r.at == start + p && Opened(old(Contents()), Contents(), p, n)
      ensures r.Hole? ==> start == old(StartAfter(Shape(), p, n, BEGIN_SIZE))
    {
      hide StartAfter, NeedsBlock, Moved, Data, RequiredLen, Opened, Judge, Safe;
      ghost var s := storage[..];
      StartInTail(Shape(), p, n, BEGIN_SIZE);
      JudgeTail(Shape(), p, n, BEGIN_SIZE, maxSize);
      var at, end, after := start + p, start + size, size - p;
      var beginUsedUp := p == 0 && start < BEGIN_SIZE;
      if after == 0 {
        OpenedBytewise(s, start, s, start, size, p, n);
      } else if beginUsedUp {
        var shift := Min(storage.Length - size - start - n, BEGIN_SIZE - start);
        if after < n || start + shift >= OFFSET_RANGE {
          return Overrun;
        }
        r := SlideAll(n, shift);
        return;
      } else if after > n {
        TwoMovesOpen(s, start, size, p, n, 0);
        memcpy(storage, end, end - n, n);
        memmove(storage, at + n, at, after - n);
      } else {
        OneMoveOpens(s, start, size, p, n);
        memcpy(storage, at + n, at, after);
      }
      size := size + n;
      r := Hole(at);
    }

    /** Everything slides, first the last n bytes, then the others. */
    method SlideAll(n: nat, shift: nat) returns (r: Inserted)
      requires Valid() && storage != null && n <= size && start + size + n + shift <= storage.Length && start + shift < OFFSET_RANGE
      modifies this, storage
      ensures Valid() && storage == old(storage) && start == old(start) + shift
      ensures r == Hole(start) && Opened(old(Contents()), Contents(), 0, n)
    {
      hide Moved, Data, Opened;
      var end := start + size;
      TwoMovesOpen(storage[..], start, size, 0, n, shift);
      memcpy(storage, end + shift, end - n, n);
      memmove(storage, start + n + shift, start, size - n);
      start, size := start + shift, size + n;
      r := Hole(start);
    }

    /** Front and tail together have room: slide the prefix to the front. */
    method InsertBySliding(p: nat, n: nat) returns (r: Inserted)
      requires Valid() && storage != null && p <= size
      requires n <= storage.Length - size
      modifies this, storage
      ensures Valid() && storage == old(storage)
      ensures old(start) <= BEGIN_SIZE ==> start <= BEGIN_SIZE
      ensures r == Hole(start + p) && Opened(old(Contents()), Contents(), p, n)
      ensures start == 0
    {
      hide Moved, Data;
      SlidingOpens(storage[..], start, size, p, n);
      var at := start + p;
      memmove(storage, 0, start, p);
      memmove(storage, at + n - start, at, size - p);
      at := at - start;
      start := 0;
      size := size + n;
      r := Hole(at);
    }

    method InsertByReallocating(p: nat, n: nat, available: bool) returns (r: Inserted)
      requires Valid() && storage != null && p <= size && storage.Length - size < n
      modifies this
      ensures Valid()
      ensures storage == old(storage) || fresh(storage)
      ensures r.Matches(old(Judged(p, n, available)))
      ensures old(start) <= BEGIN_SIZE ==> start <= BEGIN_SIZE
      ensures !r.Hole? ==> storage == old(storage) && start == old(start) && size == old(size)
      ensures r.Hole? ==> storage != null && r.at == start + p && Opened(old(Contents()), Contents(), p, n)
      ensures r.Hole? ==> start == old(start) && storage.Length == RequiredLen(old(size) + n, old(size), BEGIN_SIZE, maxSize)
    {
      hide Opened, Data, RequiredLen, Moved;
      RequiredLenFits(size + n, size, BEGIN_SIZE, maxSize);
      var a := MReAllocate(storage, size + n, available);
      if a == null {
        return NoMemory;
      }
      if a.Length < start + size + n {
        return Overrun;
      }
      var at, after := start + p, size - p;
      ghost var s := a[..];
      assert Data(storage[..], start, size) == Data(s, start, size) by {
        assert s[..storage.Length] == storage[..];
        DataOfPrefix(storage[..], s, start, size);
      }
      OpenedBytewise(s, start, s, start, size, size, n);
      OneMoveOpens(s, start, size, p, n);
      if after > 0 {
        memmove(a, at + n, at, after);
      }
      storage := a;
      size := size + n;
      r := Hole(at);
    }

    // ----- callers

    method MFill(at: nat, xs: seq<u8>)
      requires Valid() && storage != null && at + |xs| <= storage.Length
      modifies storage
      ensures storage[..] == Filled(old(storage[..]), at, xs)
    {
      forall i | 0 <= i < |xs| {
        storage[at + i] := xs[i];
      }
    }

    /** Filling the hole that was opened in `d`. */
    method FillHole(at: nat, xs: seq<u8>, ghost d: seq<u8>, ghost p: nat)
      requires Valid() && storage != null && at == start + p && Opened(d, Contents(), p, |xs|)
      modifies storage
      ensures Valid() && Contents() == With(d, p, xs)
    {
      hide Data, Filled;
      FillsHole(d, storage[..], start, size, p, xs);
      MFill(at, xs);
    }

    /** insert(position, begin, end) with a source outside this buffer; `stops`: the fatal log of a
        failed reallocation ends the program, as it does unless the build only logs it.  Otherwise
        the caller takes the unchanged position for a hole and overwrites what stands there. */
    method Insert(p: nat, xs: seq<u8>, available: bool, stops: bool) returns (r: Inserted)
      requires Valid() && p <= size
      modifies this, storage
      ensures Valid()
      ensures storage == old(storage) || fresh(storage)
      ensures if xs == [] then r == Nothing else if old(Spills(p, |xs|, available, stops)) then r.Overrun? else r.Matches(old(Judged(p, |xs|, available)))
      ensures old(start) <= BEGIN_SIZE ==> start <= BEGIN_SIZE
      ensures r.Hole? ==> Contents() == With(old(Contents()), p, xs)
      ensures r.NoMemory? && !stops && old(storage) != null ==> Contents() == Over(old(Contents()), p, xs)
      ensures !r.Hole? && (r.NoMemory? ==> stops || old(storage) == null) ==> Contents() == old(Contents())
    {
      hide Data, With, Over, Judge, Opened, Filled;
      ghost var was := Contents();
      r := MInsertImpl(p, |xs|, available);
      if r.Hole? {
        assert Opened(was, Contents(), p, |xs|);
        FillHole(r.at, xs, was, p);
      } else if r.NoMemory? && !stops && storage != null {
        if start + p + |xs| > storage.Length {
          return Overrun;
        }
        FilledOver(storage[..], start, size, p, xs);
        MFill(start + p, xs);
      }
    }

    /** No memory, no stop, and no room for the bytes at the place that is not a hole. */
    predicate Spills(p: nat, n: nat, available: bool, stops: bool)
      reads this
      requires Valid()
    {
      Judged(p, n, available) == NoBlock && !stops && storage != null && start + p + n > storage.Length
    }

    method PushBack(x: u8, available: bool, stops: bool) returns (r: Inserted)
      requires Valid()
      modifies this, storage
      ensures Valid()
      ensures old(start) <= BEGIN_SIZE ==> start <= BEGIN_SIZE
      ensures Contents() == if r.Hole? then old(Contents()) + [x] else old(Contents())
      ensures old(start) <= BEGIN_SIZE < OFFSET_RANGE && BEGIN_SIZE + old(size) + 1 <= maxSize && available ==> r.Hole?
    {
      hide RequiredLen, Judge, With, Over, Data;
      if start <= BEGIN_SIZE < OFFSET_RANGE && BEGIN_SIZE + size + 1 <= maxSize {
        InsertWorks(Shape(), storage != null, size, 1, BEGIN_SIZE, maxSize);
      }
      AtTheEnds(Contents(), x);
      r := Insert(size, [x], available, stops);
    }

    /** Without memory and without a stop the first byte is lost. */
    method PushFront(x: u8, available: bool, stops: bool) returns (r: Inserted)
      requires Valid()
      modifies this, storage
      ensures Valid()
      ensures old(start) <= BEGIN_SIZE ==> start <= BEGIN_SIZE
      ensures r.Hole? ==> Contents() == [x] + old(Contents())
      ensures r.NoMemory? && !stops && old(size) > 0 ==> Contents() == [x] + old(Contents())[1..]
      ensures !r.Hole? && (r.NoMemory? ==> stops) ==> Contents() == old(Contents())
      ensures old(start) <= BEGIN_SIZE < OFFSET_RANGE && BEGIN_SIZE + old(size) + 1 <= maxSize && available ==> r.Hole?
    {
      hide RequiredLen, Judge, With, Over, Data;
      if start <= BEGIN_SIZE < OFFSET_RANGE && BEGIN_SIZE + size + 1 <= maxSize {
        InsertWorks(Shape(), storage != null, 0, 1, BEGIN_SIZE, maxSize);
      }
      AtTheEnds(Contents(), x);
      r := Insert(0, [x], available, stops);
    }

    method PopBack()
      requires Valid()
      modifies this
      ensures Valid() && storage == old(storage)
      ensures Contents() == if old(size) == 0 then [] else old(Contents())[..old(size) - 1]
    {
      if size > 0 {
        size := size - 1;
      }
    }

    /** resize.  Growing opens a hole at either end, shrinking at the back keeps a prefix; shrinking at
        the front moves the start and keeps the size, so that the data may reach behind the block. */
    method Resize(newSize: nat, fromBegin: bool, available: bool) returns (r: Inserted)
      requires Valid()
      modifies this, storage
      ensures newSize >= old(size) || newSize == 0 || !fromBegin ==> Valid()
      ensures newSize <= old(size) && (newSize == old(size) || newSize == 0 || !fromBegin) ==> r.Nothing? && Contents() == old(Contents())[..newSize]
      ensures newSize > old(size) && r.Hole? && fromBegin ==> size == newSize && Contents()[newSize - old(size)..] == old(Contents())
      ensures newSize > old(size) && r.Hole? && !fromBegin ==> size == newSize && Contents()[..old(size)] == old(Contents())
      ensures newSize > old(size) && !r.Hole? ==> Contents() == old(Contents())
      ensures newSize > old(size) ==> r.Matches(old(Judged(if fromBegin then 0 else size, newSize - size, available)))
      ensures 0 < newSize < old(size) && fromBegin ==> r.Nothing? && storage == old(storage) && size == old(size) && start == FrontShrunk(old(Shape()), newSize).start
      ensures 0 < newSize < old(size) && fromBegin && old(ShrinksRight(Shape(), newSize)) ==>
        Valid() && Contents()[..newSize] == old(Contents())[old(size) - newSize..]
    {
      hide RequiredLen, Moved, Data, StartAfter, Judge, Safe, NeedsBlock, SlidesAll;
      if storage == null && newSize > 0 {
        r := InsertIntoNothing(newSize, available);
      } else if newSize < size {
        r := Nothing;
        if newSize == 0 {
          storage, start, size := null, 0, 0;
        } else if fromBegin {
          if ShrinksRight(Shape(), newSize) {
            FrontShrinkKeeps(storage[..], Shape(), newSize);
          }
          start := (start + size - newSize) % OFFSET_RANGE;
        } else {
          DataShrinks(storage[..], start, size, newSize);
          size := newSize;
        }
      } else {
        r := MInsertImpl(if fromBegin then 0 else size, newSize - size, available);
      }
    }
  }

  lemma DataShrinks(s: seq<u8>, start: nat, size: nat, newSize: nat)
    requires start + size <= |s| && newSize <= size
    ensures Data(s, start, newSize) == Data(s, start, size)[..newSize]
  {
  }

  /** What shrinking at the front makes of the layout: the start moves, on 16 bits, and the size stays. */
  function FrontShrunk(l: Layout, newSize: nat): Layout
    requires newSize <= l.size
  {
    l.(start := (l.start + l.size - newSize) % OFFSET_RANGE)
  }

  /** The data begin where the bytes to be kept lie, and are inside the block. */
  predicate ShrinksRight(l: Layout, newSize: nat)
    requires newSize <= l.size
  {
    FrontShrunk(l, newSize).start == l.start + l.size - newSize && FrontShrunk(l, newSize).Valid()
  }

  /** That is so exactly when the new start fits 16 bits and the bytes behind the data are at least
      as many as those given up. */
  lemma FrontShrinkFits(l: Layout, newSize: nat)
    requires l.Valid() && newSize <= l.size
    ensures ShrinksRight(l, newSize) <==> l.start + l.size - newSize < OFFSET_RANGE && l.size - newSize <= l.Tail()
  {
  }

  /** Then the bytes kept come first, and stale ones behind them make up the old size. */
  lemma FrontShrinkKeeps(t: seq<u8>, l: Layout, newSize: nat)
    requires l.Valid() && l.cap == |t| && newSize <= l.size && ShrinksRight(l, newSize)
    ensures Data(t, FrontShrunk(l, newSize).start, l.size)[..newSize] == Data(t, l.start, l.size)[l.size - newSize..]
    ensures Data(t, FrontShrunk(l, newSize).start, l.size)[newSize..] == t[l.start + l.size..l.start + l.size + l.size - newSize]
  {
  }

  /** Four bytes that fill their block, shrunk at the front to two: the data reach behind the block. */
  lemma FrontShrinkLeaves()
    ensures Layout(0, 4, 4).Valid() && !FrontShrunk(Layout(0, 4, 4), 2).Valid()
  {
  }

  /** 70000 bytes in a large block, shrunk at the front to 100: the start wraps around, and the data
      are other bytes of the block. */
  lemma FrontShrinkWraps()
    ensures var l := Layout(256, 70000, 140000);
      l.Valid() && FrontShrunk(l, 100).Valid() && FrontShrunk(l, 100).start == 4620 && l.start + l.size - 100 == 70156
  {
  }

  /** A block must be had, and the one asked for cannot hold head-room and data. */
  predicate Outgrows(l: Layout, n: nat, beginSize: nat, max: nat)
    requires l.Valid()
  {
    NeedsBlock(l, n) && l.start + l.size + n > RequiredLen(l.size + n, l.size, beginSize, max)
  }

  /** That takes more head-room than BEGIN_SIZE, which only shrinking at the front leaves, or data that
      come close to the allocator's limit. */
  lemma GrownFits(l: Layout, n: nat, beginSize: nat, max: nat)
    requires l.Valid() && l.start <= beginSize && beginSize + l.size + n <= max
    ensures !Outgrows(l, n, beginSize, max)
  {
    RequiredLenFits(l.size + n, l.size, beginSize, max);
  }

  /** Behind the first byte nothing else overruns. */
  lemma AppendingIsSafe(l: Layout, p: nat, n: nat, beginSize: nat, max: nat)
    requires l.Valid() && p > 0
    ensures Safe(l, p, n, beginSize, max) <==> !Outgrows(l, n, beginSize, max)
    ensures l.start <= beginSize && beginSize + l.size + n <= max ==> Safe(l, p, n, beginSize, max)
  {
    if l.start <= beginSize && beginSize + l.size + n <= max {
      GrownFits(l, n, beginSize, max);
    }
  }

  /** At the front it also overruns when the data must slide and is shorter than the hole. */
  lemma PrependingIsSafe(l: Layout, n: nat, beginSize: nat, max: nat)
    requires l.Valid() && beginSize < OFFSET_RANGE
    ensures Safe(l, 0, n, beginSize, max) <==> !(SlidesAll(l, 0, n, beginSize) && l.size < n) && !Outgrows(l, n, beginSize, max)
    ensures l.start <= beginSize && beginSize + l.size + n <= max ==>
      (Safe(l, 0, n, beginSize, max) <==> !(SlidesAll(l, 0, n, beginSize) && l.size < n))
  {
    if l.start <= beginSize && beginSize + l.size + n <= max {
      GrownFits(l, n, beginSize, max);
    }
  }

  /** What shrinking at the front leaves can be outgrown: 60000 bytes of head-room before 70000 of data. */
  lemma LargeStartOutgrows()
    ensures var l := Layout(60000, 70000, 130000); l.Valid() && Outgrows(l, 60001, DEF_BUF_RESERVE, 0xFFFF_FFFF)
  {
  }

  /** An insertion not longer than the data, given memory, always finds its hole. */
  lemma InsertWorks(l: Layout, held: bool, p: nat, n: nat, beginSize: nat, max: nat)
    requires l.Valid() && p <= l.size && 0 < n && (l.size == 0 || p > 0 || n <= l.size)
    requires held || l == Layout(0, 0, 0)
    requires l.start <= beginSize < OFFSET_RANGE && beginSize + l.size + n <= max
    ensures Judge(l, held, p, n, beginSize, max, true) == Works
  {
    RequiredLenFits(l.size + n, l.size, beginSize, max);
    if p > 0 {
      AppendingIsSafe(l, p, n, beginSize, max);
    } else {
      PrependingIsSafe(l, n, beginSize, max);
    }
  }

  /** A 4-byte buffer whose head-room shrank to 10, asked for 20 bytes in front: the suffix copy
      starts 6 bytes before the storage. */
  lemma PrependingCanOverrun()
    ensures var l := Layout(10, 4, 512); l.Valid() && !Safe(l, 0, 20, DEF_BUF_RESERVE, 0xFFFF_FFFF)
  {
  }
}
