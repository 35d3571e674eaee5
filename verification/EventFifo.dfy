/**
  event_fifo_t: the ring of events in shared memory, whose read and write positions run modulo a
  multiple of the ring's size.
*/
module EventFifo {
  import opened Arithmetic

  /** A buffer handed over by its offset, or an event that carries none. */
  datatype Event = Data(offset: nat, size: nat) | Other(kind: nat)

  const EVENT_RESERV := 4
  const UINT16_MAX := 65535

  /** The largest ring in which full can be told from empty. */
  const MAX_PLACES := 32767

  function DataCount(q: seq<Event>): nat {
    if q == [] then 0 else (if q[0].Data? then 1 else 0) + DataCount(q[1..])
  }

  lemma {:induction false} DataCountAppend(q: seq<Event>, e: Event)
    ensures DataCount(q + [e]) == DataCount(q) + if e.Data? then 1 else 0
  {
    if q == [] {
      assert q + [e] == [e];
    } else {
      assert (q + [e])[1..] == q[1..] + [e];
      DataCountAppend(q[1..], e);
    }
  }

  function MaxData(arraySize: nat): nat {
    if arraySize > EVENT_RESERV then arraySize - EVENT_RESERV else arraySize
  }

  /** When the queue `q` in a ring of that size takes one more event: the last places are kept for
      events without data. */
  predicate Accepts(q: seq<Event>, e: Event, arraySize: nat) {
    |q| < arraySize && (e.Data? ==> DataCount(q) < MaxData(arraySize))
  }

  // ----- positions

  /** The largest multiple of the ring's size that fits 16 bits. */
  function MaxValue(arraySize: nat): nat
    requires arraySize > 0
  {
    UINT16_MAX / arraySize * arraySize
  }

  function Inc(v: nat, max: nat): nat
    requires max > 0
  {
    (v + 1) % max
  }

  /** On 16 bits: below zero comes 65535. */
  function Dec(v: nat, max: nat): nat
    requires max > 0
  {
    (if v == 0 then UINT16_MAX else v - 1) % max
  }

  lemma MaxValueBounds(a: nat)
    requires 0 < a <= MAX_PLACES
    ensures 2 * a <= MaxValue(a) <= UINT16_MAX < MaxValue(a) + a
  {
    var q := UINT16_MAX / a;
    assert q >= 2;
    assert q * a >= 2 * a;
  }

  /** Stepping back from position 0 does not reach the position before it, except in a ring of 32768
      places, so a search that walks backwards over the wrap does not find the read position. */
  lemma DecUndoesInc(v: nat, a: nat)
    requires 0 < a <= UINT16_MAX && v < MaxValue(a)
    ensures Dec(Inc(v, MaxValue(a)), MaxValue(a)) == v <==> v != MaxValue(a) - 1 || a == MAX_PLACES + 1
  {
    hide MaxValue;
    var m := MaxValue(a);
    if a <= MAX_PLACES {
      MaxValueBounds(a);
    } else {
      MaxValueOfLarge(a);
    }
    if v != m - 1 {
      Remainder(v + 1, m, 0, v + 1);
      Remainder(v, m, 0, v);
    } else {
      Remainder(v + 1, m, 1, 0);
      Remainder(UINT16_MAX, m, 1, UINT16_MAX - m);
    }
  }

  lemma MaxValueOfLarge(a: nat)
    requires MAX_PLACES < a <= UINT16_MAX
    ensures MaxValue(a) == a
  {
    Remainder(UINT16_MAX, a, 1, UINT16_MAX - a);
  }

  lemma AddMultiple(r: nat, q: nat, a: nat)
    requires a > 0
    ensures (r + q * a) % a == r % a
  {
    assert r + q * a == (r / a + q) * a + r % a by {
      assert r == (r / a) * a + r % a;
      assert (r / a + q) * a == (r / a) * a + q * a;
    }
    Remainder(r + q * a, a, r / a + q, r % a);
  }

  /** Positions wrap without changing their place in the ring. */
  lemma WrapKeepsSlot(x: nat, k: nat, a: nat, i: nat)
    requires a > 0 && k > 0
    ensures k * a > 0 && (x % (k * a) + i) % a == (x + i) % a
  {
    ProductGrows(k, a);
    var m := k * a;
    var q := Quotient(x, m);
    Regroup(q, k, a);
    AddMultiple(x % m + i, q * k, a);
  }

  lemma Quotient(x: nat, m: nat) returns (q: nat)
    requires m > 0
    ensures x == q * m + x % m
  {
    q := x / m;
  }

  lemma Regroup(q: nat, k: nat, a: nat)
    ensures q * (k * a) == (q * k) * a
  {
  }

  /** Within one turn of the ring, places are distinct. */
  lemma SlotsDiffer(x: nat, i: nat, j: nat, a: nat)
    requires 0 <= i < j < i + a
    ensures (x + i) % a != (x + j) % a
  {
    if (x + i) % a == (x + j) % a {
      var p, q, r := (x + i) / a, (x + j) / a, (x + i) % a;
      assert x + i == p * a + r && x + j == q * a + r;
      assert (q - p) * a == j - i by {
        assert (q - p) * a == q * a - p * a;
      }
      SmallProduct(q - p, a);
    }
  }

  lemma SuccCongruent(y: nat, z: nat, a: nat)
    requires a > 0 && y % a == z % a
    ensures (y + 1) % a == (z + 1) % a
  {
    var r := y % a;
    assert y == (y / a) * a + r && z == (z / a) * a + r;
    AddMultiple(r + 1, y / a, a);
    AddMultiple(r + 1, z / a, a);
  }

  // ----- the ring

  function Slot(x: nat, a: nat): (i: nat)
    requires a > 0
    ensures i < a
  {
    x % a
  }

  /** The n events from position `read` on. */
  function Ring(info: seq<Event>, read: nat, n: nat): (q: seq<Event>)
    requires info != []
    ensures |q| == n
    decreases n
  {
    if n == 0 then [] else [info[Slot(read, |info|)]] + Ring(info, read + 1, n - 1)
  }

  lemma RingFirst(info: seq<Event>, read: nat, n: nat)
    requires info != [] && n > 0
    ensures Ring(info, read, n) == [info[Slot(read, |info|)]] + Ring(info, read + 1, n - 1)
  {
  }

  lemma {:induction false} RingLast(info: seq<Event>, read: nat, n: nat)
    requires info != []
    ensures Ring(info, read, n + 1) == Ring(info, read, n) + [info[Slot(read + n, |info|)]]
    decreases n
  {
    if n > 0 {
      RingLast(info, read + 1, n - 1);
    }
  }

  lemma {:induction false} RingUntouched(info: seq<Event>, read: nat, n: nat, x: nat, e: Event)
    requires info != [] && read + n <= x < read + |info|
    ensures Ring(info[Slot(x, |info|) := e], read, n) == Ring(info, read, n)
    decreases n
  {
    if n > 0 {
      SlotsDiffer(0, read, x, |info|);
      RingUntouched(info, read + 1, n - 1, x, e);
    }
  }

  lemma {:induction false} RingCongruent(info: seq<Event>, y: nat, z: nat, n: nat)
    requires info != [] && y % |info| == z % |info|
    ensures Ring(info, y, n) == Ring(info, z, n)
    decreases n
  {
    if n > 0 {
      SuccCongruent(y, z, |info|);
      RingCongruent(info, y + 1, z + 1, n - 1);
    }
  }

  /** How far the write position is ahead of the read position. */
  function Ahead(read: nat, write: nat, max: nat): nat
    requires read < max
  {
    if write >= read then write - read else write + max - read
  }

  /** A full ring can be told from an empty one exactly up to this size. */
  lemma FullIsNotEmpty(a: nat, read: nat)
    requires 0 < a <= UINT16_MAX && read < MaxValue(a)
    ensures Ahead(read, (read + a) % MaxValue(a), MaxValue(a)) == a <==> a <= MAX_PLACES
  {
    hide MaxValue;
    var m := MaxValue(a);
    if a <= MAX_PLACES {
      MaxValueBounds(a);
      if read + a < m {
        Remainder(read + a, m, 0, read + a);
      } else {
        Remainder(read + a, m, 1, read + a - m);
      }
    } else {
      MaxValueIsMultiple(a);
      Remainder(UINT16_MAX, a, 1, UINT16_MAX - a);
      Remainder(read + a, m, 1, read);
    }
  }

  /** A ring of 40000 events: after 40000 puts the write position is the read position again. */
  lemma LargeRingLooksEmpty()
    ensures MaxValue(40000) == 40000 && Ahead(0, (0 + 40000) % MaxValue(40000), MaxValue(40000)) == 0
  {
  }

  /** A ring of 20 events: the position before 0 is 65519, and stepping back from 0 gives 15. */
  lemma StepBackMisses()
    ensures MaxValue(20) == 65520 && Inc(65519, MaxValue(20)) == 0 && Dec(0, MaxValue(20)) == 15
  {
  }

  /** Putting writes the place after the last queued event. */
  lemma PutsLast(info: seq<Event>, read: nat, write: nat, e: Event)
    requires 1 < |info| <= MAX_PLACES && read < MaxValue(|info|) && write < MaxValue(|info|)
    requires Ahead(read, write, MaxValue(|info|)) < |info|
    ensures
      var m, n := MaxValue(|info|), Ahead(read, write, MaxValue(|info|));
      Inc(write, m) < m && Ahead(read, Inc(write, m), m) == n + 1 &&
      Ring(info[Slot(write, |info|) := e], read, n + 1) == Ring(info, read, n) + [e]
  {
    hide MaxValue, Ring;
    var a, m := |info|, MaxValue(|info|);
    var n := Ahead(read, write, m);
    MaxValueBounds(a);
    if write < read {
      MaxValueIsMultiple(a);
      AddMultiple(write, UINT16_MAX / a, a);
    }
    assert Slot(write, a) == Slot(read + n, a);
    RingUntouched(info, read, n, read + n, e);
    RingLast(info[Slot(write, a) := e], read, n);
    if write + 1 < m {
      Remainder(write + 1, m, 0, write + 1);
    } else {
      Remainder(write + 1, m, 1, 0);
    }
  }

  lemma MaxValueIsMultiple(a: nat)
    requires a > 0
    ensures MaxValue(a) == UINT16_MAX / a * a
  {
  }

  /** Popping moves on by one place. */
  lemma PopsFirst(info: seq<Event>, read: nat, write: nat)
    requires 1 < |info| <= MAX_PLACES && read < MaxValue(|info|) && write < MaxValue(|info|)
    requires read != write
    ensures
      var m, n := MaxValue(|info|), Ahead(read, write, MaxValue(|info|));
      Inc(read, m) < m && n > 0 && Ahead(Inc(read, m), write, m) == n - 1 &&
      Ring(info, read, n) == [info[Slot(read, |info|)]] + Ring(info, Inc(read, m), n - 1)
  {
    hide MaxValue, Slot, Ring;
    var a, m := |info|, MaxValue(|info|);
    MaxValueBounds(a);
    MaxValueIsMultiple(a);
    RingFirst(info, read, Ahead(read, write, m));
    WrapKeepsSlot(read + 1, UINT16_MAX / a, a, 0);
    RingCongruent(info, read + 1, Inc(read, m), Ahead(read, write, m) - 1);
    if read + 1 < m {
      Remainder(read + 1, m, 0, read + 1);
    } else {
      Remainder(read + 1, m, 1, 0);
    }
  }

  class event_fifo_t {
    const FArraySize: nat
    const FMaxCountRecvEvent: nat
    const FMaxValue: nat
    var FRead: nat
    var FWrite: nat
    var FCountRecvEvent: nat
    var FInfo: array<Event>

    ghost predicate Valid()
      reads this, FInfo
    {
      && 1 < FArraySize <= MAX_PLACES && FInfo.Length == FArraySize
      && FMaxValue == MaxValue(FArraySize) && FMaxCountRecvEvent == MaxData(FArraySize)
      && FRead < FMaxValue && FWrite < FMaxValue
      && Ahead(FRead, FWrite, FMaxValue) <= FArraySize
      && FCountRecvEvent == DataCount(Contents())
    }

    /** The queued events, oldest first. */
    ghost function Contents(): (q: seq<Event>)
      reads this, FInfo
      requires 0 < FInfo.Length && FRead < FMaxValue
    {
      Ring(FInfo[..], FRead, Ahead(FRead, FWrite, FMaxValue))
    }

    constructor (arraySize: nat)
      requires 1 < arraySize <= MAX_PLACES
      ensures Valid() && Contents() == [] && FArraySize == arraySize && fresh(FInfo)
    {
      FArraySize, FMaxCountRecvEvent, FMaxValue := arraySize, MaxData(arraySize), MaxValue(arraySize);
      FRead, FWrite, FCountRecvEvent := 0, 0, 0;
      FInfo := new Event[arraySize](_ => Other(0));
      MaxValueBounds(arraySize);
    }

    method MCount() returns (n: nat)
      requires Valid()
      ensures n == |Contents()|
    {
      var count := FWrite - FRead;
      if count < 0 {
        count := count + FMaxValue;
      }
      n := count;
    }

    method MEmpty() returns (b: bool)
      requires Valid()
      ensures b <==> Contents() == []
    {
      b := FRead == FWrite;
    }

    /** Exactly the bounded queue with reserved places. */
    method MPut(e: Event) returns (ok: bool)
      requires Valid()
      modifies this`FWrite, this`FCountRecvEvent, FInfo
      ensures Valid()
      ensures ok <==> Accepts(old(Contents()), e, FArraySize)
      ensures ok ==> |old(Contents())| < FArraySize
      ensures ok && e.Data? ==> DataCount(old(Contents())) < if FArraySize > 4 then FArraySize - 4 else FArraySize
      ensures !ok && |old(Contents())| < FArraySize ==>
        e.Data? && DataCount(old(Contents())) >= if FArraySize > 4 then FArraySize - 4 else FArraySize
      ensures Contents() == if ok then old(Contents()) + [e] else old(Contents())
    {
      var n := MCount();
      if n == FArraySize {
        return false;
      }
      if e.Data? {
        if FCountRecvEvent >= FMaxCountRecvEvent {
          return false;
        }
        FCountRecvEvent := FCountRecvEvent + 1;
      }
      hide MaxValue, Slot, Ring, Ahead, Inc;
      PutsLast(FInfo[..], FRead, FWrite, e);
      DataCountAppend(Contents(), e);
      ghost var info := FInfo[..];
      FInfo[Slot(FWrite, FArraySize)] := e;
      assert FInfo[..] == info[Slot(FWrite, FArraySize) := e];
      FWrite := Inc(FWrite, FMaxValue);
      ok := true;
    }

    /** The oldest event. */
    method MPop() returns (ok: bool, e: Event)
      requires Valid()
      modifies this`FRead, this`FCountRecvEvent
      ensures Valid()
      ensures ok <==> old(Contents()) != []
      ensures ok ==> old(Contents()) == [e] + Contents()
      ensures !ok ==> Contents() == []
    {
      var empty := MEmpty();
      if empty {
        return false, Other(0);
      }
      hide MaxValue, Slot, Inc;
      PopsFirst(FInfo[..], FRead, FWrite);
      e := FInfo[Slot(FRead, FArraySize)];
      assert Contents()[0] == e && Contents()[1..] == Ring(FInfo[..], Inc(FRead, FMaxValue), |Contents()| - 1);
      if e.Data? {
        FCountRecvEvent := FCountRecvEvent - 1;
      }
      FRead := Inc(FRead, FMaxValue);
      ok := true;
    }
  }
}
