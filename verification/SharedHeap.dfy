/**
  The shared-memory allocator.  Offsets stand for pointers; the memory is a map from offsets to
  the structures stored there, so a stale structure stays in memory until it is overwritten.
*/
module SharedHeap {
  import opened Tiles
  import opened FreeList
  import opened ProcessTable
  import opened Registry
  import opened Leaks

  /** Below this size no offset reaches the flag bits of a header word. */
  const MAX_HEAP: nat := 0x1000_0000_0000_0000

  /** How an operation ends: the last two are the places where the source gives up, by writing
      through a null node pointer and by its check on the size of the entry array. */
  datatype Outcome = Done(p: nat) | NoMemory | NullNode | TooManyEntries

  // ----- what becomes of a request, told from the heap before it

  /** The entry array has no room for `count` more. */
  predicate Full(n: ProcessNode, count: nat) { count > 0 && n.allocations + count > |n.slots| }

  predicate SameArray(m: ProcessNode, n: ProcessNode) { m.pid == n.pid && m.allocations == n.allocations && m.slots == n.slots }

  /** The size of the block that a full node moves to, and how many entries it has. */
  function Required(n: ProcessNode, count: nat): nat { NODE_SIZE + (n.allocations + count) * SLOT_SIZE * 3 / 2 }

  function Entries(size: nat): int { (size - NODE_SIZE) / SLOT_SIZE }

  predicate OwnNode(ps: seq<nat>, nodes: Nodes, pid: Pid, a: nat) { a in ps && a in nodes && nodes[a].pid == pid }

  ghost predicate HasNode(ps: seq<nat>, nodes: Nodes, pid: Pid) {
    exists a :: OwnNode(ps, nodes, pid, a)
  }

  /** A block for a node can be had at the high end. */
  ghost predicate RoomForNode(ts: seq<Tile>, size: nat) { Satisfiable(ts, size, true, 0) }

  /** The source writes through a null node: there is no node and no room for one, or the node is
      full and there is no room for a larger one. */
  ghost predicate WritesNull(ts: seq<Tile>, ps: seq<nat>, nodes: Nodes, pid: Pid, count: nat) {
    if HasNode(ps, nodes, pid) then
      exists a :: OwnNode(ps, nodes, pid, a) && Full(nodes[a], count) && !RoomForNode(ts, Required(nodes[a], count))
    else !RoomForNode(ts, DEF_PROCESS_SIZE)
  }

  /** The source stops at its check: the node is full, and the larger array has too many entries. */
  ghost predicate StopsAtCheck(ts: seq<Tile>, ps: seq<nat>, nodes: Nodes, pid: Pid, count: nat) {
    exists a :: OwnNode(ps, nodes, pid, a) && Full(nodes[a], count) && RoomForNode(ts, Required(nodes[a], count)) &&
      Entries(Required(nodes[a], count)) >= NULL_INDEX
  }

  /** `r` is `ts` with a block for a node of `pid` taken from the last free block that is larger. */
  ghost predicate TableTaken(ts: seq<Tile>, r: seq<Tile>, pid: Pid, size: nat) {
    exists k: nat :: k < |ts| && IsLastFit(ts, AlignUp(size) + 1, k) && r == Take(ts, k, AlignUp(size), true, Table(pid))
  }

  /** `r` is `ts` with the block of the node at `p` given back. */
  ghost predicate GivenBack(ts: seq<Tile>, r: seq<Tile>, p: nat) {
    exists j: nat :: j < |ts| && ts[j].owner.Table? && ts[j].Payload() == p && r == Release(ts, j)
  }

  /** The larger block taken, then the old one given back. */
  ghost predicate TableMoved(ts: seq<Tile>, r: seq<Tile>, pid: Pid, size: nat, p: nat) {
    exists m :: TableTaken(ts, m, pid, size) && GivenBack(m, r, p)
  }

  /** `mid` is the heap once the process has a node with a free entry. */
  ghost predicate Prepared(ts: seq<Tile>, ps: seq<nat>, nodes: Nodes, pid: Pid, count: nat, mid: seq<Tile>) {
    && (!HasNode(ps, nodes, pid) ==> TableTaken(ts, mid, pid, DEF_PROCESS_SIZE))
    && (forall a :: OwnNode(ps, nodes, pid, a) ==>
          if Full(nodes[a], count) then TableMoved(ts, mid, pid, Required(nodes[a], count), a) else mid == ts)
  }

  /** How a request ends, exactly: by the two failures of the node, and otherwise by whether the
      block can be placed in the heap with the node. */
  ghost predicate Answered(r: Outcome, ts: seq<Tile>, ps: seq<nat>, nodes: Nodes, pid: Pid, wanted: nat, offset: nat, mid: seq<Tile>) {
    && (r.NullNode? <==> WritesNull(ts, ps, nodes, pid, 1))
    && (r.TooManyEntries? <==> StopsAtCheck(ts, ps, nodes, pid, 1))
    && (r.Done? || r.NoMemory? ==> Prepared(ts, ps, nodes, pid, 1, mid) && (r.Done? <==> Satisfiable(mid, wanted, false, offset)))
  }

  class CSharedAllocator {
    // heap_head_t and the memory behind it
    const base: nat
    const limit: nat
    var headers: Headers
    var firstFree: nat
    var freeBytes: nat
    var nodes: Nodes
    var firstProc: nat
    var userAllocations: nat
    /** FCurentProcess of the one allocator object that each process has. */
    var current: map<Pid, nat>

    /** What the memory means: the row of blocks with their owners. */
    ghost var tiles: seq<Tile>
    /** Bytes by which FFreeBytesRemaining exceeds the free bytes. */
    ghost var overcount: nat
    /** The process nodes in list order. */
    ghost var procs: seq<nat>

    ghost predicate ListValid()
      reads `tiles, `headers, `firstFree
    {
      limit < NULL_OFFSET && BlocksOk(tiles, headers, firstFree, base, limit)
    }

    ghost predicate BlocksValid()
      reads `tiles, `headers, `firstFree, `freeBytes, `overcount
    {
      ListValid() && freeBytes == FreeSum(tiles) + overcount
    }

    lemma TilesAreTiled()
      requires ListValid()
      ensures Tiled(tiles, base, limit)
    {
    }

    lemma TileFacts(k: nat)
      requires ListValid() && k < |tiles|
      ensures Written(tiles[k], headers) && base <= tiles[k].addr && tiles[k].End() <= limit < NULL_OFFSET
    {
      TiledBounds(tiles, base, limit, k);
    }

    /** The heap between two public calls: coalesced, every block free or in use. */
    ghost predicate Sound()
      reads `tiles, `headers, `firstFree, `freeBytes, `overcount
    {
      BlocksValid() && NoAdjacentFree(tiles) && Settled(tiles)
    }

    /** Walks the free list to the last free block below `block`. */
    method FindPlace(block: nat, hint: nat, ghost k: nat, ghost hintAt: nat) returns (prev: nat, ghost p: int)
      requires ListValid() && firstFree != NULL_OFFSET
      requires k < |tiles| && tiles[k].addr == block && tiles[k].owner.Detached?
      requires hint == NULL_OFFSET || (hintAt < k && tiles[hintAt].addr == hint && tiles[hintAt].owner.Free?)
      ensures LastFreeBefore(tiles, k, p)
      ensures prev == if p == -1 then NULL_OFFSET else tiles[p].addr
    {
      prev, p := hint, hintAt;
      if hint == NULL_OFFSET {
        prev := firstFree;
        p := NextFreeFrom(tiles, headers, firstFree, -1, k, base, limit);
      } else {
        TiledOrder(tiles, base, limit, hintAt, k);
      }
      if prev > block {
        prev, p := NULL_OFFSET, -1;
      }
      while prev != NULL_OFFSET
        invariant prev == NULL_OFFSET ==> p == -1 && LastFreeBefore(tiles, k, -1)
        invariant prev != NULL_OFFSET ==> 0 <= p < k && tiles[p].addr == prev && tiles[p].owner.Free?
        decreases k - p
      {
        ghost var q := NextFreeFrom(tiles, headers, firstFree, p, k, base, limit);
        var next := headers[prev].next;
        if next != NULL_OFFSET && next < block {
          prev, p := next, q;
        } else {
          break;
        }
      }
    }

    method MInsertIntoFreeList(block: nat, hint: nat, ghost k: nat, ghost hintAt: nat)
      requires BlocksValid()
      requires k < |tiles| && tiles[k].addr == block && tiles[k].owner.Detached?
      requires hint == NULL_OFFSET || (hintAt < k && tiles[hintAt].addr == hint && tiles[hintAt].owner.Free?)
      modifies `headers, `firstFree, `freeBytes, `tiles
      ensures BlocksValid() && tiles == Release(old(tiles), k)
      ensures KeepsTaken(old(tiles), old(headers), tiles, headers)
    {
      hide BlocksOk, Release, LastFreeBefore, KeepsTaken, Merged, MergeFrom, MergeTo, FirstFreeOr, FreeSum, TakenSum, TakenTiles, Reinserted, Tiled, Linked;
      ghost var ts, h := tiles, headers;
      TileFacts(k);
      freeBytes := freeBytes + headers[block].size;
      if firstFree == NULL_OFFSET {
        EmptyList(ts, h, k, base, limit);
        headers := headers[block := headers[block].(next := NULL_OFFSET)];
        firstFree := block;
        Reinsert(ts, k, -1, h, NULL_OFFSET, old(freeBytes));
        return;
      }
      var prev;
      ghost var p;
      prev, p := FindPlace(block, hint, k, hintAt);
      InsertPlace(ts, h, firstFree, k, p, base, limit);
      var at := block;
      if prev == NULL_OFFSET {
        headers := headers[block := headers[block].(next := firstFree)];
        firstFree := block;
      } else if prev + HEADER + headers[prev].size == block {
        headers := headers[prev := headers[prev].(size := headers[prev].size + headers[block].size + HEADER)];
        at := prev;
        freeBytes := freeBytes + HEADER;
      } else {
        headers := headers[block := headers[block].(next := headers[prev].next)];
      }
      var next := headers[at].next;
      if next != NULL_OFFSET && at + headers[at].size + HEADER == next {
        headers := headers[at := BlockNode(headers[next].next, headers[at].size + headers[next].size + HEADER, headers[at].inUse)];
        freeBytes := freeBytes + HEADER;
      }
      if prev != NULL_OFFSET && prev != at {
        headers := headers[prev := headers[prev].(next := at)];
      }
      Reinsert(ts, k, p, h, old(firstFree), old(freeBytes));
    }

    /** The ghost side of the insertion: the row of tiles follows the memory. */
    ghost method Reinsert(ts: seq<Tile>, k: nat, p: int, h: Headers, first: nat, free: nat)
      requires limit < NULL_OFFSET && BlocksOk(ts, h, first, base, limit) && tiles == ts
      requires k < |ts| && ts[k].owner.Detached? && LastFreeBefore(ts, k, p)
      requires firstFree == if p == -1 then ts[k].addr else first
      requires ts[k].addr in h
      requires headers == Spliced(h, ts[k].addr, if p == -1 then NULL_OFFSET else ts[p].addr, FirstFree(ts[k + 1..]))
      requires free == FreeSum(ts) + overcount
      requires freeBytes == free + ts[k].size
                 + HEADER * Joins(h, ts[k].addr, if p == -1 then NULL_OFFSET else ts[p].addr, FirstFree(ts[k + 1..]))
      modifies `tiles
      ensures BlocksValid() && tiles == Release(ts, k)
      ensures KeepsTaken(ts, h, tiles, headers)
    {
      tiles := Release(ts, k);
      InsertPlace(ts, h, first, k, p, base, limit);
      SplicedIsReinserted(ts, h, headers, first, k, p, base, limit);
      InsertedOk(ts, k, p, h, headers, first, firstFree, base, limit);
      ReleaseSums(ts, k);
    }

    // ----- choosing a free block

    /** `first` is free tile `k` and `second` the free block before it in the list. */
    ghost predicate Found(first: nat, second: nat, k: nat, q: int)
      reads this
    {
      && k < |tiles| && tiles[k].owner.Free? && tiles[k].addr == first
      && LastFreeBefore(tiles, k, q)
      && second == if q == -1 then NULL_OFFSET else tiles[q].addr
    }

    /** The list position `it`: free tile `k`, or the end of the list. */
    ghost predicate At(it: nat, k: nat)
      reads this
    {
      if it == NULL_OFFSET then k == |tiles|
      else k < |tiles| && tiles[k].owner.Free? && tiles[k].addr == it
    }

    static lemma Advance(ts: seq<Tile>, h: Headers, first: nat, p: int, base: nat, limit: nat) returns (q: nat)
      requires BlocksOk(ts, h, first, base, limit) && limit < NULL_OFFSET
      requires -1 <= p < |ts| && (p >= 0 ==> ts[p].owner.Free?)
      ensures p < q <= |ts| && (q < |ts| ==> ts[q].owner.Free? && ts[q].addr < NULL_OFFSET && Written(ts[q], h))
      ensures forall i :: p < i < q ==> !ts[i].owner.Free?
      ensures p >= 0 ==> Written(ts[p], h)
      ensures (if p == -1 then first else h[ts[p].addr].next) == if q == |ts| then NULL_OFFSET else ts[q].addr
    {
      if p >= 0 {
        LinkAt(ts, h, first, p);
      } else {
        assert ts[0..] == ts;
      }
      q := FreeFrom(ts, p + 1);
      if q < |ts| {
        TiledBounds(ts, base, limit, q);
      }
    }

    /** First fit from the lowest address. */
    method FirstFit(wanted: nat) returns (first: nat, second: nat, ghost k: nat, ghost q: int)
      requires BlocksValid()
      ensures first == NULL_OFFSET ==> NoFit(tiles, wanted)
      ensures first != NULL_OFFSET ==> Found(first, second, k, q) && IsFirstFit(tiles, wanted, k)
    {
      first, second, q := firstFree, NULL_OFFSET, -1;
      k := Advance(tiles, headers, firstFree, -1, base, limit);
      while first != NULL_OFFSET && headers[first].size < wanted
        invariant At(first, k) && LastFreeBefore(tiles, k, q)
        invariant second == if q == -1 then NULL_OFFSET else tiles[q].addr
        invariant first != NULL_OFFSET ==> Written(tiles[k], headers)
        invariant forall i :: 0 <= i < k && tiles[i].owner.Free? ==> tiles[i].size < wanted
        decreases |tiles| - k
      {
        second, q := first, k;
        k := Advance(tiles, headers, firstFree, k, base, limit);
        first := headers[first].next;
      }
    }

    /** The last block that is strictly larger than asked for. */
    method MGetFreeBlockFromEnd(wanted: nat) returns (first: nat, second: nat, ghost k: nat, ghost q: int)
      requires BlocksValid()
      ensures first == NULL_OFFSET ==> NoFit(tiles, wanted + 1)
      ensures first != NULL_OFFSET ==> Found(first, second, k, q) && IsLastFit(tiles, wanted + 1, k)
    {
      first, second, k, q := NULL_OFFSET, NULL_OFFSET, 0, -1;
      var it: nat, before: nat := firstFree, NULL_OFFSET;
      ghost var i: nat := Advance(tiles, headers, firstFree, -1, base, limit);
      ghost var j := -1;
      while it != NULL_OFFSET
        invariant At(it, i) && LastFreeBefore(tiles, i, j)
        invariant before == if j == -1 then NULL_OFFSET else tiles[j].addr
        invariant it != NULL_OFFSET ==> Written(tiles[i], headers) && it < NULL_OFFSET
        invariant first != NULL_OFFSET ==> k < i && Found(first, second, k, q) && tiles[k].size > wanted
        invariant forall x :: 0 <= x < i && tiles[x].owner.Free? && tiles[x].size > wanted ==> first != NULL_OFFSET && x <= k
        decreases |tiles| - i
      {
        if headers[it].size > wanted {
          first, second, k, q := it, before, i, j;
        }
        before, j := it, i;
        i := Advance(tiles, headers, firstFree, i, base, limit);
        it := headers[it].next;
      }
    }

    /** Looks for the block to take; a fixed offset inside a free block cuts that block first. */
    method MGetFreeBlockFromBegin(offset: nat, wanted: nat) returns (first: nat, second: nat, ghost k: nat, ghost q: int)
      requires Sound()
      modifies `headers, `tiles, `overcount
      ensures BlocksValid() && KeepsTaken(old(tiles), old(headers), tiles, headers)
      ensures first == NULL_OFFSET ==> unchanged(this)
      ensures first != NULL_OFFSET ==> Found(first, second, k, q) && Fits(tiles[k], wanted)
      ensures first != NULL_OFFSET ==> CoalescedBut(tiles, k) && Settled(tiles)
      ensures TakenTiles(tiles) == TakenTiles(old(tiles)) && UserCount(tiles) == UserCount(old(tiles))
      ensures offset == 0 ==> unchanged(this)
      ensures offset == 0 ==> if first == NULL_OFFSET then NoFit(tiles, wanted) else IsFirstFit(tiles, wanted, k)
      ensures offset != 0 ==> (first == NULL_OFFSET <==> NoPlace(old(tiles), offset, wanted))
      ensures offset != 0 && first != NULL_OFFSET ==> PlacedAt(old(tiles), tiles, k, offset, wanted)
      ensures overcount == old(overcount) + HEADER * (|tiles| - |old(tiles)|)
    {
      if offset == 0 {
        first, second, k, q := FirstFit(wanted);
        return;
      }
      first, second, k, q := LastBelow(offset);
      ghost var ts := tiles;
      if first == NULL_OFFSET {
        return;
      }
      assert Written(ts[k], headers);
      OnlyPlace(ts, k, offset, wanted, base, limit);
      if first + HEADER != offset {
        var payload := first + HEADER;
        var size := headers[first].size;
        if payload + HEADER > offset || offset - payload + wanted + HEADER > size {
          first := NULL_OFFSET;
          return;
        }
        second := first;
        CutAtSound(ts, k, offset, base, limit);
        first := CutFreeBlock(first, offset, k);
        q, k := k, k + 1;
      } else if headers[first].size < wanted {
        first := NULL_OFFSET;
      }
    }

    /** A new header inside free block `first`; the header's bytes are not charged to the free bytes. */
    method CutFreeBlock(first: nat, offset: nat, ghost k: nat) returns (block: nat)
      requires BlocksValid()
      requires k < |tiles| && tiles[k].owner.Free? && tiles[k].addr == first
      requires tiles[k].Payload() + HEADER <= offset <= tiles[k].End()
      modifies `headers, `tiles, `overcount
      ensures BlocksValid() && tiles == CutAt(old(tiles), k, offset) && overcount == old(overcount) + HEADER
      ensures block == offset - HEADER < NULL_OFFSET
      ensures KeepsTaken(old(tiles), old(headers), tiles, headers)
    {
      ghost var ts := tiles;
      assert Written(ts[k], headers);
      TiledBounds(ts, base, limit, k);
      block := offset - HEADER;
      var payload := first + HEADER;
      headers := headers[block := BlockNode(headers[first].next, headers[first].size - (offset - payload), false)]
                        [first := BlockNode(block, offset - payload - HEADER, false)];
      CutAtOk(ts, k, offset, old(headers), headers, firstFree, base, limit);
      CutSums(ts, k, CutAt(ts, k, offset)[k], CutAt(ts, k, offset)[k + 1]);
      tiles, overcount := CutAt(ts, k, offset), overcount + HEADER;
    }

    /** The last free block whose header lies below `offset`. */
    method LastBelow(offset: nat) returns (first: nat, second: nat, ghost k: nat, ghost q: int)
      requires BlocksValid()
      ensures first != NULL_OFFSET ==> Found(first, second, k, q) && first < offset
      ensures forall i :: 0 <= i < |tiles| && tiles[i].owner.Free? && tiles[i].addr < offset ==> first != NULL_OFFSET && i <= k
    {
      first, second, k, q := NULL_OFFSET, NULL_OFFSET, 0, -1;
      var it: nat := firstFree;
      ghost var i: nat := Advance(tiles, headers, firstFree, -1, base, limit);
      while it != NULL_OFFSET
        invariant At(it, i)
        invariant LastFreeBefore(tiles, i, if first == NULL_OFFSET then -1 else k) || it >= offset
        invariant it != NULL_OFFSET ==> Written(tiles[i], headers) && it < NULL_OFFSET
        invariant first != NULL_OFFSET ==> k < i && Found(first, second, k, q) && first < offset
        invariant forall x :: 0 <= x < i && tiles[x].owner.Free? && tiles[x].addr < offset ==> first != NULL_OFFSET && x <= k
        decreases |tiles| - i
      {
        if it < offset {
          second, q := first, if first == NULL_OFFSET then -1 else k;
          first, k := it, i;
        }
        ghost var next: nat := Advance(tiles, headers, firstFree, i, base, limit);
        if next < |tiles| {
          TiledOrder(tiles, base, limit, i, next);
        }
        it, i := headers[it].next, next;
      }
    }

    // ----- taking and giving back a block

    method MEraseNodeFromFreeList(first: nat, second: nat, ghost k: nat, ghost q: int)
      requires BlocksValid() && Found(first, second, k, q)
      modifies `headers, `firstFree, `freeBytes, `tiles
      ensures BlocksValid() && tiles == Relabel(old(tiles), k, Detached)
      ensures KeepsTaken(old(tiles), old(headers), tiles, headers)
    {
      ghost var ts, h, f := tiles, headers, firstFree;
      assert Written(ts[k], h);
      if q >= 0 {
        TiledBounds(ts, base, limit, q);
        assert Written(ts[q], h);
      }
      if second != NULL_OFFSET {
        headers := headers[second := headers[second].(next := headers[first].next)];
      } else {
        firstFree := headers[first].next;
      }
      ErasedOk(ts, k, q, h, headers, f, firstFree, base, limit);
      RelabelSums(ts, k, Detached);
      FreeSumMember(ts, k);
      tiles := Relabel(ts, k, Detached);
      freeBytes := freeBytes - headers[first].size;
    }

    /** Cuts a detached block; `taken` is the part of `wanted` bytes, `rest` the other one. */
    method MSplitInto2Block(who: nat, wanted: nat, fromEnd: bool, ghost k: nat) returns (taken: nat, rest: nat)
      requires BlocksValid()
      requires k < |tiles| && tiles[k].owner.Detached? && tiles[k].addr == who && Cuttable(tiles[k].size, wanted)
      modifies `headers, `tiles
      ensures BlocksValid() && tiles == CutDetached(old(tiles), k, wanted, fromEnd)
      ensures taken == tiles[if fromEnd then k + 1 else k].addr && rest == tiles[if fromEnd then k else k + 1].addr
      ensures KeepsTaken(old(tiles), old(headers), tiles, headers)
    {
      ghost var ts := tiles;
      TileFacts(k);
      var size := headers[who].size - wanted - HEADER;
      if fromEnd {
        taken, rest := who + headers[who].size - wanted, who;
        headers := headers[taken := BlockNode(NULL_OFFSET, 0, false)];
      } else {
        taken, rest := who, who + wanted + HEADER;
        headers := headers[rest := BlockNode(NULL_OFFSET, 0, false)];
      }
      headers := headers[rest := headers[rest].(size := size)];
      headers := headers[taken := headers[taken].(size := wanted)];
      ghost var r := CutDetached(ts, k, wanted, fromEnd);
      CutTiled(ts, k, r[k], r[k + 1], base, limit);
      CutApart(ts, k, r[k + 1].addr, base, limit);
      CutSums(ts, k, r[k], r[k + 1]);
      assert r == Splice(ts, k, [r[k], r[k + 1]]);
      SpliceOk(ts, k, [r[k], r[k + 1]], old(headers), headers, firstFree, base, limit);
      tiles := r;
    }

    static ghost function CutDetached(ts: seq<Tile>, k: nat, wanted: nat, fromEnd: bool): seq<Tile>
      requires k < |ts| && Cuttable(ts[k].size, wanted)
    {
      var t := ts[k];
      var low := if fromEnd then t.size - wanted - HEADER else wanted;
      ts[..k] + [Tile(t.addr, low, Detached), Tile(t.addr + HEADER + low, t.size - HEADER - low, Detached)] + ts[k + 1..]
    }

    /** Sets or clears the top bit of FBlockSize; the list is not touched. */
    method MAllocate(block: nat, inUse: bool, ghost k: nat, ghost o: Owner)
      requires BlocksValid() && k < |tiles| && tiles[k].addr == block && !tiles[k].owner.Free?
      requires !o.Free? && (inUse <==> !o.Detached?)
      modifies `headers, `tiles
      ensures BlocksValid() && tiles == Relabel(old(tiles), k, o)
      ensures block in old(headers) && headers == old(headers)[block := old(headers)[block].(inUse := inUse)]
      ensures old(tiles[k].owner).Detached? ==> KeepsTaken(old(tiles), old(headers), tiles, headers)
    {
      assert Written(tiles[k], headers);
      headers := headers[block := headers[block].(inUse := inUse)];
      ghost var d := tiles[k].(owner := o);
      RelabelTiled(tiles, k, o, base, limit);
      RelabelSums(tiles, k, o);
      AddrApart(tiles, k, base, limit);
      assert Relabel(tiles, k, o) == Splice(tiles, k, [d]);
      SpliceOk(tiles, k, [d], old(headers), headers, firstFree, base, limit);
      tiles := Relabel(tiles, k, o);
    }

    /** Cuts the chosen block when it is worth it and puts the remainder back. */
    method MSplitBlockAndUpdateList(first: nat, second: nat, wanted: nat, fromEnd: bool, ghost k: nat, ghost q: int)
      returns (taken: nat)
      requires BlocksValid()
      requires k < |tiles| && tiles[k].owner.Detached? && tiles[k].addr == first && Cuttable(tiles[k].size, wanted)
      requires second == NULL_OFFSET || (0 <= q < k && tiles[q].owner.Free? && tiles[q].addr == second)
      requires k + 1 < |tiles| ==> !tiles[k + 1].owner.Free?
      requires fromEnd && k > 0 ==> !tiles[k - 1].owner.Free?
      modifies `headers, `firstFree, `freeBytes, `tiles
      ensures BlocksValid()
      ensures tiles == Relabel(CutDetached(old(tiles), k, wanted, fromEnd), if fromEnd then k else k + 1, Free)
      ensures taken == tiles[if fromEnd then k + 1 else k].addr
      ensures KeepsTaken(old(tiles), old(headers), tiles, headers)
    {
      hide BlocksOk;
      var rest;
      ghost var ts := tiles;
      taken, rest := MSplitInto2Block(first, wanted, fromEnd, k);
      ghost var at := if fromEnd then k else k + 1;
      assert k + 1 < |ts| ==> tiles[k + 2] == ts[k + 1];
      assert q >= 0 ==> q < k ==> tiles[q] == ts[q];
      ReleaseAlone(tiles, at);
      MInsertIntoFreeList(rest, second, at, if q < 0 then 0 else q);
    }

    static lemma NoFitMore(ts: seq<Tile>, size: nat)
      requires NoFit(ts, size)
      ensures NoFit(ts, size + 1)
    {
    }

    /** From the end or from the beginning. */
    method MGetFreeBlock(size: nat, fromEnd: bool, offset: nat) returns (first: nat, second: nat, ghost k: nat, ghost q: int)
      requires Sound() && (fromEnd ==> offset == 0)
      modifies `headers, `tiles, `overcount
      ensures BlocksValid() && KeepsTaken(old(tiles), old(headers), tiles, headers)
      ensures first == NULL_OFFSET ==> unchanged(this)
      ensures first == NULL_OFFSET <==> if offset != 0 then NoPlace(old(tiles), offset, size) else NoFit(old(tiles), if fromEnd then size + 1 else size)
      ensures first != NULL_OFFSET ==> Found(first, second, k, q) && Fits(tiles[k], size)
      ensures first != NULL_OFFSET ==> CoalescedBut(tiles, k) && Settled(tiles) && (fromEnd ==> NoAdjacentFree(tiles))
      ensures TakenTiles(tiles) == TakenTiles(old(tiles)) && UserCount(tiles) == UserCount(old(tiles))
      ensures offset == 0 ==> tiles == old(tiles)
      ensures first != NULL_OFFSET && offset == 0 ==> if fromEnd then IsLastFit(tiles, size + 1, k) else IsFirstFit(tiles, size, k)
      ensures first != NULL_OFFSET && offset != 0 ==> PlacedAt(old(tiles), tiles, k, offset, size)
      ensures overcount == old(overcount) + HEADER * (|tiles| - |old(tiles)|)
    {
      hide BlocksOk, Tiled, Settled;
      if fromEnd {
        first, second, k, q := MGetFreeBlockFromEnd(size);
      } else {
        first, second, k, q := MGetFreeBlockFromBegin(offset, size);
      }
      FitFacts(tiles, size, k);
    }

    static lemma FitFacts(ts: seq<Tile>, size: nat, k: nat)
      ensures IsLastFit(ts, size + 1, k) ==> k < |ts| && Fits(ts[k], size) && !NoFit(ts, size + 1)
      ensures IsFirstFit(ts, size, k) ==> k < |ts| && Fits(ts[k], size) && !NoFit(ts, size)
    {
    }

    /** Takes a block of `wanted` bytes, from the low or the high end, or at a fixed offset.
        `offer` is the row of tiles the block is taken from and `k` the free tile chosen. */
    method MMallocBlock(wanted: nat, fromEnd: bool, offset: nat, ghost owner: Owner)
      returns (p: nat, ghost offer: seq<Tile>, ghost k: nat)
      requires Sound() && (owner.Table? || owner.User?) && (fromEnd ==> offset == 0)
      modifies `headers, `firstFree, `freeBytes, `tiles, `overcount
      ensures Sound() && KeepsTaken(old(tiles), old(headers), tiles, headers)
      ensures p == NULL_OFFSET ==> unchanged(this)
      ensures p == NULL_OFFSET <==> !Satisfiable(old(tiles), wanted, fromEnd, offset)
      ensures p != NULL_OFFSET ==> k < |offer| && TakenTiles(offer) == TakenTiles(old(tiles))
      ensures p != NULL_OFFSET ==> tiles == Take(offer, k, AlignUp(wanted), fromEnd, owner)
      ensures p != NULL_OFFSET && offset == 0 ==> offer == old(tiles)
      ensures p != NULL_OFFSET && offset == 0 && !fromEnd ==> IsFirstFit(offer, AlignUp(wanted), k)
      ensures p != NULL_OFFSET && fromEnd ==> IsLastFit(offer, AlignUp(wanted) + 1, k)
      ensures p != NULL_OFFSET && offset != 0 ==> p == offset && PlacedAt(old(tiles), offer, k, offset, AlignUp(wanted))
      ensures p != NULL_OFFSET ==> overcount == old(overcount) + HEADER * (|offer| - |old(tiles)|)
      ensures p != NULL_OFFSET ==> Granted(old(tiles), tiles, p, wanted, owner)
    {
      hide BlocksOk, Tiled, Settled, Take, NoPlace, NoFit, IsFirstFit, IsLastFit;
      p, offer, k := NULL_OFFSET, tiles, 0;
      if wanted == 0 {
        return;
      }
      var size := AlignUp(wanted);
      if size > freeBytes {
        NothingFits(tiles, size);
        NoFitMore(tiles, size);
        return;
      }
      var first, second;
      ghost var q;
      first, second, k, q := MGetFreeBlock(size, fromEnd, offset);
      if first == NULL_OFFSET {
        return;
      }
      offer := tiles;
      TilesAreTiled();
      TakeSound(offer, k, size, fromEnd, owner, base, limit);
      p := TakeBlock(first, second, size, fromEnd, k, q, owner);
    }

    /** The second half of MMallocBlock: the chosen block leaves the list, is cut and marked. */
    method TakeBlock(first: nat, second: nat, size: nat, fromEnd: bool, ghost k: nat, ghost q: int, ghost owner: Owner)
      returns (p: nat)
      requires BlocksValid() && Settled(tiles) && CoalescedBut(tiles, k) && (fromEnd ==> NoAdjacentFree(tiles))
      requires Found(first, second, k, q) && Fits(tiles[k], size) && (owner.Table? || owner.User?)
      modifies `headers, `firstFree, `freeBytes, `tiles
      ensures BlocksValid() && tiles == Take(old(tiles), k, size, fromEnd, owner)
      ensures TakenIndex(old(tiles), k, size, fromEnd) < |tiles|
      ensures p == tiles[TakenIndex(old(tiles), k, size, fromEnd)].Payload() < NULL_OFFSET
      ensures KeepsTaken(old(tiles), old(headers), tiles, headers)
    {
      hide BlocksOk, Take, KeepsTaken;
      ghost var ts, h := tiles, headers;
      MEraseNodeFromFreeList(first, second, k, q);
      ghost var ts1, h1 := tiles, headers;
      TileFacts(k);
      var taken := first;
      ghost var at := k;
      if Cuttable(headers[first].size, size) {
        assert k + 1 < |ts| ==> !ts[k + 1].owner.Free?;
        assert fromEnd && k > 0 ==> !ts[k - 1].owner.Free?;
        taken := MSplitBlockAndUpdateList(first, second, size, fromEnd, k, q);
        at := if fromEnd then k + 1 else k;
        KeepsTakenOn(ts, h, ts1, h1, tiles, headers);
      }
      ghost var ts2, h2 := tiles, headers;
      MAllocate(taken, true, at, owner);
      KeepsTakenOn(ts, h, ts2, h2, tiles, headers);
      TakeSteps(ts, k, size, fromEnd, owner);
      TileFacts(at);
      p := taken + HEADER;
    }

    static lemma TakeSteps(ts: seq<Tile>, k: nat, size: nat, fromEnd: bool, o: Owner)
      requires k < |ts|
      ensures var d := Relabel(ts, k, Detached);
        if Cuttable(ts[k].size, size) then
          Relabel(Relabel(CutDetached(d, k, size, fromEnd), if fromEnd then k else k + 1, Free), if fromEnd then k + 1 else k, o)
          == Take(ts, k, size, fromEnd, o)
        else Relabel(d, k, o) == Take(ts, k, size, fromEnd, o)
    {
    }

    /** Gives a block back: marked, put into the list, merged with its free neighbours. */
    method MFreeBlock(p: nat, ghost k: nat) returns (size: nat)
      requires Sound() && k < |tiles| && tiles[k].Taken() && tiles[k].Payload() == p
      modifies `headers, `firstFree, `freeBytes, `tiles
      ensures Sound() && tiles == Release(old(tiles), k)
      ensures size == old(tiles[k]).size
      ensures TakenTiles(tiles) == TakenTiles(old(tiles)) - {old(tiles[k])}
      ensures UserCount(tiles) == UserCount(old(tiles)) - (if old(tiles[k]).owner.User? then 1 else 0)
      ensures SameHeaders(TakenTiles(tiles), old(headers), headers)
    {
      hide BlocksOk;
      ghost var ts, h := tiles, headers;
      TileFacts(k);
      TilesAreTiled();
      ReleaseSound(ts, k, base, limit);
      MAllocate(p - HEADER, false, k, Detached);
      TileFacts(k);
      size := headers[p - HEADER].size;
      ReleaseDetached(ts, k);
      ghost var ts1, h1 := tiles, headers;
      MInsertIntoFreeList(p - HEADER, NULL_OFFSET, k, 0);
      FreedHeaders(ts, ts1, tiles, k, h, h1, headers);
    }

    static lemma ReleaseDetached(ts: seq<Tile>, k: nat)
      requires k < |ts| && !ts[k].owner.Free?
      ensures Release(Relabel(ts, k, Detached), k) == Release(ts, k)
    {
    }

    lemma FreedHeaders(ts: seq<Tile>, ts1: seq<Tile>, ts2: seq<Tile>, k: nat, h: Headers, h1: Headers, h2: Headers)
      requires Tiled(ts, base, limit) && k < |ts| && ts1 == Relabel(ts, k, Detached)
      requires TakenTiles(ts2) == TakenTiles(ts) - {ts[k]}
      requires ts[k].addr in h && h1 == h[ts[k].addr := h[ts[k].addr].(inUse := false)]
      requires KeepsTaken(ts1, h1, ts2, h2)
      ensures SameHeaders(TakenTiles(ts2), h, h2)
    {
      forall t | t in TakenTiles(ts2) && t.addr in h
        ensures t.addr in h2 && IndexOf(h2[t.addr].next) == IndexOf(h[t.addr].next)
      {
        var i :| 0 <= i < |ts| && ts[i] == t;
        TilesDisjoint(ts, base, limit, i, k);
        assert ts1[i] == t;
      }
    }

    // ----- process nodes

    ghost function Used(): set<Tile>
      reads `tiles
    {
      TakenTiles(tiles)
    }

    /** Heap, node list and owner records agree. */
    ghost predicate Core()
      reads `tiles, `headers, `firstFree, `freeBytes, `overcount, `nodes, `firstProc, `userAllocations, `procs
    {
      && Sound() && base > 0 && base + HEADER <= limit
      && Listed(procs, nodes, firstProc)
      && Registered(Used(), headers, nodes, procs)
      && userAllocations == UserCount(tiles)
    }

    /** Each process's cached pointer names its own node. */
    ghost predicate Cached()
      reads this
    {
      Core() && CachesOk(current, procs, nodes)
    }

    /** And the holders of a node are the allocator objects attached to it. */
    ghost predicate Valid()
      reads this
    {
      Cached() && HoldersOk(current, procs, nodes)
    }

    lemma UsedApart()
      requires Sound()
      ensures Apart(Used())
    {
      forall t, u | t in Used() && u in Used() && t.addr == u.addr ensures t == u {
        var i :| 0 <= i < |tiles| && tiles[i] == t;
        var j :| 0 <= j < |tiles| && tiles[j] == u;
        if i != j {
          TilesDisjoint(tiles, base, limit, i, j);
        }
      }
      forall t | t in Used() ensures !IsNull(t.Payload()) {
        var i :| 0 <= i < |tiles| && tiles[i] == t;
        TiledBounds(tiles, base, limit, i);
      }
    }

    method MSearchProcessNode(pid: Pid) returns (p: nat, prev: nat, ghost i: nat)
      requires Listed(procs, nodes, firstProc)
      ensures i <= |procs| && p == (if i < |procs| then procs[i] else NULL_OFFSET)
      ensures i < |procs| ==> p in nodes && nodes[p].pid == pid
      ensures forall j :: 0 <= j < i ==> nodes[procs[j]].pid != pid
      ensures prev == if i > 0 then procs[i - 1] else NULL_OFFSET
      ensures i == |procs| || p in procs
    {
      p, prev, i := firstProc, NULL_OFFSET, 0;
      while p != NULL_OFFSET && nodes[p].pid != pid
        invariant i <= |procs| && p == (if i < |procs| then procs[i] else NULL_OFFSET)
        invariant forall j :: 0 <= j < i ==> nodes[procs[j]].pid != pid
        invariant prev == if i > 0 then procs[i - 1] else NULL_OFFSET
        decreases |procs| - i
      {
        assert NextNode(procs, nodes, i);
        prev, p, i := p, nodes[p].next, i + 1;
      }
      if i < |procs| {
        assert NextNode(procs, nodes, i) && procs[i] in procs;
      }
    }

    predicate MIsOffset(p: nat, index: nat, offset: nat)
      reads this
      requires p in nodes
    {
      index < |nodes[p].slots| && nodes[p].slots[index] == offset
    }

    /** Finds the node that records a user block: the only one, at the entry named in the header. */
    method MSearchProcessOfBlockNode(block: nat, ghost t: Tile) returns (p: nat)
      requires Core() && t in Used() && t.owner.User? && t.addr == block
      ensures p in procs && block in headers && Records(nodes[p], t, headers)
      ensures forall q, s :: q in procs && 0 <= s < |nodes[q].slots| && nodes[q].slots[s] == t.Payload() ==>
                q == p && s == IndexOf(headers[block].next)
    {
      assert HasOwner(t, headers, nodes, procs);
      ghost var a :| a in procs && a in nodes && Records(nodes[a], t, headers);
      ghost var at :| 0 <= at < |procs| && procs[at] == a;
      var index := IndexOf(headers[block].next);
      var offset := block + HEADER;
      p := firstProc;
      ghost var i := 0;
      while p != NULL_OFFSET && !MIsOffset(p, index, offset)
        invariant i <= at && p == procs[i] && NextNode(procs, nodes, i)
        decreases |procs| - i
      {
        p, i := nodes[p].next, i + 1;
      }
      UsedApart();
      UniqueOwner(Used(), headers, nodes, procs, t, p);
    }

    /** MPutOffset: the search for an unused entry stops where it starts. */
    method MPutOffset(p: nat, offset: nat) returns (index: nat)
      requires p in nodes && NodeOk(nodes[p]) && nodes[p].allocations < |nodes[p].slots| && !IsNull(offset)
      modifies `nodes
      ensures old(nodes[p]).minFree < |old(nodes[p]).slots|
      ensures index == old(nodes[p]).minFree && IsNull(old(nodes[p]).slots[index])
      ensures nodes == old(nodes)[p := Put(old(nodes[p]), offset)] && NodeOk(nodes[p])
    {
      hide NodeOk;
      var min := nodes[p].minFree;
      index := min;
      while index < |nodes[p].slots| && !IsNull(nodes[p].slots[index])
        invariant min <= index && forall j :: min <= j < index ==> j < |nodes[p].slots| && !IsNull(nodes[p].slots[j])
        decreases |nodes[p].slots| - index
      {
        index := index + 1;
      }
      PutOk(nodes[p], offset);
      min := if IndexOf(nodes[p].slots[min]) == NULL_INDEX then min + 1 else IndexOf(nodes[p].slots[min]);
      nodes := nodes[p := nodes[p].(minFree := min)];
      nodes := nodes[p := nodes[p].(slots := nodes[p].slots[index := offset], allocations := nodes[p].allocations + 1)];
    }

    method MPopOffsetById(p: nat, index: nat)
      requires p in nodes && NodeOk(nodes[p]) && index < |nodes[p].slots| && !IsNull(nodes[p].slots[index])
      modifies `nodes
      ensures old(nodes[p]).allocations > 0
      ensures nodes == old(nodes)[p := Pop(old(nodes[p]), index)] && NodeOk(nodes[p])
    {
      PopOk(nodes[p], index);
      var word := WithIndex(NULL_OFFSET, nodes[p].minFree % INDEX_SPAN);
      IndexRoundTrip(0, 0);
      nodes := nodes[p := nodes[p].(slots := nodes[p].slots[index := word], minFree := index,
                                    allocations := nodes[p].allocations - 1)];
    }

    /** MKeepBlock, for a block that was just taken: the node and the header agree afterwards. */
    method MKeepBlock(block: nat, p: nat, ghost t: Tile, ghost before: set<Tile>, ghost h0: Headers)
      requires Sound() && Listed(procs, nodes, firstProc)
      requires t in Used() && t.addr == block && Used() == before + {t} && t !in before
      requires Registered(before, h0, nodes, procs) && SameHeaders(before, h0, headers)
      requires p in procs && nodes[p].allocations < |nodes[p].slots| && t.owner == User(nodes[p].pid)
      modifies `nodes, `headers
      ensures Sound() && Listed(procs, nodes, firstProc) && Registered(Used(), headers, nodes, procs)
      ensures forall a :: a in old(nodes) ==> a in nodes && SameHolder(nodes[a], old(nodes)[a])
    {
      hide BlocksOk;
      UsedApart();
      assert NodeRegistered(before, h0, nodes, p);
      ghost var nodes0 := nodes;
      ghost var k :| 0 <= k < |tiles| && tiles[k] == t;
      TileFacts(k);
      var index := MPutOffset(p, block + HEADER);
      IndexRoundTrip(headers[block].next, index);
      ghost var h1 := headers;
      headers := headers[block := headers[block].(next := WithIndex(headers[block].next, index))];
      HeaderWordOk(tiles, k, h1, headers, firstFree, base, limit);
      AddBlock(before, h0, headers, nodes0, nodes, procs, t, p);
      ListedKept(procs, nodes0, nodes, firstProc);
    }

    /** The word of a block in use is not a link: writing it leaves the list alone. */
    static lemma HeaderWordOk(ts: seq<Tile>, k: nat, h: Headers, h2: Headers, first: nat, base: nat, limit: nat)
      requires BlocksOk(ts, h, first, base, limit) && k < |ts| && ts[k].Taken() && ts[k].addr in h
      requires ts[k].addr in h2 && h2 == h[ts[k].addr := h[ts[k].addr].(next := h2[ts[k].addr].next)]
      ensures BlocksOk(ts, h2, first, base, limit)
    {
      assert Written(ts[k], h);
      AddrApart(ts, k, base, limit);
      assert ts == Splice(ts, k, [ts[k]]);
      SpliceOk(ts, k, [ts[k]], h, h2, first, base, limit);
    }

    method NewEntries(count: nat) returns (slots: seq<nat>)
      ensures slots == Fresh(count)
    {
      slots := [];
      for i := 0 to count
        invariant slots == Fresh(i)
      {
        IndexRoundTrip(NULL_OFFSET, NULL_INDEX);
        slots := slots + [WithIndex(NULL_OFFSET, NULL_INDEX)];
      }
    }

    /** Makes the list reach `p`: from `prev`, or from the head. */
    method MInsertProcessNode(p: nat, prev: nat)
      requires prev == NULL_OFFSET || prev in nodes
      modifies `nodes, `firstProc
      ensures prev == NULL_OFFSET ==> firstProc == p && nodes == old(nodes)
      ensures prev != NULL_OFFSET ==> firstProc == old(firstProc) && nodes == old(nodes)[prev := old(nodes)[prev].(next := p)]
    {
      if prev == NULL_OFFSET {
        firstProc := p;
      } else {
        nodes := nodes[prev := nodes[prev].(next := p)];
      }
    }

    /** The node of a process that has none yet goes to the end of the list. */
    method MCreateProcessNode(pid: Pid) returns (p: nat)
      requires Core() && forall a :: a in procs ==> nodes[a].pid != pid
      modifies `headers, `firstFree, `freeBytes, `tiles, `overcount, `nodes, `firstProc, `procs
      ensures Core()
      ensures p == NULL_OFFSET <==> !RoomForNode(old(tiles), DEF_PROCESS_SIZE)
      ensures p == NULL_OFFSET ==> unchanged(this)
      ensures p != NULL_OFFSET ==> procs == old(procs) + [p] && p !in old(procs)
      ensures p != NULL_OFFSET ==> nodes[p].pid == pid && nodes[p].holders == 0 && nodes[p].allocations == 0 && |nodes[p].slots| == 30
      ensures p != NULL_OFFSET ==> TableTaken(old(tiles), tiles, pid, DEF_PROCESS_SIZE)
      ensures SameHolders(old(procs), old(nodes), nodes)
      ensures Users(Used()) == Users(old(Used())) && overcount == old(overcount)
    {
      hide Sound, Registered, NodeOk, Listed, Satisfiable, Take, IsLastFit, IsFirstFit, PlacedAt, TakenTiles, KeepsTaken, Granted;
      var first, prev;
      ghost var i;
      first, prev, i := MSearchProcessNode(pid);
      ghost var used0, h0 := Used(), headers;
      ghost var offer, k;
      p, offer, k := MMallocBlock(DEF_PROCESS_SIZE, true, 0, Table(pid));
      if p == NULL_OFFSET {
        return;
      }
      ghost var t := GrantedTile(old(tiles), DEF_PROCESS_SIZE, Table(pid), p);
      KeptHeaders(old(tiles), h0, tiles, headers);
      FillNode(pid, p, prev, t, used0, h0);
    }

    /** A fresh node in the block that was taken for it joins the list at the end. */
    method FillNode(pid: Pid, p: nat, prev: nat, ghost t: Tile, ghost used0: set<Tile>, ghost h0: Headers)
      requires Sound() && base > 0 && base + HEADER <= limit && userAllocations == UserCount(tiles)
      requires Listed(procs, nodes, firstProc) && Registered(used0, h0, nodes, procs) && SameHeaders(used0, h0, headers)
      requires Used() == used0 + {t} && t !in used0 && t.owner == Table(pid) && p == t.Payload() && t.size >= DEF_PROCESS_SIZE
      requires forall a :: a in procs ==> nodes[a].pid != pid
      requires prev == if |procs| > 0 then procs[|procs| - 1] else NULL_OFFSET
      modifies `nodes, `firstProc, `procs
      ensures Core() && procs == old(procs) + [p] && p !in old(procs) && SameHolders(old(procs), old(nodes), nodes)
      ensures nodes[p].pid == pid && nodes[p].holders == 0 && nodes[p].allocations == 0 && |nodes[p].slots| == 30
    {
      hide Sound, Registered, NodeOk, Listed, TakenTiles, SameHeaders;
      UsedApart();
      var slots := NewEntries(Entries(DEF_PROCESS_SIZE));
      var node := ProcessNode(pid, 0, 0, 0, NULL_OFFSET, slots);
      TableJoins(used0, h0, headers, nodes, procs, prev, firstProc, t, node);
      nodes := nodes[p := node];
      MInsertProcessNode(p, prev);
      procs := procs + [p];
    }

    static lemma KeptHeaders(ts: seq<Tile>, h: Headers, r: seq<Tile>, h2: Headers)
      requires KeepsTaken(ts, h, r, h2)
      ensures SameHeaders(TakenTiles(ts), h, h2)
    {
    }

    lemma GrantedTile(ts: seq<Tile>, wanted: nat, o: Owner, p: nat) returns (t: Tile)
      requires Granted(ts, tiles, p, wanted, o)
      ensures t.Payload() == p && t.owner == o && AlignUp(wanted) <= t.size <= AlignUp(wanted) + 2 * HEADER
      ensures t !in TakenTiles(ts) && Used() == TakenTiles(ts) + {t}
      ensures UserCount(tiles) == UserCount(ts) + if o.User? then 1 else 0
      ensures Users(Used()) == Users(TakenTiles(ts)) + if o.User? then {t} else {}
    {
      t :| t in tiles && t.Payload() == p && t.owner == o && t !in TakenTiles(ts)
        && AlignUp(wanted) <= t.size <= AlignUp(wanted) + 2 * HEADER
        && TakenTiles(tiles) == TakenTiles(ts) + {t}
        && UserCount(tiles) == UserCount(ts) + if o.User? then 1 else 0;
    }

    lemma NodeFacts()
      requires Core()
      ensures forall a :: a in procs ==> a in nodes && NodeOk(nodes[a]) && nodes[a].allocations <= |nodes[a].slots|
      ensures forall a, b :: a in procs && b in procs && nodes[a].pid == nodes[b].pid ==> a == b
      ensures forall x, y :: 0 <= x < y < |procs| ==> procs[x] != procs[y]
    {
      forall a | a in procs ensures a in nodes && NodeOk(nodes[a]) {
        assert NodeRegistered(Used(), headers, nodes, a);
      }
    }

    lemma TileIndex(t: Tile) returns (k: nat)
      requires t in Used()
      ensures k < |tiles| && tiles[k] == t && t.Taken()
    {
      k :| 0 <= k < |tiles| && tiles[k] == t;
    }

    /** When the entry array is full, the node moves to a larger block, keeping its place in the list. */
    method MGetOrRealocateProcessNode(p: nat, count: nat, ghost i: nat) returns (r: Outcome)
      requires Core() && i < |procs| && procs[i] == p && count <= 1
      modifies `headers, `firstFree, `freeBytes, `tiles, `overcount, `nodes, `firstProc, `procs
      ensures !r.TooManyEntries? ==> Core()
      ensures !r.NoMemory?
      ensures r.NullNode? ==> unchanged(this)
      ensures p in old(nodes)
      ensures r.NullNode? <==> old(Full(nodes[p], count) && !RoomForNode(tiles, Required(nodes[p], count)))
      ensures r.TooManyEntries? <==> old(Full(nodes[p], count) && RoomForNode(tiles, Required(nodes[p], count)) && Entries(Required(nodes[p], count)) >= NULL_INDEX)
      ensures r.Done? ==> if old(Full(nodes[p], count)) then TableMoved(old(tiles), tiles, old(nodes[p]).pid, old(Required(nodes[p], count)), p) else tiles == old(tiles) && r.p == p
      ensures r.Done? ==> r.p in nodes && SameHolder(nodes[r.p], old(nodes[p])) && nodes[r.p].allocations == old(nodes[p]).allocations
      ensures r.Done? ==> (r.p == p <==> count == 0 || old(nodes[p]).allocations + count <= |old(nodes[p]).slots|)
      ensures r.TooManyEntries? ==> 3 * (old(nodes[p]).allocations + count) / 2 >= 65535
      ensures r.Done? && r.p != p ==> 65535 > |nodes[r.p].slots| == 3 * (old(nodes[p]).allocations + count) / 2
      ensures r.Done? ==> nodes[r.p].allocations + count <= |nodes[r.p].slots|
      ensures r.Done? ==> procs == old(procs)[i := r.p] && (r.p == p || r.p !in old(procs))
      ensures r.Done? ==> SameHoldersBut(old(procs), p, old(nodes), nodes)
      ensures r.Done? ==> Users(Used()) == Users(old(Used())) && overcount == old(overcount)
    {
      hide Users, HoldersOk, CachesOk, GivenBack, NextNode, SameBody, Tiled, NoFit, NoPlace, FreeChain, Sound, Registered, NodeOk, Listed, Satisfiable, Take, IsLastFit, IsFirstFit, PlacedAt, TakenTiles;
      NodeFacts();
      var n := nodes[p];
      if !Full(n, count) {
        assert procs[i := p] == procs;
        return Done(p);
      }
      var required := Required(n, count);
      ghost var used0, h0, nodes0 := Used(), headers, nodes;
      var newP;
      ghost var offer, k;
      newP, offer, k := MMallocBlock(required, true, 0, Table(n.pid));
      if newP == NULL_OFFSET {
        return NullNode;
      }
      var size := Entries(required);
      if size >= NULL_INDEX {
        return TooManyEntries;
      }
      ghost var t := GrantedTile(old(tiles), required, Table(n.pid), newP);
      UsedApart();
      NotListed(used0, h0, nodes, procs, t);
      var more := NewEntries(size - |n.slots|);
      nodes := nodes[newP := n.(slots := n.slots + more)];
      ListedKept(procs, nodes0, nodes, firstProc);
      ghost var m := tiles;
      ReplaceNode(p, newP, i, t, used0, h0, nodes0);
      r := Done(newP);
    }

    static ghost predicate SameHoldersBut(ps: seq<nat>, p: nat, nodes: Nodes, nodes2: Nodes) {
      forall a :: a in ps && a != p && a in nodes ==> a in nodes2 && SameHolder(nodes2[a], nodes[a])
    }

    /** The end of the relocation: the list reaches the new node, the old block is given back. */
    method ReplaceNode(p: nat, newP: nat, ghost i: nat, ghost t: Tile, ghost used0: set<Tile>, ghost h0: Headers, ghost nodes0: Nodes)
      requires Sound() && base > 0 && base + HEADER <= limit && userAllocations == UserCount(tiles)
      requires Listed(procs, nodes0, firstProc) && Listed(procs, nodes, firstProc) && Registered(used0, h0, nodes0, procs)
      requires Used() == used0 + {t} && t !in used0 && SameHeaders(used0, h0, headers)
      requires i < |procs| && procs[i] == p && newP == t.Payload() && newP !in procs
      requires p in nodes0 && newP in nodes && Holds(t, nodes[newP])
      requires |nodes0[p].slots| <= |nodes[newP].slots| < NULL_INDEX
      requires nodes == nodes0[newP := nodes0[p].(slots := nodes0[p].slots + Fresh(|nodes[newP].slots| - |nodes0[p].slots|))]
      modifies `headers, `firstFree, `freeBytes, `tiles, `nodes, `firstProc, `procs
      ensures Core()
      ensures procs == old(procs)[i := newP] && newP in nodes && nodes[newP] == old(nodes[newP])
      ensures SameHoldersBut(old(procs), p, nodes0, nodes)
      ensures Users(Used()) == Users(used0)
      ensures GivenBack(old(tiles), tiles, p)
    {
      hide Sound, Registered, NodeOk, Listed, TakenTiles, Release, SameBody, NextNode, KeepsTaken, SameHeaders, Records, HasOwner, HasBlock, HasTable;
      UsedApart();
      PidsApart(used0, h0, nodes0, procs, firstProc);
      var first, prev;
      ghost var j;
      first, prev, j := MSearchProcessNode(nodes[p].pid);
      assert procs[i] in procs && procs[j] in procs && nodes[procs[j]] == nodes0[procs[j]];
      assert j == i;
      ghost var extra := |nodes[newP].slots| - |nodes0[p].slots|;
      ghost var was := TableMoves(used0, h0, headers, nodes0, procs, prev, firstProc, i, t, extra);
      MInsertProcessNode(newP, prev);
      nodes := nodes[p := nodes[p].(pid := 0)];
      procs := procs[i := newP];
      ghost var h1 := headers;
      ghost var k := TileIndex(was);
      var size := MFreeBlock(p, k);
      UsedApart();
      HeadersKept(Used(), h1, headers, nodes, procs);
    }

    static lemma PidsApart(used: set<Tile>, h: Headers, nodes: Nodes, ps: seq<nat>, first: nat)
      requires Registered(used, h, nodes, ps) && Listed(ps, nodes, first)
      ensures forall a :: a in ps ==> a in nodes
      ensures forall x, y :: 0 <= x < |ps| && 0 <= y < |ps| && nodes[ps[x]].pid == nodes[ps[y]].pid ==> x == y
    {
      forall x, y | 0 <= x < |ps| && 0 <= y < |ps| && nodes[ps[x]].pid == nodes[ps[y]].pid ensures x == y {
        assert ps[x] in ps && ps[y] in ps;
      }
    }

    /** The one node of a process decides what its request meets. */
    static lemma OwnNodeDecides(ts: seq<Tile>, ps: seq<nat>, nodes: Nodes, pid: Pid, p: nat, count: nat)
      requires OwnNode(ps, nodes, pid, p) && forall a :: OwnNode(ps, nodes, pid, a) ==> a == p
      ensures HasNode(ps, nodes, pid)
      ensures WritesNull(ts, ps, nodes, pid, count) <==> Full(nodes[p], count) && !RoomForNode(ts, Required(nodes[p], count))
      ensures StopsAtCheck(ts, ps, nodes, pid, count) <==>
        Full(nodes[p], count) && RoomForNode(ts, Required(nodes[p], count)) && Entries(Required(nodes[p], count)) >= NULL_INDEX
      ensures forall mid :: Prepared(ts, ps, nodes, pid, count, mid) <==>
        if Full(nodes[p], count) then TableMoved(ts, mid, pid, Required(nodes[p], count), p) else mid == ts
    {
    }

    static lemma NoNodeDecides(ts: seq<Tile>, ps: seq<nat>, nodes: Nodes, pid: Pid, count: nat)
      ensures !HasNode(ps, nodes, pid) ==> !StopsAtCheck(ts, ps, nodes, pid, count)
      ensures !HasNode(ps, nodes, pid) ==> (WritesNull(ts, ps, nodes, pid, count) <==> !RoomForNode(ts, DEF_PROCESS_SIZE))
      ensures forall mid :: !HasNode(ps, nodes, pid) && TableTaken(ts, mid, pid, DEF_PROCESS_SIZE) ==> Prepared(ts, ps, nodes, pid, count, mid)
    {
    }

    /** The node of the calling process: cached, found in the list, or new; never full when an
        entry is wanted. */
    method MGetOrCreateProcessNode(pid: Pid, count: nat) returns (r: Outcome)
      requires Valid() && count <= 1
      modifies `headers, `firstFree, `freeBytes, `tiles, `overcount, `nodes, `firstProc, `procs, `current
      ensures r.Done? ==> Valid()
      ensures r.NullNode? ==> Cached() && (count == 0 ==> unchanged(this))
      ensures !r.NoMemory?
      ensures r.NullNode? <==> old(WritesNull(tiles, procs, nodes, pid, count))
      ensures r.TooManyEntries? <==> old(StopsAtCheck(tiles, procs, nodes, pid, count))
      ensures r.NullNode? ==> tiles == old(tiles) && procs == old(procs)
      ensures r.Done? ==> Prepared(old(tiles), old(procs), old(nodes), pid, count, tiles)
      ensures r.Done? ==> r.p in procs && r.p in nodes && nodes[r.p].pid == pid && nodes[r.p].allocations + count <= |nodes[r.p].slots|
      ensures r.Done? ==> current == old(current)[pid := r.p] && nodes[r.p].holders == 1 && OthersKept(old(procs), procs, old(nodes), nodes, pid)
      ensures r.Done? && count == 0 ==> procs == if old(HasNode(procs, nodes, pid)) then old(procs) else old(procs) + [r.p]
      ensures !r.TooManyEntries? ==> Users(Used()) == Users(old(Used())) && overcount == old(overcount)
    {
      hide Core, Sound, WritesNull, StopsAtCheck, Prepared, HasNode, TableTaken, TableMoved, RoomForNode, Users, TakenTiles, Tiled, Listed, Registered, NodeOk, SameHoldersBut, Entries, IsNull, OthersKept, HoldersOk, CachesOk;
      var p;
      ghost var i: nat;
      NodeFacts();
      NoNodeDecides(tiles, procs, nodes, pid, count);
      OthersSame(procs, nodes, pid);
      if pid in current {
        CachedNode(current, procs, nodes, pid);
        p := current[pid];
        i :| 0 <= i < |procs| && procs[i] == p;
        OwnNodeDecides(tiles, procs, nodes, pid, p, count);
      } else {
        NotYet(current, procs, nodes, pid);
        p, i := AttachProcess(pid);
        if p == NULL_OFFSET {
          return NullNode;
        }
        if old(HasNode(procs, nodes, pid)) {
          OwnNodeDecides(old(tiles), old(procs), old(nodes), pid, p, count);
        }
      }
      NodeFacts();
      ghost var ps, nodes1 := procs, nodes;
      r := MGetOrRealocateProcessNode(p, count, i);
      if r.Done? {
        CachesKept(current, ps, i, r.p, pid, nodes1, nodes);
        OthersReplaced(ps, i, r.p, pid, nodes1, nodes);
        OthersOn(old(procs), ps, procs, old(nodes), nodes1, nodes, pid);
        current := current[pid := r.p];
        HoldersNow(old(current), current, old(procs), procs, old(nodes), nodes, pid);
        NodeFacts();
      }
    }

    static lemma OthersSame(ps: seq<nat>, nodes: Nodes, pid: Pid)
      ensures OthersKept(ps, ps, nodes, nodes, pid)
    {
    }

    static lemma OthersOn(ps: seq<nat>, ps1: seq<nat>, ps2: seq<nat>, nodes: Nodes, nodes1: Nodes, nodes2: Nodes, pid: Pid)
      requires OthersKept(ps, ps1, nodes, nodes1, pid) && OthersKept(ps1, ps2, nodes1, nodes2, pid)
      ensures OthersKept(ps, ps2, nodes, nodes2, pid)
    {
    }

    static lemma CachedNode(cache: map<Pid, nat>, ps: seq<nat>, nodes: Nodes, pid: Pid)
      requires CachesOk(cache, ps, nodes) && HoldersOk(cache, ps, nodes) && pid in cache
      ensures OwnNode(ps, nodes, pid, cache[pid]) && nodes[cache[pid]].holders == 1
    {
    }

    /** A process that has not attached is counted nowhere. */
    static lemma NotYet(cache: map<Pid, nat>, ps: seq<nat>, nodes: Nodes, pid: Pid)
      requires HoldersOk(cache, ps, nodes) && pid !in cache
      ensures forall a :: OwnNode(ps, nodes, pid, a) ==> nodes[a].holders == 0
    {
    }

    static ghost predicate CachesOk(cache: map<Pid, nat>, ps: seq<nat>, nodes: Nodes) {
      forall pid :: pid in cache ==> cache[pid] in ps && cache[pid] in nodes && nodes[cache[pid]].pid == pid
    }

    static ghost predicate HoldersOk(cache: map<Pid, nat>, ps: seq<nat>, nodes: Nodes) {
      forall a :: a in ps && a in nodes ==> nodes[a].holders == if nodes[a].pid in cache then 1 else 0
    }

    /** The nodes of other processes stay listed, with their holders, and no others appear. */
    static ghost predicate OthersKept(ps: seq<nat>, ps2: seq<nat>, nodes: Nodes, nodes2: Nodes, pid: Pid) {
      && (forall a :: a in ps && a in nodes && nodes[a].pid != pid ==> a in ps2 && a in nodes2 && SameHolder(nodes2[a], nodes[a]))
      && (forall a :: a in ps2 && a in nodes2 && nodes2[a].pid != pid ==> a in ps && a in nodes && nodes[a].pid != pid)
    }

    static lemma HoldersNow(cache: map<Pid, nat>, cache2: map<Pid, nat>, ps: seq<nat>, ps2: seq<nat>, nodes: Nodes, nodes2: Nodes, pid: Pid)
      requires HoldersOk(cache, ps, nodes) && OthersKept(ps, ps2, nodes, nodes2, pid)
      requires cache2.Keys == cache.Keys + {pid}
      requires forall a :: a in ps2 && a in nodes2 && nodes2[a].pid == pid ==> nodes2[a].holders == 1
      ensures HoldersOk(cache2, ps2, nodes2)
    {
    }

    static lemma HoldersStay(cache: map<Pid, nat>, ps: seq<nat>, nodes: Nodes, nodes2: Nodes)
      requires HoldersOk(cache, ps, nodes) && CachesOk(cache, ps, nodes)
      requires forall a :: a in ps ==> a in nodes
      requires forall a :: a in nodes ==> a in nodes2 && SameHolder(nodes2[a], nodes[a])
      ensures HoldersOk(cache, ps, nodes2) && CachesOk(cache, ps, nodes2)
    {
    }

    static lemma OthersReplaced(ps: seq<nat>, i: nat, p: nat, pid: Pid, nodes: Nodes, nodes2: Nodes)
      requires i < |ps| && (forall x, y :: 0 <= x < y < |ps| ==> ps[x] != ps[y]) && (forall a :: a in ps ==> a in nodes)
      requires SameHoldersBut(ps, ps[i], nodes, nodes2) && nodes[ps[i]].pid == pid && p in nodes2 && nodes2[p].pid == pid
      requires forall a :: a in ps && nodes[a].pid == pid ==> a == ps[i]
      ensures OthersKept(ps, ps[i := p], nodes, nodes2, pid)
      ensures forall a :: a in ps[i := p] && a in nodes2 && nodes2[a].pid == pid ==> a == p
    {
      Replaced(ps, i, p);
    }

    static lemma CachesKept(cache: map<Pid, nat>, ps: seq<nat>, i: nat, p: nat, pid: Pid, nodes: Nodes, nodes2: Nodes)
      requires CachesOk(cache, ps, nodes) && i < |ps| && (forall x, y :: 0 <= x < y < |ps| ==> ps[x] != ps[y])
      requires SameHoldersBut(ps, ps[i], nodes, nodes2)
      requires ps[i] in nodes && nodes[ps[i]].pid == pid && p in nodes2 && nodes2[p].pid == pid
      ensures CachesOk(cache[pid := p], ps[i := p], nodes2) && p in ps[i := p]
    {
      Replaced(ps, i, p);
      assert ps[i := p][i] == p;
    }

    /** The first use by a process: its node is looked up or made, and counts one holder more. */
    method AttachProcess(pid: Pid) returns (p: nat, ghost i: nat)
      requires Cached() && pid !in current
      modifies `headers, `firstFree, `freeBytes, `tiles, `overcount, `nodes, `firstProc, `procs
      ensures Cached()
      ensures p != NULL_OFFSET ==> i < |procs| && procs[i] == p && p in nodes && nodes[p].pid == pid
      ensures p == NULL_OFFSET <==> old(!HasNode(procs, nodes, pid) && !RoomForNode(tiles, DEF_PROCESS_SIZE))
      ensures p == NULL_OFFSET ==> unchanged(this)
      ensures p != NULL_OFFSET && old(HasNode(procs, nodes, pid)) ==> p in old(nodes) && nodes[p].holders == old(nodes[p]).holders + 1
      ensures p != NULL_OFFSET && old(!HasNode(procs, nodes, pid)) ==> nodes[p].holders == 1
      ensures p != NULL_OFFSET ==> OthersKept(old(procs), procs, old(nodes), nodes, pid)
      ensures old(HasNode(procs, nodes, pid)) ==> tiles == old(tiles) && procs == old(procs) && p in procs && p in old(nodes) && SameArray(old(nodes[p]), nodes[p])
      ensures old(!HasNode(procs, nodes, pid)) && p != NULL_OFFSET ==> TableTaken(old(tiles), tiles, pid, DEF_PROCESS_SIZE) && nodes[p].allocations == 0 && |nodes[p].slots| == 30
      ensures old(!HasNode(procs, nodes, pid)) && p != NULL_OFFSET ==> procs == old(procs) + [p]
      ensures Users(Used()) == Users(old(Used())) && overcount == old(overcount)
    {
      hide Core, Sound, TableTaken, RoomForNode, Users, TakenTiles, Registered, NodeOk, Entries, Required;
      NodeFacts();
      ListedProcs();
      var prev;
      p, prev, i := MSearchProcessNode(pid);
      if p == NULL_OFFSET {
        NoneListed(i, pid);
        assert !HasNode(procs, nodes, pid);
        i := |procs|;
        p := MCreateProcessNode(pid);
        if p == NULL_OFFSET {
          return;
        }
      } else {
        assert OwnNode(procs, nodes, pid, p);
      }
      NodeFacts();
      SetHolders(p, nodes[p].holders + 1);
    }

    lemma ListedProcs()
      requires Core()
      ensures Listed(procs, nodes, firstProc)
      ensures forall j :: 0 <= j < |procs| ==> procs[j] != NULL_OFFSET
    {
      forall j | 0 <= j < |procs| ensures procs[j] != NULL_OFFSET {
        assert NextNode(procs, nodes, j);
      }
    }

    lemma NoneListed(i: nat, pid: Pid)
      requires Core() && i <= |procs| && (i < |procs| ==> procs[i] == NULL_OFFSET)
      requires forall j :: 0 <= j < i ==> nodes[procs[j]].pid != pid
      ensures forall a :: a in procs ==> nodes[a].pid != pid
    {
      assert i < |procs| ==> NextNode(procs, nodes, i);
    }

    /** Changes how many objects refer to the node. */
    method SetHolders(p: nat, count: nat)
      requires Core() && p in procs
      modifies `nodes
      ensures Core() && p in old(nodes) && nodes == old(nodes)[p := old(nodes)[p].(holders := count)]
    {
      ghost var nodes0 := nodes;
      NodeFacts();
      nodes := nodes[p := nodes[p].(holders := count)];
      ListedKept(procs, nodes0, nodes, firstProc);
      HoldersIrrelevant(Used(), headers, nodes0, nodes, procs);
    }

    // ----- the public operations

    /** MInitProcessNode: the process gets its node. */
    method MInitProcessNode(pid: Pid) returns (r: Outcome)
      requires Valid()
      modifies this
      ensures Valid() && Users(Used()) == Users(old(Used())) && overcount == old(overcount)
      ensures r.NullNode? <==> old(!HasNode(procs, nodes, pid) && !RoomForNode(tiles, DEF_PROCESS_SIZE))
      ensures r.NullNode? ==> tiles == old(tiles) && procs == old(procs)
      ensures r.NullNode? || (r.Done? && r.p in procs && r.p in nodes && nodes[r.p].pid == pid)
      ensures r.Done? ==> if old(HasNode(procs, nodes, pid)) then tiles == old(tiles) else TableTaken(old(tiles), tiles, pid, DEF_PROCESS_SIZE)
      ensures r.Done? ==> procs == if old(HasNode(procs, nodes, pid)) then old(procs) else old(procs) + [r.p]
      ensures r.Done? ==> r.p in nodes && nodes[r.p].holders == 1 && current == old(current)[pid := r.p]
      ensures r.NullNode? ==> current == old(current)
      ensures OthersKept(old(procs), procs, old(nodes), nodes, pid)
    {
      hide Core, TableTaken, RoomForNode;
      if pid in current {
        assert OwnNode(procs, nodes, pid, current[pid]);
        return Done(current[pid]);
      }
      r := MGetOrCreateProcessNode(pid, 0);
      NodeFacts();
    }

    function MMaxBlockSize(): nat
      requires base + HEADER <= limit
    {
      limit - base - HEADER
    }

    /** Allocates for process `pid`; `offset` is 0, or where the block has to be. */
    method MMallocImpl(pid: Pid, wanted: nat, offset: nat) returns (r: Outcome, ghost mid: seq<Tile>)
      requires Valid()
      modifies this
      ensures r.Done? || r.NoMemory? ==> Valid()
      ensures r.NullNode? ==> Cached()
      ensures wanted > limit ==> r.NoMemory? && unchanged(this)
      ensures wanted <= limit ==> Answered(r, old(tiles), old(procs), old(nodes), pid, wanted, offset, mid)
      ensures wanted <= limit ==> if r.Done? then Granted(mid, tiles, r.p, wanted, User(pid)) else r.NoMemory? ==> tiles == mid
      ensures r.NullNode? ==> tiles == old(tiles) && procs == old(procs)
      ensures r.Done? ==> NewUser(Users(old(Used())), Users(Used()), pid, r.p, wanted)
      ensures r.Done? && offset != 0 ==> r.p == offset
      ensures r.NoMemory? ==> wanted > limit || !Satisfiable(tiles, wanted, false, offset)
      ensures r.NoMemory? || r.NullNode? ==> Users(Used()) == Users(old(Used()))
      ensures !r.TooManyEntries? ==> overcount == old(overcount) + if r.Done? && offset != 0 && !StartsAt(mid, offset) then HEADER else 0
      ensures wanted <= limit && (r.Done? || r.NoMemory?) ==> current.Keys == old(current.Keys) + {pid}
    {
      hide HoldersOk, CachesOk, Cached, Sound, Registered, Listed, NodeOk, Take, TakenTiles, WritesNull, StopsAtCheck, Prepared, Granted, Satisfiable, NoFit, StartsAt, Tiled, SameHolders, OthersKept, Full, Required, Entries, HasNode, RoomForNode, OwnNode;
      mid := tiles;
      if wanted > limit {
        return NoMemory, mid;
      }
      r := MGetOrCreateProcessNode(pid, 1);
      mid := tiles;
      if !r.Done? {
        return;
      }
      r := TakeForUser(pid, r.p, wanted, offset);
    }

    /** The rest of MMallocImpl, once the process has a node with a free entry. */
    method TakeForUser(pid: Pid, node: nat, wanted: nat, offset: nat) returns (r: Outcome)
      requires Valid() && node in procs && node in nodes && nodes[node].pid == pid && nodes[node].allocations < |nodes[node].slots|
      modifies `headers, `firstFree, `freeBytes, `tiles, `overcount, `nodes, `userAllocations
      ensures Valid() && (r.Done? || r.NoMemory?)
      ensures r.Done? <==> Satisfiable(old(tiles), wanted, false, offset)
      ensures r.Done? ==> Granted(old(tiles), tiles, r.p, wanted, User(pid)) && NewUser(Users(old(Used())), Users(Used()), pid, r.p, wanted)
      ensures r.Done? && offset != 0 ==> r.p == offset
      ensures r.NoMemory? ==> unchanged(this)
      ensures overcount == old(overcount) + if r.Done? && offset != 0 && !StartsAt(old(tiles), offset) then HEADER else 0
    {
      hide HoldersOk, CachesOk, KeepsTaken, SameHeaders, Sound, Registered, Listed, NodeOk, Take, TakenTiles, PlacedAt, IsFirstFit, Granted, Satisfiable, NoFit, StartsAt, IsLastFit, Tiled, SameHolders, NextNode;
      CoreNow();
      if wanted > freeBytes {
        NothingToTake(wanted, offset);
        return NoMemory;
      }
      ghost var used0, h0, ts := Used(), headers, tiles;
      var p;
      ghost var offer, k;
      TiledNow();
      p, offer, k := MMallocBlock(wanted, false, offset, User(pid));
      if p == NULL_OFFSET {
        return NoMemory;
      }
      if offset != 0 {
        PlacedCount(ts, offer, k, offset, AlignUp(wanted), base, limit);
      }
      ghost var t := GrantedTile(ts, wanted, User(pid), p);
      ghost var nodes0 := nodes;
      KeptHeaders(ts, h0, tiles, headers);
      NodesListed(used0, h0, nodes, procs);
      MKeepBlock(p - HEADER, node, t, used0, h0);
      HoldersStay(current, procs, nodes0, nodes);
      userAllocations := userAllocations + 1;
      r := Done(p);
    }

    static lemma NodesListed(used: set<Tile>, h: Headers, nodes: Nodes, ps: seq<nat>)
      requires Registered(used, h, nodes, ps)
      ensures forall a :: a in ps ==> a in nodes
    {
      forall a | a in ps ensures a in nodes {
        assert NodeRegistered(used, h, nodes, a);
      }
    }

    lemma NothingToTake(wanted: nat, offset: nat)
      requires Sound() && wanted > freeBytes
      ensures !Satisfiable(tiles, wanted, false, offset)
    {
      NothingFits(tiles, AlignUp(wanted));
    }

    method MMalloc(pid: Pid, wanted: nat) returns (r: Outcome, ghost mid: seq<Tile>)
      requires Valid()
      modifies this
      ensures wanted == 0 || wanted > MMaxBlockSize() ==> r.NoMemory? && unchanged(this)
      ensures 0 < wanted <= MMaxBlockSize() ==> Answered(r, old(tiles), old(procs), old(nodes), pid, wanted, 0, mid)
      ensures 0 < wanted <= MMaxBlockSize() ==> if r.Done? then Granted(mid, tiles, r.p, wanted, User(pid)) else r.NoMemory? ==> tiles == mid
      ensures r.NullNode? ==> tiles == old(tiles) && procs == old(procs)
      ensures r.Done? || r.NoMemory? ==> Valid()
      ensures r.NullNode? ==> Cached()
      ensures !r.TooManyEntries? ==> overcount == old(overcount)
      ensures r.Done? ==> NewUser(Users(old(Used())), Users(Used()), pid, r.p, wanted)
      ensures r.NoMemory? ==> !Satisfiable(tiles, wanted, false, 0)
      ensures r.NoMemory? || r.NullNode? ==> Users(Used()) == Users(old(Used()))
      ensures 0 < wanted <= MMaxBlockSize() && (r.Done? || r.NoMemory?) ==> current.Keys == old(current.Keys) + {pid}
    {
      hide Answered, Granted, Satisfiable, Core;
      mid := tiles;
      HeapBounds();
      if wanted == 0 {
        ZeroIsNothing(tiles, 0);
        return NoMemory, mid;
      }
      if wanted > MMaxBlockSize() {
        NoneThatLarge(wanted);
        return NoMemory, mid;
      }
      r, mid := MMallocImpl(pid, wanted, 0);
    }

    lemma TiledNow()
      requires Sound()
      ensures Tiled(tiles, base, limit)
    {
    }

    lemma HeapBounds()
      requires Valid()
      ensures Sound() && base + HEADER <= limit
    {
    }

    static lemma ZeroIsNothing(ts: seq<Tile>, offset: nat)
      ensures !Satisfiable(ts, 0, false, offset)
    {
    }

    lemma NoneThatLarge(wanted: nat)
      requires Sound() && base + HEADER <= limit && wanted > MMaxBlockSize()
      ensures !Satisfiable(tiles, wanted, false, 0)
    {
      forall i | 0 <= i < |tiles| ensures tiles[i].size <= MMaxBlockSize() {
        TiledBounds(tiles, base, limit, i);
      }
    }

    /** MMallocTo: allocates at a fixed place. */
    method MMallocTo(pid: Pid, wanted: nat, offset: nat) returns (r: Outcome, ghost mid: seq<Tile>)
      requires Valid() && offset > 0
      modifies this
      ensures wanted == 0 || wanted > limit ==> r.NoMemory? && unchanged(this)
      ensures 0 < wanted <= limit ==> Answered(r, old(tiles), old(procs), old(nodes), pid, wanted, offset, mid)
      ensures 0 < wanted <= limit ==> if r.Done? then Granted(mid, tiles, r.p, wanted, User(pid)) else r.NoMemory? ==> tiles == mid
      ensures r.NullNode? ==> tiles == old(tiles) && procs == old(procs)
      ensures r.Done? || r.NoMemory? ==> Valid()
      ensures r.NullNode? ==> Cached()
      ensures !r.TooManyEntries? ==> overcount == old(overcount) + if r.Done? && !StartsAt(mid, offset) then HEADER else 0
      ensures r.Done? ==> r.p == offset && NewUser(Users(old(Used())), Users(Used()), pid, r.p, wanted)
      ensures r.NoMemory? ==> wanted > limit || !Satisfiable(tiles, wanted, false, offset)
      ensures r.NoMemory? || r.NullNode? ==> Users(Used()) == Users(old(Used()))
      ensures 0 < wanted <= limit && (r.Done? || r.NoMemory?) ==> current.Keys == old(current.Keys) + {pid}
    {
      hide Answered, Granted, Satisfiable, Core;
      mid := tiles;
      if wanted == 0 {
        ZeroIsNothing(tiles, offset);
        return NoMemory, mid;
      }
      r, mid := MMallocImpl(pid, wanted, offset);
    }

    /** Frees user block `t`; `node` is its owner, or null when it has to be looked up. */
    method MFreeImpl(p: nat, node: nat, ghost t: Tile) returns (size: nat, ghost a: nat)
      requires Core() && t in Used() && t.owner.User? && t.Payload() == p
      requires node != NULL_OFFSET ==> node in procs && node in nodes && Records(nodes[node], t, headers)
      modifies `headers, `firstFree, `freeBytes, `tiles, `nodes, `userAllocations
      ensures Core() && Used() == old(Used()) - {t} && size == t.size
      ensures t.addr in old(headers) && a in procs && a in old(nodes) && Records(old(nodes)[a], t, old(headers))
      ensures old(nodes)[a].allocations > 0
      ensures nodes == old(nodes)[a := Pop(old(nodes)[a], IndexOf(old(headers)[t.addr].next))]
    {
      hide Sound, Registered, Listed, NodeOk, TakenTiles;
      var block := p - HEADER;
      var owner := node;
      if owner == NULL_OFFSET {
        owner := MSearchProcessOfBlockNode(block, t);
      }
      a := owner;
      NodeFacts();
      UsedApart();
      ghost var nodes0 := nodes;
      ghost var k := TileIndex(t);
      MemberCounts(k);
      MPopOffsetById(owner, IndexOf(headers[block].next));
      RemoveBlock(Used(), headers, nodes0, nodes, procs, t, owner);
      ListedKept(procs, nodes0, nodes, firstProc);
      userAllocations := userAllocations - 1;
      ghost var h1 := headers;
      size := MFreeBlock(p, k);
      UsedApart();
      HeadersKept(Used(), h1, headers, nodes, procs);
    }

    lemma MemberCounts(k: nat)
      requires k < |tiles| && tiles[k].owner.User?
      ensures UserCount(tiles) > 0
    {
      assert tiles == tiles[..k] + [tiles[k]] + tiles[k + 1..];
      ThreeParts(tiles[..k], [tiles[k]], tiles[k + 1..]);
    }

    /** Gives a user block back, whoever asks. */
    method MFree(p: nat, ghost t: Tile) returns (size: nat)
      requires Valid() && t in Used() && t.owner.User? && t.Payload() == p
      modifies `headers, `firstFree, `freeBytes, `tiles, `nodes, `userAllocations
      ensures Valid() && Used() == old(Used()) - {t} && size == t.size
      ensures procs == old(procs) && SameHolders(procs, old(nodes), nodes)
    {
      ghost var a;
      size, a := MFreeImpl(p, NULL_OFFSET, t);
    }

    // ----- sweeping dead processes

    static ghost function PidsOf(pids: seq<Pid>): set<Pid> {
      set d | d in pids
    }

    /** The listed processes that no longer exist. */
    method MGetLeakProcesses(alive: set<Pid>) returns (dead: seq<Pid>)
      requires Core()
      ensures forall a :: a in procs && nodes[a].pid !in alive ==> nodes[a].pid in dead
      ensures forall d :: d in dead ==> d !in alive
    {
      ListedProcs();
      dead := [];
      var p := firstProc;
      ghost var i := 0;
      while p != NULL_OFFSET
        invariant i <= |procs| && p == if i < |procs| then procs[i] else NULL_OFFSET
        invariant forall j :: 0 <= j < i && nodes[procs[j]].pid !in alive ==> nodes[procs[j]].pid in dead
        invariant forall d :: d in dead ==> d !in alive
        decreases |procs| - i
      {
        assert NextNode(procs, nodes, i);
        if nodes[p].pid !in alive {
          dead := dead + [nodes[p].pid];
        }
        p, i := nodes[p].next, i + 1;
      }
    }

    /** The recorded blocks of one node, for the entries whose block's header agrees. */
    method NodeResources(p: nat) returns (leaks: seq<Leak>)
      requires Core() && p in procs
      ensures p in nodes && leaks == NodeLeaks(nodes[p])
    {
      hide Core, BlocksFrom;
      NodeFacts();
      leaks := [];
      var s := 0;
      BlocksNone(nodes[p].pid, nodes[p].slots);
      while s < |nodes[p].slots|
        invariant s <= |nodes[p].slots|
        invariant BlocksSplit(nodes[p].pid, nodes[p].slots, s, leaks)
      {
        BlocksStep(nodes[p].pid, nodes[p].slots, s, leaks);
        if !IsNull(nodes[p].slots[s]) {
          var offset := nodes[p].slots[s];
          BlockHeader(p, s);
          if IndexOf(headers[offset - HEADER].next) == s {
            leaks := leaks + [BlockOf(nodes[p].pid, offset)];
          }
        }
        s := s + 1;
      }
      leaks := leaks + [ProcessOf(nodes[p].pid)];
    }

    lemma BlockHeader(p: nat, s: nat)
      requires Core() && p in procs && p in nodes && s < |nodes[p].slots| && !IsNull(nodes[p].slots[s])
      ensures var offset := nodes[p].slots[s];
        offset >= HEADER && offset - HEADER in headers && IndexOf(headers[offset - HEADER].next) == s
    {
      assert NodeRegistered(Used(), headers, nodes, p);
      assert HasBlock(Used(), headers, nodes[p], s);
    }

    method MGetLeakResources(dead: seq<Pid>) returns (leaks: seq<Leak>)
      requires Core()
      ensures forall a :: a in procs ==> a in nodes
      ensures leaks == LeaksOf(procs, nodes, PidsOf(dead))
    {
      hide Core, LeaksOf, NodeLeaks;
      ListedProcs();
      leaks := [];
      var p := firstProc;
      ghost var i := 0;
      LeaksNone(procs, nodes, PidsOf(dead));
      while p != NULL_OFFSET
        invariant i <= |procs| && p == if i < |procs| then procs[i] else NULL_OFFSET
        invariant LeaksSplit(procs, i, nodes, PidsOf(dead), leaks)
        decreases |procs| - i
      {
        assert NextNode(procs, nodes, i);
        LeaksStep(procs, i, nodes, PidsOf(dead), leaks);
        if nodes[p].pid in dead {
          var more := NodeResources(p);
          leaks := leaks + more;
        }
        p, i := nodes[p].next, i + 1;
      }
    }

    method MEraseProcessNode(p: nat, prev: nat)
      requires p in nodes && (prev == NULL_OFFSET || prev in nodes)
      modifies `nodes, `firstProc
      ensures prev == NULL_OFFSET ==> firstProc == old(nodes)[p].next && nodes == old(nodes)
      ensures prev != NULL_OFFSET ==> firstProc == old(firstProc) && nodes == old(nodes)[prev := old(nodes)[prev].(next := old(nodes)[p].next)]
    {
      if prev != NULL_OFFSET {
        nodes := nodes[prev := nodes[prev].(next := nodes[p].next)];
      } else {
        firstProc := nodes[p].next;
      }
    }

    /** A node with nothing recorded leaves the list, and its block is given back. */
    method RemoveProcess(pid: Pid, ghost i: nat)
      requires Core() && i < |procs| && procs[i] in nodes && nodes[procs[i]].pid == pid
      requires forall s :: 0 <= s < |nodes[procs[i]].slots| ==> IsNull(nodes[procs[i]].slots[s])
      modifies `headers, `firstFree, `freeBytes, `tiles, `nodes, `firstProc, `procs
      ensures Core()
      ensures procs == old(procs)[..i] + old(procs)[i + 1..]
      ensures forall a :: a in old(procs) ==> a in old(nodes) && a in nodes && SameBody(nodes[a], old(nodes)[a])
      ensures exists t :: t in old(Used()) && t.owner == Table(pid) && Used() == old(Used()) - {t}
    {
      hide Sound, Registered, Listed, NodeOk, TakenTiles;
      ghost var nodes0, used0, a := nodes, Used(), procs[i];
      UsedApart();
      NodeFacts();
      PidsApart(used0, headers, nodes, procs, firstProc);
      var p, prev;
      ghost var j;
      p, prev, j := MSearchProcessNode(pid);
      assert j == i;
      TableLeaves(used0, headers, nodes0, procs, prev, firstProc, i);
      ghost var was: Tile :| was in used0 && was.Payload() == a && was.owner == Table(pid);
      MEraseProcessNode(p, prev);
      procs := procs[..i] + procs[i + 1..];
      ghost var h1 := headers;
      ghost var k := TileIndex(was);
      var size := MFreeBlock(p, k);
      UsedApart();
      HeadersKept(Used(), h1, headers, nodes, procs);
    }

    /** What a sweep has done so far: blocks and nodes of live processes are as they were. */
    static ghost predicate Swept(dead: set<Pid>, used0: set<Tile>, used1: set<Tile>, ps0: seq<nat>, ps1: seq<nat>, nodes0: Nodes, nodes1: Nodes) {
      && used1 <= used0 && (forall t :: t in used0 && t.Taken() && t.owner.pid !in dead ==> t in used1)
      && (forall a :: a in ps1 ==> a in ps0 && a in nodes0 && a in nodes1 && nodes1[a].pid == nodes0[a].pid)
      && (forall a :: a in ps0 && a in nodes0 && nodes0[a].pid !in dead ==>
           a in ps1 && a in nodes1 && SameBody(nodes1[a], nodes0[a]))
    }

    /** Gives back one leaked block, which belongs to the dead process. */
    method MCleaunUpBlock(pid: Pid, offset: nat, ghost dead: set<Pid>, ghost rest: seq<Leak>)
      requires Core() && (forall a :: a in procs ==> a in nodes)
      requires LeaksOf(procs, nodes, dead) == [BlockOf(pid, offset)] + rest
      modifies `headers, `firstFree, `freeBytes, `tiles, `nodes, `userAllocations
      ensures Core() && (forall a :: a in procs ==> a in nodes)
      ensures LeaksOf(procs, nodes, dead) == rest
      ensures Swept(dead, old(Used()), Used(), procs, procs, old(nodes), nodes)
    {
      hide Core, LeaksOf, Registered, TakenTiles;
      NodeFacts();
      CoreFacts();
      ghost var t, a := AfterBlock(Used(), headers, nodes, procs, dead, pid, offset, rest);
      var node := MSearchProcessOfBlockNode(offset - HEADER, t);
      OneRecorder(t, a, node);
      var size;
      ghost var owner;
      size, owner := MFreeImpl(offset, node, t);
      OneRecorderAt(old(Used()), old(headers), old(nodes), procs, t, a, owner);
    }

    lemma OneRecorder(t: Tile, a: nat, b: nat)
      requires Core() && t in Used() && a in procs && b in procs && a in nodes && b in nodes
      requires Records(nodes[a], t, headers) && Records(nodes[b], t, headers)
      ensures a == b
    {
      UsedApart();
      OneRecorderAt(Used(), headers, nodes, procs, t, a, b);
    }

    static lemma OneRecorderAt(used: set<Tile>, h: Headers, nodes: Nodes, ps: seq<nat>, t: Tile, a: nat, b: nat)
      requires Registered(used, h, nodes, ps) && a in ps && b in ps && a in nodes && b in nodes
      requires Records(nodes[a], t, h) && Records(nodes[b], t, h)
      ensures a == b
    {
    }

    /** Gives back the emptied node of a dead process. */
    method MCleaunUpProcess(pid: Pid, ghost dead: set<Pid>, ghost rest: seq<Leak>)
      requires Core() && (forall a :: a in procs ==> a in nodes)
      requires LeaksOf(procs, nodes, dead) == [ProcessOf(pid)] + rest
      modifies `headers, `firstFree, `freeBytes, `tiles, `nodes, `firstProc, `procs
      ensures Core() && (forall a :: a in procs ==> a in nodes)
      ensures LeaksOf(procs, nodes, dead) == rest
      ensures Swept(dead, old(Used()), Used(), old(procs), procs, old(nodes), nodes)
    {
      hide Core;
      NodeFacts();
      ghost var i := AfterProcess(procs, nodes, dead, pid, rest);
      Erased(procs, i);
      RemoveProcess(pid, i);
      NodeFacts();
      LeaksSame(procs, old(nodes), nodes, dead);
    }

    lemma CoreFacts()
      requires Core()
      ensures Registered(Used(), headers, nodes, procs) && Apart(Used())
    {
      UsedApart();
    }

    /** Gives back the listed resources one by one. */
    method MCleanUpMemoryImpl(leaks: seq<Leak>, ghost dead: set<Pid>)
      requires Core() && (forall a :: a in procs ==> a in nodes)
      requires leaks == LeaksOf(procs, nodes, dead)
      modifies `headers, `firstFree, `freeBytes, `tiles, `nodes, `firstProc, `procs, `userAllocations
      ensures Core() && (forall a :: a in procs ==> a in nodes && nodes[a].pid !in dead)
      ensures Swept(dead, old(Used()), Used(), old(procs), procs, old(nodes), nodes)
    {
      hide Core, LeaksOf;
      var k := 0;
      while k < |leaks|
        invariant k <= |leaks| && Core() && (forall a :: a in procs ==> a in nodes)
        invariant LeaksOf(procs, nodes, dead) == leaks[k..]
        invariant Swept(dead, old(Used()), Used(), old(procs), procs, old(nodes), nodes)
      {
        ghost var used1, ps1, nodes1 := Used(), procs, nodes;
        assert leaks[k..] == [leaks[k]] + leaks[k + 1..];
        match leaks[k] {
          case BlockOf(pid, offset) => MCleaunUpBlock(pid, offset, dead, leaks[k + 1..]);
          case ProcessOf(pid) => MCleaunUpProcess(pid, dead, leaks[k + 1..]);
        }
        SweptOn(dead, old(Used()), used1, Used(), old(procs), ps1, procs, old(nodes), nodes1, nodes);
        k := k + 1;
      }
      NoLeaks(procs, nodes, dead);
    }

    static lemma SweptOn(dead: set<Pid>, used0: set<Tile>, used1: set<Tile>, used2: set<Tile>, ps0: seq<nat>, ps1: seq<nat>, ps2: seq<nat>,
                         nodes0: Nodes, nodes1: Nodes, nodes2: Nodes)
      requires Swept(dead, used0, used1, ps0, ps1, nodes0, nodes1) && Swept(dead, used1, used2, ps1, ps2, nodes1, nodes2)
      ensures Swept(dead, used0, used2, ps0, ps2, nodes0, nodes2)
    {
      forall a | a in ps0 && a in nodes0 && nodes0[a].pid !in dead
        ensures a in ps2 && a in nodes2 && SameBody(nodes2[a], nodes0[a])
      {
        assert a in ps1 && SameBody(nodes1[a], nodes0[a]);
      }
    }

    /** Blocks of one owner in a set of blocks. */
    static ghost function Alive(used: set<Tile>, alive: set<Pid>): set<Tile> {
      set t | t in used && t.Taken() && t.owner.pid in alive
    }

    /** Sweeps every process that is not in `alive`, as one step under the lock. */
    method MCleanUpImpl(alive: set<Pid>)
      requires Core()
      modifies `headers, `firstFree, `freeBytes, `tiles, `nodes, `firstProc, `procs, `userAllocations
      ensures Core()
      ensures Used() == Alive(old(Used()), alive)
      ensures forall a :: a in procs <==> a in old(procs) && a in old(nodes) && old(nodes)[a].pid in alive
      ensures forall a :: a in procs ==> a in nodes && a in old(nodes) && SameBody(nodes[a], old(nodes)[a])
    {
      hide Core, LeaksOf;
      NodeFacts();
      var dead := MGetLeakProcesses(alive);
      var leaks := MGetLeakResources(dead);
      OwnersListed();
      MCleanUpMemoryImpl(leaks, PidsOf(dead));
      NodeFacts();
      OwnersListed();
      assert Used() == Alive(old(Used()), alive);
    }

    /** Every block in use belongs to a listed process. */
    lemma OwnersListed()
      requires Core()
      ensures forall t :: t in Used() ==> t.Taken() && exists a :: a in procs && a in nodes && nodes[a].pid == t.owner.pid
    {
      forall t | t in Used() ensures t.Taken() && exists a :: a in procs && a in nodes && nodes[a].pid == t.owner.pid {
        assert HasOwner(t, headers, nodes, procs);
        if t.owner.Table? {
          assert t.Payload() in procs;
        }
      }
    }

    /** Processes outside `alive` are gone, and with them their allocator objects. */
    method MCleanUpResource(alive: set<Pid>)
      requires Cached()
      modifies this
      ensures Cached() && (old(Valid()) ==> Valid()) && overcount == old(overcount)
      ensures Used() == Alive(old(Used()), alive)
      ensures forall a :: a in procs <==> a in old(procs) && a in old(nodes) && old(nodes)[a].pid in alive
      ensures forall a :: a in procs ==> a in nodes && a in old(nodes) && SameBody(nodes[a], old(nodes)[a])
      ensures current == map pid | pid in old(current) && pid in alive :: old(current)[pid]
    {
      hide Core;
      NodeFacts();
      MCleanUpImpl(alive);
      current := map pid | pid in current && pid in alive :: current[pid];
    }

    /** The process detaches; the last one leaves a heap that is a single free block. */
    method MReleaseHeap(pid: Pid, alive: set<Pid>) returns (destroyed: bool)
      requires Valid()
      modifies this
      ensures Valid() && pid !in current && overcount == old(overcount)
      ensures Used() == Alive(old(Used()), Staying(old(procs), old(nodes), pid, alive))
      ensures Used() == Alive(old(Used()), alive - {pid})
      ensures Remain(old(procs), old(nodes), procs, alive - {pid})
      ensures current.Keys == old(current.Keys) * alive - {pid}
      ensures destroyed <==> procs == []
      ensures destroyed <==> forall a :: a in old(procs) && a in old(nodes) ==> old(nodes)[a].pid !in alive - {pid}
      ensures destroyed ==> |tiles| == 1 && tiles[0] == Tile(base, MMaxBlockSize(), Free) && freeBytes == MMaxBlockSize() + overcount
    {
      hide Cached, Alive, Staying, Used, Remain, HoldersOk;
      StayingIs(pid, alive);
      SweepAndDetach(pid, alive);
      RemainSame(old(procs), old(nodes), procs, Staying(old(procs), old(nodes), pid, alive), alive - {pid});
      NoneRemain(old(procs), old(nodes), procs, alive - {pid});
      CoreNow();
      ListedProcs();
      destroyed := firstProc == NULL_OFFSET;
      if destroyed {
        WholeHeapFree();
      }
    }

    lemma CoreNow()
      requires Cached()
      ensures Core()
    {
    }

    /** Of the listed nodes those of these processes remain. */
    static ghost predicate Remain(ps: seq<nat>, nodes: Nodes, ps2: seq<nat>, pids: set<Pid>) {
      forall a :: a in ps2 <==> a in ps && a in nodes && nodes[a].pid in pids
    }

    static lemma RemainSame(ps: seq<nat>, nodes: Nodes, ps2: seq<nat>, pids: set<Pid>, pids2: set<Pid>)
      requires Remain(ps, nodes, ps2, pids) && forall a :: a in ps && a in nodes ==> (nodes[a].pid in pids <==> nodes[a].pid in pids2)
      ensures Remain(ps, nodes, ps2, pids2)
    {
    }

    static lemma NoneRemain(ps: seq<nat>, nodes: Nodes, ps2: seq<nat>, pids: set<Pid>)
      requires Remain(ps, nodes, ps2, pids)
      ensures ps2 == [] <==> forall a :: a in ps && a in nodes ==> nodes[a].pid !in pids
    {
      if ps2 != [] {
        assert ps2[0] in ps2;
      }
    }

    /** Two sweeps: of the processes that are gone, and of the one that detaches. */
    method SweepAndDetach(pid: Pid, alive: set<Pid>)
      requires Cached()
      modifies this
      ensures Cached() && (old(Valid()) ==> Valid()) && pid !in current && overcount == old(overcount)
      ensures Used() == Alive(old(Used()), Staying(old(procs), old(nodes), pid, alive))
      ensures Remain(old(procs), old(nodes), procs, Staying(old(procs), old(nodes), pid, alive))
      ensures current.Keys == old(current.Keys) * alive - {pid}
    {
      hide Core, Alive, CachesOk, HoldersOk;
      NodeFacts();
      MCleanUpResource(alive);
      NodeFacts();
      SweptHolder(old(procs), old(nodes), procs, nodes, pid, alive);
      AliveTwice(old(Used()), alive, pid);
      Detach(pid, alive);
    }

    /** With one holder at most for each node, a process that detaches leaves nothing. */
    lemma StayingIs(pid: Pid, alive: set<Pid>)
      requires Valid()
      ensures Alive(Used(), Staying(procs, nodes, pid, alive)) == Alive(Used(), alive - {pid})
      ensures forall a :: a in procs && a in nodes ==>
        (nodes[a].pid in Staying(procs, nodes, pid, alive) <==> nodes[a].pid in alive - {pid})
    {
      OwnersListed();
      if HasNode(procs, nodes, pid) {
        var a :| OwnNode(procs, nodes, pid, a);
        assert LastHolder(procs, nodes, pid);
      }
    }

    /** The process's node has no holder but the one that detaches. */
    static ghost predicate LastHolder(ps: seq<nat>, nodes: Nodes, pid: Pid) {
      exists a :: OwnNode(ps, nodes, pid, a) && nodes[a].holders <= 1
    }

    /** The processes that keep their blocks when `pid` detaches. */
    static ghost function Staying(ps: seq<nat>, nodes: Nodes, pid: Pid, alive: set<Pid>): set<Pid> {
      if LastHolder(ps, nodes, pid) then alive - {pid} else alive
    }

    static lemma NoHolder(ps: seq<nat>, nodes: Nodes, pid: Pid)
      requires forall a :: a in ps && a in nodes ==> nodes[a].pid != pid
      ensures !LastHolder(ps, nodes, pid)
    {
    }

    static lemma HolderKnown(ps: seq<nat>, nodes: Nodes, pid: Pid, p: nat)
      requires OwnNode(ps, nodes, pid, p) && forall a :: OwnNode(ps, nodes, pid, a) ==> a == p
      ensures LastHolder(ps, nodes, pid) <==> nodes[p].holders <= 1
    {
    }

    static lemma AliveTwice(used: set<Tile>, alive: set<Pid>, pid: Pid)
      ensures Alive(Alive(used, alive), alive) == Alive(used, alive)
      ensures Alive(Alive(used, alive), alive - {pid}) == Alive(used, alive - {pid})
    {
    }

    /** The first sweep does not change the holders of a living process. */
    static lemma SweptHolder(ps: seq<nat>, nodes: Nodes, ps2: seq<nat>, nodes2: Nodes, pid: Pid, alive: set<Pid>)
      requires forall a :: a in ps2 <==> a in ps && a in nodes && nodes[a].pid in alive
      requires forall a :: a in ps2 ==> a in nodes2 && a in nodes && SameBody(nodes2[a], nodes[a])
      ensures Staying(ps2, nodes2, pid, alive) == Staying(ps, nodes, pid, alive)
    {
      if pid in alive {
        if LastHolder(ps, nodes, pid) {
          var a :| OwnNode(ps, nodes, pid, a) && nodes[a].holders <= 1;
          assert OwnNode(ps2, nodes2, pid, a);
        }
        if LastHolder(ps2, nodes2, pid) {
          var a :| OwnNode(ps2, nodes2, pid, a) && nodes2[a].holders <= 1;
          assert OwnNode(ps, nodes, pid, a);
        }
      }
    }

    /** The node of a process that detaches: swept with its last holder, otherwise one holder less. */
    method Detach(pid: Pid, alive: set<Pid>)
      requires Cached() && Used() == Alive(Used(), alive)
      requires forall a :: a in procs ==> a in nodes && nodes[a].pid in alive
      modifies this
      ensures Cached() && (old(Valid()) ==> Valid()) && pid !in current && overcount == old(overcount)
      ensures Used() == Alive(old(Used()), Staying(old(procs), old(nodes), pid, alive))
      ensures forall a :: a in procs <==> a in old(procs) && a in old(nodes) && old(nodes)[a].pid in Staying(old(procs), old(nodes), pid, alive)
      ensures current == old(current) - {pid}
      ensures forall a :: OwnNode(old(procs), old(nodes), pid, a) && pid in old(current) && old(nodes)[a].holders > 1 ==>
        a in nodes && nodes[a] == old(nodes)[a].(holders := old(nodes)[a].holders - 1)
    {
      hide Core, CachesOk, HoldersOk, TakenTiles, LastHolder, Alive, Users, Used, Listed, Registered, SameHolders, SameBody, Apart;
      NodeFacts();
      ListedProcs();
      var p, prev;
      ghost var i;
      p, prev, i := MSearchProcessNode(pid);
      if p == NULL_OFFSET {
        NoneListed(i, pid);
        NoHolder(procs, nodes, pid);
        NotAttached(current, procs, nodes, pid);
      } else {
        HolderKnown(procs, nodes, pid, p);
        if nodes[p].holders <= 1 {
          SweepLast(pid, alive);
        } else {
          MoreHolders(current, procs, nodes, p);
          DropHolder(pid, p);
        }
      }
    }

    /** The process is treated like one that is gone. */
    method SweepLast(pid: Pid, alive: set<Pid>)
      requires Cached()
      requires forall a :: a in procs ==> a in nodes && nodes[a].pid in alive
      modifies this
      ensures Cached() && (old(Valid()) ==> Valid()) && overcount == old(overcount)
      ensures current == old(current) - {pid}
      ensures Used() == Alive(old(Used()), alive - {pid})
      ensures forall a :: a in procs <==> a in old(procs) && a in old(nodes) && old(nodes)[a].pid in alive - {pid}
    {
      hide Core, HoldersOk, Alive, Used;
      CachesAlive(current, procs, nodes, pid, alive);
      MCleanUpResource(alive - {pid});
    }

    /** One object less refers to the node. */
    method DropHolder(pid: Pid, p: nat)
      requires Cached() && p in procs && p in nodes && nodes[p].pid == pid && nodes[p].holders > 1
      modifies `nodes, `current
      ensures Cached() && current == old(current) - {pid}
      ensures nodes == if pid in old(current) then old(nodes)[p := old(nodes[p]).(holders := old(nodes[p]).holders - 1)] else old(nodes)
    {
      hide Core;
      ghost var cache, nodes0 := current, nodes;
      if pid in current {
        SetHolders(p, nodes[p].holders - 1);
      }
      current := current - {pid};
      CachesLess(cache, current, procs, nodes0, nodes);
    }

    static lemma NotAttached(cache: map<Pid, nat>, ps: seq<nat>, nodes: Nodes, pid: Pid)
      requires CachesOk(cache, ps, nodes) && forall a :: a in ps && a in nodes ==> nodes[a].pid != pid
      ensures pid !in cache && cache - {pid} == cache
    {
    }

    static lemma CachesAlive(cache: map<Pid, nat>, ps: seq<nat>, nodes: Nodes, pid: Pid, alive: set<Pid>)
      requires CachesOk(cache, ps, nodes) && forall a :: a in ps ==> a in nodes && nodes[a].pid in alive
      ensures (map q | q in cache && q in alive - {pid} :: cache[q]) == cache - {pid}
    {
    }

    static lemma MoreHolders(cache: map<Pid, nat>, ps: seq<nat>, nodes: Nodes, p: nat)
      requires p in ps && p in nodes && nodes[p].holders > 1
      ensures !HoldersOk(cache, ps, nodes)
    {
    }

    static lemma CachesLess(cache: map<Pid, nat>, cache2: map<Pid, nat>, ps: seq<nat>, nodes: Nodes, nodes2: Nodes)
      requires CachesOk(cache, ps, nodes) && forall a :: a in ps && a in nodes ==> a in nodes2 && nodes2[a].pid == nodes[a].pid
      requires forall pid :: pid in cache2 ==> pid in cache && cache2[pid] == cache[pid]
      ensures CachesOk(cache2, ps, nodes2)
    {
    }

    lemma WholeHeapFree()
      requires Core() && procs == []
      ensures |tiles| == 1 && tiles[0] == Tile(base, MMaxBlockSize(), Free) && freeBytes == MMaxBlockSize() + overcount
    {
      OwnersListed();
      EmptyHeapIsOneBlock(tiles, base, limit);
      assert tiles == [tiles[0]];
      SingleFree(tiles[0]);
    }

    /** MCreateHeap: one free block from `first` to the end of the memory. */
    constructor MCreateHeap(first: nat, size: nat)
      requires 0 < first && first + HEADER < size <= MAX_HEAP
      ensures Valid() && base == first && limit == size && overcount == 0
      ensures tiles == [Tile(first, size - first - HEADER, Free)] && procs == [] && current == map[]
    {
      base, limit := first, size;
      headers := map[first := BlockNode(NULL_OFFSET, size - first - HEADER, false)];
      firstFree, freeBytes := first, size - first - HEADER;
      nodes, firstProc, userAllocations, current := map[], NULL_OFFSET, 0, map[];
      tiles, overcount, procs := [Tile(first, size - first - HEADER, Free)], 0, [];
      new;
      SingleFree(tiles[0]);
      OneFree(tiles[0], [], headers);
    }

    /** In a new heap a node fits exactly when the free block is larger than it. */
    static lemma NewHeapHasRoom(t: Tile)
      requires t.owner.Free?
      ensures RoomForNode([t], DEF_PROCESS_SIZE) <==> t.size > DEF_PROCESS_SIZE
    {
      assert AlignUp(DEF_PROCESS_SIZE) == DEF_PROCESS_SIZE;
      assert [t][0] == t;
    }

    /** The byte account: free bytes, bytes in use and one header for every block after the first
        fill the heap, up to the bytes lost to interior cuts. */
    lemma ByteAccount()
      requires Valid()
      ensures freeBytes + TakenSum(tiles) + HEADER * (|tiles| - 1) == MMaxBlockSize() + overcount
      ensures freeBytes == FreeSum(tiles) <==> overcount == 0
    {
      Conservation(tiles, base, limit);
    }
  }

  /** MCreateHeap to its end: the new heap with the node of its creator, which is null exactly when the
      heap is not larger than the node. */
  method MNewHeap(first: nat, size: nat, pid: Pid) returns (h: CSharedAllocator, r: Outcome)
    requires 0 < first && first + HEADER < size <= MAX_HEAP
    ensures fresh(h) && h.Valid() && h.base == first && h.limit == size && h.overcount == 0
    ensures r.NullNode? || r.Done?
    ensures r.NullNode? <==> size - first - HEADER <= DEF_PROCESS_SIZE
    ensures var whole := [Tile(first, size - first - HEADER, Free)];
      if r.NullNode? then h.tiles == whole && h.procs == [] else h.procs == [r.p] && TableTaken(whole, h.tiles, pid, DEF_PROCESS_SIZE)
    ensures r.Done? ==> r.p in h.nodes && h.nodes[r.p].pid == pid && h.nodes[r.p].holders == 1 && h.current == map[pid := r.p]
  {
    h := new CSharedAllocator.MCreateHeap(first, size);
    CSharedAllocator.NewHeapHasRoom(h.tiles[0]);
    r := h.MInitProcessNode(pid);
  }

  /** The only user of a heap destroys it when it detaches. */
  method SoleUserDestroys(first: nat, size: nat, pid: Pid, alive: set<Pid>) returns (h: CSharedAllocator, destroyed: bool)
    requires 0 < first && first + HEADER + DEF_PROCESS_SIZE < size <= MAX_HEAP
    ensures fresh(h) && h.Valid() && destroyed && h.tiles == [Tile(first, size - first - HEADER, Free)]
  {
    var r;
    h, r := MNewHeap(first, size, pid);
    destroyed := h.MReleaseHeap(pid, alive);
  }

  /** A new heap of 256 free bytes: making the creator's node writes through a null pointer. */
  method HeapTooSmallForANode() returns (h: CSharedAllocator, r: Outcome)
    ensures fresh(h) && h.Valid() && h.tiles == [Tile(512, 256, Free)] && h.procs == []
    ensures r.NullNode?
  {
    h, r := MNewHeap(512, 784, 1);
  }
}
