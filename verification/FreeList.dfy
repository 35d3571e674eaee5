/**
  The block headers in memory and the list that threads the free ones, related to the tiles.
*/
module FreeList {
  import opened Tiles

  /** `block_node_t`: `next` is the word FNextNode (a link when the block is free, the owner's
      index when it is taken); the top bit of FBlockSize is the separate field `inUse`. */
  datatype BlockNode = BlockNode(next: nat, size: nat, inUse: bool)

  type Headers = map<nat, BlockNode>

  ghost predicate Written(t: Tile, h: Headers) {
    t.addr in h && h[t.addr].size == t.size && (h[t.addr].inUse <==> t.Taken())
  }

  ghost predicate NextIs(t: Tile, h: Headers, next: nat) {
    t.addr in h && h[t.addr].next == next
  }

  /** The free tiles of `ts` are linked in address order, the last one to `after`. */
  ghost predicate LinkedTo(ts: seq<Tile>, after: nat, h: Headers) {
    ts == [] || (LinkedTo(ts[1..], after, h) && (ts[0].owner.Free? ==> NextIs(ts[0], h, FirstFreeOr(ts[1..], after))))
  }

  /** The list starting at `first` visits exactly the free tiles, in address order. */
  ghost predicate Linked(ts: seq<Tile>, h: Headers, first: nat) {
    first == FirstFree(ts) && LinkedTo(ts, NULL_OFFSET, h)
  }

  ghost predicate BlocksOk(ts: seq<Tile>, h: Headers, first: nat, base: nat, limit: nat) {
    && Tiled(ts, base, limit)
    && (forall i :: 0 <= i < |ts| ==> Written(ts[i], h))
    && Linked(ts, h, first)
  }

  ghost predicate NoFree(ts: seq<Tile>) {
    forall i :: 0 <= i < |ts| ==> !ts[i].owner.Free?
  }

  /** `p` is the last free tile of `ts`, or -1 when there is none. */
  ghost predicate LastFree(ts: seq<Tile>, p: int) {
    && -1 <= p < |ts|
    && (p >= 0 ==> ts[p].owner.Free?)
    && forall i :: p < i < |ts| ==> !ts[i].owner.Free?
  }

  /** The same for the tiles before index `k`. */
  ghost predicate LastFreeBefore(ts: seq<Tile>, k: nat, p: int) {
    && k <= |ts| && -1 <= p < k
    && (p >= 0 ==> ts[p].owner.Free?)
    && forall i :: p < i < k ==> !ts[i].owner.Free?
  }

  ghost predicate SameNext(ts: seq<Tile>, h: Headers, h2: Headers) {
    forall i :: 0 <= i < |ts| && ts[i].owner.Free? && ts[i].addr in h ==> NextIs(ts[i], h2, h[ts[i].addr].next)
  }

  lemma {:induction false} FirstFreeOrConcat(a: seq<Tile>, b: seq<Tile>, after: nat)
    ensures FirstFreeOr(a + b, after) == FirstFreeOr(a, FirstFreeOr(b, after))
  {
    if a == [] {
      assert a + b == b;
    } else {
      assert (a + b)[1..] == a[1..] + b;
      FirstFreeOrConcat(a[1..], b, after);
    }
  }

  lemma {:induction false} LinkedToConcat(a: seq<Tile>, b: seq<Tile>, after: nat, h: Headers)
    ensures LinkedTo(a + b, after, h) <==> LinkedTo(a, FirstFreeOr(b, after), h) && LinkedTo(b, after, h)
  {
    if a == [] {
      assert a + b == b;
    } else {
      assert (a + b)[1..] == a[1..] + b;
      LinkedToConcat(a[1..], b, after, h);
      FirstFreeOrConcat(a[1..], b, after);
    }
  }

  lemma {:induction false} FirstFreeOrNone(ts: seq<Tile>, after: nat)
    requires NoFree(ts)
    ensures FirstFreeOr(ts, after) == after
  {
    if ts != [] {
      FirstFreeOrNone(ts[1..], after);
    }
  }

  /** The next free tile at or after index `i`. */
  lemma {:induction false} FreeFrom(ts: seq<Tile>, i: nat) returns (q: nat)
    requires i <= |ts|
    ensures i <= q <= |ts|
    ensures forall j :: i <= j < q ==> !ts[j].owner.Free?
    ensures q < |ts| ==> ts[q].owner.Free?
    ensures FirstFree(ts[i..]) == if q < |ts| then ts[q].addr else NULL_OFFSET
    decreases |ts| - i
  {
    q := i;
    if i < |ts| && !ts[i].owner.Free? {
      q := FreeFrom(ts, i + 1);
      assert ts[i..][1..] == ts[i + 1..];
    }
  }

  lemma {:induction false} FirstFreeOrSome(ts: seq<Tile>, p: nat, x: nat, y: nat)
    requires p < |ts| && ts[p].owner.Free?
    ensures FirstFreeOr(ts, x) == FirstFreeOr(ts, y)
  {
    if p > 0 {
      FirstFreeOrSome(ts[1..], p - 1, x, y);
    }
  }

  lemma {:induction false} SameLinks(ts: seq<Tile>, after: nat, h: Headers, h2: Headers)
    requires LinkedTo(ts, after, h) && SameNext(ts, h, h2)
    ensures LinkedTo(ts, after, h2)
  {
    if ts != [] {
      assert SameNext(ts[1..], h, h2);
      SameLinks(ts[1..], after, h, h2);
    }
  }

  /** Redirecting the last free tile of `a` (or, without one, nothing) moves the end of its list. */
  lemma {:induction false} RelinkPrefix(a: seq<Tile>, x: nat, y: nat, h: Headers, h2: Headers, p: int)
    requires LinkedTo(a, x, h) && LastFree(a, p)
    requires p >= 0 ==> NextIs(a[p], h2, y)
    requires forall i :: 0 <= i < p && a[i].owner.Free? && a[i].addr in h ==> NextIs(a[i], h2, h[a[i].addr].next)
    ensures LinkedTo(a, y, h2)
    ensures FirstFreeOr(a, y) == if p == -1 then y else FirstFreeOr(a, x)
  {
    if p == -1 {
      FirstFreeOrNone(a, y);
    } else {
      FirstFreeOrSome(a, p, x, y);
    }
    if a != [] {
      var q := if p == -1 then -1 else p - 1;
      RelinkPrefix(a[1..], x, y, h, h2, q);
    }
  }

  /** Replacing the middle part `b` by `b2` keeps the list well linked, when only the last free
      tile before it (or the list head) is redirected. */
  lemma Relink(a: seq<Tile>, b: seq<Tile>, b2: seq<Tile>, c: seq<Tile>,
               h: Headers, h2: Headers, first: nat, first2: nat, p: int)
    requires Linked(a + b + c, h, first) && LastFree(a, p)
    requires p >= 0 ==> NextIs(a[p], h2, FirstFree(b2 + c)) && first2 == first
    requires p == -1 ==> first2 == FirstFree(b2 + c)
    requires forall i :: 0 <= i < p && a[i].owner.Free? && a[i].addr in h ==> NextIs(a[i], h2, h[a[i].addr].next)
    requires LinkedTo(b2, FirstFree(c), h2) && SameNext(c, h, h2)
    ensures Linked(a + b2 + c, h2, first2)
  {
    assert a + b + c == a + (b + c) && a + b2 + c == a + (b2 + c);
    LinkedToConcat(a, b + c, NULL_OFFSET, h);
    LinkedToConcat(b, c, NULL_OFFSET, h);
    SameLinks(c, NULL_OFFSET, h, h2);
    LinkedToConcat(b2, c, NULL_OFFSET, h2);
    RelinkPrefix(a, FirstFree(b + c), FirstFree(b2 + c), h, h2, p);
    LinkedToConcat(a, b2 + c, NULL_OFFSET, h2);
    FirstFreeOrConcat(a, b + c, NULL_OFFSET);
    FirstFreeOrConcat(a, b2 + c, NULL_OFFSET);
  }

  /** The same when the replacement begins at the same address: nothing before it changes. */
  lemma RelinkSame(a: seq<Tile>, b: seq<Tile>, b2: seq<Tile>, c: seq<Tile>, h: Headers, h2: Headers, first: nat)
    requires Linked(a + b + c, h, first)
    requires FirstFree(b + c) == FirstFree(b2 + c)
    requires SameNext(a, h, h2) && LinkedTo(b2, FirstFree(c), h2) && SameNext(c, h, h2)
    ensures Linked(a + b2 + c, h2, first)
  {
    assert a + b + c == a + (b + c) && a + b2 + c == a + (b2 + c);
    LinkedToConcat(a, b + c, NULL_OFFSET, h);
    LinkedToConcat(b, c, NULL_OFFSET, h);
    SameLinks(a, FirstFree(b + c), h, h2);
    SameLinks(c, NULL_OFFSET, h, h2);
    LinkedToConcat(b2, c, NULL_OFFSET, h2);
    LinkedToConcat(a, b2 + c, NULL_OFFSET, h2);
    FirstFreeOrConcat(a, b + c, NULL_OFFSET);
    FirstFreeOrConcat(a, b2 + c, NULL_OFFSET);
  }

  lemma LinkAt(ts: seq<Tile>, h: Headers, first: nat, p: nat)
    requires Linked(ts, h, first) && p < |ts| && ts[p].owner.Free?
    ensures NextIs(ts[p], h, FirstFree(ts[p + 1..]))
  {
    assert ts == ts[..p] + ts[p..];
    LinkedToConcat(ts[..p], ts[p..], NULL_OFFSET, h);
    assert ts[p..][1..] == ts[p + 1..];
  }

  /** The header changes that put detached tile `k` back into the list: its own (merged) header,
      and the link of the last free tile before it unless that one was merged. */
  lemma InsertLinked(ts: seq<Tile>, k: nat, p: int, h: Headers, h2: Headers, first: nat, first2: nat)
    requires Linked(ts, h, first)
    requires k < |ts| && !ts[k].owner.Free? && LastFreeBefore(ts, k, p)
    requires NextIs(Merged(ts, k), h2, FirstFree(ts[MergeTo(ts, k)..]))
    requires p == -1 ==> first2 == ts[k].addr
    requires p >= 0 ==> first2 == first
    requires 0 <= p < k - 1 ==> NextIs(ts[p], h2, ts[k].addr)
    requires forall i :: 0 <= i < p && ts[i].owner.Free? && ts[i].addr in h ==> NextIs(ts[i], h2, h[ts[i].addr].next)
    requires SameNext(ts[MergeTo(ts, k)..], h, h2)
    ensures Linked(Release(ts, k), h2, first2)
  {
    var a, b, m := MergeFrom(ts, k), MergeTo(ts, k), Merged(ts, k);
    var A, B, C := ts[..a], ts[a..b], ts[b..];
    SplitInThree(ts, a, b);
    OneFree(m, C, h2);
    if p == k - 1 && k > 0 {
      assert (B + C)[0] == ts[k - 1];
      RelinkSame(A, B, [m], C, h, h2, first);
    } else {
      assert a == k;
      Relink(A, B, [m], C, h, h2, first, first2, p);
    }
  }

  /** The memory after tile `k` was put back: one header for the merged tile, and at most one
      redirected link before it. */
  ghost predicate Reinserted(ts: seq<Tile>, k: nat, p: int, h: Headers, h2: Headers)
    requires k < |ts|
  {
    && Merged(ts, k).addr in h2
    && h2[Merged(ts, k).addr] == BlockNode(FirstFree(ts[MergeTo(ts, k)..]), Merged(ts, k).size, false)
    && forall i :: (0 <= i < MergeFrom(ts, k) || MergeTo(ts, k) <= i < |ts|) && ts[i].addr in h ==>
         ts[i].addr in h2 && h2[ts[i].addr] == if i == p then h[ts[i].addr].(next := ts[k].addr) else h[ts[i].addr]
  }

  lemma InsertedOk(ts: seq<Tile>, k: nat, p: int, h: Headers, h2: Headers, first: nat, first2: nat, base: nat, limit: nat)
    requires BlocksOk(ts, h, first, base, limit)
    requires k < |ts| && !ts[k].owner.Free? && LastFreeBefore(ts, k, p)
    requires first2 == if p == -1 then ts[k].addr else first
    requires Reinserted(ts, k, p, h, h2)
    ensures BlocksOk(Release(ts, k), h2, first2, base, limit)
  {
    var a, b, m := MergeFrom(ts, k), MergeTo(ts, k), Merged(ts, k);
    var r := Release(ts, k);
    ReleaseTiled(ts, k, base, limit);
    assert forall i :: 0 <= i < |ts| ==> Written(ts[i], h);
    InsertLinked(ts, k, p, h, h2, first, first2);
    forall i | 0 <= i < |r| ensures Written(r[i], h2) {
      if i < a {
        assert r[i] == ts[i];
      } else if i > a {
        assert r[i] == ts[i - a - 1 + b];
      }
    }
  }

  // ----- finding the place of a block in the list

  /** Every block in use stays in use, and its header is left alone. */
  ghost predicate KeepsTaken(ts: seq<Tile>, h: Headers, r: seq<Tile>, h2: Headers) {
    && TakenTiles(ts) <= TakenTiles(r)
    && forall t :: t in TakenTiles(ts) && t.addr in h ==> t.addr in h2 && h2[t.addr] == h[t.addr]
  }

  lemma KeepsTakenOn(ts: seq<Tile>, h: Headers, r: seq<Tile>, h2: Headers, u: seq<Tile>, h3: Headers)
    requires KeepsTaken(ts, h, r, h2) && KeepsTaken(r, h2, u, h3)
    ensures KeepsTaken(ts, h, u, h3)
  {
  }

  /** Following the list from free tile `p` (or from the head, p == -1): the next free tile,
      and whether it lies before tile `k`. */
  lemma NextFreeFrom(ts: seq<Tile>, h: Headers, first: nat, p: int, k: nat, base: nat, limit: nat) returns (q: int)
    requires BlocksOk(ts, h, first, base, limit) && limit < NULL_OFFSET
    requires -1 <= p < k < |ts| && !ts[k].owner.Free? && (p >= 0 ==> ts[p].owner.Free?)
    ensures p >= 0 ==> ts[p].addr in h
    ensures var next := if p == -1 then first else h[ts[p].addr].next;
      && p < q
      && (next < ts[k].addr ==> q < k && ts[q].owner.Free? && ts[q].addr == next)
      && (!(next < ts[k].addr) ==> LastFreeBefore(ts, k, p))
      && ts[k].addr < NULL_OFFSET && next != ts[k].addr
  {
    if p >= 0 {
      LinkAt(ts, h, first, p);
    } else {
      assert ts[0..] == ts;
    }
    q := FreeFrom(ts, p + 1);
    TiledBounds(ts, base, limit, k);
    if q < k {
      TiledOrder(ts, base, limit, q, k);
    } else if q < |ts| {
      TiledOrder(ts, base, limit, k, q);
    }
  }

  lemma EmptyList(ts: seq<Tile>, h: Headers, k: nat, base: nat, limit: nat)
    requires BlocksOk(ts, h, NULL_OFFSET, base, limit) && limit < NULL_OFFSET && k < |ts|
    ensures LastFreeBefore(ts, k, -1) && FirstFree(ts[k + 1..]) == NULL_OFFSET
  {
    var q := FreeFrom(ts, 0);
    assert ts[0..] == ts;
    if q < |ts| {
      TiledBounds(ts, base, limit, q);
    }
    FirstFreeOrNone(ts[k + 1..], NULL_OFFSET);
  }

  /** What follows the insertion place in the list: the next free tile, adjacent or not. */
  lemma NextAfter(ts: seq<Tile>, h: Headers, first: nat, k: nat, p: int)
    requires Linked(ts, h, first) && k < |ts| && !ts[k].owner.Free? && LastFreeBefore(ts, k, p)
    ensures p == -1 ==> first == FirstFree(ts[k + 1..])
    ensures p >= 0 ==> NextIs(ts[p], h, FirstFree(ts[k + 1..]))
  {
    var from := p + 1;
    assert ts[from..] == ts[from..k] + [ts[k]] + ts[k + 1..];
    FirstFreeOrConcat(ts[from..k] + [ts[k]], ts[k + 1..], NULL_OFFSET);
    FirstFreeOrNone(ts[from..k] + [ts[k]], FirstFree(ts[k + 1..]));
    if p >= 0 {
      LinkAt(ts, h, first, p);
    } else {
      assert ts[0..] == ts;
    }
  }

  /** Where a detached block goes, seen from the list: which neighbours are merged, and what
      the merged block must be linked to. */
  lemma InsertPlace(ts: seq<Tile>, h: Headers, first: nat, k: nat, p: int, base: nat, limit: nat)
    requires BlocksOk(ts, h, first, base, limit) && limit < NULL_OFFSET
    requires k < |ts| && !ts[k].owner.Free? && LastFreeBefore(ts, k, p)
    ensures Written(ts[k], h)
    ensures p >= 0 ==> Written(ts[p], h) && NextIs(ts[p], h, FirstFree(ts[k + 1..])) && ts[p].addr < ts[k].addr
    ensures p >= 0 ==> (ts[p].End() == ts[k].addr <==> p == k - 1)
    ensures MergeFrom(ts, k) == if p == k - 1 && p >= 0 then k - 1 else k
    ensures p == -1 ==> first == FirstFree(ts[k + 1..])
    ensures ts[k].addr < NULL_OFFSET
    ensures var n := FirstFree(ts[k + 1..]);
      && (n != NULL_OFFSET ==> n in h && n > ts[k].addr)
      && if n != NULL_OFFSET && ts[k].End() == n
         then MergeTo(ts, k) == k + 2 && Written(ts[k + 1], h) && ts[k + 1].addr == n && NextIs(ts[k + 1], h, FirstFree(ts[k + 2..]))
         else MergeTo(ts, k) == k + 1
  {
    NextAfter(ts, h, first, k, p);
    TiledBounds(ts, base, limit, k);
    if k > 0 {
      assert ts[k - 1].End() == ts[k].addr;
    }
    if p >= 0 {
      TiledOrder(ts, base, limit, p, k);
      if p < k - 1 {
        TiledOrder(ts, base, limit, p, k - 1);
      }
    }
    var q := FreeFrom(ts, k + 1);
    if q < |ts| {
      TiledOrder(ts, base, limit, k, q);
      TiledBounds(ts, base, limit, q);
      assert Written(ts[q], h);
      LinkAt(ts, h, first, q);
      if k + 1 < q {
        TiledOrder(ts, base, limit, k + 1, q);
      }
    }
  }

  /** The memory after `block` was spliced in between `prev` (if any) and `next`. */
  ghost function Spliced(h: Headers, block: nat, prev: nat, next: nat): Headers
    requires block in h
  {
    var joinsPrev := JoinsPrev(h, block, prev);
    var joinsNext := JoinsNext(h, block, next);
    var at := if joinsPrev then prev else block;
    var size := (if joinsPrev then h[prev].size + HEADER else 0) + h[block].size + (if joinsNext then h[next].size + HEADER else 0);
    var h1 := h[at := BlockNode(if joinsNext then h[next].next else next, size, false)];
    if prev != NULL_OFFSET && prev in h && !joinsPrev then h1[prev := h[prev].(next := at)] else h1
  }

  ghost predicate JoinsPrev(h: Headers, block: nat, prev: nat) {
    prev != NULL_OFFSET && prev in h && prev + HEADER + h[prev].size == block
  }

  ghost predicate JoinsNext(h: Headers, block: nat, next: nat) {
    next != NULL_OFFSET && next in h && block in h && block + h[block].size + HEADER == next
  }

  ghost function Joins(h: Headers, block: nat, prev: nat, next: nat): nat {
    (if JoinsPrev(h, block, prev) then 1 else 0) + (if JoinsNext(h, block, next) then 1 else 0)
  }

  lemma SplicedIsReinserted(ts: seq<Tile>, h: Headers, h2: Headers, first: nat, k: nat, p: int, base: nat, limit: nat)
    requires BlocksOk(ts, h, first, base, limit) && limit < NULL_OFFSET
    requires k < |ts| && ts[k].owner.Detached? && LastFreeBefore(ts, k, p) && ts[k].addr in h
    requires h2 == Spliced(h, ts[k].addr, if p == -1 then NULL_OFFSET else ts[p].addr, FirstFree(ts[k + 1..]))
    ensures Reinserted(ts, k, p, h, h2)
    ensures KeepsTaken(ts, h, Release(ts, k), h2)
  {
    SplicedWritten(ts, h, h2, first, k, p, base, limit);
    SplicedKeeps(ts, h, h2, first, k, p, base, limit);
  }

  lemma SplicedWritten(ts: seq<Tile>, h: Headers, h2: Headers, first: nat, k: nat, p: int, base: nat, limit: nat)
    requires BlocksOk(ts, h, first, base, limit) && limit < NULL_OFFSET
    requires k < |ts| && ts[k].owner.Detached? && LastFreeBefore(ts, k, p) && ts[k].addr in h
    requires h2 == Spliced(h, ts[k].addr, if p == -1 then NULL_OFFSET else ts[p].addr, FirstFree(ts[k + 1..]))
    ensures Reinserted(ts, k, p, h, h2)
  {
    InsertPlace(ts, h, first, k, p, base, limit);
    forall i | 0 <= i < |ts| && i != k && ts[i].addr in h
      ensures ts[i].addr != ts[k].addr && (i != p && p >= 0 ==> ts[i].addr != ts[p].addr)
    {
      TilesDisjoint(ts, base, limit, i, k);
      if i != p && p >= 0 {
        TilesDisjoint(ts, base, limit, i, p);
      }
    }
  }

  lemma SplicedKeeps(ts: seq<Tile>, h: Headers, h2: Headers, first: nat, k: nat, p: int, base: nat, limit: nat)
    requires BlocksOk(ts, h, first, base, limit) && limit < NULL_OFFSET
    requires k < |ts| && ts[k].owner.Detached? && LastFreeBefore(ts, k, p) && ts[k].addr in h
    requires h2 == Spliced(h, ts[k].addr, if p == -1 then NULL_OFFSET else ts[p].addr, FirstFree(ts[k + 1..]))
    ensures KeepsTaken(ts, h, Release(ts, k), h2)
  {
    InsertPlace(ts, h, first, k, p, base, limit);
    forall i | 0 <= i < |ts| && i != k && ts[i].addr in h
      ensures ts[i].addr != ts[k].addr && (i != p && p >= 0 ==> ts[i].addr != ts[p].addr)
    {
      TilesDisjoint(ts, base, limit, i, k);
      if i != p && p >= 0 {
        TilesDisjoint(ts, base, limit, i, p);
      }
    }
    ReleaseTaken(ts, k, base, limit);
  }

  // ----- what single header changes do to the list

  /** Outside tile `k` the memory is unchanged, except for the link of tile `q`. */
  ghost predicate Agree(ts: seq<Tile>, k: nat, q: int, h: Headers, h2: Headers) {
    forall i :: 0 <= i < |ts| && i != k && ts[i].addr in h ==>
      ts[i].addr in h2 && h2[ts[i].addr] == if i == q then h[ts[i].addr].(next := h2[ts[i].addr].next) else h[ts[i].addr]
  }

  /** Tile `k` replaced by `mid`. */
  ghost function Splice(ts: seq<Tile>, k: nat, mid: seq<Tile>): seq<Tile>
    requires k < |ts|
  {
    ts[..k] + mid + ts[k + 1..]
  }

  lemma SpliceWritten(ts: seq<Tile>, k: nat, mid: seq<Tile>, q: int, h: Headers, h2: Headers)
    requires forall i :: 0 <= i < |ts| ==> Written(ts[i], h)
    requires k < |ts| && Agree(ts, k, q, h, h2)
    requires forall i :: 0 <= i < |mid| ==> Written(mid[i], h2)
    ensures var r := Splice(ts, k, mid); forall i :: 0 <= i < |r| ==> Written(r[i], h2)
  {
    var r := Splice(ts, k, mid);
    forall i | 0 <= i < |r| ensures Written(r[i], h2) {
      if i < k {
        assert r[i] == ts[i] && Written(ts[i], h);
      } else if i < k + |mid| {
        assert r[i] == mid[i - k];
      } else {
        assert r[i] == ts[i - |mid| + 1] && Written(ts[i - |mid| + 1], h);
      }
    }
  }

  lemma SpliceTaken(ts: seq<Tile>, k: nat, mid: seq<Tile>)
    requires k < |ts| && !ts[k].Taken()
    ensures TakenTiles(ts) <= TakenTiles(Splice(ts, k, mid))
  {
    forall t | t in TakenTiles(ts) ensures t in Splice(ts, k, mid) {
      var i :| 0 <= i < |ts| && ts[i] == t;
      assert t == Splice(ts, k, mid)[if i < k then i else i + |mid| - 1];
    }
  }

  lemma SpliceSides(ts: seq<Tile>, k: nat, q: int, h: Headers, h2: Headers)
    requires k < |ts| && q < k && Agree(ts, k, q, h, h2)
    ensures ts == Splice(ts, k, [ts[k]])
    ensures SameNext(ts[k + 1..], h, h2)
    ensures q == -1 ==> SameNext(ts[..k], h, h2)
    ensures forall i :: 0 <= i < q && ts[..k][i].owner.Free? && ts[..k][i].addr in h ==> NextIs(ts[..k][i], h2, h[ts[..k][i].addr].next)
  {
    var c := ts[k + 1..];
    forall i | 0 <= i < |c| ensures c[i] == ts[i + k + 1] {
    }
  }

  /** Taking free tile `k` out of the list. */
  lemma ErasedOk(ts: seq<Tile>, k: nat, q: int, h: Headers, h2: Headers, first: nat, first2: nat, base: nat, limit: nat)
    requires BlocksOk(ts, h, first, base, limit)
    requires k < |ts| && ts[k].owner.Free? && LastFreeBefore(ts, k, q)
    requires ts[k].addr in h && (q >= 0 ==> ts[q].addr in h)
    requires q == -1 ==> first2 == h[ts[k].addr].next && h2 == h
    requires q >= 0 ==> first2 == first && h2 == h[ts[q].addr := h[ts[q].addr].(next := h[ts[k].addr].next)]
    ensures BlocksOk(Relabel(ts, k, Detached), h2, first2, base, limit)
    ensures KeepsTaken(ts, h, Relabel(ts, k, Detached), h2) && ts[k].addr in h2 && h2[ts[k].addr] == h[ts[k].addr]
  {
    var d := ts[k].(owner := Detached);
    if q >= 0 {
      AddrApart(ts, q, base, limit);
    }
    LinkAt(ts, h, first, k);
    assert Written(ts[k], h);
    RelabelTiled(ts, k, Detached, base, limit);
    assert Relabel(ts, k, Detached) == Splice(ts, k, [d]);
    SpliceWritten(ts, k, [d], q, h, h2);
    SpliceSides(ts, k, q, h, h2);
    SpliceTaken(ts, k, [d]);
    DetachedHead(d, ts[k + 1..], h2);
    Relink(ts[..k], [ts[k]], [d], ts[k + 1..], h, h2, first, first2, q);
  }

  lemma OneFree(m: Tile, rest: seq<Tile>, h: Headers)
    requires m.owner.Free? && NextIs(m, h, FirstFree(rest))
    ensures LinkedTo([m], FirstFree(rest), h) && FirstFree([m] + rest) == m.addr
  {
    assert [m][1..] == [];
    assert ([m] + rest)[0] == m;
  }

  lemma DetachedHead(d: Tile, rest: seq<Tile>, h: Headers)
    requires !d.owner.Free?
    ensures FirstFree([d] + rest) == FirstFree(rest)
    ensures forall after :: LinkedTo([d], after, h)
  {
    assert ([d] + rest)[1..] == rest;
    assert [d][1..] == [];
  }

  lemma AddrApart(ts: seq<Tile>, k: nat, base: nat, limit: nat)
    requires Tiled(ts, base, limit) && k < |ts|
    ensures forall i :: 0 <= i < |ts| && i != k ==> ts[i].addr != ts[k].addr
  {
    forall i | 0 <= i < |ts| && i != k ensures ts[i].addr != ts[k].addr {
      TilesDisjoint(ts, base, limit, i, k);
    }
  }

  /** Replacing a tile outside the list by tiles outside the list. */
  lemma SpliceOk(ts: seq<Tile>, k: nat, mid: seq<Tile>, h: Headers, h2: Headers, first: nat, base: nat, limit: nat)
    requires BlocksOk(ts, h, first, base, limit)
    requires k < |ts| && !ts[k].owner.Free? && NoFree(mid)
    requires Tiled(Splice(ts, k, mid), base, limit)
    requires forall i :: 0 <= i < |mid| ==> Written(mid[i], h2)
    requires Agree(ts, k, -1, h, h2)
    ensures BlocksOk(Splice(ts, k, mid), h2, first, base, limit)
    ensures !ts[k].Taken() ==> KeepsTaken(ts, h, Splice(ts, k, mid), h2)
  {
    if !ts[k].Taken() {
      SpliceTaken(ts, k, mid);
    }
    SpliceWritten(ts, k, mid, -1, h, h2);
    SpliceSides(ts, k, -1, h, h2);
    var C := ts[k + 1..];
    DetachedHead(ts[k], C, h);
    FirstFreeOrConcat(mid, C, NULL_OFFSET);
    FirstFreeOrNone(mid, FirstFree(C));
    NoFreeLinked(mid, FirstFree(C), h2);
    RelinkSame(ts[..k], [ts[k]], mid, C, h, h2, first);
  }

  lemma {:induction false} NoFreeLinked(ts: seq<Tile>, after: nat, h: Headers)
    requires NoFree(ts)
    ensures LinkedTo(ts, after, h)
  {
    if ts != [] {
      NoFreeLinked(ts[1..], after, h);
    }
  }

  /** Cutting a free tile in two free ones, both in the list. */
  lemma CutAtOk(ts: seq<Tile>, k: nat, offset: nat, h: Headers, h2: Headers, first: nat, base: nat, limit: nat)
    requires BlocksOk(ts, h, first, base, limit)
    requires k < |ts| && ts[k].owner.Free? && ts[k].addr in h
    requires ts[k].Payload() + HEADER <= offset <= ts[k].End()
    requires h2 == h[offset - HEADER := BlockNode(h[ts[k].addr].next, ts[k].End() - offset, false)]
                    [ts[k].addr := BlockNode(offset - HEADER, offset - ts[k].addr - 2 * HEADER, false)]
    ensures BlocksOk(CutAt(ts, k, offset), h2, first, base, limit)
    ensures KeepsTaken(ts, h, CutAt(ts, k, offset), h2)
  {
    var t := ts[k];
    var x := Tile(t.addr, offset - t.addr - 2 * HEADER, Free);
    var y := Tile(offset - HEADER, t.End() - offset, Free);
    var C := ts[k + 1..];
    assert CutAt(ts, k, offset) == Splice(ts, k, [x, y]);
    LinkAt(ts, h, first, k);
    CutTiled(ts, k, x, y, base, limit);
    CutApart(ts, k, offset - HEADER, base, limit);
    SpliceTaken(ts, k, [x, y]);
    SpliceWritten(ts, k, [x, y], -1, h, h2);
    SpliceSides(ts, k, -1, h, h2);
    assert ([t] + C)[0] == t && ([x, y] + C)[0] == x;
    assert [x, y][1..] == [y] && [y][1..] == [];
    RelinkSame(ts[..k], [t], [x, y], C, h, h2, first);
  }

  /** An address inside tile `k` is not the address of another tile. */
  lemma CutApart(ts: seq<Tile>, k: nat, at: nat, base: nat, limit: nat)
    requires Tiled(ts, base, limit) && k < |ts| && ts[k].addr <= at < ts[k].End()
    ensures forall i :: 0 <= i < |ts| && i != k ==> ts[i].addr != ts[k].addr && ts[i].addr != at
  {
    forall i | 0 <= i < |ts| && i != k ensures ts[i].addr != ts[k].addr && ts[i].addr != at {
      TilesDisjoint(ts, base, limit, i, k);
    }
  }
}
