/**
  The heap as it really is laid out: an unbroken row of tiles, each one a block header
  followed by its payload.  Everything here is about values; `SharedHeap.dfy` changes the
  memory and uses these functions as its specification.
*/
module Tiles {

  const HEADER: nat := 16                          // sizeof(block_node_t) with 64-bit offsets
  const ALIGN: nat := 8                            // __alignof(block_node_t)
  const NULL_OFFSET: nat := 0x8000_0000_0000_0000

  type Pid = nat

  /** Who a tile belongs to.  `Detached` is the state between leaving the free list and
      being marked allocated (or the other way round). */
  datatype Owner = Free | Detached | Table(pid: Pid) | User(pid: Pid)

  datatype Tile = Tile(addr: nat, size: nat, owner: Owner) {
    function Payload(): nat { addr + HEADER }
    function End(): nat { addr + HEADER + size }
    predicate Taken() { owner.Table? || owner.User? }
    function FreeBytes(): nat { if owner.Free? then size else 0 }
    function UserBlocks(): nat { if owner.User? then 1 else 0 }
  }

  // ----- layout

  /** The tiles start at `base`, follow each other without gap or overlap, and end at `limit`. */
  ghost predicate Tiled(ts: seq<Tile>, base: nat, limit: nat) {
    && |ts| > 0
    && ts[0].addr == base
    && ts[|ts| - 1].End() == limit
    && forall i :: 0 <= i < |ts| - 1 ==> ts[i].End() == ts[i + 1].addr
  }

  ghost predicate NoAdjacentFree(ts: seq<Tile>) {
    forall i :: 0 <= i < |ts| - 1 ==> !(ts[i].owner.Free? && ts[i + 1].owner.Free?)
  }

  ghost predicate Settled(ts: seq<Tile>) {
    forall i :: 0 <= i < |ts| ==> !ts[i].owner.Detached?
  }

  /** Address of the first free tile, or `after` when there is none: what a link must hold. */
  function FirstFreeOr(ts: seq<Tile>, after: nat): nat {
    if ts == [] then after
    else if ts[0].owner.Free? then ts[0].addr
    else FirstFreeOr(ts[1..], after)
  }

  function FirstFree(ts: seq<Tile>): nat { FirstFreeOr(ts, NULL_OFFSET) }

  function FreeSum(ts: seq<Tile>): nat {
    if ts == [] then 0 else ts[0].FreeBytes() + FreeSum(ts[1..])
  }

  function TakenSum(ts: seq<Tile>): nat {
    if ts == [] then 0 else (if ts[0].owner.Free? then 0 else ts[0].size) + TakenSum(ts[1..])
  }

  function UserCount(ts: seq<Tile>): nat {
    if ts == [] then 0 else ts[0].UserBlocks() + UserCount(ts[1..])
  }

  ghost function TakenTiles(ts: seq<Tile>): set<Tile> {
    set t | t in ts && t.Taken()
  }

  ghost function Users(used: set<Tile>): set<Tile> {
    set t | t in used && t.owner.User?
  }

  // ----- facts about layout

  lemma {:induction false} TiledOrder(ts: seq<Tile>, base: nat, limit: nat, i: nat, j: nat)
    requires Tiled(ts, base, limit) && i < j < |ts|
    ensures ts[i].End() <= ts[j].addr
    decreases j - i
  {
    assert ts[i].End() == ts[i + 1].addr;
    if i + 1 < j {
      TiledOrder(ts, base, limit, i + 1, j);
    }
  }

  lemma TiledBounds(ts: seq<Tile>, base: nat, limit: nat, i: nat)
    requires Tiled(ts, base, limit) && i < |ts|
    ensures base <= ts[i].addr && ts[i].End() <= limit
  {
    if 0 < i {
      TiledOrder(ts, base, limit, 0, i);
    }
    if i < |ts| - 1 {
      TiledOrder(ts, base, limit, i, |ts| - 1);
    }
  }

  /** Headers and payloads of distinct tiles never overlap. */
  lemma TilesDisjoint(ts: seq<Tile>, base: nat, limit: nat, i: nat, j: nat)
    requires Tiled(ts, base, limit) && i < |ts| && j < |ts| && i != j
    ensures ts[i].End() <= ts[j].addr || ts[j].End() <= ts[i].addr
    ensures ts[i].addr != ts[j].addr
  {
    if i < j {
      TiledOrder(ts, base, limit, i, j);
    } else {
      TiledOrder(ts, base, limit, j, i);
    }
  }

  lemma {:induction false} FreeSumConcat(s: seq<Tile>, t: seq<Tile>)
    ensures FreeSum(s + t) == FreeSum(s) + FreeSum(t)
  {
    if s == [] {
      assert s + t == t;
    } else {
      assert (s + t)[1..] == s[1..] + t;
      FreeSumConcat(s[1..], t);
    }
  }

  lemma {:induction false} UserCountConcat(s: seq<Tile>, t: seq<Tile>)
    ensures UserCount(s + t) == UserCount(s) + UserCount(t)
  {
    if s == [] {
      assert s + t == t;
    } else {
      assert (s + t)[1..] == s[1..] + t;
      UserCountConcat(s[1..], t);
    }
  }

  lemma SplitInThree(ts: seq<Tile>, a: nat, b: nat)
    requires a <= b <= |ts|
    ensures ts == ts[..a] + ts[a..b] + ts[b..]
  {
  }

  lemma ThreeParts(a: seq<Tile>, b: seq<Tile>, c: seq<Tile>)
    ensures FreeSum(a + b + c) == FreeSum(a) + FreeSum(b) + FreeSum(c)
    ensures UserCount(a + b + c) == UserCount(a) + UserCount(b) + UserCount(c)
  {
    FreeSumConcat(a + b, c);
    FreeSumConcat(a, b);
    UserCountConcat(a + b, c);
    UserCountConcat(a, b);
  }

  lemma SingleFree(t: Tile)
    requires t.owner.Free?
    ensures FreeSum([t]) == t.size && UserCount([t]) == 0 && TakenTiles([t]) == {}
    ensures FirstFree([t]) == t.addr
  {
    assert [t][1..] == [];
  }

  /** Free bytes, taken bytes and one header for every block after the first fill the heap:
      the byte account of the whole region, whatever was split or merged. */
  lemma {:induction false} Conservation(ts: seq<Tile>, base: nat, limit: nat)
    requires Tiled(ts, base, limit)
    ensures FreeSum(ts) + TakenSum(ts) + HEADER * (|ts| - 1) == limit - base - HEADER
  {
    if |ts| > 1 {
      var rest := ts[1..];
      assert Tiled(rest, ts[1].addr, limit) by {
        forall i | 0 <= i < |rest| - 1 ensures rest[i].End() == rest[i + 1].addr {
          assert ts[i + 1].End() == ts[i + 2].addr;
        }
      }
      Conservation(rest, ts[1].addr, limit);
      assert ts[0].End() == ts[1].addr;
    } else {
      assert ts == [ts[0]];
      assert ts[1..] == [];
    }
  }

  /** A coalesced tiling is determined by the blocks in use: the free tiles are exactly
      the gaps between them. */
  lemma {:induction false} Canonical(s: seq<Tile>, t: seq<Tile>, base: nat, limit: nat)
    requires Tiled(s, base, limit) && Tiled(t, base, limit)
    requires NoAdjacentFree(s) && NoAdjacentFree(t) && Settled(s) && Settled(t)
    requires TakenTiles(s) == TakenTiles(t)
    ensures s == t
  {
    SameHead(s, t, base, limit);
    if |s| > 1 {
      assert s[0].End() == s[1].addr;
      TailTiling(s, base, limit);
      TailTiling(t, base, limit);
      Canonical(s[1..], t[1..], s[1].addr, limit);
    }
    assert s == [s[0]] + s[1..] && t == [t[0]] + t[1..];
    if |s| == 1 && |t| > 1 {
      TiledOrder(t, base, limit, 0, |t| - 1);
    }
  }

  lemma TailTiling(ts: seq<Tile>, base: nat, limit: nat)
    requires Tiled(ts, base, limit)
    requires NoAdjacentFree(ts) && Settled(ts)
    ensures |ts| == 1 <==> ts[0].End() == limit
    ensures |ts| > 1 ==> Tiled(ts[1..], ts[0].End(), limit) && NoAdjacentFree(ts[1..]) && Settled(ts[1..])
    ensures |ts| > 1 ==> TakenTiles(ts[1..]) == TakenTiles(ts) - {ts[0]}
  {
    if |ts| > 1 {
      TiledOrder(ts, base, limit, 0, |ts| - 1);
      var rest := ts[1..];
      forall i | 0 <= i < |rest| - 1
        ensures rest[i].End() == rest[i + 1].addr && !(rest[i].owner.Free? && rest[i + 1].owner.Free?)
      {
        assert ts[i + 1].End() == ts[i + 2].addr;
        assert !(ts[i + 1].owner.Free? && ts[i + 2].owner.Free?);
      }
      assert ts[0].End() == ts[1].addr;
      forall t | t in rest ensures t != ts[0] {
        var i :| 0 <= i < |rest| && rest[i] == t;
        TiledOrder(ts, base, limit, 0, i + 1);
      }
      assert forall t :: t in ts <==> t == ts[0] || t in rest;
    }
  }

  lemma SameHead(s: seq<Tile>, t: seq<Tile>, base: nat, limit: nat)
    requires Tiled(s, base, limit) && Tiled(t, base, limit)
    requires NoAdjacentFree(s) && NoAdjacentFree(t) && Settled(s) && Settled(t)
    requires TakenTiles(s) == TakenTiles(t)
    ensures s[0] == t[0]
  {
    HeadEnd(s, t, base, limit);
    HeadEnd(t, s, base, limit);
  }

  // A taken head of s is in t, hence it is t's head; a free head of s ends where t has a taken tile or the end.
  lemma HeadEnd(s: seq<Tile>, t: seq<Tile>, base: nat, limit: nat)
    requires Tiled(s, base, limit) && Tiled(t, base, limit)
    requires NoAdjacentFree(s) && NoAdjacentFree(t) && Settled(s) && Settled(t)
    requires TakenTiles(s) == TakenTiles(t)
    ensures s[0].Taken() ==> s[0] == t[0]
    ensures t[0].owner.Free? && s[0].owner.Free? ==> t[0].End() <= s[0].End()
  {
    if s[0].Taken() {
      assert s[0] in TakenTiles(t);
      var i :| 0 <= i < |t| && t[i] == s[0];
      if 0 < i {
        TiledOrder(t, base, limit, 0, i);
      }
    } else if t[0].owner.Free? {
      if |s| == 1 {
        TiledBounds(t, base, limit, 0);
      } else {
        assert s[0].End() == s[1].addr;
        assert !(s[0].owner.Free? && s[1].owner.Free?);
        assert s[1] in TakenTiles(s);
        var i :| 0 <= i < |t| && t[i] == s[1];
        if 0 < i {
          TiledOrder(t, base, limit, 0, i);
        }
      }
    }
  }

  /** With nothing in use the heap is one free block of the maximal size. */
  lemma EmptyHeapIsOneBlock(ts: seq<Tile>, base: nat, limit: nat)
    requires Tiled(ts, base, limit) && NoAdjacentFree(ts) && Settled(ts)
    requires TakenTiles(ts) == {}
    ensures |ts| == 1 && ts[0].owner.Free? && ts[0].addr == base && ts[0].End() == limit
  {
    assert |ts| > 1 ==> !(ts[0].owner.Free? && ts[1].owner.Free?);
    forall i | 0 <= i < |ts| ensures ts[i].owner.Free? {
      assert ts[i] !in TakenTiles(ts);
    }
  }

  // ----- releasing: mark free and merge with the free neighbours

  function MergeFrom(ts: seq<Tile>, k: nat): (a: nat)
    requires k < |ts|
  {
    if k > 0 && ts[k - 1].owner.Free? then k - 1 else k
  }

  function MergeTo(ts: seq<Tile>, k: nat): (b: nat)
    requires k < |ts|
  {
    if k + 1 < |ts| && ts[k + 1].owner.Free? then k + 2 else k + 1
  }

  function Merged(ts: seq<Tile>, k: nat): Tile
    requires k < |ts|
  {
    var left := if k > 0 && ts[k - 1].owner.Free? then ts[k - 1].size + HEADER else 0;
    var right := if k + 1 < |ts| && ts[k + 1].owner.Free? then ts[k + 1].size + HEADER else 0;
    Tile(ts[MergeFrom(ts, k)].addr, left + ts[k].size + right, Free)
  }

  function Release(ts: seq<Tile>, k: nat): seq<Tile>
    requires k < |ts|
  {
    ts[..MergeFrom(ts, k)] + [Merged(ts, k)] + ts[MergeTo(ts, k)..]
  }

  /** Releasing keeps the tiling exact and coalesced and takes away exactly the tile released. */
  lemma ReleaseSound(ts: seq<Tile>, k: nat, base: nat, limit: nat)
    requires Tiled(ts, base, limit) && k < |ts| && !ts[k].owner.Free?
    ensures Tiled(Release(ts, k), base, limit)
    ensures NoAdjacentFree(ts) ==> NoAdjacentFree(Release(ts, k))
    ensures FreeSum(Release(ts, k)) == FreeSum(ts) + ts[k].size + HEADER * (|ts| - |Release(ts, k)|)
    ensures |Release(ts, k)| == |ts| - (MergeTo(ts, k) - MergeFrom(ts, k)) + 1
    ensures TakenTiles(Release(ts, k)) == TakenTiles(ts) - {ts[k]}
    ensures UserCount(Release(ts, k)) == UserCount(ts) - (if ts[k].owner.User? then 1 else 0)
    ensures (forall i :: 0 <= i < |ts| && i != k ==> !ts[i].owner.Detached?) ==> Settled(Release(ts, k))
  {
    ReleaseTiled(ts, k, base, limit);
    ReleaseSums(ts, k);
    ReleaseTaken(ts, k, base, limit);
    if NoAdjacentFree(ts) {
      ReleaseCoalesced(ts, k);
    }
  }

  lemma ReleaseCoalesced(ts: seq<Tile>, k: nat)
    requires k < |ts| && !ts[k].owner.Free? && NoAdjacentFree(ts)
    ensures NoAdjacentFree(Release(ts, k))
  {
    var a, b := MergeFrom(ts, k), MergeTo(ts, k);
    var r := Release(ts, k);
    forall i | 0 <= i < |r| - 1 ensures !(r[i].owner.Free? && r[i + 1].owner.Free?) {
      if i + 1 < a {
        assert r[i] == ts[i] && r[i + 1] == ts[i + 1];
      } else if i + 1 == a {
        assert r[i] == ts[i];
      } else if i == a {
        assert r[i + 1] == ts[b];
      } else {
        assert r[i] == ts[i - a - 1 + b] && r[i + 1] == ts[i - a + b];
      }
    }
  }

  lemma ReleaseTiled(ts: seq<Tile>, k: nat, base: nat, limit: nat)
    requires Tiled(ts, base, limit) && k < |ts|
    ensures Tiled(Release(ts, k), base, limit)
  {
    var a, b, m := MergeFrom(ts, k), MergeTo(ts, k), Merged(ts, k);
    var r := Release(ts, k);
    if k > 0 {
      assert ts[k - 1].End() == ts[k].addr;
    }
    if k + 1 < |ts| {
      assert ts[k].End() == ts[k + 1].addr;
    }
    assert m.addr == ts[a].addr && m.End() == ts[b - 1].End();
    forall i | 0 <= i < |r| - 1 ensures r[i].End() == r[i + 1].addr {
      if i + 1 < a {
        assert r[i] == ts[i] && r[i + 1] == ts[i + 1];
      } else if i + 1 == a {
        assert r[i] == ts[i] && ts[i].End() == ts[a].addr;
      } else if i == a {
        assert r[i + 1] == ts[b] && ts[b - 1].End() == ts[b].addr;
      } else {
        assert r[i] == ts[i - a - 1 + b] && r[i + 1] == ts[i - a + b];
      }
    }
    assert r[0].addr == base;
    if b < |ts| {
      assert r[|r| - 1] == ts[|ts| - 1];
    } else {
      assert r[|r| - 1] == m;
    }
  }

  lemma MergedSums(ts: seq<Tile>, k: nat)
    requires k < |ts| && !ts[k].owner.Free?
    ensures var mid := ts[MergeFrom(ts, k)..MergeTo(ts, k)];
      && FreeSum(mid) + ts[k].size + HEADER * (|mid| - 1) == Merged(ts, k).size
      && UserCount(mid) == if ts[k].owner.User? then 1 else 0
  {
    var a, b := MergeFrom(ts, k), MergeTo(ts, k);
    assert ts[a..b] == ts[a..k] + [ts[k]] + ts[k + 1..b];
    ThreeParts(ts[a..k], [ts[k]], ts[k + 1..b]);
    assert a < k ==> ts[a..k] == [ts[k - 1]];
    assert k + 1 < b ==> ts[k + 1..b] == [ts[k + 1]];
  }

  lemma ReleaseSums(ts: seq<Tile>, k: nat)
    requires k < |ts| && !ts[k].owner.Free?
    ensures FreeSum(Release(ts, k)) == FreeSum(ts) + ts[k].size + HEADER * (|ts| - |Release(ts, k)|)
    ensures UserCount(Release(ts, k)) == UserCount(ts) - (if ts[k].owner.User? then 1 else 0)
  {
    var a, b, m := MergeFrom(ts, k), MergeTo(ts, k), Merged(ts, k);
    assert ts == ts[..a] + ts[a..b] + ts[b..];
    ThreeParts(ts[..a], ts[a..b], ts[b..]);
    ThreeParts(ts[..a], [m], ts[b..]);
    MergedSums(ts, k);
    assert [m][1..] == [];
  }

  lemma ReleaseTaken(ts: seq<Tile>, k: nat, base: nat, limit: nat)
    requires Tiled(ts, base, limit) && k < |ts| && !ts[k].owner.Free?
    ensures TakenTiles(Release(ts, k)) == TakenTiles(ts) - {ts[k]}
  {
    ReleaseTakesNoMore(ts, k, base, limit);
    forall t | t in TakenTiles(Release(ts, k)) ensures t in TakenTiles(ts) - {ts[k]} {
      ReleaseAddsNothing(ts, k, base, limit, t);
    }
  }

  lemma ReleaseAddsNothing(ts: seq<Tile>, k: nat, base: nat, limit: nat, t: Tile)
    requires Tiled(ts, base, limit) && k < |ts| && !ts[k].owner.Free? && t in TakenTiles(Release(ts, k))
    ensures t in TakenTiles(ts) - {ts[k]}
  {
    var a, b := MergeFrom(ts, k), MergeTo(ts, k);
    var r := Release(ts, k);
    var i :| 0 <= i < |r| && r[i] == t;
    var j := if i < a then i else i - a - 1 + b;
    assert i != a && r[i] == ts[j] && j != k;
    TilesDisjoint(ts, base, limit, j, k);
  }

  lemma ReleaseTakesNoMore(ts: seq<Tile>, k: nat, base: nat, limit: nat)
    requires Tiled(ts, base, limit) && k < |ts| && !ts[k].owner.Free?
    ensures TakenTiles(ts) - {ts[k]} <= TakenTiles(Release(ts, k))
  {
    var a, b := MergeFrom(ts, k), MergeTo(ts, k);
    var r := Release(ts, k);
    forall t | t in TakenTiles(ts) - {ts[k]} ensures t in TakenTiles(r) {
      var j :| 0 <= j < |ts| && ts[j] == t;
      assert t == r[if j < a then j else j - b + a + 1];
    }
  }

  // ----- taking a block: detach it from the list, cut it, put the remainder back

  ghost function Relabel(ts: seq<Tile>, k: nat, o: Owner): seq<Tile>
    requires k < |ts|
  {
    ts[k := ts[k].(owner := o)]
  }

  /** A block is cut only when more than two headers would remain beside it. */
  predicate Cuttable(size: nat, wanted: nat) {
    size > wanted + 2 * HEADER
  }

  /** The block taken from the low end of free tile `k`. */
  ghost function TakeLow(ts: seq<Tile>, k: nat, wanted: nat, o: Owner): seq<Tile>
    requires k < |ts|
  {
    var t := ts[k];
    if Cuttable(t.size, wanted) then
      ts[..k] + [Tile(t.addr, wanted, o), Tile(t.addr + HEADER + wanted, t.size - wanted - HEADER, Free)] + ts[k + 1..]
    else
      Relabel(ts, k, o)
  }

  /** The block taken from the high end of free tile `k`. */
  ghost function TakeHigh(ts: seq<Tile>, k: nat, wanted: nat, o: Owner): seq<Tile>
    requires k < |ts|
  {
    var t := ts[k];
    if Cuttable(t.size, wanted) then
      ts[..k] + [Tile(t.addr, t.size - wanted - HEADER, Free), Tile(t.addr + t.size - wanted, wanted, o)] + ts[k + 1..]
    else
      Relabel(ts, k, o)
  }

  /** A free tile cut in two so that the second one's payload begins at `offset`. */
  ghost function CutAt(ts: seq<Tile>, k: nat, offset: nat): seq<Tile>
    requires k < |ts| && ts[k].Payload() + HEADER <= offset <= ts[k].End()
  {
    var t := ts[k];
    ts[..k] + [Tile(t.addr, offset - t.addr - 2 * HEADER, Free), Tile(offset - HEADER, t.End() - offset, Free)] + ts[k + 1..]
  }

  /** Replacing a tile by two that fill the same place. */
  lemma CutTiled(ts: seq<Tile>, k: nat, x: Tile, y: Tile, base: nat, limit: nat)
    requires Tiled(ts, base, limit) && k < |ts|
    requires x.addr == ts[k].addr && x.End() == y.addr && y.End() == ts[k].End()
    ensures Tiled(ts[..k] + [x, y] + ts[k + 1..], base, limit)
  {
    var r := ts[..k] + [x, y] + ts[k + 1..];
    forall i | 0 <= i < |r| - 1 ensures r[i].End() == r[i + 1].addr {
      if i + 1 < k {
        assert r[i] == ts[i] && r[i + 1] == ts[i + 1];
      } else if i + 1 == k {
        assert r[i] == ts[i] && ts[i].End() == ts[k].addr;
      } else if i == k + 1 {
        assert r[i + 1] == ts[k + 1] && ts[k].End() == ts[k + 1].addr;
      } else if i > k + 1 {
        assert r[i] == ts[i - 1] && r[i + 1] == ts[i];
      }
    }
    if k + 1 < |ts| {
      assert r[|r| - 1] == ts[|ts| - 1];
    }
  }

  lemma SumsAround(a: seq<Tile>, t: Tile, c: seq<Tile>)
    ensures FreeSum(a + [t] + c) == FreeSum(a) + t.FreeBytes() + FreeSum(c)
    ensures UserCount(a + [t] + c) == UserCount(a) + t.UserBlocks() + UserCount(c)
  {
    ThreeParts(a, [t], c);
    assert [t][1..] == [];
  }

  lemma SumsCons(t: Tile, c: seq<Tile>)
    ensures FreeSum([t] + c) == t.FreeBytes() + FreeSum(c)
    ensures UserCount([t] + c) == t.UserBlocks() + UserCount(c)
  {
    assert ([t] + c)[1..] == c;
  }

  lemma CutSums(ts: seq<Tile>, k: nat, x: Tile, y: Tile)
    requires k < |ts|
    ensures FreeSum(ts[..k] + [x, y] + ts[k + 1..]) == FreeSum(ts) - ts[k].FreeBytes() + x.FreeBytes() + y.FreeBytes()
    ensures UserCount(ts[..k] + [x, y] + ts[k + 1..]) == UserCount(ts) - ts[k].UserBlocks() + x.UserBlocks() + y.UserBlocks()
  {
    hide FreeSum, UserCount;
    var a, c := ts[..k], ts[k + 1..];
    assert a + [ts[k]] + c == ts;
    SumsAround(a, ts[k], c);
    assert a + [x, y] + c == a + [x] + ([y] + c);
    SumsAround(a, x, [y] + c);
    SumsCons(y, c);
  }

  lemma FreeSumMember(ts: seq<Tile>, k: nat)
    requires k < |ts| && ts[k].owner.Free?
    ensures ts[k].size <= FreeSum(ts)
  {
    assert ts == ts[..k] + [ts[k]] + ts[k + 1..];
    ThreeParts(ts[..k], [ts[k]], ts[k + 1..]);
  }

  lemma RelabelSums(ts: seq<Tile>, k: nat, o: Owner)
    requires k < |ts|
    ensures var x := ts[k].(owner := o);
      && FreeSum(Relabel(ts, k, o)) == FreeSum(ts) - ts[k].FreeBytes() + x.FreeBytes()
      && UserCount(Relabel(ts, k, o)) == UserCount(ts) - ts[k].UserBlocks() + x.UserBlocks()
  {
    hide FreeSum, UserCount;
    var a, c, x := ts[..k], ts[k + 1..], ts[k].(owner := o);
    assert a + [ts[k]] + c == ts;
    assert Relabel(ts, k, o) == a + [x] + c;
    SumsAround(a, ts[k], c);
    SumsAround(a, x, c);
  }

  /** Changing only who owns a tile changes nothing about the layout. */
  lemma RelabelTiled(ts: seq<Tile>, k: nat, o: Owner, base: nat, limit: nat)
    requires Tiled(ts, base, limit) && k < |ts|
    ensures Tiled(Relabel(ts, k, o), base, limit)
  {
    var r := Relabel(ts, k, o);
    forall i | 0 <= i < |r| - 1 ensures r[i].End() == r[i + 1].addr {
      assert ts[i].End() == ts[i + 1].addr;
    }
  }

  /** Releasing a detached tile between taken neighbours only marks it free. */
  lemma ReleaseAlone(ts: seq<Tile>, k: nat)
    requires k < |ts|
    requires k > 0 ==> !ts[k - 1].owner.Free?
    requires k + 1 < |ts| ==> !ts[k + 1].owner.Free?
    ensures Release(ts, k) == Relabel(ts, k, Free)
  {
  }

  // ----- which block is chosen

  ghost predicate Fits(t: Tile, wanted: nat) {
    t.owner.Free? && t.size >= wanted
  }

  ghost predicate NoFit(ts: seq<Tile>, wanted: nat) {
    forall i :: 0 <= i < |ts| ==> !Fits(ts[i], wanted)
  }

  ghost predicate IsFirstFit(ts: seq<Tile>, wanted: nat, k: nat) {
    k < |ts| && Fits(ts[k], wanted) && forall i :: 0 <= i < k ==> !Fits(ts[i], wanted)
  }

  ghost predicate IsLastFit(ts: seq<Tile>, wanted: nat, k: nat) {
    k < |ts| && Fits(ts[k], wanted) && forall i :: k < i < |ts| ==> !Fits(ts[i], wanted)
  }

  /** A block of `wanted` bytes can be placed at `offset` in free tile `t`: exactly at its start,
      or inside it with room for the extra headers. */
  ghost predicate Placeable(t: Tile, offset: nat, wanted: nat) {
    && t.owner.Free?
    && if t.Payload() == offset then t.size >= wanted
       else t.Payload() + HEADER <= offset && offset + wanted + HEADER <= t.End()
  }

  /** Three blocks in place of `t`: what is left before, one of `wanted` bytes with its payload at
      `offset`, and what is left behind. */
  ghost predicate LaysOut(t: Tile, x: Tile, y: Tile, z: Tile, offset: nat, wanted: nat) {
    && x.addr == t.addr && x.End() == y.addr && y.End() == z.addr && z.End() == t.End()
    && y.Payload() == offset && y.size == wanted
  }

  /** So a place inside a block will do exactly when three blocks with their headers fit there. */
  lemma PlaceableIsLayout(t: Tile, offset: nat, wanted: nat)
    requires t.owner.Free? && t.Payload() != offset
    ensures Placeable(t, offset, wanted) <==> exists x, y, z :: LaysOut(t, x, y, z, offset, wanted)
  {
    if Placeable(t, offset, wanted) {
      var x := Tile(t.addr, offset - HEADER - t.Payload(), Free);
      var y := Tile(offset - HEADER, wanted, Detached);
      var z := Tile(y.End(), t.End() - y.End() - HEADER, Free);
      assert LaysOut(t, x, y, z, offset, wanted);
    }
  }

  ghost predicate NoPlace(ts: seq<Tile>, offset: nat, wanted: nat) {
    forall i :: 0 <= i < |ts| ==> !Placeable(ts[i], offset, wanted)
  }

  /** The tiles `r` offer free tile `k` with its payload at `offset`: either `ts` did already, or
      its tile was cut there. */
  ghost predicate PlacedAt(ts: seq<Tile>, r: seq<Tile>, k: nat, offset: nat, wanted: nat) {
    && k < |r| && r[k].Payload() == offset && Fits(r[k], wanted)
    && (r == ts || (0 < k <= |ts| && ts[k - 1].Payload() + HEADER <= offset <= ts[k - 1].End() && r == CutAt(ts, k - 1, offset)))
  }

  /** Only the last free tile starting below `offset` can hold a block placed there. */
  lemma OnlyPlace(ts: seq<Tile>, k: nat, offset: nat, wanted: nat, base: nat, limit: nat)
    requires Tiled(ts, base, limit) && k < |ts| && ts[k].owner.Free? && ts[k].addr < offset
    requires forall i :: 0 <= i < |ts| && ts[i].owner.Free? && ts[i].addr < offset ==> i <= k
    ensures NoPlace(ts, offset, wanted) <==> !Placeable(ts[k], offset, wanted)
  {
    forall i | 0 <= i < |ts| && i != k ensures !Placeable(ts[i], offset, wanted) {
      if i < k {
        TiledOrder(ts, base, limit, i, k);
      }
    }
  }

  function AlignUp(n: nat): (r: nat)
    ensures n <= r < n + ALIGN && r % ALIGN == 0
  {
    if n % ALIGN > 0 then n + ALIGN - n % ALIGN else n
  }

  ghost function Take(ts: seq<Tile>, k: nat, wanted: nat, fromEnd: bool, o: Owner): seq<Tile>
    requires k < |ts|
  {
    if fromEnd then TakeHigh(ts, k, wanted, o) else TakeLow(ts, k, wanted, o)
  }

  /** Where the taken block ends up in `Take`. */
  ghost function TakenIndex(ts: seq<Tile>, k: nat, wanted: nat, fromEnd: bool): nat
    requires k < |ts|
  {
    if fromEnd && Cuttable(ts[k].size, wanted) then k + 1 else k
  }

  /** Coalesced except possibly between `k - 1` and `k`, the two halves of a cut free block. */
  ghost predicate CoalescedBut(ts: seq<Tile>, k: nat) {
    forall i :: 0 <= i < |ts| - 1 && i + 1 != k ==> !(ts[i].owner.Free? && ts[i + 1].owner.Free?)
  }

  lemma CutCoalesced(ts: seq<Tile>, k: nat, x: Tile, y: Tile)
    requires k < |ts| && ts[k].owner.Free? && CoalescedBut(ts, k)
    requires k > 0 && ts[k - 1].owner.Free? ==> !x.owner.Free?
    ensures var r := ts[..k] + [x, y] + ts[k + 1..];
      CoalescedBut(r, k + 1) && (!(x.owner.Free? && y.owner.Free?) ==> NoAdjacentFree(r))
  {
    var r := ts[..k] + [x, y] + ts[k + 1..];
    forall j | 0 <= j < |r| - 1 && j != k ensures !(r[j].owner.Free? && r[j + 1].owner.Free?) {
      if j < k {
        assert r[j] == ts[j];
        assert j + 1 < k ==> r[j + 1] == ts[j + 1];
      } else if j == k + 1 {
        assert r[j + 1] == ts[k + 1];
      } else {
        assert r[j] == ts[j - 1] && r[j + 1] == ts[j];
      }
    }
    assert r[k] == x && r[k + 1] == y;
  }

  /** Taking adds exactly one block in use, at the low or the high end of a free one.  More than two
      headers to spare are cut off and stay free, less becomes part of the block. */
  lemma TakeSound(ts: seq<Tile>, k: nat, wanted: nat, fromEnd: bool, o: Owner, base: nat, limit: nat)
    requires Tiled(ts, base, limit) && k < |ts| && Fits(ts[k], wanted) && (o.Table? || o.User?)
    requires CoalescedBut(ts, k) && (fromEnd ==> NoAdjacentFree(ts)) && Settled(ts)
    ensures var r, i := Take(ts, k, wanted, fromEnd, o), TakenIndex(ts, k, wanted, fromEnd);
      && Tiled(r, base, limit) && NoAdjacentFree(r) && Settled(r)
      && i < |r| && r[i].owner == o && wanted <= r[i].size <= wanted + 2 * HEADER
      && ts[k].addr <= r[i].addr && r[i].End() <= ts[k].End()
      && (if fromEnd then r[i].End() == ts[k].End() else r[i].addr == ts[k].addr)
      && (if ts[k].size > wanted + 2 * HEADER
          then r[i].size == wanted && |r| == |ts| + 1 && FreeSum(r) == FreeSum(ts) - wanted - HEADER
          else r[i].size == ts[k].size && |r| == |ts| && FreeSum(r) == FreeSum(ts) - ts[k].size)
      && TakenTiles(r) == TakenTiles(ts) + {r[i]} && r[i] !in TakenTiles(ts)
      && UserCount(r) == UserCount(ts) + if o.User? then 1 else 0
  {
    var r, i := Take(ts, k, wanted, fromEnd, o), TakenIndex(ts, k, wanted, fromEnd);
    if Cuttable(ts[k].size, wanted) {
      assert r == ts[..k] + [r[k], r[k + 1]] + ts[k + 1..];
      CutTiled(ts, k, r[k], r[k + 1], base, limit);
      CutSums(ts, k, r[k], r[k + 1]);
      TakeTaken(ts, k, [r[k], r[k + 1]], i - k, base, limit);
      assert fromEnd && k > 0 ==> !ts[k - 1].owner.Free?;
      CutCoalesced(ts, k, r[k], r[k + 1]);
    } else {
      TakeWhole(ts, k, o, base, limit);
    }
  }

  lemma TakeWhole(ts: seq<Tile>, k: nat, o: Owner, base: nat, limit: nat)
    requires Tiled(ts, base, limit) && k < |ts| && ts[k].owner.Free? && (o.Table? || o.User?)
    requires CoalescedBut(ts, k) && Settled(ts)
    ensures var r := Relabel(ts, k, o);
      && Tiled(r, base, limit) && NoAdjacentFree(r) && Settled(r)
      && TakenTiles(r) == TakenTiles(ts) + {r[k]} && r[k] !in TakenTiles(ts)
      && UserCount(r) == UserCount(ts) + (if o.User? then 1 else 0) && FreeSum(r) == FreeSum(ts) - ts[k].size
  {
    hide FreeSum, UserCount, Tiled, TakenTiles;
    var r := Relabel(ts, k, o);
    RelabelTiled(ts, k, o, base, limit);
    RelabelSums(ts, k, o);
    assert r == ts[..k] + [r[k]] + ts[k + 1..];
    TakeTaken(ts, k, [r[k]], 0, base, limit);
    forall j | 0 <= j < |r| - 1 ensures !(r[j].owner.Free? && r[j + 1].owner.Free?) {
      assert j + 1 != k ==> !(ts[j].owner.Free? && ts[j + 1].owner.Free?);
    }
  }

  lemma TakeTaken(ts: seq<Tile>, k: nat, mid: seq<Tile>, i: nat, base: nat, limit: nat)
    requires Tiled(ts, base, limit) && k < |ts| && ts[k].owner.Free? && i < |mid| && mid[i].Taken()
    requires ts[k].addr <= mid[i].addr < ts[k].End()
    requires forall j :: 0 <= j < |mid| && j != i ==> !mid[j].Taken()
    requires Settled(ts) && Settled(mid)
    ensures var r := ts[..k] + mid + ts[k + 1..];
      Settled(r) && TakenTiles(r) == TakenTiles(ts) + {mid[i]} && mid[i] !in TakenTiles(ts)
  {
    hide Settled, Tiled;
    var r := ts[..k] + mid + ts[k + 1..];
    assert r[k + i] == mid[i];
    forall j | 0 <= j < |ts| && j != k ensures ts[j] in r && ts[j] != mid[i] {
      TilesDisjoint(ts, base, limit, j, k);
      assert ts[j] == r[if j < k then j else j + |mid| - 1];
    }
    forall t | t in r && t.Taken() ensures t == mid[i] || t in ts {
      var j :| 0 <= j < |r| && r[j] == t;
      if k <= j < k + |mid| {
        assert t == mid[j - k];
      }
    }
    SettledSplice(ts, k, mid);
  }

  lemma SettledSplice(ts: seq<Tile>, k: nat, mid: seq<Tile>)
    requires k < |ts| && Settled(ts) && Settled(mid)
    ensures Settled(ts[..k] + mid + ts[k + 1..])
  {
    var r := ts[..k] + mid + ts[k + 1..];
    forall j | 0 <= j < |r| ensures !r[j].owner.Detached? {
      if k <= j < k + |mid| {
        assert r[j] == mid[j - k];
      } else {
        assert r[j] == ts[if j < k then j else j - |mid| + 1];
      }
    }
  }

  /** The interior cut offers one more free tile and changes nothing in use. */
  lemma CutAtSound(ts: seq<Tile>, k: nat, offset: nat, base: nat, limit: nat)
    requires Tiled(ts, base, limit) && NoAdjacentFree(ts) && Settled(ts)
    requires k < |ts| && ts[k].owner.Free? && ts[k].Payload() + HEADER <= offset <= ts[k].End()
    ensures var r := CutAt(ts, k, offset);
      && Tiled(r, base, limit) && CoalescedBut(r, k + 1) && Settled(r)
      && TakenTiles(r) == TakenTiles(ts) && UserCount(r) == UserCount(ts)
  {
    var r := CutAt(ts, k, offset);
    CutTiled(ts, k, r[k], r[k + 1], base, limit);
    CutSums(ts, k, r[k], r[k + 1]);
    assert k > 0 ==> !ts[k - 1].owner.Free?;
    CutCoalesced(ts, k, r[k], r[k + 1]);
    CutTaken(ts, k, r[k], r[k + 1]);
  }

  lemma CutTaken(ts: seq<Tile>, k: nat, x: Tile, y: Tile)
    requires k < |ts| && ts[k].owner.Free? && x.owner.Free? && y.owner.Free? && Settled(ts)
    ensures var r := ts[..k] + [x, y] + ts[k + 1..]; Settled(r) && TakenTiles(r) == TakenTiles(ts)
  {
    var r := ts[..k] + [x, y] + ts[k + 1..];
    forall j | 0 <= j < |r| && j != k && j != k + 1 ensures r[j] == ts[if j < k then j else j - 1] {
    }
    forall t | t in TakenTiles(ts) ensures t in r {
      var j :| 0 <= j < |ts| && ts[j] == t;
      assert t == r[if j < k then j else j + 1];
    }
  }

  lemma NothingFits(ts: seq<Tile>, wanted: nat)
    requires wanted > FreeSum(ts)
    ensures NoFit(ts, wanted) && forall offset :: NoPlace(ts, offset, wanted)
  {
    forall i | 0 <= i < |ts| && ts[i].owner.Free? ensures ts[i].size < wanted {
      FreeSumMember(ts, i);
    }
  }

  /** A request that the free blocks can meet. */
  ghost predicate Satisfiable(ts: seq<Tile>, wanted: nat, fromEnd: bool, offset: nat) {
    && wanted > 0
    && if offset != 0 then !NoPlace(ts, offset, AlignUp(wanted))
       else !NoFit(ts, if fromEnd then AlignUp(wanted) + 1 else AlignUp(wanted))
  }

  /** From `ts` to `r` exactly one block in use appeared: the one whose payload is at `p`, of the size
      asked for or at most two headers more. */
  ghost predicate Granted(ts: seq<Tile>, r: seq<Tile>, p: nat, wanted: nat, o: Owner) {
    exists t: Tile ::
      && t in r && t.Payload() == p && t.owner == o && t !in TakenTiles(ts)
      && AlignUp(wanted) <= t.size <= AlignUp(wanted) + 2 * HEADER
      && TakenTiles(r) == TakenTiles(ts) + {t}
      && UserCount(r) == UserCount(ts) + if o.User? then 1 else 0
  }

  /** Exactly one user block was added: process `pid` owns it and its payload is at `p`. */
  ghost predicate NewUser(before: set<Tile>, users: set<Tile>, pid: Pid, p: nat, wanted: nat) {
    exists t: Tile ::
      && t !in before && users == before + {t}
      && t.Payload() == p && t.owner == User(pid) && AlignUp(wanted) <= t.size <= AlignUp(wanted) + 2 * HEADER
  }

  /** A free block's payload is at `offset` already. */
  ghost predicate StartsAt(ts: seq<Tile>, offset: nat) {
    exists i :: 0 <= i < |ts| && ts[i].owner.Free? && ts[i].Payload() == offset
  }

  /** A fixed-offset request cuts a free block exactly when none starts there. */
  lemma PlacedCount(ts: seq<Tile>, r: seq<Tile>, k: nat, offset: nat, wanted: nat, base: nat, limit: nat)
    requires Tiled(ts, base, limit) && PlacedAt(ts, r, k, offset, wanted)
    ensures |r| == |ts| + if StartsAt(ts, offset) then 0 else 1
  {
    if r != ts {
      forall i | 0 <= i < |ts| ensures ts[i].Payload() != offset {
        if i != k - 1 {
          TilesDisjoint(ts, base, limit, i, k - 1);
        }
      }
    }
  }

  /** A fixed-offset request keeps the byte account exactly when a free block already starts there. */
  lemma AccountKeptWhen(ts: seq<Tile>, r: seq<Tile>, k: nat, offset: nat, wanted: nat, base: nat, limit: nat)
    requires Tiled(ts, base, limit) && PlacedAt(ts, r, k, offset, wanted) && (k > 0 && r != ts ==> ts[k - 1].owner.Free?)
    ensures FreeSum(r) == FreeSum(ts) - if StartsAt(ts, offset) then 0 else HEADER
  {
    PlacedCount(ts, r, k, offset, wanted, base, limit);
    if r != ts {
      CutSums(ts, k - 1, r[k - 1], r[k]);
    }
  }

  /** One free block of 1000 bytes at 96, cut so that a payload can be at 200: 16 bytes of the
      account become a header. */
  lemma InteriorCutMiscounts()
    ensures var ts := [Tile(96, 1000, Free)]; FreeSum(CutAt(ts, 0, 200)) == FreeSum(ts) - HEADER
  {
    var ts := [Tile(96, 1000, Free)];
    var r := CutAt(ts, 0, 200);
    assert r == [Tile(96, 72, Free), Tile(184, 912, Free)];
    assert r[1..] == [Tile(184, 912, Free)] && r[1..][1..] == [] && ts[1..] == [];
  }
}
