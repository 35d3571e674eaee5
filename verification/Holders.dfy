/**
  Who holds a buffer's block: CBuffer handles, offsets queued in event fifos, and buffers received
  but not yet taken.  The invariant of the whole exchange, and what each elementary step keeps.
*/
module Holders {
  import opened EventFifo
  import opened Arithmetic

  /** FBeginOfStorage. */
  datatype Ref = Null | At(o: nat)

  /** A block and its header; `shared`: allocated in the shared memory. */
  datatype Block = Block(bytes: seq<u8>, count: nat, shared: bool)

  /** The receiving side of one connection: its fifo, FBuffers, FCurentBufSize against
      RECV_BUFFER_SIZE, and the overload bit its senders look at. */
  datatype Peer = Peer(fifo: seq<Event>, arraySize: nat, buffers: seq<Ref>, curSize: nat, limit: nat, overload: bool)

  /** Offsets are never reused, so that `freed` tells how often each block was freed. */
  datatype World = World(blocks: map<nat, Block>, handles: seq<Ref>, peers: seq<Peer>, next: nat, freed: multiset<nat>)

  // ----- counting holders

  function Uses(rs: seq<Ref>, o: nat): nat {
    if rs == [] then 0 else One(rs[0] == At(o)) + Uses(rs[1..], o)
  }

  function One(b: bool): nat { if b then 1 else 0 }

  function InFlight(q: seq<Event>, o: nat): nat {
    if q == [] then 0 else One(q[0].Data? && q[0].offset == o) + InFlight(q[1..], o)
  }

  function PeerUses(p: Peer, o: nat): nat { InFlight(p.fifo, o) + Uses(p.buffers, o) }

  function PeersUse(ps: seq<Peer>, o: nat): nat {
    if ps == [] then 0 else PeerUses(ps[0], o) + PeersUse(ps[1..], o)
  }

  function Users(w: World, o: nat): nat { Uses(w.handles, o) + PeersUse(w.peers, o) }

  function SizeOf(blocks: map<nat, Block>, rs: seq<Ref>): nat {
    if rs == [] then 0
    else (if rs[0].At? && rs[0].o in blocks then |blocks[rs[0].o].bytes| else 0) + SizeOf(blocks, rs[1..])
  }

  lemma {:induction false} UsesSet(rs: seq<Ref>, i: nat, r: Ref, o: nat)
    requires i < |rs|
    ensures Uses(rs[i := r], o) + One(rs[i] == At(o)) == Uses(rs, o) + One(r == At(o))
  {
    if i == 0 {
      assert rs[0 := r][1..] == rs[1..];
    } else {
      assert rs[i := r][1..] == rs[1..][i - 1 := r];
      UsesSet(rs[1..], i - 1, r, o);
    }
  }

  lemma {:induction false} UsesAppend(rs: seq<Ref>, r: Ref, o: nat)
    ensures Uses(rs + [r], o) == Uses(rs, o) + One(r == At(o))
  {
    if rs == [] {
      assert rs + [r] == [r];
    } else {
      assert (rs + [r])[1..] == rs[1..] + [r];
      UsesAppend(rs[1..], r, o);
    }
  }

  lemma {:induction false} UsesIn(rs: seq<Ref>, o: nat)
    ensures Uses(rs, o) > 0 <==> At(o) in rs
  {
    if rs != [] {
      UsesIn(rs[1..], o);
    }
  }

  lemma {:induction false} InFlightAppend(q: seq<Event>, e: Event, o: nat)
    ensures InFlight(q + [e], o) == InFlight(q, o) + One(e.Data? && e.offset == o)
  {
    if q == [] {
      assert q + [e] == [e];
    } else {
      assert (q + [e])[1..] == q[1..] + [e];
      InFlightAppend(q[1..], e, o);
    }
  }

  lemma {:induction false} InFlightIn(q: seq<Event>, o: nat)
    ensures InFlight(q, o) > 0 <==> exists e :: e in q && e.Data? && e.offset == o
  {
    if q != [] {
      InFlightIn(q[1..], o);
    }
  }

  lemma {:induction false} PeersSet(ps: seq<Peer>, i: nat, p: Peer, o: nat)
    requires i < |ps|
    ensures PeersUse(ps[i := p], o) + PeerUses(ps[i], o) == PeersUse(ps, o) + PeerUses(p, o)
    ensures PeerUses(ps[i], o) <= PeersUse(ps, o)
  {
    if i == 0 {
      assert ps[0 := p][1..] == ps[1..];
    } else {
      assert ps[i := p][1..] == ps[1..][i - 1 := p];
      PeersSet(ps[1..], i - 1, p, o);
    }
  }

  lemma {:induction false} SizeAppend(blocks: map<nat, Block>, rs: seq<Ref>, o: nat)
    requires o in blocks
    ensures SizeOf(blocks, rs + [At(o)]) == SizeOf(blocks, rs) + |blocks[o].bytes|
  {
    if rs == [] {
      assert rs + [At(o)] == [At(o)];
    } else {
      assert (rs + [At(o)])[1..] == rs[1..] + [At(o)];
      SizeAppend(blocks, rs[1..], o);
    }
  }

  // ----- the invariant

  /** Every event and every waiting buffer is a live shared block of the announced size, and the
      overload bit says exactly whether more than the limit is waiting. */
  ghost predicate PeerOk(blocks: map<nat, Block>, p: Peer) {
    && 1 < p.arraySize <= MAX_PLACES && |p.fifo| <= p.arraySize
    && (forall e :: e in p.fifo ==> EventOk(blocks, e))
    && (forall r :: r in p.buffers ==> r.At? && EventOk(blocks, Data(r.o, if r.o in blocks then |blocks[r.o].bytes| else 0)))
    && p.curSize == SizeOf(blocks, p.buffers)
    && (p.overload <==> p.curSize > p.limit)
  }

  predicate EventOk(blocks: map<nat, Block>, e: Event) {
    e.Data? ==> e.offset in blocks && 0 < |blocks[e.offset].bytes| == e.size && blocks[e.offset].shared
  }

  /** A block lives exactly while it is held, its count is the number of holders, and every block
      that no longer lives was freed exactly once. */
  ghost predicate Counted(w: World) {
    && (forall o: nat :: o in w.blocks <==> Users(w, o) > 0)
    && (forall o: nat :: o in w.blocks ==> w.blocks[o].count == Users(w, o) && o < w.next)
    && (forall o: nat :: w.freed[o] == One(o < w.next && o !in w.blocks))
  }

  ghost predicate Inv(w: World) {
    Counted(w) && forall i :: 0 <= i < |w.peers| ==> PeerOk(w.blocks, w.peers[i])
  }

  /** What peers hold is untouched. */
  ghost predicate PeersKept(w: World, blocks: map<nat, Block>) {
    forall o: nat :: PeersUse(w.peers, o) > 0 && o in w.blocks ==>
      o in blocks && blocks[o].bytes == w.blocks[o].bytes && blocks[o].shared == w.blocks[o].shared
  }

  lemma {:induction false} SizeKept(blocks: map<nat, Block>, blocks2: map<nat, Block>, rs: seq<Ref>)
    requires forall r :: r in rs && r.At? && r.o in blocks ==> r.o in blocks2 && blocks2[r.o].bytes == blocks[r.o].bytes
    requires forall r :: r in rs ==> r.At? && r.o in blocks
    ensures SizeOf(blocks2, rs) == SizeOf(blocks, rs)
  {
    if rs != [] {
      SizeKept(blocks, blocks2, rs[1..]);
    }
  }

  lemma PeersStayOk(w: World, blocks: map<nat, Block>)
    requires Inv(w) && PeersKept(w, blocks)
    ensures forall i :: 0 <= i < |w.peers| ==> PeerOk(blocks, w.peers[i])
  {
    forall i | 0 <= i < |w.peers| ensures PeerOk(blocks, w.peers[i]) {
      PeerStaysOk(w, blocks, i);
    }
  }

  lemma PeerStaysOk(w: World, blocks: map<nat, Block>, i: nat)
    requires Inv(w) && PeersKept(w, blocks) && i < |w.peers|
    ensures PeerOk(blocks, w.peers[i])
  {
    var p := w.peers[i];
    assert PeerOk(w.blocks, p);
    forall e | e in p.fifo ensures EventOk(blocks, e) {
      assert EventOk(w.blocks, e);
      if e.Data? {
        InFlightIn(p.fifo, e.offset);
        PeersSet(w.peers, i, p, e.offset);
      }
    }
    forall r | r in p.buffers ensures r.At? && r.o in blocks && blocks[r.o].bytes == w.blocks[r.o].bytes && blocks[r.o].shared {
      UsesIn(p.buffers, r.o);
      PeersSet(w.peers, i, p, r.o);
    }
    SizeKept(w.blocks, blocks, p.buffers);
  }

  // ----- elementary steps

  /** release: one holder less; the last one frees the block. */
  function Unref(w: World, o: nat): World {
    if o !in w.blocks then w
    else if w.blocks[o].count == 1 then w.(blocks := w.blocks - {o}, freed := w.freed + multiset{o})
    else w.(blocks := w.blocks[o := w.blocks[o].(count := if w.blocks[o].count > 0 then w.blocks[o].count - 1 else 0)])
  }

  /** Handle h gives up what it holds. */
  function Drop(w: World, h: nat): World
    requires h < |w.handles|
  {
    if w.handles[h] == Null then w
    else Unref(w, w.handles[h].o).(handles := w.handles[h := Null])
  }

  /** The empty handle h becomes one more holder of block o. */
  function Share(w: World, h: nat, o: nat): World
    requires h < |w.handles| && o in w.blocks
  {
    w.(blocks := w.blocks[o := w.blocks[o].(count := w.blocks[o].count + 1)], handles := w.handles[h := At(o)])
  }

  /** The empty handle h gets a new block. */
  function Create(w: World, h: nat, bytes: seq<u8>, isShared: bool): World
    requires h < |w.handles|
  {
    w.(blocks := w.blocks[w.next := Block(bytes, 1, isShared)], handles := w.handles[h := At(w.next)], next := w.next + 1)
  }

  lemma DropKeeps(w: World, h: nat)
    requires Inv(w) && h < |w.handles|
    ensures Inv(Drop(w, h))
  {
    if w.handles[h].At? {
      DropCounts(w, h);
      PeersStayOk(w, Drop(w, h).blocks);
    }
  }

  lemma DropCounts(w: World, h: nat)
    requires Inv(w) && h < |w.handles| && w.handles[h].At?
    ensures Counted(Drop(w, h)) && PeersKept(w, Drop(w, h).blocks)
  {
    hide Uses, PeersUse;
    var o, v := w.handles[h].o, Drop(w, h);
    HandleLives(w, h);
    forall x: nat ensures Users(v, x) + One(x == o) == Users(w, x) {
      UsesSet(w.handles, h, Null, x);
    }
    if w.blocks[o].count == 1 {
      OnlyHolder(w, h);
    }
  }

  lemma ShareKeeps(w: World, h: nat, o: nat)
    requires Inv(w) && h < |w.handles| && w.handles[h] == Null && o in w.blocks
    ensures Inv(Share(w, h, o))
  {
    var v := Share(w, h, o);
    forall x: nat ensures Users(v, x) == Users(w, x) + One(x == o) {
      UsesSet(w.handles, h, At(o), x);
    }
    PeersStayOk(w, v.blocks);
  }

  lemma CreateKeeps(w: World, h: nat, bytes: seq<u8>, isShared: bool)
    requires Inv(w) && h < |w.handles| && w.handles[h] == Null
    ensures Inv(Create(w, h, bytes, isShared))
  {
    var v := Create(w, h, bytes, isShared);
    forall x: nat ensures Users(v, x) == Users(w, x) + One(x == w.next) {
      UsesSet(w.handles, h, At(w.next), x);
    }
    PeersStayOk(w, v.blocks);
  }

  /** A handle appears or disappears: it holds nothing. */
  lemma NullHandleKeeps(w: World)
    requires Inv(w)
    ensures Inv(w.(handles := w.handles + [Null]))
  {
    var v := w.(handles := w.handles + [Null]);
    forall x: nat ensures Users(v, x) == Users(w, x) {
      UsesAppend(w.handles, Null, x);
    }
  }

  lemma LastHandleKeeps(w: World)
    requires Inv(w) && w.handles != [] && w.handles[|w.handles| - 1] == Null
    ensures Inv(w.(handles := w.handles[..|w.handles| - 1]))
  {
    var rest := w.handles[..|w.handles| - 1];
    var v := w.(handles := rest);
    assert w.handles == rest + [Null];
    forall x: nat ensures Users(v, x) == Users(w, x) {
      UsesAppend(rest, Null, x);
    }
  }

  /** A sole holder's block is nobody else's. */
  lemma OnlyHolder(w: World, h: nat)
    requires Inv(w) && h < |w.handles| && w.handles[h].At? && w.handles[h].o in w.blocks
    requires w.blocks[w.handles[h].o].count == 1
    ensures PeersUse(w.peers, w.handles[h].o) == 0
    ensures forall g :: 0 <= g < |w.handles| && g != h ==> w.handles[g] != w.handles[h]
  {
    var o := w.handles[h].o;
    UsesSet(w.handles, h, Null, o);
    UsesIn(w.handles[h := Null], o);
    forall g | 0 <= g < |w.handles| && g != h ensures w.handles[g] != w.handles[h] {
      var rest := w.handles[h := Null];
      assert rest[g] == w.handles[g] && rest[g] in rest;
    }
  }

  /** A handle of a valid world refers to a live block. */
  lemma HandleLives(w: World, h: nat)
    requires Inv(w) && h < |w.handles| && w.handles[h].At?
    ensures w.handles[h].o in w.blocks && w.blocks[w.handles[h].o].count > 0
  {
    UsesIn(w.handles, w.handles[h].o);
  }

  /** Changing bytes of a block with one holder, a handle. */
  function Poke(w: World, h: nat, bytes: seq<u8>): World
    requires h < |w.handles| && w.handles[h].At? && w.handles[h].o in w.blocks
  {
    w.(blocks := w.blocks[w.handles[h].o := w.blocks[w.handles[h].o].(bytes := bytes)])
  }

  lemma PokeKeeps(w: World, h: nat, bytes: seq<u8>)
    requires Inv(w) && h < |w.handles| && w.handles[h].At? && w.handles[h].o in w.blocks
    requires w.blocks[w.handles[h].o].count == 1
    ensures Inv(Poke(w, h, bytes))
  {
    OnlyHolder(w, h);
    var v := Poke(w, h, bytes);
    forall x: nat ensures Users(v, x) == Users(w, x) {
    }
    PeersStayOk(w, v.blocks);
  }

  // ----- what is under way to a receiver, the oldest first

  /** The buffers that the events of a fifo carry. */
  function DataRefs(q: seq<Event>): seq<Ref> {
    if q == [] then [] else (if q[0].Data? then [At(q[0].offset)] else []) + DataRefs(q[1..])
  }

  /** Those waiting for the user, then those in the fifo. */
  function Pending(p: Peer): seq<Ref> { p.buffers + DataRefs(p.fifo) }

  lemma DataRefsHead(q: seq<Event>)
    requires q != []
    ensures DataRefs(q) == (if q[0].Data? then [At(q[0].offset)] else []) + DataRefs(q[1..])
  {
  }

  lemma {:induction false} DataRefsAppend(q: seq<Event>, e: Event)
    ensures DataRefs(q + [e]) == DataRefs(q) + if e.Data? then [At(e.offset)] else []
  {
    if q == [] {
      assert q + [e] == [e] && [e][1..] == [];
    } else {
      assert (q + [e])[1..] == q[1..] + [e] && (q + [e])[0] == q[0];
      var head := if q[0].Data? then [At(q[0].offset)] else [];
      DataRefsHead(q);
      DataRefsHead(q + [e]);
      hide DataRefs;
      DataRefsAppend(q[1..], e);
    }
  }

  /** Everything under way is a live shared block that some peer counts. */
  lemma {:induction false} DataRefsIn(q: seq<Event>, r: Ref)
    ensures r in DataRefs(q) <==> r.At? && InFlight(q, r.o) > 0
  {
    if q != [] {
      DataRefsIn(q[1..], r);
    }
  }

  lemma PendingLives(w: World, i: nat, r: Ref)
    requires Inv(w) && i < |w.peers| && r in Pending(w.peers[i])
    ensures r.At? && r.o in w.blocks && PeersUse(w.peers, r.o) > 0
  {
    var p := w.peers[i];
    assert PeerOk(w.blocks, p);
    DataRefsIn(p.fifo, r);
    if r in p.buffers {
      UsesIn(p.buffers, r.o);
    } else {
      InFlightIn(p.fifo, r.o);
    }
    PeersSet(w.peers, i, p, r.o);
  }

  // ----- passing a reference on: the same number of holders

  function Queue(w: World, h: nat, i: nat, e: Event): World
    requires h < |w.handles| && i < |w.peers|
  {
    w.(handles := w.handles[h := Null], peers := w.peers[i := w.peers[i].(fifo := w.peers[i].fifo + [e])])
  }

  lemma QueueKeeps(w: World, h: nat, i: nat, e: Event)
    requires Inv(w) && h < |w.handles| && i < |w.peers| && EventOk(w.blocks, e)
    requires if e.Data? then w.handles[h] == At(e.offset) else w.handles[h] == Null
    requires |w.peers[i].fifo| < w.peers[i].arraySize
    ensures Inv(Queue(w, h, i, e))
    ensures Pending(Queue(w, h, i, e).peers[i]) == Pending(w.peers[i]) + if e.Data? then [At(e.offset)] else []
  {
    var v := Queue(w, h, i, e);
    DataRefsAppend(w.peers[i].fifo, e);
    forall x: nat ensures Users(v, x) == Users(w, x) {
      UsesSet(w.handles, h, Null, x);
      PeersSet(w.peers, i, v.peers[i], x);
      InFlightAppend(w.peers[i].fifo, e, x);
    }
    assert PeerOk(w.blocks, w.peers[i]);
  }

  /** The oldest event of peer i leaves its fifo; its buffer joins those received. */
  function Receive(w: World, i: nat): World
    requires i < |w.peers| && w.peers[i].fifo != []
  {
    var p := w.peers[i];
    var e := p.fifo[0];
    if e.Data? then
      var size := p.curSize + e.size;
      w.(peers := w.peers[i := p.(fifo := p.fifo[1..], buffers := p.buffers + [At(e.offset)], curSize := size, overload := p.overload || size > p.limit)])
    else w.(peers := w.peers[i := p.(fifo := p.fifo[1..])])
  }

  lemma ReceivePending(w: World, i: nat)
    requires i < |w.peers| && w.peers[i].fifo != []
    ensures Pending(Receive(w, i).peers[i]) == Pending(w.peers[i])
  {
    hide DataRefs;
    DataRefsHead(w.peers[i].fifo);
  }

  /** It stays where it was in the order of what is under way. */
  lemma ReceiveKeeps(w: World, i: nat)
    requires Inv(w) && i < |w.peers| && w.peers[i].fifo != []
    ensures Inv(Receive(w, i))
    ensures Pending(Receive(w, i).peers[i]) == Pending(w.peers[i])
  {
    hide DataRefs, Pending;
    ReceivePending(w, i);
    ReceiveCounts(w, i);
    hide Users;
    var v, p := Receive(w, i), w.peers[i];
    var e := p.fifo[0];
    assert PeerOk(w.blocks, p) && EventOk(w.blocks, e);
    if e.Data? {
      SizeAppend(w.blocks, p.buffers, e.offset);
    }
    assert PeerOk(v.blocks, v.peers[i]);
  }

  lemma ReceiveCounts(w: World, i: nat)
    requires i < |w.peers| && w.peers[i].fifo != []
    ensures forall x: nat :: Users(Receive(w, i), x) == Users(w, x)
  {
    var v, p := Receive(w, i), w.peers[i];
    var e := p.fifo[0];
    forall x: nat ensures Users(v, x) == Users(w, x) {
      PeersSet(w.peers, i, v.peers[i], x);
      if e.Data? {
        UsesAppend(p.buffers, At(e.offset), x);
      }
    }
  }

  /** The oldest data event of peer i is taken over by the empty handle h. */
  function Reclaim(w: World, i: nat, h: nat): World
    requires i < |w.peers| && w.peers[i].fifo != [] && h < |w.handles|
  {
    var p := w.peers[i];
    var v := w.(peers := w.peers[i := p.(fifo := p.fifo[1..])]);
    if p.fifo[0].Data? then v.(handles := w.handles[h := At(p.fifo[0].offset)]) else v
  }

  lemma ReclaimKeeps(w: World, i: nat, h: nat)
    requires Inv(w) && i < |w.peers| && w.peers[i].fifo != [] && h < |w.handles| && w.handles[h] == Null
    ensures Inv(Reclaim(w, i, h))
  {
    var v, p := Reclaim(w, i, h), w.peers[i];
    var e := p.fifo[0];
    assert PeerOk(w.blocks, p) && EventOk(w.blocks, e);
    forall x: nat ensures Users(v, x) == Users(w, x) {
      PeersSet(w.peers, i, v.peers[i], x);
      if e.Data? {
        UsesSet(w.handles, h, At(e.offset), x);
      }
    }
    assert PeerOk(v.blocks, v.peers[i]);
  }

  /** The first waiting buffer of peer i is given to the empty handle h. */
  function Take(w: World, i: nat, h: nat): World
    requires i < |w.peers| && w.peers[i].buffers != [] && h < |w.handles|
  {
    var p := w.peers[i];
    var r := p.buffers[0];
    var size := if r.At? && r.o in w.blocks then |w.blocks[r.o].bytes| else 0;
    var left := if size <= p.curSize then p.curSize - size else 0;
    var q := p.(buffers := p.buffers[1..], curSize := left, overload := p.overload && !(left <= p.limit < p.curSize));
    w.(peers := w.peers[i := q], handles := w.handles[h := r])
  }

  lemma TakePending(w: World, i: nat, h: nat)
    requires i < |w.peers| && w.peers[i].buffers != [] && h < |w.handles|
    ensures Pending(w.peers[i]) == [Take(w, i, h).handles[h]] + Pending(Take(w, i, h).peers[i])
  {
    hide DataRefs;
    assert w.peers[i].buffers == [w.peers[i].buffers[0]] + w.peers[i].buffers[1..];
  }

  lemma TakeKeeps(w: World, i: nat, h: nat)
    requires Inv(w) && i < |w.peers| && w.peers[i].buffers != [] && h < |w.handles| && w.handles[h] == Null
    ensures Inv(Take(w, i, h))
    ensures Pending(w.peers[i]) == [Take(w, i, h).handles[h]] + Pending(Take(w, i, h).peers[i])
  {
    hide DataRefs, Pending;
    TakePending(w, i, h);
    var v, p := Take(w, i, h), w.peers[i];
    var r := p.buffers[0];
    assert PeerOk(w.blocks, p);
    assert r in p.buffers;
    forall x: nat ensures Users(v, x) == Users(w, x) {
      PeersSet(w.peers, i, v.peers[i], x);
      UsesSet(w.handles, h, r, x);
    }
    assert PeerOk(v.blocks, v.peers[i]);
  }

  // ----- the end of a run

  /** No handle holds anything, and nothing is queued or waiting. */
  ghost predicate NothingHeld(w: World) {
    && (forall h :: 0 <= h < |w.handles| ==> w.handles[h] == Null)
    && (forall i :: 0 <= i < |w.peers| ==> w.peers[i].fifo == [] && w.peers[i].buffers == [])
  }

  /** When nothing is held or queued any more, no block is left and each was freed exactly once. */
  lemma NoLeak(w: World)
    requires Inv(w) && NothingHeld(w)
    ensures w.blocks == map[] && forall o: nat :: w.freed[o] == One(o < w.next)
  {
    forall o: nat ensures o !in w.blocks {
      UsesIn(w.handles, o);
      NothingQueued(w.peers, o);
    }
  }

  lemma {:induction false} NothingQueued(ps: seq<Peer>, o: nat)
    requires forall i :: 0 <= i < |ps| ==> ps[i].fifo == [] && ps[i].buffers == []
    ensures PeersUse(ps, o) == 0
  {
    if ps != [] {
      NothingQueued(ps[1..], o);
    }
  }
}
