/**
  CBuffer handles over shared blocks and the hand-over of buffers between processes: copies, moves,
  copy-on-write, non-blocking sends, receives and the clean-up of a dead peer's queue, as steps of
  one exchange.
*/
module HandOff {
  import opened EventFifo
  import opened Holders
  import opened Arithmetic

  datatype SendState = E_SENDED | E_AGAIN | E_ERROR

  /** What a send learns about a peer that does not keep up: it read an event a short time ago, it
      answers a keep-alive request, it has read something meanwhile. */
  datatype Probe = Probe(recent: bool, answers: bool, progressed: bool)

  /** What handle h shows its owner. */
  function View(w: World, h: nat): seq<u8>
    requires h < |w.handles|
  {
    if w.handles[h].At? && w.handles[h].o in w.blocks then w.blocks[w.handles[h].o].bytes else []
  }

  /** No byte changes in a block that stays. */
  ghost predicate BytesKept(w: World, v: World) {
    forall o: nat :: o in w.blocks && o in v.blocks ==> w.blocks[o].bytes == v.blocks[o].bytes
  }

  /** No byte changes in a block that is queued at a peer or waits there. */
  ghost predicate QueuedKept(w: World, v: World) {
    forall o: nat :: PeersUse(w.peers, o) > 0 && o in w.blocks && o in v.blocks ==> w.blocks[o].bytes == v.blocks[o].bytes
  }

  /** Handles other than h refer to what they referred to. */
  ghost predicate OthersKept(w: World, v: World, h: nat) {
    |w.handles| == |v.handles| && forall g :: 0 <= g < |w.handles| && g != h ==> v.handles[g] == w.handles[g]
  }

  lemma ViewsKept(w: World, v: World, h: nat)
    requires Inv(w) && Inv(v) && BytesKept(w, v) && OthersKept(w, v, h)
    ensures forall g :: 0 <= g < |w.handles| && g != h ==> View(v, g) == View(w, g)
  {
    forall g | 0 <= g < |w.handles| && g != h ensures View(v, g) == View(w, g) {
      if w.handles[g].At? {
        HandleLives(w, g);
        HandleLives(v, g);
      }
    }
  }

  /** operator=: handle h comes to hold what handle r holds. */
  function Assigned(w: World, h: nat, r: nat): World
    requires h < |w.handles| && r < |w.handles|
  {
    if w.handles[r] == w.handles[h] then w
    else if w.handles[r] == Null || w.handles[r].o !in Drop(w, h).blocks then Drop(w, h)
    else Share(Drop(w, h), h, w.handles[r].o)
  }

  /** MDetach: a holder among several gets a block of its own. */
  function Detached(w: World, h: nat): World
    requires h < |w.handles|
  {
    var r := w.handles[h];
    if r == Null || r.o !in w.blocks || w.blocks[r.o].count == 1 then w
    else Create(Drop(w, h), h, w.blocks[r.o].bytes, w.blocks[r.o].shared)
  }

  /** The buffer of handle h in the shared memory, copied there if it was elsewhere. */
  function MadeShared(w: World, h: nat): World
    requires h < |w.handles|
  {
    var r := w.handles[h];
    if r == Null || r.o !in w.blocks || w.blocks[r.o].shared then w
    else Create(Drop(w, h), h, w.blocks[r.o].bytes, true)
  }

  lemma AssignedKeeps(w: World, h: nat, r: nat)
    requires Inv(w) && h < |w.handles| && r < |w.handles|
    ensures Inv(Assigned(w, h, r)) && Assigned(w, h, r).handles == w.handles[h := w.handles[r]]
    ensures BytesKept(w, Assigned(w, h, r)) && Assigned(w, h, r).peers == w.peers
  {
    hide Inv;
    DropKeeps(w, h);
    if w.handles[r] != w.handles[h] && w.handles[r].At? {
      assert Drop(w, h).handles[r] == w.handles[r];
      HandleLives(Drop(w, h), r);
      ShareKeeps(Drop(w, h), h, w.handles[r].o);
    }
  }

  lemma DropHandles(w: World, h: nat)
    requires h < |w.handles|
    ensures Drop(w, h).handles == w.handles[h := Null] && Drop(w, h).peers == w.peers && Drop(w, h).next == w.next
    ensures w.handles[h] == Null ==> Drop(w, h) == w
  {
  }

  lemma MovedKeeps(w: World, h: nat, to: nat)
    requires Inv(w) && h < |w.handles| && to < |w.handles| && w.handles[to] == Null && h != to
    ensures Inv(w.(handles := w.handles[to := w.handles[h]][h := Null]))
  {
    var v := w.(handles := w.handles[to := w.handles[h]][h := Null]);
    forall x: nat ensures Users(v, x) == Users(w, x) {
      UsesSet(w.handles, to, w.handles[h], x);
      UsesSet(w.handles[to := w.handles[h]], h, Null, x);
    }
  }

  lemma HandleIsOld(w: World, h: nat)
    requires Inv(w) && h < |w.handles| && w.handles[h].At?
    ensures w.handles[h].o < w.next
  {
    HandleLives(w, h);
  }

  lemma NextIsNew(w: World)
    requires Inv(w)
    ensures forall o :: o in w.blocks ==> o < w.next
  {
  }

  /** A private copy replaces what h held: by copy-on-write or to move into the shared memory. */
  lemma RenewedKeeps(w: World, h: nat, isShared: bool)
    requires Inv(w) && h < |w.handles| && w.handles[h].At? && w.handles[h].o in w.blocks
    ensures var v := Create(Drop(w, h), h, w.blocks[w.handles[h].o].bytes, isShared);
      Inv(v) && View(v, h) == View(w, h) && OthersKept(w, v, h) && BytesKept(w, v) && v.blocks[v.handles[h].o].count == 1
  {
    hide Inv;
    NextIsNew(w);
    DropKeeps(w, h);
    CreateKeeps(Drop(w, h), h, w.blocks[w.handles[h].o].bytes, isShared);
  }

  function Empty(): World { World(map[], [], [], 0, multiset{}) }

  lemma EmptyWorld()
    ensures Inv(Empty())
  {
    var w := Empty();
    forall o: nat ensures Users(w, o) == 0 {
      assert w.handles == [] && w.peers == [];
    }
    assert Counted(w);
  }

  /** What a temporary handle t does for h: allocate, be assigned to h, be destroyed. */
  lemma TemporaryReplaces(w: World, h: nat, bytes: seq<u8>, isShared: bool)
    requires h < |w.handles| && w.handles[h].At? && w.handles[h].o in w.blocks && w.handles[h].o < w.next
    ensures
      var t := |w.handles|;
      var v := Drop(Assigned(Create(w.(handles := w.handles + [Null]), t, bytes, isShared), h, t), t);
      v.(handles := v.handles[..t]) == Create(Drop(w, h), h, bytes, isShared)
  {
    var t, o := |w.handles|, w.handles[h].o;
    var w2 := Create(w.(handles := w.handles + [Null]), t, bytes, isShared);
    var dropped := Drop(w, h);
    assert Drop(w2, h).blocks == dropped.blocks[w.next := Block(bytes, 1, isShared)];
    var w3 := Assigned(w2, h, t);
    assert w3.blocks == dropped.blocks[w.next := Block(bytes, 2, isShared)];
    assert w3.handles == w2.handles[h := At(w.next)];
    var v := Drop(w3, t);
    assert v.blocks == dropped.blocks[w.next := Block(bytes, 1, isShared)];
    assert v.handles[..t] == w.handles[h := At(w.next)];
  }

  lemma DetachedKeeps(w: World, h: nat)
    requires Inv(w) && h < |w.handles|
    ensures var v := Detached(w, h); Inv(v) && View(v, h) == View(w, h) && OthersKept(w, v, h) && BytesKept(w, v) && v.peers == w.peers
    ensures var v := Detached(w, h); v.handles[h].At? <==> w.handles[h].At?
    ensures var v := Detached(w, h); v.handles[h].At? ==> v.handles[h].o in v.blocks && v.blocks[v.handles[h].o].count == 1
    ensures PeersKept(w, Detached(w, h).blocks)
  {
    hide Inv;
    if w.handles[h].At? {
      HandleLives(w, h);
      if w.blocks[w.handles[h].o].count != 1 {
        RenewedKeeps(w, h, w.blocks[w.handles[h].o].shared);
        HandleIsOld(w, h);
        PeersAreOld(w);
      }
    }
  }

  lemma PeersAreOld(w: World)
    requires Inv(w)
    ensures forall o: nat :: PeersUse(w.peers, o) > 0 ==> o in w.blocks && o < w.next
  {
    forall o: nat | PeersUse(w.peers, o) > 0 ensures o in w.blocks && o < w.next {
      assert Users(w, o) > 0;
    }
  }

  /** Writing to the private block of h, after the detachment took w to v. */
  lemma WriteKeeps(w: World, v: World, h: nat, bytes: seq<u8>)
    requires Inv(w) && Inv(v) && OthersKept(w, v, h) && BytesKept(w, v) && PeersKept(w, v.blocks) && v.peers == w.peers
    requires h < |v.handles| && v.handles[h].At? && v.handles[h].o in v.blocks && v.blocks[v.handles[h].o].count == 1
    ensures Inv(Poke(v, h, bytes)) && PeersKept(w, Poke(v, h, bytes).blocks)
    ensures forall g :: 0 <= g < |v.handles| && g != h ==> View(Poke(v, h, bytes), g) == View(w, g)
  {
    hide Inv;
    PokeKeeps(v, h, bytes);
    OnlyHolder(v, h);
    ViewsKept(w, v, h);
    PeersAreOld(w);
  }

  lemma MadeSharedKeeps(w: World, h: nat)
    requires Inv(w) && h < |w.handles| && w.handles[h].At?
    ensures w.handles[h].o in w.blocks
    ensures var v := MadeShared(w, h); Inv(v) && View(v, h) == View(w, h) && OthersKept(w, v, h) && BytesKept(w, v)
  {
    HandleLives(w, h);
    if !w.blocks[w.handles[h].o].shared {
      RenewedKeeps(w, h, true);
    }
  }

  lemma WaitingIsOk(w: World, i: nat)
    requires Inv(w) && i < |w.peers| && w.peers[i].buffers != []
    ensures var p := w.peers[i]; var r := p.buffers[0];
      r.At? && r.o in w.blocks && 0 < |w.blocks[r.o].bytes| <= p.curSize && (p.overload <==> p.curSize > p.limit)
  {
    assert PeerOk(w.blocks, w.peers[i]);
    assert w.peers[i].buffers[0] in w.peers[i].buffers;
  }

  // ----- sending

  /** event_info_t::E_KEEPALIVE_REQUEST. */
  const KEEPALIVE_REQUEST := 7

  /** A keep-alive request can be put and is answered. */
  predicate Answers(p: Peer, probe: Probe) { |p.fifo| < p.arraySize && probe.answers }

  /** The peer's fifo with a keep-alive request, if there is a place. */
  function Probed(w: World, i: nat): World
    requires i < |w.peers|
  {
    var p := w.peers[i];
    if |p.fifo| < p.arraySize then w.(peers := w.peers[i := p.(fifo := p.fifo + [Other(KEEPALIVE_REQUEST)])]) else w
  }

  /** What a non-blocking send of `size` bytes answers. */
  function Verdict(p: Peer, size: nat, probe: Probe): SendState {
    if p.overload then (if probe.recent || Answers(p, probe) || probe.progressed then E_AGAIN else E_ERROR)
    else if Accepts(p.fifo, Data(0, size), p.arraySize) then E_SENDED
    else if probe.recent || Answers(p, probe) then E_AGAIN
    else E_ERROR
  }

  /** What it does: nothing but perhaps a probe while the peer is overloaded; otherwise the bytes go
      to the end of the fifo, or the reference is given up. */
  function SendOf(w: World, h: nat, i: nat, probe: Probe): World
    requires h < |w.handles| && i < |w.peers|
  {
    var p, s := w.peers[i], MadeShared(w, h);
    if p.overload then (if probe.recent then w else Probed(w, i))
    else if s.handles[h].At? && s.handles[h].o in s.blocks then
      var e := Data(s.handles[h].o, |s.blocks[s.handles[h].o].bytes|);
      if Accepts(p.fifo, e, p.arraySize) then Queue(s, h, i, e)
      else Drop(if probe.recent then s else Probed(s, i), h)
    else w
  }

  lemma ProbedKeeps(w: World, i: nat)
    requires Inv(w) && i < |w.peers|
    ensures Inv(Probed(w, i))
  {
    var v, p := Probed(w, i), w.peers[i];
    assert PeerOk(w.blocks, p);
    if |p.fifo| < p.arraySize {
      forall x: nat ensures Users(v, x) == Users(w, x) {
        PeersSet(w.peers, i, v.peers[i], x);
        InFlightAppend(p.fifo, Other(KEEPALIVE_REQUEST), x);
      }
      forall e | e in v.peers[i].fifo ensures EventOk(v.blocks, e) {
        assert e in p.fifo || e == Other(KEEPALIVE_REQUEST);
      }
    }
  }

  /** The bytes of h now travel to peer i, as the last event of its fifo. */
  ghost predicate Sent(w: World, v: World, h: nat, i: nat)
    requires h < |w.handles| && i < |w.peers|
  {
    && v.handles == w.handles[h := Null]
    && i < |v.peers| && v.peers[i].fifo != [] && v.peers == w.peers[i := w.peers[i].(fifo := v.peers[i].fifo)]
    && var e := v.peers[i].fifo[|v.peers[i].fifo| - 1];
      v.peers[i].fifo == w.peers[i].fifo + [e] && e.Data? && e.offset in v.blocks && v.blocks[e.offset].bytes == View(w, h)
  }

  /** The handle is empty and its reference given up, and nobody else lost anything. */
  ghost predicate GivenUp(w: World, v: World, h: nat) {
    h < |w.handles| && v.handles == w.handles[h := Null] && BytesKept(w, v)
  }

  lemma SendKeeps(w: World, h: nat, i: nat, probe: Probe)
    requires Inv(w) && h < |w.handles| && i < |w.peers| && View(w, h) != []
    ensures var v := SendOf(w, h, i, probe); Inv(v) && BytesKept(w, v)
    ensures match Verdict(w.peers[i], |View(w, h)|, probe)
      case E_SENDED => !w.peers[i].overload && Sent(w, SendOf(w, h, i, probe), h, i)
      case _ => if w.peers[i].overload then SendOf(w, h, i, probe).handles == w.handles else GivenUp(w, SendOf(w, h, i, probe), h)
    ensures Verdict(w.peers[i], |View(w, h)|, probe) != E_SENDED ==>
      SendOf(w, h, i, probe).peers == if probe.recent || |w.peers[i].fifo| >= w.peers[i].arraySize then w.peers
        else w.peers[i := w.peers[i].(fifo := w.peers[i].fifo + [Other(KEEPALIVE_REQUEST)])]
    ensures Verdict(w.peers[i], |View(w, h)|, probe) == E_SENDED <==>
      !w.peers[i].overload && Accepts(w.peers[i].fifo, Data(0, |View(w, h)|), w.peers[i].arraySize)
    ensures Verdict(w.peers[i], |View(w, h)|, probe) == E_ERROR <==>
      && (w.peers[i].overload || !Accepts(w.peers[i].fifo, Data(0, |View(w, h)|), w.peers[i].arraySize))
      && !probe.recent && !(|w.peers[i].fifo| < w.peers[i].arraySize && probe.answers) && !(w.peers[i].overload && probe.progressed)
  {
    hide Inv;
    if w.peers[i].overload {
      ProbedKeeps(w, i);
    } else {
      MadeSharedKeeps(w, h);
      MadeSharedIs(w, h);
      var s := MadeShared(w, h);
      var e := Data(s.handles[h].o, |s.blocks[s.handles[h].o].bytes|);
      if Accepts(w.peers[i].fifo, e, w.peers[i].arraySize) {
        QueueKeeps(s, h, i, e);
      } else {
        ProbedKeeps(s, i);
        var q := if probe.recent then s else Probed(s, i);
        DropKeeps(q, h);
        DropHandles(q, h);
        DropBytes(q, h);
      }
    }
  }

  lemma MadeSharedIs(w: World, h: nat)
    requires Inv(w) && h < |w.handles| && w.handles[h].At?
    ensures var s := MadeShared(w, h);
      s.peers == w.peers && |s.handles| == |w.handles| && s.handles[h].At? && s.handles[h].o in s.blocks && s.blocks[s.handles[h].o].shared
    ensures MadeShared(w, h).handles[h := Null] == w.handles[h := Null]
  {
    HandleLives(w, h);
  }

  lemma DropBytes(w: World, h: nat)
    requires h < |w.handles|
    ensures BytesKept(w, Drop(w, h)) && forall o :: o in Drop(w, h).blocks ==> o in w.blocks
  {
  }

  // ----- cleaning up

  /** The oldest event leaves the fifo, its buffer adopted by a new handle. */
  function Adopted(w: World, i: nat): World
    requires i < |w.peers| && w.peers[i].fifo != []
  {
    var p := w.peers[i];
    if p.fifo[0].Data? then Reclaim(w.(handles := w.handles + [Null]), i, |w.handles|)
    else w.(peers := w.peers[i := p.(fifo := p.fifo[1..])])
  }

  function CleanedUp(w: World, i: nat): World
    requires i < |w.peers|
    decreases |w.peers[i].fifo|
  {
    if w.peers[i].fifo == [] then w else CleanedUp(Adopted(w, i), i)
  }

  lemma AdoptedKeeps(w: World, i: nat)
    requires Inv(w) && i < |w.peers| && w.peers[i].fifo != []
    ensures Inv(Adopted(w, i))
  {
    hide Inv;
    var wider := w.(handles := w.handles + [Null]);
    NullHandleKeeps(w);
    ReclaimKeeps(wider, i, |w.handles|);
    if !w.peers[i].fifo[0].Data? {
      var v := Reclaim(wider, i, |w.handles|);
      LastHandleKeeps(v);
      assert v.(handles := v.handles[..|w.handles|]) == Adopted(w, i);
    }
  }

  /** The queue is empty, every buffer in it is held by a new handle, in order; no block is lost. */
  lemma {:induction false} CleanedUpKeeps(w: World, i: nat)
    requires Inv(w) && i < |w.peers|
    ensures var v := CleanedUp(w, i);
      Inv(v) && v.blocks == w.blocks && v.handles == w.handles + DataRefs(w.peers[i].fifo) &&
      v.peers == w.peers[i := w.peers[i].(fifo := [])]
    decreases |w.peers[i].fifo|
  {
    hide Inv;
    if w.peers[i].fifo != [] {
      AdoptedKeeps(w, i);
      CleanedUpKeeps(Adopted(w, i), i);
    }
  }

  lemma ConnectKeeps(w: World, p: Peer)
    requires Inv(w) && p.fifo == [] && p.buffers == [] && p.curSize == 0 && !p.overload && 1 < p.arraySize <= MAX_PLACES
    ensures Inv(w.(peers := w.peers + [p]))
  {
    var v := w.(peers := w.peers + [p]);
    forall o: nat ensures Users(v, o) == Users(w, o) {
      PeersAppend(w.peers, p, o);
    }
  }

  lemma {:induction false} PeersAppend(ps: seq<Peer>, p: Peer, o: nat)
    ensures PeersUse(ps + [p], o) == PeersUse(ps, o) + PeerUses(p, o)
  {
    if ps == [] {
      assert ps + [p] == [p];
    } else {
      assert (ps + [p])[1..] == ps[1..] + [p];
      PeersAppend(ps[1..], p, o);
    }
  }

  datatype Op =
    | DoNew(bytes: seq<u8>, isShared: bool)
    | DoCopy(r: nat)
    | DoAssign(h: nat, r: nat)
    | DoMove(h: nat, to: nat)
    | DoDrop(h: nat)
    | DoWrite(h: nat, n: nat, x: u8)
    | DoConnect(arraySize: nat, limit: nat)
    | DoSend(h: nat, i: nat, probe: Probe)
    | DoReceive(i: nat)
    | DoTake(i: nat, h: nat)
    | DoCleanUp(i: nat)

  // ----- steps and runs

  /** `to` takes over what h holds, unless both hold the same block already. */
  function Moved(w: World, h: nat, to: nat): World
    requires h < |w.handles| && to < |w.handles|
  {
    if w.handles[h] == w.handles[to] then w
    else Drop(w, to).(handles := w.handles[to := w.handles[h]][h := Null])
  }

  function Written(w: World, h: nat, n: nat, x: u8): World
    requires h < |w.handles| && n < |View(w, h)|
  {
    var d := Detached(w, h);
    if d.handles[h].At? && d.handles[h].o in d.blocks then Poke(d, h, View(w, h)[n := x]) else w
  }

  /** One step of one process; a step that nobody could take does nothing. */
  function StepOf(w: World, op: Op): World {
    match op
    case DoNew(bytes, isShared) => Create(w.(handles := w.handles + [Null]), |w.handles|, bytes, isShared)
    case DoCopy(r) => if r < |w.handles| then Assigned(w.(handles := w.handles + [Null]), |w.handles|, r) else w
    case DoAssign(h, r) => if h < |w.handles| && r < |w.handles| then Assigned(w, h, r) else w
    case DoMove(h, to) => if h < |w.handles| && to < |w.handles| then Moved(w, h, to) else w
    case DoDrop(h) => if h < |w.handles| then Drop(w, h) else w
    case DoWrite(h, n, x) => if h < |w.handles| && n < |View(w, h)| then Written(w, h, n, x) else w
    case DoConnect(arraySize, limit) => if 1 < arraySize <= MAX_PLACES then w.(peers := w.peers + [Peer([], arraySize, [], 0, limit, false)]) else w
    case DoSend(h, i, probe) => if h < |w.handles| && i < |w.peers| && View(w, h) != [] then SendOf(w, h, i, probe) else w
    case DoReceive(i) => if i < |w.peers| && w.peers[i].fifo != [] then Receive(w, i) else w
    case DoTake(i, h) => if i < |w.peers| && w.peers[i].buffers != [] && h < |w.handles| then Take(Drop(w, h), i, h) else w
    case DoCleanUp(i) => if i < |w.peers| then CleanedUp(w, i) else w
  }

  function RunOf(w: World, ops: seq<Op>): World {
    if |ops| == 0 then w else StepOf(RunOf(w, ops[..|ops| - 1]), ops[|ops| - 1])
  }

  lemma MoveKeeps(w: World, h: nat, to: nat)
    requires Inv(w) && h < |w.handles| && to < |w.handles|
    ensures Inv(Moved(w, h, to)) && BytesKept(w, Moved(w, h, to))
  {
    hide Inv;
    if w.handles[h] != w.handles[to] {
      DropKeeps(w, to);
      DropHandles(w, to);
      DropBytes(w, to);
      assert w.handles[to := Null][to := w.handles[h]][h := Null] == w.handles[to := w.handles[h]][h := Null];
      MovedKeeps(Drop(w, to), h, to);
    }
  }

  /** The written handle changes in one byte; every other handle, and everything queued or waiting,
      is unchanged. */
  lemma WrittenKeeps(w: World, h: nat, n: nat, x: u8)
    requires Inv(w) && h < |w.handles| && n < |View(w, h)|
    ensures var v := Written(w, h, n, x);
      Inv(v) && OthersKept(w, v, h) && View(v, h) == View(w, h)[n := x] && v.peers == w.peers && PeersKept(w, v.blocks) &&
      forall g :: 0 <= g < |w.handles| && g != h ==> View(v, g) == View(w, g)
  {
    hide Inv;
    DetachedKeeps(w, h);
    WriteKeeps(w, Detached(w, h), h, View(w, h)[n := x]);
  }

  /** Every step keeps use counts equal to holders, queues and overload bits, and changes no byte of
      a block that is queued or waiting. */
  lemma StepKeeps(w: World, op: Op)
    requires Inv(w)
    ensures Inv(StepOf(w, op)) && QueuedKept(w, StepOf(w, op))
  {
    hide Inv, PeersKept, SendOf, CleanedUp, Written, Moved, Assigned;
    match op {
      case DoNew(bytes, isShared) =>
        NextIsNew(w);
        NullHandleKeeps(w);
        CreateKeeps(w.(handles := w.handles + [Null]), |w.handles|, bytes, isShared);
      case DoCopy(r) =>
        if r < |w.handles| {
          NullHandleKeeps(w);
          AssignedKeeps(w.(handles := w.handles + [Null]), |w.handles|, r);
        }
      case DoAssign(h, r) =>
        if h < |w.handles| && r < |w.handles| {
          AssignedKeeps(w, h, r);
        }
      case DoMove(h, to) =>
        if h < |w.handles| && to < |w.handles| {
          MoveKeeps(w, h, to);
        }
      case DoDrop(h) =>
        if h < |w.handles| {
          DropKeeps(w, h);
          DropBytes(w, h);
        }
      case DoWrite(h, n, x) =>
        if h < |w.handles| && n < |View(w, h)| {
          WrittenKeeps(w, h, n, x);
          PeersKeptIs(w, Written(w, h, n, x).blocks);
        }
      case DoConnect(arraySize, limit) =>
        if 1 < arraySize <= MAX_PLACES {
          ConnectKeeps(w, Peer([], arraySize, [], 0, limit, false));
        }
      case DoSend(h, i, probe) =>
        if h < |w.handles| && i < |w.peers| && View(w, h) != [] {
          SendKeeps(w, h, i, probe);
        }
      case DoReceive(i) =>
        if i < |w.peers| && w.peers[i].fifo != [] {
          ReceiveKeeps(w, i);
        }
      case DoTake(i, h) =>
        if i < |w.peers| && w.peers[i].buffers != [] && h < |w.handles| {
          DropKeeps(w, h);
          DropBytes(w, h);
          DropHandles(w, h);
          TakeKeeps(Drop(w, h), i, h);
        }
      case DoCleanUp(i) =>
        if i < |w.peers| {
          CleanedUpKeeps(w, i);
        }
    }
  }

  lemma PeersKeptIs(w: World, blocks: map<nat, Block>)
    requires PeersKept(w, blocks)
    ensures forall o: nat :: PeersUse(w.peers, o) > 0 && o in w.blocks ==> o in blocks && blocks[o].bytes == w.blocks[o].bytes
  {
  }

  /** Any interleaving of any processes' steps. */
  lemma {:induction false} RunKeeps(w: World, ops: seq<Op>)
    requires Inv(w)
    ensures Inv(RunOf(w, ops))
  {
    if |ops| > 0 {
      RunKeeps(w, ops[..|ops| - 1]);
      StepKeeps(RunOf(w, ops[..|ops| - 1]), ops[|ops| - 1]);
    }
  }

  /** A buffer that is queued or waiting throughout a run keeps its bytes, whatever the sender, the
      receiver and everybody else do meanwhile. */
  lemma {:induction false} TravelsUnchanged(w: World, ops: seq<Op>, o: nat)
    requires Inv(w) && forall k :: 0 <= k <= |ops| ==> PeersUse(RunOf(w, ops[..k]).peers, o) > 0
    ensures o in w.blocks && o in RunOf(w, ops).blocks && RunOf(w, ops).blocks[o].bytes == w.blocks[o].bytes
  {
    hide Inv, StepOf, PeersUse;
    assert ops[..|ops|] == ops;
    PeersAreOld(RunOf(w, ops[..0]));
    if |ops| > 0 {
      var n := |ops| - 1;
      var init := ops[..n];
      forall k | 0 <= k <= |init| ensures PeersUse(RunOf(w, init[..k]).peers, o) > 0 {
        assert init[..k] == ops[..k];
      }
      TravelsUnchanged(w, init, o);
      RunKeeps(w, init);
      RunKeeps(w, ops);
      PeersAreOld(RunOf(w, ops));
      StepKeeps(RunOf(w, init), ops[n]);
    }
  }

  /** A run that ends with nothing held or queued has freed every block it made, each once. */
  lemma RunLeaksNothing(ops: seq<Op>)
    requires NothingHeld(RunOf(Empty(), ops))
    ensures var end := RunOf(Empty(), ops);
      end.blocks == map[] && forall o: nat :: end.freed[o] == One(o < end.next)
  {
    hide Inv;
    EmptyWorld();
    RunKeeps(Empty(), ops);
    NoLeak(RunOf(Empty(), ops));
  }

  lemma RunLonger(w: World, ops: seq<Op>, op: Op)
    ensures RunOf(w, ops + [op]) == StepOf(RunOf(w, ops), op)
  {
    hide StepOf;
    assert (ops + [op])[..|ops|] == ops;
  }

  /** A ring of five places takes one buffer; that of handle 0 is in it, and handle 1 has another. */
  function FullRing(y: u8): seq<Op> {
    [] + [DoNew([y], true)] + [DoConnect(5, 100)] + [DoSend(0, 0, Probe(true, false, false))]
  }

  lemma FullRingIs(x: u8, y: u8)
    ensures RunOf(Empty(), FullRing(y) + [DoNew([x], true)]) ==
      World(map[0 := Block([y], 1, true), 1 := Block([x], 1, true)], [Null, At(1)], [Peer([Data(0, 1)], 5, [], 0, 100, false)], 2, multiset{})
  {
    hide RunOf;
    var w1 := World(map[0 := Block([y], 1, true)], [At(0)], [], 1, multiset{});
    var p := Peer([], 5, [], 0, 100, false);
    var w2 := w1.(peers := [p]);
    var w3 := w2.(handles := [Null], peers := [p.(fifo := [Data(0, 1)])]);
    var probe := Probe(true, false, false);
    RunOfNothing(Empty());
    RunLonger(Empty(), [], DoNew([y], true));
    assert StepOf(Empty(), DoNew([y], true)) == w1;
    RunLonger(Empty(), [] + [DoNew([y], true)], DoConnect(5, 100));
    assert StepOf(w1, DoConnect(5, 100)) == w2;
    RunLonger(Empty(), [] + [DoNew([y], true)] + [DoConnect(5, 100)], DoSend(0, 0, probe));
    assert MadeShared(w2, 0) == w2 && View(w2, 0) == [y];
    assert p.fifo + [Data(0, 1)] == [Data(0, 1)] && Accepts(p.fifo, Data(0, 1), 5);
    assert w2.handles[0 := Null] == [Null] && w2.peers[0 := p.(fifo := [Data(0, 1)])] == w3.peers;
    assert StepOf(w2, DoSend(0, 0, probe)) == w3;
    RunLonger(Empty(), FullRing(y), DoNew([x], true));
  }

  lemma RunOfNothing(w: World)
    ensures RunOf(w, []) == w
  {
  }

  /** A send that is refused loses the sender's bytes: after a run from the empty exchange the ring
      of the peer is full and it has just read; the answer is to try again, and there is nothing left
      to send. */
  lemma RefusedSendLosesBytes(x: u8, y: u8)
    ensures var w, probe := RunOf(Empty(), FullRing(y) + [DoNew([x], true)]), Probe(true, false, false);
      Inv(w) && |w.handles| == 2 && |w.peers| == 1 && View(w, 1) == [x] && Verdict(w.peers[0], 1, probe) == E_AGAIN &&
      SendOf(w, 1, 0, probe).handles == [Null, Null] && SendOf(w, 1, 0, probe).blocks == map[0 := Block([y], 1, true)]
  {
    hide Inv, RunOf;
    EmptyWorld();
    RunKeeps(Empty(), FullRing(y) + [DoNew([x], true)]);
    FullRingIs(x, y);
    var w := RunOf(Empty(), FullRing(y) + [DoNew([x], true)]);
    assert MadeShared(w, 1) == w;
    assert w.blocks - {1} == map[0 := Block([y], 1, true)];
    assert w.handles[1 := Null] == [Null, Null];
  }

  class Exchange {
    var blocks: map<nat, Block>
    var handles: seq<Ref>
    var peers: seq<Peer>
    var next: nat
    ghost var freed: multiset<nat>

    ghost function W(): World
      reads this
    {
      World(blocks, handles, peers, next, freed)
    }

    ghost predicate Valid()
      reads this
    {
      Inv(W())
    }

    constructor ()
      ensures Valid() && blocks == map[] && handles == [] && peers == []
    {
      blocks, handles, peers, next := map[], [], [], 0;
      freed := multiset{};
      new;
      EmptyWorld();
    }

    /** A CBuffer object appears, holding nothing. */
    method Declare() returns (h: nat)
      requires Valid()
      modifies this
      ensures Valid() && h == old(|handles|) && W() == old(W()).(handles := old(handles) + [Null])
    {
      NullHandleKeeps(W());
      h := |handles|;
      handles := handles + [Null];
    }

    /** release, also run by the destructor. */
    method Release(h: nat)
      requires Valid() && h < |handles|
      modifies this
      ensures Valid() && W() == Drop(old(W()), h) && handles == old(handles)[h := Null]
    {
      hide Inv;
      ghost var w := W();
      DropKeeps(W(), h);
      if handles[h] == Null {
        return;
      }
      HandleLives(W(), h);
      var o := handles[h].o;
      var count := blocks[o].count;
      blocks := blocks[o := blocks[o].(count := count - 1)];
      if count == 1 {
        blocks := blocks - {o};
        freed := freed + multiset{o};
      }
      handles := handles[h := Null];
      assert blocks == Drop(w, h).blocks;
    }

    method Assign(h: nat, r: nat)
      requires Valid() && h < |handles| && r < |handles|
      modifies this
      ensures Valid() && W() == Assigned(old(W()), h, r) && handles == old(handles)[h := old(handles[r])]
    {
      hide Inv, Drop;
      ghost var w := W();
      AssignedKeeps(W(), h, r);
      DropHandles(W(), h);
      if handles[r] != handles[h] {
        if handles[h] != Null {
          Release(h);
        }
        if handles[r] != Null {
          HandleLives(W(), r);
          var o := handles[r].o;
          blocks := blocks[o := blocks[o].(count := blocks[o].count + 1)];
        }
        handles := handles[h := handles[r]];
        assert W() == Assigned(w, h, r);
      }
    }

    /** MMoveTo: `to` takes over what h holds, unless both hold the same block already. */
    method MMoveTo(h: nat, to: nat)
      requires Valid() && h < |handles| && to < |handles|
      modifies this
      ensures Valid() && W() == Moved(old(W()), h, to)
      ensures handles == if old(handles[h] == handles[to]) then old(handles) else old(handles)[to := old(handles[h])][h := Null]
    {
      hide Inv, Drop;
      MoveKeeps(W(), h, to);
      DropHandles(W(), to);
      if handles[h] != handles[to] {
        if handles[to] != Null {
          Release(to);
        }
        assert old(handles)[to := Null][to := old(handles)[h]] == old(handles)[to := old(handles)[h]];
        handles := handles[to := handles[h]];
        handles := handles[h := Null];
      }
    }

    /** A new block for handle h. */
    method MAllocate(h: nat, bytes: seq<u8>, isShared: bool)
      requires Valid() && h < |handles| && handles[h] == Null
      modifies this
      ensures Valid() && W() == Create(old(W()), h, bytes, isShared)
      ensures View(W(), h) == bytes && handles[h].At? && handles[h].o !in old(blocks) && OthersKept(old(W()), W(), h) && BytesKept(old(W()), W())
    {
      CreateKeeps(W(), h, bytes, isShared);
      NextIsNew(W());
      hide Inv;
      blocks := blocks[next := Block(bytes, 1, isShared)];
      handles := handles[h := At(next)];
      next := next + 1;
    }

    /** deep_copy into a temporary, which is then assigned to h. */
    method Renew(h: nat, isShared: bool)
      requires Valid() && h < |handles| && handles[h].At? && handles[h].o in blocks
      modifies this
      ensures Valid() && W() == Create(Drop(old(W()), h), h, old(blocks[handles[h].o].bytes), isShared)
    {
      hide Inv, Drop, Assigned;
      RenewedKeeps(W(), h, isShared);
      HandleIsOld(W(), h);
      TemporaryReplaces(W(), h, blocks[handles[h].o].bytes, isShared);
      var bytes := blocks[handles[h].o].bytes;
      var t := Declare();
      MAllocate(t, bytes, isShared);
      Assign(h, t);
      Release(t);
      handles := handles[..t];
    }

    method MDetach(h: nat)
      requires Valid() && h < |handles|
      modifies this
      ensures Valid() && W() == Detached(old(W()), h)
      ensures handles[h].At? ==> handles[h].o in blocks && blocks[handles[h].o].count == 1
      ensures View(W(), h) == old(View(W(), h)) && OthersKept(old(W()), W(), h)
      ensures old(handles[h].At? && handles[h].o in blocks && blocks[handles[h].o].count == 1) ==> W() == old(W())
    {
      DetachedKeeps(W(), h);
      if handles[h] == Null {
        return;
      }
      HandleLives(W(), h);
      if blocks[handles[h].o].count != 1 {
        Renew(h, blocks[handles[h].o].shared);
      }
    }

    /** Writing byte x at place n through at, begin or ptr: a private copy first if the block is
        held by others, so that no other holder sees the change. */
    method Write(h: nat, n: nat, x: u8)
      requires Valid() && h < |handles| && n < |View(W(), h)|
      modifies this
      ensures Valid() && W() == Written(old(W()), h, n, x)
      ensures OthersKept(old(W()), W(), h)
      ensures View(W(), h) == old(View(W(), h))[n := x]
      ensures forall g :: 0 <= g < |handles| && g != h ==> View(W(), g) == old(View(W(), g))
      ensures peers == old(peers) && PeersKept(old(W()), blocks)
    {
      hide Inv;
      WrittenKeeps(W(), h, n, x);
      DetachedKeeps(W(), h);
      MDetach(h);
      var o := handles[h].o;
      blocks := blocks[o := blocks[o].(bytes := blocks[o].bytes[n := x])];
    }

    /** A buffer outside the shared memory is copied into it. */
    method MGetValidBuffer(h: nat)
      requires Valid() && h < |handles| && handles[h].At?
      modifies this
      ensures Valid() && W() == MadeShared(old(W()), h) && BytesKept(old(W()), W()) && OthersKept(old(W()), W(), h)
      ensures View(W(), h) == old(View(W(), h))
      ensures handles[h].At? && handles[h].o in blocks && blocks[handles[h].o].shared
    {
      hide Inv;
      MadeSharedKeeps(W(), h);
      if !blocks[handles[h].o].shared {
        Renew(h, true);
      }
    }

    /** MCheckConnection: a keep-alive request is put if there is a place, and may be answered. */
    method MCheckConnection(i: nat, probe: Probe) returns (ok: bool)
      requires Valid() && i < |peers|
      modifies this
      ensures Valid() && W() == Probed(old(W()), i) && ok == Answers(old(peers[i]), probe)
      ensures ok <==> old(|peers[i].fifo| < peers[i].arraySize) && probe.answers
      ensures handles == old(handles) && blocks == old(blocks)
      ensures peers == if old(|peers[i].fifo| < peers[i].arraySize)
        then old(peers)[i := old(peers[i]).(fifo := old(peers[i].fifo) + [Other(KEEPALIVE_REQUEST)])] else old(peers)
    {
      hide Inv;
      ProbedKeeps(W(), i);
      if |peers[i].fifo| >= peers[i].arraySize {
        return false;
      }
      peers := peers[i := peers[i].(fifo := peers[i].fifo + [Other(KEEPALIVE_REQUEST)])];
      ok := probe.answers;
    }

    /** The non-blocking send of handle h to peer i. */
    method MSend(h: nat, i: nat, probe: Probe) returns (r: SendState)
      requires Valid() && h < |handles| && i < |peers| && View(W(), h) != []
      modifies this
      ensures Valid() && BytesKept(old(W()), W()) && W() == SendOf(old(W()), h, i, probe)
      ensures r == Verdict(old(peers[i]), |old(View(W(), h))|, probe)
      ensures old(peers[i].overload) ==> handles == old(handles) && blocks == old(blocks)
      ensures r == E_SENDED ==> Sent(old(W()), W(), h, i)
      ensures old(!peers[i].overload) && r != E_SENDED ==> GivenUp(old(W()), W(), h)
    {
      hide Inv;
      SendKeeps(W(), h, i, probe);
      if peers[i].overload {
        if probe.recent {
          return E_AGAIN;
        }
        var alive := MCheckConnection(i, probe);
        return if alive || probe.progressed then E_AGAIN else E_ERROR;
      }
      MadeSharedIs(W(), h);
      MGetValidBuffer(h);
      var o := handles[h].o;
      var info := Data(o, |blocks[o].bytes|);
      if Accepts(peers[i].fifo, info, peers[i].arraySize) {
        handles := handles[h := Null];
        peers := peers[i := peers[i].(fifo := peers[i].fifo + [info])];
        return E_SENDED;
      }
      r := E_ERROR;
      if probe.recent {
        r := E_AGAIN;
      } else {
        var alive := MCheckConnection(i, probe);
        if alive {
          r := E_AGAIN;
        }
      }
      Release(h);
    }

    /** The receiver handles its next event. */
    method MReceiveData(i: nat)
      requires Valid() && i < |peers| && peers[i].fifo != []
      modifies this
      ensures Valid() && W() == Receive(old(W()), i)
    {
      hide Inv;
      ReceiveKeeps(W(), i);
      var p := peers[i];
      var e := p.fifo[0];
      p := p.(fifo := p.fifo[1..]);
      if e.Data? {
        p := p.(buffers := p.buffers + [At(e.offset)], curSize := p.curSize + e.size);
        if p.curSize > p.limit {
          p := p.(overload := true);
        }
      }
      peers := peers[i := p];
    }

    /** The user takes the first waiting buffer of peer i into the handle h. */
    method MGetData(i: nat, h: nat)
      requires Valid() && i < |peers| && peers[i].buffers != [] && h < |handles|
      modifies this
      ensures Valid() && W() == Take(Drop(old(W()), h), i, h)
      ensures old(peers[i].buffers[0]).At? && old(peers[i].buffers[0]).o in old(blocks) && View(W(), h) == old(blocks)[old(peers[i].buffers[0]).o].bytes
      ensures old(peers[i].curSize) > 0 && old(peers[i].curSize > peers[i].limit ==> peers[i].overload)
    {
      hide Inv;
      WaitingIsOk(W(), i);
      DropKeeps(W(), h);
      TakeKeeps(Drop(W(), h), i, h);
      Release(h);
      WaitingIsOk(W(), i);
      var p := peers[i];
      var r := p.buffers[0];
      handles := handles[h := r];
      var left := p.curSize - |blocks[r.o].bytes|;
      var q := p.(buffers := p.buffers[1..], curSize := left);
      if left <= p.limit < p.curSize {
        q := q.(overload := false);
      }
      peers := peers[i := q];
    }

    /** A dead peer's queue is emptied; its buffers are adopted by new handles, the caller's list. */
    method MCleanUp(i: nat)
      requires Valid() && i < |peers|
      modifies this
      ensures Valid() && W() == CleanedUp(old(W()), i) && blocks == old(blocks)
      ensures peers == old(peers)[i := old(peers[i]).(fifo := [])] && handles == old(handles) + DataRefs(old(peers[i]).fifo)
    {
      hide Inv, Adopted;
      CleanedUpKeeps(W(), i);
      while peers[i].fifo != []
        invariant Valid() && |peers| == old(|peers|) && CleanedUp(W(), i) == CleanedUp(old(W()), i)
        decreases |peers[i].fifo|
      {
        MCleanUpEvent(i);
      }
    }

    method MCleanUpEvent(i: nat)
      requires Valid() && i < |peers| && peers[i].fifo != []
      modifies this
      ensures Valid() && W() == Adopted(old(W()), i)
      ensures |peers| == old(|peers|) && |peers[i].fifo| < old(|peers[i].fifo|)
    {
      hide Inv;
      AdoptedKeeps(W(), i);
      var e := peers[i].fifo[0];
      if e.Data? {
        var h := Declare();
        handles := handles[h := At(e.offset)];
      }
      peers := peers[i := peers[i].(fifo := peers[i].fifo[1..])];
    }

    /** The copy constructor. */
    method Copy(r: nat) returns (h: nat)
      requires Valid() && r < |handles|
      modifies this
      ensures Valid() && h == old(|handles|) && handles == old(handles) + [old(handles[r])]
      ensures W() == StepOf(old(W()), DoCopy(r)) && BytesKept(old(W()), W()) && peers == old(peers)
    {
      hide Inv, Assigned;
      h := Declare();
      AssignedKeeps(W(), h, r);
      Assign(h, r);
    }

    /** A receiver with an empty fifo joins. */
    method Connect(arraySize: nat, limit: nat)
      requires Valid() && 1 < arraySize <= MAX_PLACES
      modifies this
      ensures Valid() && W() == StepOf(old(W()), DoConnect(arraySize, limit))
      ensures peers == old(peers) + [Peer([], arraySize, [], 0, limit, false)] && handles == old(handles) && blocks == old(blocks)
    {
      hide Inv;
      ConnectKeeps(W(), Peer([], arraySize, [], 0, limit, false));
      peers := peers + [Peer([], arraySize, [], 0, limit, false)];
    }

    /** Any interleaving of any processes' steps. */
    method Run(ops: seq<Op>)
      requires Valid()
      modifies this
      ensures Valid() && W() == RunOf(old(W()), ops)
    {
      hide Inv, StepOf;
      for k := 0 to |ops|
        invariant Valid() && W() == RunOf(old(W()), ops[..k])
      {
        assert ops[..k + 1][..k] == ops[..k];
        Do(ops[k]);
      }
      assert ops[..|ops|] == ops;
    }

    method Do(op: Op)
      requires Valid()
      modifies this
      ensures Valid() && W() == StepOf(old(W()), op)
    {
      hide Inv, Assigned, Moved, Written, SendOf, CleanedUp, Receive;
      match op {
        case DoNew(bytes, isShared) =>
          var h := Declare();
          MAllocate(h, bytes, isShared);
        case DoCopy(r) =>
          if r < |handles| {
            var h := Copy(r);
          }
        case DoAssign(h, r) =>
          if h < |handles| && r < |handles| {
            Assign(h, r);
          }
        case DoMove(h, to) =>
          if h < |handles| && to < |handles| {
            MMoveTo(h, to);
          }
        case DoDrop(h) =>
          if h < |handles| {
            Release(h);
          }
        case DoWrite(h, n, x) =>
          if h < |handles| && handles[h].At? && handles[h].o in blocks && n < |blocks[handles[h].o].bytes| {
            Write(h, n, x);
          }
        case DoConnect(arraySize, limit) =>
          if 1 < arraySize <= MAX_PLACES {
            Connect(arraySize, limit);
          }
        case DoSend(h, i, probe) =>
          if h < |handles| && i < |peers| && handles[h].At? && handles[h].o in blocks && blocks[handles[h].o].bytes != [] {
            var r := MSend(h, i, probe);
          }
        case DoReceive(i) =>
          if i < |peers| && peers[i].fifo != [] {
            MReceiveData(i);
          }
        case DoTake(i, h) =>
          if i < |peers| && peers[i].buffers != [] && h < |handles| {
            MGetData(i, h);
          }
        case DoCleanUp(i) =>
          if i < |peers| {
            MCleanUp(i);
          }
      }
    }
  }
}
