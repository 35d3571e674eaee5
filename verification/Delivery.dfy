/**
  What arrives: the messages that a receiver's user takes are those sent to it, in the order of the
  sends, each once and with its bytes, whatever everybody does in between.
*/
module Delivery {
  import opened EventFifo
  import opened Holders
  import opened HandOff
  import opened Arithmetic

  function BytesAt(w: World, r: Ref): seq<u8> {
    if r.At? && r.o in w.blocks then w.blocks[r.o].bytes else []
  }

  function Messages(w: World, rs: seq<Ref>): seq<seq<u8>> {
    if rs == [] then [] else [BytesAt(w, rs[0])] + Messages(w, rs[1..])
  }

  /** The messages under way to peer i, the oldest first. */
  function Inbox(w: World, i: nat): seq<seq<u8>>
    requires i < |w.peers|
  {
    Messages(w, Pending(w.peers[i]))
  }

  predicate Sends(w: World, op: Op, i: nat) {
    && op.DoSend? && op.i == i < |w.peers| && op.h < |w.handles| && View(w, op.h) != []
    && Verdict(w.peers[i], |View(w, op.h)|, op.probe) == E_SENDED
  }

  predicate Takes(w: World, op: Op, i: nat) {
    op.DoTake? && op.i == i < |w.peers| && w.peers[i].buffers != [] && op.h < |w.handles|
  }

  /** What the step sends to peer i, if that is delivered. */
  function SentBy(w: World, op: Op, i: nat): seq<seq<u8>> {
    if Sends(w, op, i) then [View(w, op.h)] else []
  }

  /** What the user of peer i gets from the step. */
  function TakenBy(w: World, op: Op, i: nat): seq<seq<u8>> {
    if Takes(w, op, i) && op.h < |StepOf(w, op).handles| then [View(StepOf(w, op), op.h)] else []
  }

  function Sent(w: World, ops: seq<Op>, i: nat): seq<seq<u8>> {
    if |ops| == 0 then []
    else Sent(w, ops[..|ops| - 1], i) + SentBy(RunOf(w, ops[..|ops| - 1]), ops[|ops| - 1], i)
  }

  function Taken(w: World, ops: seq<Op>, i: nat): seq<seq<u8>> {
    if |ops| == 0 then []
    else Taken(w, ops[..|ops| - 1], i) + TakenBy(RunOf(w, ops[..|ops| - 1]), ops[|ops| - 1], i)
  }

  // ----- one step

  lemma {:induction false} MessagesAppend(w: World, rs: seq<Ref>, r: Ref)
    ensures Messages(w, rs + [r]) == Messages(w, rs) + [BytesAt(w, r)]
  {
    if rs == [] {
      assert rs + [r] == [r] && [r][1..] == [];
    } else {
      assert (rs + [r])[1..] == rs[1..] + [r];
      MessagesAppend(w, rs[1..], r);
    }
  }

  lemma {:induction false} MessagesSame(w: World, v: World, rs: seq<Ref>)
    requires forall r :: r in rs ==> BytesAt(v, r) == BytesAt(w, r)
    ensures Messages(v, rs) == Messages(w, rs)
  {
    if rs != [] {
      assert rs[0] in rs;
      MessagesSame(w, v, rs[1..]);
    }
  }

  /** What is under way before and after a step has the same bytes. */
  lemma BytesStay(w: World, v: World, i: nat, rs: seq<Ref>)
    requires Inv(w) && Inv(v) && QueuedKept(w, v) && i < |w.peers| && i < |v.peers|
    requires forall r :: r in rs ==> r in Pending(w.peers[i]) && r in Pending(v.peers[i])
    ensures Messages(v, rs) == Messages(w, rs)
  {
    hide Inv, PeersUse, Pending;
    forall r | r in rs ensures BytesAt(v, r) == BytesAt(w, r) {
      PendingLives(w, i, r);
      PendingLives(v, i, r);
    }
    MessagesSame(w, v, rs);
  }

  /** How a step changes what is under way to peer i: a delivered send adds at the end, taking removes
      at the front, nothing else changes it. */
  lemma StepPending(w: World, op: Op, i: nat)
    requires Inv(w) && i < |w.peers| && !(op.DoCleanUp? && op.i == i)
    ensures i < |StepOf(w, op).peers|
    ensures Sends(w, op, i) ==>
      exists r :: Pending(StepOf(w, op).peers[i]) == Pending(w.peers[i]) + [r] && BytesAt(StepOf(w, op), r) == View(w, op.h)
    ensures Takes(w, op, i) ==> op.h < |StepOf(w, op).handles|
    ensures Takes(w, op, i) ==> Pending(w.peers[i]) == [StepOf(w, op).handles[op.h]] + Pending(StepOf(w, op).peers[i])
    ensures !Sends(w, op, i) && !Takes(w, op, i) ==> Pending(StepOf(w, op).peers[i]) == Pending(w.peers[i])
  {
    hide Inv, Pending;
    match op {
      case DoSend(h, j, probe) =>
        if h < |w.handles| && j < |w.peers| && View(w, h) != [] {
          SendPending(w, h, j, probe, i);
        }
      case DoReceive(j) =>
        if j < |w.peers| && w.peers[j].fifo != [] {
          ReceiveKeeps(w, j);
        }
      case DoTake(j, h) =>
        if j < |w.peers| && w.peers[j].buffers != [] && h < |w.handles| {
          DropKeeps(w, h);
          DropHandles(w, h);
          TakeKeeps(Drop(w, h), j, h);
        }
      case DoCleanUp(j) =>
        if j < |w.peers| {
          CleanedUpKeeps(w, j);
        }
      case DoWrite(h, n, x) =>
        if h < |w.handles| && n < |View(w, h)| {
          WrittenKeeps(w, h, n, x);
        }
      case _ =>
    }
  }

  lemma SendPending(w: World, h: nat, j: nat, probe: Probe, i: nat)
    requires Inv(w) && h < |w.handles| && j < |w.peers| && i < |w.peers| && View(w, h) != []
    ensures |SendOf(w, h, j, probe).peers| == |w.peers|
    ensures var v := SendOf(w, h, j, probe);
      if i == j && Verdict(w.peers[j], |View(w, h)|, probe) == E_SENDED
      then exists r :: Pending(v.peers[i]) == Pending(w.peers[i]) + [r] && BytesAt(v, r) == View(w, h)
      else Pending(v.peers[i]) == Pending(w.peers[i])
  {
    hide Inv;
    SendKeeps(w, h, j, probe);
    MadeSharedIs(w, h);
    ProbePending(w, j);
    ProbePending(MadeShared(w, h), j);
    var v := SendOf(w, h, j, probe);
    if Verdict(w.peers[j], |View(w, h)|, probe) == E_SENDED {
      var e := v.peers[j].fifo[|v.peers[j].fifo| - 1];
      DataRefsAppend(w.peers[j].fifo, e);
      assert Pending(v.peers[j]) == Pending(w.peers[j]) + [At(e.offset)];
    }
  }

  lemma ProbePending(w: World, j: nat)
    requires j < |w.peers|
    ensures |Probed(w, j).peers| == |w.peers| && Pending(Probed(w, j).peers[j]) == Pending(w.peers[j])
  {
    DataRefsAppend(w.peers[j].fifo, Other(KEEPALIVE_REQUEST));
  }

  /** The handle that takes the first message shows its bytes. */
  lemma TakenFirst(w: World, v: World, h: nat, i: nat)
    requires Inv(w) && Inv(v) && QueuedKept(w, v) && i < |w.peers| && i < |v.peers| && h < |v.handles|
    requires Pending(w.peers[i]) == [v.handles[h]] + Pending(v.peers[i])
    ensures Messages(w, Pending(w.peers[i])) == [View(v, h)] + Messages(w, Pending(v.peers[i]))
  {
    hide Inv, Pending, PeersUse;
    var r, after := v.handles[h], Pending(v.peers[i]);
    assert ([r] + after)[0] == r && ([r] + after)[1..] == after;
    assert r in Pending(w.peers[i]);
    PendingLives(w, i, r);
    HandleLives(v, h);
  }

  /** What is taken, followed by what is then under way, is what was under way followed by what is
      sent. */
  lemma StepInbox(w: World, op: Op, i: nat)
    requires Inv(w) && i < |w.peers| && !(op.DoCleanUp? && op.i == i)
    ensures i < |StepOf(w, op).peers|
    ensures TakenBy(w, op, i) + Inbox(StepOf(w, op), i) == Inbox(w, i) + SentBy(w, op, i)
  {
    hide Inv, Pending, StepOf, Messages, QueuedKept;
    var v := StepOf(w, op);
    StepKeeps(w, op);
    StepPending(w, op, i);
    var before := Pending(w.peers[i]);
    if Sends(w, op, i) {
      var r :| Pending(v.peers[i]) == before + [r] && BytesAt(v, r) == View(w, op.h);
      MessagesAppend(v, before, r);
      BytesStay(w, v, i, before);
    } else if Takes(w, op, i) {
      var after := Pending(v.peers[i]);
      BytesStay(w, v, i, after);
      TakenFirst(w, v, op.h, i);
    } else {
      BytesStay(w, v, i, before);
    }
  }

  // ----- whole runs

  /** Nothing is lost, doubled, changed or out of order: over any run in which peer i is not cleaned
      up, what its user took, followed by what is still under way, is what was under way at the start
      followed by what was sent. */
  lemma {:induction false} FirstInFirstOut(w: World, ops: seq<Op>, i: nat)
    requires Inv(w) && i < |w.peers|
    requires forall k :: 0 <= k < |ops| ==> !(ops[k].DoCleanUp? && ops[k].i == i)
    ensures i < |RunOf(w, ops).peers|
    ensures Taken(w, ops, i) + Inbox(RunOf(w, ops), i) == Inbox(w, i) + Sent(w, ops, i)
  {
    hide Inv, Inbox, StepOf, SentBy, TakenBy;
    if |ops| > 0 {
      var n := |ops| - 1;
      var init, op := ops[..n], ops[n];
      FirstInFirstOut(w, init, i);
      RunKeeps(w, init);
      var m := RunOf(w, init);
      StepInbox(m, op, i);
      var v := StepOf(m, op);
      assert Taken(w, ops, i) + Inbox(v, i) == Taken(w, init, i) + (TakenBy(m, op, i) + Inbox(v, i));
      assert (Taken(w, init, i) + Inbox(m, i)) + SentBy(m, op, i) == Inbox(w, i) + (Sent(w, init, i) + SentBy(m, op, i));
    }
  }

  /** From a newly connected peer on, the user has always taken a beginning of what was sent. */
  lemma TakenIsSent(w: World, ops: seq<Op>, i: nat)
    requires Inv(w) && i < |w.peers| && Inbox(w, i) == []
    requires forall k :: 0 <= k < |ops| ==> !(ops[k].DoCleanUp? && ops[k].i == i)
    ensures Taken(w, ops, i) <= Sent(w, ops, i)
    ensures i < |RunOf(w, ops).peers| && (Inbox(RunOf(w, ops), i) == [] ==> Taken(w, ops, i) == Sent(w, ops, i))
  {
    hide *;
    FirstInFirstOut(w, ops, i);
    assert [] + Sent(w, ops, i) == Sent(w, ops, i);
  }
}
