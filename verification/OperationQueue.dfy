/**
  The operation queue of the thread pool and the loop of its threads; each method is one critical
  section or one stretch of a worker's loop.
*/
module OperationQueue {

  datatype Operation = Operation(id: nat, immediate: bool)

  /** A pool thread: about to look for work, asleep because there was none, woken from that sleep,
      running an operation, having run one that must be kept and is not queued yet, or about to
      report the end. */
  datatype Worker = Idle | Asleep | Woken | Running(op: Operation) | Keeping(op: Operation) | Ending

  datatype Kind = Ready | Sleeping | Busy

  function KindOf(w: Worker): Kind {
    match w
    case Idle => Ready
    case Woken => Ready
    case Asleep => Sleeping
    case _ => Busy
  }

  function Count(ws: seq<Worker>, kind: Kind): nat {
    if ws == [] then 0 else One(ws[0], kind) + Count(ws[1..], kind)
  }

  function One(w: Worker, kind: Kind): nat { if KindOf(w) == kind then 1 else 0 }

  lemma {:induction false} CountSet(ws: seq<Worker>, i: nat, w: Worker, kind: Kind)
    requires i < |ws|
    ensures Count(ws[i := w], kind) + One(ws[i], kind) == Count(ws, kind) + One(w, kind)
  {
    if i == 0 {
      assert ws[0 := w][1..] == ws[1..];
    } else {
      assert ws[i := w][1..] == ws[1..][i - 1 := w];
      CountSet(ws[1..], i - 1, w, kind);
    }
  }

  lemma {:induction false} CountZero(ws: seq<Worker>, kind: Kind)
    ensures Count(ws, kind) == 0 <==> forall i :: 0 <= i < |ws| ==> KindOf(ws[i]) != kind
  {
    if ws != [] {
      CountZero(ws[1..], kind);
    }
  }

  /** The condition variable wakes one sleeper, if there is one: thread w, or the first. */
  function WakeOne(ws: seq<Worker>, w: nat): (r: seq<Worker>)
    ensures |r| == |ws|
  {
    if w < |ws| && ws[w].Asleep? then ws[w := Woken] else WakeFirst(ws)
  }

  function WakeFirst(ws: seq<Worker>): (r: seq<Worker>)
    ensures |r| == |ws|
  {
    if ws == [] then [] else if ws[0].Asleep? then [Woken] + ws[1..] else [ws[0]] + WakeFirst(ws[1..])
  }

  lemma {:induction false} WakeFirstCounts(ws: seq<Worker>)
    ensures Count(WakeFirst(ws), Busy) == Count(ws, Busy)
    ensures Count(ws, Sleeping) > 0 ==> Count(WakeFirst(ws), Ready) == Count(ws, Ready) + 1
    ensures Count(ws, Sleeping) == 0 ==> WakeFirst(ws) == ws
    ensures Count(WakeFirst(ws), Sleeping) <= Count(ws, Sleeping)
  {
    if ws != [] {
      WakeFirstCounts(ws[1..]);
      var r := WakeFirst(ws);
      assert r[1..] == if ws[0].Asleep? then ws[1..] else WakeFirst(ws[1..]);
    }
  }

  lemma WakeOneCounts(ws: seq<Worker>, w: nat)
    ensures Count(WakeOne(ws, w), Busy) == Count(ws, Busy)
    ensures Count(ws, Sleeping) > 0 ==> Count(WakeOne(ws, w), Ready) == Count(ws, Ready) + 1
    ensures Count(ws, Sleeping) == 0 ==> WakeOne(ws, w) == ws
    ensures Count(WakeOne(ws, w), Sleeping) <= Count(ws, Sleeping)
  {
    if w < |ws| && ws[w].Asleep? {
      CountSet(ws, w, Woken, Busy);
      CountSet(ws, w, Woken, Ready);
      CountSet(ws, w, Woken, Sleeping);
      CountZero(ws, Sleeping);
    } else {
      WakeFirstCounts(ws);
    }
  }

  /** Only sleepers are woken. */
  lemma {:induction false} WakeFirstKeeps(ws: seq<Worker>, i: nat)
    requires i < |ws| && !ws[i].Asleep?
    ensures WakeFirst(ws)[i] == ws[i]
  {
    if i > 0 {
      WakeFirstKeeps(ws[1..], i - 1);
    }
  }

  /** The operations of one class, in order. */
  function Only(ops: seq<Operation>, immediate: bool): seq<Operation> {
    if ops == [] then [] else (if ops[0].immediate == immediate then [ops[0]] else []) + Only(ops[1..], immediate)
  }

  lemma {:induction false} OnlyConcat(a: seq<Operation>, b: seq<Operation>, immediate: bool)
    ensures Only(a + b, immediate) == Only(a, immediate) + Only(b, immediate)
  {
    if a == [] {
      assert a + b == b;
    } else {
      assert (a + b)[1..] == a[1..] + b;
      OnlyConcat(a[1..], b, immediate);
    }
  }

  /** How many operations at the front are immediate. */
  function Front(ops: seq<Operation>): (k: nat)
    ensures k <= |ops|
    ensures forall j :: 0 <= j < k ==> ops[j].immediate
    ensures k < |ops| ==> !ops[k].immediate
  {
    if ops == [] || !ops[0].immediate then 0 else 1 + Front(ops[1..])
  }

  /** No immediate operation stands behind another one. */
  ghost predicate Sorted(ops: seq<Operation>) {
    forall j :: Front(ops) <= j < |ops| ==> !ops[j].immediate
  }

  lemma SortedParts(ops: seq<Operation>)
    ensures Sorted(ops) <==> Only(ops[Front(ops)..], true) == []
    ensures Only(ops[..Front(ops)], false) == []
  {
    var k := Front(ops);
    NoneOf(ops[k..], true);
    NoneOf(ops[..k], false);
    assert forall j :: 0 <= j < |ops| - k ==> ops[k..][j] == ops[k + j];
    if !Sorted(ops) {
      var j :| k <= j < |ops| && ops[j].immediate;
      assert ops[k..][j - k].immediate;
    }
  }

  lemma {:induction false} NoneOf(ops: seq<Operation>, immediate: bool)
    ensures Only(ops, immediate) == [] <==> forall j :: 0 <= j < |ops| ==> ops[j].immediate != immediate
  {
    if ops != [] {
      NoneOf(ops[1..], immediate);
    }
  }

  lemma FrontIs(ops: seq<Operation>, k: nat)
    requires k <= |ops| && (forall j :: 0 <= j < k ==> ops[j].immediate) && (k < |ops| ==> !ops[k].immediate)
    ensures Front(ops) == k
  {
  }

  /** Where an operation is queued. */
  function Placed(ops: seq<Operation>, op: Operation): seq<Operation> {
    if op.immediate then ops[..Front(ops)] + [op] + ops[Front(ops)..] else ops + [op]
  }

  /** It is the last of its class, and the other class does not move. */
  lemma PlacedKeeps(ops: seq<Operation>, op: Operation)
    requires Sorted(ops)
    ensures Sorted(Placed(ops, op))
    ensures Only(Placed(ops, op), op.immediate) == Only(ops, op.immediate) + [op]
    ensures Only(Placed(ops, op), !op.immediate) == Only(ops, !op.immediate)
  {
    hide Only;
    var k, placed := Front(ops), Placed(ops, op);
    SortedParts(ops);
    assert ops == ops[..k] + ops[k..];
    OnlyOne(op, true);
    OnlyOne(op, false);
    if op.immediate {
      OnlyConcat(ops[..k], ops[k..], true);
      OnlyConcat(ops[..k], ops[k..], false);
      OnlyConcat(ops[..k] + [op], ops[k..], true);
      OnlyConcat(ops[..k], [op], true);
      OnlyConcat(ops[..k] + [op], ops[k..], false);
      OnlyConcat(ops[..k], [op], false);
      FrontIs(placed, k + 1);
    } else {
      OnlyConcat(ops, [op], false);
      OnlyConcat(ops, [op], true);
      FrontIs(placed, k);
    }
  }

  lemma TailKeeps(ops: seq<Operation>)
    requires Sorted(ops) && ops != []
    ensures Sorted(ops[1..])
  {
    FrontIs(ops[1..], if ops[0].immediate then Front(ops) - 1 else 0);
  }

  lemma OnlyOne(op: Operation, c: bool)
    ensures Only([op], c) == if op.immediate == c then [op] else []
  {
    assert [op][1..] == [];
  }

  /** An operation is added at the end of its class, in the queue and in the history. */
  lemma OneAdded(added: seq<Operation>, taken: seq<Operation>, ops: seq<Operation>, op: Operation, c: bool)
    requires Sorted(ops) && Only(added, c) == Only(taken, c) + Only(ops, c)
    ensures Only(added + [op], c) == Only(taken, c) + Only(Placed(ops, op), c)
  {
    hide Only, Placed, Sorted;
    PlacedKeeps(ops, op);
    OnlyConcat(added, [op], c);
    OnlyOne(op, c);
  }

  /** Taking the first operation moves it from the queue to those taken, in its class. */
  lemma OneTaken(taken: seq<Operation>, ops: seq<Operation>)
    requires ops != []
    ensures forall c: bool :: Only(taken + [ops[0]], c) + Only(ops[1..], c) == Only(taken, c) + Only(ops, c)
  {
    assert [ops[0]][1..] == [];
    assert ops == [ops[0]] + ops[1..];
    OnlyConcat(taken, [ops[0]], true);
    OnlyConcat(taken, [ops[0]], false);
    OnlyConcat([ops[0]], ops[1..], true);
    OnlyConcat([ops[0]], ops[1..], false);
  }

  // ----- the pool

  /** `invoked`: FNumberOfInvoked; `waiters`: threads asleep in MWaitFor; `added`: operations queued
      since the last MEraseAll, and taken before; `taken`: in the order in which they were taken. */
  datatype Pool = Pool(ops: seq<Operation>, invoked: int, workers: seq<Worker>, waiters: nat, added: seq<Operation>, taken: seq<Operation>)

  /** A caller queues an operation, waits for the end, or erases all; thread i goes on, keeping the
      operation it has run or not; thread i wakes without being woken. */
  datatype Step = Add(op: Operation, wake: nat) | WaitFor | EraseAll | Go(i: nat, keep: bool, wake: nat) | Spurious(i: nat)

  function Start(threads: nat): Pool { Pool([], 0, seq(threads, _ => Idle), 0, [], []) }

  /** What MFinishOperation and MWaitFor look at. */
  predicate Drained(p: Pool) { p.ops == [] && p.invoked == 0 }

  function Queued(p: Pool, op: Operation, wake: nat): Pool {
    p.(ops := Placed(p.ops, op), added := p.added + [op], workers := WakeOne(p.workers, wake))
  }

  function Looks(p: Pool, i: nat): Pool
    requires i < |p.workers|
  {
    if p.ops == [] then p.(workers := p.workers[i := if p.workers[i].Woken? then Idle else Asleep])
    else p.(ops := p.ops[1..], invoked := p.invoked + 1, workers := p.workers[i := Running(p.ops[0])], taken := p.taken + [p.ops[0]])
  }

  function Ends(p: Pool, i: nat): Pool
    requires i < |p.workers|
  {
    var q := p.(workers := p.workers[i := Idle], invoked := p.invoked - 1);
    if Drained(q) then q.(waiters := 0) else q
  }

  function StepOf(p: Pool, step: Step): Pool {
    match step
    case Add(op, wake) => Queued(p, op, wake)
    case WaitFor => if Drained(p) then p else p.(waiters := p.waiters + 1)
    case EraseAll => p.(ops := [], added := p.taken)
    case Spurious(i) => if i < |p.workers| && p.workers[i].Asleep? then p.(workers := p.workers[i := Woken]) else p
    case Go(i, keep, wake) =>
      if i >= |p.workers| then p
      else match p.workers[i]
        case Idle => Looks(p, i)
        case Woken => Looks(p, i)
        case Asleep => p
        case Running(op) => p.(workers := p.workers[i := if keep then Keeping(op) else Ending])
        case Keeping(op) => Queued(p.(workers := p.workers[i := Ending]), op, wake)
        case Ending => Ends(p, i)
  }

  function RunOf(p: Pool, steps: seq<Step>): Pool {
    if |steps| == 0 then p else StepOf(RunOf(p, steps[..|steps| - 1]), steps[|steps| - 1])
  }

  /** Immediate operations first; each class taken in the order in which it was added; as many
      operations invoked as threads are busy; and while some thread sleeps, there is a thread awake
      and free for every queued operation. */
  ghost predicate Inv(p: Pool) {
    && Sorted(p.ops) && History(p)
    && p.invoked == Count(p.workers, Busy)
    && (Count(p.workers, Sleeping) > 0 ==> |p.ops| <= Count(p.workers, Ready))
  }

  ghost predicate History(p: Pool) {
    forall c: bool :: Only(p.added, c) == Only(p.taken, c) + Only(p.ops, c)
  }

  /** Nobody sleeps in MWaitFor while there is nothing left to do. */
  predicate NoneForgotten(p: Pool) { Drained(p) ==> p.waiters == 0 }

  lemma StartKeeps(threads: nat)
    ensures Inv(Start(threads)) && NoneForgotten(Start(threads)) && Drained(Start(threads))
  {
    var ws := Start(threads).workers;
    CountZero(ws, Sleeping);
    CountZero(ws, Busy);
  }

  lemma QueuedKeeps(p: Pool, op: Operation, wake: nat)
    requires Inv(p)
    ensures Inv(Queued(p, op, wake)) && !Drained(Queued(p, op, wake))
  {
    hide Only, Sorted, Front;
    WakeOneCounts(p.workers, wake);
    PlacedKeeps(p.ops, op);
    OneAdded(p.added, p.taken, p.ops, op, true);
    OneAdded(p.added, p.taken, p.ops, op, false);
    PlacedSize(p.ops, op);
  }

  lemma PlacedSize(ops: seq<Operation>, op: Operation)
    ensures |Placed(ops, op)| == |ops| + 1
  {
  }

  lemma LooksKeeps(p: Pool, i: nat)
    requires Inv(p) && i < |p.workers| && KindOf(p.workers[i]) == Ready
    ensures Inv(Looks(p, i)) && (NoneForgotten(p) ==> NoneForgotten(Looks(p, i)))
  {
    var w := Looks(p, i).workers[i];
    CountSet(p.workers, i, w, Ready);
    CountSet(p.workers, i, w, Busy);
    CountSet(p.workers, i, w, Sleeping);
    if p.ops != [] {
      TailKeeps(p.ops);
      OneTaken(p.taken, p.ops);
    }
  }

  lemma BusyKeeps(p: Pool, i: nat, w: Worker)
    requires Inv(p) && i < |p.workers| && KindOf(p.workers[i]) == Busy && (KindOf(w) == Busy || KindOf(w) == Ready)
    ensures Inv(p.(workers := p.workers[i := w], invoked := if KindOf(w) == Busy then p.invoked else p.invoked - 1))
  {
    CountSet(p.workers, i, w, Ready);
    CountSet(p.workers, i, w, Busy);
    CountSet(p.workers, i, w, Sleeping);
  }

  /** Every step keeps the invariant, and every step but MEraseAll leaves nobody forgotten; that one
      forgets the waiting threads exactly when no operation is invoked. */
  lemma StepKeeps(p: Pool, step: Step)
    requires Inv(p)
    ensures Inv(StepOf(p, step))
    ensures !step.EraseAll? && NoneForgotten(p) ==> NoneForgotten(StepOf(p, step))
    ensures step.EraseAll? ==> (NoneForgotten(StepOf(p, step)) <==> p.waiters == 0 || p.invoked > 0)
  {
    match step {
      case Add(op, wake) =>
        QueuedKeeps(p, op, wake);
      case WaitFor =>
      case EraseAll =>
        assert forall c: bool :: Only(p.taken, c) + [] == Only(p.taken, c);
      case Spurious(i) =>
        if i < |p.workers| && p.workers[i].Asleep? {
          CountSet(p.workers, i, Woken, Ready);
          CountSet(p.workers, i, Woken, Busy);
          CountSet(p.workers, i, Woken, Sleeping);
        }
      case Go(i, keep, wake) =>
        if i < |p.workers| {
          GoKeeps(p, i, keep, wake);
        }
    }
  }

  lemma GoKeeps(p: Pool, i: nat, keep: bool, wake: nat)
    requires Inv(p) && i < |p.workers|
    ensures Inv(StepOf(p, Go(i, keep, wake)))
    ensures NoneForgotten(p) ==> NoneForgotten(StepOf(p, Go(i, keep, wake)))
  {
    hide Inv, Queued, Looks;
    match p.workers[i] {
      case Idle =>
        LooksKeeps(p, i);
      case Woken =>
        LooksKeeps(p, i);
      case Asleep =>
      case Running(op) =>
        BusyKeeps(p, i, if keep then Keeping(op) else Ending);
      case Keeping(op) =>
        BusyKeeps(p, i, Ending);
        QueuedKeeps(p.(workers := p.workers[i := Ending]), op, wake);
      case Ending =>
        BusyKeeps(p, i, Idle);
        WaitersIrrelevant(p.(workers := p.workers[i := Idle], invoked := p.invoked - 1));
    }
  }

  lemma WaitersIrrelevant(p: Pool)
    requires Inv(p)
    ensures Inv(p.(waiters := 0))
  {
  }

  // ----- whole runs

  lemma {:induction false} RunKeeps(p: Pool, steps: seq<Step>)
    requires Inv(p)
    ensures Inv(RunOf(p, steps))
    ensures NoneForgotten(p) && (forall k :: 0 <= k < |steps| ==> !steps[k].EraseAll?) ==> NoneForgotten(RunOf(p, steps))
  {
    if |steps| > 0 {
      RunKeeps(p, steps[..|steps| - 1]);
      StepKeeps(RunOf(p, steps[..|steps| - 1]), steps[|steps| - 1]);
    }
  }

  /** After any run of a new pool: operations of each class were taken in the order in which they
      were added; when the queue is empty and the counter of invoked operations is zero, nothing is
      running or about to be queued again; and while an operation is queued and some thread sleeps, another one is awake and free. */
  lemma AfterAnyRun(threads: nat, steps: seq<Step>)
    ensures var p := RunOf(Start(threads), steps);
      (forall c: bool :: Only(p.taken, c) <= Only(p.added, c))
    ensures var p := RunOf(Start(threads), steps);
      p.ops == [] && p.invoked == 0 <==> p.ops == [] && forall i :: 0 <= i < |p.workers| ==> KindOf(p.workers[i]) != Busy
    ensures var p := RunOf(Start(threads), steps);
      p.ops != [] && (exists i :: 0 <= i < |p.workers| && p.workers[i].Asleep?) ==>
        exists i :: 0 <= i < |p.workers| && KindOf(p.workers[i]) == Ready
  {
    StartKeeps(threads);
    RunKeeps(Start(threads), steps);
    var p := RunOf(Start(threads), steps);
    CountZero(p.workers, Busy);
    CountZero(p.workers, Sleeping);
    CountZero(p.workers, Ready);
    forall c: bool ensures Only(p.taken, c) <= Only(p.added, c) {
      assert Only(p.added, c) == Only(p.taken, c) + Only(p.ops, c);
    }
  }

  /** Without MEraseAll nobody waits for an end that has come. */
  lemma WaitersAreWoken(threads: nat, steps: seq<Step>)
    requires forall k :: 0 <= k < |steps| ==> !steps[k].EraseAll?
    ensures NoneForgotten(RunOf(Start(threads), steps))
  {
    StartKeeps(threads);
    RunKeeps(Start(threads), steps);
  }

  /** One thread, one operation: somebody waits for the end, all is erased, and nobody is left to
      wake the one who waits. */
  lemma EraseAllForgets(op: Operation)
    ensures var p := StepOf(StepOf(StepOf(Start(1), Add(op, 0)), WaitFor), EraseAll); Drained(p) && p.waiters == 1
  {
    var p := StepOf(Start(1), Add(op, 0));
    StartKeeps(1);
    QueuedKeeps(Start(1), op, 0);
    assert !Drained(p) && p.invoked == 0;
  }

  // ----- the object

  class CThreadPool {
    var FOperations: seq<Operation>
    var cursor: nat                 // FCurrentOperationIterator, as a position in the list
    var FNumberOfInvoked: int
    var workers: seq<Worker>
    var waiters: nat
    ghost var added: seq<Operation>
    ghost var taken: seq<Operation>

    ghost function P(): Pool
      reads this
    {
      Pool(FOperations, FNumberOfInvoked, workers, waiters, added, taken)
    }

    /** The cursor is at the beginning or the end. */
    ghost predicate Valid()
      reads this
    {
      Inv(P()) && (cursor == 0 || cursor == |FOperations|)
    }

    constructor (threads: nat)
      ensures Valid() && P() == Start(threads)
    {
      FOperations, cursor, FNumberOfInvoked, waiters := [], 0, 0, 0;
      workers := seq(threads, _ => Idle);
      added, taken := [], [];
      new;
      StartKeeps(threads);
      assert workers == Start(threads).workers;
    }

    /** The place behind the immediate operations. */
    method BehindImmediate() returns (i: nat)
      ensures i == Front(FOperations)
    {
      i := 0;
      while i != |FOperations| && FOperations[i].immediate
        invariant i <= |FOperations| && forall j :: 0 <= j < i ==> FOperations[j].immediate
        decreases |FOperations| - i
      {
        i := i + 1;
      }
      FrontIs(FOperations, i);
    }

    /** MAdd: behind the other operations of its class, and one sleeping thread is woken. */
    method MAdd(op: Operation, wake: nat)
      requires Valid()
      modifies this
      ensures Valid() && P() == StepOf(old(P()), Add(op, wake))
      ensures Only(FOperations, op.immediate) == Only(old(FOperations), op.immediate) + [op]
      ensures Only(FOperations, !op.immediate) == Only(old(FOperations), !op.immediate)
      ensures workers == WakeOne(old(workers), wake) && FNumberOfInvoked == old(FNumberOfInvoked) && waiters == old(waiters)
    {
      hide Inv, Only, Front;
      QueuedKeeps(P(), op, wake);
      SortedNow();
      PlacedKeeps(FOperations, op);
      if op.immediate {
        var i := BehindImmediate();
        FOperations := FOperations[..i] + [op] + FOperations[i..];
        cursor := 0;
      } else {
        cursor := if cursor == |FOperations| then |FOperations| + 1 else cursor;
        FOperations := FOperations + [op];
      }
      added := added + [op];
      workers := WakeOne(workers, wake);
    }

    lemma SortedNow()
      requires Valid()
      ensures Sorted(FOperations)
    {
    }

    /** MNextOperation of thread i, up to its sleep or to its return: the first operation, or none. */
    method MNextOperation(i: nat, ghost keep: bool, ghost wake: nat) returns (got: bool)
      requires Valid() && i < |workers| && (workers[i].Idle? || workers[i].Woken?)
      modifies this
      ensures Valid() && P() == StepOf(old(P()), Go(i, keep, wake))
      ensures got <==> old(FOperations) != []
      ensures got ==> workers[i] == Running(old(FOperations)[0]) && FNumberOfInvoked == old(FNumberOfInvoked) + 1
      ensures got ==> FOperations == old(FOperations)[1..] && taken == old(taken) + [old(FOperations)[0]]
      ensures !got ==> workers[i] == (if old(workers[i]).Woken? then Idle else Asleep) && FNumberOfInvoked == old(FNumberOfInvoked)
    {
      hide Inv;
      LooksKeeps(P(), i);
      if FOperations == [] {
        workers := workers[i := if workers[i].Woken? then Idle else Asleep];
        return false;
      }
      if cursor == |FOperations| {
        cursor := 0;
      }
      var op := FOperations[cursor];
      FNumberOfInvoked := FNumberOfInvoked + 1;
      assert FOperations[..cursor] + FOperations[cursor + 1..] == FOperations[1..];
      FOperations := FOperations[..cursor] + FOperations[cursor + 1..];
      workers := workers[i := Running(op)];
      taken := taken + [op];
      got := true;
    }

    /** The operation of thread i has been run: kept or not. */
    method Finished(i: nat, keep: bool, ghost wake: nat)
      requires Valid() && i < |workers| && workers[i].Running?
      modifies this
      ensures Valid() && P() == StepOf(old(P()), Go(i, keep, wake))
      ensures workers == old(workers)[i := if keep then Keeping(old(workers[i]).op) else Ending]
      ensures FOperations == old(FOperations) && FNumberOfInvoked == old(FNumberOfInvoked)
    {
      hide Inv;
      var w := if keep then Keeping(workers[i].op) else Ending;
      BusyKeeps(P(), i, w);
      workers := workers[i := w];
    }

    /** A kept operation is queued again, before its end is reported. */
    method Requeue(i: nat, ghost keep: bool, wake: nat)
      requires Valid() && i < |workers| && workers[i].Keeping?
      modifies this
      ensures Valid() && P() == StepOf(old(P()), Go(i, keep, wake))
      ensures FOperations != [] && FNumberOfInvoked == old(FNumberOfInvoked)
      ensures Only(FOperations, old(workers[i]).op.immediate) == Only(old(FOperations), old(workers[i]).op.immediate) + [old(workers[i]).op]
      ensures i < |workers| && workers[i] == Ending
    {
      hide Inv, Placed;
      var op := workers[i].op;
      BusyKeeps(P(), i, Ending);
      workers := workers[i := Ending];
      PlacedSize(FOperations, op);
      QueuedKeeps(P(), op, wake);
      WakeFirstKeeps(workers, i);
      MAdd(op, wake);
    }

    /** MFinishOperation: wakes those who wait for the end when nothing is left. */
    method MFinishOperation(i: nat, ghost keep: bool, ghost wake: nat)
      requires Valid() && i < |workers| && workers[i].Ending?
      modifies this
      ensures Valid() && P() == StepOf(old(P()), Go(i, keep, wake)) && NoneForgotten(P())
      ensures workers == old(workers)[i := Idle] && FNumberOfInvoked == old(FNumberOfInvoked) - 1 && FOperations == old(FOperations)
      ensures waiters == if FOperations == [] && FNumberOfInvoked == 0 then 0 else old(waiters)
    {
      hide Inv;
      BusyKeeps(P(), i, Idle);
      WaitersIrrelevant(P().(workers := workers[i := Idle], invoked := FNumberOfInvoked - 1));
      FNumberOfInvoked := FNumberOfInvoked - 1;
      workers := workers[i := Idle];
      if FNumberOfInvoked == 0 && FOperations == [] {
        waiters := 0;
      }
    }

    /** MWaitFor: returns at once when nothing is left and sleeps otherwise. */
    method MWaitFor() returns (now: bool)
      requires Valid()
      modifies this
      ensures Valid() && P() == StepOf(old(P()), WaitFor)
      ensures now <==> FOperations == [] && FNumberOfInvoked == 0
      ensures waiters == old(waiters) + if now then 0 else 1
    {
      StepKeeps(P(), WaitFor);
      hide Inv;
      now := FNumberOfInvoked == 0 && FOperations == [];
      if !now {
        waiters := waiters + 1;
      }
    }

    /** MEraseAll: it wakes nobody. */
    method MEraseAll()
      requires Valid()
      modifies this
      ensures Valid() && P() == StepOf(old(P()), EraseAll)
      ensures FOperations == [] && waiters == old(waiters) && workers == old(workers) && FNumberOfInvoked == old(FNumberOfInvoked)
      ensures NoneForgotten(P()) <==> waiters == 0 || FNumberOfInvoked > 0
    {
      StepKeeps(P(), EraseAll);
      hide Inv;
      FOperations, cursor, added := [], 0, taken;
    }

    /** Any interleaving of callers and pool threads. */
    method Run(steps: seq<Step>)
      requires Valid()
      modifies this
      ensures Valid() && P() == RunOf(old(P()), steps)
    {
      hide Inv;
      for k := 0 to |steps|
        invariant Valid() && P() == RunOf(old(P()), steps[..k])
      {
        assert steps[..k + 1][..k] == steps[..k];
        Take(steps[k]);
      }
      assert steps[..|steps|] == steps;
    }

    method Take(step: Step)
      requires Valid()
      modifies this
      ensures Valid() && P() == StepOf(old(P()), step)
    {
      hide Inv;
      match step {
        case Add(op, wake) =>
          MAdd(op, wake);
        case WaitFor =>
          var now := MWaitFor();
        case EraseAll =>
          MEraseAll();
        case Spurious(i) =>
          if i < |workers| && workers[i].Asleep? {
            StepKeeps(P(), step);
            workers := workers[i := Woken];
          }
        case Go(i, keep, wake) =>
          if i < |workers| {
            match workers[i] {
              case Idle =>
                var got := MNextOperation(i, keep, wake);
              case Woken =>
                var got := MNextOperation(i, keep, wake);
              case Asleep =>
              case Running(_) =>
                Finished(i, keep, wake);
              case Keeping(_) =>
                Requeue(i, keep, wake);
              case Ending =>
                MFinishOperation(i, keep, wake);
            }
          }
      }
    }
  }
}
