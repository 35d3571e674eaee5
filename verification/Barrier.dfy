/**
  The reusable barrier: exactly FBarrier threads call MWait again and again; each step is what one
  thread does while it holds the mutex.
*/
module Barrier {

  /** A thread's position: outside MWait, or in its wait loop with my_phase; `blocked`: asleep in
      the condition variable.  `rounds`: how many of its calls have returned. */
  datatype Thread = Thread(inside: bool, phase: int, blocked: bool, rounds: nat)

  /** Threads waiting for the current phase to end. */
  function Arrived(ts: seq<Thread>, flag: int): nat {
    if ts == [] then 0 else (if ts[0].inside && ts[0].phase == flag then 1 else 0) + Arrived(ts[1..], flag)
  }

  lemma {:induction false} ArrivedSet(ts: seq<Thread>, flag: int, i: nat, t: Thread)
    requires i < |ts|
    ensures Arrived(ts[i := t], flag) + Arrived([ts[i]], flag) == Arrived(ts, flag) + Arrived([t], flag)
  {
    assert [ts[i]][1..] == [] && [t][1..] == [];
    if i == 0 {
      assert ts[0 := t][1..] == ts[1..];
    } else {
      assert ts[i := t][1..] == ts[1..][i - 1 := t];
      ArrivedSet(ts[1..], flag, i - 1, t);
    }
  }

  lemma {:induction false} ArrivedAll(ts: seq<Thread>, flag: int)
    ensures Arrived(ts, flag) <= |ts|
    ensures Arrived(ts, flag) == |ts| <==> forall t :: t in ts ==> t.inside && t.phase == flag
  {
    if ts != [] {
      ArrivedAll(ts[1..], flag);
      assert ts == [ts[0]] + ts[1..];
    }
  }

  /** When only thread i is missing, every other one is waiting in this phase. */
  lemma OthersArrived(ts: seq<Thread>, flag: int, i: nat)
    requires i < |ts| && !ts[i].inside && Arrived(ts, flag) + 1 == |ts|
    ensures forall j :: 0 <= j < |ts| && j != i ==> ts[j].inside && ts[j].phase == flag
  {
    var filled := ts[i := Thread(true, flag, false, 0)];
    ArrivedSet(ts, flag, i, filled[i]);
    ArrivedAll(filled, flag);
    forall j | 0 <= j < |ts| && j != i ensures ts[j].inside && ts[j].phase == flag {
      assert filled[j] in filled && filled[j] == ts[j];
    }
  }

  lemma {:induction false} NoneArrived(ts: seq<Thread>, flag: int)
    requires forall t :: t in ts ==> !(t.inside && t.phase == flag)
    ensures Arrived(ts, flag) == 0
  {
    if ts != [] {
      NoneArrived(ts[1..], flag);
    }
  }

  /** With `gen` rounds over: a thread outside has completed them all, one that waits in the current
      phase too, and one that still has to notice the end of its phase all but the last; only
      threads of the current phase sleep. */
  ghost predicate ThreadOk(t: Thread, gen: nat) {
    if !t.inside then t.rounds == gen && !t.blocked
    else if t.phase == gen % 2 then t.rounds == gen
    else t.phase == 1 - gen % 2 && t.rounds + 1 == gen && !t.blocked
  }

  /** Steps that threads can still take before the round must end. */
  function Slack(ts: seq<Thread>, flag: int): nat {
    if ts == [] then 0
    else (if !ts[0].inside then 1 else if ts[0].phase != flag then 2 else 0) + Slack(ts[1..], flag)
  }

  lemma {:induction false} SlackSet(ts: seq<Thread>, flag: int, i: nat, t: Thread)
    requires i < |ts|
    ensures Slack(ts[i := t], flag) + Slack([ts[i]], flag) == Slack(ts, flag) + Slack([t], flag)
  {
    assert [ts[i]][1..] == [] && [t][1..] == [];
    if i == 0 {
      assert ts[0 := t][1..] == ts[1..];
    } else {
      assert ts[i := t][1..] == ts[1..][i - 1 := t];
      SlackSet(ts[1..], flag, i - 1, t);
    }
  }

  lemma {:induction false} SlackBound(ts: seq<Thread>, flag: int)
    ensures Slack(ts, flag) <= 2 * |ts|
  {
    if ts != [] {
      SlackBound(ts[1..], flag);
    }
  }

  function Awake(ts: seq<Thread>): (us: seq<Thread>)
    ensures |us| == |ts|
    ensures forall i :: 0 <= i < |ts| ==> us[i] == ts[i].(blocked := false)
  {
    seq(|ts|, i requires 0 <= i < |ts| => ts[i].(blocked := false))
  }

  // ----- steps

  datatype State = State(threads: seq<Thread>, flag: int, gen: nat)

  /** Thread i goes on: it calls MWait, as the last one ending the round and waking all, or it looks
      whether its phase is over.  Other numbers are no threads. */
  function StepOf(s: State, i: nat): State {
    if i >= |s.threads| then s
    else
      var me := s.threads[i];
      if me.inside then s.(threads := s.threads[i := if me.phase == s.flag then me.(blocked := true) else Thread(false, 0, false, me.rounds + 1)])
      else if Arrived(s.threads, s.flag) + 1 == |s.threads| then
        State(Awake(s.threads)[i := me.(rounds := me.rounds + 1)], 1 - s.flag, s.gen + 1)
      else s.(threads := s.threads[i := Thread(true, s.flag, true, me.rounds)])
  }

  function RunOf(s: State, schedule: seq<nat>): State {
    if |schedule| == 0 then s else StepOf(RunOf(s, schedule[..|schedule| - 1]), schedule[|schedule| - 1])
  }

  /** The step does more than to put a thread to sleep again. */
  predicate Useful(s: State, i: nat) {
    i < |s.threads| && !(s.threads[i].inside && s.threads[i].phase == s.flag)
  }

  function UsefulSteps(s: State, schedule: seq<nat>): nat {
    if |schedule| == 0 then 0
    else
      var n := |schedule| - 1;
      UsefulSteps(s, schedule[..n]) + if Useful(RunOf(s, schedule[..n]), schedule[n]) then 1 else 0
  }

  ghost predicate Inv(s: State) {
    && |s.threads| > 0 && s.flag == s.gen % 2
    && Arrived(s.threads, s.flag) < |s.threads|
    && forall t :: t in s.threads ==> ThreadOk(t, s.gen)
  }

  function Start(n: nat): State { State(seq(n, _ => Thread(false, 0, false, 0)), 0, 0) }

  lemma StartKeeps(n: nat)
    requires n > 0
    ensures Inv(Start(n))
  {
    NoneArrived(Start(n).threads, 0);
  }

  /** The step that ends a round: everybody else was waiting in it. */
  lemma LastEnters(s: State, i: nat)
    requires Inv(s) && i < |s.threads| && !s.threads[i].inside && Arrived(s.threads, s.flag) + 1 == |s.threads|
    ensures Inv(StepOf(s, i)) && StepOf(s, i).gen == s.gen + 1
    ensures Arrived(StepOf(s, i).threads, StepOf(s, i).flag) == 0
  {
    var next := StepOf(s, i);
    OthersArrived(s.threads, s.flag, i);
    assert s.threads[i] in s.threads;
    forall t | t in next.threads ensures ThreadOk(t, next.gen) && !(t.inside && t.phase == next.flag) {
      var j :| 0 <= j < |next.threads| && next.threads[j] == t;
      assert s.threads[j] in s.threads;
    }
    NoneArrived(next.threads, next.flag);
  }

  /** Every step keeps the invariant, and a useful one that does not end the round brings its end
      nearer. */
  lemma StepKeeps(s: State, i: nat)
    requires Inv(s)
    ensures Inv(StepOf(s, i)) && |StepOf(s, i).threads| == |s.threads|
    ensures var next := StepOf(s, i);
      if next.gen == s.gen then Slack(next.threads, next.flag) + (if Useful(s, i) then 1 else 0) <= Slack(s.threads, s.flag)
      else next.gen == s.gen + 1 && Slack(next.threads, next.flag) < 2 * |s.threads|
  {
    if i < |s.threads| {
      var me := s.threads[i];
      assert me in s.threads;
      if !me.inside && Arrived(s.threads, s.flag) + 1 == |s.threads| {
        LastEnters(s, i);
        var next := StepOf(s, i);
        SlackBound(next.threads, next.flag);
        OneOutside(next.threads, next.flag, i);
      } else {
        var next := StepOf(s, i);
        ArrivedSet(s.threads, s.flag, i, next.threads[i]);
        SlackSet(s.threads, s.flag, i, next.threads[i]);
        assert forall t :: t in next.threads ==> t in s.threads || t == next.threads[i];
      }
    }
  }

  lemma OneOutside(ts: seq<Thread>, flag: int, i: nat)
    requires i < |ts| && !ts[i].inside
    ensures Slack(ts, flag) < 2 * |ts|
  {
    var full := ts[i := Thread(true, flag + 1, false, 0)];
    SlackSet(ts, flag, i, full[i]);
    SlackBound(full, flag);
  }

  // ----- whole runs

  /** Under any schedule, the useful steps made are bounded by those that were left and two for each
      thread and round completed; so more than two for each thread complete a round. */
  lemma {:induction false} RunProgresses(s: State, schedule: seq<nat>)
    requires Inv(s)
    ensures var end := RunOf(s, schedule);
      Inv(end) && |end.threads| == |s.threads| && end.gen >= s.gen &&
      UsefulSteps(s, schedule) + Slack(end.threads, end.flag) <= Slack(s.threads, s.flag) + 2 * |s.threads| * (end.gen - s.gen)
    ensures UsefulSteps(s, schedule) > 2 * |s.threads| ==> RunOf(s, schedule).gen > s.gen
  {
    hide StepOf, Inv, Slack;
    if |schedule| > 0 {
      var n := |schedule| - 1;
      var before := RunOf(s, schedule[..n]);
      RunProgresses(s, schedule[..n]);
      StepKeeps(before, schedule[n]);
      OneRoundMore(2 * |s.threads|, before.gen - s.gen);
    }
    SlackBound(s.threads, s.flag);
    assert RunOf(s, schedule).gen == s.gen ==> 2 * |s.threads| * (RunOf(s, schedule).gen - s.gen) == 0;
  }

  lemma OneRoundMore(a: nat, rounds: nat)
    ensures a * (rounds + 1) == a * rounds + a
  {
  }

  /** How many calls of MWait thread i has made. */
  function Calls(s: State, i: nat): nat
    requires i < |s.threads|
  {
    s.threads[i].rounds + if s.threads[i].inside then 1 else 0
  }

  /** At the end of any run from a new barrier nobody has left a round that another has not entered,
      and no two threads' completed rounds differ by more than one. */
  lemma RoundsAreSeparate(n: nat, schedule: seq<nat>, i: nat, j: nat)
    requires n > 0 && i < n && j < n
    ensures var end := RunOf(Start(n), schedule);
      |end.threads| == n && end.threads[i].rounds <= Calls(end, j) && end.threads[i].rounds <= end.threads[j].rounds + 1
  {
    StartKeeps(n);
    RunProgresses(Start(n), schedule);
    var end := RunOf(Start(n), schedule);
    assert end.threads[i] in end.threads && end.threads[j] in end.threads;
  }

  /** At the end of any run some thread can go on to a useful step without being woken, and whoever
      sleeps belongs to the current phase: one bit for the phase is enough. */
  lemma NeverStuck(n: nat, schedule: seq<nat>)
    requires n > 0
    ensures var end := RunOf(Start(n), schedule);
      (exists i :: 0 <= i < n == |end.threads| && Useful(end, i) && !end.threads[i].blocked)
    ensures var end := RunOf(Start(n), schedule);
      forall i :: 0 <= i < |end.threads| && end.threads[i].blocked ==> end.threads[i].inside && end.threads[i].phase == end.flag
  {
    StartKeeps(n);
    RunProgresses(Start(n), schedule);
    var end := RunOf(Start(n), schedule);
    ArrivedAll(end.threads, end.flag);
    var t :| t in end.threads && !(t.inside && t.phase == end.flag);
    var i :| 0 <= i < |end.threads| && end.threads[i] == t;
    assert Useful(end, i);
    forall k | 0 <= k < |end.threads| && end.threads[k].blocked ensures end.threads[k].inside && end.threads[k].phase == end.flag {
      assert end.threads[k] in end.threads;
    }
  }

  // ----- the object

  class CBarrier {
    const FBarrier: nat
    var FNumThread: nat
    var FStateFlag: int
    var FReleaseFlag: int
    var threads: seq<Thread>
    ghost var gen: nat   // rounds completed by the barrier

    ghost function S(): State
      reads this
    {
      State(threads, FStateFlag, gen)
    }

    ghost predicate Valid()
      reads this
    {
      Inv(S()) && FBarrier == |threads| && FReleaseFlag == FStateFlag && FNumThread == Arrived(threads, FStateFlag)
    }

    constructor (aVal: nat)
      requires aVal > 0
      ensures Valid() && S() == Start(aVal)
    {
      FBarrier := aVal;
      FNumThread, FStateFlag, FReleaseFlag := 0, 0, 0;
      threads := seq(aVal, _ => Thread(false, 0, false, 0));
      gen := 0;
      new;
      StartKeeps(aVal);
      NoneArrived(threads, 0);
      assert threads == Start(aVal).threads;
    }

    /** A thread calls MWait: as the last one it ends the round and returns, otherwise it goes to
        sleep in the condition variable. */
    method Enter(i: nat) returns (returned: bool, result: bool)
      requires Valid() && i < |threads| && !threads[i].inside
      modifies this
      ensures Valid() && S() == StepOf(old(S()), i)
      ensures returned <==> old(FNumThread) + 1 == FBarrier
      ensures returned ==> result && gen == old(gen) + 1 && !threads[i].inside && threads[i].rounds == old(threads[i].rounds) + 1
      ensures returned ==> forall j :: 0 <= j < |threads| && j != i ==> old(threads[j].inside) && !threads[j].blocked
      ensures !returned ==> gen == old(gen) && threads[i].blocked
    {
      hide Inv;
      StepKeeps(S(), i);
      var me := threads[i];
      var myPhase := FStateFlag;
      FNumThread := FNumThread + 1;
      if FNumThread == FBarrier {
        LastEnters(S(), i);
        OthersArrived(threads, myPhase, i);
        FNumThread := 0;
        FStateFlag := 1 - myPhase;
        FReleaseFlag := FStateFlag;
        threads := Awake(threads)[i := me.(rounds := me.rounds + 1)];
        gen := gen + 1;
        return true, FReleaseFlag == FStateFlag;
      }
      ArrivedSet(threads, myPhase, i, Thread(true, myPhase, true, me.rounds));
      threads := threads[i := Thread(true, myPhase, true, me.rounds)];
      return false, false;
    }

    /** A waiting thread is scheduled, woken by the broadcast or spuriously: it returns if its phase
        is over and sleeps on otherwise. */
    method Wake(i: nat) returns (returned: bool, result: bool)
      requires Valid() && i < |threads| && threads[i].inside
      modifies this
      ensures Valid() && S() == StepOf(old(S()), i)
      ensures returned <==> old(threads[i]).phase != FStateFlag
      ensures returned ==> result && threads[i] == Thread(false, 0, false, old(threads[i]).rounds + 1)
      ensures !returned ==> threads[i] == old(threads[i]).(blocked := true)
    {
      StepKeeps(S(), i);
      var me := threads[i];
      if FStateFlag == me.phase {
        ArrivedSet(threads, FStateFlag, i, me.(blocked := true));
        threads := threads[i := me.(blocked := true)];
        returned, result := false, false;
      } else {
        ArrivedSet(threads, FStateFlag, i, Thread(false, 0, false, me.rounds + 1));
        threads := threads[i := Thread(false, 0, false, me.rounds + 1)];
        returned, result := true, FReleaseFlag == FStateFlag;
      }
    }

    /** Any schedule. */
    method Run(schedule: seq<nat>)
      requires Valid()
      modifies this
      ensures Valid() && S() == RunOf(old(S()), schedule)
    {
      hide Inv, StepOf;
      for k := 0 to |schedule|
        invariant Valid() && S() == RunOf(old(S()), schedule[..k])
      {
        assert schedule[..k + 1][..k] == schedule[..k];
        var i := schedule[k];
        NoThread(S(), i);
        if i < |threads| {
          if threads[i].inside {
            var returned, result := Wake(i);
          } else {
            var returned, result := Enter(i);
          }
        }
      }
      assert schedule[..|schedule|] == schedule;
    }
  }

  lemma NoThread(s: State, i: nat)
    ensures i >= |s.threads| ==> StepOf(s, i) == s
  {
  }
}
