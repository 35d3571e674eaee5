/**
  The condition variable over a manual-reset event: waiters carry the generation in which they
  registered, releases are counted.  A step is one critical section; waits have no time limit.
*/
module Condvar {

  /** `Enter`: a thread registers; `Recheck`: its wait for the event has ended, though the event may
      have been reset since. */
  datatype Step = Enter(t: nat) | Recheck(t: nat) | Signal | Broadcast

  /** `waiters`: the local _generation of each thread inside MWait; `granted`: releases handed out so
      far; `returned`: waits that have returned. */
  datatype State = State(waiters: map<nat, int>, releases: int, gen: int, event: bool, granted: int, returned: int)

  function Start(): State { State(map[], 0, 0, false, 0, 0) }

  /** The waiters that registered before the last notice. */
  function Old(waiters: map<nat, int>, gen: int): set<nat> {
    set t | t in waiters && waiters[t] != gen
  }

  function StepOf(s: State, step: Step): State {
    match step
    case Enter(t) => if t in s.waiters then s else s.(waiters := s.waiters[t := s.gen])
    case Recheck(t) => if Leaves(s, t) then Left(s, t) else s
    case Signal => if |s.waiters| > s.releases then Noticed(s, s.releases + 1) else s
    case Broadcast => if |s.waiters| > 0 then Noticed(s, |s.waiters|) else s
  }

  predicate Leaves(s: State, t: nat) { t in s.waiters && s.releases > 0 && s.waiters[t] != s.gen }

  function Left(s: State, t: nat): State {
    s.(waiters := s.waiters - {t}, releases := s.releases - 1, event := s.releases > 1, returned := s.returned + 1)
  }

  function Noticed(s: State, releases: int): State {
    s.(releases := releases, gen := s.gen + 1, event := true, granted := s.granted + (releases - s.releases))
  }

  /** A signal or broadcast that finds somebody to release. */
  predicate Notice(s: State, step: Step) {
    (step.Signal? && |s.waiters| > s.releases) || (step.Broadcast? && |s.waiters| > 0)
  }

  function RunOf(s: State, steps: seq<Step>): State {
    if |steps| == 0 then s else StepOf(RunOf(s, steps[..|steps| - 1]), steps[|steps| - 1])
  }

  // ----- sets of waiters

  lemma {:induction false} SubsetSize(a: set<nat>, b: set<nat>)
    requires a <= b
    ensures |a| <= |b|
  {
    if t :| t in a {
      SubsetSize(a - {t}, b - {t});
    }
  }

  lemma OldBound(waiters: map<nat, int>, gen: int)
    ensures |Old(waiters, gen)| <= |waiters|
  {
    SubsetSize(Old(waiters, gen), waiters.Keys);
    assert |waiters.Keys| == |waiters|;
  }

  lemma OldWithNew(waiters: map<nat, int>, gen: int, t: nat)
    requires t !in waiters
    ensures Old(waiters[t := gen], gen) == Old(waiters, gen) && |waiters[t := gen]| == |waiters| + 1
  {
    assert (waiters[t := gen]).Keys == waiters.Keys + {t};
    assert |waiters[t := gen].Keys| == |waiters[t := gen]| && |waiters.Keys| == |waiters|;
  }

  lemma OldWithout(waiters: map<nat, int>, gen: int, t: nat)
    requires t in waiters && waiters[t] != gen
    ensures |Old(waiters - {t}, gen)| == |Old(waiters, gen)| - 1 && |waiters - {t}| == |waiters| - 1
  {
    assert Old(waiters - {t}, gen) == Old(waiters, gen) - {t};
    assert (waiters - {t}).Keys == waiters.Keys - {t};
    assert |waiters.Keys| == |waiters| && |(waiters - {t}).Keys| == |waiters - {t}|;
  }

  /** Raising the generation makes every waiter an old one. */
  lemma AllOld(waiters: map<nat, int>, gen: int)
    requires forall t :: t in waiters ==> waiters[t] < gen
    ensures |Old(waiters, gen)| == |waiters|
  {
    assert Old(waiters, gen) == waiters.Keys;
    assert |waiters.Keys| == |waiters|;
  }

  // ----- the invariant

  /** A release waits for an old waiter, the event is set exactly while one is left, and every
      release handed out was used by one return or is left. */
  ghost predicate Inv(s: State) {
    && 0 <= s.releases <= |Old(s.waiters, s.gen)|
    && (s.event <==> s.releases > 0)
    && (forall t :: t in s.waiters ==> s.waiters[t] <= s.gen)
    && s.granted == s.returned + s.releases
  }

  /** Every old waiter has a release of its own: none of them can be left behind. */
  ghost predicate Reserved(s: State) { s.releases == |Old(s.waiters, s.gen)| }

  /** What each step makes of the reservation: a broadcast restores it, a signal that grants keeps
      or restores it exactly when it serves the last waiter without a release, all else keeps it. */
  lemma StepKeeps(s: State, step: Step)
    requires Inv(s)
    ensures Inv(StepOf(s, step))
    ensures Reserved(StepOf(s, step)) <==> if Notice(s, step) then Serves(s, step) else Reserved(s)
  {
    hide Old;
    OldBound(s.waiters, s.gen);
    match step {
      case Enter(t) =>
        if t !in s.waiters {
          OldWithNew(s.waiters, s.gen, t);
        }
      case Recheck(t) =>
        if Leaves(s, t) {
          OldWithout(s.waiters, s.gen, t);
        }
      case Signal =>
        AllOld(s.waiters, s.gen + 1);
      case Broadcast =>
        AllOld(s.waiters, s.gen + 1);
    }
  }

  /** The notice leaves no waiter without a release. */
  predicate Serves(s: State, step: Step) { step.Broadcast? || |s.waiters| == s.releases + 1 }

  lemma StartKeeps()
    ensures Inv(Start()) && |Start().waiters| == 0
    ensures forall t: nat :: t !in Start().waiters
  {
    hide Old;
    OldBound(Start().waiters, 0);
  }

  // ----- whole runs

  /** In every run releases never exceed the waiters they are for, the event is set exactly while one
      is left, and returns never exceed the releases granted. */
  lemma {:induction false} RunKeeps(s: State, steps: seq<Step>)
    requires Inv(s)
    ensures Inv(RunOf(s, steps))
    ensures RunOf(s, steps).gen >= s.gen
  {
    if |steps| > 0 {
      RunKeeps(s, steps[..|steps| - 1]);
      StepKeeps(RunOf(s, steps[..|steps| - 1]), steps[|steps| - 1]);
    }
  }

  /** The place of the last notice in a run, or -1. */
  function LastNotice(s: State, steps: seq<Step>): (k: int)
    ensures -1 <= k < |steps|
  {
    if |steps| == 0 then -1
    else
      var n := |steps| - 1;
      if Notice(RunOf(s, steps[..n]), steps[n]) then n else LastNotice(s, steps[..n])
  }

  /** LastNotice is what its name says. */
  lemma {:induction false} LastNoticeIs(s: State, steps: seq<Step>)
    ensures var k := LastNotice(s, steps); k >= 0 ==> Notice(RunOf(s, steps[..k]), steps[k])
    ensures forall j :: LastNotice(s, steps) < j < |steps| ==> !Notice(RunOf(s, steps[..j]), steps[j])
  {
    hide StepOf, Notice, RunOf;
    if |steps| > 0 {
      var n := |steps| - 1;
      var init := steps[..n];
      LastNoticeIs(s, init);
      var k := LastNotice(s, init);
      assert k >= 0 ==> init[..k] == steps[..k];
      forall j | LastNotice(s, steps) < j < |steps| ensures !Notice(RunOf(s, steps[..j]), steps[j]) {
        if j < n {
          assert init[..j] == steps[..j] && init[j] == steps[j];
        }
      }
    }
  }

  /** The promise of a broadcast at the end of a run: every old waiter has a release of its own if
      and only if the last notice was a broadcast, or a signal that served the last waiter without a
      release; without any notice, if and only if it was so at the start. */
  lemma {:induction false} PromiseKept(s: State, steps: seq<Step>)
    requires Inv(s)
    ensures var k := LastNotice(s, steps);
      Reserved(RunOf(s, steps)) <==> if k == -1 then Reserved(s) else Serves(RunOf(s, steps[..k]), steps[k])
  {
    hide StepOf, Notice, Inv, Reserved, Serves;
    if |steps| > 0 {
      var n := |steps| - 1;
      var init := steps[..n];
      RunKeeps(s, init);
      StepKeeps(RunOf(s, init), steps[n]);
      PromiseKept(s, init);
      var k := LastNotice(s, init);
      assert k >= 0 ==> init[..k] == steps[..k] && init[k] == steps[k];
    }
  }

  /** With every old waiter served, each of them leaves when it looks next, whoever left before. */
  lemma ServedWaiterLeaves(s: State, t: nat)
    requires Inv(s) && Reserved(s) && t in Old(s.waiters, s.gen)
    ensures StepOf(s, Recheck(t)) == Left(s, t) && Reserved(Left(s, t))
  {
    StepKeeps(s, Recheck(t));
    assert |Old(s.waiters, s.gen)| > 0;
  }

  /** A waiter that is not served can be left behind by the others: when they have all left first,
      it finds no release. */
  lemma {:induction false} UnservedWaiterStays(s: State, t: nat, others: set<nat>) returns (steps: seq<Step>)
    requires Inv(s) && !Reserved(s) && t in Old(s.waiters, s.gen)
    requires others == Old(s.waiters, s.gen) - {t}
    ensures forall k :: 0 <= k < |steps| ==> steps[k].Recheck? && steps[k].t != t
    ensures var end := RunOf(s, steps); t in end.waiters && !Leaves(end, t)
    decreases |others|
  {
    if s.releases == 0 {
      steps := [];
    } else {
      assert |others| == |Old(s.waiters, s.gen)| - 1;
      assert others != {} by {
        assert |others| > 0;
      }
      var u :| u in others;
      var next := StepOf(s, Recheck(u));
      StepKeeps(s, Recheck(u));
      assert Old(next.waiters, next.gen) == Old(s.waiters, s.gen) - {u};
      var rest := UnservedWaiterStays(next, t, others - {u});
      steps := [Recheck(u)] + rest;
      RunFromFirst(s, Recheck(u), rest);
    }
  }

  lemma {:induction false} RunFromFirst(s: State, first: Step, rest: seq<Step>)
    ensures RunOf(s, [first] + rest) == RunOf(StepOf(s, first), rest)
  {
    var all := [first] + rest;
    if |rest| == 0 {
      assert all == [first] && all[..0] == [];
      assert RunOf(s, all) == StepOf(RunOf(s, all[..0]), all[0]);
    } else {
      var n := |rest| - 1;
      assert all[..n + 1] == [first] + rest[..n];
      RunFromFirst(s, first, rest[..n]);
    }
  }

  // ----- who returns was noticed after it had registered

  /** The registration of a thread that is inside at the end of a run and was not at the start. */
  lemma {:induction false} Registration(s: State, steps: seq<Step>, t: nat) returns (i: nat)
    requires t !in s.waiters && t in RunOf(s, steps).waiters
    ensures i < |steps| && steps[i] == Enter(t) && t !in RunOf(s, steps[..i]).waiters
    ensures RunOf(s, steps).waiters[t] == RunOf(s, steps[..i]).gen
  {
    var n := |steps| - 1;
    var before := RunOf(s, steps[..n]);
    if t in before.waiters {
      i := Registration(s, steps[..n], t);
      assert steps[..n][..i] == steps[..i];
    } else {
      i := n;
    }
  }

  lemma GenKept(s: State, step: Step)
    ensures !Notice(s, step) ==> StepOf(s, step).gen == s.gen
  {
  }

  lemma {:induction false} NoticeBetween(s: State, steps: seq<Step>, i: nat) returns (j: nat)
    requires i <= |steps| && RunOf(s, steps[..i]).gen < RunOf(s, steps).gen
    ensures i <= j < |steps| && Notice(RunOf(s, steps[..j]), steps[j])
  {
    hide StepOf, Notice;
    assert steps[..|steps|] == steps;
    var n := |steps| - 1;
    GenKept(RunOf(s, steps[..n]), steps[n]);
    if Notice(RunOf(s, steps[..n]), steps[n]) {
      j := n;
    } else {
      assert steps[..n][..i] == steps[..i];
      j := NoticeBetween(s, steps[..n], i);
      assert steps[..n][..j] == steps[..j];
    }
  }

  /** A thread that can return at the end of a run registered in it, and after that somebody
      signalled or broadcast. */
  lemma ReturnWasNoticed(s: State, steps: seq<Step>, t: nat) returns (i: nat, j: nat)
    requires Inv(s) && t !in s.waiters && Leaves(RunOf(s, steps), t)
    ensures i < j < |steps| && steps[i] == Enter(t) && t !in RunOf(s, steps[..i]).waiters
    ensures Notice(RunOf(s, steps[..j]), steps[j])
  {
    RunKeeps(s, steps);
    i := Registration(s, steps, t);
    j := NoticeBetween(s, steps, i);
    assert steps[j] != steps[i];
  }

  /** No release is lost: while one is left the event is set and some waiter can use it. */
  lemma ReleasesAreUsable(s: State)
    requires Inv(s)
    ensures s.releases > 0 <==> exists t :: Leaves(s, t)
    ensures s.releases > 0 ==> s.event
  {
    if s.releases > 0 {
      assert Old(s.waiters, s.gen) != {} by {
        assert |Old(s.waiters, s.gen)| > 0;
      }
      var t :| t in Old(s.waiters, s.gen);
      assert Leaves(s, t);
    }
  }

  /** A release promised by a broadcast goes to a later thread once somebody signals: t, the only
      waiter at the broadcast, still waits, while u and v came later and have returned. */
  lemma Overtaken(s: State, t: nat, u: nat, v: nat)
    requires Inv(s) && t in s.waiters && |s.waiters| == 1 && u !in s.waiters && v !in s.waiters && u != v
    ensures
      var end := RunOf(s, [Broadcast] + [Enter(u), Enter(v)] + [Signal] + [Recheck(u), Recheck(v)]);
      t in end.waiters && u !in end.waiters && v !in end.waiters && end.releases == 0
  {
    hide RunOf, StepOf;
    var b := StepOf(s, Broadcast);
    var e := StepOf(StepOf(b, Enter(u)), Enter(v));
    RunOne(s, Broadcast);
    RunSplits(s, [Broadcast], [Enter(u), Enter(v)]);
    RunOfTwo(b, Enter(u), Enter(v));
    RunSplits(s, [Broadcast] + [Enter(u), Enter(v)], [Signal]);
    RunOne(e, Signal);
    RunSplits(s, [Broadcast] + [Enter(u), Enter(v)] + [Signal], [Recheck(u), Recheck(v)]);
    RunOfTwo(StepOf(e, Signal), Recheck(u), Recheck(v));
    LateComers(s, t, u, v);
    LateReturns(e, t, u, v);
  }

  lemma LateComers(s: State, t: nat, u: nat, v: nat)
    requires Inv(s) && t in s.waiters && |s.waiters| == 1 && u !in s.waiters && v !in s.waiters && u != v
    ensures
      var e := StepOf(StepOf(StepOf(s, Broadcast), Enter(u)), Enter(v));
      t in e.waiters && u in e.waiters && v in e.waiters && |e.waiters| == 3 && e.releases == 1 &&
      e.waiters[u] == e.gen && e.waiters[v] == e.gen
  {
    var b := StepOf(s, Broadcast);
    OldWithNew(b.waiters, b.gen, u);
    OldWithNew(b.waiters[u := b.gen], b.gen, v);
  }

  lemma LateReturns(e: State, t: nat, u: nat, v: nat)
    requires t in e.waiters && u in e.waiters && v in e.waiters && |e.waiters| == 3 && e.releases == 1
    requires e.waiters[u] == e.gen && e.waiters[v] == e.gen && t != u && t != v && u != v
    ensures
      var end := StepOf(StepOf(StepOf(e, Signal), Recheck(u)), Recheck(v));
      t in end.waiters && u !in end.waiters && v !in end.waiters && end.releases == 0
  {
  }

  /** In particular from a new condition variable: threads 1, 2 and 3. */
  lemma BroadcastCanBeOvertaken()
    ensures
      var end := RunOf(RunOf(Start(), [Enter(1)]), [Broadcast] + [Enter(2), Enter(3)] + [Signal] + [Recheck(2), Recheck(3)]);
      1 in end.waiters && 2 !in end.waiters && 3 !in end.waiters && end.releases == 0
  {
    hide RunOf, Inv, Start;
    StartKeeps();
    FirstWaiter(Start(), 1);
    RunKeeps(Start(), [Enter(1)]);
    Overtaken(RunOf(Start(), [Enter(1)]), 1, 2, 3);
  }

  lemma FirstWaiter(s: State, t: nat)
    requires |s.waiters| == 0 && forall u: nat :: u !in s.waiters
    ensures var w := RunOf(s, [Enter(t)]).waiters; |w| == 1 && forall u: nat :: u in w <==> u == t
  {
    hide RunOf;
    RunOne(s, Enter(t));
    OldWithNew(s.waiters, s.gen, t);
  }

  lemma RunOne(s: State, a: Step)
    ensures RunOf(s, [a]) == StepOf(s, a)
  {
    hide StepOf;
    assert [a][..0] == [];
  }

  lemma RunOfTwo(s: State, a: Step, b: Step)
    ensures RunOf(s, [a, b]) == StepOf(StepOf(s, a), b)
  {
    hide StepOf;
    RunOne(s, a);
    assert [a, b][..1] == [a];
  }

  lemma {:induction false} RunSplits(s: State, a: seq<Step>, b: seq<Step>)
    ensures RunOf(s, a + b) == RunOf(RunOf(s, a), b)
    decreases |b|
  {
    if |b| == 0 {
      assert a + b == a;
    } else {
      var n := |a + b| - 1;
      assert (a + b)[..n] == a + b[..|b| - 1] && (a + b)[n] == b[|b| - 1];
      RunSplits(s, a, b[..|b| - 1]);
    }
  }

  // ----- the object

  class CCondvar {
    var FWaitNum: int
    var FReleaseCount: int
    var FWaitGenNum: int
    var FSignalEvent: bool
    var waiters: map<nat, int>
    ghost var granted: int
    ghost var returned: int

    ghost function S(): State
      reads this
    {
      State(waiters, FReleaseCount, FWaitGenNum, FSignalEvent, granted, returned)
    }

    ghost predicate Valid()
      reads this
    {
      Inv(S()) && FWaitNum == |waiters|
    }

    constructor ()
      ensures Valid() && S() == Start()
    {
      FWaitNum, FReleaseCount, FWaitGenNum, FSignalEvent, waiters := 0, 0, 0, false, map[];
      granted, returned := 0, 0;
      new;
      hide Inv;
      StartKeeps();
    }

    /** The first half of MWait: thread t registers under the mutex. */
    method Register(t: nat)
      requires Valid() && t !in waiters
      modifies this
      ensures Valid() && S() == StepOf(old(S()), Enter(t))
      ensures waiters == old(waiters)[t := FWaitGenNum] && !Leaves(S(), t) && (Reserved(S()) <==> old(Reserved(S())))
    {
      hide Inv;
      StepKeeps(S(), Enter(t));
      OldWithNew(waiters, FWaitGenNum, t);
      FWaitNum := FWaitNum + 1;
      waiters := waiters[t := FWaitGenNum];
    }

    /** The rest of MWait, once the wait for the event has ended. */
    method Check(t: nat) returns (done: bool)
      requires Valid() && t in waiters
      modifies this
      ensures Valid() && S() == StepOf(old(S()), Recheck(t)) && done == Leaves(old(S()), t)
      ensures waiters == if done then old(waiters) - {t} else old(waiters)
      ensures Reserved(S()) <==> old(Reserved(S()))
    {
      hide Inv;
      StepKeeps(S(), Recheck(t));
      done := FReleaseCount > 0 && FWaitGenNum != waiters[t];
      if done {
        OldWithout(waiters, FWaitGenNum, t);
        FWaitNum := FWaitNum - 1;
        FReleaseCount := FReleaseCount - 1;
        if FReleaseCount == 0 {
          FSignalEvent := false;
        }
        waiters := waiters - {t};
        returned := returned + 1;
        EventStays(old(S()));
      }
    }

    static lemma EventStays(s: State)
      requires Inv(s)
      ensures s.releases > 0 ==> s.event
    {
    }

    /** One more waiter may go, if there is one without a release. */
    method MSignal() returns (r: bool)
      requires Valid()
      modifies this
      ensures Valid() && S() == StepOf(old(S()), Signal) && r == Notice(old(S()), Signal)
      ensures r <==> old(FReleaseCount) < |waiters|
      ensures Reserved(S()) <==> if r then |waiters| == old(FReleaseCount) + 1 else old(Reserved(S()))
    {
      hide Inv;
      StepKeeps(S(), Signal);
      r := FWaitNum > FReleaseCount;
      if r {
        FSignalEvent := true;
        FReleaseCount := FReleaseCount + 1;
        FWaitGenNum := FWaitGenNum + 1;
        granted := granted + 1;
      }
    }

    static lemma RaisedIsOld(s: State)
      requires Inv(s)
      ensures Old(s.waiters, s.gen + 1) == s.waiters.Keys
    {
    }

    /** Everybody who waits now may go. */
    method MBroadcast() returns (r: bool)
      requires Valid()
      modifies this
      ensures Valid() && S() == StepOf(old(S()), Broadcast) && r == Notice(old(S()), Broadcast)
      ensures r <==> |waiters| > 0
      ensures r ==> Reserved(S()) && FReleaseCount == |waiters| && Old(waiters, FWaitGenNum) == waiters.Keys
    {
      hide Inv;
      StepKeeps(S(), Broadcast);
      RaisedIsOld(S());
      r := FWaitNum > 0;
      if r {
        granted := granted + (FWaitNum - FReleaseCount);
        FSignalEvent := true;
        FReleaseCount := FWaitNum;
        FWaitGenNum := FWaitGenNum + 1;
      }
    }

    /** Any run without time-outs; steps of threads that are not there are skipped. */
    method Run(steps: seq<Step>)
      requires Valid()
      modifies this
      ensures Valid() && S() == RunOf(old(S()), steps)
    {
      hide Inv;
      for k := 0 to |steps|
        invariant Valid() && S() == RunOf(old(S()), steps[..k])
      {
        assert steps[..k + 1][..k] == steps[..k];
        match steps[k] {
          case Enter(t) =>
            if t !in waiters {
              Register(t);
            }
          case Recheck(t) =>
            if t in waiters {
              var done := Check(t);
            }
          case Signal =>
            var r := MSignal();
          case Broadcast =>
            var r := MBroadcast();
        }
      }
      assert steps[..|steps|] == steps;
    }
  }
}
