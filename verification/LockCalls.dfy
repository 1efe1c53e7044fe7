/** What the calls of a sleep lock mean for their caller, over whole runs (lock/sleeplock.c). */
module LockCalls {
  import opened Sched
  import opened SchedPaths

  /** The call a process is in. */
  datatype Call = NoCall | Acquiring(l: nat) | Releasing(l: nat) | Asking(l: nat)

  /** The statement a process goes on with after the yields a timer put in between. */
  function Bare(pc: PC): PC
    decreases pc
  {
    match pc
    case YieldLock(ret) => Bare(ret)
    case YieldState(ret) => Bare(ret)
    case YieldSwitch(ret) => Bare(ret)
    case YieldUnlock(ret) => Bare(ret)
    case x => x
  }

  function CallOf(pc: PC): Call {
    var x := Bare(pc);
    if InAcquire(x) || InSleep(x) then Acquiring(x.l)
    else if InRelease(x) || InWakeup(x) then Releasing(x.l)
    else if InHolding(x) then Asking(x.l)
    else NoCall
  }

  /** The locks a process that had `was` when its call began is inside of, at a statement of the call. */
  ghost predicate Midway(pc: PC, was: set<nat>, now: set<nat>) {
    var x := Bare(pc);
    match CallOf(pc)
    case NoCall => true
    case Acquiring(l) => if x.TakePid? || x.TakeDone? then l !in was && now == was + {l} else now == was
    case Releasing(l) => now == if x.Release? || x.Clear? then was else was - {l}
    case Asking(_) => now == was
  }

  /** The same for a call that has returned. */
  ghost predicate Returned(call: Call, was: set<nat>, now: set<nat>) {
    match call
    case NoCall => true
    case Acquiring(l) => l !in was && now == was + {l}
    case Releasing(l) => now == was - {l}
    case Asking(_) => now == was
  }

  /** What a step of its own code does to a process in a call. */
  ghost predicate GoesOn(p: Proc, q: Proc, was: set<nat>) {
    if CallOf(q.pc) == NoCall then q.pc == User && Returned(CallOf(p.pc), was, q.inside)
    else CallOf(q.pc) == CallOf(p.pc) && Midway(q.pc, was, q.inside)
  }

  lemma YieldStays(s: State, c: nat, a: Action, me: nat, was: set<nat>)
    requires Enabled(s, c, a) && Running(s, c, me) && CallOf(s.procs[me].pc) != NoCall
    requires Midway(s.procs[me].pc, was, s.procs[me].inside)
    requires InYield(s.procs[me].pc) || (a.Timer? && Interruptible(s.procs[me].pc))
    ensures me < |Step(s, c, a).procs| && GoesOn(s.procs[me], Step(s, c, a).procs[me], was)
  {}

  lemma SleepStays(s: State, c: nat, a: Action, me: nat, was: set<nat>)
    requires Enabled(s, c, a) && Running(s, c, me) && InSleep(s.procs[me].pc)
    requires !(a.Timer? && Interruptible(s.procs[me].pc))
    requires Midway(s.procs[me].pc, was, s.procs[me].inside)
    ensures me < |Step(s, c, a).procs| && GoesOn(s.procs[me], Step(s, c, a).procs[me], was)
  {}

  lemma AcquireGoesOn(s: State, c: nat, a: Action, me: nat, was: set<nat>)
    requires Enabled(s, c, a) && Running(s, c, me) && InAcquire(s.procs[me].pc)
    requires !(a.Timer? && Interruptible(s.procs[me].pc))
    requires Midway(s.procs[me].pc, was, s.procs[me].inside)
    requires s.procs[me].pc.Take? ==> s.procs[me].pc.l !in s.procs[me].inside
    ensures me < |Step(s, c, a).procs| && GoesOn(s.procs[me], Step(s, c, a).procs[me], was)
  {}

  lemma ReleaseGoesOn(s: State, c: nat, a: Action, me: nat, was: set<nat>)
    requires Enabled(s, c, a) && Running(s, c, me) && !(a.Timer? && Interruptible(s.procs[me].pc))
    requires InRelease(s.procs[me].pc) || InWakeup(s.procs[me].pc)
    requires Midway(s.procs[me].pc, was, s.procs[me].inside)
    ensures me < |Step(s, c, a).procs| && GoesOn(s.procs[me], Step(s, c, a).procs[me], was)
  {}

  lemma HoldingGoesOn(s: State, c: nat, a: Action, me: nat, was: set<nat>)
    requires Enabled(s, c, a) && Running(s, c, me) && InHolding(s.procs[me].pc)
    requires !(a.Timer? && Interruptible(s.procs[me].pc))
    requires Midway(s.procs[me].pc, was, s.procs[me].inside)
    ensures me < |Step(s, c, a).procs| && GoesOn(s.procs[me], Step(s, c, a).procs[me], was)
  {}

  /** Nobody sets a lock that he is inside of. */
  lemma TakesNew(s: State, c: nat, me: nat)
    requires Inv(s) && Running(s, c, me) && s.procs[me].pc.Take?
    ensures s.procs[me].pc.l !in s.procs[me].inside
  {
    hide Inv, InRange, InsideOf;
    CpuFact(s, c);
    ProcFact(s, me);
    LockFact(s, s.procs[me].pc.l);
  }

  /** A step keeps every process in its call, or lets it return with what the call is for. */
  lemma CallGoesOn(s: State, c: nat, a: Action, i: nat, was: set<nat>)
    requires Inv(s) && Enabled(s, c, a) && i < |s.procs|
    requires CallOf(s.procs[i].pc) != NoCall && Midway(s.procs[i].pc, was, s.procs[i].inside)
    ensures |Step(s, c, a).procs| == |s.procs| && GoesOn(s.procs[i], Step(s, c, a).procs[i], was)
  {
    hide Inv, Step, GoesOn, Midway, Enabled;
    SameSize(s, c, a);
    if !Running(s, c, i) {
      OthersStep(s, c, a, i);
      assert GoesOn(s.procs[i], Step(s, c, a).procs[i], was) by { SameGoesOn(s.procs[i], Step(s, c, a).procs[i], was); }
      return;
    }
    var pc := s.procs[i].pc;
    if InYield(pc) || (a.Timer? && Interruptible(pc)) { YieldStays(s, c, a, i, was); }
    else if InSleep(pc) { SleepStays(s, c, a, i, was); }
    else if InAcquire(pc) {
      if pc.Take? { TakesNew(s, c, i); }
      AcquireGoesOn(s, c, a, i, was);
    }
    else if InHolding(pc) { HoldingGoesOn(s, c, a, i, was); }
    else { ReleaseGoesOn(s, c, a, i, was); }
  }

  lemma SameGoesOn(p: Proc, q: Proc, was: set<nat>)
    requires CallOf(p.pc) != NoCall && Midway(p.pc, was, p.inside) && q.pc == p.pc && q.inside == p.inside
    ensures GoesOn(p, q, was)
  {}

  /** Process `i` is in a call in all states from `m` up to, and not including, `n`. */
  ghost predicate InCall(states: seq<State>, m: nat, n: nat, i: nat) {
    forall k {:trigger states[k]} :: m <= k < n && k < |states| ==>
      i < |states[k].procs| && CallOf(states[k].procs[i].pc) != NoCall
  }

  lemma Going(p: Proc, q: Proc, was: set<nat>)
    requires GoesOn(p, q, was)
    ensures if CallOf(q.pc) == NoCall then q.pc == User && Returned(CallOf(p.pc), was, q.inside)
            else CallOf(q.pc) == CallOf(p.pc) && Midway(q.pc, was, q.inside)
  {}

  /** From `m` on process `i` has been in one call, without a break; this is the state of it. */
  lemma {:induction false} CallLasts(states: seq<State>, m: nat, n: nat, i: nat)
    requires Run(states) && m <= n < |states| && InCall(states, m, n + 1, i)
    requires i < |states[m].procs| && var p := states[m].procs[i]; Midway(p.pc, p.inside, p.inside)
    ensures i < |states[n].procs| && i < |states[m].procs|
    ensures CallOf(states[n].procs[i].pc) == CallOf(states[m].procs[i].pc)
    ensures Midway(states[n].procs[i].pc, states[m].procs[i].inside, states[n].procs[i].inside)
  {
    hide Inv, Step, Enabled, Run, Midway, GoesOn, CallOf;
    if m < n {
      assert InCall(states, m, n, i);
      CallLasts(states, m, n - 1, i);
      var c, a := RunStep(states, n);
      assert i < |states[n].procs| && CallOf(states[n].procs[i].pc) != NoCall;
      CallGoesOn(states[n - 1], c, a, i, states[m].procs[i].inside);
      Going(states[n - 1].procs[i], states[n].procs[i], states[m].procs[i].inside);
    }
  }

  lemma CallReturns(states: seq<State>, m: nat, n: nat, i: nat)
    requires Run(states) && m < n < |states| && InCall(states, m, n, i)
    requires i < |states[m].procs| && var p := states[m].procs[i]; Midway(p.pc, p.inside, p.inside)
    requires i < |states[n].procs| && CallOf(states[n].procs[i].pc) == NoCall
    ensures i < |states[m].procs| && states[n].procs[i].pc == User
    ensures Returned(CallOf(states[m].procs[i].pc), states[m].procs[i].inside, states[n].procs[i].inside)
  {
    hide Inv, Step, Enabled, Run, Midway, Returned, GoesOn, CallOf;
    CallLasts(states, m, n - 1, i);
    var c, a := RunStep(states, n);
    assert i < |states[n - 1].procs| && CallOf(states[n - 1].procs[i].pc) != NoCall;
    CallGoesOn(states[n - 1], c, a, i, states[m].procs[i].inside);
    Going(states[n - 1].procs[i], states[n].procs[i], states[m].procs[i].inside);
  }

  /** sleeplock_acquire returns only to a process that is then inside the lock, was not before, and is the only one. */
  lemma AcquireReturns(states: seq<State>, m: nat, n: nat, i: nat, l: nat)
    requires Run(states) && m < n < |states| && InCall(states, m, n, i)
    requires i < |states[m].procs| && states[m].procs[i].pc == Acquire(l)
    requires i < |states[n].procs| && CallOf(states[n].procs[i].pc) == NoCall
    ensures i < |states[m].procs| && states[n].procs[i].pc == User
    ensures l !in states[m].procs[i].inside && states[n].procs[i].inside == states[m].procs[i].inside + {l}
    ensures forall j :: 0 <= j < |states[n].procs| && j != i ==> l !in states[n].procs[j].inside
  {
    CallReturns(states, m, n, i);
    RunInv(states, n);
    hide Run, Step, CpuInv, LockInv, WaitInv;
    assert ProcInv(states[n], i);
    MutualExclusion(states, n, l);
  }

  /** A process still waiting in sleeplock_acquire is inside of what it was inside of when it called. */
  lemma AcquireWaits(states: seq<State>, m: nat, n: nat, i: nat, l: nat)
    requires Run(states) && m <= n < |states| && InCall(states, m, n + 1, i)
    requires i < |states[m].procs| && states[m].procs[i].pc == Acquire(l)
    requires i < |states[n].procs| && var x := Bare(states[n].procs[i].pc); !x.TakePid? && !x.TakeDone?
    ensures i < |states[m].procs| && CallOf(states[n].procs[i].pc) == Acquiring(l)
    ensures states[n].procs[i].inside == states[m].procs[i].inside
  {
    CallLasts(states, m, n, i);
  }

  /** sleeplock_release returns to a process that is no longer inside, and is inside of all else that it was. */
  lemma ReleaseReturns(states: seq<State>, m: nat, n: nat, i: nat, l: nat)
    requires Run(states) && m < n < |states| && InCall(states, m, n, i)
    requires i < |states[m].procs| && states[m].procs[i].pc == Release(l)
    requires i < |states[n].procs| && CallOf(states[n].procs[i].pc) == NoCall
    ensures i < |states[m].procs| && states[n].procs[i].pc == User
    ensures states[n].procs[i].inside == states[m].procs[i].inside - {l}
  {
    CallReturns(states, m, n, i);
  }

  /** Outside of calls a process starts the call it asks for, or is interrupted, and stays inside of what it was. */
  lemma Calls(s: State, c: nat, a: Action, i: nat)
    requires Enabled(s, c, a) && i < |s.procs| && CallOf(s.procs[i].pc) == NoCall
    ensures |Step(s, c, a).procs| == |s.procs|
    ensures var p, q := s.procs[i], Step(s, c, a).procs[i];
            && q.inside == p.inside
            && (CallOf(q.pc) != NoCall ==>
                && Running(s, c, i) && p.pc == User
                && q.pc == match a case DoAcquire(l) => Acquire(l) case DoRelease(l) => Release(l)
                                   case DoHolding(l) => Holding(l) case _ => User)
  {
    SameSize(s, c, a);
    if !Running(s, c, i) { OthersStep(s, c, a, i); }
  }
}
