/** What one CPU does when the others leave its processes and locks alone, and who may change the state of a process
    (proc/proc.c, lock/sleeplock.c). */
module SchedPaths {
  import opened Sched

  /** `k` steps of CPU `c`, without a timer interrupt; it stops where it would have to wait. */
  function Alone(s: State, c: nat, k: nat): State {
    if k == 0 then s
    else var t := Alone(s, c, k - 1); if Enabled(t, c, Go) then Step(t, c, Go) else t
  }

  lemma {:induction false} AloneThen(s: State, c: nat, j: nat, k: nat)
    ensures Alone(s, c, j + k) == Alone(Alone(s, c, j), c, k)
  {
    hide Enabled, Step;
    if k > 0 { AloneThen(s, c, j, k - 1); }
  }

  lemma AloneNext(s: State, c: nat)
    ensures Alone(s, c, 1) == if Enabled(s, c, Go) then Step(s, c, Go) else s
  {
    assert Alone(s, c, 0) == s;
    hide Enabled, Step;
  }

  lemma AloneFour(s: State, c: nat)
    ensures Alone(s, c, 4) == Alone(Alone(Alone(Alone(s, c, 1), c, 1), c, 1), c, 1)
    ensures Alone(s, c, 3) == Alone(Alone(Alone(s, c, 1), c, 1), c, 1)
  {
    AloneThen(s, c, 1, 1);
    AloneThen(s, c, 2, 1);
    AloneThen(s, c, 3, 1);
    hide Alone;
  }

  // The scheduler

  /** CPU `c` is at process `i` of its scheduler loop. */
  predicate At(s: State, c: nat, i: nat) {
    c < |s.cpus| && s.cpus[c] == Cpu(None, Scan(i)) && i < |s.procs|
  }

  /** Process number `d` after process `i`, counting round. */
  function Nth(s: State, i: nat, d: nat): (j: nat)
    requires i < |s.procs| && d <= |s.procs|
    ensures j < |s.procs|
  {
    if i + d < |s.procs| then i + d else i + d - |s.procs|
  }

  lemma NthNext(s: State, i: nat, d: nat)
    requires i < |s.procs| && d < |s.procs|
    ensures Nth(s, Nth(s, i, d), 1) == Nth(s, i, d + 1) && Nth(s, i, 0) == i && Nth(s, i, |s.procs|) == i
    ensures Nth(s, i, 1) == if i + 1 < |s.procs| then i + 1 else 0
  {}

  /** A round comes past every process. */
  lemma EveryOne(s: State, i: nat, j: nat) returns (d: nat)
    requires i < |s.procs| && j < |s.procs|
    ensures d < |s.procs| && Nth(s, i, d) == j
  {
    d := if i <= j then j - i else j + |s.procs| - i;
  }

  lemma PassesOne(s: State, c: nat, i: nat)
    requires At(s, c, i) && s.procs[i].lk.None? && s.procs[i].state != RUNNABLE
    ensures Alone(s, c, 3) == WithCpu(s, c, Cpu(None, Scan(Nth(s, i, 1))))
  {
    NthNext(s, i, 0);
    hide Nth;
    AloneFour(s, c);
    AloneNext(s, c);
    var s1 := Alone(s, c, 1);
    AloneNext(s1, c);
    var s2 := Alone(s1, c, 1);
    AloneNext(s2, c);
    var s3 := Alone(s2, c, 1);
    hide Alone;
    assert s3.procs == s.procs;
    assert s3.cpus == s.cpus[c := Cpu(None, Scan(Nth(s, i, 1)))];
  }

  lemma TakesOne(s: State, c: nat, i: nat)
    requires At(s, c, i) && s.procs[i].lk.None? && s.procs[i].state == RUNNABLE
    ensures Alone(s, c, 4) ==
              WithCpu(WithProc(s, i, s.procs[i].(lk := Some(c), state := RUNNING, on := Some(c))), c,
                  Cpu(Some(i), Process))
  {
    AloneFour(s, c);
    AloneNext(s, c);
    var s1 := Alone(s, c, 1);
    AloneNext(s1, c);
    var s2 := Alone(s1, c, 1);
    AloneNext(s2, c);
    var s3 := Alone(s2, c, 1);
    AloneNext(s3, c);
    var s4 := Alone(s3, c, 1);
    hide Alone;
    assert s4.procs == s.procs[i := s.procs[i].(lk := Some(c), state := RUNNING, on := Some(c))];
    assert s4.cpus == s.cpus[c := Cpu(Some(i), Process)];
  }

  /** The `d` processes from `i` on are free to be looked at and not runnable. */
  ghost predicate NoneIn(s: State, i: nat, d: nat)
    requires i < |s.procs| && d <= |s.procs|
  {
    forall k: nat {:trigger Nth(s, i, k)} :: k < d ==>
      s.procs[Nth(s, i, k)].lk.None? && s.procs[Nth(s, i, k)].state != RUNNABLE
  }

  /** The scheduler goes past processes that are not runnable, one after the other and round, and changes nothing. */
  lemma {:induction false} PassesBy(s: State, c: nat, i: nat, d: nat)
    requires At(s, c, i) && d <= |s.procs| && NoneIn(s, i, d)
    ensures Alone(s, c, 3 * d) == WithCpu(s, c, Cpu(None, Scan(Nth(s, i, d))))
  {
    hide Nth, Alone;
    NthNext(s, i, 0);
    if d == 0 {
      AloneZero(s, c);
      assert s.cpus[c := s.cpus[c]] == s.cpus;
    } else {
      PassesBy(s, c, i, d - 1);
      var t, j := Alone(s, c, 3 * (d - 1)), Nth(s, i, d - 1);
      AloneThen(s, c, 3 * (d - 1), 3);
      assert 3 * d == 3 * (d - 1) + 3;
      NthNext(s, i, d - 1);
      PassesOne(t, c, j);
      SameNth(s, t, j, 1);
      assert t.cpus[c := Cpu(None, Scan(Nth(s, i, d)))] == s.cpus[c := Cpu(None, Scan(Nth(s, i, d)))];
    }
  }

  lemma AloneZero(s: State, c: nat)
    ensures Alone(s, c, 0) == s
  {}

  lemma SameNth(s: State, t: State, i: nat, d: nat)
    requires i < |s.procs| && d <= |s.procs| && t.procs == s.procs
    ensures Nth(t, i, d) == Nth(s, i, d)
  {}

  /** From wherever it is, the scheduler runs the first runnable process it comes to, after less than a round. */
  lemma SchedulerFinds(s: State, c: nat, i: nat, j: nat) returns (d: nat)
    requires At(s, c, i) && j < |s.procs| && s.procs[j].state == RUNNABLE
    requires forall k :: 0 <= k < |s.procs| ==> s.procs[k].lk.None?
    ensures d < |s.procs| && NoneIn(s, i, d) && s.procs[Nth(s, i, d)].state == RUNNABLE
    ensures var f := Nth(s, i, d);
            Alone(s, c, 3 * d + 4) ==
              WithCpu(WithProc(s, f, s.procs[f].(lk := Some(c), state := RUNNING, on := Some(c))), c,
                  Cpu(Some(f), Process))
  {
    hide Nth, Alone;
    var most := EveryOne(s, i, j);
    d := 0;
    while s.procs[Nth(s, i, d)].state != RUNNABLE
      invariant d <= most && NoneIn(s, i, d)
      decreases most - d
    {
      d := d + 1;
    }
    PassesBy(s, c, i, d);
    AloneThen(s, c, 3 * d, 4);
    var t := Alone(s, c, 3 * d);
    TakesOne(t, c, Nth(s, i, d));
    assert t.cpus[c := Cpu(Some(Nth(s, i, d)), Process)] == s.cpus[c := Cpu(Some(Nth(s, i, d)), Process)];
  }

  /** With nothing runnable it comes past every process in one round and is back where it was. */
  lemma SchedulerRound(s: State, c: nat, i: nat)
    requires At(s, c, i) && forall k :: 0 <= k < |s.procs| ==> s.procs[k].lk.None? && s.procs[k].state != RUNNABLE
    ensures forall j: nat {:trigger At(Alone(s, c, 3 * j), c, Nth(s, i, j))} :: j <= |s.procs| ==>
              At(Alone(s, c, 3 * j), c, Nth(s, i, j))
    ensures Alone(s, c, 3 * |s.procs|) == s
  {
    hide Alone;
    forall j: nat | j <= |s.procs| ensures At(Alone(s, c, 3 * j), c, Nth(s, i, j)) { PassesBy(s, c, i, j); }
    PassesBy(s, c, i, |s.procs|);
    NthNext(s, i, 0);
    assert s.cpus[c := s.cpus[c]] == s.cpus;
  }

  // sleeplock_acquire and proc_yield

  /** On a held lock the caller goes to sleep on it, with the inner spinlock free, and its CPU to the scheduler. */
  lemma FallsAsleep(s: State, c: nat, me: nat, l: nat)
    requires Running(s, c, me) && s.procs[me].pc == Test(l) && l < |s.locks| && s.locks[l].locked
    requires s.procs[me].lk.None?
    ensures var t := Alone(s, c, 6);
            && t.procs == s.procs[me := s.procs[me].(lk := Some(c), chan := Some(l), state := SLEEPING,
                                                     pc := SleepWoken(l))]
            && t.locks == s.locks[l := s.locks[l].(spin := None)]
            && t.cpus == s.cpus[c := s.cpus[c].(pc := Back(me))]
  {
    hide Alone;
    AloneThen(s, c, 3, 3);
    Nods(s, c, me, l);
    Dozes(Alone(s, c, 3), c, me, l);
  }

  lemma Nods(s: State, c: nat, me: nat, l: nat)
    requires Running(s, c, me) && s.procs[me].pc == Test(l) && l < |s.locks| && s.locks[l].locked
    requires s.procs[me].lk.None?
    ensures var t := Alone(s, c, 3);
            && t.procs == s.procs[me := s.procs[me].(lk := Some(c), pc := SleepChan(l))]
            && t.locks == s.locks[l := s.locks[l].(spin := None)]
            && t.cpus == s.cpus
  {
    AloneFour(s, c);
    AloneNext(s, c);
    var s1 := Alone(s, c, 1);
    AloneNext(s1, c);
    var s2 := Alone(s1, c, 1);
    AloneNext(s2, c);
    hide Alone;
  }

  lemma Dozes(s: State, c: nat, me: nat, l: nat)
    requires Running(s, c, me) && s.procs[me].pc == SleepChan(l) && l < |s.locks|
    ensures var t := Alone(s, c, 3);
            && t.procs == s.procs[me := s.procs[me].(chan := Some(l), state := SLEEPING, pc := SleepWoken(l))]
            && t.locks == s.locks
            && t.cpus == s.cpus[c := s.cpus[c].(pc := Back(me))]
  {
    AloneFour(s, c);
    AloneNext(s, c);
    var s1 := Alone(s, c, 1);
    AloneNext(s1, c);
    var s2 := Alone(s1, c, 1);
    AloneNext(s2, c);
    hide Alone;
  }

  /** Woken, it gives its own lock back, takes the inner spinlock and looks at the lock again. */
  lemma LooksAgain(s: State, c: nat, me: nat, l: nat)
    requires Running(s, c, me) && s.procs[me].pc == SleepWoken(l) && l < |s.locks| && s.locks[l].spin.None?
    ensures var t := Alone(s, c, 3);
            && t.procs == s.procs[me := s.procs[me].(lk := None, chan := None, pc := Test(l))]
            && t.locks == s.locks[l := s.locks[l].(spin := Some(c))]
            && t.cpus == s.cpus
  {
    AloneFour(s, c);
    AloneNext(s, c);
    var s1 := Alone(s, c, 1);
    AloneNext(s1, c);
    var s2 := Alone(s1, c, 1);
    AloneNext(s2, c);
    hide Alone;
  }

  /** On a free lock it takes it, in its own name, and returns. */
  lemma TakesLock(s: State, c: nat, me: nat, l: nat)
    requires Running(s, c, me) && s.procs[me].pc == Test(l) && l < |s.locks| && !s.locks[l].locked
    ensures var t := Alone(s, c, 4);
            && t.procs == s.procs[me := s.procs[me].(pc := User, inside := s.procs[me].inside + {l})]
            && t.locks == s.locks[l := SleepLk(None, true, s.procs[me].pid, Some(me))]
            && t.cpus == s.cpus
  {
    hide Alone;
    AloneThen(s, c, 2, 2);
    AloneTwo(s, c);
    AloneNext(s, c);
    AloneNext(Alone(s, c, 1), c);
    Signs(Alone(s, c, 2), c, me, l);
  }

  lemma Signs(s: State, c: nat, me: nat, l: nat)
    requires Running(s, c, me) && s.procs[me].pc == TakePid(l) && l < |s.locks|
    ensures var t := Alone(s, c, 2);
            && t.procs == s.procs[me := s.procs[me].(pc := User)]
            && t.locks == s.locks[l := s.locks[l].(spin := None, pid := s.procs[me].pid)]
            && t.cpus == s.cpus
  {
    hide Alone;
    AloneTwo(s, c);
    AloneNext(s, c);
    AloneNext(Alone(s, c, 1), c);
  }

  lemma AloneTwo(s: State, c: nat)
    ensures Alone(s, c, 2) == Alone(Alone(s, c, 1), c, 1)
  {
    AloneThen(s, c, 1, 1);
  }

  // Who changes the state of a process

  /** Only proc_wakeup makes a sleeping process runnable, and only one that sleeps on the lock being released. */
  lemma WokenBy(s: State, c: nat, a: Action, i: nat)
    requires Inv(s) && Enabled(s, c, a) && i < |s.procs| && s.procs[i].state == SLEEPING
    requires i < |Step(s, c, a).procs| && Step(s, c, a).procs[i].state != SLEEPING
    ensures Step(s, c, a).procs[i].state == RUNNABLE && s.procs[i].chan.Some?
    ensures s.cpus[c].pc.Process? && var me := s.cpus[c].cur.value;
            me != i && me < |s.procs| && s.procs[me].pc == WakeTest(s.procs[i].chan.value, i)
  {
    hide Inv, InRange, InsideOf;
    CpuFact(s, c);
  }

  /** Only the scheduler starts a process, and only a runnable one. */
  lemma StartedBy(s: State, c: nat, a: Action, i: nat)
    requires Enabled(s, c, a) && i < |s.procs| && s.procs[i].state != RUNNING
    requires i < |Step(s, c, a).procs| && Step(s, c, a).procs[i].state == RUNNING
    ensures s.procs[i].state == RUNNABLE && s.cpus[c].pc == Check(i)
  {
    if s.cpus[c].pc.Process? { NoStart(s, c, a, s.cpus[c].cur.value, i); }
  }

  lemma NoStart(s: State, c: nat, a: Action, me: nat, i: nat)
    requires Enabled(s, c, a) && Running(s, c, me) && i < |s.procs| && i < |Step(s, c, a).procs|
    ensures Step(s, c, a).procs[i].state == RUNNING ==> s.procs[i].state == RUNNING
    ensures Step(s, c, a).procs[i].state == UNUSED ==> s.procs[i].state == UNUSED
  {
    hide Interruptible;
  }

  /** A slot without a process never runs. */
  lemma {:induction false} UnusedWaits(states: seq<State>, n: nat, i: nat)
    requires Run(states) && n < |states| && i < |states[n].procs| && states[n].procs[i].state == UNUSED
    ensures states[n].procs[i].pc == Entry
  {
    hide Inv, Enabled, Step;
    if n > 0 {
      var c, a := RunStep(states, n);
      UnusedBefore(states[n - 1], c, a, i);
      UnusedWaits(states, n - 1, i);
    }
  }

  lemma RunStep(states: seq<State>, n: nat) returns (c: nat, a: Action)
    requires Run(states) && 0 < n < |states|
    ensures Inv(states[n - 1]) && Enabled(states[n - 1], c, a) && states[n] == Step(states[n - 1], c, a)
  {
    RunInv(states, n - 1);
    hide Inv, Step, Enabled, Initial;
    c, a :| CanStep(states[n - 1], c, a, states[n]);
  }

  lemma UnusedBefore(s: State, c: nat, a: Action, i: nat)
    requires Inv(s) && Enabled(s, c, a) && i < |Step(s, c, a).procs| && Step(s, c, a).procs[i].state == UNUSED
    ensures i < |s.procs| && s.procs[i].state == UNUSED && Step(s, c, a).procs[i].pc == s.procs[i].pc
  {
    hide Inv, Step, Enabled;
    NoUnused(s, c, a, i);
    if Running(s, c, i) {
      CpuFact(s, c);
    } else {
      OthersStep(s, c, a, i);
    }
  }

  lemma NoUnused(s: State, c: nat, a: Action, i: nat)
    requires Enabled(s, c, a) && i < |Step(s, c, a).procs| && Step(s, c, a).procs[i].state == UNUSED
    ensures i < |s.procs| && s.procs[i].state == UNUSED
  {
    hide ProcessStep;
    SameSize(s, c, a);
    if s.cpus[c].pc.Process? { NoStart(s, c, a, s.cpus[c].cur.value, i); }
  }

  lemma SameSize(s: State, c: nat, a: Action)
    requires Enabled(s, c, a)
    ensures |Step(s, c, a).procs| == |s.procs|
  {}

  /** A step changes the code of no other process. */
  lemma OthersStep(s: State, c: nat, a: Action, i: nat)
    requires Enabled(s, c, a) && i < |s.procs| && !Running(s, c, i)
    ensures var t := Step(s, c, a);
            |t.procs| == |s.procs| && t.procs[i].pc == s.procs[i].pc && t.procs[i].inside == s.procs[i].inside
  {}

  /** A process that no CPU is at waits for its first turn or for its next one, or sleeps on the lock it asked for. */
  lemma Parked(states: seq<State>, n: nat, i: nat)
    requires Run(states) && n < |states| && i < |states[n].procs| && states[n].procs[i].lk.None?
    requires forall c :: 0 <= c < |states[n].cpus| ==> states[n].cpus[c].cur != Some(i)
    ensures var p := states[n].procs[i];
            match p.pc
            case Entry => p.state == UNUSED || p.state == RUNNABLE
            case YieldUnlock(_) => p.state == RUNNABLE
            case SleepWoken(l) => p.state == RUNNABLE || (p.state == SLEEPING && p.chan == Some(l))
            case _ => false
  {
    RunInv(states, n);
    RunningIsCurrent(states, n, i);
    var s := states[n];
    if s.procs[i].state == UNUSED { UnusedWaits(states, n, i); }
    hide Run, Inv, InRange, InsideOf;
    ProcFact(s, i);
    if s.procs[i].on.Some? { CpuFact(s, s.procs[i].on.value); }
  }
}
