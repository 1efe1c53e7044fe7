/** Scheduling, sleep/wakeup and sleep locks as one step system (proc/proc.c, lock/sleeplock.c).

    Any number of processes, CPUs and sleep locks.  One step is one statement of one CPU.
    Acquiring a spinlock is a step that is possible only while the lock is free. */
module Sched {
  datatype Option<T> = None | Some(value: T)

  datatype RunState = UNUSED | RUNNABLE | RUNNING | SLEEPING

  /** The statement a process executes next. */
  datatype PC =
    | Entry                      // proc_entry_point: release the lock taken by the scheduler
    | User                       // anywhere outside the code below
    | Acquire(l: nat)            // sleeplock_acquire: take the inner spinlock
    | Test(l: nat)               //   while (slk->locked)
    | SleepLock(l: nat)          //   proc_sleep: take p->lk
    | SleepRelease(l: nat)       //     release the inner spinlock
    | SleepChan(l: nat)          //     p->sleep_space = chan
    | SleepState(l: nat)         //     p->state = SLEEPING
    | SleepSwitch(l: nat)        //     proc_sched
    | SleepWoken(l: nat)         //     p->sleep_space = NULL
    | SleepUnlock(l: nat)        //     release p->lk
    | SleepRetake(l: nat)        //     take the inner spinlock again
    | Take(l: nat)               //   slk->locked = 1
    | TakePid(l: nat)            //   slk->pid = myproc()->pid
    | TakeDone(l: nat)           //   release the inner spinlock
    | Release(l: nat)            // sleeplock_release: take the inner spinlock
    | Clear(l: nat)              //   slk->locked = 0
    | ClearPid(l: nat)           //   slk->pid = 0
    | WakeNext(l: nat, k: nat)   //   proc_wakeup: lock process k, or skip it
    | WakeTest(l: nat, k: nat)   //     make it RUNNABLE if it sleeps here
    | WakeUnlock(l: nat, k: nat) //     unlock it
    | ReleaseDone(l: nat)        //   release the inner spinlock
    | Holding(l: nat)            // sleeplock_holding: take the inner spinlock
    | HoldingTest(l: nat)        //   read locked and pid
    | HoldingDone(l: nat, r: bool) // release the inner spinlock
    | YieldLock(ret: PC)         // proc_yield: take p->lk
    | YieldState(ret: PC)        //   p->state = RUNNABLE
    | YieldSwitch(ret: PC)       //   proc_sched
    | YieldUnlock(ret: PC)       //   release p->lk

  /** What a CPU does: a statement of proc_scheduler for process `i`, or the code of its process. */
  datatype CpuPC =
    | Scan(i: nat)               // take proc_pool[i].lk
    | Check(i: nat)              // if RUNNABLE: state = RUNNING
    | SetCurrent(i: nat)         // c->proc = p
    | Switch(i: nat)             // swtch to the process
    | Process                    // inside the process c->proc
    | Back(i: nat)               // returned from swtch: c->proc = NULL
    | Unlock(i: nat)             // release proc_pool[i].lk

  /** `lk` is the CPU holding the process lock; `on` the CPU that made the process RUNNING and has not
      left it; `inside` the sleep locks it has set `locked` on and not cleared since. */
  datatype Proc = Proc(pid: nat, state: RunState, chan: Option<nat>, lk: Option<nat>, pc: PC, on: Option<nat>,
      inside: set<nat>)
  datatype Cpu = Cpu(cur: Option<nat>, pc: CpuPC)
  /** `holder` is the process that last set `locked`, while it is set. */
  datatype SleepLk = SleepLk(spin: Option<nat>, locked: bool, pid: nat, holder: Option<nat>)

  datatype State = State(procs: seq<Proc>, cpus: seq<Cpu>, locks: seq<SleepLk>)

  /** What a process outside the lock code does next, or a timer interrupt. */
  datatype Action = Go | DoAcquire(l: nat) | DoRelease(l: nat) | DoHolding(l: nat) | Timer

  // State updates

  function WithProc(s: State, i: nat, p: Proc): State
    requires i < |s.procs|
  {
    s.(procs := s.procs[i := p])
  }

  function WithCpu(s: State, c: nat, x: Cpu): State
    requires c < |s.cpus|
  {
    s.(cpus := s.cpus[c := x])
  }

  function WithLock(s: State, l: nat, x: SleepLk): State
    requires l < |s.locks|
  {
    s.(locks := s.locks[l := x])
  }

  function Jump(s: State, i: nat, pc: PC): State
    requires i < |s.procs|
  {
    WithProc(s, i, s.procs[i].(pc := pc))
  }

  /** The scheduler goes on with the next process, wrapping around. */
  function NextIndex(s: State, i: nat): nat {
    if i + 1 < |s.procs| then i + 1 else 0
  }

  /** No spinlock is held at these points, so a timer interrupt can be taken. */
  predicate Interruptible(pc: PC) {
    pc.User? || pc.Acquire? || pc.SleepRetake? || pc.Release? || pc.Holding?
  }

  /** The step of CPU `c` is possible: a spinlock it wants is free, an operation it starts exists. */
  predicate Enabled(s: State, c: nat, a: Action) {
    && c < |s.cpus|
    && if s.cpus[c].pc.Process? then s.cpus[c].cur.Some? && s.cpus[c].cur.value < |s.procs| &&
        ProcessEnabled(s, s.cpus[c].cur.value, a)
       else s.cpus[c].pc.i < |s.procs| && (s.cpus[c].pc.Scan? ==> s.procs[s.cpus[c].pc.i].lk.None?)
  }

  predicate ProcessEnabled(s: State, me: nat, a: Action)
    requires me < |s.procs|
  {
    var pc := s.procs[me].pc;
    if pc.User? then
      match a
      case DoAcquire(l) => l < |s.locks|
      case DoRelease(l) => l < |s.locks| && l in s.procs[me].inside
      case DoHolding(l) => l < |s.locks|
      case _ => true
    else if a.Timer? && Interruptible(pc) then true
    else if InYield(pc) then pc.YieldLock? ==> s.procs[me].lk.None?
    else if InWakeup(pc) then if pc.WakeNext? then (pc.k < |s.procs| && pc.k != me ==> s.procs[pc.k].lk.None?)
        else pc.k < |s.procs|
    else
      && pc.l < |s.locks|
      && (pc.Acquire? || pc.SleepRetake? || pc.Release? || pc.Holding? ==> s.locks[pc.l].spin.None?)
      && (pc.SleepLock? ==> s.procs[me].lk.None?)
  }

  /** One step of CPU `c`. */
  function Step(s: State, c: nat, a: Action): State
    requires Enabled(s, c, a)
  {
    if s.cpus[c].pc.Process? then ProcessStep(s, c, s.cpus[c].cur.value, a) else SchedulerStep(s, c)
  }

  /** proc_scheduler */
  function SchedulerStep(s: State, c: nat): State
    requires c < |s.cpus| && !s.cpus[c].pc.Process? && s.cpus[c].pc.i < |s.procs|
  {
    match s.cpus[c].pc
    case Scan(i) => WithCpu(WithProc(s, i, s.procs[i].(lk := Some(c))), c, Cpu(None, Check(i)))
    case Check(i) =>
      if s.procs[i].state == RUNNABLE
      then WithCpu(WithProc(s, i, s.procs[i].(state := RUNNING, on := Some(c))), c, Cpu(None, SetCurrent(i)))
      else WithCpu(s, c, Cpu(None, Unlock(i)))
    case SetCurrent(i) => WithCpu(s, c, Cpu(Some(i), Switch(i)))
    case Switch(i) => WithCpu(s, c, s.cpus[c].(pc := Process))
    case Back(i) => WithCpu(WithProc(s, i, s.procs[i].(on := None)), c, Cpu(None, Unlock(i)))
    case Unlock(i) => WithCpu(WithProc(s, i, s.procs[i].(lk := None)), c, Cpu(None, Scan(NextIndex(s, i))))
  }

  /** CPU `c` is executing process `me`. */
  predicate Running(s: State, c: nat, me: nat) {
    c < |s.cpus| && me < |s.procs| && s.cpus[c].pc == Process && s.cpus[c].cur == Some(me)
  }

  /** One statement of process `me` on CPU `c`. */
  function ProcessStep(s: State, c: nat, me: nat, a: Action): State
    requires Enabled(s, c, a) && Running(s, c, me)
  {
    var pc := s.procs[me].pc;
    if pc.User? || (a.Timer? && Interruptible(pc)) then Jump(s, me, MoveTo(pc, a))
    else if InYield(pc) then YieldStep(s, c, me)
    else if InSleep(pc) then SleepStep(s, c, me)
    else if InAcquire(pc) then AcquireStep(s, c, me)
    else if InRelease(pc) then ReleaseStep(s, c, me)
    else if InWakeup(pc) then WakeupStep(s, c, me)
    else HoldingStep(s, c, me)
  }

  /** Where a call made outside, or a timer interrupt, takes the process. */
  function MoveTo(pc: PC, a: Action): PC {
    if a.Timer? then YieldLock(pc)
    else if a.DoAcquire? then Acquire(a.l)
    else if a.DoRelease? then Release(a.l)
    else if a.DoHolding? then Holding(a.l)
    else pc
  }

  predicate InYield(pc: PC) { pc.Entry? || pc.YieldLock? || pc.YieldState? || pc.YieldSwitch? || pc.YieldUnlock? }

  /** proc_entry_point and proc_yield */
  function YieldStep(s: State, c: nat, me: nat): State
    requires Running(s, c, me) && InYield(s.procs[me].pc)
  {
    var p := s.procs[me];
    match p.pc
    case Entry => WithProc(s, me, p.(lk := None, pc := User))
    case YieldLock(ret) => WithProc(s, me, p.(lk := Some(c), pc := YieldState(ret)))
    case YieldState(ret) => WithProc(s, me, p.(state := RUNNABLE, pc := YieldSwitch(ret)))
    case YieldSwitch(ret) => WithCpu(Jump(s, me, YieldUnlock(ret)), c, s.cpus[c].(pc := Back(me)))
    case YieldUnlock(ret) => WithProc(s, me, p.(lk := None, pc := ret))
  }

  predicate InSleep(pc: PC) {
    pc.SleepLock? || pc.SleepRelease? || pc.SleepChan? || pc.SleepState? || pc.SleepSwitch? || pc.SleepWoken? ||
        pc.SleepUnlock? || pc.SleepRetake?
  }

  /** proc_sleep on the sleep lock, with its inner spinlock */
  function SleepStep(s: State, c: nat, me: nat): State
    requires Running(s, c, me) && InSleep(s.procs[me].pc) && s.procs[me].pc.l < |s.locks|
  {
    var p := s.procs[me];
    match p.pc
    case SleepLock(l) => WithProc(s, me, p.(lk := Some(c), pc := SleepRelease(l)))
    case SleepRelease(l) => WithLock(Jump(s, me, SleepChan(l)), l, s.locks[l].(spin := None))
    case SleepChan(l) => WithProc(s, me, p.(chan := Some(l), pc := SleepState(l)))
    case SleepState(l) => WithProc(s, me, p.(state := SLEEPING, pc := SleepSwitch(l)))
    case SleepSwitch(l) => WithCpu(Jump(s, me, SleepWoken(l)), c, s.cpus[c].(pc := Back(me)))
    case SleepWoken(l) => WithProc(s, me, p.(chan := None, pc := SleepUnlock(l)))
    case SleepUnlock(l) => WithProc(s, me, p.(lk := None, pc := SleepRetake(l)))
    case SleepRetake(l) => WithLock(Jump(s, me, Test(l)), l, s.locks[l].(spin := Some(c)))
  }

  predicate InAcquire(pc: PC) { pc.Acquire? || pc.Test? || pc.Take? || pc.TakePid? || pc.TakeDone? }

  /** sleeplock_acquire */
  function AcquireStep(s: State, c: nat, me: nat): State
    requires Running(s, c, me) && InAcquire(s.procs[me].pc) && s.procs[me].pc.l < |s.locks|
  {
    match s.procs[me].pc
    case Acquire(l) => WithLock(Jump(s, me, Test(l)), l, s.locks[l].(spin := Some(c)))
    case Test(l) => Jump(s, me, if s.locks[l].locked then SleepLock(l) else Take(l))
    case Take(l) => WithLock(WithProc(s, me, s.procs[me].(pc := TakePid(l), inside := s.procs[me].inside + {l})), l,
        s.locks[l].(locked := true, holder := Some(me)))
    case TakePid(l) => WithLock(Jump(s, me, TakeDone(l)), l, s.locks[l].(pid := s.procs[me].pid))
    case TakeDone(l) => WithLock(Jump(s, me, User), l, s.locks[l].(spin := None))
  }

  predicate InRelease(pc: PC) { pc.Release? || pc.Clear? || pc.ClearPid? || pc.ReleaseDone? }

  /** sleeplock_release */
  function ReleaseStep(s: State, c: nat, me: nat): State
    requires Running(s, c, me) && InRelease(s.procs[me].pc) && s.procs[me].pc.l < |s.locks|
  {
    match s.procs[me].pc
    case Release(l) => WithLock(Jump(s, me, Clear(l)), l, s.locks[l].(spin := Some(c)))
    case Clear(l) => WithLock(WithProc(s, me, s.procs[me].(pc := ClearPid(l), inside := s.procs[me].inside - {l})), l,
        s.locks[l].(locked := false, holder := None))
    case ClearPid(l) => WithLock(Jump(s, me, WakeNext(l, 0)), l, s.locks[l].(pid := 0))
    case ReleaseDone(l) => WithLock(Jump(s, me, User), l, s.locks[l].(spin := None))
  }

  predicate InWakeup(pc: PC) { pc.WakeNext? || pc.WakeTest? || pc.WakeUnlock? }

  /** proc_wakeup on the sleep lock */
  function WakeupStep(s: State, c: nat, me: nat): State
    requires Running(s, c, me) && InWakeup(s.procs[me].pc)
    requires (!s.procs[me].pc.WakeNext? ==> s.procs[me].pc.k < |s.procs|)
  {
    match s.procs[me].pc
    case WakeNext(l, k) =>
      if k >= |s.procs| then Jump(s, me, ReleaseDone(l))
      else if k == me then Jump(s, me, WakeNext(l, k + 1))
      else WithProc(Jump(s, me, WakeTest(l, k)), k, s.procs[k].(lk := Some(c)))
    case WakeTest(l, k) =>
      var q := s.procs[k];
      var t := Jump(s, me, WakeUnlock(l, k));
      if q.state == SLEEPING && q.chan == Some(l) then WithProc(t, k, t.procs[k].(state := RUNNABLE)) else t
    case WakeUnlock(l, k) => var t := Jump(s, me, WakeNext(l, k + 1)); WithProc(t, k, t.procs[k].(lk := None))
  }

  predicate InHolding(pc: PC) { pc.Holding? || pc.HoldingTest? || pc.HoldingDone? }

  /** sleeplock_holding */
  function HoldingStep(s: State, c: nat, me: nat): State
    requires Running(s, c, me) && InHolding(s.procs[me].pc) && s.procs[me].pc.l < |s.locks|
  {
    match s.procs[me].pc
    case Holding(l) => WithLock(Jump(s, me, HoldingTest(l)), l, s.locks[l].(spin := Some(c)))
    case HoldingTest(l) => Jump(s, me, HoldingDone(l, s.locks[l].locked && s.locks[l].pid == s.procs[me].pid))
    case HoldingDone(l, _) => WithLock(Jump(s, me, User), l, s.locks[l].(spin := None))
  }

  // What a point of the code implies

  /** The running process holds its own lock. */
  predicate HoldsSelf(pc: PC) {
    || pc.Entry? || pc.SleepRelease? || pc.SleepChan? || pc.SleepState? || pc.SleepSwitch? || pc.SleepWoken? ||
        pc.SleepUnlock?
    || pc.YieldState? || pc.YieldSwitch? || pc.YieldUnlock?
  }

  /** The process whose lock the running process holds in order to wake it. */
  function Waking(pc: PC): Option<nat> {
    if pc.WakeTest? || pc.WakeUnlock? then Some(pc.k) else None
  }

  /** The sleep lock whose inner spinlock the running process holds. */
  function SpinOf(pc: PC): Option<nat> {
    if || pc.Test? || pc.SleepLock? || pc.SleepRelease? || pc.Take? || pc.TakePid? || pc.TakeDone? || pc.Clear? ||
        pc.ClearPid?
       || pc.WakeNext? || pc.WakeTest? || pc.WakeUnlock? || pc.ReleaseDone? || pc.HoldingTest? || pc.HoldingDone?
    then Some(pc.l) else None
  }

  /** The sleep lock that the process must be inside of. */
  function InsideOf(pc: PC): Option<nat>
    decreases pc
  {
    match pc
    case YieldLock(ret) => InsideOf(ret)
    case YieldState(ret) => InsideOf(ret)
    case YieldSwitch(ret) => InsideOf(ret)
    case YieldUnlock(ret) => InsideOf(ret)
    case TakePid(l) => Some(l)
    case TakeDone(l) => Some(l)
    case Release(l) => Some(l)
    case Clear(l) => Some(l)
    case _ => None
  }

  /** What the running process `me`, holding the spinlock of `k`, has already found out about it. */
  predicate Found(pc: PC, k: SleepLk, me: nat) {
    && (pc.Take? || pc.ClearPid? ==> !k.locked)
    && (pc.SleepLock? ==> k.locked)
    && (pc.HoldingDone? ==> pc.r == (k.holder == Some(me)))
  }

  function StateAt(pc: PC): RunState {
    if pc.SleepSwitch? then SLEEPING else if pc.YieldSwitch? then RUNNABLE else RUNNING
  }

  function ChanAt(pc: PC): Option<nat> {
    if pc.SleepState? || pc.SleepSwitch? || pc.SleepWoken? then Some(pc.l) else None
  }

  predicate MaySleep(pc: PC) { pc.SleepSwitch? || pc.SleepWoken? }

  /** Where a process that is not on a CPU continues. */
  predicate Resumable(pc: PC) { pc.Entry? || pc.SleepWoken? || pc.YieldUnlock? }

  /** The sleep lock a point works on exists, and a yield returns to a point without spinlocks. */
  predicate InRange(pc: PC, n: nat)
    decreases pc
  {
    match pc
    case Entry => true
    case User => true
    case YieldLock(ret) => Interruptible(ret) && InRange(ret, n)
    case YieldState(ret) => Interruptible(ret) && InRange(ret, n)
    case YieldSwitch(ret) => Interruptible(ret) && InRange(ret, n)
    case YieldUnlock(ret) => Interruptible(ret) && InRange(ret, n)
    case x => x.l < n
  }

  /** The process will still look at process `i` before its sleeplock_release of `l` is over. */
  predicate WillWake(pc: PC, l: nat, i: nat) {
    || pc == ClearPid(l)
    || ((pc.WakeNext? || pc.WakeTest?) && pc.l == l && pc.k <= i)
    || (pc.WakeUnlock? && pc.l == l && pc.k < i)
  }

  /** The process has let go of the inner spinlock in order to sleep, and has not been woken. */
  predicate Waiting(p: Proc, l: nat) {
    || p.pc == SleepRelease(l) || p.pc == SleepChan(l) || p.pc == SleepState(l)
    || (p.state == SLEEPING && p.chan == Some(l))
  }

  // The invariant

  /** The process whose code CPU `c` is executing. */
  function Current(s: State, c: nat): Option<nat> {
    if c < |s.cpus| && s.cpus[c].pc.Process? && s.cpus[c].cur.Some? && s.cpus[c].cur.value < |s.procs| then
        s.cpus[c].cur else None
  }

  /** c->proc is set exactly between its two assignments, and every lock the CPU counts on is its own. */
  ghost predicate CpuInv(s: State, c: nat)
    requires c < |s.cpus|
  {
    var x := s.cpus[c];
    if x.pc.Process? then
      x.cur.Some? && x.cur.value < |s.procs| &&
      var me := x.cur.value;
      var p := s.procs[me];
      && p.on == Some(c)
      && p.state == StateAt(p.pc)
      && (HoldsSelf(p.pc) ==> p.lk == Some(c))
      && (var l := SpinOf(p.pc); l.Some? ==>
          l.value < |s.locks| && s.locks[l.value].spin == Some(c) && Found(p.pc, s.locks[l.value], me))
      && (var k := Waking(p.pc); k.Some? ==> k.value < |s.procs| && k.value != me && s.procs[k.value].lk == Some(c))
    else
      && x.pc.i < |s.procs|
      && (!x.pc.Scan? ==> s.procs[x.pc.i].lk == Some(c))
      && (x.pc.Switch? || x.pc.Back? ==> x.cur == Some(x.pc.i))
      && (x.pc.Scan? || x.pc.Check? || x.pc.SetCurrent? || x.pc.Unlock? ==> x.cur.None?)
      && (x.pc.SetCurrent? || x.pc.Switch? ==> s.procs[x.pc.i].state == RUNNING && s.procs[x.pc.i].on == Some(c))
      && (x.pc.Back? ==> s.procs[x.pc.i].state != RUNNING && s.procs[x.pc.i].on == Some(c))
  }

  /** CPU `c` is at a point where it holds the lock of process `i`. */
  predicate HoldsLockOf(s: State, c: nat, i: nat) {
    c < |s.cpus| &&
    if s.cpus[c].pc.Process? then
      var me := Current(s, c);
      me.Some? && var pc := s.procs[me.value].pc; (me.value == i && HoldsSelf(pc)) || Waking(pc) == Some(i)
    else !s.cpus[c].pc.Scan? && s.cpus[c].pc.i == i
  }

  /** A process not executing is at a resume point; only a process on a CPU is RUNNING. */
  ghost predicate ProcInv(s: State, i: nat)
    requires i < |s.procs|
  {
    var p := s.procs[i];
    && p.pid > 0
    && InRange(p.pc, |s.locks|)
    && (p.lk.Some? ==> HoldsLockOf(s, p.lk.value, i))
    && (p.on.Some? ==>
        p.on.value < |s.cpus| && (s.cpus[p.on.value].cur == Some(i) || s.cpus[p.on.value].pc == SetCurrent(i)))
    && ((p.on.Some? && Current(s, p.on.value) == Some(i)) || Resumable(p.pc))
    && (p.state == RUNNING ==> p.on.Some?)
    && p.chan == ChanAt(p.pc)
    && (p.state == SLEEPING ==> MaySleep(p.pc))
    && (forall l {:trigger l in p.inside} :: l in p.inside <==> 0 <= l < |s.locks| && s.locks[l].holder == Some(i))
    && (var l := InsideOf(p.pc); l.Some? ==> l.value < |s.locks| && s.locks[l.value].holder == Some(i))
  }

  /** `locked` and `pid` describe the one process inside. */
  ghost predicate LockInv(s: State, l: nat)
    requires l < |s.locks|
  {
    var k := s.locks[l];
    && (k.spin.Some? ==> var j := Current(s, k.spin.value); j.Some? && SpinOf(s.procs[j.value].pc) == Some(l))
    && (k.locked <==> k.holder.Some?)
    && (k.holder.Some? ==>
          && k.holder.value < |s.procs|
          && (s.procs[k.holder.value].pc == TakePid(l) || k.pid == s.procs[k.holder.value].pid))
    && (k.holder.None? ==>
          || k.pid == 0
          || (k.spin.Some? && var j := Current(s, k.spin.value); j.Some? && s.procs[j.value].pc == ClearPid(l)))
  }

  /** A process on its way to sleep, or asleep, on a free lock is about to be woken. */
  ghost predicate WaitInv(s: State, i: nat, l: nat)
    requires i < |s.procs| && l < |s.locks|
  {
    var k := s.locks[l];
    Waiting(s.procs[i], l) ==>
      k.locked || (k.spin.Some? && var j := Current(s, k.spin.value); j.Some? && WillWake(s.procs[j.value].pc, l, i))
  }

  ghost predicate Inv(s: State) {
    && |s.procs| > 0
    && (forall c {:trigger CpuInv(s, c)} :: 0 <= c < |s.cpus| ==> CpuInv(s, c))
    && (forall i {:trigger ProcInv(s, i)} :: 0 <= i < |s.procs| ==> ProcInv(s, i))
    && (forall l {:trigger LockInv(s, l)} :: 0 <= l < |s.locks| ==> LockInv(s, l))
    && (forall i, l {:trigger WaitInv(s, i, l)} :: 0 <= i < |s.procs| && 0 <= l < |s.locks| ==> WaitInv(s, i, l))
    && (forall i, j {:trigger s.procs[i].pid, s.procs[j].pid} ::
        0 <= i < |s.procs| && 0 <= j < |s.procs| && s.procs[i].pid == s.procs[j].pid ==> i == j)
  }

  lemma CpuFact(s: State, c: nat)
    requires Inv(s) && c < |s.cpus|
    ensures CpuInv(s, c)
  {
    hide CpuInv, ProcInv, LockInv, WaitInv;
  }

  lemma ProcFact(s: State, i: nat)
    requires Inv(s) && i < |s.procs|
    ensures ProcInv(s, i)
  {
    hide CpuInv, ProcInv, LockInv, WaitInv;
  }

  lemma LockFact(s: State, l: nat)
    requires Inv(s) && l < |s.locks|
    ensures LockInv(s, l)
  {
    hide CpuInv, ProcInv, LockInv, WaitInv;
  }

  lemma PidFact(s: State, i: nat, j: nat)
    requires Inv(s) && i < |s.procs| && j < |s.procs|
    ensures s.procs[i].pid == s.procs[j].pid ==> i == j
  {
    hide CpuInv, ProcInv, LockInv, WaitInv;
  }

  lemma WaitFact(s: State, i: nat, l: nat)
    requires Inv(s) && i < |s.procs| && l < |s.locks|
    ensures WaitInv(s, i, l)
  {
    hide CpuInv, ProcInv, LockInv, WaitInv;
  }

  // A step of one CPU leaves alone what the others own

  /** From `s` to `t`, CPU `c` has changed only its own process, and locks that were free or its own. */
  ghost predicate Local(s: State, t: State, c: nat) {
    && |t.procs| == |s.procs| && |t.cpus| == |s.cpus| && |t.locks| == |s.locks|
    && (forall d {:trigger t.cpus[d]} :: 0 <= d < |s.cpus| && d != c ==> t.cpus[d] == s.cpus[d])
    && (forall i {:trigger t.procs[i]} :: 0 <= i < |s.procs| ==>
        LocalProc(s.procs[i], t.procs[i], c, Current(s, c) == Some(i)))
    && (forall l {:trigger t.locks[l]} :: 0 <= l < |s.locks| ==> LocalLock(s.locks[l], t.locks[l], c, Current(s, c)))
  }

  predicate LocalProc(p: Proc, q: Proc, c: nat, mine: bool) {
    && q.pid == p.pid
    && (!mine ==> q.pc == p.pc && q.chan == p.chan && q.inside == p.inside)
    && (!mine ==>
          || q.state == p.state
          || (p.state == SLEEPING && q.state == RUNNABLE && p.lk == Some(c))
          || (p.state == RUNNABLE && q.state == RUNNING && q.on == Some(c) && p.lk == Some(c)))
    && (q.on.None? && p.on.Some? ==> q.state != RUNNING)
    && (q.on != p.on ==> (p.on.None? || p.on == Some(c)) && (q.on.None? || q.on == Some(c)))
    && (q.lk != p.lk ==> (p.lk.None? || p.lk == Some(c)) && (q.lk.None? || q.lk == Some(c)))
  }

  predicate LocalLock(k: SleepLk, m: SleepLk, c: nat, me: Option<nat>) {
    && (m != k ==> (k.spin.None? || k.spin == Some(c)) && (m.spin.None? || m.spin == Some(c)))
    && (m.holder != k.holder ==> me.Some? && (k.holder.None? || k.holder == me) && (m.holder.None? || m.holder == me))
  }

  /** A process that is not RUNNING is on a CPU only while that CPU holds its lock. */
  lemma OffCpu(s: State, i: nat)
    requires Inv(s) && i < |s.procs| && s.procs[i].state != RUNNING && s.procs[i].on.Some?
    ensures s.procs[i].lk == s.procs[i].on
  {
    var p := s.procs[i];
    assert ProcInv(s, i);
    assert CpuInv(s, p.on.value);
  }

  /** Changing one CPU and the records of at most two processes. */
  lemma LocalProcs(s: State, t: State, c: nat, x: Cpu, i: nat, p: Proc, k: nat, q: Proc)
    requires c < |s.cpus| && i < |s.procs| && k < |s.procs|
    requires t == State(s.procs[i := p][k := q], s.cpus[c := x], s.locks)
    requires i != k ==> LocalProc(s.procs[i], p, c, Current(s, c) == Some(i))
    requires LocalProc(s.procs[k], q, c, Current(s, c) == Some(k))
    ensures Local(s, t, c)
  {}

  /** Changing one process record and one sleep lock. */
  lemma LocalProcAndLock(s: State, t: State, c: nat, i: nat, p: Proc, l: nat, m: SleepLk)
    requires c < |s.cpus| && i < |s.procs| && l < |s.locks|
    requires t == State(s.procs[i := p], s.cpus, s.locks[l := m])
    requires LocalProc(s.procs[i], p, c, Current(s, c) == Some(i)) && LocalLock(s.locks[l], m, c, Current(s, c))
    ensures Local(s, t, c)
  {}

  lemma OtherCpu(s: State, t: State, c: nat, d: nat)
    requires Inv(s) && c < |s.cpus| && d < |s.cpus| && d != c && CpuInv(s, c) && Local(s, t, c)
    ensures CpuInv(t, d)
  {
    hide Inv, HoldsSelf, Waking, SpinOf, Found, StateAt;
    CpuFact(s, d);
    var x := s.cpus[d];
    assert t.cpus[d] == x;
    if x.pc.Process? {
      var me := x.cur.value;
      assert LocalProc(s.procs[me], t.procs[me], c, Current(s, c) == Some(me));
      if s.procs[me].state != RUNNING { OnCpuLocked(s, d); }
    } else {
      assert LocalProc(s.procs[x.pc.i], t.procs[x.pc.i], c, Current(s, c) == Some(x.pc.i));
    }
  }

  /** A process that has left the state RUNNING holds its lock. */
  lemma OnCpuLocked(s: State, d: nat)
    requires d < |s.cpus| && CpuInv(s, d) && s.cpus[d].pc.Process? && s.procs[s.cpus[d].cur.value].state != RUNNING
    ensures s.procs[s.cpus[d].cur.value].lk == Some(d)
  {}

  lemma OtherProc(s: State, t: State, c: nat, i: nat)
    requires Inv(s) && c < |s.cpus| && i < |s.procs| && Local(s, t, c)
    requires Current(s, c) != Some(i) && t.procs[i].on != Some(c) && s.procs[i].lk != Some(c)
    requires t.procs[i].lk != Some(c)
    ensures ProcInv(t, i)
  {
    assert ProcInv(s, i);
    if s.procs[i].lk.Some? {
      var d := s.procs[i].lk.value;
      if Current(s, d).Some? { SameCode(s, t, c, d); }
      assert t.cpus[d] == s.cpus[d];
    }
    hide HoldsSelf, Waking, Inv, InRange, InsideOf, ChanAt, Resumable, MaySleep;
    assert LocalProc(s.procs[i], t.procs[i], c, false);
    var p := t.procs[i];
    if p.on.Some? { assert t.cpus[p.on.value] == s.cpus[p.on.value]; }
    var l := InsideOf(p.pc);
    assert forall m :: 0 <= m < |s.locks| ==> LocalLock(s.locks[m], t.locks[m], c, Current(s, c));
  }

  lemma OtherLock(s: State, t: State, c: nat, l: nat)
    requires Inv(s) && c < |s.cpus| && l < |s.locks| && Local(s, t, c)
    requires t.locks[l] == s.locks[l] && s.locks[l].spin != Some(c)
    ensures LockInv(t, l)
  {
    assert LockInv(s, l) && CpuInv(s, c);
    hide Inv;
    var k := s.locks[l];
    if k.holder.Some? {
      assert LocalProc(s.procs[k.holder.value], t.procs[k.holder.value], c, Current(s, c) == k.holder);
    }
    if k.spin.Some? {
      var j := Current(s, k.spin.value);
      if j.Some? { assert t.cpus[k.spin.value] == s.cpus[k.spin.value]; SameCode(s, t, c, k.spin.value); }
    }
  }

  /** The code point of a process on another CPU has not moved. */
  lemma SameCode(s: State, t: State, c: nat, d: nat)
    requires Inv(s) && c < |s.cpus| && d != c && d < |s.cpus| && Local(s, t, c) && Current(s, d).Some?
    ensures Current(t, d) == Current(s, d) && t.procs[Current(s, d).value].pc == s.procs[Current(s, d).value].pc
  {
    assert CpuInv(s, c) && CpuInv(s, d);
    hide Inv;
    var j := Current(s, d).value;
    assert t.cpus[d] == s.cpus[d];
    assert LocalProc(s.procs[j], t.procs[j], c, Current(s, c) == Some(j));
  }

  lemma OtherWait(s: State, t: State, c: nat, i: nat, l: nat)
    requires Inv(s) && c < |s.cpus| && i < |s.procs| && l < |s.locks| && Local(s, t, c)
    requires t.locks[l] == s.locks[l] && s.locks[l].spin != Some(c) && Current(s, c) != Some(i)
    ensures WaitInv(t, i, l)
  {
    assert WaitInv(s, i, l);
    assert LocalProc(s.procs[i], t.procs[i], c, false);
    var k := s.locks[l];
    if k.spin.Some? && k.spin.value < |s.cpus| && Current(s, k.spin.value).Some? { SameCode(s, t, c, k.spin.value); }
    hide Inv, WillWake;
  }

  // What a step does to what the CPU owns

  /** Whoever holds the inner spinlock, except midway through taking the lock, reads the pid of the process inside. */
  lemma PidRight(s: State, c: nat, l: nat)
    requires Inv(s) && c < |s.cpus| && l < |s.locks| && s.locks[l].spin == Some(c) && s.locks[l].locked
    requires Current(s, c).Some? && s.procs[Current(s, c).value].pc != TakePid(l)
    ensures s.locks[l].holder.Some? && s.locks[l].holder.value < |s.procs|
    ensures s.locks[l].pid == s.procs[s.locks[l].holder.value].pid
  {
    assert LockInv(s, l);
    var h := s.locks[l].holder.value;
    assert ProcInv(s, h);
    if s.procs[h].on.Some? { assert CpuInv(s, s.procs[h].on.value); }
  }

  predicate OwnProcess(s: State, t: State, c: nat, i: nat)
    requires i < |s.procs| && i < |t.procs|
  {
    Current(s, c) == Some(i) || t.procs[i].on == Some(c) || s.procs[i].lk == Some(c) || t.procs[i].lk == Some(c)
  }

  predicate OwnSleepLk(s: State, t: State, c: nat, l: nat)
    requires l < |s.locks| && l < |t.locks|
  {
    s.locks[l].spin == Some(c) || t.locks[l] != s.locks[l]
  }

  /** The part of the invariant a step of CPU `c` could break. */
  ghost predicate OwnKept(s: State, t: State, c: nat) {
    && Local(s, t, c)
    && c < |t.cpus| && CpuInv(t, c)
    && (forall i {:trigger ProcInv(t, i)} :: 0 <= i < |t.procs| && OwnProcess(s, t, c, i) ==> ProcInv(t, i))
    && (forall l {:trigger LockInv(t, l)} :: 0 <= l < |t.locks| && OwnSleepLk(s, t, c, l) ==> LockInv(t, l))
    && (forall i, l {:trigger WaitInv(t, i, l)} ::
        0 <= i < |t.procs| && 0 <= l < |t.locks| && (Current(s, c) == Some(i) || OwnSleepLk(s, t, c, l)) ==>
          WaitInv(t, i, l))
  }

  /** It is enough to look at what the CPU owns. */
  lemma OwnSuffices(s: State, t: State, c: nat)
    requires Inv(s) && c < |s.cpus| && OwnKept(s, t, c)
    ensures Inv(t)
  {
    assert CpuInv(s, c);
    hide CpuInv, ProcInv, LockInv, WaitInv, LocalLock;
    forall d | 0 <= d < |t.cpus| ensures CpuInv(t, d) { if d != c { OtherCpu(s, t, c, d); } }
    forall i | 0 <= i < |t.procs| ensures ProcInv(t, i) {
      if !OwnProcess(s, t, c, i) { OtherProc(s, t, c, i); }
    }
    forall l | 0 <= l < |t.locks| ensures LockInv(t, l) {
      if !OwnSleepLk(s, t, c, l) { OtherLock(s, t, c, l); }
    }
    forall i, l | 0 <= i < |t.procs| && 0 <= l < |t.locks| ensures WaitInv(t, i, l) {
      if Current(s, c) != Some(i) && !OwnSleepLk(s, t, c, l) { OtherWait(s, t, c, i, l); }
    }
    assert forall i :: 0 <= i < |t.procs| ==> LocalProc(s.procs[i], t.procs[i], c, Current(s, c) == Some(i));
  }

  lemma SchedulerKeeps(s: State, c: nat)
    requires Inv(s) && c < |s.cpus| && !s.cpus[c].pc.Process? && s.cpus[c].pc.i < |s.procs|
    requires s.cpus[c].pc.Scan? ==> s.procs[s.cpus[c].pc.i].lk.None?
    ensures OwnKept(s, SchedulerStep(s, c), c)
  {
    var t := SchedulerStep(s, c);
    var i := s.cpus[c].pc.i;
    assert CpuInv(s, c) && ProcInv(s, i);
    if s.procs[i].state != RUNNING && s.procs[i].on.Some? { OffCpu(s, i); }
    LocalProcs(s, t, c, t.cpus[c], i, t.procs[i], i, t.procs[i]) by { hide Local; }
    assert CpuInv(t, c);
    forall k | 0 <= k < |t.procs| && OwnProcess(s, t, c, k) ensures ProcInv(t, k) { SchedulerProc(s, c, k); }
    forall l | 0 <= l < |t.locks| ensures !OwnSleepLk(s, t, c, l) { assert LockInv(s, l); }
    hide CpuInv, ProcInv, LockInv, WaitInv, Local;
  }

  lemma SchedulerProc(s: State, c: nat, k: nat)
    requires Inv(s) && c < |s.cpus| && !s.cpus[c].pc.Process? && s.cpus[c].pc.i < |s.procs| && k < |s.procs|
    requires s.cpus[c].pc.Scan? ==> s.procs[s.cpus[c].pc.i].lk.None?
    requires OwnProcess(s, SchedulerStep(s, c), c, k)
    ensures ProcInv(SchedulerStep(s, c), k)
  {
    hide Inv, InRange, InsideOf;
    CpuFact(s, c);
    ProcFact(s, k);
    if s.procs[k].state != RUNNING && s.procs[k].on.Some? { OffCpu(s, k); }
  }

  /** Nothing but the record of the running process and lock `l` was touched. */
  ghost predicate Touched(s: State, t: State, me: nat, l: nat) {
    && |t.procs| == |s.procs| && |t.locks| == |s.locks|
    && (forall i {:trigger t.procs[i]} :: 0 <= i < |s.procs| && i != me ==> t.procs[i] == s.procs[i])
    && (forall m {:trigger t.locks[m]} :: 0 <= m < |s.locks| && m != l ==> t.locks[m] == s.locks[m])
  }

  /** For a statement outside proc_wakeup, it is enough to look at the process and the lock it works on. */
  lemma OwnClose(s: State, t: State, c: nat, me: nat, l: nat)
    requires Inv(s) && Running(s, c, me) && Local(s, t, c) && Touched(s, t, me, l)
    requires Waking(s.procs[me].pc).None? && (SpinOf(s.procs[me].pc).Some? ==> SpinOf(s.procs[me].pc) == Some(l))
    requires CpuInv(t, c) && ProcInv(t, me)
    requires forall m {:trigger WaitInv(t, me, m)} :: 0 <= m < |t.locks| ==> WaitInv(t, me, m)
    requires l < |t.locks| ==> LockInv(t, l)
    requires forall i {:trigger WaitInv(t, i, l)} :: l < |t.locks| && 0 <= i < |t.procs| ==> WaitInv(t, i, l)
    ensures OwnKept(s, t, c)
  {
    assert CpuInv(s, c);
    forall i | 0 <= i < |t.procs| && i != me ensures !OwnProcess(s, t, c, i) {
      assert ProcInv(s, i);
      hide Inv, InRange, InsideOf, ChanAt, MaySleep, Resumable;
    }
    forall m | 0 <= m < |t.locks| && m != l ensures !OwnSleepLk(s, t, c, m) { assert LockInv(s, m); }
    hide CpuInv, ProcInv, LockInv, WaitInv, Local, Inv;
  }

  lemma YieldCpu(s: State, c: nat, me: nat)
    requires Inv(s) && Running(s, c, me) && InYield(s.procs[me].pc)
    requires (s.procs[me].pc.YieldLock? ==> s.procs[me].lk.None?)
    ensures CpuInv(YieldStep(s, c, me), c)
  {
    hide Inv, InsideOf, ChanAt, Resumable, MaySleep;
    CpuFact(s, c);
    ProcFact(s, me);
  }

  lemma YieldProc(s: State, c: nat, me: nat)
    requires Inv(s) && Running(s, c, me) && InYield(s.procs[me].pc)
    requires (s.procs[me].pc.YieldLock? ==> s.procs[me].lk.None?)
    ensures ProcInv(YieldStep(s, c, me), me)
  {
    hide Inv, SpinOf, Found, Waking;
    CpuFact(s, c);
    ProcFact(s, me);
  }

  lemma YieldKeeps(s: State, c: nat, me: nat)
    requires Inv(s) && Running(s, c, me) && InYield(s.procs[me].pc)
    requires (s.procs[me].pc.YieldLock? ==> s.procs[me].lk.None?)
    ensures OwnKept(s, YieldStep(s, c, me), c)
  {
    var t := YieldStep(s, c, me);
    assert CpuInv(s, c) && ProcInv(s, me);
    LocalProcs(s, t, c, t.cpus[c], me, t.procs[me], me, t.procs[me]) by { hide Local; }
    assert Waking(s.procs[me].pc).None? && SpinOf(s.procs[me].pc).None? && Touched(s, t, me, |s.locks|);
    YieldCpu(s, c, me);
    YieldProc(s, c, me);
    forall m | 0 <= m < |t.locks| ensures WaitInv(t, me, m) {}
    hide Inv, Local, CpuInv, ProcInv, WaitInv, LockInv;
    OwnClose(s, t, c, me, |s.locks|);
  }

  lemma FallAsleepCpu(s: State, c: nat, me: nat)
    requires Inv(s) && Running(s, c, me) && InSleep(s.procs[me].pc) && s.procs[me].pc.l < |s.locks|
    requires s.procs[me].pc.SleepLock? ==> s.procs[me].lk.None?
    requires s.procs[me].pc.SleepRetake? ==> s.locks[s.procs[me].pc.l].spin.None?
    requires var pc := s.procs[me].pc; pc.SleepLock? || pc.SleepRelease? || pc.SleepChan? || pc.SleepState?
    ensures CpuInv(SleepStep(s, c, me), c)
  {
    hide Inv, InsideOf, InRange, ChanAt, Resumable, MaySleep;
    CpuFact(s, c);
    ProcFact(s, me);
  }

  lemma WakeUpCpu(s: State, c: nat, me: nat)
    requires Inv(s) && Running(s, c, me) && InSleep(s.procs[me].pc) && s.procs[me].pc.l < |s.locks|
    requires s.procs[me].pc.SleepLock? ==> s.procs[me].lk.None?
    requires s.procs[me].pc.SleepRetake? ==> s.locks[s.procs[me].pc.l].spin.None?
    requires var pc := s.procs[me].pc; !(pc.SleepLock? || pc.SleepRelease? || pc.SleepChan? || pc.SleepState?)
    ensures CpuInv(SleepStep(s, c, me), c)
  {
    hide Inv, InsideOf, InRange, ChanAt, Resumable, MaySleep;
    CpuFact(s, c);
    ProcFact(s, me);
  }

  lemma SleepCpu(s: State, c: nat, me: nat)
    requires Inv(s) && Running(s, c, me) && InSleep(s.procs[me].pc) && s.procs[me].pc.l < |s.locks|
    requires s.procs[me].pc.SleepLock? ==> s.procs[me].lk.None?
    requires s.procs[me].pc.SleepRetake? ==> s.locks[s.procs[me].pc.l].spin.None?
    ensures CpuInv(SleepStep(s, c, me), c)
  {
    hide Inv, CpuInv, SleepStep;
    var pc := s.procs[me].pc;
    if pc.SleepLock? || pc.SleepRelease? || pc.SleepChan? || pc.SleepState? { FallAsleepCpu(s, c, me); }
        else { WakeUpCpu(s, c, me); }
  }

  lemma SleepProc(s: State, c: nat, me: nat)
    requires Inv(s) && Running(s, c, me) && InSleep(s.procs[me].pc) && s.procs[me].pc.l < |s.locks|
    requires s.procs[me].pc.SleepLock? ==> s.procs[me].lk.None?
    requires s.procs[me].pc.SleepRetake? ==> s.locks[s.procs[me].pc.l].spin.None?
    ensures ProcInv(SleepStep(s, c, me), me)
  {
    hide Inv, SpinOf, Found, Waking;
    CpuFact(s, c);
    ProcFact(s, me);
  }

  lemma SleepWaits(s: State, c: nat, me: nat, i: nat, m: nat)
    requires Inv(s) && Running(s, c, me) && InSleep(s.procs[me].pc) && s.procs[me].pc.l < |s.locks|
    requires s.procs[me].pc.SleepLock? ==> s.procs[me].lk.None?
    requires s.procs[me].pc.SleepRetake? ==> s.locks[s.procs[me].pc.l].spin.None?
    requires i < |s.procs| && m < |s.locks| && (i == me || m == s.procs[me].pc.l)
    ensures WaitInv(SleepStep(s, c, me), i, m)
  {
    hide Inv, InRange, InsideOf;
    CpuFact(s, c);
    ProcFact(s, me);
    ProcFact(s, i);
    LockFact(s, m);
    WaitFact(s, i, m);
  }

  lemma SleepKeeps(s: State, c: nat, me: nat)
    requires Inv(s) && Running(s, c, me) && InSleep(s.procs[me].pc) && s.procs[me].pc.l < |s.locks|
    requires s.procs[me].pc.SleepLock? ==> s.procs[me].lk.None?
    requires s.procs[me].pc.SleepRetake? ==> s.locks[s.procs[me].pc.l].spin.None?
    ensures OwnKept(s, SleepStep(s, c, me), c)
  {
    hide Inv, Local, CpuInv, ProcInv, WaitInv, LockInv, SleepStep;
    var t := SleepStep(s, c, me);
    var l := s.procs[me].pc.l;
    SleepTouched(s, c, me);
    SleepLocal(s, c, me);
    SleepCpu(s, c, me);
    SleepProc(s, c, me);
    forall i | 0 <= i < |t.procs| ensures WaitInv(t, i, l) { SleepWaits(s, c, me, i, l); }
    forall m | 0 <= m < |t.locks| ensures WaitInv(t, me, m) { SleepWaits(s, c, me, me, m); }
    OwnClose(s, t, c, me, l);
  }

  lemma SleepTouched(s: State, c: nat, me: nat)
    requires Inv(s) && Running(s, c, me) && InSleep(s.procs[me].pc) && s.procs[me].pc.l < |s.locks|
    requires s.procs[me].pc.SleepLock? ==> s.procs[me].lk.None?
    requires s.procs[me].pc.SleepRetake? ==> s.locks[s.procs[me].pc.l].spin.None?
    ensures var t, l := SleepStep(s, c, me), s.procs[me].pc.l;
            |t.procs| == |s.procs| && |t.locks| == |s.locks| && LockInv(t, l) && Touched(s, t, me, l)
  {
    hide Inv, InRange, InsideOf, ChanAt, Resumable, MaySleep;
    CpuFact(s, c);
    ProcFact(s, me);
    LockFact(s, s.procs[me].pc.l);
  }

  lemma SleepLocal(s: State, c: nat, me: nat)
    requires Inv(s) && Running(s, c, me) && InSleep(s.procs[me].pc) && s.procs[me].pc.l < |s.locks|
    requires s.procs[me].pc.SleepLock? ==> s.procs[me].lk.None?
    requires s.procs[me].pc.SleepRetake? ==> s.locks[s.procs[me].pc.l].spin.None?
    ensures Local(s, SleepStep(s, c, me), c)
  {
    hide Inv, Local;
    var t := SleepStep(s, c, me);
    var l := s.procs[me].pc.l;
    CpuFact(s, c);
    ProcFact(s, me);
    LockFact(s, l);
    if s.procs[me].pc.SleepRelease? || s.procs[me].pc.SleepRetake? {
      LocalProcAndLock(s, t, c, me, t.procs[me], l, t.locks[l]);
    } else {
      LocalProcs(s, t, c, t.cpus[c], me, t.procs[me], me, t.procs[me]);
    }
  }

  lemma AcquireCpu(s: State, c: nat, me: nat)
    requires Inv(s) && Running(s, c, me) && InAcquire(s.procs[me].pc) && s.procs[me].pc.l < |s.locks|
    requires s.procs[me].pc.Acquire? ==> s.locks[s.procs[me].pc.l].spin.None?
    ensures CpuInv(AcquireStep(s, c, me), c)
  {
    hide Inv, InsideOf, InRange, ChanAt, Resumable, MaySleep;
    CpuFact(s, c);
    ProcFact(s, me);
    LockFact(s, s.procs[me].pc.l);
  }

  lemma AcquireProc(s: State, c: nat, me: nat)
    requires Inv(s) && Running(s, c, me) && InAcquire(s.procs[me].pc) && s.procs[me].pc.l < |s.locks|
    requires s.procs[me].pc.Acquire? ==> s.locks[s.procs[me].pc.l].spin.None?
    ensures ProcInv(AcquireStep(s, c, me), me)
  {
    hide Inv, SpinOf, Found, Waking;
    CpuFact(s, c);
    ProcFact(s, me);
  }

  lemma AcquireWaits(s: State, c: nat, me: nat, i: nat, m: nat)
    requires Inv(s) && Running(s, c, me) && InAcquire(s.procs[me].pc) && s.procs[me].pc.l < |s.locks|
    requires s.procs[me].pc.Acquire? ==> s.locks[s.procs[me].pc.l].spin.None?
    requires i < |s.procs| && m < |s.locks| && (i == me || m == s.procs[me].pc.l)
    ensures WaitInv(AcquireStep(s, c, me), i, m)
  {
    hide Inv, InRange, InsideOf;
    CpuFact(s, c);
    ProcFact(s, me);
    ProcFact(s, i);
    LockFact(s, m);
    WaitFact(s, i, m);
  }

  lemma AcquireKeeps(s: State, c: nat, me: nat)
    requires Inv(s) && Running(s, c, me) && InAcquire(s.procs[me].pc) && s.procs[me].pc.l < |s.locks|
    requires s.procs[me].pc.Acquire? ==> s.locks[s.procs[me].pc.l].spin.None?
    ensures OwnKept(s, AcquireStep(s, c, me), c)
  {
    var t := AcquireStep(s, c, me);
    var l := s.procs[me].pc.l;
    assert CpuInv(s, c) && ProcInv(s, me) && LockInv(s, l);
    if !s.procs[me].pc.Test? {
      LocalProcAndLock(s, t, c, me, t.procs[me], l, t.locks[l]) by { hide Local; }
    } else {
      LocalProcs(s, t, c, t.cpus[c], me, t.procs[me], me, t.procs[me]) by { hide Local; }
    }
    assert LockInv(t, l) && Touched(s, t, me, l);
    hide Inv, Local, CpuInv, ProcInv, WaitInv, LockInv, AcquireStep;
    AcquireCpu(s, c, me);
    AcquireProc(s, c, me);
    forall i | 0 <= i < |t.procs| ensures WaitInv(t, i, l) { AcquireWaits(s, c, me, i, l); }
    forall m | 0 <= m < |t.locks| ensures WaitInv(t, me, m) { AcquireWaits(s, c, me, me, m); }
    OwnClose(s, t, c, me, l);
  }

  lemma ReleaseCpu(s: State, c: nat, me: nat)
    requires Inv(s) && Running(s, c, me) && InRelease(s.procs[me].pc) && s.procs[me].pc.l < |s.locks|
    requires s.procs[me].pc.Release? ==> s.locks[s.procs[me].pc.l].spin.None?
    ensures CpuInv(ReleaseStep(s, c, me), c)
  {
    hide Inv, InsideOf, InRange, ChanAt, Resumable, MaySleep;
    CpuFact(s, c);
    ProcFact(s, me);
    LockFact(s, s.procs[me].pc.l);
  }

  lemma ReleaseProc(s: State, c: nat, me: nat)
    requires Inv(s) && Running(s, c, me) && InRelease(s.procs[me].pc) && s.procs[me].pc.l < |s.locks|
    requires s.procs[me].pc.Release? ==> s.locks[s.procs[me].pc.l].spin.None?
    ensures ProcInv(ReleaseStep(s, c, me), me)
  {
    hide Inv, SpinOf, Found, Waking;
    CpuFact(s, c);
    ProcFact(s, me);
  }

  lemma ReleaseWaits(s: State, c: nat, me: nat, i: nat, m: nat)
    requires Inv(s) && Running(s, c, me) && InRelease(s.procs[me].pc) && s.procs[me].pc.l < |s.locks|
    requires s.procs[me].pc.Release? ==> s.locks[s.procs[me].pc.l].spin.None?
    requires i < |s.procs| && m < |s.locks| && (i == me || m == s.procs[me].pc.l)
    ensures WaitInv(ReleaseStep(s, c, me), i, m)
  {
    hide Inv, InRange, InsideOf;
    CpuFact(s, c);
    ProcFact(s, me);
    ProcFact(s, i);
    LockFact(s, m);
    WaitFact(s, i, m);
  }

  lemma ReleaseKeeps(s: State, c: nat, me: nat)
    requires Inv(s) && Running(s, c, me) && InRelease(s.procs[me].pc) && s.procs[me].pc.l < |s.locks|
    requires s.procs[me].pc.Release? ==> s.locks[s.procs[me].pc.l].spin.None?
    ensures OwnKept(s, ReleaseStep(s, c, me), c)
  {
    var t := ReleaseStep(s, c, me);
    var l := s.procs[me].pc.l;
    assert CpuInv(s, c) && ProcInv(s, me) && LockInv(s, l);
    LocalProcAndLock(s, t, c, me, t.procs[me], l, t.locks[l]) by { hide Local; }
    assert LockInv(t, l) && Touched(s, t, me, l);
    hide Inv, Local, CpuInv, ProcInv, WaitInv, LockInv, ReleaseStep;
    ReleaseCpu(s, c, me);
    ReleaseProc(s, c, me);
    forall i | 0 <= i < |t.procs| ensures WaitInv(t, i, l) { ReleaseWaits(s, c, me, i, l); }
    forall m | 0 <= m < |t.locks| ensures WaitInv(t, me, m) { ReleaseWaits(s, c, me, me, m); }
    OwnClose(s, t, c, me, l);
  }

  lemma HoldingCpu(s: State, c: nat, me: nat)
    requires Inv(s) && Running(s, c, me) && InHolding(s.procs[me].pc) && s.procs[me].pc.l < |s.locks|
    requires s.procs[me].pc.Holding? ==> s.locks[s.procs[me].pc.l].spin.None?
    ensures CpuInv(HoldingStep(s, c, me), c)
  {
    hide Inv, InsideOf, InRange, ChanAt, Resumable, MaySleep;
    CpuFact(s, c);
    ProcFact(s, me);
    LockFact(s, s.procs[me].pc.l);
    var l := s.procs[me].pc.l;
    if s.procs[me].pc.HoldingTest? && s.locks[l].locked {
      PidRight(s, c, l);
      PidFact(s, s.locks[l].holder.value, me);
    }
  }

  lemma HoldingProc(s: State, c: nat, me: nat)
    requires Inv(s) && Running(s, c, me) && InHolding(s.procs[me].pc) && s.procs[me].pc.l < |s.locks|
    requires s.procs[me].pc.Holding? ==> s.locks[s.procs[me].pc.l].spin.None?
    ensures ProcInv(HoldingStep(s, c, me), me)
  {
    hide Inv, SpinOf, Found, Waking;
    CpuFact(s, c);
    ProcFact(s, me);
  }

  lemma HoldingWaits(s: State, c: nat, me: nat, i: nat, m: nat)
    requires Inv(s) && Running(s, c, me) && InHolding(s.procs[me].pc) && s.procs[me].pc.l < |s.locks|
    requires s.procs[me].pc.Holding? ==> s.locks[s.procs[me].pc.l].spin.None?
    requires i < |s.procs| && m < |s.locks| && (i == me || m == s.procs[me].pc.l)
    ensures WaitInv(HoldingStep(s, c, me), i, m)
  {
    hide Inv, InRange, InsideOf;
    CpuFact(s, c);
    ProcFact(s, me);
    ProcFact(s, i);
    LockFact(s, m);
    WaitFact(s, i, m);
  }

  lemma HoldingKeeps(s: State, c: nat, me: nat)
    requires Inv(s) && Running(s, c, me) && InHolding(s.procs[me].pc) && s.procs[me].pc.l < |s.locks|
    requires s.procs[me].pc.Holding? ==> s.locks[s.procs[me].pc.l].spin.None?
    ensures OwnKept(s, HoldingStep(s, c, me), c)
  {
    var t := HoldingStep(s, c, me);
    var l := s.procs[me].pc.l;
    assert CpuInv(s, c) && ProcInv(s, me) && LockInv(s, l);
    if !s.procs[me].pc.HoldingTest? {
      LocalProcAndLock(s, t, c, me, t.procs[me], l, t.locks[l]) by { hide Local; }
    } else {
      LocalProcs(s, t, c, t.cpus[c], me, t.procs[me], me, t.procs[me]) by { hide Local; }
    }
    assert LockInv(t, l) && Touched(s, t, me, l);
    hide Inv, Local, CpuInv, ProcInv, WaitInv, LockInv, HoldingStep;
    HoldingCpu(s, c, me);
    HoldingProc(s, c, me);
    forall i | 0 <= i < |t.procs| ensures WaitInv(t, i, l) { HoldingWaits(s, c, me, i, l); }
    forall m | 0 <= m < |t.locks| ensures WaitInv(t, me, m) { HoldingWaits(s, c, me, me, m); }
    OwnClose(s, t, c, me, l);
  }
  lemma WakeupCpu(s: State, c: nat, me: nat)
    requires Inv(s) && Running(s, c, me) && InWakeup(s.procs[me].pc)
    requires (!s.procs[me].pc.WakeNext? ==> s.procs[me].pc.k < |s.procs|)
    requires var pc := s.procs[me].pc; pc.WakeNext? && pc.k < |s.procs| && pc.k != me ==> s.procs[pc.k].lk.None?
    ensures CpuInv(WakeupStep(s, c, me), c)
  {
    hide Inv, InsideOf, ChanAt, Resumable, MaySleep;
    CpuFact(s, c);
    ProcFact(s, me);
  }

  lemma WakeupProc(s: State, c: nat, me: nat)
    requires Inv(s) && Running(s, c, me) && InWakeup(s.procs[me].pc)
    requires (!s.procs[me].pc.WakeNext? ==> s.procs[me].pc.k < |s.procs|)
    requires var pc := s.procs[me].pc; pc.WakeNext? && pc.k < |s.procs| && pc.k != me ==> s.procs[pc.k].lk.None?
    ensures ProcInv(WakeupStep(s, c, me), me)
  {
    hide Inv, SpinOf, Found, MaySleep;
    CpuFact(s, c);
    ProcFact(s, me);
  }

  lemma WakeupOther(s: State, c: nat, me: nat, i: nat)
    requires Inv(s) && Running(s, c, me) && InWakeup(s.procs[me].pc)
    requires (!s.procs[me].pc.WakeNext? ==> s.procs[me].pc.k < |s.procs|)
    requires var pc := s.procs[me].pc; pc.WakeNext? && pc.k < |s.procs| && pc.k != me ==> s.procs[pc.k].lk.None?
    requires i < |s.procs| && i != me && OwnProcess(s, WakeupStep(s, c, me), c, i)
    ensures ProcInv(WakeupStep(s, c, me), i)
  {
    hide Inv, SpinOf, Found, InRange, InsideOf, ChanAt, Resumable;
    CpuFact(s, c);
    ProcFact(s, i);
    if s.procs[i].on.Some? { CpuFact(s, s.procs[i].on.value); }
  }

  lemma WakeupWaits(s: State, c: nat, me: nat, i: nat, m: nat)
    requires Inv(s) && Running(s, c, me) && InWakeup(s.procs[me].pc)
    requires (!s.procs[me].pc.WakeNext? ==> s.procs[me].pc.k < |s.procs|)
    requires var pc := s.procs[me].pc; pc.WakeNext? && pc.k < |s.procs| && pc.k != me ==> s.procs[pc.k].lk.None?
    requires i < |s.procs| && m < |s.locks| && (i == me || s.locks[m].spin == Some(c))
    ensures WaitInv(WakeupStep(s, c, me), i, m)
  {
    hide Inv, InRange, InsideOf;
    CpuFact(s, c);
    ProcFact(s, me);
    LockFact(s, m);
    WaitFact(s, i, m);
    if i != me {
      ProcFact(s, i);
      if s.procs[i].on.Some? { CpuFact(s, s.procs[i].on.value); }
    }
  }

  lemma WakeupKeeps(s: State, c: nat, me: nat)
    requires Inv(s) && Running(s, c, me) && InWakeup(s.procs[me].pc)
    requires (!s.procs[me].pc.WakeNext? ==> s.procs[me].pc.k < |s.procs|)
    requires var pc := s.procs[me].pc; pc.WakeNext? && pc.k < |s.procs| && pc.k != me ==> s.procs[pc.k].lk.None?
    ensures OwnKept(s, WakeupStep(s, c, me), c)
  {
    var t := WakeupStep(s, c, me);
    var pc := s.procs[me].pc;
    assert CpuInv(s, c) && ProcInv(s, me);
    var k := if pc.k < |s.procs| then pc.k else me;
    LocalProcs(s, t, c, t.cpus[c], me, t.procs[me], k, t.procs[k]) by { hide Local; }
    WakeupCpu(s, c, me);
    forall i | 0 <= i < |t.procs| && OwnProcess(s, t, c, i) ensures ProcInv(t, i) {
      if i == me { WakeupProc(s, c, me); } else { WakeupOther(s, c, me, i); }
    }
    forall l | 0 <= l < |t.locks| && OwnSleepLk(s, t, c, l) ensures LockInv(t, l) { assert LockInv(s, l); }
    forall i, l | 0 <= i < |t.procs| && 0 <= l < |t.locks| && (Current(s, c) == Some(i) || OwnSleepLk(s, t, c, l))
      ensures WaitInv(t, i, l)
    {
      WakeupWaits(s, c, me, i, l);
    }
    hide Inv, Local, CpuInv, ProcInv, WaitInv;
  }

  lemma MoveCpu(s: State, c: nat, me: nat, a: Action)
    requires Inv(s) && Running(s, c, me) && ProcessEnabled(s, me, a)
    requires s.procs[me].pc.User? || (a.Timer? && Interruptible(s.procs[me].pc))
    ensures CpuInv(Jump(s, me, MoveTo(s.procs[me].pc, a)), c)
  {
    hide Inv, InRange;
    CpuFact(s, c);
  }

  lemma MoveProc(s: State, c: nat, me: nat, a: Action)
    requires Inv(s) && Running(s, c, me) && ProcessEnabled(s, me, a)
    requires s.procs[me].pc.User? || (a.Timer? && Interruptible(s.procs[me].pc))
    ensures ProcInv(Jump(s, me, MoveTo(s.procs[me].pc, a)), me)
  {
    hide Inv, SpinOf, Found;
    CpuFact(s, c);
    ProcFact(s, me);
  }

  lemma MoveKeeps(s: State, c: nat, me: nat, a: Action)
    requires Inv(s) && Running(s, c, me) && ProcessEnabled(s, me, a)
    requires s.procs[me].pc.User? || (a.Timer? && Interruptible(s.procs[me].pc))
    ensures OwnKept(s, Jump(s, me, MoveTo(s.procs[me].pc, a)), c)
  {
    var t := Jump(s, me, MoveTo(s.procs[me].pc, a));
    MoveCpu(s, c, me, a);
    MoveProc(s, c, me, a);
    assert CpuInv(s, c) && ProcInv(s, me);
    LocalProcs(s, t, c, t.cpus[c], me, t.procs[me], me, t.procs[me]) by { hide Local; }
    hide Inv, Local, CpuInv, ProcInv, LockInv;
    assert Waking(s.procs[me].pc).None? && SpinOf(s.procs[me].pc).None? && Touched(s, t, me, |s.locks|);
    forall m | 0 <= m < |t.locks| ensures WaitInv(t, me, m) {}
    OwnClose(s, t, c, me, |s.locks|);
  }

  /** Every step of every CPU keeps the invariant. */
  lemma StepKeeps(s: State, c: nat, a: Action)
    requires Inv(s) && Enabled(s, c, a)
    ensures Inv(Step(s, c, a))
  {
    hide Inv, OwnKept, YieldStep, SleepStep, AcquireStep, ReleaseStep, WakeupStep, HoldingStep, SchedulerStep, MoveTo,
         Jump;
    if s.cpus[c].pc.Process? {
      var me := s.cpus[c].cur.value;
      var pc := s.procs[me].pc;
      if pc.User? || (a.Timer? && Interruptible(pc)) { MoveKeeps(s, c, me, a); }
      else if InYield(pc) { YieldKeeps(s, c, me); }
      else if InSleep(pc) { SleepKeeps(s, c, me); }
      else if InAcquire(pc) { AcquireKeeps(s, c, me); }
      else if InRelease(pc) { ReleaseKeeps(s, c, me); }
      else if InWakeup(pc) { WakeupKeeps(s, c, me); }
      else { HoldingKeeps(s, c, me); }
    } else {
      SchedulerKeeps(s, c);
    }
    OwnSuffices(s, Step(s, c, a), c);
  }

  /** Boot: every CPU enters its scheduler, processes are unused or wait for their first turn, locks are free. */
  ghost predicate Initial(s: State) {
    && |s.procs| > 0
    && (forall c {:trigger s.cpus[c]} :: 0 <= c < |s.cpus| ==> s.cpus[c] == Cpu(None, Scan(0)))
    && (forall i {:trigger s.procs[i]} :: 0 <= i < |s.procs| ==>
          s.procs[i].pid > 0 && (s.procs[i].state == UNUSED || s.procs[i].state == RUNNABLE)
          && s.procs[i] == Proc(s.procs[i].pid, s.procs[i].state, None, None, Entry, None, {}))
    && (forall l {:trigger s.locks[l]} :: 0 <= l < |s.locks| ==> s.locks[l] == SleepLk(None, false, 0, None))
    && (forall i, j {:trigger s.procs[i].pid, s.procs[j].pid} ::
        0 <= i < |s.procs| && 0 <= j < |s.procs| && s.procs[i].pid == s.procs[j].pid ==> i == j)
  }

  lemma InitialInv(s: State)
    requires Initial(s)
    ensures Inv(s)
  {
    forall c | 0 <= c < |s.cpus| ensures CpuInv(s, c) {}
    forall i | 0 <= i < |s.procs| ensures ProcInv(s, i) {}
    forall l | 0 <= l < |s.locks| ensures LockInv(s, l) {}
    forall i, l | 0 <= i < |s.procs| && 0 <= l < |s.locks| ensures WaitInv(s, i, l) {}
  }

  predicate CanStep(s: State, c: nat, a: Action, t: State) {
    Enabled(s, c, a) && t == Step(s, c, a)
  }

  ghost predicate StepsTo(s: State, t: State) {
    exists c, a :: CanStep(s, c, a, t)
  }

  /** An interleaving: any CPU may take any possible step at any time. */
  ghost predicate Run(states: seq<State>) {
    && |states| > 0 && Initial(states[0])
    && forall n {:trigger states[n]} :: 0 < n < |states| ==> StepsTo(states[n - 1], states[n])
  }

  lemma {:induction false} RunInv(states: seq<State>, n: nat)
    requires Run(states) && n < |states|
    ensures Inv(states[n])
  {
    if n == 0 { InitialInv(states[0]); }
    else {
      RunInv(states, n - 1);
      var c, a :| CanStep(states[n - 1], c, a, states[n]);
      hide Inv, Step, Enabled, Initial;
      StepKeeps(states[n - 1], c, a);
    }
  }

  // What holds in every state of every interleaving

  /** At most one process is inside a sleep lock, and `locked` says whether one is. */
  lemma MutualExclusion(states: seq<State>, n: nat, l: nat)
    requires Run(states) && n < |states| && l < |states[n].locks|
    ensures var s := states[n];
            && (forall i, j ::
                0 <= i < |s.procs| && 0 <= j < |s.procs| && l in s.procs[i].inside && l in s.procs[j].inside ==> i == j)
            && (s.locks[l].locked <==> exists i :: 0 <= i < |s.procs| && l in s.procs[i].inside)
  {
    RunInv(states, n);
    var s := states[n];
    assert LockInv(s, l);
    forall i | 0 <= i < |s.procs|
      ensures l in s.procs[i].inside <==> s.locks[l].holder == Some(i)
    {
      assert ProcInv(s, i);
    }
  }

  /** With the inner spinlock free, `pid` is that of the process inside, or 0. */
  lemma PidNamesHolder(states: seq<State>, n: nat, l: nat)
    requires Run(states) && n < |states| && l < |states[n].locks| && states[n].locks[l].spin.None?
    ensures var s := states[n];
            && (forall i :: 0 <= i < |s.procs| && l in s.procs[i].inside ==> s.locks[l].pid == s.procs[i].pid)
            && (!s.locks[l].locked ==> s.locks[l].pid == 0)
  {
    RunInv(states, n);
    var s := states[n];
    assert LockInv(s, l);
    forall i | 0 <= i < |s.procs| && l in s.procs[i].inside ensures s.locks[l].pid == s.procs[i].pid {
      assert ProcInv(s, i);
      if s.procs[i].on.Some? { assert CpuInv(s, s.procs[i].on.value); }
    }
  }

  /** No lost wakeup: no process sleeps on a free lock once its inner spinlock is free. */
  lemma NoLostWakeup(states: seq<State>, n: nat, l: nat, i: nat)
    requires Run(states) && n < |states| && l < |states[n].locks| && i < |states[n].procs|
    requires states[n].locks[l].spin.None? && !states[n].locks[l].locked
    ensures !(states[n].procs[i].state == SLEEPING && states[n].procs[i].chan == Some(l))
  {
    RunInv(states, n);
    assert WaitInv(states[n], i, l);
  }

  /** sleeplock_holding tells whether the caller is inside. */
  lemma HoldingIsRight(states: seq<State>, n: nat, i: nat)
    requires Run(states) && n < |states| && i < |states[n].procs| && states[n].procs[i].pc.HoldingDone?
    ensures states[n].procs[i].pc.r == (states[n].procs[i].pc.l in states[n].procs[i].inside)
  {
    RunInv(states, n);
    var s := states[n];
    assert ProcInv(s, i);
    if s.procs[i].on.Some? { assert CpuInv(s, s.procs[i].on.value); }
  }

  /** No process is current on two CPUs; a process whose lock is free is RUNNING exactly when it is current. */
  lemma RunningIsCurrent(states: seq<State>, n: nat, i: nat)
    requires Run(states) && n < |states| && i < |states[n].procs|
    ensures var s := states[n];
            && (forall c, d :: 0 <= c < |s.cpus| && 0 <= d < |s.cpus| && s.cpus[c].cur == Some(i) ==>
                  s.cpus[d].cur == Some(i) ==> c == d)
            && (s.procs[i].lk.None? ==>
                (s.procs[i].state == RUNNING <==> exists c :: 0 <= c < |s.cpus| && s.cpus[c].cur == Some(i)))
  {
    RunInv(states, n);
    var s := states[n];
    assert ProcInv(s, i);
    forall c | 0 <= c < |s.cpus| && s.cpus[c].cur == Some(i) ensures s.procs[i].on == Some(c) { assert CpuInv(s, c); }
    if s.procs[i].on.Some? { assert CpuInv(s, s.procs[i].on.value); }
    if s.procs[i].state != RUNNING && s.procs[i].on.Some? { OffCpu(s, i); }
  }

  /** Neither spinlock panic can happen: no CPU takes a process lock or inner spinlock that it holds,
      and each is released only by the CPU that holds it. */
  lemma NoSpinlockPanic(states: seq<State>, n: nat, c: nat)
    requires Run(states) && n < |states| && c < |states[n].cpus|
    ensures var s := states[n];
            match s.cpus[c].pc
            case Scan(i) => i < |s.procs| && s.procs[i].lk != Some(c)
            case Unlock(i) => i < |s.procs| && s.procs[i].lk == Some(c)
            case Process =>
              Current(s, c).Some? && var me := Current(s, c).value;
              (match s.procs[me].pc
               case Entry => s.procs[me].lk == Some(c)
               case SleepUnlock(_) => s.procs[me].lk == Some(c)
               case YieldUnlock(_) => s.procs[me].lk == Some(c)
               case YieldLock(_) => s.procs[me].lk != Some(c)
               case SleepLock(_) => s.procs[me].lk != Some(c)
               case WakeNext(_, k) => k < |s.procs| && k != me ==> s.procs[k].lk != Some(c)
               case WakeUnlock(_, k) => k < |s.procs| && s.procs[k].lk == Some(c)
               case Acquire(l) => l < |s.locks| && s.locks[l].spin != Some(c)
               case SleepRetake(l) => l < |s.locks| && s.locks[l].spin != Some(c)
               case Release(l) => l < |s.locks| && s.locks[l].spin != Some(c)
               case Holding(l) => l < |s.locks| && s.locks[l].spin != Some(c)
               case SleepRelease(l) => l < |s.locks| && s.locks[l].spin == Some(c)
               case TakeDone(l) => l < |s.locks| && s.locks[l].spin == Some(c)
               case ReleaseDone(l) => l < |s.locks| && s.locks[l].spin == Some(c)
               case HoldingDone(l, _) => l < |s.locks| && s.locks[l].spin == Some(c)
               case _ => true)
            case _ => true
  {
    RunInv(states, n);
    var s := states[n];
    assert CpuInv(s, c);
    if s.cpus[c].pc.Process? {
      var me := s.cpus[c].cur.value;
      assert ProcInv(s, me);
      var pc := s.procs[me].pc;
      if pc.WakeNext? && pc.k < |s.procs| { assert ProcInv(s, pc.k); }
      if pc.Acquire? || pc.SleepRetake? || pc.Release? || pc.Holding? { assert LockInv(s, pc.l); }
    } else {
      assert ProcInv(s, s.cpus[c].pc.i);
    }
    hide Inv, Run, InsideOf, ChanAt, Resumable, MaySleep, StateAt;
  }

  /** swtch hands the process lock over: the CPU holds it before and after, and is at a point that will release it. */
  lemma SwitchHandsOver(states: seq<State>, n: nat, c: nat, a: Action, i: nat)
    requires Run(states) && n < |states| && i < |states[n].procs| && Enabled(states[n], c, a)
    requires var s := states[n];
             s.cpus[c].pc == Switch(i) || (Current(s, c) == Some(i) &&
                 (s.procs[i].pc.SleepSwitch? || s.procs[i].pc.YieldSwitch?))
    ensures var s, t := states[n], Step(states[n], c, a);
            && s.procs[i].lk == Some(c) && i < |t.procs| && t.procs[i].lk == Some(c)
            && HoldsLockOf(s, c, i) && HoldsLockOf(t, c, i)
            && (s.cpus[c].pc.Process? <==> !(c < |t.cpus| && t.cpus[c].pc.Process?))
  {
    RunInv(states, n);
    var s := states[n];
    assert CpuInv(s, c) && ProcInv(s, i);
    hide Inv, Run, InsideOf, ChanAt, MaySleep, InRange;
  }
}
