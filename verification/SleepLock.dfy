/** Sleep locks: `acquiresleep` and `releasesleep` (src/sleeplock.c) over
    `sleep`, `wakeup` and the scheduler (src/proc.c), as a state machine over
    any number of processes and locks. Spin locks are atomic to take and give
    up; every other shared variable is read or written in a step of its own, so
    all interleavings on any number of CPUs are covered. */
module SleepLock {
  /** Where a process is in `acquiresleep(l)`, `sleep`, `releasesleep(l)` or
      `wakeup`. Each place names what the process does next. */
  datatype Pc =
    | Idle
    | TakeSpin(l: nat)            // acquire(&lk->lk), at first and after sleeping
    | Check(l: nat)               // while(lk->locked)
    | SetLocked(l: nat)           // lk->locked was read as 0; it is set next
    | SetPid(l: nat)
    | AcquireDone(l: nat)         // release(&lk->lk)
    | SleepTake(l: nat)           // acquire(&ptable.lock)
    | SleepGive(l: nat)           // release(lk)
    | SetChan(l: nat)
    | SetSleeping(l: nat)
    | EnterSched(l: nat)          // sched()
    | Asleep(l: nat)              // switched out; on return chan is cleared
    | WokeGive(l: nat)            // release(&ptable.lock)
    | ReleaseTake(l: nat)         // acquire(&lk->lk)
    | ClearLocked(l: nat)
    | ClearPid(l: nat)
    | WakeTake(l: nat)            // acquire(&ptable.lock)
    | Waking(l: nat, i: nat)      // the loop of wakeup1 is at process i
    | ReleaseDone(l: nat)         // release(&lk->lk)
    | Yielded(k: Pc)              // preempted at k; on return ptable.lock is released

  datatype RunState = Runnable | Running | Sleeping

  datatype Chan = NoChan | On(l: nat)

  /** `holds` lists the locks whose `locked` field this process has set and not
      yet cleared. */
  datatype Proc = Proc(state: RunState, chan: Chan, pc: Pc, holds: set<nat>)

  /** Who holds a spin lock; ptable.lock passes through the schedulers. */
  datatype Holder = Free | Held(p: nat) | Scheduler

  /** `owner` records which process last set `locked`. */
  datatype Lock = Lock(spin: Holder, locked: bool, pid: nat, owner: nat)

  datatype State = State(procs: seq<Proc>, locks: seq<Lock>, ptable: Holder)

  datatype Action =
    | Acquire(p: nat, l: nat)     // p calls acquiresleep
    | Release(p: nat, l: nat)     // p calls releasesleep
    | Step(p: nat)
    | Preempt(p: nat)
    | Dispatch(p: nat)
    | SchedulerTakes
    | SchedulerGives
    | Kill(p: nat)

  /** Process numbers start at 1; 0 in `lk->pid` is nobody. */
  function Pid(p: nat): nat {
    p + 1
  }

  predicate Init(s: State) {
    && s.ptable == Free
    && (forall p :: 0 <= p < |s.procs| ==> s.procs[p] == Proc(Runnable, NoChan, Yielded(Idle), {}))
    && (forall l :: 0 <= l < |s.locks| ==> s.locks[l].spin == Free && !s.locks[l].locked && s.locks[l].pid == 0)
  }

  /** A process can be preempted only where it holds no spin lock. */
  predicate Interruptible(k: Pc) {
    k.Idle? || k.TakeSpin? || k.ReleaseTake?
  }

  /** The lock a process works on is one of `n`. */
  predicate InRange(k: Pc, n: nat) {
    match k
    case Idle => true
    case Yielded(j) => InRange(j, n)
    case _ => k.l < n
  }

  /** The next step of a process can be taken: it is running, and a spin lock
      it wants is free. A sleeping process takes one more step, into `sched`. */
  predicate CanStep(s: State, p: nat)
    requires p < |s.procs|
  {
    var q := s.procs[p];
    && (q.state.Running? || q.pc.EnterSched?)
    && !q.pc.Idle?
    && InRange(q.pc, |s.locks|)
    && (q.pc.TakeSpin? || q.pc.ReleaseTake? ==> s.locks[q.pc.l].spin.Free?)
    && (q.pc.SleepTake? || q.pc.WakeTake? ==> s.ptable.Free?)
  }

  predicate Enabled(s: State, a: Action) {
    match a
    case Acquire(p, l) => p < |s.procs| && l < |s.locks| && s.procs[p].state.Running? && s.procs[p].pc.Idle?
    case Release(p, l) => p < |s.procs| && l < |s.locks| && s.procs[p].state.Running? && s.procs[p].pc.Idle? && l in s.procs[p].holds
    case Step(p) => p < |s.procs| && CanStep(s, p)
    case Preempt(p) => p < |s.procs| && s.procs[p].state.Running? && Interruptible(s.procs[p].pc) && s.ptable.Free?
    case Dispatch(p) => p < |s.procs| && s.procs[p].state.Runnable? && s.ptable.Scheduler?
    case SchedulerTakes => s.ptable.Free?
    case SchedulerGives => s.ptable.Scheduler?
    case Kill(p) => p < |s.procs| && s.ptable.Free?
  }

  /** `wakeup1` at one process. */
  function Wake(q: Proc, l: nat): Proc {
    if q.state.Sleeping? && q.chan == On(l) then q.(state := Runnable) else q
  }

  function At(s: State, p: nat, k: Pc): State
    requires p < |s.procs|
  {
    s.(procs := s.procs[p := s.procs[p].(pc := k)])
  }

  function SetLock(s: State, l: nat, k: Lock): State
    requires l < |s.locks|
  {
    s.(locks := s.locks[l := k])
  }

  function StepOf(s: State, p: nat): State
    requires p < |s.procs| && CanStep(s, p)
  {
    var me := s.procs[p];
    match me.pc
    case Idle => s
    case TakeSpin(l) => SetLock(At(s, p, Check(l)), l, s.locks[l].(spin := Held(p)))
    case Check(l) => At(s, p, if s.locks[l].locked then SleepTake(l) else SetLocked(l))
    case SetLocked(l) =>
      SetLock(s.(procs := s.procs[p := me.(pc := SetPid(l), holds := me.holds + {l})]), l, s.locks[l].(locked := true, owner := p))
    case SetPid(l) => SetLock(At(s, p, AcquireDone(l)), l, s.locks[l].(pid := Pid(p)))
    case AcquireDone(l) => SetLock(At(s, p, Idle), l, s.locks[l].(spin := Free))
    case SleepTake(l) => At(s, p, SleepGive(l)).(ptable := Held(p))
    case SleepGive(l) => SetLock(At(s, p, SetChan(l)), l, s.locks[l].(spin := Free))
    case SetChan(l) => s.(procs := s.procs[p := me.(pc := SetSleeping(l), chan := On(l))])
    case SetSleeping(l) => s.(procs := s.procs[p := me.(pc := EnterSched(l), state := Sleeping)])
    case EnterSched(l) => At(s, p, Asleep(l)).(ptable := Scheduler)
    case Asleep(l) => s.(procs := s.procs[p := me.(pc := WokeGive(l), chan := NoChan)])
    case WokeGive(l) => At(s, p, TakeSpin(l)).(ptable := Free)
    case ReleaseTake(l) => SetLock(At(s, p, ClearLocked(l)), l, s.locks[l].(spin := Held(p)))
    case ClearLocked(l) =>
      SetLock(s.(procs := s.procs[p := me.(pc := ClearPid(l), holds := me.holds - {l})]), l, s.locks[l].(locked := false))
    case ClearPid(l) => SetLock(At(s, p, WakeTake(l)), l, s.locks[l].(pid := 0))
    case WakeTake(l) => At(s, p, Waking(l, 0)).(ptable := Held(p))
    case Waking(l, i) =>
      if i < |s.procs| then
        var t := At(s, p, Waking(l, i + 1));
        t.(procs := t.procs[i := Wake(t.procs[i], l)])
      else At(s, p, ReleaseDone(l)).(ptable := Free)
    case ReleaseDone(l) => SetLock(At(s, p, Idle), l, s.locks[l].(spin := Free))
    case Yielded(k) => At(s, p, k).(ptable := Free)
  }

  function Next(s: State, a: Action): State
    requires Enabled(s, a)
  {
    match a
    case Acquire(p, l) => At(s, p, TakeSpin(l))
    case Release(p, l) => At(s, p, ReleaseTake(l))
    case Step(p) => StepOf(s, p)
    case Preempt(p) => s.(procs := s.procs[p := s.procs[p].(state := Runnable, pc := Yielded(s.procs[p].pc))], ptable := Scheduler)
    case Dispatch(p) => s.(procs := s.procs[p := s.procs[p].(state := Running)], ptable := Held(p))
    case SchedulerTakes => s.(ptable := Scheduler)
    case SchedulerGives => s.(ptable := Free)
    case Kill(p) =>
      if s.procs[p].state.Sleeping? then s.(procs := s.procs[p := s.procs[p].(state := Runnable)]) else s
  }

  /** A run: the states it passes through and the actions in between. */
  ghost predicate IsRun(ss: seq<State>, acts: seq<Action>) {
    && |ss| == |acts| + 1 && Init(ss[0])
    && forall i :: 0 <= i < |acts| ==> Enabled(ss[i], acts[i]) && ss[i + 1] == Next(ss[i], acts[i])
  }

  ghost predicate Reachable(s: State) {
    exists ss, acts :: IsRun(ss, acts) && ss[|acts|] == s
  }

  // -------------------------------------------------------------- invariant

  /** The process holds the spin lock inside the sleep lock it works on. */
  predicate HasSpin(pc: Pc) {
    || pc.Check? || pc.SetLocked? || pc.SetPid? || pc.AcquireDone? || pc.SleepTake? || pc.SleepGive?
    || pc.ClearLocked? || pc.ClearPid? || pc.WakeTake? || pc.Waking? || pc.ReleaseDone?
  }

  predicate HasPtable(q: Proc) {
    || q.pc.SleepGive? || q.pc.SetChan? || q.pc.SetSleeping? || q.pc.EnterSched? || q.pc.WokeGive? || q.pc.Waking?
    || ((q.pc.Asleep? || q.pc.Yielded?) && q.state.Running?)
  }

  /** Run state and channel fit the place. */
  predicate StateOk(q: Proc) {
    match q.pc
    case Asleep(l) => q.chan == On(l)
    case EnterSched(l) => q.state.Sleeping? && q.chan == On(l)
    case Yielded(k) => !q.state.Sleeping? && Interruptible(k)
    case SetSleeping(l) => q.state.Running? && q.chan == On(l)
    case _ => q.state.Running?
  }

  /** The process is inside `releasesleep(l)` with `locked` cleared, and its
      `wakeup` has yet to reach process `q`. */
  predicate WillWake(pc: Pc, l: nat, q: nat) {
    (pc.ClearPid? || pc.WakeTake? || (pc.Waking? && pc.i <= q)) && pc.l == l
  }

  /** Process `q` may sleep on `l` safely: the lock is taken, or the wakeup is
      still to come. */
  predicate Covered(s: State, l: nat, q: nat) {
    && l < |s.locks|
    && var k := s.locks[l];
       k.locked || (k.spin.Held? && k.spin.p < |s.procs| && WillWake(s.procs[k.spin.p].pc, l, q))
  }

  /** The process is about to sleep, or sleeps, with no lock of its own left. */
  predicate Parked(q: Proc) {
    q.pc.SetChan? || q.pc.SetSleeping? || ((q.pc.EnterSched? || q.pc.Asleep?) && q.state.Sleeping?)
  }

  /** The process keeps lock `l` or has no claim on it. */
  predicate KeepsHold(q: Proc) {
    && (q.pc.ReleaseTake? || q.pc.ClearLocked? || q.pc.SetPid? || q.pc.AcquireDone? ==> q.pc.l in q.holds)
    && (q.pc.Yielded? && q.pc.k.ReleaseTake? ==> q.pc.k.l in q.holds)
  }

  ghost predicate ProcOk(s: State, p: nat)
    requires p < |s.procs|
  {
    var q := s.procs[p];
    && StateOk(q)
    && KeepsHold(q)
    && InRange(q.pc, |s.locks|)
    && (HasPtable(q) ==> s.ptable == Held(p))
    && (HasSpin(q.pc) ==> s.locks[q.pc.l].spin == Held(p))
    && (q.pc.SleepTake? || q.pc.SleepGive? ==> s.locks[q.pc.l].locked)
    && (q.pc.SetLocked? || q.pc.ClearPid? || q.pc.WakeTake? || q.pc.Waking? || q.pc.ReleaseDone? ==> !s.locks[q.pc.l].locked)
    && (Parked(q) ==> Covered(s, q.pc.l, p))
    && (forall l :: l in q.holds ==> l < |s.locks| && s.locks[l].locked && s.locks[l].owner == p)
  }

  ghost predicate LockOk(s: State, l: nat)
    requires l < |s.locks|
  {
    var k := s.locks[l];
    && !k.spin.Scheduler?
    && (k.spin.Held? ==> k.spin.p < |s.procs| && HasSpin(s.procs[k.spin.p].pc) && s.procs[k.spin.p].pc.l == l)
    && (k.locked ==> k.owner < |s.procs| && l in s.procs[k.owner].holds)
    && (k.locked && s.procs[k.owner].pc != SetPid(l) ==> k.pid == Pid(k.owner))
    && (!k.locked && k.pid != 0 ==> k.spin.Held? && s.procs[k.spin.p].pc == ClearPid(l))
  }

  ghost predicate PtableOk(s: State) {
    s.ptable.Held? ==> s.ptable.p < |s.procs| && HasPtable(s.procs[s.ptable.p])
  }

  ghost predicate Inv(s: State) {
    && (forall p :: 0 <= p < |s.procs| ==> ProcOk(s, p))
    && (forall l :: 0 <= l < |s.locks| ==> LockOk(s, l))
    && PtableOk(s)
  }

  /** A step of process `p` that touches at most its own record, lock `l` and
      ptable.lock, and takes nothing from the others. */
  ghost predicate Effect(s: State, t: State, p: nat, l: nat) {
    && p < |s.procs| == |t.procs| && l < |s.locks| == |t.locks|
    && t.procs == s.procs[p := t.procs[p]] && t.locks == s.locks[l := t.locks[l]]
    && (HasSpin(s.procs[p].pc) ==> s.procs[p].pc.l == l)
    && var k, k' := s.locks[l], t.locks[l];
       && (k.spin == k'.spin || (k.spin.Free? && k'.spin == Held(p)) || (k.spin == Held(p) && k'.spin.Free?))
       && (k.spin.Held? && k.spin.p != p ==> k' == k)
       && (k.locked && k.owner != p ==> k'.locked && k'.owner == k.owner && k'.pid == k.pid)
       && (k'.locked ==> k'.owner == p || (k.locked && k'.owner == k.owner))
       && (s.ptable == t.ptable || s.ptable.Free? || s.ptable == Held(p) || s.ptable.Scheduler?)
  }

  lemma EffectOnOther(s: State, t: State, p: nat, l: nat, q: nat)
    requires Inv(s) && Effect(s, t, p, l) && q < |s.procs| && q != p
    requires Covered(s, l, q) ==> Covered(t, l, q)
    ensures ProcOk(t, q)
  {
    assert ProcOk(s, q) && ProcOk(s, p);
    var q0 := s.procs[q];
    if Parked(q0) && q0.pc.l != l {
      assert LockOk(s, q0.pc.l);
    }
  }

  lemma EffectOnLock(s: State, t: State, p: nat, l: nat, m: nat)
    requires Inv(s) && Effect(s, t, p, l) && m < |s.locks| && m != l
    requires forall h :: h != l ==> (h in s.procs[p].holds <==> h in t.procs[p].holds)
    ensures LockOk(t, m)
  {
    assert LockOk(s, m);
    assert ProcOk(s, p);
  }

  /** Places whose step is an effect on one lock. */
  predicate Single(s: State, p: nat)
    requires p < |s.procs|
  {
    var pc := s.procs[p].pc;
    !pc.Idle? && !pc.Yielded? && !(pc.Waking? && pc.i < |s.procs|)
  }

  lemma StepEffect(s: State, p: nat)
    requires Inv(s) && p < |s.procs| && CanStep(s, p) && Single(s, p)
    ensures Effect(s, StepOf(s, p), p, s.procs[p].pc.l)
    ensures forall h :: h != s.procs[p].pc.l ==> (h in s.procs[p].holds <==> h in StepOf(s, p).procs[p].holds)
    ensures PtableOk(StepOf(s, p))
  {
    assert ProcOk(s, p);
  }

  lemma StepCovered(s: State, p: nat, r: nat)
    requires Inv(s) && p < |s.procs| && CanStep(s, p) && Single(s, p) && r != p && r < |s.procs|
    requires Covered(s, s.procs[p].pc.l, r)
    ensures Covered(StepOf(s, p), s.procs[p].pc.l, r)
  {
    assert ProcOk(s, p);
  }

  lemma ActorPlace(s: State, p: nat)
    requires Inv(s) && p < |s.procs| && CanStep(s, p) && Single(s, p)
    ensures var t := StepOf(s, p); var q := t.procs[p];
      StateOk(q) && KeepsHold(q) && InRange(q.pc, |t.locks|) && (HasPtable(q) ==> t.ptable == Held(p))
  {
    assert ProcOk(s, p);
  }

  lemma ActorKeeps(s: State, p: nat)
    requires Inv(s) && p < |s.procs| && CanStep(s, p) && Single(s, p)
    ensures ProcOk(StepOf(s, p), p)
  {
    ActorPlace(s, p);
    assert ProcOk(s, p);
  }

  lemma ItsLockKeeps(s: State, p: nat)
    requires Inv(s) && p < |s.procs| && CanStep(s, p) && Single(s, p)
    ensures LockOk(StepOf(s, p), s.procs[p].pc.l)
  {
    assert ProcOk(s, p);
    assert LockOk(s, s.procs[p].pc.l);
  }

  lemma SingleKeeps(s: State, p: nat)
    requires Inv(s) && p < |s.procs| && CanStep(s, p) && Single(s, p)
    ensures Inv(StepOf(s, p))
  {
    var t, l := StepOf(s, p), s.procs[p].pc.l;
    StepEffect(s, p);
    forall q | 0 <= q < |t.procs| ensures ProcOk(t, q) {
      if q == p {
        ActorKeeps(s, p);
      } else {
        if Covered(s, l, q) {
          StepCovered(s, p, q);
        }
        EffectOnOther(s, t, p, l, q);
      }
    }
    forall m | 0 <= m < |t.locks| ensures LockOk(t, m) {
      if m == l {
        ItsLockKeeps(s, p);
      } else {
        EffectOnLock(s, t, p, l, m);
      }
    }
  }

  /** The loop of `wakeup1` at one process: whoever slept on the lock no longer
      relies on this wakeup. */
  lemma WakingKeeps(s: State, p: nat)
    requires Inv(s) && p < |s.procs| && CanStep(s, p) && s.procs[p].pc.Waking? && s.procs[p].pc.i < |s.procs|
    ensures Inv(StepOf(s, p))
  {
    var t, l := StepOf(s, p), s.procs[p].pc.l;
    assert ProcOk(s, p);
    forall q | 0 <= q < |t.procs| ensures ProcOk(t, q) {
      assert ProcOk(s, q);
      if Parked(t.procs[q]) {
        assert LockOk(s, t.procs[q].pc.l);
      }
    }
    forall m | 0 <= m < |t.locks| ensures LockOk(t, m) {
      assert LockOk(s, m);
    }
  }

  /** Steps that change one process's run state or place and ptable.lock only,
      where that process holds no spin lock before and after. */
  lemma SwitchKeeps(s: State, t: State, p: nat)
    requires Inv(s) && p < |s.procs| == |t.procs| && t.locks == s.locks && t.procs == s.procs[p := t.procs[p]]
    requires !HasSpin(s.procs[p].pc) && !HasSpin(t.procs[p].pc) && t.procs[p].holds == s.procs[p].holds
    requires StateOk(t.procs[p]) && KeepsHold(t.procs[p]) && InRange(t.procs[p].pc, |s.locks|) && !Parked(t.procs[p])
    requires HasPtable(t.procs[p]) <==> t.ptable == Held(p)
    requires t.ptable == s.ptable || ((s.ptable.Held? ==> s.ptable.p == p) && (t.ptable.Held? ==> t.ptable.p == p))
    ensures Inv(t)
  {
    assert ProcOk(s, p);
    forall q | 0 <= q < |t.procs| ensures ProcOk(t, q) {
      assert ProcOk(s, q);
    }
    forall m | 0 <= m < |t.locks| ensures LockOk(t, m) {
      assert LockOk(s, m);
    }
  }

  lemma StepKeeps(s: State, p: nat)
    requires Inv(s) && p < |s.procs| && CanStep(s, p)
    ensures Inv(StepOf(s, p))
  {
    assert ProcOk(s, p);
    if Single(s, p) {
      SingleKeeps(s, p);
    } else if s.procs[p].pc.Waking? {
      WakingKeeps(s, p);
    } else {
      SwitchKeeps(s, StepOf(s, p), p);
    }
  }

  lemma NextKeeps(s: State, a: Action)
    requires Inv(s) && Enabled(s, a)
    ensures Inv(Next(s, a))
  {
    var t := Next(s, a);
    match a
    case Acquire(p, l) =>
      assert ProcOk(s, p);
      SwitchKeeps(s, t, p);
    case Release(p, l) =>
      assert ProcOk(s, p);
      SwitchKeeps(s, t, p);
    case Step(p) => StepKeeps(s, p);
    case Preempt(p) =>
      assert ProcOk(s, p);
      SwitchKeeps(s, t, p);
    case Dispatch(p) =>
      assert ProcOk(s, p);
      SwitchKeeps(s, t, p);
    case SchedulerTakes => SchedulerKeeps(s, t);
    case SchedulerGives => SchedulerKeeps(s, t);
    case Kill(p) =>
      assert ProcOk(s, p);
      if s.procs[p].state.Sleeping? {
        SwitchKeeps(s, t, p);
      }
  }

  lemma SchedulerKeeps(s: State, t: State)
    requires Inv(s) && t == s.(ptable := t.ptable) && !s.ptable.Held? && !t.ptable.Held?
    ensures Inv(t)
  {
    forall q | 0 <= q < |t.procs| ensures ProcOk(t, q) {
      assert ProcOk(s, q);
    }
    forall m | 0 <= m < |t.locks| ensures LockOk(t, m) {
      assert LockOk(s, m);
    }
  }

  lemma InitInv(s: State)
    requires Init(s)
    ensures Inv(s)
  {
    assert InRange(Yielded(Idle), |s.locks|);
  }

  lemma {:induction false} RunKeeps(ss: seq<State>, acts: seq<Action>, n: nat)
    requires IsRun(ss, acts) && n <= |acts|
    ensures Inv(ss[n])
  {
    if n == 0 {
      InitInv(ss[0]);
    } else {
      RunKeeps(ss, acts, n - 1);
      NextKeeps(ss[n - 1], acts[n - 1]);
    }
  }

  lemma ReachableInv(s: State)
    requires Reachable(s)
    ensures Inv(s)
  {
    var ss, acts :| IsRun(ss, acts) && ss[|acts|] == s;
    RunKeeps(ss, acts, |acts|);
  }

  // ------------------------------------------------------------ main results

  /** The process is inside `acquiresleep` or `releasesleep` with the lock's
      `locked` field set by it, or between the two. */
  predicate Owns(s: State, p: nat, l: nat) {
    p < |s.procs| && l in s.procs[p].holds
  }

  lemma MutualExclusion(s: State, l: nat, p: nat, q: nat)
    requires Reachable(s) && Owns(s, p, l) && Owns(s, q, l)
    ensures p == q
  {
    ReachableInv(s);
    assert ProcOk(s, p) && ProcOk(s, q);
  }

  /** No lost wakeup: a process that sleeps on a free lock will be woken, because
      another process is inside `releasesleep` for that lock and its wakeup has
      not reached the sleeper yet. */
  lemma NoLostWakeup(s: State, l: nat, q: nat)
    requires Reachable(s) && l < |s.locks| && !s.locks[l].locked
    requires q < |s.procs| && s.procs[q].state.Sleeping? && s.procs[q].chan == On(l)
    ensures exists r :: 0 <= r < |s.procs| && WillWake(s.procs[r].pc, l, q)
  {
    ReachableInv(s);
    assert ProcOk(s, q);
    assert WillWake(s.procs[s.locks[l].spin.p].pc, l, q);
  }

  /** A sleep lock that nobody is working on and that is free has no sleepers. */
  lemma QuietLockHasNoSleepers(s: State, l: nat, q: nat)
    requires Reachable(s) && l < |s.locks| && !s.locks[l].locked && s.locks[l].spin.Free?
    requires q < |s.procs| && s.procs[q].chan == On(l)
    ensures !s.procs[q].state.Sleeping?
  {
    ReachableInv(s);
    assert ProcOk(s, q);
  }

  /** What `holdingsleep` computes under the lock's spin lock is whether the
      caller owns the lock. */
  lemma HoldingExact(s: State, l: nat, p: nat)
    requires Reachable(s) && l < |s.locks| && s.locks[l].spin.Free? && p < |s.procs|
    ensures s.locks[l].locked && s.locks[l].pid == Pid(p) <==> Owns(s, p, l)
  {
    ReachableInv(s);
    assert ProcOk(s, p) && LockOk(s, l);
    if s.locks[l].locked {
      assert ProcOk(s, s.locks[l].owner);
    }
  }

  /** A sleeper stops sleeping exactly by a kill or when the wakeup for the lock it
      sleeps on comes to it, and is runnable then. */
  lemma WokenExactly(s: State, a: Action, q: nat)
    requires Enabled(s, a) && q < |s.procs| && s.procs[q].state.Sleeping?
    ensures !Next(s, a).procs[q].state.Sleeping? <==>
      a == Kill(q) || (a.Step? && s.procs[a.p].pc.Waking? && s.procs[a.p].pc.i == q && s.procs[q].chan == On(s.procs[a.p].pc.l))
    ensures Next(s, a).procs[q].state.Sleeping? || Next(s, a).procs[q].state.Runnable?
  {
    if a.Step? && s.procs[a.p].pc.Waking? {
      assert a.p != q;
    }
  }

  /** The checks `sched` makes before it switches never fail: the caller holds
      ptable.lock and no other spin lock, and is no longer running. */
  lemma SchedChecksHold(s: State, p: nat, l: nat)
    requires Reachable(s) && p < |s.procs| && s.procs[p].pc.EnterSched? && l < |s.locks|
    ensures s.ptable == Held(p) && !s.procs[p].state.Running? && s.locks[l].spin != Held(p)
  {
    ReachableInv(s);
    assert ProcOk(s, p) && LockOk(s, l);
  }

  /** Spin locks cannot deadlock: the holder of a sleep lock's spin lock can go
      on, or waits for ptable.lock; and ptable.lock's holder can always go on. */
  lemma SpinProgress(s: State, l: nat)
    requires Reachable(s) && l < |s.locks| && s.locks[l].spin.Held?
    ensures s.locks[l].spin.p < |s.procs|
    ensures Enabled(s, Step(s.locks[l].spin.p)) || PtableHolderGoesOn(s)
  {
    ReachableInv(s);
    assert LockOk(s, l);
    assert ProcOk(s, s.locks[l].spin.p);
    if s.ptable.Held? {
      assert ProcOk(s, s.ptable.p);
    }
  }

  predicate PtableHolderGoesOn(s: State) {
    match s.ptable
    case Free => false
    case Held(p) => Enabled(s, Step(p))
    case Scheduler => Enabled(s, SchedulerGives)
  }
}
