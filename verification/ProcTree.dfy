/** The process table of src/proc.c: `allocproc`, `fork`, `exit`, `wait`,
    `wakeup1` and `kill`.

    Each critical section of ptable.lock is one method of `ProcTable` and one
    action of the state machine below; what `fork` does to its new slot without
    the lock is an action of its own, so other processes may run in between. */
module ProcTree {
  const NONE := -1

  datatype RunState = UNUSED | EMBRYO | SLEEPING | RUNNABLE | RUNNING | ZOMBIE

  /** What a process sleeps on: a process slot, as `wait` does, or anything else. */
  datatype Chan = NoChan | OnProc(i: int) | Other(k: int)

  /** `parent` is a slot number or NONE. `child` is the slot a process is
      filling while it is inside `fork`, else NONE. */
  datatype Proc = Proc(state: RunState, pid: int, parent: int, chan: Chan, killed: bool, child: int)

  /** In use past EMBRYO and not exited. */
  predicate Alive(q: Proc) {
    q.state.SLEEPING? || q.state.RUNNABLE? || q.state.RUNNING?
  }

  function Woken(q: Proc, c: Chan): Proc {
    if q.state.SLEEPING? && q.chan == c then q.(state := RUNNABLE) else q
  }

  /** `wakeup1`. */
  function WakeAll(ps: seq<Proc>, c: Chan): (r: seq<Proc>)
    ensures |r| == |ps| && forall i :: 0 <= i < |ps| ==> r[i] == Woken(ps[i], c)
  {
    seq(|ps|, i requires 0 <= i < |ps| => Woken(ps[i], c))
  }

  predicate IsZombieChild(q: Proc, cur: int) {
    q.parent == cur && q.state.ZOMBIE?
  }

  predicate HasZombie(ps: seq<Proc>, cur: int) {
    exists i :: 0 <= i < |ps| && IsZombieChild(ps[i], cur)
  }

  predicate HasChild(ps: seq<Proc>, cur: int) {
    exists i :: 0 <= i < |ps| && ps[i].parent == cur
  }

  /** `exit`, seen at one slot other than the exiting one: its children go to
      init; its parent wakes up, and so does init if it inherits a zombie. */
  function AfterExit(q: Proc, cur: int, parent: int, init: int, inherits: bool): Proc {
    var r := if q.state.SLEEPING? && (q.chan == OnProc(parent) || (inherits && q.chan == OnProc(init))) then q.(state := RUNNABLE) else q;
    if q.parent == cur then r.(parent := init) else r
  }

  function ExitTable(ps: seq<Proc>, cur: nat, init: int): (r: seq<Proc>)
    requires cur < |ps|
    ensures |r| == |ps|
    ensures forall i :: 0 <= i < |ps| && i != cur ==> r[i] == AfterExit(ps[i], cur, ps[cur].parent, init, HasZombie(ps, cur))
    ensures r[cur] == AfterExit(ps[cur], cur, ps[cur].parent, init, HasZombie(ps, cur)).(state := ZOMBIE)
  {
    var inherits := HasZombie(ps, cur);
    var r := seq(|ps|, i requires 0 <= i < |ps| => AfterExit(ps[i], cur, ps[cur].parent, init, inherits));
    r[cur := r[cur].(state := ZOMBIE)]
  }

  /** What `wait` makes of a slot it reaps. */
  function Cleared(q: Proc): Proc {
    q.(state := UNUSED, pid := 0, parent := NONE, killed := false)
  }

  /** The slot a forward scan of the table stops at. */
  ghost predicate FirstUnused(ps: seq<Proc>, i: int) {
    0 <= i < |ps| && ps[i].state.UNUSED? && forall j :: 0 <= j < i ==> !ps[j].state.UNUSED?
  }

  ghost predicate FirstZombie(ps: seq<Proc>, cur: int, i: int) {
    0 <= i < |ps| && IsZombieChild(ps[i], cur) && forall j :: 0 <= j < i ==> !IsZombieChild(ps[j], cur)
  }

  datatype WaitResult = Reaped(pid: int) | Failed | Slept

  /** One pass of the loop in `wait`: the result and the new table. */
  ghost predicate WaitPass(ps: seq<Proc>, cur: nat, r: WaitResult, qs: seq<Proc>)
    requires cur < |ps|
  {
    if HasZombie(ps, cur) then
      exists z :: FirstZombie(ps, cur, z) && r == Reaped(ps[z].pid) && qs == ps[z := Cleared(ps[z])]
    else if !HasChild(ps, cur) || ps[cur].killed then
      r == Failed && qs == ps
    else
      r == Slept && qs == ps[cur := ps[cur].(chan := OnProc(cur), state := SLEEPING)]
  }

  /** `r` is `q`, parent aside, but runnable if `q` slept and `wakes`. */
  predicate Roused(q: Proc, r: Proc, wakes: bool) {
    && (if q.state.SLEEPING? && wakes then r.state.RUNNABLE? else r.state == q.state)
    && r.pid == q.pid && r.chan == q.chan && r.killed == q.killed && r.child == q.child
  }

  /** Exactly the sleepers on `c` become runnable, and nothing else changes. */
  ghost predicate SleepersRun(ps: seq<Proc>, c: Chan, qs: seq<Proc>) {
    |qs| == |ps| && forall i :: 0 <= i < |ps| ==> Roused(ps[i], qs[i], ps[i].chan == c) && qs[i].parent == ps[i].parent
  }

  /** An exit: the process is a zombie that keeps its pid; its children, and no others,
      go to init; exactly the sleepers on its parent become runnable, and those on init
      if it leaves a zombie. */
  ghost predicate Exited(ps: seq<Proc>, cur: nat, init: int, qs: seq<Proc>)
    requires cur < |ps|
  {
    && |qs| == |ps| && qs[cur].state.ZOMBIE? && qs[cur].pid == ps[cur].pid
    && (forall i :: 0 <= i < |ps| ==> qs[i].parent == if ps[i].parent == cur then init else ps[i].parent)
    && var zombie := exists j :: 0 <= j < |ps| && ps[j].parent == cur && ps[j].state.ZOMBIE?;
       forall i :: 0 <= i < |ps| && i != cur ==>
         Roused(ps[i], qs[i], ps[i].chan == OnProc(ps[cur].parent) || (zombie && ps[i].chan == OnProc(init)))
  }

  lemma ExitLeaves(ps: seq<Proc>, cur: nat, init: int)
    requires cur < |ps|
    ensures Exited(ps, cur, init, ExitTable(ps, cur, init))
  {
    assert HasZombie(ps, cur) <==> exists j :: 0 <= j < |ps| && ps[j].parent == cur && ps[j].state.ZOMBIE?;
  }

  class ProcTable {
    const proc: array<Proc>
    var nextpid: int
    const initproc: int

    constructor (n: nat, init: nat)
      requires init < n
      ensures fresh(proc) && proc.Length == n && nextpid == 2 && initproc == init
      ensures Init(State(proc[..], nextpid, initproc, [], []))
    {
      proc := new Proc[n](_ => Proc(UNUSED, 0, NONE, NoChan, false, NONE));
      nextpid := 2;
      initproc := init;
      new;
      proc[init] := Proc(RUNNABLE, 1, NONE, NoChan, false, NONE);
    }

    method Wakeup1(c: Chan)
      modifies proc
      ensures proc[..] == WakeAll(old(proc[..]), c)
      ensures SleepersRun(old(proc[..]), c, proc[..])
    {
      var i := 0;
      while i < proc.Length
        invariant 0 <= i <= proc.Length
        invariant forall j :: 0 <= j < i ==> proc[j] == Woken(old(proc[j]), c)
        invariant forall j :: i <= j < proc.Length ==> proc[j] == old(proc[j])
      {
        if proc[i].state.SLEEPING? && proc[i].chan == c {
          proc[i] := proc[i].(state := RUNNABLE);
        }
        i := i + 1;
      }
    }

    /** The locked part of `allocproc`: -1 when no slot is free. */
    method AllocProc() returns (i: int)
      modifies this, proc
      ensures i == NONE <==> forall j :: 0 <= j < proc.Length ==> !old(proc[j]).state.UNUSED?
      ensures i == NONE ==> proc[..] == old(proc[..]) && nextpid == old(nextpid)
      ensures i != NONE ==> FirstUnused(old(proc[..]), i)
      ensures i != NONE ==> proc[..] == old(proc[..])[i := old(proc[i]).(state := EMBRYO, pid := old(nextpid))] && nextpid == old(nextpid) + 1
    {
      i := 0;
      while i < proc.Length
        invariant 0 <= i <= proc.Length
        invariant forall j :: 0 <= j < i ==> !proc[j].state.UNUSED?
      {
        if proc[i].state.UNUSED? {
          proc[i] := proc[i].(state := EMBRYO, pid := nextpid);
          nextpid := nextpid + 1;
          return;
        }
        i := i + 1;
      }
      i := NONE;
    }

    /** `exit` up to its switch to the scheduler; init must not exit. */
    method Exit(cur: nat)
      requires cur < proc.Length && cur != initproc && 0 <= initproc < proc.Length
      modifies proc
      ensures proc[..] == ExitTable(old(proc[..]), cur, initproc)
      ensures Exited(old(proc[..]), cur, initproc, proc[..])
    {
      hide SleepersRun, Exited;
      Wakeup1(OnProc(proc[cur].parent));
      var i := 0;
      ghost var ps := old(proc[..]);
      while i < proc.Length
        invariant 0 <= i <= proc.Length
        invariant forall j :: 0 <= j < proc.Length ==>
          proc[j] == var r := AfterExit(ps[j], cur, ps[cur].parent, initproc, HasZombie(ps[..i], cur));
                     if j < i then r else r.(parent := ps[j].parent)
      {
        assert ps[..i + 1] == ps[..i] + [ps[i]];
        if proc[i].parent == cur {
          proc[i] := proc[i].(parent := initproc);
          if proc[i].state.ZOMBIE? {
            Wakeup1(OnProc(initproc));
          }
        }
        i := i + 1;
      }
      assert ps[..i] == ps;
      proc[cur] := proc[cur].(state := ZOMBIE);
      ExitLeaves(ps, cur, initproc);
    }

    /** One pass of the loop in `wait`: the first zombie child is reaped, its slot left
        free without pid, parent and mark; without one, the call fails if there is no
        child or the caller is killed, and else the caller sleeps on itself. */
    method Wait(cur: nat) returns (r: WaitResult)
      requires cur < proc.Length
      modifies proc
      ensures WaitPass(old(proc[..]), cur, r, proc[..])
      ensures r.Reaped? <==> exists i :: 0 <= i < proc.Length && old(proc[i]).parent == cur && old(proc[i]).state.ZOMBIE?
      ensures r.Failed? <==> !r.Reaped? && (old(proc[cur]).killed || forall i :: 0 <= i < proc.Length ==> old(proc[i]).parent != cur)
      ensures forall i :: 0 <= i < proc.Length ==>
        if r.Reaped? && FirstZombie(old(proc[..]), cur, i) then
          && r.pid == old(proc[i]).pid && proc[i].state.UNUSED? && proc[i].pid == 0
          && proc[i].parent == NONE && !proc[i].killed
        else if r.Slept? && i == cur then
          && proc[i].state.SLEEPING? && proc[i].chan == OnProc(cur) && proc[i].pid == old(proc[i]).pid
          && proc[i].parent == old(proc[i]).parent && proc[i].killed == old(proc[i]).killed
        else
          proc[i] == old(proc[i])
    {
      var havekids := false;
      var i := 0;
      while i < proc.Length
        invariant 0 <= i <= proc.Length
        invariant proc[..] == old(proc[..])
        invariant havekids <==> HasChild(proc[..i], cur)
        invariant forall j :: 0 <= j < i ==> !IsZombieChild(proc[j], cur)
      {
        if proc[i].parent == cur {
          havekids := true;
          if proc[i].state.ZOMBIE? {
            r := Reaped(proc[i].pid);
            assert FirstZombie(old(proc[..]), cur, i);
            proc[i] := Cleared(proc[i]);
            return;
          }
        }
        i := i + 1;
      }
      assert proc[..i] == old(proc[..]);
      if !havekids || proc[cur].killed {
        return Failed;
      }
      proc[cur] := proc[cur].(chan := OnProc(cur));
      proc[cur] := proc[cur].(state := SLEEPING);
      r := Slept;
    }

    /** kill: false exactly if no slot has the pid; else the first slot that has it, in
        use or not, is marked, and runs again if it slept. Nothing else changes. */
    method Kill(pid: int) returns (ok: bool)
      modifies proc
      ensures KillTable(old(proc[..]), pid, ok, proc[..])
      ensures ok <==> exists i :: 0 <= i < proc.Length && old(proc[i]).pid == pid
      ensures forall i :: 0 <= i < proc.Length ==>
        if old(proc[i]).pid == pid && (forall j :: 0 <= j < i ==> old(proc[j]).pid != pid)
        then Marked(old(proc[i]), proc[i]) else proc[i] == old(proc[i])
    {
      var i := 0;
      while i < proc.Length
        invariant 0 <= i <= proc.Length
        invariant forall j :: 0 <= j < i ==> proc[j].pid != pid
      {
        if proc[i].pid == pid {
          proc[i] := proc[i].(killed := true);
          if proc[i].state.SLEEPING? {
            proc[i] := proc[i].(state := RUNNABLE);
          }
          assert FirstPid(old(proc[..]), pid, i);
          return true;
        }
        i := i + 1;
      }
      ok := false;
    }
  }

  ghost predicate FirstPid(ps: seq<Proc>, pid: int, i: int) {
    0 <= i < |ps| && ps[i].pid == pid && forall j :: 0 <= j < i ==> ps[j].pid != pid
  }

  function Killed(q: Proc): Proc {
    q.(killed := true, state := if q.state.SLEEPING? then RUNNABLE else q.state)
  }

  /** What a kill does to its process: the mark is set; one that slept is runnable, and
      otherwise nothing changes. */
  predicate Marked(q: Proc, r: Proc) {
    && r.killed && !r.state.SLEEPING?
    && (if q.state.SLEEPING? then r.state.RUNNABLE? else r.state == q.state)
    && r.pid == q.pid && r.parent == q.parent && r.chan == q.chan && r.child == q.child
  }

  ghost predicate KillTable(ps: seq<Proc>, pid: int, ok: bool, qs: seq<Proc>) {
    if ok then exists i :: FirstPid(ps, pid, i) && qs == ps[i := Killed(ps[i])]
    else qs == ps && forall i :: 0 <= i < |ps| ==> ps[i].pid != pid
  }

  // ---------------------------------------------------------- state machine

  /** The table, the pids `wait` has returned so far, and the pids of forks
      that gave their slot back. */
  datatype State = State(procs: seq<Proc>, nextpid: int, init: int, returned: seq<int>, failed: seq<int>)

  /** init is there, every other slot is free. */
  predicate Init(s: State) {
    && 0 <= s.init < |s.procs| && s.nextpid == 2 && s.returned == [] && s.failed == []
    && s.procs[s.init] == Proc(RUNNABLE, 1, NONE, NoChan, false, NONE)
    && forall i :: 0 <= i < |s.procs| && i != s.init ==> s.procs[i] == Proc(UNUSED, 0, NONE, NoChan, false, NONE)
  }

  datatype Action =
    | ForkAlloc(p: nat)       // allocproc takes a slot for p's child
    | ForkFails(p: nat)       // no kernel stack or no page tables: the slot goes back
    | ForkParent(p: nat)      // np->parent = curproc, without the lock
    | ForkDone(p: nat)        // the child becomes runnable
    | Exit(p: nat)
    | Wait(p: nat)            // one pass of wait's loop
    | Kill(pid: int)
    | Sleep(p: nat, k: int)   // on anything but a process
    | Wakeup(k: int)
    | Dispatch(p: nat)
    | Yield(p: nat)

  predicate Runs(s: State, p: nat) {
    p < |s.procs| && s.procs[p].state.RUNNING?
  }

  /** The process is inside `fork` with slot `child`. */
  predicate Forking(s: State, p: nat) {
    Runs(s, p) && 0 <= s.procs[p].child < |s.procs| && s.procs[p].child != p
  }

  function Put(s: State, i: nat, q: Proc): State
    requires i < |s.procs|
  {
    s.(procs := s.procs[i := q])
  }

  /** `a` can lead from `s` to `t`. */
  ghost predicate Next(s: State, a: Action, t: State) {
    match a
    case ForkAlloc(p) =>
      && Runs(s, p) && s.procs[p].child == NONE
      && exists i :: FirstUnused(s.procs, i) && t == Allocated(s, p, i)
    case ForkFails(p) =>
      && Forking(s, p) && s.procs[s.procs[p].child].parent == NONE
      && t == GivenBack(s, p)
    case ForkParent(p) =>
      && Forking(s, p)
      && t == Put(s, s.procs[p].child, s.procs[s.procs[p].child].(parent := p))
    case ForkDone(p) =>
      && Forking(s, p) && s.procs[s.procs[p].child].parent == p
      && t == Put(Put(s, s.procs[p].child, s.procs[s.procs[p].child].(state := RUNNABLE)), p, s.procs[p].(child := NONE))
    case Exit(p) =>
      && Runs(s, p) && s.procs[p].child == NONE && p != s.init
      && t == s.(procs := ExitTable(s.procs, p, s.init))
    case Wait(p) =>
      && Runs(s, p) && s.procs[p].child == NONE
      && exists r :: WaitPass(s.procs, p, r, t.procs) && t == s.(procs := t.procs, returned := if r.Reaped? then s.returned + [r.pid] else s.returned)
    case Kill(pid) =>
      (exists ok :: KillTable(s.procs, pid, ok, t.procs)) && t == s.(procs := t.procs)
    case Sleep(p, k) => Runs(s, p) && t == Put(s, p, s.procs[p].(state := SLEEPING, chan := Other(k)))
    case Wakeup(k) => t == s.(procs := WakeAll(s.procs, Other(k)))
    case Dispatch(p) => p < |s.procs| && s.procs[p].state.RUNNABLE? && t == Put(s, p, s.procs[p].(state := RUNNING, chan := NoChan))
    case Yield(p) => Runs(s, p) && t == Put(s, p, s.procs[p].(state := RUNNABLE))
  }

  function Allocated(s: State, p: nat, i: int): State
    requires p < |s.procs| && 0 <= i < |s.procs|
  {
    var t := Put(s, i, s.procs[i].(state := EMBRYO, pid := s.nextpid));
    Put(t, p, t.procs[p].(child := i)).(nextpid := s.nextpid + 1)
  }

  function GivenBack(s: State, p: nat): State
    requires Forking(s, p)
  {
    var c := s.procs[p].child;
    Put(Put(s, c, s.procs[c].(state := UNUSED)), p, s.procs[p].(child := NONE)).(failed := s.failed + [s.procs[c].pid])
  }

  ghost predicate Run(s: State, acts: seq<(Action, State)>, t: State)
    decreases |acts|
  {
    if acts == [] then s == t
    else Next(s, acts[0].0, acts[0].1) && Run(acts[0].1, acts[1..], t)
  }

  ghost predicate Reachable(s: State) {
    exists s0, acts :: Init(s0) && Run(s0, acts, s)
  }

  // -------------------------------------------------------------- invariant

  /** `parent` is a live process older than a process with this pid. */
  predicate ParentOk(ps: seq<Proc>, parent: int, pid: int) {
    0 <= parent < |ps| && Alive(ps[parent]) && ps[parent].pid < pid
  }

  ghost predicate SlotOk(ps: seq<Proc>, init: int, nextpid: int, i: nat)
    requires i < |ps|
  {
    var q := ps[i];
    && (i == init ==> Alive(q) && q.parent == NONE && q.pid == 1)
    && (!q.state.UNUSED? && i != init ==> 2 <= q.pid < nextpid)
    && (q.state.UNUSED? ==> q.parent == NONE)
    && (q.state.EMBRYO? && q.parent != NONE ==> 0 <= q.parent < |ps| && ps[q.parent].child == i)
    && (q.state.ZOMBIE? || (Alive(q) && i != init) ==> ParentOk(ps, q.parent, q.pid))
    && (q.child != NONE ==> ChildOk(ps, i))
    && (q.state.SLEEPING? && q.chan.OnProc? ==> q.chan.i == i && !HasZombie(ps, i))
  }

  /** The slot a process is filling in `fork` is its own. */
  predicate ChildOk(ps: seq<Proc>, i: nat)
    requires i < |ps|
  {
    var c := ps[i].child;
    && Alive(ps[i]) && 0 <= c < |ps| && c != i && ps[c].state.EMBRYO? && ps[i].pid < ps[c].pid
    && (ps[c].parent == NONE || ps[c].parent == i)
  }

  ghost predicate TableOk(ps: seq<Proc>, init: int, nextpid: int) {
    && 0 <= init < |ps| && nextpid >= 2
    && (forall i :: 0 <= i < |ps| ==> SlotOk(ps, init, nextpid, i))
    && (forall i, j :: 0 <= i < j < |ps| && ps[i].child != NONE ==> ps[i].child != ps[j].child)
  }

  /** Every pid handed out is in the table once, or was returned by `wait` once,
      or was given back by a failed fork. */
  ghost predicate PidsOk(s: State) {
    && (forall i, j :: 0 <= i < j < |s.procs| && !s.procs[i].state.UNUSED? && !s.procs[j].state.UNUSED? ==> s.procs[i].pid != s.procs[j].pid)
    && (forall i :: 0 <= i < |s.procs| && !s.procs[i].state.UNUSED? ==> s.procs[i].pid !in s.returned && s.procs[i].pid !in s.failed)
    && (forall i, j :: 0 <= i < j < |s.returned| ==> s.returned[i] != s.returned[j])
    && (forall i, j :: 0 <= i < j < |s.failed| ==> s.failed[i] != s.failed[j])
    && (forall n :: n in s.returned ==> 2 <= n < s.nextpid && n !in s.failed)
    && (forall n :: n in s.failed ==> 2 <= n < s.nextpid)
    && (forall n :: 1 <= n < s.nextpid ==> n in s.returned || n in s.failed || InTable(s.procs, n))
  }

  ghost predicate InTable(ps: seq<Proc>, n: int) {
    exists i :: 0 <= i < |ps| && !ps[i].state.UNUSED? && ps[i].pid == n
  }

  /** Only run state, channel and `killed` differ, and nobody is born, exits or
      starts to sleep in `wait` over a zombie child. */
  ghost predicate Mild(ps: seq<Proc>, qs: seq<Proc>) {
    && |ps| == |qs|
    && forall i :: 0 <= i < |ps| ==> MildAt(ps, qs[i], i)
  }

  ghost predicate MildAt(ps: seq<Proc>, q: Proc, i: nat)
    requires i < |ps|
  {
    && q == ps[i].(state := q.state, chan := q.chan, killed := q.killed)
    && (q.state == ps[i].state || (Alive(q) && Alive(ps[i])))
    && (q.state.SLEEPING? && q.chan.OnProc? ==> (ps[i].state.SLEEPING? && q.chan == ps[i].chan) || (q.chan.i == i && !HasZombie(ps, i)))
  }

  ghost predicate Ok(s: State) {
    TableOk(s.procs, s.init, s.nextpid) && PidsOk(s)
  }

  lemma NoZombieStays(ps: seq<Proc>, qs: seq<Proc>, i: int)
    requires |ps| == |qs| && !HasZombie(ps, i)
    requires forall k :: 0 <= k < |ps| && IsZombieChild(qs[k], i) ==> IsZombieChild(ps[k], i)
    ensures !HasZombie(qs, i)
  {
  }

  /** Pids are accounted for as before when no slot changes hands. */
  lemma PidsStay(s: State, t: State)
    requires PidsOk(s) && t == s.(procs := t.procs) && |t.procs| == |s.procs|
    requires forall i :: 0 <= i < |s.procs| ==> t.procs[i].pid == s.procs[i].pid && (t.procs[i].state.UNUSED? <==> s.procs[i].state.UNUSED?)
    ensures PidsOk(t)
  {
    forall n | InTable(s.procs, n) ensures InTable(t.procs, n) {
      InTableStays(s.procs, t.procs, n);
    }
  }

  lemma InTableStays(ps: seq<Proc>, qs: seq<Proc>, n: int)
    requires |ps| == |qs| && InTable(ps, n)
    requires forall i :: 0 <= i < |ps| && !ps[i].state.UNUSED? && ps[i].pid == n ==> !qs[i].state.UNUSED? && qs[i].pid == n
    ensures InTable(qs, n)
  {
    var i :| 0 <= i < |ps| && !ps[i].state.UNUSED? && ps[i].pid == n;
    assert qs[i].pid == n;
  }

  lemma MildKeeps(s: State, t: State)
    requires Mild(s.procs, t.procs) && t == s.(procs := t.procs) && Ok(s)
    ensures Ok(t)
  {
    var ps, qs := s.procs, t.procs;
    forall i | 0 <= i < |qs| ensures SlotOk(qs, s.init, s.nextpid, i) {
      assert SlotOk(ps, s.init, s.nextpid, i) && MildAt(ps, qs[i], i);
      if !HasZombie(ps, i) {
        NoZombieStays(ps, qs, i);
      }
    }
    PidsStay(s, t);
  }

  // ------------------------------------------------------------------- fork

  lemma AllocSlot(s: State, p: nat, i: int, j: nat)
    requires Ok(s) && Runs(s, p) && s.procs[p].child == NONE && FirstUnused(s.procs, i) && j < |s.procs|
    ensures SlotOk(Allocated(s, p, i).procs, s.init, s.nextpid + 1, j)
    ensures s.procs[j].child != i
  {
    var ps, qs := s.procs, Allocated(s, p, i).procs;
    assert SlotOk(ps, s.init, s.nextpid, i) && SlotOk(ps, s.init, s.nextpid, p) && SlotOk(ps, s.init, s.nextpid, j);
    if !HasZombie(ps, j) {
      NoZombieStays(ps, qs, j);
    }
  }

  lemma AllocKeeps(s: State, p: nat, i: int)
    requires Ok(s) && Runs(s, p) && s.procs[p].child == NONE && FirstUnused(s.procs, i)
    ensures TableOk(Allocated(s, p, i).procs, s.init, s.nextpid + 1)
  {
    forall j | 0 <= j < |s.procs|
      ensures SlotOk(Allocated(s, p, i).procs, s.init, s.nextpid + 1, j) && s.procs[j].child != i
    {
      AllocSlot(s, p, i, j);
    }
  }

  lemma AllocPids(s: State, p: nat, i: int)
    requires Ok(s) && Runs(s, p) && FirstUnused(s.procs, i)
    ensures PidsOk(Allocated(s, p, i))
  {
    var ps, t := s.procs, Allocated(s, p, i);
    assert SlotOk(ps, s.init, s.nextpid, i);
    forall j | 0 <= j < |ps| && !ps[j].state.UNUSED? ensures ps[j].pid < s.nextpid {
      assert SlotOk(ps, s.init, s.nextpid, j);
    }
    forall n | 1 <= n < t.nextpid ensures n in t.returned || n in t.failed || InTable(t.procs, n) {
      if n == s.nextpid {
        assert t.procs[i].pid == n;
      } else if InTable(ps, n) {
        InTableStays(ps, t.procs, n);
      }
    }
  }

  lemma GiveBackKeeps(s: State, p: nat)
    requires Ok(s) && Forking(s, p) && s.procs[s.procs[p].child].parent == NONE
    ensures TableOk(GivenBack(s, p).procs, s.init, s.nextpid)
  {
    hide PidsOk;
    var ps, c, qs := s.procs, s.procs[p].child, GivenBack(s, p).procs;
    assert SlotOk(ps, s.init, s.nextpid, c) && SlotOk(ps, s.init, s.nextpid, p);
    forall j | 0 <= j < |qs| ensures SlotOk(qs, s.init, s.nextpid, j) {
      assert SlotOk(ps, s.init, s.nextpid, j);
      if !HasZombie(ps, j) {
        NoZombieStays(ps, qs, j);
      }
    }
  }

  lemma GiveBackPids(s: State, p: nat)
    requires Ok(s) && Forking(s, p)
    ensures PidsOk(GivenBack(s, p))
  {
    var ps, t, c := s.procs, GivenBack(s, p), s.procs[p].child;
    assert SlotOk(ps, s.init, s.nextpid, c) && SlotOk(ps, s.init, s.nextpid, p);
    forall n | 1 <= n < t.nextpid ensures n in t.returned || n in t.failed || InTable(t.procs, n) {
      if InTable(ps, n) && n != ps[c].pid {
        InTableStays(ps, t.procs, n);
      }
    }
  }

  lemma ForkParentKeeps(s: State, p: nat, t: State)
    requires Ok(s) && Next(s, ForkParent(p), t)
    ensures Ok(t)
  {
    var ps, c := s.procs, s.procs[p].child;
    assert SlotOk(ps, s.init, s.nextpid, p);
    forall j | 0 <= j < |ps| ensures SlotOk(t.procs, s.init, s.nextpid, j) {
      assert SlotOk(ps, s.init, s.nextpid, j);
      if !HasZombie(ps, j) {
        NoZombieStays(ps, t.procs, j);
      }
    }
    PidsStay(s, t);
  }

  /** The child is live from here on; nothing else about the table changes. */
  lemma ForkDoneSlot(ps: seq<Proc>, init: int, nextpid: int, p: nat, c: nat, qs: seq<Proc>, j: nat)
    requires TableOk(ps, init, nextpid) && p < |ps| && c < |ps| && ps[p].child == c && ps[c].parent == p && j < |ps|
    requires qs == ps[c := ps[c].(state := RUNNABLE)][p := ps[p].(child := NONE)]
    ensures SlotOk(qs, init, nextpid, j)
  {
    assert SlotOk(ps, init, nextpid, p) && SlotOk(ps, init, nextpid, c) && SlotOk(ps, init, nextpid, j);
    if !HasZombie(ps, j) {
      NoZombieStays(ps, qs, j);
    }
    hide HasZombie;
    if j != c && j != p {
      assert ps[j].child != c;
    }
  }

  lemma ForkDoneKeeps(s: State, p: nat, t: State)
    requires Ok(s) && Next(s, ForkDone(p), t)
    ensures Ok(t)
  {
    forall j | 0 <= j < |s.procs| ensures SlotOk(t.procs, s.init, s.nextpid, j) {
      ForkDoneSlot(s.procs, s.init, s.nextpid, p, s.procs[p].child, t.procs, j);
    }
    assert SlotOk(s.procs, s.init, s.nextpid, p);
    PidsStay(s, t);
  }

  // -------------------------------------------------------------- exit, wait

  /** Nobody sleeps in `wait` over a zombie after an exit: the parent and, if
      it inherits a zombie, init have been woken. */
  lemma ExitNoSleeper(ps: seq<Proc>, p: nat, init: int, j: nat)
    requires p < |ps| && j < |ps| && p != init && ps[p].parent != p
    requires !HasZombie(ps, j) && j != ps[p].parent && (j == init ==> !HasZombie(ps, p))
    ensures !HasZombie(ExitTable(ps, p, init), j)
  {
    var qs := ExitTable(ps, p, init);
    forall k | 0 <= k < |ps| ensures !IsZombieChild(qs[k], j) {
      assert !IsZombieChild(ps[k], j) && (j == init ==> !IsZombieChild(ps[k], p));
    }
  }

  /** Exiting leaves identities alone and nobody but the caller stops living. */
  lemma ExitAt(ps: seq<Proc>, p: nat, init: int, j: nat)
    requires p < |ps| && j < |ps| && j != p
    ensures var q := ExitTable(ps, p, init)[j];
      && q == ps[j].(state := q.state, parent := if ps[j].parent == p then init else ps[j].parent)
      && (q.state == ps[j].state || (ps[j].state.SLEEPING? && q.state.RUNNABLE?))
  {
  }

  lemma ExitParent(s: State, p: nat, j: nat)
    requires Ok(s) && Runs(s, p) && p != s.init && j < |s.procs| && j != s.init
    requires ParentOk(s.procs, s.procs[j].parent, s.procs[j].pid)
    ensures var qs := ExitTable(s.procs, p, s.init); ParentOk(qs, qs[j].parent, qs[j].pid)
  {
    var ps := s.procs;
    assert SlotOk(ps, s.init, s.nextpid, s.init) && SlotOk(ps, s.init, s.nextpid, p);
    ExitAt(ps, p, s.init, s.init);
    if ps[j].parent != p {
      ExitAt(ps, p, s.init, ps[j].parent);
    }
  }

  lemma ExitFork(s: State, p: nat, j: nat)
    requires Ok(s) && Runs(s, p) && s.procs[p].child == NONE && p != s.init && j < |s.procs|
    ensures var qs := ExitTable(s.procs, p, s.init);
      && (qs[j].child != NONE ==> ChildOk(qs, j))
      && (qs[j].state.EMBRYO? && qs[j].parent != NONE ==> 0 <= qs[j].parent < |qs| && qs[qs[j].parent].child == j)
  {
    var ps := s.procs;
    assert SlotOk(ps, s.init, s.nextpid, j);
    if ps[j].child != NONE {
      ExitAt(ps, p, s.init, j);
      ExitAt(ps, p, s.init, ps[j].child);
    }
    if ps[j].state.EMBRYO? && ps[j].parent != NONE {
      ExitAt(ps, p, s.init, j);
      ExitAt(ps, p, s.init, ps[j].parent);
    }
  }

  lemma ExitSlot(s: State, p: nat, j: nat)
    requires Ok(s) && Runs(s, p) && s.procs[p].child == NONE && p != s.init && j < |s.procs|
    ensures SlotOk(ExitTable(s.procs, p, s.init), s.init, s.nextpid, j)
  {
    var ps := s.procs;
    assert SlotOk(ps, s.init, s.nextpid, p) && SlotOk(ps, s.init, s.nextpid, j);
    ExitFork(s, p, j);
    if j != s.init && (ps[j].state.ZOMBIE? || Alive(ps[j])) {
      ExitParent(s, p, j);
    }
    if j != p {
      ExitAt(ps, p, s.init, j);
    }
    if !HasZombie(ps, j) && j != ps[p].parent && (j == s.init ==> !HasZombie(ps, p)) {
      ExitNoSleeper(ps, p, s.init, j);
    }
  }

  lemma ExitKeeps(s: State, p: nat, t: State)
    requires Ok(s) && Next(s, Exit(p), t)
    ensures Ok(t)
  {
    forall j | 0 <= j < |s.procs| ensures SlotOk(t.procs, s.init, s.nextpid, j) {
      ExitSlot(s, p, j);
    }
    PidsStay(s, t);
  }

  lemma ReapKeeps(s: State, z: nat)
    requires Ok(s) && z < |s.procs| && s.procs[z].state.ZOMBIE?
    ensures TableOk(s.procs[z := Cleared(s.procs[z])], s.init, s.nextpid)
  {
    var ps := s.procs;
    var qs := ps[z := Cleared(ps[z])];
    assert SlotOk(ps, s.init, s.nextpid, z);
    forall j | 0 <= j < |ps| ensures SlotOk(qs, s.init, s.nextpid, j) {
      assert SlotOk(ps, s.init, s.nextpid, j);
      if !HasZombie(ps, j) {
        NoZombieStays(ps, qs, j);
      }
    }
  }

  lemma ReapPids(s: State, z: nat)
    requires Ok(s) && z < |s.procs| && s.procs[z].state.ZOMBIE?
    ensures PidsOk(s.(procs := s.procs[z := Cleared(s.procs[z])], returned := s.returned + [s.procs[z].pid]))
  {
    var ps := s.procs;
    var t := s.(procs := ps[z := Cleared(ps[z])], returned := s.returned + [ps[z].pid]);
    assert SlotOk(ps, s.init, s.nextpid, z);
    forall n | 1 <= n < t.nextpid ensures n in t.returned || n in t.failed || InTable(t.procs, n) {
      if InTable(ps, n) && n != ps[z].pid {
        InTableStays(ps, t.procs, n);
      }
    }
  }

  lemma WaitKeeps(s: State, p: nat, t: State)
    requires Ok(s) && Next(s, Wait(p), t)
    ensures Ok(t)
  {
    var r :| WaitPass(s.procs, p, r, t.procs) && t == s.(procs := t.procs, returned := if r.Reaped? then s.returned + [r.pid] else s.returned);
    if HasZombie(s.procs, p) {
      var z :| FirstZombie(s.procs, p, z) && r == Reaped(s.procs[z].pid) && t.procs == s.procs[z := Cleared(s.procs[z])];
      ReapKeeps(s, z);
      ReapPids(s, z);
    } else {
      MildKeeps(s, t);
    }
  }

  lemma NextKeeps(s: State, a: Action, t: State)
    requires Ok(s) && Next(s, a, t)
    ensures Ok(t)
  {
    match a
    case ForkAlloc(p) =>
      var i :| FirstUnused(s.procs, i) && t == Allocated(s, p, i);
      AllocKeeps(s, p, i);
      AllocPids(s, p, i);
    case ForkFails(p) =>
      GiveBackKeeps(s, p);
      GiveBackPids(s, p);
    case ForkParent(p) => ForkParentKeeps(s, p, t);
    case ForkDone(p) => ForkDoneKeeps(s, p, t);
    case Exit(p) => ExitKeeps(s, p, t);
    case Wait(p) => WaitKeeps(s, p, t);
    case _ => MildKeeps(s, t);
  }

  lemma {:induction false} RunKeeps(s: State, acts: seq<(Action, State)>, t: State)
    requires Ok(s) && Run(s, acts, t)
    ensures Ok(t)
    decreases |acts|
  {
    if acts != [] {
      NextKeeps(s, acts[0].0, acts[0].1);
      RunKeeps(acts[0].1, acts[1..], t);
    }
  }

  lemma ReachableOk(s: State)
    requires Reachable(s)
    ensures Ok(s)
  {
    var s0, acts :| Init(s0) && Run(s0, acts, s);
    assert s0.procs[s0.init].pid == 1;
    RunKeeps(s0, acts, s);
  }

  // ------------------------------------------------------------ main results

  /** Whenever ptable.lock is free, every process past EMBRYO other than init has
      a live parent, and a parent that sleeps in `wait` has no zombie child. */
  lemma ParentsLive(s: State, i: nat)
    requires Reachable(s) && i < |s.procs| && i != s.init
    requires !s.procs[i].state.UNUSED? && !s.procs[i].state.EMBRYO?
    ensures 0 <= s.procs[i].parent < |s.procs| && Alive(s.procs[s.procs[i].parent])
    ensures s.procs[i].state.ZOMBIE? ==> var q := s.procs[s.procs[i].parent]; !(q.state.SLEEPING? && q.chan == OnProc(s.procs[i].parent))
  {
    ReachableOk(s);
    assert SlotOk(s.procs, s.init, s.nextpid, i);
    assert SlotOk(s.procs, s.init, s.nextpid, s.procs[i].parent);
    if s.procs[i].state.ZOMBIE? {
      assert IsZombieChild(s.procs[i], s.procs[i].parent);
    }
  }

  /** The slot reached from `i` by following `parent` `k` times. */
  function Ancestor(ps: seq<Proc>, i: int, k: nat): int {
    if k == 0 then i
    else
      var j := Ancestor(ps, i, k - 1);
      if 0 <= j < |ps| then ps[j].parent else NONE
  }

  lemma {:induction false} AncestorFromParent(ps: seq<Proc>, i: int, k: nat)
    requires 0 <= i < |ps|
    ensures Ancestor(ps, i, k + 1) == Ancestor(ps, ps[i].parent, k)
  {
    if k > 0 {
      AncestorFromParent(ps, i, k - 1);
    }
  }

  /** The processes form a tree with init at the root: following parents from
      any live or zombie process leads to init. */
  lemma {:induction false} ReachesInit(s: State, i: nat) returns (k: nat)
    requires Reachable(s) && i < |s.procs| && !s.procs[i].state.UNUSED? && !s.procs[i].state.EMBRYO?
    ensures Ancestor(s.procs, i, k) == s.init
    decreases s.procs[i].pid
  {
    ReachableOk(s);
    assert SlotOk(s.procs, s.init, s.nextpid, i);
    if i == s.init {
      k := 0;
    } else {
      var up := s.procs[i].parent;
      assert SlotOk(s.procs, s.init, s.nextpid, up);
      var k' := ReachesInit(s, up);
      AncestorFromParent(s.procs, i, k');
      k := k' + 1;
    }
  }

  /** `wait` returns no pid twice, and a pid is never lost: it is in the table,
      or was returned, or its fork failed, and only one of the three. */
  lemma PidsConserved(s: State)
    requires Reachable(s)
    ensures forall i, j :: 0 <= i < j < |s.returned| ==> s.returned[i] != s.returned[j]
    ensures forall n :: 1 <= n < s.nextpid <==> n in s.returned || n in s.failed || InTable(s.procs, n)
    ensures forall n :: n in s.returned ==> n !in s.failed && !InTable(s.procs, n)
    ensures forall n :: n in s.failed ==> !InTable(s.procs, n)
  {
    ReachableOk(s);
    forall n | InTable(s.procs, n) ensures 1 <= n < s.nextpid && n !in s.returned && n !in s.failed {
      var i :| 0 <= i < |s.procs| && !s.procs[i].state.UNUSED? && s.procs[i].pid == n;
      assert SlotOk(s.procs, s.init, s.nextpid, i);
    }
  }

  // ------------------------------------------------- processes that are killed

  /** No free slot is marked killed. `allocproc` does not clear the mark, so this is
      what keeps a new process from being born killed. */
  ghost predicate FreshSlots(ps: seq<Proc>) {
    forall i :: 0 <= i < |ps| && ps[i].state.UNUSED? ==> !ps[i].killed
  }

  /** `kill` finds the pid in a free slot first, or a fork gives back a slot whose
      process was killed on the way. */
  ghost predicate MarksFree(s: State, a: Action) {
    match a
    case Kill(pid) => exists i :: FirstPid(s.procs, pid, i) && s.procs[i].state.UNUSED?
    case ForkFails(p) => Forking(s, p) && s.procs[s.procs[p].child].killed
    case _ => false
  }

  lemma KillFresh(ps: seq<Proc>, pid: int, ok: bool, qs: seq<Proc>)
    requires FreshSlots(ps) && KillTable(ps, pid, ok, qs)
    ensures FreshSlots(qs) <==> !exists i :: FirstPid(ps, pid, i) && ps[i].state.UNUSED?
  {
    if ok {
      var i :| FirstPid(ps, pid, i) && qs == ps[i := Killed(ps[i])];
      assert forall j :: FirstPid(ps, pid, j) ==> j == i;
      assert qs[i].killed && (qs[i].state.UNUSED? <==> ps[i].state.UNUSED?);
    }
  }

  lemma WaitFresh(ps: seq<Proc>, cur: nat, r: WaitResult, qs: seq<Proc>)
    requires cur < |ps| && FreshSlots(ps) && WaitPass(ps, cur, r, qs)
    ensures FreshSlots(qs)
  {
  }

  /** Exactly these steps leave a free slot marked. */
  lemma FreshExactly(s: State, a: Action, t: State)
    requires FreshSlots(s.procs) && Next(s, a, t)
    ensures FreshSlots(t.procs) <==> !MarksFree(s, a)
  {
    match a
    case Kill(pid) =>
      var ok :| KillTable(s.procs, pid, ok, t.procs);
      KillFresh(s.procs, pid, ok, t.procs);
    case Wait(p) =>
      var r :| WaitPass(s.procs, p, r, t.procs);
      WaitFresh(s.procs, p, r, t.procs);
    case ForkFails(p) =>
      var c := s.procs[p].child;
      assert t.procs[c].state.UNUSED? && t.procs[c].killed == s.procs[c].killed;
    case _ =>
  }

  /** No process sleeps that was killed. */
  predicate KilledAwake(ps: seq<Proc>) {
    forall i :: 0 <= i < |ps| && ps[i].killed ==> !ps[i].state.SLEEPING?
  }

  /** A process goes to sleep that did not look at its mark. `wait` looks. */
  predicate SleepsKilled(s: State, a: Action) {
    a.Sleep? && a.p < |s.procs| && s.procs[a.p].killed
  }

  lemma KillAwake(ps: seq<Proc>, pid: int, ok: bool, qs: seq<Proc>)
    requires KilledAwake(ps) && KillTable(ps, pid, ok, qs)
    ensures KilledAwake(qs) && (ok ==> exists i :: FirstPid(ps, pid, i) && |qs| == |ps| && qs[i].killed && !qs[i].state.SLEEPING?)
  {
    if ok {
      var i :| FirstPid(ps, pid, i) && qs == ps[i := Killed(ps[i])];
      assert qs[i].killed;
    }
  }

  /** Exactly such a step leaves a killed process asleep: `kill` itself, above all, does
      not. */
  lemma AwakeStep(s: State, a: Action, t: State)
    requires KilledAwake(s.procs) && Next(s, a, t)
    ensures KilledAwake(t.procs) <==> !SleepsKilled(s, a)
  {
    match a
    case Kill(pid) =>
      var ok :| KillTable(s.procs, pid, ok, t.procs);
      KillAwake(s.procs, pid, ok, t.procs);
    case Wait(p) =>
      var r :| WaitPass(s.procs, p, r, t.procs);
      assert KilledAwake(t.procs);
    case Sleep(p, k) => assert t.procs[p].state.SLEEPING? && t.procs[p].killed == s.procs[p].killed;
    case ForkAlloc(p) =>
      var i :| FirstUnused(s.procs, i) && t == Allocated(s, p, i);
      assert KilledAwake(t.procs);
    case _ =>
  }

  ghost predicate AlwaysAwake(s: State, acts: seq<(Action, State)>)
    decreases |acts|
  {
    KilledAwake(s.procs) && (acts != [] ==> AlwaysAwake(acts[0].1, acts[1..]))
  }

  ghost predicate SleepersLook(s: State, acts: seq<(Action, State)>)
    decreases |acts|
  {
    acts != [] ==> !SleepsKilled(s, acts[0].0) && SleepersLook(acts[0].1, acts[1..])
  }

  /** A killed process is on its way out throughout a run, never asleep, if and only if
      all who go to sleep look at their mark first. */
  lemma {:induction false} KilledAwakeExactly(s: State, acts: seq<(Action, State)>, t: State)
    requires KilledAwake(s.procs) && Run(s, acts, t)
    ensures AlwaysAwake(s, acts) <==> SleepersLook(s, acts)
    decreases |acts|
  {
    if acts != [] {
      AwakeStep(s, acts[0].0, acts[0].1);
      if KilledAwake(acts[0].1.procs) {
        KilledAwakeExactly(acts[0].1, acts[1..], t);
      }
    }
  }

  /** `kill(0)` marks the first free slot, and the next process is born killed. */
  lemma BornKilled() returns (s: State, acts: seq<(Action, State)>, t: State)
    ensures Init(s) && Run(s, acts, t) && |t.procs| == 2
    ensures t.procs[1] == Proc(EMBRYO, 2, NONE, NoChan, true, NONE)
    ensures forall k, n :: 0 <= k < |acts| && acts[k].0 == Kill(n) ==> n == 0
  {
    var free := Proc(UNUSED, 0, NONE, NoChan, false, NONE);
    var init := Proc(RUNNABLE, 1, NONE, NoChan, false, NONE);
    s := State([init, free], 2, 0, [], []);
    var s1 := State([init.(state := RUNNING), free], 2, 0, [], []);
    assert Next(s, Dispatch(0), s1) by {
      assert s1.procs == s.procs[0 := s.procs[0].(state := RUNNING, chan := NoChan)];
    }
    var s2 := State([init.(state := RUNNING), free.(killed := true)], 2, 0, [], []);
    assert Next(s1, Kill(0), s2) by {
      assert FirstPid(s1.procs, 0, 1) && s2.procs == s1.procs[1 := Killed(s1.procs[1])];
      assert KillTable(s1.procs, 0, true, s2.procs);
    }
    t := Allocated(s2, 0, 1);
    assert Next(s2, ForkAlloc(0), t) by {
      assert FirstUnused(s2.procs, 1);
    }
    var x, y, z := (Dispatch(0), s1), (Kill(0), s2), (ForkAlloc(0), t);
    acts := [x, y, z];
    assert Run(t, [], t);
    assert [z][1..] == [] && [y, z][1..] == [z] && acts[1..] == [y, z];
    assert Run(s2, [z], t);
    assert Run(s1, [y, z], t);
  }
}
