/** Pipes (src/pipe.c): a ring of PIPESIZE bytes with free-running 32-bit
    counters, and the readers and writers that sleep on it.

    `pipewrite` and `piperead` hold the pipe's lock except while they sleep, so
    a call is a series of passes, each from taking the lock to sleeping or
    returning; the passes of different processes interleave. */
module Pipe {
  import opened Common

  const PIPESIZE := 512
  const WORD := 0x1_0000_0000

  type Byte = b: int | 0 <= b < 256

  // -------------------------------------------------------- a pass, on values

  datatype Outcome = Done | Gone | Sleeps

  /** Bytes a writing pass can add to queue `q`. */
  function Room(q: seq<Byte>, src: seq<Byte>, i: nat): (k: nat)
    requires i <= |src| && |q| <= PIPESIZE
  {
    Min(|src| - i, PIPESIZE - |q|)
  }

  /** A writing pass stops at the end of its bytes or at a full pipe; there it
      gives up when nobody can read or the process was killed. */
  function WriteOutcome(q: seq<Byte>, src: seq<Byte>, i: nat, readopen: bool, killed: bool): Outcome
    requires i <= |src| && |q| <= PIPESIZE
  {
    if i + Room(q, src, i) == |src| then Done
    else if !readopen || killed then Gone
    else Sleeps
  }

  function ReadOutcome(q: seq<Byte>, writeopen: bool, killed: bool): Outcome {
    if q != [] || !writeopen then Done
    else if killed then Gone
    else Sleeps
  }

  // ---------------------------------------------------------------- the ring

  class Ring {
    const data: array<Byte>
    var nread: int
    var nwrite: int
    var readopen: bool
    var writeopen: bool

    /** All bytes ever written and ever read. */
    ghost var written: seq<Byte>
    ghost var got: seq<Byte>

    ghost predicate Valid()
      reads this, data
    {
      && data.Length == PIPESIZE
      && |got| <= |written| <= |got| + PIPESIZE
      && nread == |got| % WORD && nwrite == |written| % WORD
      && got == written[..|got|]
      && (forall k :: |got| <= k < |written| ==> data[k % PIPESIZE] == written[k])
    }

    /** The bytes in the pipe, oldest first. */
    ghost function Queue(): seq<Byte>
      requires Valid()
      reads this, data
    {
      written[|got|..]
    }

    constructor ()
      ensures Valid() && Queue() == [] && written == [] && readopen && writeopen && fresh(data)
    {
      data := new Byte[PIPESIZE];
      nread, nwrite, readopen, writeopen, written, got := 0, 0, true, true, [], [];
    }

    /** The full test of `pipewrite` is right although the counters wrap. */
    method IsFull() returns (full: bool)
      requires Valid()
      ensures full <==> |Queue()| == PIPESIZE
    {
      full := nwrite == (nread + PIPESIZE) % WORD;
      WrapDistance(|got|, |written|);
    }

    /** The empty test of `piperead`. */
    method IsEmpty() returns (empty: bool)
      requires Valid()
      ensures empty <==> Queue() == []
    {
      empty := nread == nwrite;
      WrapDistance(|got|, |written|);
    }

    method PutByte(b: Byte)
      requires Valid() && |Queue()| < PIPESIZE
      modifies this`nwrite, this`written, data
      ensures Valid() && written == old(written) + [b] && Queue() == old(Queue()) + [b]
    {
      Slot(|written|, nwrite);
      data[nwrite % PIPESIZE] := b;
      nwrite := (nwrite + 1) % WORD;
      Successor(|written|);
      SlotsApart(|got|, |written|);
      written := written + [b];
    }

    method GetByte() returns (b: Byte)
      requires Valid() && Queue() != []
      modifies this`nread, this`got
      ensures Valid() && b == old(Queue())[0] && got == old(got) + [b] && Queue() == old(Queue())[1..]
    {
      Slot(|got|, nread);
      b := data[nread % PIPESIZE];
      nread := (nread + 1) % WORD;
      Successor(|got|);
      got := got + [b];
    }

    /** One pass of `pipewrite` over `src`, from its byte `i` on: done exactly when the
        rest fits; it gives up exactly at a pipe that is full when nobody can read or
        the process was killed. A pass that does not finish leaves the pipe full. */
    method Write(src: seq<Byte>, i: nat, killed: bool) returns (r: Outcome, j: nat)
      requires Valid() && i <= |src|
      modifies this`nwrite, this`written, data
      ensures Valid() && got == old(got)
      ensures r == Done <==> |old(Queue())| + |src| - i <= PIPESIZE
      ensures r == Gone <==> |old(Queue())| + |src| - i > PIPESIZE && (!readopen || killed)
      ensures r == Sleeps <==> |old(Queue())| + |src| - i > PIPESIZE && readopen && !killed
      ensures i <= j <= |src| && if r == Done then j == |src| else |Queue()| == PIPESIZE
      ensures r == WriteOutcome(old(Queue()), src, i, readopen, killed)
      ensures j == i + Room(old(Queue()), src, i) && written == old(written) + src[i..j] && Queue() == old(Queue()) + src[i..j]
    {
      j := i;
      while j < |src|
        invariant Valid() && i <= j <= |src|
        invariant j - i <= Room(old(Queue()), src, i)
        invariant written == old(written) + src[i..j] && Queue() == old(Queue()) + src[i..j]
      {
        var full := IsFull();
        if full {
          return if !readopen || killed then Gone else Sleeps, j;
        }
        PutByte(src[j]);
        j := j + 1;
      }
      r := Done;
    }

    /** One pass of `piperead` for at most `n` bytes: at a pipe that is empty and may
        still be written to it sleeps, or gives up if the process was killed; else it
        is done, with no bytes only at end of file or if none were asked for. */
    method Read(n: nat, killed: bool) returns (r: Outcome, bs: seq<Byte>)
      requires Valid()
      modifies this`nread, this`got
      ensures Valid() && written == old(written)
      ensures r == Gone <==> old(Queue()) == [] && writeopen && killed
      ensures r == Sleeps <==> old(Queue()) == [] && writeopen && !killed
      ensures r == Done ==> (bs == [] <==> n == 0 || (old(Queue()) == [] && !writeopen))
      ensures r == Done ==> |bs| == Min(n, |old(Queue())|)
      ensures r == ReadOutcome(old(Queue()), writeopen, killed)
      ensures bs == if r == Done then old(Queue())[..Min(n, |old(Queue())|)] else []
      ensures got == old(got) + bs && old(Queue()) == bs + Queue()
    {
      bs := [];
      var empty := IsEmpty();
      if empty && writeopen {
        return if killed then Gone else Sleeps, [];
      }
      ghost var q := Queue();
      while |bs| < n
        invariant Valid() && |bs| <= n && |bs| <= |q|
        invariant bs == q[..|bs|] && got == old(got) + bs && Queue() == q[|bs|..]
        decreases n - |bs|
      {
        var stop := IsEmpty();
        if stop {
          break;
        }
        var b := GetByte();
        bs := bs + [b];
      }
      r := Done;
    }
  }

  /** Counters at most PIPESIZE apart are equal, or PIPESIZE apart, exactly when
      their remainders are. */
  lemma WrapDistance(a: nat, b: nat)
    requires a <= b <= a + PIPESIZE
    ensures a % WORD == b % WORD <==> a == b
    ensures b % WORD == (a % WORD + PIPESIZE) % WORD <==> b == a + PIPESIZE
  {
  }

  /** The slot of a byte does not depend on how often the counter wrapped. */
  lemma Slot(a: nat, c: int)
    requires c == a % WORD
    ensures c % PIPESIZE == a % PIPESIZE
  {
  }

  lemma Successor(a: nat)
    ensures (a % WORD + 1) % WORD == (a + 1) % WORD
  {
  }

  lemma SlotsApart(a: nat, b: nat)
    requires a <= b < a + PIPESIZE
    ensures forall k :: a <= k < b ==> k % PIPESIZE != b % PIPESIZE
  {
  }

  // ------------------------------------------------------ readers and writers

  datatype Job = Idle | Writing(src: seq<Byte>, i: nat) | Reading(n: nat)

  datatype Proc = Proc(job: Job, asleep: bool, killed: bool)

  /** The pipe as its queue, with the bytes written and read so far. */
  datatype State = State(procs: seq<Proc>, q: seq<Byte>, written: seq<Byte>, got: seq<Byte>, readopen: bool, writeopen: bool)

  datatype Action =
    | StartWrite(p: nat, src: seq<Byte>)
    | StartRead(p: nat, n: nat)
    | Pass(p: nat)
    | CloseWrite
    | CloseRead
    | Kill(p: nat)
    | LateKill(p: nat)

  predicate Init(s: State) {
    && s.q == [] && s.written == [] && s.got == [] && s.readopen && s.writeopen
    && forall p :: 0 <= p < |s.procs| ==> s.procs[p] == Proc(Idle, false, false)
  }

  function Wake(q: Proc, readers: bool): Proc {
    if (if readers then q.job.Reading? else q.job.Writing?) then q.(asleep := false) else q
  }

  function WakeAll(ps: seq<Proc>, readers: bool): (r: seq<Proc>)
    ensures |r| == |ps| && forall p :: 0 <= p < |ps| ==> r[p] == Wake(ps[p], readers)
  {
    seq(|ps|, p requires 0 <= p < |ps| => Wake(ps[p], readers))
  }

  /** An end is closed when its last file is; a process inside a call on that
      end still has it open. `kill` takes another lock: it can come after a pass has
      tested `killed` and before it sleeps, and then wakes nobody. */
  predicate Enabled(s: State, a: Action) {
    match a
    case StartWrite(p, _) => p < |s.procs| && s.procs[p].job.Idle? && s.writeopen
    case StartRead(p, _) => p < |s.procs| && s.procs[p].job.Idle? && s.readopen
    case Pass(p) =>
      && p < |s.procs| && !s.procs[p].job.Idle? && !s.procs[p].asleep && |s.q| <= PIPESIZE
      && (s.procs[p].job.Writing? ==> s.procs[p].job.i <= |s.procs[p].job.src|)
    case CloseWrite => s.writeopen && forall p :: 0 <= p < |s.procs| ==> !s.procs[p].job.Writing?
    case CloseRead => s.readopen && forall p :: 0 <= p < |s.procs| ==> !s.procs[p].job.Reading?
    case Kill(p) => p < |s.procs|
    case LateKill(p) => p < |s.procs| && s.procs[p].asleep
  }

  function WritePass(s: State, p: nat): State
    requires Enabled(s, Pass(p)) && s.procs[p].job.Writing?
  {
    var me := s.procs[p];
    var j := me.job.i + Room(s.q, me.job.src, me.job.i);
    var bs := me.job.src[me.job.i..j];
    var t := s.(q := s.q + bs, written := s.written + bs);
    match WriteOutcome(s.q, me.job.src, me.job.i, s.readopen, me.killed)
    case Done => t.(procs := WakeAll(s.procs, true)[p := me.(job := Idle)])
    case Gone => t.(procs := s.procs[p := me.(job := Idle)])
    case Sleeps => t.(procs := WakeAll(s.procs, true)[p := me.(job := Writing(me.job.src, j), asleep := true)])
  }

  function ReadPass(s: State, p: nat): State
    requires Enabled(s, Pass(p)) && s.procs[p].job.Reading?
  {
    var me := s.procs[p];
    var k := Min(me.job.n, |s.q|);
    match ReadOutcome(s.q, s.writeopen, me.killed)
    case Done => s.(procs := WakeAll(s.procs, false)[p := me.(job := Idle)], got := s.got + s.q[..k], q := s.q[k..])
    case Gone => s.(procs := s.procs[p := me.(job := Idle)])
    case Sleeps => s.(procs := s.procs[p := me.(asleep := true)])
  }

  function Next(s: State, a: Action): State
    requires Enabled(s, a)
  {
    match a
    case StartWrite(p, src) => s.(procs := s.procs[p := s.procs[p].(job := Writing(src, 0))])
    case StartRead(p, n) => s.(procs := s.procs[p := s.procs[p].(job := Reading(n))])
    case Pass(p) => if s.procs[p].job.Writing? then WritePass(s, p) else ReadPass(s, p)
    case CloseWrite => s.(writeopen := false, procs := WakeAll(s.procs, true))
    case CloseRead => s.(readopen := false, procs := WakeAll(s.procs, false))
    case Kill(p) => s.(procs := s.procs[p := s.procs[p].(killed := true, asleep := false)])
    case LateKill(p) => s.(procs := s.procs[p := s.procs[p].(killed := true)])
  }

  /** The actions can be taken one after the other from `s`. */
  predicate CanRun(s: State, acts: seq<Action>)
    decreases |acts|
  {
    acts == [] || (Enabled(s, acts[0]) && CanRun(Next(s, acts[0]), acts[1..]))
  }

  /** Where they lead. */
  function After(s: State, acts: seq<Action>): State
    requires CanRun(s, acts)
    decreases |acts|
  {
    if acts == [] then s else After(Next(s, acts[0]), acts[1..])
  }

  predicate SleepingReader(q: Proc) {
    q.asleep && q.job.Reading?
  }

  predicate SleepingWriter(q: Proc) {
    q.asleep && q.job.Writing?
  }

  /** A sleeping writer faces a full pipe whose read end is open, a sleeping
      reader one whose write end is open. */
  predicate ProcOk(s: State, q: Proc) {
    && (q.asleep ==> !q.job.Idle?)
    && (q.job.Writing? ==> s.writeopen && q.job.i <= |q.job.src|)
    && (q.job.Reading? ==> s.readopen)
    && (SleepingWriter(q) ==> |s.q| == PIPESIZE && s.readopen)
    && (SleepingReader(q) ==> s.writeopen)
  }

  ghost predicate Inv(s: State) {
    && |s.q| <= PIPESIZE && s.got + s.q == s.written
    && (forall p :: 0 <= p < |s.procs| ==> ProcOk(s, s.procs[p]))
    && (forall p, r :: 0 <= p < |s.procs| && 0 <= r < |s.procs| && SleepingReader(s.procs[r]) ==> !SleepingWriter(s.procs[p]))
  }

  lemma WritePassKeeps(s: State, p: nat)
    requires Inv(s) && Enabled(s, Pass(p)) && s.procs[p].job.Writing?
    ensures Inv(WritePass(s, p))
  {
    var t := WritePass(s, p);
    assert ProcOk(s, s.procs[p]);
    forall r | 0 <= r < |t.procs| ensures ProcOk(t, t.procs[r]) {
      assert ProcOk(s, s.procs[r]);
    }
  }

  lemma ReadPassKeeps(s: State, p: nat)
    requires Inv(s) && Enabled(s, Pass(p)) && s.procs[p].job.Reading?
    ensures Inv(ReadPass(s, p))
  {
    var t := ReadPass(s, p);
    assert ProcOk(s, s.procs[p]);
    forall r | 0 <= r < |t.procs| ensures ProcOk(t, t.procs[r]) {
      assert ProcOk(s, s.procs[r]);
    }
    var k := Min(s.procs[p].job.n, |s.q|);
    assert s.q == s.q[..k] + s.q[k..];
  }

  lemma NextKeeps(s: State, a: Action)
    requires Inv(s) && Enabled(s, a)
    ensures Inv(Next(s, a))
  {
    match a
    case Pass(p) =>
      if s.procs[p].job.Writing? {
        WritePassKeeps(s, p);
      } else {
        ReadPassKeeps(s, p);
      }
    case _ =>
      var t := Next(s, a);
      forall r | 0 <= r < |t.procs| ensures ProcOk(t, t.procs[r]) {
        assert ProcOk(s, s.procs[r]);
      }
  }

  lemma {:induction false} RunKeeps(s: State, acts: seq<Action>)
    requires Inv(s) && CanRun(s, acts)
    ensures Inv(After(s, acts))
    decreases |acts|
  {
    if acts != [] {
      NextKeeps(s, acts[0]);
      RunKeeps(Next(s, acts[0]), acts[1..]);
    }
  }

  // ------------------------------------------------------------ main results

  /** First in, first out: what was read followed by what is buffered is what
      was written, over all interleavings and whoever is killed. */
  lemma Fifo(s: State, acts: seq<Action>)
    requires Init(s) && CanRun(s, acts)
    ensures var t := After(s, acts); t.got + t.q == t.written && |t.q| <= PIPESIZE
  {
    RunKeeps(s, acts);
  }

  /** A reader and a writer never both sleep, even when processes are killed. */
  lemma NeverBothSleep(s: State, acts: seq<Action>, p: nat, r: nat)
    requires Init(s) && CanRun(s, acts) && p < |After(s, acts).procs| && r < |After(s, acts).procs|
    ensures !(SleepingReader(After(s, acts).procs[r]) && SleepingWriter(After(s, acts).procs[p]))
  {
    RunKeeps(s, acts);
  }

  /** No reader sleeps over buffered bytes. */
  predicate ReadersServed(s: State) {
    forall p :: 0 <= p < |s.procs| && SleepingReader(s.procs[p]) ==> s.q == []
  }

  /** A killed writer is about to fill the pipe and return -1, which skips the
      wakeup, while a reader sleeps on the pipe. */
  predicate Strands(s: State, a: Action) {
    && a.Pass? && Enabled(s, a) && s.procs[a.p].job.Writing? && s.procs[a.p].killed
    && 0 < PIPESIZE - |s.q| < |s.procs[a.p].job.src| - s.procs[a.p].job.i
    && exists r :: 0 <= r < |s.procs| && SleepingReader(s.procs[r])
  }

  /** A step leaves a reader asleep over buffered bytes exactly if it is such a
      pass. */
  lemma StrandsExactly(s: State, a: Action)
    requires Inv(s) && Enabled(s, a) && ReadersServed(s)
    ensures !ReadersServed(Next(s, a)) <==> Strands(s, a)
  {
    var t := Next(s, a);
    if Strands(s, a) {
      var r :| 0 <= r < |s.procs| && SleepingReader(s.procs[r]);
      assert SleepingReader(t.procs[r]) && t.q != [];
    } else {
      forall r | 0 <= r < |t.procs| && SleepingReader(t.procs[r])
        ensures t.q == []
      {
        assert ProcOk(s, s.procs[r]);
      }
    }
  }

  /** Readers are served in every state that a run passes through. */
  predicate AlwaysServed(s: State, acts: seq<Action>)
    requires CanRun(s, acts)
    decreases |acts|
  {
    ReadersServed(s) && (acts != [] ==> AlwaysServed(Next(s, acts[0]), acts[1..]))
  }

  predicate NeverStrands(s: State, acts: seq<Action>)
    requires CanRun(s, acts)
    decreases |acts|
  {
    acts != [] ==> !Strands(s, acts[0]) && NeverStrands(Next(s, acts[0]), acts[1..])
  }

  lemma {:induction false} ServedOn(s: State, acts: seq<Action>)
    requires Inv(s) && ReadersServed(s) && CanRun(s, acts)
    ensures AlwaysServed(s, acts) <==> NeverStrands(s, acts)
    decreases |acts|
  {
    if acts != [] {
      StrandsExactly(s, acts[0]);
      NextKeeps(s, acts[0]);
      if ReadersServed(Next(s, acts[0])) {
        ServedOn(Next(s, acts[0]), acts[1..]);
      }
    }
  }

  /** A run serves its readers throughout if and only if no killed writer fills
      the pipe under a sleeping reader. */
  lemma ServedExactly(s: State, acts: seq<Action>)
    requires Init(s) && CanRun(s, acts)
    ensures AlwaysServed(s, acts) <==> NeverStrands(s, acts)
  {
    ServedOn(s, acts);
  }

  /** A writer that is killed before the pipe fills up returns -1 without waking
      the reader that waits for its bytes. */
  lemma KilledWriterStrandsReader() returns (s: State, acts: seq<Action>)
    ensures Init(s) && CanRun(s, acts) && !ReadersServed(After(s, acts))
  {
    var idle := Proc(Idle, false, false);
    var src: seq<Byte> := seq(PIPESIZE + 1, _ => 0);
    s := State([idle, idle], [], [], [], true, true);
    acts := [StartRead(0, 1), Pass(0), StartWrite(1, src), Kill(1), Pass(1)];
    var s1 := Next(s, acts[0]);
    var s2 := Next(s1, acts[1]);
    var s3 := Next(s2, acts[2]);
    var s4 := Next(s3, acts[3]);
    var s5 := Next(s4, acts[4]);
    assert acts[1..] == [Pass(0), StartWrite(1, src), Kill(1), Pass(1)];
    assert acts[1..][1..] == [StartWrite(1, src), Kill(1), Pass(1)];
    assert acts[1..][1..][1..] == [Kill(1), Pass(1)];
    assert acts[1..][1..][1..][1..] == [Pass(1)];
    assert CanRun(s5, []);
    assert CanRun(s4, [Pass(1)]) && After(s4, [Pass(1)]) == s5;
    assert CanRun(s3, [Kill(1), Pass(1)]) && After(s3, [Kill(1), Pass(1)]) == s5;
    assert CanRun(s2, acts[1..][1..]) && After(s2, acts[1..][1..]) == s5;
    assert CanRun(s1, acts[1..]) && After(s1, acts[1..]) == s5;
    assert After(s, acts) == s5;
    assert SleepingReader(s5.procs[0]) && |s5.q| == PIPESIZE;
  }

  /** No process sleeps that was killed. */
  predicate KilledAwake(s: State) {
    forall p :: 0 <= p < |s.procs| && s.procs[p].killed ==> !s.procs[p].asleep
  }

  lemma KilledAwakeStep(s: State, a: Action)
    requires Enabled(s, a) && KilledAwake(s)
    ensures KilledAwake(Next(s, a)) <==> !a.LateKill?
  {
    if a.LateKill? {
      assert Next(s, a).procs[a.p].killed && Next(s, a).procs[a.p].asleep;
    }
  }

  predicate AlwaysAwake(s: State, acts: seq<Action>)
    requires CanRun(s, acts)
    decreases |acts|
  {
    KilledAwake(s) && (acts != [] ==> AlwaysAwake(Next(s, acts[0]), acts[1..]))
  }

  /** Killed processes are awake throughout a run, and so get to return, if and only if
      no kill falls between the test of `killed` and the sleep. */
  lemma {:induction false} AwakeExactly(s: State, acts: seq<Action>)
    requires KilledAwake(s) && CanRun(s, acts)
    ensures AlwaysAwake(s, acts) <==> forall k :: 0 <= k < |acts| ==> !acts[k].LateKill?
    decreases |acts|
  {
    if acts != [] {
      KilledAwakeStep(s, acts[0]);
      if !acts[0].LateKill? {
        AwakeExactly(Next(s, acts[0]), acts[1..]);
        assert forall k :: 0 < k < |acts| ==> acts[k] == acts[1..][k - 1];
      }
    }
  }
}
