/** The on-disk redo log of src/log.c, on values.

    A disk is a sequence of blocks and a block is a sequence of 32-bit words.
    The log area is a header block followed by the logged blocks. The
    functions here give the disk after each single `bwrite` of recovery and of
    commit, so that "the machine crashed here" is just an index. */
module RedoLog {
  import opened Params

  /** Words in a block: BSIZE bytes, four to a word. */
  const BWORDS := 128

  const ZeroBlock: seq<int> := seq(BWORDS, _ => 0)

  type Block = b: seq<int> | |b| == BWORDS witness ZeroBlock

  type Disk = seq<Block>

  /** `log.start` and `log.size`. */
  datatype Area = Area(start: nat, size: nat) {
    predicate Contains(b: int) {
      start <= b < start + size
    }

    /** A block outside the log area. */
    predicate Home(len: nat, b: int) {
      0 <= b < len && !Contains(b)
    }

    /** The area holds a header block and lies on the disk. */
    predicate Fits(len: nat) {
      1 <= size && start + size <= len
    }

    /** The list of logged blocks has room in the header and in the area,
        and none of them is part of the log. */
    predicate Loggable(len: nat, bs: seq<int>) {
      && Fits(len)
      && |bs| <= LOGSIZE
      && |bs| <= size - 1
      && forall i :: 0 <= i < |bs| ==> Home(len, bs[i])
    }
  }

  /** `lh->n` as found in a header block. */
  function HeadCount(h: Block): int {
    h[0]
  }

  /** The block numbers a header block lists. */
  function HeadBlocks(h: Block): (bs: seq<int>)
    requires 0 <= HeadCount(h) <= LOGSIZE
    ensures |bs| == HeadCount(h)
  {
    h[1..1 + HeadCount(h)]
  }

  /** The header block after `write_head` stored `bs` in it: the count and the
      first entries change, what lies behind them stays. */
  function PutHead(h: Block, bs: seq<int>): (r: Block)
    requires |bs| <= LOGSIZE
    ensures HeadCount(r) == |bs| && HeadBlocks(r) == bs
  {
    var r := [|bs|] + bs + h[1 + |bs|..];
    assert r[1..1 + |bs|] == bs;
    r
  }

  /** The disk header can be trusted: what commit and recovery maintain. */
  predicate HeadOk(a: Area, d: Disk) {
    && a.Fits(|d|)
    && 0 <= HeadCount(d[a.start]) <= LOGSIZE
    && a.Loggable(|d|, HeadBlocks(d[a.start]))
  }

  function Listed(a: Area, d: Disk): seq<int>
    requires HeadOk(a, d)
  {
    HeadBlocks(d[a.start])
  }

  /** The disk after the first `k` writes of `install_trans`. */
  function Replay(a: Area, d: Disk, bs: seq<int>, k: nat): (e: Disk)
    requires a.Loggable(|d|, bs) && k <= |bs|
    ensures |e| == |d|
  {
    if k == 0 then d
    else
      var e := Replay(a, d, bs, k - 1);
      e[bs[k - 1] := e[a.start + k]]
  }

  /** The disk with header `bs` in place of the present one. */
  function SetHead(a: Area, d: Disk, bs: seq<int>): (e: Disk)
    requires a.Fits(|d|) && |bs| <= LOGSIZE
    ensures |e| == |d|
  {
    d[a.start := PutHead(d[a.start], bs)]
  }

  /** Number of `bwrite`s that recovery issues. */
  function RecoveryLength(a: Area, d: Disk): nat
    requires HeadOk(a, d)
  {
    |Listed(a, d)| + 1
  }

  /** The disk after the first `k` writes of `recover_from_log`. */
  function RecoveryState(a: Area, d: Disk, k: nat): (e: Disk)
    requires HeadOk(a, d) && k <= RecoveryLength(a, d)
    ensures |e| == |d|
  {
    var bs := Listed(a, d);
    if k <= |bs| then Replay(a, d, bs, k)
    else SetHead(a, Replay(a, d, bs, |bs|), [])
  }

  function Recovered(a: Area, d: Disk): (e: Disk)
    requires HeadOk(a, d)
    ensures |e| == |d|
  {
    RecoveryState(a, d, RecoveryLength(a, d))
  }

  /** The disk after the first `k` writes of `write_log`, storing `cs`. */
  function Logged(a: Area, d: Disk, cs: seq<Block>, k: nat): (e: Disk)
    requires a.Fits(|d|) && k <= |cs| <= a.size - 1
    ensures |e| == |d|
  {
    if k == 0 then d else Logged(a, d, cs, k - 1)[a.start + k := cs[k - 1]]
  }

  /** Number of `bwrite`s that committing `bs` issues. */
  function CommitLength(bs: seq<int>): nat {
    if bs == [] then 0 else 2 * |bs| + 2
  }

  /** The write that makes the transaction durable: the first header write. */
  function CommitPoint(bs: seq<int>): nat {
    |bs| + 1
  }

  predicate NoRepeats(bs: seq<int>) {
    forall i, j :: 0 <= i < j < |bs| ==> bs[i] != bs[j]
  }

  /** A transaction: the logged block numbers and the contents to give them. */
  datatype Txn = Txn(bs: seq<int>, cs: seq<Block>) {
    predicate Ok(a: Area, len: nat) {
      && a.Loggable(len, bs)
      && |cs| == |bs|
      && NoRepeats(bs)
    }
  }

  /** The disk after the first `k` writes of `commit`. */
  function CommitState(a: Area, d: Disk, t: Txn, k: nat): (e: Disk)
    requires t.Ok(a, |d|) && k <= CommitLength(t.bs)
    ensures |e| == |d|
  {
    var n := |t.bs|;
    if k <= n then Logged(a, d, t.cs, k)
    else if k <= 2 * n + 1 then Replay(a, Marked(a, d, t), t.bs, k - n - 1)
    else Cleared(a, Marked(a, d, t), t.bs)
  }

  /** The disks `write_log` leaves behind, one for each of its first `k` writes. */
  function LoggedTrace(a: Area, d: Disk, cs: seq<Block>, k: nat): (r: seq<Disk>)
    requires a.Fits(|d|) && k <= |cs| <= a.size - 1
    ensures |r| == k
  {
    if k == 0 then [] else LoggedTrace(a, d, cs, k - 1) + [Logged(a, d, cs, k)]
  }

  /** The disks `install_trans` leaves behind. */
  function ReplayTrace(a: Area, d: Disk, bs: seq<int>, k: nat): (r: seq<Disk>)
    requires a.Loggable(|d|, bs) && k <= |bs|
    ensures |r| == k
  {
    if k == 0 then [] else ReplayTrace(a, d, bs, k - 1) + [Replay(a, d, bs, k)]
  }

  /** The disks `recover_from_log` leaves behind. */
  function RecoveryTrace(a: Area, d: Disk): (r: seq<Disk>)
    requires HeadOk(a, d)
    ensures |r| == RecoveryLength(a, d)
  {
    ReplayTrace(a, d, Listed(a, d), |Listed(a, d)|) + [Recovered(a, d)]
  }

  /** The disk right after the header write of commit. */
  function Marked(a: Area, d: Disk, t: Txn): (e: Disk)
    requires t.Ok(a, |d|)
    ensures |e| == |d|
  {
    SetHead(a, Logged(a, d, t.cs, |t.bs|), t.bs)
  }

  /** The disk when commit is done. */
  function Cleared(a: Area, d: Disk, bs: seq<int>): (e: Disk)
    requires a.Loggable(|d|, bs)
    ensures |e| == |d|
  {
    SetHead(a, Replay(a, d, bs, |bs|), [])
  }

  /** The disks `commit` leaves behind. */
  function CommitTrace(a: Area, d: Disk, t: Txn): (r: seq<Disk>)
    requires t.Ok(a, |d|)
    ensures |r| == CommitLength(t.bs)
  {
    if t.bs == [] then []
    else
      LoggedTrace(a, d, t.cs, |t.bs|) + [Marked(a, d, t)]
      + (ReplayTrace(a, Marked(a, d, t), t.bs, |t.bs|) + [Cleared(a, Marked(a, d, t), t.bs)])
  }

  lemma {:induction false} LoggedTraceAt(a: Area, d: Disk, cs: seq<Block>, k: nat, i: nat)
    requires a.Fits(|d|) && i < k <= |cs| <= a.size - 1
    ensures LoggedTrace(a, d, cs, k)[i] == Logged(a, d, cs, i + 1)
  {
    if i < k - 1 {
      LoggedTraceAt(a, d, cs, k - 1, i);
    }
  }

  lemma {:induction false} ReplayTraceAt(a: Area, d: Disk, bs: seq<int>, k: nat, i: nat)
    requires a.Loggable(|d|, bs) && i < k <= |bs|
    ensures ReplayTrace(a, d, bs, k)[i] == Replay(a, d, bs, i + 1)
  {
    if i < k - 1 {
      ReplayTraceAt(a, d, bs, k - 1, i);
    }
  }

  lemma RecoveryTraceAt(a: Area, d: Disk, i: nat)
    requires HeadOk(a, d) && i < RecoveryLength(a, d)
    ensures RecoveryTrace(a, d)[i] == RecoveryState(a, d, i + 1)
  {
    if i < |Listed(a, d)| {
      ReplayTraceAt(a, d, Listed(a, d), |Listed(a, d)|, i);
    }
  }

  lemma CommitTraceAt(a: Area, d: Disk, t: Txn, i: nat)
    requires t.Ok(a, |d|) && i < CommitLength(t.bs)
    ensures CommitTrace(a, d, t)[i] == CommitState(a, d, t, i + 1)
  {
    var n := |t.bs|;
    if i < n {
      LoggedTraceAt(a, d, t.cs, n, i);
    } else if n < i <= 2 * n {
      ReplayTraceAt(a, Marked(a, d, t), t.bs, n, i - n - 1);
    }
  }

  /** What a transaction means: every listed block takes its new contents,
      every other home block keeps its own. */
  ghost predicate AppliedTo(a: Area, t: Txn, d: Disk, e: Disk)
    requires t.Ok(a, |d|)
  {
    && |e| == |d|
    && (forall i :: 0 <= i < |t.bs| ==> e[t.bs[i]] == t.cs[i])
    && (forall b :: a.Home(|d|, b) && b !in t.bs ==> e[b] == d[b])
  }

  /** Two disks with the same home blocks. */
  ghost predicate SameHome(a: Area, d: Disk, e: Disk) {
    && |d| == |e|
    && (forall b :: a.Home(|d|, b) ==> d[b] == e[b])
  }

  // ---------------------------------------------------------------- replay

  /** Replaying leaves the log area alone, so the logged copies and the header
      survive a half-done installation. */
  lemma {:induction false} ReplayKeepsLog(a: Area, d: Disk, bs: seq<int>, k: nat)
    requires a.Loggable(|d|, bs) && k <= |bs|
    ensures forall b :: a.Contains(b) ==> Replay(a, d, bs, k)[b] == d[b]
  {
    if k > 0 {
      ReplayKeepsLog(a, d, bs, k - 1);
    }
  }

  /** The contents block `b` has after `k` replay writes, read off the log. */
  function Latest(a: Area, d: Disk, bs: seq<int>, k: nat, b: int): Block
    requires a.Loggable(|d|, bs) && k <= |bs| && 0 <= b < |d|
  {
    if k == 0 then d[b]
    else if bs[k - 1] == b then d[a.start + k]
    else Latest(a, d, bs, k - 1, b)
  }

  lemma {:induction false} ReplayAt(a: Area, d: Disk, bs: seq<int>, k: nat, b: int)
    requires a.Loggable(|d|, bs) && k <= |bs| && 0 <= b < |d|
    ensures Replay(a, d, bs, k)[b] == Latest(a, d, bs, k, b)
  {
    if k > 0 {
      ReplayAt(a, d, bs, k - 1, b);
      ReplayKeepsLog(a, d, bs, k - 1);
    }
  }

  /** Starting over from a disk that agrees with `d` on the log, and on every
      block that `bs` does not list, gives the same contents. */
  lemma {:induction false} LatestFrom(a: Area, d: Disk, e: Disk, bs: seq<int>, k: nat, b: int)
    requires a.Loggable(|d|, bs) && k <= |bs| && 0 <= b < |d| && |e| == |d|
    requires forall l :: a.Contains(l) ==> e[l] == d[l]
    requires b !in bs[..k] ==> e[b] == d[b]
    ensures Latest(a, e, bs, k, b) == Latest(a, d, bs, k, b)
  {
    if k > 0 && bs[k - 1] != b {
      assert bs[..k] == bs[..k - 1] + [bs[k - 1]];
      LatestFrom(a, d, e, bs, k - 1, b);
    }
  }

  lemma {:induction false} LatestUnlisted(a: Area, d: Disk, bs: seq<int>, k: nat, b: int)
    requires a.Loggable(|d|, bs) && k <= |bs| && 0 <= b < |d|
    requires b !in bs[..k]
    ensures Latest(a, d, bs, k, b) == d[b]
  {
    if k > 0 {
      assert bs[..k] == bs[..k - 1] + [bs[k - 1]];
      LatestUnlisted(a, d, bs, k - 1, b);
    }
  }

  /** Replay is idempotent: replaying in full after a replay that stopped
      anywhere ends with the same home blocks. */
  lemma ReplayAgain(a: Area, d: Disk, bs: seq<int>, k: nat)
    requires a.Loggable(|d|, bs) && k <= |bs|
    ensures SameHome(a, Replay(a, Replay(a, d, bs, k), bs, |bs|), Replay(a, d, bs, |bs|))
  {
    var e := Replay(a, d, bs, k);
    ReplayKeepsLog(a, d, bs, k);
    forall b | a.Home(|d|, b)
      ensures Replay(a, e, bs, |bs|)[b] == Replay(a, d, bs, |bs|)[b]
    {
      ReplayAt(a, e, bs, |bs|, b);
      ReplayAt(a, d, bs, |bs|, b);
      ReplayAt(a, d, bs, k, b);
      if b !in bs {
        LatestUnlisted(a, d, bs, k, b);
      }
      assert bs[..|bs|] == bs;
      LatestFrom(a, d, e, bs, |bs|, b);
    }
  }

  // -------------------------------------------------------------- recovery

  /** Wherever recovery stops, its header still lists what it listed, or it is
      done; and recovering again ends with the same home blocks. */
  lemma RecoveryCrash(a: Area, d: Disk, k: nat)
    requires HeadOk(a, d) && k <= RecoveryLength(a, d)
    ensures HeadOk(a, RecoveryState(a, d, k))
    ensures SameHome(a, Recovered(a, RecoveryState(a, d, k)), Recovered(a, d))
  {
    var bs := Listed(a, d);
    var e := RecoveryState(a, d, k);
    if k <= |bs| {
      ReplayKeepsLog(a, d, bs, k);
      assert Listed(a, e) == bs;
      ReplayAgain(a, d, bs, k);
    } else {
      assert HeadBlocks(e[a.start]) == [];
      assert Recovered(a, e) == SetHead(a, e, []);
    }
  }

  /** A machine that crashes again and again while recovering: `ks` holds the
      number of writes each attempt got done before the next crash. */
  function CrashedRecoveries(a: Area, d: Disk, ks: seq<nat>): (e: Disk)
    requires HeadOk(a, d)
    ensures HeadOk(a, e) && |e| == |d|
    decreases |ks|
  {
    if ks == [] then d
    else
      var k := if ks[0] <= RecoveryLength(a, d) then ks[0] else RecoveryLength(a, d);
      RecoveryCrash(a, d, k);
      CrashedRecoveries(a, RecoveryState(a, d, k), ks[1..])
  }

  /** However often recovery is interrupted, the recovery that completes ends
      with an empty log and the home blocks of an undisturbed recovery. */
  lemma {:induction false} RecoverySurvivesCrashes(a: Area, d: Disk, ks: seq<nat>)
    requires HeadOk(a, d)
    ensures SameHome(a, Recovered(a, CrashedRecoveries(a, d, ks)), Recovered(a, d))
    ensures HeadCount(Recovered(a, CrashedRecoveries(a, d, ks))[a.start]) == 0
    decreases |ks|
  {
    if ks != [] {
      var k := if ks[0] <= RecoveryLength(a, d) then ks[0] else RecoveryLength(a, d);
      RecoveryCrash(a, d, k);
      RecoverySurvivesCrashes(a, RecoveryState(a, d, k), ks[1..]);
    }
  }

  // ---------------------------------------------------------------- commit

  lemma {:induction false} LoggedAt(a: Area, d: Disk, cs: seq<Block>, k: nat)
    requires a.Fits(|d|) && k <= |cs| <= a.size - 1
    ensures forall i :: 0 <= i < k ==> Logged(a, d, cs, k)[a.start + 1 + i] == cs[i]
    ensures forall b :: 0 <= b < |d| && !(a.start < b <= a.start + k) ==> Logged(a, d, cs, k)[b] == d[b]
  {
    if k > 0 {
      LoggedAt(a, d, cs, k - 1);
    }
  }

  /** A replay of a distinct list puts each logged copy at its home. */
  lemma ReplayListed(a: Area, d: Disk, t: Txn)
    requires t.Ok(a, |d|)
    requires forall i :: 0 <= i < |t.bs| ==> d[a.start + 1 + i] == t.cs[i]
    ensures AppliedTo(a, t, d, Replay(a, d, t.bs, |t.bs|))
  {
    forall i | 0 <= i < |t.bs|
      ensures Replay(a, d, t.bs, |t.bs|)[t.bs[i]] == t.cs[i]
    {
      ReplayAt(a, d, t.bs, |t.bs|, t.bs[i]);
      LatestOfDistinct(a, d, t.bs, |t.bs|, i);
    }
    forall b | a.Home(|d|, b) && b !in t.bs
      ensures Replay(a, d, t.bs, |t.bs|)[b] == d[b]
    {
      ReplayAt(a, d, t.bs, |t.bs|, b);
      LatestUnlisted(a, d, t.bs, |t.bs|, b);
    }
  }

  lemma {:induction false} LatestOfDistinct(a: Area, d: Disk, bs: seq<int>, k: nat, i: nat)
    requires a.Loggable(|d|, bs) && i < k <= |bs|
    requires NoRepeats(bs)
    ensures Latest(a, d, bs, k, bs[i]) == d[a.start + 1 + i]
  {
    if i < k - 1 {
      LatestOfDistinct(a, d, bs, k - 1, i);
    }
  }

  /** A crash before the header write leaves an empty log behind. */
  lemma CommitCrashEarly(a: Area, d: Disk, t: Txn, k: nat)
    requires t.Ok(a, |d|) && HeadOk(a, d) && HeadCount(d[a.start]) == 0
    requires k <= |t.bs|
    ensures HeadOk(a, CommitState(a, d, t, k))
    ensures SameHome(a, d, Recovered(a, CommitState(a, d, t, k)))
  {
    LoggedAt(a, d, t.cs, k);
    assert Listed(a, CommitState(a, d, t, k)) == [];
  }

  /** The disk right after the header write lists the transaction and holds its
      contents, and recovering from there applies it. */
  lemma CommitPointReached(a: Area, d: Disk, t: Txn)
    requires t.Ok(a, |d|) && t.bs != []
    ensures HeadOk(a, CommitState(a, d, t, CommitPoint(t.bs)))
    ensures Listed(a, CommitState(a, d, t, CommitPoint(t.bs))) == t.bs
    ensures AppliedTo(a, t, d, Replay(a, CommitState(a, d, t, CommitPoint(t.bs)), t.bs, |t.bs|))
  {
    LoggedAt(a, d, t.cs, |t.bs|);
    ReplayListed(a, CommitState(a, d, t, CommitPoint(t.bs)), t);
  }

  lemma AppliedToSameHome(a: Area, t: Txn, d: Disk, e: Disk, e': Disk)
    requires t.Ok(a, |d|) && AppliedTo(a, t, d, e) && SameHome(a, e, e')
    ensures AppliedTo(a, t, d, e')
  {
    forall i | 0 <= i < |t.bs|
      ensures e'[t.bs[i]] == t.cs[i]
    {
      assert a.Home(|d|, t.bs[i]);
    }
  }

  /** The installation that commit performs is the recovery that a reboot would
      perform, so a crash during it is a crash during recovery. */
  lemma CommitCrashLate(a: Area, d: Disk, t: Txn, k: nat)
    requires t.Ok(a, |d|) && t.bs != []
    requires CommitPoint(t.bs) <= k <= CommitLength(t.bs)
    ensures HeadOk(a, CommitState(a, d, t, k))
    ensures AppliedTo(a, t, d, Recovered(a, CommitState(a, d, t, k)))
  {
    var n := |t.bs|;
    var h := CommitState(a, d, t, n + 1);
    CommitPointReached(a, d, t);
    RecoveryCrash(a, h, k - n - 1);
    AppliedToSameHome(a, t, d, Replay(a, h, t.bs, n), Recovered(a, h));
    AppliedToSameHome(a, t, d, Recovered(a, h), Recovered(a, CommitState(a, d, t, k)));
  }

  /** Crash atomicity of commit. The log was empty before. Whatever the number
      of writes done when the machine crashes, recovery finds a trustworthy
      header, and what it restores is the old home blocks when the header write
      had not happened and the whole transaction when it had. */
  lemma CommitCrash(a: Area, d: Disk, t: Txn, k: nat)
    requires t.Ok(a, |d|) && HeadOk(a, d) && HeadCount(d[a.start]) == 0
    requires k <= CommitLength(t.bs)
    ensures HeadOk(a, CommitState(a, d, t, k))
    ensures k < CommitPoint(t.bs) ==> SameHome(a, d, Recovered(a, CommitState(a, d, t, k)))
    ensures k >= CommitPoint(t.bs) ==> AppliedTo(a, t, d, Recovered(a, CommitState(a, d, t, k)))
  {
    var n := |t.bs|;
    if k <= n {
      CommitCrashEarly(a, d, t, k);
    } else {
      CommitCrashLate(a, d, t, k);
    }
  }

  /** A machine that stops with disk `e` recovers the home blocks of `d`, or these
      with the whole of `t` applied. */
  ghost predicate AllOrNothing(a: Area, d: Disk, t: Txn, e: Disk)
    requires t.Ok(a, |d|)
  {
    && |e| == |d| && HeadOk(a, e)
    && (SameHome(a, d, Recovered(a, e)) || AppliedTo(a, t, d, Recovered(a, e)))
  }

  /** Every disk that commit leaves behind is safe to stop with. */
  lemma CommitTraceSafe(a: Area, d: Disk, t: Txn, i: nat)
    requires t.Ok(a, |d|) && Idle(a, d) && i < CommitLength(t.bs)
    ensures AllOrNothing(a, d, t, CommitTrace(a, d, t)[i])
  {
    CommitTraceAt(a, d, t, i);
    CommitCrash(a, d, t, i + 1);
  }

  /** A machine that stops with disk `e` recovers what `d` recovers to. */
  ghost predicate RecoversAs(a: Area, d: Disk, e: Disk)
    requires HeadOk(a, d)
  {
    HeadOk(a, e) && SameHome(a, Recovered(a, e), Recovered(a, d))
  }

  /** So is every disk that recovery leaves behind. */
  lemma RecoveryTraceSafe(a: Area, d: Disk, i: nat)
    requires HeadOk(a, d) && i < RecoveryLength(a, d)
    ensures RecoversAs(a, d, RecoveryTrace(a, d)[i])
  {
    RecoveryTraceAt(a, d, i);
    RecoveryCrash(a, d, i + 1);
  }

  // ------------------------------------------------------------ whole runs

  /** The disk with transaction `t` carried out in one go. */
  function Apply(d: Disk, t: Txn, k: nat): (e: Disk)
    requires k <= |t.bs| == |t.cs|
    requires forall i :: 0 <= i < |t.bs| ==> 0 <= t.bs[i] < |d|
    ensures |e| == |d|
  {
    if k == 0 then d else Apply(d, t, k - 1)[t.bs[k - 1] := t.cs[k - 1]]
  }

  lemma {:induction false} ApplyAt(a: Area, d: Disk, t: Txn, k: nat)
    requires t.Ok(a, |d|) && k <= |t.bs|
    ensures forall i :: 0 <= i < k ==> Apply(d, t, k)[t.bs[i]] == t.cs[i]
    ensures forall b :: 0 <= b < |d| && b !in t.bs[..k] ==> Apply(d, t, k)[b] == d[b]
  {
    if k > 0 {
      ApplyAt(a, d, t, k - 1);
      assert t.bs[..k] == t.bs[..k - 1] + [t.bs[k - 1]];
    }
  }

  /** `AppliedTo` pins the home blocks down: it is `Apply`, whichever of two
      disks with the same home blocks one starts from. */
  lemma AppliedToIsApply(a: Area, t: Txn, d: Disk, d': Disk, e: Disk)
    requires t.Ok(a, |d|) && SameHome(a, d, d') && AppliedTo(a, t, d, e)
    ensures SameHome(a, e, Apply(d', t, |t.bs|))
  {
    ApplyAt(a, d', t, |t.bs|);
    assert t.bs[..|t.bs|] == t.bs;
    forall b | a.Home(|d|, b)
      ensures e[b] == Apply(d', t, |t.bs|)[b]
    {
      if b in t.bs {
        var i :| 0 <= i < |t.bs| && t.bs[i] == b;
      }
    }
  }

  /** What happens to a machine: a transaction commits undisturbed, or it
      crashes after `k` writes of its commit, `retries` recoveries crash too,
      and one recovery completes. */
  datatype Event =
    | Committed(t: Txn)
    | Crashed(t: Txn, k: nat, retries: seq<nat>)
  {
    predicate Ok(a: Area, len: nat) {
      t.Ok(a, len) && (Crashed? ==> k <= CommitLength(t.bs))
    }

    /** The transaction's header write happened. */
    predicate Durable() {
      Crashed? ==> k >= CommitPoint(t.bs)
    }
  }

  predicate Idle(a: Area, d: Disk) {
    HeadOk(a, d) && HeadCount(d[a.start]) == 0
  }

  /** The disk after one event, write by write. */
  ghost function AfterEvent(a: Area, d: Disk, e: Event): (r: Disk)
    requires Idle(a, d) && e.Ok(a, |d|)
    ensures |r| == |d|
  {
    if e.Committed? then CommitState(a, d, e.t, CommitLength(e.t.bs))
    else
      CommitCrash(a, d, e.t, e.k);
      Recovered(a, CrashedRecoveries(a, CommitState(a, d, e.t, e.k), e.retries))
  }

  /** Every event leaves an empty log, and home blocks that are the old ones or
      the old ones with the whole transaction applied. */
  lemma EventAtomic(a: Area, d: Disk, d': Disk, e: Event)
    requires Idle(a, d) && e.Ok(a, |d|) && SameHome(a, d, d')
    ensures Idle(a, AfterEvent(a, d, e))
    ensures SameHome(a, AfterEvent(a, d, e), if e.Durable() then Apply(d', e.t, |e.t.bs|) else d')
  {
    var k := if e.Committed? then CommitLength(e.t.bs) else e.k;
    var c := CommitState(a, d, e.t, k);
    var r := AfterEvent(a, d, e);
    CommitCrash(a, d, e.t, k);
    if e.Crashed? {
      RecoverySurvivesCrashes(a, c, e.retries);
      assert Listed(a, r) == [];
    } else {
      assert Listed(a, r) == [];
      assert SameHome(a, r, Recovered(a, r));
    }
    if k >= CommitPoint(e.t.bs) {
      AppliedToIsApply(a, e.t, d, d', Recovered(a, c));
    }
  }

  /** The disk after a whole history of commits and crashes. */
  ghost function AfterAll(a: Area, d: Disk, es: seq<Event>): (r: Disk)
    requires Idle(a, d) && forall i :: 0 <= i < |es| ==> es[i].Ok(a, |d|)
    ensures Idle(a, r) && |r| == |d|
    decreases |es|
  {
    if es == [] then d
    else
      var d1 := AfterEvent(a, d, es[0]);
      EventAtomic(a, d, d, es[0]);
      AfterAll(a, d1, es[1..])
  }

  /** The history as its author thinks of it: the durable transactions, each
      carried out in one go, and nothing else. */
  ghost function Intended(a: Area, d: Disk, es: seq<Event>): (r: Disk)
    requires forall i :: 0 <= i < |es| ==> es[i].Ok(a, |d|)
    ensures |r| == |d|
    decreases |es|
  {
    if es == [] then d
    else
      assert es[0].Ok(a, |d|);
      var d1 := if es[0].Durable() then Apply(d, es[0].t, |es[0].t.bs|) else d;
      Intended(a, d1, es[1..])
  }

  /** Over every history of commits, crashes in commit and crashes in recovery,
      the home blocks are those of the durable transactions in order. */
  lemma {:induction false} HistoryAtomic(a: Area, d: Disk, d': Disk, es: seq<Event>)
    requires Idle(a, d) && SameHome(a, d, d')
    requires forall i :: 0 <= i < |es| ==> es[i].Ok(a, |d|)
    ensures Idle(a, AfterAll(a, d, es))
    ensures SameHome(a, AfterAll(a, d, es), Intended(a, d', es))
    decreases |es|
  {
    if es != [] {
      EventAtomic(a, d, d', es[0]);
      EventAtomic(a, d, d, es[0]);
      var d1' := if es[0].Durable() then Apply(d', es[0].t, |es[0].t.bs|) else d';
      HistoryAtomic(a, AfterEvent(a, d, es[0]), d1', es[1..]);
    }
  }
}
