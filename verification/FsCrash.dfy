/** Files across crashes: the file layer of src/fs.c on top of the log of
    src/log.c. A change that the file layer has logged is there as a whole or not
    at all after a crash, and what is there is a volume in order. */
module FsCrash {
  import opened Params
  import opened FsModel
  import opened FsLayout
  import opened FileSteps
  import opened FileSystem
  import RedoLog

  /** A volume `blk`, `dino` that became `blk'`, `dino'`, with every change logged. */
  ghost predicate LoggedChange(g: Geometry, blk: Blocks, dino: seq<Inode>, blk': Blocks, dino': seq<Inode>, logged: set<nat>) {
    && |blk| == |blk'| == g.size && |dino| == |dino'|
    && Logs(g, blk, {}, blk', logged)
    && forall i: nat :: i < |dino| && dino'[i] != dino[i] ==> g.InodeBlock(i) in logged
  }

  /** Changes one after the other, as the operations make them that share a
      transaction. */
  lemma LoggedTrans(g: Geometry, blk: Blocks, dino: seq<Inode>, blk1: Blocks, dino1: seq<Inode>, blk2: Blocks, dino2: seq<Inode>,
                    logged1: set<nat>, logged2: set<nat>)
    requires LoggedChange(g, blk, dino, blk1, dino1, logged1) && LoggedChange(g, blk1, dino1, blk2, dino2, logged2)
    ensures LoggedChange(g, blk, dino, blk2, dino2, logged1 + logged2)
  {
  }

  /** A block that was not logged is the same on both disks. */
  lemma UnloggedSame(g: Geometry, blk: Blocks, dino: seq<Inode>, blk': Blocks, dino': seq<Inode>, logged: set<nat>, b: nat)
    requires LoggedChange(g, blk, dino, blk', dino', logged) && b < g.size && b !in logged
    ensures DiskBlock(g, blk', dino', b) == DiskBlock(g, blk, dino, b)
  {
    if g.inodestart <= b < g.bmapstart {
      forall i: nat | i < |dino| && i / IPB == b - g.inodestart ensures dino'[i] == dino[i] {
        assert g.InodeBlock(i) == b;
      }
      SameInodeBlock(dino, dino', b - g.inodestart);
    }
  }

  /** The transaction that commits the logged blocks `bs`. */
  ghost function TxnOf(d: RedoLog.Disk, bs: seq<int>): RedoLog.Txn
    requires forall k :: 0 <= k < |bs| ==> 0 <= bs[k] < |d|
  {
    RedoLog.Txn(bs, seq(|bs|, k requires 0 <= k < |bs| => d[bs[k]]))
  }

  /** The log area lies in front of the inode blocks, the logged blocks are listed
      once each, and they fit the log. */
  ghost predicate Committable(g: Geometry, a: RedoLog.Area, logged: set<nat>, bs: seq<int>) {
    && a.Fits(g.size) && a.start + a.size <= g.inodestart
    && RedoLog.NoRepeats(bs) && |bs| <= LOGSIZE && |bs| <= a.size - 1
    && (forall k :: 0 <= k < |bs| ==> bs[k] >= 0 && bs[k] in logged)
    && (forall x :: x in logged ==> x in bs)
  }

  /** Crash atomicity of file operations: commit what the file layer logged, crash
      after any number of writes, recover; the disk then holds the volume from
      before the operations or the volume from after them, in every block outside
      the log. */
  lemma OperationAtomic(g: Geometry, a: RedoLog.Area, d: RedoLog.Disk,
                        blk: Blocks, dino: seq<Inode>, blk': Blocks, dino': seq<Inode>,
                        logged: set<nat>, bs: seq<int>, k: nat)
    requires LoggedChange(g, blk, dino, blk', dino', logged) && Committable(g, a, logged, bs)
    requires RedoLog.Idle(a, d) && RedoLog.SameHome(a, d, DiskOf(g, blk, dino)) && k <= RedoLog.CommitLength(bs)
    ensures var t := TxnOf(DiskOf(g, blk', dino'), bs);
      && t.Ok(a, |d|) && RedoLog.HeadOk(a, RedoLog.CommitState(a, d, t, k))
      && RedoLog.SameHome(a, RedoLog.Recovered(a, RedoLog.CommitState(a, d, t, k)),
                          if k < RedoLog.CommitPoint(bs) then DiskOf(g, blk, dino) else DiskOf(g, blk', dino'))
  {
    var v, v' := DiskOf(g, blk, dino), DiskOf(g, blk', dino');
    var t := TxnOf(v', bs);
    RedoLog.CommitCrash(a, d, t, k);
    hide RedoLog.Recovered, RedoLog.CommitState, RedoLog.HeadOk;
    var e := RedoLog.Recovered(a, RedoLog.CommitState(a, d, t, k));
    if k >= RedoLog.CommitPoint(bs) {
      forall b | a.Home(|d|, b) ensures e[b] == v'[b] {
        if b in bs {
          var n :| 0 <= n < |bs| && bs[n] == b;
          assert t.cs[n] == v'[b];
        } else {
          UnloggedSame(g, blk, dino, blk', dino', logged, b);
        }
      }
    }
  }

  // ------------------------------------------------- with the file operations

  /** Disk `d` holds the volume `s`, which is in order. */
  ghost predicate OnDisk(g: Geometry, a: RedoLog.Area, d: RedoLog.Disk, s: Snapshot) {
    && Sound(g, s, {}) && |s.blk| == g.size
    && RedoLog.SameHome(a, d, DiskOf(g, s.blk, s.ino))
  }

  /** However the transaction that turns `s` into `s'` is listed in the log and
      after however many of its writes the machine stops, recovery leaves one of
      the two on disk: the old one before the header write, the new one after. */
  ghost predicate Atomic(g: Geometry, a: RedoLog.Area, d: RedoLog.Disk, s: Snapshot, s': Snapshot)
    requires |s'.blk| == g.size
  {
    forall bs: seq<int>, k: nat {:trigger AtomicAt(g, a, d, s, s', bs, k)} ::
      Committable(g, a, s'.logged, bs) && k <= RedoLog.CommitLength(bs) ==> AtomicAt(g, a, d, s, s', bs, k)
  }

  ghost predicate AtomicAt(g: Geometry, a: RedoLog.Area, d: RedoLog.Disk, s: Snapshot, s': Snapshot, bs: seq<int>, k: nat)
    requires |s'.blk| == g.size
  {
    && (forall j :: 0 <= j < |bs| ==> 0 <= bs[j] < g.size)
    && var t := TxnOf(DiskOf(g, s'.blk, s'.ino), bs);
       && t.Ok(a, |d|) && k <= RedoLog.CommitLength(bs) && RedoLog.HeadOk(a, RedoLog.CommitState(a, d, t, k))
       && OnDisk(g, a, RedoLog.Recovered(a, RedoLog.CommitState(a, d, t, k)), if k < RedoLog.CommitPoint(bs) then s else s')
  }

  lemma VolumeAtomic(g: Geometry, a: RedoLog.Area, d: RedoLog.Disk, s: Snapshot, s': Snapshot)
    requires OnDisk(g, a, d, s) && RedoLog.Idle(a, d) && Sound(g, s', {})
    requires LoggedChange(g, s.blk, s.ino, s'.blk, s'.ino, s'.logged)
    ensures Atomic(g, a, d, s, s')
  {
    hide Sound;
    forall bs: seq<int>, k: nat | Committable(g, a, s'.logged, bs) && k <= RedoLog.CommitLength(bs)
      ensures AtomicAt(g, a, d, s, s', bs, k)
    {
      OperationAtomic(g, a, d, s.blk, s.ino, s'.blk, s'.ino, s'.logged, bs, k);
    }
  }

  // --------------------------------------------------------------- group commit

  /** Operations one after the other, whose changes are committed together: `ss[0]` is
      what they start from, and each leaves a state and what it logged. */
  ghost predicate Group(g: Geometry, ss: seq<Snapshot>) {
    && |ss| > 0
    && forall k {:trigger ss[k]} :: 0 < k < |ss| ==> LoggedChange(g, ss[k - 1].blk, ss[k - 1].ino, ss[k].blk, ss[k].ino, ss[k].logged)
  }

  /** All that the operations logged. */
  ghost function GroupLogged(ss: seq<Snapshot>): set<nat> {
    if |ss| <= 1 then {} else GroupLogged(ss[..|ss| - 1]) + ss[|ss| - 1].logged
  }

  lemma {:induction false} GroupChange(g: Geometry, ss: seq<Snapshot>)
    requires Group(g, ss) && |ss[0].blk| == g.size
    ensures var t := ss[|ss| - 1]; LoggedChange(g, ss[0].blk, ss[0].ino, t.blk, t.ino, GroupLogged(ss))
  {
    var n := |ss| - 1;
    if n > 0 {
      var rest := ss[..n];
      GroupChange(g, rest);
      LoggedTrans(g, ss[0].blk, ss[0].ino, ss[n - 1].blk, ss[n - 1].ino, ss[n].blk, ss[n].ino, GroupLogged(rest), ss[n].logged);
    }
  }

  /** Group commit: after a crash the disk holds the volume from before all the
      operations or from after all of them, never from in between. */
  lemma GroupAtomic(g: Geometry, a: RedoLog.Area, d: RedoLog.Disk, ss: seq<Snapshot>)
    requires Group(g, ss) && OnDisk(g, a, d, ss[0]) && RedoLog.Idle(a, d) && Sound(g, ss[|ss| - 1], {})
    ensures |ss[|ss| - 1].blk| == g.size && Atomic(g, a, d, ss[0], ss[|ss| - 1].(logged := GroupLogged(ss)))
  {
    GroupChange(g, ss);
    VolumeAtomic(g, a, d, ss[0], ss[|ss| - 1].(logged := GroupLogged(ss)));
  }

  /** A transaction of `filewrite`, when the machine stops in its commit: the file
      has the old bytes or has `bs` written over, every other file is as it was,
      and the volume is in order. */
  method ChunkAtomic(v: Volume, i: nat, off: nat, bs: seq<Byte>, ghost a: RedoLog.Area, ghost d: RedoLog.Disk) returns (r: int, panicked: bool)
    requires v.Open(i) && HoleFree(v.blk, v.ino[i]) && off < WORD && |bs| <= CHUNK && v.dino == v.ino
    requires RedoLog.Idle(a, d) && OnDisk(v.g, a, d, v.Now())
    modifies v
    ensures !panicked ==> v.Open(i) && v.dino == v.ino && HoleFree(v.blk, v.ino[i])
    ensures !panicked && r >= 0 ==> Wrote(v.g, old(v.Now()), v.Now(), i, off, bs)
    ensures !panicked ==> Atomic(v.g, a, d, old(v.Now()), v.Now())
  {
    hide Sound, Wrote, Budget, Atomic, Solid;
    ghost var s := v.Now();
    r, panicked := v.Chunk(i, off, bs);
    if !panicked {
      if r >= 0 {
        WroteRecords(v.g, s, v.Now(), v.dino, i, off, bs);
      }
      VolumeAtomic(v.g, a, d, s, v.Now());
    }
  }

  /** A write leaves the records on disk right if it leaves that of the file right. */
  lemma WroteRecords(g: Geometry, s: Snapshot, s': Snapshot, dino: seq<Inode>, i: nat, off: nat, bs: seq<Byte>)
    requires Wrote(g, s, s', i, off, bs) && |dino| == |s.ino| && dino == s.ino[i := dino[i]] && dino[i] == s'.ino[i]
    ensures dino == s'.ino && (HoleFree(s.blk, s.ino[i]) ==> HoleFree(s'.blk, s'.ino[i]))
  {
  }

  /** The same for `itrunc`: after a crash the file has all its blocks or none. */
  method ItruncAtomic(v: Volume, i: nat, ghost a: RedoLog.Area, ghost d: RedoLog.Disk)
    requires v.Valid({}) && i < |v.ino| && v.dino == v.ino && v.logged == {}
    requires RedoLog.Idle(a, d) && OnDisk(v.g, a, d, v.Now())
    modifies v
    ensures v.Valid({}) && v.dino == v.ino && v.ino == old(v.ino)[i := Truncated(old(v.ino)[i])]
    ensures Atomic(v.g, a, d, old(v.Now()), v.Now())
  {
    hide Sound, Atomic, Solid;
    ghost var s := v.Now();
    v.Itrunc(i);
    VolumeAtomic(v.g, a, d, s, v.Now());
  }
}
