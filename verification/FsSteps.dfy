/** The steps of the file layer (src/fs.c, `filewrite` in src/file.c) on values: what
    one turn of a loop does to a volume, what the turns amount to, and what they
    log. */
module FileSteps {
  import opened Arith
  import opened Bits
  import opened Common
  import opened Params
  import opened FsModel
  import opened FreeSpace
  import LogAdmission
  import LogSharing

  /** A transaction that wrote `bs` from `off` on. */
  datatype Step = Step(before: Snapshot, after: Snapshot, off: nat, bs: seq<Byte>)

  ghost predicate StepOk(g: Geometry, x: Step, i: nat) {
    Wrote(g, x.before, x.after, i, x.off, x.bs)
  }

  /** What the transactions wrote, put together. */
  ghost function Joined(ss: seq<Step>): seq<Byte> {
    if ss == [] then [] else Joined(ss[..|ss| - 1]) + ss[|ss| - 1].bs
  }

  /** One after the other, the transactions wrote what they wrote from `off` on, each
      over what the file was just before. */
  ghost predicate Steps(g: Geometry, ss: seq<Step>, i: nat, off: nat) {
    ss == [] ||
    var rest, x := ss[..|ss| - 1], ss[|ss| - 1];
    StepOk(g, x, i) && x.off == off + |Joined(rest)| && Steps(g, rest, i, off)
  }

  lemma SliceGrows(src: seq<Byte>, n: nat, k: nat)
    requires n + k <= |src|
    ensures src[..n] + src[n..n + k] == src[..n + k]
  {
  }

  lemma NoSteps(g: Geometry, i: nat, off: nat)
    ensures Steps(g, [], i, off) && Joined([]) == []
  {
  }

  lemma MoreSteps(g: Geometry, ss: seq<Step>, i: nat, off: nat, x: Step)
    requires Steps(g, ss, i, off) && StepOk(g, x, i) && x.off == off + |Joined(ss)|
    ensures Steps(g, ss + [x], i, off) && Joined(ss + [x]) == Joined(ss) + x.bs
  {
    assert (ss + [x])[..|ss|] == ss;
  }

  /** If nobody changed the volume in between, all the bytes were written as one. */
  lemma {:induction false} Undisturbed(g: Geometry, ss: seq<Step>, i: nat, off: nat)
    requires ss != [] && Steps(g, ss, i, off)
    requires forall k :: 0 <= k < |ss| - 1 ==> ss[k].after == ss[k + 1].before
    ensures Wrote(g, ss[0].before, ss[|ss| - 1].after, i, off, Joined(ss))
  {
    var n := |ss| - 1;
    var x, rest := ss[n], ss[..n];
    if n == 0 {
      assert Joined(ss) == x.bs;
    } else {
      var s, s1, s2 := ss[0].before, ss[n].before, ss[n].after;
      assert rest[0].before == s && rest[n - 1].after == s1 by {
        assert rest[n - 1] == ss[n - 1];
      }
      Undisturbed(g, rest, i, off);
      WroteTrans(g, s, s1, s2, i, off, x.off, Joined(rest), x.bs);
    }
  }

  /** From state `s` to state `s'`, file `i` had `bs` written over it from `off`
      on, and no other file changed. */
  ghost predicate Wrote(g: Geometry, s: Snapshot, s': Snapshot, i: nat, off: nat, bs: seq<Byte>) {
    && Sound(g, s', {}) && i < |s.ino| == |s'.ino| && Others(s.blk, s.ino, s.owner, s'.blk, s'.ino, s'.owner, i)
    && FileWritten(s.blk, s.ino[i], s'.blk, s'.ino[i], off, bs)
  }

  /** The file has `src` written over it from `off` on, and no new hole. */
  ghost predicate FileWritten(blk: Blocks, ip: Inode, blk': Blocks, ip': Inode, off: nat, src: seq<Byte>) {
    && Sized(ip) && Sized(ip') && (HoleFree(blk, ip) ==> HoleFree(blk', ip'))
    && Overwritten(File(blk, ip), File(blk', ip'), off, src)
  }

  /** `h` is `f` with `bs` written over it from `off` on. */
  ghost predicate Overwritten(f: seq<Byte>, h: seq<Byte>, off: nat, bs: seq<Byte>) {
    && off <= |f| && |h| == (if off + |bs| > |f| then off + |bs| else |f|)
    && forall j {:trigger h[j]} :: 0 <= j < |h| ==> h[j] == if off <= j < off + |bs| then bs[j - off] else f[j]
  }

  lemma OverwrittenIsSplice(f: seq<Byte>, h: seq<Byte>, off: nat, bs: seq<Byte>)
    requires off <= |f|
    ensures Overwritten(f, h, off, bs) <==> h == Splice(f, off, bs)
  {
    if Overwritten(f, h, off, bs) {
      assert h == Splice(f, off, bs);
    }
  }

  lemma WroteTrans(g: Geometry, s: Snapshot, s1: Snapshot, s2: Snapshot, i: nat, off: nat, mid: nat, a: seq<Byte>, b: seq<Byte>)
    requires Wrote(g, s, s1, i, off, a) && mid == off + |a| && Wrote(g, s1, s2, i, mid, b)
    ensures Wrote(g, s, s2, i, off, a + b)
  {
    OthersTrans(s.blk, s.ino, s.owner, s1.blk, s1.ino, s1.owner, s2.blk, s2.ino, s2.owner, i);
  }

  /** The most blocks one transaction of `filewrite` logs, in a file without holes
      and in any file. */
  function WriteBudget(g: Geometry, whole: bool): nat {
    6 + Min(if whole then 4 else 5, BitmapBlocks(g))
  }

  /** Operations that keep to the budget of file writes never panic the log nor
      overrun it, however they interleave, if and only if the disk has at most six
      bitmap blocks. */
  lemma WritesFitLog(g: Geometry, whole: bool)
    ensures (forall s :: LogSharing.Reached(s, WriteSplit(g, whole)) ==> LogAdmission.Safe(s)) <==> BitmapBlocks(g) <= 6
  {
    LogSharing.SafeShared(WriteSplit(g, whole));
  }

  /** The next block of file `i`, if it has one, is marked: freeing it cannot
      panic. */
  lemma FreeOne(g: Geometry, bits: seq<bool>, blk: Blocks, ino: seq<Inode>, owner: Owners, bits': seq<bool>, i: nat, n: nat)
    requires FsOk(g, bits, blk, ino, owner, {}) && i < |ino| && n < MAXFILE && FreedBelow(bits, bits', owner, i, n)
    ensures var b := BlockOf(blk, ino[i], n);
      if b == 0 then FreedBelow(bits, bits', owner, i, n + 1)
      else g.datastart <= b < g.size && bits'[b] && FreedBelow(bits, bits'[b := false], owner, i, n + 1)
  {
    assert InodeOk(blk, owner, ino[i], i);
    var b := BlockOf(blk, ino[i], n);
    if b != 0 {
      assert OwnerOk(g, blk, ino, owner[b], b);
    }
    forall c | c in owner && owner[c] == Data(i, n) ensures c == b != 0 {
      assert OwnerOk(g, blk, ino, owner[c], c);
    }
  }

  /** Once the file's blocks are free only the indirect block is left. */
  lemma FreeLast(g: Geometry, bits: seq<bool>, blk: Blocks, ino: seq<Inode>, owner: Owners, i: nat)
    requires FsOk(g, bits, blk, ino, owner, {}) && i < |ino|
    ensures var a := ino[i].addrs[NDIRECT];
      && (a != 0 ==> g.datastart <= a < g.size && a in owner && owner[a] == Indirect(i) && bits[a])
      && (forall c :: c in owner && owner[c] == Indirect(i) ==> c == a != 0)
      && (forall c :: c in owner && owner[c].i == i && owner[c].Data? ==> owner[c].n < if a == 0 then NDIRECT else MAXFILE)
  {
    assert InodeOk(blk, owner, ino[i], i);
    if ino[i].addrs[NDIRECT] != 0 {
      assert OwnerOk(g, blk, ino, owner[ino[i].addrs[NDIRECT]], ino[i].addrs[NDIRECT]);
    }
    forall c | c in owner && owner[c].i == i
      ensures g.datastart <= c && (owner[c].Indirect? ==> c == ino[i].addrs[NDIRECT] != 0)
      ensures owner[c].Data? ==> owner[c].n < if ino[i].addrs[NDIRECT] == 0 then NDIRECT else MAXFILE
    {
      assert OwnerOk(g, blk, ino, owner[c], c);
    }
  }

  /** From `s` to `s'`, exactly the blocks of file `i` were unmarked, and only bitmap
      blocks changed. */
  ghost predicate Freed(g: Geometry, s: Snapshot, s': Snapshot, i: nat) {
    && Decodes(g, s'.blk, s'.bits) && SameData(g, s.blk, s'.blk) && s'.owner == s.owner && |s'.bits| == |s.bits|
    && (forall c: nat :: c < |s.bits| ==> (s'.bits[c] <==> s.bits[c] && !(c in s.owner && s.owner[c].i == i)))
    && Logs(g, s.blk, s.logged, s'.blk, s'.logged) && MapsOnly(g, s.logged, s'.logged)
  }

  lemma FreedTruncated(g: Geometry, s: Snapshot, s1: Snapshot, s2: Snapshot, i: nat)
    requires Sound(g, s, {}) && i < |s.ino| && g.InodesFit() && Freed(g, s, s1, i)
    requires s2 == s1.(ino := s.ino[i := Truncated(s.ino[i])], owner := Without(s.owner, i), logged := s1.logged + {g.InodeBlock(i)})
    ensures Sound(g, s2, {}) && Keeps(g, s, s2, i) && HoleFree(s2.blk, s2.ino[i])
    ensures |s2.logged - s.logged| <= BitmapBlocks(g) + 1
  {
    TruncateOk(g, s.bits, s.blk, s.ino, s.owner, s1.bits, s1.blk, i);
    InodeBlockOk(g, i);
    LogsPut(g, s.blk, s.logged, s1.blk, s1.logged, g.InodeBlock(i), s1.blk[g.InodeBlock(i)]);
    MapsCount(g, s.logged, s1.logged, g.InodeBlock(i));
  }

  /** Beyond `logged`, only bitmap blocks were logged. */
  ghost predicate MapsOnly(g: Geometry, logged: set<nat>, logged': set<nat>) {
    forall x :: x in logged' ==> x in logged || g.bmapstart <= x < g.bmapstart + BitmapBlocks(g)
  }

  lemma MapsCount(g: Geometry, logged: set<nat>, logged': set<nat>, inodeBlock: nat)
    requires MapsOnly(g, logged, logged')
    ensures |logged' + {inodeBlock} - logged| <= BitmapBlocks(g) + 1
  {
    RangeCount(logged' - logged, g.bmapstart, BitmapBlocks(g));
    UnionCount(logged' - logged, {inodeBlock});
    SubsetCount(logged' + {inodeBlock} - logged, (logged' - logged) + {inodeBlock});
  }

  /** All data blocks are unchanged. */
  ghost predicate SameData(g: Geometry, blk: Blocks, blk': Blocks) {
    |blk'| == |blk| && forall c: nat :: g.datastart <= c < |blk| ==> blk'[c] == blk[c]
  }

  /** The blocks of file `i` below its block `n` are free, all others as before. */
  ghost predicate FreedBelow(bits: seq<bool>, bits': seq<bool>, owner: Owners, i: nat, n: nat) {
    && |bits'| == |bits|
    && forall c: nat :: c < |bits| ==> (bits'[c] <==> bits[c] && !(c in owner && owner[c].Data? && owner[c].i == i && owner[c].n < n))
  }

  /** `bs` are the `n` bytes of `f` from `off` on. */
  ghost predicate IsSlice(f: seq<Byte>, off: nat, n: nat, bs: seq<Byte>) {
    off + n <= |f| && bs == f[off..off + n]
  }

  lemma SliceJoin(f: seq<Byte>, off: nat, n: nat, bs: seq<Byte>, m: nat, cs: seq<Byte>)
    requires IsSlice(f, off, n, bs) && IsSlice(f, off + n, m, cs)
    ensures IsSlice(f, off, n + m, bs + cs)
  {
  }

  /** The loop of `readi` ends or goes on at the front of a block. */
  lemma TurnEnds(off: nat, n: nat, all: nat, k: nat)
    requires n < all && off + all <= MAXFILE * BSIZE && k == Min(all - n, BSIZE - (off + n) % BSIZE)
    requires n == 0 || (off + n) % BSIZE == 0
    ensures NextTurn(off, n, k) && (n + k == all || (off + n + k) % BSIZE == 0)
  {
    if n + k != all {
      DivMod(off + n, BSIZE);
      DivIs(off + n + k, BSIZE, (off + n) / BSIZE + 1);
    }
  }

  lemma BlockThere(blk: Blocks, ip: Inode, o: nat)
    requires Sized(ip) && o < ip.size
    ensures o / BSIZE < MAXFILE && (HoleFree(blk, ip) ==> BlockOf(blk, ip, o / BSIZE) != 0)
  {
    assert o / BSIZE * BSIZE <= o;
  }

  /** Bytes of one block are a slice of the file. */
  lemma SliceOfFile(blk: Blocks, ip: Inode, o: nat, k: nat)
    requires Sized(ip) && o + k <= ip.size && o % BSIZE + k <= BSIZE && k > 0
    requires o / BSIZE < MAXFILE && 0 < BlockOf(blk, ip, o / BSIZE) < |blk|
    ensures blk[BlockOf(blk, ip, o / BSIZE)][o % BSIZE..o % BSIZE + k] == File(blk, ip)[o..o + k]
  {
    var xs, ys := blk[BlockOf(blk, ip, o / BSIZE)][o % BSIZE..o % BSIZE + k], File(blk, ip)[o..o + k];
    forall j | 0 <= j < k ensures xs[j] == ys[j] {
      assert (o + j) / BSIZE == o / BSIZE && (o + j) % BSIZE == o % BSIZE + j;
    }
  }

  /** From `s` to `s'` file `i` was given the blocks of the `n` bytes from `off` on,
      filled with zeros where they were missing. */
  ghost predicate Filled(g: Geometry, s: Snapshot, s': Snapshot, i: nat, off: nat, n: nat) {
    && Sound(g, s', {}) && i < |s.ino| == |s'.ino| && Keeps(g, s, s', i) && Spent(s, s', i, off, n)
    && Sized(s.ino[i]) && Sized(s'.ino[i]) && s'.ino[i] == s.ino[i].(addrs := s'.ino[i].addrs)
    && File(s'.blk, s'.ino[i]) == File(s.blk, s.ino[i])
    && (HoleFree(s.blk, s.ino[i]) ==> s' == s)
  }

  lemma FilledNothing(g: Geometry, s: Snapshot, i: nat, off: nat)
    requires Sound(g, s, {}) && i < |s.ino| && Sized(s.ino[i]) && off <= MAXFILE * BSIZE
    ensures Filled(g, s, s, i, off, 0)
  {
    KeepsSelf(g, s, i);
    SpentNothing(s, i, off);
  }

  /** What `bmap` does to a file that is being read. */
  lemma FilledNext(g: Geometry, s: Snapshot, s1: Snapshot, s2: Snapshot, i: nat, off: nat, n: nat, k: nat, addr: nat, maps: seq<nat>)
    requires Filled(g, s, s1, i, off, n) && NextTurn(off, n, k) && off + n + k <= s.ino[i].size
    requires MapStep(g, s1, s2, i, (off + n) / BSIZE, addr, maps)
    ensures Filled(g, s, s2, i, off, n + k)
    ensures IsSlice(File(s.blk, s.ino[i]), off + n, k, s2.blk[addr][(off + n) % BSIZE..(off + n) % BSIZE + k])
  {
    hide Sound, Keeps, Spent, Took, Adds, InBitmap;
    KeepsTrans(g, s, s1, s2, i);
    SpentNext(s, s1, s2, i, off, n, k);
    MappedFile(s1.blk, s1.ino[i], s2.blk, s2.ino[i], (off + n) / BSIZE, addr);
    BlockThere(s.blk, s.ino[i], off + n);
    SliceOfFile(s2.blk, s2.ino[i], off + n, k);
  }

  lemma MappedFile(blk: Blocks, ip: Inode, blk': Blocks, ip': Inode, n: nat, addr: nat)
    requires Sized(ip) && Mapped(blk, ip, blk', ip', n, addr)
    ensures Sized(ip') && File(blk', ip') == File(blk, ip)
  {
  }

  /** No file has a hole. */
  ghost predicate Solid(blk: Blocks, ino: seq<Inode>) {
    forall k :: 0 <= k < |ino| ==> HoleFree(blk, ino[k])
  }

  /** A change to one file makes no hole in another. */
  lemma SolidKept(g: Geometry, s: Snapshot, s': Snapshot, i: nat)
    requires Sound(g, s, {}) && Keeps(g, s, s', i) && Solid(s.blk, s.ino)
    requires i < |s'.ino| ==> HoleFree(s'.blk, s'.ino[i])
    ensures Solid(s'.blk, s'.ino)
  {
    forall k: nat | k < |s'.ino| ensures HoleFree(s'.blk, s'.ino[k]) {
      if k != i {
        OthersFile(g, s.bits, s.blk, s.ino, s.owner, s'.blk, s'.ino, s'.owner, i, k);
      }
    }
  }

  const WORD := 0x1_0000_0000

  /** What `filewrite` puts into one transaction at most. */
  const CHUNK := (MAXOPBLOCKS - 1 - 1 - 2) / 2 * 512

  /** `off + n` in 32 bits is below `off`. */
  predicate Wraps(off: nat, n: nat) {
    (off + n) % WORD < off
  }

  lemma WrapsExactly(off: nat, n: nat)
    requires off < WORD && n < WORD
    ensures Wraps(off, n) <==> off + n >= WORD
  {
    if off + n >= WORD {
      DivIs(off + n, WORD, 1);
    } else {
      DivIs(off + n, WORD, 0);
    }
  }

  /** `writei` refuses: past the end, wrapping around, or too big a file. */
  predicate BadWrite(size: nat, off: nat, n: nat) {
    off > size || off + n >= WORD || off + n > MAXFILE * BSIZE
  }

  function BitmapBlocks(g: Geometry): nat {
    if g.size == 0 then 0 else (g.size - 1) / BPB + 1
  }

  ghost function Bitmap(g: Geometry): set<int> {
    Range(g.bmapstart, BitmapBlocks(g))
  }

  /** What one transaction of `filewrite` may log, in a file without holes and in any
      file: four data blocks, the indirect block and the inode block, and of the
      bitmap blocks, which all files share, four or five. */
  ghost function WriteSplit(g: Geometry, whole: bool): LogSharing.Split {
    LogSharing.Split(Bitmap(g), 6, if whole then 4 else 5)
  }

  ghost predicate Budget(g: Geometry, added: set<nat>, whole: bool) {
    LogSharing.Fits(WriteSplit(g, whole), added) && |added| <= WriteBudget(g, whole)
  }

  lemma NoBudget(g: Geometry, whole: bool)
    ensures Budget(g, {}, whole)
  {
    var none: set<int> := {};
    assert none - Bitmap(g) == {} && none * Bitmap(g) == {};
  }

  /** The write budget: at most four data blocks, the indirect block and the inode
      block, and four bitmap blocks; fewer where the bitmap is small. */
  lemma BudgetKept(g: Geometry, t: Tally, logged: set<nat>, logged': set<nat>, ip: Inode, ip': Inode, off: nat, n: nat, inodeBlock: nat, whole: bool)
    requires TallyOk(g, t, logged, logged', ip, ip', off, n, n, whole) && off <= ip.size && n <= CHUNK
    requires g.Ok() && inodeBlock < g.bmapstart && (ip'.addrs[NDIRECT] == 0 || ip'.addrs[NDIRECT] >= g.datastart)
    ensures Budget(g, logged' - logged, whole) && Budget(g, logged' + {inodeBlock} - logged, whole)
  {
    assert t.turns <= 4 && |t.maps| <= if whole then 4 else 5;
    var own := t.datas + [ip'.addrs[NDIRECT], inodeBlock];
    forall x | x in own ensures x !in Bitmap(g) {
      assert x in t.datas || x == ip'.addrs[NDIRECT] || x == inodeBlock;
    }
    BudgetOf(g, logged' - logged, t.maps, own, whole);
    BudgetOf(g, logged' + {inodeBlock} - logged, t.maps, own, whole);
  }

  lemma BudgetOf(g: Geometry, added: set<nat>, maps: seq<nat>, own: seq<nat>, whole: bool)
    requires InBitmap(g, maps) && |maps| <= (if whole then 4 else 5) && |own| <= 6
    requires forall x :: x in own ==> x !in Bitmap(g)
    requires forall x :: x in added ==> x in maps || x in own
    ensures Budget(g, added, whole)
  {
    ElementsCount(maps);
    ElementsCount(own);
    RangeCount(Elements(maps), g.bmapstart, BitmapBlocks(g));
    var all: set<int> := added;
    Within(all - Bitmap(g), own);
    Within(all * Bitmap(g), maps);
    UnionCount(all - Bitmap(g), all * Bitmap(g));
    assert all == (all - Bitmap(g)) + (all * Bitmap(g));
  }

  lemma Within(s: set<int>, xs: seq<int>)
    requires forall x :: x in s ==> x in xs
    ensures |s| <= |Elements(xs)|
  {
    assert forall x :: x in s ==> x in Elements(xs);
    SubsetCount(s, Elements(xs));
  }

  /** Setting the size moves no block. */
  lemma ResizeOk(g: Geometry, bits: seq<bool>, blk: Blocks, ino: seq<Inode>, owner: Owners, i: nat, size: nat)
    requires FsOk(g, bits, blk, ino, owner, {}) && i < |ino|
    ensures FsOk(g, bits, blk, ino[i := ino[i].(size := size)], owner, {})
    ensures Others(blk, ino, owner, blk, ino[i := ino[i].(size := size)], owner, i)
  {
    var ino' := ino[i := ino[i].(size := size)];
    forall k: nat | k < |ino'| ensures InodeOk(blk, owner, ino'[k], k) {
      assert InodeOk(blk, owner, ino[k], k);
      forall n: nat | n < MAXFILE ensures BlockOf(blk, ino'[k], n) == BlockOf(blk, ino[k], n) {
      }
    }
    forall b | b in owner ensures OwnerOk(g, blk, ino', owner[b], b) {
      assert OwnerOk(g, blk, ino, owner[b], b);
    }
    forall b | b in owner ensures b < |blk| {
      assert OwnerOk(g, blk, ino, owner[b], b);
    }
  }

  /** `writei` has checked its arguments. */
  ghost predicate Starts(s: Snapshot, i: nat, off: nat, src: seq<Byte>) {
    i < |s.ino| && Sized(s.ino[i]) && off <= s.ino[i].size && off + |src| <= MAXFILE * BSIZE
  }

  /** From state `s`, the loop of `writei` has come to byte `tot` and state `s'`,
      and a tally accounts for what it logged. */
  ghost predicate Progress(g: Geometry, s: Snapshot, s': Snapshot, i: nat, off: nat, src: seq<Byte>, tot: nat) {
    exists t :: ProgressBy(g, s, s', i, off, src, tot, t)
  }

  ghost predicate ProgressBy(g: Geometry, s: Snapshot, s': Snapshot, i: nat, off: nat, src: seq<Byte>, tot: nat, t: Tally) {
    && Sound(g, s', {}) && i < |s'.ino| == |s.ino| && Keeps(g, s, s', i)
    && Written(s.blk, s.ino[i], s'.blk, s'.ino[i], off, src, tot)
    && TallyOk(g, t, s.logged, s'.logged, s.ino[i], s'.ino[i], off, tot, |src|, HoleFree(s.blk, s.ino[i]))
    && Spent(s, s', i, off, tot)
  }

  lemma ProgressStart(g: Geometry, s: Snapshot, i: nat, off: nat, src: seq<Byte>)
    requires Sound(g, s, {}) && Starts(s, i, off, src)
    ensures Progress(g, s, s, i, off, src, 0)
  {
    KeepsSelf(g, s, i);
    SpentNothing(s, i, off);
    assert ProgressBy(g, s, s, i, off, src, 0, Tally([], [], 0, 0));
  }

  /** The next turn of the loop starts at the front of a block, or is the first. */
  lemma ProgressTurn(g: Geometry, s: Snapshot, s1: Snapshot, i: nat, off: nat, src: seq<Byte>, tot: nat, m: nat)
    requires Progress(g, s, s1, i, off, src, tot) && Starts(s, i, off, src)
    requires tot < |src| && m == Min(|src| - tot, BSIZE - (off + tot) % BSIZE)
    ensures Sound(g, s1, {}) && i < |s1.ino| && Spent(s, s1, i, off, tot) && NextTurn(off, tot, m)
  {
    var t :| ProgressBy(g, s, s1, i, off, src, tot, t);
    TallyTurn(off, tot, t.turns);
  }

  lemma TallyTurn(off: nat, tot: nat, turns: nat)
    requires if turns == 0 then tot == 0 else off % BSIZE + tot == turns * BSIZE
    ensures tot == 0 || (off + tot) % BSIZE == 0
  {
    if turns > 0 {
      DivMod(off, BSIZE);
      DivIs(off + tot, BSIZE, off / BSIZE + turns);
    }
  }

  lemma ProgressNext(g: Geometry, s: Snapshot, s1: Snapshot, s2: Snapshot, i: nat, off: nat, src: seq<Byte>, tot: nat, m: nat, addr: nat, maps: seq<nat>)
    requires Progress(g, s, s1, i, off, src, tot) && Starts(s, i, off, src)
    requires tot < |src| && m == Min(|src| - tot, BSIZE - (off + tot) % BSIZE) && NextTurn(off, tot, m)
    requires TurnStep(g, s1, s2, i, off + tot, src[tot..tot + m], addr, maps)
    ensures Progress(g, s, s2, i, off, src, tot + m)
  {
    var t :| ProgressBy(g, s, s1, i, off, src, tot, t);
    WrittenNext(s.blk, s.ino[i], s1.blk, s1.ino[i], s2.blk, s2.ino[i], off, src, tot, m);
    KeepsTrans(g, s, s1, s2, i);
    var u := TallyNext(g, t, s.logged, s1.logged, s2.logged, s.blk, s.ino[i], s1.blk, s1.ino[i], s2.ino[i], off, src, tot, m, addr, maps);
    SpentNext(s, s1, s2, i, off, tot, m);
    assert ProgressBy(g, s, s2, i, off, src, tot + m, u);
  }

  /** The inode when `writei` is done: it reaches at least to `end`. */
  function Grown(ip: Inode, end: nat): Inode {
    if end > ip.size then ip.(size := end) else ip
  }

  /** The volume, and the records on disk, after the last lines of `writei`. */
  ghost function GrownState(g: Geometry, s: Snapshot, i: nat, end: nat): Snapshot
    requires i < |s.ino|
  {
    if end > s.ino[i].size then s.(ino := s.ino[i := Grown(s.ino[i], end)], logged := s.logged + {g.InodeBlock(i)}) else s
  }

  function GrownRecords(dino: seq<Inode>, ip: Inode, i: nat, end: nat): seq<Inode>
    requires i < |dino|
  {
    if end > ip.size then dino[i := Grown(ip, end)] else dino
  }

  /** What `writei` amounts to: the bytes are written over the file, no other file
      changed, and what changed is logged; the free blocks pay for those that the
      file lacked; the record on disk of the inode is written exactly if the file
      grew, and no other is; a chunk keeps to its budget. */
  ghost predicate Done(g: Geometry, s: Snapshot, dino: seq<Inode>, s': Snapshot, dino': seq<Inode>, i: nat, off: nat, src: seq<Byte>) {
    && Sound(g, s', {}) && i < |s.ino| == |s'.ino| == |dino| == |dino'| && off + |src| <= MAXFILE * BSIZE && Keeps(g, s, s', i)
    && FileWritten(s.blk, s.ino[i], s'.blk, s'.ino[i], off, src)
    && FreeCount(s.bits) == FreeCount(s'.bits) + NeedsFor(s.blk, s.ino[i], off, |src|)
    && dino' == (if off + |src| > s.ino[i].size then dino[i := s'.ino[i]] else dino)
    && (off + |src| <= s.ino[i].size ==> (s'.ino[i] == s.ino[i] <==> SlotsSet(s.ino[i], off, |src|)))
    && (off + |src| > s.ino[i].size ==> g.InodeBlock(i) in s'.logged)
    && (|src| <= CHUNK ==> Budget(g, s'.logged - s.logged, HoleFree(s.blk, s.ino[i])))
  }

  /** In terms of one transaction. */
  lemma DoneWrote(g: Geometry, s0: Snapshot, s: Snapshot, dino: seq<Inode>, s': Snapshot, dino': seq<Inode>, i: nat, off: nat, src: seq<Byte>)
    requires Done(g, s, dino, s', dino', i, off, src) && s == s0.(logged := s.logged)
    ensures Wrote(g, s0, s', i, off, src) && Sized(s'.ino[i])
    ensures dino' == dino[i := dino'[i]] && (dino' != dino ==> g.InodeBlock(i) in s'.logged)
    ensures dino[i] == s.ino[i] && HoleFree(s.blk, s.ino[i]) ==> dino'[i] == s'.ino[i]
    ensures Logs(g, s.blk, s.logged, s'.blk, s'.logged)
    ensures |src| <= CHUNK ==> Budget(g, s'.logged - s.logged, HoleFree(s.blk, s.ino[i]))
  {
    if HoleFree(s.blk, s.ino[i]) && off + |src| <= s.ino[i].size {
      NothingMissing(s.blk, s.ino[i], off, |src|);
    }
  }

  /** What was logged does not matter for the volume. */
  lemma Unlogged(g: Geometry, s: Snapshot)
    requires Sound(g, s, {})
    ensures Sound(g, s.(logged := {}), {})
  {
  }

  lemma EndFile(blk: Blocks, ip: Inode, blk': Blocks, ip': Inode, off: nat, src: seq<Byte>)
    requires Written(blk, ip, blk', ip', off, src, |src|) && Sized(ip) && off <= ip.size && off + |src| <= MAXFILE * BSIZE
    ensures FileWritten(blk, ip, blk', Grown(ip', off + |src|), off, src)
  {
    WrittenFile(blk, ip, blk', ip', off, src);
    OverwrittenIsSplice(File(blk, ip), File(blk', Grown(ip', off + |src|)), off, src);
  }

  /** Setting the size moves no block. */
  lemma EndVolume(g: Geometry, s: Snapshot, s1: Snapshot, i: nat, end: nat)
    requires Sound(g, s1, {}) && i < |s1.ino| && Keeps(g, s, s1, i) && g.InodesFit()
    ensures Sound(g, GrownState(g, s1, i, end), {}) && Keeps(g, s, GrownState(g, s1, i, end), i)
  {
    if end > s1.ino[i].size {
      var s2 := GrownState(g, s1, i, end);
      ResizeOk(g, s1.bits, s1.blk, s1.ino, s1.owner, i, end);
      InodeBlockOk(g, i);
      LogsPut(g, s1.blk, s1.logged, s1.blk, s1.logged, g.InodeBlock(i), s1.blk[g.InodeBlock(i)]);
      KeepsTrans(g, s, s1, s2, i);
    }
  }

  lemma EndBudget(g: Geometry, s: Snapshot, s1: Snapshot, i: nat, off: nat, n: nat, t: Tally)
    requires i < |s.ino| && i < |s1.ino| && Sound(g, s1, {}) && g.InodesFit() && n <= CHUNK
    requires TallyOk(g, t, s.logged, s1.logged, s.ino[i], s1.ino[i], off, n, n, HoleFree(s.blk, s.ino[i])) && off <= s.ino[i].size
    ensures Budget(g, GrownState(g, s1, i, off + n).logged - s.logged, HoleFree(s.blk, s.ino[i]))
  {
    IndirectAt(g, s1.bits, s1.blk, s1.ino, s1.owner, i);
    InodeBlockOk(g, i);
    BudgetKept(g, t, s.logged, s1.logged, s.ino[i], s1.ino[i], off, n, g.InodeBlock(i), HoleFree(s.blk, s.ino[i]));
  }

  lemma ProgressDone(g: Geometry, s: Snapshot, s1: Snapshot, dino: seq<Inode>, i: nat, off: nat, src: seq<Byte>)
    requires Starts(s, i, off, src) && Progress(g, s, s1, i, off, src, |src|) && g.InodesFit() && |dino| == |s.ino|
    ensures |s1.ino| == |s.ino| && Shaped(s1.ino[i]) && s1.ino[i].size == s.ino[i].size
    ensures Done(g, s, dino, GrownState(g, s1, i, off + |src|), GrownRecords(dino, s1.ino[i], i, off + |src|), i, off, src)
  {
    hide Sound, Keeps, TallyOk, Budget, FileWritten, HoleFree, NeedsFor, FreeCount;
    var t :| ProgressBy(g, s, s1, i, off, src, |src|, t);
    SpentChanges(s, s1, i, off, |src|);
    EndFile(s.blk, s.ino[i], s1.blk, s1.ino[i], off, src);
    EndVolume(g, s, s1, i, off + |src|);
    if |src| <= CHUNK {
      EndBudget(g, s, s1, i, off, |src|, t);
    }
  }

  lemma IndirectAt(g: Geometry, bits: seq<bool>, blk: Blocks, ino: seq<Inode>, owner: Owners, i: nat)
    requires FsOk(g, bits, blk, ino, owner, {}) && i < |ino|
    ensures Shaped(ino[i]) && (ino[i].addrs[NDIRECT] == 0 || ino[i].addrs[NDIRECT] >= g.datastart)
  {
    assert InodeOk(blk, owner, ino[i], i);
    if ino[i].addrs[NDIRECT] != 0 {
      assert OwnerOk(g, blk, ino, owner[ino[i].addrs[NDIRECT]], ino[i].addrs[NDIRECT]);
    }
  }

  lemma WrittenNext(blk: Blocks, ip: Inode, blk1: Blocks, ip1: Inode, blk2: Blocks, ip2: Inode, off: nat, src: seq<Byte>, tot: nat, m: nat)
    requires Written(blk, ip, blk1, ip1, off, src, tot) && tot + m <= |src| && off + |src| <= MAXFILE * BSIZE && m > 0
    requires (off + tot) % BSIZE + m <= BSIZE && Turned(blk1, ip1, blk2, ip2, off + tot, src[tot..tot + m])
    ensures Written(blk, ip, blk2, ip2, off, src, tot + m)
  {
    forall n: nat | n < MAXFILE && (BlockOf(blk, ip, n) != 0 || Reached(off, tot + m, n))
      ensures BlockOf(blk2, ip2, n) != 0
    {
      if n != (off + tot) / BSIZE {
        assert BlockOf(blk, ip, n) != 0 || Reached(off, tot, n);
      }
    }
  }

  /** What `writei` has logged so far: bitmap blocks and data blocks, and how many
      turns it took and how many of them needed a new data block. */
  datatype Tally = Tally(maps: seq<nat>, datas: seq<nat>, turns: nat, news: nat)

  ghost predicate TallyOk(g: Geometry, t: Tally, logged: set<nat>, logged': set<nat>, ip: Inode, ip': Inode, off: nat, tot: nat, n: nat, whole: bool) {
    && Shaped(ip) && Shaped(ip') && InBitmap(g, t.maps)
    && Adds(logged, logged', t.maps, t.datas, ip')
    && |t.datas| <= t.turns && (forall d :: d in t.datas ==> d >= g.datastart)
    && |t.maps| <= t.news + (if ip.addrs[NDIRECT] == 0 && ip'.addrs[NDIRECT] != 0 then 1 else 0)
    && t.news <= t.turns
    && (whole && t.turns > 0 && (off < ip.size || off % BSIZE != 0) ==> t.news < t.turns)
    && (if t.turns == 0 then tot == 0
        else (t.turns - 1) * BSIZE < off % BSIZE + tot && (tot < n ==> off % BSIZE + tot == t.turns * BSIZE))
  }

  lemma TallyNext(g: Geometry, t: Tally, logged: set<nat>, logged1: set<nat>, logged2: set<nat>, blk: Blocks, ip: Inode,
                  blk1: Blocks, ip1: Inode, ip2: Inode, off: nat, src: seq<Byte>, tot: nat, m: nat, addr: nat, maps: seq<nat>)
    returns (u: Tally)
    requires TallyOk(g, t, logged, logged1, ip, ip1, off, tot, |src|, HoleFree(blk, ip)) && Written(blk, ip, blk1, ip1, off, src, tot) && Shaped(ip2)
    requires Sized(ip) && off <= ip.size && tot < |src| && off + |src| <= MAXFILE * BSIZE
    requires m == Min(|src| - tot, BSIZE - (off + tot) % BSIZE)
    requires Adds(logged1, logged2, maps, [addr], ip2) && InBitmap(g, maps) && g.datastart <= addr
    requires (off + tot) / BSIZE < MAXFILE && |maps| <= Needs(blk1, ip1, (off + tot) / BSIZE)
    requires (off + tot) / BSIZE >= NDIRECT ==> ip2.addrs[NDIRECT] != 0
    requires ip1.addrs[NDIRECT] != 0 ==> ip2.addrs[NDIRECT] == ip1.addrs[NDIRECT]
    requires ip.addrs[NDIRECT] != 0 ==> ip1.addrs[NDIRECT] != 0
    ensures TallyOk(g, u, logged, logged2, ip, ip2, off, tot + m, |src|, HoleFree(blk, ip))
  {
    var isFresh := BlockOf(blk1, ip1, (off + tot) / BSIZE) == 0;
    u := Tally(t.maps + maps, t.datas + [addr], t.turns + 1, t.news + if isFresh then 1 else 0);
    TurnCount(off, tot, m, t.turns, |src|);
    if t.turns == 0 && (off < ip.size || off % BSIZE != 0) {
      assert off / BSIZE * BSIZE < ip.size;
    }
  }

  lemma TurnCount(off: nat, tot: nat, m: nat, turns: nat, n: nat)
    requires tot < n && m == Min(n - tot, BSIZE - (off + tot) % BSIZE)
    requires if turns == 0 then tot == 0 else (turns - 1) * BSIZE < off % BSIZE + tot && off % BSIZE + tot == turns * BSIZE
    ensures turns * BSIZE < off % BSIZE + tot + m && (tot + m < n ==> off % BSIZE + tot + m == (turns + 1) * BSIZE)
  {
    if turns > 0 {
      assert off + tot == BSIZE * (off / BSIZE + turns);
    }
  }

  /** Bit `bi` of the bitmap block that starts with block `first`. */
  lemma RowBit(g: Geometry, blk: Blocks, bits: seq<bool>, first: nat, bi: nat)
    requires Decodes(g, blk, bits) && first % BPB == 0 && bi < BPB && first + bi < g.size
    ensures g.MapBlock(first) < |blk| && bits[first + bi] == BitAt(blk[g.MapBlock(first)][bi / 8], bi % 8)
  {
    MapBlockOk(g, first);
    DivIs(first + bi, BPB, first / BPB);
    BitsUpToAt(g, blk, g.size, first + bi);
  }

  // ------------------------------------------------------------------ balloc

  /** `balloc` took block `b`, the first free one: it is marked and zeroed, nobody
      has it yet, and every other data block and all files are as they were. */
  ghost predicate Allocated(g: Geometry, s: Snapshot, s': Snapshot, loose: set<nat>, b: nat) {
    && Sound(g, s', loose + {b}) && s'.ino == s.ino && s'.owner == s.owner
    && g.datastart <= b < g.size == |s.bits| == |s.blk| && !s.bits[b] && (forall c: nat :: c < b ==> s.bits[c])
    && b !in s.owner && b !in loose
    && s'.bits == s.bits[b := true] && FreeCount(s.bits) == FreeCount(s'.bits) + 1
    && s'.blk[b] == ZeroBytes() && (forall c: nat :: g.datastart <= c < g.size && c != b ==> s'.blk[c] == s.blk[c])
    && s'.logged == s.logged + {g.MapBlock(b), b} && Keeps(g, s, s', |s.ino|)
  }

  lemma AllocatedBy(g: Geometry, s: Snapshot, s1: Snapshot, s2: Snapshot, loose: set<nat>, b: nat)
    requires Sound(g, s, loose) && b < g.size && !s.bits[b] && forall c: nat :: c < b ==> s.bits[c]
    requires s1 == s.(blk := s1.blk, bits := s.bits[b := true], logged := s.logged + {g.MapBlock(b)})
    requires Decodes(g, s1.blk, s1.bits) && Logs(g, s.blk, s.logged, s1.blk, s1.logged)
    requires forall c: nat :: g.datastart <= c < g.size ==> s1.blk[c] == s.blk[c]
    requires s2 == s1.(blk := s1.blk[b := ZeroBytes()], logged := s1.logged + {b})
    ensures Allocated(g, s, s2, loose, b)
  {
    MarkCount(s.bits, b);
    MarkOk(g, s.bits, s.blk, s1.blk, s.ino, s.owner, loose, b, |s.ino|);
    PutBlockOk(g, s1.bits, s1.blk, s.ino, s.owner, loose + {b}, b, ZeroBytes(), |s.ino|);
    DecodesStays(g, s1.blk, s2.blk, s1.bits);
    OthersTrans(s.blk, s.ino, s.owner, s1.blk, s.ino, s.owner, s2.blk, s.ino, s.owner, |s.ino|);
    LogsPut(g, s.blk, s.logged, s1.blk, s1.logged, b, ZeroBytes());
  }

  /** What holds of all files holds of all but one. */
  lemma KeepsOne(g: Geometry, s: Snapshot, s': Snapshot, i: nat)
    requires Sound(g, s, {}) && Keeps(g, s, s', |s.ino|) && s'.ino == s.ino && s'.owner == s.owner
    ensures Keeps(g, s, s', i)
  {
    forall b | b in s.owner ensures s.owner[b].i != |s.ino| {
      assert OwnerOk(g, s.blk, s.ino, s.owner[b], b);
    }
  }

  // -------------------------------------------------------------------- bmap

  /** `bmap` found or made block `n` of file `i` at `addr`: no byte of the file and no
      other file changed; a block that was there cost nothing. Beyond `maps`, which
      are bitmap blocks, only the block and the indirect block were logged. */
  ghost predicate MapStep(g: Geometry, s: Snapshot, s': Snapshot, i: nat, n: nat, addr: nat, maps: seq<nat>) {
    && Sound(g, s', {}) && i < |s.ino| == |s'.ino| && Keeps(g, s, s', i)
    && Mapped(s.blk, s.ino[i], s'.blk, s'.ino[i], n, addr) && g.datastart <= addr
    && Took(s, s', i, n)
    && (BlockOf(s.blk, s.ino[i], n) != 0 ==> s' == s)
    && (n < NDIRECT || s.ino[i].addrs[NDIRECT] != 0 ==> s'.ino[i].addrs[NDIRECT] == s.ino[i].addrs[NDIRECT])
    && InBitmap(g, maps) && |maps| <= Needs(s.blk, s.ino[i], n) && Adds(s.logged, s'.logged, maps, [addr], s'.ino[i])
  }

  lemma MapNothing(g: Geometry, s: Snapshot, i: nat, n: nat, addr: nat)
    requires Sound(g, s, {}) && i < |s.ino| && n < MAXFILE && Shaped(s.ino[i]) && addr == BlockOf(s.blk, s.ino[i], n) != 0
    ensures MapStep(g, s, s, i, n, addr, [])
  {
    KeepsSelf(g, s, i);
    assert InodeOk(s.blk, s.owner, s.ino[i], i);
    assert OwnerOk(g, s.blk, s.ino, s.owner[addr], addr);
  }

  lemma NewDirectOk(g: Geometry, s: Snapshot, s1: Snapshot, s2: Snapshot, i: nat, n: nat, b: nat)
    requires Sound(g, s, {}) && i < |s.ino| && n < NDIRECT && Shaped(s.ino[i]) && s.ino[i].addrs[n] == 0
    requires Allocated(g, s, s1, {}, b)
    requires s2 == s1.(ino := s.ino[i := PutAddr(s.ino[i], n, b)], owner := s.owner[b := Data(i, n)])
    ensures MapStep(g, s, s2, i, n, b, [g.MapBlock(b)])
  {
    DirectGains(s1.blk, s.ino, s.owner, i, n, b);
    Gained(g, s, s1, s2, i, n, b);
    MapBlockOk(g, b);
    AddsTwo(s.logged, s2.logged, g.MapBlock(b), b, s2.ino[i]);
    TookOne(s, s2, i, n, b);
  }

  /** File `i` gains a block that was just allocated. */
  lemma Gained(g: Geometry, s: Snapshot, s1: Snapshot, s2: Snapshot, i: nat, n: nat, b: nat)
    requires Sound(g, s, {}) && i < |s.ino| && Shaped(s.ino[i]) && Allocated(g, s, s1, {}, b)
    requires Gains(s1.blk, s.ino, s.owner, s2.blk, s2.ino, i, n, b) && Logs(g, s1.blk, s1.logged, s2.blk, s2.logged)
    requires s2.bits == s1.bits && s2.owner == s.owner[b := Data(i, n)] && s2.ino[i] == s.ino[i].(addrs := s2.ino[i].addrs)
    requires forall c: nat :: c < g.datastart ==> s2.blk[c] == s1.blk[c]
    ensures Sound(g, s2, {}) && Keeps(g, s, s2, i) && Mapped(s.blk, s.ino[i], s2.blk, s2.ino[i], n, b)
  {
    GainsOk(g, s1.bits, s1.blk, s.ino, s.owner, {} + {b}, s2.blk, s2.ino, i, n, b);
    assert {} + {b} - {b} == {};
    DecodesStays(g, s1.blk, s2.blk, s1.bits);
    KeepsOne(g, s, s1, i);
    KeepsTrans(g, s, s1, s2, i);
    assert InodeOk(s.blk, s.owner, s.ino[i], i);
    OwnBlocks(g, s, s1, i);
    GainsMapped(s.blk, s.owner, s.ino, s1.blk, s2.blk, s2.ino, i, n, b);
  }

  /** The blocks of a file are as they were when a block was allocated. */
  lemma OwnBlocks(g: Geometry, s: Snapshot, s1: Snapshot, i: nat)
    requires Sound(g, s, {}) && Keeps(g, s, s1, |s.ino|)
    ensures forall c :: c in s.owner && s.owner[c].i == i ==> c < |s.blk| && s1.blk[c] == s.blk[c]
  {
    forall c | c in s.owner && s.owner[c].i == i ensures c < |s.blk| && s1.blk[c] == s.blk[c] {
      assert OwnerOk(g, s.blk, s.ino, s.owner[c], c);
    }
  }

  /** File `i` has an indirect block, at `a`, made if there was none. */
  ghost predicate IndirectStep(g: Geometry, s: Snapshot, s': Snapshot, i: nat, a: nat, maps: seq<nat>) {
    && Sound(g, s', {}) && i < |s.ino| == |s'.ino| && Keeps(g, s, s', i)
    && SameFile(s.blk, s.ino[i], s'.blk, s'.ino[i]) && 0 < a == s'.ino[i].addrs[NDIRECT] < |s'.blk|
    && (s.ino[i].addrs[NDIRECT] != 0 ==> s' == s)
    && FreeCount(s.bits) == FreeCount(s'.bits) + (if s.ino[i].addrs[NDIRECT] == 0 then 1 else 0)
    && InBitmap(g, maps) && |maps| <= (if s.ino[i].addrs[NDIRECT] == 0 then 1 else 0)
    && Adds(s.logged, s'.logged, maps, [], s'.ino[i])
  }

  lemma IndirectThere(g: Geometry, s: Snapshot, i: nat)
    requires Sound(g, s, {}) && i < |s.ino| && Shaped(s.ino[i]) && s.ino[i].addrs[NDIRECT] != 0
    ensures g.datastart <= s.ino[i].addrs[NDIRECT] < |s.blk|
    ensures IndirectStep(g, s, s, i, s.ino[i].addrs[NDIRECT], [])
  {
    KeepsSelf(g, s, i);
    IndirectAt(g, s.bits, s.blk, s.ino, s.owner, i);
    assert InodeOk(s.blk, s.owner, s.ino[i], i);
  }

  lemma NewIndirectOk(g: Geometry, s: Snapshot, s1: Snapshot, s2: Snapshot, i: nat, a: nat)
    requires Sound(g, s, {}) && i < |s.ino| && Shaped(s.ino[i]) && s.ino[i].addrs[NDIRECT] == 0
    requires Allocated(g, s, s1, {}, a)
    requires s2 == s1.(ino := s.ino[i := PutAddr(s.ino[i], NDIRECT, a)], owner := s.owner[a := Indirect(i)])
    ensures IndirectStep(g, s, s2, i, a, [g.MapBlock(a)])
  {
    AddIndirectOk(g, s1.bits, s1.blk, s.ino, s.owner, {} + {a}, i, a);
    assert {} + {a} - {a} == {};
    KeepsOne(g, s, s1, i);
    KeepsTrans(g, s, s1, s2, i);
    assert InodeOk(s.blk, s.owner, s.ino[i], i);
    OwnBlocks(g, s, s1, i);
    IndirectSame(s.blk, s.owner, s.ino[i], s1.blk, i, a);
    MapBlockOk(g, a);
  }

  /** Block `b`, just allocated, becomes entry `n` of the indirect block. */
  lemma NewEntryOk(g: Geometry, s: Snapshot, s1: Snapshot, s2: Snapshot, i: nat, n: nat, b: nat)
    requires Sound(g, s, {}) && i < |s.ino| && NDIRECT <= n < MAXFILE && Shaped(s.ino[i])
    requires g.datastart <= s.ino[i].addrs[NDIRECT] < |s1.blk| && BlockOf(s.blk, s.ino[i], n) == 0
    requires Allocated(g, s, s1, {}, b)
    requires var a := s.ino[i].addrs[NDIRECT];
      s2 == s1.(blk := s1.blk[a := PutWord(s1.blk[a], n - NDIRECT, b)], owner := s.owner[b := Data(i, n)], logged := s1.logged + {a})
    ensures MapStep(g, s, s2, i, n, b, [g.MapBlock(b)])
  {
    hide Keeps, Mapped, Gains, Took, FreeCount, PutWord;
    var a := s.ino[i].addrs[NDIRECT];
    assert InodeOk(s.blk, s.owner, s.ino[i], i);
    OwnBlocks(g, s, s1, i);
    BlockOfSame(s.blk, s1.blk, s.ino[i], n);
    EntryGains(s1.blk, s.ino, s.owner, i, n, b);
    LogsSelf(g, s1.blk, s1.logged);
    LogsPut(g, s1.blk, s1.logged, s1.blk, s1.logged, a, s2.blk[a]);
    Gained(g, s, s1, s2, i, n, b);
    MapBlockOk(g, b);
    AddsTwo(s.logged, s2.logged, g.MapBlock(b), b, s.ino[i]);
    TookOne(s, s2, i, n, b);
  }

  lemma TookOne(s: Snapshot, s': Snapshot, i: nat, n: nat, b: nat)
    requires i < |s.ino| == |s'.ino| && n < MAXFILE && Mapped(s.blk, s.ino[i], s'.blk, s'.ino[i], n, b)
    requires BlockOf(s.blk, s.ino[i], n) == 0 && FreeCount(s.bits) == FreeCount(s'.bits) + 1
    requires s'.ino[i].addrs[NDIRECT] == s.ino[i].addrs[NDIRECT]
    requires n >= NDIRECT ==> s.ino[i].addrs[NDIRECT] != 0 && s'.ino == s.ino
    ensures Took(s, s', i, n)
  {
  }

  /** The indirect block counts among what block `n` needs. */
  lemma IndirectNeeds(s: Snapshot, i: nat, n: nat)
    requires i < |s.ino| && Shaped(s.ino[i]) && NDIRECT <= n < MAXFILE
    ensures s.ino[i].addrs[NDIRECT] == 0 ==> Needs(s.blk, s.ino[i], n) == 2
  {
  }

  lemma IndirectShort(g: Geometry, s: Snapshot, s1: Snapshot, i: nat, n: nat, a: nat, maps: seq<nat>)
    requires IndirectStep(g, s, s1, i, a, maps) && NDIRECT <= n < MAXFILE && FreeCount(s1.bits) < Needs(s1.blk, s1.ino[i], n)
    ensures FreeCount(s.bits) < Needs(s.blk, s.ino[i], n)
  {
  }

  /** An indirect block, if there was none, and then an entry in it. */
  lemma MapBoth(g: Geometry, s: Snapshot, s1: Snapshot, s2: Snapshot, i: nat, n: nat, addr: nat, a: nat, maps1: seq<nat>, maps2: seq<nat>)
    requires IndirectStep(g, s, s1, i, a, maps1) && MapStep(g, s1, s2, i, n, addr, maps2) && n >= NDIRECT
    ensures MapStep(g, s, s2, i, n, addr, maps1 + maps2)
  {
    KeepsTrans(g, s, s1, s2, i);
    AddsTwice(s.logged, s1.logged, s2.logged, maps1, maps2, addr, s2.ino[i]);
  }

  /** One turn of `writei`: `bs` is written at `o`, into a block that `bmap` has found
      or made. */
  ghost predicate TurnStep(g: Geometry, s: Snapshot, s': Snapshot, i: nat, o: nat, bs: seq<Byte>, addr: nat, maps: seq<nat>) {
    && Sound(g, s', {}) && i < |s.ino| == |s'.ino| && Keeps(g, s, s', i)
    && Turned(s.blk, s.ino[i], s'.blk, s'.ino[i], o, bs) && g.datastart <= addr
    && Took(s, s', i, o / BSIZE)
    && (s.ino[i].addrs[NDIRECT] != 0 ==> s'.ino[i].addrs[NDIRECT] == s.ino[i].addrs[NDIRECT])
    && InBitmap(g, maps) && |maps| <= Needs(s.blk, s.ino[i], o / BSIZE) && Adds(s.logged, s'.logged, maps, [addr], s'.ino[i])
  }

  lemma TurnOk(g: Geometry, s: Snapshot, s1: Snapshot, s2: Snapshot, i: nat, o: nat, bs: seq<Byte>, addr: nat, maps: seq<nat>)
    requires o < MAXFILE * BSIZE && o % BSIZE + |bs| <= BSIZE && MapStep(g, s, s1, i, o / BSIZE, addr, maps)
    requires s2 == s1.(blk := s1.blk[addr := PutSlice(s1.blk[addr], o % BSIZE, bs)], logged := s1.logged + {addr})
    ensures TurnStep(g, s, s2, i, o, bs, addr, maps)
  {
    PutSliceBytes(g, s1.bits, s1.blk, s1.ino, s1.owner, i, o, bs);
    PutBlockOk(g, s1.bits, s1.blk, s1.ino, s1.owner, {}, addr, s2.blk[addr], i);
    DecodesStays(g, s1.blk, s2.blk, s1.bits);
    LogsPut(g, s1.blk, s1.logged, s1.blk, s1.logged, addr, s2.blk[addr]);
    KeepsTrans(g, s, s1, s2, i);
    TookPut(s, s1, s2, i, o / BSIZE);
  }

  /** Storing into a data block moves no block. */
  lemma TookPut(s: Snapshot, s1: Snapshot, s2: Snapshot, i: nat, n: nat)
    requires Took(s, s1, i, n) && s2.bits == s1.bits && s2.ino == s1.ino
    requires forall m: nat :: m < MAXFILE ==> BlockOf(s2.blk, s1.ino[i], m) == BlockOf(s1.blk, s1.ino[i], m)
    ensures Took(s, s2, i, n)
  {
  }

  /** `bs` is written at `o`, within one block, which is there afterwards. */
  ghost predicate Turned(blk: Blocks, ip: Inode, blk': Blocks, ip': Inode, o: nat, bs: seq<Byte>) {
    && Shaped(ip) && Shaped(ip') && ip' == ip.(addrs := ip'.addrs) && o < MAXFILE * BSIZE
    && (forall m: nat :: m < MAXFILE && m != o / BSIZE ==> BlockOf(blk', ip', m) == BlockOf(blk, ip, m))
    && BlockOf(blk', ip', o / BSIZE) != 0
    && (forall j: nat :: j < MAXFILE * BSIZE ==> ByteAt(blk', ip', j) == if o <= j < o + |bs| then bs[j - o] else ByteAt(blk, ip, j))
  }

  /** Beyond `logged`, only the listed blocks and the indirect block were logged. */
  ghost predicate Adds(logged: set<nat>, logged': set<nat>, maps: seq<nat>, datas: seq<nat>, ip: Inode)
    requires Shaped(ip)
  {
    forall x :: x in logged' ==> x in logged || x in maps || x in datas || x == ip.addrs[NDIRECT] != 0
  }

  /** A bitmap block and a data block. */
  lemma AddsTwo(logged: set<nat>, logged': set<nat>, m: nat, b: nat, ip: Inode)
    requires Shaped(ip) && forall x :: x in logged' ==> x in logged || x == m || x == b || x == ip.addrs[NDIRECT] != 0
    ensures Adds(logged, logged', [m], [b], ip)
  {
  }

  lemma AddsTwice(logged: set<nat>, logged1: set<nat>, logged2: set<nat>, maps1: seq<nat>, maps2: seq<nat>, addr: nat, ip: Inode)
    requires Shaped(ip) && Adds(logged, logged1, maps1, [], ip) && Adds(logged1, logged2, maps2, [addr], ip)
    ensures Adds(logged, logged2, maps1 + maps2, [addr], ip)
  {
    forall x | x in logged2 ensures x in logged || x in maps1 + maps2 || x in [addr] || x == ip.addrs[NDIRECT] != 0 {
      assert x in maps1 || x in maps2 ==> x in maps1 + maps2;
    }
  }

  ghost predicate InBitmap(g: Geometry, maps: seq<nat>) {
    forall m :: m in maps ==> g.bmapstart <= m < g.bmapstart + BitmapBlocks(g)
  }

  /** A file has the same blocks and the same bytes. */
  ghost predicate SameFile(blk: Blocks, ip: Inode, blk': Blocks, ip': Inode) {
    && Shaped(ip) && Shaped(ip') && ip' == ip.(addrs := ip'.addrs)
    && (forall m: nat :: m < MAXFILE ==> BlockOf(blk', ip', m) == BlockOf(blk, ip, m))
    && (forall j: nat :: j < MAXFILE * BSIZE ==> ByteAt(blk', ip', j) == ByteAt(blk, ip, j))
  }

  lemma IndirectSame(blk: Blocks, owner: Owners, ip: Inode, blk': Blocks, i: nat, a: nat)
    requires InodeOk(blk, owner, ip, i) && |blk'| == |blk| && ip.addrs[NDIRECT] == 0 && a < |blk| && blk'[a] == ZeroBytes()
    requires forall c :: c in owner && owner[c].i == i ==> c < |blk| && blk'[c] == blk[c]
    ensures SameFile(blk, ip, blk', PutAddr(ip, NDIRECT, a))
  {
    forall j: nat | j < MAXFILE * BSIZE ensures ByteAt(blk', PutAddr(ip, NDIRECT, a), j) == ByteAt(blk, ip, j) {
      var c := BlockOf(blk, ip, j / BSIZE);
      assert BlockOf(blk', PutAddr(ip, NDIRECT, a), j / BSIZE) == c;
      if c != 0 {
        assert owner[c] == Data(i, j / BSIZE);
      }
    }
  }

  lemma NoBlocks(blk: Blocks, owner: Owners, i: nat)
    ensures var ip := Inode(0, 0, 0, NoAddrs); InodeOk(blk, owner, ip, i) && HoleFree(blk, ip)
  {
    forall n: nat | n < MAXFILE ensures BlockOf(blk, Inode(0, 0, 0, NoAddrs), n) == 0 {
    }
  }

  lemma ZeroDecodes(g: Geometry, blk: Blocks, bits: seq<bool>)
    requires g.Ok() && |blk| == |bits| == g.size
    requires forall c: nat :: c < g.size ==> blk[c] == ZeroBytes() && !bits[c]
    ensures Decodes(g, blk, bits)
  {
    forall b: nat | b < g.size ensures Marked(g, blk, b) == bits[b] {
      MapBlockOk(g, b);
      BitAtZero(b % BPB % 8);
    }
    DecodesFrom(g, blk, bits);
  }
}
