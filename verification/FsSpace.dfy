/** How many free blocks a file takes while it is read or written (`bmap`, `balloc`
    in src/fs.c), and which calls change the inode in memory. */
module FreeSpace {
  import opened Arith
  import opened Params
  import opened FsModel

  /** No block is free. */
  ghost predicate Full(bits: seq<bool>) {
    forall c :: 0 <= c < |bits| ==> bits[c]
  }

  ghost function FreeBlocks(bits: seq<bool>): set<nat> {
    set b: nat | b < |bits| && !bits[b]
  }

  ghost function FreeCount(bits: seq<bool>): nat {
    |FreeBlocks(bits)|
  }

  lemma MarkCount(bits: seq<bool>, b: nat)
    requires b < |bits| && !bits[b]
    ensures FreeCount(bits) == FreeCount(bits[b := true]) + 1
  {
    assert FreeBlocks(bits[b := true]) == FreeBlocks(bits) - {b};
  }

  lemma FullCount(bits: seq<bool>)
    ensures FreeCount(bits) == 0 <==> Full(bits)
  {
    assert Full(bits) ==> FreeBlocks(bits) == {};
    if !Full(bits) {
      var b :| 0 <= b < |bits| && !bits[b];
      assert b in FreeBlocks(bits);
    }
  }

  // ----------------------------------------------------------------- one block

  /** Blocks that `bmap` has to allocate for block `n` of a file: itself, and the
      indirect block. */
  function Needs(blk: Blocks, ip: Inode, n: nat): nat
    requires Shaped(ip) && n < MAXFILE
  {
    (if BlockOf(blk, ip, n) == 0 then 1 else 0) + if n >= NDIRECT && ip.addrs[NDIRECT] == 0 then 1 else 0
  }

  /** Inode `ip'` on `blk'` has the blocks of `ip` on `blk`, and block `n`. */
  ghost predicate HasAlso(blk: Blocks, ip: Inode, blk': Blocks, ip': Inode, n: nat)
    requires Shaped(ip) && Shaped(ip')
  {
    forall m: nat :: m < MAXFILE ==> (BlockOf(blk', ip', m) != 0 <==> BlockOf(blk, ip, m) != 0 || m == n)
  }

  /** From `s` to `s'`, `bmap` found or made block `n` of file `i`: it took as many
      free blocks as were missing, and left the inode alone if its entry was set. */
  ghost predicate Took(s: Snapshot, s': Snapshot, i: nat, n: nat) {
    && i < |s.ino| == |s'.ino| && Shaped(s.ino[i]) && Shaped(s'.ino[i]) && n < MAXFILE
    && FreeCount(s.bits) == FreeCount(s'.bits) + Needs(s.blk, s.ino[i], n)
    && HasAlso(s.blk, s.ino[i], s'.blk, s'.ino[i], n)
    && (s'.ino[i].addrs[NDIRECT] != 0 <==> s.ino[i].addrs[NDIRECT] != 0 || n >= NDIRECT)
    && (s.ino[i].addrs[SlotOf(n)] != 0 ==> s'.ino == s.ino)
  }

  /** It did change the inode if the entry was not set. */
  lemma TookChanges(s: Snapshot, s': Snapshot, i: nat, n: nat)
    requires Took(s, s', i, n)
    ensures s'.ino == s.ino <==> s.ino[i].addrs[SlotOf(n)] != 0
  {
    assert BlockOf(s'.blk, s'.ino[i], n) != 0;
  }

  // --------------------------------------------------------------- many blocks

  /** Blocks of a file from `lo` up to `hi` that are not there. */
  ghost function MissingIn(blk: Blocks, ip: Inode, lo: nat, hi: nat): nat
    requires Shaped(ip) && hi <= MAXFILE
  {
    if hi <= lo then 0 else MissingIn(blk, ip, lo, hi - 1) + if BlockOf(blk, ip, hi - 1) == 0 then 1 else 0
  }

  /** The block behind the `n` bytes from `off` on. */
  function EndBlock(off: nat, n: nat): nat {
    if n == 0 then off / BSIZE else (off + n - 1) / BSIZE + 1
  }

  /** The bytes reach the blocks behind the indirect block. */
  predicate GoesIndirect(off: nat, n: nat) {
    n > 0 && off + n > NDIRECT * BSIZE
  }

  lemma EndBlockFits(off: nat, n: nat)
    requires off + n <= MAXFILE * BSIZE
    ensures EndBlock(off, n) <= MAXFILE
  {
  }

  /** Blocks that must be allocated to have all blocks of the `n` bytes from `off`
      on. */
  ghost function NeedsFor(blk: Blocks, ip: Inode, off: nat, n: nat): nat
    requires Shaped(ip) && off + n <= MAXFILE * BSIZE
  {
    EndBlockFits(off, n);
    MissingIn(blk, ip, off / BSIZE, EndBlock(off, n)) + if GoesIndirect(off, n) && ip.addrs[NDIRECT] == 0 then 1 else 0
  }

  /** Every block of the bytes is led to by an entry of the inode that is set. */
  ghost predicate SlotsSet(ip: Inode, off: nat, n: nat)
    requires Shaped(ip)
  {
    forall m: nat :: m < MAXFILE && Reached(off, n, m) ==> ip.addrs[SlotOf(m)] != 0
  }

  /** From `s` to `s'` file `i` was given the blocks of the `n` bytes from `off` on. */
  ghost predicate Spent(s: Snapshot, s': Snapshot, i: nat, off: nat, n: nat) {
    && i < |s.ino| == |s'.ino| && Shaped(s.ino[i]) && Shaped(s'.ino[i]) && off + n <= MAXFILE * BSIZE
    && FreeCount(s.bits) == FreeCount(s'.bits) + NeedsFor(s.blk, s.ino[i], off, n)
    && (forall m: nat :: m < MAXFILE ==> (BlockOf(s'.blk, s'.ino[i], m) != 0 <==> BlockOf(s.blk, s.ino[i], m) != 0 || Reached(off, n, m)))
    && (s'.ino[i].addrs[NDIRECT] != 0 <==> s.ino[i].addrs[NDIRECT] != 0 || GoesIndirect(off, n))
    && (SlotsSet(s.ino[i], off, n) ==> s'.ino[i] == s.ino[i])
  }

  lemma SpentNothing(s: Snapshot, i: nat, off: nat)
    requires i < |s.ino| && Shaped(s.ino[i]) && off <= MAXFILE * BSIZE
    ensures Spent(s, s, i, off, 0)
  {
  }

  /** The inode changed exactly if some entry was not set. */
  lemma SpentChanges(s: Snapshot, s': Snapshot, i: nat, off: nat, n: nat)
    requires Spent(s, s', i, off, n)
    ensures s'.ino[i] == s.ino[i] <==> SlotsSet(s.ino[i], off, n)
  {
    if s'.ino[i] == s.ino[i] {
      forall m: nat | m < MAXFILE && Reached(off, n, m) ensures s.ino[i].addrs[SlotOf(m)] != 0 {
        assert BlockOf(s'.blk, s'.ino[i], m) != 0;
      }
    }
  }

  /** The loops go on at the front of a block, but for the first turn, and do not go
      past its end. */
  predicate NextTurn(off: nat, n: nat, k: nat) {
    && (n == 0 || (off + n) % BSIZE == 0)
    && 0 < k <= BSIZE - (off + n) % BSIZE && off + n + k <= MAXFILE * BSIZE
  }

  lemma TurnReaches(off: nat, n: nat, k: nat)
    requires NextTurn(off, n, k)
    ensures var m := (off + n) / BSIZE;
      && m < MAXFILE && EndBlock(off, n) == m && EndBlock(off, n + k) == m + 1 && off / BSIZE <= m
      && (GoesIndirect(off, n + k) <==> m >= NDIRECT) && (GoesIndirect(off, n) ==> m >= NDIRECT)
      && (forall b: nat :: Reached(off, n + k, b) <==> Reached(off, n, b) || b == m)
      && !Reached(off, n, m)
  {
    var m := (off + n) / BSIZE;
    DivMod(off + n, BSIZE);
    TurnEndsAt(off, n, k, m);
    forall b: nat ensures Reached(off, n + k, b) <==> Reached(off, n, b) || b == m {
      TurnReachesOne(off, n, k, m, b);
    }
    TurnReachesOne(off, n, k, m, m);
  }

  lemma TurnEndsAt(off: nat, n: nat, k: nat, m: nat)
    requires NextTurn(off, n, k) && m == (off + n) / BSIZE && off + n == m * BSIZE + (off + n) % BSIZE
    ensures m < MAXFILE && EndBlock(off, n) == m && EndBlock(off, n + k) == m + 1 && off / BSIZE <= m
    ensures (GoesIndirect(off, n + k) <==> m >= NDIRECT) && (GoesIndirect(off, n) ==> m >= NDIRECT)
  {
    DivIs(off + n + k - 1, BSIZE, m);
    DivMonotone(off, off + n, BSIZE);
    if n > 0 {
      DivIs(off + n - 1, BSIZE, m - 1);
    }
  }

  lemma TurnReachesOne(off: nat, n: nat, k: nat, m: nat, b: nat)
    requires NextTurn(off, n, k) && m == (off + n) / BSIZE && off + n == m * BSIZE + (off + n) % BSIZE
    ensures Reached(off, n + k, b) <==> Reached(off, n, b) || b == m
    ensures !Reached(off, n, m)
  {
    if b < m {
      MulMonotone(b + 1, m, BSIZE);
    } else if b > m {
      MulMonotone(m + 1, b, BSIZE);
    }
  }

  /** What the next turn needs is what the file lacked of it at the start. */
  lemma TurnNeeds(s: Snapshot, s1: Snapshot, i: nat, off: nat, n: nat, k: nat)
    requires Spent(s, s1, i, off, n) && NextTurn(off, n, k)
    ensures (off + n) / BSIZE < MAXFILE
    ensures NeedsFor(s.blk, s.ino[i], off, n + k) == NeedsFor(s.blk, s.ino[i], off, n) + Needs(s1.blk, s1.ino[i], (off + n) / BSIZE)
  {
    TurnReaches(off, n, k);
  }

  lemma TurnSlots(ip: Inode, off: nat, n: nat, k: nat)
    requires Shaped(ip) && NextTurn(off, n, k)
    ensures (off + n) / BSIZE < MAXFILE
    ensures SlotsSet(ip, off, n + k) <==> SlotsSet(ip, off, n) && ip.addrs[SlotOf((off + n) / BSIZE)] != 0
  {
    TurnReaches(off, n, k);
  }

  lemma SpentNext(s: Snapshot, s1: Snapshot, s2: Snapshot, i: nat, off: nat, n: nat, k: nat)
    requires Spent(s, s1, i, off, n) && NextTurn(off, n, k) && Took(s1, s2, i, (off + n) / BSIZE)
    ensures Spent(s, s2, i, off, n + k)
  {
    TurnReaches(off, n, k);
    TurnNeeds(s, s1, i, off, n, k);
    TurnSlots(s.ino[i], off, n, k);
  }

  /** The free blocks do not last if they do not last for the next turn. */
  lemma Short(s: Snapshot, s1: Snapshot, i: nat, off: nat, n: nat, k: nat, all: nat)
    requires Spent(s, s1, i, off, n) && NextTurn(off, n, k) && n + k <= all && off + all <= MAXFILE * BSIZE
    requires (off + n) / BSIZE < MAXFILE && FreeCount(s1.bits) < Needs(s1.blk, s1.ino[i], (off + n) / BSIZE)
    ensures FreeCount(s.bits) < NeedsFor(s.blk, s.ino[i], off, all)
  {
    TurnNeeds(s, s1, i, off, n, k);
    NeedsMore(s.blk, s.ino[i], off, n + k, all);
  }

  lemma NeedsMore(blk: Blocks, ip: Inode, off: nat, n: nat, all: nat)
    requires Shaped(ip) && n <= all && off + all <= MAXFILE * BSIZE
    ensures NeedsFor(blk, ip, off, n) <= NeedsFor(blk, ip, off, all)
  {
    EndBlockFits(off, all);
    if n > 0 {
      DivMonotone(off + n - 1, off + all - 1, BSIZE);
    } else if all > 0 {
      DivMonotone(off, off + all - 1, BSIZE);
    }
    MissingMore(blk, ip, off / BSIZE, EndBlock(off, n), EndBlock(off, all));
  }

  lemma {:induction false} MissingMore(blk: Blocks, ip: Inode, lo: nat, hi: nat, top: nat)
    requires Shaped(ip) && hi <= top <= MAXFILE
    ensures MissingIn(blk, ip, lo, hi) <= MissingIn(blk, ip, lo, top)
  {
    if hi < top {
      MissingMore(blk, ip, lo, hi, top - 1);
    }
  }

  /** A file without holes has all it needs below its size. */
  lemma NothingMissing(blk: Blocks, ip: Inode, off: nat, n: nat)
    requires HoleFree(blk, ip) && off + n <= ip.size
    ensures NeedsFor(blk, ip, off, n) == 0 && SlotsSet(ip, off, n)
  {
    EndBlockFits(off, n);
    if n > 0 {
      DivMod(off + n - 1, BSIZE);
      assert BlockOf(blk, ip, (off + n - 1) / BSIZE) != 0;
    }
    NoneMissing(blk, ip, off / BSIZE, EndBlock(off, n));
  }

  /** A file that has no block at all lacks its first. */
  lemma HoleNeeds(blk: Blocks, ip: Inode)
    requires ip.addrs == NoAddrs
    ensures NeedsFor(blk, ip, 0, 1) == 1 && !SlotsSet(ip, 0, 1)
  {
    assert EndBlock(0, 1) == 1;
    assert MissingIn(blk, ip, 0, 1) == MissingIn(blk, ip, 0, 0) + 1;
    assert Reached(0, 1, 0);
  }

  lemma {:induction false} NoneMissing(blk: Blocks, ip: Inode, lo: nat, hi: nat)
    requires HoleFree(blk, ip) && hi <= MAXFILE && (lo < hi ==> (hi - 1) * BSIZE < ip.size)
    ensures MissingIn(blk, ip, lo, hi) == 0
  {
    if lo < hi {
      NoneMissing(blk, ip, lo, hi - 1);
    }
  }
}
