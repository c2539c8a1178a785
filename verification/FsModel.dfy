/** The file layer of src/fs.c on values: the free-block bitmap, the block map of
    an inode, who owns each data block, and the bytes of a file.

    `blk` holds the latest contents of every block, which is what `bread`
    returns. */
module FsModel {
  import opened Arith
  import opened Bits
  import opened Params

  const NDIRECT := 12
  const NINDIRECT := 128
  const MAXFILE := 140

  /** Bits in a bitmap block, inodes in an inode block. */
  const BPB := 4096
  const IPB := 8

  type Byte = b: int | 0 <= b < 256

  function ZeroBytes(): (r: seq<Byte>)
    ensures |r| == BSIZE && forall i :: 0 <= i < BSIZE ==> r[i] == 0
  {
    seq(BSIZE, _ => 0)
  }

  type Block = b: seq<Byte> | |b| == BSIZE witness ZeroBytes()

  type Blocks = seq<Block>

  // ------------------------------------------------------------------ words

  /** The 32-bit word at index `k`, least significant byte first. */
  function Word(b: Block, k: nat): (w: nat)
    requires k < NINDIRECT
    ensures w < 0x1_0000_0000
  {
    var b0: int, b1: int, b2: int, b3: int := b[4 * k], b[4 * k + 1], b[4 * k + 2], b[4 * k + 3];
    b0 + 0x100 * b1 + 0x1_0000 * b2 + 0x100_0000 * b3
  }

  function PutWord(b: Block, k: nat, w: nat): (r: Block)
    requires k < NINDIRECT && w < 0x1_0000_0000
  {
    b[4 * k := w % 0x100][4 * k + 1 := w / 0x100 % 0x100][4 * k + 2 := w / 0x1_0000 % 0x100][4 * k + 3 := w / 0x100_0000]
  }

  lemma WordBytes(w: nat)
    requires w < 0x1_0000_0000
    ensures w == w % 0x100 + 0x100 * (w / 0x100 % 0x100) + 0x1_0000 * (w / 0x1_0000 % 0x100) + 0x100_0000 * (w / 0x100_0000)
  {
    DivMod(w, 0x100);
    DivMod(w / 0x100, 0x100);
    DivMod(w / 0x1_0000, 0x100);
    assert w / 0x100 / 0x100 == w / 0x1_0000 && w / 0x1_0000 / 0x100 == w / 0x100_0000;
  }

  lemma WordPut(b: Block, k: nat, w: nat, j: nat)
    requires k < NINDIRECT && j < NINDIRECT && w < 0x1_0000_0000
    ensures Word(PutWord(b, k, w), j) == if j == k then w else Word(b, j)
  {
    WordBytes(w);
  }

  // --------------------------------------------------------------- the disk

  /** What the superblock says; data blocks start at `datastart`. */
  datatype Geometry = Geometry(size: nat, ninodes: nat, inodestart: nat, bmapstart: nat, datastart: nat) {
    predicate Ok() {
      && 0 < inodestart <= bmapstart && 0 < datastart <= size < 0x1_0000_0000
      && bmapstart + (size - 1) / BPB < datastart
    }

    /** The inode blocks lie in front of the bitmap. */
    predicate InodesFit() {
      inodestart + ninodes / IPB < bmapstart
    }

    /** BBLOCK */
    function MapBlock(b: nat): nat {
      b / BPB + bmapstart
    }

    /** IBLOCK */
    function InodeBlock(i: nat): nat {
      i / IPB + inodestart
    }
  }

  /** Block `b` is marked in the bitmap. */
  predicate Marked(g: Geometry, blk: Blocks, b: nat)
    requires g.Ok() && |blk| == g.size && b < g.size
  {
    MapBlockOk(g, b);
    BitAt(blk[g.MapBlock(b)][b % BPB / 8], b % BPB % 8)
  }

  lemma MapBlockOk(g: Geometry, b: nat)
    requires g.Ok() && b < g.size
    ensures g.bmapstart <= g.MapBlock(b) < g.datastart && g.MapBlock(b) <= g.bmapstart + (g.size - 1) / BPB
  {
    DivMonotone(b, g.size - 1, BPB);
  }

  lemma InodeBlockOk(g: Geometry, i: nat)
    requires g.Ok() && g.InodesFit() && i < g.ninodes
    ensures g.inodestart <= g.InodeBlock(i) < g.bmapstart < g.size
  {
    DivMonotone(i, g.ninodes, IPB);
  }

  /** The bitmap with the bit of `b` set or cleared. */
  function Mark(g: Geometry, blk: Blocks, b: nat, on: bool): (r: Blocks)
    requires g.Ok() && |blk| == g.size && b < g.size
    ensures |r| == g.size
  {
    MapBlockOk(g, b);
    var m := g.MapBlock(b);
    var k := b % BPB / 8;
    ByteStays(blk[m][k], b % BPB % 8);
    blk[m := blk[m][k := if on then SetBit(blk[m][k], b % BPB % 8) else ClearBit(blk[m][k], b % BPB % 8)]]
  }

  lemma ByteStays(x: Byte, i: nat)
    requires i < 8
    ensures SetBit(x, i) < 256 && ClearBit(x, i) < 256
  {
    assert Pow2(8) == 256 by {
      assert Pow2(4) == 16;
    }
    Pow2Monotone(i, 8);
    OrBelow(x, Pow2(i), 8);
    ComplementBit(8, i, 0);
    AndBelow(x, Pow2(8) - 1 - Pow2(i));
  }

  /** Marking touches the one bit, and nothing but bitmap blocks. */
  lemma MarkIs(g: Geometry, blk: Blocks, b: nat, on: bool, c: nat)
    requires g.Ok() && |blk| == g.size && b < g.size && c < g.size
    ensures Marked(g, Mark(g, blk, b, on), c) <==> if c == b then on else Marked(g, blk, c)
    ensures c >= g.datastart ==> Mark(g, blk, b, on)[c] == blk[c]
  {
    MapBlockOk(g, b);
    MapBlockOk(g, c);
    var x := blk[g.MapBlock(b)][b % BPB / 8];
    SetBitIs(x, b % BPB % 8, c % BPB % 8);
    ClearBitIs(x, b % BPB % 8, c % BPB % 8);
    if g.MapBlock(c) == g.MapBlock(b) && c % BPB / 8 == b % BPB / 8 && c % BPB % 8 == b % BPB % 8 {
      SameBit(b, c);
    }
  }

  lemma SameBit(b: nat, c: nat)
    requires b / BPB == c / BPB && c % BPB / 8 == b % BPB / 8 && c % BPB % 8 == b % BPB % 8
    ensures b == c
  {
    DivMod(b, BPB);
    DivMod(c, BPB);
    DivMod(b % BPB, 8);
    DivMod(c % BPB, 8);
  }

  /** The first `k` bits of the bitmap. */
  ghost function BitsUpTo(g: Geometry, blk: Blocks, k: nat): (r: seq<bool>)
    requires g.Ok() && |blk| == g.size && k <= g.size
    ensures |r| == k
  {
    if k == 0 then [] else BitsUpTo(g, blk, k - 1) + [Marked(g, blk, k - 1)]
  }

  /** Only logged blocks change, and none in front of the inode blocks is logged:
      what the log needs to make the change atomic. */
  ghost predicate Logs(g: Geometry, blk: Blocks, logged: set<nat>, blk': Blocks, logged': set<nat>) {
    && |blk'| == |blk| && logged <= logged'
    && (forall x :: x in logged' ==> x in logged || g.inodestart <= x < g.size)
    && (forall b: nat {:trigger blk'[b]} :: b < |blk| && b !in logged' ==> blk'[b] == blk[b])
  }

  /** Logging one more block, with or without changing it. */
  lemma LogsPut(g: Geometry, blk: Blocks, logged: set<nat>, blk1: Blocks, logged1: set<nat>, b: nat, x: Block)
    requires Logs(g, blk, logged, blk1, logged1) && g.inodestart <= b < g.size == |blk|
    ensures Logs(g, blk, logged, blk1[b := x], logged1 + {b}) && Logs(g, blk, logged, blk1, logged1 + {b})
  {
  }

  lemma LogsSelf(g: Geometry, blk: Blocks, logged: set<nat>)
    ensures Logs(g, blk, logged, blk, logged)
  {
  }

  lemma LogsTrans(g: Geometry, blk: Blocks, logged: set<nat>, blk1: Blocks, logged1: set<nat>, blk2: Blocks, logged2: set<nat>)
    requires Logs(g, blk, logged, blk1, logged1) && Logs(g, blk1, logged1, blk2, logged2)
    ensures Logs(g, blk, logged, blk2, logged2)
  {
  }

  /** `bits` is what the bitmap blocks say. */
  ghost predicate Decodes(g: Geometry, blk: Blocks, bits: seq<bool>) {
    g.Ok() && |blk| == g.size && bits == BitsUpTo(g, blk, g.size)
  }

  lemma {:induction false} BitsUpToAt(g: Geometry, blk: Blocks, k: nat, b: nat)
    requires g.Ok() && |blk| == g.size && b < k <= g.size
    ensures BitsUpTo(g, blk, k)[b] == Marked(g, blk, b)
  {
    if b < k - 1 {
      BitsUpToAt(g, blk, k - 1, b);
    }
  }

  lemma DecodesFrom(g: Geometry, blk: Blocks, bits: seq<bool>)
    requires g.Ok() && |blk| == |bits| == g.size && forall b: nat :: b < g.size ==> Marked(g, blk, b) == bits[b]
    ensures Decodes(g, blk, bits)
  {
    forall b | 0 <= b < |bits| ensures bits[b] == BitsUpTo(g, blk, g.size)[b] {
      BitsUpToAt(g, blk, g.size, b);
    }
  }

  lemma MarkDecodes(g: Geometry, blk: Blocks, bits: seq<bool>, b: nat, on: bool)
    requires Decodes(g, blk, bits) && b < g.size
    ensures Decodes(g, Mark(g, blk, b, on), bits[b := on])
    ensures forall c: nat :: g.datastart <= c < g.size ==> Mark(g, blk, b, on)[c] == blk[c]
  {
    forall c: nat | c < g.size
      ensures Marked(g, Mark(g, blk, b, on), c) == bits[b := on][c] && (c >= g.datastart ==> Mark(g, blk, b, on)[c] == blk[c])
    {
      MarkIs(g, blk, b, on, c);
      BitsUpToAt(g, blk, g.size, c);
    }
    DecodesFrom(g, Mark(g, blk, b, on), bits[b := on]);
  }

  /** The bitmap blocks lie below the data blocks. */
  lemma DecodesStays(g: Geometry, blk: Blocks, blk': Blocks, bits: seq<bool>)
    requires Decodes(g, blk, bits) && |blk'| == |blk| && forall c: nat :: c < g.datastart ==> blk'[c] == blk[c]
    ensures Decodes(g, blk', bits)
  {
    forall b: nat | b < g.size ensures Marked(g, blk', b) == bits[b] {
      MapBlockOk(g, b);
      BitsUpToAt(g, blk, g.size, b);
    }
    DecodesFrom(g, blk', bits);
  }

  // -------------------------------------------------------------- ownership

  /** An inode; the block numbers are NDIRECT direct ones and the indirect block. */
  datatype Inode = Inode(kind: int, nlink: int, size: nat, addrs: seq<nat>)

  /** What a data block is for: block `n` of file `i`, or its indirect block. */
  datatype Slot = Data(i: nat, n: nat) | Indirect(i: nat)

  type Owners = map<nat, Slot>

  predicate Shaped(ip: Inode) {
    |ip.addrs| == NDIRECT + 1
  }

  /** The disk block that holds block `n` of a file, 0 if there is none. */
  function BlockOf(blk: Blocks, ip: Inode, n: nat): nat
    requires Shaped(ip) && n < MAXFILE
  {
    if n < NDIRECT then ip.addrs[n]
    else
      var a := ip.addrs[NDIRECT];
      if a == 0 || a >= |blk| then 0 else Word(blk[a], n - NDIRECT)
  }

  ghost predicate InodeOk(blk: Blocks, owner: Owners, ip: Inode, i: nat) {
    && Shaped(ip)
    && (ip.addrs[NDIRECT] != 0 ==> ip.addrs[NDIRECT] < |blk| && ip.addrs[NDIRECT] in owner && owner[ip.addrs[NDIRECT]] == Indirect(i))
    && forall n: nat :: n < MAXFILE && BlockOf(blk, ip, n) != 0 ==>
         BlockOf(blk, ip, n) in owner && owner[BlockOf(blk, ip, n)] == Data(i, n)
  }

  ghost predicate OwnerOk(g: Geometry, blk: Blocks, ino: seq<Inode>, s: Slot, b: nat) {
    && g.datastart <= b < g.size && s.i < |ino| && Shaped(ino[s.i])
    && match s
       case Data(i, n) => n < MAXFILE && BlockOf(blk, ino[i], n) == b
       case Indirect(i) => ino[i].addrs[NDIRECT] == b
  }

  /** Exactly the metadata blocks, the owned blocks and the `loose` ones, just
      taken by `balloc`, are marked in the bitmap. */
  ghost predicate MapOk(g: Geometry, bits: seq<bool>, owner: Owners, loose: set<nat>) {
    && |bits| == g.size
    && (forall b :: b in loose ==> g.datastart <= b < g.size && b !in owner)
    && (forall b: nat :: b < g.size ==> (bits[b] <==> b < g.datastart || b in owner || b in loose))
  }

  ghost predicate FsOk(g: Geometry, bits: seq<bool>, blk: Blocks, ino: seq<Inode>, owner: Owners, loose: set<nat>) {
    && g.Ok() && |blk| == g.size && |ino| == g.ninodes
    && MapOk(g, bits, owner, loose)
    && (forall b :: b in owner ==> OwnerOk(g, blk, ino, owner[b], b))
    && (forall i: nat :: i < |ino| ==> InodeOk(blk, owner, ino[i], i))
  }

  /** All files but `i` keep their inode, their blocks and what is in them. */
  ghost predicate Others(blk: Blocks, ino: seq<Inode>, owner: Owners, blk': Blocks, ino': seq<Inode>, owner': Owners, i: nat) {
    && |blk'| == |blk| && |ino'| == |ino|
    && (forall k: nat :: k < |ino| && k != i ==> ino'[k] == ino[k])
    && (forall b :: b in owner && owner[b].i != i ==> b in owner' && owner'[b] == owner[b] && b < |blk| && blk'[b] == blk[b])
    && (forall b :: b in owner' && owner'[b].i != i ==> b in owner && owner[b] == owner'[b])
  }

  lemma OthersTrans(blk: Blocks, ino: seq<Inode>, owner: Owners, blk1: Blocks, ino1: seq<Inode>, owner1: Owners,
                    blk2: Blocks, ino2: seq<Inode>, owner2: Owners, i: nat)
    requires Others(blk, ino, owner, blk1, ino1, owner1, i) && Others(blk1, ino1, owner1, blk2, ino2, owner2, i)
    ensures Others(blk, ino, owner, blk2, ino2, owner2, i)
  {
    forall b | b in owner && owner[b].i != i
      ensures b in owner2 && owner2[b] == owner[b] && b < |blk| && blk2[b] == blk[b]
    {
      assert owner1[b] == owner[b];
    }
    forall b | b in owner2 && owner2[b].i != i ensures b in owner && owner[b] == owner2[b] {
      assert owner1[b] == owner2[b];
    }
  }

  /** Changing blocks that are no indirect blocks changes no block map. */
  lemma BlockOfSame(blk: Blocks, blk': Blocks, ip: Inode, n: nat)
    requires Shaped(ip) && n < MAXFILE && |blk'| == |blk|
    requires 0 < ip.addrs[NDIRECT] < |blk| ==> blk'[ip.addrs[NDIRECT]] == blk[ip.addrs[NDIRECT]]
    ensures BlockOf(blk', ip, n) == BlockOf(blk, ip, n)
  {
  }

  lemma InodeStays(blk: Blocks, owner: Owners, blk': Blocks, owner': Owners, ip: Inode, i: nat)
    requires InodeOk(blk, owner, ip, i) && |blk'| == |blk|
    requires 0 < ip.addrs[NDIRECT] ==> blk'[ip.addrs[NDIRECT]] == blk[ip.addrs[NDIRECT]]
    requires forall b :: b in owner && owner[b].i == i ==> b in owner' && owner'[b] == owner[b]
    ensures InodeOk(blk', owner', ip, i)
  {
    forall n: nat | n < MAXFILE && BlockOf(blk', ip, n) != 0
      ensures BlockOf(blk', ip, n) in owner' && owner'[BlockOf(blk', ip, n)] == Data(i, n)
    {
      BlockOfSame(blk, blk', ip, n);
    }
  }

  lemma OwnerStays(g: Geometry, blk: Blocks, ino: seq<Inode>, blk': Blocks, ino': seq<Inode>, s: Slot, b: nat)
    requires OwnerOk(g, blk, ino, s, b) && |blk'| == |blk| && |ino'| == |ino| && ino'[s.i] == ino[s.i]
    requires 0 < ino[s.i].addrs[NDIRECT] < |blk| ==> blk'[ino[s.i].addrs[NDIRECT]] == blk[ino[s.i].addrs[NDIRECT]]
    ensures OwnerOk(g, blk', ino', s, b)
  {
    if s.Data? {
      BlockOfSame(blk, blk', ino[s.i], s.n);
    }
  }

  /** The state of a volume: the bitmap and the owners in the abstract, the blocks,
      the inodes in memory and what was logged. */
  datatype Snapshot = Snapshot(bits: seq<bool>, blk: Blocks, ino: seq<Inode>, owner: Owners, logged: set<nat>)

  /** The bitmap says `bits`, and all is owned as it should be. */
  ghost predicate Sound(g: Geometry, s: Snapshot, loose: set<nat>) {
    Decodes(g, s.blk, s.bits) && FsOk(g, s.bits, s.blk, s.ino, s.owner, loose)
  }

  /** From `s` to `s'` file `i` may have changed and no other, and what changed is
      logged. */
  ghost predicate Keeps(g: Geometry, s: Snapshot, s': Snapshot, i: nat) {
    && Others(s.blk, s.ino, s.owner, s'.blk, s'.ino, s'.owner, i)
    && Logs(g, s.blk, s.logged, s'.blk, s'.logged)
  }

  lemma KeepsTrans(g: Geometry, s: Snapshot, s1: Snapshot, s2: Snapshot, i: nat)
    requires Keeps(g, s, s1, i) && Keeps(g, s1, s2, i)
    ensures Keeps(g, s, s2, i)
  {
    OthersTrans(s.blk, s.ino, s.owner, s1.blk, s1.ino, s1.owner, s2.blk, s2.ino, s2.owner, i);
    LogsTrans(g, s.blk, s.logged, s1.blk, s1.logged, s2.blk, s2.logged);
  }

  lemma KeepsSelf(g: Geometry, s: Snapshot, i: nat)
    requires Sound(g, s, {})
    ensures Keeps(g, s, s, i)
  {
    forall b | b in s.owner ensures b < |s.blk| {
      assert OwnerOk(g, s.blk, s.ino, s.owner[b], b);
    }
  }

  /** The entry of the inode that leads to block `n` of the file. */
  function SlotOf(n: nat): nat {
    if n < NDIRECT then n else NDIRECT
  }

  // -------------------------------------------------------------- operations

  /** New contents for a block of a file, or for one just allocated. */
  lemma PutBlockOk(g: Geometry, bits: seq<bool>, blk: Blocks, ino: seq<Inode>, owner: Owners, loose: set<nat>, b: nat, x: Block, i: nat)
    requires FsOk(g, bits, blk, ino, owner, loose) && (b in loose || (b in owner && owner[b].Data? && owner[b].i == i))
    ensures g.datastart <= b < g.size && FsOk(g, bits, blk[b := x], ino, owner, loose)
    ensures Others(blk, ino, owner, blk[b := x], ino, owner, i)
  {
    if b in owner {
      assert OwnerOk(g, blk, ino, owner[b], b);
    }
    var blk' := blk[b := x];
    forall k: nat | k < |ino| ensures InodeOk(blk', owner, ino[k], k) {
      InodeStays(blk, owner, blk', owner, ino[k], k);
    }
    forall c | c in owner ensures OwnerOk(g, blk', ino, owner[c], c) {
      assert InodeOk(blk, owner, ino[owner[c].i], owner[c].i);
      OwnerStays(g, blk, ino, blk', ino, owner[c], c);
    }
  }

  /** Bitmap blocks are nobody's: changing them leaves all files alone. */
  lemma BitmapOk(g: Geometry, blk: Blocks, blk': Blocks, ino: seq<Inode>, owner: Owners, i: nat)
    requires g.Ok() && |blk| == |blk'| == g.size
    requires forall b :: b in owner ==> OwnerOk(g, blk, ino, owner[b], b)
    requires forall k: nat :: k < |ino| ==> InodeOk(blk, owner, ino[k], k)
    requires forall c: nat :: g.datastart <= c < g.size ==> blk'[c] == blk[c]
    ensures forall b :: b in owner ==> OwnerOk(g, blk', ino, owner[b], b)
    ensures forall k: nat :: k < |ino| ==> InodeOk(blk', owner, ino[k], k)
    ensures Others(blk, ino, owner, blk', ino, owner, i)
  {
    forall k: nat | k < |ino| ensures InodeOk(blk', owner, ino[k], k) {
      if ino[k].addrs[NDIRECT] != 0 {
        assert OwnerOk(g, blk, ino, Indirect(k), ino[k].addrs[NDIRECT]);
      }
      InodeStays(blk, owner, blk', owner, ino[k], k);
    }
    forall c | c in owner ensures OwnerOk(g, blk', ino, owner[c], c) {
      assert OwnerOk(g, blk, ino, owner[c], c);
      assert InodeOk(blk, owner, ino[owner[c].i], owner[c].i);
      if ino[owner[c].i].addrs[NDIRECT] != 0 {
        assert OwnerOk(g, blk, ino, Indirect(owner[c].i), ino[owner[c].i].addrs[NDIRECT]);
      }
      OwnerStays(g, blk, ino, blk', ino, owner[c], c);
    }
  }

  /** Marking a free block. */
  lemma MarkOk(g: Geometry, bits: seq<bool>, blk: Blocks, blk': Blocks, ino: seq<Inode>, owner: Owners, loose: set<nat>, b: nat, i: nat)
    requires FsOk(g, bits, blk, ino, owner, loose) && b < g.size && !bits[b]
    requires |blk'| == |blk| && forall c: nat :: g.datastart <= c < g.size ==> blk'[c] == blk[c]
    ensures FsOk(g, bits[b := true], blk', ino, owner, loose + {b})
    ensures Others(blk, ino, owner, blk', ino, owner, i)
  {
    BitmapOk(g, blk, blk', ino, owner, i);
  }

  function PutAddr(ip: Inode, k: nat, b: nat): (r: Inode)
    requires Shaped(ip) && k <= NDIRECT
    ensures Shaped(r)
  {
    ip.(addrs := ip.addrs[k := b])
  }

  /** File `i` gains block `b` as its block `n`, and nothing else changes. */
  ghost predicate Gains(blk: Blocks, ino: seq<Inode>, owner: Owners, blk': Blocks, ino': seq<Inode>, i: nat, n: nat, b: nat) {
    && |blk'| == |blk| && |ino'| == |ino| && i < |ino| && n < MAXFILE && b != 0
    && (forall k: nat :: k < |ino| && k != i ==> ino'[k] == ino[k])
    && Shaped(ino[i]) && Shaped(ino'[i]) && ino'[i].addrs[NDIRECT] == ino[i].addrs[NDIRECT]
    && (forall m: nat :: m < MAXFILE ==> BlockOf(blk', ino'[i], m) == if m == n then b else BlockOf(blk, ino[i], m))
    && (forall c: nat :: c < |blk| && c != ino[i].addrs[NDIRECT] ==> blk'[c] == blk[c])
    && BlockOf(blk, ino[i], n) == 0
  }

  lemma GainsOwner(g: Geometry, blk: Blocks, ino: seq<Inode>, owner: Owners, blk': Blocks, ino': seq<Inode>, i: nat, n: nat, b: nat, c: nat)
    requires Gains(blk, ino, owner, blk', ino', i, n, b) && g.Ok() && |blk| == g.size
    requires c in owner && OwnerOk(g, blk, ino, owner[c], c) && InodeOk(blk, owner, ino[owner[c].i], owner[c].i)
    requires ino[i].addrs[NDIRECT] != 0 ==> ino[i].addrs[NDIRECT] in owner && owner[ino[i].addrs[NDIRECT]] == Indirect(i)
    ensures OwnerOk(g, blk', ino', owner[c], c)
  {
    if owner[c].i != i {
      OwnerStays(g, blk, ino, blk', ino', owner[c], c);
    }
  }

  lemma GainsInode(blk: Blocks, ino: seq<Inode>, owner: Owners, blk': Blocks, ino': seq<Inode>, i: nat, n: nat, b: nat, k: nat)
    requires Gains(blk, ino, owner, blk', ino', i, n, b) && k < |ino| && b !in owner
    requires InodeOk(blk, owner, ino[i], i) && InodeOk(blk, owner, ino[k], k)
    ensures InodeOk(blk', owner[b := Data(i, n)], ino'[k], k)
  {
    if k != i {
      InodeStays(blk, owner, blk', owner[b := Data(i, n)], ino[k], k);
    }
  }

  lemma GainsOthers(blk: Blocks, ino: seq<Inode>, owner: Owners, blk': Blocks, ino': seq<Inode>, i: nat, n: nat, b: nat)
    requires Gains(blk, ino, owner, blk', ino', i, n, b) && b !in owner && InodeOk(blk, owner, ino[i], i)
    requires forall c :: c in owner ==> c < |blk|
    requires 0 !in owner
    ensures Others(blk, ino, owner, blk', ino', owner[b := Data(i, n)], i)
  {
  }

  lemma GainsOk(g: Geometry, bits: seq<bool>, blk: Blocks, ino: seq<Inode>, owner: Owners, loose: set<nat>, blk': Blocks, ino': seq<Inode>, i: nat, n: nat, b: nat)
    requires FsOk(g, bits, blk, ino, owner, loose) && Gains(blk, ino, owner, blk', ino', i, n, b) && b in loose
    ensures FsOk(g, bits, blk', ino', owner[b := Data(i, n)], loose - {b})
    ensures Others(blk, ino, owner, blk', ino', owner[b := Data(i, n)], i)
  {
    assert InodeOk(blk, owner, ino[i], i);
    if ino[i].addrs[NDIRECT] != 0 {
      assert OwnerOk(g, blk, ino, Indirect(i), ino[i].addrs[NDIRECT]);
    }
    forall k: nat | k < |ino'| ensures InodeOk(blk', owner[b := Data(i, n)], ino'[k], k) {
      GainsInode(blk, ino, owner, blk', ino', i, n, b, k);
    }
    forall c | c in owner ensures OwnerOk(g, blk', ino', owner[c], c) && 0 < c < |blk| {
      assert OwnerOk(g, blk, ino, owner[c], c);
      GainsOwner(g, blk, ino, owner, blk', ino', i, n, b, c);
    }
    assert OwnerOk(g, blk', ino', Data(i, n), b) by {
      assert BlockOf(blk', ino'[i], n) == b;
    }
    GainsOthers(blk, ino, owner, blk', ino', i, n, b);
  }

  lemma DirectGains(blk: Blocks, ino: seq<Inode>, owner: Owners, i: nat, n: nat, b: nat)
    requires i < |ino| && Shaped(ino[i]) && n < NDIRECT && ino[i].addrs[n] == 0 && b != 0
    ensures Gains(blk, ino, owner, blk, ino[i := PutAddr(ino[i], n, b)], i, n, b)
  {
  }

  lemma EntryGains(blk: Blocks, ino: seq<Inode>, owner: Owners, i: nat, n: nat, b: nat)
    requires i < |ino| && Shaped(ino[i]) && NDIRECT <= n < MAXFILE && 0 < ino[i].addrs[NDIRECT] < |blk|
    requires BlockOf(blk, ino[i], n) == 0 && 0 < b < 0x1_0000_0000
    ensures var a := ino[i].addrs[NDIRECT]; Gains(blk, ino, owner, blk[a := PutWord(blk[a], n - NDIRECT, b)], ino, i, n, b)
  {
    var a := ino[i].addrs[NDIRECT];
    var blk' := blk[a := PutWord(blk[a], n - NDIRECT, b)];
    forall m: nat | m < MAXFILE ensures BlockOf(blk', ino[i], m) == if m == n then b else BlockOf(blk, ino[i], m) {
      if m >= NDIRECT {
        WordPut(blk[a], n - NDIRECT, b, m - NDIRECT);
      }
    }
  }

  /** A new indirect block maps nothing. */
  lemma AddIndirectOk(g: Geometry, bits: seq<bool>, blk: Blocks, ino: seq<Inode>, owner: Owners, loose: set<nat>, i: nat, b: nat)
    requires FsOk(g, bits, blk, ino, owner, loose) && i < |ino| && ino[i].addrs[NDIRECT] == 0 && b in loose && blk[b] == ZeroBytes()
    ensures FsOk(g, bits, blk, ino[i := PutAddr(ino[i], NDIRECT, b)], owner[b := Indirect(i)], loose - {b})
    ensures Others(blk, ino, owner, blk, ino[i := PutAddr(ino[i], NDIRECT, b)], owner[b := Indirect(i)], i)
    ensures forall m: nat :: m < MAXFILE ==> BlockOf(blk, PutAddr(ino[i], NDIRECT, b), m) == BlockOf(blk, ino[i], m)
  {
    var ino', owner' := ino[i := PutAddr(ino[i], NDIRECT, b)], owner[b := Indirect(i)];
    forall m: nat | m < MAXFILE ensures BlockOf(blk, ino'[i], m) == BlockOf(blk, ino[i], m) {
    }
    forall k: nat | k < |ino'| ensures InodeOk(blk, owner', ino'[k], k) {
      assert InodeOk(blk, owner, ino[k], k);
      if k != i {
        InodeStays(blk, owner, blk, owner', ino[k], k);
      }
    }
    forall c | c in owner' ensures OwnerOk(g, blk, ino', owner'[c], c) {
      if c != b {
        assert OwnerOk(g, blk, ino, owner[c], c);
      }
    }
  }

  /** The owners without file `i`. */
  ghost function Without(owner: Owners, i: nat): (r: Owners)
    ensures forall b :: b in r <==> b in owner && owner[b].i != i
    ensures forall b :: b in r ==> r[b] == owner[b]
  {
    map b | b in owner && owner[b].i != i :: owner[b]
  }

  const NoAddrs: seq<nat> := [0, 0, 0, 0, 0, 0, 0, 0, 0, 0, 0, 0, 0]

  function Truncated(ip: Inode): Inode {
    ip.(size := 0, addrs := NoAddrs)
  }

  /** An inode of an empty file without blocks. */
  predicate Emptied(ip: Inode) {
    ip.size == 0 && |ip.addrs| == NDIRECT + 1 && forall k :: 0 <= k <= NDIRECT ==> ip.addrs[k] == 0
  }

  lemma TruncatedEmptied(ip: Inode)
    ensures Emptied(Truncated(ip))
  {
  }

  /** Unmarking exactly the blocks of file `i` and forgetting them. */
  lemma TruncateOk(g: Geometry, bits: seq<bool>, blk: Blocks, ino: seq<Inode>, owner: Owners, bits': seq<bool>, blk': Blocks, i: nat)
    requires FsOk(g, bits, blk, ino, owner, {}) && i < |ino| && |blk'| == |blk| == |bits'|
    requires forall c: nat :: g.datastart <= c < g.size ==> blk'[c] == blk[c]
    requires forall c: nat :: c < g.size ==> (bits'[c] <==> bits[c] && !(c in owner && owner[c].i == i))
    ensures FsOk(g, bits', blk', ino[i := Truncated(ino[i])], Without(owner, i), {})
    ensures Others(blk, ino, owner, blk', ino[i := Truncated(ino[i])], Without(owner, i), i)
  {
    BitmapOk(g, blk, blk', ino, owner, i);
    var ino', owner' := ino[i := Truncated(ino[i])], Without(owner, i);
    forall k: nat | k < |ino'| ensures InodeOk(blk', owner', ino'[k], k) {
      if k != i {
        InodeStays(blk', owner, blk', owner', ino[k], k);
      }
    }
    forall c | c in owner' ensures OwnerOk(g, blk', ino', owner'[c], c) {
      assert OwnerOk(g, blk', ino, owner[c], c);
    }
    forall c | c in owner ensures c >= g.datastart {
      assert OwnerOk(g, blk, ino, owner[c], c);
    }
  }

  // ------------------------------------------------------------------ bytes

  /** Byte `j` of a file. */
  function ByteAt(blk: Blocks, ip: Inode, j: nat): Byte
    requires Shaped(ip) && j < MAXFILE * BSIZE
  {
    var b := BlockOf(blk, ip, j / BSIZE);
    if 0 < b < |blk| then blk[b][j % BSIZE] else 0
  }

  predicate Sized(ip: Inode) {
    Shaped(ip) && ip.size <= MAXFILE * BSIZE
  }

  /** Every block below the file's size is there. */
  ghost predicate HoleFree(blk: Blocks, ip: Inode) {
    && Sized(ip)
    && forall n: nat :: n * BSIZE < ip.size ==> n < MAXFILE && BlockOf(blk, ip, n) != 0
  }

  /** What a file holds; a block that is not there holds zeros. */
  function File(blk: Blocks, ip: Inode): (r: seq<Byte>)
    requires Sized(ip)
    ensures |r| == ip.size && forall j :: 0 <= j < |r| ==> r[j] == ByteAt(blk, ip, j)
  {
    seq(ip.size, j requires 0 <= j < ip.size => ByteAt(blk, ip, j))
  }

  /** Files keep their bytes while another file changes. */
  lemma OthersFile(g: Geometry, bits: seq<bool>, blk: Blocks, ino: seq<Inode>, owner: Owners, blk': Blocks, ino': seq<Inode>, owner': Owners, i: nat, k: nat)
    requires FsOk(g, bits, blk, ino, owner, {}) && Others(blk, ino, owner, blk', ino', owner', i) && k < |ino| && k != i
    requires Sized(ino[k])
    ensures ino'[k] == ino[k] && File(blk', ino[k]) == File(blk, ino[k])
    ensures HoleFree(blk, ino[k]) ==> HoleFree(blk', ino[k])
  {
    assert InodeOk(blk, owner, ino[k], k);
    forall n: nat | n < MAXFILE
      ensures BlockOf(blk', ino[k], n) == BlockOf(blk, ino[k], n)
      ensures 0 < BlockOf(blk, ino[k], n) < |blk| ==> blk'[BlockOf(blk, ino[k], n)] == blk[BlockOf(blk, ino[k], n)]
    {
      BlockOfSame(blk, blk', ino[k], n);
    }
  }

  /** `bmap` found or made block `n` of a file at `addr`; no byte of the file
      changed, since a new block is zero. */
  ghost predicate Mapped(blk: Blocks, ip: Inode, blk': Blocks, ip': Inode, n: nat, addr: nat) {
    && Shaped(ip) && Shaped(ip') && n < MAXFILE && ip' == ip.(addrs := ip'.addrs)
    && 0 < addr < |blk'| && BlockOf(blk', ip', n) == addr
    && (forall m: nat :: m < MAXFILE && m != n ==> BlockOf(blk', ip', m) == BlockOf(blk, ip, m))
    && (forall j: nat :: j < MAXFILE * BSIZE ==> ByteAt(blk', ip', j) == ByteAt(blk, ip, j))
  }

  lemma GainsMapped(blk: Blocks, owner: Owners, ino: seq<Inode>, blk1: Blocks, blk2: Blocks, ino2: seq<Inode>, i: nat, n: nat, b: nat)
    requires i < |ino| && InodeOk(blk, owner, ino[i], i) && |blk1| == |blk| && 0 < b < |blk| && b !in owner
    requires forall c :: c in owner && owner[c].i == i ==> c < |blk| && blk1[c] == blk[c]
    requires blk1[b] == ZeroBytes() && Gains(blk1, ino, owner, blk2, ino2, i, n, b)
    requires ino2[i] == ino[i].(addrs := ino2[i].addrs) && b != ino[i].addrs[NDIRECT]
    ensures Mapped(blk, ino[i], blk2, ino2[i], n, b)
  {
    forall m: nat | m < MAXFILE && m != n ensures BlockOf(blk2, ino2[i], m) == BlockOf(blk, ino[i], m) {
      BlockOfSame(blk, blk1, ino[i], m);
    }
    BlockOfSame(blk, blk1, ino[i], n);
    forall j: nat | j < MAXFILE * BSIZE ensures ByteAt(blk2, ino2[i], j) == ByteAt(blk, ino[i], j) {
      var c := BlockOf(blk, ino[i], j / BSIZE);
      if j / BSIZE != n && c != 0 {
        assert owner[c] == Data(i, j / BSIZE);
      }
    }
  }

  /** `memmove` into a block. */
  function PutSlice(b: Block, at: nat, bs: seq<Byte>): (r: Block)
    requires at + |bs| <= BSIZE
  {
    b[..at] + bs + b[at + |bs|..]
  }

  /** Writing into block `o / BSIZE` of a file changes just those bytes. */
  lemma PutSliceBytes(g: Geometry, bits: seq<bool>, blk: Blocks, ino: seq<Inode>, owner: Owners, i: nat, o: nat, bs: seq<Byte>)
    requires FsOk(g, bits, blk, ino, owner, {}) && i < |ino| && o < MAXFILE * BSIZE && o % BSIZE + |bs| <= BSIZE
    requires BlockOf(blk, ino[i], o / BSIZE) != 0
    ensures var b := BlockOf(blk, ino[i], o / BSIZE); g.datastart <= b < |blk| && b in owner && owner[b] == Data(i, o / BSIZE)
    ensures var b := BlockOf(blk, ino[i], o / BSIZE);
      var blk' := blk[b := PutSlice(blk[b], o % BSIZE, bs)];
      && (forall n: nat :: n < MAXFILE ==> BlockOf(blk', ino[i], n) == BlockOf(blk, ino[i], n))
      && (forall j: nat :: j < MAXFILE * BSIZE ==> ByteAt(blk', ino[i], j) == if o <= j < o + |bs| then bs[j - o] else ByteAt(blk, ino[i], j))
  {
    assert InodeOk(blk, owner, ino[i], i);
    var b := BlockOf(blk, ino[i], o / BSIZE);
    assert OwnerOk(g, blk, ino, owner[b], b);
    var blk' := blk[b := PutSlice(blk[b], o % BSIZE, bs)];
    forall n: nat | n < MAXFILE ensures BlockOf(blk', ino[i], n) == BlockOf(blk, ino[i], n) {
      BlockOfSame(blk, blk', ino[i], n);
    }
    forall j: nat | j < MAXFILE * BSIZE
      ensures ByteAt(blk', ino[i], j) == if o <= j < o + |bs| then bs[j - o] else ByteAt(blk, ino[i], j)
    {
      var c := BlockOf(blk, ino[i], j / BSIZE);
      if c != 0 {
        assert owner[c] == Data(i, j / BSIZE);
      }
    }
  }

  /** A byte array with `src` written over it from `off` on, growing at its end. */
  function Splice(f: seq<Byte>, off: nat, src: seq<Byte>): (r: seq<Byte>)
    requires off <= |f|
  {
    f[..off] + src + if off + |src| < |f| then f[off + |src|..] else []
  }

  /** Block `n` of a file has some of the `tot` bytes from `off` on. */
  predicate Reached(off: nat, tot: nat, n: nat) {
    tot > 0 && off < n * BSIZE + BSIZE && n * BSIZE < off + tot
  }

  /** `writei` has written `tot` bytes of `src` at `off`, starting from file
      `ip` on disk `blk`. */
  ghost predicate Written(blk: Blocks, ip: Inode, blk': Blocks, ip': Inode, off: nat, src: seq<Byte>, tot: nat) {
    && Shaped(ip) && Shaped(ip') && ip' == ip.(addrs := ip'.addrs) && tot <= |src|
    && (forall j: nat :: j < MAXFILE * BSIZE ==>
          ByteAt(blk', ip', j) == if off <= j < off + tot then src[j - off] else ByteAt(blk, ip, j))
    && (forall n: nat :: n < MAXFILE && (BlockOf(blk, ip, n) != 0 || Reached(off, tot, n)) ==> BlockOf(blk', ip', n) != 0)
  }

  /** At the end of `writei` the file is the byte array with `src` written over. */
  lemma WrittenFile(blk: Blocks, ip: Inode, blk': Blocks, ip': Inode, off: nat, src: seq<Byte>)
    requires Written(blk, ip, blk', ip', off, src, |src|) && Sized(ip) && off <= ip.size && off + |src| <= MAXFILE * BSIZE
    ensures var ip2 := if off + |src| > ip.size then ip'.(size := off + |src|) else ip';
      (HoleFree(blk, ip) ==> HoleFree(blk', ip2)) && Sized(ip2) && File(blk', ip2) == Splice(File(blk, ip), off, src)
  {
    var ip2 := if off + |src| > ip.size then ip'.(size := off + |src|) else ip';
    forall n: nat | n < MAXFILE ensures BlockOf(blk', ip2, n) == BlockOf(blk', ip', n) {
    }
    forall j: nat | j < MAXFILE * BSIZE ensures ByteAt(blk', ip2, j) == ByteAt(blk', ip', j) {
    }
  }
}
