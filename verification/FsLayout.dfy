/** How a volume of src/fs.c lies on disk as the log of src/log.c sees it: blocks of
    32-bit words, with eight inode records to an inode block. */
module FsLayout {
  import opened Arith
  import opened Params
  import opened FsModel
  import RedoLog

  /** A block of bytes as the words of a disk block. */
  function BlockWords(b: Block): (r: RedoLog.Block)
    ensures forall k :: 0 <= k < RedoLog.BWORDS ==> r[k] == Word(b, k)
  {
    seq(RedoLog.BWORDS, k requires 0 <= k < RedoLog.BWORDS => Word(b, k))
  }

  /** The words of a block determine its bytes. */
  lemma BlockWordsInjective(b: Block, c: Block)
    requires BlockWords(b) == BlockWords(c)
    ensures b == c
  {
    forall j | 0 <= j < BSIZE ensures b[j] == c[j] {
      var k := j / 4;
      assert BlockWords(b)[k] == BlockWords(c)[k];
      SameBytes(b, c, k);
      assert j == 4 * k || j == 4 * k + 1 || j == 4 * k + 2 || j == 4 * k + 3;
    }
  }

  lemma SameBytes(b: Block, c: Block, k: nat)
    requires k < RedoLog.BWORDS && Word(b, k) == Word(c, k)
    ensures b[4 * k] == c[4 * k] && b[4 * k + 1] == c[4 * k + 1] && b[4 * k + 2] == c[4 * k + 2] && b[4 * k + 3] == c[4 * k + 3]
  {
    var b1: int, b2: int, b3: int := b[4 * k + 1], b[4 * k + 2], b[4 * k + 3];
    var c1: int, c2: int, c3: int := c[4 * k + 1], c[4 * k + 2], c[4 * k + 3];
    LowByte(b[4 * k], b1 + 0x100 * (b2 + 0x100 * b3), c[4 * k], c1 + 0x100 * (c2 + 0x100 * c3));
    LowByte(b1, b2 + 0x100 * b3, c1, c2 + 0x100 * c3);
    LowByte(b2, b3, c2, c3);
  }

  lemma LowByte(x: int, hi: int, y: int, hi': int)
    requires 0 <= x < 0x100 && 0 <= y < 0x100 && x + 0x100 * hi == y + 0x100 * hi'
    ensures x == y && hi == hi'
  {
  }

  /** Words in an inode record: type, links and size in three, then the block
      numbers. */
  const RECORD := 16

  function InodeWords(ip: Inode): (r: seq<int>)
    ensures |r| == RECORD
  {
    if Shaped(ip) then [ip.kind, ip.nlink, ip.size] + ip.addrs else seq(RECORD, _ => 0)
  }

  /** Word `w` of inode block `j`. */
  function InodeWord(dino: seq<Inode>, j: nat, w: nat): int {
    var i := IPB * j + w / RECORD;
    if i < |dino| then InodeWords(dino[i])[w % RECORD] else 0
  }

  function InodeBlockWords(dino: seq<Inode>, j: nat): (r: RedoLog.Block) {
    seq(RedoLog.BWORDS, w requires 0 <= w < RedoLog.BWORDS => InodeWord(dino, j, w))
  }

  /** The disk that holds a volume, the log area aside. */
  ghost function DiskOf(g: Geometry, blk: Blocks, dino: seq<Inode>): (d: RedoLog.Disk)
    requires |blk| == g.size
    ensures |d| == g.size
    ensures forall b: nat :: b < g.size ==> d[b] == DiskBlock(g, blk, dino, b)
  {
    seq(g.size, b requires 0 <= b < g.size => DiskBlock(g, blk, dino, b))
  }

  ghost function DiskBlock(g: Geometry, blk: Blocks, dino: seq<Inode>, b: nat): RedoLog.Block
    requires b < |blk|
  {
    if g.inodestart <= b < g.bmapstart then InodeBlockWords(dino, b - g.inodestart) else BlockWords(blk[b])
  }

  /** An inode block whose inodes are the same has the same words. */
  lemma SameInodeBlock(dino: seq<Inode>, dino': seq<Inode>, j: nat)
    requires |dino'| == |dino| && forall i: nat :: i < |dino| && i / IPB == j ==> dino'[i] == dino[i]
    ensures InodeBlockWords(dino', j) == InodeBlockWords(dino, j)
  {
    forall w | 0 <= w < RedoLog.BWORDS ensures InodeWord(dino', j, w) == InodeWord(dino, j, w) {
      DivIs(IPB * j + w / RECORD, IPB, j);
    }
  }

  /** No two inodes of different blocks share a word. */
  lemma OtherInodeBlock(dino: seq<Inode>, i: nat, ip: Inode, j: nat)
    requires i < |dino| && i / IPB != j
    ensures InodeBlockWords(dino[i := ip], j) == InodeBlockWords(dino, j)
  {
    forall w | 0 <= w < RedoLog.BWORDS ensures InodeWord(dino[i := ip], j, w) == InodeWord(dino, j, w) {
      DivIs(IPB * j + w / RECORD, IPB, j);
    }
  }

  // ---------------------------------------------------------- inode records

  /** The words of record `k` of an inode block. */
  function RecordAt(b: RedoLog.Block, k: nat): (r: seq<int>)
    requires k < IPB
    ensures |r| == RECORD
  {
    b[RECORD * k..RECORD * k + RECORD]
  }

  function AsNat(w: int): nat {
    if w < 0 then 0 else w
  }

  /** The inode that `ilock` makes of a record. */
  function ReadInode(ws: seq<int>): (ip: Inode)
    requires |ws| == RECORD
    ensures Shaped(ip)
  {
    Inode(ws[0], ws[1], AsNat(ws[2]), seq(NDIRECT + 1, k requires 0 <= k < NDIRECT + 1 => AsNat(ws[3 + k])))
  }

  lemma RecordRoundTrip(ip: Inode)
    requires Shaped(ip)
    ensures ReadInode(InodeWords(ip)) == ip
  {
    assert ReadInode(InodeWords(ip)).addrs == ip.addrs;
  }

  /** The records of an inode block are those of its eight inodes. */
  lemma RecordsOfBlock(dino: seq<Inode>, j: nat, k: nat)
    requires k < IPB
    ensures RecordAt(InodeBlockWords(dino, j), k) == if IPB * j + k < |dino| then InodeWords(dino[IPB * j + k]) else seq(RECORD, _ => 0)
  {
    var ws := RecordAt(InodeBlockWords(dino, j), k);
    forall w | 0 <= w < RECORD ensures ws[w] == if IPB * j + k < |dino| then InodeWords(dino[IPB * j + k])[w] else 0 {
      DivIs(RECORD * k + w, RECORD, k);
      assert ws[w] == InodeWord(dino, j, RECORD * k + w);
    }
  }

  lemma RecordOfBlock(dino: seq<Inode>, i: nat)
    requires i < |dino|
    ensures RecordAt(InodeBlockWords(dino, i / IPB), i % IPB) == InodeWords(dino[i])
  {
    RecordsOfBlock(dino, i / IPB, i % IPB);
  }

  /** Writing one record: it reads back, the other seven of its block and all other
      inode blocks keep their words. */
  lemma RecordWritten(dino: seq<Inode>, i: nat, ip: Inode)
    requires i < |dino| && Shaped(ip)
    ensures ReadInode(RecordAt(InodeBlockWords(dino[i := ip], i / IPB), i % IPB)) == ip
    ensures forall k: nat :: k < IPB && k != i % IPB ==>
      RecordAt(InodeBlockWords(dino[i := ip], i / IPB), k) == RecordAt(InodeBlockWords(dino, i / IPB), k)
    ensures forall j: nat :: j != i / IPB ==> InodeBlockWords(dino[i := ip], j) == InodeBlockWords(dino, j)
  {
    RecordOfBlock(dino[i := ip], i);
    RecordRoundTrip(ip);
    forall k: nat | k < IPB && k != i % IPB
      ensures RecordAt(InodeBlockWords(dino[i := ip], i / IPB), k) == RecordAt(InodeBlockWords(dino, i / IPB), k)
    {
      OtherRecord(dino, i, ip, k);
    }
    forall j: nat | j != i / IPB ensures InodeBlockWords(dino[i := ip], j) == InodeBlockWords(dino, j) {
      OtherInodeBlock(dino, i, ip, j);
    }
  }

  lemma OtherRecord(dino: seq<Inode>, i: nat, ip: Inode, k: nat)
    requires i < |dino| && k < IPB && k != i % IPB
    ensures RecordAt(InodeBlockWords(dino[i := ip], i / IPB), k) == RecordAt(InodeBlockWords(dino, i / IPB), k)
  {
    RecordsOfBlock(dino[i := ip], i / IPB, k);
    RecordsOfBlock(dino, i / IPB, k);
  }

  // ------------------------------------------------------- reading a disk back

  /** Two volumes of the same geometry on the same disk: their blocks and their
      inode records are the same. So what is on disk determines the files. */
  lemma SameVolume(g: Geometry, a: RedoLog.Area, d: RedoLog.Disk, blk: Blocks, dino: seq<Inode>, blk': Blocks, dino': seq<Inode>)
    requires g.Ok() && g.InodesFit() && |blk| == |blk'| == g.size && |dino| == |dino'| == g.ninodes
    requires a.start + a.size <= g.inodestart
    requires RedoLog.SameHome(a, d, DiskOf(g, blk, dino)) && RedoLog.SameHome(a, d, DiskOf(g, blk', dino'))
    requires forall i :: 0 <= i < |dino| ==> Shaped(dino[i]) && Shaped(dino'[i])
    ensures dino == dino'
    ensures forall b: nat :: g.bmapstart <= b < g.size ==> blk[b] == blk'[b]
  {
    forall b: nat | g.bmapstart <= b < g.size ensures blk[b] == blk'[b] {
      assert a.Home(|d|, b);
      BlockWordsInjective(blk[b], blk'[b]);
    }
    forall i | 0 <= i < |dino| ensures dino[i] == dino'[i] {
      InodeOnDisk(g, blk, dino, i);
      InodeOnDisk(g, blk', dino', i);
      assert a.Home(|d|, g.InodeBlock(i));
      SameRecord(dino, dino', i);
    }
  }

  lemma InodeOnDisk(g: Geometry, blk: Blocks, dino: seq<Inode>, i: nat)
    requires g.Ok() && g.InodesFit() && |blk| == g.size && |dino| == g.ninodes && i < |dino|
    ensures g.inodestart <= g.InodeBlock(i) < g.bmapstart < g.size
    ensures DiskOf(g, blk, dino)[g.InodeBlock(i)] == InodeBlockWords(dino, i / IPB)
  {
    InodeBlockOk(g, i);
    DivNat(i, IPB);
  }

  lemma SameRecord(dino: seq<Inode>, dino': seq<Inode>, i: nat)
    requires i < |dino| && i < |dino'| && Shaped(dino[i]) && Shaped(dino'[i])
    requires InodeBlockWords(dino, i / IPB) == InodeBlockWords(dino', i / IPB)
    ensures dino[i] == dino'[i]
  {
    RecordOfBlock(dino, i);
    RecordOfBlock(dino', i);
    RecordRoundTrip(dino[i]);
    RecordRoundTrip(dino'[i]);
  }
}
