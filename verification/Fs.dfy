/** `balloc`, `bfree`, `bmap`, `itrunc`, `readi`, `writei` (src/fs.c) and the
    chunking loop of `filewrite` (src/file.c), on a mounted volume.

    `panicked` results stand for "balloc: out of blocks". */
module FileSystem {
  import opened Arith
  import opened Bits
  import opened Common
  import opened Params
  import opened FsModel
  import opened FreeSpace
  import opened FsLayout
  import opened FileSteps

  class Volume {
    const g: Geometry

    /** Latest contents of the blocks, the inodes in memory, and the inode
        records on disk. */
    var blk: Blocks
    var ino: seq<Inode>
    var dino: seq<Inode>

    /** What the bitmap says, and what each data block is for. */
    ghost var bits: seq<bool>
    ghost var owner: Owners

    /** Blocks given to `log_write` since the transaction began. */
    ghost var logged: set<nat>

    /** A volume as mkfs leaves it, before any file: the metadata blocks are in use,
        every data block is free. */
    constructor (g: Geometry)
      requires g.Ok() && g.InodesFit()
      ensures this.g == g && Valid({}) && owner == map[] && dino == ino && Solid(blk, ino)
      ensures forall i :: 0 <= i < |ino| ==> ino[i] == Inode(0, 0, 0, NoAddrs)
    {
      this.g := g;
      blk := seq(g.size, _ => ZeroBytes());
      bits := seq(g.size, _ => false);
      var none := seq(g.ninodes, _ => Inode(0, 0, 0, NoAddrs));
      ino, dino := none, none;
      owner := map[];
      logged := {};
      new;
      ZeroDecodes(g, blk, bits);
      var b := 0;
      while b < g.datastart
        invariant 0 <= b <= g.datastart && Decodes(g, blk, bits) && ino == dino == none && owner == map[]
        invariant forall c: nat :: c < g.size ==> bits[c] == (c < b)
      {
        SetMapBit(b, true);
        b := b + 1;
      }
      forall i: nat | i < |ino| ensures InodeOk(blk, owner, ino[i], i) && HoleFree(blk, ino[i]) {
        NoBlocks(blk, owner, i);
      }
    }

    ghost function Now(): Snapshot
      reads this
    {
      Snapshot(bits, blk, ino, owner, logged)
    }

    ghost predicate Valid(loose: set<nat>)
      reads this
    {
      Sound(g, Now(), loose) && |dino| == |ino| && g.InodesFit()
    }

    /** One row of the scan in `balloc`: the bits of one bitmap block. */
    method ScanRow(first: nat) returns (bi: nat, found: bool)
      requires Decodes(g, blk, bits) && first < g.size && first % BPB == 0
      ensures bi <= BPB && forall c: nat :: first <= c < first + bi && c < g.size ==> bits[c]
      ensures found ==> bi < BPB && first + bi < g.size && !bits[first + bi]
      ensures !found ==> bi == BPB || first + bi >= g.size
    {
      MapBlockOk(g, first);
      var bp := blk[g.MapBlock(first)];
      bi := 0;
      found := false;
      while bi < BPB && first + bi < g.size
        invariant 0 <= bi <= BPB
        invariant forall c: nat :: first <= c < first + bi && c < g.size ==> bits[c]
      {
        RowBit(g, blk, bits, first, bi);
        GetBitIs(bp[bi / 8], bi % 8);
        if !GetBit(bp[bi / 8], bi % 8) {
          found := true;
          return;
        }
        bi := bi + 1;
      }
    }

    /** The scan of `balloc` over the bitmap. */
    method FindFree() returns (b: nat, found: bool)
      requires Decodes(g, blk, bits)
      ensures found ==> b < g.size && !bits[b] && forall c: nat :: c < b ==> bits[c]
      ensures !found ==> forall c: nat :: c < g.size ==> bits[c]
    {
      b := 0;
      while b < g.size
        invariant b % BPB == 0
        invariant forall c: nat :: c < b && c < g.size ==> bits[c]
        decreases g.size - b
      {
        var bi, ok := ScanRow(b);
        if ok {
          return b + bi, true;
        }
        b := b + BPB;
      }
      found := false;
    }

    method SetMapBit(b: nat, on: bool)
      requires Decodes(g, blk, bits) && b < g.size
      modifies this`blk, this`bits, this`logged
      ensures blk == Mark(g, old(blk), b, on) && bits == old(bits)[b := on] && Decodes(g, blk, bits)
      ensures forall c: nat :: g.datastart <= c < g.size ==> blk[c] == old(blk)[c]
      ensures logged == old(logged) + {g.MapBlock(b)} && Logs(g, old(blk), old(logged), blk, logged)
    {
      MarkDecodes(g, blk, bits, b, on);
      MapBlockOk(g, b);
      var m, k, t := g.MapBlock(b), b % BPB / 8, b % BPB % 8;
      var x := blk[m][k];
      ByteStays(x, t);
      blk := blk[m := blk[m][k := if on then SetBit(x, t) else ClearBit(x, t)]];
      bits := bits[b := on];
      logged := logged + {m};
    }

    /** balloc: the first free block, zeroed. */
    method Balloc(ghost loose: set<nat>) returns (b: nat, panicked: bool)
      requires Valid(loose)
      modifies this`blk, this`bits, this`logged
      ensures panicked <==> FreeCount(old(bits)) == 0
      ensures panicked ==> Full(bits) && Now() == old(Now())
      ensures !panicked ==> Allocated(g, old(Now()), Now(), loose, b)
    {
      var found;
      b, found := FindFree();
      FullCount(bits);
      panicked := !found;
      if found {
        ghost var s := Now();
        SetMapBit(b, true);
        ghost var s1 := Now();
        blk := blk[b := ZeroBytes()];
        logged := logged + {b};
        AllocatedBy(g, s, s1, Now(), loose, b);
      }
    }

    /** bfree. A block that is free already would be a panic. */
    method Bfree(b: nat)
      requires Decodes(g, blk, bits) && b < g.size && bits[b]
      modifies this`blk, this`bits, this`logged
      ensures Decodes(g, blk, bits) && bits == old(bits)[b := false]
      ensures forall c: nat :: g.datastart <= c < g.size ==> blk[c] == old(blk)[c]
      ensures logged == old(logged) + {g.MapBlock(b)} && Logs(g, old(blk), old(logged), blk, logged) && MapsOnly(g, old(logged), logged)
    {
      MapBlockOk(g, b);
      SetMapBit(b, false);
    }
  
    /** A block for the empty direct slot `n`. */
    method NewDirect(i: nat, n: nat) returns (b: nat, panicked: bool, ghost maps: seq<nat>)
      requires Valid({}) && i < |ino| && n < NDIRECT && ino[i].addrs[n] == 0
      modifies this`blk, this`bits, this`ino, this`owner, this`logged
      ensures panicked ==> Full(bits) && FreeCount(old(bits)) == 0
      ensures !panicked ==> |dino| == |ino| && MapStep(g, old(Now()), Now(), i, n, b, maps)
    {
      ghost var s := Now();
      b, panicked := Balloc({});
      maps := [];
      if panicked {
        return;
      }
      ghost var s1 := Now();
      ino := ino[i := PutAddr(ino[i], n, b)];
      owner := owner[b := Data(i, n)];
      maps := [g.MapBlock(b)];
      NewDirectOk(g, s, s1, Now(), i, n, b);
    }

    /** The indirect block of file `i`, made if there is none. */
    method LoadIndirect(i: nat) returns (a: nat, panicked: bool, ghost maps: seq<nat>)
      requires Valid({}) && i < |ino|
      modifies this`blk, this`bits, this`ino, this`owner, this`logged
      ensures panicked ==> Full(bits) && FreeCount(old(bits)) == 0 && old(ino)[i].addrs[NDIRECT] == 0
      ensures !panicked ==> |dino| == |ino| && IndirectStep(g, old(Now()), Now(), i, a, maps)
    {
      ghost var s := Now();
      a, panicked, maps := ino[i].addrs[NDIRECT], false, [];
      if a == 0 {
        a, panicked := Balloc({});
        if panicked {
          return;
        }
        ghost var s1 := Now();
        ino := ino[i := PutAddr(ino[i], NDIRECT, a)];
        owner := owner[a := Indirect(i)];
        maps := [g.MapBlock(a)];
        NewIndirectOk(g, s, s1, Now(), i, a);
      } else {
        IndirectThere(g, s, i);
      }
    }

    /** A block for the empty entry `n` of the indirect block. */
    method NewEntry(i: nat, n: nat) returns (b: nat, panicked: bool, ghost maps: seq<nat>)
      requires Valid({}) && i < |ino| && NDIRECT <= n < MAXFILE && ino[i].addrs[NDIRECT] != 0 && BlockOf(blk, ino[i], n) == 0
      modifies this`blk, this`bits, this`owner, this`logged
      ensures panicked ==> Full(bits) && FreeCount(old(bits)) == 0
      ensures !panicked ==> |dino| == |ino| && MapStep(g, old(Now()), Now(), i, n, b, maps)
    {
      ghost var s := Now();
      var a := ino[i].addrs[NDIRECT];
      IndirectThere(g, s, i);
      b, panicked := Balloc({});
      maps := [];
      if panicked {
        return;
      }
      ghost var s1 := Now();
      blk := blk[a := PutWord(blk[a], n - NDIRECT, b)];
      owner := owner[b := Data(i, n)];
      logged := logged + {a};
      maps := [g.MapBlock(b)];
      NewEntryOk(g, s, s1, Now(), i, n, b);
    }

    method BmapDirect(i: nat, n: nat) returns (addr: nat, panicked: bool, ghost maps: seq<nat>)
      requires Valid({}) && i < |ino| && n < NDIRECT
      modifies this`blk, this`bits, this`ino, this`owner, this`logged
      ensures panicked ==> Full(bits) && FreeCount(old(bits)) < Needs(old(blk), old(ino)[i], n)
      ensures !panicked ==> |dino| == |ino| && MapStep(g, old(Now()), Now(), i, n, addr, maps)
    {
      addr, panicked, maps := ino[i].addrs[n], false, [];
      if addr == 0 {
        addr, panicked, maps := NewDirect(i, n);
      } else {
        MapNothing(g, Now(), i, n, addr);
      }
    }

    /** The part of `bmap` behind the indirect block, once that is there. */
    method BmapEntry(i: nat, n: nat) returns (addr: nat, panicked: bool, ghost maps: seq<nat>)
      requires Valid({}) && i < |ino| && NDIRECT <= n < MAXFILE && ino[i].addrs[NDIRECT] != 0
      modifies this`blk, this`bits, this`owner, this`logged
      ensures panicked ==> Full(bits) && FreeCount(old(bits)) < Needs(old(blk), ino[i], n)
      ensures !panicked ==> |dino| == |ino| && MapStep(g, old(Now()), Now(), i, n, addr, maps)
    {
      IndirectThere(g, Now(), i);
      addr, panicked, maps := Word(blk[ino[i].addrs[NDIRECT]], n - NDIRECT), false, [];
      if addr == 0 {
        addr, panicked, maps := NewEntry(i, n);
      } else {
        MapNothing(g, Now(), i, n, addr);
      }
    }

    /** bmap: finds or makes block `n` of file `i`; the panic exactly when the blocks
        that it has to allocate are not there. The inode in memory stays as it is
        exactly if its entry for the block is set. */
    method Bmap(i: nat, n: nat) returns (addr: nat, panicked: bool, ghost maps: seq<nat>)
      requires Valid({}) && i < |ino| && n < MAXFILE
      modifies this`blk, this`bits, this`ino, this`owner, this`logged
      ensures panicked <==> FreeCount(old(bits)) < Needs(old(blk), old(ino)[i], n)
      ensures panicked ==> Full(bits)
      ensures !panicked ==> Valid({}) && MapStep(g, old(Now()), Now(), i, n, addr, maps)
      ensures !panicked ==> (ino == old(ino) <==> old(ino)[i].addrs[SlotOf(n)] != 0)
    {
      ghost var s := Now();
      if n < NDIRECT {
        addr, panicked, maps := BmapDirect(i, n);
      } else {
        addr, panicked, maps := LoadIndirect(i);
        IndirectNeeds(s, i, n);
        if panicked {
          return;
        }
        ghost var s1, maps1 := Now(), maps;
        addr, panicked, maps := BmapEntry(i, n);
        if panicked {
          IndirectShort(g, s, s1, i, n, ino[i].addrs[NDIRECT], maps1);
        } else {
          MapBoth(g, s, s1, Now(), i, n, addr, ino[i].addrs[NDIRECT], maps1, maps);
          maps := maps1 + maps;
        }
      }
      if !panicked {
        TookChanges(s, Now(), i, n);
      }
    }

    /** One turn of the loop of `writei`: `bs` goes into one block. */
    method WriteTurn(i: nat, o: nat, bs: seq<Byte>) returns (addr: nat, panicked: bool, ghost maps: seq<nat>)
      requires Valid({}) && i < |ino| && o < MAXFILE * BSIZE && o % BSIZE + |bs| <= BSIZE
      modifies this`blk, this`bits, this`ino, this`owner, this`logged
      ensures panicked ==> Full(bits) && FreeCount(old(bits)) < Needs(old(blk), old(ino)[i], o / BSIZE)
      ensures !panicked ==> |dino| == |ino| && TurnStep(g, old(Now()), Now(), i, o, bs, addr, maps)
    {
      ghost var s := Now();
      addr, panicked, maps := Bmap(i, o / BSIZE);
      if panicked {
        return;
      }
      ghost var s1 := Now();
      blk := blk[addr := PutSlice(blk[addr], o % BSIZE, bs)];
      logged := logged + {addr};
      TurnOk(g, s, s1, Now(), i, o, bs, addr, maps);
    }

    /** One turn of the loop of `writei`, at byte `tot`. */
    method WriteStep(ghost s: Snapshot, i: nat, off: nat, src: seq<Byte>, tot: nat) returns (panicked: bool, m: nat, ghost now: Snapshot)
      requires g.InodesFit() && |dino| == |ino| && Progress(g, s, Now(), i, off, src, tot) && Starts(s, i, off, src) && tot < |src|
      modifies this`blk, this`bits, this`ino, this`owner, this`logged
      ensures panicked ==> Full(bits) && FreeCount(s.bits) < NeedsFor(s.blk, s.ino[i], off, |src|)
      ensures !panicked ==> |dino| == |ino| && 0 < m <= |src| - tot && now == Now() && Progress(g, s, now, i, off, src, tot + m)
    {
      hide Sound, Progress, Spent, TurnStep, Needs, NeedsFor, FreeCount, NextTurn;
      var o := off + tot;
      m := Min(|src| - tot, BSIZE - o % BSIZE);
      ghost var s1 := Now();
      ProgressTurn(g, s, s1, i, off, src, tot, m);
      var addr;
      ghost var maps;
      addr, panicked, maps := WriteTurn(i, o, src[tot..tot + m]);
      now := Now();
      if panicked {
        Short(s, s1, i, off, tot, m, |src|);
      } else {
        ProgressNext(g, s, s1, now, i, off, src, tot, m, addr, maps);
      }
    }

    /** The loop of `writei`. */
    method WriteBlocks(ghost s: Snapshot, i: nat, off: nat, src: seq<Byte>) returns (panicked: bool, ghost now: Snapshot)
      requires Valid({}) && s == Now() && Starts(s, i, off, src)
      modifies this`blk, this`bits, this`ino, this`owner, this`logged
      ensures panicked ==> Full(bits) && FreeCount(s.bits) < NeedsFor(s.blk, s.ino[i], off, |src|)
      ensures !panicked ==> |dino| == |ino| && now == Now() && Progress(g, s, now, i, off, src, |src|)
    {
      hide Sound, Progress, NeedsFor, FreeCount;
      var tot := 0;
      now := s;
      ProgressStart(g, s, i, off, src);
      while tot < |src|
        invariant 0 <= tot <= |src| && g.InodesFit() && |dino| == |ino| && now == Now()
        invariant Progress(g, s, now, i, off, src, tot)
      {
        var m;
        panicked, m, now := WriteStep(s, i, off, src, tot);
        if panicked {
          return;
        }
        tot := tot + m;
      }
      panicked := false;
    }

    /** iupdate: the inode goes to its record on disk, where it reads back; the
        other seven records of that inode block and all other inode blocks keep
        every word. */
    method Iupdate(i: nat)
      requires i < |ino| == |dino| && Shaped(ino[i])
      modifies this`dino, this`logged
      ensures dino == old(dino)[i := ino[i]] && logged == old(logged) + {g.InodeBlock(i)}
      ensures ReadInode(RecordAt(InodeBlockWords(dino, i / IPB), i % IPB)) == ino[i]
      ensures forall k: nat :: k < IPB && k != i % IPB ==>
        RecordAt(InodeBlockWords(dino, i / IPB), k) == RecordAt(InodeBlockWords(old(dino), i / IPB), k)
      ensures forall j: nat :: j != i / IPB ==> InodeBlockWords(dino, j) == InodeBlockWords(old(dino), j)
    {
      RecordWritten(dino, i, ino[i]);
      dino := dino[i := ino[i]];
      logged := logged + {g.InodeBlock(i)};
    }

    /** The part of `ilock` that reads an inode in: what `iupdate` last wrote. */
    method Iload(i: nat)
      requires i < |ino| == |dino| && Shaped(dino[i])
      modifies this`ino
      ensures ino == old(ino)[i := dino[i]]
    {
      RecordOfBlock(dino, i);
      RecordRoundTrip(dino[i]);
      ino := ino[i := ReadInode(RecordAt(InodeBlockWords(dino, i / IPB), i % IPB))];
    }

    /** writei once it has checked its arguments. */
    method WriteFile(i: nat, off: nat, src: seq<Byte>) returns (panicked: bool)
      requires Valid({}) && Starts(Now(), i, off, src)
      modifies this
      ensures panicked ==> Full(bits) && FreeCount(old(bits)) < NeedsFor(old(blk), old(ino)[i], off, |src|)
      ensures !panicked ==> |dino| == |ino| && Done(g, old(Now()), old(dino), Now(), dino, i, off, src)
    {
      ghost var s, now := Now(), Now();
      panicked, now := WriteBlocks(s, i, off, src);
      if !panicked {
        FinishWrite(s, i, off, src);
      }
    }

    /** What is left of `writei` after its loop. */
    method FinishWrite(ghost s: Snapshot, i: nat, off: nat, src: seq<Byte>)
      requires Progress(g, s, Now(), i, off, src, |src|) && Starts(s, i, off, src) && g.InodesFit() && |dino| == |ino| == |s.ino|
      modifies this`ino, this`dino, this`logged
      ensures |dino| == |ino| && Done(g, s, old(dino), Now(), dino, i, off, src)
    {
      hide Progress, Done, GrownState, GrownRecords;
      ProgressDone(g, s, Now(), dino, i, off, src);
      GrowInode(i, |src|, off + |src|);
    }

    /** The last lines of writei. */
    method GrowInode(i: nat, n: nat, end: nat)
      requires i < |ino| == |dino| && Shaped(ino[i]) && (n == 0 ==> end <= ino[i].size)
      modifies this`ino, this`dino, this`logged
      ensures |dino| == |ino| && Now() == GrownState(g, old(Now()), i, end) && dino == GrownRecords(old(dino), old(Now()).ino[i], i, end)
    {
      if n > 0 && end > ino[i].size {
        ino := ino[i := ino[i].(size := end)];
        Iupdate(i);
      }
    }

    /** writei, of a file that is no device. The panic exactly when the blocks that the
        file lacks are not free. No hole appears. A record that was right stays right
        if the file grows; if it does not, `writei` does not write the record, which
        then is right exactly if no entry of the inode had to be set. */
    method Writei(i: nat, off: nat, src: seq<Byte>) returns (r: int, panicked: bool)
      requires Valid({}) && i < |ino| && Sized(ino[i]) && off < WORD && |src| < WORD
      modifies this
      ensures r == if off > old(ino)[i].size || off + |src| >= WORD || off + |src| > MAXFILE * BSIZE then -1 else |src|
      ensures r == -1 ==> !panicked && Now() == old(Now()) && dino == old(dino)
      ensures panicked <==> r >= 0 && FreeCount(old(bits)) < NeedsFor(old(blk), old(ino)[i], off, |src|)
      ensures panicked ==> Full(bits)
      ensures !panicked ==> Valid({}) && i < |ino| && Sized(ino[i]) && Keeps(g, old(Now()), Now(), i)
      ensures !panicked && r >= 0 ==> Done(g, old(Now()), old(dino), Now(), dino, i, off, src)
      ensures !panicked && r >= 0 && old(dino[i] == ino[i]) ==>
        (dino[i] == ino[i] <==> off + |src| > old(ino[i].size) || SlotsSet(old(ino)[i], off, |src|))
      ensures !panicked && old(Solid(blk, ino)) ==> Solid(blk, ino)
    {
      hide Wraps;
      ghost var s := Now();
      WrapsExactly(off, |src|);
      if off > ino[i].size || Wraps(off, |src|) || off + |src| > MAXFILE * BSIZE {
        KeepsSelf(g, s, i);
        return -1, false;
      }
      panicked := WriteFile(i, off, src);
      r := |src|;
      if !panicked && Solid(s.blk, s.ino) {
        SolidKept(g, s, Now(), i);
      }
    }

    /** One turn of the loop of `readi`, at byte `tot`: `k` bytes of one block. */
    method ReadTurn(ghost s: Snapshot, i: nat, off: nat, tot: nat, k: nat) returns (bs: seq<Byte>, panicked: bool, ghost now: Snapshot)
      requires |dino| == |ino| && g.InodesFit() && Filled(g, s, Now(), i, off, tot) && NextTurn(off, tot, k) && off + tot + k <= s.ino[i].size
      modifies this`blk, this`bits, this`ino, this`owner, this`logged
      ensures panicked ==> Full(bits) && FreeCount(s.bits) < NeedsFor(s.blk, s.ino[i], off, tot + k)
      ensures !panicked ==> |dino| == |ino| && now == Now() && Filled(g, s, now, i, off, tot + k)
      ensures !panicked ==> IsSlice(File(s.blk, s.ino[i]), off + tot, k, bs)
    {
      hide Sound, Keeps, Took, Spent, Needs, NeedsFor, FreeCount, Reached, EndBlock, File;
      ghost var s1 := Now();
      TurnReaches(off, tot, k);
      var b;
      ghost var maps;
      b, panicked, maps := Bmap(i, (off + tot) / BSIZE);
      now := Now();
      if panicked {
        Short(s, s1, i, off, tot, k, tot + k);
        return [], true, now;
      }
      bs := blk[b][(off + tot) % BSIZE..(off + tot) % BSIZE + k];
      FilledNext(g, s, s1, now, i, off, tot, k, b, maps);
    }

    /** The loop of `readi`, over bytes below the file's size. */
    method ReadBlocks(i: nat, off: nat, m: nat) returns (dst: seq<Byte>, panicked: bool, ghost now: Snapshot)
      requires Valid({}) && i < |ino| && Sized(ino[i]) && off + m <= ino[i].size
      modifies this`blk, this`bits, this`ino, this`owner, this`logged
      ensures panicked ==> Full(bits) && FreeCount(old(bits)) < NeedsFor(old(blk), old(ino)[i], off, m)
      ensures !panicked ==> |dino| == |ino| && now == Now() && Filled(g, old(Now()), now, i, off, m)
      ensures !panicked ==> IsSlice(old(File(blk, ino[i])), off, m, dst)
    {
      hide Sound, Keeps, Spent, NeedsFor, FreeCount, File;
      ghost var s := Now();
      var tot := 0;
      dst, now := [], s;
      FilledNothing(g, s, i, off);
      while tot < m
        invariant 0 <= tot <= m && |dino| == |ino| && now == Now() && Filled(g, s, now, i, off, tot)
        invariant IsSlice(File(s.blk, s.ino[i]), off, tot, dst) && (tot == 0 || tot == m || (off + tot) % BSIZE == 0)
      {
        var k := Min(m - tot, BSIZE - (off + tot) % BSIZE);
        TurnEnds(off, tot, m, k);
        var bs;
        bs, panicked, now := ReadTurn(s, i, off, tot, k);
        if panicked {
          NeedsMore(s.blk, s.ino[i], off, tot + k, m);
          return [], true, now;
        }
        SliceJoin(File(s.blk, s.ino[i]), off, tot, dst, k, bs);
        dst := dst + bs;
        tot := tot + k;
      }
      panicked := false;
    }

    /** readi, of a file that is no device: the file's bytes, whose blocks it makes
        where they are missing; the panic exactly when those are not free. It never
        writes the inode record, so a record that was right is right afterwards
        exactly if the entries of the blocks that were read were set. */
    method Readi(i: nat, off: nat, n: nat) returns (r: int, dst: seq<Byte>, panicked: bool)
      requires Valid({}) && i < |ino| && Sized(ino[i]) && off < WORD && n < WORD
      modifies this`blk, this`bits, this`ino, this`owner, this`logged
      ensures r == if off > old(ino[i].size) || off + n >= WORD then -1 else Min(n, old(ino[i].size) - off)
      ensures r == -1 ==> !panicked && dst == [] && Now() == old(Now())
      ensures panicked <==> r >= 0 && FreeCount(old(bits)) < NeedsFor(old(blk), old(ino)[i], off, r)
      ensures panicked ==> Full(bits)
      ensures !panicked && r >= 0 ==> dst == old(File(blk, ino[i]))[off..off + r]
      ensures !panicked ==> Valid({})
      ensures !panicked && r >= 0 ==> Filled(g, old(Now()), Now(), i, off, r)
      ensures !panicked && r >= 0 && old(dino[i] == ino[i]) ==> (dino[i] == ino[i] <==> SlotsSet(old(ino)[i], off, r))
      ensures old(HoleFree(blk, ino[i])) ==> !panicked && Now() == old(Now())
      ensures !panicked && old(Solid(blk, ino)) ==> Solid(blk, ino)
    {
      hide Wraps, Keeps, NeedsFor, FreeCount, SlotsSet;
      ghost var s := Now();
      WrapsExactly(off, n);
      if off > ino[i].size || Wraps(off, n) {
        return -1, [], false;
      }
      var m := if off + n > ino[i].size then ino[i].size - off else n;
      r := m;
      ghost var now;
      dst, panicked, now := ReadBlocks(i, off, m);
      if HoleFree(s.blk, s.ino[i]) {
        NothingMissing(s.blk, s.ino[i], off, m);
      }
      if !panicked {
        SpentChanges(s, now, i, off, m);
      }
    }

    /** The loop of `itrunc` over the direct blocks. */
    method FreeDirect(i: nat)
      requires Valid({}) && i < |ino|
      modifies this`blk, this`bits, this`ino, this`logged
      ensures Decodes(g, blk, bits) && SameData(g, old(blk), blk) && FreedBelow(old(bits), bits, owner, i, NDIRECT)
      ensures ino == old(ino)[i := old(ino)[i].(addrs := NoAddrs[NDIRECT := old(ino)[i].addrs[NDIRECT]])]
      ensures Logs(g, old(blk), old(logged), blk, logged) && MapsOnly(g, old(logged), logged)
    {
      assert InodeOk(blk, owner, ino[i], i);
      ghost var ip := ino[i];
      hide Decodes, FsOk, InodeOk, Logs, MapsOnly;
      var k := 0;
      while k < NDIRECT
        invariant 0 <= k <= NDIRECT && |ino| == |old(ino)| && i < |ino|
        invariant Decodes(g, blk, bits) && SameData(g, old(blk), blk) && FreedBelow(old(bits), bits, owner, i, k)
        invariant ino == old(ino)[i := ino[i]] && ino[i] == ip.(addrs := ino[i].addrs) && |ino[i].addrs| == NDIRECT + 1
        invariant forall m :: 0 <= m <= NDIRECT ==> ino[i].addrs[m] == if m < k then 0 else ip.addrs[m]
        invariant Logs(g, old(blk), old(logged), blk, logged) && MapsOnly(g, old(logged), logged)
      {
        ghost var blk1, logged1 := blk, logged;
        FreeOne(g, old(bits), old(blk), old(ino), owner, bits, i, k);
        if ino[i].addrs[k] != 0 {
          Bfree(ino[i].addrs[k]);
          LogsTrans(g, old(blk), old(logged), blk1, logged1, blk, logged);
          ino := ino[i := PutAddr(ino[i], k, 0)];
        }
        k := k + 1;
      }
      assert ino[i].addrs == NoAddrs[NDIRECT := ip.addrs[NDIRECT]];
    }

    /** The loop of `itrunc` over the entries of the indirect block, which is read
        once; `s` is the state `itrunc` started from. */
    method FreeEntries(ghost s: Snapshot, i: nat, a: nat)
      requires FsOk(g, s.bits, s.blk, s.ino, s.owner, {}) && i < |s.ino| && a == s.ino[i].addrs[NDIRECT] && g.datastart <= a < g.size
      requires Decodes(g, blk, bits) && SameData(g, s.blk, blk) && FreedBelow(s.bits, bits, s.owner, i, NDIRECT)
      modifies this`blk, this`bits, this`logged
      ensures Decodes(g, blk, bits) && SameData(g, s.blk, blk) && FreedBelow(s.bits, bits, s.owner, i, MAXFILE)
      ensures Logs(g, old(blk), old(logged), blk, logged) && MapsOnly(g, old(logged), logged)
    {
      var bp := blk[a];
      var j := 0;
      while j < NINDIRECT
        invariant 0 <= j <= NINDIRECT && Decodes(g, blk, bits) && SameData(g, s.blk, blk)
        invariant FreedBelow(s.bits, bits, s.owner, i, NDIRECT + j)
        invariant Logs(g, old(blk), old(logged), blk, logged) && MapsOnly(g, old(logged), logged)
      {
        FreeOne(g, s.bits, s.blk, s.ino, s.owner, bits, i, NDIRECT + j);
        ghost var blk1, logged1 := blk, logged;
        var b := Word(bp, j);
        if b != 0 {
          Bfree(b);
          LogsTrans(g, old(blk), old(logged), blk1, logged1, blk, logged);
        }
        j := j + 1;
      }
    }

    /** The part of `itrunc` that frees the entries of the indirect block, then the
        block itself. */
    method FreeIndirect(ghost s: Snapshot, i: nat, a: nat)
      requires FsOk(g, s.bits, s.blk, s.ino, s.owner, {}) && i < |s.ino| && a == s.ino[i].addrs[NDIRECT] && g.datastart <= a < g.size
      requires s.bits[a] && a in s.owner && s.owner[a] == Indirect(i)
      requires Decodes(g, blk, bits) && SameData(g, s.blk, blk) && FreedBelow(s.bits, bits, s.owner, i, NDIRECT)
      modifies this`blk, this`bits, this`logged
      ensures Decodes(g, blk, bits) && SameData(g, s.blk, blk) && Logs(g, old(blk), old(logged), blk, logged) && MapsOnly(g, old(logged), logged)
      ensures |bits| == |s.bits|
      ensures forall c: nat :: c < |bits| ==> (bits[c] <==> s.bits[c] && c != a && !(c in s.owner && s.owner[c].Data? && s.owner[c].i == i && s.owner[c].n < MAXFILE))
    {
      FreeEntries(s, i, a);
      ghost var blk1, logged1 := blk, logged;
      Bfree(a);
      LogsTrans(g, old(blk), old(logged), blk1, logged1, blk, logged);
    }

    /** The part of `itrunc` that frees blocks. */
    method FreeBlocks(i: nat)
      requires Valid({}) && i < |ino|
      modifies this`blk, this`bits, this`ino, this`logged
      ensures Freed(g, old(Now()), Now(), i)
      ensures ino == old(ino)[i := old(ino)[i].(addrs := NoAddrs)]
    {
      hide Decodes, FsOk, Logs;
      ghost var s := Now();
      FreeDirect(i);
      var a := ino[i].addrs[NDIRECT];
      FreeLast(g, s.bits, s.blk, s.ino, s.owner, i);
      if a != 0 {
        ghost var blk1, logged1 := blk, logged;
        FreeIndirect(s, i, a);
        LogsTrans(g, s.blk, s.logged, blk1, logged1, blk, logged);
        ino := ino[i := PutAddr(ino[i], NDIRECT, 0)];
      }
      assert ino[i].addrs == NoAddrs;
    }

    /** itrunc: the file's blocks are free, and no others. It logs bitmap blocks and
        the inode block only. */
    method Itrunc(i: nat)
      requires Valid({}) && i < |ino|
      modifies this
      ensures Valid({}) && Keeps(g, old(Now()), Now(), i)
      ensures owner == Without(old(owner), i)
      ensures ino == old(ino)[i := Truncated(old(ino)[i])] && dino == old(dino)[i := ino[i]]
      ensures Emptied(ino[i])
      ensures g.InodeBlock(i) in logged && |logged - old(logged)| <= BitmapBlocks(g) + 1
      ensures old(Solid(blk, ino)) ==> Solid(blk, ino)
    {
      hide Emptied;
      ghost var s := Now();
      TruncatedEmptied(ino[i]);
      FreeBlocks(i);
      ghost var s1 := Now();
      ino := ino[i := ino[i].(size := 0)];
      owner := Without(owner, i);
      Iupdate(i);
      FreedTruncated(g, s, s1, Now(), i);
      if Solid(s.blk, s.ino) {
        SolidKept(g, s, Now(), i);
      }
    }

    /** One transaction of `filewrite`. */
    method Chunk(i: nat, off: nat, bs: seq<Byte>) returns (r: int, panicked: bool)
      requires Open(i) && off < WORD && |bs| <= CHUNK
      modifies this
      ensures r == if BadWrite(old(ino[i].size), off, |bs|) then -1 else |bs|
      ensures panicked ==> Full(bits)
      ensures !panicked ==> Open(i)
      ensures r == -1 ==> !panicked && ino == old(ino) && dino == old(dino) && blk == old(blk) && logged == {}
      ensures !panicked && r >= 0 ==> Wrote(g, old(Now()), Now(), i, off, bs)
      ensures !panicked && old(dino[i] == ino[i] && HoleFree(blk, ino[i])) ==> dino[i] == ino[i]
      ensures !panicked ==> Budget(g, logged, old(HoleFree(blk, ino[i])))
      ensures !panicked ==> Logs(g, old(blk), {}, blk, logged)
      ensures !panicked && old(Solid(blk, ino)) ==> Solid(blk, ino)
      ensures !panicked ==> dino == old(dino)[i := dino[i]] && (dino != old(dino) ==> g.InodeBlock(i) in logged)
    {
      hide Sound, Keeps, Done, Wrote, Budget, HoleFree, Solid, SlotsSet, NeedsFor, FreeCount;
      ghost var s0 := Now();
      Unlogged(g, s0);
      logged := {};
      ghost var s, was := Now(), dino;
      r, panicked := Writei(i, off, bs);
      assert logged - {} == logged;
      NoBudget(g, old(HoleFree(blk, ino[i])));
      LogsSelf(g, s.blk, {});
      if !panicked && r >= 0 {
        DoneWrote(g, s0, s, was, Now(), dino, i, off, bs);
      }
    }

    /** The volume is in order, and `i` is a file on it. */
    ghost predicate Open(i: nat)
      reads this
    {
      Valid({}) && i < |ino| && Sized(ino[i])
    }

    /** What other processes may do while `filewrite` holds no lock: anything that
        leaves the volume in order. */
    method OtherProcesses(i: nat)
      requires Open(i)
      modifies this
      ensures Open(i)
    {
    }

    /** One turn of the loop of `filewrite`, when `src` is written. */
    method NextChunk(i: nat, end: nat, bs: seq<Byte>, ghost off: nat, ghost ss: seq<Step>)
      returns (r: int, panicked: bool, ghost ss': seq<Step>)
      requires Open(i) && end < WORD && |bs| <= CHUNK
      requires Steps(g, ss, i, off) && end == off + |Joined(ss)|
      modifies this
      ensures panicked ==> Full(bits)
      ensures !panicked ==> Open(i)
      ensures !panicked ==> if r == -1 then BadWrite(ino[i].size, end, |bs|) && ss' == ss
        else r == |bs| && Steps(g, ss', i, off) && Joined(ss') == Joined(ss) + bs && |ss'| == |ss| + 1 && ss'[..|ss|] == ss && ss'[|ss|].bs == bs
      ensures !panicked && r >= 0 ==> end + |bs| <= MAXFILE * BSIZE
    {
      hide Sound, Steps, Joined, Wrote, Budget, Logs, Solid, HoleFree;
      ghost var s := Now();
      r, panicked := Chunk(i, end, bs);
      ss' := ss;
      if !panicked && r >= 0 {
        ghost var x := Step(s, Now(), end, bs);
        assert StepOk(g, x, i);
        MoreSteps(g, ss, i, off, x);
        ss' := ss + [x];
      }
    }

    /** filewrite on a file, from `off` on, of which `tot` bytes are written. Each chunk
        is a transaction of its own, and other processes may change the file in
        between. */
    method Filewrite(i: nat, off: nat, src: seq<Byte>) returns (r: int, tot: nat, panicked: bool, ghost ss: seq<Step>)
      requires Open(i) && off < WORD
      modifies this
      ensures panicked ==> Full(bits)
      ensures !panicked ==> tot <= |src| && Steps(g, ss, i, off) && Joined(ss) == src[..tot]
      ensures !panicked ==> forall k :: 0 <= k < |ss| ==> |ss[k].bs| == Min(|src| - 1536 * k, 1536)
      ensures !panicked ==> r == if tot == |src| then |src| else -1
      ensures !panicked && r == -1 ==> i < |ino| && BadWrite(ino[i].size, off + tot, Min(|src| - tot, CHUNK))
    {
      hide Sound, Steps, Joined;
      tot, ss := 0, [];
      NoSteps(g, i, off);
      r := 0;
      while tot < |src|
        invariant 0 <= tot <= |src| && off + tot < WORD && Open(i)
        invariant Steps(g, ss, i, off) && Joined(ss) == src[..tot]
        invariant forall k :: 0 <= k < |ss| ==> |ss[k].bs| == Min(|src| - 1536 * k, 1536)
        invariant tot == Min(|src|, 1536 * |ss|)
      {
        OtherProcesses(i);
        var k := Min(|src| - tot, CHUNK);
        r, panicked, ss := NextChunk(i, off + tot, src[tot..tot + k], off, ss);
        if panicked {
          return;
        }
        if r < 0 {
          break;
        }
        SliceGrows(src, tot, k);
        tot := tot + r;
      }
      r := if tot == |src| then |src| else -1;
      panicked := false;
    }
  }

  /** A new volume whose first inode claims one block that is not there, in memory and
      on disk alike. */
  method WithHole() returns (v: Volume)
    ensures fresh(v) && v.Valid({}) && |v.ino| == 8 && Sized(v.ino[0]) && v.dino == v.ino
    ensures v.ino[0] == Inode(0, 0, BSIZE, NoAddrs) && FreeCount(v.bits) > 0
  {
    var g := Geometry(100, 8, 1, 3, 4);
    v := new Volume(g);
    ResizeOk(g, v.bits, v.blk, v.ino, v.owner, 0, BSIZE);
    FullCount(v.bits);
    assert !v.bits[4];
    v.ino := v.ino[0 := v.ino[0].(size := BSIZE)];
    v.dino := v.ino;
  }

  /** The record on disk is not always right: a byte written into a hole. */
  method StaleWrite() returns (v: Volume, r: int, panicked: bool, ghost s: Snapshot, ghost dino: seq<Inode>)
    ensures fresh(v) && |dino| == |s.ino| == 8 && dino[0] == s.ino[0] && Done(v.g, s, dino, v.Now(), v.dino, 0, 0, [65])
    ensures r == 1 && !panicked && v.dino[0] != v.ino[0]
  {
    v := WithHole();
    s, dino := v.Now(), v.dino;
    HoleNeeds(v.blk, v.ino[0]);
    r, panicked := v.Writei(0, 0, [65]);
  }

  /** And a byte read from a hole. */
  method StaleRead() returns (v: Volume, r: int, panicked: bool, ghost s: Snapshot, ghost dino: seq<Inode>)
    ensures fresh(v) && |dino| == |s.ino| == 8 && dino[0] == s.ino[0] && Filled(v.g, s, v.Now(), 0, 0, 1) && v.dino == dino
    ensures r == 1 && !panicked && v.dino[0] != v.ino[0]
  {
    v := WithHole();
    s, dino := v.Now(), v.dino;
    HoleNeeds(v.blk, v.ino[0]);
    var dst;
    r, dst, panicked := v.Readi(0, 0, 1);
  }
}
