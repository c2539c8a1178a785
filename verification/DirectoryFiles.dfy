/** `dirlookup` and `dirlink` (src/fs.c) on a mounted volume: the records are read with
    `readi` and written with `writei`. */
module DirectoryFiles {
  import opened Common
  import opened Params
  import opened FsModel
  import opened FreeSpace
  import opened FileSteps
  import opened FileSystem
  import opened Directory

  /** From `s` to `s'` file `i` is still `f`, and no other file changed; nothing at all
      did if the file had no hole. */
  ghost predicate Still(g: Geometry, s: Snapshot, s': Snapshot, i: nat, f: seq<Byte>) {
    && Sound(g, s', {}) && i < |s.ino| == |s'.ino| && Keeps(g, s, s', i)
    && Sized(s'.ino[i]) && s'.ino[i] == s.ino[i].(addrs := s'.ino[i].addrs) && File(s'.blk, s'.ino[i]) == f
    && (HoleFree(s.blk, s.ino[i]) ==> HoleFree(s'.blk, s'.ino[i]) && s' == s)
  }

  lemma StillSelf(g: Geometry, s: Snapshot, i: nat)
    requires Sound(g, s, {}) && i < |s.ino| && Sized(s.ino[i])
    ensures Still(g, s, s, i, File(s.blk, s.ino[i]))
  {
    KeepsSelf(g, s, i);
  }

  lemma StillRead(g: Geometry, s: Snapshot, s1: Snapshot, s2: Snapshot, i: nat, f: seq<Byte>, off: nat, n: nat)
    requires Still(g, s, s1, i, f) && Filled(g, s1, s2, i, off, n)
    ensures Still(g, s, s2, i, f)
  {
    hide Sound, Keeps, Spent, HoleFree;
    KeepsTrans(g, s, s1, s2, i);
  }

  lemma RecSlice(f: seq<Byte>, off: nat)
    requires off + RECORD <= |f|
    ensures Rec(f[off..off + RECORD], 0) == Rec(f, off)
  {
    assert f[off..off + RECORD][2..RECORD] == f[off + 2..off + RECORD];
  }

  /** `readi` of one record. The panic is that of `balloc`, for a hole. */
  method ReadRecord(v: Volume, ghost s: Snapshot, dp: nat, off: nat, ghost f: seq<Byte>) returns (de: Record, panicked: bool)
    requires v.Valid({}) && Still(v.g, s, v.Now(), dp, f) && off + RECORD <= |f|
    modifies v`blk, v`bits, v`ino, v`owner, v`logged
    ensures panicked ==> Full(v.bits) && !HoleFree(s.blk, s.ino[dp])
    ensures !panicked ==> v.Valid({}) && Still(v.g, s, v.Now(), dp, f) && de == Rec(f, off)
  {
    hide Sound, Keeps, Spent, HoleFree, File, Rec, NeedsFor, FreeCount, Solid, SlotsSet;
    ghost var s1 := v.Now();
    var r, bs;
    r, bs, panicked := v.Readi(dp, off, RECORD);
    if panicked {
      return Record(0, []), true;
    }
    StillRead(v.g, s, s1, v.Now(), dp, f, off, r);
    RecSlice(f, off);
    de := Rec(bs, 0);
  }

  /** dirlookup: the number in the first record in use for the name, and its offset,
      or 0. */
  method Dirlookup(v: Volume, ghost s: Snapshot, dp: nat, ghost f: seq<Byte>, ghost n: nat, name: seq<Byte>)
    returns (inum: nat, off: nat, panicked: bool)
    requires v.Valid({}) && Still(v.g, s, v.Now(), dp, f) && |f| == RECORD * n
    modifies v`blk, v`bits, v`ino, v`owner, v`logged
    ensures panicked ==> Full(v.bits) && !HoleFree(s.blk, s.ino[dp])
    ensures !panicked ==> v.Valid({}) && Still(v.g, s, v.Now(), dp, f)
    ensures !panicked ==> Find(Records(f, n), Name(name)) == if inum == 0 then None else Some(inum)
    ensures !panicked && inum != 0 ==> off + RECORD <= |f| && Uses(Rec(f, off), Name(name))
    ensures !panicked && inum != 0 ==> exists k: nat :: off == RECORD * k && FirstUse(Records(f, n), Name(name), k) && Records(f, n)[k].inum == inum
  {
    hide Sound, Keeps, HoleFree, File, Rec, Records;
    inum, off := 0, 0;
    ghost var k, rs, key := 0, Records(f, n), Name(name);
    while off < v.ino[dp].size
      invariant off == RECORD * k && k <= n && v.Valid({}) && Still(v.g, s, v.Now(), dp, f)
      invariant forall j :: 0 <= j < k ==> !Uses(rs[j], key)
      decreases n - k
    {
      RecordsAt(f, n, k);
      var de;
      de, panicked := ReadRecord(v, s, dp, off, f);
      if panicked {
        return;
      }
      if de.inum != 0 {
        var c := Strncmp(name, de.name, DIRSIZ);
        if c == 0 {
          FindFirst(rs, k, key);
          return de.inum, off, false;
        }
      }
      off := off + RECORD;
      k := k + 1;
    }
    FindNone(rs, key);
    panicked := false;
  }

  /** The loop of dirlink: the first unused record, or the end. */
  method FindUnused(v: Volume, ghost s: Snapshot, dp: nat, ghost f: seq<Byte>, ghost n: nat) returns (off: nat, panicked: bool, ghost k: nat)
    requires v.Valid({}) && Still(v.g, s, v.Now(), dp, f) && |f| == RECORD * n
    modifies v`blk, v`bits, v`ino, v`owner, v`logged
    ensures panicked ==> Full(v.bits) && !HoleFree(s.blk, s.ino[dp])
    ensures !panicked ==> v.Valid({}) && Still(v.g, s, v.Now(), dp, f) && off == RECORD * k && k <= n
    ensures !panicked ==> FirstFree(Records(f, n), k)
  {
    hide Sound, Keeps, HoleFree, File, Rec, Records;
    off, k := 0, 0;
    while off < v.ino[dp].size
      invariant off == RECORD * k && k <= n && v.Valid({}) && Still(v.g, s, v.Now(), dp, f)
      invariant forall j :: 0 <= j < k ==> Records(f, n)[j].inum != 0
      decreases n - k
    {
      RecordsAt(f, n, k);
      var de;
      de, panicked := ReadRecord(v, s, dp, off, f);
      if panicked {
        return;
      }
      if de.inum == 0 {
        return;
      }
      off := off + RECORD;
      k := k + 1;
    }
    panicked := false;
  }

  /** What dirlink makes of a directory: the first record that was free, or a new one if
      none was, holds the name; so the name maps to the number and every other name to
      what it did; and no other file changed. */
  ghost predicate Linked(g: Geometry, s: Snapshot, s': Snapshot, dp: nat, f: seq<Byte>, n: nat, name: seq<Byte>, inum: nat, m: nat, k: nat) {
    && Sound(g, s', {}) && dp < |s.ino| == |s'.ino| && Keeps(g, s, s', dp) && Sized(s'.ino[dp]) && |f| == RECORD * n
    && IsDir(File(s'.blk, s'.ino[dp]), m)
    && Placed(Records(f, n), Records(File(s'.blk, s'.ino[dp]), m), name, inum, k)
    && forall x :: Find(Records(File(s'.blk, s'.ino[dp]), m), x) == if x == Name(name) then Some(inum) else Find(Records(f, n), x)
  }

  lemma LinkedBy(g: Geometry, s: Snapshot, s1: Snapshot, s2: Snapshot, dino: seq<Inode>, dino': seq<Inode>,
                 dp: nat, f: seq<Byte>, n: nat, k: nat, de: Record, m: nat)
    requires de.Fits() && Still(g, s, s1, dp, f) && Done(g, s1, dino, s2, dino', dp, RECORD * k, Bytes(de))
    requires IsDir(f, n) && k <= n && de.inum != 0 && Find(Records(f, n), Name(de.name)) == None
    requires FirstFree(Records(f, n), k) && m == if k < n then n else n + 1
    ensures Linked(g, s, s2, dp, f, n, de.name, de.inum, m, k)
  {
    hide Sound, Keeps, HoleFree, Budget, NeedsFor, FreeCount;
    KeepsTrans(g, s, s1, s2, dp);
    OverwrittenIsSplice(f, File(s2.blk, s2.ino[dp]), RECORD * k, Bytes(de));
    LinkRecords(f, n, k, de, m);
  }

  lemma LinkRecords(f: seq<Byte>, n: nat, k: nat, de: Record, m: nat)
    requires IsDir(f, n) && k <= n && de.Fits() && de.inum != 0 && Find(Records(f, n), Name(de.name)) == None
    requires FirstFree(Records(f, n), k) && m == if k < n then n else n + 1
    ensures IsDir(Splice(f, RECORD * k, Bytes(de)), m)
    ensures Placed(Records(f, n), Records(Splice(f, RECORD * k, Bytes(de)), m), de.name, de.inum, k)
    ensures forall x :: Find(Records(Splice(f, RECORD * k, Bytes(de)), m), x) == if x == Name(de.name) then Some(de.inum) else Find(Records(f, n), x)
  {
    hide Splice, Bytes, Rec, Find, Name;
    SpliceRecords(f, n, k, de);
    LinkOk(Records(f, n), k, de);
    forall x ensures Find(Records(Splice(f, RECORD * k, Bytes(de)), m), x) == if x == Name(de.name) then Some(de.inum) else Find(Records(f, n), x) {
      LinkFind(Records(f, n), k, de, x);
    }
  }

  /** dirlink: refuses a name that is there already, else writes the first unused record
      or a new one at the end. It panics if the disk is full, or if the directory has
      no unused record and is as large as a file can be. */
  method Dirlink(v: Volume, dp: nat, ghost n: nat, name: seq<Byte>, inum: nat) returns (r: int, panicked: bool, ghost m: nat, ghost k: nat)
    requires v.Open(dp) && IsDir(File(v.blk, v.ino[dp]), n) && 0 < inum < 65536
    modifies v
    ensures panicked && !Full(v.bits) ==>
      && Find(Records(old(File(v.blk, v.ino[dp])), n), Name(name)) == None && old(v.ino[dp].size) + RECORD > MAXFILE * BSIZE
      && forall j :: 0 <= j < n ==> Records(old(File(v.blk, v.ino[dp])), n)[j].inum != 0
    ensures !panicked ==> v.Valid({}) && r == if Find(Records(old(File(v.blk, v.ino[dp])), n), Name(name)).Some? then -1 else 0
    ensures !panicked && r == -1 ==> Still(v.g, old(v.Now()), v.Now(), dp, old(File(v.blk, v.ino[dp]))) && v.dino == old(v.dino)
    ensures !panicked && r == 0 ==> Linked(v.g, old(v.Now()), v.Now(), dp, old(File(v.blk, v.ino[dp])), n, name, inum, m, k)
    ensures !panicked && r == 0 ==> dp < |v.ino|
    ensures !panicked && r == 0 && (forall j :: 0 <= j < n ==> Records(old(File(v.blk, v.ino[dp])), n)[j].inum != 0) ==>
      v.ino[dp].size == old(v.ino[dp].size) + RECORD
    ensures !panicked && r == 0 && (exists j :: 0 <= j < n && Records(old(File(v.blk, v.ino[dp])), n)[j].inum == 0) ==>
      v.ino[dp].size == old(v.ino[dp].size)
  {
    hide Sound, Keeps, HoleFree, File, Rec, Records, NeedsFor, FreeCount, Solid, SlotsSet, Linked, Done, DirOk, Find;
    ghost var s, f := v.Now(), File(v.blk, v.ino[dp]);
    StillSelf(v.g, s, dp);
    m, r, k := n, -1, 0;
    var found, off;
    found, off, panicked := Dirlookup(v, s, dp, f, n, name);
    if panicked || found != 0 {
      return;
    }
    off, panicked, k := FindUnused(v, s, dp, f, n);
    if panicked {
      return;
    }
    r, panicked := WriteRecord(v, s, dp, f, n, off, k, name, inum);
    m := if k < n then n else n + 1;
    if !panicked {
      LinkedSize(v.g, s, v.Now(), dp, f, n, name, inum, m, k);
    }
  }

  /** The end of dirlink. */
  method WriteRecord(v: Volume, ghost s: Snapshot, dp: nat, ghost f: seq<Byte>, ghost n: nat, off: nat, ghost k: nat, name: seq<Byte>, inum: nat)
    returns (r: int, panicked: bool)
    requires v.Valid({}) && Still(v.g, s, v.Now(), dp, f) && IsDir(f, n) && 0 < inum < 65536
    requires off == RECORD * k && k <= n && FirstFree(Records(f, n), k) && Find(Records(f, n), Name(name)) == None
    modifies v
    ensures r == 0
    ensures panicked ==> Full(v.bits) || off + RECORD > MAXFILE * BSIZE
    ensures !panicked ==> v.Valid({}) && Linked(v.g, s, v.Now(), dp, f, n, name, inum, if k < n then n else n + 1, k)
  {
    hide Sound, Keeps, HoleFree, NeedsFor, FreeCount, Solid, SlotsSet, Done, Rec, Records, Find, DirOk;
    var padded := Strncpy(name, DIRSIZ);
    var de := Record(inum, padded);
    ghost var s1, was := v.Now(), v.dino;
    var w;
    w, panicked := v.Writei(dp, off, Bytes(de));
    r := 0;
    if w != RECORD {
      return 0, true;
    }
    if !panicked {
      LinkedBy(v.g, s, s1, v.Now(), was, v.dino, dp, f, n, k, de, if k < n then n else n + 1);
      SameName(v.g, s, v.Now(), dp, f, n, de.name, name, inum, if k < n then n else n + 1, k);
    }
  }

  lemma SameName(g: Geometry, s: Snapshot, s': Snapshot, dp: nat, f: seq<Byte>, n: nat, a: seq<Byte>, b: seq<Byte>, inum: nat, m: nat, k: nat)
    requires Linked(g, s, s', dp, f, n, a, inum, m, k) && Name(a) == Name(b)
    ensures Linked(g, s, s', dp, f, n, b, inum, m, k)
  {
  }

  /** The directory grows exactly if no record was free. */
  lemma LinkedSize(g: Geometry, s: Snapshot, s': Snapshot, dp: nat, f: seq<Byte>, n: nat, name: seq<Byte>, inum: nat, m: nat, k: nat)
    requires Linked(g, s, s', dp, f, n, name, inum, m, k)
    ensures dp < |s'.ino| && |f| == RECORD * n
    ensures if forall j :: 0 <= j < n ==> Records(f, n)[j].inum != 0 then s'.ino[dp].size == |f| + RECORD else s'.ino[dp].size == |f|
  {
    hide Sound, Keeps, DirOk, Find;
    assert |File(s'.blk, s'.ino[dp])| == RECORD * m && |Records(f, n)| == n;
    if k < n {
      assert Records(f, n)[k].inum == 0;
    } else {
      assert forall j :: 0 <= j < n ==> Records(f, n)[j].inum != 0;
    }
  }
}
