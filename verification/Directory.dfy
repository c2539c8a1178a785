/** Directories (src/fs.c): a file of 16-byte records, each an inode number and
    a name of DIRSIZ bytes, used as a finite map from names to inode numbers.
    A directory is given here by its bytes, as `readi` returns them. */
module Directory {
  import opened Common
  import opened FsModel
  import opened Params

  const DIRSIZ := 14
  const RECORD := 16

  // ------------------------------------------------------------------- names

  /** Byte `k` of a C string; what follows its end is NUL. */
  function At(s: seq<Byte>, k: nat): Byte {
    if k < |s| then s[k] else 0
  }

  /** The part of a string that the first `n` bytes hold: up to a NUL. */
  function Cut(s: seq<Byte>, n: nat): (r: seq<Byte>)
    ensures |r| <= n
    decreases s
  {
    if n == 0 || At(s, 0) == 0 then [] else [s[0]] + Cut(s[1..], n - 1)
  }

  /** The name a string stands for in a directory. */
  function Name(s: seq<Byte>): seq<Byte> {
    Cut(s, DIRSIZ)
  }

  /** Two strings cut to `n` bytes agree if they agree byte by byte up to a
      common NUL. */
  lemma {:induction false} CutSame(p: seq<Byte>, q: seq<Byte>, n: nat, k: nat)
    requires k <= n && forall j :: 0 <= j < k ==> At(p, j) == At(q, j) != 0
    requires k == n || (At(p, k) == 0 && At(q, k) == 0)
    ensures Cut(p, n) == Cut(q, n)
    decreases n
  {
    if k > 0 {
      assert At(p, 0) == At(q, 0);
      forall j | 0 <= j < k - 1 ensures At(p[1..], j) == At(q[1..], j) != 0 {
        assert At(p, j + 1) == At(q, j + 1) != 0;
      }
      CutSame(p[1..], q[1..], n - 1, k - 1);
    }
  }

  lemma {:induction false} CutDiffers(p: seq<Byte>, q: seq<Byte>, n: nat, k: nat)
    requires k < n && forall j :: 0 <= j < k ==> At(p, j) == At(q, j) != 0
    requires At(p, k) != At(q, k)
    ensures Cut(p, n) != Cut(q, n)
    decreases n
  {
    if k > 0 {
      assert At(p, 0) == At(q, 0);
      forall j | 0 <= j < k - 1 ensures At(p[1..], j) == At(q[1..], j) != 0 {
        assert At(p, j + 1) == At(q, j + 1) != 0;
      }
      CutDiffers(p[1..], q[1..], n - 1, k - 1);
      assert Cut(p, n)[1..] == Cut(p[1..], n - 1) && Cut(q, n)[1..] == Cut(q[1..], n - 1);
    }
  }

  /** strncmp, for the question whether the result is zero. */
  method Strncmp(p: seq<Byte>, q: seq<Byte>, n: nat) returns (r: int)
    ensures r == 0 <==> Cut(p, n) == Cut(q, n)
  {
    var k := 0;
    while k < n && At(p, k) != 0 && At(p, k) == At(q, k)
      invariant 0 <= k <= n && forall j :: 0 <= j < k ==> At(p, j) == At(q, j) != 0
    {
      k := k + 1;
    }
    if k == n {
      CutSame(p, q, n, k);
      return 0;
    }
    if At(p, k) == At(q, k) {
      CutSame(p, q, n, k);
    } else {
      CutDiffers(p, q, n, k);
    }
    r := (At(p, k) as int) - (At(q, k) as int);
  }

  lemma {:induction false} CutIs(t: seq<Byte>, n: nat, m: nat)
    requires m <= n && (forall j :: 0 <= j < m ==> At(t, j) != 0) && (m == n || At(t, m) == 0)
    ensures m <= |t| && Cut(t, n) == t[..m]
    decreases n
  {
    if m > 0 {
      assert At(t, 0) != 0;
      forall j | 0 <= j < m - 1 ensures At(t[1..], j) != 0 {
        assert At(t, j + 1) != 0;
      }
      CutIs(t[1..], n - 1, m - 1);
      assert t[..m] == [t[0]] + t[1..][..m - 1];
    }
  }

  /** strncpy: cut to `n` bytes and padded with NULs. */
  method Strncpy(t: seq<Byte>, n: nat) returns (s: seq<Byte>)
    ensures |s| == n && Cut(s, n) == Cut(t, n)
    ensures s[..|Cut(t, n)|] == Cut(t, n) && forall j :: |Cut(t, n)| <= j < n ==> s[j] == 0
  {
    s := [];
    var k := 0;
    while k < n && At(t, k) != 0
      invariant 0 <= k <= n && |s| == k && forall j :: 0 <= j < k ==> s[j] == At(t, j) != 0
    {
      s := s + [At(t, k)];
      k := k + 1;
    }
    ghost var m := k;
    while k < n
      invariant m <= k <= n && |s| == k && (forall j :: 0 <= j < m ==> s[j] == At(t, j) != 0) && forall j :: m <= j < k ==> s[j] == 0
    {
      s := s + [0];
      k := k + 1;
    }
    CutSame(s, t, n, m);
    CutIs(t, n, m);
  }

  // ------------------------------------------------------------------ records

  datatype Record = Record(inum: nat, name: seq<Byte>) {
    /** It can be stored: a 16-bit number and DIRSIZ bytes of name. */
    predicate Fits() {
      inum < 65536 && |name| == DIRSIZ
    }
  }

  /** The record at byte `off`, as `readi` delivers it. */
  function Rec(f: seq<Byte>, off: nat): (r: Record)
    requires off + RECORD <= |f|
    ensures r.Fits()
  {
    var lo: int, hi: int := f[off], f[off + 1];
    Record(lo + 256 * hi, f[off + 2..off + RECORD])
  }

  function Bytes(r: Record): (bs: seq<Byte>)
    requires r.Fits()
    ensures |bs| == RECORD && Rec(bs, 0) == r
  {
    var bs := [r.inum % 256, r.inum / 256] + r.name;
    assert bs[2..RECORD] == r.name;
    bs
  }

  /** The `n` records of a directory. */
  function Records(f: seq<Byte>, n: nat): (rs: seq<Record>)
    requires |f| == RECORD * n
    ensures |rs| == n
  {
    if n == 0 then [] else [Rec(f, 0)] + Records(f[RECORD..], n - 1)
  }

  lemma {:induction false} RecordsAt(f: seq<Byte>, n: nat, k: nat)
    requires |f| == RECORD * n && k < n
    ensures Records(f, n)[k] == Rec(f, RECORD * k)
    decreases k
  {
    if k > 0 {
      var g := f[RECORD..];
      RecordsAt(g, n - 1, k - 1);
      assert g[RECORD * (k - 1) + 2..RECORD * (k - 1) + RECORD] == f[RECORD * k + 2..RECORD * k + RECORD];
    }
  }

  lemma RecSame(f: seq<Byte>, h: seq<Byte>)
    requires |f| >= RECORD && |h| >= RECORD && forall j :: 0 <= j < RECORD ==> h[j] == f[j]
    ensures Rec(h, 0) == Rec(f, 0)
  {
    assert h[2..RECORD] == f[2..RECORD];
  }

  /** Writing a record at its place replaces it; at the end, it adds one. */
  lemma {:induction false} SpliceRecords(f: seq<Byte>, n: nat, k: nat, r: Record)
    requires |f| == RECORD * n && k <= n && r.Fits()
    ensures var h := Splice(f, RECORD * k, Bytes(r));
      if k < n then |h| == RECORD * n && Records(h, n) == Records(f, n)[k := r]
      else |h| == RECORD * (n + 1) && Records(h, n + 1) == Records(f, n) + [r]
    decreases k
  {
    var bs := Bytes(r);
    SpliceSize(f, RECORD * k, bs);
    if k == 0 {
      SpliceFront(f, bs);
    } else {
      SpliceRecords(f[RECORD..], n - 1, k - 1, r);
      SpliceTail(f, RECORD * k, bs);
      hide Splice, Bytes, Rec;
      var h, t := Splice(f, RECORD * k, bs), Splice(f[RECORD..], RECORD * (k - 1), bs);
      assert h[RECORD..] == t && Rec(h, 0) == Rec(f, 0);
      var m := if k < n then n else n + 1;
      assert Records(h, m) == [Rec(h, 0)] + Records(t, m - 1) && Records(f, n) == [Rec(f, 0)] + Records(f[RECORD..], n - 1);
    }
  }

  lemma SpliceSize(f: seq<Byte>, off: nat, bs: seq<Byte>)
    requires off <= |f| && |bs| == RECORD
    ensures |Splice(f, off, bs)| == if off + RECORD <= |f| then |f| else off + RECORD
  {
  }

  lemma SpliceFront(f: seq<Byte>, bs: seq<Byte>)
    requires |bs| == RECORD && (f == [] || |f| >= RECORD)
    ensures Rec(Splice(f, 0, bs), 0) == Rec(bs, 0) && Splice(f, 0, bs)[RECORD..] == if f == [] then [] else f[RECORD..]
  {
    RecSame(bs, Splice(f, 0, bs));
  }

  lemma SpliceTail(f: seq<Byte>, off: nat, bs: seq<Byte>)
    requires RECORD <= off <= |f|
    ensures Splice(f, off, bs)[RECORD..] == Splice(f[RECORD..], off - RECORD, bs)
    ensures Rec(Splice(f, off, bs), 0) == Rec(f, 0)
  {
    RecSame(f, Splice(f, off, bs));
  }

  // --------------------------------------------------------------- finite map

  predicate Uses(r: Record, name: seq<Byte>) {
    r.inum != 0 && Name(r.name) == name
  }

  /** No name occurs twice. */
  ghost predicate DirOk(rs: seq<Record>) {
    forall j, k :: 0 <= j < k < |rs| && rs[j].inum != 0 ==> !Uses(rs[k], Name(rs[j].name))
  }

  /** Record `k` is the first one in use for the name. */
  ghost predicate FirstUse(rs: seq<Record>, name: seq<Byte>, k: nat) {
    k < |rs| && Uses(rs[k], name) && forall j :: 0 <= j < k ==> !Uses(rs[j], name)
  }

  /** What a directory maps a name to. */
  function Find(rs: seq<Record>, name: seq<Byte>): Option<nat> {
    if rs == [] then None
    else if Uses(rs[0], name) then Some(rs[0].inum)
    else Find(rs[1..], name)
  }

  lemma {:induction false} FindFirst(rs: seq<Record>, k: nat, name: seq<Byte>)
    requires FirstUse(rs, name, k)
    ensures Find(rs, name) == Some(rs[k].inum)
  {
    if k > 0 {
      FindFirst(rs[1..], k - 1, name);
    }
  }

  lemma {:induction false} FindNone(rs: seq<Record>, name: seq<Byte>)
    ensures Find(rs, name) == None <==> forall j :: 0 <= j < |rs| ==> !Uses(rs[j], name)
  {
    if rs != [] {
      FindNone(rs[1..], name);
      forall j | 0 <= j < |rs| ensures j > 0 ==> rs[j] == rs[1..][j - 1] {
      }
    }
  }

  /** A new name maps to its number and every other name to what it did, wherever
      an unused record takes it. */
  lemma {:induction false} LinkFind(rs: seq<Record>, k: nat, r: Record, name: seq<Byte>)
    requires k <= |rs| && r.inum != 0 && (k < |rs| ==> rs[k].inum == 0)
    requires Find(rs, Name(r.name)) == None
    ensures var hs := if k < |rs| then rs[k := r] else rs + [r];
      Find(hs, name) == if name == Name(r.name) then Some(r.inum) else Find(rs, name)
    decreases k
  {
    var hs := if k < |rs| then rs[k := r] else rs + [r];
    if k > 0 {
      LinkFind(rs[1..], k - 1, r, name);
      assert hs[1..] == if k < |rs| then rs[1..][k - 1 := r] else rs[1..] + [r];
    } else if |rs| > 0 {
      assert hs[1..] == rs[1..];
    }
  }

  lemma LinkOk(rs: seq<Record>, k: nat, r: Record)
    requires DirOk(rs) && k <= |rs| && r.inum != 0 && (k < |rs| ==> rs[k].inum == 0)
    requires Find(rs, Name(r.name)) == None
    ensures DirOk(if k < |rs| then rs[k := r] else rs + [r])
  {
    FindNone(rs, Name(r.name));
    var hs := if k < |rs| then rs[k := r] else rs + [r];
    forall i, j | 0 <= i < j < |hs| && hs[i].inum != 0 ensures !Uses(hs[j], Name(hs[i].name)) {
      if i != k {
        assert !Uses(rs[i], Name(r.name));
      }
    }
  }

  /** The first `k` records are in use, and the next one, if there is one, is not. */
  ghost predicate FirstFree(rs: seq<Record>, k: nat) {
    && k <= |rs| && (forall j :: 0 <= j < k ==> rs[j].inum != 0)
    && (k < |rs| ==> rs[k].inum == 0)
  }

  /** `hs` is `rs` with a record for `name` in the first place that is free, at the end
      only if none is; all others are as they were. */
  ghost predicate Placed(rs: seq<Record>, hs: seq<Record>, name: seq<Byte>, inum: nat, k: nat) {
    && FirstFree(rs, k) && k < |hs| && |hs| == (if k < |rs| then |rs| else |rs| + 1)
    && hs[k].inum == inum && |hs[k].name| == DIRSIZ && Name(hs[k].name) == Name(name)
    && forall j :: 0 <= j < |rs| && j != k ==> hs[j] == rs[j]
  }

  // --------------------------------------------------------------- operations

  /** A directory file with `n` records and no name twice. */
  ghost predicate IsDir(f: seq<Byte>, n: nat) {
    |f| == RECORD * n && DirOk(Records(f, n))
  }

  /** dirlookup: the number in the first record in use for the name, and its offset,
      or 0. A directory that ends within a record would be a panic. */
  method Lookup(f: seq<Byte>, ghost n: nat, name: seq<Byte>) returns (inum: nat, off: nat)
    requires |f| == RECORD * n
    ensures Find(Records(f, n), Name(name)) == if inum == 0 then None else Some(inum)
    ensures inum != 0 ==> off + RECORD <= |f| && Uses(Rec(f, off), Name(name))
    ensures inum != 0 ==> exists k: nat :: off == RECORD * k && FirstUse(Records(f, n), Name(name), k) && Records(f, n)[k].inum == inum
  {
    off := 0;
    ghost var k, rs, key := 0, Records(f, n), Name(name);
    while off < |f|
      invariant off == RECORD * k && k <= n
      invariant forall j :: 0 <= j < k ==> !Uses(rs[j], key)
    {
      RecordsAt(f, n, k);
      var de := Rec(f, off);
      if de.inum != 0 {
        var c := Strncmp(name, de.name, DIRSIZ);
        if c == 0 {
          FindFirst(rs, k, key);
          return de.inum, off;
        }
      }
      off := off + RECORD;
      k := k + 1;
    }
    FindNone(rs, key);
    inum := 0;
  }

  /** dirlink: refuses a name that is there already, else writes the first unused
      record or a new one at the end. `panicked` is that the directory has no
      unused record and is as large as a file can be. */
  method Link(f: seq<Byte>, ghost n: nat, name: seq<Byte>, inum: nat) returns (r: int, h: seq<Byte>, panicked: bool, ghost m: nat, ghost k: nat)
    requires IsDir(f, n) && |f| <= MAXFILE * BSIZE && 0 < inum < 65536
    ensures panicked <==> Find(Records(f, n), Name(name)) == None && |f| + RECORD > MAXFILE * BSIZE && forall k :: 0 <= k < n ==> Records(f, n)[k].inum != 0
    ensures !panicked ==> r == if Find(Records(f, n), Name(name)).Some? then -1 else 0
    ensures r == -1 ==> h == f
    ensures !panicked && r == 0 ==> |h| == RECORD * m && Placed(Records(f, n), Records(h, m), name, inum, k)
    ensures !panicked && r == 0 ==> IsDir(h, m) && forall x :: Find(Records(h, m), x) == if x == Name(name) then Some(inum) else Find(Records(f, n), x)
  {
    hide FirstUse, Records, Find;
    m, k := n, 0;
    var found, _ := Lookup(f, n, name);
    if found != 0 {
      return -1, f, false, n, 0;
    }
    var off := 0;
    while off < |f|
      invariant off == RECORD * k && k <= n
      invariant forall j :: 0 <= j < k ==> Records(f, n)[j].inum != 0
    {
      RecordsAt(f, n, k);
      if Rec(f, off).inum == 0 {
        break;
      }
      off := off + RECORD;
      k := k + 1;
    }
    if off + RECORD > MAXFILE * BSIZE {
      return -1, f, true, n, k;
    }
    panicked := false;
    var padded := Strncpy(name, DIRSIZ);
    var de := Record(inum, padded);
    m := if k < n then n else n + 1;
    SpliceRecords(f, n, k, de);
    LinkOk(Records(f, n), k, de);
    h := Splice(f, off, Bytes(de));
    forall x ensures Find(Records(h, m), x) == if x == Name(name) then Some(inum) else Find(Records(f, n), x) {
      LinkFind(Records(f, n), k, de, x);
    }
    r := 0;
  }
}
