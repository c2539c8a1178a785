/** Inode references and path walk (src/fs.c): `iget`, `idup`, `iput`,
    `skipelem` and `namex`. */
module Namei {
  import opened Common
  import opened FsModel
  import opened Directory

  const ROOTINO := 1
  const T_DIR := 1
  const SLASH: Byte := 47

  /** An inode record of the device; a directory by its records. The type of an
      inode that is free is 0. */
  datatype Node = Node(kind: int, nlink: nat, recs: seq<Record>)

  /** A slot of the inode cache; it is free when `refs` is zero. */
  datatype Slot = Slot(inum: nat, refs: nat, valid: bool)

  // --------------------------------------------------------------- references

  function Holds(e: Slot, x: nat): nat {
    if e.inum == x then e.refs else 0
  }

  /** References to inode `x`, over all slots. */
  function Refs(a: seq<Slot>, x: nat): nat {
    if a == [] then 0 else Refs(a[..|a| - 1], x) + Holds(a[|a| - 1], x)
  }

  lemma {:induction false} RefsUpdate(a: seq<Slot>, k: nat, e: Slot, x: nat)
    requires k < |a|
    ensures Refs(a[k := e], x) == Refs(a, x) - Holds(a[k], x) + Holds(e, x)
  {
    var n := |a| - 1;
    if k < n {
      RefsUpdate(a[..n], k, e, x);
      assert a[k := e][..n] == a[..n][k := e];
    } else {
      assert a[k := e][..n] == a[..n];
    }
  }

  /** No inode is in two slots. */
  ghost predicate Unique(a: seq<Slot>) {
    forall j, k :: 0 <= j < k < |a| && a[j].refs > 0 && a[k].refs > 0 ==> a[j].inum != a[k].inum
  }

  lemma {:induction false} RefsNone(a: seq<Slot>, x: nat)
    requires forall k :: 0 <= k < |a| && a[k].refs > 0 ==> a[k].inum != x
    ensures Refs(a, x) == 0
  {
    if a != [] {
      RefsNone(a[..|a| - 1], x);
    }
  }

  lemma {:induction false} RefsOne(a: seq<Slot>, k: nat)
    requires Unique(a) && k < |a| && a[k].refs > 0
    ensures Refs(a, a[k].inum) == a[k].refs
  {
    var n := |a| - 1;
    if k < n {
      RefsOne(a[..n], k);
    } else {
      RefsNone(a[..n], a[k].inum);
    }
  }

  /** `b` has one reference to `x` more than `a`. */
  ghost predicate OneMore(a: seq<Slot>, b: seq<Slot>, x: nat) {
    forall y: nat :: Refs(b, y) == Refs(a, y) + if y == x then 1 else 0
  }

  ghost predicate SameRefs(a: seq<Slot>, b: seq<Slot>) {
    forall y: nat :: Refs(b, y) == Refs(a, y)
  }

  // --------------------------------------------------------------- components

  /** Bytes up to the first slash. */
  function First(p: seq<Byte>): (r: seq<Byte>)
    ensures |r| <= |p|
  {
    if p == [] || p[0] == SLASH then [] else [p[0]] + First(p[1..])
  }

  /** A path split at its slashes, empty parts dropped. */
  function Components(p: seq<Byte>): seq<seq<Byte>>
    decreases |p|
  {
    if p == [] then []
    else if p[0] == SLASH then Components(p[1..])
    else [First(p)] + Components(p[|First(p)|..])
  }

  /** With the next lemma, what splitting a path at its slashes is: a slash ends a
      component, */
  lemma {:induction false} ComponentsJoin(p: seq<Byte>, q: seq<Byte>)
    ensures Components(p + [SLASH] + q) == Components(p) + Components(q)
    decreases |p|
  {
    var r := p + [SLASH] + q;
    if p == [] {
      assert r[1..] == q;
    } else if p[0] == SLASH {
      ComponentsJoin(p[1..], q);
      assert r[1..] == p[1..] + [SLASH] + q;
    } else {
      var k := |First(p)|;
      FirstStops(p);
      FirstIs(r, k);
      assert First(r) == First(p);
      ComponentsJoin(p[k..], q);
      assert r[k..] == p[k..] + [SLASH] + q;
    }
  }

  /** and bytes without a slash are one, unless there are none. */
  lemma ComponentsWhole(p: seq<Byte>)
    requires SLASH !in p
    ensures Components(p) == if p == [] then [] else [p]
  {
    if p != [] {
      FirstIs(p, |p|);
      assert p[..|p|] == p && p[|p|..] == [];
    }
  }

  lemma {:induction false} FirstStops(p: seq<Byte>)
    ensures forall j :: 0 <= j < |First(p)| ==> p[j] != SLASH
    ensures First(p) == p[..|First(p)|] && (|First(p)| == |p| || p[|First(p)|] == SLASH)
  {
    if p != [] && p[0] != SLASH {
      FirstStops(p[1..]);
      assert p[..|First(p)|] == [p[0]] + p[1..][..|First(p[1..])|];
    }
  }

  // --------------------------------------------------------------------- walk

  /** Following the components from inode `x`, to the end or to its parent. */
  function Walk(disk: seq<Node>, x: nat, cs: seq<seq<Byte>>, parent: bool): Option<nat>
    decreases |cs|
  {
    if cs == [] then (if parent then None else Some(x))
    else if x >= |disk| || disk[x].kind != T_DIR then None
    else if parent && |cs| == 1 then Some(x)
    else
      match Find(disk[x].recs, Name(cs[0]))
      case None => None
      case Some(y) => Walk(disk, y, cs[1..], parent)
  }

  /** Inode `x` is a directory that has `y` under the name of component `c`. */
  ghost predicate Entry(disk: seq<Node>, x: nat, c: seq<Byte>, y: nat) {
    x < |disk| && disk[x].kind == T_DIR && exists k: nat :: FirstUse(disk[x].recs, Name(c), k) && disk[x].recs[k].inum == y
  }

  /** Inodes, each the one before's entry for the component in between. */
  ghost predicate Chain(disk: seq<Node>, xs: seq<nat>, cs: seq<seq<Byte>>) {
    |xs| == |cs| + 1 && forall i :: 0 <= i < |cs| ==> Entry(disk, xs[i], cs[i], xs[i + 1])
  }

  lemma EntryFound(disk: seq<Node>, x: nat, c: seq<Byte>, y: nat)
    requires x < |disk| && disk[x].kind == T_DIR
    ensures Entry(disk, x, c, y) <==> Find(disk[x].recs, Name(c)) == Some(y)
  {
    var rs, n := disk[x].recs, Name(c);
    forall k: nat | FirstUse(rs, n, k) ensures Find(rs, n) == Some(rs[k].inum) {
      FindFirst(rs, k, n);
    }
    FindNone(rs, n);
    if Find(rs, n).Some? {
      var k := FirstUser(rs, n, |rs|);
    }
  }

  lemma {:induction false} FirstUser(rs: seq<Record>, name: seq<Byte>, m: nat) returns (k: nat)
    requires m <= |rs| && exists j :: 0 <= j < m && Uses(rs[j], name)
    ensures FirstUse(rs, name, k)
  {
    if j :| 0 <= j < m - 1 && Uses(rs[j], name) {
      k := FirstUser(rs, name, m - 1);
    } else {
      k := m - 1;
    }
  }

  /** A walk comes to `y` exactly if a chain of directory entries leads there. */
  lemma {:induction false} WalkExactly(disk: seq<Node>, x: nat, cs: seq<seq<Byte>>, y: nat)
    ensures Walk(disk, x, cs, false) == Some(y) <==> exists xs :: Chain(disk, xs, cs) && xs[0] == x && xs[|cs|] == y
    decreases |cs|
  {
    if cs == [] {
      assert Chain(disk, [x], cs);
    } else {
      forall xs | Chain(disk, xs, cs) && xs[0] == x && xs[|cs|] == y ensures Walk(disk, x, cs, false) == Some(y) {
        EntryFound(disk, x, cs[0], xs[1]);
        assert Chain(disk, xs[1..], cs[1..]);
        WalkExactly(disk, xs[1], cs[1..], y);
      }
      if Walk(disk, x, cs, false) == Some(y) {
        var z := Find(disk[x].recs, Name(cs[0])).value;
        EntryFound(disk, x, cs[0], z);
        WalkExactly(disk, z, cs[1..], y);
        var xs :| Chain(disk, xs, cs[1..]) && xs[0] == z && xs[|cs[1..]|] == y;
        ChainFrom(disk, x, xs, cs);
      }
    }
  }

  lemma ChainFrom(disk: seq<Node>, x: nat, xs: seq<nat>, cs: seq<seq<Byte>>)
    requires cs != [] && Chain(disk, xs, cs[1..]) && Entry(disk, x, cs[0], xs[0])
    ensures Chain(disk, [x] + xs, cs)
  {
    var ys := [x] + xs;
    forall i | 0 <= i < |cs| ensures Entry(disk, ys[i], cs[i], ys[i + 1]) {
      if i > 0 {
        assert cs[i] == cs[1..][i - 1] && Entry(disk, xs[i - 1], cs[1..][i - 1], xs[i]);
      }
    }
  }

  /** A walk to the parent is one over all components but the last, to a directory. */
  lemma {:induction false} ParentWalk(disk: seq<Node>, x: nat, cs: seq<seq<Byte>>, y: nat)
    ensures Walk(disk, x, cs, true) == Some(y) <==>
      cs != [] && Walk(disk, x, cs[..|cs| - 1], false) == Some(y) && y < |disk| && disk[y].kind == T_DIR
    decreases |cs|
  {
    if |cs| > 1 && x < |disk| && disk[x].kind == T_DIR && Find(disk[x].recs, Name(cs[0])).Some? {
      ParentWalk(disk, Find(disk[x].recs, Name(cs[0])).value, cs[1..], y);
      assert cs[..|cs| - 1][1..] == cs[1..][..|cs| - 2];
    }
  }

  /** skipelem: the name buffer and the rest of the path; -1 when there is no
      component left. */
  method Skipelem(path: seq<Byte>) returns (ok: bool, name: seq<Byte>, rest: seq<Byte>)
    requires forall k :: 0 <= k < |path| ==> path[k] != 0
    ensures ok <==> Components(path) != []
    ensures ok ==> Name(name) == Name(Components(path)[0]) && Components(rest) == Components(path)[1..]
    ensures ok ==> |rest| < |path| && (rest == [] <==> Components(rest) == []) && forall k :: 0 <= k < |rest| ==> rest[k] != 0
  {
    var p := SkipSlashes(path);
    if p == [] {
      return false, [], [];
    }
    var k := 0;
    while k < |p| && p[k] != SLASH
      invariant 0 <= k <= |p| && forall j :: 0 <= j < k ==> p[j] != SLASH
    {
      k := k + 1;
    }
    FirstIs(p, k);
    name := if k >= DIRSIZ then p[..DIRSIZ] else p[..k] + [0];
    NameOfBuffer(p[..k], name);
    rest := SkipSlashes(p[k..]);
    ok := true;
  }

  method SkipSlashes(path: seq<Byte>) returns (p: seq<Byte>)
    requires forall k :: 0 <= k < |path| ==> path[k] != 0
    ensures |p| <= |path| && (p == [] || p[0] != SLASH) && Components(p) == Components(path)
    ensures forall k :: 0 <= k < |p| ==> p[k] != 0
  {
    p := path;
    while |p| > 0 && p[0] == SLASH
      invariant |p| <= |path| && Components(p) == Components(path)
      invariant forall k :: 0 <= k < |p| ==> p[k] != 0
      decreases |p|
    {
      p := p[1..];
    }
  }

  lemma {:induction false} FirstIs(p: seq<Byte>, k: nat)
    requires k <= |p| && (forall j :: 0 <= j < k ==> p[j] != SLASH) && (k == |p| || p[k] == SLASH)
    ensures First(p) == p[..k]
    decreases k
  {
    if k > 0 {
      FirstIs(p[1..], k - 1);
      assert p[..k] == [p[0]] + p[1..][..k - 1];
    }
  }

  /** A name cut to DIRSIZ bytes, with a NUL only if it is shorter, stands for the
      same name. */
  lemma NameOfBuffer(s: seq<Byte>, name: seq<Byte>)
    requires name == if |s| >= DIRSIZ then s[..DIRSIZ] else s + [0]
    requires forall k :: 0 <= k < |s| ==> s[k] != 0
    ensures Name(name) == Name(s)
  {
    CutSame(name, s, DIRSIZ, if |s| >= DIRSIZ then DIRSIZ else |s|);
  }

  // -------------------------------------------------------------- inode cache

  lemma {:induction false} FindNonzero(rs: seq<Record>, name: seq<Byte>)
    ensures Find(rs, name).Some? ==> Find(rs, name).value != 0
  {
    if rs != [] {
      FindNonzero(rs[1..], name);
    }
  }

  /** One component further. */
  lemma {:induction false} WalkOn(disk: seq<Node>, x: nat, cs: seq<seq<Byte>>, c: seq<Byte>, m: nat, y: nat)
    requires Walk(disk, x, cs, false) == Some(m) && m < |disk| && disk[m].kind == T_DIR
    requires Find(disk[m].recs, Name(c)) == Some(y)
    ensures Walk(disk, x, cs + [c], false) == Some(y)
    decreases |cs|
  {
    assert (cs + [c])[1..] == if cs == [] then [] else cs[1..] + [c];
    if cs != [] {
      var z := Find(disk[x].recs, Name(cs[0])).value;
      WalkOn(disk, z, cs[1..], c, m, y);
    }
  }

  /** After `n` of the components the walk is at inode `x`. */
  ghost predicate OnPath(disk: seq<Node>, start: nat, cs: seq<seq<Byte>>, n: nat, x: nat, parent: bool) {
    && n <= |cs| && Walk(disk, start, cs[..n], false) == Some(x)
    && Walk(disk, start, cs, parent) == Walk(disk, x, cs[n..], parent)
  }

  lemma NextOnPath(disk: seq<Node>, start: nat, cs: seq<seq<Byte>>, n: nat, x: nat, parent: bool, y: nat)
    requires OnPath(disk, start, cs, n, x, parent) && n < |cs| && x < |disk| && disk[x].kind == T_DIR
    requires Find(disk[x].recs, Name(cs[n])) == Some(y) && !(parent && n + 1 == |cs|)
    ensures OnPath(disk, start, cs, n + 1, y, parent)
  {
    WalkOn(disk, start, cs[..n], cs[n], x, y);
    assert cs[..n] + [cs[n]] == cs[..n + 1] && cs[n..][1..] == cs[n + 1..];
  }

  /** The walk over `before` comes to an inode that has no type. */
  ghost predicate MeetsNoType(before: seq<Node>, disk: seq<Node>, start: nat, cs: seq<seq<Byte>>) {
    exists n :: 0 <= n <= |cs| && Walk(before, start, cs[..n], false).Some? && NoType(disk, Walk(before, start, cs[..n], false).value)
  }

  /** What a free inode looks like on disk. */
  const FREE := Node(0, 0, [])

  /** There is no inode `x` to read in. */
  predicate NoType(disk: seq<Node>, x: nat) {
    x >= |disk| || disk[x].kind == 0
  }

  /** The disk as it was, but for inodes without a link that nobody held: these
      may have been freed. */
  ghost predicate Kept(a: seq<Slot>, before: seq<Node>, disk: seq<Node>) {
    && |disk| == |before|
    && forall x :: 0 <= x < |disk| ==> disk[x] == before[x] || (disk[x] == FREE && before[x].nlink == 0 && Refs(a, x) == 0)
  }

  /** An inode that is read in has not been freed since. */
  ghost predicate Fresh(inode: seq<Slot>, before: seq<Node>, disk: seq<Node>) {
    forall j :: 0 <= j < |inode| && inode[j].refs > 0 && inode[j].valid ==>
      inode[j].inum < |disk| && inode[j].inum < |before| && disk[inode[j].inum] == before[inode[j].inum]
  }

  class Icache {
    const inode: array<Slot>
    var disk: seq<Node>

    constructor (n: nat, disk: seq<Node>)
      ensures this.disk == disk && fresh(inode) && inode.Length == n && Unique(inode[..]) && forall x: nat :: Refs(inode[..], x) == 0
    {
      inode := new Slot[n](_ => Slot(0, 0, false));
      this.disk := disk;
      new;
      forall x: nat ensures Refs(inode[..], x) == 0 {
        RefsNone(inode[..], x);
      }
    }

    /** iget: a slot for inode `x`, the one it is cached in or the first free one.
        `panicked` is "iget: no inodes". */
    method Iget(x: nat) returns (k: nat, panicked: bool)
      requires Unique(inode[..])
      modifies inode
      ensures panicked <==> forall j :: 0 <= j < inode.Length ==> old(inode[j].refs) > 0 && old(inode[j].inum) != x
      ensures panicked ==> inode[..] == old(inode[..])
      ensures !panicked ==> k < inode.Length && inode[k].inum == x && inode[k].refs > 0
      ensures !panicked ==> Unique(inode[..]) && OneMore(old(inode[..]), inode[..], x)
      ensures !panicked ==> forall j :: 0 <= j < inode.Length && old(inode[j].refs) > 0 ==>
        inode[j].inum == old(inode[j].inum) && inode[j].refs > 0 && inode[j].valid == old(inode[j].valid)
      ensures !panicked ==> forall j :: 0 <= j < inode.Length && inode[j].refs > 0 && inode[j].valid ==> old(inode[j].refs) > 0
      ensures !panicked ==> forall j :: 0 <= j < inode.Length && j != k ==> inode[j] == old(inode[j])
      ensures !panicked && old(inode[k].refs) == 0 ==>
        && inode[k] == Slot(x, 1, false) && (forall j :: 0 <= j < k ==> old(inode[j].refs) > 0)
        && forall j :: 0 <= j < inode.Length && old(inode[j].refs) > 0 ==> old(inode[j].inum) != x
    {
      var free := -1;
      k := 0;
      while k < inode.Length
        invariant 0 <= k <= inode.Length && -1 <= free < k && inode[..] == old(inode[..])
        invariant forall j :: 0 <= j < k ==> !(inode[j].refs > 0 && inode[j].inum == x)
        invariant if free >= 0 then inode[free].refs == 0 else forall j :: 0 <= j < k ==> inode[j].refs > 0
        invariant forall j :: 0 <= j < free ==> inode[j].refs > 0
      {
        if inode[k].refs > 0 && inode[k].inum == x {
          Replace(k, inode[k].(refs := inode[k].refs + 1), x);
          return k, false;
        }
        if free < 0 && inode[k].refs == 0 {
          free := k;
        }
        k := k + 1;
      }
      if free < 0 {
        return 0, true;
      }
      Replace(free, Slot(x, 1, false), x);
      return free, false;
    }

    /** A slot takes one reference to `x` more. */
    method Replace(k: nat, e: Slot, ghost x: nat)
      requires k < inode.Length && Unique(inode[..]) && e.inum == x && e.refs == inode[k].refs + 1
      requires inode[k].refs == 0 || inode[k].inum == x
      requires forall j :: 0 <= j < inode.Length && j != k ==> !(inode[j].refs > 0 && inode[j].inum == x)
      modifies inode
      ensures inode[..] == old(inode[..])[k := e] && Unique(inode[..]) && OneMore(old(inode[..]), inode[..], x)
    {
      forall y: nat ensures Refs(inode[..][k := e], y) == Refs(inode[..], y) + if y == x then 1 else 0 {
        RefsUpdate(inode[..], k, e, y);
      }
      inode[k] := e;
      assert inode[..] == old(inode[..])[k := e];
    }

    /** idup. */
    method Idup(k: nat)
      requires k < inode.Length && Unique(inode[..]) && inode[k].refs > 0
      modifies inode
      ensures inode[..] == old(inode[..])[k := inode[k]] && inode[k] == old(inode[k]).(refs := old(inode[k].refs) + 1)
      ensures Unique(inode[..]) && OneMore(old(inode[..]), inode[..], inode[k].inum)
    {
      assert forall j :: 0 <= j < inode.Length ==> inode[j] == inode[..][j];
      Replace(k, inode[k].(refs := inode[k].refs + 1), inode[k].inum);
    }

    /** ilock, as far as it reads the inode in. `panicked` is "ilock: no type", or
        that the record lies beyond the device. */
    method Ilock(k: nat) returns (panicked: bool)
      requires k < inode.Length && Unique(inode[..]) && inode[k].refs > 0
      modifies inode
      ensures panicked <==> !old(inode[k].valid) && NoType(disk, inode[k].inum)
      ensures inode[..] == old(inode[..])[k := old(inode[k]).(valid := true)]
      ensures Unique(inode[..]) && SameRefs(old(inode[..]), inode[..])
    {
      panicked := false;
      if !inode[k].valid {
        forall y: nat ensures Refs(inode[..][k := inode[k].(valid := true)], y) == Refs(inode[..], y) {
          RefsUpdate(inode[..], k, inode[k].(valid := true), y);
        }
        inode[k] := inode[k].(valid := true);
        panicked := inode[k].inum >= |disk| || disk[inode[k].inum].kind == 0;
      }
      assert inode[..] == old(inode[..])[k := old(inode[k]).(valid := true)];
    }

    /** iput: the last reference to an inode without links frees it. */
    method Iput(k: nat)
      requires k < inode.Length && Unique(inode[..]) && inode[k].refs > 0
      requires inode[k].valid ==> inode[k].inum < |disk|
      modifies this, inode
      ensures Unique(inode[..]) && OneMore(inode[..], old(inode[..]), old(inode[k].inum))
      ensures disk == if old(inode[k].valid && disk[inode[k].inum].nlink == 0 && inode[k].refs == 1)
        then old(disk)[old(inode[k].inum) := FREE] else old(disk)
      ensures inode[..] == old(inode[..])[k := inode[k]] && inode[k].inum == old(inode[k].inum) && inode[k].refs == old(inode[k].refs) - 1
      ensures inode[k].valid <==> old(inode[k].valid) && !old(disk[inode[k].inum].nlink == 0 && inode[k].refs == 1)
    {
      var e := inode[k];
      if e.valid && disk[e.inum].nlink == 0 {
        if e.refs == 1 {
          disk := disk[e.inum := FREE];
          e := e.(valid := false);
        }
      }
      e := e.(refs := e.refs - 1);
      forall y: nat ensures Refs(inode[..], y) == Refs(inode[..][k := e], y) + if y == e.inum then 1 else 0 {
        RefsUpdate(inode[..], k, e, y);
      }
      inode[k] := e;
      assert inode[..] == old(inode[..])[k := e];
    }

    /** The references are those of `a` and one to `x`, and the disk is `before`
        but for what may have been freed. */
    ghost predicate Holding(a: seq<Slot>, before: seq<Node>, x: nat)
      reads this, inode
    {
      Unique(inode[..]) && OneMore(a, inode[..], x) && Kept(a, before, disk) && Fresh(inode[..], before, disk)
    }

    /** The references are those of `a`. */
    ghost predicate Balanced(a: seq<Slot>, before: seq<Node>)
      reads this, inode
    {
      Unique(inode[..]) && SameRefs(a, inode[..]) && Kept(a, before, disk) && Fresh(inode[..], before, disk)
    }

    /** Giving back the walk's own reference frees the inode only if nobody else
        holds it and it has no link. */
    method PutBack(k: nat, ghost a: seq<Slot>, ghost before: seq<Node>)
      requires k < inode.Length && inode[k].refs > 0 && Holding(a, before, inode[k].inum)
      modifies this, inode
      ensures Balanced(a, before)
    {
      RefsOne(inode[..], k);
      ghost var was := inode[..];
      Iput(k);
      forall y: nat ensures Refs(inode[..], y) == Refs(a, y) {
        assert Refs(was, y) == Refs(inode[..], y) + if y == was[k].inum then 1 else 0;
      }
      assert forall j :: 0 <= j < inode.Length && j != k ==> inode[j] == inode[..][j] == was[j];
    }

    /** The same after a reference to `x` was taken: that one is kept. */
    method PutBackKeeping(k: nat, x: nat, ghost a: seq<Slot>, ghost b: seq<Slot>, ghost before: seq<Node>)
      requires k < inode.Length && inode[k].refs > 0 && Unique(inode[..])
      requires OneMore(a, b, inode[k].inum) && OneMore(b, inode[..], x)
      requires Kept(a, before, disk) && Fresh(inode[..], before, disk)
      modifies this, inode
      ensures Holding(a, before, x)
      ensures forall j :: 0 <= j < inode.Length ==> inode[j].inum == old(inode[j].inum)
      ensures forall j :: 0 <= j < inode.Length && old(inode[j].refs) > 0 && inode[j].inum == x ==> inode[j].refs > 0
    {
      RefsOne(inode[..], k);
      ghost var was := inode[..];
      assert inode[k].inum == x ==> inode[k].refs >= 2;
      Iput(k);
      forall y: nat ensures Refs(inode[..], y) == Refs(a, y) + if y == x then 1 else 0 {
        assert Refs(was, y) == Refs(inode[..], y) + if y == was[k].inum then 1 else 0;
        assert Refs(was, y) == Refs(b, y) + if y == x then 1 else 0;
        assert Refs(b, y) == Refs(a, y) + if y == was[k].inum then 1 else 0;
      }
      assert forall j :: 0 <= j < inode.Length && j != k ==> inode[j] == inode[..][j] == was[j];
    }

    /** One turn of the loop of `namex`: from the directory in slot `k` to the inode
        that `name` stands for, or -1. */
    method Descend(k: nat, name: seq<Byte>, ghost a: seq<Slot>, ghost before: seq<Node>) returns (next: int, panicked: bool)
      requires Standing(a, before, k) && inode[k].valid && disk[inode[k].inum].kind == T_DIR
      modifies this, inode
      ensures panicked ==> CacheFull()
      ensures !panicked && next < 0 ==> Find(before[old(inode[k].inum)].recs, Name(name)).None? && Balanced(a, before)
      ensures !panicked && next >= 0 ==>
        && Standing(a, before, next) && Find(before[old(inode[k].inum)].recs, Name(name)) == Some(inode[next].inum)
    {
      var x := inode[k].inum;
      var y := match Find(disk[x].recs, Name(name)) case None => 0 case Some(v) => v;
      FindNonzero(disk[x].recs, Name(name));
      panicked := false;
      if y == 0 {
        PutBack(k, a, before);
        return -1, false;
      }
      ghost var b := inode[..];
      next, panicked := Iget(y);
      if panicked {
        return;
      }
      PutBackKeeping(k, y, a, b, before);
    }

    /** The walk stands at slot `k`, holding one reference more than `a` had. */
    ghost predicate Standing(a: seq<Slot>, before: seq<Node>, k: nat)
      reads this, inode
    {
      k < inode.Length && inode[k].refs > 0 && Holding(a, before, inode[k].inum)
    }

    ghost predicate CacheFull()
      reads inode
    {
      forall j :: 0 <= j < inode.Length ==> inode[j].refs > 0
    }

    function StartOf(path: seq<Byte>, cwd: nat): nat
      requires cwd < inode.Length
      reads inode
    {
      if |path| > 0 && path[0] == SLASH then ROOTINO else inode[cwd].inum
    }

    /** The start of `namex`: the root for a path with a leading slash, else the
        current directory. */
    method Begin(path: seq<Byte>, cwd: nat) returns (k: nat, panicked: bool)
      requires Unique(inode[..]) && Fresh(inode[..], disk, disk)
      requires cwd < inode.Length && inode[cwd].refs > 0
      modifies inode
      ensures panicked ==> CacheFull()
      ensures !panicked ==> Standing(old(inode[..]), disk, k) && inode[k].inum == old(StartOf(path, cwd))
    {
      if |path| > 0 && path[0] == SLASH {
        k, panicked := Iget(ROOTINO);
      } else {
        ghost var b := inode[..];
        Idup(cwd);
        assert forall j :: 0 <= j < inode.Length && j != cwd ==> inode[j] == inode[..][j] == b[j];
        return cwd, false;
      }
    }

    /** The body of the loop of `namex`, once `skipelem` has split the first of the
        components `cs` off as `name`. */
    method Step(k: nat, name: seq<Byte>, last: bool, nameiparent: bool, ghost cs: seq<seq<Byte>>, ghost a: seq<Slot>, ghost before: seq<Node>)
      returns (r: StepResult)
      requires Standing(a, before, k) && cs != [] && Name(name) == Name(cs[0]) && (last <==> |cs| == 1)
      modifies this, inode
      ensures r == Panic ==> CacheFull() || NoType(disk, old(inode[k].inum))
      ensures r == Fail ==> Walk(before, old(inode[k].inum), cs, nameiparent) == None && Balanced(a, before)
      ensures r == Found ==> nameiparent && last && Standing(a, before, k) && Walk(before, old(inode[k].inum), cs, nameiparent) == Some(inode[k].inum)
      ensures r.Into? ==>
        && Standing(a, before, r.next)
        && old(inode[k].inum) < |before| && before[old(inode[k].inum)].kind == T_DIR
        && Find(before[old(inode[k].inum)].recs, Name(cs[0])) == Some(inode[r.next].inum)
        && !(nameiparent && last)
    {
      var panicked := Ilock(k);
      if panicked {
        return Panic;
      }
      if disk[inode[k].inum].kind != T_DIR {
        PutBack(k, a, before);
        return Fail;
      }
      if nameiparent && last {
        return Found;
      }
      var next;
      next, panicked := Descend(k, name, a, before);
      r := if panicked then Panic else if next < 0 then Fail else Into(next);
    }

    /** namex: slot of the inode the path leads to (or its parent), or -1, and the
        last component. `cwd` is the slot of the current directory. Nothing is
        asked of the tree: entries may lead to freed inodes, which is a panic, or
        to inodes without links, which the walk frees behind itself. */
    method Namex(path: seq<Byte>, nameiparent: bool, cwd: nat) returns (k: int, name: seq<Byte>, panicked: bool)
      requires forall j :: 0 <= j < |path| ==> path[j] != 0
      requires Unique(inode[..]) && Fresh(inode[..], disk, disk)
      requires cwd < inode.Length && inode[cwd].refs > 0
      modifies this, inode
      ensures panicked ==> CacheFull() || MeetsNoType(old(disk), disk, old(StartOf(path, cwd)), Components(path))
      ensures !panicked ==> -1 <= k < inode.Length && Unique(inode[..]) && Fresh(inode[..], disk, disk) && Kept(old(inode[..]), old(disk), disk)
      ensures !panicked ==>
        Walk(old(disk), old(StartOf(path, cwd)), Components(path), nameiparent) == if k < 0 then None else Some(inode[k].inum)
      ensures !panicked && k < 0 ==> SameRefs(old(inode[..]), inode[..])
      ensures !panicked && k >= 0 ==> inode[k].refs > 0 && OneMore(old(inode[..]), inode[..], inode[k].inum)
      ensures !panicked && k >= 0 && nameiparent ==> Components(path) != [] && Name(name) == Name(Components(path)[|Components(path)| - 1])
    {
      ghost var a, before, start, cs := inode[..], disk, StartOf(path, cwd), Components(path);
      name := [];
      k, panicked := Begin(path, cwd);
      if panicked {
        return;
      }
      var rest := path;
      ghost var n := 0;
      while true
        invariant k >= 0 && Standing(a, before, k)
        invariant forall j :: 0 <= j < |rest| ==> rest[j] != 0
        invariant OnPath(before, start, cs, n, inode[k].inum, nameiparent) && Components(rest) == cs[n..]
        decreases |rest|
      {
        var ok, elem, tail := Skipelem(rest);
        if !ok {
          break;
        }
        name := elem;
        ghost var x := inode[k].inum;
        var r := Step(k, name, tail == [], nameiparent, cs[n..], a, before);
        match r
        case Panic => return -1, name, true;
        case Fail => return -1, name, false;
        case Found => return;
        case Into(next) =>
          k := next;
        NextOnPath(before, start, cs, n, x, nameiparent, inode[k].inum);
        rest, n := tail, n + 1;
      }
      if nameiparent {
        PutBack(k, a, before);
        k := -1;
      }
    }
  }

  datatype StepResult = Panic | Fail | Found | Into(next: nat)
}
