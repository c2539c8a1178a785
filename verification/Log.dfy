/** src/log.c on top of the buffer cache: the commit and recovery routines,
    each tied to the write-by-write description in `RedoLog`. */
module WriteAheadLog {
  import opened Common
  import opened Params
  import opened RedoLog
  import opened BufferCache
  import opened LogAdmission

  // ------------------------------------------------- the cache as log.c uses it

  /** What other processes have of the cache while log.c works: how many
      references to each buffer, and the blocks whose buffers they have locked. */
  datatype Others = Others(refs: seq<nat>, away: set<int>)

  /** The buffers they refer to. */
  ghost function Taken(o: Others): set<nat> {
    set i | 0 <= i < |o.refs| && o.refs[i] > 0
  }

  /** One process holds the buffers `held`, once each; all other references and
      locks are those of `o`. */
  ghost predicate Held(s: seq<Buf>, held: set<nat>, o: Others) {
    && |s| == NBUF + 1 && |o.refs| == NBUF
    && (forall i :: i in held ==> i < NBUF)
    && (forall i :: 0 <= i < NBUF ==> HeldAt(s[i], i in held, o.refs[i], o.away))
  }

  ghost predicate HeldAt(b: Buf, mine: bool, refs: nat, away: set<int>) {
    && b.refcnt == refs + (if mine then 1 else 0)
    && (mine ==> b.locked)
    && (b.locked && !mine ==> refs > 0 && b.blockno in away)
  }

  /** `ps` are the blocks that sit in the cache with B_DIRTY set. */
  ghost predicate Pinned(s: seq<Buf>, holder: map<(nat, nat), nat>, ps: set<int>) {
    && |s| == NBUF + 1
    && (forall i :: 0 <= i < NBUF && s[i].dirty ==> s[i].blockno in ps)
    && (forall x :: x in ps ==> PinnedAt(s, holder, x))
  }

  ghost predicate PinnedAt(s: seq<Buf>, holder: map<(nat, nat), nat>, x: int) {
    x >= 0 && (ROOTDEV, x) in holder && holder[(ROOTDEV, x)] < |s| && s[holder[(ROOTDEV, x)]].dirty
  }

  /** The busy buffers among the first `k` are held or stand for that many
      different pinned blocks. */
  lemma {:induction false} BusyCount(s: seq<Buf>, holder: map<(nat, nat), nat>, disk: Disk, ps: set<int>, held: set<nat>, k: nat, o: Others)
    returns (xs: set<int>, hs: set<nat>)
    requires Coherent(s, holder, disk) && Held(s, held, o) && Pinned(s, holder, ps) && k <= NBUF
    requires forall i :: 0 <= i < k ==> Busy(s[i])
    ensures |xs| + |hs| == k && xs <= ps && hs <= held + Taken(o)
    ensures forall x :: x in xs ==> x >= 0 && (ROOTDEV, x) in holder && holder[(ROOTDEV, x)] < k
    ensures forall i :: i in hs ==> i < k
  {
    if k == 0 {
      xs, hs := {}, {};
    } else {
      xs, hs := BusyCount(s, holder, disk, ps, held, k - 1, o);
      assert BufOk(s[k - 1], disk) && HeldAt(s[k - 1], k - 1 in held, o.refs[k - 1], o.away);
      if k - 1 in held + Taken(o) {
        hs := hs + {k - 1};
      } else {
        xs := xs + {s[k - 1].blockno};
      }
    }
  }

  /** With fewer than NBUF buffers pinned or held, by this process or others, one
      can be recycled. */
  lemma SomeUnused(s: seq<Buf>, holder: map<(nat, nat), nat>, disk: Disk, ps: set<int>, held: set<nat>, o: Others)
    requires Coherent(s, holder, disk) && Held(s, held, o) && Pinned(s, holder, ps) && |ps| + |held| + |Taken(o)| < NBUF
    ensures exists i :: 0 <= i < NBUF && !Busy(s[i])
  {
    if forall i :: 0 <= i < NBUF ==> Busy(s[i]) {
      var xs, hs := BusyCount(s, holder, disk, ps, held, NBUF, o);
      SubsetCount(xs, ps);
      SubsetCount(hs, held + Taken(o));
      assert false;
    }
  }

  /** How many of the first `k` buffers are dirty. */
  function DirtyCount(s: seq<Buf>, k: nat): nat
    requires k <= |s|
  {
    if k == 0 then 0 else DirtyCount(s, k - 1) + if s[k - 1].dirty then 1 else 0
  }

  /** How many are clean and in the hands of some process. */
  function CleanInUse(s: seq<Buf>, k: nat): nat
    requires k <= |s|
  {
    if k == 0 then 0 else CleanInUse(s, k - 1) + if !s[k - 1].dirty && s[k - 1].refcnt > 0 then 1 else 0
  }

  lemma {:induction false} BusyCounts(s: seq<Buf>, k: nat)
    requires k <= |s|
    ensures DirtyCount(s, k) + CleanInUse(s, k) <= k
    ensures DirtyCount(s, k) + CleanInUse(s, k) == k <==> forall i :: 0 <= i < k ==> Busy(s[i])
  {
    if k > 0 {
      BusyCounts(s, k - 1);
    }
  }

  /** The dirty buffers stand for as many blocks. */
  lemma {:induction false} DirtyBlocks(s: seq<Buf>, holder: map<(nat, nat), nat>, disk: Disk, ps: set<int>, k: nat)
    requires Coherent(s, holder, disk) && k <= NBUF
    requires forall i :: 0 <= i < k && s[i].dirty ==> s[i].blockno in ps
    requires forall x :: x in ps ==> PinnedAt(s, holder, x) && holder[(ROOTDEV, x)] < k
    ensures |ps| == DirtyCount(s, k)
  {
    if k == 0 {
      assert forall x :: x in ps ==> x in {};
      assert ps == {};
    } else {
      var y := s[k - 1].blockno;
      OneDirty(s, holder, disk, k - 1);
      if s[k - 1].dirty {
        forall i | 0 <= i < k - 1 && s[i].dirty ensures s[i].blockno in ps - {y} {
          OneDirty(s, holder, disk, i);
        }
        DirtyBlocks(s, holder, disk, ps - {y}, k - 1);
      } else {
        DirtyBlocks(s, holder, disk, ps, k - 1);
      }
    }
  }

  /** A dirty buffer stands for its block, and only it does. */
  lemma OneDirty(s: seq<Buf>, holder: map<(nat, nat), nat>, disk: Disk, i: nat)
    requires Coherent(s, holder, disk) && i < NBUF
    ensures s[i].dirty ==> (ROOTDEV, s[i].blockno) in holder && holder[(ROOTDEV, s[i].blockno)] == i
    ensures forall x: nat :: (ROOTDEV, x) in holder && holder[(ROOTDEV, x)] == i ==> x == s[i].blockno
  {
    assert BufOk(s[i], disk);
  }

  /** Exactly when `bget` finds no buffer to recycle, and panics for a block that is
      not cached: the pinned blocks and the clean buffers in use are all there is. */
  lemma NoBufferExactly(s: seq<Buf>, holder: map<(nat, nat), nat>, disk: Disk, ps: set<int>)
    requires Coherent(s, holder, disk) && Pinned(s, holder, ps)
    ensures (forall i :: 0 <= i < NBUF ==> Busy(s[i])) <==> |ps| + CleanInUse(s, NBUF) == NBUF
  {
    forall x | x in ps ensures PinnedAt(s, holder, x) && holder[(ROOTDEV, x)] < NBUF {
    }
    DirtyBlocks(s, holder, disk, ps, NBUF);
    BusyCounts(s, NBUF);
  }

  /** The admission rule leaves two buffers unpinned at the least when operations log
      fewer than MAXOPBLOCKS blocks each, so that the panic takes two clean buffers
      in use at once. */
  lemma TwoBuffersLeft(s: LogAdmission.State, most: nat)
    requires LogAdmission.Reachable(s, most) && most < MAXOPBLOCKS
    ensures |s.bs| + 2 <= NBUF
  {
    SafeBelow(s, most);
    ReachableInv(s, most);
    SpareNonNegative(s.ops, s.bs, most);
  }

  /** Two states with the same dirty buffers pin the same blocks. */
  lemma SamePinned(s: seq<Buf>, h: map<(nat, nat), nat>, t: seq<Buf>, g: map<(nat, nat), nat>, disk: Disk, b: nat, ps: set<int>)
    requires Coherent(s, h, disk) && Coherent(t, g, disk) && Pinned(s, h, ps) && b < NBUF && OthersKept(s, t, b)
    requires t[b].dirty == s[b].dirty && (s[b].dirty ==> s[b].blockno == t[b].blockno)
    ensures Pinned(t, g, ps)
  {
    forall i | 0 <= i < NBUF
      ensures t[i].dirty == s[i].dirty && (s[i].dirty ==> t[i].blockno == s[i].blockno && t[i].dev == ROOTDEV)
    {
      assert BufOk(t[i], disk);
      if i != b {
        assert t[i] == s[i].(prev := t[i].prev, next := t[i].next);
      }
    }
    forall x | x in ps
      ensures PinnedAt(t, g, x)
    {
      assert PinnedAt(s, h, x);
      assert t[h[(ROOTDEV, x)]].dirty;
    }
  }

  /** Writing a buffer out unpins its block and no other. */
  lemma Unpin(s: seq<Buf>, holder: map<(nat, nat), nat>, disk: Disk, b: nat, nb: Buf, ps: set<int>)
    requires Coherent(s, holder, disk) && Pinned(s, holder, ps) && b < NBUF && s[b].valid
    requires nb.blockno == s[b].blockno && !nb.dirty
    ensures Pinned(s[b := nb], holder, ps - {s[b].blockno})
  {
    assert BufOk(s[b], disk);
    var t := s[b := nb];
    forall i | 0 <= i < NBUF && t[i].dirty
      ensures t[i].blockno in ps - {s[b].blockno}
    {
      assert BufOk(s[i], disk);
    }
    forall x | x in ps - {s[b].blockno}
      ensures PinnedAt(t, holder, x)
    {
      assert PinnedAt(s, holder, x);
    }
  }

  /** Logging a buffer pins its block. */
  lemma Pin(s: seq<Buf>, holder: map<(nat, nat), nat>, disk: Disk, b: nat, nb: Buf, ps: set<int>)
    requires Coherent(s, holder, disk) && Pinned(s, holder, ps) && b < NBUF && s[b].valid
    requires nb.blockno == s[b].blockno && nb.dirty
    ensures Pinned(s[b := nb], holder, ps + {s[b].blockno})
  {
    assert BufOk(s[b], disk);
    var t := s[b := nb];
    forall x | x in ps + {s[b].blockno}
      ensures PinnedAt(t, holder, x)
    {
      if x != s[b].blockno {
        assert PinnedAt(s, holder, x);
      }
    }
  }

  /** Nothing held, and `x` neither pinned nor locked: a reader of `x` sees the
      disk. */
  lemma CleanLook(s: seq<Buf>, holder: map<(nat, nat), nat>, disk: Disk, ps: set<int>, x: nat, o: Others)
    requires Coherent(s, holder, disk) && Held(s, {}, o) && Pinned(s, holder, ps) && x < |disk| && x !in ps && x !in o.away
    ensures LookOf(s, holder, disk)[x] == disk[x]
  {
    if (ROOTDEV, x) in holder {
      var i := holder[(ROOTDEV, x)];
      assert BufOk(s[i], disk) && HeldAt(s[i], false, o.refs[i], o.away);
    }
  }

  /** The cache is in order, exactly the blocks `ps` are pinned, and exactly the
      buffers `held` are held by this process. */
  ghost predicate Calm(c: Cache, ps: set<int>, held: set<nat>, o: Others)
    reads c, c.buf
  {
    && c.Valid()
    && Held(c.buf[..], held, o)
    && Pinned(c.buf[..], c.holder, ps)
  }

  lemma GotHeld(s: seq<Buf>, t: seq<Buf>, held: set<nat>, b: nat, o: Others)
    requires Held(s, held, o) && b < NBUF && b !in held && OthersKept(s, t, b) && t[b].refcnt == o.refs[b] + 1 && t[b].locked
    ensures Held(t, held + {b}, o)
  {
    forall i | 0 <= i < NBUF
      ensures HeldAt(t[i], i in held + {b}, o.refs[i], o.away)
    {
      if i != b {
        assert HeldAt(s[i], i in held, o.refs[i], o.away);
        assert t[i] == s[i].(prev := t[i].prev, next := t[i].next);
      }
    }
  }

  /** bread, with the panic ruled out: the block is pinned in the cache already,
      or the pinned and held buffers leave one to recycle. If another process has
      the buffer locked, `acquiresleep` waits, and this is the state after that. */
  method Get(c: Cache, x: nat, ghost ps: set<int>, ghost held: set<nat>, ghost o: Others) returns (b: nat)
    requires Calm(c, ps, held, o) && x < |c.disk|
    requires x !in o.away && (x in ps || |ps| + |held| + |Taken(o)| < NBUF)
    requires forall i :: i in held ==> c.buf[..][i].blockno != x
    modifies c, c.buf
    ensures Calm(c, ps, held + {b}, o) && b < NBUF && b !in held
    ensures c.disk == old(c.disk) && c.trace == old(c.trace) && c.Look() == old(c.Look())
    ensures c.buf[b].valid && c.buf[b].blockno == x && c.buf[b].data == c.Look()[x] && c.buf[b].dirty == (x in ps)
    ensures OthersKept(old(c.buf[..]), c.buf[..], b)
  {
    ghost var s, h := c.buf[..], c.holder;
    if x in ps {
      assert PinnedAt(s, h, x);
    } else {
      SomeUnused(s, h, c.disk, ps, held, o);
    }
    if (ROOTDEV, x) in h {
      assert HeldAt(s[h[(ROOTDEV, x)]], h[(ROOTDEV, x)] in held, o.refs[h[(ROOTDEV, x)]], o.away);
    }
    var r := c.Bread(x);
    assert HeldAt(s[r.value], r.value in held, o.refs[r.value], o.away);
    b := r.value;
    SamePinned(s, h, c.buf[..], c.holder, c.disk, b, ps);
    GotHeld(s, c.buf[..], held, b, o);
  }

  /** memmove into a held buffer. */
  method Store(c: Cache, b: nat, data: Block, ghost ps: set<int>, ghost held: set<nat>, ghost o: Others)
    requires Calm(c, ps, held, o) && b in held && c.buf[..][b].valid
    modifies c.buf
    ensures Calm(c, ps, held, o)
    ensures c.buf[..] == old(c.buf[..])[b := old(c.buf[b]).(data := data)]
    ensures c.buf[b].blockno < |c.disk| && c.Look() == old(c.Look())[c.buf[b].blockno := data]
  {
    ghost var s := c.buf[..];
    assert BufOk(s[b], c.disk);
    assert HeldAt(s[b], true, o.refs[b], o.away);
    c.Put(b, c.buf[b].(data := data));
    SamePinned(s, c.holder, c.buf[..], c.holder, c.disk, b, ps);
  }

  /** memmove into a held buffer, then bwrite: the block goes to disk and is no
      longer pinned. */
  method WriteOut(c: Cache, b: nat, data: Block, ghost ps: set<int>, ghost held: set<nat>, ghost o: Others)
    requires Calm(c, ps, held, o) && b in held && c.buf[..][b].valid
    modifies c, c.buf
    ensures Calm(c, ps - {c.buf[b].blockno}, held, o)
    ensures c.buf[..] == old(c.buf[..])[b := old(c.buf[b]).(data := data, dirty := false)]
    ensures c.buf[b].blockno < |old(c.disk)|
    ensures c.disk == old(c.disk)[c.buf[b].blockno := data] && c.trace == old(c.trace) + [c.disk]
    ensures c.Look() == old(c.Look())[c.buf[b].blockno := data]
  {
    ghost var s := c.buf[..];
    assert BufOk(s[b], c.disk);
    assert HeldAt(s[b], true, o.refs[b], o.away);
    Unpin(s, c.holder, c.disk, b, s[b].(data := data, dirty := false), ps);
    c.Put(b, c.buf[b].(data := data));
    c.Bwrite(b);
    assert c.buf[..] == s[b := s[b].(data := data, dirty := false)];
  }

  lemma DroppedHeld(s: seq<Buf>, t: seq<Buf>, held: set<nat>, b: nat, o: Others)
    requires Held(s, held, o) && b in held && OthersKept(s, t, b)
    requires t[b].refcnt == s[b].refcnt - 1 && !t[b].locked
    ensures Held(t, held - {b}, o)
  {
    forall i | 0 <= i < NBUF
      ensures HeldAt(t[i], i in held - {b}, o.refs[i], o.away)
    {
      assert HeldAt(s[i], i in held, o.refs[i], o.away);
      if i != b {
        assert t[i] == s[i].(prev := t[i].prev, next := t[i].next);
      }
    }
  }

  /** brelse of a held buffer whose change, if any, is pinned or written. */
  method Drop(c: Cache, b: nat, ghost ps: set<int>, ghost held: set<nat>, ghost o: Others)
    requires Calm(c, ps, held, o) && b in held && c.buf[..][b].valid
    requires c.buf[b].dirty || (c.buf[b].blockno < |c.disk| && c.buf[b].data == c.disk[c.buf[b].blockno])
    modifies c, c.buf
    ensures Calm(c, ps, held - {b}, o)
    ensures c.disk == old(c.disk) && c.trace == old(c.trace) && c.Look() == old(c.Look())
    ensures OthersKept(old(c.buf[..]), c.buf[..], b)
  {
    ghost var s := c.buf[..];
    assert HeldAt(s[b], true, o.refs[b], o.away);
    c.Brelse(b);
    assert c.buf[b] == s[b].(prev := c.buf[b].prev, next := c.buf[b].next, locked := false, refcnt := s[b].refcnt - 1);
    DroppedHeld(s, c.buf[..], held, b, o);
    SamePinned(s, c.holder, c.buf[..], c.holder, c.disk, b, ps);
  }

  /** The tail of a copy: dst gets src's contents and goes to disk, and both
      buffers are released. */
  method CopyOut(c: Cache, dst: nat, src: nat, ghost ps: set<int>, ghost o: Others)
    requires Calm(c, ps, {dst, src}, o) && dst != src
    requires c.buf[..][dst].valid && c.buf[..][src].valid
    requires c.buf[src].dirty || (c.buf[src].blockno < |c.disk| && c.buf[src].data == c.disk[c.buf[src].blockno])
    requires c.buf[dst].blockno != c.buf[src].blockno
    modifies c, c.buf
    ensures Calm(c, ps - {old(c.buf[dst]).blockno}, {}, o)
    ensures old(c.buf[dst]).blockno < |old(c.disk)|
    ensures c.disk == old(c.disk)[old(c.buf[dst]).blockno := old(c.buf[src]).data] && c.trace == old(c.trace) + [c.disk]
    ensures c.Look() == old(c.Look())[old(c.buf[dst]).blockno := old(c.buf[src]).data]
  {
    ghost var qs := ps - {c.buf[dst].blockno};
    WriteOut(c, dst, c.buf[src].data, ps, {dst, src}, o);
    DropTwo(c, src, dst, qs, o);
  }

  method DropTwo(c: Cache, a: nat, b: nat, ghost ps: set<int>, ghost o: Others)
    requires Calm(c, ps, {b, a}, o) && a != b && c.buf[..][a].valid && c.buf[..][b].valid
    requires c.buf[a].dirty || (c.buf[a].blockno < |c.disk| && c.buf[a].data == c.disk[c.buf[a].blockno])
    requires c.buf[b].dirty || (c.buf[b].blockno < |c.disk| && c.buf[b].data == c.disk[c.buf[b].blockno])
    modifies c, c.buf
    ensures Calm(c, ps, {}, o)
    ensures c.disk == old(c.disk) && c.trace == old(c.trace) && c.Look() == old(c.Look())
  {
    ghost var s := c.buf[..];
    Drop(c, a, ps, {b, a}, o);
    assert {b, a} - {a} == {b};
    assert c.buf[b] == s[b].(prev := c.buf[b].prev, next := c.buf[b].next);
    Drop(c, b, ps, {b}, o);
    assert {b} - {b} == {};
  }

  // --------------------------------------------------------------- log.c proper

  lemma KeptAt(s: seq<Buf>, t: seq<Buf>, b: nat, a: nat)
    requires OthersKept(s, t, b) && a != b && a < |s|
    ensures t[a].valid == s[a].valid && t[a].blockno == s[a].blockno && t[a].data == s[a].data && t[a].dirty == s[a].dirty
  {
    assert t[a] == s[a].(prev := t[a].prev, next := t[a].next);
  }

  method GetSecond(c: Cache, a: nat, y: nat, ghost ps: set<int>, ghost o: Others) returns (b: nat)
    requires Calm(c, ps, {a}, o) && a < NBUF && c.buf[..][a].blockno != y
    requires y < |c.disk| && y !in o.away && (y in ps || |ps| + 1 + |Taken(o)| < NBUF)
    modifies c, c.buf
    ensures Calm(c, ps, {a, b}, o) && b < NBUF && a != b
    ensures c.disk == old(c.disk) && c.trace == old(c.trace) && c.Look() == old(c.Look())
    ensures c.buf[a].valid == old(c.buf[a].valid) && c.buf[a].blockno == old(c.buf[a].blockno) && c.buf[a].data == old(c.buf[a].data)
    ensures c.buf[b].valid && c.buf[b].blockno == y && c.buf[b].data == c.Look()[y] && c.buf[b].dirty == (y in ps)
  {
    ghost var s := c.buf[..];
    b := Get(c, y, ps, {a}, o);
    assert {a} + {b} == {a, b};
    KeptAt(s, c.buf[..], b, a);
  }

  /** Two `bread`s in a row. */
  method GetTwo(c: Cache, x: nat, y: nat, ghost ps: set<int>, ghost o: Others) returns (a: nat, b: nat)
    requires Calm(c, ps, {}, o) && x < |c.disk| && y < |c.disk| && x != y && x !in o.away && y !in o.away
    requires |ps| + |Taken(o)| < NBUF && (y in ps || |ps| + 1 + |Taken(o)| < NBUF)
    modifies c, c.buf
    ensures Calm(c, ps, {a, b}, o) && a < NBUF && b < NBUF && a != b
    ensures c.disk == old(c.disk) && c.trace == old(c.trace) && c.Look() == old(c.Look())
    ensures c.buf[a].valid && c.buf[a].blockno == x && c.buf[a].data == c.Look()[x]
    ensures c.buf[b].valid && c.buf[b].blockno == y && c.buf[b].data == c.Look()[y] && c.buf[b].dirty == (y in ps)
  {
    a := Get(c, x, ps, {}, o);
    assert {} + {a} == {a};
    b := GetSecond(c, a, y, ps, o);
  }

  /** One round of the loop in `write_log`: the pinned contents of `home` go to
      log block `to`. */
  method LogOne(c: Cache, to: nat, home: nat, ghost ps: set<int>, ghost o: Others)
    requires Calm(c, ps, {}, o) && to < |c.disk| && home < |c.disk| && |ps| + |Taken(o)| < NBUF
    requires to !in o.away && home !in o.away
    requires home in ps && to !in ps
    modifies c, c.buf
    ensures Calm(c, ps, {}, o)
    ensures c.disk == old(c.disk)[to := old(c.Look())[home]] && c.trace == old(c.trace) + [c.disk]
    ensures c.Look() == old(c.Look())[to := old(c.Look())[home]]
  {
    assert ps - {to} == ps;
    var t, f := GetTwo(c, to, home, ps, o);
    CopyOut(c, t, f, ps, o);
  }

  /** One round of the loop in `install_trans`: log block `from` goes home. */
  method InstallOne(c: Cache, from: nat, home: nat, ghost ps: set<int>, ghost o: Others)
    requires Calm(c, ps, {}, o) && from < |c.disk| && home < |c.disk| && |ps| + |Taken(o)| < NBUF
    requires from !in ps && from != home && from !in o.away && home !in o.away
    requires home in ps || |ps| + 1 + |Taken(o)| < NBUF
    modifies c, c.buf
    ensures Calm(c, ps - {home}, {}, o)
    ensures c.disk == old(c.disk)[home := old(c.disk)[from]] && c.trace == old(c.trace) + [c.disk]
  {
    CleanLook(c.buf[..], c.holder, c.disk, ps, from, o);
    var l, d := GetTwo(c, from, home, ps, o);
    assert {l, d} == {d, l};
    CopyOut(c, d, l, ps, o);
  }

  /** The contents of the listed blocks. */
  ghost function Images(l: Disk, bs: seq<int>): (cs: seq<Block>)
    requires forall i :: 0 <= i < |bs| ==> 0 <= bs[i] < |l|
    ensures |cs| == |bs| && forall i :: 0 <= i < |bs| ==> cs[i] == l[bs[i]]
  {
    seq(|bs|, i requires 0 <= i < |bs| => l[bs[i]])
  }

  /** No other process has one of the log's blocks or of the blocks `bs` locked. */
  ghost predicate Unlocked(a: Area, bs: seq<int>, o: Others) {
    forall x :: x in o.away ==> x !in bs && !(a.start <= x < a.start + a.size)
  }

  /** Other processes leave the log its blocks, and a buffer to work with beside `k`
      pinned ones. */
  ghost predicate Leaves(a: Area, bs: seq<int>, k: nat, o: Others) {
    Unlocked(a, bs, o) && k + |Taken(o)| < NBUF && 1 + |Taken(o)| < NBUF
  }

  /** What other processes may do while log.c waits for the disk: take, recycle and
      release buffers and lock blocks, as long as they leave the log what it needs
      and its own blocks as they are. */
  method OtherProcesses(c: Cache, ghost a: Area, ghost bs: seq<int>, ghost ps: set<int>, ghost k: nat, ghost o: Others) returns (ghost o': Others)
    requires Calm(c, ps, {}, o) && Leaves(a, bs, k, o) && forall i :: 0 <= i < |bs| ==> 0 <= bs[i] < |c.disk|
    modifies c, c.buf
    ensures Calm(c, ps, {}, o') && Leaves(a, bs, k, o')
    ensures c.disk == old(c.disk) && c.trace == old(c.trace)
    ensures forall i :: 0 <= i < |bs| ==> c.Look()[bs[i]] == old(c.Look()[bs[i]])
  {
    o' := o;
  }

  /** `write_log` has done `tail` of its writes, starting from disk `d`. */
  ghost predicate Logging(c: Cache, a: Area, d: Disk, cs: seq<Block>, bs: seq<int>, before: seq<Disk>, tail: nat, o: Others)
    requires a.Loggable(|d|, bs) && tail <= |bs| == |cs|
    reads c, c.buf
  {
    && Calm(c, Elements(bs), {}, o)
    && c.disk == Logged(a, d, cs, tail)
    && c.trace == before + LoggedTrace(a, d, cs, tail)
    && (forall i :: 0 <= i < |bs| ==> c.Look()[bs[i]] == cs[i])
  }

  method LogRound(c: Cache, a: Area, home: int, tail: nat, ghost d: Disk, ghost cs: seq<Block>, ghost bs: seq<int>, ghost before: seq<Disk>, ghost o: Others)
    returns (ghost o': Others)
    requires a.Loggable(|d|, bs) && tail < |bs| == |cs| && home == bs[tail] && Leaves(a, bs, |bs|, o)
    requires Logging(c, a, d, cs, bs, before, tail, o)
    modifies c, c.buf
    ensures Logging(c, a, d, cs, bs, before, tail + 1, o') && Leaves(a, bs, |bs|, o')
  {
    hide Calm, Taken;
    o' := OtherProcesses(c, a, bs, Elements(bs), |bs|, o);
    ElementsCount(bs);
    LogOne(c, a.start + tail + 1, home, Elements(bs), o');
    assert c.disk == Logged(a, d, cs, tail + 1);
  }

  /** What is left of the pinned blocks `ps` after the first `k` of `bs` are
      installed. */
  ghost function Left(ps: set<int>, bs: seq<int>, k: nat): set<int>
    requires k <= |bs|
  {
    if k == 0 then ps else Left(ps, bs, k - 1) - {bs[k - 1]}
  }

  lemma {:induction false} LeftAt(ps: set<int>, bs: seq<int>, k: nat, p: int)
    requires k <= |bs|
    ensures p in Left(ps, bs, k) <==> p in ps && p !in bs[..k]
  {
    if k > 0 {
      LeftAt(ps, bs, k - 1, p);
      assert bs[..k] == bs[..k - 1] + [bs[k - 1]];
    }
  }

  lemma {:induction false} LeftCount(ps: set<int>, bs: seq<int>, k: nat)
    requires k <= |bs|
    ensures |Left(ps, bs, k)| <= |ps|
  {
    if k > 0 {
      LeftCount(ps, bs, k - 1);
      SubsetCount(Left(ps, bs, k), Left(ps, bs, k - 1));
    }
  }

  /** A commit has pinned the blocks it installs, a recovery has not. */
  ghost predicate NoneOrAll(ps: set<int>, bs: seq<int>) {
    ps == {} || (ps == Elements(bs) && NoRepeats(bs))
  }

  /** Installing has a buffer for every block: the next one is still pinned, or
      nothing is. */
  lemma LeftServes(a: Area, len: nat, ps: set<int>, bs: seq<int>, k: nat, o: Others)
    requires k < |bs| && a.Loggable(len, bs) && Leaves(a, bs, |ps|, o)
    requires NoneOrAll(ps, bs)
    ensures |Left(ps, bs, k)| + |Taken(o)| < NBUF && (bs[k] in Left(ps, bs, k) || |Left(ps, bs, k)| + 1 + |Taken(o)| < NBUF)
    ensures a.start + k + 1 !in Left(ps, bs, k) && a.start + k + 1 !in o.away && bs[k] !in o.away
  {
    LeftCount(ps, bs, k);
    LeftAt(ps, bs, k, bs[k]);
    LeftAt(ps, bs, k, a.start + k + 1);
    if ps != {} {
      assert bs[k] in ps;
    }
  }

  lemma LeftNone(ps: set<int>, bs: seq<int>)
    requires NoneOrAll(ps, bs)
    ensures Left(ps, bs, |bs|) == {}
  {
    assert bs[..|bs|] == bs;
    forall p: int ensures p !in Left(ps, bs, |bs|) {
      LeftAt(ps, bs, |bs|, p);
    }
  }

  /** `install_trans` has done `tail` of its writes, starting from disk `d`. Of
      the blocks `ps` that were pinned, those it installed no longer are. */
  ghost predicate Installing(c: Cache, a: Area, d: Disk, bs: seq<int>, ps: set<int>, before: seq<Disk>, tail: nat, o: Others)
    requires a.Loggable(|d|, bs) && tail <= |bs|
    reads c, c.buf
  {
    && Calm(c, Left(ps, bs, tail), {}, o)
    && c.disk == Replay(a, d, bs, tail)
    && c.trace == before + ReplayTrace(a, d, bs, tail)
  }

  method InstallRound(c: Cache, a: Area, home: int, tail: nat, ghost d: Disk, ghost bs: seq<int>, ghost ps: set<int>, ghost before: seq<Disk>, ghost o: Others)
    returns (ghost o': Others)
    requires a.Loggable(|d|, bs) && tail < |bs| && home == bs[tail] && Leaves(a, bs, |ps|, o) && NoneOrAll(ps, bs)
    requires Installing(c, a, d, bs, ps, before, tail, o)
    modifies c, c.buf
    ensures Installing(c, a, d, bs, ps, before, tail + 1, o') && Leaves(a, bs, |ps|, o')
  {
    hide Calm, Unlocked, Taken, NoneOrAll;
    o' := OtherProcesses(c, a, bs, Left(ps, bs, tail), |ps|, o);
    LeftServes(a, |d|, ps, bs, tail, o');
    InstallOne(c, a.start + tail + 1, home, Left(ps, bs, tail), o');
  }

  class Log {
    const cache: Cache
    const area: Area
    var n: nat
    const block: array<int>
    var outstanding: nat
    var committing: bool

    constructor (cache: Cache, area: Area)
      ensures this.cache == cache && this.area == area && fresh(block) && block.Length == LOGSIZE
      ensures n == 0 && outstanding == 0 && !committing
    {
      outstanding := 0;
      committing := false;
      this.cache := cache;
      this.area := area;
      n := 0;
      block := new int[LOGSIZE](_ => 0);
    }

    /** The in-memory header lists blocks that fit the log, exactly they are
        pinned, and the caller holds no buffer. */
    ghost predicate InOrder(o: Others)
      reads this, block, cache, cache.buf
    {
      && block.Length == LOGSIZE && area.size <= LOGSIZE && n < LOGSIZE
      && Calm(cache, Elements(block[..n]), {}, o)
      && area.Loggable(|cache.disk|, block[..n])
    }

    /** Moreover a commit can go through: what other processes do with the cache
        leaves it the blocks it needs and a buffer to work with. */
    ghost predicate Ready(o: Others)
      reads this, block, cache, cache.buf
    {
      InOrder(o) && Leaves(area, block[..n], n, o)
    }

    ghost function Contents(): seq<Block>
      requires block.Length == LOGSIZE && n <= LOGSIZE && cache.Valid() && area.Loggable(|cache.disk|, block[..n])
      reads this, block, cache, cache.buf
    {
      Images(cache.Look(), block[..n])
    }

    /** Other processes may use the cache between any two of the copies, here and in
        `install_trans`. */
    method WriteLog(ghost o: Others) returns (ghost o': Others)
      requires Ready(o)
      modifies cache, cache.buf
      ensures Ready(o')
      ensures cache.disk == Logged(area, old(cache.disk), old(Contents()), n)
      ensures cache.trace == old(cache.trace) + LoggedTrace(area, old(cache.disk), old(Contents()), n)
    {
      ghost var d, cs, bs := cache.disk, Contents(), block[..n];
      var tail := 0;
      o' := o;
      while tail < n
        invariant 0 <= tail <= n
        invariant Logging(cache, area, d, cs, bs, old(cache.trace), tail, o') && Leaves(area, bs, n, o')
      {
        o' := LogRound(cache, area, block[tail], tail, d, cs, bs, old(cache.trace), o');
        tail := tail + 1;
      }
    }
  
    /** `ps` are the pinned blocks: the transaction's own when it commits, none
        when it is recovered. */
    method InstallTrans(ghost ps: set<int>, ghost o: Others) returns (ghost o': Others)
      requires block.Length == LOGSIZE && n <= LOGSIZE
      requires area.Loggable(|cache.disk|, block[..n])
      requires Calm(cache, ps, {}, o) && Leaves(area, block[..n], |ps|, o)
      requires NoneOrAll(ps, block[..n])
      modifies cache, cache.buf
      ensures Calm(cache, {}, {}, o') && Leaves(area, block[..n], 0, o')
      ensures cache.disk == Replay(area, old(cache.disk), block[..n], n)
      ensures cache.trace == old(cache.trace) + ReplayTrace(area, old(cache.disk), block[..n], n)
    {
      hide Calm, Unlocked, Taken;
      ghost var d, bs, before := cache.disk, block[..n], cache.trace;
      var tail := 0;
      o' := o;
      while tail < n
        invariant 0 <= tail <= n
        invariant Installing(cache, area, d, bs, ps, before, tail, o') && Leaves(area, bs, |ps|, o')
      {
        o' := InstallRound(cache, area, block[tail], tail, d, bs, ps, before, o');
        tail := tail + 1;
      }
      LeftNone(ps, bs);
    }

    /** The loop of `write_head` over the entries of the header block. */
    method FillHead(h: Block) returns (r: Block)
      requires block.Length == LOGSIZE && n <= LOGSIZE
      ensures r == PutHead(h, block[..n])
    {
      r := h[0 := n];
      var i := 0;
      while i < n
        invariant 0 <= i <= n && r[0] == n
        invariant forall j :: 0 <= j < i ==> r[1 + j] == block[j]
        invariant forall j :: 1 + i <= j < BWORDS ==> r[j] == h[j]
      {
        r := r[1 + i := block[i]];
        i := i + 1;
      }
      assert r == PutHead(h, block[..n]);
    }

    method WriteHead(ghost ps: set<int>, ghost o: Others)
      requires block.Length == LOGSIZE && n <= LOGSIZE && area.Fits(|cache.disk|)
      requires Calm(cache, ps, {}, o) && |ps| + |Taken(o)| < NBUF && area.start !in ps && area.start !in o.away
      modifies cache, cache.buf
      ensures Calm(cache, ps, {}, o)
      ensures cache.disk == SetHead(area, old(cache.disk), block[..n])
      ensures cache.trace == old(cache.trace) + [cache.disk]
    {
      CleanLook(cache.buf[..], cache.holder, cache.disk, ps, area.start, o);
      var b := Get(cache, area.start, ps, {}, o);
      assert {} + {b} == {b};
      var h := FillHead(cache.buf[b].data);
      WriteOut(cache, b, h, ps, {b}, o);
      assert ps - {area.start} == ps;
      Drop(cache, b, ps, {b}, o);
      assert {b} - {b} == {};
    }

    /** The loop of `read_head`. */
    method LoadHead(h: Block)
      requires block.Length == LOGSIZE && 0 <= HeadCount(h) <= LOGSIZE
      modifies this`n, block
      ensures n == HeadCount(h) && block[..n] == HeadBlocks(h)
    {
      n := h[0];
      var i := 0;
      while i < n
        invariant 0 <= i <= n
        invariant forall j :: 0 <= j < i ==> block[j] == h[1 + j]
        modifies block
      {
        block[i] := h[1 + i];
        i := i + 1;
      }
    }

    method ReadHead(ghost o: Others)
      requires block.Length == LOGSIZE && HeadOk(area, cache.disk)
      requires Calm(cache, {}, {}, o) && |Taken(o)| < NBUF && area.start !in o.away
      modifies this`n, block, cache, cache.buf
      ensures Calm(cache, {}, {}, o)
      ensures cache.disk == old(cache.disk) && cache.trace == old(cache.trace)
      ensures n <= LOGSIZE && block[..n] == Listed(area, cache.disk)
    {
      CleanLook(cache.buf[..], cache.holder, cache.disk, {}, area.start, o);
      var b := Get(cache, area.start, {}, {}, o);
      assert {} + {b} == {b};
      LoadHead(cache.buf[b].data);
      Drop(cache, b, {}, {b}, o);
      assert {b} - {b} == {};
    }
  
    /** The header and the counters are those of a state of the admission rule. */
    ghost predicate Models(s: LogAdmission.State)
      reads this, block
    {
      && block.Length == LOGSIZE && n <= LOGSIZE && s.bs == block[..n]
      && s.outstanding == outstanding && s.committing == committing && !s.panicked
    }

    /** begin_op by process `p`, one turn of its loop: `false` means the caller
        sleeps. Whoever is let in finds room: what is logged and what all
        operations, this one included, may still log fits the log. */
    method BeginOp(ghost s: LogAdmission.State, ghost p: nat, ghost most: nat) returns (admitted: bool)
      requires Models(s) && p < |s.ops| && s.ops[p].Out? && most <= MAXOPBLOCKS && LogAdmission.Inv(s, most)
      modifies this`outstanding
      ensures admitted <==> !committing && n + (old(outstanding) + 1) * MAXOPBLOCKS <= LOGSIZE
      ensures outstanding == if admitted then old(outstanding) + 1 else old(outstanding)
      ensures admitted <==> LogAdmission.Enabled(s, Begin(p), most)
      ensures !admitted ==> Models(s)
      ensures admitted ==>
        && Models(LogAdmission.Next(s, Begin(p), most)) && LogAdmission.Inv(LogAdmission.Next(s, Begin(p), most), most)
        && n + SpareSum(LogAdmission.Next(s, Begin(p), most).ops, most) <= LOGSIZE
    {
      if committing {
        admitted := false;
      } else if n + (outstanding + 1) * MAXOPBLOCKS > LOGSIZE {
        admitted := false;
      } else {
        BeginKeeps(s, p, most);
        outstanding := outstanding + 1;
        admitted := true;
      }
    }

    /** The critical section of log_write: absorb or append. */
    method Record(b: int)
      requires block.Length == LOGSIZE && n <= LOGSIZE && (n < LOGSIZE || b in block[..n])
      modifies this`n, block
      ensures n <= LOGSIZE && block[..n] == Absorb(old(block[..n]), b)
      ensures block[..n] == if b in old(block[..n]) then old(block[..n]) else old(block[..n]) + [b]
    {
      var i := 0;
      while i < n
        invariant 0 <= i <= n
        invariant forall j :: 0 <= j < i ==> block[j] != b
      {
        if block[i] == b {
          break;
        }
        i := i + 1;
      }
      ghost var bs := block[..n];
      assert i < n ==> block[i] == bs[i];
      assert n == LOGSIZE ==> i < n;
      block[i] := b;
      if i == n {
        n := n + 1;
        assert block[..n] == bs + [b];
      } else {
        assert block[..n] == bs;
      }
    }

    /** log_write by process `p`, the holder of buffer `b`, after the guard at its
        head: whatever the others have logged since, there is a place in the list,
        and the admission rule goes on. */
    method LogAppend(b: nat, ghost s: LogAdmission.State, ghost p: nat, ghost most: nat)
      requires Models(s) && p < |s.ops| && s.ops[p].Passed? && most <= MAXOPBLOCKS && LogAdmission.Inv(s, most)
      requires cache.Valid() && b < NBUF && cache.buf[b].locked && cache.buf[b].valid && cache.buf[b].blockno == s.ops[p].b
      modifies this`n, block, cache.buf
      ensures cache.Valid() && Models(LogAdmission.Next(s, Append(p), most)) && LogAdmission.Inv(LogAdmission.Next(s, Append(p), most), most)
      ensures cache.buf[..] == old(cache.buf[..])[b := old(cache.buf[b]).(dirty := true)]
      ensures cache.Look() == old(cache.Look())
    {
      AppendKeeps(s, p, most);
      PlaceLeft(s, p, most);
      LogWrite(b);
    }

    /** The same for one caller that finds a place in the list. */
    method LogWrite(b: nat)
      requires block.Length == LOGSIZE && n <= LOGSIZE && b < NBUF && b < cache.buf.Length
      requires n < LOGSIZE || cache.buf[b].blockno in block[..n]
      requires cache.Valid() && cache.buf[b].locked && cache.buf[b].valid
      modifies this`n, block, cache.buf
      ensures cache.Valid() && n <= LOGSIZE
      ensures block[..n] == Absorb(old(block[..n]), old(cache.buf[b]).blockno)
      ensures cache.buf[..] == old(cache.buf[..])[b := old(cache.buf[b]).(dirty := true)]
      ensures cache.Look() == old(cache.Look())
    {
      assert BufOk(cache.buf[b], cache.disk);
      Record(cache.buf[b].blockno);
      cache.Put(b, cache.buf[b].(dirty := true));
    }

    /** Change a held buffer and log the change. */
    method StoreAndLog(b: nat, data: Block, ghost ps: set<int>, ghost o: Others)
      requires block.Length == LOGSIZE && !TooBig(n, area.size) && outstanding >= 1
      requires Calm(cache, ps, {b}, o) && cache.buf[..][b].valid
      modifies this`n, block, cache.buf
      ensures n <= LOGSIZE && block[..n] == Absorb(old(block[..n]), old(cache.buf[b]).blockno)
      ensures Calm(cache, ps + {old(cache.buf[b]).blockno}, {b}, o)
      ensures cache.buf[..] == old(cache.buf[..])[b := old(cache.buf[b]).(data := data, dirty := true)]
      ensures old(cache.buf[b]).blockno < |cache.disk|
      ensures cache.Look() == old(cache.Look())[old(cache.buf[b]).blockno := data]
    {
      ghost var s := cache.buf[..];
      assert BufOk(s[b], cache.disk);
      Store(cache, b, data, ps, {b}, o);
      ghost var t := cache.buf[..];
      Pin(t, cache.holder, cache.disk, b, t[b].(dirty := true), ps);
      LogWrite(b);
    }

    method UpdateBuffer(x: nat, data: Block, ghost ps: set<int>, ghost o: Others)
      requires block.Length == LOGSIZE && !TooBig(n, area.size) && outstanding >= 1
      requires Calm(cache, ps, {}, o) && x < |cache.disk| && x !in o.away && (x in ps || |ps| + |Taken(o)| < NBUF)
      modifies this`n, block, cache, cache.buf
      ensures n <= LOGSIZE && block[..n] == Absorb(old(block[..n]), x)
      ensures Calm(cache, ps + {x}, {}, o)
      ensures cache.disk == old(cache.disk) && cache.trace == old(cache.trace)
      ensures cache.Look() == old(cache.Look())[x := data]
    {
      hide Held, Pinned, Linked, Aged, Coherent;
      var b := Get(cache, x, ps, {}, o);
      assert {} + {b} == {b};
      StoreAndLog(b, data, ps, o);
      Drop(cache, b, ps + {x}, {b}, o);
      assert {b} - {b} == {};
    }

    /** The typical use of the log: read a block, change it, log it, release it.
        The pending transaction gains exactly this change, and readers see it. */
    method Update(x: nat, data: Block, ghost o: Others)
      requires InOrder(o) && NoRepeats(block[..n]) && outstanding >= 1
      requires !TooBig(n, area.size) && area.Home(|cache.disk|, x) && x !in o.away && n + |Taken(o)| < NBUF
      modifies this`n, block, cache, cache.buf
      ensures InOrder(o) && NoRepeats(block[..n])
      ensures block[..n] == Absorb(old(block[..n]), x)
      ensures cache.disk == old(cache.disk) && cache.trace == old(cache.trace)
      ensures cache.Look() == old(cache.Look())[x := data]
    {
      ghost var bs := block[..n];
      ElementsCount(bs);
      AbsorbOk(area, |cache.disk|, bs, x);
      AbsorbElements(bs, x);
      UpdateBuffer(x, data, Elements(bs), o);
    }

    /** The pending transaction. */
    ghost function Pending(): Txn
      requires block.Length == LOGSIZE && n <= LOGSIZE && cache.Valid() && area.Loggable(|cache.disk|, block[..n])
      reads this, block, cache, cache.buf
    {
      Txn(block[..n], Contents())
    }

    /** commit: every disk state it passes through is one of `CommitTrace`, and
        the transaction's blocks are clean afterwards. */
    method Commit(ghost o: Others) returns (ghost o': Others)
      requires Ready(o) && Pending().Ok(area, |cache.disk|)
      modifies this`n, cache, cache.buf
      ensures n == 0 && Calm(cache, {}, {}, o')
      ensures cache.trace == old(cache.trace) + CommitTrace(area, old(cache.disk), old(Pending()))
      ensures cache.disk == CommitState(area, old(cache.disk), old(Pending()), CommitLength(old(block[..n])))
      ensures old(Idle(area, cache.disk)) ==>
        forall j :: |old(cache.trace)| <= j < |cache.trace| ==> AllOrNothing(area, old(cache.disk), old(Pending()), cache.trace[j])
    {
      ghost var d, t, before := cache.disk, Pending(), cache.trace;
      o' := o;
      if n > 0 {
        o' := CommitPending(o);
      }
      if Idle(area, d) {
        forall j | |before| <= j < |cache.trace| ensures AllOrNothing(area, d, t, cache.trace[j]) {
          CommitTraceSafe(area, d, t, j - |before|);
        }
      }
    }

    /** What commit does with a transaction that logged something. */
    method CommitPending(ghost o: Others) returns (ghost o': Others)
      requires Ready(o) && Pending().Ok(area, |cache.disk|) && n > 0
      modifies this`n, cache, cache.buf
      ensures n == 0 && Calm(cache, {}, {}, o')
      ensures cache.trace == old(cache.trace) + CommitTrace(area, old(cache.disk), old(Pending()))
      ensures cache.disk == Cleared(area, Marked(area, old(cache.disk), old(Pending())), old(Pending()).bs)
    {
      ghost var bs, d, t := block[..n], cache.disk, Pending();
      o' := MakeDurable(o);
      assert block[..n] == bs;
      o' := InstallAndClear(o');
      Regroup(old(cache.trace),
              LoggedTrace(area, d, t.cs, |t.bs|) + [Marked(area, d, t)],
              ReplayTrace(area, Marked(area, d, t), t.bs, |t.bs|) + [Cleared(area, Marked(area, d, t), t.bs)]);
    }

    /** The last two lines of commit and of recovery. */
    method ClearHead(ghost o: Others)
      requires block.Length == LOGSIZE && area.Fits(|cache.disk|)
      requires Calm(cache, {}, {}, o) && |Taken(o)| < NBUF && area.start !in o.away
      modifies this`n, cache, cache.buf
      ensures n == 0 && Calm(cache, {}, {}, o)
      ensures cache.disk == SetHead(area, old(cache.disk), [])
      ensures cache.trace == old(cache.trace) + [cache.disk]
    {
      n := 0;
      assert block[..n] == [];
      WriteHead({}, o);
    }

    /** The first half of commit, up to the header write. */
    method MakeDurable(ghost o: Others) returns (ghost o': Others)
      requires Ready(o) && Pending().Ok(area, |cache.disk|)
      modifies cache, cache.buf
      ensures Ready(o')
      ensures cache.disk == Marked(area, old(cache.disk), old(Pending()))
      ensures cache.trace == old(cache.trace) + (LoggedTrace(area, old(cache.disk), old(Contents()), n) + [cache.disk])
    {
      o' := WriteLog(o);
      ElementsCount(block[..n]);
      WriteHead(Elements(block[..n]), o');
    }

    /** The second half of commit. */
    method InstallAndClear(ghost o: Others) returns (ghost o': Others)
      requires Ready(o) && NoRepeats(block[..n])
      modifies this`n, cache, cache.buf
      ensures n == 0 && Calm(cache, {}, {}, o')
      ensures cache.disk == Cleared(area, old(cache.disk), old(block[..n]))
      ensures cache.trace == old(cache.trace) + (ReplayTrace(area, old(cache.disk), old(block[..n]), old(n)) + [cache.disk])
    {
      ElementsCount(block[..n]);
      o' := InstallTrans(Elements(block[..n]), o);
      ClearHead(o');
    }

    /** The guard at the head of log_write, which process `p` passes or panics at as the
        admission rule says. */
    method LogGuard(ghost b: int, ghost s: LogAdmission.State, ghost p: nat, ghost most: nat) returns (panicked: bool)
      requires Models(s) && LogAdmission.Enabled(s, Guard(p, b), most) && area.size == LOGBLOCKS
      ensures panicked <==> LogAdmission.Next(s, Guard(p, b), most).panicked
      ensures !panicked ==> Models(LogAdmission.Next(s, Guard(p, b), most))
    {
      panicked := n >= LOGSIZE || n >= area.size - 1 || outstanding < 1;
    }

    /** end_op by process `p`: the last operation out commits. The panic of a call while
        a commit is under way cannot happen. In terms of the admission rule it takes
        the step `End`, and as the last one `Commit` and `Done` too. */
    method EndOp(ghost s: LogAdmission.State, ghost p: nat, ghost most: nat, ghost o: Others) returns (ghost s': LogAdmission.State, ghost o': Others)
      requires Models(s) && most <= MAXOPBLOCKS && LogAdmission.Inv(s, most) && LogAdmission.Enabled(s, End(p), most)
      requires outstanding == 1 ==> Ready(o) && NoRepeats(block[..n])
      modifies this, cache, cache.buf
      ensures old(outstanding) >= 1 && outstanding == old(outstanding) - 1 && !committing
      ensures Models(s') && LogAdmission.Inv(s', most) && AfterEnd(s, p, most, s')
      ensures outstanding > 0 ==> n == old(n) && cache.disk == old(cache.disk) && cache.trace == old(cache.trace)
      ensures outstanding == 0 ==>
                && n == 0 && Calm(cache, {}, {}, o')
                && cache.trace == old(cache.trace) + CommitTrace(area, old(cache.disk), old(Pending()))
    {
      ActivePositive(s.ops, p);
      StepKeeps(s, End(p), most);
      s', o' := LogAdmission.Next(s, End(p), most), o;
      outstanding := outstanding - 1;
      if outstanding == 0 {
        committing := true;
        o' := Commit(o);
        StepKeeps(s', LogAdmission.Commit, most);
        s' := LogAdmission.Next(s', LogAdmission.Commit, most);
        committing := false;
        StepKeeps(s', Done, most);
        s' := LogAdmission.Next(s', Done, most);
      }
    }

    /** recover_from_log, on a cache that has just been set up. */
    method RecoverFromLog(ghost o: Others) returns (ghost o': Others)
      requires block.Length == LOGSIZE && HeadOk(area, cache.disk)
      requires Calm(cache, {}, {}, o) && 1 + |Taken(o)| < NBUF && Unlocked(area, Listed(area, cache.disk), o)
      modifies this`n, block, cache, cache.buf
      ensures n == 0 && Calm(cache, {}, {}, o')
      ensures cache.trace == old(cache.trace) + RecoveryTrace(area, old(cache.disk))
      ensures cache.disk == Recovered(area, old(cache.disk))
      ensures forall j :: |old(cache.trace)| <= j < |cache.trace| ==> RecoversAs(area, old(cache.disk), cache.trace[j])
    {
      ghost var d, before := cache.disk, cache.trace;
      ReadHead(o);
      o' := InstallTrans({}, o);
      ClearHead(o');
      forall j | |before| <= j < |cache.trace| ensures RecoversAs(area, d, cache.trace[j]) {
        RecoveryTraceSafe(area, d, j - |before|);
      }
    }
  }

  /** The steps of the admission rule that a call of end_op takes. */
  ghost predicate AfterEnd(s: LogAdmission.State, p: nat, most: nat, s': LogAdmission.State) {
    && LogAdmission.Enabled(s, End(p), most)
    && var s1 := LogAdmission.Next(s, End(p), most);
       if !s1.committing then s' == s1
       else
         && LogAdmission.Enabled(s1, LogAdmission.Commit, most)
         && var s2 := LogAdmission.Next(s1, LogAdmission.Commit, most);
            LogAdmission.Enabled(s2, Done, most) && s' == LogAdmission.Next(s2, Done, most)
  }

  lemma Regroup<T>(a: seq<T>, b: seq<T>, c: seq<T>)
    ensures a + b + c == a + (b + c)
  {
  }

  lemma AbsorbElements(bs: seq<int>, x: int)
    ensures Elements(bs) + {x} == Elements(Absorb(bs, x))
  {
  }

  /** The guard keeps the list within the log area, absorbed or appended. */
  lemma AbsorbOk(a: Area, len: nat, bs: seq<int>, x: int)
    requires a.Loggable(len, bs) && NoRepeats(bs) && a.Home(len, x) && !TooBig(|bs|, a.size)
    ensures a.Loggable(len, Absorb(bs, x)) && NoRepeats(Absorb(bs, x))
  {
  }
}
