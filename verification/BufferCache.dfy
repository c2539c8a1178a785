/** The buffer cache of src/bio.c: NBUF buffers on a doubly linked ring in
    most-recently-released order, over a disk whose transfer contract is that of
    `iderw` in src/memide.c. Every method is one critical section of
    `bcache.lock`, or one step of the process that holds the buffer's sleep lock,
    so the invariant holds between any two steps of any interleaving. */
module BufferCache {
  import opened Common
  import opened Params
  import opened RedoLog

  /** `struct buf`, with `prev` and `next` as indices into the buffer array. */
  datatype Buf = Buf(
    valid: bool, dirty: bool, dev: nat, blockno: nat,
    locked: bool, refcnt: nat, prev: nat, next: nat, data: Block)

  /** The index of `bcache.head`, behind the NBUF buffers. */
  const HEAD := NBUF

  /** The only device there is. */
  const ROOTDEV := 1

  // ------------------------------------------------------------------ ring

  /** The ring as it is walked from the head back to the head. */
  function Walk(ring: seq<nat>): seq<nat> {
    [HEAD] + ring + [HEAD]
  }

  ghost predicate Distinct(ring: seq<nat>) {
    forall i, j :: 0 <= i < j < |ring| ==> ring[i] != ring[j]
  }

  /** `next` and `prev` of the head and of the buffers in `ring` trace exactly
      `ring`, forwards and backwards. */
  ghost predicate Linked(s: seq<Buf>, ring: seq<nat>) {
    && |s| == NBUF + 1
    && (forall i :: 0 <= i < |ring| ==> ring[i] < NBUF)
    && Distinct(ring)
    && (forall i {:trigger s[Walk(ring)[i]]} :: 0 <= i <= |ring| ==> s[Walk(ring)[i]].next == Walk(ring)[i + 1])
    && (forall i {:trigger s[Walk(ring)[i]]} :: 1 <= i <= |ring| + 1 ==> s[Walk(ring)[i]].prev == Walk(ring)[i - 1])
  }

  /** Take buffer `b` out of the list. */
  function Unlink(s: seq<Buf>, b: nat): seq<Buf>
    requires b < |s| && s[b].next < |s| && s[b].prev < |s|
  {
    var s1 := s[s[b].next := s[s[b].next].(prev := s[b].prev)];
    if s1[b].prev < |s1| then
      s1[s1[b].prev := s1[s1[b].prev].(next := s1[b].next)]
    else s1
  }

  /** Put buffer `b` right behind the head. */
  function LinkFront(s: seq<Buf>, b: nat): seq<Buf>
    requires b < HEAD < |s| && s[HEAD].next < |s|
  {
    var s1 := s[b := s[b].(next := s[HEAD].next, prev := HEAD)];
    var s2 := s1[s1[HEAD].next := s1[s1[HEAD].next].(prev := b)];
    s2[HEAD := s2[HEAD].(next := b)]
  }

  /** The two states differ in the links at most. */
  ghost predicate SamePayload(s: seq<Buf>, t: seq<Buf>) {
    && |s| == |t|
    && (forall i :: 0 <= i < |s| ==> s[i].(prev := 0, next := 0) == t[i].(prev := 0, next := 0))
  }

  function Without(ring: seq<nat>, k: nat): seq<nat>
    requires k < |ring|
  {
    ring[..k] + ring[k + 1..]
  }

  lemma WithoutDistinct(ring: seq<nat>, k: nat)
    requires Distinct(ring) && k < |ring|
    ensures Distinct(Without(ring, k)) && ring[k] !in Without(ring, k)
    ensures (forall i :: 0 <= i < |ring| ==> ring[i] < NBUF) ==> forall i :: 0 <= i < |ring| - 1 ==> Without(ring, k)[i] < NBUF
  {
    var r := Without(ring, k);
    assert forall i :: 0 <= i < |r| ==> r[i] == ring[if i < k then i else i + 1];
  }

  lemma UnlinkPayload(s: seq<Buf>, b: nat)
    requires b < |s| && s[b].next < |s| && s[b].prev < |s|
    ensures SamePayload(s, Unlink(s, b))
  {
  }

  lemma UnlinkOk(s: seq<Buf>, ring: seq<nat>, k: nat)
    requires Linked(s, ring) && k < |ring|
    ensures s[ring[k]].next < |s| && s[ring[k]].prev < |s|
    ensures Linked(Unlink(s, ring[k]), Without(ring, k))
  {
    UnlinkAt(s, ring, k, 0);
    WithoutDistinct(ring, k);
    forall i | 0 <= i < |ring|
      ensures Unlink(s, ring[k])[Walk(Without(ring, k))[i]].next == Walk(Without(ring, k))[i + 1]
    {
      UnlinkAt(s, ring, k, i);
    }
    forall i | 1 <= i <= |ring|
      ensures Unlink(s, ring[k])[Walk(Without(ring, k))[i]].prev == Walk(Without(ring, k))[i - 1]
    {
      UnlinkAt(s, ring, k, i - 1);
    }
  }

  /** One link of the list after `Unlink`. */
  lemma UnlinkAt(s: seq<Buf>, ring: seq<nat>, k: nat, i: nat)
    requires Linked(s, ring) && k < |ring| && i < |ring|
    ensures s[ring[k]].next < |s| && s[ring[k]].prev < |s|
    ensures Walk(Without(ring, k))[i] < |s| && Walk(Without(ring, k))[i + 1] < |s|
    ensures Unlink(s, ring[k])[Walk(Without(ring, k))[i]].next == Walk(Without(ring, k))[i + 1]
    ensures Unlink(s, ring[k])[Walk(Without(ring, k))[i + 1]].prev == Walk(Without(ring, k))[i]
  {
    WalkDistinct(ring);
    var w := Walk(ring);
    assert w[k + 1] == ring[k];
    assert s[w[k + 1]].next == w[k + 2] && s[w[k + 1]].prev == w[k];
    assert s[w[i]].next == w[i + 1];
    assert s[w[i + 1]].prev == w[i];
    assert s[w[i + 1]].next == w[i + 2];
    assert s[w[i + 2]].prev == w[i + 1];
    var v := Walk(Without(ring, k));
    assert v[i] == if i <= k then w[i] else w[i + 1];
    assert v[i + 1] == if i + 1 <= k then w[i + 1] else w[i + 2];
  }

  /** Only the two ends of the walk coincide. */
  lemma WalkDistinct(ring: seq<nat>)
    requires Distinct(ring) && forall i :: 0 <= i < |ring| ==> ring[i] < NBUF
    ensures forall i, j :: 0 <= i < j <= |ring| + 1 && !(i == 0 && j == |ring| + 1) ==> Walk(ring)[i] != Walk(ring)[j]
  {
  }

  lemma LinkFrontPayload(s: seq<Buf>, b: nat)
    requires b < HEAD < |s| && s[HEAD].next < |s|
    ensures SamePayload(s, LinkFront(s, b))
  {
    var s1 := s[b := s[b].(next := s[HEAD].next, prev := HEAD)];
    assert SamePayload(s, s1);
    var s2 := s1[s1[HEAD].next := s1[s1[HEAD].next].(prev := b)];
    assert SamePayload(s1, s2);
  }

  lemma LinkFrontOk(s: seq<Buf>, ring: seq<nat>, b: nat)
    requires Linked(s, ring) && b < NBUF && b !in ring
    ensures s[HEAD].next < |s|
    ensures Linked(LinkFront(s, b), [b] + ring)
    ensures SamePayload(s, LinkFront(s, b))
  {
    HeadLinks(s, ring);
    LinkFrontPayload(s, b);
    forall i | 0 <= i <= |ring| + 1
      ensures LinkFront(s, b)[Walk([b] + ring)[i]].next == Walk([b] + ring)[i + 1]
    {
      LinkFrontAt(s, ring, b, i);
    }
    forall i | 1 <= i <= |ring| + 2
      ensures LinkFront(s, b)[Walk([b] + ring)[i]].prev == Walk([b] + ring)[i - 1]
    {
      LinkFrontAt(s, ring, b, i - 1);
    }
  }

  lemma HeadLinks(s: seq<Buf>, ring: seq<nat>)
    requires Linked(s, ring)
    ensures s[HEAD].next == Walk(ring)[1] < |s|
    ensures s[HEAD].prev == Walk(ring)[|ring|] < |s|
  {
    var w := Walk(ring);
    assert w[0] == HEAD && w[|ring| + 1] == HEAD;
    assert s[w[0]].next == w[1] && s[w[|ring| + 1]].prev == w[|ring|];
  }

  /** Where the links of the `k`th entry lead. */
  lemma EntryLinks(s: seq<Buf>, ring: seq<nat>, k: nat)
    requires Linked(s, ring) && k < |ring|
    ensures s[ring[k]].next == Walk(ring)[k + 2]
    ensures s[ring[k]].prev == Walk(ring)[k]
  {
    var w := Walk(ring);
    assert w[k + 1] == ring[k];
    assert s[w[k + 1]].next == w[k + 2] && s[w[k + 1]].prev == w[k];
  }

  /** One link of the list after `LinkFront`. */
  lemma LinkFrontAt(s: seq<Buf>, ring: seq<nat>, b: nat, i: nat)
    requires Linked(s, ring) && b < NBUF && b !in ring && s[HEAD].next == Walk(ring)[1] < |s|
    requires i <= |ring| + 1
    ensures Walk([b] + ring)[i] < |s| && Walk([b] + ring)[i + 1] < |s|
    ensures LinkFront(s, b)[Walk([b] + ring)[i]].next == Walk([b] + ring)[i + 1]
    ensures LinkFront(s, b)[Walk([b] + ring)[i + 1]].prev == Walk([b] + ring)[i]
  {
    WalkDistinct(ring);
    var w, v := Walk(ring), Walk([b] + ring);
    assert v[i] == if i == 0 then HEAD else if i == 1 then b else w[i - 1];
    assert v[i + 1] == if i == 0 then b else w[i];
    if i >= 2 {
      assert s[w[i - 1]].next == w[i];
      assert s[w[i]].prev == w[i - 1];
    }
  }

  /** Moving an entry to the front of the list. */
  lemma MovedOk(s: seq<Buf>, ring: seq<nat>, k: nat)
    requires Linked(s, ring) && k < |ring|
    ensures var b := ring[k];
      && s[b].next < |s| && s[b].prev < |s| && Unlink(s, b)[HEAD].next < |s| && Unlink(s, b)[b].prev < |s|
      && Linked(LinkFront(Unlink(s, b), b), [b] + Without(ring, k))
      && SamePayload(s, LinkFront(Unlink(s, b), b))
  {
    var b := ring[k];
    UnlinkOk(s, ring, k);
    UnlinkPayload(s, b);
    WithoutDistinct(ring, k);
    LinkFrontOk(Unlink(s, b), Without(ring, k), b);
    UnlinkPrev(s, ring, k);
  }

  lemma UnlinkPrev(s: seq<Buf>, ring: seq<nat>, k: nat)
    requires Linked(s, ring) && k < |ring| && s[ring[k]].next < |s| && s[ring[k]].prev < |s|
    ensures Unlink(s, ring[k])[ring[k]].prev < |s|
  {
    var w := Walk(ring);
    assert w[k + 1] == ring[k];
    assert s[w[k + 1]].next == w[k + 2] && s[w[k + 1]].prev == w[k];
    WalkDistinct(ring);
  }

  // ------------------------------------------------------------- invariant

  /** What a buffer promises: a valid one is a copy of a block of the disk, and
      unless someone has it locked or pinned the copy is exact. */
  ghost predicate BufOk(b: Buf, disk: Disk) {
    && (b.valid ==> b.dev == ROOTDEV && b.blockno < |disk|)
    && (b.dirty ==> b.valid)
    && (b.locked ==> b.refcnt > 0)
    && (b.valid && !b.dirty && !b.locked ==> b.data == disk[b.blockno])
  }

  /** `holder` says which buffer stands for which block; for a real device no
      two buffers stand for the same one. */
  ghost predicate HolderOk(s: seq<Buf>, holder: map<(nat, nat), nat>)
    requires |s| == NBUF + 1
  {
    && (forall k :: k in holder ==> k.0 != 0 && holder[k] < NBUF && (s[holder[k]].dev, s[holder[k]].blockno) == k)
    && (forall i :: 0 <= i < NBUF && s[i].dev != 0 ==>
          (s[i].dev, s[i].blockno) in holder && holder[(s[i].dev, s[i].blockno)] == i)
  }

  /** The ring holds every buffer, the most recently released first. */
  ghost predicate Aged(ring: seq<nat>, stamp: seq<nat>, clock: nat) {
    && |stamp| == NBUF
    && (forall i :: 0 <= i < |ring| ==> ring[i] < NBUF && stamp[ring[i]] < clock)
    && (forall b :: 0 <= b < NBUF ==> b in ring)
    && (forall i, j :: 0 <= i < j < |ring| ==> stamp[ring[i]] > stamp[ring[j]])
  }

  /** A buffer that `bget` may not recycle. */
  predicate Busy(b: Buf) {
    b.refcnt > 0 || b.dirty
  }

  /** Age decides among the buffers that may be recycled: the one nearest the
      tail of the ring was released longest ago. */
  lemma OldestUnused(s: seq<Buf>, ring: seq<nat>, stamp: seq<nat>, clock: nat, k: nat)
    requires |s| == NBUF + 1 && Aged(ring, stamp, clock) && k < |ring|
    requires forall i :: k < i < |ring| ==> Busy(s[ring[i]])
    ensures forall b :: 0 <= b < NBUF && !Busy(s[b]) ==> stamp[ring[k]] <= stamp[b]
  {
    forall b | 0 <= b < NBUF && !Busy(s[b])
      ensures stamp[ring[k]] <= stamp[b]
    {
      assert b in ring;
      var j :| 0 <= j < |ring| && ring[j] == b;
    }
  }

  /** All buffers but `b` are as they were, links aside. */
  ghost predicate OthersKept(s: seq<Buf>, t: seq<Buf>, b: nat) {
    && |s| == |t|
    && (forall i :: 0 <= i < |s| && i != b ==> s[i].(prev := 0, next := 0) == t[i].(prev := 0, next := 0))
  }

  /** The parts of the invariant that do not concern the ring. */
  ghost predicate Coherent(s: seq<Buf>, holder: map<(nat, nat), nat>, disk: Disk) {
    && |s| == NBUF + 1
    && HolderOk(s, holder)
    && (forall i :: 0 <= i < NBUF ==> BufOk(s[i], disk))
  }

  /** What a reader of block `x` is entitled to see: the cached copy if there is
      one, else the disk. */
  ghost function Seen(s: seq<Buf>, holder: map<(nat, nat), nat>, disk: Disk, x: nat): Block
    requires |s| == NBUF + 1 && HolderOk(s, holder) && x < |disk|
  {
    if (ROOTDEV, x) in holder && s[holder[(ROOTDEV, x)]].valid
    then s[holder[(ROOTDEV, x)]].data
    else disk[x]
  }

  /** What the readers of all blocks see. */
  ghost function LookOf(s: seq<Buf>, holder: map<(nat, nat), nat>, disk: Disk): (l: Disk)
    requires Coherent(s, holder, disk)
    ensures |l| == |disk| && forall x :: 0 <= x < |disk| ==> l[x] == Seen(s, holder, disk, x)
  {
    seq(|disk|, x requires 0 <= x < |disk| => Seen(s, holder, disk, x))
  }

  lemma RelinkCoherent(s: seq<Buf>, t: seq<Buf>, holder: map<(nat, nat), nat>, disk: Disk)
    requires Coherent(s, holder, disk) && SamePayload(s, t)
    ensures Coherent(t, holder, disk) && LookOf(t, holder, disk) == LookOf(s, holder, disk)
  {
    assert forall i :: 0 <= i < NBUF ==> t[i] == s[i].(prev := t[i].prev, next := t[i].next);
  }

  lemma UpdateLinked(s: seq<Buf>, ring: seq<nat>, b: nat, nb: Buf)
    requires Linked(s, ring) && b < NBUF && nb.prev == s[b].prev && nb.next == s[b].next
    ensures Linked(s[b := nb], ring)
  {
  }

  /** A buffer keeps its identity and changes otherwise: the others still hold
      what they promise, and readers of other blocks see what they saw. */
  lemma UpdateCoherent(s: seq<Buf>, holder: map<(nat, nat), nat>, disk: Disk, b: nat, nb: Buf)
    requires Coherent(s, holder, disk) && b < NBUF && BufOk(nb, disk)
    requires nb.dev == s[b].dev && nb.blockno == s[b].blockno
    ensures Coherent(s[b := nb], holder, disk)
    ensures nb.valid ==> nb.blockno < |disk| && LookOf(s[b := nb], holder, disk) == LookOf(s, holder, disk)[nb.blockno := nb.data]
    ensures !nb.valid && !s[b].valid ==> LookOf(s[b := nb], holder, disk) == LookOf(s, holder, disk)
  {
  }

  function Recycled(b: Buf, dev: nat, blockno: nat): Buf {
    b.(dev := dev, blockno := blockno, valid := false, dirty := false, refcnt := 1)
  }

  ghost function NewHolder(s: seq<Buf>, holder: map<(nat, nat), nat>, b: nat, dev: nat, blockno: nat): map<(nat, nat), nat>
    requires b < |s|
  {
    holder - {(s[b].dev, s[b].blockno)} + map[(dev, blockno) := b]
  }

  /** Recycling an unpinned, unreferenced buffer loses nothing: its contents are
      on the disk. */
  lemma RecycleCoherent(s: seq<Buf>, holder: map<(nat, nat), nat>, disk: Disk, b: nat, dev: nat, blockno: nat)
    requires Coherent(s, holder, disk) && b < NBUF && !Busy(s[b])
    requires dev != 0 && (dev, blockno) !in holder
    ensures Coherent(s[b := Recycled(s[b], dev, blockno)], NewHolder(s, holder, b, dev, blockno), disk)
    ensures LookOf(s[b := Recycled(s[b], dev, blockno)], NewHolder(s, holder, b, dev, blockno), disk) == LookOf(s, holder, disk)
  {
    var t, h := s[b := Recycled(s[b], dev, blockno)], NewHolder(s, holder, b, dev, blockno);
    forall x | 0 <= x < |disk|
      ensures Seen(t, h, disk, x) == Seen(s, holder, disk, x)
    {
      if (ROOTDEV, x) in holder && holder[(ROOTDEV, x)] == b {
        assert BufOk(s[b], disk);
      }
    }
  }

  /** Writing a buffer through makes the disk agree with it, and shows no
      reader anything new. */
  lemma WriteCoherent(s: seq<Buf>, holder: map<(nat, nat), nat>, disk: Disk, b: nat)
    requires Coherent(s, holder, disk) && b < NBUF && s[b].valid
    ensures Coherent(s[b := s[b].(dirty := false)], holder, disk[s[b].blockno := s[b].data])
    ensures LookOf(s[b := s[b].(dirty := false)], holder, disk[s[b].blockno := s[b].data]) == LookOf(s, holder, disk)
  {
    var t, d := s[b := s[b].(dirty := false)], disk[s[b].blockno := s[b].data];
    assert BufOk(s[b], disk);
    forall i | 0 <= i < NBUF
      ensures BufOk(t[i], d)
    {
      assert BufOk(s[i], disk);
    }
  }

  /** Moving the released buffer to the front keeps the ring in order of age. */
  lemma ReleaseAged(ring: seq<nat>, stamp: seq<nat>, clock: nat, b: nat, k: nat)
    requires Aged(ring, stamp, clock) && Distinct(ring) && b < NBUF && k < |ring| && ring[k] == b
    ensures Aged([b] + Without(ring, k), stamp[b := clock], clock + 1)
  {
    ReleaseHolds(ring, k);
    var r, t := [b] + Without(ring, k), stamp[b := clock];
    forall i, j | 0 <= i < j < |r|
      ensures t[r[i]] > t[r[j]]
    {
      ReleaseAt(ring, k, i);
      ReleaseAt(ring, k, j);
    }
    forall i | 0 <= i < |r|
      ensures r[i] < NBUF && t[r[i]] < clock + 1
    {
      ReleaseAt(ring, k, i);
    }
  }

  lemma ReleaseAt(ring: seq<nat>, k: nat, i: nat)
    requires k < |ring| && i < |ring| && Distinct(ring)
    ensures ([ring[k]] + Without(ring, k))[i] == if i == 0 then ring[k] else ring[if i <= k then i - 1 else i]
    ensures i > 0 ==> ring[if i <= k then i - 1 else i] != ring[k]
  {
  }

  lemma ReleaseHolds(ring: seq<nat>, k: nat)
    requires k < |ring| && forall c :: 0 <= c < NBUF ==> c in ring
    ensures forall c :: 0 <= c < NBUF ==> c in [ring[k]] + Without(ring, k)
  {
    var r := [ring[k]] + Without(ring, k);
    forall c | 0 <= c < NBUF
      ensures c in r
    {
      assert c in ring;
      var i :| 0 <= i < |ring| && ring[i] == c;
      assert r[if i == k then 0 else if i < k then i + 1 else i] == c;
    }
  }

  /** Where a buffer is in the ring. */
  ghost function PlaceIn(ring: seq<nat>, stamp: seq<nat>, clock: nat, b: nat): (k: nat)
    requires Aged(ring, stamp, clock) && b < NBUF
    ensures k < |ring| && ring[k] == b
  {
    assert b in ring;
    var k :| 0 <= k < |ring| && ring[k] == b; k
  }

  /** All that moving a buffer to the front keeps. */
  lemma FrontOk(s: seq<Buf>, ring: seq<nat>, stamp: seq<nat>, clock: nat, holder: map<(nat, nat), nat>, disk: Disk, b: nat, k: nat)
    requires Linked(s, ring) && Aged(ring, stamp, clock) && Coherent(s, holder, disk) && b < NBUF && k < |ring| && ring[k] == b
    ensures s[b].next < |s| && s[b].prev < |s| && Unlink(s, b)[HEAD].next < |s| && Unlink(s, b)[b].prev < |s|
    ensures var t := LinkFront(Unlink(s, b), b);
      && Linked(t, [b] + Without(ring, k)) && Aged([b] + Without(ring, k), stamp[b := clock], clock + 1)
      && SamePayload(s, t) && Coherent(t, holder, disk) && LookOf(t, holder, disk) == LookOf(s, holder, disk)
  {
    MovedOk(s, ring, k);
    ReleaseAged(ring, stamp, clock, b, k);
    RelinkCoherent(s, LinkFront(Unlink(s, b), b), holder, disk);
  }

  /** Walk the ring from the least recently used end to a buffer not in use. */
  method ScanBack(buf: array<Buf>, ghost ring: seq<nat>) returns (b: nat, ghost k: nat)
    requires Linked(buf[..], ring)
    ensures b != HEAD ==> k < |ring| && b == ring[k] && !Busy(buf[b]) && forall i :: k < i < |ring| ==> Busy(buf[ring[i]])
    ensures b == HEAD ==> forall i :: 0 <= i < |ring| ==> Busy(buf[ring[i]])
  {
    HeadLinks(buf[..], ring);
    assert |buf[..]| == NBUF + 1 && forall i :: 0 <= i < |ring| ==> ring[i] < NBUF;
    hide Linked;
    b := buf[HEAD].prev;
    k := |ring|;
    while b != HEAD
      invariant 0 <= k <= |ring| && b == Walk(ring)[k]
      invariant forall i :: k <= i < |ring| ==> Busy(buf[ring[i]])
      decreases k
    {
      k := k - 1;
      if buf[b].refcnt == 0 && !buf[b].dirty {
        return;
      }
      EntryLinks(buf[..], ring, k);
      b := buf[b].prev;
    }
  }

  lemma AllBusy(s: seq<Buf>, ring: seq<nat>, stamp: seq<nat>, clock: nat)
    requires |s| == NBUF + 1 && Aged(ring, stamp, clock)
    requires forall i :: 0 <= i < |ring| ==> Busy(s[ring[i]])
    ensures forall b :: 0 <= b < NBUF ==> Busy(s[b])
  {
    forall b | 0 <= b < NBUF
      ensures Busy(s[b])
    {
      assert b in ring;
    }
  }

  class Cache {
    const buf: array<Buf>
    var disk: Disk
    /** The disk after each write since the machine was switched on. */
    ghost var trace: seq<Disk>
    ghost var ring: seq<nat>
    ghost var holder: map<(nat, nat), nat>
    /** When each buffer was last released for good, on a clock of releases. */
    ghost var stamp: seq<nat>
    ghost var clock: nat

    ghost predicate Valid()
      reads this, buf
    {
      && buf.Length == NBUF + 1
      && Linked(buf[..], ring)
      && Aged(ring, stamp, clock)
      && Coherent(buf[..], holder, disk)
    }

    ghost function Look(): Disk
      requires Valid()
      reads this, buf
    {
      LookOf(buf[..], holder, disk)
    }

    /** binit */
    constructor (disk: Disk)
      ensures Valid()
      ensures fresh(buf)
      ensures this.disk == disk && trace == []
      ensures forall i :: 0 <= i < NBUF ==> buf[i].dev == 0 && !Busy(buf[i]) && !buf[i].valid
      ensures holder == map[]
    {
      buf := new Buf[NBUF + 1](_ => Buf(false, false, 0, 0, false, 0, 0, 0, ZeroBlock));
      this.disk := disk;
      trace := [];
      ring := [];
      holder := map[];
      stamp := seq(NBUF, i => i);
      clock := NBUF;
      new;
      buf[HEAD] := buf[HEAD].(prev := HEAD, next := HEAD);
      var b := 0;
      while b < NBUF
        invariant 0 <= b <= NBUF
        invariant Linked(buf[..], ring)
        invariant |ring| == b && forall i :: 0 <= i < b ==> ring[i] == b - 1 - i
        invariant forall i :: 0 <= i < NBUF ==> buf[i].(prev := 0, next := 0) == Buf(false, false, 0, 0, false, 0, 0, 0, ZeroBlock)
        modifies this`ring, buf
      {
        LinkFrontOk(buf[..], ring, b);
        ghost var s := buf[..];
        buf[b] := buf[b].(next := buf[HEAD].next, prev := HEAD);
        buf[buf[HEAD].next] := buf[buf[HEAD].next].(prev := b);
        buf[HEAD] := buf[HEAD].(next := b);
        assert buf[..] == LinkFront(s, b);
        ring := [b] + ring;
        b := b + 1;
      }
      forall i | 0 <= i < NBUF
        ensures i in ring
      {
        assert ring[NBUF - 1 - i] == i;
      }
    }

    /** The part of `bget` under `bcache.lock`. `None` is the panic: the block is
        not cached and every buffer is referenced or pinned. A recycled buffer
        is the one released longest ago among those that may be recycled. */
    method Bget(dev: nat, blockno: nat) returns (r: Option<nat>)
      requires Valid() && dev != 0
      modifies this`holder, buf
      ensures Valid()
      ensures r.None? <==> (dev, blockno) !in old(holder) && forall i :: 0 <= i < NBUF ==> Busy(old(buf[i]))
      ensures r.None? ==> buf[..] == old(buf[..]) && holder == old(holder)
      ensures r.Some? ==> r.value < NBUF && OthersKept(old(buf[..]), buf[..], r.value)
      ensures r.Some? && (dev, blockno) in old(holder) ==>
                && holder == old(holder)
                && r.value == holder[(dev, blockno)]
                && buf[r.value] == old(buf[..])[r.value].(refcnt := old(buf[..])[r.value].refcnt + 1)
      ensures r.Some? && (dev, blockno) !in old(holder) ==>
                && holder == NewHolder(old(buf[..]), old(holder), r.value, dev, blockno)
                && !Busy(old(buf[..])[r.value])
                && (forall i :: 0 <= i < NBUF && !Busy(old(buf[i])) ==> stamp[r.value] <= stamp[i])
                && buf[r.value] == Recycled(old(buf[..])[r.value], dev, blockno)
      ensures Look() == old(Look())
    {
      var b := FindCached(dev, blockno);
      if b != HEAD {
        ghost var s := buf[..];
        var nb := buf[b].(refcnt := buf[b].refcnt + 1);
        UpdateCoherent(s, holder, disk, b, nb);
        UpdateLinked(s, ring, b, nb);
        buf[b] := nb;
        assert buf[..] == s[b := nb];
        return Some(b);
      }
      b := FindUnused();
      if b == HEAD {
        return None;
      }
      Recycle(b, dev, blockno);
      return Some(b);
    }

    /** The first loop of `bget`, from the most recently used end. */
    method FindCached(dev: nat, blockno: nat) returns (b: nat)
      requires Valid() && dev != 0
      ensures b == if (dev, blockno) in holder then holder[(dev, blockno)] else HEAD
    {
      assert (dev, blockno) in holder ==> holder[(dev, blockno)] in ring;
      HeadLinks(buf[..], ring);
      b := buf[HEAD].next;
      ghost var k := 0;
      while b != HEAD
        invariant 0 <= k <= |ring| && b == Walk(ring)[k + 1]
        invariant forall i :: 0 <= i < k ==> (buf[ring[i]].dev, buf[ring[i]].blockno) != (dev, blockno)
        decreases |ring| - k
      {
        if buf[b].dev == dev && buf[b].blockno == blockno {
          return;
        }
        EntryLinks(buf[..], ring, k);
        b := buf[b].next;
        k := k + 1;
      }
    }

    /** The second loop of `bget`. */
    method FindUnused() returns (b: nat)
      requires Valid()
      ensures b == HEAD <==> forall i :: 0 <= i < NBUF ==> Busy(buf[i])
      ensures b != HEAD ==> b < NBUF && !Busy(buf[b])
      ensures b != HEAD ==> forall i :: 0 <= i < NBUF && !Busy(buf[i]) ==> stamp[b] <= stamp[i]
    {
      ghost var k;
      b, k := ScanBack(buf, ring);
      if b != HEAD {
        OldestUnused(buf[..], ring, stamp, clock, k);
      } else {
        AllBusy(buf[..], ring, stamp, clock);
      }
    }

    /** Give the unused buffer `b` a new identity. */
    method Recycle(b: nat, dev: nat, blockno: nat)
      requires Valid() && dev != 0 && (dev, blockno) !in holder
      requires b < NBUF && !Busy(buf[b])
      modifies this`holder, buf
      ensures Valid()
      ensures holder == NewHolder(old(buf[..]), old(holder), b, dev, blockno)
      ensures buf[..] == old(buf[..])[b := Recycled(old(buf[b]), dev, blockno)]
      ensures Look() == old(Look())
    {
      ghost var s := buf[..];
      RecycleCoherent(s, holder, disk, b, dev, blockno);
      UpdateLinked(s, ring, b, Recycled(s[b], dev, blockno));
      holder := NewHolder(s, holder, b, dev, blockno);
      buf[b] := Recycled(buf[b], dev, blockno);
      assert buf[..] == s[b := Recycled(s[b], dev, blockno)];
    }
  
    /** The disk driver: write a dirty buffer, or read an invalid one. */
    method Iderw(b: nat)
      requires Valid() && b < NBUF
      requires buf[b].locked && (buf[b].dirty || !buf[b].valid)
      requires buf[b].dev == ROOTDEV && buf[b].blockno < |disk|
      modifies this`disk, this`trace, buf
      ensures Valid()
      ensures buf[..] == old(buf[..])[b := old(buf[b]).(dirty := false, valid := true, data := if old(buf[b]).dirty then old(buf[b]).data else old(disk)[old(buf[b]).blockno])]
      ensures disk == if old(buf[b]).dirty then old(disk)[old(buf[b]).blockno := old(buf[b]).data] else old(disk)
      ensures trace == if old(buf[b]).dirty then old(trace) + [disk] else old(trace)
      ensures Look() == old(Look())
    {
      ghost var s := buf[..];
      assert BufOk(s[b], disk);
      if buf[b].dirty {
        WriteCoherent(s, holder, disk, b);
        UpdateLinked(s, ring, b, s[b].(dirty := false));
        disk := disk[buf[b].blockno := buf[b].data];
        trace := trace + [disk];
        buf[b] := buf[b].(dirty := false);
        assert buf[..] == s[b := s[b].(dirty := false)];
      } else {
        var nb := buf[b].(valid := true, data := disk[buf[b].blockno]);
        UpdateCoherent(s, holder, disk, b, nb);
        UpdateLinked(s, ring, b, nb);
        buf[b] := nb;
        assert buf[..] == s[b := nb];
      }
    }

    /** The holder of `b`'s sleep lock changes the buffer, not its identity. */
    method Put(b: nat, nb: Buf)
      requires Valid() && b < NBUF && BufOk(nb, disk)
      requires nb.dev == buf[b].dev && nb.blockno == buf[b].blockno
      requires nb.prev == buf[b].prev && nb.next == buf[b].next
      requires nb.valid == buf[b].valid
      modifies buf
      ensures Valid()
      ensures buf[..] == old(buf[..])[b := nb]
      ensures nb.valid ==> nb.blockno < |disk| && Look() == old(Look())[nb.blockno := nb.data]
      ensures !nb.valid ==> Look() == old(Look())
    {
      ghost var s := buf[..];
      assert BufOk(s[b], disk);
      UpdateCoherent(s, holder, disk, b, nb);
      UpdateLinked(s, ring, b, nb);
      buf[b] := nb;
      assert buf[..] == s[b := nb];
    }

    /** bread. The sleep lock of the block's buffer is free: `acquiresleep`
        waits for that. */
    method Bread(blockno: nat) returns (r: Option<nat>)
      requires Valid() && blockno < |disk|
      requires (ROOTDEV, blockno) in holder ==> !buf[holder[(ROOTDEV, blockno)]].locked
      modifies this`holder, this`disk, this`trace, buf
      ensures Valid() && disk == old(disk) && trace == old(trace)
      ensures r.None? <==> (ROOTDEV, blockno) !in old(holder) && forall i :: 0 <= i < NBUF ==> Busy(old(buf[i]))
      ensures r.Some? ==>
                && r.value < NBUF
                && OthersKept(old(buf[..]), buf[..], r.value)
                && buf[r.value].valid && buf[r.value].locked
                && buf[r.value].dev == ROOTDEV && buf[r.value].blockno == blockno
                && buf[r.value].data == old(Look()[blockno])
                && holder[(ROOTDEV, blockno)] == r.value
      ensures r.Some? && (ROOTDEV, blockno) in old(holder) ==>
                && r.value == old(holder)[(ROOTDEV, blockno)]
                && buf[r.value].dirty == old(buf[..])[r.value].dirty
                && buf[r.value].refcnt == old(buf[..])[r.value].refcnt + 1
      ensures r.Some? && (ROOTDEV, blockno) !in old(holder) ==>
                && !Busy(old(buf[..])[r.value])
                && (forall i :: 0 <= i < NBUF && !Busy(old(buf[i])) ==> stamp[r.value] <= stamp[i])
                && buf[r.value].refcnt == 1 && !buf[r.value].dirty
      ensures Look() == old(Look())
    {
      r := Bget(ROOTDEV, blockno);
      if r.Some? {
        LockAndRead(r.value);
      }
    }

    /** The part of `bread` after `bcache.lock` is released. */
    method LockAndRead(b: nat)
      requires Valid() && b < NBUF && buf[b].refcnt > 0 && !buf[b].locked
      requires buf[b].dev == ROOTDEV && buf[b].blockno < |disk|
      modifies this`disk, this`trace, buf
      ensures Valid() && disk == old(disk) && trace == old(trace)
      ensures buf[..] == old(buf[..])[b := old(buf[b]).(locked := true, valid := true, data := old(Look()[buf[b].blockno]))]
      ensures Look() == old(Look())
    {
      assert BufOk(buf[b], disk);
      Put(b, buf[b].(locked := true));
      if !buf[b].valid {
        Iderw(b);
      }
    }

    /** bwrite */
    method Bwrite(b: nat)
      requires Valid() && b < NBUF && buf[b].locked && buf[b].valid
      modifies this`disk, this`trace, buf
      ensures Valid()
      ensures buf[..] == old(buf[..])[b := old(buf[b]).(dirty := false)]
      ensures disk == old(disk)[old(buf[b]).blockno := old(buf[b]).data] && trace == old(trace) + [disk]
      ensures Look() == old(Look())
    {
      assert BufOk(buf[b], disk);
      Put(b, buf[b].(dirty := true));
      Iderw(b);
    }

    /** brelse, by a caller that has logged or written whatever it changed. */
    method Brelse(b: nat)
      requires Valid() && b < NBUF && buf[b].locked
      requires buf[b].valid && !buf[b].dirty ==> buf[b].data == disk[buf[b].blockno]
      modifies this`ring, this`stamp, this`clock, buf
      ensures Valid()
      ensures OthersKept(old(buf[..]), buf[..], b)
      ensures buf[b].(prev := 0, next := 0) == old(buf[b]).(prev := 0, next := 0, locked := false, refcnt := old(buf[b]).refcnt - 1)
      ensures old(buf[b]).refcnt == 1 ==> |ring| > 0 && ring[0] == b && stamp == old(stamp)[b := old(clock)] && clock == old(clock) + 1
      ensures old(buf[b]).refcnt > 1 ==> ring == old(ring) && stamp == old(stamp) && clock == old(clock)
      ensures Look() == old(Look())
    {
      assert BufOk(buf[b], disk);
      Put(b, buf[b].(locked := false, refcnt := buf[b].refcnt - 1));
      if buf[b].refcnt == 0 {
        ToFront(b);
      }
    }

    /** The pointer surgery of `brelse`. */
    method ToFront(b: nat)
      requires Valid() && b < NBUF
      modifies this`ring, this`stamp, this`clock, buf
      ensures Valid()
      ensures SamePayload(old(buf[..]), buf[..])
      ensures |ring| > 0 && ring[0] == b
      ensures stamp == old(stamp)[b := old(clock)] && clock == old(clock) + 1
      ensures Look() == old(Look())
    {
      ghost var s, k := buf[..], PlaceIn(ring, stamp, clock, b);
      FrontOk(s, ring, stamp, clock, holder, disk, b, k);
      hide Linked, LinkFront, Unlink, Coherent, Aged, Without, LookOf, SamePayload;
      MovePointers(b);
      ring := [b] + Without(ring, k);
      stamp := stamp[b := clock];
      clock := clock + 1;
    }

    /** The six assignments of `brelse`. */
    method MovePointers(b: nat)
      requires b < HEAD < buf.Length && buf[b].next < buf.Length && buf[b].prev < buf.Length
      requires Unlink(buf[..], b)[HEAD].next < buf.Length
      requires Unlink(buf[..], b)[b].prev < buf.Length
      modifies buf
      ensures buf[..] == LinkFront(Unlink(old(buf[..]), b), b)
    {
      ghost var s := buf[..];
      buf[buf[b].next] := buf[buf[b].next].(prev := buf[b].prev);
      buf[buf[b].prev] := buf[buf[b].prev].(next := buf[b].next);
      assert buf[..] == Unlink(s, b);
      ghost var t := buf[..];
      buf[b] := buf[b].(next := buf[HEAD].next, prev := HEAD);
      buf[buf[HEAD].next] := buf[buf[HEAD].next].(prev := b);
      buf[HEAD] := buf[HEAD].(next := b);
      assert buf[..] == LinkFront(t, b);
    }
  }
}
