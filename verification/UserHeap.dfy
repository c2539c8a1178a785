/** The user-level allocator of src/umalloc.c, after section 8.7 of Kernighan and
    Ritchie, The C Programming Language, 2nd edition, on values. Addresses count
    headers: one unit is `sizeof(Header)` bytes. */
module UserHeap {
  /** `union header` */
  datatype Header = Header(ptr: int, size: int)

  /** The heap: the headers in memory, and for the proof the free list from
      `base` on, the sizes of the blocks handed out, and the block that each unit
      obtained from `sbrk` belongs to. */
  datatype Heap = Heap(base: int, mem: map<int, Header>, free: seq<int>, used: map<int, int>, owner: map<int, int>)

  // ------------------------------------------------------------------ lists

  ghost predicate Ascending(free: seq<int>) {
    forall i, j :: 0 <= i < j < |free| ==> free[i] < free[j]
  }

  /** The free list followed once around. */
  function Ring(free: seq<int>): seq<int>
    requires free != []
  {
    free + [free[0]]
  }

  /** The `ptr` fields trace the list and return to its first entry. */
  ghost predicate Linked(mem: map<int, Header>, free: seq<int>) {
    && free != []
    && (forall i :: 0 <= i < |free| ==> free[i] in mem)
    && (forall i {:trigger mem[free[i]]} :: 0 <= i < |free| ==> mem[free[i]].ptr == Ring(free)[i + 1])
  }

  /** `bp` goes into the ring behind entry `i`. */
  ghost predicate Behind(free: seq<int>, i: nat, bp: int) {
    && i < |free|
    && free[i] < bp
    && (i + 1 < |free| ==> bp < free[i + 1])
  }

  function Inserted(free: seq<int>, i: nat, bp: int): seq<int>
    requires i < |free|
  {
    free[..i + 1] + [bp] + free[i + 1..]
  }

  function Removed(free: seq<int>, j: nat): seq<int>
    requires j < |free|
  {
    free[..j] + free[j + 1..]
  }

  function InsertedAt(free: seq<int>, i: nat, bp: int, k: nat): int
    requires i < |free| && k <= |free|
  {
    if k <= i then free[k] else if k == i + 1 then bp else free[k - 1]
  }

  lemma InsertedIs(free: seq<int>, i: nat, bp: int)
    requires i < |free|
    ensures |Inserted(free, i, bp)| == |free| + 1
    ensures forall k :: 0 <= k <= |free| ==> Inserted(free, i, bp)[k] == InsertedAt(free, i, bp, k)
  {
  }

  lemma InsertedAscending(free: seq<int>, i: nat, bp: int)
    requires Ascending(free) && Behind(free, i, bp)
    ensures Ascending(Inserted(free, i, bp)) && bp !in free
    ensures forall a :: a in Inserted(free, i, bp) <==> a in free || a == bp
  {
    InsertedIs(free, i, bp);
    var g := Inserted(free, i, bp);
    assert free == free[..i + 1] + free[i + 1..];
  }

  lemma RemovedAscending(free: seq<int>, j: nat)
    requires Ascending(free) && j < |free|
    ensures Ascending(Removed(free, j)) && free[j] !in Removed(free, j)
    ensures forall a :: a in Removed(free, j) <==> a in free && a != free[j]
  {
    var g := Removed(free, j);
    assert forall k :: 0 <= k < |g| ==> g[k] == free[if k < j then k else k + 1];
    forall a | a in free && a != free[j]
      ensures a in g
    {
      var k :| 0 <= k < |free| && free[k] == a;
      assert g[if k < j then k else k - 1] == a;
    }
  }

  lemma InsertedLinked(mem: map<int, Header>, free: seq<int>, i: nat, bp: int, s: int, t: int)
    requires Linked(mem, free) && Ascending(free) && Behind(free, i, bp)
    ensures Linked(mem[bp := Header(Ring(free)[i + 1], s)][free[i] := Header(bp, t)], Inserted(free, i, bp))
  {
    InsertedAscending(free, i, bp);
    var g := Inserted(free, i, bp);
    var m := mem[bp := Header(Ring(free)[i + 1], s)][free[i] := Header(bp, t)];
    forall k | 0 <= k < |g|
      ensures g[k] in m && m[g[k]].ptr == Ring(g)[k + 1]
    {
      if k < i {
        assert g[k] == free[k] && mem[free[k]].ptr == Ring(free)[k + 1];
      } else if k > i + 1 {
        assert g[k] == free[k - 1] && mem[free[k - 1]].ptr == Ring(free)[k];
      }
    }
  }

  lemma RemovedLinked(mem: map<int, Header>, free: seq<int>, j: nat, t: int)
    requires Linked(mem, free) && Ascending(free) && 1 <= j < |free|
    ensures Linked(mem[free[j - 1] := Header(mem[free[j]].ptr, t)], Removed(free, j))
  {
    var g := Removed(free, j);
    var m := mem[free[j - 1] := Header(mem[free[j]].ptr, t)];
    forall k | 0 <= k < |g|
      ensures g[k] in m && m[g[k]].ptr == Ring(g)[k + 1]
    {
      RemovedAt(mem, free, j, t, k);
    }
  }

  lemma RemovedAt(mem: map<int, Header>, free: seq<int>, j: nat, t: int, k: nat)
    requires Linked(mem, free) && Ascending(free) && 1 <= j < |free| && k < |free| - 1
    ensures var g, m := Removed(free, j), mem[free[j - 1] := Header(mem[free[j]].ptr, t)];
      g[k] in m && m[g[k]].ptr == Ring(g)[k + 1]
  {
    RingRemoved(free, j, k);
    if k < j - 1 {
      assert free[k] < free[j - 1] && mem[free[k]].ptr == Ring(free)[k + 1];
    } else if k == j - 1 {
      assert mem[free[j]].ptr == Ring(free)[j + 1];
    } else {
      assert free[j - 1] < free[k + 1] && mem[free[k + 1]].ptr == Ring(free)[k + 2];
    }
  }

  lemma RingRemoved(free: seq<int>, j: nat, k: nat)
    requires 1 <= j < |free| && k < |free| - 1
    ensures |Removed(free, j)| == |free| - 1 && Removed(free, j)[k] == free[if k < j then k else k + 1]
    ensures Ring(Removed(free, j))[k + 1] == Ring(free)[if k + 1 < j then k + 1 else k + 2]
  {
  }

  // -------------------------------------------------------------- invariant

  /** The free list is one ring through `base`, in address order. */
  ghost predicate RingOk(h: Heap) {
    && Linked(h.mem, h.free) && h.free[0] == h.base
    && Ascending(h.free)
    && h.mem[h.base].size == 0
  }

  /** A block: free or handed out, and never `base`. */
  ghost predicate IsBlock(h: Heap, a: int) {
    a in h.mem && (a in h.used || (a in h.free && a != h.base))
  }

  /** All units of block `a` belong to it. */
  ghost predicate Covers(h: Heap, a: int)
    requires a in h.mem
  {
    h.mem[a].size > 0 && forall u :: a <= u < a + h.mem[a].size ==> u in h.owner && h.owner[u] == a
  }

  ghost predicate UsedOk(h: Heap) {
    forall a :: a in h.used ==> a in h.mem && h.mem[a].size == h.used[a] && a !in h.free
  }

  ghost predicate OwnersOk(h: Heap) {
    forall u :: u in h.owner ==>
      u > h.base && IsBlock(h, h.owner[u]) && h.owner[u] <= u < h.owner[u] + h.mem[h.owner[u]].size
  }

  /** Free and used blocks partition the memory: each unit belongs to one block,
      which covers it, and a block covers only units that belong to it. */
  ghost predicate Partition(h: Heap) {
    && UsedOk(h)
    && OwnersOk(h)
    && (forall a :: IsBlock(h, a) ==> Covers(h, a))
  }

  /** Entry `i` of the free list ends where the next one begins. */
  ghost predicate Touches(h: Heap, i: nat) {
    i + 1 < |h.free| && h.free[i] in h.mem && h.free[i] + h.mem[h.free[i]].size == h.free[i + 1]
  }

  /** No entry but those from `lo` to `hi` touches its successor. */
  ghost predicate Coalesced(h: Heap, lo: int, hi: int) {
    forall i :: 0 <= i < |h.free| && !(lo <= i <= hi) ==> !Touches(h, i)
  }

  ghost predicate HeapOk(h: Heap) {
    RingOk(h) && Partition(h) && Coalesced(h, 0, -1)
  }

  /** A block's header is a unit of the block. */
  lemma HeaderOwned(h: Heap, a: int)
    requires RingOk(h) && Partition(h) && (a in h.used || a in h.free) && a != h.base
    ensures a in h.owner && h.owner[a] == a
  {
    if a in h.free {
      var i :| 0 <= i < |h.free| && h.free[i] == a;
    }
    assert IsBlock(h, a);
    assert Covers(h, a);
  }

  /** A unit that is not its own owner is no block. */
  lemma NotHeader(h: Heap, a: int)
    requires RingOk(h) && Partition(h) && a != h.base && (a !in h.owner || h.owner[a] != a)
    ensures a !in h.used && a !in h.free
  {
    if a in h.used || a in h.free {
      HeaderOwned(h, a);
    }
  }

  /** Blocks do not overlap. */
  lemma BlocksApart(h: Heap, a: int, b: int)
    requires Partition(h) && IsBlock(h, a) && IsBlock(h, b) && a < b
    ensures a + h.mem[a].size <= b
  {
    assert Covers(h, a) && Covers(h, b);
    assert b in h.owner && h.owner[b] == b;
  }

  // ------------------------------------------------------------ transitions

  /** The block `bp` becomes a free block of its own behind entry `i`. */
  ghost function Insert(h: Heap, i: nat, bp: int): Heap
    requires i < |h.free| && h.free[i] in h.mem && bp in h.mem
  {
    h.(mem := h.mem[bp := Header(Ring(h.free)[i + 1], h.mem[bp].size)][h.free[i] := Header(bp, h.mem[h.free[i]].size)],
       free := Inserted(h.free, i, bp),
       used := h.used - {bp})
  }

  /** Entry `j + 1` is merged into entry `j`, which it touches. */
  ghost function Merge(h: Heap, j: nat): Heap
    requires j + 1 < |h.free| && h.free[j] in h.mem && h.free[j + 1] in h.mem
  {
    var p, b := h.free[j], h.free[j + 1];
    h.(mem := h.mem[p := Header(h.mem[b].ptr, h.mem[p].size + h.mem[b].size)],
       free := Removed(h.free, j + 1),
       owner := map u | u in h.owner :: if h.owner[u] == b then p else h.owner[u])
  }

  lemma InsertOk(h: Heap, i: nat, bp: int)
    requires HeapOk(h) && bp in h.used && Behind(h.free, i, bp)
    ensures RingOk(Insert(h, i, bp)) && Partition(Insert(h, i, bp)) && Coalesced(Insert(h, i, bp), i, i + 1)
  {
    InsertRing(h, i, bp);
    InsertPartition(h, i, bp);
    InsertCoalesced(h, i, bp);
  }

  lemma InsertRing(h: Heap, i: nat, bp: int)
    requires RingOk(h) && bp in h.mem && Behind(h.free, i, bp)
    ensures RingOk(Insert(h, i, bp))
  {
    InsertedAscending(h.free, i, bp);
    InsertedLinked(h.mem, h.free, i, bp, h.mem[bp].size, h.mem[h.free[i]].size);
    assert Inserted(h.free, i, bp)[0] == h.free[0];
  }

  lemma InsertCoalesced(h: Heap, i: nat, bp: int)
    requires RingOk(h) && Coalesced(h, 0, -1) && bp in h.mem && Behind(h.free, i, bp)
    ensures Coalesced(Insert(h, i, bp), i, i + 1)
  {
    InsertedAscending(h.free, i, bp);
    forall k | 0 <= k < |Inserted(h.free, i, bp)| && !(i <= k <= i + 1)
      ensures !Touches(Insert(h, i, bp), k)
    {
      InsertTouches(h, i, bp, k, if k < i then k else k - 1);
    }
  }

  lemma InsertTouches(h: Heap, i: nat, bp: int, k: nat, k': nat)
    requires Ascending(h.free) && i < |h.free| && h.free[i] in h.mem && bp in h.mem && bp !in h.free
    requires k < |h.free| + 1 && !(i <= k <= i + 1) && k' == (if k < i then k else k - 1) && !Touches(h, k')
    ensures !Touches(Insert(h, i, bp), k)
  {
    var g := Insert(h, i, bp);
    assert g.free[k] == h.free[k'];
    assert k + 1 < |g.free| ==> g.free[k + 1] == h.free[k' + 1];
  }

  lemma InsertPartition(h: Heap, i: nat, bp: int)
    requires RingOk(h) && Partition(h) && bp in h.used && Behind(h.free, i, bp)
    ensures Partition(Insert(h, i, bp))
  {
    var g := Insert(h, i, bp);
    InsertedAscending(h.free, i, bp);
    forall a
      ensures IsBlock(g, a) <==> IsBlock(h, a)
      ensures IsBlock(h, a) ==> g.mem[a].size == h.mem[a].size
    {
    }
    forall a | IsBlock(g, a)
      ensures Covers(g, a)
    {
      assert Covers(h, a);
    }
  }

  lemma MergeOk(h: Heap, lo: int, j: nat)
    requires RingOk(h) && Partition(h) && Coalesced(h, lo, j) && lo <= j && Touches(h, j)
    ensures h.free[j + 1] in h.mem
    ensures RingOk(Merge(h, j)) && Partition(Merge(h, j)) && Coalesced(Merge(h, j), lo, j - 1)
  {
    MergePartition(h, j);
    MergeRing(h, j);
    MergeCoalesced(h, lo, j);
  }

  lemma MergeRing(h: Heap, j: nat)
    requires RingOk(h) && 1 <= j < |h.free| - 1 && h.free[j + 1] in h.mem
    ensures RingOk(Merge(h, j))
  {
    RemovedAscending(h.free, j + 1);
    RemovedLinked(h.mem, h.free, j + 1, h.mem[h.free[j]].size + h.mem[h.free[j + 1]].size);
    assert Removed(h.free, j + 1)[0] == h.free[0];
  }

  lemma MergeCoalesced(h: Heap, lo: int, j: nat)
    requires Ascending(h.free) && Coalesced(h, lo, j) && lo <= j && Touches(h, j) && h.free[j + 1] in h.mem
    ensures Coalesced(Merge(h, j), lo, j - 1)
  {
    forall k | 0 <= k < |h.free| - 1 && !(lo <= k <= j - 1)
      ensures !Touches(Merge(h, j), k)
    {
      assert !Touches(h, if k < j then k else k + 1);
      MergeTouches(h, j, k);
    }
  }

  lemma MergeTouches(h: Heap, j: nat, k: nat)
    requires Ascending(h.free) && Touches(h, j) && h.free[j + 1] in h.mem && k < |h.free| - 1
    requires !Touches(h, if k < j then k else k + 1)
    ensures !Touches(Merge(h, j), k)
  {
    var g := Merge(h, j);
    assert g.free[k] == h.free[if k <= j then k else k + 1];
    assert k + 1 < |g.free| ==> g.free[k + 1] == h.free[if k + 1 <= j then k + 1 else k + 2];
  }

  lemma MergePartition(h: Heap, j: nat)
    requires RingOk(h) && Partition(h) && Touches(h, j)
    ensures j >= 1 && h.free[j + 1] in h.mem && Partition(Merge(h, j))
  {
    assert h.free[j + 1] in h.mem;
    var g := Merge(h, j);
    var p, b := h.free[j], h.free[j + 1];
    assert j >= 1;
    RemovedAscending(h.free, j + 1);
    assert IsBlock(h, p) && IsBlock(h, b);
    assert Covers(h, p) && Covers(h, b);
    forall a
      ensures IsBlock(g, a) <==> IsBlock(h, a) && a != b
    {
    }
    forall a | IsBlock(g, a)
      ensures Covers(g, a)
    {
      assert Covers(h, a);
    }
  }

  /** Entry `j` is handed out whole. */
  ghost function TakeWhole(h: Heap, j: nat): Heap
    requires 1 <= j < |h.free| && h.free[j] in h.mem && h.free[j - 1] in h.mem
  {
    h.(mem := h.mem[h.free[j - 1] := Header(h.mem[h.free[j]].ptr, h.mem[h.free[j - 1]].size)],
       free := Removed(h.free, j),
       used := h.used[h.free[j] := h.mem[h.free[j]].size])
  }

  lemma TakeWholeOk(h: Heap, j: nat)
    requires HeapOk(h) && 1 <= j < |h.free|
    ensures h.free[j] in h.mem && h.free[j - 1] in h.mem && HeapOk(TakeWhole(h, j))
    ensures h.free[j] !in h.used
  {
    TakeWholeRing(h, j);
    TakeWholePartition(h, j);
    TakeWholeCoalesced(h, j);
  }

  lemma TakeWholeRing(h: Heap, j: nat)
    requires RingOk(h) && 1 <= j < |h.free|
    ensures h.free[j] in h.mem && h.free[j - 1] in h.mem && RingOk(TakeWhole(h, j))
  {
    RemovedAscending(h.free, j);
    RemovedLinked(h.mem, h.free, j, h.mem[h.free[j - 1]].size);
    assert Removed(h.free, j)[0] == h.free[0];
  }

  lemma TakeWholePartition(h: Heap, j: nat)
    requires RingOk(h) && Partition(h) && 1 <= j < |h.free| && h.free[j] in h.mem && h.free[j - 1] in h.mem
    ensures Partition(TakeWhole(h, j)) && h.free[j] !in h.used
  {
    var g := TakeWhole(h, j);
    RemovedAscending(h.free, j);
    assert h.free[j] != h.base;
    forall a
      ensures IsBlock(g, a) <==> IsBlock(h, a)
      ensures IsBlock(h, a) ==> g.mem[a].size == h.mem[a].size
    {
    }
    forall a | IsBlock(g, a)
      ensures Covers(g, a)
    {
      assert Covers(h, a);
    }
  }

  lemma TakeWholeCoalesced(h: Heap, j: nat)
    requires HeapOk(h) && 1 <= j < |h.free| && h.free[j] in h.mem && h.free[j - 1] in h.mem
    ensures Coalesced(TakeWhole(h, j), 0, -1)
  {
    GapAround(h, j);
    forall k | 0 <= k < |h.free| - 1
      ensures !Touches(TakeWhole(h, j), k)
    {
      assert !Touches(h, if k < j then k else k + 1);
      WholeTouches(h, j, k);
    }
  }

  lemma WholeTouches(h: Heap, j: nat, k: nat)
    requires 1 <= j < |h.free| && h.free[j] in h.mem && h.free[j - 1] in h.mem && k < |h.free| - 1
    requires !Touches(h, if k < j then k else k + 1)
    requires j + 1 < |h.free| ==> h.free[j - 1] + h.mem[h.free[j - 1]].size < h.free[j + 1]
    ensures !Touches(TakeWhole(h, j), k)
  {
    var g := TakeWhole(h, j);
    assert g.free[k] == h.free[if k < j then k else k + 1];
    assert k + 1 < |g.free| ==> g.free[k + 1] == h.free[if k + 1 < j then k + 1 else k + 2];
  }

  /** The neighbours of a free block do not touch each other. */
  lemma GapAround(h: Heap, j: nat)
    requires RingOk(h) && Partition(h) && 1 <= j < |h.free|
    ensures h.free[j - 1] in h.mem && (j + 1 < |h.free| ==> h.free[j - 1] + h.mem[h.free[j - 1]].size < h.free[j + 1])
  {
    if j + 1 < |h.free| && j > 1 {
      assert IsBlock(h, h.free[j - 1]) && IsBlock(h, h.free[j]);
      BlocksApart(h, h.free[j - 1], h.free[j]);
    }
  }

  /** The last `n` units of entry `j` are handed out under a header of their own,
      whose `ptr` field holds whatever was there. */
  ghost function TakeTail(h: Heap, j: nat, n: int, junk: int): Heap
    requires 1 <= j < |h.free| && h.free[j] in h.mem
  {
    var p := h.free[j];
    var a := p + h.mem[p].size - n;
    h.(mem := h.mem[p := Header(h.mem[p].ptr, h.mem[p].size - n)][a := Header(junk, n)],
       used := h.used[a := n],
       owner := map u | u in h.owner :: if a <= u < a + n then a else h.owner[u])
  }

  lemma TailIsNew(h: Heap, j: nat, n: int, a: int)
    requires HeapOk(h) && 1 <= j < |h.free| && h.free[j] in h.mem && 0 < n < h.mem[h.free[j]].size
    requires a == h.free[j] + h.mem[h.free[j]].size - n
    ensures a !in h.used && a !in h.free && a > h.base
  {
    var p := h.free[j];
    assert IsBlock(h, p) && Covers(h, p);
    assert h.owner[a] == p;
    NotHeader(h, a);
  }

  lemma TakeTailOk(h: Heap, j: nat, n: int, junk: int)
    requires HeapOk(h) && 1 <= j < |h.free| && h.free[j] in h.mem && 0 < n < h.mem[h.free[j]].size
    ensures HeapOk(TakeTail(h, j, n, junk))
  {
    TailIsNew(h, j, n, h.free[j] + h.mem[h.free[j]].size - n);
    TakeTailRing(h, j, n, junk);
    TakeTailPartition(h, j, n, junk);
    TakeTailCoalesced(h, j, n, junk);
  }

  lemma TakeTailRing(h: Heap, j: nat, n: int, junk: int)
    requires RingOk(h) && 1 <= j < |h.free| && h.free[j] in h.mem
    requires h.free[j] + h.mem[h.free[j]].size - n !in h.free
    ensures RingOk(TakeTail(h, j, n, junk))
  {
    var p := h.free[j];
    assert h.free[0] in h.free && h.free[0] < h.free[j];
    TailLinked(h.mem, h.free, p, Header(h.mem[p].ptr, h.mem[p].size - n), p + h.mem[p].size - n, Header(junk, n));
    hide Linked, Ascending;
    assert TakeTail(h, j, n, junk).mem == h.mem[p := Header(h.mem[p].ptr, h.mem[p].size - n)][p + h.mem[p].size - n := Header(junk, n)];
  }

  /** A header that keeps its pointer, and one outside the list. */
  lemma TailLinked(mem: map<int, Header>, free: seq<int>, p: int, x: Header, a: int, y: Header)
    requires Linked(mem, free) && p in mem && x.ptr == mem[p].ptr && a !in free
    ensures Linked(mem[p := x][a := y], free)
  {
    var m := mem[p := x][a := y];
    forall i | 0 <= i < |free| ensures free[i] in m && m[free[i]].ptr == Ring(free)[i + 1] {
      assert free[i] in free;
      assert mem[free[i]].ptr == Ring(free)[i + 1];
    }
  }

  lemma TakeTailCoalesced(h: Heap, j: nat, n: int, junk: int)
    requires HeapOk(h) && 1 <= j < |h.free| && h.free[j] in h.mem && 0 < n < h.mem[h.free[j]].size
    requires h.free[j] + h.mem[h.free[j]].size - n !in h.free
    ensures Coalesced(TakeTail(h, j, n, junk), 0, -1)
  {
    GapBehind(h, j);
    forall k | 0 <= k < |h.free|
      ensures !Touches(TakeTail(h, j, n, junk), k)
    {
      assert !Touches(h, k);
      TailTouches(h, j, n, junk, k);
    }
  }

  lemma GapBehind(h: Heap, j: nat)
    requires RingOk(h) && Partition(h) && 1 <= j < |h.free|
    ensures h.free[j] in h.mem && (j + 1 < |h.free| ==> h.free[j] + h.mem[h.free[j]].size <= h.free[j + 1])
  {
    if j + 1 < |h.free| {
      assert IsBlock(h, h.free[j]) && IsBlock(h, h.free[j + 1]);
      BlocksApart(h, h.free[j], h.free[j + 1]);
    }
  }

  lemma TailTouches(h: Heap, j: nat, n: int, junk: int, k: nat)
    requires Ascending(h.free) && 1 <= j < |h.free| && h.free[j] in h.mem && n > 0 && k < |h.free|
    requires h.free[j] + h.mem[h.free[j]].size - n !in h.free
    requires j + 1 < |h.free| ==> h.free[j] + h.mem[h.free[j]].size <= h.free[j + 1]
    requires !Touches(h, k)
    ensures !Touches(TakeTail(h, j, n, junk), k)
  {
    var g := TakeTail(h, j, n, junk);
    assert h.free[k] in h.free;
    if k != j {
      assert h.free[k] in g.mem ==> h.free[k] in h.mem && g.mem[h.free[k]] == h.mem[h.free[k]];
    }
  }

  lemma TakeTailPartition(h: Heap, j: nat, n: int, junk: int)
    requires Partition(h) && 1 <= j < |h.free| && h.free[j] != h.base && h.free[j] in h.mem && 0 < n < h.mem[h.free[j]].size
    requires var a := h.free[j] + h.mem[h.free[j]].size - n; a !in h.used && a !in h.free && a > h.base
    ensures Partition(TakeTail(h, j, n, junk))
  {
    var p, g := h.free[j], TakeTail(h, j, n, junk);
    var a := p + h.mem[p].size - n;
    SplitPartition(h, p, a, n, g);
  }

  /** A free block loses its last `n` units to a new used block. */
  lemma SplitPartition(h: Heap, p: int, a: int, n: int, g: Heap)
    requires Partition(h) && p in h.free && p != h.base && p in h.mem && 0 < n < h.mem[p].size && a == p + h.mem[p].size - n
    requires a !in h.used && a !in h.free && a > h.base
    requires g.base == h.base && g.free == h.free && g.used == h.used[a := n]
    requires a in g.mem && g.mem[a].size == n && p in g.mem && g.mem[p].size == h.mem[p].size - n
    requires forall b :: b in h.mem ==> b in g.mem
    requires forall b :: b in g.mem && b != p && b != a ==> b in h.mem && g.mem[b].size == h.mem[b].size
    requires g.owner == map u | u in h.owner :: if a <= u < a + n then a else h.owner[u]
    ensures Partition(g)
  {
    assert IsBlock(h, p) && Covers(h, p);
    forall b
      ensures IsBlock(g, b) <==> IsBlock(h, b) || b == a
    {
    }
    forall b | IsBlock(g, b)
      ensures Covers(g, b)
    {
      SplitCovers(h, p, a, n, g, b);
    }
  }

  lemma SplitCovers(h: Heap, p: int, a: int, n: int, g: Heap, b: int)
    requires p in h.mem && Covers(h, p) && 0 < n < h.mem[p].size && a == p + h.mem[p].size - n
    requires b == a || (b in h.mem && Covers(h, b))
    requires a in g.mem && g.mem[a].size == n && p in g.mem && g.mem[p].size == h.mem[p].size - n
    requires b in g.mem && (b != p && b != a ==> g.mem[b].size == h.mem[b].size)
    requires g.owner == map u | u in h.owner :: if a <= u < a + n then a else h.owner[u]
    ensures Covers(g, b)
  {
    forall u | b <= u < b + g.mem[b].size ensures u in g.owner && g.owner[u] == b {
      assert b == a || b == p ==> u in h.owner && h.owner[u] == p;
      assert b != a ==> u in h.owner && h.owner[u] == b;
      assert a <= u < a + n ==> h.owner[u] == p;
    }
  }

  ghost function Span(a: int, n: int): (r: set<int>)
    ensures |r| == (if n <= 0 then 0 else n) && forall u :: u in r <==> a <= u < a + n
    decreases n
  {
    if n <= 0 then {} else Span(a, n - 1) + {a + n - 1}
  }

  /** `n` units above all others, obtained from `sbrk`, form a used block. */
  ghost function Grow(h: Heap, a: int, n: int, junk: int): Heap {
    h.(mem := h.mem[a := Header(junk, n)],
       used := h.used[a := n],
       owner := map u | u in h.owner.Keys + Span(a, n) :: if a <= u < a + n then a else h.owner[u])
  }

  lemma GrowOk(h: Heap, a: int, n: int, junk: int)
    requires HeapOk(h) && n > 0 && a > h.base && forall u :: u in h.owner ==> u < a
    ensures HeapOk(Grow(h, a, n, junk)) && a !in h.used && a !in h.free
  {
    NotHeader(h, a);
    GrowPartition(h, a, n, junk);
    GrowRing(h, a, n, junk);
  }

  /** A header outside the list changes nothing in it. */
  lemma GrowRing(h: Heap, a: int, n: int, junk: int)
    requires RingOk(h) && Coalesced(h, 0, -1) && a !in h.free && a != h.base
    ensures RingOk(Grow(h, a, n, junk)) && Coalesced(Grow(h, a, n, junk), 0, -1)
  {
    hide Span;
    var g := Grow(h, a, n, junk);
    assert forall k :: 0 <= k < |h.free| ==> h.free[k] in h.free;
    LinkedPut(h.mem, h.free, a, Header(junk, n));
    forall k | 0 <= k < |g.free|
      ensures !Touches(g, k)
    {
      assert !Touches(h, k);
    }
  }

  lemma LinkedPut(mem: map<int, Header>, free: seq<int>, a: int, y: Header)
    requires Linked(mem, free) && a !in free
    ensures Linked(mem[a := y], free)
  {
    var m := mem[a := y];
    forall i | 0 <= i < |free| ensures free[i] in m && m[free[i]].ptr == Ring(free)[i + 1] {
      assert free[i] in free;
      assert mem[free[i]].ptr == Ring(free)[i + 1];
    }
  }

  /** The heap grows by exactly these units. */
  lemma GrowCount(h: Heap, a: int, n: int, junk: int)
    requires n > 0 && forall u :: u in h.owner ==> u < a
    ensures |Grow(h, a, n, junk).owner.Keys| == |h.owner.Keys| + n
  {
    var was, more := h.owner.Keys, Span(a, n);
    assert Grow(h, a, n, junk).owner.Keys == was + more;
    assert forall u :: u in was ==> u !in more;
    assert |was + more| == |was| + |more|;
  }

  lemma GrowPartition(h: Heap, a: int, n: int, junk: int)
    requires HeapOk(h) && n > 0 && a > h.base && (forall u :: u in h.owner ==> u < a) && a !in h.used && a !in h.free
    ensures Partition(Grow(h, a, n, junk))
  {
    var g := Grow(h, a, n, junk);
    GrowBlocks(h, a, n, junk);
    GrowOwners(h, a, n, junk);
    hide Grow;
    forall b | IsBlock(g, b)
      ensures Covers(g, b)
    {
      GrowCovers(h, a, n, junk, b);
    }
  }

  lemma GrowBlocks(h: Heap, a: int, n: int, junk: int)
    requires UsedOk(h) && a !in h.used && a !in h.free
    ensures UsedOk(Grow(h, a, n, junk)) && forall b :: IsBlock(Grow(h, a, n, junk), b) <==> IsBlock(h, b) || b == a
  {
  }

  lemma GrowOwners(h: Heap, a: int, n: int, junk: int)
    requires OwnersOk(h) && n > 0 && a > h.base && a !in h.used && a !in h.free
    ensures OwnersOk(Grow(h, a, n, junk))
  {
    var g := Grow(h, a, n, junk);
    forall u | u in g.owner
      ensures u > g.base && IsBlock(g, g.owner[u]) && g.owner[u] <= u < g.owner[u] + g.mem[g.owner[u]].size
    {
      if !(a <= u < a + n) {
        assert u in h.owner && IsBlock(h, h.owner[u]);
      }
    }
  }

  lemma GrowCovers(h: Heap, a: int, n: int, junk: int, b: int)
    requires Partition(h) && n > 0 && (forall u :: u in h.owner ==> u < a) && a !in h.used && a !in h.free
    requires IsBlock(h, b) || b == a
    ensures b in Grow(h, a, n, junk).mem && Covers(Grow(h, a, n, junk), b)
  {
    if b != a {
      assert Covers(h, b);
    }
  }

  // ---------------------------------------------------- what free amounts to

  /** The freed block merged with the free block behind it, if they touch. */
  ghost function MergeIf(h: Heap, j: nat): Heap
    requires Touches(h, j) ==> h.free[j + 1] in h.mem
  {
    if Touches(h, j) then Merge(h, j) else h
  }

  /** The heap after `free(bp + 1)` that found its place behind entry `i`. */
  ghost function FreeHeap(h: Heap, i: nat, bp: int): Heap
    requires HeapOk(h) && bp in h.used && Behind(h.free, i, bp)
  {
    MergeBoth(h, i, bp);
    MergeIf(MergeIf(Insert(h, i, bp), i + 1), i)
  }

  /** Both merges have what they need. */
  lemma MergeBoth(h: Heap, i: nat, bp: int)
    requires HeapOk(h) && bp in h.used && Behind(h.free, i, bp)
    ensures var h0 := Insert(h, i, bp);
      && (Touches(h0, i + 1) ==> h0.free[i + 2] in h0.mem)
      && var h1 := MergeIf(h0, i + 1); Touches(h1, i) ==> h1.free[i + 1] in h1.mem
  {
    hide Coalesced, OwnersOk, Covers, Ascending;
    InsertOk(h, i, bp);
    var h0 := Insert(h, i, bp);
    MergeIfOk(h0, i, i + 1);
    MergeIfOk(MergeIf(h0, i + 1), i, i);
  }

  lemma MergeIfOk(h: Heap, lo: int, j: nat)
    requires RingOk(h) && Partition(h) && Coalesced(h, lo, j) && lo <= j
    ensures Touches(h, j) ==> h.free[j + 1] in h.mem
    ensures RingOk(MergeIf(h, j)) && Partition(MergeIf(h, j)) && Coalesced(MergeIf(h, j), lo, j - 1)
    ensures MergeIf(h, j).used == h.used && MergeIf(h, j).base == h.base
    ensures MergeIf(h, j).owner.Keys == h.owner.Keys
    ensures forall k :: 0 <= k <= j && k < |h.free| ==> k < |MergeIf(h, j).free| && MergeIf(h, j).free[k] == h.free[k]
  {
    if Touches(h, j) {
      MergeOk(h, lo, j);
    } else {
      forall k | 0 <= k < |h.free| && !(lo <= k <= j - 1)
        ensures !Touches(h, k)
      {
      }
    }
  }

  /** Freeing keeps the invariant and all memory: the block is used no more, the
      others are used as before, and every unit still belongs to some block. */
  lemma FreeHeapOk(h: Heap, i: nat, bp: int)
    requires HeapOk(h) && bp in h.used && Behind(h.free, i, bp)
    ensures HeapOk(FreeHeap(h, i, bp))
    ensures FreeHeap(h, i, bp).used == h.used - {bp} && FreeHeap(h, i, bp).base == h.base
    ensures FreeHeap(h, i, bp).owner.Keys == h.owner.Keys
    ensures h.free[i] in FreeHeap(h, i, bp).free
  {
    InsertOk(h, i, bp);
    var h0 := Insert(h, i, bp);
    MergeIfOk(h0, i, i + 1);
    var h1 := MergeIf(h0, i + 1);
    MergeIfOk(h1, i, i);
    var h2 := MergeIf(h1, i);
    assert h0.free[i] == h.free[i];
    assert h1.free[i] == h.free[i];
    assert h2.free[i] == h.free[i];
    forall k | 0 <= k < |h2.free|
      ensures !Touches(h2, k)
    {
    }
  }

  /** Some entry of the free list has at least `n` units. */
  ghost predicate HasBlock(h: Heap, n: int) {
    exists k :: 0 <= k < |h.free| && h.free[k] in h.mem && h.mem[h.free[k]].size >= n
  }

  /** A merge leaves a free block at least as large as each of its parts. */
  lemma MergeIfLarge(h: Heap, j: nat, n: int)
    requires RingOk(h) && Partition(h) && HasBlock(h, n)
    ensures Touches(h, j) ==> h.free[j + 1] in h.mem
    ensures HasBlock(MergeIf(h, j), n)
  {
    if Touches(h, j) {
      var k :| 0 <= k < |h.free| && h.free[k] in h.mem && h.mem[h.free[k]].size >= n;
      MergePartition(h, j);
      assert IsBlock(h, h.free[j]) && IsBlock(h, h.free[j + 1]);
      assert Covers(h, h.free[j]) && Covers(h, h.free[j + 1]);
      MergeLarge(h, j, k, n);
    }
  }

  lemma MergeLarge(h: Heap, j: nat, k: nat, n: int)
    requires j + 1 < |h.free| && h.free[j] in h.mem && h.free[j + 1] in h.mem
    requires h.mem[h.free[j]].size > 0 && h.mem[h.free[j + 1]].size > 0
    requires k < |h.free| && h.free[k] in h.mem && h.mem[h.free[k]].size >= n
    ensures HasBlock(Merge(h, j), n)
  {
    var g := Merge(h, j);
    var k' := if k <= j then k else k - 1;
    assert g.free[k'] == if k == j + 1 then h.free[j] else h.free[k];
    assert g.free[k'] in g.mem && g.mem[g.free[k']].size >= n;
  }

  /** After freeing a block of `n` units the list has a block of at least that. */
  lemma FreeHeapLarge(h: Heap, i: nat, bp: int)
    requires HeapOk(h) && bp in h.used && Behind(h.free, i, bp)
    ensures HasBlock(FreeHeap(h, i, bp), h.used[bp])
  {
    InsertOk(h, i, bp);
    var h0 := Insert(h, i, bp);
    assert HasBlock(h0, h.used[bp]) by {
      assert h0.free[i + 1] == bp && h0.mem[bp].size == h.used[bp];
    }
    MergeIfOk(h0, i, i + 1);
    MergeIfLarge(h0, i + 1, h.used[bp]);
    MergeIfLarge(MergeIf(h0, i + 1), i, h.used[bp]);
  }

  /** `bp` after the first `if` of free. */
  function Absorbed(mem: map<int, Header>, bp: int, nx: int): Header
    requires bp in mem && nx in mem
  {
    if bp + mem[bp].size == nx then Header(mem[nx].ptr, mem[bp].size + mem[nx].size)
    else Header(nx, mem[bp].size)
  }

  /** `p` after the second `if` of free. */
  function Joined(mem: map<int, Header>, p: int, bp: int): Header
    requires p in mem && bp in mem
  {
    if p + mem[p].size == bp then Header(mem[bp].ptr, mem[p].size + mem[bp].size)
    else Header(bp, mem[p].size)
  }

  /** The first `if` of free merges upwards. */
  lemma UpperMem(h: Heap, i: nat, bp: int)
    requires HeapOk(h) && bp in h.used && Behind(h.free, i, bp)
    ensures h.free[i] in h.mem && bp in h.mem && h.mem[h.free[i]].ptr in h.mem
    ensures Touches(Insert(h, i, bp), i + 1) ==> Insert(h, i, bp).free[i + 2] in Insert(h, i, bp).mem
    ensures var p := h.free[i];
      MergeIf(Insert(h, i, bp), i + 1).mem == h.mem[bp := Absorbed(h.mem, bp, h.mem[p].ptr)][p := Header(bp, h.mem[p].size)]
  {
    var p := h.free[i];
    InsertRing(h, i, bp);
    var h0 := Insert(h, i, bp);
    var nx := h.mem[p].ptr;
    assert nx == Ring(h.free)[i + 1];
    UsedAbove(h, bp);
    assert h0.free[i + 1] == bp;
    assert i + 1 < |h.free| ==> h0.free[i + 2] == nx;
    UpperMerge(h0, i + 1, h.mem, p, bp, nx);
  }

  lemma UpperMerge(h: Heap, j: nat, m: map<int, Header>, p: int, bp: int, nx: int)
    requires j < |h.free| && h.free[j] == bp && p in m && bp in m && nx in m && p != bp
    requires h.mem == m[bp := Header(nx, m[bp].size)][p := Header(bp, m[p].size)]
    requires if j + 1 < |h.free| then h.free[j + 1] == nx && nx > bp > p else bp + m[bp].size != nx
    ensures MergeIf(h, j).mem == m[bp := Absorbed(m, bp, nx)][p := Header(bp, m[p].size)]
  {
    if Touches(h, j) {
      assert Merge(h, j).mem == h.mem[bp := Header(m[nx].ptr, m[bp].size + m[nx].size)];
    }
  }

  lemma UsedAbove(h: Heap, bp: int)
    requires Partition(h) && bp in h.used
    ensures bp in h.mem && h.mem[bp].size > 0 && bp > h.base
  {
    assert IsBlock(h, bp) && Covers(h, bp);
    assert bp in h.owner;
  }

  /** The second `if` of free merges downwards. */
  lemma LowerMem(h: Heap, i: nat, p: int, bp: int, m: map<int, Header>)
    requires i + 1 < |h.free| && h.free[i] == p && h.free[i + 1] == bp && p != bp
    requires p in m && bp in m && h.mem == m[p := Header(bp, m[p].size)]
    ensures MergeIf(h, i).mem == m[p := Joined(m, p, bp)]
  {
  }

  /** The assignments of free compute exactly the heap `FreeHeap`. */
  lemma FreeMem(h: Heap, i: nat, bp: int)
    requires HeapOk(h) && bp in h.used && Behind(h.free, i, bp)
    ensures h.free[i] in h.mem && bp in h.mem && h.mem[h.free[i]].ptr in h.mem
    ensures var p := h.free[i];
      var m := h.mem[bp := Absorbed(h.mem, bp, h.mem[p].ptr)];
      FreeHeap(h, i, bp).mem == m[p := Joined(m, p, bp)]
  {
    var p := h.free[i];
    UpperMem(h, i, bp);
    InsertOk(h, i, bp);
    var h0 := Insert(h, i, bp);
    MergeIfOk(h0, i, i + 1);
    var h1 := MergeIf(h0, i + 1);
    assert h0.free[i] == p && h0.free[i + 1] == bp;
    assert h1.free[i] == p && h1.free[i + 1] == bp;
    assert bp != p;
    LowerMem(h1, i, p, bp, h.mem[bp := Absorbed(h.mem, bp, h.mem[p].ptr)]);
  }

  /** All there is to know about the heap after free. */
  lemma Freed(h: Heap, i: nat, bp: int) returns (g: Heap)
    requires HeapOk(h) && bp in h.used && Behind(h.free, i, bp)
    ensures HeapOk(g) && g.base == h.base && g.used == h.used - {bp} && g.owner.Keys == h.owner.Keys
    ensures h.free[i] in g.free && HasBlock(g, h.used[bp])
    ensures h.free[i] in h.mem && bp in h.mem && h.mem[h.free[i]].ptr in h.mem
    ensures var p := h.free[i];
      var m := h.mem[bp := Absorbed(h.mem, bp, h.mem[p].ptr)];
      g.mem == m[p := Joined(m, p, bp)]
  {
    FreeHeapOk(h, i, bp);
    FreeHeapLarge(h, i, bp);
    FreeMem(h, i, bp);
    g := FreeHeap(h, i, bp);
  }
}
