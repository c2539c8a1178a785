/** `malloc`, `free` and `morecore` of src/umalloc.c, with the pointer walks
    around the free list and the header updates in place. */
module UserMalloc {
  import opened UserHeap

  /** Values of C's `uint`. */
  const TWO32 := 0x1_0000_0000

  const HEADER := 8

  /** The size of a request in units, computed in 32-bit arithmetic. */
  function Units(nbytes: nat): nat {
    (nbytes + HEADER - 1) % TWO32 / HEADER + 1
  }

  /** The bytes behind a block's header suffice for the request, and a unit less would
      not, unless the rounding wraps around: exactly the last seven sizes do. */
  lemma UnitsSuffice(nbytes: nat)
    requires nbytes < TWO32
    ensures (Units(nbytes) - 1) * HEADER >= nbytes <==> nbytes <= TWO32 - HEADER
    ensures (Units(nbytes) - 2) * HEADER < nbytes || nbytes == 0
  {
  }

  /** The `int` that `sbrk` receives for `nu` units. */
  function SbrkArgument(nu: nat): int {
    var x := nu * HEADER % TWO32;
    if x < TWO32 / 2 then x else x - TWO32
  }

  /** `morecore` asks for as much as it will hand out only for fewer than 2^28
      units; beyond that the request is zero, negative or too small. */
  lemma SbrkArgumentFits(nu: nat)
    ensures SbrkArgument(nu) == nu * HEADER <==> nu < 0x1000_0000
  {
  }

  /** The memory that `sbrk` then gives holds `nu` units in those cases only. */
  lemma SbrkGives(nu: nat)
    ensures SbrkArgument(nu) / HEADER >= nu <==> nu < 0x1000_0000
  {
    SbrkArgumentFits(nu);
    SbrkArgumentWhole(nu);
  }

  lemma SbrkArgumentWhole(nu: nat)
    ensures SbrkArgument(nu) <= nu * HEADER && SbrkArgument(nu) == SbrkArgument(nu) / HEADER * HEADER
  {
  }

  /** There is an entry to go behind. */
  lemma {:induction false} Place(free: seq<int>, bp: int, n: nat) returns (t: nat)
    requires Ascending(free) && 1 <= n <= |free| && free[0] < bp && bp !in free
    requires n < |free| ==> bp < free[n]
    ensures Behind(free, t, bp)
  {
    if free[n - 1] < bp {
      t := n - 1;
    } else {
      assert free[n - 1] in free;
      t := Place(free, bp, n - 1);
    }
  }

  /** The entry `c` steps past the successor of entry `f`, going around. */
  function Around(n: nat, f: nat, c: nat): int
    requires f < n
  {
    if f + 1 + c < n then f + 1 + c else f + 1 + c - n
  }

  /** The search loop of free. */
  method FindPlace(mem: map<int, Header>, freep: int, bp: int, ghost free: seq<int>) returns (p: int, ghost i: nat)
    requires Linked(mem, free) && Ascending(free) && freep in free && free[0] < bp && bp !in free
    ensures Behind(free, i, bp) && p == free[i]
  {
    ghost var t := Place(free, bp, |free|);
    p := freep;
    i :| 0 <= i < |free| && free[i] == p;
    Successor(mem, free, i, bp, t);
    while !(bp > p && bp < mem[p].ptr)
      invariant i < |free| && free[i] == p && p in mem && SuccessorOk(mem, free, i, bp, t)
      decreases if i <= t then t - i else t - i + |free|
    {
      if p >= mem[p].ptr && (bp > p || bp < mem[p].ptr) {
        break;
      }
      p := mem[p].ptr;
      i := if i + 1 < |free| then i + 1 else 0;
      Successor(mem, free, i, bp, t);
    }
  }

  /** Where the pointer at entry `i` leads, and how it compares to `bp`, which
      goes behind entry `t`. */
  ghost predicate SuccessorOk(mem: map<int, Header>, free: seq<int>, i: nat, bp: int, t: nat) {
    && t < |free| && i < |free| && free[i] in mem && mem[free[i]].ptr == free[if i + 1 < |free| then i + 1 else 0]
    && (i + 1 < |free| ==> free[i] < free[i + 1]) && free[0] <= free[i]
    && (i < t ==> free[i] < free[t] && free[i + 1] < bp)
    && (i == t ==> free[i] < bp && (i + 1 < |free| ==> bp < free[i + 1]))
    && (i > t ==> bp < free[i])
  }

  lemma Successor(mem: map<int, Header>, free: seq<int>, i: nat, bp: int, t: nat)
    requires Linked(mem, free) && Ascending(free) && i < |free| && free[0] < bp && Behind(free, t, bp)
    ensures SuccessorOk(mem, free, i, bp, t)
  {
    assert mem[free[i]].ptr == Ring(free)[i + 1];
  }

  class Allocator {
    const base: int
    /** The headers in memory, by address. */
    var mem: map<int, Header>
    var freep: int
    /** The end of the memory that `malloc` takes for its own, and of the memory that
        `sbrk` gave. */
    var top: int
    var brk: int
    ghost var heap: Heap
    /** How often `sbrk` was called so far, and how often it failed. */
    ghost var asked: nat
    ghost var refused: nat

    ghost predicate Valid()
      reads this
    {
      && 0 < base < top
      && heap.base == base && heap.mem == mem
      && (forall u :: u in heap.owner ==> base < u < top)
      && if freep == 0 then heap.free == [] && heap.used == map[] && heap.owner == map[] else HeapOk(heap) && freep in heap.free
    }

    /** `malloc` hands out no memory that it did not get. */
    ghost predicate Honest()
      reads this
    {
      top <= brk
    }

    constructor (base: int)
      requires base > 0
      ensures Valid() && Honest() && freep == 0
    {
      this.base := base;
      mem := map[];
      freep := 0;
      top, brk := base + 1, base + 1;
      asked, refused := 0, 0;
      heap := Heap(base, map[], [], map[], map[]);
    }

    /** free. The block is no longer used, the others are as before, and no
        memory is lost. */
    method Free(ap: int)
      requires Valid() && ap - 1 in heap.used
      modifies this`mem, this`freep, this`heap
      ensures Valid() && freep != 0
      ensures heap.used == old(heap).used - {ap - 1}
      ensures heap.owner.Keys == old(heap).owner.Keys
      ensures HasBlock(heap, old(heap).used[ap - 1])
      ensures exists i: nat :: Behind(old(heap).free, i, ap - 1) && freep == old(heap).free[i]
    {
      var bp := ap - 1;
      UsedAbove(heap, bp);
      var p;
      ghost var i;
      p, i := FindPlace(mem, freep, bp, heap.free);
      ghost var g := Freed(heap, i, bp);
      FreeAboveBase(g, p);
      Relink(bp, p);
      freep := p;
      heap := g;
    }

    /** The two `if`s of free. */
    method Relink(bp: int, p: int)
      requires p in mem && bp in mem && mem[p].ptr in mem && p != bp
      modifies this`mem
      ensures var m := old(mem)[bp := Absorbed(old(mem), bp, old(mem)[p].ptr)];
        mem == m[p := Joined(m, p, bp)]
    {
      if bp + mem[bp].size == mem[p].ptr {
        mem := mem[bp := mem[bp].(size := mem[bp].size + mem[mem[p].ptr].size)];
        mem := mem[bp := mem[bp].(ptr := mem[mem[p].ptr].ptr)];
      } else {
        mem := mem[bp := mem[bp].(ptr := mem[p].ptr)];
      }
      if p + mem[p].size == bp {
        mem := mem[p := mem[p].(size := mem[p].size + mem[bp].size)];
        mem := mem[p := mem[p].(ptr := mem[bp].ptr)];
      } else {
        mem := mem[p := mem[p].(ptr := bp)];
      }
    }

    /** sbrk: memory above all that it gave so far, or -1. */
    method Sbrk(n: int) returns (p: int)
      modifies this`asked, this`refused, this`brk
      ensures p == -1 || p >= old(brk)
      ensures brk == if p == -1 then old(brk) else p + n / HEADER
      ensures asked == old(asked) + 1 && refused == old(refused) + (if p == -1 then 1 else 0)
    {
      p := *;
      asked := asked + 1;
      if p < brk || p == -1 {
        p := -1;
        refused := refused + 1;
      } else {
        brk := p + n / HEADER;
      }
    }

    /** morecore: null exactly if its one call of `sbrk` fails, else the new memory is
        on the free list: what was asked for, but 4096 units at the least. */
    method Morecore(nunits: nat) returns (p: int)
      requires Valid() && Honest() && freep != 0 && 1 <= nunits
      modifies this
      ensures Valid() && freep != 0 && (p == 0 || p == freep)
      ensures Honest() <==> p == 0 || nunits < 0x1000_0000
      ensures heap.used == old(heap).used && old(heap).owner.Keys <= heap.owner.Keys
      ensures asked == old(asked) + 1 && refused == old(refused) + (if p == 0 then 1 else 0)
      ensures p != 0 ==> HasBlock(heap, nunits)
      ensures |heap.owner.Keys| == |old(heap).owner.Keys| + if p == 0 then 0 else if nunits < 4096 then 4096 else nunits
    {
      hide Partition, Coalesced, Linked, Ascending, HasBlock, SbrkArgument;
      var nu := if nunits < 4096 then 4096 else nunits;
      SbrkGives(nu);
      var hp := Sbrk(SbrkArgument(nu));
      if hp == -1 {
        return 0;
      }
      AddRegion(hp, nu);
      assert hp + 1 - 1 == hp;
      Free(hp + 1);
      PutAndDrop(old(heap).used, hp, nu);
      LessWillDo(heap, nu, nunits);
      p := freep;
    }

    /** A region from `sbrk` with its header filled in: a block in use. */
    method AddRegion(hp: int, nu: nat)
      requires Valid() && freep != 0 && hp >= top && nu > 0
      modifies this`mem, this`heap, this`top
      ensures Valid()
      ensures hp !in old(heap).used && heap.used == old(heap).used[hp := nu]
      ensures old(heap).owner.Keys <= heap.owner.Keys && |heap.owner.Keys| == |old(heap).owner.Keys| + nu && top == hp + nu
    {
      var junk := if hp in mem then mem[hp].ptr else 0;
      GrowOk(heap, hp, nu, junk);
      GrowCount(heap, hp, nu, junk);
      mem := mem[hp := Header(junk, nu)];
      heap := Grow(heap, hp, nu, junk);
      top := hp + nu;
    }

    /** The part of malloc that carves the request out of the entry it stopped
        at. */
    method Take(prevp: int, p: int, nunits: nat, ghost j: nat) returns (q: int)
      requires Valid() && freep != 0 && 1 <= j < |heap.free| && p == heap.free[j] && prevp == heap.free[j - 1]
      requires p in mem && prevp in mem && mem[p].size >= nunits >= 1
      modifies this`mem, this`freep, this`heap
      ensures Valid() && freep != 0 && heap.owner.Keys == old(heap).owner.Keys
      ensures q > 0 && q !in old(heap).used && heap.used == old(heap).used[q := nunits]
      ensures q == p + old(mem)[p].size - nunits && freep == prevp
    {
      hide Partition, Coalesced, Ascending, Linked;
      FreeAboveBase(heap, prevp);
      if mem[p].size == nunits {
        Unlink(prevp, p, j);
        q := p;
      } else {
        q := TakeEnd(p, nunits, j);
      }
      freep := prevp;
      UsedAbove(heap, q);
    }

    /** A block of the right size leaves the list. */
    method Unlink(prevp: int, p: int, ghost j: nat)
      requires heap.mem == mem && HeapOk(heap) && 1 <= j < |heap.free| && p == heap.free[j] && prevp == heap.free[j - 1]
      requires p in mem && prevp in mem
      modifies this`mem, this`heap
      ensures heap.mem == mem && heap.base == old(heap).base && HeapOk(heap) && prevp in heap.free
      ensures heap.owner.Keys == old(heap).owner.Keys
      ensures p !in old(heap).used && heap.used == old(heap).used[p := old(mem)[p].size]
    {
      TakeWholeOk(heap, j);
      mem := mem[prevp := mem[prevp].(ptr := mem[p].ptr)];
      heap := TakeWhole(heap, j);
      assert heap.free[j - 1] == prevp;
    }

    /** Cut the tail off a block that is too large. */
    method TakeEnd(p: int, nunits: nat, ghost j: nat) returns (q: int)
      requires heap.mem == mem && HeapOk(heap) && 1 <= j < |heap.free| && p == heap.free[j]
      requires p in mem && mem[p].size > nunits >= 1
      modifies this`mem, this`heap
      ensures heap.mem == mem && heap.base == old(heap).base && heap.free == old(heap).free && HeapOk(heap)
      ensures heap.owner.Keys == old(heap).owner.Keys
      ensures q !in old(heap).used && heap.used == old(heap).used[q := nunits]
      ensures q == p + old(mem)[p].size - nunits
    {
      ghost var junk;
      q, junk := Carve(p, nunits);
      TailIsNew(heap, j, nunits, q);
      TakeTailOk(heap, j, nunits, junk);
      heap := TakeTail(heap, j, nunits, junk);
    }

    /** The lines of malloc that write the two headers. */
    method Carve(p: int, nunits: nat) returns (q: int, ghost junk: int)
      requires p in mem
      modifies this`mem
      ensures q == p + old(mem)[p].size - nunits
      ensures mem == old(mem)[p := Header(old(mem)[p].ptr, old(mem)[p].size - nunits)][q := Header(junk, nunits)]
    {
      mem := mem[p := mem[p].(size := mem[p].size - nunits)];
      q := p + mem[p].size;
      var there := if q in mem then mem[q].ptr else 0;
      mem := mem[q := Header(there, nunits)];
      junk := there;
    }

    /** malloc. It asks `sbrk` for memory, once, exactly when no free block is
        large enough, and fails exactly when it asked and `sbrk` failed; else the
        caller gets a block of the right size that overlaps no block in use. The
        search goes around the ring at most twice, also when the new memory was
        merged into the very entry the search stops at. The block lies in memory
        that `sbrk` gave unless 2^28 units or more had to be asked for. */
    method Malloc(nbytes: nat) returns (r: int)
      requires Valid() && Honest() && nbytes < TWO32
      modifies this
      ensures Valid() && old(heap).owner.Keys <= heap.owner.Keys
      ensures Honest() <==> r == 0 || HasBlock(old(heap), Units(nbytes)) || Units(nbytes) < 0x1000_0000
      ensures asked == old(asked) + (if HasBlock(old(heap), Units(nbytes)) then 0 else 1)
      ensures refused == old(refused) + (if r == 0 then 1 else 0)
      ensures r == 0 ==> heap.used == old(heap).used && asked == old(asked) + 1
      ensures r != 0 ==> r - 1 !in old(heap).used && heap.used == old(heap).used[r - 1 := Units(nbytes)]
      ensures HasBlock(old(heap), Units(nbytes)) ==> FirstFit(old(heap), old(freep), Units(nbytes), r - 1, freep)
    {
      hide HasBlock, FirstFit, HeapOk;
      Start();
      var q := Search(Units(nbytes));
      if q == 0 {
        return 0;
      }
      r := q + 1;
      assert r - 1 == q;
    }

    /** The first call sets up a free list that holds `base` alone. */
    method Start()
      requires Valid()
      modifies this`mem, this`freep, this`heap
      ensures Valid() && freep != 0
      ensures heap.used == old(heap).used && heap.owner == old(heap).owner
      ensures forall n :: n >= 1 ==> (HasBlock(heap, n) <==> HasBlock(old(heap), n))
      ensures if old(freep) != 0 then heap == old(heap) && freep == old(freep) else forall n :: !HasBlock(old(heap), n)
    {
      if freep == 0 {
        mem := mem[base := Header(base, 0)];
        freep := base;
        heap := heap.(mem := mem, free := [base]);
      }
    }

    /** malloc's loop: the header of the block found, or 0. */
    method Search(nunits: nat) returns (q: int)
      requires Valid() && Honest() && freep != 0 && 1 <= nunits
      modifies this
      ensures Valid() && old(heap).owner.Keys <= heap.owner.Keys
      ensures Honest() <==> q == 0 || HasBlock(old(heap), nunits) || nunits < 0x1000_0000
      ensures asked == old(asked) + (if HasBlock(old(heap), nunits) then 0 else 1)
      ensures refused == old(refused) + (if q == 0 then 1 else 0)
      ensures q == 0 ==> heap.used == old(heap).used && asked == old(asked) + 1
      ensures q != 0 ==> q > 0 && q !in old(heap).used && heap.used == old(heap).used[q := nunits]
      ensures HasBlock(old(heap), nunits) ==> FirstFit(old(heap), old(freep), nunits, q, freep)
    {
      hide Partition, Coalesced, HasBlock, Linked, Ascending, FirstFit;
      ghost var f := EntryOf(heap.free, freep);
      ghost var c, grown := 0, false;
      StartSearch(heap, freep, nunits, f, grown);
      var prevp := freep;
      var p := mem[prevp].ptr;
      while mem[p].size < nunits
        invariant Valid() && freep != 0
        invariant Searching(heap, freep, prevp, p, nunits, f, c, grown)
        invariant heap.used == old(heap).used && old(heap).owner.Keys <= heap.owner.Keys
        invariant refused == old(refused) && asked == old(asked) + (if grown then 1 else 0)
        invariant Honest() <==> !grown || nunits < 0x1000_0000
        invariant AskedRightly(old(heap), heap, nunits, grown) && (!grown ==> freep == old(freep))
        decreases !grown, |heap.free| - c
      {
        prevp, f, c, grown := Onward(prevp, p, nunits, f, c, grown);
        if prevp == 0 {
          return 0;
        }
        p := mem[prevp].ptr;
      }
      ghost var j := Around(|heap.free|, f, c);
      Found(heap, freep, prevp, p, nunits, f, c, grown, j);
      FoundBefore(old(heap), heap, j, nunits, grown);
      FitsFirst(heap, freep, prevp, p, nunits, f, c, grown);
      q := Take(prevp, p, nunits, j);
    }

    /** The end of a round of malloc's loop at a block that is too small: go on
        from it, or at the end of the ring from what `morecore` returns. */
    method Onward(prevp: int, p: int, nunits: nat, ghost f: nat, ghost c: nat, ghost grown: bool)
      returns (at: int, ghost f': nat, ghost c': nat, ghost grown': bool)
      requires Valid() && (!grown ==> Honest()) && freep != 0 && 1 <= nunits
      requires Searching(heap, freep, prevp, p, nunits, f, c, grown) && heap.mem[p].size < nunits
      modifies this
      ensures Valid() && freep != 0
      ensures heap.used == old(heap).used && old(heap).owner.Keys <= heap.owner.Keys
      ensures at != 0 ==> at in mem && Searching(heap, freep, at, mem[at].ptr, nunits, f', c', grown')
      ensures refused == old(refused) + (if at == 0 then 1 else 0) && (at == 0 ==> p == old(freep))
      ensures AskedRightly(old(heap), heap, nunits, grown' && !grown)
      ensures if p == old(freep) then !grown && grown' && asked == old(asked) + 1 && (Honest() <==> at == 0 || nunits < 0x1000_0000)
        else unchanged(`top, `brk, `freep) && grown' == grown && asked == old(asked) && heap.free == old(heap).free && c' == c + 1
    {
      hide Partition, Coalesced, Linked, Ascending, HasBlock;
      if p != freep {
        NextStep(heap, freep, prevp, p, nunits, f, c, grown);
        FreeAboveBase(heap, p);
        return p, f, c + 1, grown;
      }
      AllTooSmall(heap, freep, prevp, p, nunits, f, c, grown);
      at, f' := MorecoreAndRestart(nunits);
      c', grown' := 0, true;
    }

    /** morecore in malloc's loop: the search goes on from the new `freep`. */
    method MorecoreAndRestart(nunits: nat) returns (p: int, ghost f: nat)
      requires Valid() && Honest() && freep != 0 && 1 <= nunits
      modifies this
      ensures Valid() && freep != 0
      ensures Honest() <==> p == 0 || nunits < 0x1000_0000
      ensures heap.used == old(heap).used && old(heap).owner.Keys <= heap.owner.Keys
      ensures asked == old(asked) + 1 && refused == old(refused) + (if p == 0 then 1 else 0)
      ensures p != 0 ==> p in mem && Searching(heap, freep, p, mem[p].ptr, nunits, f, 0, true)
    {
      p := Morecore(nunits);
      f := EntryOf(heap.free, freep);
      if p != 0 {
        StartSearch(heap, freep, nunits, f, true);
      }
    }
  }

  lemma PutAndDrop(m: map<int, int>, k: int, v: int)
    requires k !in m
    ensures m[k := v] - {k} == m
  {
  }

  lemma LessWillDo(h: Heap, n: int, m: int)
    requires HasBlock(h, n) && m <= n
    ensures HasBlock(h, m)
  {
    var k :| 0 <= k < |h.free| && h.free[k] in h.mem && h.mem[h.free[k]].size >= n;
  }

  lemma FreeAboveBase(h: Heap, a: int)
    requires HeapOk(h) && a in h.free
    ensures a >= h.base
  {
  }

  // ------------------------------------------------------ the search of malloc

  ghost function EntryOf(free: seq<int>, a: int): (f: nat)
    requires a in free
    ensures f < |free| && free[f] == a
  {
    var f :| 0 <= f < |free| && free[f] == a; f
  }

  /** malloc's loop has gone `c` steps around the ring from `freep`, and all
      entries on the way were too small. */
  ghost predicate Searching(h: Heap, freep: int, prevp: int, p: int, nunits: nat, f: nat, c: nat, grown: bool) {
    && RingOk(h) && nunits >= 1
    && f < |h.free| && c < |h.free| && h.free[f] == freep
    && prevp == h.free[if c == 0 then f else Around(|h.free|, f, c - 1)]
    && p == h.free[Around(|h.free|, f, c)] && p in h.mem && prevp in h.mem
    && (forall d :: 0 <= d < c ==> h.mem[h.free[Around(|h.free|, f, d)]].size < nunits)
    && (grown ==> HasBlock(h, nunits))
  }

  /** Block `q` of `nunits` units is cut off the end of the first free block, from the
      one behind `freep` on and around, that is large enough: the one `c` steps on. The
      next search starts from the entry before it. */
  ghost predicate FirstFit(h: Heap, freep: int, nunits: nat, q: int, freep': int) {
    exists f: nat, c: nat :: f < |h.free| && h.free[f] == freep && FitAt(h, f, nunits, c, q, freep')
  }

  ghost predicate FitAt(h: Heap, f: nat, nunits: nat, c: nat, q: int, freep': int)
    requires f < |h.free|
  {
    var n := |h.free|;
    c < n && 1 <= Around(n, f, c) && var p := h.free[Around(n, f, c)];
    && p in h.mem && h.mem[p].size >= nunits && q == p + h.mem[p].size - nunits
    && freep' == h.free[Around(n, f, c) - 1]
    && forall d :: 0 <= d < c ==> var e := h.free[Around(n, f, d)]; e in h.mem && h.mem[e].size < nunits
  }

  lemma FitsFirst(h: Heap, freep: int, prevp: int, p: int, nunits: nat, f: nat, c: nat, grown: bool)
    requires Searching(h, freep, prevp, p, nunits, f, c, grown) && h.mem[p].size >= nunits
    ensures FirstFit(h, freep, nunits, p + h.mem[p].size - nunits, prevp)
  {
    hide HasBlock, Ascending, Coalesced;
    Found(h, freep, prevp, p, nunits, f, c, grown, Around(|h.free|, f, c));
    assert FitAt(h, f, nunits, c, p + h.mem[p].size - nunits, prevp);
  }

  /** The heap grew only if it had no block that is large enough. */
  ghost predicate AskedRightly(before: Heap, now: Heap, nunits: nat, grown: bool) {
    if grown then !HasBlock(before, nunits) else now == before
  }

  /** So `sbrk` was called exactly if there was none at first. */
  lemma FoundBefore(before: Heap, now: Heap, j: nat, nunits: nat, grown: bool)
    requires AskedRightly(before, now, nunits, grown)
    requires j < |now.free| && now.free[j] in now.mem && now.mem[now.free[j]].size >= nunits
    ensures grown <==> !HasBlock(before, nunits)
  {
  }

  lemma SameEntry(free: seq<int>, i: nat, j: nat)
    requires Ascending(free) && i < |free| && j < |free| && free[i] == free[j]
    ensures i == j
  {
  }

  lemma StartSearch(h: Heap, freep: int, nunits: nat, f: nat, grown: bool)
    requires RingOk(h) && f < |h.free| && h.free[f] == freep && nunits >= 1 && (grown ==> HasBlock(h, nunits))
    ensures freep in h.mem && h.mem[freep].ptr in h.mem && Searching(h, freep, freep, h.mem[freep].ptr, nunits, f, 0, grown)
  {
    assert h.mem[h.free[f]].ptr == Ring(h.free)[f + 1];
  }

  lemma NextStep(h: Heap, freep: int, prevp: int, p: int, nunits: nat, f: nat, c: nat, grown: bool)
    requires Searching(h, freep, prevp, p, nunits, f, c, grown)
    requires p in h.mem && h.mem[p].size < nunits && p != freep
    ensures c + 1 < |h.free| && h.mem[p].ptr in h.mem && Searching(h, freep, p, h.mem[p].ptr, nunits, f, c + 1, grown)
  {
    hide HasBlock, Ascending;
    var j := Around(|h.free|, f, c);
    AroundNext(h.free, f, c);
    assert h.mem[h.free[j]].ptr == Ring(h.free)[j + 1];
  }

  lemma AroundNext(free: seq<int>, f: nat, c: nat)
    requires f < |free| && c < |free| && free[Around(|free|, f, c)] != free[f]
    ensures c + 1 < |free|
    ensures Ring(free)[Around(|free|, f, c) + 1] == free[Around(|free|, f, c + 1)]
  {
  }

  /** Back at `freep` every entry has been looked at and none was large enough,
      so this happens only before the heap has grown. */
  lemma AllTooSmall(h: Heap, freep: int, prevp: int, p: int, nunits: nat, f: nat, c: nat, grown: bool)
    requires Searching(h, freep, prevp, p, nunits, f, c, grown)
    requires p in h.mem && h.mem[p].size < nunits && p == freep
    ensures !HasBlock(h, nunits) && !grown
  {
    var n := |h.free|;
    assert Around(n, f, c) == f by {
      SameEntry(h.free, Around(n, f, c), f);
    }
    assert c == n - 1;
    forall k | 0 <= k < n
      ensures h.mem[h.free[k]].size < nunits
    {
      var d := if k > f then k - f - 1 else k - f - 1 + n;
      assert Around(n, f, d) == k;
    }
  }

  lemma Found(h: Heap, freep: int, prevp: int, p: int, nunits: nat, f: nat, c: nat, grown: bool, j: nat)
    requires Searching(h, freep, prevp, p, nunits, f, c, grown) && p in h.mem && h.mem[p].size >= nunits
    requires j == Around(|h.free|, f, c)
    ensures 1 <= j < |h.free| && p == h.free[j] && prevp == h.free[j - 1]
  {
    assert h.free[0] == h.base && p != h.base;
    assert c > 0 ==> Around(|h.free|, f, c - 1) == j - 1 || j == 0;
  }
}
