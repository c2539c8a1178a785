/** `stable`, the table of slabs of src/slab.c, with `kmalloc` and `kmfree`. */
module SlabTables {
  import opened Arith
  import opened Bits
  import opened Frames
  import opened SlabModel
  import opened SlabSizes
  import opened SlabAllocator
  import opened SlabAdmission

  /** The slab that serves a request. */
  function SlabFor(size: int): (c: nat)
    requires 1 <= size <= MAXSIZE
    ensures c < NSLAB && Pow2(c + 3) >= size
  {
    ClassFits(size);
    ClassOf(size)
  }

  /** Fewer free frames: the attached pages are still not among them. */
  lemma FewerFree(bits: seq<bool>, per: nat, page: seq<int>, free: seq<int>, less: seq<int>)
    requires per > 0 && FramesOk(bits, per, page, free)
    requires forall f :: f in less ==> f in free
    ensures FramesOk(bits, per, page, less)
  {
  }

  /** One more free frame that the slab does not own. */
  lemma MoreFree(bits: seq<bool>, per: nat, page: seq<int>, free: seq<int>, f: int)
    requires per > 0 && FramesOk(bits, per, page, free) && f !in Owned(bits, per, page)
    ensures FramesOk(bits, per, page, [f] + free)
  {
    forall q | 0 <= q < NENTRIES - 1 && Attached(bits, per, q)
      ensures page[q + 1] != f
    {
      assert page[q + 1] in Owned(bits, per, page);
    }
  }

  /** An owned frame is not free. */
  lemma OwnedNotFree(bits: seq<bool>, per: nat, page: seq<int>, free: seq<int>, f: int)
    requires per > 0 && FramesOk(bits, per, page, free) && f in free
    ensures f !in Owned(bits, per, page)
  {
  }

  /** A live object lies inside a frame that its slab owns. */
  lemma LiveInOwned(s: Slab, free: seq<int>, k: nat, q: nat, addr: int)
    requires s.Valid(free) && s.LiveAt(k, q, addr)
    ensures s.page[q + 1] in Owned(s.Bits(), s.perPage, s.page[..])
    ensures s.page[q + 1] % PGSIZE == 0
    ensures s.page[q + 1] <= addr && addr + s.size <= s.page[q + 1] + PGSIZE
  {
    assert Attached(s.Bits(), s.perPage, q) by {
      assert s.Bits()[k] && k / s.perPage == q;
    }
    ObjectInFrame(s.idx, s.size, s.perPage, k);
  }

  predicate Disjoint(a: int, n: nat, b: int, m: nat) {
    a + n <= b || b + m <= a
  }

  /** Two addresses in different page-aligned frames are a frame apart. */
  lemma FramesApart(f: int, g: int, a: int, n: nat, b: int, m: nat)
    requires f % PGSIZE == 0 && g % PGSIZE == 0 && f != g
    requires f <= a && a + n <= f + PGSIZE && g <= b && b + m <= g + PGSIZE
    ensures Disjoint(a, n, b, m)
  {
    assert f == f / PGSIZE * PGSIZE && g == g / PGSIZE * PGSIZE;
  }

  lemma SlotsDiffer(k: nat, k': nat, per: nat)
    requires per > 0 && k != k' && k / per == k' / per
    ensures k % per != k' % per
  {
    DivMod(k, per);
    DivMod(k', per);
  }

  lemma SlotsApart(r: int, r': int, size: nat)
    requires r != r'
    ensures Disjoint(r * size, size, r' * size, size)
  {
    if r < r' {
      MulMonotone(r + 1, r', size);
    } else {
      MulMonotone(r' + 1, r, size);
    }
  }

  /** Two live objects of one slab do not overlap. */
  lemma SameSlabDisjoint(s: Slab, free: seq<int>, k: nat, q: nat, a: int, k': nat, q': nat, a': int)
    requires s.Valid(free) && s.LiveAt(k, q, a) && s.LiveAt(k', q', a') && k != k'
    ensures Disjoint(a, s.size, a', s.size)
  {
    if q == q' {
      SlotsDiffer(k, k', s.perPage);
      SlotsApart(k % s.perPage, k' % s.perPage, s.size);
    } else if q < q' {
      PagesApart(s, free, k, q, a, k', q', a');
    } else {
      PagesApart(s, free, k', q', a', k, q, a);
    }
  }

  lemma PagesApart(s: Slab, free: seq<int>, k: nat, q: nat, a: int, k': nat, q': nat, a': int)
    requires s.Valid(free) && s.LiveAt(k, q, a) && s.LiveAt(k', q', a') && q < q'
    ensures Disjoint(a, s.size, a', s.size)
  {
    LiveInOwned(s, free, k, q, a);
    LiveInOwned(s, free, k', q', a');
    assert Attached(s.Bits(), s.perPage, q') by {
      assert s.Bits()[k'] && k' / s.perPage == q';
    }
    assert s.page[..][q + 1] != s.page[..][q' + 1];
    FramesApart(s.page[q + 1], s.page[q' + 1], a, s.size, a', s.size);
  }

  /** The live objects keep their addresses when a page that held none of them
      is given a frame. */
  lemma StillLive(bits: seq<bool>, page: seq<int>, page': seq<int>, size: nat, per: nat, k: nat, q: nat, k': nat, q': nat, a: int)
    requires per > 0 && k < |bits| && k' < |bits| && bits[k'] && InPage(page, size, per, k', q', a)
    requires q + 1 < |page| && |page'| == |page|
    requires page' == page || (!Attached(bits, per, q) && page' == page[q + 1 := page'[q + 1]])
    ensures bits[k := true][k'] && InPage(page', size, per, k', q', a)
  {
    assert NonEmpty(bits, per, q') by {
      assert bits[k'] && k' / per == q';
    }
  }

  /** `Slab.Alloc`, and what it does not disturb. */
  method AllocKeeping(s: Slab, kmem: FrameList, ghost k: nat, ghost q: nat) returns (addr: int)
    requires s.Valid(kmem.frames) && kmem.Valid() && s.numUsed < s.perPage * MaxPages(s.idx)
    requires IsFirstZero(s.Bits(), k) && q == k / s.perPage
    requires !Attached(s.Bits(), s.perPage, q) ==> kmem.frames != []
    modifies kmem, s, s.bitmap, s.page
    ensures s.Valid(kmem.frames) && kmem.Valid()
    ensures addr > 0 && k < NBITS && s.LiveAt(k, q, addr)
    ensures s.Bits() == old(s.Bits())[k := true]
    ensures forall f :: f in kmem.frames ==> f in old(kmem.frames)
    ensures forall f :: f in OwnedBy(s) ==> f in old(OwnedBy(s)) || f in old(kmem.frames)
    ensures forall k', q', a :: old(s.LiveAt(k', q', a)) ==> s.LiveAt(k', q', a)
  {
    ghost var bits, pages := s.Bits(), s.page[..];
    addr := s.Alloc(kmem, k, q);
    ObjectInFrame(s.idx, s.size, s.perPage, k);
    assert IsFrame(s.page[..][q + 1]) by {
      assert s.Bits()[k] && k / s.perPage == q;
      assert Attached(s.Bits(), s.perPage, q);
    }
    forall k', q', a | old(s.LiveAt(k', q', a))
      ensures s.LiveAt(k', q', a)
    {
      StillLive(bits, pages, s.page[..], s.size, s.perPage, k, q, k', q', a);
    }
  }

  ghost predicate Apart(s: Slab, t: Slab) {
    s != t && s.bitmap != t.bitmap && s.page != t.page
  }

  ghost function OwnedBy(s: Slab): set<int>
    requires s.Sized()
    reads s, s.bitmap, s.page
  {
    Owned(s.Bits(), s.perPage, s.page[..])
  }

  /** Every slab is in order, and no two share storage or frames. */
  ghost predicate TableOk(slab: seq<Slab>, free: seq<int>)
    reads slab, set s | s in slab :: s.bitmap, set s | s in slab :: s.page
  {
    && (forall i, j :: 0 <= i < j < |slab| ==> Apart(slab[i], slab[j]))
    && (forall i :: 0 <= i < |slab| ==> slab[i].idx == i && slab[i].Valid(free))
    && (forall i, j :: 0 <= i < j < |slab| ==> OwnedBy(slab[i]) !! OwnedBy(slab[j]))
  }

  /** A slab set up with frames that were free joins the table. */
  lemma AddSlab(s: seq<Slab>, x: Slab, before: seq<int>, free: seq<int>)
    requires TableOk(s, before) && x.idx == |s| && x.Valid(free)
    requires forall f :: f in free ==> f in before
    requires forall i :: 0 <= i < |s| ==> Apart(s[i], x)
    requires forall f :: f in OwnedBy(x) ==> f in before
    ensures TableOk(s + [x], free)
  {
    var t := s + [x];
    forall i | 0 <= i < |s|
      ensures s[i].Valid(free) && OwnedBy(s[i]) !! OwnedBy(x)
    {
      FewerFree(s[i].Bits(), s[i].perPage, s[i].page[..], before, free);
      forall f | f in OwnedBy(x)
        ensures f !in OwnedBy(s[i])
      {
        OwnedNotFree(s[i].Bits(), s[i].perPage, s[i].page[..], before, f);
      }
    }
  }

  ghost predicate Idle(slab: seq<Slab>)
    reads slab
  {
    forall i :: 0 <= i < |slab| ==> slab[i].numUsed == 0 && slab[i].numPages == 1
  }

  /** One round of the loop in slabinit. */
  method NextSlab(s: seq<Slab>, kmem: FrameList) returns (t: seq<Slab>)
    requires kmem.Valid() && |kmem.frames| >= 2 && |s| < NSLAB && TableOk(s, kmem.frames) && Idle(s)
    modifies kmem
    ensures kmem.Valid() && kmem.frames == old(kmem.frames)[2..]
    ensures |t| == |s| + 1 && TableOk(t, kmem.frames) && Idle(t)
  {
    hide FramesOk, Attached, Count, PagesAttached, Owned;
    ghost var before := kmem.frames;
    var x := new Slab(|s|, kmem);
    AddSlab(s, x, before, kmem.frames);
    t := s + [x];
  }

  class SlabTable {
    const slab: seq<Slab>
    const kmem: FrameList

    ghost predicate Valid()
      reads kmem, slab, set s | s in slab :: s.bitmap, set s | s in slab :: s.page
    {
      kmem.Valid() && |slab| == NSLAB && TableOk(slab, kmem.frames)
    }

    /** slabinit */
    constructor (kmem: FrameList)
      requires kmem.Valid() && |kmem.frames| >= 2 * NSLAB
      modifies kmem
      ensures this.kmem == kmem && Valid()
      ensures Idle(slab)
      ensures kmem.frames == old(kmem.frames)[2 * NSLAB..]
    {
      var s: seq<Slab> := [];
      var i := 0;
      while i < NSLAB
        invariant 0 <= i <= NSLAB && |s| == i
        invariant kmem.Valid() && kmem.frames == old(kmem.frames)[2 * i..]
        invariant TableOk(s, kmem.frames) && Idle(s)
      {
        s := NextSlab(s, kmem);
        i := i + 1;
      }
      this.slab := s;
      this.kmem := kmem;
    }

    /** Object `k` of class `c` is live at `addr`. */
    ghost predicate Live(c: nat, k: nat, q: nat, addr: int)
      requires Valid()
      reads kmem, slab, set s | s in slab :: s.bitmap, set s | s in slab :: s.page
    {
      c < NSLAB && slab[c].LiveAt(k, q, addr)
    }

    /** Live objects of all classes are pairwise disjoint. */
    lemma LiveDisjoint(c: nat, k: nat, q: nat, a: int, c': nat, k': nat, q': nat, a': int)
      requires Valid() && Live(c, k, q, a) && Live(c', k', q', a') && (c, k) != (c', k')
      ensures Disjoint(a, slab[c].size, a', slab[c'].size)
    {
      if c == c' {
        SameSlabDisjoint(slab[c], kmem.frames, k, q, a, k', q', a');
      } else {
        LiveInOwned(slab[c], kmem.frames, k, q, a);
        LiveInOwned(slab[c'], kmem.frames, k', q', a');
        assert c < c' ==> OwnedBy(slab[c]) !! OwnedBy(slab[c']);
        assert c' < c ==> OwnedBy(slab[c']) !! OwnedBy(slab[c]);
        FramesApart(slab[c].page[q + 1], slab[c'].page[q' + 1], a, slab[c].size, a', slab[c'].size);
      }
    }
  
    /** The table after slab `c` went from owning `was` to what it owns now, and
        the free list from `before` to what it is now. */
    lemma Rejoin(c: nat, before: seq<int>, was: set<int>)
      requires |slab| == NSLAB && c < NSLAB && kmem.Valid()
      requires forall i, j :: 0 <= i < j < NSLAB ==> Apart(slab[i], slab[j])
      requires forall i :: 0 <= i < NSLAB ==> slab[i].idx == i && slab[i].Sized()
      requires slab[c].Valid(kmem.frames)
      requires forall i :: 0 <= i < NSLAB && i != c ==> slab[i].Valid(before) && OwnedBy(slab[i]) !! was
      requires forall i, j :: 0 <= i < j < NSLAB && i != c && j != c ==> OwnedBy(slab[i]) !! OwnedBy(slab[j])
      requires forall f :: f in OwnedBy(slab[c]) ==> f in was || f in before
      requires (forall f :: f in kmem.frames ==> f in before)
               || (exists f :: f in was && kmem.frames == [f] + before)
      ensures Valid()
    {
      forall i | 0 <= i < NSLAB && i != c
        ensures slab[i].Valid(kmem.frames) && OwnedBy(slab[i]) !! OwnedBy(slab[c])
      {
        if forall f :: f in kmem.frames ==> f in before {
          FewerFree(slab[i].Bits(), slab[i].perPage, slab[i].page[..], before, kmem.frames);
        } else {
          var f :| f in was && kmem.frames == [f] + before;
          MoreFree(slab[i].Bits(), slab[i].perPage, slab[i].page[..], before, f);
        }
        forall f | f in OwnedBy(slab[c])
          ensures f !in OwnedBy(slab[i])
        {
          if f in before {
            OwnedNotFree(slab[i].Bits(), slab[i].perPage, slab[i].page[..], before, f);
          }
        }
      }
    }

    /** Allocating in slab `c` leaves every live object of the slab in place. */
    method AllocIn(c: nat, ghost k: nat, ghost q: nat) returns (addr: int)
      requires Valid() && c < NSLAB && slab[c].numUsed < slab[c].perPage * MaxPages(c)
      requires IsFirstZero(slab[c].Bits(), k) && q == k / slab[c].perPage
      requires !Attached(slab[c].Bits(), slab[c].perPage, q) ==> kmem.frames != []
      modifies kmem, slab[c], slab[c].bitmap, slab[c].page
      ensures Valid() && addr > 0 && Live(c, k, q, addr) && k < NBITS
      ensures slab[c].Bits() == old(slab[c].Bits())[k := true]
      ensures forall k', q', a :: old(slab[c].LiveAt(k', q', a)) ==> slab[c].LiveAt(k', q', a)
    {
      hide FramesOk, Attached, Count, PagesAttached, Owned, InPage, IsFirstZero;
      ghost var before, was := kmem.frames, OwnedBy(slab[c]);
      addr := AllocKeeping(slab[c], kmem, k, q);
      Rejoin(c, before, was);
    }

    /** Freeing in slab `c` leaves every other live object of the slab in place. */
    method FreeIn(c: nat, addr: int, ghost k: nat, ghost q: nat)
      requires Valid() && c < NSLAB
      requires slab[c].numUsed != 0 ==> slab[c].LiveAt(k, q, addr)
      modifies kmem, slab[c], slab[c].bitmap
      ensures Valid()
      ensures old(slab[c].numUsed) == 0 ==> slab[c].Bits() == old(slab[c].Bits()) && kmem.frames == old(kmem.frames)
      ensures old(slab[c].numUsed) != 0 ==> k < NBITS && slab[c].Bits() == old(slab[c].Bits())[k := false]
      ensures forall k', q', a :: k' != k && old(slab[c].LiveAt(k', q', a)) ==> slab[c].LiveAt(k', q', a)
    {
      hide FramesOk, Count, PagesAttached, Owned;
      ghost var before, was := kmem.frames, OwnedBy(slab[c]);
      slab[c].Free(kmem, addr, k, q);
      Rejoin(c, before, was);
    }
  
    /** The slab holds as many objects as its pages have room for. */
    ghost predicate Full(c: nat)
      requires c < |slab| && c < NSLAB
      reads slab
    {
      slab[c].numUsed >= Limit(c)
    }

    /** There is a frame if class `c` is about to open a page; the result of
        `kalloc` is not checked. */
    ghost predicate FrameReady(c: nat)
      requires Valid() && c < NSLAB
      reads kmem, slab, set s | s in slab :: s.bitmap, set s | s in slab :: s.page
    {
      slab[c].NeedsFrame() ==> kmem.frames != []
    }

    /** What kmalloc tests before it takes the lock: the size is in range, and
        neither its class nor, whatever the class, the smallest one is full. */
    method KmallocTests(size: int) returns (pass: bool)
      requires Valid()
      ensures pass <==> 1 <= size <= MAXSIZE && !Full(SlabFor(size)) && !Full(0)
    {
      if size > 2048 || size <= 0 {
        return false;
      }
      var slabIdx := SlabFor(size);
      var s := slab[slabIdx];
      Capacity(s, kmem.frames);
      Capacity(slab[0], kmem.frames);
      if s.numUsed == s.perPage * 100 {
        return false;
      }
      if slab[0].numUsed == slab[0].perPage * 64 {
        return false;
      }
      return true;
    }

    /** What kmalloc does under the lock, whoever ran since the tests: if a slot
        is still left, the object that first fit offers becomes live, and all
        objects that were live stay where they are. */
    method KmallocLocked(size: int, ghost c: nat) returns (addr: int, ghost k: nat, ghost q: nat)
      requires Valid() && 1 <= size <= MAXSIZE && c == SlabFor(size) && !Full(c) && FrameReady(c)
      modifies kmem, slab, set s | s in slab :: s.bitmap, set s | s in slab :: s.page
      ensures Valid() && addr > 0
      ensures k == Offered(old(slab[c].Bits())) && k < NBITS && !old(slab[c].Bits())[k]
      ensures slab[c].Bits() == TakenBits(old(slab[c].Bits())) && slab[c].numUsed == old(slab[c].numUsed) + 1
      ensures Live(c, k, q, addr) && slab[c].size >= size
      ensures forall c' :: 0 <= c' < NSLAB && c' != c ==> slab[c'].Bits() == old(slab[c'].Bits())
      ensures forall c', k', q', a :: old(Live(c', k', q', a)) ==> Live(c', k', q', a)
    {
      hide FramesOk, PagesAttached, Owned;
      var slabIdx := SlabFor(size);
      Capacity(slab[slabIdx], kmem.frames);
      ghost var bits := slab[c].Bits();
      k := FirstClear(bits);
      DivNat(k, slab[c].perPage);
      q := k / slab[c].perPage;
      addr := AllocIn(slabIdx, k, q);
      CountUpdate(bits, k, true);
    }

    /** kmalloc, of a size in class `c` if it is in range, when nobody takes the
        last slot between its tests and its critical section. It returns null
        exactly when a test fails. */
    method Kmalloc(size: int, ghost c: nat) returns (addr: int, ghost k: nat, ghost q: nat)
      requires Valid() && c < NSLAB && FrameReady(c) && (1 <= size <= MAXSIZE ==> c == SlabFor(size))
      modifies kmem, slab, set s | s in slab :: s.bitmap, set s | s in slab :: s.page
      ensures Valid()
      ensures addr == 0 <==> size <= 0 || size > MAXSIZE || old(Full(c)) || old(Full(0))
      ensures addr == 0 ==> slab[c].Bits() == old(slab[c].Bits())
      ensures addr != 0 ==>
        && k == Offered(old(slab[c].Bits())) && k < NBITS && !old(slab[c].Bits())[k]
        && slab[c].Bits() == TakenBits(old(slab[c].Bits()))
        && Live(c, k, q, addr) && slab[c].size >= size
      ensures forall c' :: 0 <= c' < NSLAB && c' != c ==> slab[c'].Bits() == old(slab[c'].Bits())
      ensures forall c', k', q', a :: old(Live(c', k', q', a)) ==> Live(c', k', q', a)
    {
      var pass := KmallocTests(size);
      if !pass {
        return 0, 0, 0;
      }
      addr, k, q := KmallocLocked(size, c);
    }

    /** kmfree, of a live object and with its class size. */
    method Kmfree(addr: int, size: nat, ghost c: nat, ghost k: nat, ghost q: nat)
      requires Valid() && c < NSLAB && size == slab[c].size
      requires slab[c].numUsed != 0 ==> Live(c, k, q, addr)
      modifies kmem, slab, set s | s in slab :: s.bitmap
      ensures Valid()
      ensures old(slab[c].numUsed) == 0 ==> slab[c].Bits() == old(slab[c].Bits())
      ensures old(slab[c].numUsed) != 0 ==> k < NBITS && slab[c].Bits() == old(slab[c].Bits())[k := false]
      ensures forall c' :: 0 <= c' < NSLAB && c' != c ==> slab[c'].Bits() == old(slab[c'].Bits())
      ensures forall c', k', q', a :: old(Live(c', k', q', a)) && (c' != c || k' != k) ==> Live(c', k', q', a)
    {
      ClassOfClassSize(c);
      var slabIdx := SlabIdx(size);
      FreeIn(slabIdx, addr, k, q);
    }
  }

  /** A slab never holds more objects than its limit. */
  lemma Capacity(s: Slab, free: seq<int>)
    requires s.Valid(free)
    ensures s.numUsed <= Limit(s.idx) == s.perPage * MaxPages(s.idx) < s.perPage * 101
    ensures s.idx == 0 ==> s.perPage * 64 < s.perPage * 100
  {
    CountBelow(s.Bits(), s.perPage * MaxPages(s.idx));
    LimitIs(s.idx, s.size, s.perPage);
  }
}
