/** One slab of src/slab.c on values: the bitmap as a sequence of bits, the
    pages the bits fall into, and the page table with its stale entries.

    Bit `k` stands for object `k`, which lives in page `k / per` (counted from
    zero here; entry `k / per + 1` of the page table). */
module SlabModel {
  import opened Arith
  import opened Frames

  /** Bits in a bitmap of one page. */
  const NBITS := 8 * PGSIZE

  /** Entries of the page table that are used: 0, which is never looked at, and
      1 to MAX_PAGES_PER_SLAB. */
  const NENTRIES := 101

  // ------------------------------------------------------------- first fit

  function Count(bits: seq<bool>): nat {
    if bits == [] then 0 else Count(bits[..|bits| - 1]) + if bits[|bits| - 1] then 1 else 0
  }

  lemma {:induction false} CountUpdate(bits: seq<bool>, k: nat, b: bool)
    requires k < |bits|
    ensures Count(bits[k := b]) == Count(bits) - (if bits[k] then 1 else 0) + (if b then 1 else 0)
  {
    var n := |bits| - 1;
    if k < n {
      CountUpdate(bits[..n], k, b);
      assert bits[k := b][..n] == bits[..n][k := b];
    } else {
      assert bits[k := b][..n] == bits[..n];
    }
  }

  /** The first clear bit, or the length if there is none. */
  ghost predicate IsFirstZero(bits: seq<bool>, k: nat) {
    && k <= |bits|
    && (forall i :: 0 <= i < k ==> bits[i])
    && (k < |bits| ==> !bits[k])
  }

  ghost function FirstClear(bits: seq<bool>): (k: nat)
    ensures IsFirstZero(bits, k)
  {
    if bits == [] then 0
    else
      var k := FirstClear(bits[..|bits| - 1]);
      assert forall i :: 0 <= i < k ==> bits[..|bits| - 1][i] == bits[i];
      if k == |bits| - 1 && bits[k] then k + 1 else k
  }

  lemma {:induction false} CountPrefix(bits: seq<bool>, k: nat)
    requires k <= |bits| && forall i :: 0 <= i < k ==> bits[i]
    ensures Count(bits) >= k
  {
    if |bits| > 0 {
      CountPrefix(bits[..|bits| - 1], if k == |bits| then k - 1 else k);
    }
  }

  lemma {:induction false} CountBelow(bits: seq<bool>, n: nat)
    requires forall k :: n <= k < |bits| ==> !bits[k]
    ensures Count(bits) <= n
  {
    if bits != [] {
      CountBelow(bits[..|bits| - 1], if |bits| <= n then n - 1 else n);
    }
  }

  lemma {:induction false} CountZero(bits: seq<bool>)
    requires forall i :: 0 <= i < |bits| ==> !bits[i]
    ensures Count(bits) == 0
  {
    if bits != [] {
      CountZero(bits[..|bits| - 1]);
    }
  }

  // ----------------------------------------------------------------- pages

  /** Page `q` holds a live object. */
  ghost predicate NonEmpty(bits: seq<bool>, per: nat, q: int)
    requires per > 0
  {
    exists k :: 0 <= k < |bits| && bits[k] && k / per == q
  }

  /** How many of the first `n` pages hold a live object. */
  ghost function PagesUsed(bits: seq<bool>, per: nat, n: nat): nat
    requires per > 0
  {
    if n == 0 then 0 else PagesUsed(bits, per, n - 1) + if NonEmpty(bits, per, n - 1) then 1 else 0
  }

  /** The first page is kept for good; the others only while they are used. */
  ghost predicate Attached(bits: seq<bool>, per: nat, q: int)
    requires per > 0
  {
    q == 0 || NonEmpty(bits, per, q)
  }

  /** How many frames the slab has attached to its first `n` pages. */
  ghost function PagesAttached(bits: seq<bool>, per: nat, n: nat): nat
    requires per > 0
  {
    PagesUsed(bits, per, n) + if n > 0 && !NonEmpty(bits, per, 0) then 1 else 0
  }

  lemma SetNonEmpty(bits: seq<bool>, per: nat, k: nat, q: int)
    requires per > 0 && k < |bits|
    ensures NonEmpty(bits[k := true], per, q) <==> q == k / per || NonEmpty(bits, per, q)
  {
    var b := bits[k := true];
    if q == k / per {
      assert b[k] && k / per == q;
    }
    if NonEmpty(b, per, q) && q != k / per {
      var i :| 0 <= i < |b| && b[i] && i / per == q;
      assert bits[i];
    }
    if NonEmpty(bits, per, q) {
      var i :| 0 <= i < |bits| && bits[i] && i / per == q;
      assert b[i];
    }
  }

  lemma ClearNonEmpty(bits: seq<bool>, per: nat, k: nat, q: int)
    requires per > 0 && k < |bits| && q != k / per
    ensures NonEmpty(bits[k := false], per, q) <==> NonEmpty(bits, per, q)
  {
    var b := bits[k := false];
    if NonEmpty(b, per, q) {
      var i :| 0 <= i < |b| && b[i] && i / per == q;
      assert bits[i];
    }
    if NonEmpty(bits, per, q) {
      var i :| 0 <= i < |bits| && bits[i] && i / per == q;
      assert b[i];
    }
  }

  /** Clearing a bit can empty only its own page. */
  lemma {:induction false} ClearPagesUsed(bits: seq<bool>, per: nat, k: nat, n: nat)
    requires per > 0 && k < |bits| && bits[k]
    ensures PagesUsed(bits[k := false], per, n)
         == PagesUsed(bits, per, n) - if k / per < n && !NonEmpty(bits[k := false], per, k / per) then 1 else 0
  {
    if n > 0 {
      ClearPagesUsed(bits, per, k, n - 1);
      if n - 1 == k / per {
        assert bits[k] && k / per == n - 1;
      } else {
        ClearNonEmpty(bits, per, k, n - 1);
      }
    }
  }

  /** After first fit has taken a bit, the first page is in use. */
  lemma FirstFitUsesFirstPage(bits: seq<bool>, per: nat, k: nat)
    requires per > 0 && k < |bits| && IsFirstZero(bits, k)
    ensures NonEmpty(bits[k := true], per, 0)
  {
    assert bits[k := true][0] && 0 / per == 0;
  }

  /** Every page before the one that first fit turns to is full, hence in use. */
  lemma EarlierPagesUsed(bits: seq<bool>, per: nat, k: nat, q: nat)
    requires per > 0 && IsFirstZero(bits, k) && q < k / per
    ensures NonEmpty(bits, per, q) && forall i :: 0 <= i < |bits| && i / per == q ==> bits[i]
  {
    PageStart(k, per, q);
    assert bits[q * per];
    forall i | 0 <= i < |bits| && i / per == q ensures bits[i] {
      if i >= k {
        DivMonotone(k, i, per);
      }
    }
  }

  /** The page table is declared with MAX_PAGES_PER_SLAB entries and used from
      entry 1, so entry 100 lies behind it. A slab reaches for that entry exactly
      when its first 99 pages are full. */
  lemma LastEntry(bits: seq<bool>, per: nat, k: nat)
    requires per > 0 && IsFirstZero(bits, k) && k < |bits| && 99 * per <= |bits|
    ensures k / per + 1 >= 100 <==> forall i :: 0 <= i < 99 * per ==> bits[i]
  {
    DivMod(k, per);
    if k / per >= 99 {
      MulMonotone(99, k / per, per);
    } else {
      MulMonotone(k / per + 1, 99, per);
    }
  }

  lemma PageStart(k: nat, per: nat, q: nat)
    requires per > 0 && q < k / per
    ensures 0 <= q * per < k && q * per / per == q
  {
    DivMod(k, per);
    MulMonotone(q + 1, k / per, per);
    MulMonotone(0, q, per);
    DivIs(q * per, per, q);
  }

  /** The page of the first clear bit is unused only if it is that page's first
      bit. */
  lemma FirstZeroStartsPage(bits: seq<bool>, per: nat, k: nat)
    requires per > 0 && k < |bits| && IsFirstZero(bits, k) && k % per != 0
    ensures NonEmpty(bits, per, k / per)
  {
    assert (k - 1) / per == k / per by {
      DivMod(k, per);
      DivIs(k - 1, per, k / per);
    }
    assert bits[k - 1];
  }

  // ---------------------------------------------------------------- frames

  /** The page table and the free list, for the pages that are attached. The
      last clause is what makes lookup by first match right: no lower entry,
      stale or not, names the frame of an attached page. */
  ghost predicate FramesOk(bits: seq<bool>, per: nat, page: seq<int>, free: seq<int>)
    requires per > 0
  {
    && |page| == NENTRIES
    && (forall p :: 1 <= p < NENTRIES ==> page[p] == 0 || IsFrame(page[p]))
    && (forall q :: 0 <= q < NENTRIES - 1 && Attached(bits, per, q) ==> IsFrame(page[q + 1]) && page[q + 1] !in free)
    && (forall q, p :: 0 <= q < NENTRIES - 1 && Attached(bits, per, q) && 1 <= p <= q ==> page[p] != page[q + 1])
  }

  /** The frames of the attached pages. */
  ghost function Owned(bits: seq<bool>, per: nat, page: seq<int>): set<int>
    requires per > 0 && |page| == NENTRIES
  {
    set q | 0 <= q < NENTRIES - 1 && Attached(bits, per, q) :: page[q + 1]
  }

  /** Opening page `k / per` with a free frame. */
  lemma OpenFramesOk(bits: seq<bool>, per: nat, page: seq<int>, free: seq<int>, k: nat, f: int)
    requires per > 0 && FramesOk(bits, per, page, [f] + free) && IsFrame(f) && f !in free
    requires k < |bits| && IsFirstZero(bits, k) && k / per < NENTRIES - 1
    requires !Attached(bits, per, k / per)
    ensures FramesOk(bits[k := true], per, page[k / per + 1 := f], free)
    ensures Owned(bits[k := true], per, page[k / per + 1 := f]) == Owned(bits, per, page) + {f}
  {
    var b, t := bits[k := true], page[k / per + 1 := f];
    var n := k / per;
    forall q
      ensures Attached(b, per, q) <==> q == n || Attached(bits, per, q)
    {
      SetNonEmpty(bits, per, k, q);
    }
    forall q, p | 0 <= q < NENTRIES - 1 && Attached(b, per, q) && 1 <= p <= q
      ensures t[p] != t[q + 1]
    {
      if q == n {
        EarlierPagesUsed(bits, per, k, p - 1);
        assert Attached(bits, per, p - 1);
        assert page[p - 1 + 1] !in [f] + free;
      } else {
        assert page[q + 1] !in [f] + free;
        assert page[p] != page[q + 1];
      }
    }
    forall x
      ensures x in Owned(b, per, t) <==> x in Owned(bits, per, page) + {f}
    {
      if x in Owned(bits, per, page) {
        var q :| 0 <= q < NENTRIES - 1 && Attached(bits, per, q) && page[q + 1] == x;
        assert t[q + 1] == x;
      }
      if x == f {
        assert t[n + 1] == f;
      }
    }
    forall q | 0 <= q < NENTRIES - 1 && Attached(b, per, q)
      ensures IsFrame(t[q + 1]) && t[q + 1] !in free
    {
      if q != n {
        assert page[q + 1] !in [f] + free;
      }
    }
  }

  lemma SameAttached(bits: seq<bool>, b: seq<bool>, per: nat, page: seq<int>, free: seq<int>)
    requires per > 0 && FramesOk(bits, per, page, free)
    requires forall q :: Attached(b, per, q) <==> Attached(bits, per, q)
    ensures FramesOk(b, per, page, free)
    ensures Owned(b, per, page) == Owned(bits, per, page)
  {
    forall x
      ensures x in Owned(b, per, page) <==> x in Owned(bits, per, page)
    {
      if x in Owned(bits, per, page) {
        var q :| 0 <= q < NENTRIES - 1 && Attached(bits, per, q) && page[q + 1] == x;
        assert Attached(b, per, q);
      }
      if x in Owned(b, per, page) {
        var q :| 0 <= q < NENTRIES - 1 && Attached(b, per, q) && page[q + 1] == x;
        assert Attached(bits, per, q);
      }
    }
  }

  /** Taking a bit of a page that is attached already. */
  lemma TakeFramesOk(bits: seq<bool>, per: nat, page: seq<int>, free: seq<int>, k: nat)
    requires per > 0 && FramesOk(bits, per, page, free)
    requires k < |bits| && Attached(bits, per, k / per)
    ensures FramesOk(bits[k := true], per, page, free)
    ensures Owned(bits[k := true], per, page) == Owned(bits, per, page)
  {
    forall q
      ensures Attached(bits[k := true], per, q) <==> Attached(bits, per, q)
    {
      SetNonEmpty(bits, per, k, q);
    }
    SameAttached(bits, bits[k := true], per, page, free);
  }

  /** Giving a bit back while its page stays attached. */
  lemma DropFramesOk(bits: seq<bool>, per: nat, page: seq<int>, free: seq<int>, k: nat)
    requires per > 0 && FramesOk(bits, per, page, free)
    requires k < |bits| && bits[k] && Attached(bits[k := false], per, k / per)
    ensures FramesOk(bits[k := false], per, page, free)
    ensures Owned(bits[k := false], per, page) == Owned(bits, per, page)
  {
    forall q
      ensures Attached(bits[k := false], per, q) <==> Attached(bits, per, q)
    {
      if q != k / per {
        ClearNonEmpty(bits, per, k, q);
      } else {
        assert bits[k] && k / per == q;
      }
    }
    SameAttached(bits, bits[k := false], per, page, free);
  }

  /** Giving the last bit of a page back: its frame becomes free and its entry
      in the page table stale. */
  lemma CloseFramesOk(bits: seq<bool>, per: nat, page: seq<int>, free: seq<int>, k: nat)
    requires per > 0 && FramesOk(bits, per, page, free)
    requires k < |bits| && bits[k] && k / per < NENTRIES - 1 && !Attached(bits[k := false], per, k / per)
    ensures FramesOk(bits[k := false], per, page, [page[k / per + 1]] + free)
    ensures Owned(bits[k := false], per, page) == Owned(bits, per, page) - {page[k / per + 1]}
  {
    var b, n := bits[k := false], k / per;
    var f := page[n + 1];
    assert Attached(bits, per, n) by {
      assert bits[k] && k / per == n;
    }
    forall q
      ensures Attached(b, per, q) <==> q != n && Attached(bits, per, q)
    {
      if q != n {
        ClearNonEmpty(bits, per, k, q);
      }
    }
    forall q | 0 <= q < NENTRIES - 1 && Attached(b, per, q)
      ensures page[q + 1] != f
    {
      assert page[if q < n then q + 1 else n + 1] != page[if q < n then n + 1 else q + 1];
    }
    forall x
      ensures x in Owned(b, per, page) <==> x in Owned(bits, per, page) - {f}
    {
      if x in Owned(bits, per, page) - {f} {
        var q :| 0 <= q < NENTRIES - 1 && Attached(bits, per, q) && page[q + 1] == x;
        assert Attached(b, per, q);
      }
    }
  }
}
