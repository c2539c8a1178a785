/** The slab allocator of src/slab.c: the bitmap scans of one slab, `kmalloc` and
    `kmfree` on the table of slabs. */
module SlabAllocator {
  import opened Arith
  import opened Bits
  import opened Frames
  import opened SlabModel
  import opened SlabSizes

  type Byte = b: nat | b < 256

  /** A byte read through a plain `char`, which is signed. */
  function Char(b: Byte): int {
    if b < 128 then b else b - 256
  }

  /** The bits of a bitmap, row by row. */
  ghost function BitsOf(bm: seq<Byte>): (bits: seq<bool>)
    ensures |bits| == 8 * |bm|
    ensures forall k :: 0 <= k < |bits| ==> bits[k] == BitAt(bm[k / 8], k % 8)
  {
    seq(8 * |bm|, k requires 0 <= k < 8 * |bm| => BitAt(bm[k / 8], k % 8))
  }

  lemma ByteOps(b: Byte, i: nat)
    requires i < 8
    ensures SetBit(b, i) < 256 && ClearBit(b, i) < 256
  {
    assert Pow2(8) == 256 by {
      assert Pow2(5) == 32;
    }
    ComplementBit(8, i, 0);
    OrBelow(b, Pow2(i), 8);
    AndBelow(b, Pow2(8) - 1 - Pow2(i));
  }

  lemma BitOfRow(bm: seq<Byte>, row: nat, col: nat)
    requires row < |bm| && col < 8
    ensures BitsOf(bm)[8 * row + col] == GetBit(bm[row], col)
  {
    GetBitIs(bm[row], col);
    assert (8 * row + col) / 8 == row && (8 * row + col) % 8 == col;
  }

  lemma SetBits(bm: seq<Byte>, row: nat, col: nat)
    requires row < |bm| && col < 8
    ensures SetBit(bm[row], col) < 256
    ensures BitsOf(bm[row := SetBit(bm[row], col)]) == BitsOf(bm)[8 * row + col := true]
  {
    ByteOps(bm[row], col);
    var t := bm[row := SetBit(bm[row], col)];
    forall k | 0 <= k < 8 * |bm|
      ensures BitsOf(t)[k] == BitsOf(bm)[8 * row + col := true][k]
    {
      if k / 8 == row {
        SetBitIs(bm[row], col, k % 8);
      }
    }
  }

  lemma ClearBits(bm: seq<Byte>, row: nat, col: nat)
    requires row < |bm| && col < 8
    ensures ClearBit(bm[row], col) < 256
    ensures BitsOf(bm[row := ClearBit(bm[row], col)]) == BitsOf(bm)[8 * row + col := false]
  {
    ByteOps(bm[row], col);
    var t := bm[row := ClearBit(bm[row], col)];
    forall k | 0 <= k < 8 * |bm|
      ensures BitsOf(t)[k] == BitsOf(bm)[8 * row + col := false][k]
    {
      if k / 8 == row {
        ClearBitIs(bm[row], col, k % 8);
      }
    }
  }

  /** A row is zero exactly when its eight bits are clear. */
  lemma ZeroRow(bm: seq<Byte>, row: nat)
    requires row < |bm|
    ensures bm[row] == 0 ==> forall k :: 8 * row <= k < 8 * row + 8 ==> !BitsOf(bm)[k]
    ensures bm[row] != 0 ==> exists k :: 8 * row <= k < 8 * row + 8 && BitsOf(bm)[k]
  {
    if bm[row] == 0 {
      forall k | 8 * row <= k < 8 * row + 8
        ensures !BitsOf(bm)[k]
      {
        BitAtZero(k - 8 * row);
        assert k / 8 == row && k % 8 == k - 8 * row;
      }
    } else {
      var i := NonZeroByte(bm[row]);
      assert (8 * row + i) / 8 == row && (8 * row + i) % 8 == i;
      assert BitsOf(bm)[8 * row + i];
    }
  }

  /** The object size and the objects per page of slab `idx`. */
  predicate Shape(idx: nat, size: nat, per: int) {
    && idx < NSLAB
    && size == Pow2(idx + 3)
    && per > 0 && per == PGSIZE / size
  }

  lemma ShapeCases(idx: nat, size: nat, per: nat)
    requires Shape(idx, size, per)
    ensures (idx, size, per) in {(0, 8, 512), (1, 16, 256), (2, 32, 128), (3, 64, 64), (4, 128, 32), (5, 256, 16), (6, 512, 8), (7, 1024, 4), (8, 2048, 2)}
    ensures size * per == PGSIZE
  {
    Powers(idx);
  }

  lemma Powers(idx: nat)
    requires idx < NSLAB
    ensures (idx, Pow2(idx + 3)) in {(0, 8), (1, 16), (2, 32), (3, 64), (4, 128), (5, 256), (6, 512), (7, 1024), (8, 2048)}
  {
    assert Pow2(3) == 8 && Pow2(4) == 16 && Pow2(5) == 32;
    assert Pow2(6) == 64 && Pow2(7) == 128 && Pow2(8) == 256;
    assert Pow2(9) == 512 && Pow2(10) == 1024 && Pow2(11) == 2048;
    assert idx == 0 || idx == 1 || idx == 2 || idx == 3 || idx == 4 || idx == 5 || idx == 6 || idx == 7 || idx == 8;
  }

  /** How many pages a slab may grow to: the bitmap of the smallest class has
      bits for 64 pages only. */
  function MaxPages(idx: nat): nat {
    if idx == 0 then 64 else 100
  }

  /** The bits of page `q` fill whole rows or lie in one row. */
  lemma PageRows(idx: nat, size: nat, per: nat, q: nat)
    requires Shape(idx, size, per) && q * per + per <= NBITS
    ensures (q * per % 8 == 0 && (q * per + per - 1) % 8 == 7) || q * per / 8 == (q * per + per - 1) / 8
  {
    ShapeCases(idx, size, per);
    if per == 2 {
      DivMod(q, 4);
      DivIs(2 * q, 8, q / 4);
      DivIs(2 * q + 1, 8, q / 4);
    } else if per == 4 {
      DivMod(q, 2);
      DivIs(4 * q, 8, q / 2);
      DivIs(4 * q + 3, 8, q / 2);
    } else {
      RowsOf(per, q);
      RowAligned(q * (per / 8), per);
    }
  }

  lemma RowAligned(x: nat, per: nat)
    requires per in {8, 16, 32, 64, 128, 256, 512}
    ensures 8 * x % 8 == 0 && (8 * x + per - 1) % 8 == 7
  {
  }

  lemma RowsOf(per: nat, q: nat)
    requires per in {8, 16, 32, 64, 128, 256, 512}
    ensures q * per == 8 * (q * (per / 8))
  {
    assert per == 8 * (per / 8);
    assert q * (8 * (per / 8)) == 8 * (q * (per / 8));
  }

  /** A page holds a live object exactly when one of its bits is set. */
  lemma PageRange(bits: seq<bool>, per: nat, q: nat)
    requires per > 0 && q * per + per <= |bits|
    ensures NonEmpty(bits, per, q) <==> exists i :: q * per <= i < q * per + per && bits[i]
  {
    if NonEmpty(bits, per, q) {
      var i :| 0 <= i < |bits| && bits[i] && i / per == q;
      DivMod(i, per);
    }
    if exists i :: q * per <= i < q * per + per && bits[i] {
      var i :| q * per <= i < q * per + per && bits[i];
      DivIs(i, per, q);
    }
  }

  lemma PagesFit(idx: nat, size: nat, per: nat, q: nat)
    requires Shape(idx, size, per) && q < NBITS / per
    ensures q * per + per <= NBITS
  {
    ShapeCases(idx, size, per);
    assert NBITS == NBITS / per * per;
    MulMonotone(q + 1, NBITS / per, per);
  }

  lemma RowsPerPage(idx: nat, size: nat, per: nat)
    requires Shape(idx, size, per) && per >= 8
    ensures 512 / size > 0 && 8 * (512 / size) == per && PGSIZE == NBITS / per * (512 / size)
  {
    ShapeCases(idx, size, per);
  }

  lemma PageOfBit(idx: nat, size: nat, per: nat, k: nat)
    requires Shape(idx, size, per) && k < NBITS
    ensures k / per < NBITS / per
  {
    ShapeCases(idx, size, per);
  }

  /** `struct slab` */
  class Slab {
    const idx: nat
    const size: nat
    const perPage: nat
    var numPages: int
    var numFree: int
    var numUsed: int
    const bitmap: array<Byte>
    const page: array<int>

    ghost function Bits(): (bits: seq<bool>)
      reads this, bitmap
      ensures |bits| == 8 * bitmap.Length
    {
      BitsOf(bitmap[..])
    }

    /** Shape of the data, whatever the contents. */
    predicate Sized() {
      Shape(idx, size, perPage) && bitmap.Length == PGSIZE && page.Length == NENTRIES
    }

    /** slabinit for one slab: a frame for the bitmap, which is cleared, and one
        for the first page. */
    constructor (idx: nat, kmem: FrameList)
      requires idx < NSLAB && kmem.Valid() && |kmem.frames| >= 2
      modifies kmem
      ensures this.idx == idx && Valid(kmem.frames) && kmem.Valid()
      ensures fresh(bitmap) && fresh(page)
      ensures numUsed == 0 && numPages == 1
      ensures old(kmem.frames)[2..] == kmem.frames
      ensures page[1] == old(kmem.frames)[1] && Owned(Bits(), perPage, page[..]) == {page[1]}
    {
      this.idx := idx;
      var x := Pow2(idx + 3);
      PowShape(idx, x);
      size := x;
      perPage := PGSIZE / x;
      numUsed := 0;
      numFree := PGSIZE / x * MaxPages(idx);
      bitmap := new Byte[PGSIZE](_ => 0);
      page := new int[NENTRIES](_ => 0);
      numPages := 1;
      new;
      var forBitmap := kmem.Kalloc();
      page[1] := kmem.Kalloc();
      NoBits(bitmap[..]);
      FreshSlab(Bits(), perPage, page[..], kmem.frames, NBITS / perPage);
    }

    /** setBitmap: first fit. */
    method SetBitmap(ghost k: nat) returns (off: nat)
      requires Sized() && IsFirstZero(Bits(), k)
      modifies bitmap
      ensures k < NBITS ==> off == k && Bits() == old(Bits())[k := true]
      ensures k == NBITS ==> off == 0 && Bits() == old(Bits())
    {
      var j := 0;
      while j < PGSIZE
        invariant 0 <= j <= PGSIZE && 8 * j <= k
        invariant bitmap[..] == old(bitmap[..])
      {
        if Char(bitmap[j]) != 0xFF {
          var c := 0;
          while c <= 7
            invariant 0 <= c <= 8 && 8 * j + c <= k
            invariant bitmap[..] == old(bitmap[..])
          {
            BitOfRow(bitmap[..], j, c);
            if !GetBit(bitmap[j], c) {
              SetBits(bitmap[..], j, c);
              ghost var bm := bitmap[..];
              bitmap[j] := SetBit(bitmap[j], c);
              assert bitmap[..] == bm[j := SetBit(bm[j], c)];
              return 8 * j + c;
            }
            c := c + 1;
          }
        }
        j := j + 1;
      }
      return 0;
    }

    /** clearBitmap */
    method ClearBitmap(off: nat) returns (cleared: bool)
      requires Sized() && off < NBITS
      modifies bitmap
      ensures cleared == old(Bits())[off]
      ensures Bits() == old(Bits())[off := false]
    {
      var row := off / 8;
      var column := off % 8;
      BitOfRow(bitmap[..], row, column);
      ClearBits(bitmap[..], row, column);
      cleared := true;
      ghost var bm := bitmap[..];
      if GetBit(bitmap[row], column) {
        bitmap[row] := ClearBit(bitmap[row], column);
        assert bitmap[..] == bm[row := ClearBit(bm[row], column)];
      } else {
        cleared := false;
      }
    }

    /** checkEmpty: the rectangle of rows and columns it scans is the linear
        range of bits, because a page's bits fill whole rows or lie in one. */
    method CheckEmpty(start: nat, end: nat) returns (empty: bool)
      requires Sized() && start <= end < NBITS
      requires (start % 8 == 0 && end % 8 == 7) || start / 8 == end / 8
      ensures empty <==> forall i :: start <= i <= end ==> !Bits()[i]
    {
      empty := true;
      var startRow := start / 8;
      var startColumn := start % 8;
      var endRow := end / 8;
      var endColumn := end % 8;
      var i := startRow;
      while i <= endRow
        invariant startRow <= i <= endRow + 1
        invariant empty && forall k :: start <= k <= end && k < 8 * i ==> !Bits()[k]
      {
        var j := startColumn;
        while j <= endColumn
          invariant startColumn <= j <= endColumn + 1
          invariant empty && forall k :: start <= k <= end && k < 8 * i + j ==> !Bits()[k]
        {
          BitOfRow(bitmap[..], i, j);
          if GetBit(bitmap[i], j) {
            empty := false;
            assert Bits()[8 * i + j];
            break;
          }
          j := j + 1;
        }
        if !empty {
          break;
        }
        i := i + 1;
      }
    }
  
    /** checkNewpage: the offset of the first clear bit if that bit opens a page
        of which no object is live, else 0. */
    method CheckNewpage(ghost k: nat) returns (start: nat)
      requires Sized() && IsFirstZero(Bits(), k) && k < NBITS
      ensures start == if k % perPage == 0 && !NonEmpty(Bits(), perPage, k / perPage) then k else 0
    {
      var cnt := CountLeadingOnes(k);
      start := 0;
      if cnt % perPage == 0 {
        var startOffset := cnt / perPage * perPage;
        PageOfBit(idx, size, perPage, cnt);
        var empty := PageEmpty(cnt / perPage);
        if empty {
          return startOffset;
        }
      }
    }

    /** checkEmpty on the bits of one page, as its two callers use it. */
    method PageEmpty(q: nat) returns (empty: bool)
      requires Sized() && q < NBITS / perPage
      ensures empty <==> !NonEmpty(Bits(), perPage, q)
    {
      var startOffset := q * perPage;
      var endOffset := startOffset + perPage - 1;
      PagesFit(idx, size, perPage, q);
      PageRows(idx, size, perPage, q);
      PageRange(Bits(), perPage, q);
      empty := CheckEmpty(startOffset, endOffset);
    }

    /** The counting loops of checkNewpage. */
    method CountLeadingOnes(ghost k: nat) returns (cnt: nat)
      requires Sized() && IsFirstZero(Bits(), k) && k < NBITS
      ensures cnt == k
    {
      cnt := 0;
      var find0 := false;
      var i := 0;
      while i < PGSIZE
        invariant 0 <= i <= PGSIZE && !find0 && cnt == 8 * i <= k
      {
        var j := 0;
        while j <= 7
          invariant 0 <= j <= 8 && !find0 && cnt == 8 * i + j <= k
        {
          BitOfRow(bitmap[..], i, j);
          if GetBit(bitmap[i], j) {
            cnt := cnt + 1;
          } else {
            find0 := true;
            break;
          }
          j := j + 1;
        }
        if find0 {
          break;
        }
        i := i + 1;
      }
    }

    /** getpageNum, as a recount of the pages that hold a live object. */
    method GetPageNum() returns (n: nat)
      requires Sized()
      ensures n == PagesUsed(Bits(), perPage, NBITS / perPage)
    {
      ShapeCases(idx, size, perPage);
      if size >= 1024 {
        n := PagesWithinRows();
      } else {
        n := PagesOfRows();
      }
    }

    /** getpageNum for objects of 1024 and 2048 bytes: several pages to a row. */
    method PagesWithinRows() returns (n: nat)
      requires bitmap.Length == PGSIZE && (perPage == 2 || perPage == 4)
      ensures n == PagesUsed(Bits(), perPage, NBITS / perPage)
    {
      n := 0;
      var i := 0;
      while i < PGSIZE
        invariant 0 <= i <= PGSIZE
        invariant n == PagesUsed(Bits(), perPage, i * (8 / perPage))
      {
        var j := 0;
        ghost var q := i * (8 / perPage);
        while j <= 7
          invariant 0 <= j <= 8 && j % perPage == 0
          invariant q == i * (8 / perPage) + j / perPage
          invariant n == PagesUsed(Bits(), perPage, q)
          decreases 8 - j
        {
          var used := GroupUsed(i, j, q);
          if used {
            n := n + 1;
          }
          j := j + perPage;
          q := q + 1;
        }
        i := i + 1;
      }
    }

    /** The innermost loop over one group of columns. */
    method GroupUsed(i: nat, j: nat, ghost q: nat) returns (used: bool)
      requires bitmap.Length == PGSIZE && i < PGSIZE && (perPage == 2 || perPage == 4)
      requires j % perPage == 0 && j <= 7 && q == i * (8 / perPage) + j / perPage
      ensures used <==> NonEmpty(Bits(), perPage, q)
    {
      assert q * perPage == 8 * i + j;
      PageRange(Bits(), perPage, q);
      var k := j;
      while k < j + perPage
        invariant j <= k <= j + perPage
        invariant forall x :: 8 * i + j <= x < 8 * i + k ==> !Bits()[x]
      {
        BitOfRow(bitmap[..], i, k);
        if GetBit(bitmap[i], k) {
          assert Bits()[8 * i + k];
          return true;
        }
        k := k + 1;
      }
      return false;
    }

    /** getpageNum for smaller objects: a page's bits fill whole rows. */
    method PagesOfRows() returns (n: nat)
      requires Sized() && perPage >= 8
      ensures n == PagesUsed(Bits(), perPage, NBITS / perPage)
    {
      RowsPerPage(idx, size, perPage);
      n := 0;
      var rows := 512 / size;
      var i := 0;
      ghost var q := 0;
      while i < PGSIZE
        invariant 0 <= i <= PGSIZE && 0 <= q <= NBITS / perPage && i == q * rows
        invariant n == PagesUsed(Bits(), perPage, q)
        decreases PGSIZE - i
      {
        StepRows(q, rows, NBITS / perPage);
        var used := RowsUsed(i, rows, q);
        if used {
          n := n + 1;
        }
        i := i + rows;
        q := q + 1;
      }
      StepRows(q, rows, NBITS / perPage);
    }

    /** The inner loop over the rows of one page. */
    method RowsUsed(i: nat, rows: nat, ghost q: nat) returns (used: bool)
      requires bitmap.Length == PGSIZE && rows > 0 && perPage == 8 * rows && i == q * rows && i + rows <= PGSIZE
      ensures used <==> NonEmpty(Bits(), perPage, q)
    {
      assert q * perPage == 8 * i;
      PageRange(Bits(), perPage, q);
      var j := i;
      while j < i + rows
        invariant i <= j <= i + rows
        invariant forall x :: 8 * i <= x < 8 * j ==> !Bits()[x]
      {
        ZeroRow(bitmap[..], j);
        if bitmap[j] != 0 {
          return true;
        }
        j := j + 1;
      }
      return false;
    }

    // ------------------------------------------------------ allocate and free

    /** Bookkeeping agrees with a recount, and the frames are in order. */
    ghost predicate Valid(free: seq<int>)
      reads this, bitmap, page
    {
      && Sized()
      && FramesOk(Bits(), perPage, page[..], free)
      && numUsed == Count(Bits())
      && numFree == perPage * MaxPages(idx) - numUsed
      && numPages == PagesAttached(Bits(), perPage, NBITS / perPage)
      && (forall k :: perPage * MaxPages(idx) <= k < NBITS ==> !Bits()[k])
    }

    /** Object `k` is live in page `q` at `addr`. */
    ghost predicate LiveAt(k: nat, q: nat, addr: int)
      requires Sized()
      reads this, bitmap, page
    {
      k < NBITS && Bits()[k] && InPage(page[..], size, perPage, k, q, addr)
    }

    /** The next allocation has to attach a frame. */
    ghost predicate NeedsFrame()
      requires Sized()
      reads this, bitmap
    {
      !Attached(Bits(), perPage, FirstClear(Bits()) / perPage)
    }

    /** kmalloc between taking and releasing the lock: the first object that is
        not live, `k`, becomes live in its page `q`, in a frame just attached if
        the page had none. */
    method Alloc(kmem: FrameList, ghost k: nat, ghost q: nat) returns (addr: int)
      requires Valid(kmem.frames) && kmem.Valid()
      requires numUsed < perPage * MaxPages(idx)
      requires IsFirstZero(Bits(), k) && q == k / perPage
      requires !Attached(Bits(), perPage, q) ==> kmem.frames != []
      modifies this, bitmap, page, kmem
      ensures Valid(kmem.frames) && kmem.Valid() && q + 1 < NENTRIES && k < NBITS
      ensures Bits() == old(Bits())[k := true] && LiveAt(k, q, addr)
      ensures old(Attached(Bits(), perPage, q)) ==> page[..] == old(page[..]) && kmem.frames == old(kmem.frames)
      ensures !old(Attached(Bits(), perPage, q)) ==>
                && page[..] == old(page[..])[q + 1 := page[q + 1]]
                && old(kmem.frames) == [page[q + 1]] + kmem.frames
      ensures forall f :: f in Owned(Bits(), perPage, page[..]) ==> f in old(Owned(Bits(), perPage, page[..])) || f in old(kmem.frames)
    {
      CountPrefix(Bits(), k);
      PageInTable(idx, size, perPage, k, q);
      AttachPage(kmem, k, q);
      addr := TakeBit(kmem.frames, k, q);
    }

    /** The first half of kmalloc: attach a frame if the object's page has none. */
    method AttachPage(kmem: FrameList, ghost k: nat, ghost q: nat)
      requires Sized() && kmem.Valid() && FramesOk(Bits(), perPage, page[..], kmem.frames)
      requires IsFirstZero(Bits(), k) && k < NBITS && q == k / perPage && q + 1 < NENTRIES && numUsed >= k
      requires !Attached(Bits(), perPage, q) ==> kmem.frames != []
      modifies page, kmem
      ensures kmem.Valid() && FramesOk(Bits()[k := true], perPage, page[..], kmem.frames)
      ensures Attached(Bits(), perPage, q) ==> page[..] == old(page[..]) && kmem.frames == old(kmem.frames)
      ensures !Attached(Bits(), perPage, q) ==>
                && page[..] == old(page[..])[q + 1 := page[q + 1]]
                && old(kmem.frames) == [page[q + 1]] + kmem.frames
      ensures forall f :: f in Owned(Bits()[k := true], perPage, page[..]) ==> f in old(Owned(Bits(), perPage, page[..])) || f in old(kmem.frames)
    {
      ghost var bits, pages := Bits(), page[..];
      PageState(bits, perPage, k, q);
      var startOffset := CheckNewpage(k);
      if startOffset != 0 && numUsed != 0 {
        OpenPage(kmem, startOffset / perPage + 1, k, q);
      } else {
        TakeFramesOk(bits, perPage, pages, kmem.frames, k);
      }
    }

    /** A frame from the free list goes into the page table. */
    method OpenPage(kmem: FrameList, p: nat, ghost k: nat, ghost q: nat)
      requires Sized() && kmem.Valid() && FramesOk(Bits(), perPage, page[..], kmem.frames)
      requires IsFirstZero(Bits(), k) && k < NBITS && q == k / perPage && p == q + 1 && q + 1 < NENTRIES
      requires !Attached(Bits(), perPage, q) && kmem.frames != []
      modifies page, kmem
      ensures kmem.Valid() && FramesOk(Bits()[k := true], perPage, page[..], kmem.frames)
      ensures page[..] == old(page[..])[q + 1 := page[q + 1]]
      ensures old(kmem.frames) == [page[q + 1]] + kmem.frames
      ensures Owned(Bits()[k := true], perPage, page[..]) == old(Owned(Bits(), perPage, page[..])) + {page[q + 1]}
    {
      ghost var bits, pages := Bits(), page[..];
      var f := kmem.Kalloc();
      OpenFramesOk(bits, perPage, pages, kmem.frames, k, f);
      page[p] := f;
      assert page[..] == pages[q + 1 := f];
    }

    /** The second half of kmalloc: take the bit, recount, return the address. */
    method TakeBit(ghost free: seq<int>, ghost k: nat, ghost q: nat) returns (addr: int)
      requires Sized() && IsFirstZero(Bits(), k) && k < perPage * MaxPages(idx) && k < NBITS
      requires q == k / perPage && q + 1 < NENTRIES
      requires FramesOk(Bits()[k := true], perPage, page[..], free)
      requires numUsed == Count(Bits()) && numFree == perPage * MaxPages(idx) - numUsed
      requires forall k :: perPage * MaxPages(idx) <= k < NBITS ==> !Bits()[k]
      modifies this, bitmap
      ensures Valid(free) && Bits() == old(Bits())[k := true] && LiveAt(k, q, addr)
    {
      CountUpdate(Bits(), k, true);
      FirstFitUsesFirstPage(Bits(), perPage, k);
      var bitOffset := SetBitmap(k);
      numPages := GetPageNum();
      numFree := numFree - 1;
      numUsed := numUsed + 1;
      var nowpage := bitOffset / perPage + 1;
      var pageOffset := bitOffset % perPage * size;
      assert nowpage == q + 1;
      addr := page[nowpage] + pageOffset;
    }

    /** The loop of kmfree that looks an address up: the first entry that matches
        is the page that kmalloc used, whatever stale entries there are. */
    method FindPage(addr: int, ghost free: seq<int>, ghost k: nat, ghost q: nat) returns (pageNum: nat)
      requires Valid(free) && LiveAt(k, q, addr)
      ensures pageNum == q + 1
    {
      FirstMatch(Bits(), perPage, page[..], free, idx, size, k, q, addr);
      pageNum := 0;
      var i := 1;
      while i <= 100
        invariant 1 <= i <= q + 1
      {
        if addr - page[i] >= 0 && addr - page[i] < PGSIZE {
          pageNum := i;
          break;
        }
        i := i + 1;
      }
    }

    /** The number of the object at `addr`, which lies in table entry `pageNum`. */
    method ObjectAt(addr: int, pageNum: nat, ghost k: nat, ghost q: nat) returns (offset: nat)
      requires Sized() && LiveAt(k, q, addr) && pageNum == q + 1
      ensures offset == k
    {
      SameOffset(idx, size, perPage, page[..], k, q, addr);
      offset := (pageNum - 1) * perPage + (addr - page[pageNum]) / size;
    }

    /** kmfree's bitmap operation and counters. */
    method ReleaseBit(off: nat)
      requires Sized() && off < NBITS && numUsed == Count(Bits())
      modifies this`numUsed, this`numFree, bitmap
      ensures Bits() == old(Bits())[off := false] && numUsed == Count(Bits())
      ensures numUsed + numFree == old(numUsed + numFree)
    {
      CountUpdate(Bits(), off, false);
      var cleared := ClearBitmap(off);
      if cleared {
        numFree := numFree + 1;
        numUsed := numUsed - 1;
      }
    }

    /** kmfree's last part: give the frame back if nothing in the page is live. */
    method ReleasePage(kmem: FrameList, pageNum: nat)
      requires Sized() && kmem.Valid() && 1 <= pageNum < NENTRIES && pageNum - 1 < NBITS / perPage
      requires IsFrame(page[pageNum]) && page[pageNum] !in kmem.frames
      modifies this`numPages, kmem
      ensures kmem.Valid()
      ensures kmem.frames == (if Attached(Bits(), perPage, pageNum - 1) then [] else [page[pageNum]]) + old(kmem.frames)
      ensures numPages == old(numPages) - if Attached(Bits(), perPage, pageNum - 1) then 0 else 1
    {
      var empty := PageEmpty(pageNum - 1);
      if pageNum != 1 && empty {
        kmem.Kfree(page[pageNum]);
        numPages := numPages - 1;
      }
    }

    /** kmfree between taking and releasing the lock, for a live object: exactly
        its bit is cleared, and its frame is given back if it was the last
        object of a page other than the first. */
    method Free(kmem: FrameList, addr: int, ghost k: nat, ghost q: nat)
      requires Valid(kmem.frames) && kmem.Valid()
      requires numUsed != 0 ==> LiveAt(k, q, addr)
      modifies this, bitmap, kmem
      ensures Valid(kmem.frames) && kmem.Valid()
      ensures old(numUsed) == 0 ==> Bits() == old(Bits()) && kmem.frames == old(kmem.frames)
      ensures old(numUsed) != 0 ==>
                && k < NBITS && q + 1 < NENTRIES
                && Bits() == old(Bits())[k := false]
                && kmem.frames == (if Attached(Bits(), perPage, q) then [] else [page[q + 1]]) + old(kmem.frames)
                && page[q + 1] in old(Owned(Bits(), perPage, page[..]))
      ensures forall f :: f in Owned(Bits(), perPage, page[..]) ==> f in old(Owned(Bits(), perPage, page[..]))
    {
      if numUsed != 0 {
        FreeLive(kmem, addr, k, q);
      }
    }

    method FreeLive(kmem: FrameList, addr: int, ghost k: nat, ghost q: nat)
      requires Valid(kmem.frames) && kmem.Valid() && numUsed != 0 && LiveAt(k, q, addr)
      modifies this, bitmap, kmem
      ensures Valid(kmem.frames) && kmem.Valid()
      ensures k < NBITS && q + 1 < NENTRIES && Bits() == old(Bits())[k := false]
      ensures kmem.frames == (if Attached(Bits(), perPage, q) then [] else [page[q + 1]]) + old(kmem.frames)
      ensures page[q + 1] in old(Owned(Bits(), perPage, page[..]))
      ensures forall f :: f in Owned(Bits(), perPage, page[..]) ==> f in old(Owned(Bits(), perPage, page[..]))
    {
      hide FramesOk, PagesAttached, Count, Owned, Attached;
      var pageNum := FindPage(addr, kmem.frames, k, q);
      var offset := ObjectAt(addr, pageNum, k, q);
      ghost var bits, pages, free := Bits(), page[..], kmem.frames;
      PageOfBit(idx, size, perPage, k);
      FreedOk(bits, perPage, pages, free, k, q, NBITS / perPage);
      ReleaseBit(offset);
      ReleasePage(kmem, pageNum);
    }
  }

  /** Object `k` belongs to page `q`, whose frame puts it at `addr`. */
  ghost predicate InPage(page: seq<int>, size: nat, per: nat, k: nat, q: nat, addr: int)
    requires per > 0
  {
    && q == k / per
    && q + 1 < |page|
    && addr == page[q + 1] + k % per * size
  }

  /** The frames and the page count after object `k` is freed. */
  lemma FreedOk(bits: seq<bool>, per: nat, page: seq<int>, free: seq<int>, k: nat, q: nat, n: nat)
    requires per > 0 && FramesOk(bits, per, page, free)
    requires k < |bits| && bits[k] && q == k / per && q + 1 < NENTRIES && q < n
    ensures IsFrame(page[q + 1]) && page[q + 1] !in free
    ensures FramesOk(bits[k := false], per, page, (if Attached(bits[k := false], per, q) then [] else [page[q + 1]]) + free)
    ensures PagesAttached(bits[k := false], per, n) == PagesAttached(bits, per, n) - if Attached(bits[k := false], per, q) then 0 else 1
    ensures page[q + 1] in Owned(bits, per, page) && Owned(bits[k := false], per, page) <= Owned(bits, per, page)
  {
    assert Attached(bits, per, q) by {
      assert bits[k] && k / per == q;
    }
    ClearPagesUsed(bits, per, k, n);
    if q != 0 {
      ClearNonEmpty(bits, per, k, 0);
    } else {
      assert bits[k] && k / per == 0;
    }
    assert [] + free == free;
    if Attached(bits[k := false], per, q) {
      DropFramesOk(bits, per, page, free, k);
    } else {
      CloseFramesOk(bits, per, page, free, k);
    }
  }

  lemma ObjectInFrame(idx: nat, size: nat, per: nat, k: nat)
    requires Shape(idx, size, per)
    ensures 0 <= k % per * size && k % per * size + size <= PGSIZE
  {
    ShapeCases(idx, size, per);
    DivMod(k, per);
    MulMonotone(k % per + 1, per, size);
    MulMonotone(0, k % per, size);
  }

  /** Lookup by first match is right in spite of stale entries. */
  lemma FirstMatch(bits: seq<bool>, per: nat, page: seq<int>, free: seq<int>, idx: nat, size: nat, k: nat, q: nat, addr: int)
    requires Shape(idx, size, per) && FramesOk(bits, per, page, free)
    requires k < |bits| && bits[k] && InPage(page, size, per, k, q, addr)
    ensures 0 <= addr - page[q + 1] < PGSIZE
    ensures forall p :: 1 <= p <= q ==> !(0 <= addr - page[p] < PGSIZE)
  {
    ObjectInFrame(idx, size, per, k);
    assert Attached(bits, per, q) by {
      assert bits[k] && k / per == q;
    }
    forall p | 1 <= p <= q
      ensures !(0 <= addr - page[p] < PGSIZE)
    {
      assert page[p] != page[q + 1];
      SameFrame(page[p], page[q + 1], addr);
    }
  }

  /** An address lies in one page only. */
  lemma SameFrame(a: int, b: int, addr: int)
    requires a % PGSIZE == 0 && b % PGSIZE == 0
    requires 0 <= addr - b < PGSIZE && a != b
    ensures !(0 <= addr - a < PGSIZE)
  {
  }

  /** The offset that kmfree computes from the address is the bit of kmalloc. */
  lemma SameOffset(idx: nat, size: nat, per: nat, page: seq<int>, k: nat, q: nat, addr: int)
    requires Shape(idx, size, per) && InPage(page, size, per, k, q, addr)
    ensures q * per + (addr - page[q + 1]) / size == k
  {
    DivIs(k % per * size, size, k % per);
    DivMod(k, per);
  }

  lemma PowShape(idx: nat, x: nat)
    requires idx < NSLAB && x == Pow2(idx + 3)
    ensures x > 0 && Shape(idx, x, PGSIZE / x) && NBITS / (PGSIZE / x) > 0
  {
    Powers(idx);
  }

  lemma NoBits(bm: seq<Byte>)
    requires forall i :: 0 <= i < |bm| ==> bm[i] == 0
    ensures forall k :: 0 <= k < 8 * |bm| ==> !BitsOf(bm)[k]
    ensures Count(BitsOf(bm)) == 0
  {
    forall k | 0 <= k < 8 * |bm|
      ensures !BitsOf(bm)[k]
    {
      BitAtZero(k % 8);
    }
    CountZero(BitsOf(bm));
  }

  lemma {:induction false} NoPages(bits: seq<bool>, per: nat, n: nat)
    requires per > 0 && forall k :: 0 <= k < |bits| ==> !bits[k]
    ensures PagesUsed(bits, per, n) == 0
  {
    if n > 0 {
      NoPages(bits, per, n - 1);
    }
  }

  /** A slab without live objects has exactly its first page attached. */
  lemma FreshSlab(bits: seq<bool>, per: nat, page: seq<int>, free: seq<int>, n: nat)
    requires per > 0 && n > 0 && forall k :: 0 <= k < |bits| ==> !bits[k]
    requires |page| == NENTRIES && IsFrame(page[1]) && page[1] !in free
    requires forall p :: 2 <= p < NENTRIES ==> page[p] == 0
    ensures FramesOk(bits, per, page, free) && PagesAttached(bits, per, n) == 1
    ensures Owned(bits, per, page) == {page[1]}
  {
    NoPages(bits, per, n);
    assert forall q :: Attached(bits, per, q) <==> q == 0;
    forall x
      ensures x in Owned(bits, per, page) <==> x == page[1]
    {
      if x == page[1] {
        assert Attached(bits, per, 0) && page[0 + 1] == x;
      }
    }
  }

  /** Which of the two ways kmalloc goes: a page that is not attached is opened
      with its first bit. */
  lemma PageState(bits: seq<bool>, per: nat, k: nat, q: nat)
    requires per > 0 && k < |bits| && IsFirstZero(bits, k) && q == k / per
    ensures !Attached(bits, per, q) <==> k != 0 && k % per == 0 && !NonEmpty(bits, per, q)
  {
    if k % per != 0 {
      FirstZeroStartsPage(bits, per, k);
    } else {
      DivMod(k, per);
    }
  }

  /** The bits below the limit fall into pages that the table has entries for. */
  lemma PageInTable(idx: nat, size: nat, per: nat, k: nat, q: nat)
    requires Shape(idx, size, per) && k < per * MaxPages(idx) && q == k / per
    ensures q + 1 < NENTRIES && k < NBITS
  {
    ShapeCases(idx, size, per);
  }

  lemma StepRows(q: nat, rows: nat, pages: nat)
    requires rows > 0 && q <= pages
    ensures q < pages ==> q * rows + rows == (q + 1) * rows <= pages * rows
    ensures q * rows == pages * rows ==> q == pages
    ensures q < pages ==> q * rows < pages * rows
  {
    if q < pages {
      MulMonotone(q + 1, pages, rows);
    }
  }
}
