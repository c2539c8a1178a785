/** Address spaces of src/vm.c, built by changing page tables in place. Memory
    comes from the page allocator `pool`; `loose` names frames that kernel code
    has taken from it and not yet put to use. */
module VirtualMemory {
  import opened Arith
  import opened Frames
  import opened PageTables

  /** PGROUNDUP, as a page number: the fewest pages that hold `sz` bytes. */
  function PagesUp(sz: int): (r: int)
    ensures (r - 1) * PGSIZE < sz <= r * PGSIZE
  {
    (sz + PGSIZE - 1) / PGSIZE
  }

  /** Pages `lo` to `hi` of the user part of `d` are unmapped, the others are as
      they were. */
  ghost predicate Shrunk(m: Mem, m': Mem, d: int, lo: int, hi: int) {
    && IsTable(m, d) && IsTable(m', d)
    && forall w :: 0 <= w < USERPAGES ==> Look(m', d, w) == if lo <= w < hi then Unmapped else Look(m, d, w)
  }

  /** User page `v` of `d` now looks like `x`, the others are as they were. */
  ghost predicate Extended(m: Mem, m': Mem, d: int, v: int, x: View) {
    && IsTable(m, d) && IsTable(m', d)
    && forall w :: 0 <= w < USERPAGES ==> Look(m', d, w) == if w == v then x else Look(m, d, w)
  }

  class Vm {
    const pool: FrameList
    var mem: Mem
    ghost var owner: Owners

    /** All frames there are. */
    ghost const all: set<int>

    constructor (pool: FrameList)
      requires pool.Valid() && forall f :: f in pool.frames ==> IsKernelFrame(f)
      ensures this.pool == pool && Valid({}) && owner == map[]
    {
      this.pool := pool;
      mem := map[];
      owner := map[];
      all := set f | f in pool.frames;
    }

    /** Every frame is free, or in use for one purpose, or loose. */
    ghost predicate PoolOk(loose: set<int>)
      reads this, pool
    {
      && pool.Valid()
      && (forall f :: f in pool.frames ==> IsKernelFrame(f) && f !in owner && f !in loose)
      && (forall f :: f in loose ==> IsKernelFrame(f) && f !in owner)
      && (forall f :: f in all <==> f in pool.frames || f in owner || f in loose)
    }

    ghost predicate Valid(loose: set<int>)
      reads this, pool
    {
      PoolOk(loose) && MemOk(mem, owner)
    }

    ghost predicate IsDirectory(d: int)
      reads this
    {
      d in owner && owner[d] == Directory && IsTable(mem, d)
    }

    method Kalloc(ghost loose: set<int>) returns (f: int)
      requires PoolOk(loose)
      modifies pool
      ensures f == 0 <==> old(pool.frames) == []
      ensures f == 0 ==> pool.frames == old(pool.frames) && PoolOk(loose)
      ensures f != 0 ==> IsKernelFrame(f) && f !in owner && f !in loose && PoolOk(loose + {f}) && |pool.frames| == |old(pool.frames)| - 1
    {
      f := pool.Kalloc();
    }

    method Kfree(f: int, ghost loose: set<int>)
      requires PoolOk(loose) && f in loose
      modifies pool
      ensures PoolOk(loose - {f})
    {
      pool.Kfree(f);
    }

    /** walkpgdir: find the table for page `v`, making one if asked to. */
    method Walk(d: int, v: int, alloc: bool, ghost loose: set<int>) returns (ok: bool)
      requires Valid(loose) && IsDirectory(d) && 0 <= v < NENTRIES * NENTRIES
      modifies this`mem, this`owner, pool
      ensures Valid(loose) && IsDirectory(d)
      ensures ok <==> old(HasTable(mem, d, Pdx(v))) || (alloc && old(pool.frames) != [])
      ensures ok ==> HasTable(mem, d, Pdx(v))
      ensures !ok || !alloc ==> mem == old(mem) && owner == old(owner) && pool.frames == old(pool.frames)
      ensures forall i :: 0 <= i < NENTRIES && i != Pdx(v) ==> Pde(mem, d, i) == old(Pde(mem, d, i))
      ensures if ok && !Present(old(Pde(mem, d, Pdx(v)))) then Flags(Pde(mem, d, Pdx(v))) == PTE_P + PTE_W + PTE_U
        else Pde(mem, d, Pdx(v)) == old(Pde(mem, d, Pdx(v)))
      ensures SameView(old(mem), mem, d) && Others(old(mem), old(owner), mem, owner, d)
      ensures forall w :: 0 <= w < NENTRIES * NENTRIES ==> Pte(mem, d, w) == old(Pte(mem, d, w))
      ensures |pool.frames| + CountPresent(mem[d].es) == old(|pool.frames| + CountPresent(mem[d].es))
    {
      var i := Pdx(v);
      var e := mem[d].es[i];
      if Present(e) {
        assert FrameOk(mem, owner, d);
        return true;
      }
      if !alloc {
        return false;
      }
      var f := Kalloc(loose);
      if f == 0 {
        return false;
      }
      AddTableOk(mem, owner, d, i, f);
      AddTableView(mem, owner, d, i, f);
      forall w | 0 <= w < NENTRIES * NENTRIES
        ensures HasTable(AddTable(mem, d, i, f), d, i) && Pte(AddTable(mem, d, i, f), d, w) == Pte(mem, d, w)
      {
        AddTablePte(mem, owner, d, i, f, w);
      }
      EntryParts(f, PTE_W + PTE_U);
      CountUpdate(mem[d].es, i, Entry(V2P(f), PTE_W + PTE_U));
      mem := AddTable(mem, d, i, f);
      owner := owner[f := TableOf(d, i)];
      return true;
    }
  
    /** mappages for the one user page `v`, backed by the loose frame `f` that
        holds `bytes`. A page that is mapped already would be a panic. */
    method MapUserPage(d: int, v: int, f: int, perm: int, bytes: seq<int>) returns (ok: bool)
      requires Valid({f}) && IsDirectory(d) && 0 <= v < USERPAGES && 0 <= perm < PGSIZE
      requires Look(mem, d, v) == Unmapped
      modifies this`mem, this`owner, pool
      ensures IsDirectory(d) && Others(old(mem), old(owner), mem, owner, d)
      ensures !ok ==> Valid({f}) && old(pool.frames) == [] && mem == old(mem) && owner == old(owner)
      ensures ok ==> Valid({}) && Extended(old(mem), mem, d, v, Mapped(Flags(Entry(V2P(f), perm)), bytes)) && SameKernel(old(mem), mem, d)
      ensures ok ==> |pool.frames| + CountPresent(mem[d].es) == old(|pool.frames| + CountPresent(mem[d].es))
    {
      ok := Walk(d, v, true, {f});
      if !ok {
        return;
      }
      assert !Present(Pte(mem, d, v)) by {
        LookPresent(mem, owner, d, v);
      }
      TableFrameOwned(mem, owner, d, v);
      MapPageOk(mem, owner, d, v, f, perm, bytes);
      MapPageKernel(mem, owner, d, v, f, perm, bytes);
      forall w | 0 <= w < USERPAGES
        ensures var m' := MapPage(mem, d, v, f, perm, bytes);
          IsTable(m', d) && Look(m', d, w) == if w == v then Mapped(Flags(Entry(V2P(f), perm)), bytes) else Look(mem, d, w)
      {
        MapPageLook(mem, owner, d, v, f, perm, bytes, w);
      }
      mem := MapPage(mem, d, v, f, perm, bytes);
      owner := owner[f := UserPage(d, v)];
    }

    /** One step of deallocuvm: page `v` has a page table. */
    method UnmapUserPage(d: int, v: int, ghost loose: set<int>)
      requires Valid(loose) && IsDirectory(d) && 0 <= v < USERPAGES && HasTable(mem, d, Pdx(v))
      modifies this`mem, this`owner, pool
      ensures Valid(loose) && IsDirectory(d) && Others(old(mem), old(owner), mem, owner, d)
      ensures Shrunk(old(mem), mem, d, v, v + 1)
    {
      var pte := Pte(mem, d, v);
      LookPresent(mem, owner, d, v);
      if Present(pte) {
        UnmapPageOk(mem, owner, d, v);
        forall w | 0 <= w < USERPAGES
          ensures var m' := UnmapPage(mem, d, v);
            IsTable(m', d) && Look(m', d, w) == if w == v then Unmapped else Look(mem, d, w)
        {
          UnmapPageLook(mem, owner, d, v, w);
        }
        var f := FrameOf(pte);
        TableFrameOwned(mem, owner, d, v);
        mem := UnmapPage(mem, d, v);
        owner := owner - {f};
        Kfree(f, loose + {f});
        assert loose + {f} - {f} == loose;
      }
    }

    /** One turn of the loop of deallocuvm, at page `v`: a missing page table is
        skipped as a whole. */
    method DeallocTurn(d: int, v: int, ghost lo: int, ghost hi: int, ghost m: Mem, ghost o: Owners, ghost loose: set<int>) returns (u: int)
      requires Valid(loose) && IsDirectory(d) && 0 <= lo <= v < hi <= USERPAGES && Freeing(m, o, mem, owner, d, lo, hi, v)
      modifies this`mem, this`owner, pool
      ensures Valid(loose) && IsDirectory(d) && v < u && Freeing(m, o, mem, owner, d, lo, hi, u)
    {
      var ok := Walk(d, v, false, loose);
      if ok {
        UnmapUserPage(d, v, loose);
        u := v + 1;
        OthersTrans(m, o, old(mem), old(owner), mem, owner, d);
      } else {
        u := (Pdx(v) + 1) * NENTRIES;
        SkipTable(mem, d, v);
      }
    }

    /** deallocuvm. */
    method Dealloc(d: int, oldsz: int, newsz: int, ghost loose: set<int>) returns (r: int)
      requires Valid(loose) && IsDirectory(d) && 0 <= oldsz <= KERNBASE && 0 <= newsz
      modifies this`mem, this`owner, pool
      ensures Valid(loose) && IsDirectory(d) && Others(old(mem), old(owner), mem, owner, d)
      ensures r == if newsz >= oldsz then oldsz else newsz
      ensures Shrunk(old(mem), mem, d, PagesUp(newsz), PagesUp(oldsz))
    {
      if newsz >= oldsz {
        return oldsz;
      }
      var v := PagesUp(newsz);
      while v * PGSIZE < oldsz
        invariant Valid(loose) && IsDirectory(d) && PagesUp(newsz) <= v
        invariant Freeing(old(mem), old(owner), mem, owner, d, PagesUp(newsz), PagesUp(oldsz), v)
        decreases oldsz - v * PGSIZE
      {
        v := DeallocTurn(d, v, PagesUp(newsz), PagesUp(oldsz), old(mem), old(owner), loose);
      }
      r := newsz;
    }

    /** What allocuvm does when it runs out of memory: everything its loop mapped
        is unmapped again. */
    method Rollback(d: int, oldsz: int, newsz: int, ghost v: int, ghost m: Mem, ghost o: Owners, ghost loose: set<int>)
      requires Valid(loose) && IsDirectory(d) && 0 <= oldsz <= newsz < KERNBASE
      requires PagesUp(oldsz) <= v < PagesUp(newsz) && Growing(m, o, mem, owner, d, PagesUp(oldsz), PagesUp(newsz), v)
      modifies this`mem, this`owner, pool
      ensures Valid(loose) && IsDirectory(d) && Others(m, o, mem, owner, d) && SameView(m, mem, d)
    {
      var _ := Dealloc(d, newsz, oldsz, loose);
      OthersTrans(m, o, old(mem), old(owner), mem, owner, d);
    }

    /** One turn of the loop of allocuvm: a zeroed frame for page `v`. */
    method AllocTurn(d: int, oldsz: int, newsz: int, v: int, ghost m: Mem, ghost o: Owners) returns (ok: bool)
      requires Valid({}) && IsDirectory(d) && 0 <= oldsz <= newsz < KERNBASE
      requires PagesUp(oldsz) <= v < PagesUp(newsz) && Growing(m, o, mem, owner, d, PagesUp(oldsz), PagesUp(newsz), v)
      modifies this`mem, this`owner, pool
      ensures Valid({}) && IsDirectory(d)
      ensures ok ==> Growing(m, o, mem, owner, d, PagesUp(oldsz), PagesUp(newsz), v + 1)
      ensures ok ==> |pool.frames| + CountPresent(mem[d].es) == old(|pool.frames| + CountPresent(mem[d].es)) - 1
      ensures !ok ==> Others(m, o, mem, owner, d) && SameView(m, mem, d)
      ensures !ok ==> |old(pool.frames)| <= 1
    {
      var f := Kalloc({});
      if f == 0 {
        Rollback(d, oldsz, newsz, v, m, o, {});
        return false;
      }
      assert {} + {f} == {f};
      ok := MapUserPage(d, v, f, PTE_W + PTE_U, ZeroPage());
      if !ok {
        Rollback(d, oldsz, newsz, v, m, o, {f});
        Kfree(f, {f});
        assert {f} - {f} == {};
        return;
      }
      EntryParts(f, PTE_W + PTE_U);
      GrowingNext(m, o, old(mem), old(owner), mem, owner, d, PagesUp(oldsz), PagesUp(newsz), v);
    }

    /** allocuvm. Pages between the old and the new size must not be mapped yet:
        mapping one again is a panic. */
    method Alloc(d: int, oldsz: int, newsz: int) returns (r: int)
      requires Valid({}) && IsDirectory(d) && 0 <= oldsz && 0 <= newsz
      requires forall w :: PagesUp(oldsz) <= w < PagesUp(newsz) && 0 <= w < USERPAGES ==> Look(mem, d, w) == Unmapped
      modifies this`mem, this`owner, pool
      ensures Valid({}) && IsDirectory(d) && Others(old(mem), old(owner), mem, owner, d)
      ensures r == 0 || (newsz >= oldsz && r == newsz) || (newsz < oldsz && r == oldsz)
      ensures newsz >= KERNBASE ==> r == 0
      ensures r == 0 || newsz < oldsz ==> SameView(old(mem), mem, d)
      ensures r == newsz && oldsz <= newsz && newsz > 0 ==>
        forall w :: 0 <= w < USERPAGES ==>
          Look(mem, d, w) == if PagesUp(oldsz) <= w < PagesUp(newsz) then Mapped(PTE_P + PTE_W + PTE_U, ZeroPage()) else old(Look(mem, d, w))
      ensures r == newsz && oldsz <= newsz ==>
        forall w, write :: PagesUp(oldsz) <= w < PagesUp(newsz) && 0 <= w < USERPAGES ==> UserMay(mem, d, w, write)
      ensures newsz < oldsz && newsz < KERNBASE ==> r == oldsz
      ensures oldsz <= newsz < KERNBASE && |old(pool.frames)| > NENTRIES + PagesUp(newsz) - PagesUp(oldsz) ==> r == newsz
    {
      if newsz >= KERNBASE {
        return 0;
      }
      if newsz < oldsz {
        return oldsz;
      }
      hide MemOk, Others, CountPresent, UserMay;
      var v := PagesUp(oldsz);
      while v * PGSIZE < newsz
        invariant PagesUp(oldsz) <= v <= PagesUp(newsz)
        invariant Valid({}) && IsDirectory(d)
        invariant Growing(old(mem), old(owner), mem, owner, d, PagesUp(oldsz), PagesUp(newsz), v)
        invariant |pool.frames| + CountPresent(mem[d].es) == old(|pool.frames| + CountPresent(mem[d].es)) - (v - PagesUp(oldsz))
      {
        CountAtMost(mem[d].es);
        var ok := AllocTurn(d, oldsz, newsz, v, old(mem), old(owner));
        if !ok {
          return 0;
        }
        v := v + 1;
      }
      GrownForUser(old(mem), old(owner), mem, owner, d, PagesUp(oldsz), PagesUp(newsz));
      r := newsz;
    }

    /** The loop of freevm over the directory: each page table goes back, while
        the directory still points to it. */
    method FreeTables(d: int)
      requires Valid({}) && IsDirectory(d)
      modifies this`mem, this`owner, pool
      ensures PoolOk({})
      ensures mem == old(mem) - TablesBelow(old(mem), d, NENTRIES) && owner == old(owner) - TablesBelow(old(mem), d, NENTRIES)
    {
      ghost var m, o := mem, owner;
      var i := 0;
      while i < NENTRIES
        invariant 0 <= i <= NENTRIES && PoolOk({})
        invariant mem == m - TablesBelow(m, d, i) && owner == o - TablesBelow(m, d, i)
      {
        TablesBelowIs(m, o, d, i, d);
        var e := mem[d].es[i];
        if Present(e) {
          var f := FrameOf(e);
          assert FrameOk(m, o, d);
          assert FrameOk(m, o, f);
          TablesBelowIs(m, o, d, i, f);
          assert TablesBelow(m, d, i + 1) == TablesBelow(m, d, i) + {f};
          mem := mem - {f};
          owner := owner - {f};
          Kfree(f, {f});
          assert {f} - {f} == {};
        }
        i := i + 1;
      }
    }

    /** freevm: every user page, page table and the directory go back, once. */
    method FreeVm(d: int)
      requires Valid({}) && IsDirectory(d)
      modifies this`mem, this`owner, pool
      ensures Valid({}) && NoFrames(owner, d) && Others(old(mem), old(owner), mem, owner, d)
    {
      var _ := Dealloc(d, KERNBASE, 0, {});
      ghost var m, o := mem, owner;
      GoneOk(m, o, d);
      FreeTables(d);
      TablesBelowIs(m, o, d, NENTRIES, d);
      assert FrameOk(m, o, d);
      mem := mem - {d};
      owner := owner - {d};
      Kfree(d, {d});
      assert {d} - {d} == {};
      assert mem == m - Gone(m, d) && owner == o - Gone(m, d);
      OthersTrans(old(mem), old(owner), m, o, mem, owner, d);
    }

    /** One turn of the loop of mappages, for a kernel page. */
    method MapKernelPage(d: int, v: int, e: int) returns (ok: bool)
      requires Valid({}) && IsDirectory(d) && USERPAGES <= v < NENTRIES * NENTRIES && !Present(Pte(mem, d, v))
      modifies this`mem, this`owner, pool
      ensures Valid({}) && IsDirectory(d) && Others(old(mem), old(owner), mem, owner, d) && SameView(old(mem), mem, d)
      ensures |pool.frames| + CountPresent(mem[d].es) == old(|pool.frames| + CountPresent(mem[d].es))
      ensures !ok ==> pool.frames == []
      ensures ok ==> forall w :: 0 <= w < NENTRIES * NENTRIES ==> Pte(mem, d, w) == if w == v then e else old(Pte(mem, d, w))
    {
      ok := Walk(d, v, true, {});
      if ok {
        ghost var m, o := mem, owner;
        SetKernelOk(m, o, d, v, e);
        SetKernelView(m, o, d, v, e);
        TableFrameOwned(m, o, d, v);
        forall w | 0 <= w < NENTRIES * NENTRIES
          ensures IsTable(SetPte(m, d, v, e), d) && Pte(SetPte(m, d, v, e), d, w) == if w == v then e else Pte(m, d, w)
        {
          SetPteAt(m, o, d, v, e, w);
        }
        mem := SetPte(mem, d, v, e);
        OthersTrans(old(mem), old(owner), m, o, mem, owner, d);
      }
    }

    /** mappages, for one region of the kernel's part. */
    method MapRegion(d: int, k: Region) returns (ok: bool)
      requires Valid({}) && IsDirectory(d) && k.Fits()
      requires forall w :: k.first <= w < k.first + k.pages && 0 <= w < NENTRIES * NENTRIES ==> !Present(Pte(mem, d, w))
      modifies this`mem, this`owner, pool
      ensures Valid({}) && IsDirectory(d) && Others(old(mem), old(owner), mem, owner, d) && SameView(old(mem), mem, d)
      ensures |pool.frames| + CountPresent(mem[d].es) == old(|pool.frames| + CountPresent(mem[d].es))
      ensures !ok ==> pool.frames == []
      ensures ok ==> forall w :: 0 <= w < NENTRIES * NENTRIES ==>
        Pte(mem, d, w) == if k.first <= w < k.first + k.pages then k.At(w) else old(Pte(mem, d, w))
      ensures ok ==> forall w :: k.first <= w < k.first + k.pages && 0 <= w < NENTRIES * NENTRIES ==>
        MapsTo(Pte(mem, d, w), k.pa + (w - k.first) * PGSIZE, k.perm)
    {
      var v := k.first;
      while true
        invariant k.first <= v < k.first + k.pages
        invariant Valid({}) && IsDirectory(d) && Others(old(mem), old(owner), mem, owner, d) && SameView(old(mem), mem, d)
        invariant |pool.frames| + CountPresent(mem[d].es) == old(|pool.frames| + CountPresent(mem[d].es))
        invariant forall w :: 0 <= w < NENTRIES * NENTRIES ==> Pte(mem, d, w) == if k.first <= w < v then k.At(w) else old(Pte(mem, d, w))
        decreases k.first + k.pages - v
      {
        ghost var m, o := mem, owner;
        ok := MapKernelPage(d, v, k.At(v));
        OthersTrans(old(mem), old(owner), m, o, mem, owner, d);
        if !ok {
          return;
        }
        if v == k.first + k.pages - 1 {
          break;
        }
        v := v + 1;
      }
      forall w | k.first <= w < k.first + k.pages && 0 <= w < NENTRIES * NENTRIES
        ensures MapsTo(k.At(w), k.pa + (w - k.first) * PGSIZE, k.perm)
      {
        RegionAt(k, w);
      }
    }

    method NewDirectory() returns (d: int)
      requires Valid({})
      modifies this`mem, this`owner, pool
      ensures Valid({}) && (d == 0 <==> old(pool.frames) == [])
      ensures d == 0 ==> mem == old(mem) && owner == old(owner)
      ensures d != 0 ==> d !in old(owner) && IsDirectory(d) && Others(old(mem), old(owner), mem, owner, d)
      ensures d != 0 ==> |pool.frames| + CountPresent(mem[d].es) == |old(pool.frames)| - 1
      ensures d != 0 ==> forall w :: 0 <= w < NENTRIES * NENTRIES ==> Pte(mem, d, w) == 0
    {
      d := Kalloc({});
      if d != 0 {
        NewDirectoryOk(mem, owner, d);
        CountNone(ZeroTable());
        mem := mem[d := Table(ZeroTable())];
        owner := owner[d := Directory];
      }
    }

    /** The loop of setupkvm over `kmap`. */
    method MapKernel(d: int, kmap: seq<Region>) returns (ok: bool)
      requires Valid({}) && IsDirectory(d) && KmapOk(kmap)
      requires forall w :: 0 <= w < NENTRIES * NENTRIES ==> Pte(mem, d, w) == 0
      modifies this`mem, this`owner, pool
      ensures Valid({}) && IsDirectory(d) && Others(old(mem), old(owner), mem, owner, d) && SameView(old(mem), mem, d)
      ensures |pool.frames| + CountPresent(mem[d].es) == old(|pool.frames| + CountPresent(mem[d].es))
      ensures !ok ==> pool.frames == []
      ensures ok ==> forall w :: 0 <= w < NENTRIES * NENTRIES ==> Pte(mem, d, w) == KernelPte(kmap, w)
    {
      var i := 0;
      while i < |kmap|
        invariant 0 <= i <= |kmap|
        invariant Valid({}) && IsDirectory(d) && Others(old(mem), old(owner), mem, owner, d) && SameView(old(mem), mem, d)
        invariant |pool.frames| + CountPresent(mem[d].es) == old(|pool.frames| + CountPresent(mem[d].es))
        invariant forall w :: 0 <= w < NENTRIES * NENTRIES ==> Pte(mem, d, w) == KernelPte(kmap[..i], w)
      {
        ghost var m, o := mem, owner;
        KernelPteFree(kmap, i);
        ok := MapRegion(d, kmap[i]);
        OthersTrans(old(mem), old(owner), m, o, mem, owner, d);
        if !ok {
          return;
        }
        assert kmap[..i + 1][..i] == kmap[..i];
        i := i + 1;
      }
      assert kmap[..i] == kmap;
      ok := true;
    }

    /** setupkvm, when the kernel's data segment starts at `data`: every kernel page is
        mapped where the comment in front of `kmap` says, and no other page is. */
    method SetupKvm(data: int) returns (d: int)
      requires Valid({}) && DataOk(data)
      modifies this`mem, this`owner, pool
      ensures Valid({})
      ensures d == 0 ==> mem == old(mem) && owner == old(owner) && |old(pool.frames)| <= NENTRIES + 1
      ensures d != 0 ==> d !in old(owner) && IsDirectory(d) && Others(old(mem), old(owner), mem, owner, d)
      ensures d != 0 ==> |pool.frames| + CountPresent(mem[d].es) == |old(pool.frames)| - 1
      ensures d != 0 ==> forall w :: 0 <= w < NENTRIES * NENTRIES ==> DirectAt(Pte(mem, d, w), w * PGSIZE, data)
    {
      KmapFits(data);
      d := MapAll(Kmap(data));
      if d != 0 {
        forall w | 0 <= w < NENTRIES * NENTRIES ensures DirectAt(Pte(mem, d, w), w * PGSIZE, data) {
          KmapDirect(data, w);
        }
      }
    }

    /** setupkvm, for any table of regions. */
    method MapAll(kmap: seq<Region>) returns (d: int)
      requires Valid({}) && KmapOk(kmap)
      modifies this`mem, this`owner, pool
      ensures Valid({})
      ensures d == 0 ==> mem == old(mem) && owner == old(owner) && |old(pool.frames)| <= NENTRIES + 1
      ensures d != 0 ==> d !in old(owner) && IsDirectory(d) && Others(old(mem), old(owner), mem, owner, d)
      ensures d != 0 ==> |pool.frames| + CountPresent(mem[d].es) == |old(pool.frames)| - 1
      ensures d != 0 ==> forall w :: 0 <= w < NENTRIES * NENTRIES ==> Pte(mem, d, w) == KernelPte(kmap, w)
    {
      d := NewDirectory();
      if d == 0 {
        return;
      }
      ghost var m, o := mem, owner;
      var ok := MapKernel(d, kmap);
      OthersTrans(old(mem), old(owner), m, o, mem, owner, d);
      if !ok {
        CountAtMost(mem[d].es);
        m, o := mem, owner;
        FreeVm(d);
        OthersTrans(old(mem), old(owner), m, o, mem, owner, d);
        BackAgain(old(mem), old(owner), mem, owner, d);
        d := 0;
      }
    }

    /** One turn of the loop of copyuvm: page `v` of `d` is copied to `c`. */
    method CopyPage(d: int, c: int, v: int, ghost m: Mem, ghost o: Owners, ghost n: int) returns (ok: bool)
      requires Valid({}) && MemOk(m, o) && d in o && o[d] == Directory && IsTable(m, d)
      requires 0 <= v < n <= USERPAGES && Look(m, d, v).Mapped?
      requires IsDirectory(c) && c !in o && Copying(m, o, mem, owner, d, c, v)
      modifies this`mem, this`owner, pool
      ensures Valid({}) && IsDirectory(c)
      ensures ok ==> Copying(m, o, mem, owner, d, c, v + 1) && SameKernel(old(mem), mem, c)
      ensures ok ==> |pool.frames| + CountPresent(mem[c].es) == old(|pool.frames| + CountPresent(mem[c].es)) - 1
      ensures !ok ==> Others(m, o, mem, owner, c) && |old(pool.frames)| <= 1
    {
      OthersLook(m, o, mem, owner, c, d, v);
      LookPresent(mem, owner, d, v);
      var pte := Pte(mem, d, v);
      var flags, bytes := Flags(pte), mem[FrameOf(pte)].bytes;
      FlagsPresent(pte);
      var f := Kalloc({});
      if f == 0 {
        return false;
      }
      assert {} + {f} == {f};
      ok := MapUserPage(c, v, f, flags, bytes);
      if !ok {
        Kfree(f, {f});
        assert {f} - {f} == {};
        return;
      }
      EntryParts(f, flags);
      OthersTrans(m, o, old(mem), old(owner), mem, owner, c);
    }

    /** copyuvm. The pages below `sz` must be there, else it is a panic. */
    method Copy(d: int, sz: int, data: int) returns (c: int)
      requires Valid({}) && IsDirectory(d) && 0 <= sz <= KERNBASE && DataOk(data)
      requires forall w :: 0 <= w < PagesUp(sz) && w < USERPAGES ==> Look(mem, d, w).Mapped?
      modifies this`mem, this`owner, pool
      ensures Valid({})
      ensures c == 0 ==> mem == old(mem) && owner == old(owner)
      ensures c != 0 ==> c !in old(owner) && IsDirectory(c) && Others(old(mem), old(owner), mem, owner, c)
      ensures c != 0 ==> forall w :: 0 <= w < USERPAGES ==> Look(mem, c, w) == if w < PagesUp(sz) then old(Look(mem, d, w)) else Unmapped
      ensures c != 0 ==> forall w, write :: 0 <= w < PagesUp(sz) && w < USERPAGES ==> (UserMay(mem, c, w, write) <==> old(UserMay(mem, d, w, write)))
      ensures c != 0 ==> forall w :: USERPAGES <= w < NENTRIES * NENTRIES ==> DirectAt(Pte(mem, c, w), w * PGSIZE, data)
      ensures |old(pool.frames)| > NENTRIES + 1 + PagesUp(sz) ==> c != 0
    {
      c := SetupKvm(data);
      if c == 0 {
        return;
      }
      ghost var m, o := old(mem), old(owner);
      KernelHasNoUser(mem, c, data);
      ghost var k := mem;
      var v := 0;
      while v * PGSIZE < sz
        invariant 0 <= v <= PagesUp(sz)
        invariant SameKernel(k, mem, c)
        invariant Valid({}) && IsDirectory(c) && Copying(m, o, mem, owner, d, c, v)
        invariant |pool.frames| + CountPresent(mem[c].es) == |old(pool.frames)| - 1 - v
      {
        CountAtMost(mem[c].es);
        var ok := CopyPage(d, c, v, m, o, PagesUp(sz));
        if !ok {
          ghost var m1, o1 := mem, owner;
          FreeVm(c);
          OthersTrans(m, o, m1, o1, mem, owner, c);
          BackAgain(m, o, mem, owner, c);
          return 0;
        }
        v := v + 1;
      }
      CopiedForUser(m, o, mem, owner, d, c, v);
    }
  }

  /** copyuvm has copied the pages of `d` below `v` to `c`. */
  ghost predicate Copying(m: Mem, o: Owners, m': Mem, o': Owners, d: int, c: int, v: int) {
    && Others(m, o, m', o', c) && IsTable(m, d) && IsTable(m', c)
    && forall w :: 0 <= w < USERPAGES ==> Look(m', c, w) == if w < v then Look(m, d, w) else Unmapped
  }

  /** An address space looks the same while another one changes. */
  lemma OthersLook(m: Mem, o: Owners, m': Mem, o': Owners, c: int, d: int, v: int)
    requires MemOk(m, o) && MemOk(m', o') && Others(m, o, m', o', c) && d in o && o[d] == Directory && d != c && IsTable(m, d)
    requires 0 <= v < USERPAGES
    ensures d in o' && o'[d] == Directory && IsTable(m', d) && Look(m', d, v) == Look(m, d, v)
  {
    assert Space(o, d) == d;
    assert FrameOk(m, o, d);
    if HasTable(m, d, Pdx(v)) {
      TableFrameOwned(m, o, d, v);
      assert Space(o, TableFrame(m, d, v)) == d;
      LookPresent(m, o, d, v);
      if Present(Pte(m, d, v)) {
        assert Space(o, FrameOf(Pte(m, d, v))) == d;
      }
    }
    LookPresent(m', o', d, v);
  }

  lemma FlagsPresent(e: int)
    requires Present(e) && e >= 0
    ensures Flags(e) % 2 == 1
  {
    var k := e / PGSIZE;
    assert e == 2 * (2048 * k) + Flags(e);
  }

  lemma KernelHasNoUser(m: Mem, c: int, data: int)
    requires IsTable(m, c) && forall w :: 0 <= w < NENTRIES * NENTRIES ==> DirectAt(Pte(m, c, w), w * PGSIZE, data)
    ensures forall w :: 0 <= w < USERPAGES ==> Look(m, c, w) == Unmapped
  {
    forall w | 0 <= w < USERPAGES ensures Look(m, c, w) == Unmapped {
      assert DirectAt(Pte(m, c, w), w * PGSIZE, data);
    }
  }

  /** Where the linker can put the kernel's data segment. */
  predicate DataOk(data: int) {
    data % PGSIZE == 0 && KERNBASE + EXTMEM < data < KERNBASE + PHYSTOP
  }

  /** Entry `e` is what virtual address `va` should have: physical memory is at KERNBASE,
      device memory at its own address; the kernel's code is read-only; user code may
      use none of it. */
  predicate DirectAt(e: int, va: int, data: int) {
    if KERNBASE <= va < KERNBASE + PHYSTOP then
      Present(e) && Addr(e) == va - KERNBASE && (Writable(e) <==> !(KERNBASE + EXTMEM <= va < data)) && !ForUser(e)
    else if va >= DEVSPACE then
      Present(e) && Addr(e) == va && Writable(e) && !ForUser(e)
    else
      !Present(e)
  }

  /** The direct map, page by page. */
  lemma KmapDirect(data: int, w: int)
    requires DataOk(data) && 0 <= w < NENTRIES * NENTRIES
    ensures DirectAt(KernelPte(Kmap(data), w), w * PGSIZE, data)
  {
    hide KernelPte, Entry;
    var ks := Kmap(data);
    KmapFits(data);
    KmapEnds(data);
    KmapPte(data, w);
    if k :| 0 <= k < 4 && ks[k].first <= w < ks[k].first + ks[k].pages {
      assert ks[k].perm == if k == 1 then 0 else PTE_W;
      RegionAt(ks[k], w);
      FlagBits(ks[k].At(w));
    }
  }

  /** Where the regions lie, in bytes. */
  lemma KmapEnds(data: int)
    requires DataOk(data)
    ensures var ks := Kmap(data);
      && ks[0].first * PGSIZE == KERNBASE && (ks[0].first + ks[0].pages) * PGSIZE == KERNBASE + EXTMEM && ks[0].pa == 0
      && ks[1].first * PGSIZE == KERNBASE + EXTMEM && (ks[1].first + ks[1].pages) * PGSIZE == data && ks[1].pa == EXTMEM
      && ks[2].first * PGSIZE == data && (ks[2].first + ks[2].pages) * PGSIZE == KERNBASE + PHYSTOP && ks[2].pa == data - KERNBASE
      && ks[3].first * PGSIZE == DEVSPACE && (ks[3].first + ks[3].pages) == NENTRIES * NENTRIES && ks[3].pa == DEVSPACE
  {
    KmapFits(data);
    DivMod(data, PGSIZE);
  }

  lemma KmapPte(data: int, w: int)
    requires DataOk(data)
    ensures var ks := Kmap(data);
      && (forall k :: 0 <= k < 4 && ks[k].first <= w < ks[k].first + ks[k].pages ==> KernelPte(ks, w) == ks[k].At(w))
      && ((forall k :: 0 <= k < 4 ==> !(ks[k].first <= w < ks[k].first + ks[k].pages)) ==> KernelPte(ks, w) == 0)
  {
    KmapFits(data);
    var ks := Kmap(data);
    assert ks[..3][..2] == ks[..2] && ks[..2][..1] == ks[..1] && ks[..1][..0] == [];
    assert KernelPte(ks[..1], w) == if ks[0].first <= w < ks[0].first + ks[0].pages then ks[0].At(w) else 0;
    assert KernelPte(ks[..2], w) == if ks[1].first <= w < ks[1].first + ks[1].pages then ks[1].At(w) else KernelPte(ks[..1], w);
    assert KernelPte(ks[..3], w) == if ks[2].first <= w < ks[2].first + ks[2].pages then ks[2].At(w) else KernelPte(ks[..2], w);
  }

  /** The regions lie in the kernel's part and do not overlap. */
  predicate KmapOk(kmap: seq<Region>) {
    && (forall i :: 0 <= i < |kmap| ==> kmap[i].Fits())
    && (forall i, j :: 0 <= i < j < |kmap| ==> kmap[i].first + kmap[i].pages <= kmap[j].first)
  }

  const EXTMEM := 0x10_0000
  const DEVSPACE := 0xFE00_0000

  /** `kmap`; the kernel's data segment starts at `data`. */
  function Kmap(data: int): seq<Region> {
    [Region(KERNBASE / PGSIZE, EXTMEM / PGSIZE, 0, PTE_W),
     Region((KERNBASE + EXTMEM) / PGSIZE, (V2P(data) - EXTMEM) / PGSIZE, EXTMEM, 0),
     Region(data / PGSIZE, (PHYSTOP - V2P(data)) / PGSIZE, V2P(data), PTE_W),
     Region(DEVSPACE / PGSIZE, (0x1_0000_0000 - DEVSPACE) / PGSIZE, DEVSPACE, PTE_W)]
  }

  /** setupkvm never maps a page twice, wherever the data segment starts. */
  lemma KmapFits(data: int)
    requires DataOk(data)
    ensures KmapOk(Kmap(data))
  {
    var k := data / PGSIZE;
    assert data == PGSIZE * k;
    RemainderOf(k - KERNBASE / PGSIZE, PGSIZE, 0);
    assert V2P(data) == (k - KERNBASE / PGSIZE) * PGSIZE;
    assert (V2P(data) - EXTMEM) / PGSIZE == k - (KERNBASE + EXTMEM) / PGSIZE;
    assert (PHYSTOP - V2P(data)) / PGSIZE == (PHYSTOP + KERNBASE) / PGSIZE - k;
  }

  /** The entry `kmap` calls for at page `w`. */
  function KernelPte(kmap: seq<Region>, w: int): int {
    if kmap == [] then 0
    else
      var k := kmap[|kmap| - 1];
      if k.first <= w < k.first + k.pages then k.At(w) else KernelPte(kmap[..|kmap| - 1], w)
  }

  lemma {:induction false} KernelPteOutside(kmap: seq<Region>, w: int)
    requires forall i :: 0 <= i < |kmap| ==> !(kmap[i].first <= w < kmap[i].first + kmap[i].pages)
    ensures KernelPte(kmap, w) == 0
  {
    if kmap != [] {
      KernelPteOutside(kmap[..|kmap| - 1], w);
    }
  }

  /** No region maps what an earlier one has mapped. */
  lemma KernelPteFree(kmap: seq<Region>, i: nat)
    requires KmapOk(kmap) && i < |kmap|
    ensures forall w :: kmap[i].first <= w < kmap[i].first + kmap[i].pages ==> KernelPte(kmap[..i], w) == 0
  {
    forall w | kmap[i].first <= w < kmap[i].first + kmap[i].pages ensures KernelPte(kmap[..i], w) == 0 {
      KernelPteOutside(kmap[..i], w);
    }
  }

  lemma NewDirectoryOk(m: Mem, o: Owners, d: int)
    requires MemOk(m, o) && IsKernelFrame(d) && d !in o
    ensures var m', o' := m[d := Table(ZeroTable())], o[d := Directory];
      MemOk(m', o') && Others(m, o, m', o', d) && IsTable(m', d) && forall w :: 0 <= w < NENTRIES * NENTRIES ==> Pte(m', d, w) == 0
  {
    var m', o' := m[d := Table(ZeroTable())], o[d := Directory];
    forall f | f in o ensures FrameOk(m', o', f) && Space(o, f) != d {
      assert FrameOk(m, o, f);
      if o[f].UserPage? {
        assert FrameOk(m, o, o[f].d);
        assert FrameOk(m, o, TableFrame(m, o[f].d, o[f].v));
      }
    }
  }

  /** An address space that came and went leaves no trace. */
  lemma BackAgain(m: Mem, o: Owners, m': Mem, o': Owners, d: int)
    requires MemOk(m, o) && MemOk(m', o') && d !in o && NoFrames(o', d) && Others(m, o, m', o', d)
    ensures m' == m && o' == o
  {
    forall f | f in o ensures f in o' && o'[f] == o[f] && f in m && f in m' && m'[f] == m[f] {
      assert FrameOk(m, o, f);
      assert Space(o, f) != d;
    }
    forall f | f in o' ensures f in o {
      assert Space(o', f) != d;
    }
    assert o' == o;
    assert m' == m;
  }

  /** An entry of `kmap`, in pages. */
  datatype Region = Region(first: int, pages: int, pa: int, perm: int) {
    /** It lies in the kernel's part. */
    predicate Fits() {
      && USERPAGES <= first && 0 < pages && first + pages <= NENTRIES * NENTRIES
      && pa >= 0 && pa % PGSIZE == 0 && 0 <= perm < PGSIZE && perm % 2 == 0
    }

    /** The entry for page `w` of the region. */
    function At(w: int): int {
      Entry(pa + (w - first) * PGSIZE, perm)
    }
  }

  /** An entry that is present, leads to physical address `pa`, and has the permissions
      `perm`. */
  predicate MapsTo(e: int, pa: int, perm: int) {
    Present(e) && Addr(e) == pa && Flags(e) == perm + PTE_P
  }

  lemma RegionAt(k: Region, w: int)
    requires k.Fits() && k.first <= w
    ensures MapsTo(k.At(w), k.pa + (w - k.first) * PGSIZE, k.perm)
  {
    var q := k.pa / PGSIZE + (w - k.first);
    DivMod(k.pa, PGSIZE);
    RemainderOf(q, PGSIZE, 0);
    PageSplit(q * PGSIZE, k.perm + 1);
  }

  /** allocuvm has given pages `lo` to `v` zeroed frames, on its way to `hi`. */
  ghost predicate Growing(m: Mem, o: Owners, m': Mem, o': Owners, d: int, lo: int, hi: int, v: int) {
    && Others(m, o, m', o', d) && IsTable(m, d) && IsTable(m', d)
    && (forall w :: lo <= w < hi && 0 <= w < USERPAGES ==> Look(m, d, w) == Unmapped)
    && forall w :: 0 <= w < USERPAGES ==>
         Look(m', d, w) == if lo <= w < v then Mapped(PTE_P + PTE_W + PTE_U, ZeroPage()) else Look(m, d, w)
  }

  /** The pages that allocuvm gave, user code may read and write. */
  lemma GrownForUser(m: Mem, o: Owners, m': Mem, o': Owners, d: int, lo: int, hi: int)
    requires MemOk(m', o') && d in o' && o'[d] == Directory && Growing(m, o, m', o', d, lo, hi, hi)
    ensures forall w, write :: lo <= w < hi && 0 <= w < USERPAGES ==> UserMay(m', d, w, write)
  {
    forall w, write | lo <= w < hi && 0 <= w < USERPAGES ensures UserMay(m', d, w, write) {
      UserMayAsFlagged(m', o', d, w, write);
    }
  }

  /** User code may do with a copied page what it may with the original. */
  lemma CopiedForUser(m: Mem, o: Owners, m': Mem, o': Owners, d: int, c: int, v: int)
    requires MemOk(m, o) && MemOk(m', o') && d in o && o[d] == Directory && c in o' && o'[c] == Directory && Copying(m, o, m', o', d, c, v)
    ensures forall w, write :: 0 <= w < v && w < USERPAGES ==> (UserMay(m', c, w, write) <==> UserMay(m, d, w, write))
  {
    forall w, write | 0 <= w < v && w < USERPAGES ensures UserMay(m', c, w, write) <==> UserMay(m, d, w, write) {
      UserMayAsFlagged(m', o', c, w, write);
      UserMayAsFlagged(m, o, d, w, write);
    }
  }

  lemma GrowingNext(m: Mem, o: Owners, m1: Mem, o1: Owners, m2: Mem, o2: Owners, d: int, lo: int, hi: int, v: int)
    requires Growing(m, o, m1, o1, d, lo, hi, v) && lo <= v && Others(m1, o1, m2, o2, d)
    requires Extended(m1, m2, d, v, Mapped(PTE_P + PTE_W + PTE_U, ZeroPage()))
    ensures Growing(m, o, m2, o2, d, lo, hi, v + 1)
  {
    OthersTrans(m, o, m1, o1, m2, o2, d);
  }

  /** deallocuvm has come from page `lo` to page `v` on its way to `hi`. */
  ghost predicate Freeing(m: Mem, o: Owners, m': Mem, o': Owners, d: int, lo: int, hi: int, v: int) {
    && Others(m, o, m', o', d) && Shrunk(m, m', d, lo, v)
    && forall w :: hi <= w < v && 0 <= w < USERPAGES ==> Look(m, d, w) == Unmapped
  }

  /** Without a page table, nothing is mapped up to the next one. */
  lemma SkipTable(m: Mem, d: int, v: int)
    requires IsTable(m, d) && 0 <= v < USERPAGES && !HasTable(m, d, Pdx(v))
    ensures forall w :: v <= w < (Pdx(v) + 1) * NENTRIES && w < USERPAGES ==> Look(m, d, w) == Unmapped
  {
    forall w | v <= w < (Pdx(v) + 1) * NENTRIES && w < USERPAGES ensures Look(m, d, w) == Unmapped {
      assert Pdx(w) == Pdx(v);
    }
  }

  lemma OthersTrans(m: Mem, o: Owners, m1: Mem, o1: Owners, m2: Mem, o2: Owners, d: int)
    requires Others(m, o, m1, o1, d) && Others(m1, o1, m2, o2, d)
    ensures Others(m, o, m2, o2, d)
  {
    forall f | f in o && Space(o, f) != d ensures f in o2 && o2[f] == o[f] && f in m && f in m2 && m2[f] == m[f] {
      assert o1[f] == o[f];
    }
    forall f | f in o2 && Space(o2, f) != d ensures f in o && o[f] == o2[f] {
      assert o2[f] == o1[f];
    }
  }
}
