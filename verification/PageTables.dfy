/** Two-level page tables of src/vm.c on values, and who owns each frame.

    `mem` gives the contents of every frame in use: a page directory or page
    table as its 1024 entries, or a page of user data. `owner` says what each of
    these frames is for. A virtual address is handled by its page number. */
module PageTables {
  import opened Arith
  import opened Frames

  const KERNBASE := 0x8000_0000
  const PHYSTOP := 0xE00_0000
  const NENTRIES := 1024

  /** Pages below KERNBASE: the user part, 512 directory entries. */
  const USERTABLES := 512
  const USERPAGES := 512 * 1024

  /** A frame the page allocator deals in. */
  predicate IsKernelFrame(v: int) {
    IsFrame(v) && KERNBASE < v < KERNBASE + PHYSTOP
  }

  function V2P(v: int): int {
    v - KERNBASE
  }

  function P2V(pa: int): int {
    pa + KERNBASE
  }

  // ---------------------------------------------------------------- entries

  const PTE_P := 1
  const PTE_W := 2
  const PTE_U := 4

  predicate Present(e: int) {
    e % 2 == 1
  }

  /** The bits that let a page be written to and be used by user code. */
  predicate Writable(e: int) {
    e / PTE_W % 2 == 1
  }

  predicate ForUser(e: int) {
    e / PTE_U % 2 == 1
  }

  function Addr(e: int): int {
    e - e % PGSIZE
  }

  function Flags(e: int): int {
    e % PGSIZE
  }

  /** `pa | perm | PTE_P`, for a page-aligned `pa`. */
  function Entry(pa: int, perm: int): int {
    pa + if perm % 2 == 1 then perm else perm + 1
  }

  function FrameOf(e: int): int {
    P2V(Addr(e))
  }

  lemma EntryParts(v: int, perm: int)
    requires IsKernelFrame(v) && 0 <= perm < PGSIZE
    ensures var e := Entry(V2P(v), perm);
      Present(e) && FrameOf(e) == v && Flags(e) == (if perm % 2 == 1 then perm else perm + 1)
  {
    PageSplit(V2P(v), if perm % 2 == 1 then perm else perm + 1);
  }

  lemma PageSplit(pa: nat, p: nat)
    requires pa % PGSIZE == 0 && p < PGSIZE
    ensures (pa + p) % PGSIZE == p && (pa + p) % 2 == p % 2
  {
    RemainderOf(pa / PGSIZE, PGSIZE, p);
    RemainderOf(2048 * (pa / PGSIZE) + p / 2, 2, p % 2);
  }

  // ----------------------------------------------------------------- memory

  datatype Cell = Table(es: seq<int>) | Data(bytes: seq<int>)

  type Mem = map<int, Cell>

  /** A page directory, the page table for directory entry `i` of directory `d`,
      or user page `v` of directory `d`. */
  datatype Owner = Directory | TableOf(d: int, i: int) | UserPage(d: int, v: int)

  type Owners = map<int, Owner>

  function ZeroTable(): (r: seq<int>)
    ensures |r| == NENTRIES && forall i :: 0 <= i < NENTRIES ==> r[i] == 0
  {
    seq(NENTRIES, _ => 0)
  }

  function ZeroPage(): seq<int> {
    seq(PGSIZE, _ => 0)
  }

  predicate IsTable(m: Mem, f: int) {
    f in m && m[f].Table? && |m[f].es| == NENTRIES
  }

  /** Directory entry `i` of directory `d`. */
  function Pde(m: Mem, d: int, i: int): int
    requires IsTable(m, d) && 0 <= i < NENTRIES
  {
    m[d].es[i]
  }

  predicate HasTable(m: Mem, d: int, i: int)
    requires IsTable(m, d) && 0 <= i < NENTRIES
  {
    Present(Pde(m, d, i)) && IsTable(m, FrameOf(Pde(m, d, i)))
  }

  function Pdx(v: int): int {
    v / NENTRIES
  }

  function Ptx(v: int): int {
    v % NENTRIES
  }

  /** The entry for page `v`, 0 where there is no page table. */
  function Pte(m: Mem, d: int, v: int): int
    requires IsTable(m, d) && 0 <= v < NENTRIES * NENTRIES
  {
    if HasTable(m, d, Pdx(v)) then m[FrameOf(Pde(m, d, Pdx(v)))].es[Ptx(v)] else 0
  }

  /** What user page `v` holds. */
  datatype View = Unmapped | Mapped(flags: int, bytes: seq<int>)

  function Look(m: Mem, d: int, v: int): View
    requires IsTable(m, d) && 0 <= v < USERPAGES
  {
    var e := Pte(m, d, v);
    if Present(e) && FrameOf(e) in m && m[FrameOf(e)].Data? then Mapped(Flags(e), m[FrameOf(e)].bytes) else Unmapped
  }

  /** What the processor lets user code do at page `v`: both levels must be present
      and allow it. */
  predicate UserMay(m: Mem, d: int, v: int, write: bool)
    requires IsTable(m, d) && 0 <= v < NENTRIES * NENTRIES
  {
    && HasTable(m, d, Pdx(v)) && Present(Pte(m, d, v))
    && ForUser(Pde(m, d, Pdx(v))) && ForUser(Pte(m, d, v))
    && (write ==> Writable(Pde(m, d, Pdx(v))) && Writable(Pte(m, d, v)))
  }

  // -------------------------------------------------------------- ownership

  /** Every present directory entry points to a table that is owned for it, and leaves
      the permissions to that table. */
  ghost predicate DirectoryOk(m: Mem, o: Owners, d: int) {
    && IsTable(m, d)
    && forall i :: 0 <= i < NENTRIES && Present(m[d].es[i]) ==>
         && FrameOf(m[d].es[i]) in o && o[FrameOf(m[d].es[i])] == TableOf(d, i)
         && Flags(m[d].es[i]) == PTE_P + PTE_W + PTE_U
  }

  /** Every present user entry points to a page that is owned for it. */
  ghost predicate TableOk(m: Mem, o: Owners, f: int, d: int, i: int) {
    && IsTable(m, f) && 0 <= i < NENTRIES && d in o && o[d] == Directory
    && IsTable(m, d) && Present(Pde(m, d, i)) && FrameOf(Pde(m, d, i)) == f
    && (i < USERTABLES ==>
        forall j :: 0 <= j < NENTRIES && Present(m[f].es[j]) ==>
          FrameOf(m[f].es[j]) in o && o[FrameOf(m[f].es[j])] == UserPage(d, NENTRIES * i + j))
  }

  ghost predicate PageOk(m: Mem, o: Owners, f: int, d: int, v: int) {
    && f in m && m[f].Data? && 0 <= v < USERPAGES && d in o && o[d] == Directory && IsTable(m, d)
    && Present(Pte(m, d, v)) && FrameOf(Pte(m, d, v)) == f
  }

  ghost predicate FrameOk(m: Mem, o: Owners, f: int)
    requires f in o
  {
    && IsKernelFrame(f)
    && match o[f]
       case Directory => DirectoryOk(m, o, f)
       case TableOf(d, i) => TableOk(m, o, f, d, i)
       case UserPage(d, v) => PageOk(m, o, f, d, v)
  }

  ghost predicate MemOk(m: Mem, o: Owners) {
    && m.Keys == o.Keys
    && forall f :: f in o ==> FrameOk(m, o, f)
  }

  /** The directory a frame belongs to. */
  function Space(o: Owners, f: int): int
    requires f in o
  {
    match o[f]
    case Directory => f
    case TableOf(d, _) => d
    case UserPage(d, _) => d
  }

  /** All address spaces but `d` keep their frames and what is in them. */
  ghost predicate Others(m: Mem, o: Owners, m': Mem, o': Owners, d: int) {
    && (forall f :: f in o && Space(o, f) != d ==> f in o' && o'[f] == o[f] && f in m && f in m' && m'[f] == m[f])
    && (forall f :: f in o' && Space(o', f) != d ==> f in o && o[f] == o'[f])
  }

  // -------------------------------------------------------------- operations

  function AddTable(m: Mem, d: int, i: int, f: int): Mem
    requires IsTable(m, d) && 0 <= i < NENTRIES
  {
    m[f := Table(ZeroTable())][d := Table(m[d].es[i := Entry(V2P(f), PTE_W + PTE_U)])]
  }

  lemma AddTableFrame(m: Mem, o: Owners, d: int, i: int, f: int, g: int)
    requires MemOk(m, o) && d in o && o[d] == Directory && 0 <= i < NENTRIES && IsTable(m, d) && !Present(Pde(m, d, i))
    requires IsKernelFrame(f) && f !in o && g in o
    ensures FrameOk(AddTable(m, d, i, f), o[f := TableOf(d, i)], g)
  {
    EntryParts(f, PTE_W + PTE_U);
    assert FrameOk(m, o, g);
    if o[g].UserPage? {
      assert FrameOk(m, o, o[g].d);
      assert FrameOk(m, o, FrameOf(Pde(m, o[g].d, Pdx(o[g].v))));
    }
  }

  lemma AddTableOk(m: Mem, o: Owners, d: int, i: int, f: int)
    requires MemOk(m, o) && d in o && o[d] == Directory && 0 <= i < NENTRIES && IsTable(m, d) && !Present(Pde(m, d, i))
    requires IsKernelFrame(f) && f !in o
    ensures MemOk(AddTable(m, d, i, f), o[f := TableOf(d, i)])
    ensures Others(m, o, AddTable(m, d, i, f), o[f := TableOf(d, i)], d)
  {
    EntryParts(f, PTE_W + PTE_U);
    var m', o' := AddTable(m, d, i, f), o[f := TableOf(d, i)];
    forall g | g in o' ensures FrameOk(m', o', g) {
      if g != f {
        AddTableFrame(m, o, d, i, f, g);
      }
    }
  }

  /** A new table maps nothing. */
  lemma AddTablePte(m: Mem, o: Owners, d: int, i: int, f: int, v: int)
    requires MemOk(m, o) && d in o && o[d] == Directory && 0 <= i < NENTRIES && IsTable(m, d) && !Present(Pde(m, d, i))
    requires IsKernelFrame(f) && f !in o && 0 <= v < NENTRIES * NENTRIES
    ensures var m' := AddTable(m, d, i, f); HasTable(m', d, i) && Pte(m', d, v) == Pte(m, d, v)
  {
    EntryParts(f, PTE_W + PTE_U);
    assert FrameOk(m, o, d);
    if Present(Pde(m, d, Pdx(v))) {
      assert FrameOk(m, o, FrameOf(Pde(m, d, Pdx(v))));
    }
  }

  /** The table frame that holds the entry for page `v`. */
  function TableFrame(m: Mem, d: int, v: int): int
    requires IsTable(m, d) && 0 <= v < NENTRIES * NENTRIES
  {
    FrameOf(Pde(m, d, Pdx(v)))
  }

  /** There is a page table for page `v`, and what it says can be changed. */
  ghost predicate Ready(m: Mem, o: Owners, d: int, v: int) {
    && MemOk(m, o) && d in o && o[d] == Directory && 0 <= v < NENTRIES * NENTRIES
    && IsTable(m, d) && HasTable(m, d, Pdx(v))
  }

  function SetPte(m: Mem, d: int, v: int, e: int): Mem
    requires IsTable(m, d) && 0 <= v < NENTRIES * NENTRIES && HasTable(m, d, Pdx(v))
  {
    var t := TableFrame(m, d, v);
    m[t := Table(m[t].es[Ptx(v) := e])]
  }

  function MapPage(m: Mem, d: int, v: int, f: int, perm: int, bytes: seq<int>): Mem
    requires IsTable(m, d) && 0 <= v < NENTRIES * NENTRIES && HasTable(m, d, Pdx(v)) && f !in m
  {
    SetPte(m, d, v, Entry(V2P(f), perm))[f := Data(bytes)]
  }

  function UnmapPage(m: Mem, d: int, v: int): Mem
    requires IsTable(m, d) && 0 <= v < NENTRIES * NENTRIES && HasTable(m, d, Pdx(v))
  {
    SetPte(m, d, v, 0) - {FrameOf(Pte(m, d, v))}
  }

  /** The table that holds page `v`'s entry is owned for it. */
  lemma TableFrameOwned(m: Mem, o: Owners, d: int, v: int)
    requires Ready(m, o, d, v)
    ensures var t := TableFrame(m, d, v); t in o && o[t] == TableOf(d, Pdx(v)) && t != d
  {
    assert FrameOk(m, o, d);
  }

  /** Entries that share a table are the same page's entry; all others are
      somewhere else. */
  lemma SetPteAt(m: Mem, o: Owners, d: int, v: int, e: int, w: int)
    requires Ready(m, o, d, v) && 0 <= w < NENTRIES * NENTRIES
    ensures var m' := SetPte(m, d, v, e);
      && IsTable(m', d) && HasTable(m', d, Pdx(w)) == HasTable(m, d, Pdx(w))
      && Pte(m', d, w) == if w == v then e else Pte(m, d, w)
  {
    TableFrameOwned(m, o, d, v);
    if HasTable(m, d, Pdx(w)) {
      TableFrameOwned(m, o, d, w);
    }
  }

  /** Only the entry of page `v` changes, to `e`, and only the frame of that
      page may come or go. */
  ghost predicate Local(m: Mem, o: Owners, m': Mem, o': Owners, d: int, v: int, e: int) {
    && Ready(m, o, d, v) && m'.Keys == o'.Keys
    && (forall g :: g in o && o[g] != UserPage(d, v) ==> g in o' && o'[g] == o[g])
    && (forall g :: g in o && o[g] != UserPage(d, v) && g != TableFrame(m, d, v) ==> g in m && m'[g] == m[g])
    && (forall g :: g in o' && o'[g] != UserPage(d, v) ==> g in o && o[g] == o'[g])
    && TableFrame(m, d, v) in m' && m'[TableFrame(m, d, v)] == Table(m[TableFrame(m, d, v)].es[Ptx(v) := e])
    && (v < USERPAGES && Present(e) ==> FrameOf(e) in o' && o'[FrameOf(e)] == UserPage(d, v))
  }

  lemma LocalDirectory(m: Mem, o: Owners, m': Mem, o': Owners, d: int, v: int, e: int, g: int)
    requires Local(m, o, m', o', d, v, e) && g in o && o[g] == Directory
    ensures FrameOk(m', o', g)
  {
    assert FrameOk(m, o, g);
    TableFrameOwned(m, o, d, v);
  }

  lemma LocalTable(m: Mem, o: Owners, m': Mem, o': Owners, d: int, v: int, e: int, g: int)
    requires Local(m, o, m', o', d, v, e) && g in o && o[g].TableOf?
    ensures FrameOk(m', o', g)
  {
    assert FrameOk(m, o, g);
    TableFrameOwned(m, o, d, v);
    assert FrameOk(m, o, o[g].d);
    if o[g] == TableOf(d, Pdx(v)) {
      assert FrameOk(m, o, TableFrame(m, d, v));
    }
  }

  lemma LocalPage(m: Mem, o: Owners, m': Mem, o': Owners, d: int, v: int, e: int, g: int)
    requires Local(m, o, m', o', d, v, e) && g in o && o[g].UserPage? && o[g] != UserPage(d, v)
    ensures FrameOk(m', o', g)
  {
    assert FrameOk(m, o, g);
    TableFrameOwned(m, o, d, v);
    TableFrameOwned(m, o, o[g].d, o[g].v);
  }

  lemma LocalOk(m: Mem, o: Owners, m': Mem, o': Owners, d: int, v: int, e: int)
    requires Local(m, o, m', o', d, v, e)
    requires forall g :: g in o' && o'[g] == UserPage(d, v) ==> FrameOk(m', o', g)
    ensures MemOk(m', o') && Others(m, o, m', o', d)
  {
    TableFrameOwned(m, o, d, v);
    forall g | g in o' ensures FrameOk(m', o', g) {
      if g in o && o[g] != UserPage(d, v) {
        match o[g]
        case Directory => LocalDirectory(m, o, m', o', d, v, e, g);
        case TableOf(_, _) => LocalTable(m, o, m', o', d, v, e, g);
        case UserPage(_, _) => LocalPage(m, o, m', o', d, v, e, g);
      }
    }
  }

  lemma NoSuchPage(m: Mem, o: Owners, d: int, v: int)
    requires Ready(m, o, d, v) && !Present(Pte(m, d, v))
    ensures forall g :: g in o ==> o[g] != UserPage(d, v)
  {
    forall g | g in o ensures o[g] != UserPage(d, v) {
      assert FrameOk(m, o, g);
    }
  }

  lemma MapPageOk(m: Mem, o: Owners, d: int, v: int, f: int, perm: int, bytes: seq<int>)
    requires Ready(m, o, d, v) && v < USERPAGES && !Present(Pte(m, d, v))
    requires IsKernelFrame(f) && f !in o && 0 <= perm < PGSIZE
    ensures MemOk(MapPage(m, d, v, f, perm, bytes), o[f := UserPage(d, v)])
    ensures Others(m, o, MapPage(m, d, v, f, perm, bytes), o[f := UserPage(d, v)], d)
  {
    var m', o' := MapPage(m, d, v, f, perm, bytes), o[f := UserPage(d, v)];
    EntryParts(f, perm);
    TableFrameOwned(m, o, d, v);
    NoSuchPage(m, o, d, v);
    assert Local(m, o, m', o', d, v, Entry(V2P(f), perm));
    assert Pte(m', d, v) == Entry(V2P(f), perm) by {
      SetPteAt(m, o, d, v, Entry(V2P(f), perm), v);
    }
    assert FrameOk(m', o', f);
    LocalOk(m, o, m', o', d, v, Entry(V2P(f), perm));
  }

  lemma UnmapPageOk(m: Mem, o: Owners, d: int, v: int)
    requires Ready(m, o, d, v) && v < USERPAGES && Present(Pte(m, d, v))
    ensures var f := FrameOf(Pte(m, d, v));
      f in o && o[f] == UserPage(d, v) && MemOk(UnmapPage(m, d, v), o - {f}) && Others(m, o, UnmapPage(m, d, v), o - {f}, d)
  {
    TableFrameOwned(m, o, d, v);
    var f := FrameOf(Pte(m, d, v));
    assert FrameOk(m, o, TableFrame(m, d, v));
    forall g | g in o && o[g] == UserPage(d, v) ensures g == f {
      assert FrameOk(m, o, g);
    }
    assert Local(m, o, UnmapPage(m, d, v), o - {f}, d, v, 0);
    LocalOk(m, o, UnmapPage(m, d, v), o - {f}, d, v, 0);
  }

  /** Kernel entries point to memory that no address space owns. */
  lemma SetKernelOk(m: Mem, o: Owners, d: int, v: int, e: int)
    requires Ready(m, o, d, v) && v >= USERPAGES
    ensures MemOk(SetPte(m, d, v, e), o) && Others(m, o, SetPte(m, d, v, e), o, d)
  {
    TableFrameOwned(m, o, d, v);
    forall g | g in o && o[g].UserPage? ensures o[g].v < USERPAGES {
      assert FrameOk(m, o, g);
    }
    assert Local(m, o, SetPte(m, d, v, e), o, d, v, e);
    LocalOk(m, o, SetPte(m, d, v, e), o, d, v, e);
  }

  // ------------------------------------------------------------------ views

  /** A page is mapped exactly when its entry is present. */
  lemma LookPresent(m: Mem, o: Owners, d: int, v: int)
    requires MemOk(m, o) && d in o && o[d] == Directory && IsTable(m, d) && 0 <= v < USERPAGES
    ensures Look(m, d, v).Mapped? <==> Present(Pte(m, d, v))
    ensures Present(Pte(m, d, v)) ==> var f := FrameOf(Pte(m, d, v)); f in o && o[f] == UserPage(d, v) && f in m && m[f].Data?
  {
    if Present(Pte(m, d, v)) {
      TableFrameOwned(m, o, d, v);
      assert FrameOk(m, o, TableFrame(m, d, v));
      assert FrameOk(m, o, FrameOf(Pte(m, d, v)));
    }
  }

  /** So what user code may do with a page is what the flags of its own entry say. */
  lemma UserMayAsFlagged(m: Mem, o: Owners, d: int, v: int, write: bool)
    requires MemOk(m, o) && d in o && o[d] == Directory && IsTable(m, d) && 0 <= v < USERPAGES
    ensures UserMay(m, d, v, write) <==>
      Look(m, d, v).Mapped? && ForUser(Look(m, d, v).flags) && (write ==> Writable(Look(m, d, v).flags))
  {
    LookPresent(m, o, d, v);
    assert FrameOk(m, o, d);
    if Present(Pte(m, d, v)) {
      FlagBits(Pde(m, d, Pdx(v)));
      FlagBits(Pte(m, d, v));
    }
  }

  lemma FlagBits(e: int)
    ensures Writable(e) == Writable(Flags(e)) && ForUser(e) == ForUser(Flags(e))
  {
    DivMod(e, PGSIZE);
    var q, r := e / PGSIZE, e % PGSIZE;
    DivMod(r, 2);
    DivIs(e, 2, 2048 * q + r / 2);
    DivMod(r / 2, 2);
    DivIs(2048 * q + r / 2, 2, 1024 * q + r / 2 / 2);
    DivMod(r, 4);
    DivIs(e, 4, 1024 * q + r / 4);
    DivMod(r / 4, 2);
    DivIs(1024 * q + r / 4, 2, 512 * q + r / 4 / 2);
  }

  lemma MapPageLook(m: Mem, o: Owners, d: int, v: int, f: int, perm: int, bytes: seq<int>, w: int)
    requires Ready(m, o, d, v) && v < USERPAGES && !Present(Pte(m, d, v)) && 0 <= w < USERPAGES
    requires IsKernelFrame(f) && f !in o && 0 <= perm < PGSIZE
    ensures var m' := MapPage(m, d, v, f, perm, bytes);
      IsTable(m', d) && Look(m', d, w) == if w == v then Mapped(Flags(Entry(V2P(f), perm)), bytes) else Look(m, d, w)
  {
    EntryParts(f, perm);
    SetPteAt(m, o, d, v, Entry(V2P(f), perm), w);
    LookPresent(m, o, d, w);
    TableFrameOwned(m, o, d, v);
  }

  /** The entries of `d` for kernel pages are the same. */
  ghost predicate SameKernel(m: Mem, m': Mem, d: int) {
    && IsTable(m, d) && IsTable(m', d)
    && forall w :: USERPAGES <= w < NENTRIES * NENTRIES ==> Pte(m', d, w) == Pte(m, d, w)
  }

  lemma MapPageKernel(m: Mem, o: Owners, d: int, v: int, f: int, perm: int, bytes: seq<int>)
    requires Ready(m, o, d, v) && v < USERPAGES && IsKernelFrame(f) && f !in o && 0 <= perm < PGSIZE
    ensures SameKernel(m, MapPage(m, d, v, f, perm, bytes), d)
  {
    var e := Entry(V2P(f), perm);
    var m1, m' := SetPte(m, d, v, e), MapPage(m, d, v, f, perm, bytes);
    TableFrameOwned(m, o, d, v);
    forall w | USERPAGES <= w < NENTRIES * NENTRIES ensures IsTable(m', d) && Pte(m', d, w) == Pte(m, d, w) {
      SetPteAt(m, o, d, v, e, w);
      if HasTable(m, d, Pdx(w)) {
        TableFrameOwned(m, o, d, w);
      } else {
        assert FrameOk(m, o, d);
      }
    }
  }

  lemma UnmapPageLook(m: Mem, o: Owners, d: int, v: int, w: int)
    requires Ready(m, o, d, v) && v < USERPAGES && Present(Pte(m, d, v)) && 0 <= w < USERPAGES
    ensures var m' := UnmapPage(m, d, v);
      IsTable(m', d) && Look(m', d, w) == if w == v then Unmapped else Look(m, d, w)
  {
    SetPteAt(m, o, d, v, 0, w);
    LookPresent(m, o, d, v);
    LookPresent(m, o, d, w);
    TableFrameOwned(m, o, d, v);
    if HasTable(m, d, Pdx(w)) {
      TableFrameOwned(m, o, d, w);
    }
  }

  /** Both memories map the same user pages in `d`, to the same bytes. */
  ghost predicate SameView(m: Mem, m': Mem, d: int) {
    && IsTable(m, d) && IsTable(m', d)
    && forall w :: 0 <= w < USERPAGES ==> Look(m', d, w) == Look(m, d, w)
  }

  lemma AddTableView(m: Mem, o: Owners, d: int, i: int, f: int)
    requires MemOk(m, o) && d in o && o[d] == Directory && 0 <= i < NENTRIES && IsTable(m, d) && !Present(Pde(m, d, i))
    requires IsKernelFrame(f) && f !in o
    ensures SameView(m, AddTable(m, d, i, f), d)
  {
    var m' := AddTable(m, d, i, f);
    forall w | 0 <= w < USERPAGES ensures Look(m', d, w) == Look(m, d, w) {
      AddTablePte(m, o, d, i, f, w);
      LookPresent(m, o, d, w);
    }
  }

  lemma SetKernelView(m: Mem, o: Owners, d: int, v: int, e: int)
    requires Ready(m, o, d, v) && v >= USERPAGES
    ensures SameView(m, SetPte(m, d, v, e), d)
  {
    TableFrameOwned(m, o, d, v);
    forall w | 0 <= w < USERPAGES ensures Look(SetPte(m, d, v, e), d, w) == Look(m, d, w) {
      SetPteAt(m, o, d, v, e, w);
      LookPresent(m, o, d, w);
    }
  }

  // --------------------------------------------------------------- counting

  /** Page tables a directory has. */
  function CountPresent(es: seq<int>): nat {
    if es == [] then 0 else CountPresent(es[..|es| - 1]) + if Present(es[|es| - 1]) then 1 else 0
  }

  lemma {:induction false} CountUpdate(es: seq<int>, k: nat, e: int)
    requires k < |es|
    ensures CountPresent(es[k := e]) == CountPresent(es) - (if Present(es[k]) then 1 else 0) + if Present(e) then 1 else 0
  {
    var n := |es| - 1;
    if k < n {
      CountUpdate(es[..n], k, e);
      assert es[k := e][..n] == es[..n][k := e];
    } else {
      assert es[k := e][..n] == es[..n];
    }
  }

  lemma {:induction false} CountAtMost(es: seq<int>)
    ensures CountPresent(es) <= |es|
  {
    if es != [] {
      CountAtMost(es[..|es| - 1]);
    }
  }

  lemma {:induction false} CountNone(es: seq<int>)
    requires forall i :: 0 <= i < |es| ==> !Present(es[i])
    ensures CountPresent(es) == 0
  {
    if es != [] {
      CountNone(es[..|es| - 1]);
    }
  }

  // ---------------------------------------------------------------- freeing

  /** The page tables of the first `k` directory entries. */
  ghost function TablesBelow(m: Mem, d: int, k: nat): set<int>
    requires IsTable(m, d) && k <= NENTRIES
  {
    if k == 0 then {}
    else TablesBelow(m, d, k - 1) + if Present(Pde(m, d, k - 1)) then {FrameOf(Pde(m, d, k - 1))} else {}
  }

  lemma {:induction false} TablesBelowIs(m: Mem, o: Owners, d: int, k: nat, f: int)
    requires MemOk(m, o) && d in o && o[d] == Directory && IsTable(m, d) && k <= NENTRIES
    ensures f in TablesBelow(m, d, k) <==> f in o && o[f].TableOf? && o[f].d == d && 0 <= o[f].i < k
  {
    if f in o {
      assert FrameOk(m, o, f);
    }
    if k > 0 {
      TablesBelowIs(m, o, d, k - 1, f);
      assert FrameOk(m, o, d);
    }
  }

  /** What is left when directory `d` and its page tables are gone. */
  ghost function Gone(m: Mem, d: int): set<int>
    requires IsTable(m, d)
  {
    TablesBelow(m, d, NENTRIES) + {d}
  }

  /** Nothing in `o` belongs to `d`. */
  ghost predicate NoFrames(o: Owners, d: int) {
    forall f :: f in o ==> Space(o, f) != d
  }

  /** With no user page left, the directory and its tables are all there is of
      an address space. */
  lemma GoneOk(m: Mem, o: Owners, d: int)
    requires MemOk(m, o) && d in o && o[d] == Directory && IsTable(m, d)
    requires forall w :: 0 <= w < USERPAGES ==> Look(m, d, w) == Unmapped
    ensures MemOk(m - Gone(m, d), o - Gone(m, d)) && NoFrames(o - Gone(m, d), d)
    ensures Others(m, o, m - Gone(m, d), o - Gone(m, d), d)
  {
    var m', o' := m - Gone(m, d), o - Gone(m, d);
    forall f | f in o ensures f in Gone(m, d) <==> Space(o, f) == d {
      TablesBelowIs(m, o, d, NENTRIES, f);
      assert FrameOk(m, o, f);
      if o[f].UserPage? {
        LookPresent(m, o, o[f].d, o[f].v);
      }
    }
    forall f | f in o' ensures FrameOk(m', o', f) {
      assert FrameOk(m, o, f);
    }
  }
}
