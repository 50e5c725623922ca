/**
 * Physical addresses behind the page table, and the part of `km_expand` that backs new heap
 * pages with frames.
 */
module HeapBacking {
  import opened Common
  import opened PageEntries
  import opened NumberBits
  import opened EntryBits
  import opened PageTrees
  import opened PageTables
  import opened FrameBitmap

  /** The physical address the hardware computes from a mapping. */
  function PhysAddr(m: Mapping, va: nat): Option<nat> {
    match m
    case Unmapped => None
    case Page(e) => Some(Frame(e) * 4096 + va % 4096)
    case HugePage(e) => Some(Frame(e) / 512 * 0x20_0000 + va % 0x20_0000)
  }

  // ---------------------------------------------------------------- the address field of an entry

  lemma BitOrCommutes(a: nat, b: nat)
    ensures BitOr(a, b) == BitOr(b, a)
    decreases a + b
  {
  }

  lemma OrShift12(a: nat, b: nat)
    ensures BitOr(a, b) / 4096 == BitOr(a / 4096, b / 4096)
  {
    hide BitOr;
    OrShift6(a, b);
    OrShift6(a / 64, b / 64);
    assert a / 64 / 64 == a / 4096 && b / 64 / 64 == b / 4096;
    assert BitOr(a, b) / 64 / 64 == BitOr(a, b) / 4096;
  }

  lemma OrShift6(a: nat, b: nat)
    ensures BitOr(a, b) / 64 == BitOr(a / 64, b / 64)
  {
    hide BitOr;
    BitOrHalf(a, b);
    BitOrHalf(a / 2, b / 2);
    BitOrHalf(a / 2 / 2, b / 2 / 2);
    BitOrHalf(a / 2 / 2 / 2, b / 2 / 2 / 2);
    BitOrHalf(a / 2 / 2 / 2 / 2, b / 2 / 2 / 2 / 2);
    BitOrHalf(a / 2 / 2 / 2 / 2 / 2, b / 2 / 2 / 2 / 2 / 2);
    HalfTwice(a);
    HalfTwice(b);
    HalfTwice(BitOr(a, b));
  }

  /** Flag bits outside the address field leave the address field of an entry alone. */
  lemma OrKeepsFrame(f: nat, flags: nat)
    requires f < FRAMES && Frame(flags) == 0
    ensures Frame(BitOr(f * 4096, flags)) == f
  {
    hide BitOr, Pow2;
    var high := flags / 4096;
    assert high == high / FRAMES * FRAMES;
    OrShift12(f * 4096, flags);
    Powers();
    BitOrAdd(high, f, 40);
    BitOrCommutes(high, f);
    assert (high / FRAMES * FRAMES + f) % FRAMES == f;
  }

  lemma PteMakeFrame(pa: nat, flags: nat)
    requires Frame(flags) == 0
    ensures Frame(PteMake(pa, flags)) == Frame(pa)
  {
    hide BitOr;
    var x := BitOr(Frame(pa) * 4096, flags);
    OrKeepsFrame(Frame(pa), flags);
    OrShift12(x, PTE_A);
    OrZero(x / 4096);
  }

  lemma HugeMakeFrame(pa: nat, flags: nat)
    requires Frame(flags) == 0
    ensures Frame(HugeMake(pa, flags)) == Frame(pa) / 512 * 512
  {
    hide BitOr;
    var f := Frame(pa) / 512 * 512;
    var x := BitOr(f * 4096, flags);
    OrKeepsFrame(f, flags);
    OrShift12(x, PTE_PS);
    OrZero(x / 4096);
  }

  lemma OrZero(a: nat)
    ensures BitOr(a, 0) == a
  {
  }

  /** After `vmm_map` a page-aligned address reaches the frame it was mapped to. */
  lemma MappedAddress(pa: nat, flags: nat, va: nat)
    requires pa % 4096 == 0 && pa / 4096 < FRAMES && Frame(flags) == 0
    ensures PhysAddr(Page(PteMake(pa, flags)), va) == Some(pa + va % 4096)
  {
    hide PteMake;
    PteMakeFrame(pa, flags);
  }

  /** A heap page is present and writable, not executable and not open to user code. */
  lemma HeapPageBits(f: nat)
    ensures forall i: nat :: BitAt(PteMake(f * 4096, HEAP_FLAGS), i) <==>
      (12 <= i < 52 && BitAt(f * 4096, i)) || i in {0, 1, 5, 63}
  {
    hide PteMake, BitAt;
    PteMakeBits(f * 4096, HEAP_FLAGS);
    forall i: nat
      ensures BitAt(HEAP_FLAGS, i) <==> i in {0, 1, 63}
    {
      SmallFlags(i);
      TopBit(3, i);
    }
  }

  /** The initial direct map is the identity on the first 4 GiB; the kernel image lies at 2 MiB. */
  lemma InitialAddresses(va: nat)
    requires va < TWO_64
    ensures DIRECT_MAP_OFFSET <= va < DIRECT_MAP_OFFSET + 0x1_0000_0000 ==>
      PhysAddr(InitialMap(2048, 4, va), va) == Some(va - DIRECT_MAP_OFFSET)
    ensures KERNEL_VIRT_BASE <= va < KERNEL_VIRT_BASE + 0x80_0000 ==>
      PhysAddr(InitialMap(2048, 4, va), va) == Some(va - KERNEL_VIRT_BASE + KERNEL_PHYS_BASE)
  {
    hide HugeMake;
    if DIRECT_MAP_OFFSET <= va < DIRECT_MAP_OFFSET + 0x1_0000_0000 {
      var o := va - DIRECT_MAP_OFFSET;
      assert Region(va) == DIRECT_REGION + o / 0x20_0000;
      HugeMakeFrame(o / 0x20_0000 * 0x20_0000, DIRECT_FLAGS);
      HugeAddress(o / 0x20_0000, va, o);
    } else if KERNEL_VIRT_BASE <= va < KERNEL_VIRT_BASE + 0x80_0000 {
      var o := va - KERNEL_VIRT_BASE;
      assert Region(va) == KERNEL_REGION + o / 0x20_0000;
      HugeMakeFrame(KERNEL_PHYS_BASE + o / 0x20_0000 * 0x20_0000, KERNEL_FLAGS);
      HugeAddress(o / 0x20_0000 + 1, va, o + KERNEL_PHYS_BASE);
    }
  }

  lemma HugeAddress(n: nat, va: nat, pa: nat)
    requires n < 4096 && n == pa / 0x20_0000 && va % 0x20_0000 == pa % 0x20_0000
    ensures Frame(n * 0x20_0000) / 512 * 512 / 512 * 0x20_0000 + va % 0x20_0000 == pa
  {
    assert n * 0x20_0000 / 4096 == n * 512;
  }

  // ---------------------------------------------------------------- backing the heap

  const HEAP_FLAGS := PTE_P + PTE_W + PTE_NX

  /** The page number of `vb` moved to the 48-bit address space of `va`, which is what the tables see. */
  function PageIn(va: nat, vb: nat): nat {
    va / 4096 / PAGES * PAGES + Vpn(vb)
  }

  /**
   * Pages `lo` to `hi` of the range that starts at `va` map to consecutive frames, counted from
   * `base` for page 0; every other address translates as before.
   */
  ghost predicate Backed(mem: Frames, mem': Frames, root: nat, va: nat, base: nat, lo: nat, hi: nat) {
    forall vb: nat :: Translate(mem', root, vb) ==
      if lo <= PageIn(va, vb) - va / 4096 < hi
      then Page(PteMake((base + PageIn(va, vb) - va / 4096) * 4096, HEAP_FLAGS))
      else Translate(mem, root, vb)
  }

  /** The range is aligned, stays inside one 48-bit address space, and is not mapped yet. */
  ghost predicate Fresh(mem: Frames, root: nat, va: nat, pages: nat) {
    && va % 4096 == 0 && va / 4096 + pages <= (va / 4096 / PAGES + 1) * PAGES
    && forall vb: nat :: 0 <= PageIn(va, vb) - va / 4096 < pages ==> Translate(mem, root, vb) == Unmapped
  }

  lemma PageNumber(va: nat, pages: nat, i: nat)
    requires va % 4096 == 0 && va / 4096 + pages <= (va / 4096 / PAGES + 1) * PAGES && i < pages
    ensures PageIn(va, va + i * 4096) == va / 4096 + i
  {
    var p := va / 4096;
    assert (va + i * 4096) / 4096 == p + i;
    var (q, r) := (p / PAGES, p % PAGES);
    assert p == q * PAGES + r && r + i < PAGES;
    assert (q * PAGES + (r + i)) % PAGES == r + i;
  }

  lemma SamePageIn(va: nat, vb: nat, vc: nat)
    ensures Vpn(vb) == Vpn(vc) <==> PageIn(va, vb) == PageIn(va, vc)
  {
  }

  lemma BackOne(m0: Frames, mem: Frames, mem': Frames, root: nat, va: nat, base: nat, pages: nat, i: nat)
    requires Fresh(m0, root, va, pages) && i < pages && Backed(m0, mem, root, va, base, 0, i)
    requires PageChanged(mem, mem', root, va + i * 4096, Page(PteMake((base + i) * 4096, HEAP_FLAGS)))
    ensures Backed(m0, mem', root, va, base, 0, i + 1)
  {
    hide Translate, PteMake, PageIn, Vpn;
    PageNumber(va, pages, i);
    forall vb: nat
      ensures Translate(mem', root, vb) ==
        if 0 <= PageIn(va, vb) - va / 4096 < i + 1
        then Page(PteMake((base + PageIn(va, vb) - va / 4096) * 4096, HEAP_FLAGS)) else Translate(m0, root, vb)
    {
      SamePageIn(va, vb, va + i * 4096);
      assert Translate(mem, root, vb) == Translate(mem, root, vb);
    }
  }

  lemma UnbackOne(m0: Frames, mem: Frames, mem': Frames, root: nat, va: nat, base: nat, pages: nat, j: nat, n: nat)
    requires Fresh(m0, root, va, pages) && j < n <= pages && Backed(m0, mem, root, va, base, j, n)
    requires PageChanged(mem, mem', root, va + j * 4096, Unmapped)
    ensures Backed(m0, mem', root, va, base, j + 1, n)
  {
    hide Translate, PteMake, PageIn, Vpn;
    PageNumber(va, pages, j);
    forall vb: nat
      ensures Translate(mem', root, vb) ==
        if j + 1 <= PageIn(va, vb) - va / 4096 < n
        then Page(PteMake((base + PageIn(va, vb) - va / 4096) * 4096, HEAP_FLAGS)) else Translate(m0, root, vb)
    {
      SamePageIn(va, vb, va + j * 4096);
      assert Translate(mem, root, vb) == Translate(mem, root, vb);
    }
  }

  lemma BackedNone(mem: Frames, mem': Frames, root: nat, va: nat, base: nat, n: nat)
    ensures Backed(mem, mem', root, va, base, n, n) <==> Unchanged(mem, mem', root)
  {
    hide Translate, PteMake, PageIn, Vpn;
  }

  lemma BackedAt(m0: Frames, mem: Frames, root: nat, va: nat, base: nat, pages: nat, lo: nat, hi: nat, i: nat)
    requires Fresh(m0, root, va, pages) && i < pages && hi <= pages && Backed(m0, mem, root, va, base, lo, hi)
    ensures Translate(mem, root, va + i * 4096).Page? <==> lo <= i < hi
    ensures !Translate(mem, root, va + i * 4096).HugePage?
  {
    hide Translate, PteMake, PageIn, Vpn;
    PageNumber(va, pages, i);
  }

  lemma BackedThen(m0: Frames, mem: Frames, mem': Frames, root: nat, va: nat, base: nat, lo: nat, hi: nat)
    requires Backed(m0, mem, root, va, base, lo, hi) && Unchanged(mem, mem', root)
    ensures Backed(m0, mem', root, va, base, lo, hi)
  {
    hide Translate, PteMake, PageIn, Vpn;
    forall vb: nat
      ensures Translate(mem', root, vb) ==
        if lo <= PageIn(va, vb) - va / 4096 < hi
        then Page(PteMake((base + PageIn(va, vb) - va / 4096) * 4096, HEAP_FLAGS)) else Translate(m0, root, vb)
    {
      assert Translate(mem', root, vb) == Translate(mem, root, vb);
    }
  }

  lemma BackedNothing(mem: Frames, root: nat, va: nat, base: nat)
    ensures Unchanged(mem, mem, root) && Backed(mem, mem, root, va, base, 0, 0)
  {
    hide Translate, PteMake, PageIn, Vpn;
  }

  /** The loop of `km_expand` that unmaps what was mapped when a page cannot be mapped. */
  method UndoPages(vmm: Vmm, va: nat, mapped: nat, ghost m0: Frames, ghost base: nat, ghost pages: nat)
    requires vmm.Valid() && Fresh(m0, vmm.root, va, pages) && mapped <= pages
    requires Backed(m0, vmm.mem, vmm.root, va, base, 0, mapped)
    modifies vmm`mem, vmm`level, vmm.pmm`freeFrames, vmm.pmm.words
    ensures vmm.Valid() && Unchanged(m0, vmm.mem, vmm.root)
    ensures vmm.level == old(vmm.level) && vmm.pmm.Free() == old(vmm.pmm.Free())
  {
    hide Tree, Pmm.Free, Translate, Backed, Fresh, PageChanged, Unchanged, TablesOnly;
    FreshAligned(m0, vmm.root, va, pages);
    for j := 0 to mapped
      invariant vmm.Valid() && vmm.level == old(vmm.level) && vmm.pmm.Free() == old(vmm.pmm.Free())
      invariant Backed(m0, vmm.mem, vmm.root, va, base, j, mapped)
    {
      BackedAt(m0, vmm.mem, vmm.root, va, base, pages, j, mapped, j);
      ghost var m1 := vmm.mem;
      PageAligned(va, base, j);
      var code := vmm.Unmap(va + j * 4096);
      assert code == 0;
      UnbackOne(m0, m1, vmm.mem, vmm.root, va, base, pages, j, mapped);
    }
    BackedNone(m0, vmm.mem, vmm.root, va, base, mapped);
  }

  /**
   * The loop of `km_expand` that maps page after page, and undoes it all when one fails, which
   * happens only when the frames for tables have run out.
   */
  method MapPages(vmm: Vmm, va: nat, base: nat, pages: nat) returns (ok: bool)
    requires vmm.Valid() && Fresh(vmm.mem, vmm.root, va, pages)
    modifies vmm`mem, vmm`level, vmm.pmm`freeFrames, vmm.pmm.words
    ensures vmm.Valid()
    ensures ok ==> Backed(old(vmm.mem), vmm.mem, vmm.root, va, base, 0, pages)
    ensures !ok ==> Unchanged(old(vmm.mem), vmm.mem, vmm.root) && vmm.pmm.Free() == {}
    ensures NewTables(old(vmm.level), old(vmm.pmm.Free()), vmm.level, vmm.pmm.Free())
    ensures |old(vmm.pmm.Free())| <= |vmm.pmm.Free()| + 3 * pages
  {
    hide Tree, Pmm.Free, Translate, Backed, Fresh, PteMake, PageChanged, Unchanged, NewTables, TablesOnly;
    ghost var (m0, l0, f0) := (vmm.mem, vmm.level, vmm.pmm.Free());
    BackedNothing(m0, vmm.root, va, base);
    NoNewTables(l0, f0);
    FreshAligned(m0, vmm.root, va, pages);
    var mapped := 0;
    for i := 0 to pages
      invariant mapped == i && vmm.Valid()
      invariant Backed(m0, vmm.mem, vmm.root, va, base, 0, i)
      invariant NewTables(l0, f0, vmm.level, vmm.pmm.Free())
      invariant |f0| <= |vmm.pmm.Free()| + 3 * i
    {
      BackedAt(m0, vmm.mem, vmm.root, va, base, pages, 0, i, i);
      ghost var (m1, l1, f1) := (vmm.mem, vmm.level, vmm.pmm.Free());
      PageAligned(va, base, i);
      var code := vmm.Map(va + i * 4096, (base + i) * 4096, HEAP_FLAGS);
      MoreNewTables(l0, f0, m1, l1, f1, vmm.mem, vmm.level, vmm.pmm.Free());
      if code != 0 {
        BackedThen(m0, m1, vmm.mem, vmm.root, va, base, 0, i);
        UndoPages(vmm, va, mapped, m0, base, pages);
        return false;
      }
      BackOne(m0, m1, vmm.mem, vmm.root, va, base, pages, i);
      mapped := mapped + 1;
    }
    return true;
  }

  /** The page tables and the frame bitmap as a value. */
  datatype Paging = Paging(mem: Frames, root: nat, level: map<nat, nat>, free: set<nat>, total: nat)

  ghost function PagingOf(vmm: Vmm): Paging
    requires vmm.pmm.Valid()
    reads vmm, vmm.pmm.words
  {
    Paging(vmm.mem, vmm.root, vmm.level, vmm.pmm.Free(), vmm.pmm.totalFrames)
  }

  /** The frames that a failed growth does not give back: `pmm_free_frames` ignores address 0. */
  ghost function Lost(free: set<nat>, pages: nat): set<nat> {
    if pages > 0 && Range(0, pages) <= free then Range(0, pages) else {}
  }

  /** The search for frames found nothing: no pages were asked for, or no long run is free. */
  ghost predicate NoFrames(free: set<nat>, pages: nat) {
    pages == 0 || NoRun(free, 0, SureRun(pages, 1))
  }

  /** All the free frames went to the new pages and to tables, and did not suffice. */
  ghost predicate FramesRanOut(free: set<nat>, tables: set<nat>, pages: nat, base: nat) {
    && pages > 0 && free == Range(base, base + pages) + tables && Range(base, base + pages) !! tables
    && (base == 0 <==> Range(0, pages) <= free) && |free| <= 4 * pages
  }

  /**
   * What asking for `pages` new heap pages at `va` does.  Either they are all backed with
   * consecutive frames that were free, or every translation is as before.  It fails only when
   * the search finds no frames, and then changes nothing, or when the frames for tables run
   * out.  After a failure every frame is free again but for those that became tables, and but
   * for the whole range when that began at frame 0.
   */
  ghost predicate Backing(p: Paging, p': Paging, va: nat, pages: nat, ok: bool, base: nat) {
    var tables := p'.level.Keys - p.level.Keys;
    && p'.root == p.root && p'.total == p.total
    && p.level.Keys <= p'.level.Keys && tables <= p.free
    && if ok then
         && pages > 0 && Range(base, base + pages) <= p.free && Range(base, base + pages) !! tables
         && p'.free == p.free - Range(base, base + pages) - tables
         && Backed(p.mem, p'.mem, p.root, va, base, 0, pages)
       else
         && Unchanged(p.mem, p'.mem, p.root)
         && p'.free == p.free - Lost(p.free, pages) - tables
         && ((NoFrames(p.free, pages) && p' == p) || FramesRanOut(p.free, tables, pages, base))
  }

  /** The part of `km_expand` that backs new heap pages. */
  method BackPages(vmm: Vmm, va: nat, pages: nat) returns (ok: bool, base: nat)
    requires vmm.Valid()
    requires pages <= |vmm.pmm.Free()| ==> Fresh(vmm.mem, vmm.root, va, pages)
    modifies vmm`mem, vmm`level, vmm.pmm`freeFrames, vmm.pmm.words
    ensures vmm.Valid() && Backing(old(PagingOf(vmm)), PagingOf(vmm), va, pages, ok, base)
    ensures !ok ==> Unchanged(old(vmm.mem), vmm.mem, vmm.root)
    ensures !ok && (pages == 0 || !(Range(0, pages) <= old(vmm.pmm.Free()))) ==>
      vmm.pmm.Free() == old(vmm.pmm.Free()) - (vmm.level.Keys - old(vmm.level).Keys)
    ensures !ok && pages > 0 && Range(0, pages) <= old(vmm.pmm.Free()) ==>
      vmm.pmm.Free() == old(vmm.pmm.Free()) - Range(0, pages) - (vmm.level.Keys - old(vmm.level).Keys)
    ensures ok ==> pages > 0 && Backed(old(vmm.mem), vmm.mem, vmm.root, va, base, 0, pages)
    ensures ok ==> Range(base, base + pages) <= old(vmm.pmm.Free())
    ensures ok ==> Range(base, base + pages) !! vmm.pmm.Free() + (vmm.level.Keys - old(vmm.level).Keys)
  {
    hide Tree, Pmm.Free, Translate, Backed, Fresh, Range, Unchanged, NewTables, NoFrames, Backing;
    ghost var p := PagingOf(vmm);
    base := 0;
    var r := TakeFrames(vmm.pmm, pages);
    if r.None? {
      NothingBacked(p, va, pages);
      BackingMeans(p, p, va, pages, false, 0);
      return false, 0;
    }
    base := r.value;
    RangeCount(p.free, base, pages);
    ok := BackWith(vmm, va, pages, base, p);
    BackingMeans(p, PagingOf(vmm), va, pages, ok, base);
  }

  /** The mapping of the frames that were taken, and the return of them on failure. */
  method BackWith(vmm: Vmm, va: nat, pages: nat, base: nat, ghost p: Paging) returns (ok: bool)
    requires vmm.Valid() && pages > 0 && base + pages <= vmm.pmm.totalFrames
    requires Range(base, base + pages) <= p.free && (base == 0 <==> Range(0, pages) <= p.free)
    requires PagingOf(vmm) == p.(free := p.free - Range(base, base + pages))
    requires p.level.Keys !! p.free && Fresh(vmm.mem, vmm.root, va, pages)
    modifies vmm`mem, vmm`level, vmm.pmm`freeFrames, vmm.pmm.words
    ensures vmm.Valid() && Backing(p, PagingOf(vmm), va, pages, ok, base)
  {
    hide Tree, Pmm.Free, Translate, Backed, Fresh, Range, Unchanged, NewTables, NoFrames, Backing, Lost;
    RangeCount(p.free, base, pages);
    ok := MapPages(vmm, va, base, pages);
    if ok {
      PagesBacked(p, PagingOf(vmm), va, pages, base);
    } else {
      FailBacking(vmm, va, pages, base, p);
    }
  }

  /** The end of the failure path: the frames of the range are given back. */
  method FailBacking(vmm: Vmm, va: nat, pages: nat, base: nat, ghost p: Paging)
    requires vmm.Valid() && pages > 0 && base + pages <= vmm.pmm.totalFrames && p.level.Keys !! p.free
    requires Range(base, base + pages) <= p.free && (base == 0 <==> Range(0, pages) <= p.free)
    requires vmm.pmm.Free() == {} && |p.free| <= 4 * pages && vmm.root == p.root && vmm.pmm.totalFrames == p.total
    requires NewTables(p.level, p.free - Range(base, base + pages), vmm.level, {})
    requires Unchanged(p.mem, vmm.mem, p.root)
    modifies vmm.pmm`freeFrames, vmm.pmm.words
    ensures vmm.Valid() && Backing(p, PagingOf(vmm), va, pages, false, base)
  {
    hide Tree, Pmm.Free, Translate, Range, Unchanged, NewTables, NoFrames, Backing, Lost;
    TablesAndRange(p.level, p.free, Range(base, base + pages), vmm.level, {});
    GiveBack(vmm, base, pages);
    NothingAndRange(Range(base, base + pages));
    FramesUsedUp(p, PagingOf(vmm), va, pages, base);
  }

  lemma NothingAndRange(s: set<nat>)
    ensures {} + s == s
  {
  }

  /** The call of `pmm_alloc_frames`: consecutive free frames, if the search finds any. */
  method TakeFrames(pmm: Pmm, pages: nat) returns (r: Option<nat>)
    requires pmm.Valid()
    modifies pmm`freeFrames, pmm.words
    ensures r.None? ==> pmm.Free() == old(pmm.Free()) && NoFrames(old(pmm.Free()), pages)
    ensures r.Some? ==> pages > 0 && r.value + pages <= pmm.totalFrames
    ensures r.Some? ==> Range(r.value, r.value + pages) <= old(pmm.Free())
    ensures r.Some? ==> pmm.Free() == old(pmm.Free()) - Range(r.value, r.value + pages)
    ensures pages > 0 ==> (r == Some(0) <==> Range(0, pages) <= old(pmm.Free()))
  {
    hide Pmm.Free, Range, NoRun;
    assert PowerOfTwoOrZero(1);
    r := pmm.AllocFrames(pages, 1);
    if r.Some? {
      RangeNotEmpty(r.value, pages);
    }
  }

  /** The call of `pmm_free_frames` on the failure path: it ignores a range that begins at frame 0. */
  method GiveBack(vmm: Vmm, base: nat, pages: nat)
    requires vmm.Valid() && base + pages <= vmm.pmm.totalFrames
    requires Range(base, base + pages) !! vmm.level.Keys
    modifies vmm.pmm`freeFrames, vmm.pmm.words
    ensures vmm.Valid()
    ensures base != 0 ==> vmm.pmm.Free() == old(vmm.pmm.Free()) + Range(base, base + pages)
    ensures base == 0 ==> vmm.pmm.Free() == old(vmm.pmm.Free())
  {
    hide Tree, Pmm.Free, Range;
    FrameAddress(base);
    vmm.pmm.FreeFrames(base * 4096, pages);
  }

  lemma PagesBacked(p: Paging, p': Paging, va: nat, pages: nat, base: nat)
    requires pages > 0 && Range(base, base + pages) <= p.free && p'.root == p.root && p'.total == p.total
    requires NewTables(p.level, p.free - Range(base, base + pages), p'.level, p'.free)
    requires Backed(p.mem, p'.mem, p.root, va, base, 0, pages)
    ensures Backing(p, p', va, pages, true, base)
  {
    hide Range, Backed;
  }

  lemma FramesUsedUp(p: Paging, p': Paging, va: nat, pages: nat, base: nat)
    requires pages > 0 && Range(base, base + pages) <= p.free && p'.root == p.root && p'.total == p.total
    requires NewTables(p.level, p.free - Range(base, base + pages), p'.level, {})
    requires p'.free == if base == 0 then {} else Range(base, base + pages)
    requires base == 0 <==> Range(0, pages) <= p.free
    requires |p.free| <= 4 * pages && Unchanged(p.mem, p'.mem, p.root)
    ensures Backing(p, p', va, pages, false, base)
  {
    hide Range, Unchanged, FramesRanOut, Lost, NoFrames;
    UsedUp(p.free, p'.level.Keys - p.level.Keys, pages, base, p'.free);
  }

  lemma UsedUp(free: set<nat>, tables: set<nat>, pages: nat, base: nat, free': set<nat>)
    requires pages > 0 && Range(base, base + pages) <= free && tables <= free - Range(base, base + pages)
    requires free - Range(base, base + pages) - tables == {} && |free| <= 4 * pages
    requires free' == if base == 0 then {} else Range(base, base + pages)
    requires base == 0 <==> Range(0, pages) <= free
    ensures FramesRanOut(free, tables, pages, base) && free' == free - Lost(free, pages) - tables
  {
    hide Range;
    NothingLeft(free, Range(base, base + pages), tables);
  }

  lemma NothingLeft(free: set<nat>, range: set<nat>, tables: set<nat>)
    requires range <= free && tables <= free - range && free - range - tables == {}
    ensures free == range + tables && free - {} - tables == range
  {
    forall x | x in free
      ensures x in range + tables
    {
      assert x !in free - range - tables;
    }
  }

  lemma BackingMeans(p: Paging, p': Paging, va: nat, pages: nat, ok: bool, base: nat)
    requires Backing(p, p', va, pages, ok, base)
    ensures !ok ==> Unchanged(p.mem, p'.mem, p.root)
    ensures !ok && (pages == 0 || !(Range(0, pages) <= p.free)) ==> p'.free == p.free - (p'.level.Keys - p.level.Keys)
    ensures !ok && pages > 0 && Range(0, pages) <= p.free ==>
      p'.free == p.free - Range(0, pages) - (p'.level.Keys - p.level.Keys)
    ensures ok ==> pages > 0 && Backed(p.mem, p'.mem, p.root, va, base, 0, pages)
    ensures ok ==> Range(base, base + pages) <= p.free
    ensures ok ==> Range(base, base + pages) !! p'.free + (p'.level.Keys - p.level.Keys)
  {
    hide Range, Backed, Unchanged, NoFrames;
  }

  lemma NothingBacked(p: Paging, va: nat, pages: nat)
    requires NoFrames(p.free, pages) && (pages > 0 ==> !(Range(0, pages) <= p.free))
    ensures Backing(p, p, va, pages, false, 0)
  {
    hide Translate, NoFrames, Backed;
    assert p.level.Keys - p.level.Keys == {};
  }

  /** The bitmap has lost exactly the frames that became tables. */
  ghost predicate NewTables(l0: map<nat, nat>, f0: set<nat>, level: map<nat, nat>, free: set<nat>) {
    l0.Keys <= level.Keys && level.Keys - l0.Keys <= f0 && free == f0 - (level.Keys - l0.Keys)
  }

  lemma NoNewTables(l0: map<nat, nat>, f0: set<nat>)
    ensures NewTables(l0, f0, l0, f0)
  {
  }

  lemma MoreNewTables(l0: map<nat, nat>, f0: set<nat>, m1: Frames, l1: map<nat, nat>, f1: set<nat>,
                      m2: Frames, l2: map<nat, nat>, f2: set<nat>)
    requires NewTables(l0, f0, l1, f1) && TablesOnly(m1, l1, f1, m2, l2, f2)
    ensures NewTables(l0, f0, l2, f2)
  {
    assert forall x :: x in l1.Keys ==> x in l2.Keys;
  }

  /** The frames of a range taken before the tables: apart from them, and what giving it back restores. */
  lemma TablesAndRange(l0: map<nat, nat>, f0: set<nat>, range: set<nat>, level: map<nat, nat>, free: set<nat>)
    requires range <= f0 && NewTables(l0, f0 - range, level, free)
    ensures range !! free + (level.Keys - l0.Keys)
    ensures free + range == f0 - (level.Keys - l0.Keys)
    ensures l0.Keys !! f0 ==> range !! level.Keys
  {
  }

  /** The range fits into what was free, and what is left is that much less. */
  lemma RangeCount(free: set<nat>, base: nat, pages: nat)
    requires Range(base, base + pages) <= free
    ensures |free - Range(base, base + pages)| + pages == |free|
  {
    RemovedSize(free, base, pages);
  }

  lemma RangeNotEmpty(base: nat, pages: nat)
    requires pages > 0
    ensures base in Range(base, base + pages) && base + pages - 1 in Range(base, base + pages)
  {
  }

  lemma FrameAddress(base: nat)
    ensures base * 4096 != TWO_64 - 1 && base * 4096 / 4096 == base && (base * 4096 == 0 <==> base == 0)
  {
  }

  lemma FreshAligned(mem: Frames, root: nat, va: nat, pages: nat)
    requires Fresh(mem, root, va, pages)
    ensures va % 4096 == 0
  {
  }

  lemma PageAligned(va: nat, base: nat, i: nat)
    requires va % 4096 == 0
    ensures (va + i * 4096) % 4096 == 0 && (base + i) * 4096 % 4096 == 0 && Present(HEAP_FLAGS)
  {
  }
}
