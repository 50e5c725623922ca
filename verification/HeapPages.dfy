/**
 * The pages behind the kernel heap: every heap page has a frame of its own, and growth keeps it
 * so.
 */
module HeapPages {
  import opened Common
  import opened PageEntries
  import opened PageTrees
  import opened PageTables
  import opened FrameBitmap
  import opened HeapBacking

  /** The page tables are a tree of frames marked used; what is free lies in the bitmap. */
  ghost predicate Sound(p: Paging) {
    && p.total <= FRAMES && Tree(p.mem, p.root, p.level)
    && (forall t :: t in p.level ==> t < p.total && t !in p.free)
    && (forall f :: f in p.free ==> f < p.total)
  }

  /** What page `i` of the heap's address range maps to. */
  function HeapPage(p: Paging, i: nat): Mapping {
    Translate(p.mem, p.root, HEAP_START + i * 4096)
  }

  /** The entry that `km_expand` writes for a heap page. */
  function HeapEntry(f: nat): nat {
    PteMake(f * 4096, HEAP_FLAGS)
  }

  /** The frames are in use, no two are the same, and none is a table. */
  ghost predicate OwnFrames(p: Paging, frames: seq<nat>) {
    && (forall i :: 0 <= i < |frames| ==> frames[i] < p.total && frames[i] !in p.free && frames[i] !in p.level)
    && (forall i, j :: 0 <= i < j < |frames| ==> frames[i] != frames[j])
  }

  /** The heap's pages map to the frames, one to one; the addresses behind the heap are not mapped. */
  ghost predicate HeapMaps(p: Paging, frames: seq<nat>) {
    forall i :: 0 <= i < p.total ==>
      HeapPage(p, i) == if i < |frames| then Page(HeapEntry(frames[i])) else Unmapped
  }

  /**
   * The heap has `|frames|` pages, each with a frame of its own that is marked used and is no
   * table.  All of physical memory would fit between the start of the heap and the kernel image.
   */
  ghost predicate Owned(p: Paging, frames: seq<nat>) {
    && HEAP_START + p.total * 4096 <= KERNEL_VIRT_BASE
    && OwnFrames(p, frames) && HeapMaps(p, frames)
  }

  /** The frames `base`, `base + 1`, ... */
  function Consecutive(base: nat, n: nat): seq<nat> {
    seq(n, i requires 0 <= i < n => base + i)
  }

  /** The frames behind the heap after it asked for more pages. */
  function FramesAfter(frames: seq<nat>, pages: nat, ok: bool, base: nat): seq<nat> {
    if ok then frames + Consecutive(base, pages) else frames
  }

  /** The address at which a heap with these frames ends. */
  function EndWith(frames: seq<nat>): nat {
    HEAP_START + |frames| * 4096
  }

  // ---------------------------------------------------------------- room for the heap

  /** Heap pages and free frames together are no more than there are frames. */
  lemma FramesLeft(p: Paging, frames: seq<nat>)
    requires Sound(p) && Owned(p, frames)
    ensures |frames| + |p.free| <= p.total
  {
    hide HeapPage, HeapEntry, Tree;
    ElementsSize(frames);
    var used := Elements(frames);
    assert used !! p.free;
    RangeSize(0, p.total);
    SubsetSize(used + p.free, Range(0, p.total));
  }

  lemma SameTranslate(mem: Frames, root: nat, va: nat, vb: nat)
    requires Vpn(va) == Vpn(vb)
    ensures Translate(mem, root, va) == Translate(mem, root, vb)
  {
    hide Vpn, Resolve;
    SamePage(va, vb);
    SameResolve(mem, root, 4, va, vb);
  }

  lemma {:induction false} SameResolve(mem: Frames, t: nat, level: nat, va: nat, vb: nat)
    requires 1 <= level <= 4 && forall k :: 1 <= k <= 4 ==> Index(k, va) == Index(k, vb)
    ensures Resolve(mem, t, level, va) == Resolve(mem, t, level, vb)
    decreases level
  {
    hide Index, Present, Huge, Frame;
    if level > 1 {
      SameResolve(mem, Frame(Entry(mem, t, Index(level, va))), level - 1, va, vb);
    }
  }

  /** Page `i` of the heap's range, seen from the address of page `n`. */
  lemma HeapPageIn(n: nat, i: nat)
    requires HEAP_START + n * 4096 <= KERNEL_VIRT_BASE && HEAP_START + i * 4096 <= KERNEL_VIRT_BASE
    ensures PageIn(HEAP_START + n * 4096, HEAP_START + i * 4096) == HEAP_START / 4096 + i
    ensures (HEAP_START + n * 4096) / 4096 == HEAP_START / 4096 + n && (HEAP_START + n * 4096) % 4096 == 0
  {
    assert HEAP_START == 0xF_FFF8_8010_0000 * 4096;
    assert (HEAP_START + n * 4096) / 4096 == 0xF_FFF8_8010_0000 + n;
    assert (HEAP_START + i * 4096) / 4096 == 0xF_FFF8_8010_0000 + i;
  }

  /** The addresses behind the heap are fresh, as far as the free frames go. */
  lemma OwnedFresh(p: Paging, frames: seq<nat>, pages: nat)
    requires Sound(p) && Owned(p, frames) && pages <= |p.free|
    ensures Fresh(p.mem, p.root, EndWith(frames), pages)
    ensures EndWith(frames) + pages * 4096 <= KERNEL_VIRT_BASE
  {
    hide HeapEntry, Tree, Translate, PageIn, Vpn;
    FramesLeft(p, frames);
    var va := EndWith(frames);
    HeapPageIn(|frames|, |frames|);
    InOneSpace(|frames|, pages);
    forall vb: nat | 0 <= PageIn(va, vb) - va / 4096 < pages
      ensures Translate(p.mem, p.root, vb) == Unmapped
    {
      var i := |frames| + PageIn(va, vb) - va / 4096;
      HeapPageIn(|frames|, i);
      SamePageIn(va, vb, HEAP_START + i * 4096);
      SameTranslate(p.mem, p.root, vb, HEAP_START + i * 4096);
      assert HeapPage(p, i) == Unmapped;
    }
  }

  lemma InOneSpace(n: nat, pages: nat)
    requires HEAP_START + (n + pages) * 4096 <= KERNEL_VIRT_BASE
    ensures var va := HEAP_START + n * 4096; va / 4096 + pages <= (va / 4096 / PAGES + 1) * PAGES
  {
    assert HEAP_START == 0xF_FFF8_8010_0000 * 4096;
    var q := (HEAP_START + n * 4096) / 4096;
    assert q == 0xF_FFF8_8010_0000 + n;
    assert q / PAGES == 0xFFFF;
  }

  // ---------------------------------------------------------------- growth

  /** What asking for more heap pages does to the pages of the heap's range. */
  lemma BackingPage(p: Paging, p': Paging, n: nat, pages: nat, ok: bool, base: nat, i: nat)
    requires Backing(p, p', HEAP_START + n * 4096, pages, ok, base)
    requires HEAP_START + n * 4096 <= KERNEL_VIRT_BASE && HEAP_START + i * 4096 <= KERNEL_VIRT_BASE
    ensures HeapPage(p', i) == if ok && n <= i < n + pages then Page(HeapEntry(base + (i - n))) else HeapPage(p, i)
  {
    hide Translate, PteMake, PageIn, Range, NoFrames;
    HeapPageIn(n, i);
    if ok {
      assert Backed(p.mem, p'.mem, p.root, HEAP_START + n * 4096, base, 0, pages);
    }
  }

  /** Growth, successful or not, leaves every heap page with a frame of its own. */
  lemma OwnedGrows(p: Paging, p': Paging, frames: seq<nat>, pages: nat, ok: bool, base: nat)
    requires Sound(p) && Owned(p, frames) && Backing(p, p', EndWith(frames), pages, ok, base)
    ensures Owned(p', FramesAfter(frames, pages, ok, base))
    ensures ok ==> EndWith(frames) + pages * 4096 <= KERNEL_VIRT_BASE
  {
    hide Tree, OwnFrames, HeapMaps, FramesAfter, Backing;
    FramesLeft(p, frames);
    BackingSize(p, p', EndWith(frames), pages, ok, base);
    FramesGrow(p, p', frames, pages, ok, base);
    MapsGrow(p, p', frames, pages, ok, base);
  }

  lemma BackingSize(p: Paging, p': Paging, va: nat, pages: nat, ok: bool, base: nat)
    requires Backing(p, p', va, pages, ok, base)
    ensures p'.total == p.total && (ok ==> pages <= |p.free|)
  {
    hide Backed, Unchanged, NoFrames;
    if ok {
      RangeSize(base, base + pages);
      SubsetSize(Range(base, base + pages), p.free);
    }
  }

  lemma MapsGrow(p: Paging, p': Paging, frames: seq<nat>, pages: nat, ok: bool, base: nat)
    requires HeapMaps(p, frames) && Backing(p, p', EndWith(frames), pages, ok, base) && p'.total == p.total
    requires |frames| <= p.total && HEAP_START + p.total * 4096 <= KERNEL_VIRT_BASE
    ensures HeapMaps(p', FramesAfter(frames, pages, ok, base))
  {
    hide HeapPage, HeapEntry, Backing;
    var frames' := FramesAfter(frames, pages, ok, base);
    forall i | 0 <= i < p.total
      ensures HeapPage(p', i) == if i < |frames'| then Page(HeapEntry(frames'[i])) else Unmapped
    {
      BackingPage(p, p', |frames|, pages, ok, base, i);
    }
  }

  lemma FramesGrow(p: Paging, p': Paging, frames: seq<nat>, pages: nat, ok: bool, base: nat)
    requires Sound(p) && OwnFrames(p, frames) && Backing(p, p', EndWith(frames), pages, ok, base)
    ensures OwnFrames(p', FramesAfter(frames, pages, ok, base))
  {
    hide Tree, Backed, Unchanged, NoFrames;
    var frames' := FramesAfter(frames, pages, ok, base);
    forall i | 0 <= i < |frames'|
      ensures frames'[i] < p.total && frames'[i] !in p'.free && frames'[i] !in p'.level
      ensures i >= |frames| ==> frames'[i] in p.free
    {
      if i >= |frames| {
        assert frames'[i] in Range(base, base + pages);
      }
    }
  }

  lemma VmmSound(vmm: Vmm)
    requires vmm.Valid()
    ensures vmm.pmm.Valid() && Sound(PagingOf(vmm))
  {
    hide Tree;
  }

  lemma EndAfter(frames: seq<nat>, pages: nat, ok: bool, base: nat)
    ensures EndWith(FramesAfter(frames, pages, ok, base)) == EndWith(frames) + if ok then pages * 4096 else 0
  {
  }

  /** The part of `km_expand` before the new block is made. */
  method BackHeap(vmm: Vmm, heapEnd: nat, pages: nat, ghost frames: seq<nat>) returns (ok: bool, base: nat)
    requires vmm.Valid() && Owned(PagingOf(vmm), frames) && heapEnd == EndWith(frames)
    modifies vmm`mem, vmm`level, vmm.pmm`freeFrames, vmm.pmm.words
    ensures vmm.Valid() && Owned(PagingOf(vmm), FramesAfter(frames, pages, ok, base))
    ensures Backing(old(PagingOf(vmm)), PagingOf(vmm), heapEnd, pages, ok, base)
    ensures EndWith(FramesAfter(frames, pages, ok, base)) == if ok then heapEnd + pages * 4096 else heapEnd
    ensures ok ==> pages > 0 && heapEnd + pages * 4096 < TWO_64
  {
    hide Owned, Backing, Sound, Vmm.Valid, Pmm.Free, Fresh, FramesAfter, Unchanged, Backed, EndWith;
    VmmSound(vmm);
    ghost var p := PagingOf(vmm);
    if pages <= |p.free| {
      OwnedFresh(p, frames, pages);
    }
    ok, base := BackPages(vmm, heapEnd, pages);
    OwnedGrows(p, PagingOf(vmm), frames, pages, ok, base);
    EndAfter(frames, pages, ok, base);
  }

  /** Growth succeeds where a long run of frames is free and enough frames are left for tables. */
  lemma GrowthSucceeds(p: Paging, p': Paging, va: nat, pages: nat, ok: bool, base: nat, s: nat)
    requires Backing(p, p', va, pages, ok, base) && pages > 0
    requires HasRun(p.free, s, SureRun(pages, 1)) && |p.free| > 4 * pages
    ensures ok
  {
    hide Backed, Unchanged, HasRun;
  }

  // ---------------------------------------------------------------- frames lost by a failed growth

  /** A failed growth gives every frame back, but for new tables, unless the range began at frame 0. */
  lemma GivenBack(p: Paging, p': Paging, va: nat, pages: nat, base: nat)
    requires Backing(p, p', va, pages, false, base)
    ensures p'.free == p.free - (p'.level.Keys - p.level.Keys) <==> pages == 0 || !(Range(0, pages) <= p.free)
  {
    hide Unchanged;
    var tables := p'.level.Keys - p.level.Keys;
    if pages > 0 && Range(0, pages) <= p.free {
      assert 0 in Range(0, pages);
      ZeroRunFound(p.free, pages);
      assert 0 !in tables;
      assert 0 in p.free - tables && 0 !in p'.free;
    }
  }

  lemma ZeroRunFound(free: set<nat>, pages: nat)
    requires pages > 0 && Range(0, pages) <= free
    ensures Lost(free, pages) == Range(0, pages)
  {
  }

  /**
   * A state in which that happens: only frame 0 is free and there is no table but the root.  It
   * stands for a bitmap that lies at physical address 0, whose own pages `pmm_init_from_efi`
   * marks free.  Asking for one page fails, nothing is mapped, and no frame is left.
   */
  lemma FrameZeroLost(p': Paging, ok: bool, base: nat)
    requires Sound(p') && Backing(OnlyFrameZero(), p', HEAP_START, 1, ok, base)
    ensures Sound(OnlyFrameZero()) && Owned(OnlyFrameZero(), []) && OnlyFrameZero().free == {0}
    ensures !ok && p'.free == {} && p'.level.Keys == {5} && Unchanged(OnlyFrameZero().mem, p'.mem, 5)
  {
    hide Unchanged, Translate, NoFrames, Backed;
    var p := OnlyFrameZero();
    EmptyTree(p.mem, 5);
    OnlyRoot(p, HEAP_START);
    assert base in Range(base, base + 1) && 0 in Range(0, 1);
    ZeroNotBacked(p', ok, base);
  }

  lemma ZeroNotBacked(p': Paging, ok: bool, base: nat)
    requires Sound(p') && Backing(OnlyFrameZero(), p', HEAP_START, 1, ok, base)
    ensures !ok
  {
    hide Unchanged, Translate, NoFrames, Tree;
    if ok {
      assert base in Range(base, base + 1);
      assert p'.level.Keys == {5};
      HeapPageIn(0, 0);
      BackedFirst(OnlyFrameZero().mem, p'.mem, 5, HEAP_START, base);
      OnlyRoot(p', HEAP_START);
      assert false;
    }
  }

  function OnlyFrameZero(): Paging {
    Paging(map[5 := ZeroFrame()], 5, map[5 := 4], {0}, 8)
  }

  /** With no table but the root nothing is mapped. */
  lemma OnlyRoot(p: Paging, va: nat)
    requires Tree(p.mem, p.root, p.level) && p.level.Keys == {p.root}
    ensures Translate(p.mem, p.root, va) == Unmapped
  {
    hide Index, Frame;
    if LinkBits(4, Entry(p.mem, p.root, Index(4, va))) {
      LinkDown(p.mem, p.root, p.level, p.root, Index(4, va));
      assert false;
    }
  }

  lemma BackedFirst(mem: Frames, mem': Frames, root: nat, va: nat, base: nat)
    requires Backed(mem, mem', root, va, base, 0, 1) && PageIn(va, va) == va / 4096
    ensures Translate(mem', root, va).Page?
  {
    hide Translate, PteMake;
  }

  // ---------------------------------------------------------------- what the heap's addresses reach

  /** A heap address reaches the byte of its page's frame. */
  lemma HeapByte(p: Paging, frames: seq<nat>, va: nat)
    requires Sound(p) && Owned(p, frames) && HEAP_START <= va < EndWith(frames)
    ensures (va - HEAP_START) / 4096 < |frames|
    ensures PhysAddr(Translate(p.mem, p.root, va), va) ==
      Some(frames[(va - HEAP_START) / 4096] * 4096 + va % 4096)
  {
    hide Tree, Translate, PteMake, Vpn;
    var i := (va - HEAP_START) / 4096;
    var f := frames[i];
    FramesLeft(p, frames);
    HeapPageVpn(va, i);
    SameTranslate(p.mem, p.root, va, HEAP_START + i * 4096);
    assert HeapPage(p, i) == Page(HeapEntry(f));
    assert HEAP_FLAGS / 4096 == 0x8_0000_0000_0000;
    MappedAddress(f * 4096, HEAP_FLAGS, va);
  }

  lemma HeapPageVpn(va: nat, i: nat)
    requires HEAP_START <= va && i == (va - HEAP_START) / 4096
    ensures Vpn(va) == Vpn(HEAP_START + i * 4096)
  {
    assert HEAP_START == 0xF_FFF8_8010_0000 * 4096;
    assert va / 4096 == 0xF_FFF8_8010_0000 + i;
    assert (HEAP_START + i * 4096) / 4096 == 0xF_FFF8_8010_0000 + i;
  }

  /** Different heap addresses reach different bytes of physical memory, none of them in a table. */
  lemma HeapBytesApart(p: Paging, frames: seq<nat>, va: nat, vb: nat)
    requires Sound(p) && Owned(p, frames)
    requires HEAP_START <= va < EndWith(frames) && HEAP_START <= vb < EndWith(frames)
    ensures var (a, b) := (PhysAddr(Translate(p.mem, p.root, va), va), PhysAddr(Translate(p.mem, p.root, vb), vb));
      && a.Some? && b.Some? && (a == b ==> va == vb)
      && a.value / 4096 !in p.level && a.value / 4096 !in p.free
  {
    hide Sound, Translate, HeapPage, HeapEntry;
    HeapByte(p, frames, va);
    HeapByte(p, frames, vb);
    var (i, j) := ((va - HEAP_START) / 4096, (vb - HEAP_START) / 4096);
    SplitAddress(va);
    SplitAddress(vb);
    ByteOfFrame(frames[i], va % 4096);
    ByteOfFrame(frames[j], vb % 4096);
  }

  lemma SplitAddress(va: nat)
    requires HEAP_START <= va
    ensures va == HEAP_START + (va - HEAP_START) / 4096 * 4096 + va % 4096
  {
    ModIs(va, 0xF_FFF8_8010_0000 + (va - HEAP_START) / 4096, 4096, (va - HEAP_START) % 4096);
  }

  lemma ByteOfFrame(f: nat, o: nat)
    requires o < 4096
    ensures (f * 4096 + o) / 4096 == f && (f * 4096 + o) % 4096 == o
  {
  }

  /** An address between the direct map and the kernel image lies in neither. */
  lemma BetweenMaps(va: nat)
    requires HEAP_START <= va < KERNEL_VIRT_BASE
    ensures DIRECT_REGION + 2048 <= Region(va) < KERNEL_REGION
  {
    var q := va / 0x20_0000;
    assert 0x20_0000 * q <= va < 0x20_0000 * q + 0x20_0000;
    assert 0x7FF_FC40_0800 <= q < 0x7FF_FFFF_FC00;
    ModIs(q, 0xFFFF, 0x800_0000, q - 0xFFFF * 0x800_0000);
  }

  /** The address space that `vmm_init` builds, with a heap of no pages. */
  lemma InitiallyOwned(p: Paging)
    requires HEAP_START + p.total * 4096 <= KERNEL_VIRT_BASE
    requires forall va: nat :: Translate(p.mem, p.root, va) == InitialMap(2048, 4, va)
    ensures Owned(p, [])
  {
    hide Translate, HugeMake;
    forall i | 0 <= i < p.total
      ensures HeapPage(p, i) == Unmapped
    {
      BetweenMaps(HEAP_START + i * 4096);
    }
  }
}
