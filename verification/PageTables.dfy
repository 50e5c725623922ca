/** The virtual memory manager: the operations on the kernel's page table. */
module PageTables {
  import opened Common
  import opened PageEntries
  import opened NumberBits
  import opened EntryBits
  import opened PageTrees
  import opened FrameBitmap

  /** The flat map the page table stands for. */
  function Translate(mem: Frames, root: nat, va: nat): Mapping {
    Resolve(mem, root, 4, va)
  }

  /** The translation of the page of `va` is `m`; every other address translates as before. */
  ghost predicate PageChanged(mem: Frames, mem': Frames, root: nat, va: nat, m: Mapping) {
    forall vb: nat :: Translate(mem', root, vb) == if Vpn(vb) == Vpn(va) then m else Translate(mem, root, vb)
  }

  ghost predicate Unchanged(mem: Frames, mem': Frames, root: nat) {
    forall vb: nat :: Translate(mem', root, vb) == Translate(mem, root, vb)
  }

  datatype Slot = Slot(table: nat, index: nat)

  /**
   * What creating tables may do: it takes frames from the bitmap, exactly those that become
   * tables; it changes no present entry, no frame that is not a table, and no translation.
   */
  ghost predicate Grew(mem: Frames, level: map<nat, nat>, free: set<nat>,
                       mem': Frames, level': map<nat, nat>, free': set<nat>, root: nat) {
    && (forall x :: x in level ==> x in level' && level'[x] == level[x])
    && (forall x :: x in level' && x !in level ==> x in free)
    && free' == free - (level'.Keys - level.Keys)
    && (forall x, j :: x in level && Present(Entry(mem, x, j)) ==> Entry(mem', x, j) == Entry(mem, x, j))
    && (forall x :: x !in level' ==> (x in mem' <==> x in mem) && (x in mem ==> mem'[x] == mem[x]))
    && Unchanged(mem, mem', root)
  }

  lemma GrewNot(mem: Frames, level: map<nat, nat>, free: set<nat>, root: nat)
    ensures Grew(mem, level, free, mem, level, free, root)
  {
  }

  lemma GrewTwice(m0: Frames, l0: map<nat, nat>, f0: set<nat>, m1: Frames, l1: map<nat, nat>, f1: set<nat>,
                  m2: Frames, l2: map<nat, nat>, f2: set<nat>, root: nat)
    requires Grew(m0, l0, f0, m1, l1, f1, root) && Grew(m1, l1, f1, m2, l2, f2, root)
    ensures Grew(m0, l0, f0, m2, l2, f2, root)
  {
    hide Present, Entry, Translate;
    forall x, j | x in l0 && Present(Entry(m0, x, j))
      ensures Entry(m2, x, j) == Entry(m0, x, j)
    {
      assert Entry(m1, x, j) == Entry(m0, x, j);
    }
  }

  lemma GrewByLink(mem: Frames, root: nat, level: map<nat, nat>, free: set<nat>, t: nat, i: nat, f: nat)
    requires Tree(mem, root, level) && t in level && level[t] >= 2 && i < 512
    requires !Present(Entry(mem, t, i)) && f !in level && f < FRAMES && f in free
    ensures Tree(AddLink(mem, t, i, f), root, level[f := level[t] - 1])
    ensures Grew(mem, level, free, AddLink(mem, t, i, f), level[f := level[t] - 1], free - {f}, root)
    ensures Entry(AddLink(mem, t, i, f), t, i) == PteMake(f * 4096, PTE_P + PTE_W)
  {
    hide Present, Huge, Frame, PteMake, Resolve;
    AddLinkOk(mem, root, level, t, i, f);
    AddLinkEntries(mem, level, t, i, f);
    assert (level[f := level[t] - 1]).Keys - level.Keys == {f};
  }

  class Vmm {
    const pmm: Pmm
    var mem: Frames                      // the contents of physical frames
    var root: nat                        // the frame of kernel_pml4
    ghost var level: map<nat, nat>       // the frames in use as tables, with their levels

    /** Physical memory fits the address field of an entry. */
    ghost predicate Ready() {
      pmm.Valid() && pmm.totalFrames <= FRAMES
    }

    /** The tables form a tree, and the frame bitmap marks each of them used. */
    ghost predicate Valid()
      reads this, pmm.words
    {
      && Ready() && Tree(mem, root, level)
      && (forall t :: t in level ==> t < pmm.totalFrames && t !in pmm.Free())
    }

    constructor (pmm: Pmm, contents: Frames)
      ensures this.pmm == pmm && mem == contents
    {
      this.pmm, mem, root, level := pmm, contents, 0, map[];
    }

    /**
     * The step the walk repeats at each level: follow entry `i` of table `t`, first linking a
     * new zeroed table into it when it is absent and `create` is set.
     */
    method Descend(t: nat, i: nat, create: bool) returns (child: Option<nat>)
      requires Valid() && t in level && level[t] >= 2 && i < 512
      requires Present(Entry(mem, t, i)) ==> LinkBits(level[t], Entry(mem, t, i))
      modifies this`mem, this`level, pmm`freeFrames, pmm.words
      ensures Valid()
      ensures Grew(old(mem), old(level), old(pmm.Free()), mem, level, pmm.Free(), root)
      ensures !create ==> mem == old(mem) && level == old(level) && pmm.Free() == old(pmm.Free())
      ensures child.None? <==> !old(Present(Entry(mem, t, i))) && (!create || old(pmm.Free()) == {})
      ensures child.None? || old(Present(Entry(mem, t, i))) ==>
        mem == old(mem) && level == old(level) && pmm.Free() == old(pmm.Free())
      ensures child.Some? ==> Link(mem, level, t, i) && child.value == Frame(Entry(mem, t, i))
      ensures child.Some? ==> child.value in level && level[child.value] == level[t] - 1
      ensures t in level && level[t] == old(level)[t]
      ensures |old(pmm.Free())| <= |pmm.Free()| + 1
    {
      hide Tree, Present, Huge, Frame, Grew, Pmm.Free;
      GrewNot(mem, level, pmm.Free(), root);
      if !Present(Entry(mem, t, i)) {
        if !create {
          return None;
        }
        var ok := NewTable(t, i);
        if !ok {
          return None;
        }
      }
      GrewLevel(old(mem), old(level), old(pmm.Free()), mem, level, pmm.Free(), root, t);
      child := Some(Frame(Entry(mem, t, i)));
      LinkDown(mem, root, level, t, i);
    }

    /** Allocate a frame, zero it and link it into an absent entry. */
    method NewTable(t: nat, i: nat) returns (ok: bool)
      requires Valid() && t in level && level[t] >= 2 && i < 512 && !Present(Entry(mem, t, i))
      modifies this`mem, this`level, pmm`freeFrames, pmm.words
      ensures Valid() && (ok <==> old(pmm.Free()) != {})
      ensures !ok ==> mem == old(mem) && level == old(level) && pmm.Free() == old(pmm.Free())
      ensures ok ==> Grew(old(mem), old(level), old(pmm.Free()), mem, level, pmm.Free(), root)
      ensures ok ==> LinkBits(level[t], Entry(mem, t, i)) && t in level
      ensures |old(pmm.Free())| <= |pmm.Free()| + 1
    {
      hide Tree, Present, Huge, Frame, PteMake, Grew, AddLink, Pmm.Free;
      TreeFacts(mem, root, level, t);
      var f := pmm.AllocFrame();
      if f.None? {
        return false;
      }
      GrewByLink(mem, root, level, old(pmm.Free()), t, i, f.value);
      LinkEntry(f.value);
      AddLinkIs(mem, t, i, f.value);
      mem := mem[f.value := ZeroFrame()];
      var row: seq<nat> := mem[t][i := PteMake(f.value * 4096, PTE_P + PTE_W)];
      mem := mem[t := row];
      level := level[f.value := level[t] - 1];
      return true;
    }

    /** The first two levels of either walk: the level-2 table for `va`. */
    method WalkDirectory(va: nat, create: bool) returns (t: Option<nat>)
      requires Valid()
      modifies this`mem, this`level, pmm`freeFrames, pmm.words
      ensures Valid()
      ensures Grew(old(mem), old(level), old(pmm.Free()), mem, level, pmm.Free(), root)
      ensures !create ==> mem == old(mem) && level == old(level) && pmm.Free() == old(pmm.Free())
      ensures t.None? && create ==> pmm.Free() == {}
      ensures t.None? && !create ==> Translate(mem, root, va) == Unmapped
      ensures t.Some? ==> t.value in level && level[t.value] == 2 && t.value in mem && |mem[t.value]| == 512
      ensures t.Some? ==> TableFor(mem, root, 4, 2, va) == t
      ensures old(Translate(mem, root, va)) != Unmapped ==>
        t.Some? && mem == old(mem) && level == old(level) && pmm.Free() == old(pmm.Free())
      ensures |old(pmm.Free())| <= |pmm.Free()| + 2
    {
      hide Tree, Present, Huge, Frame, Grew, Pmm.Free, Index, Translate, TableFor, Resolve;
      ghost var (m0, l0, f0) := (mem, level, pmm.Free());
      RootLevel(mem, root, level);
      WalkStarts(mem, root, va);
      WalkStops(mem, root, 4, root, va);
      TopLinks(4, Entry(mem, root, Index(4, va)));
      var t3 := Descend(root, Index(4, va), create);
      if t3.None? {
        return None;
      }
      ghost var (m1, l1, f1) := (mem, level, pmm.Free());
      WalkStarts(mem, root, va);
      WalkStep(mem, root, 3, root, va);
      WalkStops(mem, root, 3, t3.value, va);
      TopLinks(3, Entry(mem, t3.value, Index(3, va)));
      t := Descend(t3.value, Index(3, va), create);
      GrewTwice(m0, l0, f0, m1, l1, f1, mem, level, pmm.Free(), root);
      GrewKeepsWalk(m1, root, l1, f1, mem, level, pmm.Free(), 3, va);
      if t.None? {
        return None;
      }
      WalkStep(mem, root, 2, t3.value, va);
      TreeFacts(mem, root, level, t.value);
    }

    /** The lowest level of the walk for an address that is not under a 2 MiB entry. */
    method WalkDown(va: nat, create: bool, t2: nat) returns (slot: Option<Slot>)
      requires Valid() && !Translate(mem, root, va).HugePage?
      requires t2 in level && level[t2] == 2 && TableFor(mem, root, 4, 2, va) == Some(t2)
      modifies this`mem, this`level, pmm`freeFrames, pmm.words
      ensures Valid()
      ensures Grew(old(mem), old(level), old(pmm.Free()), mem, level, pmm.Free(), root)
      ensures !create ==> mem == old(mem) && level == old(level) && pmm.Free() == old(pmm.Free())
      ensures slot.None? && create ==> pmm.Free() == {}
      ensures slot.None? && !create ==> Translate(mem, root, va) == Unmapped
      ensures slot.Some? ==> SlotFor(mem, root, level, va, slot.value)
      ensures |old(pmm.Free())| <= |pmm.Free()| + 1
    {
      hide Tree, Present, Huge, Frame, Grew, Pmm.Free, Index, Translate, TableFor, Resolve;
      ghost var (m2, l2, f2) := (mem, level, pmm.Free());
      NotHugeLinks(mem, root, t2, va);
      var t1 := Descend(t2, Index(2, va), create);
      GrewKeepsWalk(m2, root, l2, f2, mem, level, pmm.Free(), 2, va);
      if t1.None? {
        WalkStops(mem, root, 2, t2, va);
        return None;
      }
      WalkStep(mem, root, 1, t2, va);
      TreeFacts(mem, root, level, t1.value);
      return Some(Slot(t1.value, Index(1, va)));
    }

    /**
     * `vmm_walk_table`: the slot of the level-1 table that maps `va`.  With `create` it fails
     * only when the frames run out; without, only when the tables are not there.  The code does
     * not look at the PS bit: under a 2 MiB entry it takes the mapped frame for a table.
     */
    method WalkTable(va: nat, create: bool) returns (slot: Option<Slot>)
      requires Valid()
      modifies this`mem, this`level, pmm`freeFrames, pmm.words
      ensures Valid()
      ensures Grew(old(mem), old(level), old(pmm.Free()), mem, level, pmm.Free(), root)
      ensures !create ==> mem == old(mem) && level == old(level) && pmm.Free() == old(pmm.Free())
      ensures slot.None? && create ==> pmm.Free() == {}
      ensures slot.None? && !create ==> Translate(mem, root, va) == Unmapped
      ensures var m := old(Translate(mem, root, va));
        if m.HugePage? then
          && slot == Some(Slot(Frame(m.entry), Index(1, va)))
          && mem == old(mem) && level == old(level) && pmm.Free() == old(pmm.Free())
        else slot.Some? ==> SlotFor(mem, root, level, va, slot.value)
      ensures |old(pmm.Free())| <= |pmm.Free()| + 3
    {
      hide Tree, Present, Huge, Frame, Grew, Pmm.Free, Index, Translate, TableFor, Resolve;
      ghost var (m0, l0, f0) := (mem, level, pmm.Free());
      var t2 := WalkDirectory(va, create);
      GrewTranslate(m0, l0, f0, mem, level, pmm.Free(), root, va);
      if t2.None? {
        return None;
      }
      var e := Entry(mem, t2.value, Index(2, va));
      HugeThere(mem, root, t2.value, va);
      if Present(e) && Huge(e) {
        return Some(Slot(Frame(e), Index(1, va)));
      }
      ghost var (m2, l2, f2) := (mem, level, pmm.Free());
      slot := WalkDown(va, create, t2.value);
      GrewTwice(m0, l0, f0, m2, l2, f2, mem, level, pmm.Free(), root);
    }

    /** The store through the pointer that the walk returned. */
    method Store(s: Slot, e: nat)
      requires s.table in mem && s.index < |mem[s.table]|
      modifies this`mem
      ensures mem == SetEntry(old(mem), s.table, s.index, e)
    {
      var row: seq<nat> := mem[s.table][s.index := e];
      mem := mem[s.table := row];
    }

    /** What that store does after a walk that began with `m0`, `l0` and `f0`. */
    method WriteSlot(va: nat, s: Slot, e: nat, ghost m0: Frames, ghost l0: map<nat, nat>, ghost f0: set<nat>)
      requires Valid() && Grew(m0, l0, f0, mem, level, pmm.Free(), root) && MemoryHolds(m0, Translate(m0, root, va))
      requires if Translate(m0, root, va).HugePage?
               then s == Slot(Frame(Translate(m0, root, va).entry), Index(1, va)) && mem == m0 && level == l0
               else SlotFor(mem, root, level, va, s)
      modifies this`mem
      ensures TreeSurvives(l0, Translate(m0, root, va), e) ==> Valid()
      ensures Translate(m0, root, va).HugePage? ==> Overwritten(m0, l0, mem, level, root, va, e)
      ensures !Translate(m0, root, va).HugePage? ==>
        PageChanged(m0, mem, root, va, Leaf(1, e)) && TablesOnly(m0, l0, f0, mem, level, pmm.Free())
    {
      hide Tree, Frame, Grew, Pmm.Free, Index, Translate, PageChanged, TablesOnly;
      hide SlotFor, SetEntry, Overwritten, MemoryHolds, TreeSurvives;
      SlotReady(m0, l0, mem, level, root, va, s);
      if Translate(m0, root, va).HugePage? {
        OverwriteOk(mem, level, root, va, e);
      } else {
        SlotWrite(m0, l0, f0, mem, root, level, pmm.Free(), va, s, e);
      }
      Store(s, e);
    }

    /**
     * `vmm_map`: 0, or -1 for bad arguments, or -2 when the frames for tables run out.  Under a
     * 2 MiB entry it returns 0 too, but overwrites eight bytes of the first frame that is mapped
     * there.  That changes no translation unless this frame is itself a table; then the
     * addresses that use the overwritten entry go where it now leads, and the tables need not
     * be a tree any more.  `EntryBits.PteMakeBits` says which bits the stored entry has.
     */
    method Map(va: nat, pa: nat, flags: nat) returns (code: int)
      requires Valid() && MemoryHolds(mem, Translate(mem, root, va))
      modifies this`mem, this`level, pmm`freeFrames, pmm.words
      ensures code == 0 ==> TreeSurvives(old(level), old(Translate(mem, root, va)), PteMake(pa, flags)) ==> Valid()
      ensures code != 0 ==> Valid()
      ensures code in {0, -1, -2}
      ensures code == -1 <==> va % 4096 != 0 || pa % 4096 != 0 || !Present(flags)
      ensures code == -1 ==> mem == old(mem) && level == old(level) && pmm.Free() == old(pmm.Free())
      ensures code == -2 ==> Unchanged(old(mem), mem, root) && pmm.Free() == {}
      ensures old(Translate(mem, root, va).HugePage?) && code != -1 ==>
        code == 0 && Overwritten(old(mem), old(level), mem, level, root, va, PteMake(pa, flags))
      ensures !old(Translate(mem, root, va).HugePage?) ==>
        && (code == 0 ==> PageChanged(old(mem), mem, root, va, Page(PteMake(pa, flags))))
        && (code == 0 ==> PageEntryOf(Translate(mem, root, va).entry, pa, flags))
        && TablesOnly(old(mem), old(level), old(pmm.Free()), mem, level, pmm.Free())
      ensures |old(pmm.Free())| <= |pmm.Free()| + 3
    {
      hide Tree, Frame, Grew, Pmm.Free, Index, Translate, TableFor, PageChanged, PteMake, TablesOnly, Unchanged;
      hide SlotFor, SetEntry, Overwritten, MemoryHolds, TreeSurvives, Present, Leaf;
      ghost var (m0, l0, f0) := (mem, level, pmm.Free());
      if va % 4096 != 0 || pa % 4096 != 0 || !Present(flags) {
        NoTables(mem, level, pmm.Free());
        return -1;
      }
      var slot := WalkTable(va, true);
      GrewIsTablesOnly(m0, l0, f0, mem, level, pmm.Free(), root);
      if slot.None? {
        return -2;
      }
      PteMakePresent(pa, flags);
      PageLeaf(PteMake(pa, flags));
      WriteSlot(va, slot.value, PteMake(pa, flags), m0, l0, f0);
      MappedEntry(m0, mem, root, va, pa, flags);
      return 0;
    }

    /** `vmm_unmap`: 0, or -1 when `va` is not the address of a mapped page; under a 2 MiB entry, as `vmm_map`. */
    method Unmap(va: nat) returns (code: int)
      requires Valid() && MemoryHolds(mem, Translate(mem, root, va))
      modifies this`mem, this`level, pmm`freeFrames, pmm.words
      ensures Valid() && level == old(level) && pmm.Free() == old(pmm.Free())
      ensures code == 0 || code == -1
      ensures code == -1 ==> mem == old(mem)
      ensures old(Translate(mem, root, va).HugePage?) ==>
        && (code == 0 <==> va % 4096 == 0 && old(Present(Entry(mem, Frame(Translate(mem, root, va).entry), Index(1, va)))))
        && (code == 0 ==> Overwritten(old(mem), old(level), mem, level, root, va, 0))
      ensures !old(Translate(mem, root, va).HugePage?) ==>
        && (code == 0 <==> va % 4096 == 0 && old(Translate(mem, root, va)).Page?)
        && (code == 0 ==> PageChanged(old(mem), mem, root, va, Unmapped))
        && TablesOnly(old(mem), old(level), old(pmm.Free()), mem, level, pmm.Free())
    {
      hide Tree, Frame, Grew, Pmm.Free, Index, Translate, TableFor, PageChanged, TablesOnly, Unchanged;
      hide SlotFor, SetEntry, Overwritten, MemoryHolds, TreeSurvives;
      ghost var (m0, l0, f0) := (mem, level, pmm.Free());
      NoTables(mem, level, pmm.Free());
      if va % 4096 != 0 {
        return -1;
      }
      var slot := WalkTable(va, false);
      if slot.None? {
        return -1;
      }
      SlotReady(m0, l0, mem, level, root, va, slot.value);
      if !Translate(m0, root, va).HugePage? {
        SlotRead(mem, root, level, va, slot.value);
      }
      GrewNot(mem, level, pmm.Free(), root);
      if !Present(mem[slot.value.table][slot.value.index]) {
        return -1;
      }
      ZeroKeepsTree(l0, Translate(m0, root, va));
      WriteSlot(va, slot.value, 0, m0, l0, f0);
      return 0;
    }

    /** `vmm_map_2mb`: 0, or -1 when the frames for tables run out. */
    method Map2mb(va: nat, pa: nat, flags: nat) returns (code: int)
      requires Valid()
      modifies this`mem, this`level, pmm`freeFrames, pmm.words
      ensures Valid() && (code == 0 || code == -1)
      ensures code == -1 ==> Unchanged(old(mem), mem, root) && pmm.Free() == {}
      ensures code == 0 ==> RegionChanged(old(mem), mem, root, va, Leaf(2, HugeMake(pa, flags)))
      ensures code == 0 ==> HugeEntryOf(HugeMake(pa, flags), pa, flags)
      ensures TablesOnly(old(mem), old(level), old(pmm.Free()), mem, level, pmm.Free())
    {
      hide Tree, Present, Huge, Frame, Grew, Pmm.Free, Index, Translate, TableFor, Resolve;
      hide TablesOnly, RegionChanged, Unchanged, HugeMake, Leaf;
      ghost var (m0, l0, f0) := (mem, level, pmm.Free());
      var t2 := WalkDirectory(va, true);
      GrewIsTablesOnly(m0, l0, f0, mem, level, pmm.Free(), root);
      if t2.None? {
        return -1;
      }
      HugeMakeBits(pa, flags);
      HugeWrite(m0, l0, f0, mem, root, level, pmm.Free(), va, t2.value, pa, flags);
      var row: seq<nat> := mem[t2.value][Index(2, va) := HugeMake(pa, flags)];
      mem := mem[t2.value := row];
      return 0;
    }

    /**
     * `vmm_init`: a new page table with the direct map and the kernel image, and nothing else;
     * -1 when the frames run out.
     */
    method Init() returns (code: int)
      requires Ready()
      modifies this`mem, this`root, this`level, pmm`freeFrames, pmm.words
      ensures code == 0 || (code == -1 && pmm.Free() == {})
      ensures code == 0 ==> Valid() && forall va: nat :: Translate(mem, root, va) == InitialMap(2048, 4, va)
    {
      hide Tree, Pmm.Free, Resolve, Translate, TablesOnly, InitialMap, HugeMake, RegionChanged;
      var f := pmm.AllocFrame();
      if f.None? {
        return -1;
      }
      root := f.value;
      mem := mem[root := ZeroFrame()];
      level := map[root := 4];
      EmptyTree(mem, root);
      for i := 0 to 2048
        invariant Valid() && forall va: nat :: Translate(mem, root, va) == InitialMap(i, 0, va)
      {
        var pa := i * 0x20_0000;
        ghost var mem0 := mem;
        var r := Map2mb(DIRECT_MAP_OFFSET + pa, pa, DIRECT_FLAGS);
        if r != 0 {
          return r;
        }
        InitialDirect(mem0, mem, root, i);
      }
      for k := 0 to 4
        invariant Valid() && forall va: nat :: Translate(mem, root, va) == InitialMap(2048, k, va)
      {
        var off := k * 0x20_0000;
        ghost var mem0 := mem;
        var r := Map2mb(KERNEL_VIRT_BASE + off, KERNEL_PHYS_BASE + off, KERNEL_FLAGS);
        if r != 0 {
          return r;
        }
        InitialKernel(mem0, mem, root, k);
      }
      return 0;
    }
  }

  const KERNEL_VIRT_BASE := 0xFFFF_FFFF_8000_0000
  const KERNEL_PHYS_BASE := 0x20_0000
  const DIRECT_FLAGS := PTE_P + PTE_W + PTE_G + PTE_NX
  const KERNEL_FLAGS := PTE_P + PTE_W + PTE_G
  const DIRECT_REGION := 71303168              // the 2 MiB region numbers of the two bases
  const KERNEL_REGION := 134216704

  /** The number of the 2 MiB region a 48-bit virtual address lies in. */
  function Region(va: nat): nat {
    va / 0x20_0000 % 0x800_0000
  }

  /** The translation of the 2 MiB region of `va` is `m`; every other address translates as before. */
  ghost predicate RegionChanged(mem: Frames, mem': Frames, root: nat, va: nat, m: Mapping) {
    forall vb: nat :: Translate(mem', root, vb) == if Region(vb) == Region(va) then m else Translate(mem, root, vb)
  }

  /** The flat map after `n` direct-map entries and `k` kernel entries. */
  function InitialMap(n: nat, k: nat, va: nat): Mapping {
    var r := Region(va);
    if DIRECT_REGION <= r < DIRECT_REGION + n then
      HugePage(HugeMake((r - DIRECT_REGION) * 0x20_0000, DIRECT_FLAGS))
    else if KERNEL_REGION <= r < KERNEL_REGION + k then
      HugePage(HugeMake(KERNEL_PHYS_BASE + (r - KERNEL_REGION) * 0x20_0000, KERNEL_FLAGS))
    else Unmapped
  }

  /**
   * The permissions of the initial map: the direct map is present, writable, global and not
   * executable; the kernel image is executable; neither is open to user code.
   */
  lemma InitialBits(va: nat)
    ensures var m := InitialMap(2048, 4, va); m.HugePage? ==>
      forall i: nat :: BitAt(m.entry, i) ==> 21 <= i < 52 || i in {0, 1, 7, 8, 63}
    ensures var (m, r) := (InitialMap(2048, 4, va), Region(va));
      && (DIRECT_REGION <= r < DIRECT_REGION + 2048 ==> m.HugePage? && forall i :: i in {0, 1, 7, 8, 63} ==> BitAt(m.entry, i))
      && (KERNEL_REGION <= r < KERNEL_REGION + 4 ==>
            m.HugePage? && !BitAt(m.entry, 63) && forall i :: i in {0, 1, 7, 8} ==> BitAt(m.entry, i))
  {
    hide HugeMake, BitAt, Region;
    var r := Region(va);
    if DIRECT_REGION <= r < DIRECT_REGION + 2048 {
      HugePermissions((r - DIRECT_REGION) * 0x20_0000);
    } else if KERNEL_REGION <= r < KERNEL_REGION + 4 {
      HugePermissions(KERNEL_PHYS_BASE + (r - KERNEL_REGION) * 0x20_0000);
    }
  }

  lemma HugePermissions(pa: nat)
    ensures forall i: nat :: BitAt(HugeMake(pa, DIRECT_FLAGS), i) <==> (21 <= i < 52 && BitAt(pa, i)) || i in {0, 1, 7, 8, 63}
    ensures forall i: nat :: BitAt(HugeMake(pa, KERNEL_FLAGS), i) <==> (21 <= i < 52 && BitAt(pa, i)) || i in {0, 1, 7, 8}
  {
    hide HugeMake, BitAt;
    HugeMakeBits(pa, DIRECT_FLAGS);
    HugeMakeBits(pa, KERNEL_FLAGS);
    forall i: nat
      ensures BitAt(HugeMake(pa, DIRECT_FLAGS), i) <==> (21 <= i < 52 && BitAt(pa, i)) || i in {0, 1, 7, 8, 63}
      ensures BitAt(HugeMake(pa, KERNEL_FLAGS), i) <==> (21 <= i < 52 && BitAt(pa, i)) || i in {0, 1, 7, 8}
    {
      SmallFlags(i);
      TopBit(0x103, i);
    }
  }

  /** The slot of the level-1 table on the walk for `va`. */
  ghost predicate SlotFor(mem: Frames, root: nat, level: map<nat, nat>, va: nat, s: Slot) {
    && s.table in level && level[s.table] == 1 && s.index == Index(1, va)
    && s.table in mem && |mem[s.table]| == 512
    && TableFor(mem, root, 4, 1, va) == Some(s.table)
  }

  /** Only frames in use as tables are written, and new tables come from the free frames. */
  ghost predicate TablesOnly(mem: Frames, level: map<nat, nat>, free: set<nat>,
                             mem': Frames, level': map<nat, nat>, free': set<nat>) {
    && (forall x :: x in level ==> x in level' && level'[x] == level[x])
    && (forall x :: x in level' && x !in level ==> x in free)
    && free' == free - (level'.Keys - level.Keys)
    && (forall x :: x !in level' ==> (x in mem' <==> x in mem) && (x in mem ==> mem'[x] == mem[x]))
  }

  lemma TreeFacts(mem: Frames, root: nat, level: map<nat, nat>, t: nat)
    requires Tree(mem, root, level) && t in level
    ensures t in mem && |mem[t]| == 512 && 1 <= level[t] <= 4
  {
  }

  lemma AddLinkIs(mem: Frames, t: nat, i: nat, f: nat)
    requires t in mem && i < |mem[t]| && f != t
    ensures var row: seq<nat> := mem[t][i := PteMake(f * 4096, PTE_P + PTE_W)];
      mem[f := ZeroFrame()][t := row] == AddLink(mem, t, i, f)
  {
  }

  lemma LinkDown(mem: Frames, root: nat, level: map<nat, nat>, t: nat, i: nat)
    requires Tree(mem, root, level) && t in level && i < 512 && LinkBits(level[t], Entry(mem, t, i))
    ensures Link(mem, level, t, i)
    ensures var c := Frame(Entry(mem, t, i)); c in level && level[c] == level[t] - 1
  {
    assert Link(mem, level, t, i);
  }

  lemma NoTables(mem: Frames, level: map<nat, nat>, free: set<nat>)
    ensures TablesOnly(mem, level, free, mem, level, free)
  {
  }

  lemma GrewIsTablesOnly(mem: Frames, level: map<nat, nat>, free: set<nat>,
                         mem': Frames, level': map<nat, nat>, free': set<nat>, root: nat)
    requires Grew(mem, level, free, mem', level', free', root)
    ensures TablesOnly(mem, level, free, mem', level', free') && Unchanged(mem, mem', root)
  {
  }

  // ---------------------------------------------------------------- the walk

  lemma RootLevel(mem: Frames, root: nat, level: map<nat, nat>)
    requires Tree(mem, root, level)
    ensures root in level && level[root] == 4
  {
  }

  lemma WalkStarts(mem: Frames, root: nat, va: nat)
    ensures TableFor(mem, root, 4, 4, va) == Some(root)
  {
  }

  lemma TopLinks(l: nat, e: nat)
    requires l >= 3
    ensures Present(e) ==> LinkBits(l, e)
  {
  }

  /** One more level of the walk. */
  lemma {:induction false} TableForStep(mem: Frames, x: nat, l: nat, stop: nat, t: nat, va: nat)
    requires 1 <= stop < l <= 4 && TableFor(mem, x, l, stop + 1, va) == Some(t)
    requires LinkBits(stop + 1, Entry(mem, t, Index(stop + 1, va)))
    ensures TableFor(mem, x, l, stop, va) == Some(Frame(Entry(mem, t, Index(stop + 1, va))))
    decreases l
  {
    hide Present, Huge, Frame, Index, LinkBits;
    if l > stop + 1 {
      TableForStep(mem, Frame(Entry(mem, x, Index(l, va))), l - 1, stop, t, va);
    } else {
      assert x == t;
    }
  }

  lemma WalkStep(mem: Frames, root: nat, stop: nat, t: nat, va: nat)
    requires 1 <= stop < 4 && TableFor(mem, root, 4, stop + 1, va) == Some(t)
    requires LinkBits(stop + 1, Entry(mem, t, Index(stop + 1, va)))
    ensures TableFor(mem, root, 4, stop, va) == Some(Frame(Entry(mem, t, Index(stop + 1, va))))
  {
    TableForStep(mem, root, 4, stop, t, va);
  }

  /** The translation is decided from any table on the walk. */
  lemma {:induction false} ResolveVia(mem: Frames, x: nat, l: nat, stop: nat, t: nat, va: nat)
    requires 1 <= stop <= l <= 4 && TableFor(mem, x, l, stop, va) == Some(t)
    ensures Resolve(mem, x, l, va) == Resolve(mem, t, stop, va)
    decreases l
  {
    hide Present, Huge, Frame, Index, LinkBits;
    if l > stop {
      ResolveVia(mem, Frame(Entry(mem, x, Index(l, va))), l - 1, stop, t, va);
    }
  }

  lemma WalkStops(mem: Frames, root: nat, stop: nat, t: nat, va: nat)
    requires 2 <= stop <= 4 && TableFor(mem, root, 4, stop, va) == Some(t)
    ensures !Present(Entry(mem, t, Index(stop, va))) ==> Translate(mem, root, va) == Unmapped
  {
    hide Present, Huge, Frame, Index, TableFor;
    ResolveVia(mem, root, 4, stop, t, va);
  }

  /** The translation is a 2 MiB one exactly when the directory entry is. */
  lemma HugeThere(mem: Frames, root: nat, t: nat, va: nat)
    requires TableFor(mem, root, 4, 2, va) == Some(t)
    ensures var (e, m) := (Entry(mem, t, Index(2, va)), Translate(mem, root, va));
      && (m.HugePage? <==> Present(e) && Huge(e)) && (m.HugePage? ==> m.entry == e)
  {
    hide Present, Huge, Frame, Index, TableFor;
    ResolveVia(mem, root, 4, 2, t, va);
  }

  lemma NotHugeLinks(mem: Frames, root: nat, t: nat, va: nat)
    requires TableFor(mem, root, 4, 2, va) == Some(t) && !Translate(mem, root, va).HugePage?
    ensures var e := Entry(mem, t, Index(2, va)); Present(e) ==> LinkBits(2, e)
  {
    hide Present, Huge, Frame, Index, TableFor;
    ResolveVia(mem, root, 4, 2, t, va);
  }

  lemma GrewLevel(mem: Frames, level: map<nat, nat>, free: set<nat>,
                  mem': Frames, level': map<nat, nat>, free': set<nat>, root: nat, t: nat)
    requires Grew(mem, level, free, mem', level', free', root) && t in level
    ensures t in level' && level'[t] == level[t]
  {
  }

  lemma GrewTranslate(mem: Frames, level: map<nat, nat>, free: set<nat>,
                      mem': Frames, level': map<nat, nat>, free': set<nat>, root: nat, va: nat)
    requires Grew(mem, level, free, mem', level', free', root)
    ensures Translate(mem', root, va) == Translate(mem, root, va)
  {
    hide Translate;
  }

  lemma {:induction false} GrewKeepsTable(mem: Frames, root: nat, level: map<nat, nat>, free: set<nat>,
                                          mem': Frames, level': map<nat, nat>, free': set<nat>,
                                          x: nat, stop: nat, va: nat)
    requires Tree(mem, root, level) && Grew(mem, level, free, mem', level', free', root)
    requires x in level && 1 <= stop <= level[x] && TableFor(mem, x, level[x], stop, va).Some?
    ensures TableFor(mem', x, level[x], stop, va) == TableFor(mem, x, level[x], stop, va)
    decreases level[x]
  {
    hide Huge, Frame, Index, Unchanged;
    if level[x] > stop {
      var i := Index(level[x], va);
      assert Link(mem, level, x, i);
      assert Entry(mem', x, i) == Entry(mem, x, i);
      GrewKeepsTable(mem, root, level, free, mem', level', free', Frame(Entry(mem, x, i)), stop, va);
    }
  }

  lemma GrewKeepsWalk(mem: Frames, root: nat, level: map<nat, nat>, free: set<nat>,
                      mem': Frames, level': map<nat, nat>, free': set<nat>, stop: nat, va: nat)
    requires Tree(mem, root, level) && Grew(mem, level, free, mem', level', free', root)
    requires 1 <= stop <= 4 && TableFor(mem, root, 4, stop, va).Some?
    ensures TableFor(mem', root, 4, stop, va) == TableFor(mem, root, 4, stop, va)
  {
    hide Grew, TableFor, Index;
    RootLevel(mem, root, level);
    GrewKeepsTable(mem, root, level, free, mem', level', free', root, stop, va);
  }

  // ---------------------------------------------------------------- reading and writing a slot

  /** Physical memory holds the first frame that a 2 MiB entry maps. */
  ghost predicate MemoryHolds(mem: Frames, m: Mapping) {
    m.HugePage? ==> Frame(m.entry) in mem && |mem[Frame(m.entry)]| == 512
  }

  /** Storing `e` under a 2 MiB entry makes no link in a table. */
  ghost predicate TreeSurvives(level: map<nat, nat>, m: Mapping, e: nat) {
    m.HugePage? && Frame(m.entry) in level ==> !LinkBits(level[Frame(m.entry)], e)
  }

  lemma ZeroKeepsTree(level: map<nat, nat>, m: Mapping)
    ensures TreeSurvives(level, m, 0)
  {
    ZeroNotPresent();
    hide Present, Huge, Frame;
  }

  /**
   * One entry of the first frame that a 2 MiB entry maps is overwritten.  Every translation is
   * as before, unless that frame is a table and the walk uses that entry.
   */
  ghost predicate Overwritten(mem: Frames, level: map<nat, nat>, mem': Frames, level': map<nat, nat>, root: nat, va: nat, e: nat) {
    var (m, i) := (Translate(mem, root, va), Index(1, va));
    && m.HugePage?
    && var f := Frame(m.entry);
    && f in mem && i < |mem[f]| && mem' == SetEntry(mem, f, i, e) && level' == level
    && (f !in level ==> Unchanged(mem, mem', root))
    && (f in level ==>
          && 1 <= level[f] <= 4
          && forall vb: nat :: Translate(mem', root, vb) ==
               if Uses(mem, root, 4, f, level[f], i, vb) then Through(mem', level[f], e, vb) else Translate(mem, root, vb))
  }

  lemma SlotReady(m0: Frames, l0: map<nat, nat>, mem: Frames, level: map<nat, nat>, root: nat, va: nat, s: Slot)
    requires MemoryHolds(m0, Translate(m0, root, va))
    requires if Translate(m0, root, va).HugePage? then s == Slot(Frame(Translate(m0, root, va).entry), Index(1, va)) && mem == m0
             else SlotFor(mem, root, level, va, s)
    ensures s.table in mem && s.index < |mem[s.table]|
  {
    hide TableFor, Index, Translate, Frame;
  }

  /** A store into the first frame that a 2 MiB entry maps. */
  lemma OverwriteOk(mem: Frames, level: map<nat, nat>, root: nat, va: nat, e: nat)
    requires Tree(mem, root, level) && Translate(mem, root, va).HugePage?
    requires MemoryHolds(mem, Translate(mem, root, va))
    ensures var f := Frame(Translate(mem, root, va).entry);
      && f in mem && Index(1, va) < |mem[f]|
      && (TreeSurvives(level, Translate(mem, root, va), e) ==> Tree(SetEntry(mem, f, Index(1, va), e), root, level))
      && Overwritten(mem, level, SetEntry(mem, f, Index(1, va), e), level, root, va, e)
  {
    hide Present, Huge, Frame, Index, Resolve, Tree, LinkBits, SetEntry, TableFor;
    var f := Frame(Translate(mem, root, va).entry);
    RootLevel(mem, root, level);
    if f in level {
      IntoTable(mem, level, root, f, Index(1, va), e);
      if !LinkBits(level[f], e) {
        LeafKeepsTree(mem, root, level, f, Index(1, va), e);
      }
    } else {
      OutsideTables(mem, level, root, f, Index(1, va), e);
    }
  }

  lemma IntoTable(mem: Frames, level: map<nat, nat>, root: nat, f: nat, i: nat, e: nat)
    requires Tree(mem, root, level) && f in level && i < 512
    ensures f in mem && i < |mem[f]| && 1 <= level[f] <= 4
    ensures var mem' := SetEntry(mem, f, i, e);
      forall vb: nat :: Translate(mem', root, vb) ==
        if Uses(mem, root, 4, f, level[f], i, vb) then Through(mem', level[f], e, vb) else Translate(mem, root, vb)
  {
    hide Resolve, SetEntry, Uses, Through;
    TreeFacts(mem, root, level, f);
    RootLevel(mem, root, level);
    forall vb: nat
      ensures Translate(SetEntry(mem, f, i, e), root, vb) ==
        if Uses(mem, root, 4, f, level[f], i, vb) then Through(SetEntry(mem, f, i, e), level[f], e, vb)
        else Translate(mem, root, vb)
    {
      SetEntryResolve(mem, root, level, f, i, e, root, vb);
    }
  }

  lemma OutsideTables(mem: Frames, level: map<nat, nat>, root: nat, f: nat, i: nat, e: nat)
    requires Tree(mem, root, level) && f in mem && f !in level && i < |mem[f]|
    ensures var mem' := SetEntry(mem, f, i, e); Tree(mem', root, level) && Unchanged(mem, mem', root)
  {
    hide Resolve, Tree, LinkBits;
    var mem' := SetEntry(mem, f, i, e);
    TablesHeld(mem, root, level);
    SameTree(mem, mem', root, level);
    RootLevel(mem, root, level);
    forall vb: nat
      ensures Translate(mem', root, vb) == Translate(mem, root, vb)
    {
      ResolveSame(mem, mem', root, level, root, vb);
    }
  }

  lemma TablesHeld(mem: Frames, root: nat, level: map<nat, nat>)
    requires Tree(mem, root, level)
    ensures forall t :: t in level ==> t in mem
  {
  }

  lemma SameTree(mem: Frames, mem': Frames, root: nat, level: map<nat, nat>)
    requires Tree(mem, root, level) && forall t :: t in level ==> t in mem && t in mem' && mem'[t] == mem[t]
    ensures Tree(mem', root, level)
  {
    hide LinkBits, Frame;
    assert forall t, i :: Link(mem', level, t, i) <==> Link(mem, level, t, i);
  }

  lemma {:induction false} ResolveSame(mem: Frames, mem': Frames, root: nat, level: map<nat, nat>, x: nat, va: nat)
    requires Tree(mem, root, level) && x in level
    requires forall t :: t in level ==> t in mem && t in mem' && mem'[t] == mem[t]
    ensures 1 <= level[x] <= 4 && Resolve(mem', x, level[x], va) == Resolve(mem, x, level[x], va)
    decreases level[x]
  {
    hide Present, Huge, Frame, Index;
    var i := Index(level[x], va);
    if LinkBits(level[x], Entry(mem, x, i)) {
      assert Link(mem, level, x, i);
      ResolveSame(mem, mem', root, level, Frame(Entry(mem, x, i)), va);
    }
  }

  lemma SlotRead(mem: Frames, root: nat, level: map<nat, nat>, va: nat, s: Slot)
    requires SlotFor(mem, root, level, va, s)
    ensures Translate(mem, root, va) == Leaf(1, mem[s.table][s.index])
  {
    hide TableFor, Present, Huge, Frame, Index;
    ResolveVia(mem, root, 4, 1, s.table, va);
  }

  lemma SlotWrite(m0: Frames, l0: map<nat, nat>, f0: set<nat>, mem: Frames, root: nat,
                  level: map<nat, nat>, free: set<nat>, va: nat, s: Slot, e: nat)
    requires Tree(mem, root, level) && Grew(m0, l0, f0, mem, level, free, root)
    requires SlotFor(mem, root, level, va, s)
    ensures Tree(SetEntry(mem, s.table, s.index, e), root, level)
    ensures PageChanged(m0, SetEntry(mem, s.table, s.index, e), root, va, Leaf(1, e))
    ensures TablesOnly(m0, l0, f0, SetEntry(mem, s.table, s.index, e), level, free)
  {
    hide Tree, TableFor, Present, Huge, Frame, Index, Resolve, SameRegion, Vpn, Leaf;
    var mem' := SetEntry(mem, s.table, s.index, e);
    NoLinkAtOne(e);
    SetLeafOk(mem, root, level, s.table, e, va);
    forall vb: nat
      ensures Translate(mem', root, vb) == if Vpn(vb) == Vpn(va) then Leaf(1, e) else Translate(m0, root, vb)
    {
      RegionIsPage(va, vb);
      assert Translate(mem, root, vb) == Translate(m0, root, vb);
    }
  }

  /** The bits of the entry that maps the page. */
  lemma MappedEntry(mem: Frames, mem': Frames, root: nat, va: nat, pa: nat, flags: nat)
    ensures PageChanged(mem, mem', root, va, Page(PteMake(pa, flags))) ==>
      Translate(mem', root, va).Page? && PageEntryOf(Translate(mem', root, va).entry, pa, flags)
  {
    hide PteMake, Translate, PageEntryOf;
    PteMakeBits(pa, flags);
  }

  lemma PageLeaf(e: nat)
    ensures Present(e) ==> Leaf(1, e) == Page(e)
  {
  }

  lemma NoLinkAtOne(e: nat)
    ensures !LinkBits(1, e)
  {
  }

  // ---------------------------------------------------------------- 2 MiB mappings

  lemma RegionIndices(va: nat)
    ensures Region(va) == (Index(4, va) * 512 + Index(3, va)) * 512 + Index(2, va)
  {
    var q1 := va / 0x20_0000;
    assert 0x20_0000 * q1 <= va < 0x20_0000 * q1 + 0x20_0000;
    var q2, d2 := Digit(q1);
    var q3, d3 := Digit(q2);
    var q4, d4 := Digit(q3);
    QuotientsAre(va, q1, q2, q3);
    ModIs(q1, q2, 512, d2);
    ModIs(q2, q3, 512, d3);
    ModIs(q3, q4, 512, d4);
    ModIs(q1, q4, 0x800_0000, (d4 * 512 + d3) * 512 + d2);
  }

  lemma RegionIsSame(va: nat, vb: nat)
    ensures SameRegion(2, va, vb) <==> Region(va) == Region(vb)
  {
    hide Region, Index;
    RegionIndices(va);
    RegionIndices(vb);
    assert Index(2, va) == Index(2, vb) || Index(2, va) != Index(2, vb);
  }

  lemma HugeWrite(m0: Frames, l0: map<nat, nat>, f0: set<nat>, mem: Frames, root: nat,
                  level: map<nat, nat>, free: set<nat>, va: nat, t: nat, pa: nat, flags: nat)
    requires Tree(mem, root, level) && Grew(m0, l0, f0, mem, level, free, root)
    requires t in level && level[t] == 2 && t in mem && |mem[t]| == 512 && TableFor(mem, root, 4, 2, va) == Some(t)
    ensures var (e, mem') := (HugeMake(pa, flags), SetEntry(mem, t, Index(2, va), HugeMake(pa, flags)));
      && Tree(mem', root, level) && RegionChanged(m0, mem', root, va, Leaf(2, e))
      && TablesOnly(m0, l0, f0, mem', level, free)
  {
    hide Tree, TableFor, Present, Huge, Frame, Index, Resolve, SameRegion, Region, Leaf, HugeMake;
    var e := HugeMake(pa, flags);
    HugeMakeHuge(pa, flags);
    var mem' := SetEntry(mem, t, Index(2, va), e);
    SetLeafOk(mem, root, level, t, e, va);
    forall vb: nat
      ensures Translate(mem', root, vb) == if Region(vb) == Region(va) then Leaf(2, e) else Translate(m0, root, vb)
    {
      RegionIsSame(va, vb);
      assert Translate(mem, root, vb) == Translate(m0, root, vb);
    }
  }

  lemma EmptyTree(mem: Frames, root: nat)
    requires root in mem && mem[root] == ZeroFrame()
    ensures Tree(mem, root, map[root := 4])
    ensures forall va: nat :: Translate(mem, root, va) == InitialMap(0, 0, va)
  {
    hide Index, Frame, Huge;
    assert forall i :: Entry(mem, root, i) == 0;
  }

  lemma InitialDirect(mem: Frames, mem': Frames, root: nat, i: nat)
    requires i < 2048 && forall va: nat :: Translate(mem, root, va) == InitialMap(i, 0, va)
    requires var pa := i * 0x20_0000;
      RegionChanged(mem, mem', root, DIRECT_MAP_OFFSET + pa, Leaf(2, HugeMake(pa, DIRECT_FLAGS)))
    ensures forall va: nat :: Translate(mem', root, va) == InitialMap(i + 1, 0, va)
  {
    hide Translate, HugeMake, Present;
    var pa := i * 0x20_0000;
    HugeMakeHuge(pa, DIRECT_FLAGS);
    FlagsPresent();
    assert Region(DIRECT_MAP_OFFSET + pa) == DIRECT_REGION + i;
    hide Region;
    forall va: nat
      ensures Translate(mem', root, va) == InitialMap(i + 1, 0, va)
    {
      assert Translate(mem, root, va) == InitialMap(i, 0, va);
    }
  }

  lemma InitialKernel(mem: Frames, mem': Frames, root: nat, k: nat)
    requires k < 4 && forall va: nat :: Translate(mem, root, va) == InitialMap(2048, k, va)
    requires var off := k * 0x20_0000;
      RegionChanged(mem, mem', root, KERNEL_VIRT_BASE + off, Leaf(2, HugeMake(KERNEL_PHYS_BASE + off, KERNEL_FLAGS)))
    ensures forall va: nat :: Translate(mem', root, va) == InitialMap(2048, k + 1, va)
  {
    hide Translate, HugeMake, Present;
    var off := k * 0x20_0000;
    HugeMakeHuge(KERNEL_PHYS_BASE + off, KERNEL_FLAGS);
    FlagsPresent();
    assert Region(KERNEL_VIRT_BASE + off) == KERNEL_REGION + k;
    hide Region;
    forall va: nat
      ensures Translate(mem', root, va) == InitialMap(2048, k + 1, va)
    {
      assert Translate(mem, root, va) == InitialMap(2048, k, va);
    }
  }

  lemma FlagsPresent()
    ensures Present(DIRECT_FLAGS) && Present(KERNEL_FLAGS)
  {
  }
}
