/** The four-level page table as a tree of frames, and the flat map it stands for. */
module PageTrees {
  import opened Common
  import opened PageEntries

  /** The contents of physical frames that serve as tables: 512 entries each. */
  type Frames = map<nat, seq<nat>>

  /** What a virtual address translates to: the 4 KiB or 2 MiB entry that maps it. */
  datatype Mapping = Unmapped | Page(entry: nat) | HugePage(entry: nat)

  /** A zeroed frame. */
  function ZeroFrame(): (s: seq<nat>)
    ensures |s| == 512 && forall i :: 0 <= i < 512 ==> s[i] == 0
  {
    Zeros(512)
  }

  function Entry(mem: Frames, t: nat, i: nat): nat {
    if t in mem && i < |mem[t]| then mem[t][i] else 0
  }

  /** An entry of a table at `level` that points to a table one level down. */
  predicate LinkBits(level: nat, e: nat) {
    level >= 2 && Present(e) && !(level == 2 && Huge(e))
  }

  /** The mapping an entry at the end of a walk stands for. */
  function Leaf(level: nat, e: nat): Mapping {
    if !Present(e) then Unmapped else if level == 1 then Page(e) else HugePage(e)
  }

  /** The hardware walk from table `t` at `level` down. */
  function Resolve(mem: Frames, t: nat, level: nat, va: nat): Mapping
    requires 1 <= level <= 4
    decreases level
  {
    var e := Entry(mem, t, Index(level, va));
    if LinkBits(level, e) then Resolve(mem, Frame(e), level - 1, va) else Leaf(level, e)
  }

  /** The table at level `stop` that the walk for `va` goes through, if it gets there. */
  function TableFor(mem: Frames, t: nat, level: nat, stop: nat, va: nat): Option<nat>
    requires stop <= level
    decreases level
  {
    if level == stop then Some(t)
    else
      var e := Entry(mem, t, Index(level, va));
      if LinkBits(level, e) then TableFor(mem, Frame(e), level - 1, stop, va) else None
  }

  ghost predicate Link(mem: Frames, level: map<nat, nat>, t: nat, i: nat) {
    t in level && i < 512 && LinkBits(level[t], Entry(mem, t, i))
  }

  /**
   * The tables reachable from `root`, and those once reachable, form trees: `level` gives each
   * table its level, links go one level down, and no two entries link to the same table.
   */
  ghost predicate Tree(mem: Frames, root: nat, level: map<nat, nat>) {
    && root in level && level[root] == 4
    && (forall t :: t in level ==> 1 <= level[t] <= 4 && t in mem && |mem[t]| == 512)
    && (forall t, i :: Link(mem, level, t, i) ==>
          var c := Frame(Entry(mem, t, i)); c in level && level[c] == level[t] - 1)
    && (forall t, i, t', i' :: Link(mem, level, t, i) && Link(mem, level, t', i') ==>
          Frame(Entry(mem, t, i)) == Frame(Entry(mem, t', i')) ==> t == t' && i == i')
  }

  /** Two address spaces translate every address alike. */
  ghost predicate SameTranslation(mem: Frames, mem': Frames, root: nat) {
    forall va: nat :: Resolve(mem', root, 4, va) == Resolve(mem, root, 4, va)
  }

  /** `vb` lies in the page of `va` if `level` is 1, in its 2 MiB region if `level` is 2. */
  ghost predicate SameRegion(level: nat, va: nat, vb: nat) {
    forall k :: level <= k <= 4 ==> Index(k, va) == Index(k, vb)
  }

  // ---------------------------------------------------------------- adding a table

  /** A zeroed frame `f` linked into the absent slot `i` of table `t`. */
  function AddLink(mem: Frames, t: nat, i: nat, f: nat): Frames
    requires t in mem && i < |mem[t]|
  {
    var row: seq<nat> := mem[t][i := PteMake(f * 4096, PTE_P + PTE_W)];
    mem[f := ZeroFrame()][t := row]
  }

  lemma AddLinkEntries(mem: Frames, level: map<nat, nat>, t: nat, i: nat, f: nat)
    requires t in level && t in mem && |mem[t]| == 512 && i < 512 && f != t
    ensures forall x, j ::
      Entry(AddLink(mem, t, i, f), x, j) ==
      if x == t && j == i then PteMake(f * 4096, PTE_P + PTE_W) else if x == f then 0 else Entry(mem, x, j)
  {
    hide PteMake;
  }

  lemma {:induction false} AddLinkResolve(mem: Frames, root: nat, level: map<nat, nat>,
                                          t: nat, i: nat, f: nat, x: nat, va: nat)
    requires Tree(mem, root, level) && t in level && level[t] >= 2 && i < 512
    requires !Present(Entry(mem, t, i)) && f !in level && f < FRAMES && x in level
    ensures Resolve(AddLink(mem, t, i, f), x, level[x], va) == Resolve(mem, x, level[x], va)
    decreases level[x]
  {
    hide Present, Huge, Frame, PteMake, AddLink, Index;
    LinkEntry(f);
    AddLinkEntries(mem, level, t, i, f);
    var j := Index(level[x], va);
    if x == t && j == i {
      var l := level[t];
      assert Entry(AddLink(mem, t, i, f), f, Index(l - 1, va)) == 0;
      ZeroNotPresent();
      NotPresentNoLink(l, Entry(mem, t, i));
      assert Resolve(AddLink(mem, t, i, f), f, l - 1, va) == Unmapped;
    } else if LinkBits(level[x], Entry(mem, x, j)) {
      assert Link(mem, level, x, j);
      AddLinkResolve(mem, root, level, t, i, f, Frame(Entry(mem, x, j)), va);
    }
  }

  lemma ZeroNotPresent()
    ensures !Present(0)
  {
  }

  lemma NotPresentNoLink(level: nat, e: nat)
    requires !Present(e)
    ensures !LinkBits(level, e) && Leaf(level, e) == Unmapped
  {
  }

  /** Linking a fresh zeroed frame keeps the tree and changes no translation. */
  lemma AddLinkOk(mem: Frames, root: nat, level: map<nat, nat>, t: nat, i: nat, f: nat)
    requires Tree(mem, root, level) && t in level && level[t] >= 2 && i < 512
    requires !Present(Entry(mem, t, i)) && f !in level && f < FRAMES
    ensures Tree(AddLink(mem, t, i, f), root, level[f := level[t] - 1])
    ensures SameTranslation(mem, AddLink(mem, t, i, f), root)
  {
    hide Present, Huge, Frame, PteMake, AddLink, Resolve;
    var (mem', level') := (AddLink(mem, t, i, f), level[f := level[t] - 1]);
    LinkEntry(f);
    ZeroNotPresent();
    AddLinkEntries(mem, level, t, i, f);
    AddLinkShape(mem, t, i, f);
    forall x, j | Link(mem', level', x, j)
      ensures (x == t && j == i && Frame(Entry(mem', x, j)) == f) || (x != f && Link(mem, level, x, j) && Entry(mem', x, j) == Entry(mem, x, j))
    {
    }
    assert Tree(mem', root, level');
    forall va: nat
      ensures Resolve(mem', root, 4, va) == Resolve(mem, root, 4, va)
    {
      AddLinkResolve(mem, root, level, t, i, f, root, va);
    }
  }

  lemma AddLinkShape(mem: Frames, t: nat, i: nat, f: nat)
    requires t in mem && i < |mem[t]| == 512 && f != t
    ensures var mem' := AddLink(mem, t, i, f);
      f in mem' && |mem'[f]| == 512 && forall x :: x in mem ==> x in mem' && (x != f ==> |mem'[x]| == |mem[x]|)
  {
  }

  // ---------------------------------------------------------------- writing a leaf

  /** Entry `i` of table `t` overwritten. */
  function SetEntry(mem: Frames, t: nat, i: nat, e: nat): Frames
    requires t in mem && i < |mem[t]|
  {
    var row: seq<nat> := mem[t][i := e];
    mem[t := row]
  }

  /** A walk is decided by its table and indices: two walks that meet come from the same indices. */
  lemma {:induction false} WalksMeet(mem: Frames, root: nat, level: map<nat, nat>, x: nat, y: nat, stop: nat, va: nat, vb: nat)
    requires Tree(mem, root, level) && x in level && y in level && level[x] == level[y]
    requires 1 <= stop <= level[x]
    requires TableFor(mem, x, level[x], stop, va).Some?
    requires TableFor(mem, x, level[x], stop, va) == TableFor(mem, y, level[y], stop, vb)
    ensures x == y && forall k :: stop < k <= level[x] ==> Index(k, va) == Index(k, vb)
    decreases level[x]
  {
    hide Present, Huge, Frame, Index;
    if level[x] > stop {
      var (i, j) := (Index(level[x], va), Index(level[x], vb));
      assert Link(mem, level, x, i) && Link(mem, level, y, j);
      WalksMeet(mem, root, level, Frame(Entry(mem, x, i)), Frame(Entry(mem, y, j)), stop, va, vb);
    }
  }

  /** A table on a walk is at its level. */
  lemma {:induction false} TableForLevel(mem: Frames, root: nat, level: map<nat, nat>, x: nat, stop: nat, va: nat)
    requires Tree(mem, root, level) && x in level && 1 <= stop <= level[x]
    ensures var t := TableFor(mem, x, level[x], stop, va);
      t.Some? ==> t.value in level && level[t.value] == stop
    decreases level[x]
  {
    hide Present, Huge, Frame, Index;
    var i := Index(level[x], va);
    if level[x] > stop && LinkBits(level[x], Entry(mem, x, i)) {
      assert Link(mem, level, x, i);
      TableForLevel(mem, root, level, Frame(Entry(mem, x, i)), stop, va);
    }
  }

  lemma SetEntryEntries(mem: Frames, t: nat, i: nat, e: nat)
    requires t in mem && |mem[t]| == 512 && i < 512
    ensures forall x, j :: Entry(SetEntry(mem, t, i, e), x, j) == if x == t && j == i then e else Entry(mem, x, j)
  {
  }

  /** What a walk finds that has come to the entry `e` of a table at `level`. */
  function Through(mem: Frames, level: nat, e: nat, va: nat): Mapping
    requires 1 <= level <= 4
  {
    if LinkBits(level, e) then Resolve(mem, Frame(e), level - 1, va) else Leaf(level, e)
  }

  /** The walk for `va` from `x` at level `l` uses entry `i` of table `t`. */
  predicate Uses(mem: Frames, x: nat, l: nat, t: nat, stop: nat, i: nat, va: nat) {
    stop <= l && TableFor(mem, x, l, stop, va) == Some(t) && Index(stop, va) == i
  }

  /** What a walk from `x` finds after entry `i` of table `t` became `e`. */
  lemma {:induction false} SetEntryResolve(mem: Frames, root: nat, level: map<nat, nat>,
                                           t: nat, i: nat, e: nat, x: nat, va: nat)
    requires Tree(mem, root, level) && t in level && i < 512 && x in level
    ensures Resolve(SetEntry(mem, t, i, e), x, level[x], va) ==
      if Uses(mem, x, level[x], t, level[t], i, va) then Through(SetEntry(mem, t, i, e), level[t], e, va)
      else Resolve(mem, x, level[x], va)
    decreases level[x]
  {
    hide Present, Huge, Frame, SetEntry, Index, Leaf;
    SetEntryEntries(mem, t, i, e);
    var j := Index(level[x], va);
    if !(x == t && j == i) && LinkBits(level[x], Entry(mem, x, j)) {
      assert Link(mem, level, x, j);
      SetEntryResolve(mem, root, level, t, i, e, Frame(Entry(mem, x, j)), va);
    }
  }

  /**
   * Writing a leaf entry into the table for `va` keeps the tree and changes the translation of
   * exactly the page (or 2 MiB region) of `va`.
   */
  lemma SetLeafOk(mem: Frames, root: nat, level: map<nat, nat>, t: nat, e: nat, va: nat)
    requires Tree(mem, root, level) && t in level && level[t] <= 2 && !LinkBits(level[t], e)
    requires TableFor(mem, root, 4, level[t], va) == Some(t)
    ensures var mem' := SetEntry(mem, t, Index(level[t], va), e);
      && Tree(mem', root, level)
      && forall vb: nat :: Resolve(mem', root, 4, vb) ==
           if SameRegion(level[t], va, vb) then Leaf(level[t], e) else Resolve(mem, root, 4, vb)
  {
    hide Present, Huge, Frame, SetEntry, Index, Leaf, Resolve, TableFor, SameRegion, LinkBits;
    var (i, mem') := (Index(level[t], va), SetEntry(mem, t, Index(level[t], va), e));
    SetEntryEntries(mem, t, i, e);
    LeafKeepsTree(mem, root, level, t, i, e);
    forall vb: nat
      ensures Resolve(mem', root, 4, vb) == if SameRegion(level[t], va, vb) then Leaf(level[t], e) else Resolve(mem, root, 4, vb)
    {
      SetEntryResolve(mem, root, level, t, i, e, root, vb);
      RegionMeets(mem, root, level, t, va, vb);
    }
  }

  /** An entry that is no link keeps the tree. */
  lemma LeafKeepsTree(mem: Frames, root: nat, level: map<nat, nat>, t: nat, i: nat, e: nat)
    requires Tree(mem, root, level) && t in level && i < 512 && !LinkBits(level[t], e)
    ensures Tree(SetEntry(mem, t, i, e), root, level)
  {
    hide Frame, SetEntry, LinkBits;
    var mem' := SetEntry(mem, t, i, e);
    SetEntryEntries(mem, t, i, e);
    SetEntryShape(mem, t, i, e);
    forall x, j | Link(mem', level, x, j)
      ensures Link(mem, level, x, j) && Entry(mem', x, j) == Entry(mem, x, j)
    {
    }
  }

  lemma SetEntryShape(mem: Frames, t: nat, i: nat, e: nat)
    requires t in mem && |mem[t]| == 512 && i < 512
    ensures forall x :: x in mem ==> x in SetEntry(mem, t, i, e) && |SetEntry(mem, t, i, e)[x]| == |mem[x]|
  {
  }

  /** Two addresses use the same entry of a table exactly when they lie in the same region. */
  lemma RegionMeets(mem: Frames, root: nat, level: map<nat, nat>, t: nat, va: nat, vb: nat)
    requires Tree(mem, root, level) && t in level && TableFor(mem, root, 4, level[t], va) == Some(t)
    ensures SameRegion(level[t], va, vb) <==>
      TableFor(mem, root, 4, level[t], vb) == Some(t) && Index(level[t], vb) == Index(level[t], va)
  {
    hide Present, Huge, Frame, Index, TableFor;
    if TableFor(mem, root, 4, level[t], vb) == Some(t) {
      WalksMeet(mem, root, level, root, root, level[t], va, vb);
    } 
    if SameRegion(level[t], va, vb) {
      SameWalk(mem, root, 4, level[t], va, vb);
    }
  }

  lemma {:induction false} SameWalk(mem: Frames, x: nat, l: nat, stop: nat, va: nat, vb: nat)
    requires stop <= l <= 4 && SameRegion(stop, va, vb)
    ensures TableFor(mem, x, l, stop, va) == TableFor(mem, x, l, stop, vb)
    decreases l
  {
    hide Present, Huge, Frame, Index;
    if l > stop {
      var e := Entry(mem, x, Index(l, va));
      assert Index(l, va) == Index(l, vb);
      if LinkBits(l, e) {
        SameWalk(mem, Frame(e), l - 1, stop, va, vb);
      }
    }
  }

  /** At level 1 a region is a page. */
  lemma RegionIsPage(va: nat, vb: nat)
    ensures SameRegion(1, va, vb) <==> Vpn(va) == Vpn(vb)
  {
    SamePage(va, vb);
  }
}
