/** The kernel heap allocator: `kmalloc` and `kfree` over boundary-merged blocks. */
module KernelHeap {
  import opened Common
  import opened HeapBlocks
  import opened HeapBacking
  import opened HeapPages
  import opened PageTables

  /** A free block that can hold `req` bytes. */
  ghost predicate Fits(mem: Memory, blocks: set<nat>, req: nat, b: nat)
    requires blocks <= mem.Keys
  {
    b in blocks && mem[b].free && mem[b].size >= req
  }

  /** `b` is a smallest free block that can hold `req` bytes; 0 says there is none. */
  ghost predicate BestFit(mem: Memory, blocks: set<nat>, req: nat, b: nat)
    requires blocks <= mem.Keys
  {
    if b == 0 then forall x :: x in blocks ==> !Fits(mem, blocks, req, x)
    else Fits(mem, blocks, req, b) && forall x :: Fits(mem, blocks, req, x) ==> mem[b].size <= mem[x].size
  }

  /** The live payloads: header address to size, for each allocated block. */
  ghost function Payloads(mem: Memory, blocks: set<nat>): map<nat, nat>
    requires blocks <= mem.Keys
  {
    map b | b in blocks && !mem[b].free :: mem[b].size
  }

  /** ROUND_UP(size, 16) in 64 bits. */
  function RoundUp16(size: nat): nat {
    Wrap(size + 15) / 16 * 16
  }

  /** The pages `km_expand` asks for, in 64 bits. */
  function PagesFor(minBytes: nat): nat {
    Wrap(Wrap(minBytes + HEADER) + 4095) / 4096
  }

  class KHeap {
    var mem: Memory
    var heads: seq<nat>
    var heapEnd: nat
    var heapUsed: int
    var lastBlock: nat
    const vmm: Vmm                 // g_vmm and g_pmm, which other components use too
    ghost var v: View
    ghost var frames: seq<nat>     // the frames behind the heap's pages

    ghost function State(): Heap
      reads this
    {
      Heap(mem, heads, heapEnd, heapUsed, lastBlock)
    }

    ghost predicate Valid()
      reads this
    {
      Inv(State(), v)
    }

    /** The page tables, the frame bitmap, and the frames behind the heap. */
    ghost function Pages(): (Paging, seq<nat>)
      requires vmm.pmm.Valid()
      reads this, vmm, vmm.pmm.words
    {
      (PagingOf(vmm), frames)
    }

    /** Every page of the heap is backed by a frame of its own. */
    ghost predicate Backs()
      reads this, vmm, vmm.pmm.words
    {
      vmm.Valid() && Owned(PagingOf(vmm), frames) && heapEnd == EndWith(frames)
    }

    /** `kmalloc_init`. */
    constructor (vmm: Vmm)
      ensures Valid() && v == View({}, seq(CLASSES, _ => []), {})
      ensures this.vmm == vmm && frames == [] && heapEnd == HEAP_START
    {
      mem, heads, heapEnd, heapUsed, lastBlock := map[], seq(CLASSES, _ => 0), HEAP_START, 0, 0;
      this.vmm, v, frames := vmm, View({}, seq(CLASSES, _ => []), {}), [];
    }

    /** `km_size_class`: the loop over the class sizes. */
    static method FindSizeClass(size: nat) returns (c: nat)
      requires size + 15 < TWO_64
      ensures c == SizeClass(size)
    {
      if size <= MIN_SIZE {
        return 0;
      }
      hide RoundUp16;
      var a := RoundUp16(size);
      c := 0;
      while ClassSize(c) < a && c < CLASSES - 1
        invariant c < CLASSES && ClassFrom(size, c) == SizeClass(size)
        decreases CLASSES - c
      {
        RoundUpCompare(size, c);
        c := c + 1;
      }
      RoundUpCompare(size, c);
    }

    /** Rounding the size up to 16 does not change how it compares with a class size. */
    static lemma RoundUpCompare(size: nat, c: nat)
      requires size + 15 < TWO_64
      ensures ClassSize(c) < RoundUp16(size) <==> ClassSize(c) < size
    {
      ClassSizeMultiple(c);
    }

    static lemma {:induction false} ClassSizeMultiple(c: nat)
      ensures ClassSize(c) % 16 == 0
    {
      if c > 0 {
        ClassSizeMultiple(c - 1);
        var q := ClassSize(c - 1) / 16;
        assert ClassSize(c - 1) == 16 * q;
        ModIs(ClassSize(c), 2 * q, 16, 0);
      }
    }

    /** `km_list_unlink`. */
    method ListUnlink(b: nat)
      requires b in mem && |heads| == CLASSES && mem[b].size + 15 < TWO_64
      requires mem[b].prev != 0 ==> mem[b].prev in mem
      requires mem[b].next != 0 ==> mem[b].next in mem
      modifies this`mem, this`heads
      ensures State() == Unlink(old(State()), b)
    {
      hide SizeClass;
      var c := FindSizeClass(mem[b].size);
      if mem[b].prev != 0 {
        mem := mem[mem[b].prev := mem[mem[b].prev].(next := mem[b].next)];
      } else if heads[c] == b {
        heads := heads[c := mem[b].next];
      }
      if mem[b].next != 0 {
        mem := mem[mem[b].next := mem[mem[b].next].(prev := mem[b].prev)];
      }
      mem := mem[b := mem[b].(next := 0)];
      mem := mem[b := mem[b].(prev := 0)];
    }

    /** `km_insert_free`. */
    method InsertFree(b: nat)
      requires b in mem && |heads| == CLASSES && mem[b].size + 15 < TWO_64
      requires forall c :: 0 <= c < CLASSES && heads[c] != 0 ==> heads[c] in mem
      modifies this`mem, this`heads
      ensures State() == Insert(old(State()), b)
    {
      hide SizeClass;
      mem := mem[b := mem[b].(free := true)];
      var c := FindSizeClass(mem[b].size);
      mem := mem[b := mem[b].(next := heads[c])];
      mem := mem[b := mem[b].(prev := 0)];
      if heads[c] != 0 {
        mem := mem[heads[c] := mem[heads[c]].(prev := b)];
      }
      heads := heads[c := b];
    }

    /** The search of `km_find_best`: every list from the class of `req` up, each to its end. */
    method Search(req: nat) returns (best: nat)
      requires Valid() && req + 15 < TWO_64
      ensures BestFit(mem, v.blocks, req, best)
    {
      hide Inv, Seen, BestFit;
      BlocksInMemory(State(), v);
      var c := FindSizeClass(req);
      best := 0;
      var bestDiff: nat := TWO_64 - 1;
      SearchStarts(mem, v, req);
      for i := c to CLASSES
        invariant Seen(mem, v, req, i, 0, best, bestDiff)
      {
        ghost var k := 0;
        ListSlot(State(), v, i, 0);
        var b := heads[i];
        while b != 0 && b >= DIRECT_MAP_OFFSET
          invariant k <= |v.lists[i]| && b == At(v.lists[i], k)
          invariant Seen(mem, v, req, i, k, best, bestDiff)
          decreases |v.lists[i]| - k
        {
          ListSlot(State(), v, i, k);
          ghost var (best0, bestDiff0) := (best, bestDiff);
          if mem[b].free && mem[b].size >= req {
            var diff := mem[b].size - req;
            if diff < bestDiff {
              bestDiff, best := diff, b;
            }
            SearchStep(mem, v, req, i, k, best0, bestDiff0, best, bestDiff);
            if diff == 0 {
              ExactFit(mem, v, req, i, k + 1, best);
              return;
            }
          } else {
            SearchStep(mem, v, req, i, k, best0, bestDiff0, best, bestDiff);
          }
          b := mem[b].next;
          k := k + 1;
        }
        ListSlot(State(), v, i, k);
        SearchNextClass(State(), v, req, i, best, bestDiff);
      }
      SearchEnds(mem, v, req, best, bestDiff);
    }

    /** The branch of `km_find_best` that cuts a large block in two. */
    method SplitBest(b: nat, req: nat)
      requires b in mem && mem[b].size >= req + HEADER + MIN_SIZE && mem[b].size + 15 < TWO_64
      requires EndOf(mem, b) < heapEnd ==> EndOf(mem, b) in mem
      requires HeadsApart(State(), b, req)
      modifies this`mem, this`heads, this`lastBlock
      ensures State() == CutOff(old(State()), b, req)
    {
      hide SizeClass, PushMem, Split;
      var rem := b + HEADER + req;
      MakeRest(b, req);
      SplitFields(old(State()), b, req);
      var rClass := FindSizeClass(mem[rem].size);
      SizeThenPush(mem, heads[rClass], rem, b, req);
      PushRest(rem, rClass);
      mem := mem[b := mem[b].(size := req)];
    }

    /** The header of the rest, the left link of the block behind it, and `last_block`. */
    method MakeRest(b: nat, req: nat)
      requires b in mem && mem[b].size >= req + HEADER + MIN_SIZE
      requires EndOf(mem, b) < heapEnd ==> EndOf(mem, b) in mem
      modifies this`mem, this`lastBlock
      ensures b in mem && State().(mem := mem[b := mem[b].(size := req)]) == Split(old(State()), b, req)
      ensures heads == old(heads)
      ensures var rem := b + HEADER + req;
        rem in mem && mem[rem] == Header(old(mem[b].size) - HEADER - req, true, 0, 0, b)
    {
      var origSize := mem[b].size;
      var rem := b + HEADER + req;
      mem := Place(mem, rem, Header(origSize - HEADER - req, true, 0, 0, b));
      var oldNext := b + HEADER + origSize;
      if oldNext < heapEnd {
        mem := mem[oldNext := mem[oldNext].(physPrev := rem)];
      } else {
        lastBlock := rem;
      }
    }

    /** The stores that push the rest on its free list. */
    method PushRest(rem: nat, rClass: nat)
      requires rem in mem && rClass < CLASSES == |heads| && (heads[rClass] != 0 ==> heads[rClass] in mem)
      requires mem[rem].free && mem[rem].prev == 0
      modifies this`mem, this`heads
      ensures mem == PushMem(old(mem), old(heads)[rClass], rem) && heads == old(heads)[rClass := rem]
    {
      mem := mem[rem := mem[rem].(next := heads[rClass])];
      if heads[rClass] != 0 {
        mem := mem[heads[rClass] := mem[heads[rClass]].(prev := rem)];
      }
      heads := heads[rClass := rem];
    }

    /** The stores that end `km_find_best`. */
    method Occupy(b: nat)
      requires b in mem
      modifies this`mem
      ensures mem == old(mem)[b := old(mem)[b].(free := false, next := 0, prev := 0)]
    {
      mem := mem[b := mem[b].(free := false)];
      mem := mem[b := mem[b].(next := 0)];
      mem := mem[b := mem[b].(prev := 0)];
    }

    /** `km_find_best`. */
    method FindBest(req: nat) returns (b: nat)
      requires Valid() && req % 16 == 0 && req + 15 < TWO_64
      modifies this`mem, this`heads, this`lastBlock, this`v
      ensures BestFit(old(mem), old(v.blocks), req, b)
      ensures if b == 0 then State() == old(State()) && v == old(v)
              else Shape(State(), v) && Carved(old(State()), old(v), State(), v, b, req)
    {
      hide Inv, Shape, BestFit, Carved;
      b := Search(req);
      if b != 0 {
        Carve(b, req);
      }
    }

    /** The part of `km_find_best` after the search: the block is unlinked, cut if it is large, and marked. */
    method Carve(b: nat, req: nat)
      requires Valid() && req % 16 == 0 && req + 15 < TWO_64 && b != 0
      requires BestFit(mem, v.blocks, req, b)
      modifies this`mem, this`heads, this`lastBlock, this`v
      ensures Shape(State(), v) && Carved(old(State()), old(v), State(), v, b, req)
    {
      hide Inv, Shape, BestFit, Fits, WellFormed, CutOff, Carved, Parts, OnlyWrites, Places;
      hide UnlinkMem, UnlinkHead, SizeClass, HeadsApart, EndOf;
      ghost var (h0, v0) := (State(), v);
      BlocksInMemory(h0, v0);
      BestIsBlock(h0, v0, req, b);
      v := UnlinkOk(h0, v0, {}, b);
      assert {} + {b} == {b};
      ListUnlink(b);
      ghost var (h1, v1) := (State(), v);
      HalfMultiple(req);
      CutIfLarge(b, req);
      ghost var h2 := State();
      TakeOk(State(), v, b);
      Occupy(b);
      CarvedIntro(h0, v0, h1, h2, State(), v, b, req);
      CarvedSeamed(h0, v0, State(), v, b, req);
    }

    /** The cut of a block that has been taken out of its list. */
    method CutIfLarge(b: nat, req: nat)
      requires WellFormed(State(), v, {b}) && b in v.blocks && b in mem && v.blocks <= mem.Keys
      requires req % 8 == 0 && mem[b].size + 15 < TWO_64
      modifies this`mem, this`heads, this`lastBlock, this`v
      ensures WellFormed(State(), v, {b}) && b in v.blocks && b in mem && v.seams == old(v).seams
      ensures if old(mem[b]).size >= req + HEADER + MIN_SIZE
              then Parts(old(mem), old(v).blocks, mem, v.blocks, b, req)
              else State() == old(State()) && v.blocks == old(v).blocks
    {
      hide WellFormed, CutOff, Parts, SizeClass, HeadsApart, EndOf;
      if mem[b].size >= req + HEADER + MIN_SIZE {
        CutOffReady(State(), v, b, req);
        v := CutOffOk(State(), v, b, req);
        SplitBest(b, req);
      }
    }

    /**
     * `km_expand`.  The heap grows exactly when the new pages could be backed; `Backing` says
     * when that is, and what becomes of the frames and the page tables.
     */
    method Expand(minBytes: nat) returns (ok: bool, ghost base: nat)
      requires Valid() && Backs() && minBytes < TWO_64
      modifies this, vmm`mem, vmm`level, vmm.pmm`freeFrames, vmm.pmm.words
      ensures Valid() && Backs() && (ok ==> PagesFor(minBytes) > 0)
      ensures Backing(old(PagingOf(vmm)), PagingOf(vmm), old(heapEnd), PagesFor(minBytes), ok, base)
      ensures frames == FramesAfter(old(frames), PagesFor(minBytes), ok, base)
      ensures !ok ==> State() == old(State()) && v == old(v)
      ensures ok ==> Extended(old(State()), old(v), State(), v, PagesFor(minBytes) * 4096)
    {
      hide Inv, Extended, PagesFor, Owned, Backing, FramesAfter, Vmm.Valid, PagingOf, EndWith;
      var pages := PagesFor(minBytes);
      var first;
      ok, first := BackHeap(vmm, heapEnd, pages, frames);
      base := first;
      frames := FramesAfter(frames, pages, ok, first);
      if ok {
        AddBlock(pages);
      }
    }

    /** The block that `km_expand` makes of the new pages. */
    method AddBlock(pages: nat)
      requires Valid() && pages > 0 && heapEnd + pages * 4096 < TWO_64
      modifies this`mem, this`heads, this`heapEnd, this`lastBlock, this`v
      ensures Valid() && Extended(old(State()), old(v), State(), v, pages * 4096)
      ensures heapEnd == old(heapEnd) + pages * 4096
    {
      hide Inv, Extended;
      ghost var (h0, v0) := (State(), v);
      v := ExtendOk(h0, v0, pages);
      var blk := heapEnd;
      mem := Place(mem, blk, Header(pages * 4096 - HEADER, true, 0, 0, lastBlock));
      lastBlock := blk;
      InsertFree(blk);
      heapEnd := blk + pages * 4096;
    }

    /**
     * `kmalloc`; the result is the payload address, or 0 for NULL.  `grown` says whether the
     * heap grew, which it is asked to do only when no free block fits.
     */
    method Kmalloc(size: nat) returns (ptr: nat, ghost grown: bool, ghost base: nat)
      requires size < TWO_64
      requires heapEnd != 0 ==> Valid() && Backs()
      modifies this, vmm`mem, vmm`level, vmm.pmm`freeFrames, vmm.pmm.words
      ensures heapEnd != 0 ==> Valid() && Backs()
      ensures size == 0 || old(heapEnd) == 0 ==>
        ptr == 0 && unchanged(this) && unchanged(vmm) && unchanged(vmm.pmm) && unchanged(vmm.pmm.words)
      ensures size > 0 && old(heapEnd) != 0 ==>
        AllocResult(old(State()), old(v), State(), v, RoundUp16(size), grown, ptr)
      ensures size > 0 && old(heapEnd) != 0 ==>
        Served(old(State()), old(v), old(Pages()), Pages(), RoundUp16(size), grown, base)
    {
      hide Inv, AllocResult, RoundUp16, PagesFor, BestFit, Shape, Carved, Extended, HasRoom, Backing, Owned, Vmm.Valid;
      ptr, grown, base := 0, false, 0;
      if size == 0 {
        return;
      }
      var req := RoundUp16(size);
      RoundUpFacts(size);
      if heapEnd == 0 {
        return;
      }
      ghost var (h0, v0) := (State(), v);
      BlocksInMemory(h0, v0);
      var b := FindBest(req);
      BestFitRoom(h0.mem, v0.blocks, req, b);
      ghost var (h1, v1) := (h0, v0);
      if b == 0 {
        var ok;
        ok, base := Expand(req);
        grown := ok;
        if !ok {
          NoRoom(h0, v0, h0, v0, req, false);
          return;
        }
        h1, v1 := State(), v;
        BlocksInMemory(h1, v1);
        b := FindBest(req);
      }
      if b == 0 {
        NoRoom(h0, v0, h1, v1, req, grown);
        return;
      }
      CarvedUsed(h1, v1, State(), v, b, req);
      BlocksInMemory(h1, v1);
      heapUsed := heapUsed + mem[b].size + HEADER;
      AllocDone(h0, v0, h1, v1, State(), v, b, req, grown);
      ptr := b + HEADER;
    }

    /**
     * Either merge of `kfree`: the block `listed` leaves its free list, and `left` swallows the
     * block `right` behind it, which is `listed` for the first merge and `left` for the second.
     */
    method Coalesce(left: nat, right: nat, listed: nat)
      requires left in mem && right in mem && listed in mem && right == EndOf(mem, left) && left != right
      requires |heads| == CLASSES && mem[listed].size + 15 < TWO_64
      requires mem[listed].prev != 0 ==> mem[listed].prev in mem
      requires mem[listed].next != 0 ==> mem[listed].next in mem
      requires EndOf(mem, right) < heapEnd ==> EndOf(mem, right) in mem
      modifies this`mem, this`heads, this`lastBlock
      ensures MergeReady(Unlink(old(State()), listed), left)
      ensures State() == Merge(Unlink(old(State()), listed), left)
    {
      hide SizeClass, UnlinkHead;
      UnlinkKeepsSizes(State(), listed);
      ListUnlink(listed);
      ghost var h1 := State();
      mem := mem[left := mem[left].(size := mem[left].size + HEADER + mem[right].size)];
      var after := right + HEADER + mem[right].size;
      if after < heapEnd {
        mem := mem[after := mem[after].(physPrev := left)];
      } else {
        lastBlock := left;
      }
    }

    /** The first merge of `kfree`, with the block to the right. */
    method MergeNext(ghost h0: Heap, ghost v0: View, b: nat)
      requires WellFormed(State(), v, {b}) && Freeing(h0, v0, State(), v, b, b)
      requires b in v.blocks && v.blocks <= mem.Keys
      modifies this`mem, this`heads, this`lastBlock, this`v
      ensures WellFormed(State(), v, {b}) && Freeing(h0, v0, State(), v, b, b)
      ensures b in v.blocks && v.blocks <= mem.Keys && RightOk(mem, v.blocks, v.seams, b)
    {
      hide Freeing, WellFormed, Joined, RightOk, EndOf, Unlink, Merge;
      ghost var (h1, v1) := (State(), v);
      LooseBlock(h1, v1, b);
      var next := EndOf(mem, b);
      if next < heapEnd && mem[next].free {
        CoalesceReady(h1, v1, b, b, next, next);
        v := CoalesceOk(h1, v1, b, b, next, next);
        Coalesce(b, next, next);
        FreeingRight(h0, v0, h1, v1, State(), v, b);
        LooseBlock(State(), v, b);
      } else {
        NoRightNeighbour(h1, v1, b);
      }
    }

    /** The second merge of `kfree`, with the block to the left; `t` is the block that results. */
    method MergePrev(ghost h0: Heap, ghost v0: View, b: nat) returns (t: nat)
      requires WellFormed(State(), v, {b}) && Freeing(h0, v0, State(), v, b, b)
      requires b in v.blocks && v.blocks <= mem.Keys && RightOk(mem, v.blocks, v.seams, b)
      modifies this`mem, this`heads, this`lastBlock, this`v
      ensures WellFormed(State(), v, {t}) && Freeing(h0, v0, State(), v, t, b)
      ensures t in v.blocks && v.blocks <= mem.Keys && Seamed(mem, v.blocks, v.seams)
    {
      hide Freeing, WellFormed, Joined, RightOk, EndOf, Unlink, Merge, Seamed;
      ghost var (h2, v2) := (State(), v);
      LooseBlock(h2, v2, b);
      t := b;
      var prevb := mem[b].physPrev;
      if prevb != 0 && mem[prevb].free {
        CoalesceReady(h2, v2, b, prevb, b, prevb);
        v := CoalesceOk(h2, v2, b, prevb, b, prevb);
        Coalesce(prevb, b, prevb);
        FreeingLeft(h0, v0, h2, v2, State(), v, prevb, b);
        LooseBlock(State(), v, prevb);
        t := prevb;
      } else {
        NoLeftNeighbour(h0, v0, h2, v2, b);
      }
    }

    /** `kfree`. */
    method Kfree(ptr: nat)
      requires Valid()
      requires Freeable(State(), v, ptr)
      modifies this
      ensures Valid() && (old(Backs()) ==> Backs())
      ensures v.seams == old(v).seams && heapEnd == old(heapEnd) && frames == old(frames)
      ensures FreeResult(old(State()), old(v), State(), v, ptr)
    {
      hide Inv, FreeResult, Freeing, WellFormed, RightOk, Seamed, Insert;
      ghost var (h0, v0) := (State(), v);
      BlocksInMemory(h0, v0);
      if ptr == 0 {
        NothingFreed(h0, v0, ptr);
        return;
      }
      var b := ptr - HEADER;
      if mem[b].free {
        NothingFreed(h0, v0, ptr);
        return;
      }
      mem := mem[b := mem[b].(free := true)];
      heapUsed := heapUsed - (mem[b].size + HEADER);
      MarkOk(h0, v0, b);
      MergeNext(h0, v0, b);
      var t := MergePrev(h0, v0, b);
      ghost var (h3, v3) := (State(), v);
      LooseBlock(h3, v3, t);
      v := FreedOk(h0, v0, h3, v3, t, b);
      InsertFree(t);
    }
  }

  // ---------------------------------------------------------------- the search

  /** A candidate at least as good as `x`. */
  ghost predicate NoWorse(mem: Memory, best: nat, x: nat) {
    best != 0 && best in mem && x in mem && mem[best].size <= mem[x].size
  }

  ghost predicate Candidate(mem: Memory, blocks: set<nat>, req: nat, best: nat, bestDiff: nat)
    requires blocks <= mem.Keys
  {
    if best == 0 then bestDiff == TWO_64 - 1
    else Fits(mem, blocks, req, best) && bestDiff == mem[best].size - req
  }

  /** Every fitting block in `l` is no better than `best`. */
  ghost predicate Covered(mem: Memory, blocks: set<nat>, req: nat, best: nat, l: seq<nat>)
    requires blocks <= mem.Keys
  {
    forall x :: x in l && Fits(mem, blocks, req, x) ==> NoWorse(mem, best, x)
  }

  /** Every fitting block of a class below `i` is no better than `best`. */
  ghost predicate CoveredBelow(mem: Memory, blocks: set<nat>, req: nat, best: nat, i: nat)
    requires blocks <= mem.Keys
  {
    forall x :: Fits(mem, blocks, req, x) && SizeClass(mem[x].size) < i ==> NoWorse(mem, best, x)
  }

  /** The search has dealt with the classes below `i` and the first `k` blocks of class `i`. */
  ghost predicate Seen(mem: Memory, v: View, req: nat, i: nat, k: nat, best: nat, bestDiff: nat) {
    && v.blocks <= mem.Keys && |v.lists| == CLASSES
    && Candidate(mem, v.blocks, req, best, bestDiff)
    && CoveredBelow(mem, v.blocks, req, best, i)
    && (i < CLASSES ==> k <= |v.lists[i]| && Covered(mem, v.blocks, req, best, v.lists[i][..k]))
  }

  /** What the links say about position `k` of list `i`. */
  lemma ListSlot(h: Heap, v: View, i: nat, k: nat)
    requires Inv(h, v) && i < CLASSES
    ensures |h.heads| == CLASSES && |v.lists| == CLASSES && h.heads[i] == At(v.lists[i], 0)
    ensures k >= |v.lists[i]| || (
      var b := v.lists[i][k];
      && b in v.blocks && v.blocks <= h.mem.Keys && HEAP_START <= b
      && h.mem[b].next == At(v.lists[i], k + 1)
      && h.mem[b].free && h.mem[b].size < TWO_64 - HEADER)
  {
    assert Links(h.mem, h.heads[i], v.lists[i]);
    assert OfClass(h.mem, v.blocks, v.lists[i], i);
    hide SizeClass;
    if k < |v.lists[i]| {
      assert EndOf(h.mem, v.lists[i][k]) <= h.end;
    }
  }

  lemma SearchStarts(mem: Memory, v: View, req: nat)
    requires v.blocks <= mem.Keys && |v.lists| == CLASSES
    ensures Seen(mem, v, req, SizeClass(req), 0, 0, TWO_64 - 1)
  {
    hide SizeClass;
    forall x | Fits(mem, v.blocks, req, x)
      ensures SizeClass(mem[x].size) >= SizeClass(req)
    {
      SizeClassMonotone(req, mem[x].size);
    }
  }

  /** A better candidate covers what the old one covered, and the next block. */
  lemma CoveredNext(mem: Memory, blocks: set<nat>, req: nat, best: nat, best': nat, l: seq<nat>, b: nat)
    requires blocks <= mem.Keys && Covered(mem, blocks, req, best, l)
    requires best' == best || NoWorse(mem, best', best) || best == 0
    requires Fits(mem, blocks, req, b) ==> NoWorse(mem, best', b)
    ensures Covered(mem, blocks, req, best', l + [b])
  {
  }

  lemma CoveredBelowNext(mem: Memory, blocks: set<nat>, req: nat, best: nat, best': nat, i: nat)
    requires blocks <= mem.Keys && CoveredBelow(mem, blocks, req, best, i)
    requires best' == best || NoWorse(mem, best', best) || best == 0
    ensures CoveredBelow(mem, blocks, req, best', i)
  {
    hide SizeClass;
  }

  /** The update of the candidate at position `k`. */
  lemma SearchStep(mem: Memory, v: View, req: nat, i: nat, k: nat, best: nat, bestDiff: nat, best': nat, bestDiff': nat)
    requires Seen(mem, v, req, i, k, best, bestDiff) && i < CLASSES == |v.lists| && k < |v.lists[i]|
    requires v.lists[i][k] in v.blocks && v.lists[i][k] != 0 && v.lists[i][k] in mem
    requires var b := v.lists[i][k];
      if mem[b].free && mem[b].size >= req && mem[b].size - req < bestDiff
      then best' == b && bestDiff' == mem[b].size - req
      else best' == best && bestDiff' == bestDiff
    requires mem[v.lists[i][k]].size < TWO_64 - 1
    ensures Seen(mem, v, req, i, k + 1, best', bestDiff')
  {
    hide SizeClass, Covered, CoveredBelow;
    var (l, b) := (v.lists[i][..k], v.lists[i][k]);
    assert v.lists[i][..k + 1] == l + [b];
    CoveredNext(mem, v.blocks, req, best, best', l, b);
    CoveredBelowNext(mem, v.blocks, req, best, best', i);
  }

  lemma SearchNextClass(h: Heap, v: View, req: nat, i: nat, best: nat, bestDiff: nat)
    requires Inv(h, v) && i < CLASSES == |v.lists| && Seen(h.mem, v, req, i, |v.lists[i]|, best, bestDiff)
    ensures Seen(h.mem, v, req, i + 1, 0, best, bestDiff)
  {
    hide SizeClass, NoWorse, Inv;
    ListsComplete(h, v);
    assert v.lists[i][..|v.lists[i]|] == v.lists[i];
  }

  lemma ListsComplete(h: Heap, v: View)
    requires Inv(h, v)
    ensures v.blocks <= h.mem.Keys && |v.lists| == CLASSES
    ensures forall b :: b in v.blocks && h.mem[b].free ==> b in v.lists[SizeClass(h.mem[b].size)]
  {
    hide Links, SizeClass, Tiled;
    TiledFacts(h.mem, v.blocks, h.end, h.last);
  }

  lemma SearchEnds(mem: Memory, v: View, req: nat, best: nat, bestDiff: nat)
    requires Seen(mem, v, req, CLASSES, 0, best, bestDiff)
    ensures v.blocks <= mem.Keys && BestFit(mem, v.blocks, req, best)
  {
    assert forall x :: Fits(mem, v.blocks, req, x) ==> NoWorse(mem, best, x);
  }

  lemma BlocksInMemory(h: Heap, v: View)
    requires Inv(h, v)
    ensures v.blocks <= h.mem.Keys && |h.heads| == |v.lists| == CLASSES
    ensures forall b :: b in v.blocks ==> h.mem[b].size < TWO_64 - HEADER
  {
    hide SizeClass, Links;
    assert forall b :: b in v.blocks ==> EndOf(h.mem, b) <= h.end;
  }

  /** The early exit: no block can beat an exact fit. */
  lemma ExactFit(mem: Memory, v: View, req: nat, i: nat, k: nat, best: nat)
    requires Seen(mem, v, req, i, k, best, 0)
    ensures v.blocks <= mem.Keys && BestFit(mem, v.blocks, req, best)
  {
  }

  // ---------------------------------------------------------------- taking a block

  lemma BestIsBlock(h: Heap, v: View, req: nat, b: nat)
    requires Inv(h, v) && v.blocks <= h.mem.Keys && BestFit(h.mem, v.blocks, req, b) && b != 0
    ensures Shape(h, v) && WellFormed(h, v, {})
    ensures b in v.blocks && h.mem[b].free && req <= h.mem[b].size < TWO_64 - HEADER && HEAP_START <= b
  {
    hide Listed;
    assert EndOf(h.mem, b) <= h.end;
  }

  /**
   * `b` was free and is now allocated with `req` bytes, or with all its bytes when the rest
   * would be too small for a block; nothing else changed hands.
   */
  ghost predicate Carved(h: Heap, v: View, h': Heap, v': View, b: nat, req: nat) {
    && v.blocks <= h.mem.Keys && WellFormed(h', v', {})
    && v'.seams == v.seams && h'.end == h.end && h'.used == h.used
    && b in v.blocks && v.blocks <= v'.blocks && v'.blocks <= v.blocks + {b + HEADER + req}
    && h.mem[b].free && h.mem[b].size >= req
    && Places(h.mem, h'.mem, v'.blocks, v'.blocks - v.blocks)
    && (forall x :: x in v.blocks && x != b ==> h'.mem[x].size == h.mem[x].size && h'.mem[x].free == h.mem[x].free)
    && (forall x :: x in v'.blocks && x !in v.blocks ==> h'.mem[x].free && EndOf(h'.mem, x) == EndOf(h.mem, b))
    && !h'.mem[b].free
    && h'.mem[b].size == ServedSize(h.mem[b].size, req)
  }

  lemma CarvedIntro(h0: Heap, v0: View, h1: Heap, h2: Heap, h3: Heap, v3: View, b: nat, req: nat)
    requires v0.blocks <= h0.mem.Keys && b in v0.blocks && h0.mem[b].free && h0.mem[b].size >= req
    requires SameBlocks(h0.mem, h1.mem, v0.blocks) && OnlyWrites(h0.mem, h1.mem, v0.blocks)
    requires if h0.mem[b].size >= req + HEADER + MIN_SIZE
             then Parts(h1.mem, v0.blocks, h2.mem, v3.blocks, b, req)
             else h2 == h1 && v3.blocks == v0.blocks
    requires b in h2.mem && h3.mem == h2.mem[b := h2.mem[b].(free := false, next := 0, prev := 0)]
    requires WellFormed(h3, v3, {})
    requires v3.seams == v0.seams && h3.end == h0.end && h3.used == h0.used
    ensures Carved(h0, v0, h3, v3, b, req)
  {
    hide WellFormed, Hit;
    if h0.mem[b].size >= req + HEADER + MIN_SIZE {
      assert v3.blocks - v0.blocks == {b + HEADER + req};
    } else {
      assert v3.blocks - v0.blocks == {};
      PlacesNone(h1.mem, h1.mem, v3.blocks);
    }
    WritesThenPlaces(h0.mem, h1.mem, h2.mem, v3.blocks, v3.blocks - v0.blocks);
    PlacesThenWrites(h0.mem, h2.mem, h3.mem, v3.blocks, v3.blocks - v0.blocks);
  }

  lemma CarvedSeamed(h: Heap, v: View, h': Heap, v': View, b: nat, req: nat)
    requires Shape(h, v) && Carved(h, v, h', v', b, req)
    ensures Shape(h', v')
  {
    hide Listed, Tiled, Places;
    TiledFacts(h.mem, v.blocks, h.end, h.last);
    TiledFacts(h'.mem, v'.blocks, h'.end, h'.last);
    forall x | x in v'.blocks && h'.mem[x].free
      ensures RightOk(h'.mem, v'.blocks, v'.seams, x)
    {
      if x in v.blocks {
        assert RightOk(h.mem, v.blocks, v.seams, x);
        NextIsBlock(h, v, x);
      } else {
        assert RightOk(h.mem, v.blocks, v.seams, b);
      }
    }
  }

  lemma NextIsBlock(h: Heap, v: View, x: nat)
    requires Tiled(h.mem, v.blocks, h.end, h.last) && x in v.blocks
    ensures EndOf(h.mem, x) == h.end || EndOf(h.mem, x) in v.blocks
    ensures forall y :: y in v.blocks ==> y < EndOf(h.mem, y) <= h.end
  {
  }

  /** The heads of the free lists are headers; `b` is none of them, and the rest of a cut overlaps none. */
  ghost predicate HeadsApart(h: Heap, b: nat, req: nat) {
    |h.heads| == CLASSES &&
    forall c :: 0 <= c < CLASSES && h.heads[c] != 0 ==>
      h.heads[c] in h.mem && h.heads[c] != b && !Overlap(h.heads[c], b + HEADER + req)
  }

  /** The split followed by the insertion of the rest into its free list. */
  ghost function CutOff(h: Heap, b: nat, req: nat): Heap
    requires b in h.mem && h.mem[b].size >= req + HEADER
    requires EndOf(h.mem, b) < h.end ==> EndOf(h.mem, b) in h.mem
    requires HeadsApart(h, b, req)
  {
    Insert(Split(h, b, req), b + HEADER + req)
  }

  /** What a cut leaves alone, and what it makes of the two parts. */
  ghost predicate Parts(mem: Memory, blocks: set<nat>, mem': Memory, blocks': set<nat>, b: nat, req: nat) {
    var rem := b + HEADER + req;
    && b in blocks && blocks <= mem.Keys && rem !in blocks
    && blocks' == blocks + {rem} && blocks' <= mem'.Keys
    && (forall x :: x in blocks ==> mem'[x].free == mem[x].free)
    && (forall x :: x in blocks && x != b ==> mem'[x].size == mem[x].size)
    && mem'[b].size == req && mem'[rem].free && EndOf(mem', rem) == EndOf(mem, b)
    && Places(mem, mem', blocks', {rem})
  }

  lemma CutOffReady(h: Heap, v: View, b: nat, req: nat)
    requires WellFormed(h, v, {b}) && b in v.blocks && b in h.mem && h.mem[b].size >= req + HEADER
    ensures EndOf(h.mem, b) < h.end ==> EndOf(h.mem, b) in h.mem
    ensures HeadsApart(h, b, req)
  {
    NextIsBlock(h, v, b);
    HeadsNotLoose(h, v, {b});
    HeadsAreBlocks(h, v, {b});
    TiledFacts(h.mem, v.blocks, h.end, h.last);
    forall c | 0 <= c < CLASSES && h.heads[c] != 0
      ensures !Overlap(h.heads[c], b + HEADER + req)
    {
      RestApart(h.mem, v.blocks, h.end, h.last, b, req, h.heads[c]);
    }
    hide Tiled, Listed;
  }

  /** The rest of a cut overlaps the header of no block. */
  lemma RestApart(mem: Memory, blocks: set<nat>, end: nat, last: nat, b: nat, req: nat, x: nat)
    requires Tiled(mem, blocks, end, last) && b in blocks && x in blocks && b in mem && mem[b].size >= req + HEADER
    ensures !Overlap(x, b + HEADER + req)
  {
    assert EndOf(mem, x) <= end && EndOf(mem, b) <= end;
  }

  lemma HeadsAreBlocks(h: Heap, v: View, loose: set<nat>)
    requires WellFormed(h, v, loose)
    ensures |h.heads| == CLASSES
    ensures forall c :: 0 <= c < CLASSES && h.heads[c] != 0 ==> h.heads[c] in v.blocks && h.heads[c] in h.mem
  {
    hide Tiled, SizeClass;
    TiledFacts(h.mem, v.blocks, h.end, h.last);
    forall c | 0 <= c < CLASSES && h.heads[c] != 0
      ensures h.heads[c] in v.blocks
    {
      assert OfClass(h.mem, v.blocks, v.lists[c], c);
      HeadInList(h.mem, h.heads[c], v.lists[c]);
    }
  }

  lemma CutOffOk(h: Heap, v: View, b: nat, req: nat) returns (v': View)
    requires WellFormed(h, v, {b}) && b in v.blocks && b in h.mem
    requires h.mem[b].size >= req + HEADER && req % 8 == 0
    requires EndOf(h.mem, b) < h.end ==> EndOf(h.mem, b) in h.mem
    requires HeadsApart(h, b, req)
    ensures v'.seams == v.seams && WellFormed(CutOff(h, b, req), v', {b})
    ensures b in v'.blocks && b in CutOff(h, b, req).mem
    ensures CutOff(h, b, req).end == h.end && CutOff(h, b, req).used == h.used
    ensures Parts(h.mem, v.blocks, CutOff(h, b, req).mem, v'.blocks, b, req)
  {
    hide WellFormed, Split, Insert, Parts, SameBlocks, OnlyWrites, Places, HeadsApart;
    SplitParts(h, v, b, req);
    SplitKeepsHeads(h, b, req);
    var rem := b + HEADER + req;
    var v2 := SplitOk(h, v, {b}, b, req);
    var h2 := Split(h, b, req);
    assert {b} + {rem} == {b, rem};
    v' := InsertOk(h2, v2, {b, rem}, rem);
    assert {b, rem} - {rem} == {b};
    PartsSame(h.mem, v.blocks, h2.mem, v'.blocks, Insert(h2, rem).mem, b, req);
    InsertKeeps(h2, rem);
    PartsKeep(h.mem, v.blocks, Insert(h2, rem).mem, v'.blocks, b, req);
  }

  lemma InsertKeeps(h: Heap, b: nat)
    requires b in h.mem && |h.heads| == CLASSES
    requires forall c :: 0 <= c < CLASSES && h.heads[c] != 0 ==> h.heads[c] in h.mem
    ensures Insert(h, b).end == h.end && Insert(h, b).used == h.used && Insert(h, b).last == h.last
  {
  }

  lemma PartsKeep(mem: Memory, blocks: set<nat>, mem': Memory, blocks': set<nat>, b: nat, req: nat)
    requires Parts(mem, blocks, mem', blocks', b, req)
    ensures b in blocks' && b in mem'
  {
  }

  lemma SplitParts(h: Heap, v: View, b: nat, req: nat)
    requires WellFormed(h, v, {b}) && b in v.blocks && b in h.mem
    requires h.mem[b].size >= req + HEADER
    ensures EndOf(h.mem, b) < h.end ==> EndOf(h.mem, b) in h.mem
    ensures b + HEADER + req in Split(h, b, req).mem && Split(h, b, req).mem[b + HEADER + req].free
    ensures Parts(h.mem, v.blocks, Split(h, b, req).mem, v.blocks + {b + HEADER + req}, b, req)
  {
    hide Split, Tiled, Places, Listed;
    SplitEffect(h, v.blocks, b, req);
    SplitWrites(h, v, b, req);
    TiledFacts(h.mem, v.blocks, h.end, h.last);
  }

  lemma PartsSame(mem: Memory, blocks: set<nat>, mem': Memory, blocks': set<nat>, mem'': Memory, b: nat, req: nat)
    requires Parts(mem, blocks, mem', blocks', b, req)
    requires SameBlocks(mem', mem'', blocks') && OnlyWrites(mem', mem'', blocks')
    ensures Parts(mem, blocks, mem'', blocks', b, req)
  {
    hide Hit;
    PlacesThenWrites(mem, mem', mem'', blocks', {b + HEADER + req});
  }

  lemma HeadsNotLoose(h: Heap, v: View, loose: set<nat>)
    requires WellFormed(h, v, loose)
    ensures forall c :: 0 <= c < CLASSES && h.heads[c] != 0 ==> h.heads[c] !in loose
  {
    hide Tiled, SizeClass;
    forall c | 0 <= c < CLASSES && h.heads[c] != 0
      ensures h.heads[c] !in loose
    {
      HeadInList(h.mem, h.heads[c], v.lists[c]);
    }
  }

  lemma SplitWrites(h: Heap, v: View, b: nat, req: nat)
    requires Tiled(h.mem, v.blocks, h.end, h.last) && b in v.blocks && b in h.mem
    requires h.mem[b].size >= req + HEADER
    ensures EndOf(h.mem, b) < h.end ==> EndOf(h.mem, b) in h.mem
    ensures Places(h.mem, Split(h, b, req).mem, v.blocks + {b + HEADER + req}, {b + HEADER + req})
  {
    hide Tiled, Places, Split;
    NextIsBlock(h, v, b);
    BlocksHeld(h.mem, v.blocks, h.end, h.last);
    SplitOnly(h, v.blocks, b, req);
  }

  lemma BlocksHeld(mem: Memory, blocks: set<nat>, end: nat, last: nat)
    requires Tiled(mem, blocks, end, last)
    ensures blocks <= mem.Keys
  {
  }

  lemma SplitOnly(h: Heap, blocks: set<nat>, b: nat, req: nat)
    requires b in blocks && b in h.mem && h.mem[b].size >= req + HEADER
    requires EndOf(h.mem, b) < h.end ==> EndOf(h.mem, b) in blocks && EndOf(h.mem, b) in h.mem
    ensures Places(h.mem, Split(h, b, req).mem, blocks + {b + HEADER + req}, {b + HEADER + req})
  {
    HitOne(b + HEADER + req);
    hide Hit;
  }

  lemma HitOne(n: nat)
    ensures forall a: nat :: Overlap(a, n) <==> Hit(a, {n})
  {
    assert n in {n};
  }

  lemma HalfMultiple(n: nat)
    requires n % 16 == 0
    ensures n % 8 == 0
  {
    var q := n / 16;
    assert n == 16 * q;
    ModIs(n, 2 * q, 8, 0);
  }

  lemma SplitFields(h: Heap, b: nat, req: nat)
    requires b in h.mem && h.mem[b].size >= req + HEADER && HeadsApart(h, b, req)
    requires EndOf(h.mem, b) < h.end ==> EndOf(h.mem, b) in h.mem
    ensures var h' := Split(h, b, req);
      && h'.heads == h.heads && b in h'.mem && b + HEADER + req in h'.mem
      && h'.mem[b + HEADER + req].size == h.mem[b].size - HEADER - req
      && (forall c :: 0 <= c < CLASSES && h'.heads[c] != 0 ==> h'.heads[c] in h'.mem && h'.heads[c] != b)
  {
  }

  /** A new size written before or after a push. */
  lemma SizeThenPush(mem: Memory, head: nat, r: nat, b: nat, size: nat)
    requires b in mem && r in mem && b != r && (head != 0 ==> head in mem && b != head)
    ensures PushMem(mem[b := mem[b].(size := size)], head, r)
         == var m := PushMem(mem, head, r); m[b := m[b].(size := size)]
  {
  }

  /** The last step of `km_find_best`: the loose block becomes an allocated one. */
  lemma TakeOk(h: Heap, v: View, b: nat)
    requires WellFormed(h, v, {b}) && b in v.blocks && b in h.mem
    ensures WellFormed(h.(mem := h.mem[b := h.mem[b].(free := false, next := 0, prev := 0)]), v, {})
    ensures OnlyWrites(h.mem, h.mem[b := h.mem[b].(free := false, next := 0, prev := 0)], v.blocks)
  {
    var mem' := h.mem[b := h.mem[b].(free := false, next := 0, prev := 0)];
    ListedReblock(h.mem, mem', v.blocks, v.blocks, h.heads, v.lists, {b}, {});
    TiledResize(h.mem, mem', v.blocks, h.end, h.last);
  }

  lemma TiledResize(mem: Memory, mem': Memory, blocks: set<nat>, end: nat, last: nat)
    requires Tiled(mem, blocks, end, last) && blocks <= mem'.Keys
    requires forall x :: x in blocks ==> mem'[x].size == mem[x].size && mem'[x].physPrev == mem[x].physPrev
    ensures Tiled(mem', blocks, end, last)
  {
    assert forall x :: x in blocks ==> EndOf(mem', x) == EndOf(mem, x);
    forall x | x in blocks
      ensures PrevOk(mem', blocks, x)
    {
      assert PrevOk(mem, blocks, x);
    }
  }

  // ---------------------------------------------------------------- growing

  /** The heap has grown by one free block of `bytes` bytes, header included; its old end is a seam. */
  ghost predicate Extended(h: Heap, v: View, h': Heap, v': View, bytes: nat) {
    && v.blocks <= h.mem.Keys && v'.blocks <= h'.mem.Keys && h.end !in v.blocks
    && v'.blocks == v.blocks + {h.end} && v'.seams == v.seams + {h.end}
    && h'.end == h.end + bytes && h'.used == h.used && bytes >= HEADER
    && h'.mem[h.end].free && h'.mem[h.end].size == bytes - HEADER
    && (forall x :: x in v.blocks ==> h'.mem[x].size == h.mem[x].size && h'.mem[x].free == h.mem[x].free)
    && Places(h.mem, h'.mem, v'.blocks, {h.end})
  }

  lemma ExtendOk(h: Heap, v: View, pages: nat) returns (v': View)
    requires Inv(h, v) && pages > 0 && h.end + pages * 4096 < TWO_64
    ensures |h.heads| == CLASSES
    ensures var h1 := Append(h, pages * 4096 - HEADER);
      && h.end in h1.mem
      && (forall c :: 0 <= c < CLASSES && h1.heads[c] != 0 ==> h1.heads[c] in h1.mem)
      && Inv(Insert(h1, h.end), v') && Extended(h, v, Insert(h1, h.end), v', pages * 4096)
  {
    hide Tiled, Listed, Insert, Footprint, Seamed, OnlyWrites, Places, Append;
    var size := pages * 4096 - HEADER;
    var h1 := Append(h, size);
    AppendEffect(h, v, size);
    var v1 := AppendOk(h, v, size);
    assert {h.end} - {h.end} == {};
    var v2 := InsertOk(h1, v1, {h.end}, h.end);
    var h2 := Insert(h1, h.end);
    v' := v2.(seams := v.seams + {h.end});
    InsertKeeps(h1, h.end);
    TiledFacts(h.mem, v.blocks, h.end, h.last);
    PlacesThenWrites(h.mem, h1.mem, h2.mem, v.blocks + {h.end}, {h.end});
    assert Extended(h, v, h2, v', pages * 4096);
    ExtendedInv(h, v, h2, v', pages * 4096);
  }

  /** What appending a block changes. */
  lemma AppendEffect(h: Heap, v: View, size: nat)
    requires Tiled(h.mem, v.blocks, h.end, h.last)
    ensures v.blocks <= h.mem.Keys && h.end !in v.blocks
    ensures var h' := Append(h, size);
      && v.blocks <= h'.mem.Keys && h.end in h'.mem && h'.mem[h.end] == Header(size, true, 0, 0, h.last)
      && (forall x :: x in v.blocks ==> h'.mem[x] == h.mem[x])
      && Places(h.mem, h'.mem, v.blocks + {h.end}, {h.end})
      && h'.heads == h.heads && h'.used == h.used && h'.end == h.end + HEADER + size && h'.last == h.end
  {
    AppendPlaced(h, v.blocks, size);
    hide Ordered, LastOk;
    HitOne(h.end);
    hide Hit;
  }

  lemma ExtendedInv(h: Heap, v: View, h': Heap, v': View, bytes: nat)
    requires Inv(h, v) && Extended(h, v, h', v', bytes) && WellFormed(h', v', {})
    ensures Inv(h', v')
  {
    hide Tiled, Listed, Places;
    assert Allocated(h'.mem, v'.blocks) == Allocated(h.mem, v.blocks);
    FootprintFrame(h.mem, h'.mem, Allocated(h.mem, v.blocks));
    forall x | x in v'.blocks && h'.mem[x].free
      ensures RightOk(h'.mem, v'.blocks, v'.seams, x)
    {
      if x in v.blocks {
        assert RightOk(h.mem, v.blocks, v.seams, x);
      } else {
        NextIsBlock(h', v', x);
      }
    }
  }

  // ---------------------------------------------------------------- what kmalloc promises

  /** Rounding up to 16 is exact up to 2^64 - 16; above that the sum wraps and the request becomes 0. */
  lemma RoundUpFacts(size: nat)
    requires size < TWO_64
    ensures RoundUp16(size) % 16 == 0 && RoundUp16(size) + 15 < TWO_64
    ensures if size <= TWO_64 - 16 then size <= RoundUp16(size) < size + 16 else RoundUp16(size) == 0
  {
    if size > TWO_64 - 16 {
      assert Wrap(size + 15) == size + 15 - TWO_64;
    }
  }

  ghost predicate HasRoom(mem: Memory, blocks: set<nat>, req: nat)
    requires blocks <= mem.Keys
  {
    exists x :: Fits(mem, blocks, req, x)
  }

  lemma BestFitRoom(mem: Memory, blocks: set<nat>, req: nat, b: nat)
    requires blocks <= mem.Keys && BestFit(mem, blocks, req, b)
    ensures b != 0 <==> HasRoom(mem, blocks, req)
  {
    assert b != 0 ==> Fits(mem, blocks, req, b);
  }

  /** The sums in `km_expand` do not wrap. */
  predicate GrowthFits(req: nat) {
    req + HEADER + 4095 < TWO_64
  }

  /** The size of the block that serves a request: the request, unless the rest is too small for a block. */
  function ServedSize(whole: nat, req: nat): nat {
    if whole >= req + HEADER + MIN_SIZE then req else whole
  }

  /**
   * The outcome of a non-zero request on an initialised heap.  It fails exactly when no free
   * block is large enough and the heap cannot grow for it.  Otherwise the result is a new
   * payload that overlaps no live one and comes from a smallest block that fits, or from the
   * start of the new pages; every other live payload is as before.
   */
  ghost predicate AllocResult(h: Heap, v: View, h': Heap, v': View, req: nat, backed: bool, ptr: nat) {
    && v.blocks <= h.mem.Keys && v'.blocks <= h'.mem.Keys && v.blocks <= v'.blocks
    && Places(h.mem, h'.mem, v'.blocks, v'.blocks - v.blocks)
    && var grows := backed && PagesFor(req) > 0;
       var room := HasRoom(h.mem, v.blocks, req);
       && (ptr == 0 <==> !room && !(grows && GrowthFits(req)))
       && h'.end == (if room || !grows then h.end else h.end + PagesFor(req) * 4096)
       && v'.seams == (if room || !grows then v.seams else v.seams + {h.end})
       && if ptr == 0 then Payloads(h'.mem, v'.blocks) == Payloads(h.mem, v.blocks)
          else
            var b := ptr - HEADER;
            && b in v'.blocks && b !in Payloads(h.mem, v.blocks)
            && Payloads(h'.mem, v'.blocks) == Payloads(h.mem, v.blocks)[b := h'.mem[b].size]
            && req <= h'.mem[b].size < req + HEADER + MIN_SIZE
            && if room then BestFit(h.mem, v.blocks, req, b) && h'.mem[b].size == ServedSize(h.mem[b].size, req)
               else b == h.end && h'.mem[b].size == ServedSize(PagesFor(req) * 4096 - HEADER, req)
  }

  /**
   * What a request does to the pages: nothing when a free block fits, otherwise the heap asks
   * for as many pages as it needs.
   */
  ghost predicate Served(h: Heap, v: View, s: (Paging, seq<nat>), s': (Paging, seq<nat>), req: nat, grown: bool, base: nat)
    requires v.blocks <= h.mem.Keys
  {
    if HasRoom(h.mem, v.blocks, req) then !grown && s' == s
    else
      && Backing(s.0, s'.0, h.end, PagesFor(req), grown, base)
      && s'.1 == FramesAfter(s.1, PagesFor(req), grown, base)
  }

  /** The heap grows by the least number of pages that hold the request and its header. */
  lemma PagesForFacts(req: nat)
    requires req < TWO_64 && GrowthFits(req)
    ensures PagesFor(req) * 4096 >= req + HEADER > (PagesFor(req) - 1) * 4096
  {
  }

  /**
   * When a block is cut: exactly when what is left behind the request holds a header of 40
   * bytes and a payload of at least 16.
   */
  lemma CutExact(whole: nat, req: nat)
    requires req <= whole
    ensures whole - req >= 40 + 16 ==> ServedSize(whole, req) == req
    ensures whole - req < 40 + 16 ==> ServedSize(whole, req) == whole
  {
  }

  /** After growth for a request that nothing fitted, exactly the new block may fit. */
  lemma GrownRoom(h: Heap, v: View, h': Heap, v': View, req: nat, x: nat)
    requires Inv(h', v') && Extended(h, v, h', v', PagesFor(req) * 4096) && req < TWO_64
    requires HEAP_START <= h.end
    requires v.blocks <= h.mem.Keys && !HasRoom(h.mem, v.blocks, req)
    ensures Fits(h'.mem, v'.blocks, req, x) <==> x == h.end && GrowthFits(req)
  {
    hide Tiled, Listed, Seamed, Footprint, Places, PagesFor, Wrap;
    assert !Fits(h.mem, v.blocks, req, x);
    EndBounded(h', v');
    if GrowthFits(req) {
      PagesForFacts(req);
    }
  }

  lemma EndBounded(h: Heap, v: View)
    requires Inv(h, v)
    ensures HEAP_START <= h.end < TWO_64
  {
    hide Listed, Ordered;
  }

  /** The heap from which the block was carved: the old one, or the old one grown. */
  ghost predicate Source(h0: Heap, v0: View, h1: Heap, v1: View, req: nat, backed: bool) {
    && v0.blocks <= h0.mem.Keys
    && if HasRoom(h0.mem, v0.blocks, req) || !backed || PagesFor(req) == 0
       then h1 == h0 && v1 == v0
       else Extended(h0, v0, h1, v1, PagesFor(req) * 4096)
  }

  lemma NoRoom(h0: Heap, v0: View, h1: Heap, v1: View, req: nat, backed: bool)
    requires Inv(h0, v0) && Inv(h1, v1) && req < TWO_64
    requires Source(h0, v0, h1, v1, req, backed)
    requires v0.blocks <= h0.mem.Keys && BestFit(h0.mem, v0.blocks, req, 0)
    requires v1.blocks <= h1.mem.Keys && BestFit(h1.mem, v1.blocks, req, 0)
    ensures AllocResult(h0, v0, h1, v1, req, backed, 0)
  {
    hide Inv, PagesFor, Places, GrowthFits;
    EndBounded(h0, v0);
    if backed && PagesFor(req) > 0 {
      GrownRoom(h0, v0, h1, v1, req, h0.end);
      ExtendedPayloads(h0, v0, h1, v1, PagesFor(req) * 4096);
      assert v1.blocks - v0.blocks == {h0.end};
    } else {
      assert v1.blocks - v0.blocks == {};
      PlacesNone(h0.mem, h0.mem, v0.blocks);
    }
    hide Fits;
    assert !HasRoom(h0.mem, v0.blocks, req);
  }

  lemma ExtendedPayloads(h: Heap, v: View, h': Heap, v': View, bytes: nat)
    requires Extended(h, v, h', v', bytes)
    ensures v.blocks <= h.mem.Keys && v'.blocks <= h'.mem.Keys
    ensures Payloads(h'.mem, v'.blocks) == Payloads(h.mem, v.blocks)
  {
  }

  lemma CarvedUsed(h: Heap, v: View, h': Heap, v': View, b: nat, req: nat)
    requires Inv(h, v) && Shape(h', v') && Carved(h, v, h', v', b, req)
    ensures b in h'.mem && v'.blocks <= h'.mem.Keys && v.blocks <= h.mem.Keys
    ensures b in v'.blocks && v.blocks <= v'.blocks
    ensures v'.seams == v.seams && h'.end == h.end && h'.used == h.used
    ensures b in v.blocks && h'.mem[b].size == ServedSize(h.mem[b].size, req)
    ensures req <= h'.mem[b].size < req + HEADER + MIN_SIZE && Places(h.mem, h'.mem, v'.blocks, v'.blocks - v.blocks)
    ensures Inv(h'.(used := h'.used + h'.mem[b].size + HEADER), v')
    ensures b !in Payloads(h.mem, v.blocks)
    ensures Payloads(h'.mem, v'.blocks) == Payloads(h.mem, v.blocks)[b := h'.mem[b].size]
  {
    hide Ordered, Listed, Places, Seamed;
    var a, a' := Allocated(h.mem, v.blocks), Allocated(h'.mem, v'.blocks);
    assert a' == a + {b} && a' - {b} == a;
    FootprintRemove(h'.mem, a', b);
    FootprintFrame(h.mem, h'.mem, a);
  }

  lemma AllocDone(h0: Heap, v0: View, h1: Heap, v1: View, h': Heap, v': View, b: nat, req: nat, backed: bool)
    requires Inv(h0, v0) && Inv(h1, v1) && Source(h0, v0, h1, v1, req, backed) && req < TWO_64
    requires v1.blocks <= h1.mem.Keys && BestFit(h1.mem, v1.blocks, req, b) && b != 0
    requires v'.blocks <= h'.mem.Keys && b in v'.blocks && v1.blocks <= v'.blocks
    requires Inv(h', v') && Places(h1.mem, h'.mem, v'.blocks, v'.blocks - v1.blocks)
    requires h'.end == h1.end && v'.seams == v1.seams
    requires b !in Payloads(h1.mem, v1.blocks) && req <= h'.mem[b].size < req + HEADER + MIN_SIZE
    requires b in v1.blocks && h'.mem[b].size == ServedSize(h1.mem[b].size, req)
    requires Payloads(h'.mem, v'.blocks) == Payloads(h1.mem, v1.blocks)[b := h'.mem[b].size]
    ensures AllocResult(h0, v0, h', v', req, backed, b + HEADER)
  {
    hide Inv, PagesFor, Places, GrowthFits, Payloads;
    assert Fits(h1.mem, v1.blocks, req, b);
    if !HasRoom(h0.mem, v0.blocks, req) && backed && PagesFor(req) > 0 {
      EndBounded(h0, v0);
      GrownRoom(h0, v0, h1, v1, req, b);
      ExtendedPayloads(h0, v0, h1, v1, PagesFor(req) * 4096);
      NewApart(h', v', h0.end, v'.blocks - v1.blocks);
      assert v1.blocks == v0.blocks + {h0.end};
      PlacesTwice(h0.mem, h1.mem, h'.mem, v1.blocks, v'.blocks, {h0.end}, v'.blocks - v1.blocks);
      assert {h0.end} + (v'.blocks - v1.blocks) == v'.blocks - v0.blocks;
    }
  }

  /** The headers of blocks do not overlap. */
  lemma NewApart(h: Heap, v: View, a: nat, s: set<nat>)
    requires Inv(h, v) && a in v.blocks && s <= v.blocks && a !in s
    ensures !Hit(a, s)
  {
    hide Listed, Seamed, Footprint;
    assert EndOf(h.mem, a) <= h.end;
    assert forall x :: x in s ==> EndOf(h.mem, x) <= h.end && x != a;
  }

  lemma OnlyWritesGrow(mem: Memory, mem': Memory, s: set<nat>, t: set<nat>)
    requires OnlyWrites(mem, mem', s) && s <= t
    ensures OnlyWrites(mem, mem', t)
  {
  }

  // ---------------------------------------------------------------- what kfree promises

  /** The old header of a block that was merged into another still says that it is free. */
  ghost predicate Swallowed(mem: Memory, blocks: set<nat>, blocks': set<nat>) {
    forall x :: x in blocks && x !in blocks' ==> x in mem && mem[x].free
  }

  /**
   * `ptr` is NULL or follows an intact header, that of a block or an old one that says it is
   * free.  For the pointers that `kmalloc` returned, `HeapRuns.RunDoubleFree` says when that is.
   */
  ghost predicate Freeable(h: Heap, v: View, ptr: nat) {
    ptr != 0 ==>
      && ptr >= HEADER && ptr - HEADER in h.mem
      && (ptr - HEADER in v.blocks || h.mem[ptr - HEADER].free)
  }

  /**
   * The outcome of `kfree`.  Freeing NULL, or a block that is already free, changes nothing,
   * even when that block has been merged into another, as long as its old header is intact.
   * Otherwise exactly the payload of `ptr` stops being live, every other live payload keeps
   * its place and size, and a free block now covers the freed one.
   */
  ghost predicate FreeResult(h: Heap, v: View, h': Heap, v': View, ptr: nat) {
    && v.blocks <= h.mem.Keys && v'.blocks <= h'.mem.Keys
    && Freeable(h, v, ptr)
    && if ptr == 0 || h.mem[ptr - HEADER].free then h' == h && v' == v
       else
         var b := ptr - HEADER;
         && v'.blocks <= v.blocks && v'.seams == v.seams && h'.end == h.end
         && OnlyWrites(h.mem, h'.mem, v.blocks) && Swallowed(h'.mem, v.blocks, v'.blocks)
         && Payloads(h'.mem, v'.blocks) == Payloads(h.mem, v.blocks) - {b}
         && exists t :: t in v'.blocks && h'.mem[t].free && t <= b && EndOf(h.mem, b) <= EndOf(h'.mem, t)
  }

  lemma NothingFreed(h: Heap, v: View, ptr: nat)
    requires Inv(h, v) && v.blocks <= h.mem.Keys && Freeable(h, v, ptr)
    requires ptr != 0 ==> h.mem[ptr - HEADER].free
    ensures FreeResult(h, v, h, v, ptr)
  {
    hide Inv;
  }

  /** Every free block but `b` and the one before it has no free right neighbour, or a seam there. */
  ghost predicate SeamedBut(mem: Memory, blocks: set<nat>, seams: set<nat>, b: nat)
    requires blocks <= mem.Keys
  {
    forall x {:trigger RightOk(mem, blocks, seams, x)} ::
      x in blocks && mem[x].free && x != b && EndOf(mem, x) != b ==> RightOk(mem, blocks, seams, x)
  }

  /** Between marking `b` free and listing it: the loose free block `t` has grown out of `b`. */
  ghost predicate Freeing(h: Heap, v: View, h': Heap, v': View, t: nat, b: nat) {
    && v.blocks <= h.mem.Keys && v'.blocks <= h'.mem.Keys && v'.blocks <= v.blocks
    && b in v.blocks && !h.mem[b].free && t in v'.blocks && h'.mem[t].free
    && t <= b && EndOf(h.mem, b) <= EndOf(h'.mem, t) && (b in v'.blocks ==> t == b)
    && (forall x :: x in v'.blocks && x != t ==> h'.mem[x].size == h.mem[x].size && h'.mem[x].free == h.mem[x].free)
    && (forall x :: x in v.blocks && !h.mem[x].free && x != b ==> x in v'.blocks && x != t)
    && OnlyWrites(h.mem, h'.mem, v.blocks) && Swallowed(h'.mem, v.blocks, v'.blocks)
    && v'.seams == v.seams && h'.end == h.end && h'.used == h.used - h.mem[b].size - HEADER
    && SeamedBut(h'.mem, v'.blocks, v'.seams, t)
  }

  lemma MarkOk(h: Heap, v: View, b: nat)
    requires Inv(h, v) && b in v.blocks && b in h.mem && !h.mem[b].free
    ensures var h' := h.(mem := h.mem[b := h.mem[b].(free := true)], used := h.used - (h.mem[b].size + HEADER));
      WellFormed(h', v, {b}) && Freeing(h, v, h', v, b, b)
  {
    hide Footprint, Tiled, Listed, Allocated;
    var h' := h.(mem := h.mem[b := h.mem[b].(free := true)], used := h.used - (h.mem[b].size + HEADER));
    TiledFacts(h.mem, v.blocks, h.end, h.last);
    TiledResize(h.mem, h'.mem, v.blocks, h.end, h.last);
    AllocatedUnlisted(h, v, b);
    ListedReblock(h.mem, h'.mem, v.blocks, v.blocks, h.heads, v.lists, {b}, {b});
    forall x | x in v.blocks && h'.mem[x].free && x != b && EndOf(h'.mem, x) != b
      ensures RightOk(h'.mem, v.blocks, v.seams, x)
    {
      assert RightOk(h.mem, v.blocks, v.seams, x);
    }
  }

  lemma AllocatedUnlisted(h: Heap, v: View, b: nat)
    requires WellFormed(h, v, {}) && b in v.blocks && b in h.mem && !h.mem[b].free
    ensures v.blocks <= h.mem.Keys && Listed(h.mem, v.blocks, h.heads, v.lists, {b})
  {
    hide Tiled, Links, SizeClass;
    TiledFacts(h.mem, v.blocks, h.end, h.last);
    forall c | 0 <= c < CLASSES
      ensures b !in v.lists[c]
    {
      assert OfClass(h.mem, v.blocks, v.lists[c], c);
    }
  }

  lemma LooseBlock(h: Heap, v: View, b: nat)
    requires WellFormed(h, v, {b}) && b in v.blocks
    ensures v.blocks <= h.mem.Keys && |h.heads| == CLASSES && h.mem[b].size + 15 < TWO_64 && b >= HEAP_START
    ensures forall c :: 0 <= c < CLASSES && h.heads[c] != 0 ==> h.heads[c] in h.mem
    ensures EndOf(h.mem, b) == b + HEADER + h.mem[b].size <= h.end
    ensures EndOf(h.mem, b) < h.end ==> EndOf(h.mem, b) in v.blocks
    ensures h.mem[b].physPrev != 0 ==> h.mem[b].physPrev in v.blocks && EndOf(h.mem, h.mem[b].physPrev) == b
  {
    hide SizeClass, Links;
    HeadsInMemory(h, v, {b});
    NextIsBlock(h, v, b);
    assert PrevOk(h.mem, v.blocks, b);
  }

  lemma UnlinkKeepsSizes(h: Heap, b: nat)
    requires b in h.mem && |h.heads| == CLASSES
    requires h.mem[b].prev != 0 ==> h.mem[b].prev in h.mem
    requires h.mem[b].next != 0 ==> h.mem[b].next in h.mem
    ensures Unlink(h, b).mem.Keys == h.mem.Keys && Unlink(h, b).end == h.end && Unlink(h, b).used == h.used
    ensures forall x :: x in h.mem ==> Unlink(h, b).mem[x].size == h.mem[x].size
  {
  }

  /** `left` has swallowed `right`; nothing else has changed size or owner. */
  ghost predicate Joined(h: Heap, v: View, h': Heap, v': View, left: nat, right: nat) {
    && v.blocks <= h.mem.Keys && v'.blocks <= h'.mem.Keys
    && left in v.blocks && right in v.blocks && left < right && EndOf(h.mem, left) == right
    && v'.blocks == v.blocks - {right} && v'.seams == v.seams
    && (forall x :: x in v'.blocks ==> h'.mem[x].free == h.mem[x].free)
    && (forall x :: x in v'.blocks && x != left ==> h'.mem[x].size == h.mem[x].size)
    && EndOf(h'.mem, left) == EndOf(h.mem, right)
    && OnlyWrites(h.mem, h'.mem, v.blocks) && right in h'.mem && h'.mem[right].free == h.mem[right].free
    && h'.end == h.end && h'.used == h.used
  }

  lemma CoalesceReady(h: Heap, v: View, b: nat, left: nat, right: nat, listed: nat)
    requires WellFormed(h, v, {b}) && left in v.blocks && right in v.blocks && left in h.mem
    requires right == EndOf(h.mem, left) && {left, right} == {b, listed} && listed != b
    requires listed in h.mem && h.mem[listed].free
    ensures right in h.mem && left != right && |h.heads| == CLASSES && h.mem[listed].size + 15 < TWO_64
    ensures h.mem[listed].prev != 0 ==> h.mem[listed].prev in h.mem
    ensures h.mem[listed].next != 0 ==> h.mem[listed].next in h.mem
    ensures EndOf(h.mem, right) < h.end ==> EndOf(h.mem, right) in h.mem
  {
    hide Listed, WellFormed, Ordered;
    WellFormedTiled(h, v, {b});
    NextIsBlock(h, v, right);
    EndsAfter(h.mem, left);
    assert listed in v.blocks by {
      assert listed in {left, right};
    }
    NextIsBlock(h, v, listed);
    var _ := UnlinkOk(h, v, {b}, listed);
  }

  lemma WellFormedTiled(h: Heap, v: View, loose: set<nat>)
    requires WellFormed(h, v, loose)
    ensures Tiled(h.mem, v.blocks, h.end, h.last) && v.blocks <= h.mem.Keys && |h.heads| == CLASSES
  {
  }

  lemma CoalesceOk(h: Heap, v: View, b: nat, left: nat, right: nat, listed: nat) returns (v': View)
    requires WellFormed(h, v, {b}) && left in v.blocks && right in v.blocks && left in h.mem
    requires right == EndOf(h.mem, left) && {left, right} == {b, listed} && listed != b
    requires listed in h.mem && h.mem[listed].free && |h.heads| == CLASSES
    requires h.mem[listed].prev != 0 ==> h.mem[listed].prev in h.mem
    requires h.mem[listed].next != 0 ==> h.mem[listed].next in h.mem
    ensures MergeReady(Unlink(h, listed), left) && left in v'.blocks
    ensures WellFormed(Merge(Unlink(h, listed), left), v', {left})
    ensures Joined(h, v, Merge(Unlink(h, listed), left), v', left, right)
  {
    hide WellFormed, UnlinkMem, UnlinkHead, SizeClass, Merge, MergeReady, OnlyWrites;
    WellFormedTiled(h, v, {b});
    assert listed in {left, right};
    var v1 := UnlinkOk(h, v, {b}, listed);
    UnlinkKeepsSizes(h, listed);
    var h1 := Unlink(h, listed);
    assert {b} + {listed} == {left, right};
    v' := MergeOk(h1, v1, {b} + {listed}, left);
    assert {left, right} - {right} == {left};
    JoinedBy(h, v, h1, v1, v', b, listed, left);
  }

  lemma JoinedBy(h: Heap, v: View, h1: Heap, v1: View, v': View, b: nat, listed: nat, left: nat)
    requires WellFormed(h1, v1, {b} + {listed}) && v1.blocks == v.blocks && v1.seams == v.seams
    requires SameBlocks(h.mem, h1.mem, v.blocks) && OnlyWrites(h.mem, h1.mem, v.blocks)
    requires left in v.blocks && left in h.mem && EndOf(h.mem, left) in v.blocks
    requires v' == v1.(blocks := v1.blocks - {EndOf(h.mem, left)}) && h1.end == h.end && h1.used == h.used
    ensures MergeReady(h1, left) && Joined(h, v, Merge(h1, left), v', left, EndOf(h.mem, left))
  {
    hide WellFormed, Merge, Ordered, Listed;
    var right := EndOf(h.mem, left);
    assert EndOf(h1.mem, left) == right && EndOf(h1.mem, right) == EndOf(h.mem, right);
    WellFormedTiled(h1, v1, {b} + {listed});
    MergeEffect(h1, v.blocks, left);
    MergeKeepsHeads(h1, left);
    MergeWrites(h1, v.blocks, left);
    OnlyWritesTrans(h.mem, h1.mem, Merge(h1, left).mem, v.blocks);
  }

  lemma MergeWrites(h: Heap, blocks: set<nat>, b: nat)
    requires Tiled(h.mem, blocks, h.end, h.last) && b in blocks && b in h.mem && EndOf(h.mem, b) in blocks
    ensures MergeReady(h, b) && OnlyWrites(h.mem, Merge(h, b).mem, blocks)
  {
    hide Listed, Merge;
    MergeEffect(h, blocks, b);
    MergeWritesAt(h, blocks, b);
  }

  lemma MergeWritesAt(h: Heap, blocks: set<nat>, b: nat)
    requires MergeReady(h, b) && b in blocks && EndOf(h.mem, b) in blocks
    requires EndOf(h.mem, EndOf(h.mem, b)) < h.end ==> EndOf(h.mem, EndOf(h.mem, b)) in blocks
    ensures OnlyWrites(h.mem, Merge(h, b).mem, blocks)
  {
  }

  /** A block swallowed earlier keeps its old header when blocks that are left are written. */
  lemma SwallowedKept(mem: Memory, mem': Memory, blocks: set<nat>, blocks1: set<nat>)
    requires Swallowed(mem, blocks, blocks1) && OnlyWrites(mem, mem', blocks1)
    ensures Swallowed(mem', blocks, blocks1)
  {
  }

  lemma SwallowedMore(mem: Memory, blocks: set<nat>, blocks1: set<nat>, x: nat)
    requires Swallowed(mem, blocks, blocks1) && x in mem && mem[x].free
    ensures Swallowed(mem, blocks, blocks1 - {x})
  {
  }

  lemma FreeingRight(h0: Heap, v0: View, h1: Heap, v1: View, h2: Heap, v2: View, b: nat)
    requires Freeing(h0, v0, h1, v1, b, b) && b in v1.blocks && b in h1.mem && WellFormed(h1, v1, {b})
    requires EndOf(h1.mem, b) in h1.mem && h1.mem[EndOf(h1.mem, b)].free
    requires Joined(h1, v1, h2, v2, b, EndOf(h1.mem, b))
    ensures Freeing(h0, v0, h2, v2, b, b) && RightOk(h2.mem, v2.blocks, v2.seams, b)
  {
    hide WellFormed, Ordered, OnlyWrites, Swallowed;
    var n := EndOf(h1.mem, b);
    SwallowedKept(h1.mem, h2.mem, v0.blocks, v1.blocks);
    SwallowedMore(h2.mem, v0.blocks, v1.blocks, n);
    WellFormedTiled(h1, v1, {b});
    NextIsBlock(h1, v1, n);
    assert RightOk(h1.mem, v1.blocks, v1.seams, n);
    OnlyWritesGrow(h1.mem, h2.mem, v1.blocks, v0.blocks);
    OnlyWritesTrans(h0.mem, h1.mem, h2.mem, v0.blocks);
    forall x | x in v2.blocks && h2.mem[x].free && x != b && EndOf(h2.mem, x) != b
      ensures RightOk(h2.mem, v2.blocks, v2.seams, x)
    {
      assert RightOk(h1.mem, v1.blocks, v1.seams, x);
    }
  }

  lemma FreeingLeft(h0: Heap, v0: View, h1: Heap, v1: View, h2: Heap, v2: View, p: nat, b: nat)
    requires Freeing(h0, v0, h1, v1, b, b) && WellFormed(h1, v1, {b})
    requires v1.blocks <= h1.mem.Keys && b in v1.blocks && RightOk(h1.mem, v1.blocks, v1.seams, b)
    requires p in h1.mem && h1.mem[p].free && Joined(h1, v1, h2, v2, p, b)
    ensures Freeing(h0, v0, h2, v2, p, b) && v2.blocks <= h2.mem.Keys && Seamed(h2.mem, v2.blocks, v2.seams)
  {
    hide WellFormed, Ordered, OnlyWrites, Swallowed;
    SwallowedKept(h1.mem, h2.mem, v0.blocks, v1.blocks);
    SwallowedMore(h2.mem, v0.blocks, v1.blocks, b);
    WellFormedTiled(h1, v1, {b});
    NextIsBlock(h1, v1, b);
    OnlyWritesGrow(h1.mem, h2.mem, v1.blocks, v0.blocks);
    OnlyWritesTrans(h0.mem, h1.mem, h2.mem, v0.blocks);
    forall x | x in v2.blocks && h2.mem[x].free
      ensures RightOk(h2.mem, v2.blocks, v2.seams, x)
    {
      if x != p {
        SameEndHere(h1, v1, p, x);
        assert RightOk(h1.mem, v1.blocks, v1.seams, x);
      }
    }
  }

  lemma SameEndHere(h: Heap, v: View, b: nat, x: nat)
    requires Tiled(h.mem, v.blocks, h.end, h.last) && b in v.blocks && x in v.blocks
    ensures EndOf(h.mem, x) == EndOf(h.mem, b) ==> x == b
  {
    hide Ordered;
    SameEnd(h.mem, v.blocks, h.end, b, x);
  }

  lemma NoRightNeighbour(h: Heap, v: View, b: nat)
    requires WellFormed(h, v, {b}) && b in v.blocks && b in h.mem
    requires EndOf(h.mem, b) >= h.end || (EndOf(h.mem, b) in h.mem && !h.mem[EndOf(h.mem, b)].free)
    ensures v.blocks <= h.mem.Keys && RightOk(h.mem, v.blocks, v.seams, b)
  {
    hide WellFormed, Ordered;
    WellFormedTiled(h, v, {b});
    NextIsBlock(h, v, b);
  }

  lemma NoLeftNeighbour(h0: Heap, v0: View, h: Heap, v: View, b: nat)
    requires Freeing(h0, v0, h, v, b, b) && WellFormed(h, v, {b})
    requires v.blocks <= h.mem.Keys && b in v.blocks && RightOk(h.mem, v.blocks, v.seams, b)
    requires var p := h.mem[b].physPrev; p == 0 || (p in h.mem && !h.mem[p].free)
    ensures Seamed(h.mem, v.blocks, v.seams)
  {
    hide WellFormed, Ordered, OnlyWrites;
    WellFormedTiled(h, v, {b});
    assert PrevOk(h.mem, v.blocks, b);
    forall x | x in v.blocks && h.mem[x].free
      ensures RightOk(h.mem, v.blocks, v.seams, x)
    {
      LeftNeighbour(h, v, b, x);
    }
  }

  /** The only block that can end where `b` starts is its `phys_prev`. */
  lemma LeftNeighbour(h: Heap, v: View, b: nat, x: nat)
    requires Tiled(h.mem, v.blocks, h.end, h.last) && b in v.blocks && x in v.blocks
    ensures EndOf(h.mem, x) == b ==> h.mem[b].physPrev == x != 0
  {
    hide Ordered;
    TiledFacts(h.mem, v.blocks, h.end, h.last);
    assert PrevOk(h.mem, v.blocks, b);
    if b != HEAP_START {
      SameEndHere(h, v, h.mem[b].physPrev, x);
    }
  }

  lemma FreedOk(h0: Heap, v0: View, h: Heap, v: View, t: nat, b: nat) returns (v': View)
    requires Inv(h0, v0) && Freeing(h0, v0, h, v, t, b) && WellFormed(h, v, {t})
    requires v.blocks <= h.mem.Keys && Seamed(h.mem, v.blocks, v.seams)
    requires t in h.mem && |h.heads| == CLASSES
    requires forall c :: 0 <= c < CLASSES && h.heads[c] != 0 ==> h.heads[c] in h.mem
    ensures v'.seams == v0.seams && Insert(h, t).end == h0.end
    ensures Inv(Insert(h, t), v') && FreeResult(h0, v0, Insert(h, t), v', b + HEADER)
  {
    hide WellFormed, Insert, OnlyWrites, Footprint, SeamedBut, Swallowed;
    v' := InsertOk(h, v, {t}, t);
    assert {t} - {t} == {};
    InsertKeeps(h, t);
    var h' := Insert(h, t);
    assert SameBlocks(h.mem, h'.mem, v.blocks);
    SeamedSame(h.mem, h'.mem, v.blocks, v.seams);
    var a, a' := Allocated(h0.mem, v0.blocks), Allocated(h'.mem, v'.blocks);
    assert a' == a - {b};
    FootprintRemove(h0.mem, a, b);
    FootprintFrame(h0.mem, h'.mem, a');
    SwallowedKept(h.mem, h'.mem, v0.blocks, v.blocks);
    OnlyWritesGrow(h.mem, h'.mem, v.blocks, v0.blocks);
    OnlyWritesTrans(h0.mem, h.mem, h'.mem, v0.blocks);
    assert EndOf(h'.mem, t) == EndOf(h.mem, t);
    assert Payloads(h'.mem, v'.blocks) == Payloads(h0.mem, v0.blocks) - {b};
  }

  lemma SeamedSame(mem: Memory, mem': Memory, blocks: set<nat>, seams: set<nat>)
    requires SameBlocks(mem, mem', blocks) && Seamed(mem, blocks, seams)
    ensures Seamed(mem', blocks, seams)
  {
    forall x | x in blocks && mem'[x].free
      ensures RightOk(mem', blocks, seams, x)
    {
      assert RightOk(mem, blocks, seams, x);
    }
  }
}
