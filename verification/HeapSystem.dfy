/** The heap together with the pages behind it, over whole runs that other users of memory take part in. */
module HeapSystem {
  import opened Common
  import opened PageEntries
  import opened PageTrees
  import opened PageTables
  import opened FrameBitmap
  import opened HeapBacking
  import opened HeapPages
  import opened HeapBlocks
  import opened KernelHeap
  import HeapRuns

  datatype State = State(heap: Heap, view: View, paging: Paging, frames: seq<nat>)

  /**
   * Calls of `kmalloc` and `kfree`, writes of live payloads, and what the rest of the kernel does with the frame
   * allocator and the page tables: frames taken, frames given back, an address mapped or unmapped.
   */
  datatype Event =
    | Alloc(size: nat)
    | Free(ptr: nat)
    | Write(lo: nat, hi: nat)
    | Take(first: nat, count: nat)
    | Give(first: nat, count: nat)
    | Remap(va: nat, m: Mapping)

  /** What a call of `kmalloc` returned, and how the heap grew for it. */
  datatype Outcome = Outcome(ptr: nat, grown: bool, base: nat)

  /** An address that no heap page can have. */
  ghost predicate Elsewhere(p: Paging, va: nat) {
    forall i: nat :: i < p.total ==> !HeapPageAt(va, i)
  }

  predicate HeapPageAt(va: nat, i: nat) {
    Vpn(va) == Vpn(HEAP_START + i * 4096)
  }

  ghost predicate WellFormedState(s: State) {
    Inv(s.heap, s.view) && Sound(s.paging)
  }

  /** One event, with the outcome of `kmalloc`. */
  ghost predicate Step(s: State, e: Event, s': State, r: Outcome) {
    && WellFormedState(s) && WellFormedState(s')
    && match e
       case Alloc(size) =>
         && HeapRuns.Step(s.heap, s.view, HeapRuns.Alloc(size, r.grown), s'.heap, s'.view, r.ptr)
         && (if size == 0 || !(s.view.blocks <= s.heap.mem.Keys)
             then s'.paging == s.paging && s'.frames == s.frames && !r.grown
             else Served(s.heap, s.view, (s.paging, s.frames), (s'.paging, s'.frames), RoundUp16(size), r.grown, r.base))
       case Free(ptr) =>
         && HeapRuns.Step(s.heap, s.view, HeapRuns.Free(ptr), s'.heap, s'.view, r.ptr)
         && s'.paging == s.paging && s'.frames == s.frames
       case Write(lo, hi) =>
         && HeapRuns.Step(s.heap, s.view, HeapRuns.Write(lo, hi), s'.heap, s'.view, r.ptr)
         && s'.paging == s.paging && s'.frames == s.frames
       case Take(first, count) =>
         s' == s.(paging := s.paging.(free := s.paging.free - Range(first, first + count)))
       case Give(first, count) =>
         && Range(first, first + count) !! Elements(s.frames)
         && s' == s.(paging := s.paging.(free := s.paging.free + Range(first, first + count)))
       case Remap(va, m) =>
         && Elsewhere(s.paging, va)
         && s' == s.(paging := s'.paging)
         && Remapped(s.paging, s'.paging, va, m)
  }

  /** What `vmm_map` or `vmm_unmap` does: the page of `va` changes, and tables may be added. */
  ghost predicate Remapped(p: Paging, p': Paging, va: nat, m: Mapping) {
    && p'.root == p.root && p'.total == p.total
    && (PageChanged(p.mem, p'.mem, p.root, va, m) || Unchanged(p.mem, p'.mem, p.root))
    && TablesOnly(p.mem, p.level, p.free, p'.mem, p'.level, p'.free)
  }

  /** Every page of [HEAP_START, heap_end) is backed by a frame of its own. */
  ghost predicate AllBacked(s: State) {
    Owned(s.paging, s.frames) && s.heap.end == EndWith(s.frames)
  }

  // ---------------------------------------------------------------- one event

  lemma RemapKeepsOwned(p: Paging, p': Paging, frames: seq<nat>, va: nat, m: Mapping)
    requires Owned(p, frames) && Elsewhere(p, va) && Remapped(p, p', va, m)
    ensures Owned(p', frames)
  {
    hide Translate, HeapEntry, Vpn;
    forall i | 0 <= i < p.total
      ensures HeapPage(p', i) == HeapPage(p, i)
    {
      assert !HeapPageAt(va, i);
    }
  }

  lemma FreeKeepsOwned(p: Paging, free: set<nat>, frames: seq<nat>)
    requires Owned(p, frames) && free !! Elements(frames)
    ensures Owned(p.(free := free), frames)
  {
    hide Translate, HeapEntry;
    forall i | 0 <= i < p.total
      ensures HeapPage(p.(free := free), i) == HeapPage(p, i)
    {
    }
    forall i | 0 <= i < |frames|
      ensures frames[i] !in free
    {
      assert frames[i] in Elements(frames);
    }
  }

  /** What is free is none of the heap's. */
  lemma FreeApart(p: Paging, frames: seq<nat>)
    requires Owned(p, frames)
    ensures p.free !! Elements(frames)
  {
    hide HeapPage, HeapEntry;
  }

  /** The end of the heap moves with its pages. */
  lemma AllocEnd(s: State, size: nat, s': State, r: Outcome)
    requires Step(s, Alloc(size), s', r)
    ensures s'.heap.end == s.heap.end + if r.grown then PagesFor(RoundUp16(size)) * 4096 else 0
    ensures r.grown ==> size > 0 && s.view.blocks <= s.heap.mem.Keys && PagesFor(RoundUp16(size)) > 0
    ensures s'.frames == FramesAfter(s.frames, PagesFor(RoundUp16(size)), r.grown, r.base)
  {
    hide Inv, Sound, OnlyWrites, Places, BestFit, Payloads, PagesFor, RoundUp16, GrowthFits, Backed, Unchanged, NoFrames;
    hide HasRoom;
  }

  /** Whatever happens, every heap page keeps a frame of its own, and pages once backed stay as they are. */
  lemma StepBacked(s: State, e: Event, s': State, r: Outcome)
    requires Step(s, e, s', r) && AllBacked(s)
    ensures AllBacked(s') && s.frames <= s'.frames
  {
    hide Inv, Sound, Owned, FreeResult, AllocResult, PagesFor, RoundUp16, Backing, HasRoom, Remapped, Elsewhere;
    var (p, p') := (s.paging, s'.paging);
    match e
    case Alloc(size) =>
      AllocEnd(s, size, s', r);
      AllocBacked(s, size, s', r);
    case Free(ptr) =>
      FreeEnd(s, ptr, s', r);
    case Write(lo, hi) =>
      WriteEnd(s, lo, hi, s', r);
    case Take(first, count) =>
      FreeApart(p, s.frames);
      FreeKeepsOwned(p, p'.free, s.frames);
    case Give(first, count) =>
      FreeApart(p, s.frames);
      FreeKeepsOwned(p, p'.free, s.frames);
    case Remap(va, m) =>
      RemapKeepsOwned(p, p', s.frames, va, m);
  }

  lemma FreeEnd(s: State, ptr: nat, s': State, r: Outcome)
    requires Step(s, Free(ptr), s', r)
    ensures s'.heap.end == s.heap.end
  {
    hide Inv, Sound, OnlyWrites, Places, Payloads;
  }

  lemma WriteEnd(s: State, lo: nat, hi: nat, s': State, r: Outcome)
    requires Step(s, Write(lo, hi), s', r)
    ensures s'.heap.end == s.heap.end
  {
    hide Inv, Sound;
  }

  lemma AllocBacked(s: State, size: nat, s': State, r: Outcome)
    requires Step(s, Alloc(size), s', r) && AllBacked(s)
    ensures Owned(s'.paging, s'.frames)
  {
    hide Inv, Owned, AllocResult, PagesFor, RoundUp16, Backing, HasRoom, FramesAfter, EndWith;
    if size > 0 && s.view.blocks <= s.heap.mem.Keys && !HasRoom(s.heap.mem, s.view.blocks, RoundUp16(size)) {
      OwnedGrows(s.paging, s'.paging, s.frames, PagesFor(RoundUp16(size)), r.grown, r.base);
    }
  }

  /**
   * When `kmalloc` must succeed: the rounded request does not wrap, a long run of frames is
   * free, and enough frames are left for tables.
   */
  lemma AllocSucceeds(s: State, size: nat, s': State, r: Outcome, first: nat)
    requires Step(s, Alloc(size), s', r) && 0 < size <= TWO_64 - 16
    requires GrowthFits(RoundUp16(size)) && PagesFor(RoundUp16(size)) > 0
    requires HasRun(s.paging.free, first, SureRun(PagesFor(RoundUp16(size)), 1))
    requires |s.paging.free| > 4 * PagesFor(RoundUp16(size))
    ensures r.ptr != 0
  {
    hide Inv, Sound, OnlyWrites, Places, BestFit, Payloads, PagesFor, RoundUp16, GrowthFits, Backing, HasRun, SureRun, HasRoom;
    if !HasRoom(s.heap.mem, s.view.blocks, RoundUp16(size)) {
      GrowthSucceeds(s.paging, s'.paging, s.heap.end, PagesFor(RoundUp16(size)), r.grown, r.base, first);
    }
  }

  // ---------------------------------------------------------------- runs

  ghost predicate Run(states: seq<State>, events: seq<Event>, outcomes: seq<Outcome>) {
    && |states| == |events| + 1 && |outcomes| == |events|
    && forall i :: 0 <= i < |events| ==> Step(states[i], events[i], states[i + 1], outcomes[i])
  }

  /**
   * Over every run, at every state, each page of [HEAP_START, heap_end) maps to a frame of its
   * own that is marked used and is no table; and a page once backed keeps its frame.
   */
  lemma {:induction false} RunBacked(states: seq<State>, events: seq<Event>, outcomes: seq<Outcome>, k: nat)
    requires Run(states, events, outcomes) && AllBacked(states[0]) && k <= |events|
    ensures AllBacked(states[k]) && states[0].frames <= states[k].frames
    decreases k
  {
    hide Step, AllBacked;
    if k > 0 {
      RunBacked(states, events, outcomes, k - 1);
      assert Step(states[k - 1], events[k - 1], states[k], outcomes[k - 1]);
      StepBacked(states[k - 1], events[k - 1], states[k], outcomes[k - 1]);
    }
  }

  /** Over every run, no two bytes of live payloads share a byte of physical memory. */
  lemma RunPayloadBytes(states: seq<State>, events: seq<Event>, outcomes: seq<Outcome>, k: nat,
                        b: nat, va: nat, c: nat, vb: nat)
    requires Run(states, events, outcomes) && AllBacked(states[0]) && 0 < k <= |events|
    requires var live := HeapRuns.Live((states[k].heap, states[k].view));
      && b in live && b + HEADER <= va < b + HEADER + live[b]
      && c in live && c + HEADER <= vb < c + HEADER + live[c]
    ensures var p := states[k].paging;
      var (x, y) := (PhysAddr(Translate(p.mem, p.root, va), va), PhysAddr(Translate(p.mem, p.root, vb), vb));
      && x.Some? && y.Some? && (x == y ==> va == vb)
      && x.value / 4096 !in p.level && x.value / 4096 !in p.free
  {
    hide Inv, Sound, Owned, Translate, EndWith, FreeResult, AllocResult, Served;
    RunBacked(states, events, outcomes, k);
    assert Step(states[k - 1], events[k - 1], states[k], outcomes[k - 1]);
    var s := states[k];
    HeapRuns.PayloadsApart(s.heap, s.view, b, b);
    HeapRuns.PayloadsApart(s.heap, s.view, c, c);
    HeapBytesApart(s.paging, s.frames, va, vb);
  }
}
