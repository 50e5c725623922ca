/** What the heap invariant means, and what every run of allocations and frees keeps. */
module HeapRuns {
  import opened Common
  import opened HeapBlocks
  import opened KernelHeap

  // ---------------------------------------------------------------- the tiling

  /** The headers met by stepping from `a` by header and size until `end`. */
  ghost function Walk(mem: Memory, a: nat, end: nat): seq<nat>
    decreases end - a
  {
    if a >= end || a !in mem then [] else [a] + Walk(mem, EndOf(mem, a), end)
  }

  /** The address at which that walk stops. */
  ghost function WalkEnd(mem: Memory, a: nat, end: nat): nat
    decreases end - a
  {
    if a >= end || a !in mem then a else WalkEnd(mem, EndOf(mem, a), end)
  }

  /** The walk from a block meets exactly the blocks from there on and stops exactly at the end of the heap. */
  lemma {:induction false} WalkFrom(h: Heap, v: View, a: nat)
    requires Inv(h, v) && (a == h.end || a in v.blocks)
    ensures WalkEnd(h.mem, a, h.end) == h.end
    ensures forall b :: b in Walk(h.mem, a, h.end) <==> b in v.blocks && a <= b
    decreases h.end - a
  {
    hide Inv;
    BlockFacts(h, v);
    if a in v.blocks {
      WalkFrom(h, v, EndOf(h.mem, a));
      forall b | b in v.blocks && a <= b
        ensures b == a || EndOf(h.mem, a) <= b
      {
        BlocksApart(h, v, a, b);
      }
    }
  }

  lemma BlockFacts(h: Heap, v: View)
    requires Inv(h, v)
    ensures v.blocks <= h.mem.Keys && (h.end > HEAP_START ==> HEAP_START in v.blocks)
    ensures h.end >= HEAP_START && h.end !in v.blocks
    ensures forall b :: b in v.blocks ==> HEAP_START <= b < EndOf(h.mem, b) <= h.end
    ensures forall b :: b in v.blocks ==> EndOf(h.mem, b) == h.end || EndOf(h.mem, b) in v.blocks
  {
    hide Listed, Seamed, Footprint;
    assert forall b :: b in v.blocks ==> EndOf(h.mem, b) <= h.end;
  }

  lemma BlocksApart(h: Heap, v: View, b: nat, c: nat)
    requires Inv(h, v) && b in v.blocks && c in v.blocks && v.blocks <= h.mem.Keys
    ensures b < c ==> EndOf(h.mem, b) <= c
  {
    hide Listed, Seamed, Footprint;
    assert EndOf(h.mem, b) <= h.end;
  }

  /** Stepping over the whole heap tiles it exactly, each left link is the true left neighbour. */
  lemma HeapIsTiled(h: Heap, v: View)
    requires Inv(h, v)
    ensures WalkEnd(h.mem, HEAP_START, h.end) == h.end
    ensures forall b :: b in Walk(h.mem, HEAP_START, h.end) <==> b in v.blocks
    ensures forall b, c :: b in v.blocks && c in v.blocks ==>
      b in h.mem && c in h.mem && (h.mem[c].physPrev == b <==> EndOf(h.mem, b) == c)
    ensures h.last == 0 <==> v.blocks == {}
    ensures h.last != 0 ==> h.last in v.blocks && h.last in h.mem && EndOf(h.mem, h.last) == h.end
  {
    hide Inv;
    BlockFacts(h, v);
    WalkFrom(h, v, HEAP_START);
    LastIsLast(h, v);
    forall b, c | b in v.blocks && c in v.blocks
      ensures h.mem[c].physPrev == b <==> EndOf(h.mem, b) == c
    {
      LeftLink(h, v, b, c);
    }
  }

  lemma LastIsLast(h: Heap, v: View)
    requires Inv(h, v)
    ensures h.last == 0 <==> h.end == HEAP_START
    ensures h.last != 0 ==> h.last in v.blocks && h.last in h.mem && EndOf(h.mem, h.last) == h.end
  {
    hide Listed, Seamed, Footprint;
  }

  lemma LeftLink(h: Heap, v: View, b: nat, c: nat)
    requires Inv(h, v) && b in v.blocks && c in v.blocks && v.blocks <= h.mem.Keys
    ensures h.mem[c].physPrev == b <==> EndOf(h.mem, b) == c
  {
    hide Listed, Seamed, Footprint, Ordered;
    LeftNeighbour(h, v, c, b);
    assert PrevOk(h.mem, v.blocks, c);
    TiledFacts(h.mem, v.blocks, h.end, h.last);
  }

  // ---------------------------------------------------------------- live payloads

  /** The bytes [lo, hi) and [lo', hi') have none in common. */
  predicate Apart(lo: nat, hi: nat, lo': nat, hi': nat) {
    hi <= lo' || hi' <= lo
  }

  /** A live payload overlaps neither another one nor any header. */
  lemma PayloadsApart(h: Heap, v: View, b: nat, c: nat)
    requires Inv(h, v) && v.blocks <= h.mem.Keys
    requires b in Payloads(h.mem, v.blocks) && c in v.blocks
    ensures HEAP_START <= b && EndOf(h.mem, b) <= h.end
    ensures Apart(b + HEADER, EndOf(h.mem, b), c, c + HEADER)
    ensures b != c ==> Apart(b + HEADER, EndOf(h.mem, b), c + HEADER, EndOf(h.mem, c))
  {
    hide Inv;
    BlockFacts(h, v);
    BlocksApart(h, v, b, c);
    BlocksApart(h, v, c, b);
  }

  /** Whatever a thread writes outside the headers, the heap stays well formed. */
  lemma PayloadWritesKeepInv(h: Heap, v: View, mem': Memory)
    requires Inv(h, v) && v.blocks <= h.mem.Keys && v.blocks <= mem'.Keys
    requires forall b :: b in v.blocks ==> mem'[b] == h.mem[b]
    ensures Inv(h.(mem := mem'), v)
    ensures Payloads(mem', v.blocks) == Payloads(h.mem, v.blocks)
  {
    hide Tiled, Listed;
    assert SameBlocks(h.mem, mem', v.blocks);
    TiledFrame(h.mem, mem', v.blocks, h.end, h.last);
    ListedReblock(h.mem, mem', v.blocks, v.blocks, h.heads, v.lists, {}, {});
    SeamedSame(h.mem, mem', v.blocks, v.seams);
    assert Allocated(mem', v.blocks) == Allocated(h.mem, v.blocks);
    FootprintFrame(h.mem, mem', Allocated(h.mem, v.blocks));
  }

  /** Bytes [lo, hi) of one live payload, as its owner may write them. */
  ghost predicate InPayload(h: Heap, v: View, lo: nat, hi: nat) {
    lo < hi && exists b :: b in Live((h, v)) && b + HEADER <= lo && hi <= b + HEADER + Live((h, v))[b]
  }

  /** The headers that are left when the bytes [lo, hi) have been overwritten. */
  function Scribbled(mem: Memory, lo: nat, hi: nat): Memory {
    map x | x in mem && Apart(x, x + HEADER, lo, hi) :: mem[x]
  }

  /** The owner of a payload overwrites old headers at most. */
  lemma WriteKeepsInv(h: Heap, v: View, lo: nat, hi: nat)
    requires Inv(h, v) && InPayload(h, v, lo, hi)
    ensures Inv(h.(mem := Scribbled(h.mem, lo, hi)), v)
    ensures Live((h.(mem := Scribbled(h.mem, lo, hi)), v)) == Live((h, v))
  {
    hide Inv, Payloads;
    BlockFacts(h, v);
    forall c | c in v.blocks
      ensures c in Scribbled(h.mem, lo, hi) && Scribbled(h.mem, lo, hi)[c] == h.mem[c]
    {
      WriteSpares(h, v, lo, hi, c);
    }
    PayloadWritesKeepInv(h, v, Scribbled(h.mem, lo, hi));
  }

  lemma WriteSpares(h: Heap, v: View, lo: nat, hi: nat, c: nat)
    requires Inv(h, v) && InPayload(h, v, lo, hi) && c in v.blocks && v.blocks <= h.mem.Keys
    ensures Apart(c, c + HEADER, lo, hi)
  {
    hide Inv;
    var b :| b in Live((h, v)) && b + HEADER <= lo && hi <= b + HEADER + Live((h, v))[b];
    PayloadsApart(h, v, b, c);
  }

  lemma UsedHasPayload(mem: Memory, blocks: set<nat>, x: nat)
    requires blocks <= mem.Keys && x in blocks
    ensures !mem[x].free ==> x in Payloads(mem, blocks)
  {
  }

  /** With nothing allocated, free blocks end only at seams or at the end of the heap. */
  lemma EmptyHeapIsCoalesced(h: Heap, v: View, b: nat)
    requires Inv(h, v) && v.blocks <= h.mem.Keys && Payloads(h.mem, v.blocks) == map[] && b in v.blocks
    ensures EndOf(h.mem, b) == h.end || EndOf(h.mem, b) in v.seams
  {
    hide Tiled, Listed, Footprint;
    NextIsBlock(h, v, b);
    forall x | x in v.blocks ensures h.mem[x].free {
      UsedHasPayload(h.mem, v.blocks, x);
    }
    assert RightOk(h.mem, v.blocks, v.seams, b);
  }

  // ---------------------------------------------------------------- undoing an allocation

  ghost function PayloadSum(p: map<nat, nat>): int {
    if p == map[] then 0
    else
      var b :| b in p;
      p[b] + HEADER + PayloadSum(p - {b})
  }

  ghost function SizesOf(mem: Memory, s: set<nat>): map<nat, nat>
    requires s <= mem.Keys
  {
    map b | b in s :: mem[b].size
  }

  lemma {:induction false} FootprintIsPayloadSum(mem: Memory, s: set<nat>)
    requires s <= mem.Keys
    ensures Footprint(mem, s) == PayloadSum(SizesOf(mem, s))
  {
    var p := SizesOf(mem, s);
    if s == {} {
      assert p == map[];
    } else {
      assert p != map[] by {
        var x :| x in s;
        assert x in p;
      }
      var b :| b in p && PayloadSum(p) == p[b] + HEADER + PayloadSum(p - {b});
      FootprintRemove(mem, s, b);
      FootprintIsPayloadSum(mem, s - {b});
      assert p - {b} == SizesOf(mem, s - {b});
    }
  }

  /** `heap_used` is a function of the live payloads alone. */
  lemma UsedIsPayloadSum(h: Heap, v: View)
    requires Inv(h, v) && v.blocks <= h.mem.Keys
    ensures h.used == PayloadSum(Payloads(h.mem, v.blocks))
  {
    hide Tiled, Listed, Seamed;
    FootprintIsPayloadSum(h.mem, Allocated(h.mem, v.blocks));
    assert Payloads(h.mem, v.blocks) == SizesOf(h.mem, Allocated(h.mem, v.blocks));
  }

  /** Freeing what was just allocated restores the live payloads and `heap_used`. */
  lemma FreeUndoesAlloc(h: Heap, v: View, h1: Heap, v1: View, h2: Heap, v2: View, req: nat, backed: bool, ptr: nat)
    requires Inv(h, v) && Inv(h1, v1) && Inv(h2, v2) && ptr != 0
    requires AllocResult(h, v, h1, v1, req, backed, ptr) && FreeResult(h1, v1, h2, v2, ptr)
    ensures v.blocks <= h.mem.Keys && v2.blocks <= h2.mem.Keys
    ensures Payloads(h2.mem, v2.blocks) == Payloads(h.mem, v.blocks) && h2.used == h.used
  {
    hide Inv, OnlyWrites, Places, BestFit, HasRoom, PagesFor, GrowthFits;
    var b := ptr - HEADER;
    assert b in Payloads(h1.mem, v1.blocks);
    UsedIsPayloadSum(h, v);
    UsedIsPayloadSum(h2, v2);
  }

  // ---------------------------------------------------------------- runs

  /** A call of `kmalloc` or `kfree`, or a write of the bytes [lo, hi) by the owner of a payload. */
  datatype Call = Alloc(size: nat, backed: bool) | Free(ptr: nat) | Write(lo: nat, hi: nat)

  /** One such event on an initialised heap, with the result of `kmalloc`. */
  ghost predicate Step(h: Heap, v: View, call: Call, h': Heap, v': View, ptr: nat) {
    && Inv(h, v) && Inv(h', v')
    && match call
       case Alloc(size, backed) =>
         && size < TWO_64
         && if size == 0 then h' == h && v' == v && ptr == 0
            else AllocResult(h, v, h', v', RoundUp16(size), backed, ptr)
       case Free(p) => FreeResult(h, v, h', v', p) && ptr == 0
       case Write(lo, hi) =>
         InPayload(h, v, lo, hi) && v' == v && h' == h.(mem := Scribbled(h.mem, lo, hi)) && ptr == 0
  }

  /** A run: states, the call that leads from each to the next, and the results. */
  ghost predicate Run(states: seq<(Heap, View)>, calls: seq<Call>, results: seq<nat>) {
    && |states| == |calls| + 1 && |results| == |calls|
    && forall i :: 0 <= i < |calls| ==>
      Step(states[i].0, states[i].1, calls[i], states[i + 1].0, states[i + 1].1, results[i])
  }

  /** The live payloads of a state. */
  ghost function Live(s: (Heap, View)): map<nat, nat> {
    if s.1.blocks <= s.0.mem.Keys then Payloads(s.0.mem, s.1.blocks) else map[]
  }

  /** One call changes the live payloads at one address only, and never touches a live payload's size. */
  lemma StepLive(h: Heap, v: View, call: Call, h': Heap, v': View, ptr: nat, b: nat)
    requires Step(h, v, call, h', v', ptr)
    ensures b in Live((h, v)) && call != Free(b + HEADER) ==>
      b in Live((h', v')) && Live((h', v'))[b] == Live((h, v))[b]
    ensures b !in Live((h, v)) && ptr != b + HEADER ==> b !in Live((h', v'))
    ensures ptr != 0 && ptr == b + HEADER ==> b !in Live((h, v)) && b in Live((h', v'))
  {
    hide Inv, OnlyWrites, Places, BestFit, HasRoom, PagesFor, GrowthFits;
    if call.Write? {
      WriteKeepsInv(h, v, call.lo, call.hi);
    }
  }

  /** Over a whole run, a block that is live and not freed keeps its place and its size. */
  lemma {:induction false} RunKeepsPayload(states: seq<(Heap, View)>, calls: seq<Call>, results: seq<nat>, b: nat)
    requires Run(states, calls, results) && b in Live(states[0])
    requires forall i :: 0 <= i < |calls| ==> calls[i] != Free(b + HEADER)
    ensures b in Live(states[|calls|]) && Live(states[|calls|])[b] == Live(states[0])[b]
    decreases |calls|
  {
    hide Step, Live;
    if |calls| > 0 {
      assert Step(states[0].0, states[0].1, calls[0], states[1].0, states[1].1, results[0]);
      StepLive(states[0].0, states[0].1, calls[0], states[1].0, states[1].1, results[0], b);
      assert Run(states[1..], calls[1..], results[1..]);
      RunKeepsPayload(states[1..], calls[1..], results[1..], b);
    }
  }

  /**
   * No run hands out overlapping memory: a payload returned by some call and not freed since
   * is disjoint from every payload that is live at the end, and holds at least the request.
   */
  lemma RunPayloadsApart(states: seq<(Heap, View)>, calls: seq<Call>, results: seq<nat>, i: nat, c: nat)
    requires Run(states, calls, results) && i < |calls| && calls[i].Alloc? && results[i] != 0
    requires forall j :: i < j < |calls| ==> calls[j] != Free(results[i])
    ensures results[i] >= HEADER
    ensures var (b, live) := (results[i] - HEADER, Live(states[|calls|]));
      && b in live
      && (calls[i].size <= TWO_64 - 16 ==> calls[i].size <= live[b])
      && (c in live && c != b ==> Apart(b + HEADER, b + HEADER + live[b], c + HEADER, c + HEADER + live[c]))
  {
    hide Inv, Payloads, AllocResult, RoundUp16;
    var (h, v, h', v') := (states[i].0, states[i].1, states[i + 1].0, states[i + 1].1);
    assert Step(h, v, calls[i], h', v', results[i]);
    AllocatedSize(h, v, h', v', RoundUp16(calls[i].size), calls[i].backed, results[i]);
    RoundUpFacts(calls[i].size);
    var b := results[i] - HEADER;
    RunSuffix(states, calls, results, i + 1);
    RunKeepsPayload(states[i + 1..], calls[i + 1..], results[i + 1..], b);
    if c in Live(states[|calls|]) && c != b {
      LiveApart(states, calls, results, b, c);
    }
  }

  lemma AllocatedSize(h: Heap, v: View, h': Heap, v': View, req: nat, backed: bool, ptr: nat)
    requires AllocResult(h, v, h', v', req, backed, ptr) && ptr != 0 && Inv(h', v') && Inv(h, v)
    ensures ptr >= HEADER && ptr - HEADER in Live((h', v')) && req <= Live((h', v'))[ptr - HEADER]
  {
    hide Inv, Places, PagesFor, GrowthFits;
    BlockFacts(h, v);
    BlockFacts(h', v');
  }

  lemma RunSuffix(states: seq<(Heap, View)>, calls: seq<Call>, results: seq<nat>, k: nat)
    requires Run(states, calls, results) && k <= |calls|
    ensures Run(states[k..], calls[k..], results[k..])
  {
    hide Step;
  }

  lemma LiveApart(states: seq<(Heap, View)>, calls: seq<Call>, results: seq<nat>, b: nat, c: nat)
    requires Run(states, calls, results) && |calls| > 0
    requires b in Live(states[|calls|]) && c in Live(states[|calls|]) && b != c
    ensures var live := Live(states[|calls|]);
      Apart(b + HEADER, b + HEADER + live[b], c + HEADER, c + HEADER + live[c])
  {
    hide Inv, AllocResult, FreeResult;
    var n := |calls|;
    assert Step(states[n - 1].0, states[n - 1].1, calls[n - 1], states[n].0, states[n].1, results[n - 1]);
    PayloadsApart(states[n].0, states[n].1, b, c);
  }

  // ---------------------------------------------------------------- where headers are written

  /** The header at `a` is not the same before and after. */
  ghost predicate HeaderWritten(mem: Memory, mem': Memory, a: nat) {
    a in mem' && (a !in mem || mem'[a] != mem[a])
  }

  /** No call writes a header inside a payload that is live, not even one that is being freed. */
  lemma StepWritesNoPayload(h: Heap, v: View, call: Call, h': Heap, v': View, ptr: nat, b: nat, a: nat)
    requires Step(h, v, call, h', v', ptr) && b in Live((h, v)) && HeaderWritten(h.mem, h'.mem, a)
    ensures Apart(b + HEADER, b + HEADER + Live((h, v))[b], a, a + HEADER)
  {
    hide Inv, BestFit, HasRoom, PagesFor, GrowthFits, RoundUp16;
    match call
    case Alloc(size, backed) =>
      StepLive(h, v, call, h', v', ptr, b);
      assert a in v'.blocks;
      PayloadsApart(h', v', b, a);
    case Free(p) =>
      assert a in v.blocks;
      PayloadsApart(h, v, b, a);
    case Write(lo, hi) =>
      assert false;
  }

  // ---------------------------------------------------------------- seams

  /** The heap grew in call `i`. */
  ghost predicate GrewAt(states: seq<(Heap, View)>, i: nat) {
    i + 1 < |states| && states[i].0.end < states[i + 1].0.end
  }

  lemma StepSeams(h: Heap, v: View, call: Call, h': Heap, v': View, ptr: nat)
    requires Step(h, v, call, h', v', ptr)
    ensures v'.seams == v.seams + if h.end < h'.end then {h.end} else {}
    ensures h.end <= h'.end
  {
    hide Inv, OnlyWrites, Places, BestFit, HasRoom, PagesFor, GrowthFits, Payloads;
  }

  /** Over a whole run the seams are exactly those it began with and the ends the heap had when it grew. */
  lemma {:induction false} RunSeams(states: seq<(Heap, View)>, calls: seq<Call>, results: seq<nat>, a: nat)
    requires Run(states, calls, results)
    ensures a in states[|calls|].1.seams <==>
      a in states[0].1.seams || exists i :: 0 <= i < |calls| && GrewAt(states, i) && states[i].0.end == a
    ensures states[0].0.end <= states[|calls|].0.end
    decreases |calls|
  {
    hide Step;
    var n := |calls|;
    if n > 0 {
      assert Step(states[n - 1].0, states[n - 1].1, calls[n - 1], states[n].0, states[n].1, results[n - 1]);
      StepSeams(states[n - 1].0, states[n - 1].1, calls[n - 1], states[n].0, states[n].1, results[n - 1]);
      var (states', calls', results') := (states[..n], calls[..n - 1], results[..n - 1]);
      assert Run(states', calls', results');
      RunSeams(states', calls', results', a);
      assert forall i :: 0 <= i < n - 1 ==> (GrewAt(states', i) <==> GrewAt(states, i));
      assert GrewAt(states, n - 1) <==> states[n - 1].0.end < states[n].0.end;
    }
  }

  // ---------------------------------------------------------------- freeing twice

  /** A header that is no block's says that it is free, and overlaps that of no block. */
  ghost predicate OldHeaders(h: Heap, v: View) {
    && (forall a :: a in h.mem && a !in v.blocks ==> h.mem[a].free)
    && (forall a :: a in h.mem && a !in v.blocks ==> !Hit(a, v.blocks))
  }

  /** In this event a new header, or the owner of a payload, overwrites part of a header at `x`. */
  ghost predicate Spoils(v: View, call: Call, v': View, x: nat) {
    || Hit(x, v'.blocks - v.blocks)
    || (call.Write? && !Apart(x, x + HEADER, call.lo, call.hi))
  }

  /** Which headers memory holds after an event. */
  lemma StepKeepsHeader(h: Heap, v: View, call: Call, h': Heap, v': View, ptr: nat, x: nat)
    requires Step(h, v, call, h', v', ptr)
    ensures x in h'.mem <==> x in v'.blocks || (x in h.mem && !Spoils(v, call, v', x))
    ensures x in h'.mem && x !in v'.blocks && x !in v.blocks ==> x in h.mem && h'.mem[x] == h.mem[x]
    ensures x in h'.mem && x !in v'.blocks && x in v.blocks ==> h'.mem[x].free
    ensures ptr != 0 ==> ptr >= HEADER && ptr - HEADER in v'.blocks
  {
    hide Inv, BestFit, HasRoom, PagesFor, GrowthFits, RoundUp16, Hit;
    BlockFacts(h, v);
    BlockFacts(h', v');
    match call
    case Alloc(size, backed) =>
      NoneHit(x, v'.blocks - v.blocks);
    case Free(p) =>
      NoneHit(x, v'.blocks - v.blocks);
    case Write(lo, hi) =>
      NoneHit(x, v'.blocks - v.blocks);
  }

  lemma NoneHit(x: nat, s: set<nat>)
    ensures s == {} ==> !Hit(x, s)
  {
  }

  lemma HitWithin(x: nat, s: set<nat>, t: set<nat>)
    requires Hit(x, s) && s <= t
    ensures Hit(x, t)
  {
  }

  lemma StepOldHeaders(h: Heap, v: View, call: Call, h': Heap, v': View, ptr: nat)
    requires Step(h, v, call, h', v', ptr) && OldHeaders(h, v)
    ensures OldHeaders(h', v')
  {
    hide Step, Inv, Hit, Spoils;
    forall a | a in h'.mem && a !in v'.blocks
      ensures h'.mem[a].free && !Hit(a, v'.blocks)
    {
      StepKeepsHeader(h, v, call, h', v', ptr, a);
      if a in v.blocks {
        SwallowedApart(h, v, call, h', v', ptr, a);
      } else {
        OldApart(v, call, v', a);
      }
    }
  }

  /** The header of a swallowed block overlaps that of no other. */
  lemma SwallowedApart(h: Heap, v: View, call: Call, h': Heap, v': View, ptr: nat, a: nat)
    requires Step(h, v, call, h', v', ptr) && a in v.blocks && a !in v'.blocks
    ensures !Hit(a, v'.blocks)
  {
    hide Inv, Hit, OnlyWrites, Swallowed, AllocResult, Payloads;
    assert call.Free? by {
      if call.Alloc? && call.size > 0 {
        BlocksGrow(h, v, h', v', RoundUp16(call.size), call.backed, ptr);
      }
    }
    NewApart(h, v, a, v'.blocks);
  }

  lemma BlocksGrow(h: Heap, v: View, h': Heap, v': View, req: nat, backed: bool, ptr: nat)
    requires AllocResult(h, v, h', v', req, backed, ptr)
    ensures v.blocks <= v'.blocks
  {
  }

  lemma OldApart(v: View, call: Call, v': View, a: nat)
    requires !Hit(a, v.blocks) && !Spoils(v, call, v', a)
    ensures !Hit(a, v'.blocks)
  {
    hide Hit;
    HitUnion(a, v.blocks, v'.blocks - v.blocks);
    if Hit(a, v'.blocks) {
      HitWithin(a, v'.blocks, v.blocks + (v'.blocks - v.blocks));
    }
  }

  /** In event `j` part of a header at `x` was overwritten. */
  ghost predicate SpoiltAt(states: seq<(Heap, View)>, calls: seq<Call>, j: nat, x: nat)
    requires j < |calls| && |states| == |calls| + 1
  {
    Spoils(states[j].1, calls[j], states[j + 1].1, x)
  }

  /** `x` was a block at state `k`, and its header has not been overwritten since. */
  ghost predicate UnspoiltFrom(states: seq<(Heap, View)>, calls: seq<Call>, k: nat, x: nat)
    requires |states| == |calls| + 1
  {
    && k <= |calls| && x in states[k].1.blocks
    && forall j {:trigger SpoiltAt(states, calls, j, x)} :: k <= j < |calls| ==> !SpoiltAt(states, calls, j, x)
  }

  /** `x` was a block at some state, and its header has not been overwritten since. */
  ghost predicate Unspoilt(states: seq<(Heap, View)>, calls: seq<Call>, x: nat)
    requires |states| == |calls| + 1
  {
    exists k: nat :: UnspoiltFrom(states, calls, k, x)
  }

  /** Over a run that begins with the blocks' headers alone, the headers left are those not overwritten since. */
  lemma {:induction false} RunHeaders(states: seq<(Heap, View)>, calls: seq<Call>, results: seq<nat>, x: nat)
    requires Run(states, calls, results) && OldHeaders(states[0].0, states[0].1)
    requires x in states[0].0.mem <==> x in states[0].1.blocks
    ensures OldHeaders(states[|calls|].0, states[|calls|].1)
    ensures x in states[|calls|].0.mem <==> Unspoilt(states, calls, x)
    decreases |calls|
  {
    hide Step, OldHeaders, Spoils;
    var n := |calls|;
    if n == 0 {
      StartHeaders(states, calls, results, x);
    } else {
      var (s, t) := (states[n - 1], states[n]);
      assert Step(s.0, s.1, calls[n - 1], t.0, t.1, results[n - 1]);
      var (states', calls', results') := (states[..n], calls[..n - 1], results[..n - 1]);
      assert Run(states', calls', results');
      RunHeaders(states', calls', results', x);
      StepOldHeaders(s.0, s.1, calls[n - 1], t.0, t.1, results[n - 1]);
      StepKeepsHeader(s.0, s.1, calls[n - 1], t.0, t.1, results[n - 1], x);
      UnspoiltStep(states, calls, x);
    }
  }

  lemma StartHeaders(states: seq<(Heap, View)>, calls: seq<Call>, results: seq<nat>, x: nat)
    requires |states| == 1 && calls == []
    requires x in states[0].0.mem <==> x in states[0].1.blocks
    ensures x in states[0].0.mem <==> Unspoilt(states, calls, x)
  {
    if x in states[0].0.mem {
      assert UnspoiltFrom(states, calls, 0, x);
    }
  }

  lemma UnspoiltStep(states: seq<(Heap, View)>, calls: seq<Call>, x: nat)
    requires |states| == |calls| + 1 && |calls| > 0
    ensures var n := |calls|;
      Unspoilt(states, calls, x) <==>
        x in states[n].1.blocks ||
        (Unspoilt(states[..n], calls[..n - 1], x) && !SpoiltAt(states, calls, n - 1, x))
  {
    hide Spoils, SpoiltAt;
    var (n, states', calls') := (|calls|, states[..|calls|], calls[..|calls| - 1]);
    if Unspoilt(states, calls, x) {
      var k: nat :| UnspoiltFrom(states, calls, k, x);
      if k < n {
        UnspoiltOnce(states, calls, k, x);
        assert UnspoiltFrom(states', calls', k, x);
      }
    }
    if x in states[n].1.blocks {
      assert UnspoiltFrom(states, calls, n, x);
    } else if Unspoilt(states', calls', x) && !SpoiltAt(states, calls, n - 1, x) {
      var k: nat :| UnspoiltFrom(states', calls', k, x);
      UnspoiltOnce(states, calls, k, x);
    }
  }

  lemma UnspoiltOnce(states: seq<(Heap, View)>, calls: seq<Call>, k: nat, x: nat)
    requires |states| == |calls| + 1 && k < |calls|
    ensures var n := |calls|;
      UnspoiltFrom(states, calls, k, x) <==>
        UnspoiltFrom(states[..n], calls[..n - 1], k, x) && !SpoiltAt(states, calls, n - 1, x)
  {
    hide Spoils;
    var (n, states', calls') := (|calls|, states[..|calls|], calls[..|calls| - 1]);
    assert forall j :: k <= j < n - 1 ==> (SpoiltAt(states', calls', j, x) <==> SpoiltAt(states, calls, j, x));
  }

  /**
   * When a pointer that `kmalloc` once returned may be passed to `kfree`: exactly when no
   * header and no owner of a payload has overwritten its header since it was last a block's.
   * Unless its payload is live the call then changes nothing, even if its block has been
   * merged away.
   */
  lemma RunDoubleFree(states: seq<(Heap, View)>, calls: seq<Call>, results: seq<nat>, i: nat, h': Heap, v': View)
    requires Run(states, calls, results) && i < |calls| && results[i] != 0
    requires OldHeaders(states[0].0, states[0].1) && states[0].0.mem.Keys == states[0].1.blocks
    ensures var (h, v, p) := (states[|calls|].0, states[|calls|].1, results[i]);
      && p >= HEADER
      && (Freeable(h, v, p) <==> Unspoilt(states, calls, p - HEADER))
      && (FreeResult(h, v, h', v', p) && p - HEADER !in Live((h, v)) ==> h' == h && v' == v)
  {
    hide Step, Inv, Unspoilt, Hit;
    assert Step(states[i].0, states[i].1, calls[i], states[i + 1].0, states[i + 1].1, results[i]);
    StepKeepsHeader(states[i].0, states[i].1, calls[i], states[i + 1].0, states[i + 1].1, results[i], 0);
    RunHeaders(states, calls, results, results[i] - HEADER);
  }
}
