/**
 * The words of memory behind the headers of the heap.  A header is five words; headers at
 * different addresses can share some.  This module shows that the headers that `HeapBlocks`
 * keeps are those that memory really shows, and what `kfree` reads where one has been lost.
 */
module HeapWords {
  import opened Common
  import opened HeapBlocks
  import opened KernelHeap
  import opened HeapRuns

  type Words = map<nat, nat>

  function Word(w: Words, a: nat): nat {
    if a in w then w[a] else 0
  }

  /** The member `free` of a header at `a`, which is one byte, as `kfree` tests it. */
  predicate Flag(w: Words, a: nat) {
    Word(w, a + 8) % 256 != 0
  }

  /** What memory shows when it is read as a header at `a`. */
  function HeaderAt(w: Words, a: nat): Header {
    Header(Word(w, a), Flag(w, a), Word(w, a + 16), Word(w, a + 24), Word(w, a + 32))
  }

  ghost predicate Shows(w: Words, mem: Memory) {
    forall a :: a in mem ==> HeaderAt(w, a) == mem[a]
  }

  // ---------------------------------------------------------------- stores

  /** The word at `a` is part of a header of `s`. */
  ghost predicate Within(a: nat, s: set<nat>) {
    exists b :: b in s && b <= a < b + HEADER
  }

  /** Words outside the headers of `s` are the same. */
  ghost predicate StoredWithin(w: Words, w': Words, s: set<nat>) {
    forall a: nat {:trigger Word(w', a)} :: !Within(a, s) ==> Word(w', a) == Word(w, a)
  }

  /** Words that have no byte in [lo, hi) are the same. */
  ghost predicate StoredBetween(w: Words, w': Words, lo: nat, hi: nat) {
    forall a: nat {:trigger Word(w', a)} :: a + 8 <= lo || hi <= a ==> Word(w', a) == Word(w, a)
  }

  /** The stores of an event: members of the headers it changes, or the bytes that an owner writes. */
  ghost predicate Stored(w: Words, w': Words, v: View, call: Call, h': Heap, v': View) {
    if call.Write? then StoredBetween(w, w', call.lo, call.hi)
    else
      && StoredWithin(w, w', v.blocks + v'.blocks)
      && forall a :: a in v.blocks + v'.blocks && a in h'.mem ==> HeaderAt(w', a) == h'.mem[a]
  }

  lemma ApartWithin(a: nat, i: nat, s: set<nat>)
    requires !Hit(a, s) && i < HEADER
    ensures !Within(a + i, s)
  {
    forall b | b in s
      ensures !(b <= a + i < b + HEADER)
    {
      assert !Overlap(a, b);
    }
  }

  /** A header that overlaps none of `s` shows the same as before. */
  lemma StoredElsewhere(w: Words, w': Words, s: set<nat>, a: nat)
    requires StoredWithin(w, w', s) && !Hit(a, s)
    ensures HeaderAt(w', a) == HeaderAt(w, a)
  {
    hide Within, Hit;
    ApartWithin(a, 0, s);
    ApartWithin(a, 8, s);
    ApartWithin(a, 16, s);
    ApartWithin(a, 24, s);
    ApartWithin(a, 32, s);
  }

  lemma StepShows(h: Heap, v: View, call: Call, h': Heap, v': View, ptr: nat, w: Words, w': Words)
    requires Step(h, v, call, h', v', ptr) && OldHeaders(h, v)
    requires Shows(w, h.mem) && Stored(w, w', v, call, h', v')
    ensures Shows(w', h'.mem)
  {
    hide Inv, Hit, Within, StoredWithin, HeaderAt, AllocResult, FreeResult;
    if call.Write? {
      WriteShows(h, call.lo, call.hi, w, w');
    } else {
      forall a | a in h'.mem
        ensures HeaderAt(w', a) == h'.mem[a]
      {
        if a !in v.blocks + v'.blocks {
          StepKeepsHeader(h, v, call, h', v', ptr, a);
          OldApart(v, call, v', a);
          HitUnion(a, v.blocks, v'.blocks);
          StoredElsewhere(w, w', v.blocks + v'.blocks, a);
        }
      }
    }
  }

  lemma WriteShows(h: Heap, lo: nat, hi: nat, w: Words, w': Words)
    requires Shows(w, h.mem) && StoredBetween(w, w', lo, hi)
    ensures Shows(w', Scribbled(h.mem, lo, hi))
  {
  }

  /**
   * Over every run memory shows the headers of the heap, so the test of `kfree` reads what
   * the header of a pointer that may be freed says.
   */
  lemma {:induction false} RunShows(states: seq<(Heap, View)>, calls: seq<Call>, results: seq<nat>, ws: seq<Words>)
    requires Run(states, calls, results) && |ws| == |states|
    requires forall i :: 0 <= i < |calls| ==>
      Stored(ws[i], ws[i + 1], states[i].1, calls[i], states[i + 1].0, states[i + 1].1)
    requires OldHeaders(states[0].0, states[0].1) && Shows(ws[0], states[0].0.mem)
    ensures var (h, v, w) := (states[|calls|].0, states[|calls|].1, ws[|calls|]);
      && Shows(w, h.mem) && OldHeaders(h, v)
      && forall p :: p >= HEADER && Freeable(h, v, p) ==> (Flag(w, p - HEADER) <==> h.mem[p - HEADER].free)
    decreases |calls|
  {
    hide Step, OldHeaders, Stored, Flag;
    var n := |calls|;
    if n > 0 {
      var (s, t) := (states[n - 1], states[n]);
      assert Step(s.0, s.1, calls[n - 1], t.0, t.1, results[n - 1]);
      var (states', calls', results', ws') := (states[..n], calls[..n - 1], results[..n - 1], ws[..n]);
      assert Run(states', calls', results');
      RunShows(states', calls', results', ws');
      assert Stored(ws[n - 1], ws[n], s.1, calls[n - 1], t.0, t.1);
      StepShows(s.0, s.1, calls[n - 1], t.0, t.1, results[n - 1], ws[n - 1], ws[n]);
      StepOldHeaders(s.0, s.1, calls[n - 1], t.0, t.1, results[n - 1]);
    }
  }

  // ---------------------------------------------------------------- a lost header

  /**
   * What the test of `kfree` reads at `x` when a header at `r` lies across the old one: the
   * low byte of the member of the new header that is stored there.
   */
  lemma LostFlag(w: Words, r: nat, x: nat)
    requires Overlap(r, x) && r != x && r % 8 == x % 8
    ensures var hdr := HeaderAt(w, r);
      && (r == x + 8 ==> (Flag(w, x) <==> hdr.size % 256 != 0))
      && (x == r + 8 ==> (Flag(w, x) <==> hdr.next % 256 != 0))
      && (x == r + 16 ==> (Flag(w, x) <==> hdr.prev % 256 != 0))
      && (x == r + 24 ==> (Flag(w, x) <==> hdr.physPrev % 256 != 0))
    ensures r == x + 8 || r in {x + 16, x + 24, x + 32} || x in {r + 8, r + 16, r + 24, r + 32}
  {
    EightApart(r, x);
  }

  /** Two headers that overlap are at most four words apart. */
  lemma EightApart(r: nat, x: nat)
    requires Overlap(r, x) && r != x && r % 8 == x % 8
    ensures r in {x + 8, x + 16, x + 24, x + 32} || x in {r + 8, r + 16, r + 24, r + 32}
  {
    var (i, j) := (r / 8, x / 8);
    assert r == 8 * i + r % 8 && x == 8 * j + r % 8;
    assert -5 < i - j < 5 && i != j;
  }

  // ---------------------------------------------------------------- a run that loses one

  /** Heap and view of one page, with these live payloads. */
  ghost predicate OnePage(s: (Heap, View), live: map<nat, nat>) {
    && Inv(s.0, s.1) && s.0.end == HEAP_START + 4096 && s.1.seams == {HEAP_START}
    && Live(s) == live
  }

  /** With nothing live, the page is one free block. */
  lemma OneBlock(s: (Heap, View))
    requires OnePage(s, map[])
    ensures s.1.blocks == {HEAP_START} && HEAP_START in s.0.mem
    ensures s.0.mem[HEAP_START].free && s.0.mem[HEAP_START].size == 4056
  {
    hide Inv;
    var (h, v) := s;
    BlockFacts(h, v);
    var b := HEAP_START;
    UsedHasPayload(h.mem, v.blocks, b);
    FreeToTheEnd(s, map[], b);
    forall x | x in v.blocks
      ensures x == b
    {
      BlocksApart(h, v, b, x);
    }
  }

  /** A free block with no live one behind it reaches to the end of the page. */
  lemma FreeToTheEnd(s: (Heap, View), live: map<nat, nat>, b: nat)
    requires OnePage(s, live) && b in s.1.blocks && s.1.blocks <= s.0.mem.Keys && s.0.mem[b].free
    requires forall x :: x in live ==> x <= b
    ensures EndOf(s.0.mem, b) == s.0.end
  {
    hide Tiled, Listed, Footprint;
    var (h, v) := s;
    NextIsBlock(h, v, b);
    var n := EndOf(h.mem, b);
    if n in v.blocks {
      UsedHasPayload(h.mem, v.blocks, n);
      assert RightOk(h.mem, v.blocks, v.seams, b);
      BlockFacts(h, v);
      assert false;
    }
  }

  /** With one payload at the front, the page is that block and a free one, alone in its list. */
  lemma TwoBlocks(s: (Heap, View), size: nat)
    requires OnePage(s, map[HEAP_START := size]) && size < 4000
    ensures var r := HEAP_START + HEADER + size;
      && s.1.blocks == {HEAP_START, r} && s.1.blocks <= s.0.mem.Keys
      && s.0.mem[r] == Header(4016 - size, true, 0, 0, HEAP_START)
  {
    hide Inv;
    var (h, v) := s;
    var (b, r) := (HEAP_START, HEAP_START + HEADER + size);
    BlockFacts(h, v);
    assert b in Live(s) && h.mem[b].size == size;
    assert EndOf(h.mem, b) == r;
    UsedHasPayload(h.mem, v.blocks, r);
    FreeToTheEnd(s, map[b := size], r);
    forall x | x in v.blocks
      ensures x == b || x == r
    {
      BlocksApart(h, v, b, x);
      BlocksApart(h, v, r, x);
    }
    assert h.mem[b].size == size && !h.mem[b].free;
    LeftLink(h, v, b, r);
    LoneFree(h, v, r);
  }

  /** The only free block has no neighbours in its list. */
  lemma LoneFree(h: Heap, v: View, r: nat)
    requires Inv(h, v) && v.blocks <= h.mem.Keys && r in v.blocks && h.mem[r].free
    requires forall x :: x in v.blocks && h.mem[x].free ==> x == r
    ensures h.mem[r].next == 0 && h.mem[r].prev == 0
  {
    hide Tiled, Footprint, Seamed, SizeClass, Links;
    var c := SizeClass(h.mem[r].size);
    var l := v.lists[c];
    assert OfClass(h.mem, v.blocks, l, c) && r in l;
    LoneLink(h.mem, h.heads[c], l, r);
  }

  lemma LoneLink(mem: Memory, head: nat, l: seq<nat>, r: nat)
    requires Links(mem, head, l) && r in l && r in mem && forall x :: x in l ==> x == r
    ensures mem[r].next == 0 && mem[r].prev == 0
  {
    LinksApart(mem, head, l);
    assert forall i :: 0 <= i < |l| ==> l[i] in l;
    assert l == [r];
  }

  /** The first request on an empty heap takes the front of a new page. */
  lemma FirstAlloc(s: (Heap, View), t: (Heap, View), ptr: nat)
    requires Step(s.0, s.1, Alloc(32, true), t.0, t.1, ptr)
    requires s.0.end == HEAP_START && s.1.seams == {}
    ensures ptr == HEAP_START + HEADER && OnePage(t, map[HEAP_START := 32])
  {
    hide Inv, Places, BestFit, Payloads;
    EmptyHeap(s.0, s.1);
    assert RoundUp16(32) == 32 && PagesFor(32) == 1 && GrowthFits(32);
    assert !HasRoom(s.0.mem, s.1.blocks, 32);
  }

  lemma EmptyHeap(h: Heap, v: View)
    requires Inv(h, v) && h.end == HEAP_START
    ensures v.blocks == {} && Payloads(h.mem, v.blocks) == map[]
  {
    hide Inv;
    BlockFacts(h, v);
  }

  /** A request for 16 bytes that some free block can hold takes the only one there is. */
  lemma NextAlloc(s: (Heap, View), t: (Heap, View), backed: bool, ptr: nat, live: map<nat, nat>, r: nat)
    requires Step(s.0, s.1, Alloc(16, backed), t.0, t.1, ptr) && OnePage(s, live)
    requires s.1.blocks <= s.0.mem.Keys && r in s.1.blocks && s.0.mem[r].free && s.0.mem[r].size >= 72
    requires forall x :: x in s.1.blocks && s.0.mem[x].free ==> x == r
    ensures ptr == r + HEADER && OnePage(t, live[r := 16])
  {
    hide Inv, Places, Payloads;
    assert RoundUp16(16) == 16;
    BlockFacts(s.0, s.1);
    BlockFacts(t.0, t.1);
    assert Fits(s.0.mem, s.1.blocks, 16, r);
  }

  /** Freeing a live payload. */
  lemma NextFree(s: (Heap, View), t: (Heap, View), ptr: nat, live: map<nat, nat>, b: nat)
    requires Step(s.0, s.1, Free(b + HEADER), t.0, t.1, ptr) && OnePage(s, live) && b in live
    ensures OnePage(t, live - {b}) && s.1.blocks <= t.0.mem.Keys
    ensures forall x :: x in s.1.blocks && x !in t.1.blocks ==> t.0.mem[x].free
  {
    hide Inv;
    BlockFacts(s.0, s.1);
    BlockFacts(t.0, t.1);
  }

  /** From an empty heap: two requests, both freed in the opposite order, and a smaller request. */
  ghost predicate StaleRun(states: seq<(Heap, View)>, results: seq<nat>, second: bool, third: bool) {
    && |states| == 6 && |results| == 5
    && states[0].0.end == HEAP_START && states[0].1.seams == {}
    && Run(states, [Alloc(32, true), Alloc(16, second), Free(results[1]), Free(results[0]), Alloc(16, third)], results)
  }

  lemma StaleShape(states: seq<(Heap, View)>, results: seq<nat>, second: bool, third: bool)
    requires StaleRun(states, results, second, third)
    ensures |states| == 6 && |results| == 5
  {
  }

  lemma StaleSteps(states: seq<(Heap, View)>, results: seq<nat>, second: bool, third: bool)
    requires StaleRun(states, results, second, third)
    ensures Step(states[0].0, states[0].1, Alloc(32, true), states[1].0, states[1].1, results[0])
    ensures Step(states[1].0, states[1].1, Alloc(16, second), states[2].0, states[2].1, results[1])
    ensures Step(states[2].0, states[2].1, Free(results[1]), states[3].0, states[3].1, results[2])
    ensures Step(states[3].0, states[3].1, Free(results[0]), states[4].0, states[4].1, results[3])
    ensures Step(states[4].0, states[4].1, Alloc(16, third), states[5].0, states[5].1, results[4])
  {
    hide Step;
    var calls := [Alloc(32, true), Alloc(16, second), Free(results[1]), Free(results[0]), Alloc(16, third)];
    forall i | 0 <= i < 5
      ensures Step(states[i].0, states[i].1, calls[i], states[i + 1].0, states[i + 1].1, results[i])
    {
    }
    assert calls[0] == Alloc(32, true) && calls[1] == Alloc(16, second) && calls[4] == Alloc(16, third);
  }

  /**
   * The last request writes the header of the rest across that of the second payload, which
   * was intact until then, even though its block had been merged away.
   */
  lemma HeaderLost(states: seq<(Heap, View)>, results: seq<nat>, second: bool, third: bool)
    requires StaleRun(states, results, second, third)
    ensures var b := HEAP_START;
      && results[0] == b + HEADER && results[1] == b + 72 + HEADER
      && Freeable(states[4].0, states[4].1, results[1]) && b + 72 !in states[4].1.blocks
      && OnePage(states[5], map[b := 16]) && states[5].1.blocks == {b, b + 56}
      && b + 56 in states[5].0.mem && states[5].0.mem[b + 56] == Header(4000, true, 0, 0, b)
      && !Freeable(states[5].0, states[5].1, results[1])
  {
    hide Step, OnePage, Inv;
    var (b, x) := (HEAP_START, HEAP_START + 72);
    StaleSteps(states, results, second, third);
    FirstAlloc(states[0], states[1], results[0]);
    TwoBlocks(states[1], 32);
    LiveUsed(states[1], map[b := 32], b);
    NextAlloc(states[1], states[2], second, results[1], map[b := 32], x);
    NextFree(states[2], states[3], results[2], map[b := 32][x := 16], x);
    assert map[b := 32][x := 16] - {x} == map[b := 32];
    TwoBlocks(states[3], 32);
    NextFree(states[3], states[4], results[3], map[b := 32], b);
    assert map[b := 32] - {b} == map[];
    OneBlock(states[4]);
    NextAlloc(states[4], states[5], third, results[4], map[], b);
    assert map[][b := 16] == map[b := 16];
    TwoBlocks(states[5], 16);
    assert x in states[3].1.blocks && x !in states[4].1.blocks;
    StepKeepsHeader(states[4].0, states[4].1, Alloc(16, third), states[5].0, states[5].1, results[4], x);
    assert b + 56 in states[5].1.blocks - states[4].1.blocks && Overlap(x, b + 56);
  }

  lemma LiveUsed(s: (Heap, View), live: map<nat, nat>, b: nat)
    requires OnePage(s, live) && b in live && s.1.blocks <= s.0.mem.Keys
    ensures b in s.1.blocks && !s.0.mem[b].free
  {
    hide Inv;
  }

  /**
   * A second free of the second payload then finds its flag cleared and goes on: it sets a
   * byte of the link of the rest, and takes a header off `heap_used` once too often.
   */
  lemma SecondFreeGoesOn(states: seq<(Heap, View)>, results: seq<nat>, second: bool, third: bool, w: Words, w': Words)
    requires StaleRun(states, results, second, third) && Shows(w, states[5].0.mem)
    requires results[1] >= HEADER
    requires var x := results[1] - HEADER; w' == w[x + 8 := Word(w, x + 8) - Word(w, x + 8) % 256 + 1]
    ensures var (h, x) := (states[5].0, results[1] - HEADER);
      && !Flag(w, x) && Flag(w', x) && !Shows(w', h.mem)
      && h.used - (Word(w, x) + HEADER) == 16 && PayloadSum(Live(states[5])) == 56
  {
    hide StaleRun, OnePage, Freeable, Shows, Flag, Word, PayloadSum, Live;
    StaleShape(states, results, second, third);
    HeaderLost(states, results, second, third);
    FlagCleared(states[5].0, HEAP_START, w, w');
    UsedByOne(states[5], HEAP_START, 16);
  }

  /** What memory shows at the old header, and what setting its flag does to the rest. */
  lemma FlagCleared(h: Heap, b: nat, w: Words, w': Words)
    requires b + 56 in h.mem && h.mem[b + 56] == Header(4000, true, 0, 0, b) && Shows(w, h.mem)
    requires w' == w[b + 80 := Word(w, b + 80) - Word(w, b + 80) % 256 + 1]
    ensures !Flag(w, b + 72) && Word(w, b + 72) == 0 && Flag(w', b + 72) && !Shows(w', h.mem)
  {
    assert HeaderAt(w, b + 56) == h.mem[b + 56];
    assert HeaderAt(w', b + 56).prev == 1;
  }

  lemma UsedByOne(s: (Heap, View), b: nat, size: nat)
    requires OnePage(s, map[b := size])
    ensures s.0.used == PayloadSum(Live(s)) == size + HEADER
  {
    hide Inv, PayloadSum;
    BlockFacts(s.0, s.1);
    UsedIsPayloadSum(s.0, s.1);
    OnePayload(b, size);
  }

  lemma OnePayload(b: nat, size: nat)
    ensures PayloadSum(map[b := size]) == size + HEADER
  {
    var p := map[b := size];
    assert b in p;
    assert p - {b} == map[];
  }
}
