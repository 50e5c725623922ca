/**
 * The kernel heap as a value: headers in memory, the heads of the twelve free lists, and
 * the bounds of the heap.  This module defines what each elementary step of the allocator
 * does to that value and proves that it keeps the heap well formed.
 */
module HeapBlocks {
  import opened Common

  const HEADER := 40                              // sizeof(km_block_t)
  const MIN_SIZE := 16                            // KM_MIN_SIZE
  const CLASSES := 12                             // KM_SIZE_CLASSES

  /** `km_block_t`; address 0 stands for NULL. */
  datatype Header = Header(size: nat, free: bool, next: nat, prev: nat, physPrev: nat)

  /**
   * The headers in memory: those of the blocks, and old ones that are still intact.  A header
   * that is written across an old one takes that out of it (`Place`); `HeapWords` relates
   * this to the words of memory.
   */
  type Memory = map<nat, Header>

  datatype Heap = Heap(mem: Memory, heads: seq<nat>, end: nat, used: int, last: nat)

  /** What the invariant is about: the blocks, the free lists in order, and the expansion seams. */
  datatype View = View(blocks: set<nat>, lists: seq<seq<nat>>, seams: set<nat>)

  // ---------------------------------------------------------------- headers in memory

  /** The headers at `a` and `b` have bytes in common. */
  predicate Overlap(a: nat, b: nat) {
    a < b + HEADER && b < a + HEADER
  }

  /** A header written at `a`, where none was: the old headers that it overlaps are lost. */
  function Place(mem: Memory, a: nat, hdr: Header): Memory {
    (map x | x in mem && !Overlap(x, a) :: mem[x])[a := hdr]
  }

  /** A header at `a` overlaps one of `placed`. */
  ghost predicate Hit(a: nat, placed: set<nat>) {
    exists n :: n in placed && Overlap(a, n)
  }

  lemma PlaceKeeps(mem: Memory, a: nat, hdr: Header, s: set<nat>)
    requires s <= mem.Keys && forall x :: x in s ==> !Overlap(x, a)
    ensures a in Place(mem, a, hdr) && Place(mem, a, hdr)[a] == hdr
    ensures s <= Place(mem, a, hdr).Keys && a !in s
    ensures forall x :: x in s ==> Place(mem, a, hdr)[x] == mem[x]
  {
  }

  // ---------------------------------------------------------------- size classes

  /** KM_CLASS_SIZE. */
  function ClassSize(c: nat): nat {
    if c == 0 then MIN_SIZE else 2 * ClassSize(c - 1)
  }

  /** The smallest class from `c` on whose size holds `size`; the last class holds the rest. */
  function ClassFrom(size: nat, c: nat): (r: nat)
    requires c < CLASSES
    ensures c <= r < CLASSES
    ensures r < CLASSES - 1 ==> size <= ClassSize(r)
    ensures forall i :: c <= i < r ==> ClassSize(i) < size
    decreases CLASSES - c
  {
    if ClassSize(c) < size && c < CLASSES - 1 then ClassFrom(size, c + 1) else c
  }

  function SizeClass(size: nat): (r: nat)
    ensures r < CLASSES
  {
    ClassFrom(size, 0)
  }

  lemma SizeClassMonotone(s: nat, t: nat)
    requires s <= t
    ensures SizeClass(s) <= SizeClass(t)
  {
    var c := SizeClass(t);
    if c < SizeClass(s) {
      assert ClassSize(c) < s;
    }
  }

  /** The twelve classes hold up to 16, 32, ... bytes, and the last whatever is larger. */
  lemma ClassBounds(s: nat, c: nat)
    requires c < 12
    ensures c < 11 ==> (SizeClass(s) == c <==> s <= 16 * Pow2(c) && (c > 0 ==> 16 * Pow2(c - 1) < s))
    ensures SizeClass(s) == 11 <==> 16 * Pow2(10) < s
  {
    hide Pow2, SizeClass, ClassSize;
    var k := SizeClass(s);
    ClassFacts(s);
    ClassSizes(10);
    ClassSizes(c);
    SizesGrow(k, 10);
    if c > 0 {
      ClassSizes(c - 1);
      SizesGrow(k, c - 1);
    }
    if k > 0 {
      SizesGrow(c, k - 1);
    }
  }

  lemma ClassFacts(s: nat)
    ensures var k := SizeClass(s); (k < 11 ==> s <= ClassSize(k)) && (k > 0 ==> ClassSize(k - 1) < s)
  {
  }

  lemma {:induction false} ClassSizes(c: nat)
    ensures ClassSize(c) == 16 * Pow2(c)
  {
    if c > 0 {
      ClassSizes(c - 1);
    }
  }

  lemma {:induction false} SizesGrow(c: nat, d: nat)
    ensures c <= d ==> ClassSize(c) <= ClassSize(d)
    decreases d
  {
    if c < d {
      SizesGrow(c, d - 1);
    }
  }

  // ---------------------------------------------------------------- the invariant

  function EndOf(mem: Memory, b: nat): nat
    requires b in mem
  {
    b + HEADER + mem[b].size
  }

  /** The blocks tile [HEAP_START, end), and each `phys_prev` is the left neighbour. */
  ghost predicate Tiled(mem: Memory, blocks: set<nat>, end: nat, last: nat) {
    && blocks <= mem.Keys
    && HEAP_START <= end < TWO_64 && end % 4096 == 0
    && (HEAP_START in blocks <==> HEAP_START < end)
    && Ordered(mem, blocks, end)
    && (forall b {:trigger PrevOk(mem, blocks, b)} :: b in blocks ==> PrevOk(mem, blocks, b))
    && LastOk(mem, blocks, end, last)
  }

  /** The blocks are aligned, disjoint, and leave no gap. */
  ghost predicate Ordered(mem: Memory, blocks: set<nat>, end: nat)
    requires blocks <= mem.Keys
  {
    && (forall b :: b in blocks ==> HEAP_START <= b && b % 8 == 0 && mem[b].size % 8 == 0)
    && (forall b {:trigger EndOf(mem, b)} :: b in blocks ==> EndOf(mem, b) <= end)
    && (forall b {:trigger EndOf(mem, b)} :: b in blocks ==> EndOf(mem, b) == end || EndOf(mem, b) in blocks)
    && (forall b, c {:trigger EndOf(mem, b), c in blocks} ::
          b in blocks && c in blocks && b < c ==> EndOf(mem, b) <= c)
  }

  ghost predicate PrevOk(mem: Memory, blocks: set<nat>, b: nat)
    requires b in blocks && blocks <= mem.Keys
  {
    var p := mem[b].physPrev;
    if b == HEAP_START then p == 0 else p in blocks && EndOf(mem, p) == b
  }

  ghost predicate LastOk(mem: Memory, blocks: set<nat>, end: nat, last: nat)
    requires blocks <= mem.Keys
  {
    if end == HEAP_START then last == 0 else last in blocks && EndOf(mem, last) == end
  }

  /** `l` is the doubly linked list that starts at `head`. */
  ghost predicate Links(mem: Memory, head: nat, l: seq<nat>) {
    && head == At(l, 0)
    && (forall k :: 0 <= k < |l| ==> l[k] != 0 && l[k] in mem)
    && (forall j, k :: 0 <= j < k < |l| ==> l[j] != l[k])
    && (forall k :: 0 <= k < |l| ==> mem[l[k]].next == At(l, k + 1))
    && (forall k :: 0 <= k < |l| ==> mem[l[k]].prev == At(l, k - 1))
  }

  /** Every element of `l` is a free block of class `c`. */
  ghost predicate OfClass(mem: Memory, blocks: set<nat>, l: seq<nat>, c: nat)
    requires blocks <= mem.Keys
  {
    forall b :: b in l ==> b in blocks && mem[b].free && SizeClass(mem[b].size) == c
  }

  /**
   * The free lists hold exactly the free blocks, each in the list of its class, except for
   * the blocks in `loose`, which an operation has taken out of the lists or not yet put in.
   */
  ghost predicate Listed(mem: Memory, blocks: set<nat>, heads: seq<nat>, lists: seq<seq<nat>>, loose: set<nat>)
    requires blocks <= mem.Keys
  {
    && |heads| == CLASSES && |lists| == CLASSES
    && (forall c :: 0 <= c < CLASSES ==> Links(mem, heads[c], lists[c]))
    && (forall c :: 0 <= c < CLASSES ==> OfClass(mem, blocks, lists[c], c))
    && (forall b :: b in blocks && mem[b].free && b !in loose ==> b in lists[SizeClass(mem[b].size)])
    && (forall b, c :: b in loose && 0 <= c < CLASSES ==> b !in lists[c])
  }

  /** If the right neighbour of `b` is free, the two meet at a seam. */
  ghost predicate RightOk(mem: Memory, blocks: set<nat>, seams: set<nat>, b: nat)
    requires blocks <= mem.Keys && b in blocks
  {
    EndOf(mem, b) in blocks && mem[EndOf(mem, b)].free ==> EndOf(mem, b) in seams
  }

  /** Adjacent free blocks meet only at a seam, an address that was once the end of the heap. */
  ghost predicate Seamed(mem: Memory, blocks: set<nat>, seams: set<nat>)
    requires blocks <= mem.Keys
  {
    forall b {:trigger RightOk(mem, blocks, seams, b)} ::
      b in blocks && mem[b].free ==> RightOk(mem, blocks, seams, b)
  }

  /** The allocated blocks. */
  ghost function Allocated(mem: Memory, blocks: set<nat>): set<nat>
    requires blocks <= mem.Keys
  {
    set b | b in blocks && !mem[b].free
  }

  ghost function Footprint(mem: Memory, s: set<nat>): int
    requires s <= mem.Keys
  {
    if s == {} then 0
    else
      var b :| b in s;
      mem[b].size + HEADER + Footprint(mem, s - {b})
  }

  ghost predicate WellFormed(h: Heap, v: View, loose: set<nat>) {
    && Tiled(h.mem, v.blocks, h.end, h.last)
    && Listed(h.mem, v.blocks, h.heads, v.lists, loose)
  }

  /** The invariant apart from the counter `heap_used`. */
  ghost predicate Shape(h: Heap, v: View) {
    && WellFormed(h, v, {})
    && Seamed(h.mem, v.blocks, v.seams)
  }

  ghost predicate Inv(h: Heap, v: View) {
    && Shape(h, v)
    && h.used == Footprint(h.mem, Allocated(h.mem, v.blocks))
  }

  // ---------------------------------------------------------------- sums

  lemma {:induction false} FootprintRemove(mem: Memory, s: set<nat>, b: nat)
    requires s <= mem.Keys && b in s
    ensures Footprint(mem, s) == mem[b].size + HEADER + Footprint(mem, s - {b})
  {
    var x :| x in s && Footprint(mem, s) == mem[x].size + HEADER + Footprint(mem, s - {x});
    if x != b {
      FootprintRemove(mem, s - {x}, b);
      FootprintRemove(mem, s - {b}, x);
      assert s - {x} - {b} == s - {b} - {x};
    }
  }

  lemma {:induction false} FootprintFrame(mem: Memory, mem': Memory, s: set<nat>)
    requires s <= mem.Keys && s <= mem'.Keys
    requires forall b :: b in s ==> mem'[b].size == mem[b].size
    ensures Footprint(mem', s) == Footprint(mem, s)
  {
    if s != {} {
      var x :| x in s;
      FootprintRemove(mem, s, x);
      FootprintRemove(mem', s, x);
      FootprintFrame(mem, mem', s - {x});
    }
  }

  // ---------------------------------------------------------------- list steps

  /** The header updates of `km_list_unlink`. */
  function UnlinkMem(mem: Memory, b: nat): (m: Memory)
    requires b in mem
    requires mem[b].prev != 0 ==> mem[b].prev in mem
    requires mem[b].next != 0 ==> mem[b].next in mem
    ensures m.Keys == mem.Keys
  {
    var (n, p) := (mem[b].next, mem[b].prev);
    var m1 := if p != 0 then mem[p := mem[p].(next := n)] else mem;
    var m2 := if n != 0 then m1[n := m1[n].(prev := p)] else m1;
    m2[b := m2[b].(next := 0, prev := 0)]
  }

  function UnlinkHead(mem: Memory, head: nat, b: nat): nat
    requires b in mem
  {
    if mem[b].prev == 0 && head == b then mem[b].next else head
  }

  /** The header updates of `km_insert_free`. */
  function PushMem(mem: Memory, head: nat, b: nat): (m: Memory)
    requires b in mem
    requires head != 0 ==> head in mem
    ensures m.Keys == mem.Keys
  {
    var m1 := mem[b := mem[b].(free := true, next := head, prev := 0)];
    if head != 0 then m1[head := m1[head].(prev := b)] else m1
  }

  lemma UnlinkNeighbours(mem: Memory, head: nat, l: seq<nat>, k: nat)
    requires Links(mem, head, l) && k < |l|
    ensures mem[l[k]].prev == At(l, k - 1) && mem[l[k]].next == At(l, k + 1)
    ensures mem[l[k]].prev != 0 ==> mem[l[k]].prev in mem && k > 0
    ensures mem[l[k]].next != 0 ==> mem[l[k]].next in mem && k + 1 < |l|
  {
  }

  lemma LinksDistinct(mem: Memory, head: nat, l: seq<nat>, i: nat, j: nat)
    requires Links(mem, head, l) && i < |l| && j < |l|
    ensures l[i] == l[j] <==> i == j
    ensures l[i] in mem && l[i] != 0
  {
  }

  lemma UnlinkAt(mem: Memory, head: nat, l: seq<nat>, k: nat, i: nat)
    requires Links(mem, head, l) && k < |l| && i < |l| && i != k
    ensures mem[l[k]].prev != 0 ==> mem[l[k]].prev in mem
    ensures mem[l[k]].next != 0 ==> mem[l[k]].next in mem
    ensures UnlinkMem(mem, l[k])[l[i]].next == if i + 1 == k then At(l, k + 1) else At(l, i + 1)
    ensures UnlinkMem(mem, l[k])[l[i]].prev == if i == k + 1 then At(l, k - 1) else At(l, i - 1)
  {
    hide Links;
    UnlinkNeighbours(mem, head, l, k);
    UnlinkNeighbours(mem, head, l, i);
    LinksDistinct(mem, head, l, i, k);
    if k > 0 {
      LinksDistinct(mem, head, l, i, k - 1);
    }
    if k + 1 < |l| {
      LinksDistinct(mem, head, l, i, k + 1);
    }
  }

  lemma UnlinkSlot(mem: Memory, head: nat, l: seq<nat>, k: nat, j: nat)
    requires Links(mem, head, l) && k < |l| && j < |l| - 1
    ensures mem[l[k]].prev != 0 ==> mem[l[k]].prev in mem
    ensures mem[l[k]].next != 0 ==> mem[l[k]].next in mem
    ensures var (l', mem') := (Without(l, k), UnlinkMem(mem, l[k]));
      mem'[l'[j]].next == At(l', j + 1) && mem'[l'[j]].prev == At(l', j - 1)
  {
    hide UnlinkMem, Without, Links, At;
    UnlinkNeighbours(mem, head, l, k);
    WithoutAt(l, k);
    AtWithout(l, k, j + 1);
    AtWithout(l, k, j - 1);
    UnlinkAt(mem, head, l, k, if j < k then j else j + 1);
  }

  lemma HeadWithout(mem: Memory, head: nat, l: seq<nat>, k: nat)
    requires Links(mem, head, l) && k < |l|
    ensures UnlinkHead(mem, head, l[k]) == At(Without(l, k), 0)
  {
    hide Without;
    UnlinkNeighbours(mem, head, l, k);
    AtWithout(l, k, 0);
    LinksDistinct(mem, head, l, 0, k);
  }

  lemma UnlinkKeepsLinks(mem: Memory, head: nat, l: seq<nat>, k: nat)
    requires Links(mem, head, l) && k < |l|
    ensures mem[l[k]].prev != 0 ==> mem[l[k]].prev in mem
    ensures mem[l[k]].next != 0 ==> mem[l[k]].next in mem
    ensures Links(UnlinkMem(mem, l[k]), UnlinkHead(mem, head, l[k]), Without(l, k))
  {
    hide UnlinkMem, UnlinkHead, Without, At;
    var l' := Without(l, k);
    UnlinkNeighbours(mem, head, l, k);
    WithoutAt(l, k);
    HeadWithout(mem, head, l, k);
    var mem' := UnlinkMem(mem, l[k]);
    forall j | 0 <= j < |l'|
      ensures mem'[l'[j]].next == At(l', j + 1) && mem'[l'[j]].prev == At(l', j - 1)
    {
      UnlinkSlot(mem, head, l, k, j);
    }
  }

  lemma PushKeepsLinks(mem: Memory, head: nat, l: seq<nat>, b: nat)
    requires Links(mem, head, l) && b != 0 && b in mem && b !in l
    ensures head != 0 ==> head in mem
    ensures Links(PushMem(mem, head, b), b, [b] + l)
  {
    var mem', l' := PushMem(mem, head, b), [b] + l;
    forall j | 0 <= j < |l'|
      ensures mem'[l'[j]].next == At(l', j + 1) && mem'[l'[j]].prev == At(l', j - 1)
    {
      if j > 0 {
        assert l'[j] == l[j - 1];
        assert mem[l[j - 1]].next == At(l, j) && mem[l[j - 1]].prev == At(l, j - 2);
      }
    }
  }

  lemma LinksFrame(mem: Memory, mem': Memory, head: nat, l: seq<nat>)
    requires Links(mem, head, l)
    requires forall b :: b in l ==> b in mem' && mem'[b].next == mem[b].next && mem'[b].prev == mem[b].prev
    ensures Links(mem', head, l)
  {
  }

  /** `km_list_unlink` on the whole heap. */
  function Unlink(h: Heap, b: nat): Heap
    requires b in h.mem && |h.heads| == CLASSES
    requires h.mem[b].prev != 0 ==> h.mem[b].prev in h.mem
    requires h.mem[b].next != 0 ==> h.mem[b].next in h.mem
  {
    var c := SizeClass(h.mem[b].size);
    h.(mem := UnlinkMem(h.mem, b), heads := h.heads[c := UnlinkHead(h.mem, h.heads[c], b)])
  }

  /** `km_insert_free` on the whole heap. */
  function Insert(h: Heap, b: nat): Heap
    requires b in h.mem && |h.heads| == CLASSES
    requires forall c :: 0 <= c < CLASSES && h.heads[c] != 0 ==> h.heads[c] in h.mem
  {
    var c := SizeClass(h.mem[b].size);
    h.(mem := PushMem(h.mem, h.heads[c], b), heads := h.heads[c := b])
  }

  /** Two memories agree on everything that is not a list link. */
  ghost predicate SameBlocks(mem: Memory, mem': Memory, blocks: set<nat>) {
    && blocks <= mem.Keys && blocks <= mem'.Keys
    && forall b :: b in blocks ==>
      mem'[b].size == mem[b].size && mem'[b].free == mem[b].free && mem'[b].physPrev == mem[b].physPrev
  }

  /** The step from `mem` to `mem'` writes to headers in `s` and nowhere else. */
  ghost predicate OnlyWrites(mem: Memory, mem': Memory, s: set<nat>) {
    && mem'.Keys == mem.Keys
    && (forall a :: a in mem && a !in s ==> mem'[a] == mem[a])
  }

  lemma OnlyWritesTrans(m0: Memory, m1: Memory, m2: Memory, s: set<nat>)
    requires OnlyWrites(m0, m1, s) && OnlyWrites(m1, m2, s)
    ensures OnlyWrites(m0, m2, s)
  {
  }

  /**
   * The step from `mem` to `mem'` makes the headers `placed` and writes to others in `s`.
   * Exactly the headers that a new one overlaps are lost.
   */
  ghost predicate Places(mem: Memory, mem': Memory, s: set<nat>, placed: set<nat>) {
    && placed <= s
    && (forall a :: a in mem' <==> a in placed || (a in mem && !Hit(a, placed)))
    && (forall a :: a in mem' && a !in s ==> mem'[a] == mem[a])
  }

  lemma PlacesNone(m0: Memory, m1: Memory, s: set<nat>)
    requires OnlyWrites(m0, m1, s)
    ensures Places(m0, m1, s, {})
  {
  }

  lemma WritesThenPlaces(m0: Memory, m1: Memory, m2: Memory, s: set<nat>, placed: set<nat>)
    requires OnlyWrites(m0, m1, s) && Places(m1, m2, s, placed)
    ensures Places(m0, m2, s, placed)
  {
    hide Hit;
  }

  lemma PlacesThenWrites(m0: Memory, m1: Memory, m2: Memory, s: set<nat>, placed: set<nat>)
    requires Places(m0, m1, s, placed) && OnlyWrites(m1, m2, s)
    ensures Places(m0, m2, s, placed)
  {
    hide Hit;
  }

  lemma PlacesTwice(m0: Memory, m1: Memory, m2: Memory, s1: set<nat>, s2: set<nat>, p1: set<nat>, p2: set<nat>)
    requires Places(m0, m1, s1, p1) && Places(m1, m2, s2, p2) && s1 <= s2
    requires forall a :: a in p1 ==> !Hit(a, p2)
    ensures Places(m0, m2, s2, p1 + p2)
  {
    forall a: nat
      ensures Hit(a, p1 + p2) <==> Hit(a, p1) || Hit(a, p2)
    {
      HitUnion(a, p1, p2);
    }
    hide Hit;
  }

  lemma HitUnion(a: nat, p1: set<nat>, p2: set<nat>)
    ensures Hit(a, p1 + p2) <==> Hit(a, p1) || Hit(a, p2)
  {
    if Hit(a, p1) {
      var n :| n in p1 && Overlap(a, n);
      assert n in p1 + p2;
    }
    if Hit(a, p2) {
      var n :| n in p2 && Overlap(a, n);
      assert n in p1 + p2;
    }
  }

  lemma TiledFrame(mem: Memory, mem': Memory, blocks: set<nat>, end: nat, last: nat)
    requires Tiled(mem, blocks, end, last) && SameBlocks(mem, mem', blocks)
    ensures Tiled(mem', blocks, end, last)
  {
    assert forall b :: b in blocks ==> EndOf(mem', b) == EndOf(mem, b);
    forall b | b in blocks
      ensures PrevOk(mem', blocks, b)
    {
      assert PrevOk(mem, blocks, b);
    }
  }

  lemma TiledFacts(mem: Memory, blocks: set<nat>, end: nat, last: nat)
    requires Tiled(mem, blocks, end, last)
    ensures blocks <= mem.Keys && forall b :: b in blocks ==> b >= HEAP_START
  {
  }

  lemma UnlinkMemSame(mem: Memory, b: nat, blocks: set<nat>)
    requires blocks <= mem.Keys && b in mem
    requires mem[b].prev != 0 ==> mem[b].prev in mem
    requires mem[b].next != 0 ==> mem[b].next in mem
    ensures SameBlocks(mem, UnlinkMem(mem, b), blocks)
  {
  }

  /** Unlinking `b` changes links of `b` and its list neighbours only. */
  lemma UnlinkOthers(mem: Memory, head: nat, l: seq<nat>, k: nat, head2: nat, l2: seq<nat>)
    requires Links(mem, head, l) && k < |l|
    requires Links(mem, head2, l2) && forall x :: x in l2 ==> x !in l
    ensures mem[l[k]].prev != 0 ==> mem[l[k]].prev in mem
    ensures mem[l[k]].next != 0 ==> mem[l[k]].next in mem
    ensures Links(UnlinkMem(mem, l[k]), head2, l2)
  {
    UnlinkNeighbours(mem, head, l, k);
    var mem' := UnlinkMem(mem, l[k]);
    assert forall x :: x in l2 ==> x != l[k] && x != At(l, k - 1) && x != At(l, k + 1);
    LinksFrame(mem, mem', head2, l2);
  }

  lemma PushOthers(mem: Memory, head: nat, l: seq<nat>, b: nat, head2: nat, l2: seq<nat>)
    requires Links(mem, head, l) && b in mem
    requires Links(mem, head2, l2) && b !in l2 && forall x :: x in l2 ==> x !in l
    ensures head != 0 ==> head in mem
    ensures Links(PushMem(mem, head, b), head2, l2)
  {
    LinksFrame(mem, PushMem(mem, head, b), head2, l2);
  }

  /** Replacing one free list, and moving blocks of its class in or out of `loose`. */
  lemma ListedUpdate(mem: Memory, mem': Memory, blocks: set<nat>, heads: seq<nat>, lists: seq<seq<nat>>,
                     loose: set<nat>, c: nat, head': nat, l': seq<nat>, loose': set<nat>)
    requires SameBlocks(mem, mem', blocks)
    requires Listed(mem, blocks, heads, lists, loose) && c < CLASSES
    requires Links(mem', head', l') && OfClass(mem', blocks, l', c)
    requires forall d :: 0 <= d < CLASSES && d != c ==> Links(mem', heads[d], lists[d])
    requires forall x :: x in loose' ==> x !in l'
    requires forall x :: x in lists[c] && x !in loose' ==> x in l'
    requires forall x :: x in loose' && x !in loose ==> x in blocks && SizeClass(mem[x].size) == c
    requires forall x :: x in loose && x !in loose' ==> x in l'
    ensures Listed(mem', blocks, heads[c := head'], lists[c := l'], loose')
  {
    hide Links, SizeClass;
    var lists' := lists[c := l'];
    forall d | 0 <= d < CLASSES
      ensures OfClass(mem', blocks, lists'[d], d)
    {
      assert OfClass(mem, blocks, lists[d], d);
    }
    forall x, d | x in loose' && 0 <= d < CLASSES
      ensures x !in lists'[d]
    {
      assert OfClass(mem, blocks, lists[d], d);
    }
  }

  lemma ListFacts(h: Heap, v: View, loose: set<nat>, c: nat)
    requires v.blocks <= h.mem.Keys && Listed(h.mem, v.blocks, h.heads, v.lists, loose) && c < CLASSES
    ensures Links(h.mem, h.heads[c], v.lists[c]) && OfClass(h.mem, v.blocks, v.lists[c], c)
    ensures forall x :: x in v.lists[c] ==> x !in loose
    ensures forall d, x :: 0 <= d < CLASSES && d != c && x in v.lists[d] ==> x !in v.lists[c]
  {
    hide Links, SizeClass;
    forall d, x | 0 <= d < CLASSES && d != c && x in v.lists[d]
      ensures x !in v.lists[c]
    {
      assert OfClass(h.mem, v.blocks, v.lists[c], c);
      assert OfClass(h.mem, v.blocks, v.lists[d], d);
    }
  }

  lemma LinksApart(mem: Memory, head: nat, l: seq<nat>)
    requires Links(mem, head, l)
    ensures forall i, j :: 0 <= i < j < |l| ==> l[i] != l[j]
  {
  }

  lemma UnlinkListed(h: Heap, v: View, loose: set<nat>, b: nat) returns (v': View)
    requires v.blocks <= h.mem.Keys && Listed(h.mem, v.blocks, h.heads, v.lists, loose)
    requires b in v.blocks && h.mem[b].free && b !in loose
    ensures h.mem[b].prev != 0 ==> h.mem[b].prev in h.mem
    ensures h.mem[b].next != 0 ==> h.mem[b].next in h.mem
    ensures |h.heads| == CLASSES
    ensures v'.blocks == v.blocks && v'.seams == v.seams
    ensures Listed(Unlink(h, b).mem, v.blocks, Unlink(h, b).heads, v'.lists, loose + {b})
    ensures OnlyWrites(h.mem, Unlink(h, b).mem, v.blocks)
  {
    hide UnlinkMem, UnlinkHead, Without, SizeClass, Links;
    var c := SizeClass(h.mem[b].size);
    var l := v.lists[c];
    ListFacts(h, v, loose, c);
    var k :| 0 <= k < |l| && l[k] == b;
    UnlinkKeepsLinks(h.mem, h.heads[c], l, k);
    LinksApart(h.mem, h.heads[c], l);
    WithoutMembers(l, k);
    UnlinkMemSame(h.mem, b, v.blocks);
    UnlinkNeighbours(h.mem, h.heads[c], l, k);
    UnlinkWrites(h.mem, b, v.blocks);
    v' := v.(lists := v.lists[c := Without(l, k)]);
    var h' := Unlink(h, b);
    forall d | 0 <= d < CLASSES && d != c
      ensures Links(h'.mem, h.heads[d], v.lists[d])
    {
      UnlinkOthers(h.mem, h.heads[c], l, k, h.heads[d], v.lists[d]);
    }
    ListedUpdate(h.mem, h'.mem, v.blocks, h.heads, v.lists, loose, c, h'.heads[c], Without(l, k), loose + {b});
  }

  lemma UnlinkWrites(mem: Memory, b: nat, s: set<nat>)
    requires b in mem && b in s
    requires mem[b].prev != 0 ==> mem[b].prev in mem && mem[b].prev in s
    requires mem[b].next != 0 ==> mem[b].next in mem && mem[b].next in s
    ensures OnlyWrites(mem, UnlinkMem(mem, b), s)
  {
  }

  lemma PushWrites(mem: Memory, head: nat, b: nat, s: set<nat>)
    requires b in mem && b in s && (head != 0 ==> head in mem && head in s)
    ensures OnlyWrites(mem, PushMem(mem, head, b), s)
  {
  }

  lemma UnlinkOk(h: Heap, v: View, loose: set<nat>, b: nat) returns (v': View)
    requires WellFormed(h, v, loose)
    requires b in v.blocks && h.mem[b].free && b !in loose
    ensures h.mem[b].prev != 0 ==> h.mem[b].prev in h.mem
    ensures h.mem[b].next != 0 ==> h.mem[b].next in h.mem
    ensures |h.heads| == CLASSES
    ensures v'.blocks == v.blocks && v'.seams == v.seams
    ensures SameBlocks(h.mem, Unlink(h, b).mem, v.blocks)
    ensures WellFormed(Unlink(h, b), v', loose + {b})
    ensures OnlyWrites(h.mem, Unlink(h, b).mem, v.blocks)
  {
    hide UnlinkMem, UnlinkHead, SizeClass, Listed, Tiled;
    TiledFacts(h.mem, v.blocks, h.end, h.last);
    v' := UnlinkListed(h, v, loose, b);
    UnlinkMemSame(h.mem, b, v.blocks);
    TiledFrame(h.mem, Unlink(h, b).mem, v.blocks, h.end, h.last);
  }

  lemma HeadsInMemory(h: Heap, v: View, loose: set<nat>)
    requires v.blocks <= h.mem.Keys && Listed(h.mem, v.blocks, h.heads, v.lists, loose)
    ensures forall c :: 0 <= c < CLASSES && h.heads[c] != 0 ==> h.heads[c] in h.mem
  {
    hide SizeClass;
    forall c | 0 <= c < CLASSES && h.heads[c] != 0
      ensures h.heads[c] in h.mem
    {
      assert Links(h.mem, h.heads[c], v.lists[c]);
    }
  }

  lemma HeadInList(mem: Memory, head: nat, l: seq<nat>)
    requires Links(mem, head, l)
    ensures head != 0 ==> head in l && head in mem
  {
  }

  lemma InsertListed(h: Heap, v: View, loose: set<nat>, b: nat) returns (v': View)
    requires v.blocks <= h.mem.Keys && Listed(h.mem, v.blocks, h.heads, v.lists, loose)
    requires b in v.blocks && b in loose && h.mem[b].free && b != 0
    ensures |h.heads| == CLASSES
    ensures forall c :: 0 <= c < CLASSES && h.heads[c] != 0 ==> h.heads[c] in h.mem
    ensures v'.blocks == v.blocks && v'.seams == v.seams
    ensures Listed(Insert(h, b).mem, v.blocks, Insert(h, b).heads, v'.lists, loose - {b})
    ensures OnlyWrites(h.mem, Insert(h, b).mem, v.blocks)
  {
    hide PushMem, SizeClass, Links;
    var c := SizeClass(h.mem[b].size);
    var l := v.lists[c];
    ListFacts(h, v, loose, c);
    HeadsInMemory(h, v, loose);
    PushKeepsLinks(h.mem, h.heads[c], l, b);
    PushMemSame(h.mem, h.heads[c], b, v.blocks);
    HeadInList(h.mem, h.heads[c], l);
    PushWrites(h.mem, h.heads[c], b, v.blocks);
    v' := v.(lists := v.lists[c := [b] + l]);
    var h' := Insert(h, b);
    forall d | 0 <= d < CLASSES && d != c
      ensures Links(h'.mem, h.heads[d], v.lists[d])
    {
      PushOthers(h.mem, h.heads[c], l, b, h.heads[d], v.lists[d]);
    }
    ListedUpdate(h.mem, h'.mem, v.blocks, h.heads, v.lists, loose, c, b, [b] + l, loose - {b});
  }

  lemma PushMemSame(mem: Memory, head: nat, b: nat, blocks: set<nat>)
    requires blocks <= mem.Keys && b in mem && mem[b].free && (head != 0 ==> head in mem)
    ensures SameBlocks(mem, PushMem(mem, head, b), blocks)
  {
  }

  lemma InsertOk(h: Heap, v: View, loose: set<nat>, b: nat) returns (v': View)
    requires WellFormed(h, v, loose)
    requires b in v.blocks && b in loose && h.mem[b].free
    ensures |h.heads| == CLASSES
    ensures forall c :: 0 <= c < CLASSES && h.heads[c] != 0 ==> h.heads[c] in h.mem
    ensures v'.blocks == v.blocks && v'.seams == v.seams
    ensures SameBlocks(h.mem, Insert(h, b).mem, v.blocks)
    ensures WellFormed(Insert(h, b), v', loose - {b})
    ensures OnlyWrites(h.mem, Insert(h, b).mem, v.blocks)
  {
    hide PushMem, SizeClass, Listed, Tiled;
    TiledFacts(h.mem, v.blocks, h.end, h.last);
    v' := InsertListed(h, v, loose, b);
    PushMemSame(h.mem, h.heads[SizeClass(h.mem[b].size)], b, v.blocks);
    TiledFrame(h.mem, Insert(h, b).mem, v.blocks, h.end, h.last);
  }

  // ---------------------------------------------------------------- block steps

  /**
   * Cutting a loose block `b` down to `req` bytes; the rest becomes a free loose block.  The
   * block after it, if there is one, gets the rest as its left neighbour.
   */
  function Split(h: Heap, b: nat, req: nat): Heap
    requires b in h.mem && h.mem[b].size >= req + HEADER
    requires EndOf(h.mem, b) < h.end ==> EndOf(h.mem, b) in h.mem
  {
    var (rem, after) := (b + HEADER + req, EndOf(h.mem, b));
    var m1 := Place(h.mem, rem, Header(h.mem[b].size - HEADER - req, true, 0, 0, b));
    var m2 := if after < h.end then m1[after := m1[after].(physPrev := rem)] else m1;
    h.(mem := m2[b := m2[b].(size := req)], last := if after < h.end then h.last else rem)
  }

  /** The block after `b`, and the one after that if there is one, have headers. */
  predicate MergeReady(h: Heap, b: nat) {
    && b in h.mem && EndOf(h.mem, b) in h.mem
    && var after := EndOf(h.mem, EndOf(h.mem, b));
       after < h.end ==> after in h.mem
  }

  /** Merging a loose block `b` with the loose block to its right. */
  function Merge(h: Heap, b: nat): Heap
    requires MergeReady(h, b)
  {
    var n := EndOf(h.mem, b);
    var after := EndOf(h.mem, n);
    var m1 := h.mem[b := h.mem[b].(size := h.mem[b].size + HEADER + h.mem[n].size)];
    var m2 := if after < h.end then m1[after := m1[after].(physPrev := b)] else m1;
    h.(mem := m2, last := if after < h.end then h.last else b)
  }

  /** A free block of `size` bytes appended at the end of the heap, not yet in a list. */
  function Append(h: Heap, size: nat): Heap {
    h.(mem := Place(h.mem, h.end, Header(size, true, 0, 0, h.last)), last := h.end, end := h.end + HEADER + size)
  }

  /** What a split changes: one size, one left neighbour, one new header. */
  lemma SplitEffect(h: Heap, blocks: set<nat>, b: nat, req: nat)
    requires Tiled(h.mem, blocks, h.end, h.last) && b in blocks
    requires h.mem[b].size >= req + HEADER
    ensures EndOf(h.mem, b) < h.end ==> EndOf(h.mem, b) in h.mem
    ensures var (h', rem, after) := (Split(h, b, req), b + HEADER + req, EndOf(h.mem, b));
      && rem !in blocks && blocks + {rem} <= h'.mem.Keys
      && h'.mem[rem] == Header(h.mem[b].size - HEADER - req, true, 0, 0, b)
      && h'.end == h.end && h'.last == (if after < h.end then h.last else rem)
      && (forall x :: x in blocks ==> h'.mem[x] == h.mem[x].(
            size := if x == b then req else h.mem[x].size,
            physPrev := if x == after then rem else h.mem[x].physPrev))
  {
    var (h', rem, after) := (Split(h, b, req), b + HEADER + req, EndOf(h.mem, b));
    forall x | x in blocks
      ensures x != rem && x in h'.mem && !Overlap(x, rem)
      ensures h'.mem[x] == h.mem[x].(
        size := if x == b then req else h.mem[x].size,
        physPrev := if x == after then rem else h.mem[x].physPrev)
    {
      EndsAfter(h.mem, x);
      assert EndOf(h.mem, x) <= h.end;
    }
  }

  /** What a merge changes: one size and one left neighbour. */
  lemma MergeEffect(h: Heap, blocks: set<nat>, b: nat)
    requires Tiled(h.mem, blocks, h.end, h.last) && b in blocks && EndOf(h.mem, b) in blocks
    ensures MergeReady(h, b)
    ensures var (h', n) := (Merge(h, b), EndOf(h.mem, b));
      var after := EndOf(h.mem, n);
      && b < n < after && blocks <= h'.mem.Keys
      && h'.end == h.end && h'.last == (if after < h.end then h.last else b)
      && (forall x :: x in blocks ==> h'.mem[x] == h.mem[x].(
            size := if x == b then after - HEADER - b else h.mem[x].size,
            physPrev := if x == after then b else h.mem[x].physPrev))
  {
    hide Ordered, PrevOk, LastOk;
    BlockBounds(h.mem, blocks, h.end, b);
    BlockBounds(h.mem, blocks, h.end, EndOf(h.mem, b));
    BlocksBelow(h.mem, blocks, h.end);
  }

  lemma BlocksBelow(mem: Memory, blocks: set<nat>, end: nat)
    requires blocks <= mem.Keys && Ordered(mem, blocks, end)
    ensures forall x :: x in blocks ==> x < end
  {
    forall x | x in blocks
      ensures x < end
    {
      assert x < EndOf(mem, x) <= end;
    }
  }

  /** A block lies within the heap, is aligned, and ends at another or at the end. */
  lemma BlockBounds(mem: Memory, blocks: set<nat>, end: nat, b: nat)
    requires blocks <= mem.Keys && Ordered(mem, blocks, end) && b in blocks
    ensures HEAP_START <= b && b % 8 == 0 && mem[b].size % 8 == 0 && b < EndOf(mem, b) <= end
    ensures EndOf(mem, b) == end || EndOf(mem, b) in blocks
  {
    EndsAfter(mem, b);
  }

  lemma SplitTiled(h: Heap, blocks: set<nat>, b: nat, req: nat)
    requires Tiled(h.mem, blocks, h.end, h.last) && b in blocks
    requires h.mem[b].size >= req + HEADER && req % 8 == 0
    ensures EndOf(h.mem, b) < h.end ==> EndOf(h.mem, b) in h.mem
    ensures var (h', rem) := (Split(h, b, req), b + HEADER + req);
      rem !in blocks && Tiled(h'.mem, blocks + {rem}, h'.end, h'.last)
  {
    hide Split, Ordered;
    SplitEffect(h, blocks, b, req);
    var (h', rem, after) := (Split(h, b, req), b + HEADER + req, EndOf(h.mem, b));
    BlockBounds(h.mem, blocks, h.end, b);
    SizesAligned(b, h.mem[b].size, req);
    SplitSizes(h, h'.mem, blocks, b, req);
    SplitOrdered(h.mem, h'.mem, blocks, h.end, b, rem);
    SplitLast(h, h', blocks, b, rem);
    forall x | x in blocks + {rem}
      ensures PrevOk(h'.mem, blocks + {rem}, x)
    {
      SplitPrev(h.mem, h'.mem, blocks, b, rem, x);
    }
  }

  lemma SplitSizes(h: Heap, mem': Memory, blocks: set<nat>, b: nat, req: nat)
    requires b in h.mem && b in mem' && h.mem[b].size >= req + HEADER && b + HEADER + req in mem'
    requires mem'[b].size == req && mem'[b + HEADER + req].size == h.mem[b].size - HEADER - req
    ensures EndOf(mem', b) == b + HEADER + req && EndOf(mem', b + HEADER + req) == EndOf(h.mem, b)
    ensures b + HEADER + req + HEADER <= EndOf(h.mem, b)
  {
  }

  lemma SplitLast(h: Heap, h': Heap, blocks: set<nat>, b: nat, rem: nat)
    requires blocks <= h.mem.Keys && blocks + {rem} <= h'.mem.Keys && b in blocks
    requires LastOk(h.mem, blocks, h.end, h.last) && HEAP_START <= b < EndOf(h.mem, b) <= h.end && h'.end == h.end
    requires h'.last == if EndOf(h.mem, b) < h.end then h.last else rem
    requires EndOf(h'.mem, rem) == EndOf(h.mem, b)
    requires forall x :: x in blocks && x != b ==> h'.mem[x].size == h.mem[x].size
    ensures LastOk(h'.mem, blocks + {rem}, h'.end, h'.last)
  {
  }

  lemma SizesAligned(b: nat, size: nat, req: nat)
    requires b % 8 == 0 && size % 8 == 0 && req % 8 == 0 && size >= req + HEADER
    ensures (size - HEADER - req) % 8 == 0 && (b + HEADER + req) % 8 == 0
  {
    var (i, j, k) := (b / 8, size / 8, req / 8);
    assert b == 8 * i && size == 8 * j && req == 8 * k;
    ModIs(size - HEADER - req, j - 5 - k, 8, 0);
    ModIs(b + HEADER + req, i + 5 + k, 8, 0);
  }

  lemma SplitPrev(mem: Memory, mem': Memory, blocks: set<nat>, b: nat, rem: nat, x: nat)
    requires blocks <= mem.Keys && blocks + {rem} <= mem'.Keys && b in blocks && rem !in blocks
    requires x in blocks ==> PrevOk(mem, blocks, x)
    requires HEAP_START <= b < rem && x in blocks + {rem}
    requires EndOf(mem', b) == rem && EndOf(mem', rem) == EndOf(mem, b) && mem'[rem].physPrev == b
    requires forall y :: y in blocks ==>
      (y != b ==> mem'[y].size == mem[y].size) &&
      mem'[y].physPrev == if y == EndOf(mem, b) then rem else mem[y].physPrev
    ensures PrevOk(mem', blocks + {rem}, x)
  {
  }

  lemma SplitOrdered(mem: Memory, mem': Memory, blocks: set<nat>, end: nat, b: nat, rem: nat)
    requires blocks <= mem.Keys && blocks + {rem} <= mem'.Keys && Ordered(mem, blocks, end)
    requires b in blocks && b % 8 == 0 && rem !in blocks && rem % 8 == 0
    requires b + HEADER <= rem && rem + HEADER <= EndOf(mem, b)
    requires forall x :: x in blocks && x != b ==> mem'[x].size == mem[x].size
    requires EndOf(mem', b) == rem && EndOf(mem', rem) == EndOf(mem, b)
    requires mem'[b].size % 8 == 0 && mem'[rem].size % 8 == 0
    ensures Ordered(mem', blocks + {rem}, end)
  {
    assert forall x :: x in blocks && x != b ==> EndOf(mem', x) == EndOf(mem, x);
    hide EndOf;
    forall x, c | x in blocks + {rem} && c in blocks + {rem} && x < c
      ensures EndOf(mem', x) <= c
    {
      if x == rem || x == b {
        assert c == rem || EndOf(mem, b) <= c;
      } else if c == rem {
        assert x < b;
      }
    }
  }

  lemma MergeTiled(h: Heap, blocks: set<nat>, b: nat)
    requires Tiled(h.mem, blocks, h.end, h.last) && b in blocks && EndOf(h.mem, b) in blocks
    ensures MergeReady(h, b)
    ensures var (h', n) := (Merge(h, b), EndOf(h.mem, b));
      b != n && Tiled(h'.mem, blocks - {n}, h'.end, h'.last)
  {
    hide Merge, Ordered;
    MergeEffect(h, blocks, b);
    var (h', n) := (Merge(h, b), EndOf(h.mem, b));
    BlockBounds(h.mem, blocks, h.end, b);
    BlockBounds(h.mem, blocks, h.end, n);
    MergedAligned(b, h.mem[b].size, h.mem[n].size);
    MergeOrdered(h.mem, h'.mem, blocks, h.end, b, n);
    forall x | x in blocks - {n}
      ensures PrevOk(h'.mem, blocks - {n}, x)
    {
      assert PrevOk(h.mem, blocks, x);
    }
  }

  lemma MergedAligned(b: nat, size: nat, size': nat)
    requires size % 8 == 0 && size' % 8 == 0
    ensures (size + HEADER + size') % 8 == 0
  {
    var (i, j) := (size / 8, size' / 8);
    assert size == 8 * i && size' == 8 * j;
    ModIs(size + HEADER + size', i + 5 + j, 8, 0);
  }

  lemma MergeOrdered(mem: Memory, mem': Memory, blocks: set<nat>, end: nat, b: nat, n: nat)
    requires blocks <= mem.Keys && blocks <= mem'.Keys && Ordered(mem, blocks, end)
    requires b in blocks && n in blocks && b < n && EndOf(mem, b) == n
    requires forall x :: x in blocks && x != b ==> mem'[x].size == mem[x].size
    requires EndOf(mem', b) == EndOf(mem, n) && mem'[b].size % 8 == 0
    ensures Ordered(mem', blocks - {n}, end)
  {
    assert forall x :: x in blocks && x != b ==> EndOf(mem', x) == EndOf(mem, x);
    hide EndOf;
    forall x, c | x in blocks - {n} && c in blocks - {n} && x < c
      ensures EndOf(mem', x) <= c
    {
      NextToo(mem, blocks, end, if x == b then n else x, x, c);
    }
    forall x | x in blocks - {n}
      ensures EndOf(mem', x) == end || EndOf(mem', x) in blocks - {n}
    {
      SameEnd(mem, blocks, end, b, x);
      if x == b {
        assert EndOf(mem, n) == end || EndOf(mem, n) in blocks;
      } else {
        assert EndOf(mem, x) == end || EndOf(mem, x) in blocks;
      }
    }
  }

  lemma NextToo(mem: Memory, blocks: set<nat>, end: nat, n: nat, x: nat, c: nat)
    requires blocks <= mem.Keys && Ordered(mem, blocks, end) && {x, n, c} <= blocks
    requires x < c && c != n && (n == x || n == EndOf(mem, x))
    ensures EndOf(mem, n) <= c
  {
    assert EndOf(mem, x) <= c;
    assert n < c;
  }

  lemma SameEnd(mem: Memory, blocks: set<nat>, end: nat, b: nat, x: nat)
    requires blocks <= mem.Keys && Ordered(mem, blocks, end) && b in blocks && x in blocks
    ensures EndOf(mem, x) == EndOf(mem, b) ==> x == b
  {
    EndsAfter(mem, x);
    EndsAfter(mem, b);
  }

  lemma EndsAfter(mem: Memory, x: nat)
    requires x in mem
    ensures x < EndOf(mem, x)
  {
  }

  lemma AppendTiled(h: Heap, blocks: set<nat>, size: nat)
    requires Tiled(h.mem, blocks, h.end, h.last)
    requires (HEADER + size) % 4096 == 0 && h.end + HEADER + size < TWO_64
    ensures h.end !in blocks
    ensures var h' := Append(h, size); Tiled(h'.mem, blocks + {h.end}, h'.end, h'.last)
  {
    hide Ordered, EndOf;
    var h' := Append(h, size);
    PagesAligned(h.end, size);
    AppendPlaced(h, blocks, size);
    AppendOrdered(h.mem, h'.mem, blocks, h.end, size);
    forall x | x in blocks + {h.end}
      ensures PrevOk(h'.mem, blocks + {h.end}, x)
    {
      if x != h.end {
        assert PrevOk(h.mem, blocks, x);
      }
    }
  }

  /** The new header lies behind all blocks. */
  lemma AppendPlaced(h: Heap, blocks: set<nat>, size: nat)
    requires blocks <= h.mem.Keys && Ordered(h.mem, blocks, h.end)
    ensures var h' := Append(h, size);
      && blocks <= h'.mem.Keys && h.end !in blocks && h.end in h'.mem
      && h'.mem[h.end] == Header(size, true, 0, 0, h.last)
      && forall x :: x in blocks ==> h'.mem[x] == h.mem[x]
  {
    forall x | x in blocks
      ensures !Overlap(x, h.end)
    {
      assert EndOf(h.mem, x) <= h.end;
    }
    PlaceKeeps(h.mem, h.end, Header(size, true, 0, 0, h.last), blocks);
  }

  lemma PagesAligned(end: nat, size: nat)
    requires end % 4096 == 0 && (HEADER + size) % 4096 == 0
    ensures end % 8 == 0 && size % 8 == 0 && (end + HEADER + size) % 4096 == 0
  {
    var p, q := end / 4096, (HEADER + size) / 4096;
    PagesAlignedBy(end, size, p, q);
  }

  lemma PagesAlignedBy(end: nat, size: nat, p: nat, q: nat)
    requires end == 4096 * p && HEADER + size == 4096 * q
    ensures end % 8 == 0 && size % 8 == 0 && (end + HEADER + size) % 4096 == 0
  {
    ModIs(end, 512 * p, 8, 0);
    ModIs(size, 512 * q - 5, 8, 0);
    ModIs(end + HEADER + size, p + q, 4096, 0);
  }

  lemma AppendOrdered(mem: Memory, mem': Memory, blocks: set<nat>, end: nat, size: nat)
    requires blocks <= mem.Keys && Ordered(mem, blocks, end)
    requires end % 8 == 0 && size % 8 == 0 && HEAP_START <= end
    requires end in mem' && mem'[end].size == size
    requires forall x :: x in blocks ==> x in mem' && (x != end ==> mem'[x].size == mem[x].size)
    ensures end !in blocks && Ordered(mem', blocks + {end}, end + HEADER + size)
    ensures EndOf(mem', end) == end + HEADER + size
    ensures forall x :: x in blocks ==> x < end && EndOf(mem', x) == EndOf(mem, x)
  {
    forall x | x in blocks
      ensures x < EndOf(mem, x) <= end && EndOf(mem', x) == EndOf(mem, x)
    {
      EndsAfter(mem, x);
    }
    assert EndOf(mem', end) == end + HEADER + size;
    hide EndOf;
  }

  /** The free lists survive a change of the tiling that spares the listed blocks. */
  lemma ListedReblock(mem: Memory, mem': Memory, blocks: set<nat>, blocks': set<nat>,
                      heads: seq<nat>, lists: seq<seq<nat>>, loose: set<nat>, loose': set<nat>)
    requires blocks <= mem.Keys && blocks' <= mem'.Keys
    requires Listed(mem, blocks, heads, lists, loose)
    requires blocks - loose <= blocks' <= blocks + loose' && loose' <= loose + (blocks' - blocks)
    requires forall x :: x in blocks && x !in loose ==> mem'[x].(physPrev := 0) == mem[x].(physPrev := 0)
    requires forall x :: x in loose && x !in loose' && x in blocks' ==> !mem'[x].free
    ensures Listed(mem', blocks', heads, lists, loose')
  {
    hide SizeClass, Links;
    forall c | 0 <= c < CLASSES
      ensures Links(mem', heads[c], lists[c]) && OfClass(mem', blocks', lists[c], c)
      ensures forall x :: x in loose' ==> x !in lists[c]
    {
      assert OfClass(mem, blocks, lists[c], c);
      LinksFrame(mem, mem', heads[c], lists[c]);
    }
  }

  lemma SplitOk(h: Heap, v: View, loose: set<nat>, b: nat, req: nat) returns (v': View)
    requires WellFormed(h, v, loose) && b in v.blocks && b in loose
    requires h.mem[b].size >= req + HEADER && req % 8 == 0
    ensures EndOf(h.mem, b) < h.end ==> EndOf(h.mem, b) in h.mem
    ensures var rem := b + HEADER + req;
      rem !in v.blocks && v' == v.(blocks := v.blocks + {rem}) && WellFormed(Split(h, b, req), v', loose + {rem})
  {
    SplitTiled(h, v.blocks, b, req);
    SplitEffect(h, v.blocks, b, req);
    hide Split, Listed, Ordered;
    var rem := b + HEADER + req;
    v' := v.(blocks := v.blocks + {rem});
    SplitKeepsHeads(h, b, req);
    ListedReblock(h.mem, Split(h, b, req).mem, v.blocks, v'.blocks, h.heads, v.lists, loose, loose + {rem});
  }

  lemma SplitKeepsHeads(h: Heap, b: nat, req: nat)
    requires b in h.mem && h.mem[b].size >= req + HEADER
    requires EndOf(h.mem, b) < h.end ==> EndOf(h.mem, b) in h.mem
    ensures Split(h, b, req).heads == h.heads && Split(h, b, req).used == h.used && Split(h, b, req).end == h.end
  {
  }

  lemma MergeOk(h: Heap, v: View, loose: set<nat>, b: nat) returns (v': View)
    requires WellFormed(h, v, loose) && b in v.blocks && b in loose
    requires EndOf(h.mem, b) in v.blocks && EndOf(h.mem, b) in loose
    ensures MergeReady(h, b)
    ensures var n := EndOf(h.mem, b);
      b != n && v' == v.(blocks := v.blocks - {n}) && WellFormed(Merge(h, b), v', loose - {n})
  {
    MergeTiled(h, v.blocks, b);
    MergeEffect(h, v.blocks, b);
    MergeKeepsHeads(h, b);
    hide Merge, Listed, Ordered;
    var n := EndOf(h.mem, b);
    v' := v.(blocks := v.blocks - {n});
    ListedReblock(h.mem, Merge(h, b).mem, v.blocks, v'.blocks, h.heads, v.lists, loose, loose - {n});
  }

  lemma MergeKeepsHeads(h: Heap, b: nat)
    requires MergeReady(h, b)
    ensures Merge(h, b).heads == h.heads && Merge(h, b).used == h.used && Merge(h, b).end == h.end
  {
  }

  lemma AppendOk(h: Heap, v: View, size: nat) returns (v': View)
    requires WellFormed(h, v, {})
    requires (HEADER + size) % 4096 == 0 && h.end + HEADER + size < TWO_64
    ensures h.end !in v.blocks && v' == v.(blocks := v.blocks + {h.end})
    ensures WellFormed(Append(h, size), v', {h.end})
  {
    AppendTiled(h, v.blocks, size);
    AppendPlaced(h, v.blocks, size);
    hide Append;
    AppendKeepsHeads(h, size);
    hide Listed, Ordered;
    v' := v.(blocks := v.blocks + {h.end});
    ListedReblock(h.mem, Append(h, size).mem, v.blocks, v'.blocks, h.heads, v.lists, {}, {h.end});
  }

  lemma AppendKeepsHeads(h: Heap, size: nat)
    ensures Append(h, size).heads == h.heads && Append(h, size).used == h.used
    ensures Append(h, size).end == h.end + HEADER + size && Append(h, size).last == h.end
  {
  }
}
