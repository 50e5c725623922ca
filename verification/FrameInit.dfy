/** The frame bitmap as it is built from the memory map of the firmware. */
module FrameInit {
  import opened Common
  import opened FrameBitmap

  /** `efi_memory_desc_t`: whether the region is usable, where it starts and how many pages it has. */
  datatype Region = Region(usable: bool, start: nat, pages: nat)
  {
    function End(): nat {
      start + pages * 4096
    }

    /** The region begins at a page and ends within the 64-bit address space. */
    predicate Valid() {
      start % 4096 == 0 && End() + 4096 <= TWO_64
    }
  }

  predicate ValidMap(regions: seq<Region>) {
    forall i :: 0 <= i < |regions| ==> regions[i].Valid()
  }

  /** The end of the highest region. */
  function MaxPhys(regions: seq<Region>): (m: nat)
    ensures forall i :: 0 <= i < |regions| ==> regions[i].End() <= m
    ensures m == 0 || exists i :: 0 <= i < |regions| && m == regions[i].End()
  {
    if regions == [] then 0
    else
      var n := |regions| - 1;
      var m := MaxPhys(regions[..n]);
      if regions[n].End() > m then regions[n].End() else m
  }

  /** The pages of a bitmap for so many frames. */
  function BitmapPages(total: nat): nat {
    ((total + 63) / 8 + 4095) / 4096
  }

  /** The pages hold the words of the bitmap, 64 frames each, and hardly more. */
  lemma BitmapFits(total: nat)
    ensures 8 * ((total + 63) / 64) <= BitmapPages(total) * 4096 < 8 * ((total + 63) / 64) + 8 + 4096
  {
  }

  /** The first usable region with room for the bitmap. */
  predicate HoldsBitmap(regions: seq<Region>, needed: nat, i: int) {
    && 0 <= i < |regions| && regions[i].usable && regions[i].pages >= needed
    && forall j :: 0 <= j < i ==> !(regions[j].usable && regions[j].pages >= needed)
  }

  predicate InRegion(r: Region, f: nat) {
    r.usable && r.start / 4096 <= f < r.start / 4096 + r.pages
  }

  /** The frames of a region from frame `from` on, none when it is not usable. */
  ghost function RegionFrames(r: Region, from: nat): set<nat> {
    if !r.usable then {}
    else Range(if from <= r.start / 4096 then r.start / 4096 else from, r.start / 4096 + r.pages)
  }

  /** The frames of the usable regions from frame `from` on. */
  ghost function UsableFrames(regions: seq<Region>, from: nat): set<nat> {
    if regions == [] then {}
    else UsableFrames(regions[..|regions| - 1], from) + RegionFrames(regions[|regions| - 1], from)
  }

  lemma {:induction false} UsableIs(regions: seq<Region>, from: nat, f: nat)
    ensures f in UsableFrames(regions, from) <==> from <= f && exists i :: 0 <= i < |regions| && InRegion(regions[i], f)
    decreases |regions|
  {
    if regions != [] {
      var n := |regions| - 1;
      UsableIs(regions[..n], from, f);
      assert f in RegionFrames(regions[n], from) <==> from <= f && InRegion(regions[n], f);
      assert forall i :: 0 <= i < n ==> regions[..n][i] == regions[i];
    }
  }

  lemma UsableNext(regions: seq<Region>, n: nat, from: nat)
    requires n < |regions|
    ensures UsableFrames(regions[..n + 1], from) == UsableFrames(regions[..n], from) + RegionFrames(regions[n], from)
  {
    assert regions[..n + 1][..n] == regions[..n];
  }

  /** The loop over the regions for the highest address. */
  method FindMax(regions: seq<Region>) returns (m: nat)
    ensures m == MaxPhys(regions)
  {
    m := 0;
    for i := 0 to |regions|
      invariant m == MaxPhys(regions[..i])
    {
      assert regions[..i + 1][..i] == regions[..i];
      if regions[i].End() > m {
        m := regions[i].End();
      }
    }
    assert regions[..|regions|] == regions;
  }

  /** `efi_find_bitmap_region`; the addresses are page-aligned, so that rounding them up changes nothing. */
  method FindBitmapRegion(regions: seq<Region>, needed: nat) returns (r: Option<nat>)
    ensures r.Some? ==> exists i :: 0 <= i < |regions| && HoldsBitmap(regions, needed, i) && r.value == regions[i].start
    ensures r.None? ==> forall i :: 0 <= i < |regions| ==> !(regions[i].usable && regions[i].pages >= needed)
  {
    for i := 0 to |regions|
      invariant forall j :: 0 <= j < i ==> !(regions[j].usable && regions[j].pages >= needed)
    {
      if regions[i].usable && regions[i].pages >= needed {
        assert HoldsBitmap(regions, needed, i);
        return Some(regions[i].start);
      }
    }
    return None;
  }

  /**
   * `pmm_init_from_efi`.  Free are the usable frames behind the bitmap, and the frames of the
   * bitmap itself, which the code marks free and does not count.
   */
  method PmmInit(regions: seq<Region>) returns (pmm: Pmm, code: int, ghost bitmap: nat)
    requires ValidMap(regions)
    ensures pmm.Valid() && pmm.totalFrames == MaxPhys(regions) / 4096
    ensures var needed := BitmapPages(pmm.totalFrames);
      if code == 0 then
        && (exists i :: 0 <= i < |regions| && HoldsBitmap(regions, needed, i) && bitmap * 4096 == regions[i].start)
        && bitmap + needed <= pmm.totalFrames
        && pmm.Free() == Range(bitmap, bitmap + needed) + UsableFrames(regions, bitmap + needed)
        && pmm.freeFrames == |pmm.Free()| - needed
      else code == -1 && forall i :: 0 <= i < |regions| ==> !(regions[i].usable && regions[i].pages >= needed)
  {
    hide UsableFrames, RegionFrames, Pmm.Test, Pmm.Free, Range, HoldsBitmap, MaxPhys, BitmapPages;
    var maxPhys := FindMax(regions);
    MaxAligned(regions);
    pmm := new Pmm((maxPhys + 4095) / 4096);
    code, bitmap := -1, 0;
    var needed := BitmapPages(pmm.totalFrames);
    var region := FindBitmapRegion(regions, needed);
    if region.None? {
      return;
    }
    code := 0;
    ghost var at :| 0 <= at < |regions| && HoldsBitmap(regions, needed, at) && region.value == regions[at].start;
    var first := region.value / 4096;
    bitmap := first;
    BitmapInside(regions, needed, at);
    ClearBitmap(pmm, first, needed);
    FreeRegions(pmm, regions, first + needed);
  }

  lemma BitmapInside(regions: seq<Region>, needed: nat, i: int)
    requires ValidMap(regions) && HoldsBitmap(regions, needed, i)
    ensures regions[i].start / 4096 + needed <= MaxPhys(regions) / 4096
    ensures regions[i].start / 4096 * 4096 == regions[i].start
  {
    hide MaxPhys;
    RegionInside(regions, i);
  }

  /** The loop that marks the frames of the bitmap free. */
  method ClearBitmap(pmm: Pmm, first: nat, needed: nat)
    requires pmm.Valid() && first + needed <= pmm.totalFrames && pmm.Free() == {} && pmm.freeFrames == 0
    modifies pmm.words
    ensures pmm.Free() == Range(first, first + needed) && pmm.freeFrames == |pmm.Free()| - needed
  {
    hide Pmm.Test, Pmm.Free, Range;
    for i := 0 to needed
      invariant pmm.Free() == Range(first, first + i)
    {
      pmm.ClearBit(first + i);
      assert Range(first, first + i) + {first + i} == Range(first, first + i + 1);
    }
    RangeSize(first, first + needed);
  }

  /** The loop over the regions. */
  method FreeRegions(pmm: Pmm, regions: seq<Region>, from: nat)
    requires pmm.Valid() && ValidMap(regions) && pmm.totalFrames == MaxPhys(regions) / 4096
    modifies pmm`freeFrames, pmm.words
    ensures pmm.Free() == old(pmm.Free()) + UsableFrames(regions, from)
    ensures pmm.freeFrames == old(pmm.freeFrames) + |pmm.Free()| - |old(pmm.Free())|
  {
    hide UsableFrames, RegionFrames, Pmm.Test, Pmm.Free, Range, MaxPhys;
    NoRegions(regions, from);
    for i := 0 to |regions|
      invariant pmm.Free() == old(pmm.Free()) + UsableFrames(regions[..i], from)
      invariant pmm.freeFrames == old(pmm.freeFrames) + |pmm.Free()| - |old(pmm.Free())|
    {
      RegionInside(regions, i);
      UsableNext(regions, i, from);
      FreeRegion(pmm, regions[i], from);
      SumOfThree(old(pmm.Free()), UsableFrames(regions[..i], from), RegionFrames(regions[i], from));
    }
    assert regions[..|regions|] == regions;
  }

  /** One round of that loop. */
  method FreeRegion(pmm: Pmm, r: Region, from: nat)
    requires pmm.Valid() && r.Valid() && r.start / 4096 + r.pages <= pmm.totalFrames
    modifies pmm`freeFrames, pmm.words
    ensures pmm.Free() == old(pmm.Free()) + RegionFrames(r, from)
    ensures pmm.freeFrames == old(pmm.freeFrames) + |pmm.Free()| - |old(pmm.Free())|
  {
    hide RegionFrames, Pmm.Test, Pmm.Free, Range;
    if r.usable {
      var startIdx := r.start / 4096;
      if startIdx + r.pages <= pmm.totalFrames {
        FreePages(pmm, r.start, r.pages, from);
        assert Region(true, r.start, r.pages) == r;
      }
    } else {
      RegionNone(r, from);
    }
  }

  /** The inner loop: the pages of a usable region from frame `from` on become free, each counted once. */
  method FreePages(pmm: Pmm, start: nat, pages: nat, from: nat)
    requires pmm.Valid() && start % 4096 == 0 && start / 4096 + pages <= pmm.totalFrames
    modifies pmm`freeFrames, pmm.words
    ensures pmm.Free() == old(pmm.Free()) + RegionFrames(Region(true, start, pages), from)
    ensures pmm.freeFrames == old(pmm.freeFrames) + |pmm.Free()| - |old(pmm.Free())|
  {
    hide RegionFrames, Pmm.Test, Pmm.Free, Range;
    RegionNone(Region(true, start, 0), from);
    for p := 0 to pages
      invariant pmm.Free() == old(pmm.Free()) + RegionFrames(Region(true, start, p), from)
      invariant pmm.freeFrames == old(pmm.freeFrames) + |pmm.Free()| - |old(pmm.Free())|
    {
      RegionMore(start, p, from);
      PageAddress(start, p);
      var frame := start + p * 4096;
      if frame >= from * 4096 {
        pmm.FreeOne(frame / 4096);
        SumOfThree(old(pmm.Free()), RegionFrames(Region(true, start, p), from), {frame / 4096});
      }
    }
  }

  lemma PageAddress(start: nat, p: nat)
    requires start % 4096 == 0
    ensures (start + p * 4096) / 4096 == start / 4096 + p
  {
  }

  lemma SumOfThree(a: set<nat>, b: set<nat>, c: set<nat>)
    ensures (a + b) + c == a + (b + c)
  {
  }

  lemma RegionNone(r: Region, from: nat)
    requires !r.usable || r.pages == 0
    ensures RegionFrames(r, from) == {}
  {
  }

  /** One more frame of a region. */
  lemma RegionMore(start: nat, p: nat, from: nat)
    requires start % 4096 == 0
    ensures start + p * 4096 >= from * 4096 <==> start / 4096 + p >= from
    ensures RegionFrames(Region(true, start, p + 1), from) ==
      RegionFrames(Region(true, start, p), from) + if start / 4096 + p >= from then {start / 4096 + p} else {}
  {
    assert start == start / 4096 * 4096;
  }

  lemma NoRegions(regions: seq<Region>, from: nat)
    ensures UsableFrames(regions[..0], from) == {}
  {
  }

  lemma MaxAligned(regions: seq<Region>)
    requires ValidMap(regions)
    ensures (MaxPhys(regions) + 4095) / 4096 == MaxPhys(regions) / 4096
  {
    var m := MaxPhys(regions);
    if m != 0 {
      var i :| 0 <= i < |regions| && m == regions[i].End();
      ModIs(m, regions[i].start / 4096 + regions[i].pages, 4096, 0);
    }
  }

  lemma RegionInside(regions: seq<Region>, i: nat)
    requires ValidMap(regions) && i < |regions|
    ensures regions[i].start / 4096 + regions[i].pages <= MaxPhys(regions) / 4096
    ensures regions[i].start / 4096 * 4096 == regions[i].start
  {
    var (r, m) := (regions[i], MaxPhys(regions));
    assert r.Valid() && r.End() <= m;
    assert r.start == r.start / 4096 * 4096;
    assert (r.start / 4096 + r.pages) * 4096 <= m;
  }

  /**
   * The bitmap does not lie in frames that are in use: the first frame that is allocated is
   * the first frame of the bitmap itself.
   */
  lemma BitmapIsFree(regions: seq<Region>, total: nat, bitmap: nat, free: set<nat>, r: Option<nat>)
    requires total > 0 && free == Range(bitmap, bitmap + BitmapPages(total)) + UsableFrames(regions, bitmap + BitmapPages(total))
    requires LeastAligned(free, 0, 1, r)
    ensures Range(bitmap, bitmap + BitmapPages(total)) <= free && r == Some(bitmap)
  {
    hide UsableFrames;
    var needed := BitmapPages(total);
    assert needed > 0;
    var usable := UsableFrames(regions, bitmap + needed);
    forall f | f in usable
      ensures f >= bitmap
    {
      UsableIs(regions, bitmap + needed, f);
    }
    assert bitmap in Range(bitmap, bitmap + BitmapPages(total));
    LeastOfAll(free, 0, r);
  }
}
