/**
 * The physical frame allocator: a bitmap of 64-bit words, one bit per 4 KiB frame, set
 * when the frame is in use.  A word is modelled by its 64 bits, least significant first.
 */
module FrameBitmap {
  import opened Common

  type Word = s: seq<bool> | |s| == 64 witness seq(64, _ => false)

  /** The words 0 and ~0. */
  function Fill(b: bool): (r: Word)
    ensures forall i :: 0 <= i < 64 ==> r[i] == b
  {
    seq(64, _ => b)
  }

  function Not(a: Word): Word {
    seq(64, i requires 0 <= i < 64 => !a[i])
  }

  function Or(a: Word, b: Word): Word {
    seq(64, i requires 0 <= i < 64 => a[i] || b[i])
  }

  function And(a: Word, b: Word): Word {
    seq(64, i requires 0 <= i < 64 => a[i] && b[i])
  }

  function ShiftLeft(a: Word, k: nat): Word {
    seq(64, i requires 0 <= i < 64 => k <= i && a[i - k])
  }

  /** The word 1 << k. */
  function Bit(k: nat): Word {
    ShiftLeft(Fill(false)[0 := true], k)
  }

  /** `__builtin_ctzll`: the number of zero bits below the lowest set bit. */
  function TrailingZeros(a: Word): (n: nat)
    requires a != Fill(false)
    ensures n < 64 && a[n]
    ensures forall i :: 0 <= i < n ==> !a[i]
  {
    TrailingZerosFrom(a, 0)
  }

  function TrailingZerosFrom(a: Word, k: nat): (n: nat)
    requires a != Fill(false) && k < 64
    requires forall i :: 0 <= i < k ==> !a[i]
    ensures n < 64 && a[n]
    ensures forall i :: 0 <= i < n ==> !a[i]
    decreases 64 - k
  {
    if a[k] then k
    else
      assert k == 63 ==> a == Fill(false);
      TrailingZerosFrom(a, k + 1)
  }

  predicate PowerOfTwoOrZero(n: nat) {
    n <= 1 || (n % 2 == 0 && PowerOfTwoOrZero(n / 2))
  }

  /** Rounding up to a multiple of a positive alignment. */
  method AlignUp(n: nat, align: nat) returns (r: nat)
    requires align > 0
    ensures n <= r < n + align && r % align == 0
    ensures align == 1 || n == 0 ==> r == n
  {
    r := (n + align - 1) / align * align;
    assert n + align - 1 == (n + align - 1) / align * align + (n + align - 1) % align;
    MultipleModulo((n + align - 1) / align, align);
  }

  lemma MultipleModulo(q: nat, a: nat)
    requires a > 0
    ensures q * a % a == 0
  {
    var d := q - q * a / a;
    assert q * a % a == d * a by {
      assert q * a == q * a / a * a + q * a % a;
    }
    MultipleBound(d, a);
  }

  lemma MultipleBound(d: int, a: int)
    requires a > 0
    ensures d >= 1 ==> d * a >= a
    ensures d <= -1 ==> d * a <= -a
  {
  }

  /** Rounding up gives the least multiple. */
  lemma LeastMultiple(n: nat, align: nat, r: nat, m: nat)
    requires align > 0 && n <= r < n + align && r % align == 0
    requires n <= m && m % align == 0
    ensures r <= m
  {
    if m < r {
      var (q, p) := (r / align, m / align);
      assert r == q * align && m == p * align;
      assert (q - p) * align == r - m;
      MultipleBound(q - p, align);
    }
  }

  /** The `n` frames from `s` on are free. */
  ghost predicate HasRun(free: set<nat>, s: nat, n: nat) {
    forall i :: s <= i < s + n ==> i in free
  }

  /** No `n` consecutive frames from `lo` on are free. */
  ghost predicate NoRun(free: set<nat>, lo: nat, n: nat) {
    forall s: nat :: lo <= s ==> !HasRun(free, s, n)
  }

  /**
   * How many frames of a run the search can pass: it skips the whole of a candidate range that
   * is not free.  Without alignment the candidate is free itself, so that one in front of the
   * run ends at least two frames earlier.
   */
  function Passed(count: nat, align: nat): nat
    requires count > 0 && align > 0
  {
    if align == 1 && count > 1 then count - 2 else count - 1
  }

  /** The length of a run of free frames that no search for `count` aligned frames misses. */
  function SureRun(count: nat, align: nat): nat
    requires count > 0 && align > 0
  {
    Passed(count, align) + count + align - 1
  }

  /** The search, now at `idx`, has not passed more than that of any such run. */
  ghost predicate RunsAhead(free: set<nat>, lo: nat, count: nat, align: nat, idx: nat)
    requires count > 0 && align > 0
  {
    forall s: nat :: lo <= s && HasRun(free, s, SureRun(count, align)) ==> idx <= s + Passed(count, align)
  }

  /** `aligned` is the candidate of the search at `idx`: the least free frame, rounded up. */
  ghost predicate Candidate(free: set<nat>, idx: nat, align: nat, cand: nat, aligned: nat)
    requires align > 0
  {
    && idx <= cand && cand in free && (forall i :: idx <= i < cand ==> i !in free)
    && cand <= aligned < cand + align && aligned % align == 0
  }

  /** A candidate range that is not free lies before every long run. */
  lemma RunsAheadNext(free: set<nat>, lo: nat, count: nat, align: nat, idx: nat, cand: nat, aligned: nat)
    requires count > 0 && align > 0 && RunsAhead(free, lo, count, align, idx)
    requires Candidate(free, idx, align, cand, aligned) && !(Range(aligned, aligned + count) <= free)
    ensures RunsAhead(free, lo, count, align, aligned + count)
  {
    forall s: nat | lo <= s && HasRun(free, s, SureRun(count, align))
      ensures aligned + count <= s + Passed(count, align)
    {
      RunBound(free, lo, count, align, idx, cand, aligned, s);
      if align == 1 && count > 1 && aligned + 1 == s {
        NextToRun(free, s, SureRun(count, align), aligned, count);
        assert false;
      }
    }
  }

  lemma NextToRun(free: set<nat>, s: nat, n: nat, f: nat, count: nat)
    requires HasRun(free, s, n) && f in free && f + 1 == s && count <= n + 1
    ensures Range(f, f + count) <= free
  {
  }

  lemma RunBound(free: set<nat>, lo: nat, count: nat, align: nat, idx: nat, cand: nat, aligned: nat, s: nat)
    requires count > 0 && align > 0 && RunsAhead(free, lo, count, align, idx)
    requires Candidate(free, idx, align, cand, aligned)
    requires lo <= s && HasRun(free, s, SureRun(count, align))
    ensures aligned + count <= s + SureRun(count, align)
    ensures aligned >= s ==> Range(aligned, aligned + count) <= free
  {
    var m := if idx <= s then s else idx;
    assert m in free;
  }

  /** Where the search gives up, no long run is left. */
  lemma SearchGivesUp(free: set<nat>, limit: nat, lo: nat, count: nat, align: nat, idx: nat)
    requires count > 0 && align > 0 && RunsAhead(free, lo, count, align, idx)
    requires forall i :: i in free ==> i < limit
    requires idx + count > limit || forall i: nat :: idx <= i < limit ==> i !in free
    ensures NoRun(free, lo, SureRun(count, align))
  {
    forall s: nat | lo <= s
      ensures !HasRun(free, s, SureRun(count, align))
    {
      if HasRun(free, s, SureRun(count, align)) {
        RunHolds(free, s, SureRun(count, align), if idx <= s then s else idx);
        assert false;
      }
    }
  }

  lemma RunHolds(free: set<nat>, s: nat, n: nat, m: nat)
    requires HasRun(free, s, n) && s <= m < s + n
    ensures m in free && s + n - 1 in free
  {
  }

  lemma CandidateTooLate(free: set<nat>, limit: nat, lo: nat, count: nat, align: nat, idx: nat, cand: nat, aligned: nat)
    requires count > 0 && align > 0 && RunsAhead(free, lo, count, align, idx)
    requires forall i :: i in free ==> i < limit
    requires Candidate(free, idx, align, cand, aligned) && aligned + count > limit
    ensures NoRun(free, lo, SureRun(count, align))
  {
    forall s: nat | lo <= s
      ensures !HasRun(free, s, SureRun(count, align))
    {
      if HasRun(free, s, SureRun(count, align)) {
        RunBound(free, lo, count, align, idx, cand, aligned, s);
        RunHolds(free, s, SureRun(count, align), s);
        assert false;
      }
    }
  }

  /** `r` is the least aligned free frame from `lo` on, if there is one. */
  ghost predicate LeastAligned(free: set<nat>, lo: nat, align: nat, r: Option<nat>)
    requires align > 0
  {
    match r
    case None => forall i :: i in free && lo <= i ==> i % align != 0
    case Some(f) =>
      f in free && lo <= f && f % align == 0 && forall i :: i in free && lo <= i && i % align == 0 ==> f <= i
  }

  /**
   * When a search for `count` aligned frames from `lo` on succeeds: from frame 0 on, it takes
   * the range that starts there exactly when that is free; it takes the lowest aligned frame
   * for a single-frame request; and it gives up only when no long run of free frames is left.
   */
  ghost predicate Searched(free: set<nat>, lo: nat, count: nat, align: nat, r: Option<nat>)
    requires count > 0 && align > 0
  {
    && (lo == 0 ==> (r == Some(0) <==> Range(0, count) <= free))
    && (r.None? ==> NoRun(free, lo, SureRun(count, align)))
    && (count == 1 ==> LeastAligned(free, lo, align, r))
  }

  /** The search has come to `idx` without finding a range. */
  ghost predicate Searching(free: set<nat>, limit: nat, lo: nat, count: nat, align: nat, idx: nat)
    requires count > 0 && align > 0
  {
    && lo <= idx && (forall i :: i in free ==> i < limit)
    && RunsAhead(free, lo, count, align, idx)
    && (lo == 0 < idx ==> !(Range(0, count) <= free))
    && (count == 1 ==> forall i :: i in free && lo <= i && i % align == 0 ==> idx <= i)
  }

  lemma SearchBegins(free: set<nat>, limit: nat, lo: nat, count: nat, align: nat)
    requires count > 0 && align > 0 && forall i :: i in free ==> i < limit
    ensures Searching(free, limit, lo, count, align, lo)
  {
  }

  /** The search gives up: nothing is free from `idx` on, or too little is left. */
  lemma SearchFails(free: set<nat>, limit: nat, lo: nat, count: nat, align: nat, idx: nat)
    requires count > 0 && align > 0 && Searching(free, limit, lo, count, align, idx)
    requires idx + count > limit || forall i: nat :: idx <= i < limit ==> i !in free
    ensures Searched(free, lo, count, align, None)
  {
    hide HasRun, NoRun, RunsAhead;
    SearchGivesUp(free, limit, lo, count, align, idx);
    ZeroHolds(free, count);
  }

  /** The search gives up because the candidate leaves too little room. */
  lemma SearchEnds(free: set<nat>, limit: nat, lo: nat, count: nat, align: nat, idx: nat, cand: nat, aligned: nat)
    requires count > 0 && align > 0 && Searching(free, limit, lo, count, align, idx)
    requires Candidate(free, idx, align, cand, aligned) && aligned + count > limit
    ensures Searched(free, lo, count, align, None)
  {
    hide HasRun, NoRun, RunsAhead;
    CandidateTooLate(free, limit, lo, count, align, idx, cand, aligned);
    CandidateLeast(free, idx, align, cand, aligned);
    if idx == 0 {
      ZeroBegins(free, count, align, cand, aligned);
    }
    ZeroHolds(free, count);
  }

  /** The candidate is free: it is taken. */
  lemma SearchSucceeds(free: set<nat>, limit: nat, lo: nat, count: nat, align: nat, idx: nat, cand: nat, aligned: nat)
    requires count > 0 && align > 0 && Searching(free, limit, lo, count, align, idx)
    requires Candidate(free, idx, align, cand, aligned) && Range(aligned, aligned + count) <= free
    ensures Searched(free, lo, count, align, Some(aligned))
  {
    hide RunsAhead;
    CandidateLeast(free, idx, align, cand, aligned);
    if idx == 0 {
      ZeroBegins(free, count, align, cand, aligned);
    }
    assert aligned in Range(aligned, aligned + count);
  }

  /** The candidate is not free: the search goes on behind it. */
  lemma SearchGoesOn(free: set<nat>, limit: nat, lo: nat, count: nat, align: nat, idx: nat, cand: nat, aligned: nat)
    requires count > 0 && align > 0 && Searching(free, limit, lo, count, align, idx)
    requires Candidate(free, idx, align, cand, aligned) && !(Range(aligned, aligned + count) <= free)
    ensures Searching(free, limit, lo, count, align, aligned + count)
  {
    hide HasRun, RunsAhead;
    RunsAheadNext(free, lo, count, align, idx, cand, aligned);
    CandidateLeast(free, idx, align, cand, aligned);
    if idx == 0 {
      ZeroBegins(free, count, align, cand, aligned);
    }
    assert count == 1 ==> aligned !in free;
  }

  lemma ZeroHolds(free: set<nat>, count: nat)
    requires count > 0
    ensures Range(0, count) <= free ==> 0 in free && count - 1 in free
  {
    assert 0 in Range(0, count) && count - 1 in Range(0, count);
  }

  /** Where frame 0 begins a free range, that range is the first candidate. */
  lemma ZeroBegins(free: set<nat>, count: nat, align: nat, cand: nat, aligned: nat)
    requires count > 0 && align > 0 && Candidate(free, 0, align, cand, aligned)
    ensures Range(0, count) <= free ==> aligned == 0
  {
    if Range(0, count) <= free {
      assert 0 in Range(0, count);
    }
  }

  /** No aligned free frame lies between the start of the search and its candidate. */
  lemma CandidateLeast(free: set<nat>, idx: nat, align: nat, cand: nat, aligned: nat)
    requires align > 0 && Candidate(free, idx, align, cand, aligned)
    ensures forall i :: i in free && idx <= i && i % align == 0 ==> aligned <= i
  {
    forall i | i in free && idx <= i && i % align == 0
      ensures aligned <= i
    {
      LeastMultiple(cand, align, aligned, i);
    }
  }

  lemma LeastOfAll(free: set<nat>, lo: nat, r: Option<nat>)
    requires LeastAligned(free, lo, 1, r)
    ensures r.None? <==> forall i :: i in free ==> i < lo
    ensures r.Some? ==> forall i :: i in free && lo <= i ==> r.value <= i
  {
    forall i | i in free && lo <= i
      ensures r.Some? && r.value <= i
    {
      assert i % 1 == 0;
    }
  }

  /**
   * What a search that starts with the frames `free` (counted by `n`) and ends with the frames
   * `free'` (counted by `n'`) promises about the range `r` of `count` frames it returns.
   */
  ghost predicate Took(free: set<nat>, n: int, free': set<nat>, n': int, r: Option<nat>, count: nat, align: nat)
    requires align > 0
  {
    if r.None? then free' == free && n' == n
    else
      && r.value % align == 0
      && Range(r.value, r.value + count) <= free
      && free' == free - Range(r.value, r.value + count)
      && n' == n + |free'| - |free|
  }

  /** The first frame at or above a physical address; the rounding is a 64-bit sum. */
  function MinFrame(minPhys: nat): (r: nat)
    ensures minPhys + 4095 < TWO_64 ==> minPhys <= r * 4096 < minPhys + 4096
    ensures TWO_64 <= minPhys + 4095 && minPhys < TWO_64 ==> r == 0
  {
    Wrap(minPhys + 4095) / 4096
  }

  /**
   * The guard of the search rules out a range that the bitmap does not hold: the sum of frame
   * and count does not wrap, or comes out too large even so, or there are frames but none to find.
   */
  ghost predicate GuardHolds(free: set<nat>, limit: nat, lo: nat, count: nat) {
    lo + count < TWO_64 || Wrap(lo + count) > limit || (limit > 0 && forall i :: i in free ==> i < lo)
  }

  /** Where the search finds a candidate, no sum has wrapped. */
  lemma GuardPasses(free: set<nat>, limit: nat, lo: nat, count: nat, idx: nat, cand: nat)
    requires GuardHolds(free, limit, lo, count) && limit <= TWO_64 / 4096 && 0 < count < TWO_64
    requires Wrap(idx + count) <= limit && (idx == lo || idx + count <= 2 * limit) && lo <= cand && cand in free
    ensures idx + count < TWO_64 && idx + count <= limit
  {
  }

  lemma GuardEnters(free: set<nat>, limit: nat, lo: nat, count: nat, idx: nat)
    requires GuardHolds(free, limit, lo, count) && Wrap(idx + count) <= limit && (idx == lo || idx + count <= 2 * limit)
    requires count > 0
    ensures limit > 0
  {
  }

  lemma WrapBelow(x: nat)
    ensures Wrap(x) <= x
  {
  }

  /**
   * Otherwise the guard passes for more frames than there are, and the search goes on to test
   * a range that does not end within the bitmap; so it does for 2^64 - 1 frames from frame 1 on.
   */
  lemma GuardFails(free: set<nat>, limit: nat, lo: nat, count: nat)
    requires lo <= limit <= TWO_64 / 4096 && 0 < count < TWO_64
    ensures !GuardHolds(free, limit, lo, count) <==>
      lo + count > limit && Wrap(lo + count) <= limit && (limit == 0 || exists i :: i in free && lo <= i)
    ensures limit >= 1 && 1 in free ==> !GuardHolds(free, limit, 1, TWO_64 - 1)
  {
    assert lo + count < 2 * TWO_64;
  }

  lemma RemovedSize(free: set<nat>, base: nat, count: nat)
    requires Range(base, base + count) <= free
    ensures |free - Range(base, base + count)| == |free| - count
  {
    hide Range;
    RangeSize(base, base + count);
    assert free == (free - Range(base, base + count)) + Range(base, base + count);
  }

  lemma TookOne(free: set<nat>, n: int, free': set<nat>, n': int, r: Option<nat>)
    requires Took(free, n, free', n', r, 1, 1)
    ensures r.None? ==> free' == free && n' == n
    ensures r.Some? ==> r.value in free && free' == free - {r.value} && |free'| == |free| - 1 && n' == n - 1
  {
    if r.Some? {
      assert r.value in Range(r.value, r.value + 1);
      assert free' == free - {r.value};
    }
  }

  class Pmm {
    const words: array<Word>
    const totalFrames: nat
    var freeFrames: int  // the size_t of the source holds this value modulo 2^64

    ghost predicate Valid() {
      words.Length == (totalFrames + 63) / 64
    }

    /** A bitmap in which every frame is used. */
    constructor (total: nat)
      ensures Valid() && totalFrames == total && freeFrames == 0 && Free() == {} && fresh(words)
    {
      totalFrames, freeFrames := total, 0;
      words := new Word[(total + 63) / 64](_ => Fill(true));
    }

    /** `pmm_test`. */
    predicate Test(idx: nat)
      requires idx / 64 < words.Length
      reads words
    {
      words[idx / 64][idx % 64]
    }

    /** The abstract state: the set of frames whose bit is clear. */
    ghost function Free(): (s: set<nat>)
      requires Valid()
      reads words
      ensures forall i :: i in s ==> i < totalFrames
    {
      set i | 0 <= i < totalFrames && !Test(i)
    }

    method SetBit(idx: nat)
      requires Valid() && idx < totalFrames
      modifies words
      ensures Free() == old(Free()) - {idx}
    {
      words[idx / 64] := Or(words[idx / 64], Bit(idx % 64));
      forall i | 0 <= i < totalFrames
        ensures Test(i) <==> old(Test(i)) || i == idx
      {
        assert i / 64 == idx / 64 && i % 64 == idx % 64 ==> i == idx;
      }
    }

    method ClearBit(idx: nat)
      requires Valid() && idx < totalFrames
      modifies words
      ensures Free() == old(Free()) + {idx}
    {
      words[idx / 64] := And(words[idx / 64], Not(Bit(idx % 64)));
      forall i | 0 <= i < totalFrames
        ensures Test(i) <==> old(Test(i)) && i != idx
      {
        assert i / 64 == idx / 64 && i % 64 == idx % 64 ==> i == idx;
      }
    }

    /** The least free frame in [start, limit), found a word at a time. */
    method FindNextZero(start: nat, limit: nat) returns (r: Option<nat>)
      requires Valid() && 0 < limit <= totalFrames
      ensures r.Some? ==> start <= r.value < limit && r.value in Free()
      ensures r.Some? ==> forall i :: start <= i < r.value ==> i !in Free()
      ensures r.None? ==> forall i :: start <= i < limit ==> i !in Free()
    {
      var w, wLimit := start / 64, (limit - 1) / 64 + 1;
      var skipMask := Not(ShiftLeft(Fill(true), start % 64));
      while w < wLimit
        invariant start / 64 <= w
        invariant forall b :: 0 <= b < 64 ==> (skipMask[b] <==> w * 64 + b < start)
        invariant forall i :: start <= i < limit && i / 64 < w ==> i !in Free()
      {
        var val := Or(words[w], skipMask);
        if val != Fill(true) {
          assert Not(val) != Fill(false) by {
            var b :| 0 <= b < 64 && !val[b];
            assert Not(val)[b];
          }
          var bit := TrailingZeros(Not(val));
          var idx := w * 64 + bit;
          assert idx / 64 == w && idx % 64 == bit;
          forall i | start <= i < idx && i < limit
            ensures i !in Free()
          {
            if i / 64 == w {
              assert !Not(val)[i % 64];
              assert i == w * 64 + i % 64;
            }
          }
          if idx < limit {
            return Some(idx);
          }
        } else {
          forall i | start <= i < limit && i / 64 == w
            ensures i !in Free()
          {
            assert val[i % 64];
            assert i == w * 64 + i % 64;
          }
        }
        skipMask := Fill(false);
        w := w + 1;
      }
      return None;
    }

    /** The loop that tests a candidate range frame by frame. */
    method RangeClear(base: nat, count: nat) returns (ok: bool)
      requires Valid() && base + count <= totalFrames
      ensures ok <==> Range(base, base + count) <= Free()
    {
      for i := 0 to count
        invariant Range(base, base + i) <= Free()
      {
        if Test(base + i) {
          assert base + i in Range(base, base + count) && base + i !in Free();
          return false;
        }
      }
      return true;
    }

    /** The loop that marks a candidate range, and the update of `free_frames`. */
    method Take(base: nat, count: nat)
      requires Valid() && base + count <= totalFrames
      requires Range(base, base + count) <= Free()
      modifies this`freeFrames, words
      ensures Free() == old(Free()) - Range(base, base + count)
      ensures freeFrames == old(freeFrames) + |Free()| - |old(Free())|
    {
      hide Test, Free, Range;
      for i := 0 to count
        invariant freeFrames == old(freeFrames)
        invariant Free() == old(Free()) - Range(base, base + i)
      {
        SetBit(base + i);
      }
      RemovedSize(old(Free()), base, count);
      freeFrames := freeFrames - count;
    }

    /** The search of `pmm_alloc_frames`. */
    method FindContiguousZero(count: nat, align: nat) returns (r: Option<nat>)
      requires Valid() && count > 0 && align > 0
      modifies this`freeFrames, words
      ensures Took(old(Free()), old(freeFrames), Free(), freeFrames, r, count, align)
      ensures Searched(old(Free()), 0, count, align, r)
    {
      hide Test, Free, Range, Searching, Searched;
      var idx, limit := 0, totalFrames;
      SearchBegins(Free(), limit, 0, count, align);
      while idx + count <= limit
        invariant Free() == old(Free()) && freeFrames == old(freeFrames)
        invariant Searching(Free(), limit, 0, count, align, idx)
        decreases limit + count - idx
      {
        var cand := FindNextZero(idx, limit);
        if cand.None? {
          SearchFails(Free(), limit, 0, count, align, idx);
          return None;
        }
        var aligned := AlignUp(cand.value, align);
        assert Candidate(Free(), idx, align, cand.value, aligned);
        if aligned + count > limit {
          SearchEnds(Free(), limit, 0, count, align, idx, cand.value, aligned);
          return None;  // the source sets idx to aligned, which makes the loop guard false
        }
        var ok := RangeClear(aligned, count);
        if ok {
          SearchSucceeds(Free(), limit, 0, count, align, idx, cand.value, aligned);
          Take(aligned, count);
          return Some(aligned);
        }
        SearchGoesOn(Free(), limit, 0, count, align, idx, cand.value, aligned);
        idx := aligned + count;
      }
      SearchFails(Free(), limit, 0, count, align, idx);
      return None;
    }

    /** `pmm_alloc_frames`; the result is a frame number (the source shifts it by 12). */
    method AllocFrames(count: nat, align: nat) returns (r: Option<nat>)
      requires Valid()
      modifies this`freeFrames, words
      ensures count == 0 || !PowerOfTwoOrZero(align) ==> r.None?
      ensures Took(old(Free()), old(freeFrames), Free(), freeFrames, r, count, if align == 0 then 1 else align)
      ensures count > 0 && PowerOfTwoOrZero(align) ==>
        Searched(old(Free()), 0, count, if align == 0 then 1 else align, r)
      ensures count == 1 && align <= 1 ==>
        (r.None? <==> old(Free()) == {}) &&
        (r.Some? ==> forall i :: i in old(Free()) ==> r.value <= i)
    {
      hide Test, Free, Range, NoRun, LeastAligned;
      if count == 0 || !PowerOfTwoOrZero(align) {
        return None;
      }
      r := FindContiguousZero(count, if align == 0 then 1 else align);
      if count == 1 && align <= 1 {
        LeastOfAll(old(Free()), 0, r);
      }
    }

    /** `pmm_alloc_frame`: the lowest free frame. */
    method AllocFrame() returns (r: Option<nat>)
      requires Valid()
      modifies this`freeFrames, words
      ensures r.None? <==> old(Free()) == {}
      ensures r.None? ==> Free() == old(Free()) && freeFrames == old(freeFrames)
      ensures r.Some? ==> r.value in old(Free()) && forall i :: i in old(Free()) ==> r.value <= i
      ensures r.Some? ==> Free() == old(Free()) - {r.value} && |Free()| == |old(Free())| - 1 && freeFrames == old(freeFrames) - 1
    {
      hide Test, Free, Searched, Range, Took;
      r := AllocFrames(1, 1);
      TookOne(old(Free()), old(freeFrames), Free(), freeFrames, r);
    }

    /** The search loop of `pmm_alloc_frames_above`, with its guard in 64 bits. */
    method FindAbove(count: nat, align: nat, minFrame: nat) returns (r: Option<nat>)
      requires Valid() && totalFrames <= TWO_64 / 4096 && 0 < count < TWO_64 && align > 0
      requires GuardHolds(Free(), totalFrames, minFrame, count)
      modifies this`freeFrames, words
      ensures Took(old(Free()), old(freeFrames), Free(), freeFrames, r, count, align)
      ensures r.Some? ==> r.value >= minFrame
      ensures Searched(old(Free()), minFrame, count, align, r)
    {
      hide Test, Free, Range, Searching, Searched, GuardHolds, Wrap;
      var idx, limit := minFrame, totalFrames;
      SearchBegins(Free(), limit, minFrame, count, align);
      while Wrap(idx + count) <= limit
        invariant minFrame <= idx && (idx == minFrame || idx + count <= 2 * limit)
        invariant Free() == old(Free()) && freeFrames == old(freeFrames)
        invariant Searching(Free(), limit, minFrame, count, align, idx)
        decreases limit + count - idx
      {
        GuardEnters(Free(), limit, minFrame, count, idx);
        var cand := FindNextZero(idx, limit);
        if cand.None? {
          SearchFails(Free(), limit, minFrame, count, align, idx);
          return None;
        }
        var aligned := AlignUp(cand.value, align);
        GuardPasses(Free(), limit, minFrame, count, idx, cand.value);
        if aligned < minFrame {
          aligned := AlignUp(minFrame, align);
        }
        assert Candidate(Free(), idx, align, cand.value, aligned);
        if aligned + count > limit {
          SearchEnds(Free(), limit, minFrame, count, align, idx, cand.value, aligned);
          return None;
        }
        var ok := RangeClear(aligned, count);
        if ok {
          SearchSucceeds(Free(), limit, minFrame, count, align, idx, cand.value, aligned);
          Take(aligned, count);
          return Some(aligned);
        }
        SearchGoesOn(Free(), limit, minFrame, count, align, idx, cand.value, aligned);
        idx := aligned + count;
      }
      WrapBelow(idx + count);
      SearchFails(Free(), limit, minFrame, count, align, idx);
      return None;
    }

    /**
     * `pmm_alloc_frames_above`: as above, at or above a physical address.  When the rounding of
     * that address wraps, the search begins at frame 0 and the range lies below the address.
     */
    method AllocFramesAbove(count: nat, align: nat, minPhys: nat) returns (r: Option<nat>)
      requires Valid() && totalFrames <= TWO_64 / 4096 && count < TWO_64 && minPhys < TWO_64
      requires GuardHolds(Free(), totalFrames, MinFrame(minPhys), count)
      modifies this`freeFrames, words
      ensures count == 0 || !PowerOfTwoOrZero(align) ==> r.None?
      ensures Took(old(Free()), old(freeFrames), Free(), freeFrames, r, count, if align == 0 then 1 else align)
      ensures r.Some? && totalFrames < TWO_64 / 4096 ==>
        (r.value * 4096 >= minPhys <==> minPhys + 4095 < TWO_64)
      ensures r.Some? && minPhys + 4095 < TWO_64 ==> r.value * 4096 >= minPhys
      ensures count > 0 && PowerOfTwoOrZero(align) ==>
        Searched(old(Free()), MinFrame(minPhys), count, if align == 0 then 1 else align, r)
      ensures count == 1 && align <= 1 ==>
        var minFrame := MinFrame(minPhys);
        (r.None? <==> forall i :: i in old(Free()) ==> i < minFrame) &&
        (r.Some? ==> forall i :: i in old(Free()) && minFrame <= i ==> r.value <= i)
    {
      hide Test, Range, NoRun, LeastAligned, MinFrame;
      if count == 0 || !PowerOfTwoOrZero(align) {
        return None;
      }
      r := FindAbove(count, if align == 0 then 1 else align, MinFrame(minPhys));
      if count == 1 && align <= 1 {
        LeastOfAll(old(Free()), MinFrame(minPhys), r);
      }
      if r.Some? {
        assert r.value in Range(r.value, r.value + count);
      }
    }

    /** `pmm_free_frames`; each frame given back is counted once. */
    method FreeFrames(pa: nat, count: nat)
      requires Valid()
      requires pa != 0 && pa != TWO_64 - 1 && count > 0 ==> pa / 4096 + count <= totalFrames
      modifies this`freeFrames, words
      ensures Free() == if pa == 0 || pa == TWO_64 - 1 then old(Free())
                        else old(Free()) + Range(pa / 4096, pa / 4096 + count)
      ensures freeFrames == old(freeFrames) + |Free()| - |old(Free())|
    {
      hide Test, Range;
      if pa == 0 || pa == TWO_64 - 1 || count == 0 {
        return;
      }
      var idx := pa / 4096;
      for i := 0 to count
        invariant Free() == old(Free()) + Range(idx, idx + i)
        invariant freeFrames == old(freeFrames) + |Free()| - |old(Free())|
      {
        FreeOne(idx + i);
      }
    }

    /** One round of `pmm_free_frames`. */
    method FreeOne(i: nat)
      requires Valid() && i < totalFrames
      modifies this`freeFrames, words
      ensures Free() == old(Free()) + {i}
      ensures freeFrames == old(freeFrames) + |Free()| - |old(Free())|
    {
      var used := Test(i);
      if used {
        ghost var before := Free();
        ClearBit(i);
        assert |before + {i}| == |before| + 1;
        freeFrames := freeFrames + 1;
      }
    }
  }
}
