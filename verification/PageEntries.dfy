/**
 * Page table entries as 64-bit numbers: bit 0 is P, bit 7 is PS, bits 12 to 51 hold the frame
 * number; and the table indices of a virtual address.
 */
module PageEntries {
  import opened Common

  const PTE_P := 1
  const PTE_W := 2
  const PTE_A := 32
  const PTE_PS := 128
  const PTE_G := 256
  const PTE_NX := 0x8000_0000_0000_0000
  const FRAMES := 0x100_0000_0000              // frame numbers that fit PTE_ADDR_MASK
  const PAGES := 0x10_0000_0000                // page numbers of a 48-bit virtual address

  /** Bitwise or. */
  function BitOr(a: nat, b: nat): nat
    decreases a + b
  {
    if a == 0 then b
    else if b == 0 then a
    else 2 * BitOr(a / 2, b / 2) + if a % 2 == 1 || b % 2 == 1 then 1 else 0
  }

  predicate Present(e: nat) {
    e % 2 == 1
  }

  predicate Huge(e: nat) {
    e / 128 % 2 == 1
  }

  /** The frame number in an entry or a physical address: `(x & PTE_ADDR_MASK) >> 12`. */
  function Frame(e: nat): nat {
    e / 4096 % FRAMES
  }

  /** `pte_make`. */
  function PteMake(pa: nat, flags: nat): nat {
    BitOr(BitOr(Frame(pa) * 4096, flags), PTE_A)
  }

  /** The 2 MiB entry of `vmm_map_2mb`; the mask drops the low nine bits of the frame number. */
  function HugeMake(pa: nat, flags: nat): nat {
    BitOr(BitOr(Frame(pa) / 512 * 512 * 4096, flags), PTE_PS)
  }

  /** The page number a 48-bit virtual address lies in. */
  function Vpn(va: nat): nat {
    va / 4096 % PAGES
  }

  /** The index into the table of the given level: PT_IDX, PD_IDX, PDPT_IDX, PML4_IDX. */
  function Index(level: nat, va: nat): (i: nat)
    ensures i < 512
  {
    if level == 1 then va / 0x1000 % 512
    else if level == 2 then va / 0x20_0000 % 512
    else if level == 3 then va / 0x4000_0000 % 512
    else va / 0x80_0000_0000 % 512
  }

  // ---------------------------------------------------------------- bits

  lemma BitOrHalf(a: nat, b: nat)
    ensures BitOr(a, b) / 2 == BitOr(a / 2, b / 2)
    ensures BitOr(a, b) % 2 == 1 <==> a % 2 == 1 || b % 2 == 1
  {
  }

  /** Or with a number that has ones only where the other has zeros is addition. */
  lemma {:induction false} BitOrAdd(a: nat, b: nat, k: nat)
    requires b < Pow2(k) && exists m: nat :: a == m * Pow2(k)
    ensures BitOr(a, b) == a + b
    decreases k
  {
    if k > 0 && a > 0 && b > 0 {
      var m: nat :| a == m * Pow2(k);
      assert a == 2 * (m * Pow2(k - 1));
      assert a / 2 == m * Pow2(k - 1);
      BitOrAdd(a / 2, b / 2, k - 1);
    }
  }

  /** The entry that links a table to a zeroed frame `f` is `f * 4096 + P + W + A`. */
  lemma LinkEntry(f: nat)
    requires f < FRAMES
    ensures PteMake(f * 4096, PTE_P + PTE_W) == f * 4096 + 35
    ensures var e := PteMake(f * 4096, PTE_P + PTE_W); Present(e) && !Huge(e) && Frame(e) == f
  {
    var a := f * 4096;
    assert Frame(a) == f;
    assert Pow2(2) == 4;
    assert a == (f * 1024) * Pow2(2);
    BitOrAdd(a, 3, 2);
    BitOrHalf(a + 3, 32);
    BitOrHalf((a + 3) / 2, 16);
    assert (a + 3) / 2 / 2 == a / 4 && a / 4 == f * 1024;
    assert Pow2(4) == 16;
    assert f * 1024 == (f * 64) * Pow2(4);
    BitOrAdd(f * 1024, 8, 4);
    EntryFields(f);
  }

  lemma EntryFields(f: nat)
    requires f < FRAMES
    ensures var e := f * 4096 + 35; Present(e) && !Huge(e) && Frame(e) == f
  {
    assert f * 4096 + 35 == 128 * (f * 32) + 35;
    assert (f * 4096 + 35) / 128 == f * 32;
    assert (f * 4096 + 35) / 4096 == f;
  }

  lemma PteMakePresent(pa: nat, flags: nat)
    ensures Present(flags) ==> Present(PteMake(pa, flags))
  {
    BitOrHalf(Frame(pa) * 4096, flags);
    BitOrHalf(BitOr(Frame(pa) * 4096, flags), PTE_A);
  }

  lemma HugeMakeHuge(pa: nat, flags: nat)
    ensures Huge(HugeMake(pa, flags))
    ensures Present(flags) ==> Present(HugeMake(pa, flags))
  {
    hide BitOr, Frame;
    var base := Frame(pa) / 512 * 512 * 4096;
    BitOrHalf(base, flags);
    BitOrHalf(BitOr(base, flags), PTE_PS);
    OrSetsBit7(BitOr(base, flags));
  }

  lemma OrSetsBit7(x: nat)
    ensures BitOr(x, 128) / 128 % 2 == 1
  {
    hide BitOr;
    BitOrHalf(x, 128);
    BitOrHalf(x / 2, 64);
    BitOrHalf(x / 2 / 2, 32);
    BitOrHalf(x / 2 / 2 / 2, 16);
    BitOrHalf(x / 2 / 2 / 2 / 2, 8);
    BitOrHalf(x / 2 / 2 / 2 / 2 / 2, 4);
    BitOrHalf(x / 2 / 2 / 2 / 2 / 2 / 2, 2);
    BitOrHalf(x / 2 / 2 / 2 / 2 / 2 / 2 / 2, 1);
    HalfTwice(BitOr(x, 128));
  }

  lemma HalfTwice(y: nat)
    ensures y / 2 / 2 == y / 4 && y / 4 / 2 == y / 8 && y / 8 / 2 == y / 16
    ensures y / 16 / 2 == y / 32 && y / 32 / 2 == y / 64 && y / 64 / 2 == y / 128
  {
  }

  // ---------------------------------------------------------------- addresses

  lemma Digit(x: nat) returns (q: nat, d: nat)
    ensures x == 512 * q + d && d < 512
  {
    q, d := x / 512, x % 512;
  }

  lemma QuotientsAre(va: nat, q1: nat, q2: nat, q3: nat)
    requires 0x20_0000 * q1 <= va < 0x20_0000 * q1 + 0x20_0000
    requires 0x4000_0000 * q2 <= va < 0x4000_0000 * q2 + 0x4000_0000
    requires 0x80_0000_0000 * q3 <= va < 0x80_0000_0000 * q3 + 0x80_0000_0000
    ensures va / 0x20_0000 == q1 && va / 0x4000_0000 == q2 && va / 0x80_0000_0000 == q3
  {
  }

  lemma RemaindersAre(p: nat, q1: nat, d1: nat, q2: nat, d2: nat, q3: nat, d3: nat, q4: nat, d4: nat)
    requires d1 < 512 && d2 < 512 && d3 < 512 && d4 < 512
    requires p == 512 * q1 + d1 && q1 == 512 * q2 + d2 && q2 == 512 * q3 + d3 && q3 == 512 * q4 + d4
    ensures p % 512 == d1 && q1 % 512 == d2 && q2 % 512 == d3 && q3 % 512 == d4
    ensures p % PAGES == ((d4 * 512 + d3) * 512 + d2) * 512 + d1
  {
    ModIs(p, q1, 512, d1);
    ModIs(q1, q2, 512, d2);
    ModIs(q2, q3, 512, d3);
    ModIs(q3, q4, 512, d4);
    PageNumber(p, q4, ((d4 * 512 + d3) * 512 + d2) * 512 + d1);
  }

  lemma PageNumber(p: nat, q: nat, r: nat)
    requires p == PAGES * q + r && r < PAGES
    ensures p % PAGES == r
  {
  }

  /** The four indices together are the page number. */
  lemma IndicesAreVpn(va: nat)
    ensures Vpn(va) == ((Index(4, va) * 512 + Index(3, va)) * 512 + Index(2, va)) * 512 + Index(1, va)
  {
    var p := va / 4096;
    assert 4096 * p <= va < 4096 * p + 4096;
    var q1, d1 := Digit(p);
    var q2, d2 := Digit(q1);
    var q3, d3 := Digit(q2);
    var q4, d4 := Digit(q3);
    QuotientsAre(va, q1, q2, q3);
    RemaindersAre(p, q1, d1, q2, d2, q3, d3, q4, d4);
  }

  lemma SamePage(va: nat, vb: nat)
    ensures Vpn(va) == Vpn(vb) <==> forall k :: 1 <= k <= 4 ==> Index(k, va) == Index(k, vb)
  {
    hide Vpn, Index;
    IndicesAreVpn(va);
    IndicesAreVpn(vb);
    assert Index(1, va) == Index(1, vb) || Index(1, va) != Index(1, vb);
  }
}
