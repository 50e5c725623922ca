/** Which bits a page table entry has: those of the frame address and those of the flags. */
module EntryBits {
  import opened Common
  import opened NumberBits
  import opened PageEntries

  /** The entry of a 4 KiB page: address bits 12 to 51 of `pa`, the bits of `flags`, and bit 5 (A). */
  ghost predicate PageEntryOf(e: nat, pa: nat, flags: nat) {
    forall i: nat :: BitAt(e, i) <==> (12 <= i < 52 && BitAt(pa, i)) || BitAt(flags, i) || i == 5
  }

  /** The entry of a 2 MiB page: address bits 21 to 51 of `pa`, the bits of `flags`, and bit 7 (PS). */
  ghost predicate HugeEntryOf(e: nat, pa: nat, flags: nat) {
    forall i: nat :: BitAt(e, i) <==> (21 <= i < 52 && BitAt(pa, i)) || BitAt(flags, i) || i == 7
  }

  /** That fixes the entry. */
  lemma EntryFixed(e: nat, e': nat, pa: nat, flags: nat)
    requires (PageEntryOf(e, pa, flags) && PageEntryOf(e', pa, flags)) || (HugeEntryOf(e, pa, flags) && HugeEntryOf(e', pa, flags))
    ensures e == e'
  {
    SameBits(e, e');
  }

  lemma {:induction false} OrBits(a: nat, b: nat, i: nat)
    ensures BitAt(BitOr(a, b), i) <==> BitAt(a, i) || BitAt(b, i)
    decreases i
  {
    hide BitOr;
    BitOrHalf(a, b);
    if i > 0 {
      OrBits(a / 2, b / 2, i - 1);
    }
  }

  lemma Powers()
    ensures Pow2(12) == 4096 && Pow2(9) == 512 && Pow2(5) == 32 && Pow2(7) == 128
    ensures Pow2(40) == FRAMES && Pow2(63) == PTE_NX
  {
    SmallPowers();
    hide Pow2;
    PowSum(10, 10);
    PowSum(20, 20);
    PowSum(40, 20);
    PowSum(60, 3);
  }

  lemma SmallPowers()
    ensures Pow2(3) == 8 && Pow2(5) == 32 && Pow2(7) == 128 && Pow2(9) == 512 && Pow2(10) == 1024 && Pow2(12) == 4096
  {
  }

  /** The address field of `pa`. */
  lemma FrameBits(pa: nat, i: nat)
    ensures BitAt(Frame(pa), i) <==> i < 40 && BitAt(pa, i + 12)
  {
    hide Pow2, BitAt;
    Powers();
    RemainderBits(pa / 4096, 40, i);
    QuotientBits(pa, 12, i);
  }

  lemma AddressBits(pa: nat, i: nat)
    ensures BitAt(Frame(pa) * 4096, i) <==> 12 <= i < 52 && BitAt(pa, i)
    ensures BitAt(Frame(pa) / 512 * 512 * 4096, i) <==> 21 <= i < 52 && BitAt(pa, i)
  {
    hide Pow2, BitAt, Frame;
    Powers();
    var f := Frame(pa);
    TimesBits(f, 12, i);
    TimesBits(f / 512 * 512, 12, i);
    if i >= 12 {
      FrameBits(pa, i - 12);
      TimesBits(f / 512, 9, i - 12);
      if i >= 21 {
        QuotientBits(f, 9, i - 21);
      }
    }
  }

  /** The bit of a power of two. */
  lemma {:induction false} PowerBit(k: nat, i: nat)
    ensures BitAt(Pow2(k), i) <==> i == k
    decreases k
  {
    if k == 0 {
      if i > 0 {
        ZeroBits(i - 1);
      }
    } else if i > 0 {
      PowerBit(k - 1, i - 1);
    }
  }

  /** `pte_make` makes the entry of a page, whatever the flags. */
  lemma PteMakeBits(pa: nat, flags: nat)
    ensures PageEntryOf(PteMake(pa, flags), pa, flags)
  {
    hide BitOr, BitAt, Pow2, Frame;
    Powers();
    forall i: nat
      ensures BitAt(PteMake(pa, flags), i) <==> (12 <= i < 52 && BitAt(pa, i)) || BitAt(flags, i) || i == 5
    {
      OrBits(Frame(pa) * 4096, flags, i);
      OrBits(BitOr(Frame(pa) * 4096, flags), PTE_A, i);
      AddressBits(pa, i);
      PowerBit(5, i);
    }
  }

  /** `vmm_map_2mb` makes the entry of a 2 MiB page. */
  lemma HugeMakeBits(pa: nat, flags: nat)
    ensures HugeEntryOf(HugeMake(pa, flags), pa, flags)
  {
    hide BitOr, BitAt, Pow2, Frame;
    Powers();
    forall i: nat
      ensures BitAt(HugeMake(pa, flags), i) <==> (21 <= i < 52 && BitAt(pa, i)) || BitAt(flags, i) || i == 7
    {
      OrBits(Frame(pa) / 512 * 512 * 4096, flags, i);
      OrBits(BitOr(Frame(pa) / 512 * 512 * 4096, flags), PTE_PS, i);
      AddressBits(pa, i);
      PowerBit(7, i);
    }
  }

  /** The bits of a number made of a small part and the execute-disable bit. */
  lemma TopBit(small: nat, i: nat)
    requires small < 0x1000
    ensures BitAt(small + PTE_NX, i) <==> BitAt(small, i) || i == 63
  {
    hide BitAt, Pow2;
    Powers();
    var x := small + PTE_NX;
    RemainderBits(x, 63, i);
    SmallEnds(small, i);
    if i >= 63 {
      QuotientBits(x, 63, i - 63);
      OneBit(i - 63);
    }
  }

  lemma OneBit(i: nat)
    ensures BitAt(1, i) <==> i == 0
  {
    PowerBit(0, i);
  }

  lemma SmallEnds(small: nat, i: nat)
    requires small < 0x1000
    ensures i >= 12 ==> !BitAt(small, i)
  {
    hide BitAt, Pow2;
    Powers();
    RemainderBits(small, 12, i);
  }

  /** The flags of present, writable and perhaps global pages. */
  lemma SmallFlags(i: nat)
    ensures BitAt(3, i) <==> i in {0, 1}
    ensures BitAt(0x103, i) <==> i in {0, 1, 8}
  {
    if i >= 12 {
      SmallEnds(3, i);
      SmallEnds(0x103, i);
    } else {
      FlagsBelow(i);
    }
  }

  lemma FlagsBelow(i: nat)
    requires i < 12
    ensures BitAt(3, i) <==> i in {0, 1}
    ensures BitAt(0x103, i) <==> i in {0, 1, 8}
  {
    assert BitAt(3, 0) && BitAt(3, 1) && !BitAt(3, 2) && !BitAt(3, 3) && !BitAt(3, 4) && !BitAt(3, 5);
    assert !BitAt(3, 6) && !BitAt(3, 7) && !BitAt(3, 8) && !BitAt(3, 9) && !BitAt(3, 10) && !BitAt(3, 11);
    assert BitAt(0x103, 0) && BitAt(0x103, 1) && !BitAt(0x103, 2) && !BitAt(0x103, 3) && !BitAt(0x103, 4) && !BitAt(0x103, 5);
    assert !BitAt(0x103, 6) && !BitAt(0x103, 7) && BitAt(0x103, 8) && !BitAt(0x103, 9) && !BitAt(0x103, 10) && !BitAt(0x103, 11);
    assert i in {0, 1, 2, 3, 4, 5, 6, 7, 8, 9, 10, 11};
  }
}
