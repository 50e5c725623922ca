/** Stored, fixed and dynamic blocks as an encoder writes them, and whole streams. */
module DeflateBlocks {
  import opened Common
  import opened Bits
  import opened Huffman
  import opened HuffmanTables
  import opened HuffmanCodes
  import opened Lz77
  import opened Deflate
  import opened DeflateEncoding

  // ---------------------------------------------------------------- stored blocks

  lemma {:induction false} BytesBack(s: seq<byte>)
    ensures BytesOf(BytesBits(s)) == s
    decreases |s|
  {
    if s != [] {
      BytesBack(s[1..]);
      var b := BytesBits(s);
      assert b[..8] == BitsOf(s[0], 8) && b[8..] == BytesBits(s[1..]);
      assert Pow2(8) == 256;
      ValueOfBits(s[0], 8);
    }
  }

  /** Bits up to the byte boundary, length, its complement, data. */
  function StoredBits(pad: nat, data: seq<byte>): (b: seq<bit>)
    requires |data| < 0x1_0000
    ensures |b| == pad + 32 + 8 * |data|
  {
    BitsOf(0, pad) + (BitsOf(|data|, 16) + (BitsOf(0xFFFF - |data|, 16) + BytesBits(data)))
  }

  lemma StoredBack(pad: nat, data: seq<byte>, out: seq<byte>, cap: nat, rest: seq<bit>)
    requires |data| < 0x1_0000 && pad < 8 && |rest| % 8 == 0 && |out| + |data| <= cap
    ensures Stored(StoredBits(pad, data) + rest, out, cap) == Some((out + data, rest))
  {
    hide BitsOf, ValueOf, BytesBits, BytesOf, Pow2;
    var (p, n, c, d) := (BitsOf(0, pad), BitsOf(|data|, 16), BitsOf(0xFFFF - |data|, 16), BytesBits(data));
    var b := StoredBits(pad, data) + rest;
    assert |b| % 8 == pad;
    var a := n + (c + d) + rest;
    assert Aligned(b) == a by {
      Regroup(p, n + (c + d), rest);
    }
    Sixteen();
    ValueOfBits(|data|, 16);
    assert a[..16] == n && a[32..32 + 8 * |data|] == d && a[32 + 8 * |data|..] == rest;
    BytesBack(data);
  }

  lemma Sixteen()
    ensures Pow2(16) == 0x1_0000
  {
    PowSplit(8, 8);
    assert Pow2(8) == 256;
  }

  // ---------------------------------------------------------------- the fixed code

  lemma {:induction false} CountSame(v: nat, n: nat, l: nat)
    ensures CountOf(Same(v, n), l) == if v == l then n else 0
    decreases n
  {
    if n > 0 {
      CountSame(v, n - 1, l);
      assert Same(v, n)[..n - 1] == Same(v, n - 1);
    }
  }

  lemma {:induction false} CountConcat(a: seq<nat>, b: seq<nat>, l: nat)
    ensures CountOf(a + b, l) == CountOf(a, l) + CountOf(b, l)
    decreases |b|
  {
    if b == [] {
      assert a + b == a;
    } else {
      CountConcat(a, b[..|b| - 1], l);
      assert (a + b)[..|a + b| - 1] == a + b[..|b| - 1];
    }
  }

  lemma FixedCount(l: nat)
    ensures CountOf(FixedLit(), l) == if l == 7 then 24 else if l == 8 then 152 else if l == 9 then 112 else 0
    ensures CountOf(FixedDist(), l) == if l == 5 then 30 else 0
  {
    hide CountOf, Same;
    CountSame(8, 144, l);
    CountSame(9, 112, l);
    CountSame(7, 24, l);
    CountSame(8, 8, l);
    CountSame(5, 30, l);
    CountConcat(Same(8, 144) + Same(9, 112) + Same(7, 24), Same(8, 8), l);
    CountConcat(Same(8, 144) + Same(9, 112), Same(7, 24), l);
    CountConcat(Same(8, 144), Same(9, 112), l);
  }

  lemma KraftStep(count: seq<nat>, l: nat)
    requires |count| == MAXBITS + 1 && 1 <= l <= MAXBITS
    ensures Kraft(count, l) == Kraft(count, l - 1) + count[l] * Pow2(MAXBITS - l)
  {
  }

  lemma KraftTo(count: seq<nat>, l: nat, m: nat)
    requires |count| == MAXBITS + 1 && l <= m <= MAXBITS && forall i :: l < i <= m ==> count[i] == 0
    ensures Kraft(count, m) == Kraft(count, l)
    decreases m
  {
    if l < m {
      KraftTo(count, l, m - 1);
      KraftStep(count, m);
    }
  }

  /** The fixed literal code fills the code space; the fixed distance code leaves 2 of 32 codes unused. */
  lemma FixedKraft()
    ensures Kraft(Counts(FixedLit()), MAXBITS) == Pow2(MAXBITS)
    ensures Kraft(Counts(FixedDist()), MAXBITS) == 30 * Pow2(10) < Pow2(MAXBITS)
  {
    hide CountOf, Kraft, FixedLit, FixedDist;
    var (lc, dc) := (Counts(FixedLit()), Counts(FixedDist()));
    forall l: nat | 1 <= l <= MAXBITS
      ensures lc[l] == (if l == 7 then 24 else if l == 8 then 152 else if l == 9 then 112 else 0)
      ensures dc[l] == (if l == 5 then 30 else 0)
    {
      FixedCount(l);
    }
    KraftNone(lc);
    KraftNone(dc);
    KraftTo(lc, 0, 6);
    KraftStep(lc, 7);
    KraftStep(lc, 8);
    KraftStep(lc, 9);
    KraftTo(lc, 9, MAXBITS);
    KraftTo(dc, 0, 4);
    KraftStep(dc, 5);
    KraftTo(dc, 5, MAXBITS);
    LargePowers();
    PowSplit(10, 5);
    SmallPowers();
  }

  lemma KraftNone(count: seq<nat>)
    requires |count| == MAXBITS + 1
    ensures Kraft(count, 0) == 0
  {
  }

  lemma FixedUsable()
    ensures Usable(FixedLit()) && Usable(FixedDist()) && HasCode(FixedLit(), 256)
  {
    hide Kraft, Counts, Pow2;
    FixedKraft();
  }
}
