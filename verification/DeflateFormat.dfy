/**
 * The format of section 3.2 of RFC 1951 in numbers: where bits lie in bytes, what the codewords
 * are, and what each symbol and header field stands for.
 */
module DeflateFormat {
  import opened Common
  import opened NumberBits
  import opened Bits
  import opened Huffman
  import opened HuffmanTables
  import opened HuffmanCodes
  import opened Lz77
  import opened Deflate
  import opened DeflateEncoding
  import opened DeflateBlocks

  // ---------------------------------------------------------------- bits and bytes

  /** Bit `k` of a number of `n` bits comes `k`-th. */
  lemma {:induction false} NumberBit(v: nat, n: nat, k: nat)
    requires k < n
    ensures BitsOf(v, n)[k] == 1 <==> BitAt(v, k)
    decreases n
  {
    if k > 0 {
      NumberBit(v / 2, n - 1, k - 1);
    }
  }

  /** Bit `k` of byte `i` is bit `8 * i + k` of the stream. */
  lemma StreamBit(s: seq<byte>, i: nat, k: nat)
    requires i < |s| && k < 8
    ensures BytesBits(s)[8 * i + k] == 1 <==> BitAt(s[i], k)
  {
    BytesBitsDrop(s, i);
    var t := s[i..];
    assert BytesBits(t)[k] == BitsOf(t[0], 8)[k];
    NumberBit(s[i], 8, k);
  }

  /** Bit `k` of the number that `b` stands for is `b[k]`. */
  lemma {:induction false} ValueBit(b: seq<bit>, k: nat)
    ensures BitAt(ValueOf(b), k) <==> k < |b| && b[k] == 1
    decreases |b|
  {
    if b == [] {
      ZeroBits(k);
    } else if k > 0 {
      ValueBit(b[1..], k - 1);
    }
  }

  // ---------------------------------------------------------------- codewords

  /** A codeword is the code with its most significant bit first. */
  lemma {:induction false} CodeBit(code: nat, n: nat, i: nat)
    requires i < n
    ensures CodeBits(code, n)[i] == 1 <==> BitAt(code, n - 1 - i)
    decreases n
  {
    if i < n - 1 {
      CodeBit(code / 2, n - 1, i);
    }
  }

  /** Codes of one length are consecutive, in the order of their symbols. */
  lemma CodesConsecutive(lengths: seq<nat>, s: nat, t: nat)
    requires s < t < |lengths| && lengths[s] == lengths[t] && 0 < lengths[s] <= MAXBITS
    requires forall u :: s < u < t ==> lengths[u] != lengths[s]
    ensures CodeOf(lengths, t) == CodeOf(lengths, s) + 1
  {
    hide First, Counts;
    CountStep(lengths, s, lengths[s]);
    NoneBetween(lengths, s + 1, t, lengths[s]);
  }

  lemma {:induction false} NoneBetween(lengths: seq<nat>, i: nat, j: nat, l: nat)
    requires i <= j <= |lengths| && forall u :: i <= u < j ==> lengths[u] != l
    ensures CountOf(lengths[..j], l) == CountOf(lengths[..i], l)
    decreases j
  {
    if i < j {
      NoneBetween(lengths, i, j - 1, l);
      CountStep(lengths, j - 1, l);
    }
  }

  /** The first code of a length: no symbol of that length comes before it. */
  predicate IsFirst(lengths: seq<nat>, s: nat) {
    s < |lengths| && forall u :: 0 <= u < s ==> lengths[u] != lengths[s]
  }

  /** The last code of a length. */
  predicate IsLast(lengths: seq<nat>, s: nat) {
    s < |lengths| && forall u :: s < u < |lengths| ==> lengths[u] != lengths[s]
  }

  /** The very first code is all zeros. */
  lemma ShortestIsZero(lengths: seq<nat>, s: nat)
    requires Lengths(lengths) && IsFirst(lengths, s) && lengths[s] > 0
    requires forall u :: 0 <= u < |lengths| && lengths[u] > 0 ==> lengths[s] <= lengths[u]
    ensures CodeOf(lengths, s) == 0
  {
    NoneBetween(lengths, 0, s, lengths[s]);
    FirstZero(lengths, lengths[s], lengths[s]);
  }

  lemma {:induction false} FirstZero(lengths: seq<nat>, l: nat, m: nat)
    requires l <= m <= MAXBITS && forall u :: 0 <= u < |lengths| && lengths[u] > 0 ==> m <= lengths[u]
    ensures First(Counts(lengths), l) == 0
    decreases l
  {
    if l > 1 {
      FirstZero(lengths, l - 1, m);
      NoneBetween(lengths, 0, |lengths|, l - 1);
      assert lengths[..|lengths|] == lengths;
    }
  }

  /**
   * The first code of a length is one more than the last code of the next shorter length in
   * use, with zeros appended.
   */
  lemma CodesFollow(lengths: seq<nat>, s: nat, t: nat)
    requires Lengths(lengths) && IsLast(lengths, s) && IsFirst(lengths, t) && 0 < lengths[s] < lengths[t]
    requires forall u :: 0 <= u < |lengths| ==> lengths[u] <= lengths[s] || lengths[t] <= lengths[u]
    ensures CodeOf(lengths, t) == (CodeOf(lengths, s) + 1) * Pow2(lengths[t] - lengths[s])
  {
    hide First, CodeOf, Pow2, Counts, CountOf;
    var (l, m) := (lengths[s], lengths[t]);
    LastOfLength(lengths, s);
    FirstOfLength(lengths, t);
    FirstStep(Counts(lengths), l);
    FirstShifts(lengths, l + 1, m);
    DoubledShift(CodeOf(lengths, s) + 1, m - l);
  }

  lemma LastOfLength(lengths: seq<nat>, s: nat)
    requires IsLast(lengths, s) && 0 < lengths[s] <= MAXBITS
    ensures CodeOf(lengths, s) + 1 == First(Counts(lengths), lengths[s]) + Counts(lengths)[lengths[s]]
  {
    hide First;
    var l := lengths[s];
    NoneBetween(lengths, s + 1, |lengths|, l);
    CountStep(lengths, s, l);
    assert lengths[..|lengths|] == lengths;
  }

  lemma FirstOfLength(lengths: seq<nat>, t: nat)
    requires IsFirst(lengths, t) && 0 < lengths[t] <= MAXBITS
    ensures CodeOf(lengths, t) == First(Counts(lengths), lengths[t])
  {
    hide First;
    NoneBetween(lengths, 0, t, lengths[t]);
  }

  lemma DoubledShift(x: nat, n: nat)
    requires n > 0
    ensures 2 * x * Pow2(n - 1) == x * Pow2(n)
  {
  }

  lemma {:induction false} FirstShifts(lengths: seq<nat>, l: nat, m: nat)
    requires 0 < l <= m <= MAXBITS && forall u :: 0 <= u < |lengths| ==> lengths[u] < l || m <= lengths[u]
    ensures First(Counts(lengths), m) == First(Counts(lengths), l) * Pow2(m - l)
    decreases m
  {
    hide First, Counts, Pow2;
    ShiftNone(First(Counts(lengths), l));
    if l < m {
      FirstShifts(lengths, l, m - 1);
      FirstStep(Counts(lengths), m - 1);
      NoneOfLength(lengths, m - 1);
      ShiftOne(First(Counts(lengths), l), m - 1 - l);
    }
  }

  lemma NoneOfLength(lengths: seq<nat>, l: nat)
    requires l <= MAXBITS && forall u :: 0 <= u < |lengths| ==> lengths[u] != l
    ensures Counts(lengths)[l] == 0
  {
    NoneBetween(lengths, 0, |lengths|, l);
    assert lengths[..|lengths|] == lengths;
  }

  lemma ShiftNone(x: nat)
    ensures x * Pow2(0) == x
  {
  }

  lemma ShiftOne(x: nat, k: nat)
    ensures 2 * (x * Pow2(k)) == x * Pow2(k + 1)
  {
  }

  // ---------------------------------------------------------------- the fixed codes

  /** The lengths of the fixed code, symbol by symbol (section 3.2.6 of RFC 1951). */
  lemma FixedLengthAt(s: nat)
    requires s < 288
    ensures FixedLit()[s] == if s < 144 then 8 else if s < 256 then 9 else if s < 280 then 7 else 8
  {
    hide Lengths;
  }

  /** The fixed codewords as section 3.2.6 of RFC 1951 lists them. */
  lemma FixedCodewords(s: nat)
    requires s < 288
    ensures Codeword(FixedLit(), s) ==
      if s < 144 then CodeBits(0x30 + s, 8)
      else if s < 256 then CodeBits(0x190 + (s - 144), 9)
      else if s < 280 then CodeBits(s - 256, 7)
      else CodeBits(0xC0 + (s - 280), 8)
  {
    hide FixedLit, CodeBits, CodeOf, Lengths;
    FixedLengthAt(s);
    FixedCode(s);
  }

  lemma FixedCode(s: nat)
    requires s < 288
    ensures FixedLit()[s] <= MAXBITS
    ensures CodeOf(FixedLit(), s) ==
      if s < 144 then 0x30 + s else if s < 256 then 0x190 + (s - 144) else if s < 280 then s - 256 else 0xC0 + (s - 280)
  {
    hide FixedLit, CodeBits, CodeOf, Lengths;
    forall u: nat | u < 288
      ensures FixedLit()[u] == if u < 144 then 8 else if u < 256 then 9 else if u < 280 then 7 else 8
    {
      FixedLengthAt(u);
    }
    FixedStarts();
    if s < 144 {
      RunOfCodes(FixedLit(), 0, s);
    } else if s < 256 {
      RunOfCodes(FixedLit(), 144, s);
    } else if s < 280 {
      RunOfCodes(FixedLit(), 256, s);
    } else {
      RunOfCodes(FixedLit(), 280, s);
    }
  }

  lemma {:induction false} RunOfCodes(lengths: seq<nat>, a: nat, s: nat)
    requires a <= s < |lengths| && 0 < lengths[a] <= MAXBITS && forall u :: a <= u <= s ==> lengths[u] == lengths[a]
    ensures CodeOf(lengths, s) == CodeOf(lengths, a) + (s - a)
    decreases s
  {
    hide CodeOf;
    if a < s {
      RunOfCodes(lengths, a, s - 1);
      CodesConsecutive(lengths, s - 1, s);
    }
  }

  /** Where the runs of the fixed code begin. */
  lemma FixedStarts()
    ensures CodeOf(FixedLit(), 256) == 0 && CodeOf(FixedLit(), 0) == 0x30
    ensures CodeOf(FixedLit(), 280) == 0xC0 && CodeOf(FixedLit(), 144) == 0x190
  {
    hide FixedLit, CodeOf, Lengths;
    var l := FixedLit();
    forall u: nat | u < 288
      ensures l[u] == if u < 144 then 8 else if u < 256 then 9 else if u < 280 then 7 else 8
    {
      FixedLengthAt(u);
    }
    ShortestIsZero(l, 256);
    RunOfCodes(l, 256, 279);
    CodesFollow(l, 279, 0);
    RunOfCodes(l, 0, 143);
    CodesConsecutive(l, 143, 280);
    RunOfCodes(l, 280, 287);
    CodesFollow(l, 287, 144);
    assert Pow2(1) == 2;
  }

  lemma FixedDistanceCodewords(d: nat)
    requires d < 30
    ensures Codeword(FixedDist(), d) == CodeBits(d, 5)
  {
    hide CodeBits, CodeOf, Lengths;
    ShortestIsZero(FixedDist(), 0);
    RunOfCodes(FixedDist(), 0, d);
  }

  // ---------------------------------------------------------------- lengths and distances

  /** The length symbols: 8 single lengths, then four for each number of extra bits, and 258 (section 3.2.5). */
  lemma LengthTable(l: nat)
    requires l < 29
    ensures LenExtra(l) == if l < 8 || l == 28 then 0 else (l - 4) / 4
    ensures LenBase(l) == if l < 8 then l + 3 else if l == 28 then 258 else 3 + (4 + l % 4) * Pow2((l - 4) / 4)
  {
    Lz77.SmallPowers();
  }

  /** The distance symbols: 4 single distances, then two for each number of extra bits. */
  lemma DistanceTable(d: nat)
    requires d < 30
    ensures DistExtra(d) == if d < 4 then 0 else (d - 2) / 2
    ensures DistBase(d) == if d < 4 then d + 1 else 1 + (2 + d % 2) * Pow2((d - 2) / 2)
  {
    Lz77.SmallPowers();
    Lz77.LargePowers();
  }

  /** A symbol below 256 is a byte, 256 ends the block, and 286 and 287 stand for nothing. */
  lemma LiteralSymbols(b: seq<bit>, out: seq<byte>, ll: seq<nat>, dl: seq<nat>, cap: nat)
    requires Lengths(ll) && Lengths(dl) && SymbolOf(ll, b).Some?
    ensures var (sym, b1) := SymbolOf(ll, b).value;
      && (sym < 256 && |out| < cap ==> BlockData(b, out, ll, dl, cap) == BlockData(b1, out + [sym], ll, dl, cap))
      && (sym < 256 && |out| >= cap ==> BlockData(b, out, ll, dl, cap) == None)
      && (sym == 256 ==> BlockData(b, out, ll, dl, cap) == Some((out, b1)))
      && (sym >= 286 ==> BlockData(b, out, ll, dl, cap) == None)
  {
    hide SymbolOf, Lengths, Repeat;
  }

  /** The length that a symbol from 257 to 285 and the number `v` in its `x` extra bits stand for. */
  function MatchLength(sym: nat, x: nat, v: nat): nat
    requires 257 <= sym <= 285
  {
    v + if sym < 265 then sym - 254 else if sym == 285 then 258 else 3 + (4 + (sym - 257) % 4) * Pow2(x)
  }

  /** The distance that a symbol below 30 and the number `v` in its `y` extra bits stand for. */
  function MatchDistance(d: nat, y: nat, v: nat): nat {
    v + if d < 4 then d + 1 else 1 + (2 + d % 2) * Pow2(y)
  }

  /** A length symbol is followed by its extra bits, a distance symbol and the extra bits of that. */
  predicate MatchFollows(sym: nat, b1: seq<bit>, dl: seq<nat>, x: nat, d: nat, b2: seq<bit>, y: nat)
    requires Lengths(dl)
  {
    && 257 <= sym <= 285 && x == (if sym < 265 || sym == 285 then 0 else (sym - 261) / 4) && x <= |b1|
    && SymbolOf(dl, b1[x..]) == Some((d, b2)) && d < 30 && y == (if d < 4 then 0 else (d - 2) / 2) && y <= |b2|
  }

  lemma MatchNumbers(sym: nat, b1: seq<bit>, dl: seq<nat>, x: nat, d: nat, b2: seq<bit>, y: nat)
    requires Lengths(dl) && MatchFollows(sym, b1, dl, x, d, b2, y)
    ensures MatchOf(b1, sym - 257, dl) ==
      Some(((MatchLength(sym, x, ValueOf(b1[..x])), MatchDistance(d, y, ValueOf(b2[..y]))), b2[y..]))
  {
    hide SymbolOf, Lengths, ValueOf, MatchLength, MatchDistance, LenBase, LenExtra, DistBase, DistExtra;
    LengthNumber(sym, b1, x);
    DistanceNumber(b1[x..], dl, d, b2, y);
  }

  lemma LengthNumber(sym: nat, b1: seq<bit>, x: nat)
    requires 257 <= sym <= 285 && x == (if sym < 265 || sym == 285 then 0 else (sym - 261) / 4) && x <= |b1|
    ensures Based(b1, LenBase(sym - 257), LenExtra(sym - 257)) == Some((MatchLength(sym, x, ValueOf(b1[..x])), b1[x..]))
  {
    hide LenBase, LenExtra, ValueOf, Pow2;
    LengthTable(sym - 257);
  }

  lemma DistanceNumber(b: seq<bit>, dl: seq<nat>, d: nat, b2: seq<bit>, y: nat)
    requires Lengths(dl) && SymbolOf(dl, b) == Some((d, b2)) && d < 30
    requires y == (if d < 4 then 0 else (d - 2) / 2) && y <= |b2|
    ensures DistanceOf(b, dl) == Some((MatchDistance(d, y, ValueOf(b2[..y])), b2[y..]))
  {
    hide SymbolOf, Lengths, DistBase, DistExtra, ValueOf, Pow2;
    DistanceTable(d);
  }

  /**
   * What a match does: it fails when it reaches in front of the output or beyond `cap`, and
   * otherwise appends the bytes that it copies.
   */
  lemma MatchSymbols(b: seq<bit>, out: seq<byte>, ll: seq<nat>, dl: seq<nat>, cap: nat,
                     sym: nat, b1: seq<bit>, x: nat, d: nat, b2: seq<bit>, y: nat)
    requires Lengths(ll) && Lengths(dl) && SymbolOf(ll, b) == Some((sym, b1)) && MatchFollows(sym, b1, dl, x, d, b2, y)
    ensures var (len, dist) := (MatchLength(sym, x, ValueOf(b1[..x])), MatchDistance(d, y, ValueOf(b2[..y])));
      BlockData(b, out, ll, dl, cap) ==
        if dist > |out| || |out| + len > cap then None else BlockData(b2[y..], out + Copy(out, dist, len), ll, dl, cap)
  {
    hide SymbolOf, Lengths, Repeat, ValueOf, MatchLength, MatchDistance, MatchOf, Copy;
    MatchNumbers(sym, b1, dl, x, d, b2, y);
    var (len, dist) := (MatchLength(sym, x, ValueOf(b1[..x])), MatchDistance(d, y, ValueOf(b2[..y])));
    if dist <= |out| {
      MatchInFront(sym, b1, dl, x, d, b2, y);
      CopyIsRepeat(out, dist, len);
    }
  }

  lemma MatchInFront(sym: nat, b1: seq<bit>, dl: seq<nat>, x: nat, d: nat, b2: seq<bit>, y: nat)
    requires Lengths(dl) && MatchFollows(sym, b1, dl, x, d, b2, y)
    ensures MatchDistance(d, y, ValueOf(b2[..y])) > 0
  {
    hide SymbolOf, Lengths, Pow2;
  }

  /** The `len` bytes that begin `dist` before the end of `out`, which repeat when they run out. */
  function Copy(out: seq<byte>, dist: nat, len: nat): (c: seq<byte>) {
    seq(len, i requires 0 <= i < len => if 0 < dist <= |out| then out[|out| - dist + i % dist] else 0)
  }

  lemma CopyIsRepeat(out: seq<byte>, dist: nat, len: nat)
    requires 0 < dist <= |out|
    ensures Repeat(out, dist, len) == out + Copy(out, dist, len)
  {
    var r := Repeat(out, dist, len);
    forall i: nat | i < len
      ensures r[|out| + i] == Copy(out, dist, len)[i]
    {
      RepeatIsPeriodic(out, dist, len, i);
    }
    assert r == r[..|out|] + r[|out|..];
    assert r[|out|..] == Copy(out, dist, len);
  }

  // ---------------------------------------------------------------- dynamic headers

  /** The order in which the lengths of the code length code come: 16, 17, 18, 0, then 8, 7, 9, 6 and so on outwards. */
  lemma OrderTable(i: nat)
    requires i < 19
    ensures ClenOrder(i) == if i < 3 then 16 + i else if i == 3 then 0 else if i % 2 == 0 then 6 + i / 2 else (19 - i) / 2
  {
  }

  /** The lengths of the code length code: three bits each, in that order; the others are 0. */
  lemma {:induction false} ClenFormat(b: seq<bit>, n: nat, i: nat)
    requires n <= 19 && i < 19
    ensures ClenLengths(b, n).Some? <==> 3 * n <= |b|
    ensures 3 * n <= |b| ==>
      && ClenLengths(b, n).value.1 == b[3 * n..]
      && ClenLengths(b, n).value.0[ClenOrder(i)] == if i < n then ValueOf(b[3 * i..3 * i + 3]) else 0
    decreases n
  {
    hide ValueOf, Lengths, ClenOrder;
    if n > 0 {
      ClenFormat(b, n - 1, i);
      OrderApart(i, n - 1);
      if 3 * n <= |b| {
        var b1 := b[3 * (n - 1)..];
        assert b1[..3] == b[3 * (n - 1)..3 * (n - 1) + 3] && b1[3..] == b[3 * n..];
      }
    }
  }

  lemma OrderApart(i: nat, j: nat)
    requires i < 19 && j < 19
    ensures ClenOrder(i) == ClenOrder(j) <==> i == j
  {
    OrderTable(i);
    OrderTable(j);
  }

  /** `n` more lengths `v`, or as many as there is room for. */
  function Extended(lens: seq<nat>, v: nat, n: nat, total: nat): (r: seq<nat>)
    requires |lens| <= total
    ensures |r| == Min(total, |lens| + n) && r[..|lens|] == lens && forall i :: |lens| <= i < |r| ==> r[i] == v
  {
    lens + seq(Min(total - |lens|, n), i => v)
  }

  lemma ExtendedIsFill(lens: seq<nat>, v: nat, n: nat, total: nat)
    requires |lens| <= total
    ensures Extended(lens, v, n, total) == Fill(lens, v, n, total)
  {
  }

  lemma SymbolInCode(lengths: seq<nat>, b: seq<bit>)
    requires Lengths(lengths)
    ensures SymbolOf(lengths, b).Some? ==> SymbolOf(lengths, b).value.0 < |lengths|
  {
    hide DecodeFrom, Canonical, Built, Counts;
    CanonicalBuilt(lengths);
    ValidTable(Canonical(lengths), lengths);
    SymbolBelow(lengths, b, 1, 0);
  }

  lemma ValidTable(t: Table, lengths: seq<nat>)
    requires Lengths(lengths) && Built(t, lengths)
    ensures t.Valid() && First(t.count, 1) == 0
  {
  }

  /**
   * The symbols of the code length code: 0 to 15 are lengths, 16 repeats the last one 3 times
   * and more by a number of two bits, 17 and 18 stand for 3 and 11 zeros and more by a number
   * of three and seven bits (section 3.2.7).
   */
  lemma LengthSymbols(b: seq<bit>, cl: seq<nat>, lens: seq<nat>, total: nat, sym: nat, b1: seq<bit>)
    requires Lengths(cl) && |cl| <= 19 && |lens| < total && Bounded(lens) && SymbolOf(cl, b) == Some((sym, b1))
    ensures sym <= 18
    ensures sym < 16 ==> CodeLengths(b, cl, lens, total) == CodeLengths(b1, cl, lens + [sym], total)
    ensures sym == 16 && (lens == [] || |b1| < 2) ==> CodeLengths(b, cl, lens, total) == None
    ensures sym == 16 && lens != [] && |b1| >= 2 ==>
      var next := Extended(lens, lens[|lens| - 1], 3 + ValueOf(b1[..2]), total);
      CodeLengths(b, cl, lens, total) == CodeLengths(b1[2..], cl, next, total)
    ensures sym == 17 && |b1| >= 3 ==>
      var next := Extended(lens, 0, 3 + ValueOf(b1[..3]), total);
      CodeLengths(b, cl, lens, total) == CodeLengths(b1[3..], cl, next, total)
    ensures sym == 18 && |b1| >= 7 ==>
      var next := Extended(lens, 0, 11 + ValueOf(b1[..7]), total);
      CodeLengths(b, cl, lens, total) == CodeLengths(b1[7..], cl, next, total)
    ensures (sym == 17 && |b1| < 3) || (sym == 18 && |b1| < 7) ==> CodeLengths(b, cl, lens, total) == None
  {
    hide SymbolOf, Lengths, ValueOf, Extended, Fill;
    SymbolInCode(cl, b);
    if sym == 16 && lens != [] && |b1| >= 2 {
      ExtendedIsFill(lens, lens[|lens| - 1], ValueOf(b1[..2]) + 3, total);
    } else if sym == 17 && |b1| >= 3 {
      ExtendedIsFill(lens, 0, ValueOf(b1[..3]) + 3, total);
    } else if sym == 18 && |b1| >= 7 {
      ExtendedIsFill(lens, 0, ValueOf(b1[..7]) + 11, total);
    }
  }

  /**
   * A dynamic header: five bits for the number of literal and length codes above 257, five for
   * that of distance codes above 1, four for that of lengths of the code length code above 4.
   */
  lemma HeaderFormat(b: seq<bit>)
    ensures |b| < 14 ==> Header(b) == None
    ensures |b| >= 14 ==>
      var (nlit, ndist, nclen) := (257 + ValueOf(b[..5]), 1 + ValueOf(b[5..10]), 4 + ValueOf(b[10..14]));
      && nclen <= 19 && (ClenLengths(b[14..], nclen) == None ==> Header(b) == None)
      && (ClenLengths(b[14..], nclen).Some? ==>
            var (cl, b4) := ClenLengths(b[14..], nclen).value;
            var lens := CodeLengths(b4, cl, [], nlit + ndist);
            if lens.None? then Header(b) == None
            else |lens.value.0| == nlit + ndist && Header(b) == Some(((lens.value.0[..nlit], lens.value.0[nlit..]), lens.value.1)))
  {
    hide ValueOf, ClenLengths, CodeLengths, Lengths;
    if |b| >= 14 {
      assert b[5..][..5] == b[5..10] && b[5..][5..] == b[10..];
      assert b[10..][..4] == b[10..14] && b[10..][4..] == b[14..];
      HeaderBounds(b, b[5..], b[10..]);
    }
  }

  // ---------------------------------------------------------------- blocks

  /** A stored block on a byte boundary: two bytes of length, low byte first, two that are skipped, and the data. */
  lemma StoredBytes(pad: seq<bit>, low: byte, high: byte, x: byte, y: byte, data: seq<byte>, more: seq<byte>, out: seq<byte>, cap: nat)
    requires |pad| < 8 && |data| == low as nat + 256 * high as nat
    ensures Stored(pad + BytesBits([low, high, x, y] + data + more), out, cap) ==
      if |out| + |data| <= cap then Some((out + data, BytesBits(more))) else None
  {
    hide BytesBits, ValueOf, BytesOf;
    var s := [low, high, x, y] + data + more;
    var b := pad + BytesBits(s);
    var a := BytesBits(s);
    assert Aligned(b) == a;
    LengthBytes(s);
    DataBytes(s, 4, 4 + |data|);
    assert s[4..4 + |data|] == data && s[4 + |data|..] == more;
    BytesBack(data);
    BytesBitsDrop(s, 4 + |data|);
  }

  lemma LengthBytes(s: seq<byte>)
    requires |s| >= 2
    ensures ValueOf(BytesBits(s)[..16]) == s[0] as nat + 256 * s[1] as nat
  {
    hide BytesBits, ValueOf;
    BytesBitsDrop(s, 2);
    assert s[..2] == [s[0]] + [s[1]];
    BytesBitsConcat([s[0]], [s[1]]);
    OneByte(s[0]);
    OneByte(s[1]);
    ValueAppend(BytesBits([s[0]]), BytesBits([s[1]]));
    assert Pow2(8) == 256;
  }

  lemma OneByte(v: byte)
    ensures |BytesBits([v])| == 8 && ValueOf(BytesBits([v])) == v
  {
    assert [v][1..] == [] && BytesBits([v]) == BitsOf(v, 8) + BytesBits([]);
    assert BytesBits([v]) == BitsOf(v, 8);
    assert Pow2(8) == 256;
    ValueOfBits(v, 8);
  }

  lemma DataBytes(s: seq<byte>, i: nat, j: nat)
    requires i <= j <= |s|
    ensures BytesBits(s)[8 * i..8 * j] == BytesBits(s[i..j])
  {
    hide BytesBits;
    BytesBitsDrop(s, j);
    BytesBitsDrop(s[..j], i);
    assert s[..j][i..] == s[i..j];
    assert BytesBits(s)[..8 * j][8 * i..] == BytesBits(s)[8 * i..8 * j];
  }

  /** A block: one bit that says it is the last, two bits for its type, and its body; type 3 fails. */
  lemma BlockFormat(b: seq<bit>, out: seq<byte>, cap: nat)
    ensures |b| < 3 ==> Blocks(b, out, cap) == None
    ensures |b| >= 3 ==>
      var body :=
        if b[1] == 0 && b[2] == 0 then Stored(b[3..], out, cap)
        else if b[1] == 1 && b[2] == 0 then BlockData(b[3..], out, FixedLit(), FixedDist(), cap)
        else if b[1] == 0 && b[2] == 1 then Dynamic(b[3..], out, cap)
        else None;
      Blocks(b, out, cap) ==
        if body.None? then None
        else if b[0] == 1 || |body.value.0| >= cap then Some(body.value.0)
        else Blocks(body.value.1, body.value.0, cap)
  {
    hide Stored, BlockData, Dynamic, FixedLit, FixedDist, Lengths, ValueOf;
    if |b| >= 3 {
      OneBit(b);
      TwoBits(b[1..]);
      assert b[1..][2..] == b[3..] && b[1..][0] == b[1] && b[1..][1] == b[2];
    }
  }

  lemma OneBit(b: seq<bit>)
    requires |b| >= 1
    ensures ValueOf(b[..1]) == b[0]
  {
    assert b[..1][1..] == [];
  }

  lemma TwoBits(b: seq<bit>)
    requires |b| >= 2
    ensures ValueOf(b[..2]) == b[0] as nat + 2 * b[1] as nat
  {
    assert b[..2][1..] == [b[1]];
    OneBit([b[1]]);
    assert [b[1]][..1] == [b[1]];
  }

  // ---------------------------------------------------------------- a smallest stream

  /** The stream 0x73 0x04 0x00, one fixed block, is the letter A. */
  lemma LetterA(cap: nat)
    requires cap >= 1
    ensures Blocks(BytesBits([0x73, 0x04, 0x00]), [], cap) == Some([65])
  {
    hide BytesBits, Blocks, BlockData, FixedLit, FixedDist, Lengths, Stored, Dynamic;
    LetterBits();
    BlockFormat(BytesBits([0x73, 0x04, 0x00]), [], cap);
    LetterData(BytesBits([0x73, 0x04, 0x00])[3..], cap);
  }

  /** The data of that block: the codewords of 65 and 256. */
  lemma LetterData(b: seq<bit>, cap: nat)
    requires cap >= 1 && b == [0, 1, 1, 1, 0, 0, 0, 1, 0, 0, 0, 0, 0, 0, 0, 0, 0, 0, 0, 0, 0]
    ensures BlockData(b, [], FixedLit(), FixedDist(), cap) == Some(([65], b[15..]))
  {
    hide BlockData, FixedLit, FixedDist, Lengths, Codeword, CodeBits, SymbolOf, Usable;
    FixedUsable();
    FixedSizes();
    FixedCodewords(65);
    FixedCodewords(256);
    LetterCodes();
    assert b == Codeword(FixedLit(), 65) + b[8..];
    assert b[8..] == Codeword(FixedLit(), 256) + b[15..];
    SymbolBack(FixedLit(), 65, b[8..]);
    SymbolBack(FixedLit(), 256, b[15..]);
    LiteralSymbols(b, [], FixedLit(), FixedDist(), cap);
    assert [] + [65] == [65];
    LiteralSymbols(b[8..], [65], FixedLit(), FixedDist(), cap);
  }

  lemma FixedSizes()
    ensures HasCode(FixedLit(), 65) && HasCode(FixedLit(), 256)
  {
    FixedLengthAt(65);
    FixedLengthAt(256);
  }

  lemma LetterBits()
    ensures BytesBits([0x73, 0x04, 0x00]) == [1, 1, 0, 0, 1, 1, 1, 0, 0, 0, 1, 0, 0, 0, 0, 0, 0, 0, 0, 0, 0, 0, 0, 0]
  {
    ByteValues();
    hide BytesBits, BitsOf;
    assert [0x73, 0x04, 0x00] == [0x73] + ([0x04] + [0x00]);
    BytesBitsConcat([0x73], [0x04] + [0x00]);
    BytesBitsConcat([0x04], [0x00]);
    OneByteBits(0x73);
    OneByteBits(0x04);
    OneByteBits(0x00);
  }

  lemma OneByteBits(v: byte)
    ensures BytesBits([v]) == BitsOf(v, 8)
  {
    hide BitsOf;
    BytesBitsHead([v]);
    assert [v][1..] == [] && BytesBits([]) == [];
  }

  lemma ByteValues()
    ensures BitsOf(0x73, 8) == [1, 1, 0, 0, 1, 1, 1, 0]
    ensures BitsOf(0x04, 8) == [0, 0, 1, 0, 0, 0, 0, 0]
    ensures BitsOf(0x00, 8) == [0, 0, 0, 0, 0, 0, 0, 0]
  {
    EightBits(0x73);
    EightBits(0x04);
    EightBits(0x00);
    hide BitsOf;
  }

  lemma EightBits(v: nat)
    ensures BitsOf(v, 8) == [v % 2, v / 2 % 2, v / 4 % 2, v / 8 % 2, v / 16 % 2, v / 32 % 2, v / 64 % 2, v / 128 % 2]
  {
    FourBits(v, 4);
    FourBits(v / 16, 0);
    hide BitsOf;
    assert v / 16 / 2 == v / 32 && v / 16 / 4 == v / 64 && v / 16 / 8 == v / 128;
  }

  lemma FourBits(v: nat, n: nat)
    ensures BitsOf(v, n + 4) == [v % 2, v / 2 % 2, v / 4 % 2, v / 8 % 2] + BitsOf(v / 16, n)
    ensures BitsOf(v, 0) == []
  {
    assert BitsOf(v, n + 4) == [v % 2] + BitsOf(v / 2, n + 3);
    assert BitsOf(v / 2, n + 3) == [v / 2 % 2] + BitsOf(v / 4, n + 2) by {
      assert v / 2 / 2 == v / 4;
    }
    assert BitsOf(v / 4, n + 2) == [v / 4 % 2] + BitsOf(v / 8, n + 1) by {
      assert v / 4 / 2 == v / 8;
    }
    assert BitsOf(v / 8, n + 1) == [v / 8 % 2] + BitsOf(v / 16, n) by {
      assert v / 8 / 2 == v / 16;
    }
  }

  lemma LetterCodes()
    ensures CodeBits(0x30 + 65, 8) == [0, 1, 1, 1, 0, 0, 0, 1] && CodeBits(0, 7) == [0, 0, 0, 0, 0, 0, 0]
  {
  }
}
