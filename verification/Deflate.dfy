/** What `inflate` computes from the bits of a stream, as functions (section 3.2 of RFC 1951). */
module Deflate {
  import opened Common
  import opened Bits
  import opened Huffman
  import opened HuffmanTables
  import opened Lz77

  /** The output so far and the bits not read yet; absent when decoding fails. */
  type Outcome<T> = Option<(T, seq<bit>)>

  /** `base` and the number in the `extra` bits in front. */
  function Based(b: seq<bit>, base: nat, extra: nat): (r: Outcome<nat>)
    ensures r.Some? ==> |r.value.1| <= |b| && r.value.0 >= base
  {
    match Take(b, extra)
    case None => None
    case Some((v, rest)) => Some((base + v, rest))
  }

  function DistanceOf(b: seq<bit>, dl: seq<nat>): (r: Outcome<nat>)
    requires Lengths(dl)
    ensures r.Some? ==> |r.value.1| <= |b| && r.value.0 > 0
  {
    match SymbolOf(dl, b)
    case None => None
    case Some((d, rest)) => if d >= 30 then None else Based(rest, DistBase(d), DistExtra(d))
  }

  /** Length and distance of a match whose length symbol is 257 + `l`. */
  function MatchOf(b: seq<bit>, l: nat, dl: seq<nat>): (r: Outcome<(nat, nat)>)
    requires Lengths(dl)
    ensures r.Some? ==> |r.value.1| <= |b| && r.value.0.1 > 0
  {
    if l >= 29 then None
    else match Based(b, LenBase(l), LenExtra(l))
      case None => None
      case Some((len, b1)) =>
        match DistanceOf(b1, dl)
        case None => None
        case Some((dist, b2)) => Some(((len, dist), b2))
  }

  /** Literals and matches up to the end-of-block symbol, with at most `cap` bytes of output. */
  function BlockData(b: seq<bit>, out: seq<byte>, ll: seq<nat>, dl: seq<nat>, cap: nat): (r: Outcome<seq<byte>>)
    requires Lengths(ll) && Lengths(dl)
    ensures r.Some? ==> |r.value.1| < |b| && |out| <= |r.value.0|
    decreases |b|
  {
    match SymbolOf(ll, b)
    case None => None
    case Some((sym, b1)) =>
      if sym < 256 then
        if |out| >= cap then None else BlockData(b1, out + [sym], ll, dl, cap)
      else if sym == 256 then Some((out, b1))
      else match MatchOf(b1, sym - 257, dl)
        case None => None
        case Some(((len, dist), b2)) =>
          if dist > |out| || |out| + len > cap then None
          else BlockData(b2, Repeat(out, dist, len), ll, dl, cap)
  }

  /** The bytes of whole groups of eight bits. */
  function BytesOf(b: seq<bit>): (s: seq<byte>)
    ensures |s| == |b| / 8
    decreases |b|
  {
    if |b| < 8 then [] else ByteInFront(b); [ValueOf(b[..8])] + BytesOf(b[8..])
  }

  lemma ByteInFront(b: seq<bit>)
    requires |b| >= 8
    ensures ValueOf(b[..8]) < 256
  {
    ValueBound(b[..8]);
    assert Pow2(8) == 256;
  }

  /** A stored block: two bytes of length, two that are skipped, and the data, from a byte boundary on. */
  function Stored(b: seq<bit>, out: seq<byte>, cap: nat): (r: Outcome<seq<byte>>)
    ensures r.Some? ==> |r.value.1| <= |b|
  {
    var a := Aligned(b);
    if |a| < 32 then None
    else
      var len := ValueOf(a[..16]);
      if |a| < 32 + 8 * len || |out| + len > cap then None
      else Some((out + BytesOf(a[32..32 + 8 * len]), a[32 + 8 * len..]))
  }

  // ---------------------------------------------------------------- dynamic blocks

  function ClenOrder(i: nat): (k: nat)
    requires i < 19
    ensures k < 19
  {
    [16, 17, 18, 0, 8, 7, 9, 6, 10, 5, 11, 4, 12, 3, 13, 2, 14, 1, 15][i]
  }

  /** The first `n` lengths of the code length code, three bits each. */
  function ClenLengths(b: seq<bit>, n: nat): (r: Outcome<seq<nat>>)
    requires n <= 19
    ensures r.Some? ==> |r.value.0| == 19 && |r.value.1| <= |b| && Lengths(r.value.0)
  {
    if n == 0 then Some((Same(0, 19), b))
    else match ClenLengths(b, n - 1)
      case None => None
      case Some((cl, b1)) =>
        match Take(b1, 3)
        case None => None
        case Some((v, b2)) =>
          ThreeBits(b1);
          Some((cl[ClenOrder(n - 1) := v], b2))
  }

  lemma ThreeBits(b: seq<bit>)
    requires |b| >= 3
    ensures ValueOf(b[..3]) < 8
  {
    ValueBound(b[..3]);
    assert Pow2(3) == 8;
  }

  function Same(v: nat, n: nat): (s: seq<nat>)
    ensures |s| == n && forall i :: 0 <= i < n ==> s[i] == v
  {
    seq(n, i => v)
  }

  function Fill(lens: seq<nat>, v: nat, rep: nat, total: nat): seq<nat>
    requires |lens| <= total
  {
    lens + Same(v, if |lens| + rep <= total then rep else total - |lens|)
  }

  /** The code lengths of a dynamic block, behind the ones already known. */
  function CodeLengths(b: seq<bit>, cl: seq<nat>, lens: seq<nat>, total: nat): (r: Outcome<seq<nat>>)
    requires Lengths(cl) && |lens| <= total && forall i :: 0 <= i < |lens| ==> lens[i] <= MAXBITS
    ensures r.Some? ==> |r.value.0| == total && |r.value.1| <= |b|
    ensures r.Some? ==> forall i :: 0 <= i < total ==> r.value.0[i] <= MAXBITS
    decreases |b|
  {
    if |lens| == total then Some((lens, b))
    else match SymbolOf(cl, b)
      case None => None
      case Some((sym, b1)) =>
        if sym < 16 then CodeLengths(b1, cl, lens + [sym], total)
        else if sym == 16 then
          if lens == [] then None
          else match Take(b1, 2)
            case None => None
            case Some((v, b2)) => CodeLengths(b2, cl, Fill(lens, lens[|lens| - 1], v + 3, total), total)
        else if sym == 17 then
          match Take(b1, 3)
          case None => None
          case Some((v, b2)) => CodeLengths(b2, cl, Fill(lens, 0, v + 3, total), total)
        else
          match Take(b1, 7)
          case None => None
          case Some((v, b2)) => CodeLengths(b2, cl, Fill(lens, 0, v + 11, total), total)
  }

  /** The two sets of code lengths in front of a dynamic block's data. */
  function Header(b: seq<bit>): (r: Outcome<(seq<nat>, seq<nat>)>)
    ensures r.Some? ==> Lengths(r.value.0.0) && Lengths(r.value.0.1) && |r.value.1| <= |b|
  {
    match Take(b, 5)
    case None => None
    case Some((hlit, b1)) =>
      match Take(b1, 5)
      case None => None
      case Some((hdist, b2)) =>
        match Take(b2, 4)
        case None => None
        case Some((hclen, b3)) =>
          HeaderBounds(b, b1, b2);
          match ClenLengths(b3, hclen + 4)
          case None => None
          case Some((cl, b4)) =>
            match CodeLengths(b4, cl, [], hlit + 257 + (hdist + 1))
            case None => None
            case Some((lens, b5)) => Some(((lens[..hlit + 257], lens[hlit + 257..]), b5))
  }

  lemma HeaderBounds(b: seq<bit>, b1: seq<bit>, b2: seq<bit>)
    requires |b| >= 5 && |b1| >= 5 && |b2| >= 4
    ensures ValueOf(b[..5]) < 32 && ValueOf(b1[..5]) < 32 && ValueOf(b2[..4]) < 16
  {
    ValueBound(b[..5]);
    ValueBound(b1[..5]);
    ValueBound(b2[..4]);
    assert Pow2(5) == 32 && Pow2(4) == 16;
  }

  function Dynamic(b: seq<bit>, out: seq<byte>, cap: nat): (r: Outcome<seq<byte>>)
    ensures r.Some? ==> |r.value.1| <= |b|
  {
    match Header(b)
    case None => None
    case Some(((ll, dl), b1)) => BlockData(b1, out, ll, dl, cap)
  }

  // ---------------------------------------------------------------- streams

  /** The code lengths of fixed blocks. */
  function FixedLit(): (l: seq<nat>)
    ensures |l| == 288 && Lengths(l)
  {
    Same(8, 144) + Same(9, 112) + Same(7, 24) + Same(8, 8)
  }

  function FixedDist(): (l: seq<nat>)
    ensures |l| == 30 && Lengths(l)
  {
    Same(5, 30)
  }

  function BlockBody(btype: nat, b: seq<bit>, out: seq<byte>, cap: nat): (r: Outcome<seq<byte>>)
    ensures r.Some? ==> |r.value.1| <= |b|
  {
    if btype == 0 then Stored(b, out, cap)
    else if btype == 1 then BlockData(b, out, FixedLit(), FixedDist(), cap)
    else if btype == 2 then Dynamic(b, out, cap)
    else None
  }

  /** Blocks up to the last, or until `cap` bytes are out. */
  function Blocks(b: seq<bit>, out: seq<byte>, cap: nat): Option<seq<byte>>
    decreases |b|
  {
    match Take(b, 1)
    case None => None
    case Some((bfinal, b1)) =>
      match Take(b1, 2)
      case None => None
      case Some((btype, b2)) =>
        match BlockBody(btype, b2, out, cap)
        case None => None
        case Some((out', b3)) => if bfinal != 0 || |out'| >= cap then Some(out') else Blocks(b3, out', cap)
  }
}
