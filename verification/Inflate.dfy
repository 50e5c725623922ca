/** The inflate routines over a bit stream and an output buffer, each proved to compute its function. */
module Inflate {
  import opened Common
  import opened Bits
  import opened Huffman
  import opened HuffmanTables
  import opened Lz77
  import opened Deflate
  import opened DeflateBlocks

  /** `outbuf_t`. */
  class OutBuf {
    const buf: array<byte>
    var pos: nat

    ghost predicate Valid()
      reads this
    {
      pos <= buf.Length
    }

    ghost function Contents(): (s: seq<byte>)
      requires Valid()
      reads this, buf
      ensures |s| == pos
    {
      buf[..pos]
    }

    constructor (buf: array<byte>)
      ensures this.buf == buf && Valid() && Contents() == []
    {
      this.buf, pos := buf, 0;
    }

    /** `out_put`. */
    method Put(b: byte) returns (ok: bool)
      requires Valid()
      modifies this, buf
      ensures Valid() && ok == (old(pos) < buf.Length)
      ensures Contents() == old(Contents()) + if ok then [b] else []
    {
      ok := pos < buf.Length;
      if ok {
        buf[pos] := b;
        pos := pos + 1;
      }
    }

    /** The copy loop of a match: it stops when the buffer is full, and changes nothing already written. */
    method CopyMatch(dist: nat, length: nat) returns (ok: bool)
      requires Valid() && 0 < dist <= pos
      modifies this, buf
      ensures Valid() && old(Contents()) <= Contents() && ok == (old(pos) + length <= buf.Length)
      ensures ok ==> Contents() == Repeat(old(Contents()), dist, length)
    {
      hide Repeat;
      ghost var o := Contents();
      RepeatNone(o, dist);
      var src := pos - dist;
      for i: nat := 0 to length
        invariant Valid() && pos == |o| + i && Contents() == Repeat(o, dist, i)
      {
        RepeatNext(o, dist, i);
        assert buf[src + i] == Contents()[|Contents()| - dist];
        ok := Put(buf[src + i]);
        if !ok {
          return;
        }
      }
      ok := true;
    }
  }

  lemma RepeatNone(o: seq<byte>, dist: nat)
    requires 0 < dist <= |o|
    ensures Repeat(o, dist, 0) == o
  {
  }

  lemma {:induction false} RepeatNext(o: seq<byte>, dist: nat, i: nat)
    requires 0 < dist <= |o|
    ensures var r := Repeat(o, dist, i); Repeat(o, dist, i + 1) == r + [r[|r| - dist]]
    decreases i
  {
    if i > 0 {
      RepeatNext(o + [o[|o| - dist]], dist, i - 1);
    }
  }

  /** How a routine's end follows its function's value: on success the same output and the same bits left. */
  ghost predicate Follows(ok: bool, r: Outcome<seq<byte>>, out: OutBuf, bs: BitStream)
    requires out.Valid() && bs.Valid()
    reads out, out.buf, bs
  {
    match r
    case Some((s, b)) => ok && out.Contents() == s && bs.Pending() == b
    case None => !ok
  }

  /** `inflate_stored`. */
  method InflateStored(bs: BitStream, out: OutBuf) returns (ok: bool)
    requires bs.Valid() && out.Valid()
    modifies bs, out, out.buf
    ensures bs.Valid() && out.Valid() && old(out.Contents()) <= out.Contents()
    ensures Follows(ok, Stored(old(bs.Pending()), old(out.Contents()), out.buf.Length), out, bs)
  {
    hide BytesOf, BytesBits, BitsOf, ValueOf, Aligned;
    ghost var (b0, o0) := (bs.Pending(), out.Contents());
    bs.Align();
    var input := bs.input;
    ghost var rest := input[bs.inPos..];
    ghost var a := BytesBits(rest);
    if bs.inPos + 4 > |input| {
      return false;
    }
    var len: nat := (input[bs.inPos] as nat) + 256 * (input[bs.inPos + 1] as nat);
    LengthOf(rest);
    bs.inPos := bs.inPos + 4;
    if bs.inPos + len > |input| {
      return false;
    }
    ok := CopyStored(bs, out, len);
    StoredBytes(rest, len);
    NoBits(bs.bitbuf);
    assert rest[4..][..len] == rest[4..4 + len] && rest[4..][len..] == rest[4 + len..];
  }

  /** The copy loop of a stored block. */
  method CopyStored(bs: BitStream, out: OutBuf, len: nat) returns (ok: bool)
    requires bs.Valid() && bs.bitcnt == 0 && bs.inPos + len <= |bs.input| && out.Valid()
    modifies bs, out, out.buf
    ensures bs.Valid() && bs.bitcnt == 0 && out.Valid() && old(out.Contents()) <= out.Contents()
    ensures ok == (old(out.pos) + len <= out.buf.Length)
    ensures ok ==> out.Contents() == old(out.Contents()) + old(bs.input[bs.inPos..][..len])
    ensures ok ==> bs.input[bs.inPos..] == old(bs.input[bs.inPos..][len..])
  {
    hide BytesBits, BitsOf;
    ghost var (o0, rest, p0) := (out.Contents(), bs.input[bs.inPos..], bs.inPos);
    for i: nat := 0 to len
      invariant bs.Valid() && bs.bitcnt == 0 && bs.inPos == p0 + i
      invariant out.Valid() && out.Contents() == o0 + rest[..i]
    {
      var c := bs.input[bs.inPos];
      bs.inPos := bs.inPos + 1;
      var put := out.Put(c);
      if !put {
        return false;
      }
      assert rest[..i] + [c] == rest[..i + 1];
    }
    ok := true;
  }

  lemma NoBits(v: nat)
    ensures BitsOf(v, 0) == []
  {
  }

  /** The two length bytes as a number of 16 bits. */
  lemma LengthOf(s: seq<byte>)
    requires |s| >= 2
    ensures ValueOf(BytesBits(s)[..16]) == s[0] as nat + 256 * s[1] as nat
  {
    hide BytesBits, BitsOf, ValueOf;
    var (x, y) := (BitsOf(s[0], 8), BitsOf(s[1], 8));
    TwoBytes(s);
    assert Pow2(8) == 256;
    ValueOfBits(s[0], 8);
    ValueOfBits(s[1], 8);
    ValueAppend(x, y);
  }

  lemma TwoBytes(s: seq<byte>)
    requires |s| >= 2
    ensures BytesBits(s)[..16] == BitsOf(s[0], 8) + BitsOf(s[1], 8)
  {
    hide BytesBits, BitsOf;
    var t := s[1..];
    FirstByte(s);
    FirstByte(t);
    Front(BitsOf(s[0], 8), BitsOf(t[0], 8), BytesBits(t[1..]));
  }

  lemma FirstByte(s: seq<byte>)
    requires s != []
    ensures BytesBits(s) == BitsOf(s[0], 8) + BytesBits(s[1..])
  {
  }

  lemma Front(x: seq<bit>, y: seq<bit>, t: seq<bit>)
    ensures (x + (y + t))[..|x| + |y|] == x + y
  {
  }

  /** The data bytes of a stored block. */
  lemma StoredBytes(s: seq<byte>, len: nat)
    requires 4 + len <= |s|
    ensures BytesOf(BytesBits(s)[32..32 + 8 * len]) == s[4..4 + len]
    ensures BytesBits(s)[32 + 8 * len..] == BytesBits(s[4 + len..])
  {
    hide BytesBits, BytesOf;
    MiddleBits(s, len);
    BytesBack(s[4..4 + len]);
    TailBits(s, len);
  }

  lemma TailBits(s: seq<byte>, len: nat)
    requires 4 + len <= |s|
    ensures BytesBits(s)[32 + 8 * len..] == BytesBits(s[4 + len..])
  {
    hide BytesBits;
    BytesBitsDrop(s, 4 + len);
    assert 8 * (4 + len) == 32 + 8 * len;
  }

  lemma MiddleBits(s: seq<byte>, len: nat)
    requires 4 + len <= |s|
    ensures BytesBits(s)[32..32 + 8 * len] == BytesBits(s[4..4 + len])
  {
    hide BytesBits;
    var t := s[..4 + len];
    BytesBitsDrop(s, 4 + len);
    BytesBitsDrop(t, 4);
    Middle(BytesBits(s), BytesBits(t), 32, 8 * (4 + len));
    Middle(s, t, 4, 4 + len);
  }

  lemma Middle<T>(s: seq<T>, t: seq<T>, i: nat, j: nat)
    requires i <= j <= |s| && t == s[..j]
    ensures t[i..] == s[i..j]
  {
  }

  // ---------------------------------------------------------------- compressed data

  /** `h` holds the table of a set of code lengths. */
  ghost predicate Holds(h: Huffman, lengths: seq<nat>)
    reads h.count, h.symbol
  {
    h.Allocated() && Lengths(lengths) && Built(h.View(), lengths)
  }

  /** One symbol of the code whose table `h` holds. */
  method NextSymbol(bs: BitStream, h: Huffman, ghost lengths: seq<nat>) returns (sym: Option<nat>)
    requires bs.Valid() && Holds(h, lengths)
    modifies bs
    ensures bs.Valid()
    ensures match SymbolOf(lengths, old(bs.Pending()))
      case Some(r) => sym == Some(r.0) && bs.Pending() == r.1
      case None => sym == None
  {
    hide SymbolOf, Decode;
    BuiltIsSymbolOf(h.View(), lengths, bs.Pending());
    sym := h.DecodeSymbol(bs);
  }

  /** The extra bits of a length or distance symbol, added to its base. */
  method ReadBased(bs: BitStream, base: nat, extra: nat) returns (v: Option<nat>)
    requires bs.Valid()
    modifies bs
    ensures bs.Valid()
    ensures match Based(old(bs.Pending()), base, extra)
      case Some(r) => v == Some(r.0) && bs.Pending() == r.1
      case None => v == None
  {
    hide BitStream.Pending, ValueOf;
    var x: Option<nat> := Some(0);
    if extra != 0 {
      x := bs.GetBits(extra);
    } else {
      NoneTaken(bs.Pending());
    }
    v := if x.Some? then Some(base + x.value) else None;
  }

  lemma NoneTaken(b: seq<bit>)
    ensures Take(b, 0) == Some((0, b))
  {
  }

  /** The length and distance of a match. */
  method ReadMatch(bs: BitStream, l: nat, dc: Huffman, ghost dl: seq<nat>) returns (m: Option<(nat, nat)>)
    requires bs.Valid() && Holds(dc, dl)
    modifies bs
    ensures bs.Valid()
    ensures match MatchOf(old(bs.Pending()), l, dl)
      case Some(r) => m == Some(r.0) && bs.Pending() == r.1
      case None => m == None
  {
    hide BitStream.Pending, Based, SymbolOf, LenBase, LenExtra, DistBase, DistExtra, Holds;
    if l >= 29 {
      return None;
    }
    var length := ReadBased(bs, LenBase(l), LenExtra(l));
    if length.None? {
      return None;
    }
    var d := NextSymbol(bs, dc, dl);
    if d.None? || d.value >= 30 {
      return None;
    }
    var dist := ReadBased(bs, DistBase(d.value), DistExtra(d.value));
    m := if dist.Some? then Some((length.value, dist.value)) else None;
  }

  /** `inflate_block_data`. */
  method InflateBlockData(bs: BitStream, out: OutBuf, lc: Huffman, dc: Huffman, ghost ll: seq<nat>, ghost dl: seq<nat>)
    returns (ok: bool)
    requires bs.Valid() && out.Valid() && Holds(lc, ll) && Holds(dc, dl)
    modifies bs, out, out.buf
    ensures bs.Valid() && out.Valid() && old(out.Contents()) <= out.Contents()
    ensures Follows(ok, BlockData(old(bs.Pending()), old(out.Contents()), ll, dl, out.buf.Length), out, bs)
  {
    hide BitStream.Pending, SymbolOf, MatchOf, Built, Lengths, Repeat;
    ghost var (b0, o0, cap) := (bs.Pending(), out.Contents(), out.buf.Length);
    while true
      invariant bs.Valid() && out.Valid() && Holds(lc, ll) && Holds(dc, dl) && o0 <= out.Contents()
      invariant BlockData(bs.Pending(), out.Contents(), ll, dl, cap) == BlockData(b0, o0, ll, dl, cap)
      decreases |bs.Pending()|
    {
      ghost var (b, o) := (bs.Pending(), out.Contents());
      var sym := NextSymbol(bs, lc, ll);
      if sym.None? {
        return false;
      }
      if sym.value < 256 {
        var put := out.Put(sym.value);
        if !put {
          return false;
        }
      } else if sym.value == 256 {
        return true;
      } else {
        var m := ReadMatch(bs, sym.value - 257, dc, dl);
        if m.None? || m.value.1 > out.pos {
          return false;
        }
        var put := out.CopyMatch(m.value.1, m.value.0);
        if !put {
          return false;
        }
      }
    }
  }

  // ---------------------------------------------------------------- dynamic blocks

  /** A number of `n` bits. */
  method ReadBits(bs: BitStream, n: nat) returns (v: Option<nat>)
    requires bs.Valid()
    modifies bs
    ensures bs.Valid()
    ensures match Take(old(bs.Pending()), n)
      case Some(r) => v == Some(r.0) && bs.Pending() == r.1 && r.0 < Pow2(n)
      case None => v == None
  {
    hide BitStream.Pending, ValueOf, Pow2;
    if n <= |bs.Pending()| {
      ValueBound(bs.Pending()[..n]);
    }
    v := bs.GetBits(n);
  }

  /** The loop of `inflate_dynamic` that reads the lengths of the code length code. */
  method ReadClen(bs: BitStream, n: nat) returns (cl: Option<seq<nat>>)
    requires bs.Valid() && n <= 19
    modifies bs
    ensures bs.Valid()
    ensures match ClenLengths(old(bs.Pending()), n)
      case Some(r) => cl == Some(r.0) && bs.Pending() == r.1
      case None => cl == None
  {
    hide BitStream.Pending, ClenOrder, Take;
    ghost var b0 := bs.Pending();
    var lengths := new nat[19](_ => 0);
    assert lengths[..] == Same(0, 19);
    for i: nat := 0 to n
      invariant bs.Valid() && ClenLengths(b0, i) == Some((lengths[..], bs.Pending()))
      modifies bs, lengths
    {
      ClenStep(b0, i, n);
      var v := ReadBits(bs, 3);
      if v.None? {
        return None;
      }
      lengths[ClenOrder(i)] := v.value;
    }
    cl := Some(lengths[..]);
  }

  /** The lengths read so far decide whether reading more fails. */
  lemma {:induction false} ClenStep(b: seq<bit>, i: nat, n: nat)
    requires i < n <= 19
    ensures ClenLengths(b, i + 1).None? ==> ClenLengths(b, n).None?
    decreases n
  {
    hide Take, ClenOrder;
    if i + 1 < n {
      ClenStep(b, i, n - 1);
    }
  }

  /** The run of equal lengths that one operation of the loop below stores. */
  method StoreRun(lengths: array<nat>, idx: nat, v: nat, rep: nat, total: nat) returns (next: nat)
    requires idx <= total <= lengths.Length
    modifies lengths
    ensures idx <= next <= total && lengths[..next] == Fill(old(lengths[..idx]), v, rep, total)
  {
    next := idx;
    var left: nat := rep;
    while left > 0 && next < total
      invariant idx <= next <= total && left + (next - idx) == rep
      invariant lengths[..next] == old(lengths[..idx]) + Same(v, next - idx)
    {
      lengths[next] := v;
      next := next + 1;
      left := left - 1;
      assert Same(v, next - idx) == Same(v, next - 1 - idx) + [v];
    }
    assert next - idx == if idx + rep <= total then rep else total - idx;
  }

  /** One round of the loop below. */
  method ReadRun(bs: BitStream, h: Huffman, ghost cl: seq<nat>, lengths: array<nat>, idx: nat, total: nat)
    returns (next: Option<nat>)
    requires bs.Valid() && Holds(h, cl) && idx < total <= lengths.Length && Bounded(lengths[..idx])
    requires lengths != h.count && lengths != h.symbol
    modifies bs, lengths
    ensures bs.Valid()
    ensures next.Some? ==> idx < next.value <= total && Bounded(lengths[..next.value])
    ensures CodeLengths(old(bs.Pending()), cl, old(lengths[..idx]), total)
      == if next.None? then None else CodeLengths(bs.Pending(), cl, lengths[..next.value], total)
  {
    hide BitStream.Pending, SymbolOf, Take, Built, Lengths, Fill, Pow2;
    ghost var lens := lengths[..idx];
    var sym := NextSymbol(bs, h, cl);
    if sym.None? {
      return None;
    }
    if sym.value < 16 {
      lengths[idx] := sym.value;
      assert lengths[..idx + 1] == lens + [sym.value];
      return Some(idx + 1);
    }
    if sym.value == 16 && idx == 0 {
      return None;
    }
    var width := if sym.value == 16 then 2 else if sym.value == 17 then 3 else 7;
    var rep := ReadBits(bs, width);
    if rep.None? {
      return None;
    }
    var v := if sym.value == 16 then lengths[idx - 1] else 0;
    var n := if sym.value <= 17 then rep.value + 3 else rep.value + 11;
    assert sym.value == 16 ==> v == lens[|lens| - 1];
    FillBounded(lens, v, n, total);
    var to := StoreRun(lengths, idx, v, n, total);
    next := Some(to);
  }

  /** The loop of `inflate_dynamic` that reads the run-length coded code lengths. */
  method ReadLengths(bs: BitStream, h: Huffman, ghost cl: seq<nat>, total: nat) returns (r: Option<seq<nat>>)
    requires bs.Valid() && Holds(h, cl) && total <= SYMBOLS
    modifies bs
    ensures bs.Valid()
    ensures match CodeLengths(old(bs.Pending()), cl, [], total)
      case Some(x) => r == Some(x.0) && bs.Pending() == x.1
      case None => r == None
  {
    hide BitStream.Pending, SymbolOf, Take, Built, Lengths, Fill, CodeLengths;
    ghost var b0 := bs.Pending();
    var lengths := new nat[SYMBOLS](_ => 0);
    var idx: nat := 0;
    assert lengths[..0] == [];
    while idx < total
      invariant idx <= total && bs.Valid() && Holds(h, cl) && Bounded(lengths[..idx])
      invariant CodeLengths(bs.Pending(), cl, lengths[..idx], total) == CodeLengths(b0, cl, [], total)
      modifies bs, lengths
      decreases total - idx
    {
      var next := ReadRun(bs, h, cl, lengths, idx, total);
      if next.None? {
        return None;
      }
      idx := next.value;
    }
    AllLengths(bs.Pending(), cl, lengths[..idx], total);
    r := Some(lengths[..idx]);
  }

  lemma AllLengths(b: seq<bit>, cl: seq<nat>, lens: seq<nat>, total: nat)
    requires Lengths(cl) && |lens| == total && Bounded(lens)
    ensures CodeLengths(b, cl, lens, total) == Some((lens, b))
  {
  }

  lemma FillBounded(lens: seq<nat>, v: nat, rep: nat, total: nat)
    requires |lens| < total && v <= MAXBITS && rep > 0 && forall i :: 0 <= i < |lens| ==> lens[i] <= MAXBITS
    ensures var r := Fill(lens, v, rep, total);
      |lens| < |r| <= total && forall i :: 0 <= i < |r| ==> r[i] <= MAXBITS
  {
  }

  /** The part of `inflate_dynamic` in front of the data: the code lengths of the two codes. */
  method ReadHeader(bs: BitStream) returns (r: Option<(seq<nat>, seq<nat>)>)
    requires bs.Valid()
    modifies bs
    ensures bs.Valid()
    ensures match Header(old(bs.Pending()))
      case Some(x) => r == Some(x.0) && bs.Pending() == x.1
      case None => r == None
  {
    hide BitStream.Pending, ClenLengths, CodeLengths, Lengths, Take, Built;
    SmallPowers();
    var hlit := ReadBits(bs, 5);
    if hlit.None? {
      return None;
    }
    var hdist := ReadBits(bs, 5);
    if hdist.None? {
      return None;
    }
    var hclen := ReadBits(bs, 4);
    if hclen.None? {
      return None;
    }
    var cl := ReadClen(bs, hclen.value + 4);
    if cl.None? {
      return None;
    }
    var h := new Huffman();
    h.Build(cl.value);
    var lens := ReadLengths(bs, h, cl.value, hlit.value + 257 + (hdist.value + 1));
    if lens.None? {
      return None;
    }
    r := Some((lens.value[..hlit.value + 257], lens.value[hlit.value + 257..]));
  }

  /** `inflate_dynamic`. */
  method InflateDynamic(bs: BitStream, out: OutBuf) returns (ok: bool)
    requires bs.Valid() && out.Valid()
    modifies bs, out, out.buf
    ensures bs.Valid() && out.Valid() && old(out.Contents()) <= out.Contents()
    ensures Follows(ok, Dynamic(old(bs.Pending()), old(out.Contents()), out.buf.Length), out, bs)
  {
    hide BitStream.Pending, Header, BlockData, Lengths, Built;
    ghost var (o0, cap) := (out.Contents(), out.buf.Length);
    var head := ReadHeader(bs);
    if head.None? {
      return false;
    }
    var lc := new Huffman();
    var dc := new Huffman();
    lc.Build(head.value.0);
    dc.Build(head.value.1);
    ok := InflateBlockData(bs, out, lc, dc, head.value.0, head.value.1);
  }

  // ---------------------------------------------------------------- streams

  /** `build_fixed_tables`. */
  method FixedTables() returns (lc: Huffman, dc: Huffman)
    ensures Holds(lc, FixedLit()) && Holds(dc, FixedDist())
    ensures fresh(lc) && fresh(lc.count) && fresh(lc.symbol) && fresh(dc) && fresh(dc.count) && fresh(dc.symbol)
  {
    hide Built;
    var lengths := new nat[288](_ => 0);
    for sym: nat := 0 to 144
      invariant forall i :: 0 <= i < sym ==> lengths[i] == 8
    {
      lengths[sym] := 8;
    }
    for sym: nat := 144 to 256
      invariant forall i :: 0 <= i < sym ==> lengths[i] == if i < 144 then 8 else 9
    {
      lengths[sym] := 9;
    }
    for sym: nat := 256 to 280
      invariant forall i :: 0 <= i < sym ==> lengths[i] == if i < 144 then 8 else if i < 256 then 9 else 7
    {
      lengths[sym] := 7;
    }
    for sym: nat := 280 to 288
      invariant forall i :: 0 <= i < sym ==> lengths[i] == if i < 144 then 8 else if i < 256 then 9 else if i < 280 then 7 else 8
    {
      lengths[sym] := 8;
    }
    assert lengths[..] == FixedLit();
    var dlengths := new nat[30](_ => 5);
    assert dlengths[..] == FixedDist();
    lc := new Huffman();
    dc := new Huffman();
    lc.Build(lengths[..]);
    dc.Build(dlengths[..]);
  }

  /** `inflate_zlib`: two header bytes are skipped; decoding ends with the last block or a full buffer. */
  method InflateZlib(input: seq<byte>, out: OutBuf) returns (ok: bool)
    requires out.Valid()
    modifies out, out.buf
    ensures out.Valid() && old(out.Contents()) <= out.Contents()
    ensures |input| < 2 ==> !ok
    ensures |input| >= 2 ==> match Blocks(BytesBits(input[2..]), old(out.Contents()), out.buf.Length)
      case Some(s) => ok && out.Contents() == s
      case None => !ok
  {
    hide BitStream.Pending, BytesBits, Stored, BlockData, Dynamic, FixedLit, FixedDist, Take, Built, Lengths;
    if |input| < 2 {
      return false;
    }
    ghost var (o0, b0, cap) := (out.Contents(), BytesBits(input[2..]), out.buf.Length);
    var bs := new BitStream(input[2..]);
    var lc, dc := FixedTables();
    while true
      invariant bs.Valid() && out.Valid() && Holds(lc, FixedLit()) && Holds(dc, FixedDist()) && o0 <= out.Contents()
      invariant Blocks(bs.Pending(), out.Contents(), cap) == Blocks(b0, o0, cap)
      modifies bs, out, out.buf
      decreases |bs.Pending()|
    {
      var bfinal := ReadBits(bs, 1);
      if bfinal.None? {
        return false;
      }
      var btype := ReadBits(bs, 2);
      if btype.None? {
        return false;
      }
      var rc := false;
      if btype.value == 0 {
        rc := InflateStored(bs, out);
      } else if btype.value == 1 {
        rc := InflateBlockData(bs, out, lc, dc, FixedLit(), FixedDist());
      } else if btype.value == 2 {
        rc := InflateDynamic(bs, out);
      }
      if !rc {
        return false;
      }
      if bfinal.value != 0 {
        break;
      }
      if out.pos >= out.buf.Length {
        break;
      }
    }
    ok := true;
  }
}
