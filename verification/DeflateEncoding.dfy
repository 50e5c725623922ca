/** Streams as an encoder writes them (sections 3.2.3 to 3.2.7 of RFC 1951), and that decoding inverts it. */
module DeflateEncoding {
  import opened Common
  import opened Bits
  import opened Huffman
  import opened HuffmanTables
  import opened HuffmanCodes
  import opened Lz77
  import opened Deflate

  // ---------------------------------------------------------------- symbols and numbers

  predicate HasCode(lengths: seq<nat>, s: nat) {
    Lengths(lengths) && s < |lengths| && lengths[s] > 0
  }

  lemma SymbolBack(lengths: seq<nat>, s: nat, rest: seq<bit>)
    requires Usable(lengths) && HasCode(lengths, s)
    ensures SymbolOf(lengths, Codeword(lengths, s) + rest) == Some((s, rest))
  {
    hide Decode, Codeword, Kraft, Built;
    CanonicalBuilt(lengths);
    SymbolDecodes(Canonical(lengths), lengths, s, rest);
  }

  lemma NumberBack(v: nat, n: nat, rest: seq<bit>)
    requires v < Pow2(n)
    ensures Take(BitsOf(v, n) + rest, n) == Some((v, rest))
  {
    hide BitsOf, ValueOf, Pow2;
    ValueOfBits(v, n);
    var b := BitsOf(v, n) + rest;
    assert b[..n] == BitsOf(v, n) && b[n..] == rest;
  }

  // ---------------------------------------------------------------- literals and matches

  /** A token whose symbols the two codes have. */
  predicate Codable(t: Token, ll: seq<nat>, dl: seq<nat>) {
    t.Valid() && match t
      case Literal(v) => HasCode(ll, v)
      case Match(l, _, d, _) => HasCode(ll, 257 + l) && HasCode(dl, d)
  }

  predicate AllCodable(toks: seq<Token>, ll: seq<nat>, dl: seq<nat>) {
    forall i :: 0 <= i < |toks| ==> Codable(toks[i], ll, dl)
  }

  function TokenBits(t: Token, ll: seq<nat>, dl: seq<nat>): seq<bit>
    requires Codable(t, ll, dl)
  {
    match t
    case Literal(v) => Codeword(ll, v)
    case Match(l, lx, d, dx) =>
      Codeword(ll, 257 + l) + (BitsOf(lx, LenExtra(l)) + (Codeword(dl, d) + BitsOf(dx, DistExtra(d))))
  }

  /** The tokens of a block and its end. */
  function DataBits(toks: seq<Token>, ll: seq<nat>, dl: seq<nat>): seq<bit>
    requires AllCodable(toks, ll, dl) && HasCode(ll, 256)
  {
    if toks == [] then Codeword(ll, 256) else TokenBits(toks[0], ll, dl) + DataBits(toks[1..], ll, dl)
  }

  lemma DistanceBack(d: nat, dx: nat, dl: seq<nat>, rest: seq<bit>)
    requires Usable(dl) && HasCode(dl, d) && d < 30 && dx < Pow2(DistExtra(d))
    ensures DistanceOf(Codeword(dl, d) + BitsOf(dx, DistExtra(d)) + rest, dl) == Some((DistBase(d) + dx, rest))
  {
    hide Codeword, Kraft, SymbolOf, BitsOf, DistBase, DistExtra, Pow2, Take;
    var x := BitsOf(dx, DistExtra(d));
    Regroup(Codeword(dl, d), x, rest);
    SymbolBack(dl, d, x + rest);
    NumberBack(dx, DistExtra(d), rest);
  }

  lemma MatchBack(t: Token, ll: seq<nat>, dl: seq<nat>, rest: seq<bit>)
    requires Usable(ll) && Usable(dl) && t.Match? && Codable(t, ll, dl)
    ensures SymbolOf(ll, TokenBits(t, ll, dl) + rest).Some?
    ensures var r := SymbolOf(ll, TokenBits(t, ll, dl) + rest).value;
      r.0 == 257 + t.l && MatchOf(r.1, t.l, dl) == Some(((t.Length(), t.Distance()), rest))
  {
    hide Codeword, Kraft, SymbolOf, BitsOf, DistBase, DistExtra, LenBase, LenExtra, Pow2, Take, DistanceOf;
    var (x, y) := (BitsOf(t.lx, LenExtra(t.l)), Codeword(dl, t.d) + BitsOf(t.dx, DistExtra(t.d)));
    Regroup(Codeword(ll, 257 + t.l), x + y, rest);
    Regroup(x, y, rest);
    SymbolBack(ll, 257 + t.l, x + (y + rest));
    NumberBack(t.lx, LenExtra(t.l), y + rest);
    DistanceBack(t.d, t.dx, dl, rest);
  }

  /** The data of a block decode to the expansion of its tokens. */
  lemma {:induction false} DataBack(toks: seq<Token>, ll: seq<nat>, dl: seq<nat>, out: seq<byte>, cap: nat, rest: seq<bit>)
    requires Usable(ll) && Usable(dl) && AllCodable(toks, ll, dl) && HasCode(ll, 256)
    requires AllReach(out, toks) && |Expand(out, toks)| <= cap
    ensures BlockData(DataBits(toks, ll, dl) + rest, out, ll, dl, cap) == Some((Expand(out, toks), rest))
    decreases |toks|
  {
    hide Codeword, Kraft, SymbolOf, TokenBits, MatchOf, Repeat;
    if toks == [] {
      SymbolBack(ll, 256, rest);
    } else {
      var (t, more) := (toks[0], DataBits(toks[1..], ll, dl));
      DataBack(toks[1..], ll, dl, Step(out, t), cap, rest);
      Regroup(TokenBits(t, ll, dl), more, rest);
      if t.Literal? {
        LiteralBack(t, ll, dl, more + rest);
      } else {
        MatchBack(t, ll, dl, more + rest);
      }
    }
  }

  lemma LiteralBack(t: Token, ll: seq<nat>, dl: seq<nat>, rest: seq<bit>)
    requires Usable(ll) && t.Literal? && Codable(t, ll, dl)
    ensures SymbolOf(ll, TokenBits(t, ll, dl) + rest) == Some((t.value as nat, rest))
  {
    hide Kraft, SymbolOf, Codeword;
    SymbolBack(ll, t.value, rest);
  }
}
