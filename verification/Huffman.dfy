/** Canonical Huffman codes (section 3.2.2 of RFC 1951): building the decoding table and decoding. */
module Huffman {
  import opened Common
  import opened Bits

  const MAXBITS := 15
  const SYMBOLS := 320                   // room for every table a stream can ask for

  /** Code lengths of the symbols 0, 1, ...; 0 for a symbol that has no code. */
  predicate Lengths(lengths: seq<nat>) {
    |lengths| <= SYMBOLS && forall i :: 0 <= i < |lengths| ==> lengths[i] <= MAXBITS
  }

  predicate Bounded(lens: seq<nat>) {
    forall i :: 0 <= i < |lens| ==> lens[i] <= MAXBITS
  }

  /** How many symbols have codes of length `l`. */
  function CountOf(lengths: seq<nat>, l: nat): (n: nat)
    ensures n <= |lengths|
  {
    if lengths == [] then 0
    else CountOf(lengths[..|lengths| - 1], l) + if lengths[|lengths| - 1] == l then 1 else 0
  }

  function Counts(lengths: seq<nat>): (c: seq<nat>)
    ensures |c| == MAXBITS + 1
  {
    seq(MAXBITS + 1, l requires 0 <= l <= MAXBITS => if l == 0 then 0 else CountOf(lengths, l))
  }

  /** How many symbols before `s` have codes as long as its own. */
  function Rank(lengths: seq<nat>, s: nat): nat
    requires s < |lengths|
  {
    CountOf(lengths[..s], lengths[s])
  }

  /** How many codes are shorter than `l`. */
  function Shorter(count: seq<nat>, l: nat): nat
    requires l <= |count|
  {
    if l <= 1 then 0 else Shorter(count, l - 1) + count[l - 1]
  }

  /** The first code of length `l`. */
  function First(count: seq<nat>, l: nat): nat
    requires l <= |count|
  {
    if l <= 1 then 0 else 2 * (First(count, l - 1) + count[l - 1])
  }

  /** The code of symbol `s`. */
  function CodeOf(lengths: seq<nat>, s: nat): nat
    requires s < |lengths| && lengths[s] <= MAXBITS
  {
    First(Counts(lengths), lengths[s]) + Rank(lengths, s)
  }

  /** The `n` low bits of a code, most significant first. */
  function CodeBits(code: nat, n: nat): (b: seq<bit>)
    ensures |b| == n
  {
    if n == 0 then [] else CodeBits(code / 2, n - 1) + [code % 2]
  }

  function Codeword(lengths: seq<nat>, s: nat): (b: seq<bit>)
    requires s < |lengths| && lengths[s] <= MAXBITS
    ensures |b| == lengths[s]
  {
    CodeBits(CodeOf(lengths, s), lengths[s])
  }

  // ---------------------------------------------------------------- counting

  lemma CountStep(lengths: seq<nat>, i: nat, l: nat)
    requires i < |lengths|
    ensures CountOf(lengths[..i + 1], l) == CountOf(lengths[..i], l) + if lengths[i] == l then 1 else 0
  {
    assert lengths[..i + 1][..i] == lengths[..i];
  }

  lemma {:induction false} CountMono(lengths: seq<nat>, i: nat, j: nat, l: nat)
    requires i <= j <= |lengths|
    ensures CountOf(lengths[..i], l) <= CountOf(lengths[..j], l)
    decreases j
  {
    if i < j {
      CountMono(lengths, i, j - 1, l);
      CountStep(lengths, j - 1, l);
    }
  }

  lemma RankBelow(lengths: seq<nat>, s: nat)
    requires s < |lengths| && 0 < lengths[s] <= MAXBITS
    ensures Rank(lengths, s) < Counts(lengths)[lengths[s]]
  {
    CountStep(lengths, s, lengths[s]);
    CountMono(lengths, s + 1, |lengths|, lengths[s]);
    assert lengths[..|lengths|] == lengths;
  }

  lemma {:induction false} ShorterMono(count: seq<nat>, l: nat, m: nat)
    requires 0 < l < m <= |count|
    ensures Shorter(count, l) + count[l] <= Shorter(count, m)
    decreases m
  {
    if l + 1 < m {
      ShorterMono(count, l, m - 1);
    }
  }

  /** Symbols with codes up to length `l` are at most all symbols. */
  lemma {:induction false} ShorterCounts(lengths: seq<nat>, l: nat)
    requires 0 < l <= MAXBITS + 1
    ensures Shorter(Counts(lengths), l) == NonZero(lengths, l) <= |lengths|
    decreases l
  {
    if l == 1 {
      NoneShorter(lengths);
    } else {
      ShorterCounts(lengths, l - 1);
      NonZeroStep(lengths, l - 1);
    }
  }

  /** How many symbols have codes shorter than `l`. */
  function NonZero(lengths: seq<nat>, l: nat): (n: nat)
    ensures n <= |lengths|
  {
    if lengths == [] then 0
    else NonZero(lengths[..|lengths| - 1], l) + if 0 < lengths[|lengths| - 1] < l then 1 else 0
  }

  lemma {:induction false} NoneShorter(lengths: seq<nat>)
    ensures NonZero(lengths, 1) == 0
    decreases |lengths|
  {
    if lengths != [] {
      NoneShorter(lengths[..|lengths| - 1]);
    }
  }

  lemma {:induction false} NonZeroStep(lengths: seq<nat>, l: nat)
    requires l > 0
    ensures NonZero(lengths, l + 1) == NonZero(lengths, l) + CountOf(lengths, l)
    decreases |lengths|
  {
    if lengths != [] {
      NonZeroStep(lengths[..|lengths| - 1], l);
    }
  }

  // ---------------------------------------------------------------- the table

  /** `huffman_t` as values. */
  datatype Table = Table(count: seq<nat>, symbol: seq<nat>)
  {
    predicate Valid() {
      && |count| == MAXBITS + 1
      && forall l :: 0 < l <= MAXBITS ==> Shorter(count, l) + count[l] <= |symbol|
    }
  }

  /** Where the table lists symbol `s`. */
  function Place(lengths: seq<nat>, s: nat): nat
    requires s < |lengths| && lengths[s] <= MAXBITS
  {
    Shorter(Counts(lengths), lengths[s]) + Rank(lengths, s)
  }

  /** The table counts the codes of each length and lists the symbols by length, and by number within one. */
  predicate Built(t: Table, lengths: seq<nat>)
    requires Lengths(lengths)
  {
    && t.Valid() && t.count == Counts(lengths)
    && forall s :: 0 <= s < |lengths| && lengths[s] > 0 ==>
         Place(lengths, s) < |t.symbol| && t.symbol[Place(lengths, s)] == s
  }

  lemma PlaceBelow(lengths: seq<nat>, s: nat)
    requires Lengths(lengths) && s < |lengths| && lengths[s] > 0
    ensures Shorter(Counts(lengths), lengths[s]) <= Place(lengths, s)
      < Shorter(Counts(lengths), lengths[s]) + Counts(lengths)[lengths[s]] <= |lengths|
  {
    RankBelow(lengths, s);
    ShorterCounts(lengths, lengths[s] + 1);
  }

  /** Different symbols have different places. */
  lemma PlacesApart(lengths: seq<nat>, s: nat, t: nat)
    requires Lengths(lengths) && s < t < |lengths| && lengths[s] > 0 && lengths[t] > 0
    ensures Place(lengths, s) != Place(lengths, t)
  {
    var (l, m) := (lengths[s], lengths[t]);
    PlaceBelow(lengths, s);
    PlaceBelow(lengths, t);
    if l == m {
      CountStep(lengths, s, l);
      CountMono(lengths, s + 1, t, l);
    } else if l < m {
      ShorterMono(Counts(lengths), l, m);
    } else {
      ShorterMono(Counts(lengths), m, l);
    }
  }

  /** Where the next symbol of each length goes once the symbols below `sym` are placed. */
  predicate NextFree(lengths: seq<nat>, sym: nat, offs: seq<nat>)
    requires sym <= |lengths|
  {
    && |offs| == MAXBITS + 1
    && forall l :: 1 <= l <= MAXBITS ==> offs[l] == Shorter(Counts(lengths), l) + CountOf(lengths[..sym], l)
  }

  lemma NextFreeStart(lengths: seq<nat>, offs: seq<nat>)
    requires |offs| == MAXBITS + 1 && forall l :: 1 <= l <= MAXBITS ==> offs[l] == Shorter(Counts(lengths), l)
    ensures NextFree(lengths, 0, offs)
  {
  }

  lemma NextFreeStep(lengths: seq<nat>, sym: nat, offs: seq<nat>)
    requires Lengths(lengths) && sym < |lengths| && NextFree(lengths, sym, offs)
    ensures var len := lengths[sym];
      if len == 0 then NextFree(lengths, sym + 1, offs)
      else offs[len] == Place(lengths, sym) && NextFree(lengths, sym + 1, offs[len := offs[len] + 1])
  {
    hide Counts, Shorter, CountOf;
    forall l: nat | 1 <= l <= MAXBITS
      ensures CountOf(lengths[..sym + 1], l) == CountOf(lengths[..sym], l) + if lengths[sym] == l then 1 else 0 {
      CountStep(lengths, sym, l);
    }
  }

  /** The symbol in front of `b`, and what follows it; `code` holds the bits before bit number `len`. */
  function DecodeFrom(t: Table, b: seq<bit>, len: nat, code: nat): (r: Option<(nat, seq<bit>)>)
    requires t.Valid() && 1 <= len <= MAXBITS + 1 && First(t.count, len) <= code
    ensures r.Some? ==> |r.value.1| < |b| && r.value.1 == b[|b| - |r.value.1|..]
    decreases MAXBITS + 1 - len
  {
    if len > MAXBITS || b == [] then None
    else
      var (c, first) := (code + b[0], First(t.count, len));
      if c - first < t.count[len] then Some((t.symbol[Shorter(t.count, len) + (c - first)], b[1..]))
      else DecodeFrom(t, b[1..], len + 1, 2 * c)
  }

  function Decode(t: Table, b: seq<bit>): (r: Option<(nat, seq<bit>)>)
    requires t.Valid()
    ensures r.Some? ==> |r.value.1| < |b| && r.value.1 == b[|b| - |r.value.1|..]
  {
    DecodeFrom(t, b, 1, 0)
  }

  lemma FirstOne(count: seq<nat>)
    requires |count| == MAXBITS + 1
    ensures First(count, 1) == 0 && Shorter(count, 1) == 0
  {
  }

  /** One bit of a codeword. */
  lemma DecodeStep(t: Table, b: seq<bit>, len: nat, code: nat)
    requires t.Valid() && 1 <= len <= MAXBITS + 1 && First(t.count, len) <= code
    ensures len > MAXBITS || b == [] ==> DecodeFrom(t, b, len, code) == None
    ensures len <= MAXBITS && b != [] ==>
      var (c, first, index, n) := (code + b[0], First(t.count, len), Shorter(t.count, len), t.count[len]);
      && First(t.count, len + 1) == 2 * (first + n) && Shorter(t.count, len + 1) == index + n && index + n <= |t.symbol|
      && (if c - first < n then DecodeFrom(t, b, len, code) == Some((t.symbol[index + (c - first)], b[1..]))
          else First(t.count, len + 1) <= 2 * c && DecodeFrom(t, b, len, code) == DecodeFrom(t, b[1..], len + 1, 2 * c))
  {
  }

  lemma TableFits(lengths: seq<nat>, symbol: seq<nat>)
    requires Lengths(lengths) && |symbol| == SYMBOLS
    ensures Table(Counts(lengths), symbol).Valid()
  {
    forall l: nat | 0 < l <= MAXBITS ensures Shorter(Counts(lengths), l) + Counts(lengths)[l] <= SYMBOLS {
      ShorterCounts(lengths, l + 1);
    }
  }

  class Huffman {
    const count: array<nat>
    const symbol: array<nat>

    ghost predicate Allocated()
      reads {}
    {
      count.Length == MAXBITS + 1 && symbol.Length == SYMBOLS && count != symbol
    }

    ghost function View(): Table
      reads count, symbol
    {
      Table(count[..], symbol[..])
    }

    constructor ()
      ensures Allocated() && fresh(count) && fresh(symbol)
    {
      count := new nat[MAXBITS + 1](_ => 0);
      symbol := new nat[SYMBOLS](_ => 0);
    }

    /** `huffman_build`. */
    method Build(lengths: seq<nat>)
      requires Allocated() && Lengths(lengths)
      modifies count, symbol
      ensures Built(View(), lengths)
    {
      hide Counts, CountOf, Place, Shorter, Table.Valid;
      CountCodes(lengths);
      var offs := Offsets();
      FillSymbols(lengths, offs);
      TableFits(lengths, symbol[..]);
    }

    /** The offsets loop of `huffman_build`. */
    method Offsets() returns (offs: array<nat>)
      requires Allocated()
      ensures fresh(offs) && offs.Length == MAXBITS + 1
      ensures forall l :: 1 <= l <= MAXBITS ==> offs[l] == Shorter(count[..], l)
    {
      ghost var c := count[..];
      offs := new nat[MAXBITS + 1](_ => 0);
      for len: nat := 1 to MAXBITS
        invariant forall l :: 1 <= l <= len ==> offs[l] == Shorter(c, l)
        modifies offs
      {
        assert count[len] == c[len];
        offs[len + 1] := offs[len] + count[len];
      }
    }

    /** The last loop of `huffman_build`: each symbol goes behind those of its length that were placed before. */
    method FillSymbols(lengths: seq<nat>, offs: array<nat>)
      requires Allocated() && Lengths(lengths) && offs.Length == MAXBITS + 1 && offs != symbol && offs != count
      requires forall l :: 1 <= l <= MAXBITS ==> offs[l] == Shorter(Counts(lengths), l)
      modifies offs, symbol
      ensures forall s :: 0 <= s < |lengths| && lengths[s] > 0 ==>
        Place(lengths, s) < symbol.Length && symbol[Place(lengths, s)] == s
    {
      hide Counts, Place, CountOf, Shorter;
      NextFreeStart(lengths, offs[..]);
      for sym: nat := 0 to |lengths|
        invariant NextFree(lengths, sym, offs[..])
        invariant forall s :: 0 <= s < sym && lengths[s] > 0 ==>
          Place(lengths, s) < symbol.Length && symbol[Place(lengths, s)] == s
      {
        var len := lengths[sym];
        NextFreeStep(lengths, sym, offs[..]);
        if len != 0 {
          PlaceBelow(lengths, sym);
          forall s | 0 <= s < sym && lengths[s] > 0 ensures Place(lengths, s) != Place(lengths, sym) {
            PlacesApart(lengths, s, sym);
          }
          symbol[offs[len]] := sym;
          offs[len] := offs[len] + 1;
        }
      }
    }

    /** The counting loops of `huffman_build`. */
    method CountCodes(lengths: seq<nat>)
      requires Allocated() && Lengths(lengths)
      modifies count
      ensures count[..] == Counts(lengths)
    {
      for len: nat := 0 to MAXBITS + 1
        invariant forall l :: 0 <= l < len ==> count[l] == 0
      {
        count[len] := 0;
      }
      for sym: nat := 0 to |lengths|
        invariant forall l :: 0 <= l <= MAXBITS ==> count[l] == CountOf(lengths[..sym], l)
      {
        var len := lengths[sym];
        count[len] := count[len] + 1;
        forall l: nat | 0 <= l <= MAXBITS ensures CountOf(lengths[..sym + 1], l) == CountOf(lengths[..sym], l) + if len == l then 1 else 0 {
          CountStep(lengths, sym, l);
        }
      }
      assert lengths[..|lengths|] == lengths;
      count[0] := 0;
    }

    /** `huffman_decode`: it reads exactly the bits of one code. */
    method DecodeSymbol(bs: BitStream) returns (sym: Option<nat>)
      requires Allocated() && View().Valid() && bs.Valid()
      modifies bs
      ensures bs.Valid()
      ensures match Decode(View(), old(bs.Pending()))
        case Some(r) => sym == Some(r.0) && bs.Pending() == r.1
        case None => sym == None
    {
      hide BitStream.Pending, DecodeFrom, First, Shorter;
      ghost var (t, b) := (View(), bs.Pending());
      FirstOne(t.count);
      var code: nat, first: nat, index: nat := 0, 0, 0;
      for len: nat := 1 to MAXBITS + 1
        invariant bs.Valid() && View() == t && first == First(t.count, len) <= code && index == Shorter(t.count, len)
        invariant DecodeFrom(t, bs.Pending(), len, code) == Decode(t, b)
      {
        DecodeStep(t, bs.Pending(), len, code);
        var bit := bs.GetBit();
        if bit.None? {
          return None;
        }
        code := code + bit.value;
        var n := count[len];
        if code - first < n {
          return Some(symbol[index + (code - first)]);
        }
        index := index + n;
        first := first + n;
        first := 2 * first;
        code := 2 * code;
      }
      DecodeStep(t, bs.Pending(), MAXBITS + 1, code);
      sym := None;
    }
  }
}
