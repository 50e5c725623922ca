/** Literals and matches (section 3.2.5 of RFC 1951) and the bytes they stand for. */
module Lz77 {
  import opened Common
  import opened Bits

  function LenBase(l: nat): nat
    requires l < 29
  {
    [3, 4, 5, 6, 7, 8, 9, 10, 11, 13, 15, 17, 19, 23, 27, 31, 35, 43, 51, 59, 67, 83, 99, 115, 131, 163, 195, 227, 258][l]
  }

  function LenExtra(l: nat): nat
    requires l < 29
  {
    [0, 0, 0, 0, 0, 0, 0, 0, 1, 1, 1, 1, 2, 2, 2, 2, 3, 3, 3, 3, 4, 4, 4, 4, 5, 5, 5, 5, 0][l]
  }

  function DistBase(d: nat): (n: nat)
    requires d < 30
    ensures n > 0
  {
    [1, 2, 3, 4, 5, 7, 9, 13, 17, 25, 33, 49, 65, 97, 129, 193, 257, 385, 513, 769, 1025, 1537, 2049, 3073, 4097, 6145, 8193,
     12289, 16385, 24577][d]
  }

  function DistExtra(d: nat): nat
    requires d < 30
  {
    [0, 0, 0, 0, 1, 1, 2, 2, 3, 3, 4, 4, 5, 5, 6, 6, 7, 7, 8, 8, 9, 9, 10, 10, 11, 11, 12, 12, 13, 13][d]
  }

  /** A literal byte, or a match given by its length and distance symbols and their extra bits. */
  datatype Token = Literal(value: byte) | Match(l: nat, lx: nat, d: nat, dx: nat)
  {
    predicate Valid() {
      Match? ==> l < 29 && lx < Pow2(LenExtra(l)) && d < 30 && dx < Pow2(DistExtra(d))
    }

    function Length(): nat
      requires Match? && Valid()
    {
      LenBase(l) + lx
    }

    function Distance(): (n: nat)
      requires Match? && Valid()
      ensures n > 0
    {
      DistBase(d) + dx
    }
  }

  /** `len` bytes appended one by one, each a copy of the byte `dist` before it. */
  function Repeat(out: seq<byte>, dist: nat, len: nat): (r: seq<byte>)
    requires 0 < dist <= |out|
    ensures |r| == |out| + len && r[..|out|] == out
    decreases len
  {
    if len == 0 then out else Repeat(out + [out[|out| - dist]], dist, len - 1)
  }

  /** A match that reaches into its own output repeats the last `dist` bytes. */
  lemma {:induction false} RepeatIsPeriodic(out: seq<byte>, dist: nat, len: nat, i: nat)
    requires 0 < dist <= |out| && i < len
    ensures Repeat(out, dist, len)[|out| + i] == out[|out| - dist + i % dist]
    decreases len
  {
    var next := out + [out[|out| - dist]];
    var r := Repeat(out, dist, len);
    if i == 0 {
      assert r[|out|] == r[..|next|][|out|];
    } else {
      RepeatIsPeriodic(next, dist, len - 1, i - 1);
      NextRemainder(i, dist);
    }
  }

  lemma NextRemainder(i: nat, d: nat)
    requires 0 < i && 0 < d
    ensures i % d == if (i - 1) % d == d - 1 then 0 else (i - 1) % d + 1
  {
    var (q, r) := ((i - 1) / d, (i - 1) % d);
    assert i - 1 == d * q + r;
    if r == d - 1 {
      assert i == (q + 1) * d;
      ModIs(i, q + 1, d, 0);
    } else {
      assert i == q * d + (r + 1);
      ModIs(i, q, d, r + 1);
    }
  }

  /** What a token does to the output; a match must not reach in front of it. */
  predicate Reaches(out: seq<byte>, t: Token) {
    t.Valid() && (t.Match? ==> t.Distance() <= |out|)
  }

  function Step(out: seq<byte>, t: Token): (r: seq<byte>)
    requires Reaches(out, t)
    ensures |out| <= |r| && r[..|out|] == out
  {
    if t.Literal? then out + [t.value] else Repeat(out, t.Distance(), t.Length())
  }

  predicate AllReach(out: seq<byte>, toks: seq<Token>)
    decreases |toks|
  {
    toks == [] || (Reaches(out, toks[0]) && AllReach(Step(out, toks[0]), toks[1..]))
  }

  function Expand(out: seq<byte>, toks: seq<Token>): (r: seq<byte>)
    requires AllReach(out, toks)
    ensures |out| <= |r| && r[..|out|] == out
    decreases |toks|
  {
    if toks == [] then out
    else
      var next := Step(out, toks[0]);
      var r := Expand(next, toks[1..]);
      assert r[..|out|] == r[..|next|][..|out|];
      r
  }

  /** The lengths of one symbol end where those of the next begin, but for the last symbol. */
  lemma LengthsAdjoin(l: nat)
    requires l < 27
    ensures LenBase(l + 1) == LenBase(l) + Pow2(LenExtra(l))
  {
    SmallPowers();
  }

  lemma DistancesAdjoin(d: nat)
    requires d < 29
    ensures DistBase(d + 1) == DistBase(d) + Pow2(DistExtra(d))
  {
    SmallPowers();
    LargePowers();
  }

  lemma SmallPowers()
    ensures Pow2(0) == 1 && Pow2(1) == 2 && Pow2(2) == 4 && Pow2(3) == 8 && Pow2(4) == 16 && Pow2(5) == 32
  {
  }

  lemma LargePowers()
    ensures Pow2(6) == 64 && Pow2(7) == 128 && Pow2(8) == 256 && Pow2(9) == 512
    ensures Pow2(10) == 1024 && Pow2(11) == 2048 && Pow2(12) == 4096 && Pow2(13) == 8192
  {
  }

  lemma Ends()
    ensures LenBase(0) == 3 && LenBase(27) == 227 && Pow2(LenExtra(27)) == 32 && LenBase(28) == 258 && LenExtra(28) == 0
    ensures DistBase(0) == 1 && DistBase(29) == 24577 && Pow2(DistExtra(29)) == 8192
  {
    SmallPowers();
    LargePowers();
  }

  /** Every length from 3 to 258 has a symbol. */
  lemma LengthHasSymbol(len: nat) returns (l: nat, lx: nat)
    requires 3 <= len <= 258
    ensures l < 29 && lx < Pow2(LenExtra(l)) && LenBase(l) + lx == len
  {
    hide LenBase, LenExtra;
    Ends();
    if len == 258 {
      return 28, 0;
    }
    l := 27;
    while LenBase(l) > len
      invariant 0 <= l <= 27 && len < LenBase(l) + Pow2(LenExtra(l))
      decreases l
    {
      l := l - 1;
      LengthsAdjoin(l);
    }
    lx := len - LenBase(l);
  }

  /** Every distance from 1 to 32768 has a symbol. */
  lemma DistanceHasSymbol(dist: nat) returns (d: nat, dx: nat)
    requires 1 <= dist <= 32768
    ensures d < 30 && dx < Pow2(DistExtra(d)) && DistBase(d) + dx == dist
  {
    hide DistBase, DistExtra;
    Ends();
    d := 29;
    while DistBase(d) > dist
      invariant 0 <= d <= 29 && dist < DistBase(d) + Pow2(DistExtra(d))
      decreases d
    {
      d := d - 1;
      DistancesAdjoin(d);
    }
    dx := dist - DistBase(d);
  }
}
