/** Canonical codes decode to their symbols, and fit their lengths exactly when the Kraft sum is at most 1. */
module HuffmanCodes {
  import opened Common
  import opened Bits
  import opened Huffman

  /** A code without its `j` low bits. */
  function Prefix(code: nat, j: nat): nat {
    if j == 0 then code else Prefix(code / 2, j - 1)
  }

  lemma {:induction false} PrefixStep(code: nat, j: nat)
    ensures Prefix(code, j + 1) == Prefix(code, j) / 2
    decreases j
  {
    if j > 0 {
      PrefixStep(code / 2, j - 1);
    }
  }

  lemma FirstStep(count: seq<nat>, l: nat)
    requires 0 < l < |count|
    ensures First(count, l + 1) == 2 * (First(count, l) + count[l])
  {
  }

  lemma PrefixNone(code: nat)
    ensures Prefix(code, 0) == code
  {
  }

  lemma {:induction false} PrefixAll(code: nat, n: nat)
    requires code < Pow2(n)
    ensures Prefix(code, n) == 0
    decreases n
  {
    if n > 0 {
      PrefixAll(code / 2, n - 1);
    }
  }

  lemma {:induction false} CodeBitAt(code: nat, n: nat, i: nat)
    requires i < n
    ensures CodeBits(code, n)[i] == Prefix(code, n - 1 - i) % 2
    decreases n
  {
    if i < n - 1 {
      CodeBitAt(code / 2, n - 1, i);
    }
  }

  /** The first bits of a code are beyond every code of their own length. */
  lemma {:induction false} PrefixBeyond(count: seq<nat>, code: nat, n: nat, j: nat)
    requires |count| == MAXBITS + 1 && j < n <= MAXBITS && First(count, n) <= code
    ensures First(count, n - j) <= Prefix(code, j)
    ensures j > 0 ==> First(count, n - j) + count[n - j] <= Prefix(code, j)
    decreases j
  {
    if j > 0 {
      PrefixBeyond(count, code, n, j - 1);
      PrefixStep(code, j - 1);
    }
  }

  /** Part way through a codeword, `i` bits of it read. */
  lemma {:induction false} DecodeRest(t: Table, code: nat, n: nat, i: nat, rest: seq<bit>)
    requires t.Valid() && i < n <= MAXBITS && First(t.count, n) <= code < First(t.count, n) + t.count[n]
    ensures First(t.count, i + 1) <= 2 * Prefix(code, n - i)
    ensures DecodeFrom(t, CodeBits(code, n)[i..] + rest, i + 1, 2 * Prefix(code, n - i))
      == Some((t.symbol[Shorter(t.count, n) + (code - First(t.count, n))], rest))
    decreases n - i
  {
    hide CodeBits, Prefix, Shorter, DecodeFrom, First;
    var (w, j) := (CodeBits(code, n), n - i);
    if i == 0 {
      FirstOne(t.count);
    }
    PrefixStep(code, j - 1);
    CodeBitAt(code, n, i);
    if i > 0 {
      PrefixBeyond(t.count, code, n, j);
      FirstStep(t.count, i);
    }
    PrefixBeyond(t.count, code, n, j - 1);
    var b := w[i..] + rest;
    assert b[0] == w[i] && b[1..] == w[i + 1..] + rest;
    DecodeStep(t, b, i + 1, 2 * Prefix(code, j));
    PrefixNone(code);
    if j > 1 {
      DecodeRest(t, code, n, i + 1, rest);
    } else {
      assert w[i + 1..] + rest == rest;
    }
  }

  /** Whatever follows it, a codeword that fits its length decodes to its symbol, and nothing more is read. */
  lemma CodewordDecodes(t: Table, lengths: seq<nat>, s: nat, rest: seq<bit>)
    requires Lengths(lengths) && Built(t, lengths) && s < |lengths| && lengths[s] > 0
    requires CodeOf(lengths, s) < Pow2(lengths[s])
    ensures Decode(t, Codeword(lengths, s) + rest) == Some((s, rest))
  {
    hide CodeBits, Prefix, DecodeFrom, First, Rank, Counts, Shorter;
    var (code, n) := (CodeOf(lengths, s), lengths[s]);
    RankBelow(lengths, s);
    PrefixAll(code, n);
    FirstOne(t.count);
    DecodeRest(t, code, n, 0, rest);
    assert CodeBits(code, n)[0..] == CodeBits(code, n);
  }

  // ---------------------------------------------------------------- the Kraft sum

  /** The Kraft sum of the codes up to length `l`, in units of 2^-15. */
  function Kraft(count: seq<nat>, l: nat): nat
    requires |count| == MAXBITS + 1 && l <= MAXBITS
  {
    if l == 0 then 0 else Kraft(count, l - 1) + count[l] * Pow2(MAXBITS - l)
  }

  /** All codes of a set of lengths fit their lengths. */
  predicate Fits(count: seq<nat>)
    requires |count| == MAXBITS + 1
  {
    forall l :: 1 <= l <= MAXBITS ==> First(count, l) + count[l] <= Pow2(l)
  }

  lemma Doubled(a: nat, k: nat)
    ensures (2 * a) * k == a * (2 * k)
  {
  }

  /** The codes up to a length take up the share of the code space that the Kraft sum says. */
  lemma {:induction false} KraftIsShare(count: seq<nat>, l: nat)
    requires |count| == MAXBITS + 1 && 1 <= l <= MAXBITS
    ensures (First(count, l) + count[l]) * Pow2(MAXBITS - l) == Kraft(count, l)
    decreases l
  {
    var k := Pow2(MAXBITS - l);
    MulAdd(First(count, l), count[l], k);
    if l > 1 {
      KraftIsShare(count, l - 1);
      assert Pow2(MAXBITS - (l - 1)) == 2 * k;
      Doubled(First(count, l - 1) + count[l - 1], k);
    }
  }

  lemma {:induction false} KraftMono(count: seq<nat>, l: nat, m: nat)
    requires |count| == MAXBITS + 1 && l <= m <= MAXBITS
    ensures Kraft(count, l) <= Kraft(count, m)
    decreases m
  {
    if l < m {
      KraftMono(count, l, m - 1);
    }
  }

  lemma {:induction false} PowSplit(a: nat, b: nat)
    ensures Pow2(a + b) == Pow2(a) * Pow2(b)
    decreases a
  {
    if a > 0 {
      PowSplit(a - 1, b);
      MulAdd(Pow2(a - 1), Pow2(a - 1), Pow2(b));
    }
  }

  lemma ScaleCompare(x: nat, y: nat, k: nat)
    requires k > 0
    ensures x * k <= y * k <==> x <= y
  {
    if x > y {
      MulAdd(y, x - y, k);
    } else {
      MulAdd(x, y - x, k);
    }
  }

  /** Every code fits its length exactly when the Kraft sum is at most 1. */
  lemma KraftDecides(count: seq<nat>)
    requires |count| == MAXBITS + 1
    ensures Fits(count) <==> Kraft(count, MAXBITS) <= Pow2(MAXBITS)
  {
    hide Kraft, First, Pow2;
    forall l: nat | 1 <= l <= MAXBITS
      ensures First(count, l) + count[l] <= Pow2(l) <==> Kraft(count, l) <= Pow2(MAXBITS) {
      KraftIsShare(count, l);
      PowSplit(l, MAXBITS - l);
      ScaleCompare(First(count, l) + count[l], Pow2(l), Pow2(MAXBITS - l));
    }
    forall l: nat | 1 <= l <= MAXBITS ensures Kraft(count, l) <= Kraft(count, MAXBITS) {
      KraftMono(count, l, MAXBITS);
    }
  }

  /** The code lengths a stream may use. */
  predicate Usable(lengths: seq<nat>) {
    Lengths(lengths) && Kraft(Counts(lengths), MAXBITS) <= Pow2(MAXBITS)
  }

  /** Building a table and decoding with it is right for every set of lengths whose Kraft sum is at most 1. */
  lemma SymbolDecodes(t: Table, lengths: seq<nat>, s: nat, rest: seq<bit>)
    requires Usable(lengths) && Built(t, lengths) && s < |lengths| && lengths[s] > 0
    ensures Decode(t, Codeword(lengths, s) + rest) == Some((s, rest))
  {
    hide Kraft, First, Pow2, Decode, Built, Counts;
    KraftDecides(Counts(lengths));
    RankBelow(lengths, s);
    CodewordDecodes(t, lengths, s, rest);
  }

  /** No codeword is the beginning of another. */
  lemma PrefixFree(t: Table, lengths: seq<nat>, s: nat, s': nat, rest: seq<bit>)
    requires Usable(lengths) && Built(t, lengths)
    requires s < |lengths| && lengths[s] > 0 && s' < |lengths| && lengths[s'] > 0
    requires Codeword(lengths, s') == Codeword(lengths, s) + rest
    ensures s == s' && rest == []
  {
    hide Kraft, First, Pow2, Decode, Built, Counts, CodeBits;
    SymbolDecodes(t, lengths, s, rest);
    SymbolDecodes(t, lengths, s', []);
    assert Codeword(lengths, s') + [] == Codeword(lengths, s');
  }
}
