/** The table of a set of code lengths as a value: every built table decodes as it does. */
module HuffmanTables {
  import opened Common
  import opened Bits
  import opened Huffman

  /** The symbols with codes of length `l`, in order. */
  function OfLength(lengths: seq<nat>, l: nat): seq<nat> {
    if lengths == [] then []
    else OfLength(lengths[..|lengths| - 1], l) + if lengths[|lengths| - 1] == l then [|lengths| - 1] else []
  }

  /** The symbols with codes shorter than `l`, by length and then in order. */
  function Sorted(lengths: seq<nat>, l: nat): seq<nat>
    requires l <= MAXBITS + 1
  {
    if l <= 1 then [] else Sorted(lengths, l - 1) + OfLength(lengths, l - 1)
  }

  function Canonical(lengths: seq<nat>): Table {
    Table(Counts(lengths), Sorted(lengths, MAXBITS + 1))
  }

  lemma {:induction false} OfLengthAt(lengths: seq<nat>, l: nat, r: nat)
    requires r < |OfLength(lengths, l)|
    ensures var s := OfLength(lengths, l)[r]; s < |lengths| && lengths[s] == l && Rank(lengths, s) == r
    decreases |lengths|
  {
    var t := lengths[..|lengths| - 1];
    OfLengthSize(t, l);
    if r < |OfLength(t, l)| {
      OfLengthAt(t, l, r);
      var s := OfLength(t, l)[r];
      assert t[..s] == lengths[..s];
    }
  }

  lemma {:induction false} OfLengthSize(lengths: seq<nat>, l: nat)
    ensures |OfLength(lengths, l)| == CountOf(lengths, l)
    decreases |lengths|
  {
    if lengths != [] {
      OfLengthSize(lengths[..|lengths| - 1], l);
    }
  }

  lemma {:induction false} SortedSize(lengths: seq<nat>, l: nat)
    requires l <= MAXBITS + 1
    ensures |Sorted(lengths, l)| == Shorter(Counts(lengths), l)
    decreases l
  {
    if l > 1 {
      SortedSize(lengths, l - 1);
      OfLengthSize(lengths, l - 1);
    }
  }

  /** Every place in the list is that of the symbol in it. */
  lemma {:induction false} SortedAt(lengths: seq<nat>, l: nat, p: nat)
    requires Lengths(lengths) && l <= MAXBITS + 1 && p < |Sorted(lengths, l)|
    ensures var s := Sorted(lengths, l)[p]; s < |lengths| && 0 < lengths[s] && Place(lengths, s) == p
    decreases l
  {
    hide CountOf, Counts, OfLength;
    SortedSize(lengths, l - 1);
    if p < |Sorted(lengths, l - 1)| {
      SortedAt(lengths, l - 1, p);
    } else {
      OfLengthAt(lengths, l - 1, p - |Sorted(lengths, l - 1)|);
    }
  }

  lemma {:induction false} SortedPlace(lengths: seq<nat>, s: nat)
    requires Lengths(lengths) && s < |lengths| && lengths[s] > 0
    ensures Place(lengths, s) < |Sorted(lengths, MAXBITS + 1)| && Sorted(lengths, MAXBITS + 1)[Place(lengths, s)] == s
  {
    hide CountOf, Counts, OfLength, Sorted, Place;
    PlaceBelow(lengths, s);
    SortedSize(lengths, MAXBITS + 1);
    if lengths[s] < MAXBITS + 1 {
      ShorterEnd(lengths, lengths[s]);
    }
    var q := Sorted(lengths, MAXBITS + 1)[Place(lengths, s)];
    SortedAt(lengths, MAXBITS + 1, Place(lengths, s));
    if q < s {
      PlacesApart(lengths, q, s);
    } else if s < q {
      PlacesApart(lengths, s, q);
    }
  }

  lemma ShorterEnd(lengths: seq<nat>, l: nat)
    requires 0 < l <= MAXBITS
    ensures Shorter(Counts(lengths), l) + Counts(lengths)[l] <= Shorter(Counts(lengths), MAXBITS + 1)
  {
    ShorterMono(Counts(lengths), l, MAXBITS + 1);
  }

  lemma CanonicalBuilt(lengths: seq<nat>)
    requires Lengths(lengths)
    ensures Built(Canonical(lengths), lengths)
  {
    hide CountOf, Counts, OfLength, Sorted, Place, Shorter;
    SortedSize(lengths, MAXBITS + 1);
    forall l: nat | 0 < l <= MAXBITS ensures Shorter(Counts(lengths), l) + Counts(lengths)[l] <= |Sorted(lengths, MAXBITS + 1)| {
      ShorterEnd(lengths, l);
    }
    forall s | 0 <= s < |lengths| && lengths[s] > 0
      ensures Place(lengths, s) < |Sorted(lengths, MAXBITS + 1)| && Sorted(lengths, MAXBITS + 1)[Place(lengths, s)] == s {
      SortedPlace(lengths, s);
    }
  }

  lemma BuiltLists(t: Table, lengths: seq<nat>, p: nat)
    requires Lengths(lengths) && Built(t, lengths) && p < |Sorted(lengths, MAXBITS + 1)|
    ensures p < |t.symbol| && t.symbol[p] == Sorted(lengths, MAXBITS + 1)[p]
  {
    hide CountOf, Counts, OfLength, Sorted, Place, Shorter;
    SortedAt(lengths, MAXBITS + 1, p);
  }

  /** Tables built for the same lengths decode alike. */
  lemma {:induction false} BuiltDecodes(t: Table, lengths: seq<nat>, b: seq<bit>, len: nat, code: nat)
    requires Lengths(lengths) && Built(t, lengths) && Canonical(lengths).Valid()
    requires 1 <= len <= MAXBITS + 1 && First(t.count, len) <= code
    ensures DecodeFrom(t, b, len, code) == DecodeFrom(Canonical(lengths), b, len, code)
    decreases MAXBITS + 1 - len
  {
    hide CountOf, Counts, OfLength, Sorted, Place, Shorter, First, DecodeFrom;
    DecodeStep(t, b, len, code);
    DecodeStep(Canonical(lengths), b, len, code);
    if len <= MAXBITS && b != [] {
      var (c, first) := (code + b[0], First(t.count, len));
      if c - first < t.count[len] {
        SortedSize(lengths, MAXBITS + 1);
        ShorterEnd(lengths, len);
        BuiltLists(t, lengths, Shorter(t.count, len) + (c - first));
      } else {
        BuiltDecodes(t, lengths, b[1..], len + 1, 2 * c);
      }
    }
  }

  /** The symbol in front of `b` under the canonical code of `lengths`. */
  function SymbolOf(lengths: seq<nat>, b: seq<bit>): (r: Option<(nat, seq<bit>)>)
    requires Lengths(lengths)
    ensures r.Some? ==> |r.value.1| < |b| && r.value.1 == b[|b| - |r.value.1|..]
  {
    CanonicalBuilt(lengths);
    Decode(Canonical(lengths), b)
  }

  lemma BuiltIsSymbolOf(t: Table, lengths: seq<nat>, b: seq<bit>)
    requires Lengths(lengths) && Built(t, lengths)
    ensures Decode(t, b) == SymbolOf(lengths, b)
  {
    CanonicalBuilt(lengths);
    BuiltDecodes(t, lengths, b, 1, 0);
  }

  lemma {:induction false} SymbolBelow(lengths: seq<nat>, b: seq<bit>, len: nat, code: nat)
    requires Lengths(lengths) && Canonical(lengths).Valid() && 1 <= len <= MAXBITS + 1
    requires First(Canonical(lengths).count, len) <= code
    ensures var r := DecodeFrom(Canonical(lengths), b, len, code);
      r.Some? ==> r.value.0 < |lengths|
    decreases MAXBITS + 1 - len
  {
    hide CountOf, Counts, OfLength, Sorted, Place, Shorter, First, DecodeFrom;
    var t := Canonical(lengths);
    DecodeStep(t, b, len, code);
    if len <= MAXBITS && b != [] {
      var (c, first) := (code + b[0], First(t.count, len));
      if c - first < t.count[len] {
        SortedAt(lengths, MAXBITS + 1, Shorter(t.count, len) + (c - first));
      } else {
        SymbolBelow(lengths, b[1..], len + 1, 2 * c);
      }
    }
  }
}
