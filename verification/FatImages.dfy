/** How a file's chain and bytes develop while a write or an extension is under way. */
module FatImages {
  import opened Common
  import opened FatEntries
  import opened FatVolume
  import opened FatChains
  import opened FatContent

  /** What a volume holds: its entries, chains and cluster contents, and whether a search misses none. */
  datatype Image = Image(e: seq<nat>, ch: Chains, cl: Clusters, reaches: bool)

  /** Cluster `c` went from the free ones to the end of chain `g`, filled with zeros. */
  predicate Extended(a: Image, b: Image, g: nat, c: nat, bpc: nat) {
    && g in a.ch && c in FreeSet(a.e) && c < |a.cl|
    && b.ch == a.ch[g := a.ch[g] + [c]] && b.cl == a.cl[c := Zeros(bpc)]
    && |b.e| == |a.e| && |FreeSet(b.e)| + 1 == |FreeSet(a.e)| && b.reaches
  }

  /** No allocation can succeed. */
  predicate Full(a: Image) {
    a.reaches ==> FreeSet(a.e) == {}
  }

  predicate SameBytes(cl: Clusters, cl': Clusters, s: seq<nat>) {
    |cl| == |cl'| && forall i :: 0 <= i < |s| && s[i] < |cl| ==> cl'[s[i]] == cl[s[i]]
  }

  /** Every chain but `f` is as it was, and so are its clusters' bytes. */
  predicate Untouched(a: Image, b: Image, f: nat) {
    forall h :: h in a.ch && h != f ==> h in b.ch && b.ch[h] == a.ch[h] && SameBytes(a.cl, b.cl, a.ch[h])
  }

  /** From `a` to `b` nothing happened but to chain `f`: free clusters lengthened it from `s0` to `s`,
      and bytes of its clusters changed. */
  predicate Grown(a: Image, s0: seq<nat>, b: Image, s: seq<nat>, f: nat) {
    && |b.e| == |a.e| && |b.cl| == |a.cl| && 0 < |s| && s0 <= s
    && (if s0 == [] then f !in a.ch else f in a.ch && a.ch[f] == s0)
    && b.ch == a.ch[f := s]
    && |FreeSet(b.e)| + |s| == |FreeSet(a.e)| + |s0|
    && (forall c :: 0 <= c < |a.cl| && c !in s ==> b.cl[c] == a.cl[c])
    && (a.reaches ==> b.reaches)
  }

  /** The bytes of a file with `n` zeroed clusters appended. */
  function Stretch(cl: Clusters, bpc: nat, s0: seq<nat>, n: nat): seq<byte>
    requires Whole(cl, bpc, s0)
  {
    Content(cl, bpc, s0) + Zeros(Base(bpc, n))
  }

  /** `d` has been written at `offset` and the rest is as before or zero. */
  predicate Written(a: Image, s0: seq<nat>, b: Image, s: seq<nat>, bpc: nat, offset: nat, d: seq<byte>) {
    && |s0| <= |s| && Whole(a.cl, bpc, s0) && Whole(b.cl, bpc, s)
    && var y := Stretch(a.cl, bpc, s0, |s| - |s0|);
       if d == [] then Content(b.cl, bpc, s) == y
       else offset + |d| <= |y| && Content(b.cl, bpc, s) == Patch(y, offset, d)
  }

  // ---------------------------------------------------------------- arithmetic of clusters

  lemma DivBase(bpc: nat, offset: nat, n: nat)
    requires bpc > 0
    ensures offset == Base(bpc, offset / bpc) + offset % bpc && 0 <= offset % bpc < bpc
    ensures offset < Base(bpc, n) ==> offset / bpc < n
  {
    var q := offset / bpc;
    assert offset == bpc * q + offset % bpc;
    if offset < Base(bpc, n) && q >= n {
      BaseMono(bpc, n, q);
    }
  }

  lemma BaseMono(bpc: nat, i: nat, j: nat)
    requires i <= j
    ensures Base(bpc, i) <= Base(bpc, j)
  {
    MulAdd(i, j - i, bpc);
  }

  // ---------------------------------------------------------------- steps

  lemma GrownStart(a: Image, f: nat, s: seq<nat>, bpc: nat, offset: nat)
    requires f in a.ch && a.ch[f] == s && |s| > 0 && Whole(a.cl, bpc, s)
    ensures Grown(a, s, a, s, f) && Written(a, s, a, s, bpc, offset, [])
  {
    assert Zeros(Base(bpc, 0)) == [];
  }

  /** The first cluster of an empty file. */
  lemma GrownFirst(a: Image, b: Image, c: nat, bpc: nat, offset: nat)
    requires c in FreeSet(a.e) && c < |a.cl| && c !in a.ch && b.ch == a.ch[c := [c]] && b.cl == a.cl[c := Zeros(bpc)]
    requires |b.e| == |a.e| && |FreeSet(b.e)| + 1 == |FreeSet(a.e)| && b.reaches
    ensures Grown(a, [], b, [c], c) && Written(a, [], b, [c], bpc, offset, [])
  {
    assert Base(bpc, 1) == bpc;
    assert [c][..0] == [];
  }

  lemma GrownExtend(a: Image, s0: seq<nat>, b: Image, s: seq<nat>, f: nat, b': Image, c: nat, bpc: nat)
    requires Grown(a, s0, b, s, f) && Extended(b, b', f, c, bpc)
    ensures Grown(a, s0, b', s + [c], f)
  {
    hide FreeSet;
    forall d | 0 <= d < |a.cl| && d !in s + [c] ensures b'.cl[d] == a.cl[d] {
      assert d !in s && d != c;
    }
  }

  lemma WrittenExtend(a: Image, s0: seq<nat>, b: Image, s: seq<nat>, f: nat, b': Image, c: nat, bpc: nat, offset: nat, d: seq<byte>)
    requires Written(a, s0, b, s, bpc, offset, d) && Extended(b, b', f, c, bpc) && c !in s
    ensures Written(a, s0, b', s + [c], bpc, offset, d)
  {
    hide Content, Base, Whole, Patch, Zeros;
    ContentAppend(b.cl, bpc, s, c);
    var (x, n) := (Content(a.cl, bpc, s0), |s| - |s0|);
    var y := Stretch(a.cl, bpc, s0, n);
    ZerosAdd(Base(bpc, n), bpc);
    ClusterFits(bpc, n, n + 1);
    assert y + Zeros(bpc) == x + (Zeros(Base(bpc, n)) + Zeros(bpc));
    if d != [] {
      PatchGrown(y, offset, d, Zeros(bpc));
    }
  }

  lemma GrownWrite(a: Image, s0: seq<nat>, b: Image, s: seq<nat>, f: nat, c: nat, v: seq<byte>)
    requires Grown(a, s0, b, s, f) && c in s && c < |b.cl|
    ensures Grown(a, s0, b.(cl := b.cl[c := v]), s, f)
  {
    hide FreeSet;
  }

  /** A piece written into cluster `k` continues the data written so far. */
  lemma WrittenPiece(a: Image, s0: seq<nat>, b: Image, s: seq<nat>, bpc: nat, offset: nat, d: seq<byte>,
                     k: nat, r: nat, d': seq<byte>)
    requires Written(a, s0, b, s, bpc, offset, d) && k < |s| && NoDups(s) && r + |d'| <= bpc && d' != []
    requires offset + |d| == Base(bpc, k) + r
    ensures s[k] < |b.cl| && |b.cl[s[k]]| == bpc
    ensures Written(a, s0, b.(cl := b.cl[s[k] := Patch(b.cl[s[k]], r, d')]), s, bpc, offset, d + d')
  {
    WholeAt(b.cl, bpc, s, k);
    hide Content, Base, Whole, Patch, Stretch;
    ContentWrite(b.cl, bpc, s, k, r, d');
    var y := Stretch(a.cl, bpc, s0, |s| - |s0|);
    if d == [] {
      assert d + d' == d';
    } else {
      PatchTwice(y, offset, d, d');
    }
  }

  lemma WholeAt(cl: Clusters, bpc: nat, s: seq<nat>, k: nat)
    requires Whole(cl, bpc, s) && k < |s|
    ensures s[k] < |cl| && |cl[s[k]]| == bpc
  {
  }

  /** The other files of the volume. */
  lemma GrownUntouched(a: Image, s0: seq<nat>, b: Image, s: seq<nat>, f: nat)
    requires Grown(a, s0, b, s, f) && Apart(b.ch)
    ensures Untouched(a, b, f)
  {
    hide FreeSet;
    forall h | h in a.ch && h != f ensures h in b.ch && b.ch[h] == a.ch[h] && SameBytes(a.cl, b.cl, a.ch[h]) {
      assert f in b.ch && Disjoint(b.ch[h], b.ch[f]);
    }
  }

  /** An untouched file reads as before. */
  lemma UntouchedContent(a: Image, b: Image, f: nat, h: nat, bpc: nat)
    requires Untouched(a, b, f) && h in a.ch && h != f && Whole(a.cl, bpc, a.ch[h])
    ensures h in b.ch && Whole(b.cl, bpc, b.ch[h]) && Content(b.cl, bpc, b.ch[h]) == Content(a.cl, bpc, a.ch[h])
  {
    ContentFrame(a.cl, b.cl, bpc, a.ch[h]);
  }

  /** When nothing is left to allocate the chain holds all that was free. */
  lemma RoomUsed(a: Image, s0: seq<nat>, b: Image, s: seq<nat>, f: nat)
    requires Grown(a, s0, b, s, f) && Full(b) && a.reaches
    ensures |s| == |s0| + |FreeSet(a.e)|
  {
  }
}
