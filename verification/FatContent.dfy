/** The bytes of a chain of clusters, and what writing a piece of one cluster does to them. */
module FatContent {
  import opened Common
  import opened FatEntries
  import opened FatVolume
  import opened FatChains

  type Clusters = seq<seq<byte>>

  /** Every cluster of `s` exists and holds `bpc` bytes. */
  predicate Whole(cl: Clusters, bpc: nat, s: seq<nat>) {
    forall i :: 0 <= i < |s| ==> s[i] < |cl| && |cl[s[i]]| == bpc
  }

  /** The bytes of the clusters of `s`, one after the other. */
  function Content(cl: Clusters, bpc: nat, s: seq<nat>): (r: seq<byte>)
    requires Whole(cl, bpc, s)
  {
    if s == [] then [] else Content(cl, bpc, s[..|s| - 1]) + cl[Last(s)]
  }

  lemma {:induction false} ContentSize(cl: Clusters, bpc: nat, s: seq<nat>)
    requires Whole(cl, bpc, s)
    ensures |Content(cl, bpc, s)| == Base(bpc, |s|)
    decreases |s|
  {
    if s != [] {
      ContentSize(cl, bpc, s[..|s| - 1]);
      ClusterFits(bpc, |s| - 1, |s|);
    }
  }

  lemma {:induction false} ContentFrame(cl: Clusters, cl': Clusters, bpc: nat, s: seq<nat>)
    requires Whole(cl, bpc, s) && |cl| == |cl'| && forall i :: 0 <= i < |s| ==> cl'[s[i]] == cl[s[i]]
    ensures Whole(cl', bpc, s) && Content(cl', bpc, s) == Content(cl, bpc, s)
    decreases |s|
  {
    if s != [] {
      ContentFrame(cl, cl', bpc, s[..|s| - 1]);
    }
  }

  /** The bytes of a prefix of the chain come first. */
  lemma {:induction false} ContentPrefix(cl: Clusters, bpc: nat, s: seq<nat>, k: nat)
    requires Whole(cl, bpc, s) && k <= |s|
    ensures Base(bpc, k) <= |Content(cl, bpc, s)|
    ensures Content(cl, bpc, s)[..Base(bpc, k)] == Content(cl, bpc, s[..k])
    decreases |s| - k
  {
    hide Base;
    ContentSize(cl, bpc, s);
    ContentSize(cl, bpc, s[..k]);
    if k == |s| {
      assert s[..k] == s;
    } else {
      ContentPrefix(cl, bpc, s, k + 1);
      assert s[..k + 1][..k] == s[..k];
      assert Content(cl, bpc, s[..k + 1]) == Content(cl, bpc, s[..k]) + cl[s[k]];
      ClusterFits(bpc, k, |s|);
    }
  }

  /** The `k`-th cluster's bytes in the content. */
  lemma ContentAt(cl: Clusters, bpc: nat, s: seq<nat>, k: nat)
    requires Whole(cl, bpc, s) && k < |s|
    ensures Base(bpc, k) + bpc <= |Content(cl, bpc, s)| == Base(bpc, |s|)
    ensures Content(cl, bpc, s)[Base(bpc, k)..Base(bpc, k) + bpc] == cl[s[k]]
  {
    hide Base;
    ContentSize(cl, bpc, s);
    ContentSize(cl, bpc, s[..k]);
    ContentPrefix(cl, bpc, s, k + 1);
    ClusterFits(bpc, k, |s|);
    var t := s[..k + 1];
    assert t[..k] == s[..k];
    assert Content(cl, bpc, t) == Content(cl, bpc, s[..k]) + cl[s[k]];
    assert Content(cl, bpc, s)[Base(bpc, k)..Base(bpc, k) + bpc] == Content(cl, bpc, t)[Base(bpc, k)..];
  }

  /** Replacing the `k`-th cluster replaces its bytes in the content. */
  lemma {:induction false} ContentPut(cl: Clusters, bpc: nat, s: seq<nat>, k: nat, v: seq<byte>)
    requires Whole(cl, bpc, s) && k < |s| && NoDups(s) && |v| == bpc
    ensures Whole(cl[s[k] := v], bpc, s) && Base(bpc, k) + bpc <= |Content(cl, bpc, s)|
    ensures Content(cl[s[k] := v], bpc, s) == Patch(Content(cl, bpc, s), Base(bpc, k), v)
    decreases |s|
  {
    hide Base;
    var (cl', t) := (cl[s[k] := v], s[..|s| - 1]);
    ContentAt(cl, bpc, s, k);
    ContentSize(cl, bpc, t);
    PutWhole(cl, bpc, s, k, v);
    ContentLast(cl, bpc, s);
    ContentLast(cl', bpc, s);
    hide Content, Patch, Whole;
    if k == |s| - 1 {
      ContentFrame(cl, cl', bpc, t);
      PatchEnd(Content(cl, bpc, t), cl[s[k]], v);
    } else {
      ContentPut(cl, bpc, t, k, v);
      PatchFront(Content(cl, bpc, t), cl[Last(s)], Base(bpc, k), v);
    }
  }

  lemma PutWhole(cl: Clusters, bpc: nat, s: seq<nat>, k: nat, v: seq<byte>)
    requires Whole(cl, bpc, s) && k < |s| && NoDups(s) && |v| == bpc
    ensures var (cl', t) := (cl[s[k] := v], s[..|s| - 1]);
      && Whole(cl', bpc, s) && Whole(cl, bpc, t) && NoDups(t) && |t| == |s| - 1
      && (k < |s| - 1 ==> t[k] == s[k] && cl'[Last(s)] == cl[Last(s)])
      && (k == |s| - 1 ==> Last(s) == s[k] && cl'[s[k]] == v && forall i :: 0 <= i < |t| ==> cl'[t[i]] == cl[t[i]])
  {
  }

  lemma ContentLast(cl: Clusters, bpc: nat, s: seq<nat>)
    requires Whole(cl, bpc, s) && s != []
    ensures Last(s) < |cl| && |cl[Last(s)]| == bpc && Content(cl, bpc, s) == Content(cl, bpc, s[..|s| - 1]) + cl[Last(s)]
  {
  }

  lemma PatchEnd(y: seq<byte>, z: seq<byte>, v: seq<byte>)
    requires |v| == |z|
    ensures Patch(y + z, |y|, v) == y + v
  {
  }

  lemma PatchFront(y: seq<byte>, z: seq<byte>, pos: nat, v: seq<byte>)
    requires pos + |v| <= |y|
    ensures Patch(y + z, pos, v) == Patch(y, pos, v) + z
  {
    hide Patch;
  }

  /** A piece written into one cluster is a piece written into the file. */
  lemma ContentWrite(cl: Clusters, bpc: nat, s: seq<nat>, k: nat, r: nat, d: seq<byte>)
    requires Whole(cl, bpc, s) && k < |s| && NoDups(s) && r + |d| <= bpc
    ensures var v := Patch(cl[s[k]], r, d);
      && Whole(cl[s[k] := v], bpc, s) && Base(bpc, k) + bpc <= |Content(cl, bpc, s)|
      && Content(cl[s[k] := v], bpc, s) == Patch(Content(cl, bpc, s), Base(bpc, k) + r, d)
  {
    hide Base, Content, Patch;
    var (b, y) := (Base(bpc, k), Content(cl, bpc, s));
    ContentAt(cl, bpc, s, k);
    ContentPut(cl, bpc, s, k, Patch(cl[s[k]], r, d));
    PatchNested(y, b, bpc, r, d);
  }

  lemma PatchNested(y: seq<byte>, b: nat, size: nat, r: nat, d: seq<byte>)
    requires b + size <= |y| && r + |d| <= size
    ensures Patch(y, b, Patch(y[b..b + size], r, d)) == Patch(y, b + r, d)
  {
    hide Patch;
  }

  lemma PatchTwice(y: seq<byte>, pos: nat, d: seq<byte>, d': seq<byte>)
    requires pos + |d| + |d'| <= |y|
    ensures Patch(Patch(y, pos, d), pos + |d|, d') == Patch(y, pos, d + d')
  {
    hide Patch;
  }

  lemma PatchGrown(y: seq<byte>, pos: nat, d: seq<byte>, z: seq<byte>)
    requires pos + |d| <= |y|
    ensures Patch(y, pos, d) + z == Patch(y + z, pos, d)
  {
    hide Patch;
  }

  lemma ZerosAdd(a: nat, b: nat)
    ensures Zeros(a) + Zeros(b) == Zeros(a + b)
  {
  }

  /** A zeroed cluster appended to the chain appends zeros to the content. */
  lemma ContentAppend(cl: Clusters, bpc: nat, s: seq<nat>, c: nat)
    requires Whole(cl, bpc, s) && c < |cl| && c !in s
    ensures Whole(cl[c := Zeros(bpc)], bpc, s + [c])
    ensures Content(cl[c := Zeros(bpc)], bpc, s + [c]) == Content(cl, bpc, s) + Zeros(bpc)
  {
    ContentFrame(cl, cl[c := Zeros(bpc)], bpc, s);
    assert (s + [c])[..|s|] == s;
  }
}
