/** Binary min-heaps in sequences: the facts behind the scheduler's run queue. */
module RunHeap {

  type Keys = map<nat, nat>

  function Parent(i: nat): (p: nat)
    requires i > 0
    ensures p < i
  {
    (i - 1) / 2
  }

  ghost predicate Keyed(q: seq<nat>, key: Keys) {
    forall i :: 0 <= i < |q| ==> q[i] in key
  }

  /** Position `j` is not smaller than its parent. */
  ghost predicate UpOk(q: seq<nat>, key: Keys, j: nat)
    requires Keyed(q, key) && j < |q|
  {
    j == 0 || key[q[Parent(j)]] <= key[q[j]]
  }

  ghost predicate MinHeap(q: seq<nat>, key: Keys)
    requires Keyed(q, key)
  {
    forall j {:trigger UpOk(q, key, j)} :: 0 <= j < |q| ==> UpOk(q, key, j)
  }

  /** The children of `i` are not smaller than the parent of `i`. */
  ghost predicate Skips(q: seq<nat>, key: Keys, i: nat)
    requires Keyed(q, key) && i < |q|
  {
    i > 0 ==> forall j :: 0 < j < |q| && Parent(j) == i ==> key[q[Parent(i)]] <= key[q[j]]
  }

  /** A heap but for the order of `i` with its parent and its children. */
  ghost predicate Hole(q: seq<nat>, key: Keys, i: nat)
    requires Keyed(q, key) && i < |q|
  {
    && (forall j {:trigger UpOk(q, key, j)} :: 0 < j < |q| && j != i && Parent(j) != i ==> UpOk(q, key, j))
    && Skips(q, key, i)
  }

  /** A heap but for the order of `i` with its children. */
  ghost predicate DownHole(q: seq<nat>, key: Keys, i: nat)
    requires Keyed(q, key) && i < |q|
  {
    && (forall j {:trigger UpOk(q, key, j)} :: 0 < j < |q| && Parent(j) != i ==> UpOk(q, key, j))
    && Skips(q, key, i)
  }

  /** A heap but for the order of `i` with its parent. */
  ghost predicate UpHole(q: seq<nat>, key: Keys, i: nat)
    requires Keyed(q, key) && i < |q|
  {
    && (forall j {:trigger UpOk(q, key, j)} :: 0 < j < |q| && j != i ==> UpOk(q, key, j))
    && Skips(q, key, i)
  }

  function Swap(q: seq<nat>, i: nat, j: nat): (r: seq<nat>)
    requires i < |q| && j < |q|
    ensures |r| == |q| && multiset(r) == multiset(q)
  {
    q[i := q[j]][j := q[i]]
  }

  lemma SwapKeyed(q: seq<nat>, key: Keys, i: nat, j: nat)
    requires Keyed(q, key) && i < |q| && j < |q|
    ensures Keyed(Swap(q, i, j), key)
  {
  }

  /** Moving a too small element up one level. */
  lemma UpStep(q: seq<nat>, key: Keys, i: nat)
    requires Keyed(q, key) && 0 < i < |q| && Hole(q, key, i)
    requires key[q[Parent(i)]] > key[q[i]]
    ensures Keyed(Swap(q, Parent(i), i), key)
    ensures UpHole(Swap(q, Parent(i), i), key, Parent(i))
  {
    var p := Parent(i);
    var q' := Swap(q, p, i);
    SwapKeyed(q, key, p, i);
    assert p > 0 ==> UpOk(q, key, p);
    forall j | 0 < j < |q| && j != p
      ensures UpOk(q', key, j)
    {
      assert j != i && Parent(j) != i ==> UpOk(q, key, j);
    }
    if p > 0 {
      forall j | 0 < j < |q| && Parent(j) == p
        ensures key[q'[Parent(p)]] <= key[q'[j]]
      {
        assert j != i ==> UpOk(q, key, j);
      }
    }
  }

  /** Where the upward loop stops, only the order with the children may be missing. */
  lemma UpStop(q: seq<nat>, key: Keys, i: nat)
    requires Keyed(q, key) && i < |q| && Hole(q, key, i) && UpOk(q, key, i)
    ensures DownHole(q, key, i)
  {
  }

  lemma UpHoleStop(q: seq<nat>, key: Keys, i: nat)
    requires Keyed(q, key) && i < |q| && UpHole(q, key, i) && UpOk(q, key, i)
    ensures MinHeap(q, key)
  {
    assert UpOk(q, key, 0);
  }

  lemma HeapHasNoHole(q: seq<nat>, key: Keys, i: nat)
    requires Keyed(q, key) && i < |q| && MinHeap(q, key)
    ensures DownHole(q, key, i)
  {
    assert UpOk(q, key, i);
    forall j | 0 < j < |q| && Parent(j) == i
      ensures key[q[i]] <= key[q[j]]
    {
      assert UpOk(q, key, j);
    }
  }

  /** The smaller child, or `i` itself when no child is smaller. */
  ghost predicate IsSmallest(q: seq<nat>, key: Keys, i: nat, s: nat)
    requires Keyed(q, key) && i < |q|
  {
    && s < |q| && (s == i || (s > 0 && Parent(s) == i && key[q[s]] < key[q[i]]))
    && forall j :: 0 < j < |q| && Parent(j) == i ==> key[q[s]] <= key[q[j]]
  }

  /** Moving a too large element down one level. */
  lemma DownStep(q: seq<nat>, key: Keys, i: nat, s: nat)
    requires Keyed(q, key) && i < |q| && DownHole(q, key, i) && IsSmallest(q, key, i, s) && s != i
    ensures Keyed(Swap(q, i, s), key) && DownHole(Swap(q, i, s), key, s)
  {
    var q' := Swap(q, i, s);
    SwapKeyed(q, key, i, s);
    forall j | 0 < j < |q| && Parent(j) != s
      ensures UpOk(q', key, j)
    {
      assert Parent(j) != i ==> UpOk(q, key, j);
    }
    forall j | 0 < j < |q| && Parent(j) == s
      ensures key[q'[Parent(s)]] <= key[q'[j]]
    {
      assert UpOk(q, key, j);
    }
  }

  lemma DownStop(q: seq<nat>, key: Keys, i: nat)
    requires Keyed(q, key) && i < |q| && DownHole(q, key, i) && IsSmallest(q, key, i, i)
    ensures MinHeap(q, key)
  {
    forall j | 0 < j < |q|
      ensures UpOk(q, key, j)
    {
    }
    assert UpOk(q, key, 0);
  }

  /** The root of a heap has the least key. */
  lemma {:induction false} RootIsLeast(q: seq<nat>, key: Keys, j: nat)
    requires Keyed(q, key) && MinHeap(q, key) && j < |q|
    ensures key[q[0]] <= key[q[j]]
    decreases j
  {
    if j > 0 {
      assert UpOk(q, key, j);
      RootIsLeast(q, key, Parent(j));
    }
  }

  // ---------------------------------------------------------------- whole operations

  /** Appending leaves a hole at the new last position. */
  lemma AppendHole(q: seq<nat>, key: Keys, t: nat)
    requires Keyed(q, key) && MinHeap(q, key) && t in key
    ensures Keyed(q + [t], key) && Hole(q + [t], key, |q|)
  {
    var q' := q + [t];
    forall j | 0 < j < |q'| && j != |q|
      ensures UpOk(q', key, j)
    {
      assert UpOk(q, key, j);
    }
    assert forall j :: 0 < j < |q'| ==> Parent(j) != |q|;
  }

  /** Cutting off the last element. */
  lemma CutLast(q: seq<nat>, key: Keys)
    requires Keyed(q, key) && MinHeap(q, key) && |q| > 0
    ensures Keyed(q[..|q| - 1], key) && MinHeap(q[..|q| - 1], key)
  {
    var q' := q[..|q| - 1];
    forall j | 0 <= j < |q'|
      ensures UpOk(q', key, j)
    {
      assert UpOk(q, key, j);
    }
  }

  /** Replacing one element leaves a hole there. */
  lemma ReplaceHole(q: seq<nat>, key: Keys, i: nat, t: nat)
    requires Keyed(q, key) && MinHeap(q, key) && i < |q| && t in key
    ensures Keyed(q[i := t], key) && Hole(q[i := t], key, i)
  {
    var q' := q[i := t];
    HeapHasNoHole(q, key, i);
    forall j | 0 < j < |q| && j != i && Parent(j) != i
      ensures UpOk(q', key, j)
    {
      assert UpOk(q, key, j);
    }
  }

  /** A hole with no parent above it, or no children below it. */
  lemma RootHole(q: seq<nat>, key: Keys)
    requires Keyed(q, key) && |q| > 0 && Hole(q, key, 0)
    ensures DownHole(q, key, 0)
  {
    assert UpOk(q, key, 0);
    UpStop(q, key, 0);
  }

  lemma LastHole(q: seq<nat>, key: Keys)
    requires Keyed(q, key) && |q| > 0 && DownHole(q, key, |q| - 1)
    ensures MinHeap(q, key)
  {
    assert UpOk(q, key, 0);
    assert forall j :: 0 < j < |q| ==> Parent(j) != |q| - 1;
  }
}
