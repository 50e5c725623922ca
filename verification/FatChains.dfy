/** Cluster chains: the lists an allocation table describes, and what one entry's change does to them. */
module FatChains {
  import opened Common
  import opened FatEntries

  const UNKNOWN := 0xFFFF_FFFF              // free_cluster_count before it is known

  /** The chains of a volume by their first clusters. */
  type Chains = map<nat, seq<nat>>

  function Last(s: seq<nat>): nat
    requires |s| > 0
  {
    s[|s| - 1]
  }

  /** `s` lists the clusters met by following the entries of `e` from `h` to an end-of-chain entry. */
  predicate Follows(e: seq<nat>, h: nat, s: seq<nat>) {
    && |s| > 0 && s[0] == h
    && (forall i :: 0 <= i < |s| ==> 2 <= s[i] < |e|)
    && (forall i :: 0 <= i < |s| - 1 ==> e[s[i]] == s[i + 1])
    && e[Last(s)] >= EOC
  }

  predicate NoDups(s: seq<nat>) {
    forall i, j :: 0 <= i < j < |s| ==> s[i] != s[j]
  }

  predicate Disjoint(s: seq<nat>, t: seq<nat>) {
    forall x :: x in s ==> x !in t
  }

  /** Every chain follows the entries from its first cluster. */
  predicate Linked(e: seq<nat>, ch: Chains) {
    forall h :: h in ch ==> Follows(e, h, ch[h])
  }

  /** No cluster is in two chains or twice in one. */
  predicate Apart(ch: Chains) {
    && (forall h :: h in ch ==> NoDups(ch[h]))
    && (forall g, h :: g in ch && h in ch && g != h ==> Disjoint(ch[g], ch[h]))
  }

  predicate Owned(ch: Chains, c: nat) {
    exists h :: h in ch && c in ch[h]
  }

  /** Every cluster is free, in a chain, or in `lost`: bad, or in use by nothing that is known. */
  predicate Covered(e: seq<nat>, ch: Chains, lost: set<nat>) {
    && (forall c :: 2 <= c < |e| ==> (e[c] != FREE <==> c in lost || Owned(ch, c)))
    && (forall c :: c in lost ==> !Owned(ch, c))
  }

  /** What the table looks like: disjoint, acyclic, terminated chains that account for every cluster. */
  predicate Inv(e: seq<nat>, ch: Chains, lost: set<nat>) {
    2 <= |e| <= BAD && Linked(e, ch) && Apart(ch) && Covered(e, ch, lost)
  }

  /** The clusters marked free. */
  function FreeSet(e: seq<nat>): (s: set<nat>)
    ensures forall c :: c in s <==> 2 <= c < |e| && e[c] == FREE
  {
    set c | c in Range(2, |e|) && e[c] == FREE
  }

  /** `free_cluster_count` is unknown or right. */
  predicate CountRight(count: nat, e: seq<nat>) {
    count == UNKNOWN || count == |FreeSet(e)|
  }

  // ---------------------------------------------------------------- one entry changes

  /** Chain `g` without its first cluster. */
  function Beheaded(ch: Chains, g: nat): Chains
    requires g in ch && |ch[g]| > 0
  {
    var rest := ch - {g};
    if |ch[g]| == 1 then rest else rest[ch[g][1] := ch[g][1..]]
  }

  /** Chain `h` appended to chain `g`. */
  function Joined(ch: Chains, g: nat, h: nat): Chains
    requires g in ch && h in ch
  {
    (ch - {h})[g := ch[g] + ch[h]]
  }

  /** Chain `g` cut behind its element `k`. */
  function Split(ch: Chains, g: nat, k: nat): Chains
    requires g in ch && k < |ch[g]|
  {
    if k == |ch[g]| - 1 then ch else ch[g := ch[g][..k + 1]][ch[g][k + 1] := ch[g][k + 1..]]
  }

  lemma FollowsFrame(e: seq<nat>, c: nat, v: nat, h: nat, s: seq<nat>)
    requires Follows(e, h, s) && c < |e| && c !in s
    ensures Follows(e[c := v], h, s)
  {
  }

  // a new chain

  lemma OwnedNew(ch: Chains, c: nat, d: nat)
    requires c !in ch
    ensures Owned(ch[c := [c]], d) <==> d == c || Owned(ch, d)
  {
    var ch' := ch[c := [c]];
    assert c in ch' && c in ch'[c];
    if h :| h in ch && d in ch[h] {
      assert h in ch' && d in ch'[h];
    }
  }

  lemma NotHead(e: seq<nat>, ch: Chains, c: nat)
    requires Linked(e, ch) && !Owned(ch, c)
    ensures c !in ch && forall h :: h in ch ==> c !in ch[h]
  {
  }

  lemma NewLinked(e: seq<nat>, ch: Chains, c: nat)
    requires Linked(e, ch) && !Owned(ch, c) && 2 <= c < |e|
    ensures Linked(e[c := EOC], ch[c := [c]])
  {
    hide Follows;
    var (e', ch') := (e[c := EOC], ch[c := [c]]);
    forall h | h in ch' ensures Follows(e', h, ch'[h]) {
      if h == c {
        Singleton(e', c);
      } else {
        assert c !in ch[h];
        FollowsFrame(e, c, EOC, h, ch[h]);
      }
    }
  }

  lemma Singleton(e: seq<nat>, c: nat)
    requires 2 <= c < |e| && e[c] >= EOC
    ensures Follows(e, c, [c])
  {
  }

  lemma NewApart(ch: Chains, c: nat)
    requires Apart(ch) && !Owned(ch, c) && c !in ch
    ensures Apart(ch[c := [c]])
  {
    var ch' := ch[c := [c]];
    forall g, h | g in ch' && h in ch' && g != h ensures Disjoint(ch'[g], ch'[h]) {
      if g != c && h != c {
        assert Disjoint(ch[g], ch[h]);
      }
    }
  }

  lemma NewCovered(e: seq<nat>, ch: Chains, lost: set<nat>, c: nat)
    requires Covered(e, ch, lost) && c !in ch && c in FreeSet(e)
    ensures Covered(e[c := EOC], ch[c := [c]], lost)
  {
    hide Owned;
    var (e', ch') := (e[c := EOC], ch[c := [c]]);
    forall d | 2 <= d < |e'| ensures e'[d] != FREE <==> d in lost || Owned(ch', d) {
      OwnedNew(ch, c, d);
    }
    forall d | d in lost ensures !Owned(ch', d) {
      OwnedNew(ch, c, d);
    }
  }

  /** A free cluster marked end-of-chain is a new chain of its own. */
  lemma NewChain(e: seq<nat>, ch: Chains, lost: set<nat>, c: nat)
    requires Inv(e, ch, lost) && c in FreeSet(e)
    ensures c !in ch && Inv(e[c := EOC], ch[c := [c]], lost)
  {
    hide Linked, Apart, Owned;
    NotHead(e, ch, c);
    NewLinked(e, ch, c);
    NewApart(ch, c);
    NewCovered(e, ch, lost, c);
  }

  // two chains joined

  lemma FollowsJoin(e: seq<nat>, g: nat, s: seq<nat>, h: nat, t: seq<nat>)
    requires Follows(e, g, s) && Follows(e, h, t) && NoDups(s) && Disjoint(s, t)
    ensures Follows(e[Last(s) := h], g, s + t)
  {
    FollowsFrame(e, Last(s), h, h, t);
  }

  lemma JoinLinked(e: seq<nat>, ch: Chains, g: nat, h: nat)
    requires Linked(e, ch) && Apart(ch) && g in ch && h in ch && g != h
    ensures |ch[g]| > 0 && 2 <= Last(ch[g]) < |e| && Linked(e[Last(ch[g]) := h], Joined(ch, g, h))
  {
    assert Follows(e, g, ch[g]) && Disjoint(ch[g], ch[h]);
    var (e', ch') := (e[Last(ch[g]) := h], Joined(ch, g, h));
    forall k | k in ch' ensures Follows(e', k, ch'[k]) {
      if k == g {
        FollowsJoin(e, g, ch[g], h, ch[h]);
      } else {
        assert Disjoint(ch[g], ch[k]);
        FollowsFrame(e, Last(ch[g]), h, k, ch[k]);
      }
    }
  }

  lemma NoDupsConcat(s: seq<nat>, t: seq<nat>)
    requires NoDups(s) && NoDups(t) && Disjoint(s, t)
    ensures NoDups(s + t)
  {
    forall i, j | 0 <= i < j < |s + t| ensures (s + t)[i] != (s + t)[j] {
      if i < |s| <= j {
        assert s[i] in s && t[j - |s|] in t;
      }
    }
  }

  lemma JoinApart(ch: Chains, g: nat, h: nat)
    requires Apart(ch) && g in ch && h in ch && g != h
    ensures Apart(Joined(ch, g, h))
  {
    var ch' := Joined(ch, g, h);
    assert Disjoint(ch[g], ch[h]) && NoDups(ch[g]) && NoDups(ch[h]);
    NoDupsConcat(ch[g], ch[h]);
    forall k, l | k in ch' && l in ch' && k != l ensures Disjoint(ch'[k], ch'[l]) {
      assert Disjoint(ch[k], ch[l]);
      assert k == g ==> Disjoint(ch[h], ch[l]);
      assert l == g ==> Disjoint(ch[k], ch[h]);
    }
  }

  lemma OwnedJoin(ch: Chains, g: nat, h: nat, d: nat)
    requires g in ch && h in ch && g != h
    ensures Owned(Joined(ch, g, h), d) <==> Owned(ch, d)
  {
    var ch' := Joined(ch, g, h);
    if k :| k in ch && d in ch[k] {
      var k' := if k == h then g else k;
      assert k' in ch' && d in ch'[k'];
    }
    if k :| k in ch' && d in ch'[k] {
      assert d in ch[k] || (k == g && d in ch[h]);
    }
  }

  /** Storing the first cluster of one chain in the last entry of another joins the two. */
  lemma JoinChains(e: seq<nat>, ch: Chains, lost: set<nat>, g: nat, h: nat)
    requires Inv(e, ch, lost) && g in ch && h in ch && g != h
    ensures |ch[g]| > 0 && 2 <= Last(ch[g]) < |e| && Inv(e[Last(ch[g]) := h], Joined(ch, g, h), lost)
  {
    hide Apart, Owned, Joined, Follows;
    JoinLinked(e, ch, g, h);
    JoinApart(ch, g, h);
    var (e', ch') := (e[Last(ch[g]) := h], Joined(ch, g, h));
    LastUsed(e, ch, g, h);
    forall d | 2 <= d < |e'| ensures e'[d] != FREE <==> d in lost || Owned(ch', d) {
      OwnedJoin(ch, g, h, d);
    }
    forall d | d in lost ensures !Owned(ch', d) {
      OwnedJoin(ch, g, h, d);
    }
  }

  lemma LastUsed(e: seq<nat>, ch: Chains, g: nat, h: nat)
    requires Linked(e, ch) && g in ch && h in ch
    ensures |ch[g]| > 0 && e[Last(ch[g])] != FREE && h != FREE
  {
    assert Follows(e, g, ch[g]) && Follows(e, h, ch[h]);
  }

  // a chain cut in two

  lemma FollowsCut(e: seq<nat>, g: nat, s: seq<nat>, k: nat)
    requires Follows(e, g, s) && NoDups(s) && k < |s|
    ensures Follows(e[s[k] := EOC], g, s[..k + 1])
    ensures k < |s| - 1 ==> Follows(e[s[k] := EOC], s[k + 1], s[k + 1..])
  {
    if k < |s| - 1 {
      var t := s[k + 1..];
      assert Follows(e, s[k + 1], t);
      FollowsFrame(e, s[k], EOC, s[k + 1], t);
    }
  }

  lemma OneOwner(ch: Chains, g: nat, h: nat, x: nat)
    requires Apart(ch) && g in ch && h in ch && x in ch[g] && x in ch[h]
    ensures g == h
  {
  }

  lemma CutFresh(e: seq<nat>, ch: Chains, g: nat, k: nat)
    requires Linked(e, ch) && Apart(ch) && g in ch && k < |ch[g]| - 1
    ensures ch[g][k + 1] !in ch
  {
    var c := ch[g][k + 1];
    assert Follows(e, g, ch[g]) && NoDups(ch[g]);
    assert c != g;
    if c in ch {
      assert Follows(e, c, ch[c]);
      OneOwner(ch, g, c, c);
    }
  }

  lemma CutLinked(e: seq<nat>, ch: Chains, g: nat, k: nat)
    requires Linked(e, ch) && Apart(ch) && g in ch && k < |ch[g]|
    ensures 2 <= ch[g][k] < |e| && Linked(e[ch[g][k] := EOC], Split(ch, g, k))
  {
    hide Follows;
    UseChain(e, ch, g);
    var (e', ch') := (e[ch[g][k] := EOC], Split(ch, g, k));
    FollowsCut(e, g, ch[g], k);
    assert k == |ch[g]| - 1 ==> ch[g][..k + 1] == ch[g];
    forall h | h in ch' ensures Follows(e', h, ch'[h]) {
      if h in ch && h != g {
        assert Disjoint(ch[g], ch[h]);
        if k < |ch[g]| - 1 {
          CutFresh(e, ch, g, k);
        }
        FollowsFrame(e, ch[g][k], EOC, h, ch[h]);
      }
    }
  }

  lemma UseChain(e: seq<nat>, ch: Chains, g: nat)
    requires Linked(e, ch) && Apart(ch) && g in ch
    ensures |ch[g]| > 0 && ch[g][0] == g && Follows(e, g, ch[g]) && NoDups(ch[g])
    ensures forall i :: 0 <= i < |ch[g]| ==> 2 <= ch[g][i] < |e| && e[ch[g][i]] != FREE
  {
    var s := ch[g];
    assert Follows(e, g, s);
    forall i | 0 <= i < |s| ensures 2 <= s[i] < |e| && e[s[i]] != FREE {
      if i < |s| - 1 {
        assert e[s[i]] == s[i + 1] >= 2;
      }
    }
  }

  lemma CutApart(ch: Chains, g: nat, k: nat)
    requires Apart(ch) && g in ch && k < |ch[g]| && (k < |ch[g]| - 1 ==> ch[g][k + 1] !in ch)
    ensures Apart(Split(ch, g, k))
  {
    if k < |ch[g]| - 1 {
      var (ch', c) := (Split(ch, g, k), ch[g][k + 1]);
      assert NoDups(ch[g]);
      forall i, j | i in ch' && j in ch' && i != j ensures Disjoint(ch'[i], ch'[j]) {
        var (i', j') := (if i == c then g else i, if j == c then g else j);
        assert i' != j' ==> Disjoint(ch[i'], ch[j']);
      }
    }
  }

  lemma OwnedCut(ch: Chains, g: nat, k: nat, d: nat)
    requires g in ch && k < |ch[g]| && (k < |ch[g]| - 1 ==> ch[g][k + 1] !in ch)
    ensures Owned(Split(ch, g, k), d) <==> Owned(ch, d)
  {
    if k < |ch[g]| - 1 {
      var (ch', c) := (Split(ch, g, k), ch[g][k + 1]);
      assert ch[g] == ch[g][..k + 1] + ch[g][k + 1..];
      if h :| h in ch && d in ch[h] {
        var h' := if h == g && d in ch[g][k + 1..] then c else h;
        assert h' in ch' && d in ch'[h'];
      }
      if h :| h in ch' && d in ch'[h] {
        var h' := if h == c then g else h;
        assert h' in ch && d in ch[h'];
      }
    }
  }

  /** An end-of-chain mark in the middle of a chain cuts it in two. */
  lemma CutChain(e: seq<nat>, ch: Chains, lost: set<nat>, g: nat, k: nat)
    requires Inv(e, ch, lost) && g in ch && k < |ch[g]|
    ensures 2 <= ch[g][k] < |e| && Inv(e[ch[g][k] := EOC], Split(ch, g, k), lost)
  {
    hide Apart, Linked, Owned, Split, Follows;
    UseChain(e, ch, g);
    if k < |ch[g]| - 1 {
      CutFresh(e, ch, g, k);
    }
    CutLinked(e, ch, g, k);
    CutApart(ch, g, k);
    var (e', ch') := (e[ch[g][k] := EOC], Split(ch, g, k));
    forall d | 2 <= d < |e'| ensures e'[d] != FREE <==> d in lost || Owned(ch', d) {
      OwnedCut(ch, g, k, d);
    }
    forall d | d in lost ensures !Owned(ch', d) {
      OwnedCut(ch, g, k, d);
    }
  }

  // a chain's first cluster freed

  lemma FollowsTail(e: seq<nat>, g: nat, s: seq<nat>)
    requires Follows(e, g, s) && NoDups(s) && |s| > 1
    ensures Follows(e[g := FREE], s[1], s[1..])
  {
    assert Follows(e, s[1], s[1..]);
    FollowsFrame(e, g, FREE, s[1], s[1..]);
  }

  lemma FreedLinked(e: seq<nat>, ch: Chains, g: nat)
    requires Linked(e, ch) && Apart(ch) && g in ch
    ensures |ch[g]| > 0 && 2 <= g < |e| && Linked(e[g := FREE], Beheaded(ch, g))
  {
    hide Follows;
    UseChain(e, ch, g);
    var (e', ch') := (e[g := FREE], Beheaded(ch, g));
    forall h | h in ch' ensures Follows(e', h, ch'[h]) {
      if h in ch {
        assert Disjoint(ch[g], ch[h]);
        if |ch[g]| > 1 {
          CutFresh(e, ch, g, 0);
        }
        FollowsFrame(e, g, FREE, h, ch[h]);
      } else {
        FollowsTail(e, g, ch[g]);
      }
    }
  }

  lemma FreedApart(ch: Chains, g: nat)
    requires Apart(ch) && g in ch && |ch[g]| > 0 && (|ch[g]| > 1 ==> ch[g][1] !in ch)
    ensures Apart(Beheaded(ch, g))
  {
    var ch' := Beheaded(ch, g);
    assert NoDups(ch[g]);
    forall i, j | i in ch' && j in ch' && i != j ensures Disjoint(ch'[i], ch'[j]) {
      var (i', j') := (if i in ch then i else g, if j in ch then j else g);
      assert i' != j' && Disjoint(ch[i'], ch[j']);
    }
  }

  lemma OwnedFreed(ch: Chains, g: nat, d: nat)
    requires Apart(ch) && g in ch && |ch[g]| > 0 && ch[g][0] == g && (|ch[g]| > 1 ==> ch[g][1] !in ch)
    ensures Owned(Beheaded(ch, g), d) <==> d != g && Owned(ch, d)
  {
    var (ch', s) := (Beheaded(ch, g), ch[g]);
    assert s == [g] + s[1..] && NoDups(s);
    if h :| h in ch && d in ch[h] && d != g {
      var h' := if h == g then s[1] else h;
      assert h' in ch' && d in ch'[h'];
    }
    if h :| h in ch' && d in ch'[h] {
      var h' := if h in ch then h else g;
      assert h' in ch && d in ch[h'];
      assert h' != g ==> Disjoint(ch[g], ch[h']);
    }
  }

  /** Freeing the first cluster of a chain leaves the rest of it as a chain. */
  lemma FreeHead(e: seq<nat>, ch: Chains, lost: set<nat>, g: nat)
    requires Inv(e, ch, lost) && g in ch
    ensures |ch[g]| > 0 && 2 <= g < |e| && e[g] != FREE && Inv(e[g := FREE], Beheaded(ch, g), lost)
  {
    hide Apart, Linked, Owned, Beheaded, Follows;
    UseChain(e, ch, g);
    if |ch[g]| > 1 {
      CutFresh(e, ch, g, 0);
    }
    FreedLinked(e, ch, g);
    FreedApart(ch, g);
    var (e', ch') := (e[g := FREE], Beheaded(ch, g));
    HeadNotLost(ch, g);
    forall d | 2 <= d < |e'| ensures e'[d] != FREE <==> d in lost || Owned(ch', d) {
      OwnedFreed(ch, g, d);
    }
    forall d | d in lost ensures !Owned(ch', d) {
      OwnedFreed(ch, g, d);
    }
  }

  lemma HeadNotLost(ch: Chains, g: nat)
    requires g in ch && |ch[g]| > 0 && ch[g][0] == g
    ensures Owned(ch, g)
  {
    assert g in ch[g];
  }

  // ---------------------------------------------------------------- counting

  lemma FreeCountUsed(e: seq<nat>, c: nat, v: nat)
    requires c in FreeSet(e) && v != FREE
    ensures FreeSet(e[c := v]) == FreeSet(e) - {c} && |FreeSet(e[c := v])| == |FreeSet(e)| - 1
  {
    assert FreeSet(e[c := v]) == FreeSet(e) - {c};
  }

  lemma FreeCountFreed(e: seq<nat>, c: nat)
    requires 2 <= c < |e| && e[c] != FREE
    ensures FreeSet(e[c := FREE]) == FreeSet(e) + {c} && |FreeSet(e[c := FREE])| == |FreeSet(e)| + 1
  {
    assert FreeSet(e[c := FREE]) == FreeSet(e) + {c};
  }

  lemma FreeCountKept(e: seq<nat>, c: nat, v: nat)
    requires 2 <= c < |e| && e[c] != FREE && v != FREE
    ensures FreeSet(e[c := v]) == FreeSet(e)
  {
  }

  lemma FreeBound(e: seq<nat>)
    requires |e| >= 2
    ensures |FreeSet(e)| <= |e| - 2
  {
    RangeSize(2, |e|);
    SubsetSize(FreeSet(e), Range(2, |e|));
  }

  /** A chain has at most as many clusters as the volume: the guard of `fat_chain_length` never fires. */
  lemma ChainBound(e: seq<nat>, h: nat, s: seq<nat>)
    requires Follows(e, h, s) && NoDups(s)
    ensures |s| <= |e| - 2
  {
    ElementsSize(s);
    RangeSize(2, |e|);
    SubsetSize(Elements(s), Range(2, |e|));
  }
}
