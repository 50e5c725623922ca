/** Allocating, extending and freeing cluster chains. */
module FatClusters {
  import opened Common
  import opened FatEntries
  import opened FatVolume
  import opened FatChains

  // ---------------------------------------------------------------- the search for a free cluster

  /** The cluster looked at in round `i` of `fat_alloc_cluster`, in 32-bit arithmetic. */
  function Probe(hint: nat, total: nat, i: nat): (c: nat)
    requires total > 0
    ensures 2 <= c < total + 2
  {
    2 + ((if hint < 2 then 2 else hint) - 2 + i) % TWO_32 % total
  }

  /** The rounds do not wrap around 2^32, or wrap around without a jump. */
  predicate HintReaches(hint: nat, total: nat) {
    (if hint < 2 then 0 else hint - 2) + total <= TWO_32 || (total > 0 && TWO_32 % total == 0)
  }

  /** `d` on from a multiple of `n`. */
  lemma ModNear(x: int, q: int, n: int, d: int)
    requires n > 0 && -n <= d < n && x == q * n + d
    ensures x % n == if d >= 0 then d else d + n
  {
    if d >= 0 {
      ModIs(x, q, n, d);
    } else {
      assert (q - 1) * n == q * n - n;
      ModIs(x, q - 1, n, d + n);
    }
  }

  /** Within `n` steps every remainder comes by. */
  lemma RemainderMet(s: nat, n: nat, t: nat) returns (i: nat)
    requires t < n
    ensures i < n && (s + i) % n == t
  {
    var d := t - s % n;
    i := if d >= 0 then d else d + n;
    assert s == n * (s / n) + s % n;
    if d >= 0 {
      ModIs(s + i, s / n, n, t);
    } else {
      assert (s / n + 1) * n == s / n * n + n;
      ModIs(s + i, s / n + 1, n, t);
    }
  }

  lemma WrapKeeps(x: nat, n: nat)
    requires n > 0 && TWO_32 <= x < 2 * TWO_32 && TWO_32 % n == 0
    ensures x % TWO_32 == x - TWO_32 && (x - TWO_32) % n == x % n
  {
    var (y, k) := (x - TWO_32, TWO_32 / n);
    assert TWO_32 == n * k && y == n * (y / n) + y % n;
    assert (y / n + k) * n == n * (y / n) + n * k;
    ModIs(x, y / n + k, n, y % n);
  }

  /** From a sound hint the search looks at every cluster. */
  lemma ScanReaches(hint: nat, total: nat, c: nat) returns (i: nat)
    requires hint < TWO_32 && 0 < total < TWO_32 && 2 <= c < total + 2 && HintReaches(hint, total)
    ensures i < total && Probe(hint, total, i) == c
  {
    var s := if hint < 2 then 0 else hint - 2;
    i := RemainderMet(s, total, c - 2);
    if s + i >= TWO_32 {
      WrapKeeps(s + i, total);
    }
  }

  /** From any other hint it misses one. */
  lemma ScanMisses(hint: nat, total: nat) returns (c: nat)
    requires hint < TWO_32 && 0 < total < TWO_32 && !HintReaches(hint, total)
    ensures 2 <= c < total + 2
    ensures forall i :: 0 <= i < total ==> Probe(hint, total, i) != c
  {
    var (w, r) := (TWO_32 - (hint - 2), TWO_32 % total);
    c := 2 + if r >= w then total - 1 else total - w + r - 1;
    forall i | 0 <= i < total ensures Probe(hint, total, i) != c {
      ProbeNear(hint, total, i);
    }
  }

  lemma LowWord(x: nat)
    requires x < 2 * TWO_32
    ensures x % TWO_32 == if x < TWO_32 then x else x - TWO_32
  {
  }

  lemma ProbeNear(hint: nat, total: nat, i: nat)
    requires 2 <= hint < TWO_32 && i < total < TWO_32 && hint - 2 + total > TWO_32
    ensures var (w, r) := (TWO_32 - (hint - 2), TWO_32 % total);
      Probe(hint, total, i) - 2 == if i >= w then i - w else if r - w + i >= 0 then r - w + i else r - w + i + total
  {
    var (x, w, r, k) := (hint - 2 + i, TWO_32 - (hint - 2), TWO_32 % total, TWO_32 / total);
    LowWord(x);
    if i >= w {
      ModIs(i - w, 0, total, i - w);
    } else {
      assert TWO_32 == total * k + r;
      ModNear(x, k, total, r - w + i);
    }
  }

  predicate Met(hint: nat, total: nat, c: nat)
    requires total > 0
  {
    exists i :: 0 <= i < total && Probe(hint, total, i) == c
  }

  /** The search meets every cluster exactly when its rounds do not jump. */
  lemma SearchIsComplete(hint: nat, total: nat)
    requires hint < TWO_32 && 0 < total < TWO_32
    ensures HintReaches(hint, total) <==> forall c :: 2 <= c < total + 2 ==> Met(hint, total, c)
  {
    if HintReaches(hint, total) {
      forall c | 2 <= c < total + 2 ensures Met(hint, total, c) {
        var i := ScanReaches(hint, total, c);
      }
    } else {
      var c := ScanMisses(hint, total);
      assert !Met(hint, total, c);
    }
  }

  /** None of the clusters looked at in the first `n` rounds is free. */
  predicate NothingMet(hint: nat, total: nat, e: seq<nat>, n: nat) {
    |e| == total + 2 && forall i :: 0 <= i < n && total > 0 ==> e[Probe(hint, total, i)] != FREE
  }

  /** `c` is the first free cluster that the search looks at. */
  predicate FirstMet(hint: nat, total: nat, e: seq<nat>, c: nat) {
    && |e| == total + 2 && total > 0
    && exists i :: 0 <= i < total && c == Probe(hint, total, i) && e[c] == FREE && NothingMet(hint, total, e, i)
  }

  /** From a hint that does not reach every cluster there is a table with a free cluster that is not found. */
  lemma FreeButNotFound(hint: nat, total: nat) returns (e: seq<nat>, c: nat)
    requires hint < TWO_32 && 0 < total < TWO_32 && !HintReaches(hint, total)
    ensures |e| == total + 2 && FreeSet(e) == {c} && NothingMet(hint, total, e, total)
  {
    hide HintReaches, Probe;
    c := ScanMisses(hint, total);
    e := seq(total + 2, _ => EOC)[c := FREE];
  }

  /**
   * From a hint within the volume the search finds the first free cluster from the hint on, or
   * else the first of all.
   */
  lemma FirstFrom(hint: nat, total: nat, e: seq<nat>, c: nat)
    requires 2 <= hint < total + 2 && total < 0x7FFF_FFFF && |e| == total + 2
    ensures FirstMet(hint, total, e, c) <==>
      && 2 <= c < total + 2 && e[c] == FREE
      && (hint <= c ==> forall d :: hint <= d < c ==> e[d] != FREE)
      && (c < hint ==> (forall d :: hint <= d < total + 2 ==> e[d] != FREE) && forall d :: 2 <= d < c ==> e[d] != FREE)
  {
    hide Probe;
    forall i: nat | i < total
      ensures Probe(hint, total, i) == if hint + i < total + 2 then hint + i else hint + i - total
    {
      ProbeIs(hint, total, i);
    }
    if 2 <= c < total + 2 && e[c] == FREE {
      var n := if hint <= c then c - hint else c - hint + total;
      MetBefore(hint, total, e, c, n);
    }
  }

  /** Round `n` is the first that finds something exactly when `c` is the first free cluster from the hint on. */
  lemma MetBefore(hint: nat, total: nat, e: seq<nat>, c: nat, n: nat)
    requires 2 <= hint < total + 2 && |e| == total + 2 && 2 <= c < total + 2 && e[c] == FREE
    requires n == if hint <= c then c - hint else c - hint + total
    requires forall i: nat :: i < total ==>
      Probe(hint, total, i) == if hint + i < total + 2 then hint + i else hint + i - total
    ensures FirstMet(hint, total, e, c) <==>
      && (hint <= c ==> forall d :: hint <= d < c ==> e[d] != FREE)
      && (c < hint ==> (forall d :: hint <= d < total + 2 ==> e[d] != FREE) && forall d :: 2 <= d < c ==> e[d] != FREE)
  {
    hide Probe;
    if FirstMet(hint, total, e, c) {
      var i: nat :| i < total && c == Probe(hint, total, i) && NothingMet(hint, total, e, i);
      assert i == n;
      forall d | hint <= d < (if hint <= c then c else total + 2)
        ensures e[d] != FREE
      {
        assert Probe(hint, total, d - hint) == d;
      }
      forall d | 2 <= d < c && c < hint
        ensures e[d] != FREE
      {
        assert Probe(hint, total, d - hint + total) == d;
      }
    }
    if (hint <= c ==> forall d :: hint <= d < c ==> e[d] != FREE)
      && (c < hint ==> (forall d :: hint <= d < total + 2 ==> e[d] != FREE) && forall d :: 2 <= d < c ==> e[d] != FREE) {
      assert NothingMet(hint, total, e, n) && Probe(hint, total, n) == c;
    }
  }

  lemma ProbeIs(hint: nat, total: nat, i: nat)
    requires 2 <= hint < total + 2 && total < 0x7FFF_FFFF && i < total
    ensures Probe(hint, total, i) == if hint + i < total + 2 then hint + i else hint + i - total
  {
    if hint + i < total + 2 {
      ModIs(hint - 2 + i, 0, total, hint - 2 + i);
    } else {
      ModIs(hint - 2 + i, 1, total, hint - 2 + i - total);
    }
  }

  // ---------------------------------------------------------------- a mounted volume

  class Fat {
    const vol: Volume
    var nextFree: nat                    // next_free_cluster
    var freeCount: nat                   // free_cluster_count
    ghost const lost: set<nat>
    ghost const counted: bool            // the free count was right, or unknown, at mount time
    ghost var chains: Chains

    ghost predicate Valid()
      reads this, vol
    {
      && vol.Valid() && Inv(vol.Entries(), chains, lost) && nextFree < TWO_32 && freeCount < TWO_32
      && (counted ==> CountRight(freeCount, vol.Entries()))
    }

    /** `fat_mount` with the counters of FSInfo, which it takes as they are apart from a hint below 2. */
    constructor (vol: Volume, count: nat, hint: nat, ghost chains: Chains, ghost lost: set<nat>)
      requires vol.Valid() && Inv(vol.Entries(), chains, lost) && count < TWO_32 && hint < TWO_32
      ensures Valid() && this.vol == vol && this.chains == chains && this.lost == lost
      ensures freeCount == count && nextFree == if hint < 2 then 2 else hint
      ensures counted <==> CountRight(count, vol.Entries())
    {
      this.vol, freeCount, nextFree, this.chains, this.lost := vol, count, if hint < 2 then 2 else hint, chains, lost;
      counted := CountRight(count, vol.Entries());
    }

    /** `fat_alloc_cluster`: a free cluster becomes a chain of its own; 0 when none is found. */
    method AllocCluster() returns (c: nat)
      requires Valid() && !vol.readonly
      modifies this, vol
      ensures Valid() && vol.Clusters() == old(vol.Clusters())
      ensures c == 0 ==> vol.Entries() == old(vol.Entries()) && chains == old(chains)
      ensures c == 0 ==> nextFree == old(nextFree) && freeCount == old(freeCount)
      ensures c == 0 && HintReaches(old(nextFree), vol.geo.total) ==> FreeSet(vol.Entries()) == {}
      ensures c == 0 <==> NothingMet(old(nextFree), vol.geo.total, old(vol.Entries()), vol.geo.total)
      ensures c != 0 ==> FirstMet(old(nextFree), vol.geo.total, old(vol.Entries()), c)
      ensures c != 0 ==> c in old(FreeSet(vol.Entries())) && c !in old(chains) && nextFree == c + 1
      ensures c != 0 ==> vol.Entries() == old(vol.Entries())[c := EOC] && chains == old(chains)[c := [c]]
    {
      hide Inv, Volume.Entries, Volume.Clusters, Volume.Valid, HintReaches, Probe;
      var total := vol.geo.total;
      ghost var (e0, ch0) := (vol.Entries(), chains);
      TotalFits(vol);
      for i: nat := 0 to total
        invariant Valid() && vol.Entries() == e0 && vol.Clusters() == old(vol.Clusters()) && chains == ch0
        invariant nextFree == old(nextFree) && freeCount == old(freeCount)
        invariant NothingMet(nextFree, total, e0, i)
      {
        c := Probe(nextFree, total, i);
        var v := vol.Look(c);
        if v == FREE {
          vol.Store(c, EOC);
          nextFree := c + 1;
          if freeCount != UNKNOWN && freeCount > 0 {
            freeCount := freeCount - 1;
          }
          NewChain(e0, ch0, lost, c);
          FreeCountUsed(e0, c, EOC);
          chains := chains[c := [c]];
          return;
        }
      }
      c := 0;
      if HintReaches(nextFree, total) {
        NoneFree(nextFree, total, e0);
      }
    }

    /** One round of `fat_free_chain`: the cluster becomes free, and the counters follow. */
    method Release(cur: nat) returns (next: nat)
      requires vol.Valid() && !vol.readonly && 2 <= cur < |vol.Entries()| && Storable(vol.geo.kind, FREE)
      modifies this`freeCount, this`nextFree, vol
      ensures vol.Valid() && vol.Entries() == old(vol.Entries())[cur := FREE] && vol.Clusters() == old(vol.Clusters())
      ensures next == old(vol.Entries())[cur]
      ensures freeCount == if old(freeCount) == UNKNOWN then UNKNOWN else (old(freeCount) + 1) % TWO_32
      ensures nextFree == if cur < old(nextFree) then cur else old(nextFree)
    {
      hide Volume.Entries, Volume.Clusters, Volume.Valid;
      next := vol.Look(cur);
      vol.Store(cur, FREE);
      if freeCount != UNKNOWN {
        freeCount := (freeCount + 1) % TWO_32;
      }
      if cur < nextFree {
        nextFree := cur;
      }
    }

    /** `fat_free_chain`: every cluster of the chain becomes free, and no other. */
    method FreeChain(start: nat)
      requires Valid() && !vol.readonly && (start in chains || start < 2 || start >= EOC)
      modifies this, vol
      ensures Valid() && vol.Clusters() == old(vol.Clusters()) && chains == old(chains) - {start}
      ensures start !in old(chains) ==> vol.Entries() == old(vol.Entries()) && nextFree == old(nextFree)
      ensures start in old(chains) ==> vol.Entries() == Freed(old(vol.Entries()), old(chains)[start])
      ensures start in old(chains) ==> nextFree == Lowered(old(nextFree), old(chains)[start])
    {
      hide Inv, Volume.Entries, Volume.Clusters, Volume.Valid, Freed, Lowered, Rest;
      ghost var (e0, ch0) := (vol.Entries(), chains);
      NoHeadOutside(e0, ch0, lost);
      if start < 2 || start >= EOC {
        return;
      }
      ghost var s := ch0[start];
      ChainFacts(e0, ch0, lost, start);
      TotalFits(vol);
      StartFreeing(e0, ch0, start, nextFree);
      ghost var k := 0;
      var cur := start;
      while cur >= 2 && cur < EOC
        invariant Valid() && vol.Clusters() == old(vol.Clusters())
        invariant 0 <= k <= |s| && (if k < |s| then cur == s[k] else cur >= EOC)
        invariant vol.Entries() == Freed(e0, s[..k]) && chains == Rest(ch0, start, k)
        invariant nextFree == Lowered(old(nextFree), s[..k])
        decreases |s| - k
      {
        FreeStep(e0, ch0, lost, start, k);
        LoweredStep(old(nextFree), s, k);
        FreeFits(vol);
        cur := Release(cur);
        chains := Rest(ch0, start, k + 1);
        k := k + 1;
      }
      assert s[..k] == s;
      DoneFreeing(ch0, start);
    }

    /** `fat_extend_chain`: a free cluster is appended to the chain `g` that ends in `last`. */
    method ExtendChain(last: nat, ghost g: nat) returns (c: nat)
      requires Valid() && !vol.readonly
      requires 2 <= last < EOC ==> g in chains && |chains[g]| > 0 && Last(chains[g]) == last
      modifies this, vol
      ensures Valid() && vol.Clusters() == old(vol.Clusters())
      ensures c == 0 ==> vol.Entries() == old(vol.Entries()) && chains == old(chains) && nextFree == old(nextFree)
      ensures c == 0 && HintReaches(old(nextFree), vol.geo.total) ==> FreeSet(vol.Entries()) == {}
      ensures c != 0 ==> c in old(FreeSet(vol.Entries())) && nextFree == c + 1
      ensures c != 0 && 2 <= last < EOC ==> last < |old(vol.Entries())| && c != last
      ensures c != 0 && 2 <= last < EOC ==> vol.Entries() == old(vol.Entries())[c := EOC][last := c]
      ensures c != 0 && 2 <= last < EOC ==> chains == old(chains)[g := old(chains)[g] + [c]]
      ensures c != 0 && !(2 <= last < EOC) ==>
        vol.Entries() == old(vol.Entries())[c := EOC] && chains == old(chains)[c := [c]]
    {
      hide Inv, Volume.Entries, Volume.Clusters, Volume.Valid, HintReaches;
      ghost var (e0, ch0) := (vol.Entries(), chains);
      if 2 <= last < EOC {
        ChainFacts(e0, ch0, lost, g);
      }
      c := AllocCluster();
      if c == 0 {
        return;
      }
      if last >= 2 && last < EOC {
        JoinChains(vol.Entries(), chains, lost, g, c);
        FreeCountKept(vol.Entries(), last, c);
        NumberStorable(vol, c);
        vol.Store(last, c);
        assert Joined(chains, g, c) == ch0[g := ch0[g] + [c]];
        chains := chains - {c};
        chains := chains[g := ch0[g] + [c]];
      }
    }

    /** The end-of-chain mark `fat_node_truncate` stores in the `k`-th cluster of chain `g`. */
    method Terminate(cur: nat, ghost g: nat, ghost k: nat)
      requires Valid() && !vol.readonly && g in chains && k < |chains[g]| && cur == chains[g][k]
      modifies this`chains, vol
      ensures Valid() && vol.Clusters() == old(vol.Clusters()) && chains == Split(old(chains), g, k)
      ensures FreeSet(vol.Entries()) == old(FreeSet(vol.Entries()))
    {
      hide Inv, Volume.Entries, Volume.Clusters, Volume.Valid, HintReaches, Split;
      ChainFacts(vol.Entries(), chains, lost, g);
      CutChain(vol.Entries(), chains, lost, g, k);
      FreeCountKept(vol.Entries(), cur, EOC);
      TotalFits(vol);
      vol.Store(cur, EOC);
      chains := Split(chains, g, k);
    }

    /** `fat_chain_length`. */
    method ChainLength(start: nat) returns (n: nat)
      requires Valid() && (start in chains || start < 2 || start >= EOC)
      ensures n == if start in chains then |chains[start]| else 0
    {
      hide Inv, Volume.Entries, Volume.Clusters, Volume.Valid;
      n := 0;
      ghost var e := vol.Entries();
      NoHeadOutside(e, chains, lost);
      if start in chains {
        ChainFacts(e, chains, lost, start);
      }
      ghost var s := if start in chains then chains[start] else [];
      var cur := start;
      while cur >= 2 && cur < EOC && cur != FREE
        invariant 0 <= n <= |s|
        invariant if n < |s| then cur == s[n] else cur < 2 || cur >= EOC
        decreases |s| - n
      {
        cur := vol.Look(cur);
        n := n + 1;
        if n > vol.geo.total {
          break;
        }
      }
    }
  }

  /** The table with the clusters of `s` marked free. */
  function Freed(e: seq<nat>, s: seq<nat>): (r: seq<nat>)
    ensures |r| == |e|
  {
    seq(|e|, c requires 0 <= c < |e| => if c in s then FREE else e[c])
  }

  /** The chains once the first `k` clusters of chain `g` are freed. */
  function Rest(ch: Chains, g: nat, k: nat): Chains
    requires g in ch && k <= |ch[g]|
  {
    if k == |ch[g]| then ch - {g} else (ch - {g})[ch[g][k] := ch[g][k..]]
  }

  /** The hint once the clusters of `s` are freed. */
  function Lowered(hint: nat, s: seq<nat>): (r: nat)
    ensures r <= hint && (r == hint || r in s)
    ensures forall c :: c in s ==> r <= c
  {
    if s == [] then hint
    else
      var r := Lowered(hint, s[..|s| - 1]);
      assert s == s[..|s| - 1] + [Last(s)];
      if Last(s) < r then Last(s) else r
  }

  lemma FreedStep(e: seq<nat>, s: seq<nat>, k: nat)
    requires k < |s| && s[k] < |e|
    ensures Freed(e, s[..k])[s[k] := FREE] == Freed(e, s[..k + 1])
  {
    assert s[..k + 1] == s[..k] + [s[k]];
  }

  lemma LoweredStep(hint: nat, s: seq<nat>, k: nat)
    requires k < |s|
    ensures Lowered(hint, s[..k + 1]) == var r := Lowered(hint, s[..k]); if s[k] < r then s[k] else r
  {
    assert s[..k + 1][..k] == s[..k];
  }

  lemma RestStep(ch: Chains, g: nat, k: nat)
    requires g in ch && k < |ch[g]| && ch[g][0] == g && NoDups(ch[g])
    requires forall i :: 0 < i < |ch[g]| ==> ch[g][i] !in ch
    ensures ch[g][k] in Rest(ch, g, k) && Rest(ch, g, k)[ch[g][k]] == ch[g][k..]
    ensures Beheaded(Rest(ch, g, k), ch[g][k]) == Rest(ch, g, k + 1)
  {
  }

  lemma ChainFacts(e: seq<nat>, ch: Chains, lost: set<nat>, g: nat)
    requires Inv(e, ch, lost) && g in ch
    ensures |ch[g]| > 0 && ch[g][0] == g && NoDups(ch[g]) && |ch[g]| <= |e| - 2 && |e| <= BAD
    ensures forall i :: 0 <= i < |ch[g]| ==> 2 <= ch[g][i] < |e| && e[ch[g][i]] != FREE
    ensures forall i :: 0 <= i < |ch[g]| - 1 ==> e[ch[g][i]] == ch[g][i + 1]
    ensures e[Last(ch[g])] >= EOC
    ensures forall i :: 0 < i < |ch[g]| ==> ch[g][i] !in ch
  {
    UseChain(e, ch, g);
    ChainBound(e, g, ch[g]);
    forall i | 0 < i < |ch[g]| ensures ch[g][i] !in ch {
      CutFresh(e, ch, g, i - 1);
    }
  }

  lemma TotalFits(vol: Volume)
    requires vol.Valid()
    ensures vol.geo.total + 2 <= BAD && Storable(vol.geo.kind, EOC)
  {
  }

  lemma FreeFits(vol: Volume)
    ensures Storable(vol.geo.kind, FREE)
  {
  }

  lemma NumberStorable(vol: Volume, c: nat)
    requires vol.Valid() && c < vol.geo.total + 2
    ensures Storable(vol.geo.kind, c)
  {
  }

  lemma NoHeadOutside(e: seq<nat>, ch: Chains, lost: set<nat>)
    requires Inv(e, ch, lost)
    ensures forall h :: h in ch ==> 2 <= h < |e| && h < EOC
  {
  }

  lemma StartFreeing(e: seq<nat>, ch: Chains, g: nat, hint: nat)
    requires g in ch && |ch[g]| > 0 && ch[g][0] == g
    ensures Freed(e, ch[g][..0]) == e && Rest(ch, g, 0) == ch && Lowered(hint, ch[g][..0]) == hint
  {
  }

  /** One round of `fat_free_chain`. */
  lemma FreeStep(e: seq<nat>, ch: Chains, lost: set<nat>, g: nat, k: nat)
    requires g in ch && k < |ch[g]| && ch[g][0] == g && NoDups(ch[g]) && 2 <= ch[g][k] < |e|
    requires forall i :: 0 < i < |ch[g]| ==> ch[g][i] !in ch
    requires Inv(Freed(e, ch[g][..k]), Rest(ch, g, k), lost)
    ensures var (e0, e1) := (Freed(e, ch[g][..k]), Freed(e, ch[g][..k + 1]));
      && e0[ch[g][k]] == e[ch[g][k]] && e0[ch[g][k] := FREE] == e1
      && Inv(e1, Rest(ch, g, k + 1), lost) && |FreeSet(e1)| == |FreeSet(e0)| + 1 <= |e| - 2
  {
    hide Inv, Rest, FreeSet;
    var e0 := Freed(e, ch[g][..k]);
    assert e0[ch[g][k]] == e[ch[g][k]];
    hide Freed;
    RestStep(ch, g, k);
    FreedStep(e, ch[g], k);
    FreeHead(e0, Rest(ch, g, k), lost, ch[g][k]);
    FreeCountFreed(e0, ch[g][k]);
    FreeBound(e0[ch[g][k] := FREE]);
  }

  lemma DoneFreeing(ch: Chains, g: nat)
    requires g in ch
    ensures Rest(ch, g, |ch[g]|) == ch - {g}
  {
  }

  lemma NoneFree(hint: nat, total: nat, e: seq<nat>)
    requires hint < TWO_32 && total < TWO_32 && |e| == total + 2 && HintReaches(hint, total)
    requires NothingMet(hint, total, e, total)
    ensures FreeSet(e) == {}
  {
    if c :| c in FreeSet(e) {
      var i := ScanReaches(hint, total, c);
    }
  }
}
