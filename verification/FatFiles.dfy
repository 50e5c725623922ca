/** Reading, writing and truncating a file of an open volume. */
module FatFiles {
  import opened Common
  import opened FatEntries
  import opened FatVolume
  import opened FatChains
  import opened FatClusters
  import opened FatContent
  import opened FatImages

  datatype Errno = IsDir | RoFs | NoSpace
  datatype Outcome = Done(count: nat) | Failed(errno: Errno)

  /** What `fat_node_read` of `n` bytes at `offset` delivers of a file of `size` bytes. */
  function Slice(content: seq<byte>, size: nat, offset: nat, n: nat): seq<byte>
    requires size <= |content|
  {
    if offset >= size then []
    else if offset + n >= TWO_64 then content[offset..]
    else if offset + n > size then content[offset..size]
    else content[offset..offset + n]
  }

  ghost function Now(fat: Fat): (m: Image)
    requires fat.vol.Valid()
    reads fat, fat.vol
    ensures |m.e| == |m.cl|
  {
    Image(fat.vol.Entries(), fat.chains, fat.vol.Clusters(), HintReaches(fat.nextFree, fat.vol.geo.total))
  }

  // ---------------------------------------------------------------- chains of a volume

  lemma ChainWhole(vol: Volume, ch: Chains, lost: set<nat>, g: nat)
    requires vol.Valid() && Inv(vol.Entries(), ch, lost) && g in ch
    ensures Whole(vol.Clusters(), vol.geo.Bpc(), ch[g])
    ensures Base(vol.geo.Bpc(), |ch[g]|) < TWO_64
  {
    hide Inv, Base, Volume.Entries;
    ChainFacts(vol.Entries(), ch, lost, g);
    SizeFits(vol.geo, |vol.disk|, |ch[g]|);
    forall c | 2 <= c < vol.geo.total + 2 ensures |vol.Clusters()[c]| == vol.geo.Bpc() {
      ClusterFits(vol.geo.Bpc(), c - 2, vol.geo.total);
    }
  }

  lemma SizeFits(geo: Geometry, size: nat, n: nat)
    requires geo.Sound(size) && n <= geo.total
    ensures 0 < geo.Bpc() < 0x2_0000 && Base(geo.Bpc(), n) < TWO_64
  {
    var b := geo.Bpc();
    assert b <= 255 * SECTOR;
    MulMono(n, b, 0x1000_0000, 0x2_0000);
  }

  lemma MulMono(a: nat, b: nat, c: nat, d: nat)
    requires a <= c && b <= d
    ensures a * b <= c * d
  {
  }

  class FatNode {
    const fat: Fat
    const directory: bool
    const readOnly: bool
    var firstCluster: nat
    var size: nat

    ghost predicate Linked()
      reads this`firstCluster, fat, fat.vol
    {
      fat.Valid() && (firstCluster in fat.chains || firstCluster < 2)
    }

    ghost function Chain(): seq<nat>
      reads this`firstCluster, fat
    {
      if firstCluster in fat.chains then fat.chains[firstCluster] else []
    }

    /** All bytes of the file's clusters. */
    ghost function Bytes(): seq<byte>
      requires Linked()
      reads this`firstCluster, fat, fat.vol
    {
      if firstCluster in fat.chains then
        ChainWhole(fat.vol, fat.chains, fat.lost, firstCluster);
        Content(fat.vol.Clusters(), fat.vol.geo.Bpc(), Chain())
      else []
    }

    ghost predicate Valid()
      reads this, fat, fat.vol
    {
      Linked() && size <= |Bytes()|
    }

    /** A node as `fat_node_lookup` builds it from a directory entry. */
    constructor (fat: Fat, directory: bool, readOnly: bool, firstCluster: nat, size: nat)
      ensures this.fat == fat && this.directory == directory && this.readOnly == readOnly
      ensures this.firstCluster == firstCluster && this.size == size
    {
      this.fat, this.directory, this.readOnly := fat, directory, readOnly;
      this.firstCluster, this.size := firstCluster, size;
    }

    /** `fat_node_read`. */
    method Read(offset: nat, n: nat) returns (r: Outcome, out: seq<byte>)
      requires Valid() && offset < TWO_64 && n < TWO_64
      ensures directory ==> r == Failed(IsDir) && out == []
      ensures !directory ==> r == Done(|out|) && out == Slice(Bytes(), size, offset, n)
    {
      hide Fat.Valid, Volume.Valid, Volume.Clusters, Volume.Entries, Content, Base, Whole, NoDups;
      hide FatNode.Chain, FatNode.Bytes, FatNode.Linked, Geometry.Bpc, Wrap, Slice, Follows, Reads;
      r, out := Done(0), [];
      if directory {
        return Failed(IsDir), [];
      }
      if offset >= size {
        SliceNone(Bytes(), size, offset, n);
        return;
      }
      FileFacts(this);
      ghost var (e, s, cl, content) := (fat.vol.Entries(), Chain(), fat.vol.Clusters(), Bytes());
      var m: nat := if Wrap(offset + n) > size then size - offset else n;
      if m == 0 {
        SliceIs(content, size, offset, n, out);
        return;
      }
      var bpc := fat.vol.geo.Bpc();
      DivBase(bpc, offset, |s|);
      var clusterIdx: nat, byteIn: nat := offset / bpc % TWO_32, offset % bpc;
      assert clusterIdx == offset / bpc;
      var cur := firstCluster;
      Hop(e, firstCluster, s, 0);
      for i: nat := 0 to clusterIdx
        invariant cur == s[i] && 2 <= cur < EOC
      {
        Hop(e, firstCluster, s, i);
        cur := fat.vol.Look(cur);
        if cur >= EOC || cur == FREE {
          return;
        }
      }
      ghost var k: nat, want := clusterIdx, m;
      ReadStart(content, bpc, offset, k, byteIn, m);
      while m > 0 && cur >= 2 && cur < EOC
        invariant byteIn < bpc && m + |out| == want && Reads(content, offset, out, bpc, k, byteIn, m)
        invariant 0 <= k <= |s| && if k < |s| then cur == s[k] && 2 <= cur < EOC else cur >= EOC
        decreases m
      {
        Hop(e, firstCluster, s, k);
        var buf := fat.vol.ReadCluster(cur);
        var toCopy := if bpc - byteIn > m then m else bpc - byteIn;
        ReadStep(cl, bpc, s, content, offset, out, k, byteIn, m, toCopy);
        out := out + buf[byteIn..byteIn + toCopy];
        m, byteIn := m - toCopy, 0;
        if m > 0 {
          cur := fat.vol.Look(cur);
          k := k + 1;
        }
      }
      ReadEnd(content, bpc, offset, out, k, byteIn, m);
      SliceIs(content, size, offset, n, out);
      r := Done(|out|);
    }

    /** The first cluster of an empty file, allocated and zeroed. */
    method EnsureFirst(ghost offset: nat) returns (ok: bool)
      requires Linked() && !fat.vol.readonly
      modifies this`firstCluster, fat, fat.vol
      ensures Linked()
      ensures ok ==> Grown(old(Now(fat)), old(Chain()), Now(fat), Chain(), firstCluster)
      ensures ok ==> Written(old(Now(fat)), old(Chain()), Now(fat), Chain(), fat.vol.geo.Bpc(), offset, [])
      ensures ok ==> |Chain()| == if old(Chain()) == [] then 1 else |old(Chain())|
      ensures !ok ==> Now(fat) == old(Now(fat)) && Full(Now(fat)) && Chain() == old(Chain()) == []
      ensures !ok || old(Chain()) != [] ==> firstCluster == old(firstCluster)
    {
      hide Volume.Clusters, Volume.Entries, Volume.Valid, Inv, Content, Base, Grown, Written, HintReaches;
      ghost var (a, bpc) := (Now(fat), fat.vol.geo.Bpc());
      if firstCluster < 2 {
        NoHeadOutside(fat.vol.Entries(), fat.chains, fat.lost);
        var c := fat.AllocCluster();
        if c == 0 {
          return false;
        }
        FreeCountUsed(a.e, c, EOC);
        TotalFits(fat.vol);
        HintAfter(c, fat.vol.geo.total);
        fat.vol.WriteCluster(c, Zeros(fat.vol.geo.Bpc()));
        firstCluster := c;
        GrownFirst(a, Now(fat), c, bpc, offset);
      } else {
        ChainFacts(a.e, fat.chains, fat.lost, firstCluster);
        ChainWhole(fat.vol, fat.chains, fat.lost, firstCluster);
        GrownStart(a, firstCluster, Chain(), bpc, offset);
      }
      ok := true;
    }

    /** A cluster allocated, linked behind the last one and zeroed; 0 for none. */
    method Append(cur: nat) returns (next: nat)
      requires Linked() && !fat.vol.readonly && |Chain()| > 0 && cur == Last(Chain())
      modifies fat, fat.vol
      ensures Linked()
      ensures next == 0 ==> Now(fat) == old(Now(fat)) && Full(Now(fat))
      ensures next != 0 ==> Extended(old(Now(fat)), Now(fat), firstCluster, next, fat.vol.geo.Bpc())
      ensures next != 0 ==> Chain() == old(Chain()) + [next] && next !in old(Chain())
    {
      hide Volume.Clusters, Volume.Entries, Volume.Valid, Inv, Base, HintReaches, Follows;
      ghost var a := Now(fat);
      ChainFacts(a.e, fat.chains, fat.lost, firstCluster);
      next := fat.ExtendChain(cur, firstCluster);
      if next != 0 {
        FreeNotIn(a.e, fat.lost, a.ch, firstCluster, next);
        FreeCountUsed(a.e, next, EOC);
        FreeCountKept(a.e[next := EOC], cur, next);
        TotalFits(fat.vol);
        HintAfter(next, fat.vol.geo.total);
        fat.vol.WriteCluster(next, Zeros(fat.vol.geo.Bpc()));
      }
    }

    /** The cluster behind the `k`-th, which is appended at the end of the chain; 0 for none. */
    method Advance(cur: nat, ghost k: nat) returns (next: nat)
      requires Linked() && !fat.vol.readonly && k < |Chain()| && cur == Chain()[k]
      modifies fat, fat.vol
      ensures Linked()
      ensures next == 0 ==> Now(fat) == old(Now(fat)) && Full(Now(fat)) && k == |Chain()| - 1
      ensures next != 0 && k < |old(Chain())| - 1 ==> Now(fat) == old(Now(fat)) && next == Chain()[k + 1]
      ensures next != 0 && k == |old(Chain())| - 1 ==>
        Extended(old(Now(fat)), Now(fat), firstCluster, next, fat.vol.geo.Bpc())
      ensures next != 0 && k == |old(Chain())| - 1 ==> Chain() == old(Chain()) + [next] && next !in old(Chain())
    {
      hide Volume.Clusters, Volume.Entries, Volume.Valid, Inv, Base, HintReaches, Follows, Extended, Full;
      ghost var a := Now(fat);
      UseInv(a.e, fat.chains, fat.lost, firstCluster);
      Hop(a.e, firstCluster, Chain(), k);
      next := fat.vol.Look(cur);
      if next >= EOC || next == FREE {
        next := Append(cur);
      }
    }

    /** A write of `n` bytes at `offset` under way, with `d` written so far: the chain has grown no further
        than the write needs, and (`exact`) the bytes are as they should be. */
    ghost predicate Underway(a: Image, s0: seq<nat>, offset: nat, n: nat, d: seq<byte>, exact: bool)
      reads this`firstCluster, fat, fat.vol
    {
      && Linked() && !fat.vol.readonly
      && Grown(a, s0, Now(fat), Chain(), firstCluster)
      && NoSurplus(fat.vol.geo.Bpc(), offset + n, |s0|, |Chain()|)
      && (exact ==> Written(a, s0, Now(fat), Chain(), fat.vol.geo.Bpc(), offset, d))
    }

    /** A chain under way that is appended to. */
    ghost method Lengthened(a: Image, s0: seq<nat>, offset: nat, n: nat, d: seq<byte>, exact: bool, b: Image,
                            s: seq<nat>, next: nat)
      requires Linked() && !fat.vol.readonly && Grown(a, s0, b, s, firstCluster)
      requires exact ==> Written(a, s0, b, s, fat.vol.geo.Bpc(), offset, d)
      requires Base(fat.vol.geo.Bpc(), |s|) < offset + n
      requires Extended(b, Now(fat), firstCluster, next, fat.vol.geo.Bpc()) && Chain() == s + [next] && next !in s
      ensures Underway(a, s0, offset, n, d, exact)
    {
      hide Volume.Clusters, Volume.Entries, Volume.Valid, Inv, Base, HintReaches, Grown, Written, Extended;
      GrownExtend(a, s0, b, s, firstCluster, Now(fat), next, fat.vol.geo.Bpc());
      if exact {
        WrittenExtend(a, s0, b, s, firstCluster, Now(fat), next, fat.vol.geo.Bpc(), offset, d);
      }
    }

    /** One step along the chain of a write under way. */
    method Step(ghost a: Image, ghost s0: seq<nat>, ghost offset: nat, ghost n: nat, ghost d: seq<byte>,
                ghost exact: bool, cur: nat, ghost k: nat)
      returns (next: nat)
      requires Underway(a, s0, offset, n, d, exact) && k < |Chain()| && cur == Chain()[k]
      requires Base(fat.vol.geo.Bpc(), k + 1) < offset + n
      modifies fat, fat.vol
      ensures Underway(a, s0, offset, n, d, exact)
      ensures next == 0 ==> Full(Now(fat)) && k + 1 == |Chain()|
      ensures next != 0 ==> k + 1 < |Chain()| && next == Chain()[k + 1]
    {
      hide Volume.Clusters, Volume.Entries, Volume.Valid, Inv, Base, HintReaches, Grown, Written, Full, Extended;
      ghost var (b, s) := (Now(fat), Chain());
      next := Advance(cur, k);
      if next != 0 && k == |s| - 1 {
        Lengthened(a, s0, offset, n, d, exact, b, s, next);
      }
    }

    /** The chain is followed, and extended where it ends, up to its `idx`-th cluster; 0 when no cluster is left. */
    method Seek(ghost a: Image, ghost s0: seq<nat>, ghost offset: nat, ghost n: nat, ghost exact: bool, idx: nat)
      returns (cur: nat)
      requires Underway(a, s0, offset, n, [], exact) && Base(fat.vol.geo.Bpc(), idx) <= offset && n > 0
      modifies fat, fat.vol
      ensures Underway(a, s0, offset, n, [], exact)
      ensures cur == 0 ==> Full(Now(fat)) && |Chain()| <= idx
      ensures cur != 0 ==> idx < |Chain()| && cur == Chain()[idx]
    {
      hide Grown, Written, Full, Base, Inv, Volume.Valid, Fat.Valid, Follows;
      FirstOf(this, a, s0, offset, n, [], exact);
      cur := firstCluster;
      for i: nat := 0 to idx
        invariant Underway(a, s0, offset, n, [], exact)
        invariant i < |Chain()| && cur == Chain()[i] && cur != 0
      {
        BaseMono(fat.vol.geo.Bpc(), i + 1, idx);
        cur := Step(a, s0, offset, n, [], exact, cur, i);
        if cur == 0 {
          return;
        }
      }
    }

    /** One round of the write loop: a piece goes into the `k`-th cluster. */
    method PutPiece(ghost a: Image, ghost s0: seq<nat>, ghost offset: nat, ghost n: nat, ghost d: seq<byte>,
                    ghost exact: bool, cur: nat, ghost k: nat, byteIn: nat, piece: seq<byte>, blank: bool)
      requires Underway(a, s0, offset, n, d, exact) && k < |Chain()| && cur == Chain()[k]
      requires piece != [] && byteIn + |piece| <= fat.vol.geo.Bpc()
      requires blank ==> byteIn == 0 && |piece| == fat.vol.geo.Bpc()
      requires exact ==> offset + |d| == Base(fat.vol.geo.Bpc(), k) + byteIn
      modifies fat, fat.vol
      ensures Underway(a, s0, offset, n, d + piece, exact) && Chain() == old(Chain())
    {
      hide Grown, Written, Base, Inv, Patch, Volume.Valid, Volume.Entries, Volume.Clusters, HintReaches, NoSurplus;
      ghost var (b, s, bpc) := (Now(fat), Chain(), fat.vol.geo.Bpc());
      GrownLinked(a, s0, b, s, firstCluster);
      ChainFacts(b.e, b.ch, fat.lost, firstCluster);
      ghost var c := b.cl[cur];
      WholeCluster(fat.vol, cur);
      var clusBuf := Zeros(fat.vol.geo.Bpc());
      if !blank {
        clusBuf := fat.vol.ReadCluster(cur);
      }
      PatchBlank(c, clusBuf, byteIn, piece);
      fat.vol.WriteCluster(cur, Patch(clusBuf, byteIn, piece));
      GrownWrite(a, s0, b, s, firstCluster, cur, Patch(c, byteIn, piece));
      if exact {
        WrittenPiece(a, s0, b, s, bpc, offset, d, k, byteIn, piece);
      }
    }

    /** The write loop: the pieces of `buf` go into the chain from byte `first` of its `k0`-th cluster on. */
    method PutPieces(ghost a: Image, ghost s0: seq<nat>, ghost offset: nat, ghost exact: bool, start: nat,
                     ghost k0: nat, first: nat, buf: seq<byte>)
      returns (written: nat)
      requires Underway(a, s0, offset, |buf|, [], exact) && k0 < |Chain()| && start == Chain()[k0]
      requires first < fat.vol.geo.Bpc() && Base(fat.vol.geo.Bpc(), k0) + first <= offset
      requires exact ==> offset == Base(fat.vol.geo.Bpc(), k0) + first
      modifies fat, fat.vol
      ensures written <= |buf| && Underway(a, s0, offset, |buf|, buf[..written], exact)
      ensures written < |buf| ==> Full(Now(fat)) && Base(fat.vol.geo.Bpc(), |Chain()|) < offset + |buf|
    {
      hide Grown, Written, Full, Base, Inv, Volume.Valid, Fat.Valid, Geometry.Bpc, FatNode.Underway, FatNode.Chain;
      var bpc := fat.vol.geo.Bpc();
      var cur, byteIn: nat := start, first;
      ghost var k: nat := k0;
      written := 0;
      assert buf[..0] == [];
      while written < |buf|
        invariant written <= |buf| && Underway(a, s0, offset, |buf|, buf[..written], exact)
        invariant written < |buf| ==> k < |Chain()| && cur == Chain()[k] && byteIn < bpc
        invariant written < |buf| ==> Base(bpc, k) + byteIn <= offset + written
        invariant written < |buf| && exact ==> offset + written == Base(bpc, k) + byteIn
      {
        var m := |buf| - written;
        var toCopy := if bpc - byteIn > m then m else bpc - byteIn;
        var piece := buf[written..written + toCopy];
        PutPiece(a, s0, offset, |buf|, buf[..written], exact, cur, k, byteIn, piece, byteIn == 0 && m >= bpc);
        assert buf[..written] + piece == buf[..written + toCopy];
        ClusterFits(bpc, k, k + 1);
        written := written + toCopy;
        byteIn := 0;
        if written < |buf| {
          cur := Step(a, s0, offset, |buf|, buf[..written], exact, cur, k);
          if cur == 0 {
            return;
          }
          k := k + 1;
        }
      }
      assert buf[..written] == buf;
    }

    /** The call of `fat_flush_fat` that ends every change; it changes nothing that the volume holds. */
    method FlushFat()
      requires Linked()
      modifies fat.vol`disk, fat.vol`dirty
      ensures Linked() && Now(fat) == old(Now(fat)) && Chain() == old(Chain())
      ensures !fat.vol.dirty
    {
      hide Inv, ClustersOf, EntriesOf, Base;
      var code := fat.vol.Flush(true, true);
    }

    /** The error `fat_node_write` reports before it looks at the data. */
    function Refusal(): Option<Errno>
    {
      if fat.vol.readonly then Some(RoFs)
      else if directory then Some(IsDir)
      else if readOnly then Some(RoFs)
      else None
    }

    /** The part of `fat_node_write` behind the checks. */
    method WriteData(offset: nat, buf: seq<byte>) returns (r: Outcome)
      requires Linked() && !fat.vol.readonly && offset < TWO_64 && 0 < |buf| < TWO_64
      modifies this`firstCluster, this`size, fat, fat.vol
      ensures Linked() && Untouched(old(Now(fat)), Now(fat), firstCluster)
      ensures r.Failed? ==> r == Failed(NoSpace) && firstCluster == old(firstCluster) && size == old(size)
      ensures r.Failed? ==> Now(fat) == old(Now(fat)) && Full(Now(fat))
      ensures WriteResult(old(Now(fat)), old(Chain()), old(size), Now(fat), Chain(), size, fat.vol.geo.Bpc(), offset, buf, r)
    {
      hide Grown, Written, Full, Base, Inv, Volume.Valid, Volume.Entries, Volume.Clusters, HintReaches, Geometry.Bpc,
           Untouched, NoSurplus, Wrap, FatNode.Chain, Room, WriteResult, FatNode.Underway, FreeSet;
      ghost var (a, s0, size0) := (Now(fat), Chain(), size);
      var bpc := fat.vol.geo.Bpc();
      BpcFits(fat.vol);
      RoomExact(this, offset, |buf|);
      var ok := EnsureFirst(offset);
      if !ok {
        UntouchedSelf(a);
        NoRoomAtAll(a, size, bpc, offset, buf);
        return Failed(NoSpace);
      }
      DivBase(bpc, offset, 0);
      var clusterIdx, byteIn := offset / bpc % TWO_32, offset % bpc;
      ghost var exact := offset / bpc < TWO_32;
      BaseMono(bpc, clusterIdx, offset / bpc);
      WriteStarts(this, a, s0, offset, |buf|, exact);
      var written := 0;
      var cur := Seek(a, s0, offset, |buf|, exact, clusterIdx);
      assert buf[..0] == [];
      if cur != 0 {
        written := PutPieces(a, s0, offset, exact, cur, clusterIdx, byteIn, buf);
      }
      WriteEnds(this, a, s0, offset, buf, written, exact, cur, clusterIdx);
      FlushFat();
      if Wrap(offset + written) > size {
        size := Wrap(offset + written);
      }
      r := Done(written);
      WriteDone(a, s0, size0, Now(fat), Chain(), size, bpc, offset, buf, written);
    }

    /** `fat_node_write`. */
    method Write(offset: nat, buf: seq<byte>) returns (r: Outcome)
      requires Linked() && offset < TWO_64 && |buf| < TWO_64
      modifies this`firstCluster, this`size, fat, fat.vol
      ensures Linked() && Untouched(old(Now(fat)), Now(fat), firstCluster)
      ensures Refusal().Some? ==> r == Failed(Refusal().value)
      ensures Refusal().None? && buf == [] ==> r == Done(0)
      ensures Refusal().None? && r.Failed? ==> r == Failed(NoSpace) && Full(Now(fat))
      ensures r.Failed? || buf == [] ==> Now(fat) == old(Now(fat)) && firstCluster == old(firstCluster) && size == old(size)
      ensures Refusal().None? && buf != [] ==>
        WriteResult(old(Now(fat)), old(Chain()), old(size), Now(fat), Chain(), size, fat.vol.geo.Bpc(), offset, buf, r)
    {
      hide Full, Inv, Volume.Valid, Volume.Entries, Volume.Clusters, HintReaches, Geometry.Bpc, Untouched, WriteResult,
           FatNode.Chain;
      UntouchedSelf(Now(fat));
      if fat.vol.readonly {
        return Failed(RoFs);
      }
      if directory {
        return Failed(IsDir);
      }
      if readOnly {
        return Failed(RoFs);
      }
      if |buf| == 0 {
        return Done(0);
      }
      r := WriteData(offset, buf);
    }

    /** The walk to the last cluster that is kept. */
    method WalkTo(needed: nat) returns (cur: nat)
      requires Linked() && 1 <= needed <= |Chain()|
      ensures cur == Chain()[needed - 1]
    {
      hide Volume.Clusters, Volume.Entries, Volume.Valid, Inv, Follows;
      ghost var (e, s, g) := (fat.vol.Entries(), Chain(), firstCluster);
      UseInv(e, fat.chains, fat.lost, g);
      FirstIs(e, g, s);
      cur := firstCluster;
      for i: nat := 1 to needed
        invariant cur == s[i - 1]
      {
        Hop(e, g, s, i - 1);
        var next := fat.vol.Look(cur);
        if next >= EOC {
          break;
        }
        cur := next;
      }
    }

    /** The shortening branch of `fat_node_truncate`: the chain keeps its first `needed` clusters. */
    method Shorten(needed: nat)
      requires Linked() && !fat.vol.readonly && 1 <= needed <= |Chain()|
      modifies fat, fat.vol
      ensures Linked() && fat.chains == old(fat.chains)[firstCluster := Chain()] && Chain() == old(Chain())[..needed]
      ensures fat.vol.Clusters() == old(fat.vol.Clusters()) && |fat.vol.Entries()| == |old(fat.vol.Entries())|
      ensures |FreeSet(fat.vol.Entries())| + needed == |old(FreeSet(fat.vol.Entries()))| + |old(Chain())|
    {
      hide Volume.Clusters, Volume.Entries, Volume.Valid, Inv, HintReaches, Follows, Freed, FreeSet, Lowered, Split;
      ghost var (e, ch, s, g) := (fat.vol.Entries(), fat.chains, Chain(), firstCluster);
      UseInv(e, ch, fat.lost, g);
      FirstIs(e, g, s);
      var cur := WalkTo(needed);
      Hop(e, g, s, needed - 1);
      var tail := fat.vol.Look(cur);
      fat.Terminate(cur, g, needed - 1);
      ghost var (e1, ch1) := (fat.vol.Entries(), fat.chains);
      SplitIs(e, ch, fat.lost, g, needed);
      NoHeadOutside(e1, ch1, fat.lost);
      if tail >= 2 && tail < EOC {
        ChainFacts(e1, ch1, fat.lost, tail);
        FreedCount(e1, ch1[tail]);
        fat.FreeChain(tail);
      }
    }

    /** The lengthening branch of `fat_node_truncate`: zeroed clusters are appended up to `needed` in all. */
    method Lengthen(newSize: nat, needed: nat) returns (ok: bool)
      requires Linked() && !fat.vol.readonly && (needed > 0 ==> Base(fat.vol.geo.Bpc(), needed - 1) < newSize)
      modifies this`firstCluster, fat, fat.vol
      ensures Linked()
      ensures !ok ==> Now(fat) == old(Now(fat)) && Full(Now(fat)) && Chain() == old(Chain()) == []
      ensures !ok || old(Chain()) != [] ==> firstCluster == old(firstCluster)
      ensures ok ==> Underway(old(Now(fat)), old(Chain()), newSize, 0, [], true)
      ensures ok && |Chain()| < needed ==> Full(Now(fat))
    {
      hide Volume.Clusters, Volume.Entries, Volume.Valid, Inv, HintReaches, Follows, Grown, Written, Full, Extended, Base,
           FatNode.Underway;
      ghost var (a, s0) := (Now(fat), Chain());
      var empty := firstCluster < 2;
      ok := EnsureFirst(newSize);
      if !ok {
        return;
      }
      WriteStarts(this, a, s0, newSize, 0, true);
      var cur := Tail();
      var i := fat.ChainLength(firstCluster);
      while i < needed
        invariant Underway(a, s0, newSize, 0, [], true) && Linked() && !fat.vol.readonly
        invariant i == |Chain()| > 0 && cur == Last(Chain())
        modifies fat, fat.vol
        decreases needed - i
      {
        ghost var (b, s) := (Now(fat), Chain());
        UnderwayIs(this, a, s0, newSize, 0, [], true);
        BaseMono(fat.vol.geo.Bpc(), i, needed - 1);
        var c := Append(cur);
        if c == 0 {
          UnderwayKept(this, a, s0, newSize, 0, [], true, b, s);
          break;
        }
        Lengthened(a, s0, newSize, 0, [], true, b, s, c);
        cur := c;
        i := i + 1;
      }
    }

    /** The walk to the last cluster of the chain. */
    method Tail() returns (cur: nat)
      requires Linked() && |Chain()| > 0
      ensures cur == Last(Chain())
    {
      hide Volume.Clusters, Volume.Entries, Volume.Valid, Inv, Follows;
      ghost var (e, s, g) := (fat.vol.Entries(), Chain(), firstCluster);
      UseInv(e, fat.chains, fat.lost, g);
      FirstIs(e, g, s);
      Hop(e, g, s, 0);
      cur := firstCluster;
      ghost var k: nat := 0;
      var next := fat.vol.Look(cur);
      while next < EOC
        invariant k < |s| && cur == s[k] && if k < |s| - 1 then next == s[k + 1] else next >= EOC
        decreases |s| - k
      {
        cur := next;
        k := k + 1;
        Hop(e, g, s, k);
        next := fat.vol.Look(cur);
      }
    }

    /** The clearing branch of `fat_node_truncate`. */
    method Clear()
      requires Linked() && !fat.vol.readonly
      modifies this`firstCluster, fat, fat.vol
      ensures Linked() && firstCluster == 0 && Chain() == [] && fat.chains == old(fat.chains) - {old(firstCluster)}
      ensures fat.vol.Clusters() == old(fat.vol.Clusters()) && |fat.vol.Entries()| == |old(fat.vol.Entries())|
      ensures |FreeSet(fat.vol.Entries())| == |old(FreeSet(fat.vol.Entries()))| + |old(Chain())|
    {
      hide Volume.Clusters, Volume.Entries, Volume.Valid, Inv, HintReaches, Follows, Freed, FreeSet, Lowered;
      ghost var e := fat.vol.Entries();
      NoHeadOutside(e, fat.chains, fat.lost);
      if firstCluster >= 2 {
        ChainFacts(e, fat.chains, fat.lost, firstCluster);
        FreedCount(e, Chain());
        fat.FreeChain(firstCluster);
      }
      NoHeadOutside(fat.vol.Entries(), fat.chains, fat.lost);
      firstCluster := 0;
    }

    /** `fat_node_truncate` to 0. */
    method TruncateToNothing()
      requires Linked() && !fat.vol.readonly
      modifies this`firstCluster, this`size, fat, fat.vol
      ensures Linked() && Untouched(old(Now(fat)), Now(fat), if old(Chain()) == [] then firstCluster else old(firstCluster))
      ensures TruncateResult(old(Now(fat)), old(Chain()), old(size), Now(fat), Chain(), size, fat.vol.geo.Bpc(), 0, Done(0))
    {
      hide Volume.Clusters, Volume.Entries, Volume.Valid, Inv, HintReaches, Follows, Grown, Written, Full, Base, FreeSet,
           FatNode.Underway, Untouched, TruncateResult, FatNode.Chain, FatNode.Bytes, Freed, Room, NoSurplus, Wrap;
      ghost var (a, s0, size0, f0) := (Now(fat), Chain(), size, firstCluster);
      BpcFits(fat.vol);
      ChainOrNone(this);
      Clear();
      size := 0;
      TruncateDone(a, s0, size0, Now(fat), Chain(), f0, fat.vol.geo.Bpc(), 0);
    }

    /** `fat_node_truncate` to less than the size. */
    method TruncateDown(newSize: nat, needed: nat)
      requires Valid() && !fat.vol.readonly && 0 < newSize < size && fat.vol.geo.Bpc() > 0
      requires needed == Needed(fat.vol.geo.Bpc(), newSize) <= |Chain()| && 1 <= needed
      modifies this`size, fat, fat.vol
      ensures Linked() && Untouched(old(Now(fat)), Now(fat), firstCluster)
      ensures TruncateResult(old(Now(fat)), old(Chain()), old(size), Now(fat), Chain(), size, fat.vol.geo.Bpc(), newSize, Done(0))
    {
      hide Volume.Clusters, Volume.Entries, Volume.Valid, Inv, HintReaches, Follows, Grown, Written, Full, Base, FreeSet,
           FatNode.Underway, Untouched, TruncateResult, FatNode.Chain, FatNode.Bytes, Freed, Room, NoSurplus, Needed;
      ghost var (a, s0, size0) := (Now(fat), Chain(), size);
      Shorten(needed);
      size := newSize;
      TruncateDone(a, s0, size0, Now(fat), Chain(), firstCluster, fat.vol.geo.Bpc(), newSize);
    }

    /** `fat_node_truncate` to the size or more. */
    method TruncateUp(newSize: nat, needed: nat) returns (r: Outcome)
      requires Linked() && !fat.vol.readonly && newSize >= size && newSize > 0
      requires needed > 0 ==> Base(fat.vol.geo.Bpc(), needed - 1) < newSize
      requires Room(Now(fat), |Chain()|, fat.vol.geo.Bpc(), newSize) ==> newSize <= Base(fat.vol.geo.Bpc(), needed)
      modifies this`firstCluster, this`size, fat, fat.vol
      ensures Linked() && Untouched(old(Now(fat)), Now(fat), if old(Chain()) == [] then firstCluster else old(firstCluster))
      ensures r.Failed? ==> Now(fat) == old(Now(fat)) && firstCluster == old(firstCluster) && size == old(size)
      ensures r.Failed? ==> r == Failed(NoSpace) && Full(Now(fat))
      ensures TruncateResult(old(Now(fat)), old(Chain()), old(size), Now(fat), Chain(), size, fat.vol.geo.Bpc(), newSize, r)
    {
      hide Volume.Clusters, Volume.Entries, Volume.Valid, Inv, HintReaches, Follows, Grown, Written, Full, Base, FreeSet,
           FatNode.Underway, Untouched, TruncateResult, FatNode.Chain, FatNode.Bytes, Freed, Room, NoSurplus;
      ghost var (a, s0) := (Now(fat), Chain());
      BpcFits(fat.vol);
      var ok := Lengthen(newSize, needed);
      LengthenDone(this, a, s0, size, newSize, needed, ok);
      if !ok {
        return Failed(NoSpace);
      }
      size := newSize;
      return Done(0);
    }

    /** `fat_node_truncate`. */
    method Truncate(newSize: nat) returns (r: Outcome)
      requires Valid() && newSize < TWO_64
      modifies this`firstCluster, this`size, fat, fat.vol
      ensures Linked() && Untouched(old(Now(fat)), Now(fat), if old(Chain()) == [] then firstCluster else old(firstCluster))
      ensures fat.vol.readonly ==> r == Failed(RoFs)
      ensures r.Failed? ==> Now(fat) == old(Now(fat)) && firstCluster == old(firstCluster) && size == old(size)
      ensures !fat.vol.readonly && r.Failed? ==> r == Failed(NoSpace) && Full(Now(fat))
      ensures !fat.vol.readonly ==>
        TruncateResult(old(Now(fat)), old(Chain()), old(size), Now(fat), Chain(), size, fat.vol.geo.Bpc(), newSize, r)
    {
      hide Volume.Clusters, Volume.Entries, Volume.Valid, Inv, HintReaches, Follows, Full, Base, FreeSet,
           Untouched, TruncateResult, FatNode.Chain, FatNode.Bytes, Room, Wrap, Needed;
      UntouchedSelf(Now(fat));
      if fat.vol.readonly {
        return Failed(RoFs);
      }
      var bpc := fat.vol.geo.Bpc();
      BpcFits(fat.vol);
      CeilFacts(this, newSize);
      var needed := Wrap(newSize + bpc - 1) / bpc % TWO_32;
      r := Done(0);
      if newSize == 0 {
        TruncateToNothing();
      } else if newSize < size {
        NeededSome(bpc, newSize);
        TruncateDown(newSize, needed);
      } else {
        r := TruncateUp(newSize, needed);
        if r.Failed? {
          return;
        }
      }
      FlushFat();
    }
  }

  /** A chain of `n` clusters, `n0` of which the file had, is no longer than `size` bytes need. */
  predicate NoSurplus(bpc: nat, size: nat, n0: nat, n: nat) {
    n <= n0 || n <= 1 || Base(bpc, n - 1) < size
  }

  lemma FirstOf(f: FatNode, a: Image, s0: seq<nat>, offset: nat, n: nat, d: seq<byte>, exact: bool)
    requires f.Underway(a, s0, offset, n, d, exact)
    ensures |f.Chain()| > 0 && f.Chain()[0] == f.firstCluster && f.firstCluster >= 2
  {
    hide Inv, Volume.Entries, Volume.Valid;
    GrownLinked(a, s0, Now(f.fat), f.Chain(), f.firstCluster);
    ChainFacts(f.fat.vol.Entries(), f.fat.chains, f.fat.lost, f.firstCluster);
  }

  lemma WholeCluster(vol: Volume, c: nat)
    requires vol.Valid() && 2 <= c < |vol.Clusters()|
    ensures |vol.Clusters()[c]| == vol.geo.Bpc()
  {
    hide Base;
    ClusterFits(vol.geo.Bpc(), c - 2, vol.geo.total);
  }

  /** A cluster that is overwritten whole need not be read first. */
  lemma PatchBlank(c: seq<byte>, c': seq<byte>, r: nat, d: seq<byte>)
    requires r + |d| <= |c| == |c'| && (c == c' || (r == 0 && |d| == |c|))
    ensures Patch(c', r, d) == Patch(c, r, d)
  {
    hide Patch;
  }

  /** The free clusters suffice for a file of `size` bytes that has `n` clusters, and a search finds them. */
  predicate Room(a: Image, n: nat, bpc: nat, size: nat) {
    a.reaches && size <= Base(bpc, n + |FreeSet(a.e)|)
  }

  /** What a write of `buf` makes of a file: with room for it the bytes at `offset` are `buf`, the others are
      as before, or zero in a new cluster, and the size grows to the end of `buf`; and no cluster is wasted. */
  predicate WriteResult(a: Image, s0: seq<nat>, size0: nat, b: Image, s: seq<nat>, size: nat, bpc: nat, offset: nat,
                        buf: seq<byte>, r: Outcome) {
    && NoSurplus(bpc, offset + |buf|, |s0|, |s|)
    && (Room(a, |s0|, bpc, offset + |buf|) ==>
          && r == Done(|buf|)
          && Written(a, s0, b, s, bpc, offset, buf)
          && size == if offset + |buf| > size0 then offset + |buf| else size0)
  }

  lemma NoRoomAtAll(a: Image, size: nat, bpc: nat, offset: nat, buf: seq<byte>)
    requires Full(a) && |buf| > 0
    ensures WriteResult(a, [], size, a, [], size, bpc, offset, buf, Failed(NoSpace))
  {
  }

  lemma WriteStarts(f: FatNode, a: Image, s0: seq<nat>, offset: nat, n: nat, exact: bool)
    requires f.Linked() && !f.fat.vol.readonly && Grown(a, s0, Now(f.fat), f.Chain(), f.firstCluster)
    requires Written(a, s0, Now(f.fat), f.Chain(), f.fat.vol.geo.Bpc(), offset, [])
    requires |f.Chain()| == if s0 == [] then 1 else |s0|
    ensures f.Underway(a, s0, offset, n, [], exact)
  {
    hide Grown, Written, Inv;
  }

  lemma WriteDone(a: Image, s0: seq<nat>, size0: nat, b: Image, s: seq<nat>, size: nat, bpc: nat, offset: nat,
                  buf: seq<byte>, written: nat)
    requires written <= |buf| && NoSurplus(bpc, offset + |buf|, |s0|, |s|)
    requires size == if Wrap(offset + written) > size0 then Wrap(offset + written) else size0
    requires Room(a, |s0|, bpc, offset + |buf|) ==>
      offset + |buf| < TWO_64 && written == |buf| && Written(a, s0, b, s, bpc, offset, buf)
    ensures WriteResult(a, s0, size0, b, s, size, bpc, offset, buf, Done(written))
  {
    hide Written, Room, NoSurplus;
  }

  /** With room for it, a write's end is no wrapped sum and its cluster no truncated index. */
  lemma RoomExact(f: FatNode, offset: nat, n: nat)
    requires f.Linked() && n > 0
    ensures 0 < f.fat.vol.geo.Bpc()
    ensures Room(Now(f.fat), |f.Chain()|, f.fat.vol.geo.Bpc(), offset + n) ==>
      offset + n < TWO_64 && offset / f.fat.vol.geo.Bpc() < TWO_32
  {
    hide Base, Inv, Volume.Entries, Volume.Clusters, FreeSet, HintReaches;
    var (vol, s) := (f.fat.vol, f.Chain());
    var (e, bpc) := (vol.Entries(), vol.geo.Bpc());
    ChainAndFree(e, f.fat.chains, f.fat.lost, f.firstCluster);
    SizeFits(vol.geo, |vol.disk|, |s| + |FreeSet(e)|);
    DivBase(bpc, offset, |s| + |FreeSet(e)|);
    TotalFits(vol);
  }

  /** A chain and the free clusters are different clusters of the volume. */
  lemma ChainAndFree(e: seq<nat>, ch: Chains, lost: set<nat>, f: nat)
    requires Inv(e, ch, lost)
    ensures |if f in ch then ch[f] else []| + |FreeSet(e)| <= |e| - 2
  {
    FreeBound(e);
    if f in ch {
      ChainFacts(e, ch, lost, f);
      var (s, free) := (Elements(ch[f]), FreeSet(e));
      ElementsSize(ch[f]);
      assert s * free == {};
      RangeSize(2, |e|);
      SubsetSize(s + free, Range(2, |e|));
    }
  }

  lemma LinkedApart(f: FatNode)
    requires f.Linked()
    ensures Apart(f.fat.chains)
  {
  }

  /** The end of a write: no other file is touched, and it stops short only when it runs out of clusters. */
  lemma WriteEnds(f: FatNode, a: Image, s0: seq<nat>, offset: nat, buf: seq<byte>, written: nat, exact: bool, cur: nat, idx: nat)
    requires written <= |buf| && f.Underway(a, s0, offset, |buf|, buf[..written], exact)
    requires Base(f.fat.vol.geo.Bpc(), idx) <= offset
    requires cur == 0 ==> Full(Now(f.fat)) && |f.Chain()| <= idx
    requires cur != 0 && written < |buf| ==> Full(Now(f.fat)) && Base(f.fat.vol.geo.Bpc(), |f.Chain()|) < offset + |buf|
    requires |buf| > 0
    ensures f.Linked() && Untouched(a, Now(f.fat), f.firstCluster)
    ensures NoSurplus(f.fat.vol.geo.Bpc(), offset + |buf|, |s0|, |f.Chain()|)
    ensures Room(a, |s0|, f.fat.vol.geo.Bpc(), offset + |buf|) ==> written == |buf| && cur != 0
    ensures exact && written == |buf| ==> Written(a, s0, Now(f.fat), f.Chain(), f.fat.vol.geo.Bpc(), offset, buf)
  {
    hide Grown, Written, Base, Volume.Valid, Volume.Entries, Volume.Clusters, HintReaches, Untouched, Full, Inv, FreeSet, NoSurplus;
    LinkedApart(f);
    var (b, s, bpc) := (Now(f.fat), f.Chain(), f.fat.vol.geo.Bpc());
    GrownUntouched(a, s0, b, s, f.firstCluster);
    if Room(a, |s0|, bpc, offset + |buf|) && (cur == 0 || written < |buf|) {
      RoomUsed(a, s0, b, s, f.firstCluster);
      if cur == 0 {
        BaseMono(bpc, |s|, idx);
      }
    }
    if written == |buf| {
      assert buf[..written] == buf;
    }
  }

  /** The clusters a file of `n` bytes takes. */
  function Needed(bpc: nat, n: nat): nat
    requires bpc > 0
  {
    (n + bpc - 1) / bpc
  }

  /** What `fat_node_truncate` to `newSize` makes of a file: nothing; its first clusters, as they are; or,
      with room for it, all of them as they are and zeros behind them. */
  predicate TruncateResult(a: Image, s0: seq<nat>, size0: nat, b: Image, s: seq<nat>, size: nat, bpc: nat, newSize: nat,
                           r: Outcome) {
    bpc > 0 &&
    if newSize == 0 then
      r == Done(0) && size == 0 && s == [] && b.cl == a.cl && |FreeSet(b.e)| == |FreeSet(a.e)| + |s0|
    else if newSize < size0 then
      && r == Done(0) && size == newSize && Needed(bpc, newSize) <= |s0| && s == s0[..Needed(bpc, newSize)]
      && b.cl == a.cl && |FreeSet(b.e)| + |s| == |FreeSet(a.e)| + |s0|
    else
      && NoSurplus(bpc, newSize, |s0|, |s|)
      && (Room(a, |s0|, bpc, newSize) ==>
            r == Done(0) && size == newSize <= Base(bpc, |s|) && Written(a, s0, b, s, bpc, newSize, []))
  }

  lemma ChainOrNone(f: FatNode)
    requires f.Linked()
    ensures f.Chain() == [] ==> f.firstCluster !in f.fat.chains
  {
    hide Inv, Volume.Entries, Volume.Clusters;
    if f.firstCluster in f.fat.chains {
      ChainFacts(f.fat.vol.Entries(), f.fat.chains, f.fat.lost, f.firstCluster);
    }
  }

  lemma NeededSome(bpc: nat, n: nat)
    requires bpc > 0 && n > 0
    ensures Needed(bpc, n) >= 1
  {
  }

  /** A file cleared or cut short. */
  lemma TruncateDone(a: Image, s0: seq<nat>, size0: nat, b: Image, s: seq<nat>, f: nat, bpc: nat, newSize: nat)
    requires bpc > 0 && b.cl == a.cl && |FreeSet(b.e)| + |s| == |FreeSet(a.e)| + |s0|
    requires if newSize == 0 then s == [] && b.ch == a.ch - {f}
      else newSize < size0 && b.ch == a.ch[f := s] && Needed(bpc, newSize) <= |s0| && s == s0[..Needed(bpc, newSize)]
    ensures Untouched(a, b, f) && TruncateResult(a, s0, size0, b, s, newSize, bpc, newSize, Done(0))
    ensures f !in a.ch && newSize == 0 ==> forall g :: Untouched(a, b, g)
  {
    hide FreeSet, Needed;
  }

  lemma LengthenDone(f: FatNode, a: Image, s0: seq<nat>, size0: nat, newSize: nat, needed: nat, ok: bool)
    requires f.Linked() && f.fat.vol.geo.Bpc() > 0 && newSize >= size0 && newSize > 0
    requires !ok ==> Now(f.fat) == a && Full(a) && f.Chain() == s0 == []
    requires ok ==> f.Underway(a, s0, newSize, 0, [], true) && (|f.Chain()| < needed ==> Full(Now(f.fat)))
    requires Room(a, |s0|, f.fat.vol.geo.Bpc(), newSize) ==> newSize <= Base(f.fat.vol.geo.Bpc(), needed)
    ensures Untouched(a, Now(f.fat), f.firstCluster)
    ensures ok ==> TruncateResult(a, s0, size0, Now(f.fat), f.Chain(), newSize, f.fat.vol.geo.Bpc(), newSize, Done(0))
    ensures !ok ==> TruncateResult(a, s0, size0, a, [], size0, f.fat.vol.geo.Bpc(), newSize, Failed(NoSpace))
  {
    hide Grown, Written, Base, Volume.Valid, Volume.Entries, Volume.Clusters, HintReaches, Untouched, Inv, FreeSet, NoSurplus, Room;
    var (b, s, bpc) := (Now(f.fat), f.Chain(), f.fat.vol.geo.Bpc());
    if !ok {
      UntouchedSelf(a);
      RoomIs(a, 0, bpc, newSize);
      Surplus(bpc, newSize);
    } else {
      LinkedApart(f);
      GrownUntouched(a, s0, b, s, f.firstCluster);
      if Room(a, |s0|, bpc, newSize) {
        RoomIs(a, |s0|, bpc, newSize);
        if |s| < needed {
          RoomUsed(a, s0, b, s, f.firstCluster);
        } else {
          BaseMono(bpc, needed, |s|);
        }
      }
    }
  }

  lemma RoomIs(a: Image, n: nat, bpc: nat, size: nat)
    ensures Room(a, n, bpc, size) <==> a.reaches && size <= Base(bpc, n + |FreeSet(a.e)|)
  {
  }

  lemma Surplus(bpc: nat, size: nat)
    ensures NoSurplus(bpc, size, 0, 0) && Base(bpc, 0) == 0
  {
  }

  lemma CeilIs(bpc: nat, n: nat, m: nat)
    requires bpc > 0
    ensures n <= Base(bpc, Needed(bpc, n)) && (n > 0 ==> Needed(bpc, n) > 0 && Base(bpc, Needed(bpc, n) - 1) < n)
    ensures n <= Base(bpc, m) ==> Needed(bpc, n) <= m
  {
    var x := n + bpc - 1;
    var q := x / bpc;
    assert x == bpc * q + x % bpc;
    assert bpc * q == q * bpc;
    if q > 0 {
      ClusterFits(bpc, q - 1, q);
    } else {
      assert x == x % bpc;
    }
    if q > m {
      BaseMono(bpc, m, q - 1);
    }
  }

  /** The number of clusters the code computes: it is right unless 64 or 32 bits do not hold it. */
  lemma CeilFacts(f: FatNode, newSize: nat)
    requires f.Valid() && newSize < TWO_64 && f.fat.vol.geo.Bpc() > 0
    ensures var (bpc, s) := (f.fat.vol.geo.Bpc(), f.Chain());
      var needed := Wrap(newSize + bpc - 1) / bpc % TWO_32;
      && (needed > 0 ==> Base(bpc, needed - 1) < newSize)
      && (newSize <= f.size ==> needed == Needed(bpc, newSize) <= |s|)
      && (Room(Now(f.fat), |s|, bpc, newSize) ==> needed == Needed(bpc, newSize) && newSize <= Base(bpc, needed))
  {
    hide Base, Inv, Volume.Entries, Volume.Clusters, FreeSet, HintReaches, Content, Needed;
    var (vol, s) := (f.fat.vol, f.Chain());
    var (e, bpc) := (vol.Entries(), vol.geo.Bpc());
    ChainAndFree(e, f.fat.chains, f.fat.lost, f.firstCluster);
    BytesAre(f);
    TotalFits(vol);
    var m := |s| + |FreeSet(e)|;
    BaseMono(bpc, |s|, m);
    SizeFits(vol.geo, |vol.disk|, m);
    CeilIs(bpc, newSize, m);
    CeilIs(bpc, newSize, |s|);
    CeilWrapped(bpc, newSize, m);
  }

  lemma CeilWrapped(bpc: nat, n: nat, m: nat)
    requires 0 < bpc < 0x2_0000 && n < TWO_64 && m < TWO_32
    ensures var needed := Wrap(n + bpc - 1) / bpc % TWO_32;
      && (needed > 0 ==> Base(bpc, needed - 1) < n)
      && (n <= Base(bpc, m) ==> needed == Needed(bpc, n))
  {
    hide Base, Wrap, Needed;
    CeilIs(bpc, n, m);
    if n + bpc - 1 >= TWO_64 {
      WrapOnce(n + bpc - 1);
      SmallQuotient(n + bpc - 1 - TWO_64, bpc);
      BigBase(bpc, n, m);
    } else {
      NeededIs(bpc, n);
      LowPart(Needed(bpc, n));
      if Needed(bpc, n) % TWO_32 > 0 {
        BaseMono(bpc, Needed(bpc, n) % TWO_32 - 1, Needed(bpc, n) - 1);
      }
    }
  }

  lemma WrapOnce(x: nat)
    requires TWO_64 <= x < 2 * TWO_64
    ensures Wrap(x) == x - TWO_64
  {
  }

  lemma NeededIs(bpc: nat, n: nat)
    requires 0 < bpc && n + bpc - 1 < TWO_64
    ensures Wrap(n + bpc - 1) / bpc == Needed(bpc, n)
  {
  }

  lemma LowPart(q: nat)
    ensures q % TWO_32 <= q && (q < TWO_32 ==> q % TWO_32 == q)
  {
  }

  lemma SmallQuotient(x: nat, y: nat)
    requires x < y
    ensures x / y == 0
  {
  }

  lemma BigBase(bpc: nat, n: nat, m: nat)
    requires 0 < bpc < 0x2_0000 && m < TWO_32 && n + bpc - 1 >= TWO_64
    ensures n > Base(bpc, m)
  {
    MulMono(m, bpc, TWO_32, 0x2_0000);
  }

  lemma BytesAre(f: FatNode)
    requires f.Linked()
    ensures |f.Bytes()| == Base(f.fat.vol.geo.Bpc(), |f.Chain()|)
  {
    hide Inv, Volume.Entries, Volume.Clusters;
    if f.firstCluster in f.fat.chains {
      ChainWhole(f.fat.vol, f.fat.chains, f.fat.lost, f.firstCluster);
      ContentSize(f.fat.vol.Clusters(), f.fat.vol.geo.Bpc(), f.Chain());
    }
  }

  lemma UntouchedSelf(a: Image)
    ensures forall f :: Untouched(a, a, f)
  {
  }

  lemma BpcFits(vol: Volume)
    requires vol.Valid()
    ensures 0 < vol.geo.Bpc()
  {
  }

  lemma FirstIs(e: seq<nat>, g: nat, s: seq<nat>)
    requires Follows(e, g, s)
    ensures |s| > 0 && s[0] == g
  {
  }

  lemma UnderwayIs(f: FatNode, a: Image, s0: seq<nat>, offset: nat, n: nat, d: seq<byte>, exact: bool)
    requires f.Underway(a, s0, offset, n, d, exact)
    ensures f.Linked() && !f.fat.vol.readonly && Grown(a, s0, Now(f.fat), f.Chain(), f.firstCluster)
    ensures exact ==> Written(a, s0, Now(f.fat), f.Chain(), f.fat.vol.geo.Bpc(), offset, d)
    ensures NoSurplus(f.fat.vol.geo.Bpc(), offset + n, |s0|, |f.Chain()|)
  {
  }

  lemma UnderwayKept(f: FatNode, a: Image, s0: seq<nat>, offset: nat, n: nat, d: seq<byte>, exact: bool, b: Image, s: seq<nat>)
    requires f.Linked() && !f.fat.vol.readonly && Now(f.fat) == b && f.Chain() == s
    requires Grown(a, s0, b, s, f.firstCluster) && NoSurplus(f.fat.vol.geo.Bpc(), offset + n, |s0|, |s|)
    requires exact ==> Written(a, s0, b, s, f.fat.vol.geo.Bpc(), offset, d)
    ensures f.Underway(a, s0, offset, n, d, exact)
  {
  }

  lemma SplitIs(e: seq<nat>, ch: Chains, lost: set<nat>, g: nat, needed: nat)
    requires Inv(e, ch, lost) && g in ch && 1 <= needed <= |ch[g]|
    ensures var (s, ch') := (ch[g], Split(ch, g, needed - 1));
      if needed == |s| then ch' == ch[g := s[..needed]]
      else s[needed] in ch' && ch'[s[needed]] == s[needed..] && ch' - {s[needed]} == ch[g := s[..needed]]
  {
    ChainFacts(e, ch, lost, g);
    assert ch[g][..|ch[g]|] == ch[g];
  }

  /** Freeing the clusters of a chain adds them to the free ones. */
  lemma {:induction false} FreedCount(e: seq<nat>, s: seq<nat>)
    requires NoDups(s) && forall i :: 0 <= i < |s| ==> 2 <= s[i] < |e| && e[s[i]] != FREE
    ensures |FreeSet(Freed(e, s))| == |FreeSet(e)| + |s|
    decreases |s|
  {
    if s == [] {
      assert Freed(e, s) == e;
    } else {
      var (t, c) := (s[..|s| - 1], Last(s));
      FreedCount(e, t);
      FreedStep(e, s, |s| - 1);
      assert s[..|s| - 1 + 1] == s;
      assert Freed(e, t)[c] != FREE;
      FreeCountFreed(Freed(e, t), c);
    }
  }

  lemma GrownLinked(a: Image, s0: seq<nat>, b: Image, s: seq<nat>, f: nat)
    requires Grown(a, s0, b, s, f)
    ensures f in b.ch && b.ch[f] == s && |s| > 0
  {
  }

  lemma HintAfter(c: nat, total: nat)
    requires 2 <= c < total + 2 <= BAD
    ensures HintReaches(c + 1, total)
  {
  }

  lemma FreeNotIn(e: seq<nat>, lost: set<nat>, ch: Chains, g: nat, c: nat)
    requires Inv(e, ch, lost) && g in ch && c in FreeSet(e)
    ensures c !in ch[g] && 2 <= c < |e| && e[c] == FREE
  {
    UseChain(e, ch, g);
  }

  /** Part way through a read: `out` is delivered and `m` bytes are still wanted. */
  predicate Reads(content: seq<byte>, offset: nat, out: seq<byte>, bpc: nat, k: nat, byteIn: nat, m: nat) {
    && offset + |out| <= |content| && out == content[offset..offset + |out|]
    && (m > 0 ==> byteIn < bpc && offset + |out| == Base(bpc, k) + byteIn)
  }

  lemma ReadStart(content: seq<byte>, bpc: nat, offset: nat, k: nat, byteIn: nat, m: nat)
    requires offset <= |content| && byteIn < bpc && offset == Base(bpc, k) + byteIn
    ensures Reads(content, offset, [], bpc, k, byteIn, m)
  {
  }

  lemma ReadEnd(content: seq<byte>, bpc: nat, offset: nat, out: seq<byte>, k: nat, byteIn: nat, m: nat)
    requires Reads(content, offset, out, bpc, k, byteIn, m)
    ensures offset + |out| <= |content| && out == content[offset..offset + |out|]
    ensures m > 0 && |content| <= Base(bpc, k) ==> offset + |out| == |content|
  {
  }

  /** What following the entry of the `k`-th cluster gives. */
  lemma Hop(e: seq<nat>, f: nat, s: seq<nat>, k: nat)
    requires Follows(e, f, s) && k < |s| && |e| <= BAD
    ensures 2 <= s[k] < |e| && s[k] < EOC
    ensures if k < |s| - 1 then e[s[k]] == s[k + 1] && 2 <= s[k + 1] < EOC else e[s[k]] >= EOC
  {
  }

  lemma ReadStep(cl: Clusters, bpc: nat, s: seq<nat>, content: seq<byte>, offset: nat, out: seq<byte>,
                 k: nat, byteIn: nat, m: nat, toCopy: nat)
    requires Whole(cl, bpc, s) && content == Content(cl, bpc, s) && k < |s| && m > 0
    requires Reads(content, offset, out, bpc, k, byteIn, m) && toCopy == if bpc - byteIn > m then m else bpc - byteIn
    ensures byteIn + toCopy <= |cl[s[k]]|
    ensures var out' := out + cl[s[k]][byteIn..byteIn + toCopy];
      Reads(content, offset, out', bpc, if m > toCopy then k + 1 else k, 0, m - toCopy)
  {
    hide Base, Content;
    ContentPiece(cl, bpc, s, k, byteIn, toCopy);
    ClusterFits(bpc, k, |s|);
  }

  lemma SliceNone(content: seq<byte>, size: nat, offset: nat, n: nat)
    requires size <= |content| && offset >= size
    ensures Slice(content, size, offset, n) == []
  {
  }

  /** What was read is the slice asked for, when either it is complete or the chain is at its end. */
  lemma SliceIs(content: seq<byte>, size: nat, offset: nat, n: nat, out: seq<byte>)
    requires size <= |content| < TWO_64 && offset < TWO_64 && n < TWO_64
    requires offset < size ==> offset + |out| <= |content| && out == content[offset..offset + |out|]
    requires offset >= size ==> out == []
    requires offset < size ==>
      |out| == (if Wrap(offset + n) > size then size - offset else n) || offset + |out| == |content|
    requires offset < size ==> |out| <= (if Wrap(offset + n) > size then size - offset else n)
    ensures out == Slice(content, size, offset, n)
  {
  }

  lemma FileFacts(f: FatNode)
    requires f.Valid() && f.size > 0
    ensures var (e, s, vol) := (f.fat.vol.Entries(), f.Chain(), f.fat.vol);
      && vol.Valid() && 0 < |s| < TWO_32 && s[0] == f.firstCluster && 0 < vol.geo.Bpc()
      && Follows(e, f.firstCluster, s) && NoDups(s) && |e| <= BAD
      && Whole(vol.Clusters(), vol.geo.Bpc(), s)
      && f.Bytes() == Content(vol.Clusters(), vol.geo.Bpc(), s) && |f.Bytes()| == Base(vol.geo.Bpc(), |s|) < TWO_64
  {
    hide Base, Inv, Volume.Entries, Volume.Clusters, Content;
    var (fat, g) := (f.fat, f.firstCluster);
    assert g in fat.chains;
    UseInv(fat.vol.Entries(), fat.chains, fat.lost, g);
    ChainFacts(fat.vol.Entries(), fat.chains, fat.lost, g);
    ChainWhole(fat.vol, fat.chains, fat.lost, g);
    SizeFits(fat.vol.geo, |fat.vol.disk|, |fat.chains[g]|);
    ContentSize(fat.vol.Clusters(), fat.vol.geo.Bpc(), fat.chains[g]);
  }

  lemma UseInv(e: seq<nat>, ch: Chains, lost: set<nat>, g: nat)
    requires Inv(e, ch, lost) && g in ch
    ensures Follows(e, g, ch[g]) && NoDups(ch[g]) && |e| <= BAD
  {
  }

  /** A piece of a cluster is a piece of the file. */
  lemma ContentPiece(cl: Clusters, bpc: nat, s: seq<nat>, k: nat, r: nat, n: nat)
    requires Whole(cl, bpc, s) && k < |s| && r + n <= bpc
    ensures Base(bpc, k) + bpc <= |Content(cl, bpc, s)| == Base(bpc, |s|)
    ensures Content(cl, bpc, s)[Base(bpc, k) + r..Base(bpc, k) + r + n] == cl[s[k]][r..r + n]
  {
    hide Base, Content;
    ContentAt(cl, bpc, s, k);
    var (b, y) := (Base(bpc, k), Content(cl, bpc, s));
    assert y[b + r..b + r + n] == y[b..b + bpc][r..r + n];
  }
}
