/** The allocation table on a block device, with its write-back cache. */
module FatVolume {
  import opened Common
  import opened FatEntries

  const SECTOR := 512

  datatype Code = Ok | ReadOnly | IoError

  /** `data` written over the bytes of `disk` from `pos`. */
  function Patch(disk: seq<byte>, pos: nat, data: seq<byte>): (r: seq<byte>)
    requires pos + |data| <= |disk|
    ensures |r| == |disk|
    ensures forall i :: 0 <= i < |disk| ==> r[i] == if pos <= i < pos + |data| then data[i - pos] else disk[i]
  {
    disk[..pos] + data + disk[pos + |data|..]
  }

  /** The entry of cluster `c` as `fat_get_entry` reports it; clusters 0 and 1 do not exist. */
  function Entry(k: Kind, fat: seq<byte>, c: nat): nat
    requires InTable(k, fat, c)
  {
    if c < 2 then EOC else Get(k, fat, c)
  }

  /** The first `n` entries of a table. */
  function EntriesOf(k: Kind, fat: seq<byte>, n: nat): (e: seq<nat>)
    requires n > 0 && InTable(k, fat, n - 1)
    ensures |e| == n
  {
    seq(n, c requires 0 <= c < n => OffsetGrows(k, c, n - 1); Entry(k, fat, c))
  }

  /** Where the `i`-th cluster of the data area begins. */
  function Base(bpc: nat, i: nat): nat {
    i * bpc
  }

  /** The data area cut into clusters of `bpc` bytes; clusters 0 and 1 do not exist. */
  function ClustersOf(data: seq<byte>, bpc: nat, n: nat): (s: seq<seq<byte>>)
    requires |data| == Base(bpc, n)
    ensures |s| == n + 2
  {
    seq(n + 2, c requires 0 <= c < n + 2 => if c < 2 then [] else ClusterFits(bpc, c - 2, n); data[Base(bpc, c - 2)..Base(bpc, c - 1)])
  }

  /** The geometry `fat_mount` reads from the boot sector. */
  datatype Geometry = Geometry(
    kind: Kind,
    firstFat: nat,                    // first_fat_sector
    fatSize: nat,                     // sectors of one copy of the table
    numFats: nat,
    dataStart: nat,                   // data_start_sector
    spc: nat,                         // sectors_per_cluster
    total: nat)                       // total_clusters
  {
    function Bpc(): nat {
      spc * SECTOR
    }

    /** The first sector of copy `n` of the table. */
    function FatStart(n: nat): nat {
      if n == 0 then firstFat else firstFat + fatSize
    }

    /** `cluster_to_lba`. */
    function Lba(c: nat): nat
      requires c >= 2
    {
      dataStart + (c - 2) * spc
    }

    /** The table holds every cluster, the areas follow each other, and cluster numbers are no markers. */
    predicate Sound(size: nat) {
      && 0 < spc < 256 && firstFat + fatSize <= dataStart
      && (numFats >= 2 ==> firstFat + 2 * fatSize <= dataStart)
      && Offset(kind, total + 1) + Width(kind) <= fatSize * SECTOR
      && total + 2 <= (match kind case Fat12 => 0xFF7 case Fat16 => 0xFFF7 case Fat32 => BAD)
      && (dataStart + 1) * SECTOR <= size
      && dataStart * SECTOR + Base(Bpc(), total) <= size
    }
  }

  class Volume {
    const geo: Geometry
    const readonly: bool
    var disk: seq<byte>
    var cache: Option<seq<byte>>      // fat_cache
    var dirty: bool                   // fat_cache_dirty

    /** The bytes of copy `n` of the table on the disk. */
    ghost function Copy(n: nat): seq<byte>
      requires (geo.FatStart(n) + geo.fatSize) * SECTOR <= |disk|
      reads this`disk
    {
      disk[geo.FatStart(n) * SECTOR..(geo.FatStart(n) + geo.fatSize) * SECTOR]
    }

    /** The cache is consulted for 16 and 32-bit entries only. */
    predicate UsesCache()
      reads this`cache
    {
      cache.Some? && geo.kind != Fat12
    }

    ghost predicate Valid()
      reads this
    {
      && geo.Sound(|disk|)
      && (cache.Some? ==> |cache.value| == geo.fatSize * SECTOR)
      && (if UsesCache() then !dirty ==> cache.value == Copy(0) else !dirty)
    }

    /** The table in force: the cache, or the first copy on the disk. */
    ghost function Table(): (t: seq<byte>)
      requires Valid()
      reads this
      ensures |t| == geo.fatSize * SECTOR
    {
      if UsesCache() then cache.value else Copy(0)
    }

    /** The entries of every cluster: all that the chain operations see of the table. */
    ghost function Entries(): (e: seq<nat>)
      requires Valid()
      reads this
      ensures |e| == geo.total + 2
    {
      EntriesOf(geo.kind, Table(), geo.total + 2)
    }

    /** The bytes of the data area. */
    ghost function Data(): (d: seq<byte>)
      requires Valid()
      reads this
      ensures |d| == Base(geo.Bpc(), geo.total)
    {
      disk[geo.dataStart * SECTOR..geo.dataStart * SECTOR + Base(geo.Bpc(), geo.total)]
    }

    /** The contents of every cluster: all that the file operations see of the data area. */
    ghost function Clusters(): (s: seq<seq<byte>>)
      requires Valid()
      reads this
      ensures |s| == geo.total + 2
    {
      ClustersOf(Data(), geo.Bpc(), geo.total)
    }

    constructor (geo: Geometry, readonly: bool, disk: seq<byte>, cached: bool)
      requires geo.Sound(|disk|)
      ensures Valid() && this.geo == geo && this.readonly == readonly && this.disk == disk
      ensures Table() == disk[geo.firstFat * SECTOR..(geo.firstFat + geo.fatSize) * SECTOR]
    {
      this.geo, this.readonly, this.disk, dirty := geo, readonly, disk, false;
      cache := if cached then Some(disk[geo.firstFat * SECTOR..(geo.firstFat + geo.fatSize) * SECTOR]) else None;
    }

    /** `blkdev_read`; `ok` says whether the device delivers. */
    method ReadSectors(lba: nat, n: nat, ok: bool) returns (r: Option<seq<byte>>)
      requires (lba + n) * SECTOR <= |disk|
      ensures r.Some? <==> ok
      ensures ok ==> r.value == disk[lba * SECTOR..(lba + n) * SECTOR]
    {
      r := if ok then Some(disk[lba * SECTOR..(lba + n) * SECTOR]) else None;
    }

    /** `blkdev_write`; a failing write changes nothing. */
    method WriteSectors(lba: nat, data: seq<byte>, ok: bool)
      requires lba * SECTOR + |data| <= |disk|
      modifies this`disk
      ensures disk == if ok then Patch(old(disk), lba * SECTOR, data) else old(disk)
    {
      if ok {
        disk := Patch(disk, lba * SECTOR, data);
      }
    }

    /** `fat_get_entry`. */
    method GetEntry(c: nat, ok: bool) returns (v: nat)
      requires Valid()
      ensures c < 2 || c >= geo.total + 2 ==> v == EOC
      ensures 2 <= c < geo.total + 2 ==> InTable(geo.kind, Table(), c)
      ensures 2 <= c < geo.total + 2 ==> v == if UsesCache() || ok then Get(geo.kind, Table(), c) else EOC
    {
      hide Get, Decode, Patch, Geometry.Sound;
      SoundTable(geo, |disk|);
      if c < 2 || c >= geo.total + 2 {
        return EOC;
      }
      OffsetGrows(geo.kind, c, geo.total + 1);
      if UsesCache() {
        return Get(geo.kind, cache.value, c);
      }
      var offset := Offset(geo.kind, c);
      var sector, offIn := geo.firstFat + offset / SECTOR, offset % SECTOR;
      var sectors := if geo.kind == Fat12 then 2 else 1;
      SectorOf(geo.kind, c, geo.fatSize, offset);
      SectorsFit(geo.firstFat, geo.fatSize, offset, sectors, |disk|);
      var tmp := ReadSectors(sector, sectors, ok);
      if tmp.None? {
        return EOC;
      }
      ghost var window := disk[sector * SECTOR..(sector + sectors) * SECTOR];
      WindowRaw(disk, geo.firstFat, geo.fatSize, geo.kind, offset, sectors);
      GetIsDecode(geo.kind, Table(), c);
      v := Decode(geo.kind, c, RawAt(geo.kind, tmp.value, offIn));
    }

    /** `fat_set_entry`. */
    method SetEntry(c: nat, value: nat, readOk: bool, writeOk: bool) returns (code: Code)
      requires Valid() && InTable(geo.kind, Table(), c) && value < TWO_32
      modifies this`disk, this`cache, this`dirty
      ensures Valid()
      ensures code == if readonly then ReadOnly else if UsesCache() || (readOk && writeOk) then Ok else IoError
      ensures UsesCache() == old(UsesCache())
      ensures code == Ok ==> Table() == Set(geo.kind, old(Table()), c, value)
      ensures code != Ok ==> disk == old(disk) && Table() == old(Table())
      ensures UsesCache() ==> disk == old(disk)
      ensures |disk| == |old(disk)|
      ensures forall i :: 0 <= i < |disk| && !(geo.firstFat * SECTOR <= i < (geo.firstFat + geo.fatSize) * SECTOR) ==>
        disk[i] == old(disk)[i]
    {
      hide Get, Set, Encode, Patch;
      if readonly {
        return ReadOnly;
      }
      if UsesCache() {
        cache := Some(Set(geo.kind, cache.value, c, value));
        dirty := true;
        return Ok;
      }
      code := SetOnDisk(c, value, readOk, writeOk);
    }

    /** The branches of `fat_set_entry` that read, change and write back the sectors of an entry. */
    method SetOnDisk(c: nat, value: nat, readOk: bool, writeOk: bool) returns (code: Code)
      requires Valid() && InTable(geo.kind, Table(), c) && value < TWO_32 && !UsesCache()
      modifies this`disk
      ensures Valid() && code == if readOk && writeOk then Ok else IoError
      ensures code == Ok ==> Table() == Set(geo.kind, old(Table()), c, value)
      ensures code != Ok ==> disk == old(disk)
      ensures |disk| == |old(disk)|
      ensures forall i :: 0 <= i < |disk| && !(geo.firstFat * SECTOR <= i < (geo.firstFat + geo.fatSize) * SECTOR) ==>
        disk[i] == old(disk)[i]
    {
      hide Get, Set, Encode, Patch, PutRaw, RawAt, Offset, Geometry.Sound;
      SoundTable(geo, |disk|);
      var offset := Offset(geo.kind, c);
      var sector, offIn := geo.firstFat + offset / SECTOR, offset % SECTOR;
      var sectors := if geo.kind == Fat12 then 2 else 1;
      SectorOf(geo.kind, c, geo.fatSize, offset);
      SectorsFit(geo.firstFat, geo.fatSize, offset, sectors, |disk|);
      var tmp := ReadSectors(sector, sectors, readOk);
      if tmp.None? {
        return IoError;
      }
      WindowRaw(disk, geo.firstFat, geo.fatSize, geo.kind, offset, sectors);
      var raw := Encode(geo.kind, c, RawAt(geo.kind, tmp.value, offIn), value);
      var data := PutRaw(geo.kind, tmp.value, offIn, raw);
      WindowPut(disk, geo.firstFat, geo.fatSize, geo.kind, offset, sectors, raw);
      SetIsPut(geo.kind, Table(), c, value);
      WriteSectors(sector, data, writeOk);
      code := if writeOk then Ok else IoError;
    }

    /** `fat_flush_fat`: both copies of the table receive the cache. */
    method Flush(ok1: bool, ok2: bool) returns (code: Code)
      requires Valid()
      modifies this`disk, this`dirty
      ensures Valid() && Table() == old(Table()) && Data() == old(Data())
      ensures dirty == (old(dirty) && !ok1)
      ensures code == if !old(dirty) || (ok1 && (geo.numFats < 2 || ok2)) then Ok else IoError
      ensures !old(dirty) || !ok1 ==> disk == old(disk)
      ensures old(dirty) && ok1 ==> Copy(0) == Table()
      ensures old(dirty) && ok1 && ok2 && geo.numFats >= 2 ==> Copy(1) == Table()
    {
      hide Patch, Geometry.Sound, Geometry.Bpc, Base, Offset, Width;
      SoundTable(geo, |disk|);
      if !dirty {
        return Ok;
      }
      WriteCopy(0, ok1);
      if !ok1 {
        return IoError;
      }
      code := Ok;
      if geo.numFats >= 2 {
        WriteCopy(1, ok2);
        code := if ok2 then Ok else IoError;
      }
      dirty := false;
    }

    /** One of the writes of `fat_flush_fat`. */
    method WriteCopy(n: nat, ok: bool)
      requires Valid() && dirty && n < 2 && (n == 1 ==> geo.numFats >= 2)
      modifies this`disk
      ensures Valid() && Data() == old(Data()) && (!ok ==> disk == old(disk))
      ensures (geo.FatStart(n) + geo.fatSize) * SECTOR <= |disk|
      ensures ok ==> Copy(n) == cache.value
      ensures n == 1 ==> Copy(0) == old(Copy(0))
    {
      hide Patch, Geometry.Sound, Geometry.Bpc, Base, Offset, Width;
      SoundTable(geo, |disk|);
      CopyWritten(geo, disk, n, cache.value);
      WriteSectors(geo.FatStart(n), cache.value, ok);
    }

    /** `fat_get_entry` on a device that delivers. */
    method Look(c: nat) returns (v: nat)
      requires Valid()
      ensures v == if 2 <= c < |Entries()| then Entries()[c] else EOC
    {
      hide Get, Offset;
      v := GetEntry(c, true);
    }

    /** `fat_set_entry` on a device that delivers: one entry changes, and no byte of any cluster. */
    method Store(c: nat, value: nat)
      requires Valid() && !readonly && 2 <= c < geo.total + 2 && Storable(geo.kind, value)
      modifies this`disk, this`cache, this`dirty
      ensures Valid() && Entries() == old(Entries())[c := value]
      ensures Clusters() == old(Clusters())
    {
      hide Get, Set, Offset, Width;
      OffsetGrows(geo.kind, c, geo.total + 1);
      var code := SetEntry(c, value, true, true);
      EntriesSet(geo.kind, old(Table()), geo.total + 2, c, value);
      DataKept(geo, old(disk), disk);
    }

    /** `fat_read_cluster` on a device that delivers. */
    method ReadCluster(c: nat) returns (buf: seq<byte>)
      requires Valid() && 2 <= c < geo.total + 2
      ensures buf == Clusters()[c] && |buf| == geo.Bpc()
    {
      hide Geometry.Lba, Offset, Base;
      ClusterFits(geo.Bpc(), c - 2, geo.total);
      LbaOf(geo, c);
      var r := ReadSectors(geo.Lba(c), geo.spc, true);
      buf := r.value;
      assert buf == Data()[Base(geo.Bpc(), c - 2)..Base(geo.Bpc(), c - 1)];
    }

    /** `fat_write_cluster` on a device that delivers: one cluster changes, and no entry of the table. */
    method WriteCluster(c: nat, buf: seq<byte>)
      requires Valid() && !readonly && 2 <= c < geo.total + 2 && |buf| == geo.Bpc()
      modifies this`disk
      ensures Valid() && Entries() == old(Entries())
      ensures Clusters() == old(Clusters())[c := buf]
    {
      hide Patch, EntriesOf, ClustersOf, Geometry.Lba, Offset, Base;
      ClusterFits(geo.Bpc(), c - 2, geo.total);
      LbaOf(geo, c);
      WriteSectors(geo.Lba(c), buf, true);
      ClusterPut(geo, old(disk), c, buf);
      TableKept(geo, old(disk), disk);
    }
  }

  /** Writing copy `n` of the table leaves the copy before it and the data area alone. */
  lemma CopyWritten(geo: Geometry, disk: seq<byte>, n: nat, table: seq<byte>)
    requires geo.Sound(|disk|) && n < 2 && (n == 1 ==> geo.numFats >= 2) && |table| == geo.fatSize * SECTOR
    ensures var (at, lo, size) := (geo.FatStart(n) * SECTOR, geo.dataStart * SECTOR, Base(geo.Bpc(), geo.total));
      && at + |table| <= lo && lo + size <= |disk|
      && var disk' := Patch(disk, at, table);
         && disk'[at..at + |table|] == table
         && disk'[lo..lo + size] == disk[lo..lo + size]
         && (n == 1 ==> disk'[at - |table|..at] == disk[at - |table|..at])
  {
    hide Patch, Base;
    var (at, lo, size) := (geo.FatStart(n) * SECTOR, geo.dataStart * SECTOR, Base(geo.Bpc(), geo.total));
    PatchSlice(disk, at, table, at, at + |table|);
    PatchSlice(disk, at, table, lo, lo + size);
    if n == 1 {
      PatchSlice(disk, at, table, at - |table|, at);
    }
  }

  lemma ClusterFits(bpc: nat, i: nat, n: nat)
    requires i < n
    ensures Base(bpc, i + 1) == Base(bpc, i) + bpc <= Base(bpc, n)
  {
    MulAdd(i + 1, n - i - 1, bpc);
    MulAdd(i, 1, bpc);
  }

  lemma OffsetGrows(k: Kind, c: nat, d: nat)
    requires c <= d
    ensures Offset(k, c) <= Offset(k, d)
  {
  }

  lemma DivMod512(q: nat, r: nat)
    requires r < SECTOR
    ensures (SECTOR * q + r) / SECTOR == q && (SECTOR * q + r) % SECTOR == r
  {
  }

  /** 16 and 32-bit entries never straddle a sector. */
  lemma SectorOf(k: Kind, c: nat, fatSize: nat, offset: nat)
    requires offset == Offset(k, c) && offset + Width(k) <= fatSize * SECTOR
    ensures offset / SECTOR < fatSize
    ensures offset % SECTOR + Width(k) <= (if k == Fat12 then 2 else 1) * SECTOR
  {
    var w := if k == Fat32 then 4 else 2;
    if k != Fat12 {
      var n := SECTOR / w;
      DivMod512(c / n, w * (c % n));
    }
    assert offset == SECTOR * (offset / SECTOR) + offset % SECTOR;
  }

  lemma SectorsFit(firstFat: nat, fatSize: nat, offset: nat, sectors: nat, size: nat)
    requires (firstFat + fatSize + 1) * SECTOR <= size && offset / SECTOR < fatSize && 1 <= sectors <= 2
    ensures (firstFat + offset / SECTOR + sectors) * SECTOR <= size
    ensures (firstFat + offset / SECTOR) * SECTOR + offset % SECTOR == firstFat * SECTOR + offset
  {
  }

  /** The bytes of an entry in the sectors read are its bytes in the table. */
  lemma WindowRaw(disk: seq<byte>, firstFat: nat, fatSize: nat, k: Kind, offset: nat, sectors: nat)
    requires (firstFat + fatSize + 1) * SECTOR <= |disk| && 1 <= sectors <= 2
    requires offset / SECTOR < fatSize && offset + Width(k) <= fatSize * SECTOR
    requires offset % SECTOR + Width(k) <= sectors * SECTOR
    ensures var (s, table) := (firstFat + offset / SECTOR, disk[firstFat * SECTOR..(firstFat + fatSize) * SECTOR]);
      && (s + sectors) * SECTOR <= |disk|
      && RawAt(k, disk[s * SECTOR..(s + sectors) * SECTOR], offset % SECTOR) == RawAt(k, table, offset)
  {
    SectorsFit(firstFat, fatSize, offset, sectors, |disk|);
    var s := firstFat + offset / SECTOR;
    SameRaw(disk, k, firstFat * SECTOR, fatSize * SECTOR, offset, s * SECTOR, sectors * SECTOR, offset % SECTOR);
  }

  /** Two windows of the disk show the same bytes at the same place. */
  lemma SameRaw(disk: seq<byte>, k: Kind, base: nat, size: nat, offset: nat, pos: nat, n: nat, i: nat)
    requires base + size <= |disk| && pos + n <= |disk| && pos + i == base + offset
    requires offset + Width(k) <= size && i + Width(k) <= n
    ensures RawAt(k, disk[pos..pos + n], i) == RawAt(k, disk[base..base + size], offset)
  {
    assert disk[pos..pos + n][i] == disk[base..base + size][offset];
    assert disk[pos..pos + n][i + 1] == disk[base..base + size][offset + 1];
    if k == Fat32 {
      assert disk[pos..pos + n][i + 2] == disk[base..base + size][offset + 2];
      assert disk[pos..pos + n][i + 3] == disk[base..base + size][offset + 3];
    }
  }

  /** Writing the changed sectors back changes the entry in the table and nothing else on the disk. */
  lemma WindowPut(disk: seq<byte>, firstFat: nat, fatSize: nat, k: Kind, offset: nat, sectors: nat, raw: nat)
    requires (firstFat + fatSize + 1) * SECTOR <= |disk| && 1 <= sectors <= 2
    requires offset / SECTOR < fatSize && offset + Width(k) <= fatSize * SECTOR
    requires offset % SECTOR + Width(k) <= sectors * SECTOR
    requires raw < if k == Fat32 then 0x1_0000_0000 else 0x1_0000
    ensures var (s, table) := (firstFat + offset / SECTOR, disk[firstFat * SECTOR..(firstFat + fatSize) * SECTOR]);
      && (s + sectors) * SECTOR <= |disk|
      && var disk' := Patch(disk, s * SECTOR, PutRaw(k, disk[s * SECTOR..(s + sectors) * SECTOR], offset % SECTOR, raw));
         && disk'[firstFat * SECTOR..(firstFat + fatSize) * SECTOR] == PutRaw(k, table, offset, raw)
         && forall i :: 0 <= i < |disk| && !(firstFat * SECTOR <= i < (firstFat + fatSize) * SECTOR) ==> disk'[i] == disk[i]
  {
    hide PutRaw, Patch, ByteOf;
    SectorsFit(firstFat, fatSize, offset, sectors, |disk|);
    var s := firstFat + offset / SECTOR;
    var (w, table) := (disk[s * SECTOR..(s + sectors) * SECTOR], disk[firstFat * SECTOR..(firstFat + fatSize) * SECTOR]);
    PutRawAt(k, w, offset % SECTOR, raw);
    PutRawAt(k, table, offset, raw);
    PatchedWindow(disk, firstFat * SECTOR, fatSize * SECTOR, s * SECTOR, w, PutRaw(k, w, offset % SECTOR, raw),
                  table, PutRaw(k, table, offset, raw), offset, offset % SECTOR, Width(k), raw);
  }

  lemma PatchedWindow(disk: seq<byte>, base: nat, size: nat, pos: nat, data: seq<byte>, data': seq<byte>,
                      table: seq<byte>, table': seq<byte>, offset: nat, offIn: nat, width: nat, raw: nat)
    requires base + size <= |disk| && pos + |data| <= |disk| && base <= pos && pos + offIn == base + offset
    requires offset + width <= size && offIn + width <= |data| == |data'| && |table'| == |table| == size
    requires data == disk[pos..pos + |data|] && table == disk[base..base + size]
    requires forall j :: 0 <= j < |data| ==> data'[j] == if offIn <= j < offIn + width then ByteOf(raw, j - offIn) else data[j]
    requires forall j :: 0 <= j < size ==> table'[j] == if offset <= j < offset + width then ByteOf(raw, j - offset) else table[j]
    ensures Patch(disk, pos, data')[base..base + size] == table'
    ensures forall i :: 0 <= i < |disk| && !(base <= i < base + size) ==> Patch(disk, pos, data')[i] == disk[i]
  {
    hide ByteOf;
    var disk' := Patch(disk, pos, data');
    forall i | 0 <= i < size ensures disk'[base + i] == table'[i] {
      var j := base + i - pos;
      assert table[i] == disk[base + i];
      if 0 <= j < |data| {
        assert data[j] == disk[base + i];
      }
    }
    forall i | 0 <= i < |disk| && !(base <= i < base + size) ensures disk'[i] == disk[i] {
      var j := i - pos;
      if 0 <= j < |data| {
        assert data[j] == disk[i];
      }
    }
  }

  /** The bytes of a table after a raw store. */
  lemma PutRawAt(k: Kind, b: seq<byte>, i: nat, v: nat)
    requires i + Width(k) <= |b| && v < if k == Fat32 then 0x1_0000_0000 else 0x1_0000
    ensures forall j :: 0 <= j < |b| ==> PutRaw(k, b, i, v)[j] == if i <= j < i + Width(k) then ByteOf(v, j - i) else b[j]
  {
    BytesOf(v);
  }

  lemma BytesOf(v: nat)
    requires v < 0x1_0000_0000
    ensures v % 0x1_0000 % 256 == ByteOf(v, 0) && v % 0x1_0000 / 256 == ByteOf(v, 1)
    ensures v / 0x1_0000 % 256 == ByteOf(v, 2) && v / 0x1_0000 / 256 == ByteOf(v, 3)
    ensures v < 0x1_0000 ==> v / 256 == ByteOf(v, 1)
  {
  }

  /** Byte `n` of a little-endian number. */
  function ByteOf(v: nat, n: nat): nat {
    if n == 0 then v % 256
    else if n == 1 then v / 256 % 256
    else if n == 2 then v / 0x1_0000 % 256
    else v / 0x100_0000 % 256
  }

  lemma SoundTable(geo: Geometry, size: nat)
    requires geo.Sound(size)
    ensures (geo.firstFat + geo.fatSize + 1) * SECTOR <= size
    ensures geo.numFats >= 2 ==> (geo.firstFat + 2 * geo.fatSize) * SECTOR <= size
    ensures Offset(geo.kind, geo.total + 1) + Width(geo.kind) <= geo.fatSize * SECTOR
  {
  }

  lemma LbaOf(geo: Geometry, c: nat)
    requires 2 <= c < geo.total + 2
    ensures geo.Lba(c) * SECTOR == geo.dataStart * SECTOR + Base(geo.Bpc(), c - 2)
    ensures (geo.Lba(c) + geo.spc) * SECTOR == geo.Lba(c) * SECTOR + geo.Bpc()
  {
  }

  lemma EntriesSet(k: Kind, fat: seq<byte>, n: nat, c: nat, value: nat)
    requires 2 <= c < n && InTable(k, fat, n - 1) && InTable(k, fat, c) && Storable(k, value)
    ensures EntriesOf(k, Set(k, fat, c, value), n) == EntriesOf(k, fat, n)[c := value]
  {
    hide Get, Set, Offset, Width;
    forall d: nat | d < n ensures EntriesOf(k, Set(k, fat, c, value), n)[d] == EntriesOf(k, fat, n)[c := value][d] {
      OffsetGrows(k, d, n - 1);
      if d == c {
        GetSet(k, fat, c, value);
        NormStorable(k, value);
      } else {
        GetSetOther(k, fat, c, d, value);
      }
    }
  }

  /** The data area lies behind the table. */
  lemma DataKept(geo: Geometry, disk: seq<byte>, disk': seq<byte>)
    requires geo.Sound(|disk|) && |disk'| == |disk|
    requires forall i :: 0 <= i < |disk| && !(geo.firstFat * SECTOR <= i < (geo.firstFat + geo.fatSize) * SECTOR) ==>
      disk'[i] == disk[i]
    ensures var (lo, hi) := (geo.dataStart * SECTOR, geo.dataStart * SECTOR + Base(geo.Bpc(), geo.total));
      disk'[lo..hi] == disk[lo..hi]
  {
  }

  lemma TableKept(geo: Geometry, disk: seq<byte>, disk': seq<byte>)
    requires geo.Sound(|disk|) && |disk'| == |disk| && disk'[..geo.dataStart * SECTOR] == disk[..geo.dataStart * SECTOR]
    ensures forall lo, hi :: 0 <= lo <= hi <= geo.dataStart * SECTOR ==> disk'[lo..hi] == disk[lo..hi]
  {
    forall lo, hi | 0 <= lo <= hi <= geo.dataStart * SECTOR ensures disk'[lo..hi] == disk[lo..hi] {
      assert disk'[lo..hi] == disk'[..geo.dataStart * SECTOR][lo..hi];
      assert disk[lo..hi] == disk[..geo.dataStart * SECTOR][lo..hi];
    }
  }

  /** Writing a cluster changes that cluster's bytes and none of the table's. */
  lemma ClusterPut(geo: Geometry, disk: seq<byte>, c: nat, buf: seq<byte>)
    requires geo.Sound(|disk|) && 2 <= c < geo.total + 2 && |buf| == geo.Bpc()
    requires geo.Lba(c) * SECTOR + |buf| <= |disk|
    ensures var (lo, size, disk') := (geo.dataStart * SECTOR, Base(geo.Bpc(), geo.total), Patch(disk, geo.Lba(c) * SECTOR, buf));
      && ClustersOf(disk'[lo..lo + size], geo.Bpc(), geo.total)
         == ClustersOf(disk[lo..lo + size], geo.Bpc(), geo.total)[c := buf]
      && disk'[..lo] == disk[..lo]
  {
    hide Patch, ClustersOf, Base;
    LbaOf(geo, c);
    var (lo, size, pos) := (geo.dataStart * SECTOR, Base(geo.Bpc(), geo.total), Base(geo.Bpc(), c - 2));
    ClusterFits(geo.Bpc(), c - 2, geo.total);
    PatchInside(disk, lo, size, pos, buf);
    ClustersPatch(disk[lo..lo + size], geo.Bpc(), geo.total, c, buf);
  }

  lemma PatchInside(disk: seq<byte>, lo: nat, size: nat, pos: nat, buf: seq<byte>)
    requires lo + size <= |disk| && pos + |buf| <= size
    ensures Patch(disk, lo + pos, buf)[lo..lo + size] == Patch(disk[lo..lo + size], pos, buf)
    ensures Patch(disk, lo + pos, buf)[..lo] == disk[..lo]
  {
    hide Patch;
  }

  lemma ClustersPatch(data: seq<byte>, bpc: nat, n: nat, c: nat, buf: seq<byte>)
    requires |data| == Base(bpc, n) && 2 <= c < n + 2 && |buf| == bpc && Base(bpc, c - 2) + bpc <= |data|
    ensures ClustersOf(Patch(data, Base(bpc, c - 2), buf), bpc, n) == ClustersOf(data, bpc, n)[c := buf]
  {
    hide Patch, ClustersOf, Base;
    var (cs, cs') := (ClustersOf(data, bpc, n), ClustersOf(Patch(data, Base(bpc, c - 2), buf), bpc, n));
    forall d: nat | d < n + 2 ensures cs'[d] == cs[c := buf][d] {
      ClusterPatch(data, bpc, n, c, buf, d);
    }
  }

  lemma ClusterPatch(data: seq<byte>, bpc: nat, n: nat, c: nat, buf: seq<byte>, d: nat)
    requires |data| == Base(bpc, n) && 2 <= c < n + 2 && |buf| == bpc && Base(bpc, c - 2) + bpc <= |data| && d < n + 2
    ensures ClustersOf(Patch(data, Base(bpc, c - 2), buf), bpc, n)[d] == if d == c then buf else ClustersOf(data, bpc, n)[d]
  {
    hide Patch, Base;
    if d < 2 {
      return;
    }
    ClusterFits(bpc, d - 2, n);
    if d < c {
      ClusterFits(bpc, d - 2, c - 2);
    } else if d > c {
      ClusterFits(bpc, c - 2, d - 2);
    } else {
      ClusterFits(bpc, c - 2, n);
    }
    PatchSlice(data, Base(bpc, c - 2), buf, Base(bpc, d - 2), Base(bpc, d - 1));
  }

  lemma PatchSlice(data: seq<byte>, pos: nat, buf: seq<byte>, lo: nat, hi: nat)
    requires pos + |buf| <= |data| && lo <= hi <= |data|
    ensures hi <= pos || pos + |buf| <= lo ==> Patch(data, pos, buf)[lo..hi] == data[lo..hi]
    ensures lo == pos && hi == pos + |buf| ==> Patch(data, pos, buf)[lo..hi] == buf
  {
    hide Patch;
  }

  lemma GetIsDecode(k: Kind, fat: seq<byte>, c: nat)
    requires InTable(k, fat, c)
    ensures Get(k, fat, c) == Decode(k, c, RawAt(k, fat, Offset(k, c)))
  {
  }

  lemma SetIsPut(k: Kind, fat: seq<byte>, c: nat, value: nat)
    requires InTable(k, fat, c) && value < TWO_32
    ensures Set(k, fat, c, value) == PutRaw(k, fat, Offset(k, c), Encode(k, c, RawAt(k, fat, Offset(k, c)), value))
  {
  }
}
