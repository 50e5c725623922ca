/** What lies where on a FAT volume: table entries, clusters, name fields and long-name entries, byte by byte. */
module FatFormat {
  import opened Common
  import opened FatEntries
  import opened FatVolume
  import opened FatNames
  import opened FatLongNames

  // ---------------------------------------------------------------- table entries

  /**
   * The entry of cluster `c`: 12 bits of three bytes for two clusters, the even one first; two
   * bytes, low byte first; or the low 28 bits of four.
   */
  lemma EntryFormat(k: Kind, fat: seq<byte>, c: nat)
    requires InTable(k, fat, c)
    ensures k == Fat12 && c % 2 == 0 ==>
      var o := 3 * (c / 2);
      && o + 2 <= |fat|
      && Get(k, fat, c) == Marked(fat[o] as nat + 256 * (fat[o + 1] as nat % 16), 0xFF8)
    ensures k == Fat12 && c % 2 == 1 ==>
      var o := 3 * (c / 2) + 1;
      && o + 2 <= |fat|
      && Get(k, fat, c) == Marked(fat[o] as nat / 16 + 16 * fat[o + 1] as nat, 0xFF8)
    ensures k == Fat16 ==>
      && 2 * c + 2 <= |fat|
      && Get(k, fat, c) == Marked(fat[2 * c] as nat + 256 * fat[2 * c + 1] as nat, 0xFFF8)
    ensures k == Fat32 ==>
      && 4 * c + 4 <= |fat|
      && Get(k, fat, c) ==
         fat[4 * c] as nat + 0x100 * fat[4 * c + 1] as nat + 0x1_0000 * fat[4 * c + 2] as nat
         + 0x100_0000 * (fat[4 * c + 3] as nat % 16)
  {
    var o := Offset(k, c);
    match k
    case Fat12 =>
      assert c == 2 * (c / 2) + c % 2;
      TwelveBits(fat[o], fat[o + 1]);
    case Fat16 =>
    case Fat32 =>
      TwentyEightBits(fat[o], fat[o + 1], fat[o + 2], fat[o + 3]);
  }

  /** From `end` on every value ends a chain. */
  function Marked(v: nat, end: nat): nat {
    if v >= end then 0x0FFF_FFF8 else v
  }

  lemma TwelveBits(a: byte, b: byte)
    ensures (a as nat + 256 * b as nat) % 0x1000 == a as nat + 256 * (b as nat % 16)
    ensures (a as nat + 256 * b as nat) % 0x1_0000 / 16 == a as nat / 16 + 16 * b as nat
  {
  }

  lemma TwentyEightBits(a: byte, b: byte, c: byte, d: byte)
    ensures (a as nat + 256 * b as nat + 0x1_0000 * (c as nat + 256 * d as nat)) % 0x1000_0000
      == a as nat + 0x100 * b as nat + 0x1_0000 * c as nat + 0x100_0000 * (d as nat % 16)
  {
  }

  /** The bytes that storing a value leaves: those of the entry, and its neighbour's half byte as it was. */
  lemma StoreFormat(k: Kind, fat: seq<byte>, c: nat, value: nat, i: nat)
    requires InTable(k, fat, c) && value < 0x1_0000_0000 && i < |fat|
    ensures k == Fat12 && c % 2 == 0 ==>
      var (o, v) := (3 * (c / 2), if value >= 0x0FFF_FFF8 then 0xFF8 else value % 0x1000);
      Set(k, fat, c, value)[i] ==
        if i == o then v % 256 else if i == o + 1 then v / 256 + 16 * (fat[i] / 16) else fat[i]
    ensures k == Fat12 && c % 2 == 1 ==>
      var (o, v) := (3 * (c / 2) + 1, if value >= 0x0FFF_FFF8 then 0xFF8 else value % 0x1000);
      Set(k, fat, c, value)[i] ==
        if i == o then fat[i] % 16 + 16 * (v % 16) else if i == o + 1 then v / 16 else fat[i]
    ensures k == Fat16 ==>
      var v := if value >= 0x0FFF_FFF8 then 0xFFFF else value % 0x1_0000;
      Set(k, fat, c, value)[i] == if i == 2 * c then v % 256 else if i == 2 * c + 1 then v / 256 else fat[i]
    ensures k == Fat32 ==>
      Set(k, fat, c, value)[i] ==
        if i == 4 * c then value % 256
        else if i == 4 * c + 1 then value / 0x100 % 256
        else if i == 4 * c + 2 then value / 0x1_0000 % 256
        else if i == 4 * c + 3 then value / 0x100_0000 % 16 + 16 * (fat[i] / 16)
        else fat[i]
  {
    match k
    case Fat12 => Store12(fat, c, value, i);
    case Fat16 => Store16(fat, c, value, i);
    case Fat32 => Store32(fat, c, value, i);
  }

  lemma Store12(fat: seq<byte>, c: nat, value: nat, i: nat)
    requires InTable(Fat12, fat, c) && value < 0x1_0000_0000 && i < |fat|
    ensures var v := if value >= 0x0FFF_FFF8 then 0xFF8 else value % 0x1000;
      Set(Fat12, fat, c, value)[i] ==
        if c % 2 == 0 then
          var o := 3 * (c / 2); if i == o then v % 256 else if i == o + 1 then v / 256 + 16 * (fat[i] / 16) else fat[i]
        else
          var o := 3 * (c / 2) + 1; if i == o then fat[i] % 16 + 16 * (v % 16) else if i == o + 1 then v / 16 else fat[i]
  {
    var o := Offset(Fat12, c);
    assert c == 2 * (c / 2) + c % 2;
    StoreTwelve(fat[o], fat[o + 1], if value >= EOC then 0xFF8 else value % 0x1000);
  }

  lemma Store16(fat: seq<byte>, c: nat, value: nat, i: nat)
    requires InTable(Fat16, fat, c) && value < 0x1_0000_0000 && i < |fat|
    ensures var v := if value >= 0x0FFF_FFF8 then 0xFFFF else value % 0x1_0000;
      Set(Fat16, fat, c, value)[i] == if i == 2 * c then v % 256 else if i == 2 * c + 1 then v / 256 else fat[i]
  {
  }

  lemma Store32(fat: seq<byte>, c: nat, value: nat, i: nat)
    requires InTable(Fat32, fat, c) && value < 0x1_0000_0000 && i < |fat|
    ensures Set(Fat32, fat, c, value)[i] ==
      if i == 4 * c then value % 256
      else if i == 4 * c + 1 then value / 0x100 % 256
      else if i == 4 * c + 2 then value / 0x1_0000 % 256
      else if i == 4 * c + 3 then value / 0x100_0000 % 16 + 16 * (fat[i] / 16)
      else fat[i]
  {
    var o := 4 * c;
    StoreTwentyEight(fat[o], fat[o + 1], fat[o + 2], fat[o + 3], value);
  }

  lemma StoreTwelve(a: byte, b: byte, v: nat)
    requires v < 0x1000
    ensures var r := (a as nat + 256 * b as nat) / 0x1000 * 0x1000 + v;
      r < 0x1_0000 && r % 256 == v % 256 && r / 256 == v / 256 + 16 * (b as nat / 16)
    ensures var r := (a as nat + 256 * b as nat) % 16 + v * 16;
      r < 0x1_0000 && r % 256 == a as nat % 16 + 16 * (v % 16) && r / 256 == v / 16
  {
    assert (a as nat + 256 * b as nat) / 0x1000 == b as nat / 16;
  }

  lemma StoreTwentyEight(a: byte, b: byte, c: byte, d: byte, value: nat)
    requires value < 0x1_0000_0000
    ensures var r := (a as nat + 256 * b as nat + 0x1_0000 * (c as nat + 256 * d as nat)) / MASK28 * MASK28 + value % MASK28;
      && r % 0x1_0000 % 256 == value % 256 && r % 0x1_0000 / 256 == value / 0x100 % 256
      && r / 0x1_0000 % 256 == value / 0x1_0000 % 256
      && r / 0x1_0000 / 256 == value / 0x100_0000 % 16 + 16 * (d as nat / 16)
  {
    var (p, q, r, w) := (value % 256, value / 0x100 % 256, value / 0x1_0000 % 256, value / 0x100_0000);
    TopHalf(a, b, c, d);
    LowBits28(value, p, q, r, w);
    FourBytes(p, q, r, w % 16, d as nat / 16);
  }

  lemma TopHalf(a: byte, b: byte, c: byte, d: byte)
    ensures (a as nat + 256 * b as nat + 0x1_0000 * (c as nat + 256 * d as nat)) / MASK28 == d as nat / 16
  {
  }

  lemma LowBits28(value: nat, p: nat, q: nat, r: nat, w: nat)
    requires p == value % 256 && q == value / 0x100 % 256 && r == value / 0x1_0000 % 256 && w == value / 0x100_0000
    ensures value % MASK28 == p + 0x100 * q + 0x1_0000 * r + 0x100_0000 * (w % 16)
  {
    var (a, b) := (value / 0x100, value / 0x1_0000);
    Nested(value);
    assert value == 0x100 * a + p && a == 0x100 * b + q && b == 0x100 * w + r;
    assert w == 16 * (w / 16) + w % 16;
    ModIs(value, w / 16, MASK28, p + 0x100 * q + 0x1_0000 * r + 0x100_0000 * (w % 16));
  }

  lemma Nested(value: nat)
    ensures value / 0x100 / 0x100 == value / 0x1_0000 && value / 0x1_0000 / 0x100 == value / 0x100_0000
  {
  }

  lemma FourBytes(p: nat, q: nat, r: nat, t: nat, h: nat)
    requires p < 256 && q < 256 && r < 256 && t < 16 && h < 16
    ensures var x := h * MASK28 + (p + 0x100 * q + 0x1_0000 * r + 0x100_0000 * t);
      x % 0x1_0000 % 256 == p && x % 0x1_0000 / 256 == q && x / 0x1_0000 % 256 == r && x / 0x1_0000 / 256 == t + 16 * h
  {
    var x := h * MASK28 + (p + 0x100 * q + 0x1_0000 * r + 0x100_0000 * t);
    assert x % 0x1_0000 == p + 0x100 * q;
    assert x / 0x1_0000 == r + 0x100 * (t + 16 * h);
  }

  // ---------------------------------------------------------------- clusters

  /** Cluster `c` is the `c - 2`-nd stretch of its size behind the start of the data area. */
  lemma ClusterOnDisk(vol: Volume, c: nat, from: nat, size: nat)
    requires vol.Valid() && 2 <= c < vol.geo.total + 2
    requires from == (vol.geo.dataStart + (c - 2) * vol.geo.spc) * 512 && size == vol.geo.spc * 512
    ensures from + size <= |vol.disk| && vol.Clusters()[c] == vol.disk[from..from + size]
  {
    hide Geometry.Sound;
    DataFits(vol);
    var (bpc, n) := (vol.geo.Bpc(), c - 2);
    ClusterFits(bpc, n, vol.geo.total);
    Scaled(n, vol.geo.spc);
    hide Base;
    InnerSlice(vol.disk, vol.geo.dataStart * SECTOR, Base(bpc, vol.geo.total), Base(bpc, n), Base(bpc, n + 1));
  }

  lemma InnerSlice(s: seq<byte>, at: nat, n: nat, x: nat, y: nat)
    requires at + n <= |s| && x <= y <= n
    ensures s[at..at + n][x..y] == s[at + x..at + y]
  {
    var (a, b) := (s[at..at + n][x..y], s[at + x..at + y]);
    assert |a| == |b| && forall i :: 0 <= i < |a| ==> a[i] == b[i];
  }

  /** The two copies of the table lie one behind the other. */
  lemma CopyOnDisk(vol: Volume, n: nat)
    requires vol.Valid() && n < 2 && (n == 1 ==> vol.geo.numFats >= 2)
    ensures var (from, size) := ((vol.geo.firstFat + n * vol.geo.fatSize) * 512, vol.geo.fatSize * 512);
      (vol.geo.FatStart(n) + vol.geo.fatSize) * SECTOR == from + size <= |vol.disk| && vol.Copy(n) == vol.disk[from..from + size]
  {
  }

  lemma DataFits(vol: Volume)
    requires vol.Valid()
    ensures vol.geo.dataStart * SECTOR + Base(vol.geo.Bpc(), vol.geo.total) <= |vol.disk|
  {
  }

  lemma Scaled(n: nat, spc: nat)
    ensures Base(spc * SECTOR, n) == n * spc * 512 && Base(spc * SECTOR, n + 1) == n * spc * 512 + spc * 512
  {
    assert n * (spc * 512) == n * spc * 512;
    assert (n + 1) * (spc * 512) == n * (spc * 512) + spc * 512;
  }

  // ---------------------------------------------------------------- 8.3 fields

  /** Small letters become capitals, and nothing else changes. */
  lemma UpperLetters(c: byte)
    ensures ToUpper(c) == if 'a' as nat <= c as nat <= 'z' as nat then c - ('a' as nat - 'A' as nat) else c
  {
  }

  /**
   * The field of a name whose last dot is at `d`, or which has none: up to eight bytes in front
   * of the dot and three behind it, in capitals and padded with blanks; eleven blanks for a
   * name that does not fit.
   */
  lemma FieldFormat(s: Name, d: int, i: nat)
    requires -1 <= d < |s| && (d >= 0 ==> s[d] == '.' as nat) && (forall j :: d < j < |s| ==> s[j] != '.' as nat) && i < 11
    ensures var (stem, ext) := (if d >= 0 then d else |s|, if d >= 0 then |s| - d - 1 else 0);
      && (Fits83(s) <==> stem <= 8 && ext <= 3)
      && (stem <= 8 && ext <= 3 ==>
            Name83(s)[i] ==
              if i < stem then ToUpper(s[i]) else if 8 <= i < 8 + ext then ToUpper(s[d + 1 + (i - 8)]) else ' ' as nat)
      && (!(stem <= 8 && ext <= 3) ==> Name83(s)[i] == ' ' as nat)
  {
    hide LastDot, ToUpper;
    DotIs(s, d);
    FitsIs(s);
  }

  lemma DotIs(s: Name, d: int)
    requires -1 <= d < |s| && (d >= 0 ==> s[d] == DOT) && (forall j :: d < j < |s| ==> s[j] != DOT)
    ensures LastDot(s) == d
  {
    var e := LastDot(s);
    assert e >= 0 ==> s[e] == DOT;
  }

  /** What a field shows: up to `m` bytes of its first eight and `n` of its last three, in front of the first blank. */
  lemma ShownFormat(raw: Name, m: nat, n: nat)
    requires |raw| == 11 && m <= 8 && n <= 3
    requires (forall j :: 0 <= j < m ==> raw[j] != ' ' as nat) && (m < 8 ==> raw[m] == ' ' as nat)
    requires (forall j :: 8 <= j < 8 + n ==> raw[j] != ' ' as nat) && (n < 3 ==> raw[8 + n] == ' ' as nat)
    ensures Shown83(raw) == raw[..m] + if n == 0 then [] else ['.' as nat] + raw[8..8 + n]
  {
    hide UntilSpace;
    FirstSpace(raw[..8], m);
    FirstSpace(raw[8..], n);
    assert raw[..8][..m] == raw[..m] && raw[8..][..n] == raw[8..8 + n];
  }

  // ---------------------------------------------------------------- long names

  /** Where the two bytes of unit `j` lie in a long-name entry: at 1 to 10, 14 to 25 and 28 to 31. */
  function UnitOffset(j: nat): nat {
    if j < 5 then 1 + 2 * j else if j < 11 then 14 + 2 * (j - 5) else 28 + 2 * (j - 11)
  }

  /** A long-name entry as it is written. */
  lemma WrittenFormat(order: byte, sum: byte, u: Units, j: nat)
    requires j < 13
    ensures var (e, o) := (LfnEntry(order, sum, u), UnitOffset(j));
      && e[0] == order && e[11] == 0x0F && e[12] == 0 && e[13] == sum && e[26] == 0 && e[27] == 0
      && o + 1 < 32 && e[o] as nat == u[j] % 256 && e[o + 1] as nat == u[j] / 256
  {
    FirstUnits(order, sum, u);
    MiddleUnits(order, sum, u);
    LastUnits(order, sum, u);
    EntryFields(order, sum, u);
    hide LfnEntry;
  }

  lemma EntryFields(order: byte, sum: byte, u: Units)
    ensures var e := LfnEntry(order, sum, u);
      e[0] == order && e[11] == 0x0F && e[12] == 0 && e[13] == sum && e[26] == 0 && e[27] == 0
  {
    hide Low, High;
  }

  /** And as it is read. */
  lemma ReadFormat(e: Entry, j: nat)
    requires j < 13
    ensures UnitOffset(j) + 1 < 32
    ensures UnitAt(e, j) == e[UnitOffset(j)] as nat + 256 * e[UnitOffset(j) + 1] as nat
  {
  }

  /**
   * The units of fragment `li`: thirteen bytes of the name, and behind its end 0xFFFF, but 0 in
   * the first place and the last two.
   */
  lemma UnitFormat(s: Name, li: nat, j: nat)
    requires li > 0 && j < 13 && Ascii(s)
    ensures var p := 13 * (li - 1) + j;
      FragmentOf(s, li)[j] == if p < |s| then s[p] as nat else if j in {0, 11, 12} then 0 else 0xFFFF
  {
  }

  /**
   * The entries of a name that needs long ones: as many fragments of 13 as hold it, the last
   * first and marked with 0x40, each with the checksum of the field, and the 8.3 entry.
   */
  lemma GroupFormat(s: Name, tail: Name, i: nat)
    requires Ascii(s) && 0 < |s| <= 255 && |tail| == 21 && UsesLfn(s)
    ensures var n := |Group(s, tail)| - 1;
      && 13 * (n - 1) < |s| <= 13 * n && n <= 20 && Group(s, tail)[n] == Name83(s) + tail
      && (i < n ==>
            Group(s, tail)[i] == LfnEntry(if i == 0 then 0x40 + n else n - i, Checksum(Name83(s)), FragmentOf(s, n - i)))
  {
    hide Name83, UsesLfn, FragmentCount, Fragments, LfnEntry, FragmentOf, Checksum;
    CountCovers(s);
    GroupEnd(s, tail);
    var n := FragmentCount(s);
    if i < n {
      FragmentsAt(s, n, n, i);
    }
  }

  /** A name that fits alone is its 8.3 entry. */
  lemma ShortGroup(s: Name, tail: Name)
    requires |s| <= 255 && |tail| == 21 && !UsesLfn(s)
    ensures Group(s, tail) == [Name83(s) + tail]
  {
    hide Name83, UsesLfn;
  }

  /** A unit in front of the end of a name decodes to UTF-8: one, two or three bytes that stand for it. */
  lemma UnitDecodes(u: nat, max: nat)
    requires 0 < u < 0xFFFF && max > 3
    ensures SixteenBit([u])
    ensures var r := ToBytes([u], 0, [], max);
      && |r| == (if u < 0x80 then 1 else if u < 0x800 then 2 else 3)
      && (u < 0x80 ==> r[0] as nat == u)
      && (0x80 <= u < 0x800 ==>
            0xC0 <= r[0] < 0xE0 && 0x80 <= r[1] < 0xC0 && (r[0] as nat - 0xC0) * 64 + (r[1] as nat - 0x80) == u)
      && (0x800 <= u ==>
            && 0xE0 <= r[0] < 0xF0 && 0x80 <= r[1] < 0xC0 && 0x80 <= r[2] < 0xC0
            && ((r[0] as nat - 0xE0) * 64 + (r[1] as nat - 0x80)) * 64 + (r[2] as nat - 0x80) == u)
  {
  }

  /** The field FOOBAR~1TXT has checksum 7. */
  lemma FooBarChecksum()
    ensures Checksum([70, 79, 79, 66, 65, 82, 126, 49, 84, 88, 84]) == 7
  {
    hide Checksum;
    NothingSummed();
    var a := Added([], 70, 0);
    a := Added(a, 79, 70);
    a := Added(a, 79, 114);
    a := Added(a, 66, 136);
    a := Added(a, 65, 134);
    a := Added(a, 82, 132);
    a := Added(a, 126, 148);
    a := Added(a, 49, 200);
    a := Added(a, 84, 149);
    a := Added(a, 88, 30);
    a := Added(a, 84, 103);
    assert a == [70, 79, 79, 66, 65, 82, 126, 49, 84, 88, 84];
  }

  lemma NothingSummed()
    ensures Checksum([]) == 0
  {
  }

  lemma Added(raw: Name, b: byte, sum: byte) returns (r: Name)
    requires Checksum(raw) == sum
    ensures r == raw + [b] && Checksum(r) == (sum / 2 + sum % 2 * 128 + b) % 256
  {
    r := raw + [b];
    assert r[..|raw|] == raw;
  }
}
