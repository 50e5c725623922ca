/** Long file names: the directory entries a name is written as, and the scan that reads it back. */
module FatLongNames {
  import opened Common
  import opened FatEntries
  import opened FatNames

  const FREE_MARK: byte := 0xE5            // FAT_ENTRY_FREE
  const ATTR_LFN: byte := 15
  const UNITS := 13
  const MAX_UNITS := 260                   // LFN_BUF_MAX * 13
  const MAX_NAME := 255

  type Entry = e: Name | |e| == 32
    witness [0, 0, 0, 0, 0, 0, 0, 0, 0, 0, 0, 0, 0, 0, 0, 0, 0, 0, 0, 0, 0, 0, 0, 0, 0, 0, 0, 0, 0, 0, 0, 0]

  type Units = u: seq<nat> | |u| == UNITS && forall i :: 0 <= i < UNITS ==> u[i] < 0x1_0000
    witness [0, 0, 0, 0, 0, 0, 0, 0, 0, 0, 0, 0, 0]

  /** An ASCII file name as `fat_dir_add_entry` takes it. */
  predicate Ascii(s: Name) {
    forall i :: 0 <= i < |s| ==> 0 < s[i] < 0x80
  }

  // ---------------------------------------------------------------- writing

  function Low(u: nat): byte { u % 256 }

  function High(u: nat): byte
    requires u < 0x1_0000
  {
    u / 256
  }

  /** A long-name entry: order, five units, attribute, type, checksum, six units, cluster, two units. */
  function LfnEntry(order: byte, sum: byte, u: Units): Entry {
    [order, Low(u[0]), High(u[0]), Low(u[1]), High(u[1]), Low(u[2]), High(u[2]), Low(u[3]), High(u[3]), Low(u[4]), High(u[4]),
     ATTR_LFN, 0, sum, Low(u[5]), High(u[5]), Low(u[6]), High(u[6]), Low(u[7]), High(u[7]), Low(u[8]), High(u[8]),
     Low(u[9]), High(u[9]), Low(u[10]), High(u[10]), 0, 0, Low(u[11]), High(u[11]), Low(u[12]), High(u[12])]
  }

  /** `fat_lfn_entries_needed`. */
  function FragmentCount(s: Name): nat {
    (|s| + 12) / 13
  }

  function CharAt(s: Name, p: nat): byte {
    if p < |s| then s[p] else 0
  }

  /** Unit `ci` of fragment `li`: behind the name 0xFFFF, but 0 in the first and the last two places. */
  function UnitOf(s: Name, li: nat, ci: nat): (u: nat)
    requires li > 0
    ensures u < 0x1_0000
  {
    var c := CharAt(s, (li - 1) * UNITS + ci);
    if c == 0 && 0 < ci < 11 then 0xFFFF else c
  }

  function FragmentOf(s: Name, li: nat): Units
    requires li > 0
  {
    seq(UNITS, ci requires 0 <= ci < UNITS => UnitOf(s, li, ci))
  }

  /** Fragment `li` of `n`. */
  function FragmentEntry(s: Name, n: nat, li: nat): Entry
    requires 0 < li <= n <= 20
  {
    LfnEntry(if li == n then li + 64 else li, Checksum(Name83(s)), FragmentOf(s, li))
  }

  /** Fragments `m` to 1 of `n`, in the order they are written. */
  function Fragments(s: Name, n: nat, m: nat): (r: seq<Entry>)
    requires m <= n <= 20
    ensures |r| == m
  {
    if m == 0 then [] else [FragmentEntry(s, n, m)] + Fragments(s, n, m - 1)
  }

  /** The long-name entries of a name that needs them. */
  function LongPart(s: Name): seq<Entry>
    requires |s| <= MAX_NAME
  {
    if UsesLfn(s) then Fragments(s, FragmentCount(s), FragmentCount(s)) else []
  }

  /** The 8.3 entry. */
  function ShortPart(s: Name, tail: Name): Entry
    requires |tail| == 21
  {
    Name83(s) + tail
  }

  /** The entries a name is written as; `tail` is the 8.3 entry behind its name field. */
  function Group(s: Name, tail: Name): (g: seq<Entry>)
    requires |s| <= MAX_NAME && |tail| == 21
    ensures |g| > 0
  {
    LongPart(s) + [ShortPart(s, tail)]
  }

  /** The inner loops of `fat_dir_add_entry`: one fragment's units. */
  method MakeFragment(s: Name, li: nat) returns (units: array<nat>)
    requires li > 0 && Ascii(s)
    ensures fresh(units) && units.Length == UNITS && units[..] == FragmentOf(s, li)
  {
    var pos := (li - 1) * 13;
    var seg := new byte[14](_ => 0);
    for ci: nat := 0 to 13
      invariant forall j :: 0 <= j < ci ==> seg[j] == CharAt(s, pos + j)
    {
      seg[ci] := if pos + ci < |s| then s[pos + ci] else 0;
    }
    units := new nat[13](_ => 0);
    for ci: nat := 0 to 13
      invariant forall j :: 0 <= j < ci ==> units[j] == seg[j]
      modifies units
    {
      units[ci] := seg[ci];
    }
    for ci: nat := 0 to 5
      invariant forall j :: 0 <= j < 13 ==> units[j] == if seg[j] == 0 && 0 < j < ci then 0xFFFF else seg[j]
      modifies units
    {
      if seg[ci] == 0 && ci > 0 {
        units[ci] := 0xFFFF;
      }
    }
    for ci: nat := 0 to 6
      invariant forall j :: 0 <= j < 13 ==> units[j] == if seg[j] == 0 && 0 < j < 5 + ci then 0xFFFF else seg[j]
      modifies units
    {
      if 5 + ci < 13 && seg[5 + ci] == 0 {
        units[5 + ci] := 0xFFFF;
      }
    }
    forall j | 0 <= j < 13 ensures units[..][j] == FragmentOf(s, li)[j] {
      assert seg[j] == CharAt(s, pos + j);
    }
  }

  /** The entries `fat_dir_add_entry` writes. */
  method AddEntry(s: Name, tail: Name) returns (entries: seq<Entry>)
    requires Ascii(s) && 0 < |s| <= MAX_NAME && |tail| == 21
    ensures entries == Group(s, tail)
  {
    hide Name83, Shown83, Checksum, Upper, LfnEntry, FragmentOf, Fits83;
    var fits, field := Make83(s);
    var raw := field[..];
    var useLfn := !fits;
    var count := if useLfn then FragmentCount(s) else 0;
    if !useLfn && |s| > 0 {
      var check := Parse83(raw);
      var same := SameName(check, s);
      if !same {
        useLfn := true;
        count := FragmentCount(s);
      }
    }
    var sum := LfnChecksum(raw);
    entries := WriteFragments(s, count, sum);
    entries := entries + [raw + tail];
  }

  /** The loop of `fat_dir_add_entry` over the fragments, from the last to the first. */
  method WriteFragments(s: Name, count: nat, sum: byte) returns (entries: seq<Entry>)
    requires Ascii(s) && count <= 20 && sum == Checksum(Name83(s))
    ensures entries == Fragments(s, count, count)
  {
    hide Name83, Checksum, LfnEntry, FragmentOf;
    entries := [];
    var li := count;
    while li >= 1
      invariant 0 <= li <= count
      invariant entries + Fragments(s, count, li) == Fragments(s, count, count)
    {
      var units := MakeFragment(s, li);
      entries := entries + [LfnEntry(if li == count then li + 64 else li, sum, units[..])];
      li := li - 1;
    }
  }

  /** `kstr_icmp(a, b) == 0`. */
  method SameName(a: Name, b: Name) returns (same: bool)
    ensures same <==> Upper(a) == Upper(b)
  {
    var i: nat := 0;
    while i < |a| && i < |b| && ToUpper(a[i]) == ToUpper(b[i])
      invariant i <= |a| && i <= |b|
      invariant forall j :: 0 <= j < i ==> Upper(a)[j] == Upper(b)[j]
    {
      i := i + 1;
    }
    same := i == |a| && i == |b|;
    if !same && i < |a| && i < |b| {
      assert Upper(a)[i] != Upper(b)[i];
    }
  }

  // ---------------------------------------------------------------- reading

  /** What the scan of a directory remembers: a long name is under way, its checksum, its units. */
  datatype Scan = Scan(has: bool, sum: byte, buf: seq<nat>)
  {
    predicate Valid() {
      |buf| == MAX_UNITS + 1 && SixteenBit(buf)
    }
  }

  predicate SixteenBit(buf: seq<nat>) {
    forall j :: 0 <= j < |buf| ==> buf[j] < 0x1_0000
  }

  function UnitAt(e: Entry, j: nat): nat
    requires j < UNITS
  {
    Le16(e, if j < 5 then 1 + 2 * j else if j < 11 then 4 + 2 * j else 6 + 2 * j)
  }

  function UnitsOf(e: Entry): (u: seq<nat>)
    ensures |u| == UNITS && forall j :: 0 <= j < UNITS ==> u[j] == UnitAt(e, j) < 0x1_0000
  {
    seq(UNITS, j requires 0 <= j < UNITS => UnitAt(e, j))
  }

  predicate IsLfn(e: Entry) {
    e[11] % 64 == ATTR_LFN
  }

  /** An entry that names a file or directory. */
  predicate IsNormal(e: Entry) {
    e[0] != FREE_MARK && !IsLfn(e) && e[11] / 8 % 2 == 0
  }

  /** The entry's units in their place; an order number beyond 20 has none. */
  function Placed(buf: seq<nat>, order: nat, e: Entry): (r: seq<nat>)
    requires |buf| == MAX_UNITS + 1 && SixteenBit(buf)
    ensures |r| == |buf| && SixteenBit(r)
  {
    var pos := (order - 1) * UNITS;
    if 0 <= pos && pos + UNITS <= MAX_UNITS then
      buf[..pos] + UnitsOf(e) + buf[pos + UNITS..]
    else buf
  }

  /** A long-name entry that begins a name, or carries the checksum of the name under way. */
  predicate Accepted(st: Scan, e: Entry) {
    e[0] != FREE_MARK && IsLfn(e) && (e[0] / 64 % 2 == 1 || (st.has && e[13] == st.sum))
  }

  /** The copy of the entry's units goes to the 13 places in front of the buffer. */
  predicate WritesOutside(st: Scan, e: Entry) {
    Accepted(st, e) && e[0] % 32 == 0
  }

  function Next(st: Scan, e: Entry): (r: Scan)
    requires st.Valid()
    ensures r.Valid()
  {
    if !Accepted(st, e) then st.(has := false)
    else if e[0] / 64 % 2 == 1 then
      Scan(true, e[13], Placed(Blank(), e[0] % 32, e))
    else st.(buf := Placed(st.buf, e[0] % 32, e))
  }

  /** `utf16le_to_ascii`: the bytes of the units from `i` on, behind `out`, in a buffer of `max` bytes. */
  function ToBytes(src: seq<nat>, i: nat, out: Name, max: nat): Name
    requires i <= |src| && SixteenBit(src)
    decreases |src| - i
  {
    if i == |src| || |out| + 1 >= max || src[i] == 0 || src[i] == 0xFFFF then out
    else
      var c := src[i];
      if c < 0x80 then ToBytes(src, i + 1, out + [c], max)
      else if c < 0x800 then
        if |out| + 2 >= max then out
        else ToBytes(src, i + 1, out + [0xC0 + c / 64, 0x80 + c % 64], max)
      else if |out| + 3 >= max then out
      else ToBytes(src, i + 1, out + [0xE0 + c / 4096, 0x80 + c / 64 % 64, 0x80 + c % 64], max)
  }

  /** A C string ends at its first zero. */
  function UntilNul(s: Name): Name {
    if s == [] || s[0] == 0 then [] else [s[0]] + UntilNul(s[1..])
  }

  /** The long name of a normal entry, empty when it has none. */
  function LongName(st: Scan, e: Entry): Name
    requires st.Valid()
  {
    if st.has && Checksum(e[..11]) == st.sum then ToBytes(st.buf[..MAX_UNITS], 0, [], MAX_NAME + 1) else []
  }

  function ShortName(e: Entry): Name {
    UntilNul(Shown83(e[..11]))
  }

  /** The name a normal entry goes by. */
  function VisibleName(st: Scan, e: Entry): Name
    requires st.Valid()
  {
    if LongName(st, e) != [] then LongName(st, e) else ShortName(e)
  }

  predicate Matches(st: Scan, e: Entry, name: Name)
    requires st.Valid()
  {
    || Upper(VisibleName(st, e)) == Upper(name)
    || (LongName(st, e) != [] && Upper(ShortName(e)) == Upper(name))
  }

  /** The scan's state in front of entry `i`. */
  function StateAt(st: Scan, entries: seq<Entry>, i: nat): (r: Scan)
    requires st.Valid() && i <= |entries|
    ensures r.Valid()
  {
    if i == 0 then st else Next(StateAt(st, entries, i - 1), entries[i - 1])
  }

  /** Entry `i` is a normal one that the name refers to. */
  predicate Hit(st: Scan, entries: seq<Entry>, i: nat, name: Name)
    requires st.Valid() && i < |entries|
  {
    IsNormal(entries[i]) && Matches(StateAt(st, entries, i), entries[i], name)
  }

  /** The first hit, if there is one. */
  predicate FirstHit(st: Scan, entries: seq<Entry>, name: Name, found: Option<nat>)
    requires st.Valid()
  {
    match found
    case Some(i) => i < |entries| && Hit(st, entries, i, name) && forall j :: 0 <= j < i ==> !Hit(st, entries, j, name)
    case None => forall j :: 0 <= j < |entries| ==> !Hit(st, entries, j, name)
  }

  /** No entry in front of the first hit is copied to a place outside the buffer. */
  predicate InBounds(st: Scan, entries: seq<Entry>, name: Name)
    requires st.Valid()
  {
    forall j :: 0 <= j < |entries| && (forall i :: 0 <= i < j ==> !Hit(st, entries, i, name)) ==>
      !WritesOutside(StateAt(st, entries, j), entries[j])
  }

  /** `utf16le_to_ascii`. */
  method Utf16ToAscii(src: array<nat>, count: nat, max: nat) returns (dst: Name)
    requires count <= src.Length && SixteenBit(src[..]) && max > 0
    ensures dst == ToBytes(src[..count], 0, [], max)
  {
    dst := [];
    var i: nat := 0;
    while i < count && |dst| < max - 1
      invariant i <= count && ToBytes(src[..count], 0, [], max) == ToBytes(src[..count], i, dst, max)
      decreases count - i
    {
      var c := src[i];
      assert c == src[..][i];
      if c == 0 || c == 0xFFFF {
        break;
      }
      if c < 0x80 {
        dst := dst + [c];
      } else if c < 0x800 {
        if |dst| + 2 >= max {
          break;
        }
        dst := dst + [0xC0 + c / 64, 0x80 + c % 64];
      } else {
        if |dst| + 3 >= max {
          break;
        }
        dst := dst + [0xE0 + c / 4096, 0x80 + c / 64 % 64, 0x80 + c % 64];
      }
      i := i + 1;
    }
  }

  /** The copies of a long-name entry's units into the buffer. */
  method CopyUnits(buf: array<nat>, order: nat, e: Entry)
    requires buf.Length == MAX_UNITS + 1 && SixteenBit(buf[..]) && order > 0
    modifies buf
    ensures buf[..] == Placed(old(buf[..]), order, e)
  {
    hide UnitAt;
    var pos := (order - 1) * 13;
    if pos + 13 <= MAX_UNITS {
      for j: nat := 0 to 13
        invariant forall p :: 0 <= p < buf.Length ==>
          buf[p] == if pos <= p < pos + j then UnitAt(e, p - pos) else old(buf[..])[p]
      {
        buf[pos + j] := UnitAt(e, j);
      }
    }
  }

  /**
   * `fat_dir_find`: the first normal entry that goes by the name, up to case.  The code writes
   * in front of its buffer exactly where `InBounds` does not hold.
   */
  method DirFind(entries: seq<Entry>, name: Name, lfnBuf: array<nat>) returns (found: Option<nat>)
    requires lfnBuf.Length == MAX_UNITS + 1 && SixteenBit(lfnBuf[..])
    requires InBounds(Scan(false, 0, lfnBuf[..]), entries, name)
    modifies lfnBuf
    ensures FirstHit(Scan(false, 0, old(lfnBuf[..])), entries, name, found)
  {
    hide Next, Matches, WritesOutside, SixteenBit, StateAt, Hit, InBounds;
    ghost var st := Scan(false, 0, lfnBuf[..]);
    var hasLfn, sum := false, 0;
    NoStep(st, entries);
    for i: nat := 0 to |entries|
      invariant SixteenBit(lfnBuf[..]) && Scan(hasLfn, sum, lfnBuf[..]) == StateAt(st, entries, i)
      invariant forall j :: 0 <= j < i ==> !Hit(st, entries, j, name)
    {
      var e := entries[i];
      OneStep(st, entries, i, name);
      if e[0] == FREE_MARK {
        hasLfn := false;
        continue;
      }
      if e[11] % 64 == ATTR_LFN {
        hasLfn, sum := ScanLfn(lfnBuf, e, hasLfn, sum);
        continue;
      }
      if e[11] / 8 % 2 == 1 {
        hasLfn := false;
        continue;
      }
      var hit := Compare(lfnBuf, e, hasLfn, sum, name);
      if hit {
        return Some(i);
      }
      hasLfn := false;
    }
    found := None;
  }

  lemma NoStep(st: Scan, entries: seq<Entry>)
    requires st.Valid()
    ensures StateAt(st, entries, 0) == st
  {
  }

  /** One step of the scan. */
  lemma OneStep(st: Scan, entries: seq<Entry>, i: nat, name: Name)
    requires st.Valid() && i < |entries| && InBounds(st, entries, name)
    requires forall j :: 0 <= j < i ==> !Hit(st, entries, j, name)
    ensures var (r, e) := (StateAt(st, entries, i), entries[i]);
      && StateAt(st, entries, i + 1) == Next(r, e) && !WritesOutside(r, e)
      && (Hit(st, entries, i, name) <==> IsNormal(e) && Matches(r, e, name))
      && (e[0] == FREE_MARK || !IsLfn(e) ==> Next(r, e) == r.(has := false))
  {
    hide Matches, WritesOutside, Placed;
  }

  /** The branch of `fat_dir_find` for a long-name entry. */
  method ScanLfn(lfnBuf: array<nat>, e: Entry, hasLfn: bool, sum: byte) returns (hasLfn': bool, sum': byte)
    requires lfnBuf.Length == MAX_UNITS + 1 && SixteenBit(lfnBuf[..]) && e[0] != FREE_MARK && IsLfn(e)
    requires !WritesOutside(Scan(hasLfn, sum, lfnBuf[..]), e)
    modifies lfnBuf
    ensures SixteenBit(lfnBuf[..]) && Scan(hasLfn', sum', lfnBuf[..]) == Next(Scan(hasLfn, sum, old(lfnBuf[..])), e)
  {
    hide Placed;
    var order, isLast := e[0] % 32, e[0] / 64 % 2 == 1;
    hasLfn', sum' := hasLfn, sum;
    if isLast {
      Clear(lfnBuf);
      sum', hasLfn' := e[13], true;
    } else if !hasLfn || e[13] != sum {
      return false, sum;
    }
    CopyUnits(lfnBuf, order, e);
  }

  /** `kmem_set(lfn_buf, 0, ...)`. */
  method Clear(buf: array<nat>)
    modifies buf
    ensures buf[..] == seq(buf.Length, q => 0)
  {
    for p: nat := 0 to buf.Length
      invariant forall q :: 0 <= q < p ==> buf[q] == 0
    {
      buf[p] := 0;
    }
  }

  /** The comparison of `fat_dir_find` at a normal entry. */
  method Compare(lfnBuf: array<nat>, e: Entry, hasLfn: bool, sum: byte, name: Name) returns (hit: bool)
    requires lfnBuf.Length == MAX_UNITS + 1 && SixteenBit(lfnBuf[..])
    ensures hit <==> Matches(Scan(hasLfn, sum, lfnBuf[..]), e, name)
  {
    hide ToBytes, Checksum, Shown83, Upper, UntilNul;
    var short := Parse83(e[..11]);
    short := ToNul(short);
    var long: Name := [];
    var here := LfnChecksum(e[..11]);
    if hasLfn && here == sum {
      long := Utf16ToAscii(lfnBuf, MAX_UNITS, MAX_NAME + 1);
    }
    var visible := SameName(if long != [] then long else short, name);
    var alias := SameName(short, name);
    hit := visible || (long != [] && alias);
  }

  /** Where a C string ends. */
  method ToNul(s: Name) returns (r: Name)
    ensures r == UntilNul(s)
  {
    var i: nat := 0;
    while i < |s| && s[i] != 0
      invariant i <= |s| && UntilNul(s) == s[..i] + UntilNul(s[i..])
    {
      assert s[i..][1..] == s[i + 1..] && s[..i] + [s[i]] == s[..i + 1];
      i := i + 1;
    }
    r := s[..i];
  }

  // ---------------------------------------------------------------- what was written is read

  lemma {:induction false} FragmentsAt(s: Name, n: nat, m: nat, k: nat)
    requires k < m <= n <= 20
    ensures Fragments(s, n, m)[k] == FragmentEntry(s, n, m - k)
    decreases m
  {
    hide FragmentEntry;
    if k > 0 {
      FragmentsAt(s, n, m - 1, k - 1);
    }
  }

  lemma LowHigh(u: nat)
    requires u < 0x1_0000
    ensures Low(u) + 256 * High(u) == u
  {
  }

  /** Where a unit's two bytes lie. */
  lemma FirstUnits(order: byte, sum: byte, u: Units)
    ensures var e := LfnEntry(order, sum, u);
      && e[1] == Low(u[0]) && e[2] == High(u[0]) && e[3] == Low(u[1]) && e[4] == High(u[1])
      && e[5] == Low(u[2]) && e[6] == High(u[2]) && e[7] == Low(u[3]) && e[8] == High(u[3])
      && e[9] == Low(u[4]) && e[10] == High(u[4])
  {
    hide Low, High;
  }

  lemma MiddleUnits(order: byte, sum: byte, u: Units)
    ensures var e := LfnEntry(order, sum, u);
      && e[14] == Low(u[5]) && e[15] == High(u[5])
      && e[16] == Low(u[6]) && e[17] == High(u[6]) && e[18] == Low(u[7]) && e[19] == High(u[7])
      && e[20] == Low(u[8]) && e[21] == High(u[8])
  {
    hide Low, High;
  }

  lemma LastUnits(order: byte, sum: byte, u: Units)
    ensures var e := LfnEntry(order, sum, u);
      && e[22] == Low(u[9]) && e[23] == High(u[9])
      && e[24] == Low(u[10]) && e[25] == High(u[10]) && e[28] == Low(u[11]) && e[29] == High(u[11])
      && e[30] == Low(u[12]) && e[31] == High(u[12])
  {
    hide Low, High;
  }

  lemma UnitsRead(order: byte, sum: byte, u: Units, j: nat)
    requires j < UNITS
    ensures UnitAt(LfnEntry(order, sum, u), j) == u[j]
  {
    hide Low, High, LfnEntry;
    FirstUnits(order, sum, u);
    MiddleUnits(order, sum, u);
    LastUnits(order, sum, u);
    LowHigh(u[j]);
  }

  /** The fields of a fragment's entry as the scan reads them. */
  lemma FragmentRead(s: Name, n: nat, li: nat)
    requires 0 < li <= n <= 20
    ensures var e := FragmentEntry(s, n, li);
      && IsLfn(e) && e[0] != FREE_MARK && e[0] % 32 == li && e[0] / 64 % 2 == (if li == n then 1 else 0)
      && e[13] == Checksum(Name83(s)) && UnitsOf(e) == FragmentOf(s, li)
  {
    hide FragmentOf, UnitAt;
    var (order, sum, u) := (if li == n then li + 64 else li, Checksum(Name83(s)), FragmentOf(s, li));
    var e := LfnEntry(order, sum, u);
    assert e[0] == order && e[11] == ATTR_LFN && e[13] == sum;
    forall j: nat | j < UNITS ensures UnitsOf(e)[j] == u[j] {
      UnitsRead(order, sum, u, j);
    }
  }

  /** The buffer holds fragments `n` to `m + 1` of a name, and zeros behind them. */
  predicate HoldsUnits(buf: seq<nat>, s: Name, n: nat, m: nat)
    requires |buf| == MAX_UNITS + 1 && m <= n <= 20
  {
    && (forall p :: m * UNITS <= p < n * UNITS ==> buf[p] == UnitOf(s, p / UNITS + 1, p % UNITS))
    && (forall p :: n * UNITS <= p < MAX_UNITS ==> buf[p] == 0)
  }

  /** The scan has read fragments `n` to `m + 1` of a name. */
  predicate HasRead(st: Scan, s: Name, n: nat, m: nat)
    requires m <= n <= 20 && st.Valid()
  {
    st.has && st.sum == Checksum(Name83(s)) && HoldsUnits(st.buf, s, n, m)
  }

  lemma PlaceOf(p: nat, li: nat)
    requires 0 < li && (li - 1) * UNITS <= p < li * UNITS
    ensures p / UNITS + 1 == li && p % UNITS == p - (li - 1) * UNITS
  {
  }

  lemma PlacedReads(buf: seq<nat>, s: Name, n: nat, li: nat, e: Entry)
    requires |buf| == MAX_UNITS + 1 && SixteenBit(buf) && 0 < li <= n <= 20 && UnitsOf(e) == FragmentOf(s, li)
    ensures var r := Placed(buf, li, e);
      && (forall p :: (li - 1) * UNITS <= p < li * UNITS ==> r[p] == UnitOf(s, p / UNITS + 1, p % UNITS))
      && (forall p :: 0 <= p < |buf| && !((li - 1) * UNITS <= p < li * UNITS) ==> r[p] == buf[p])
  {
    hide UnitOf, UnitsOf;
    var r := Placed(buf, li, e);
    forall p | (li - 1) * UNITS <= p < li * UNITS ensures r[p] == UnitOf(s, p / UNITS + 1, p % UNITS) {
      PlaceOf(p, li);
      assert r[p] == FragmentOf(s, li)[p - (li - 1) * UNITS];
    }
  }

  lemma PlacedHolds(buf: seq<nat>, s: Name, n: nat, li: nat, e: Entry)
    requires |buf| == MAX_UNITS + 1 && SixteenBit(buf) && 0 < li <= n <= 20 && UnitsOf(e) == FragmentOf(s, li)
    requires HoldsUnits(buf, s, n, li)
    ensures HoldsUnits(Placed(buf, li, e), s, n, li - 1)
  {
    hide UnitOf, UnitsOf, Placed, FragmentOf;
    PlacedReads(buf, s, n, li, e);
  }

  lemma ZerosHold(s: Name, n: nat)
    requires n <= 20
    ensures HoldsUnits(Blank(), s, n, n)
  {
  }

  lemma NextReads(st: Scan, s: Name, n: nat, li: nat)
    requires st.Valid() && 0 < li <= n <= 20 && (li < n ==> HasRead(st, s, n, li))
    ensures HasRead(Next(st, FragmentEntry(s, n, li)), s, n, li - 1)
  {
    hide FragmentEntry, UnitsOf, FragmentOf, Placed, Checksum, HoldsUnits, Name83;
    var e := FragmentEntry(s, n, li);
    FragmentRead(s, n, li);
    ZerosHold(s, n);
    PlacedHolds(if li == n then Blank() else st.buf, s, n, li, e);
  }

  /** Whatever was scanned before, a group's fragments leave the name's units in the buffer. */
  lemma {:induction false} FragmentsRead(st: Scan, entries: seq<Entry>, at: nat, s: Name, n: nat, k: nat)
    requires st.Valid() && 0 < k <= n <= 20 && at + n <= |entries|
    requires entries[at..at + n] == Fragments(s, n, n)
    ensures HasRead(StateAt(st, entries, at + k), s, n, n - k)
    decreases k
  {
    hide HasRead, Next, FragmentEntry, Fragments;
    if k > 1 {
      FragmentsRead(st, entries, at, s, n, k - 1);
    }
    FragmentsAt(s, n, n, k - 1);
    assert entries[at + k - 1] == entries[at..at + n][k - 1];
    NextReads(StateAt(st, entries, at + k - 1), s, n, n - k + 1);
  }

  /** Units that hold the name and an end mark decode to the name. */
  lemma {:induction false} UnitsDecode(src: seq<nat>, s: Name, i: nat)
    requires SixteenBit(src) && Ascii(s) && i <= |s| <= MAX_NAME && |src| == MAX_UNITS
    requires forall p :: 0 <= p < |s| ==> src[p] == s[p]
    requires src[|s|] == 0 || src[|s|] == 0xFFFF
    ensures ToBytes(src, i, s[..i], MAX_NAME + 1) == s
    decreases |s| - i
  {
    if i < |s| {
      assert s[..i] + [s[i]] == s[..i + 1];
      UnitsDecode(src, s, i + 1);
    } else {
      assert s[..i] == s;
    }
  }

  lemma CountCovers(s: Name)
    requires 0 < |s| <= MAX_NAME
    ensures var n := FragmentCount(s); 0 < n <= 20 && (n - 1) * UNITS < |s| <= n * UNITS
  {
  }

  lemma PlaceSplit(p: nat)
    ensures (p / UNITS + 1 - 1) * UNITS + p % UNITS == p && p % UNITS < UNITS
  {
  }

  /** The unit at place `p` is the name's, or what pads it. */
  lemma UnitThere(buf: seq<nat>, s: Name, n: nat, p: nat)
    requires |buf| == MAX_UNITS + 1 && n <= 20 && HoldsUnits(buf, s, n, 0) && p < n * UNITS
    ensures buf[p] == CharAt(s, p) || (CharAt(s, p) == 0 && buf[p] == 0xFFFF)
  {
    hide CharAt;
    PlaceSplit(p);
    assert buf[p] == UnitOf(s, p / UNITS + 1, p % UNITS);
  }

  lemma UnitsHoldName(st: Scan, s: Name)
    requires Ascii(s) && 0 < |s| <= MAX_NAME && st.Valid() && FragmentCount(s) <= 20 && HasRead(st, s, FragmentCount(s), 0)
    ensures forall p :: 0 <= p < |s| ==> st.buf[p] == s[p]
    ensures st.buf[|s|] == 0 || st.buf[|s|] == 0xFFFF
  {
    hide FragmentCount;
    var n := FragmentCount(s);
    CountCovers(s);
    BehindIsZero(st.buf, s, n);
    hide HoldsUnits;
    forall p | 0 <= p < |s| ensures st.buf[p] == s[p] {
      UnitThere(st.buf, s, n, p);
    }
    if |s| < n * UNITS {
      UnitThere(st.buf, s, n, |s|);
    }
  }

  lemma BehindIsZero(buf: seq<nat>, s: Name, n: nat)
    requires |buf| == MAX_UNITS + 1 && n <= 20 && HoldsUnits(buf, s, n, 0)
    ensures forall p :: n * UNITS <= p < MAX_UNITS ==> buf[p] == 0
  {
    hide UnitOf;
  }

  lemma FirstByte(s: Name)
    requires Ascii(s)
    ensures Name83(s)[0] < 0x80
  {
    hide LastDot, Fits83;
    assert |Stem(s)| > 0 ==> Stem(s)[0] == s[0];
  }

  lemma ShortEntry(s: Name, tail: Name)
    requires Ascii(s) && |tail| == 21 && tail[0] / 8 % 2 == 0
    ensures var e: Entry := Name83(s) + tail;
      IsNormal(e) && e[..11] == Name83(s)
  {
    hide Name83, Ascii;
    FirstByte(s);
    var e: Entry := Name83(s) + tail;
    assert e[0] == Name83(s)[0] && e[11] == tail[0];
    NoVolume(tail[0]);
  }

  lemma NoVolume(attr: byte)
    requires attr / 8 % 2 == 0
    ensures attr % 64 != ATTR_LFN
  {
  }

  /** A name read back: the entry group that is written for a name shows that name, exactly when it has
      long-name entries, and up to case when it is an 8.3 entry alone that no long name precedes. */
  lemma GroupShows(st: Scan, entries: seq<Entry>, at: nat, s: Name, tail: Name)
    requires st.Valid()
    requires Ascii(s) && 0 < |s| <= MAX_NAME && |tail| == 21 && tail[0] / 8 % 2 == 0
    requires at + |Group(s, tail)| <= |entries| && entries[at..at + |Group(s, tail)|] == Group(s, tail)
    ensures var i := at + |Group(s, tail)| - 1;
      && IsNormal(entries[i])
      && (UsesLfn(s) ==> VisibleName(StateAt(st, entries, i), entries[i]) == s)
      && (!UsesLfn(s) && !StateAt(st, entries, i).has ==> Upper(VisibleName(StateAt(st, entries, i), entries[i])) == Upper(s))
  {
    hide Fragments, Name83, Upper, Ascii, UsesLfn, StateAt, IsNormal, ShortName, LongName, Group, Scan.Valid;
    GroupLast(entries, at, s, tail);
    ShortEntry(s, tail);
    if UsesLfn(s) {
      LongGroup(st, entries, at, s, tail);
    } else {
      ShortIs(s, tail);
      NoLongHere(StateAt(st, entries, at + |Group(s, tail)| - 1), Name83(s) + tail);
    }
  }

  lemma NoLongHere(r: Scan, e: Entry)
    requires r.Valid()
    ensures !r.has ==> LongName(r, e) == []
  {
  }

  lemma GroupLast(entries: seq<Entry>, at: nat, s: Name, tail: Name)
    requires |s| <= MAX_NAME && |tail| == 21
    requires at + |Group(s, tail)| <= |entries| && entries[at..at + |Group(s, tail)|] == Group(s, tail)
    ensures entries[at + |Group(s, tail)| - 1] == Name83(s) + tail
  {
    hide Fragments, Name83, UsesLfn, FragmentCount;
    var g := Group(s, tail);
    assert entries[at + |g| - 1] == entries[at..at + |g|][|g| - 1];
  }

  lemma FieldOf(s: Name, tail: Name)
    requires |tail| == 21
    ensures (Name83(s) + tail)[..11] == Name83(s)
  {
    hide Name83;
  }

  /** The long name of a group's 8.3 entry is the name. */
  lemma LongGroup(st: Scan, entries: seq<Entry>, at: nat, s: Name, tail: Name)
    requires st.Valid() && Ascii(s) && 0 < |s| <= MAX_NAME && |tail| == 21 && UsesLfn(s)
    requires at + |Group(s, tail)| <= |entries| && entries[at..at + |Group(s, tail)|] == Group(s, tail)
    ensures var i := at + |Group(s, tail)| - 1;
      LongName(StateAt(st, entries, i), entries[i]) == s
  {
    hide HasRead, Name83, Ascii, UsesLfn, StateAt, Scan.Valid, FragmentCount, LongName, Group, Fragments;
    var n := FragmentCount(s);
    CountCovers(s);
    GroupParts(entries, at, s, tail);
    FragmentsRead(st, entries, at, s, n, n);
    FieldOf(s, tail);
    LongIs(StateAt(st, entries, at + n), entries[at + n], s);
  }

  /** A long group in a directory: the fragments, and the 8.3 entry behind them. */
  lemma GroupParts(entries: seq<Entry>, at: nat, s: Name, tail: Name)
    requires 0 < |s| <= MAX_NAME && |tail| == 21 && UsesLfn(s)
    requires at + |Group(s, tail)| <= |entries| && entries[at..at + |Group(s, tail)|] == Group(s, tail)
    ensures FragmentCount(s) <= 20 && |Group(s, tail)| == FragmentCount(s) + 1
    ensures var n := FragmentCount(s);
      entries[at..at + n] == Fragments(s, n, n) && entries[at + n] == Name83(s) + tail
  {
    hide Fragments, Name83, UsesLfn, FragmentCount;
    var (n, g) := (FragmentCount(s), Group(s, tail));
    CountCovers(s);
    assert g[..n] == Fragments(s, n, n) && g[n] == Name83(s) + tail;
    assert entries[at..at + n] == entries[at..at + |g|][..n];
    assert entries[at + n] == entries[at..at + |g|][n];
  }

  lemma LongIs(r: Scan, e: Entry, s: Name)
    requires Ascii(s) && 0 < |s| <= MAX_NAME && r.Valid() && FragmentCount(s) <= 20 && HasRead(r, s, FragmentCount(s), 0)
    requires e[..11] == Name83(s)
    ensures LongName(r, e) == s
  {
    UnitsHoldName(r, s);
    UnitsDecode(r.buf[..MAX_UNITS], s, 0);
    assert s[..0] == [];
  }

  lemma ShortIs(s: Name, tail: Name)
    requires Ascii(s) && |tail| == 21 && !UsesLfn(s)
    ensures Upper(ShortName(Name83(s) + tail)) == Upper(s)
  {
    var e: Entry := Name83(s) + tail;
    assert e[..11] == Name83(s);
    NoNulIn(s);
    NoNul(Shown83(Name83(s)));
  }

  lemma {:induction false} NoNul(s: Name)
    requires 0 !in s
    ensures UntilNul(s) == s
    decreases |s|
  {
    if s != [] {
      NoNul(s[1..]);
    }
  }

  lemma NoNulIn(s: Name)
    requires Ascii(s)
    ensures 0 !in Shown83(Name83(s))
  {
    hide LastDot, Fits83, UntilSpace;
    var raw := Name83(s);
    assert forall i :: 0 <= i < 11 ==> raw[i] != 0;
    assert forall i :: 0 <= i < |raw[..8]| ==> raw[..8][i] == raw[i];
    assert forall i :: 0 <= i < |raw[8..]| ==> raw[8..][i] == raw[8 + i];
  }

  // ---------------------------------------------------------------- a directory of written groups

  /**
   * A name and the rest of its 8.3 entry: attribute, dates, first cluster, size.  Between the
   * files there may be deleted entries, which begin with 0xE5, and volume labels, bit 3 of
   * whose attributes is set without those of a long-name entry.
   */
  datatype File = File(name: Name, tail: Name) | Skipped(entry: Entry)
  {
    predicate Valid() {
      match this
      case File(name, tail) => Ascii(name) && 0 < |name| <= MAX_NAME && |tail| == 21 && tail[0] / 8 % 2 == 0
      case Skipped(e) => e[0] == 0xE5 || (e[11] / 8 % 2 == 1 && e[11] % 64 != 15)
    }

    function Entries(): (g: seq<Entry>)
      requires Valid()
      ensures |g| > 0
    {
      if File? then Group(name, tail) else [entry]
    }
  }

  /** Neither a deleted entry nor a label names a file, nor does it leave a long name under way. */
  lemma SkippedEntry(st: Scan, e: Entry)
    requires st.Valid() && Skipped(e).Valid()
    ensures !IsNormal(e) && Numbered(e) && !Next(st, e).has
  {
    hide Placed;
  }

  predicate AllValid(files: seq<File>) {
    forall k :: 0 <= k < |files| ==> files[k].Valid()
  }

  function Listing(files: seq<File>): seq<Entry>
    requires AllValid(files)
  {
    if files == [] then []
    else Listing(files[..|files| - 1]) + files[|files| - 1].Entries()
  }

  lemma {:induction false} ListingPrefix(files: seq<File>, k: nat)
    requires AllValid(files) && k <= |files|
    ensures |Listing(files[..k])| <= |Listing(files)|
    ensures Listing(files)[..|Listing(files[..k])|] == Listing(files[..k])
    decreases |files| - k
  {
    hide Group;
    if k == |files| {
      assert files[..k] == files;
    } else {
      ListingPrefix(files, k + 1);
      assert files[..k + 1][..k] == files[..k];
    }
  }

  /** Long-name entries carry order numbers from 1 on. */
  predicate Numbered(e: Entry) {
    e[0] != FREE_MARK && IsLfn(e) ==> e[0] % 32 > 0
  }

  predicate AllNumbered(entries: seq<Entry>) {
    forall j :: 0 <= j < |entries| ==> Numbered(entries[j])
  }

  /** Then the scan stays within its buffer, whatever it looks for. */
  lemma NumberedInBounds(st: Scan, entries: seq<Entry>, name: Name)
    requires st.Valid() && AllNumbered(entries)
    ensures InBounds(st, entries, name)
  {
    forall j | 0 <= j < |entries|
      ensures !WritesOutside(StateAt(st, entries, j), entries[j])
    {
      assert Numbered(entries[j]);
    }
  }

  /** A single entry with order byte 0x40, which begins a name, makes the code write in front of its buffer. */
  lemma OrderZero(st: Scan, e: Entry, name: Name)
    requires st.Valid() && e[0] == 0x40 && e[11] == ATTR_LFN
    ensures !InBounds(st, [e], name)
  {
    hide Next, Matches;
    assert WritesOutside(StateAt(st, [e], 0), [e][0]);
  }

  lemma GroupNumbered(s: Name, tail: Name)
    requires File(s, tail).Valid()
    ensures AllNumbered(Group(s, tail))
  {
    hide Fragments, FragmentEntry, Name83, UsesLfn, FragmentCount, Numbered, IsNormal;
    var (g, n) := (Group(s, tail), FragmentCount(s));
    CountCovers(s);
    ShortEntry(s, tail);
    NormalNumbered(Name83(s) + tail);
    forall j | 0 <= j < |g| ensures Numbered(g[j]) {
      if j < |g| - 1 {
        FragmentsAt(s, n, n, j);
        assert g[j] == FragmentEntry(s, n, n - j);
        FragmentRead(s, n, n - j);
        NumberedIs(g[j]);
      }
    }
  }

  lemma NormalNumbered(e: Entry)
    requires IsNormal(e)
    ensures Numbered(e)
  {
  }

  lemma NumberedIs(e: Entry)
    requires e[0] % 32 > 0
    ensures Numbered(e)
  {
  }

  lemma EntriesNumbered(f: File)
    requires f.Valid()
    ensures AllNumbered(f.Entries())
  {
    hide Group, Numbered;
    if f.File? {
      GroupNumbered(f.name, f.tail);
    } else {
      SkippedEntry(Scan(false, 0, Blank()), f.entry);
    }
  }

  /** A cleared buffer. */
  function Blank(): (buf: seq<nat>)
    ensures |buf| == MAX_UNITS + 1 && SixteenBit(buf)
  {
    seq(MAX_UNITS + 1, i => 0)
  }

  lemma {:induction false} ListingNumbered(files: seq<File>)
    requires AllValid(files)
    ensures AllNumbered(Listing(files))
    decreases |files|
  {
    hide Group, Numbered;
    if files != [] {
      ListingNumbered(files[..|files| - 1]);
      EntriesNumbered(files[|files| - 1]);
    }
  }

  /** Where the entries of file `k` begin, and where its 8.3 entry is. */
  function StartOf(files: seq<File>, k: nat): nat
    requires AllValid(files) && k <= |files|
  {
    |Listing(files[..k])|
  }

  function EntryOf(files: seq<File>, k: nat): int
    requires AllValid(files) && k < |files|
  {
    StartOf(files, k + 1) - 1
  }

  /** File `k`'s entries in the listing. */
  lemma GroupOf(files: seq<File>, k: nat)
    requires AllValid(files) && k < |files|
    ensures var g := files[k].Entries();
      && EntryOf(files, k) == StartOf(files, k) + |g| - 1 < |Listing(files)|
      && Listing(files)[StartOf(files, k)..StartOf(files, k) + |g|] == g
  {
    hide Group;
    var (all, at, g) := (Listing(files), StartOf(files, k), files[k].Entries());
    ListingPrefix(files, k + 1);
    ListingPrefix(files[..k + 1], k);
    assert files[..k + 1][..k] == files[..k];
    assert Listing(files[..k + 1]) == Listing(files[..k]) + g;
    assert all[at..at + |g|] == all[..at + |g|][at..] == g;
  }

  lemma {:induction false} EntriesInOrder(files: seq<File>, j: nat, k: nat)
    requires AllValid(files) && j < k < |files|
    ensures EntryOf(files, j) < EntryOf(files, k)
    decreases k
  {
    hide Group, Listing;
    GroupOf(files, k);
    if j < k - 1 {
      EntriesInOrder(files, j, k - 1);
    }
  }

  /** A file goes by its own name, and by what its 8.3 field shows when it has a long name as well; up to case. */
  predicate GoesBy(f: File, name: Name) {
    f.File? && (
      || Upper(f.name) == Upper(name)
      || (UsesLfn(f.name) && Upper(Shown83(Name83(f.name))) == Upper(name)))
  }

  lemma LongMatches(r: Scan, e: Entry, s: Name, shown: Name, name: Name)
    requires r.Valid() && LongName(r, e) == s && s != [] && ShortName(e) == shown
    ensures Matches(r, e, name) <==> Upper(s) == Upper(name) || Upper(shown) == Upper(name)
  {
    hide LongName, ShortName, Upper;
  }

  lemma ShortMatches(r: Scan, e: Entry, shown: Name, name: Name)
    requires r.Valid() && !r.has && ShortName(e) == shown
    ensures Matches(r, e, name) <==> Upper(shown) == Upper(name)
  {
    hide ShortName, Upper;
    ShortAlone(r, e);
  }

  /** The 8.3 entry of a file is a hit exactly when the file goes by the name. */
  lemma HitIsName(st: Scan, files: seq<File>, k: nat, name: Name)
    requires st.Valid() && !st.has && AllValid(files) && k < |files|
    ensures 0 <= EntryOf(files, k) < |Listing(files)|
    ensures Hit(st, Listing(files), EntryOf(files, k), name) <==> GoesBy(files[k], name)
  {
    hide Group, StateAt, Upper, IsNormal, ShortName, UsesLfn, LongName, Listing, Matches, Name83, Shown83, EntryOf, StartOf;
    GroupOf(files, k);
    if files[k].File? {
      HitIsFileName(st, files, k, name);
    } else {
      var (all, i) := (Listing(files), EntryOf(files, k));
      assert all[i] == all[StartOf(files, k)..StartOf(files, k) + 1][0];
      SkippedEntry(st, files[k].entry);
    }
  }

  lemma HitIsFileName(st: Scan, files: seq<File>, k: nat, name: Name)
    requires st.Valid() && !st.has && AllValid(files) && k < |files| && files[k].File?
    requires 0 <= EntryOf(files, k) < |Listing(files)|
    ensures Hit(st, Listing(files), EntryOf(files, k), name) <==> GoesBy(files[k], name)
  {
    hide Group, StateAt, Upper, IsNormal, ShortName, UsesLfn, LongName, Listing, Matches, Name83, Shown83, EntryOf, StartOf;
    var (all, s, tail, i) := (Listing(files), files[k].name, files[k].tail, EntryOf(files, k));
    var at := StartOf(files, k);
    GroupOf(files, k);
    GroupLast(all, at, s, tail);
    ShortEntry(s, tail);
    ShortShown(s, tail);
    if UsesLfn(s) {
      LongGroup(st, all, at, s, tail);
      LongMatches(StateAt(st, all, i), all[i], s, Shown83(Name83(s)), name);
    } else {
      GroupOfOne(s, tail);
      NoLongName(st, files, k);
      ShortMatches(StateAt(st, all, i), all[i], Shown83(Name83(s)), name);
      ShownIs(s);
    }
  }

  lemma ShownIs(s: Name)
    requires !UsesLfn(s)
    ensures Upper(Shown83(Name83(s))) == Upper(s)
  {
  }

  lemma GroupEnd(s: Name, tail: Name)
    requires |s| <= MAX_NAME && |tail| == 21
    ensures Group(s, tail)[|Group(s, tail)| - 1] == Name83(s) + tail
  {
  }

  lemma ShortAlone(r: Scan, e: Entry)
    requires r.Valid() && !r.has
    ensures LongName(r, e) == [] && VisibleName(r, e) == ShortName(e)
  {
  }

  lemma ShortShown(s: Name, tail: Name)
    requires Ascii(s) && |tail| == 21
    ensures ShortName(Name83(s) + tail) == Shown83(Name83(s))
  {
    hide Name83, Shown83;
    var e: Entry := Name83(s) + tail;
    assert e[..11] == Name83(s);
    NoNulIn(s);
    NoNul(Shown83(Name83(s)));
  }

  /** Nothing but the 8.3 entries of the files is a hit. */
  lemma {:induction false} HitIsFile(st: Scan, files: seq<File>, i: nat, name: Name) returns (k: nat)
    requires st.Valid() && AllValid(files) && i < |Listing(files)| && Hit(st, Listing(files), i, name)
    ensures k < |files| && EntryOf(files, k) == i
  {
    hide Group, StateAt, Matches, IsNormal, Listing;
    assert files[..|files|] == files;
    k := FileAt(files, i, |files|);
    GroupOf(files, k);
    var at := StartOf(files, k);
    if i < EntryOf(files, k) {
      assert Listing(files)[i] == Listing(files)[at..at + |files[k].Entries()|][i - at];
      FragmentNotNormal(files[k].name, files[k].tail, i - at);
      assert false;
    }
  }

  lemma StartsAtZero(files: seq<File>)
    requires AllValid(files)
    ensures StartOf(files, 0) == 0
  {
  }

  /** The file whose entries hold place `i`. */
  lemma {:induction false} FileAt(files: seq<File>, i: nat, n: nat) returns (k: nat)
    requires AllValid(files) && n <= |files| && i < StartOf(files, n)
    ensures k < n && StartOf(files, k) <= i <= EntryOf(files, k)
    decreases n
  {
    hide Group;
    StartsAtZero(files);
    if i < StartOf(files, n - 1) {
      k := FileAt(files, i, n - 1);
    } else {
      k := n - 1;
    }
  }

  lemma FragmentNotNormal(s: Name, tail: Name, j: nat)
    requires File(s, tail).Valid() && j < |Group(s, tail)| - 1
    ensures !IsNormal(Group(s, tail)[j])
  {
    hide Fragments, FragmentEntry, Name83, UsesLfn, FragmentCount;
    var n := FragmentCount(s);
    CountCovers(s);
    FragmentsAt(s, n, n, j);
    FragmentRead(s, n, n - j);
  }

  /** A look-up in a directory of written groups finds the first file that goes by the name, whatever lies between. */
  lemma LookUp(st: Scan, files: seq<File>, name: Name, found: Option<nat>)
    requires st.Valid() && !st.has && AllValid(files) && FirstHit(st, Listing(files), name, found)
    ensures match found
      case Some(i) => exists k :: 0 <= k < |files| && i == EntryOf(files, k) && GoesBy(files[k], name) &&
                                  forall j :: 0 <= j < k ==> !GoesBy(files[j], name)
      case None => forall k :: 0 <= k < |files| ==> !GoesBy(files[k], name)
  {
    hide Hit, GoesBy, Listing, EntryOf;
    forall k | 0 <= k < |files|
      ensures 0 <= EntryOf(files, k) < |Listing(files)|
      ensures Hit(st, Listing(files), EntryOf(files, k), name) <==> GoesBy(files[k], name)
    {
      HitIsName(st, files, k, name);
    }
    if found.Some? {
      var k := HitIsFile(st, files, found.value, name);
      forall j | 0 <= j < k
        ensures !GoesBy(files[j], name)
      {
        EntriesInOrder(files, j, k);
      }
    }
  }

  /**
   * The look-up of a file's own name finds that file exactly when no file in front of it goes by
   * the same name: has it, up to case, or shows it as the 8.3 alias of a longer one.
   */
  lemma FindsOwn(st: Scan, files: seq<File>, k: nat, found: Option<nat>)
    requires st.Valid() && !st.has && AllValid(files) && k < |files| && files[k].File?
    requires FirstHit(st, Listing(files), files[k].name, found)
    ensures found == Some(EntryOf(files, k)) <==> forall j :: 0 <= j < k ==> !GoesBy(files[j], files[k].name)
  {
    hide FirstHit, Listing, EntryOf, AllValid;
    LookUp(st, files, files[k].name, found);
    assert GoesBy(files[k], files[k].name);
    hide GoesBy;
    if found.Some? {
      var i :| 0 <= i < |files| && found.value == EntryOf(files, i) && GoesBy(files[i], files[k].name) &&
               forall j :: 0 <= j < i ==> !GoesBy(files[j], files[k].name);
      if i < k {
        EntriesInOrder(files, i, k);
      }
    }
  }

  const FOO_BAR: Name := [102, 111, 111, 32, 98, 97, 114, 46, 116, 120, 116]   // "foo bar.txt"
  const FOO: Name := [102, 111, 111, 46, 116, 120, 116]                       // "foo.txt"

  /** The 8.3 field of "foo bar.txt" shows FOO.TXT, so that it is found for a later "foo.txt". */
  lemma AliasShadows(st: Scan, tail: Name, tail': Name, found: Option<nat>)
    requires st.Valid() && !st.has && File(FOO_BAR, tail).Valid() && File(FOO, tail').Valid()
    requires FirstHit(st, Listing([File(FOO_BAR, tail), File(FOO, tail')]), FOO, found)
    ensures found == Some(EntryOf([File(FOO_BAR, tail), File(FOO, tail')], 0)) &&
      found != Some(EntryOf([File(FOO_BAR, tail), File(FOO, tail')], 1))
  {
    hide FirstHit, Listing, EntryOf;
    var files := [File(FOO_BAR, tail), File(FOO, tail')];
    AliasIsFoo();
    assert GoesBy(files[0], FOO);
    LookUp(st, files, FOO, found);
    EntriesInOrder(files, 0, 1);
    hide GoesBy;
    var k :| 0 <= k < |files| && found == Some(EntryOf(files, k)) && forall j :: 0 <= j < k ==> !GoesBy(files[j], FOO);
    assert k == 0;
  }

  lemma AliasIsFoo()
    ensures UsesLfn(FOO_BAR) && Upper(Shown83(Name83(FOO_BAR))) == Upper(FOO)
  {
    hide Name83, Shown83, Upper;
    FooField();
    FooShown();
    UpperOf([70, 79, 79, 46, 84, 88, 84], FOO);
    assert |Upper(FOO)| != |Upper(FOO_BAR)|;
  }

  lemma UpperOf(u: Name, s: Name)
    requires |u| == |s| && forall i :: 0 <= i < |s| ==> ToUpper(u[i]) == ToUpper(s[i])
    ensures Upper(u) == Upper(s)
  {
  }

  lemma FooParts()
    ensures Stem(FOO_BAR) == [102, 111, 111, 32, 98, 97, 114] && Extension(FOO_BAR) == [116, 120, 116]
  {
    hide LastDot;
    assert FOO_BAR[7] == DOT && LastDot(FOO_BAR) == 7;
  }

  lemma FooField()
    ensures Name83(FOO_BAR) == [70, 79, 79, 32, 66, 65, 82, 32, 84, 88, 84]
  {
    hide Stem, Extension, LastDot;
    FooParts();
    assert Upper([102, 111, 111, 32, 98, 97, 114]) == [70, 79, 79, 32, 66, 65, 82];
    assert Upper([116, 120, 116]) == [84, 88, 84];
    assert Spaces(1) == [SPACE] && Spaces(0) == [];
  }

  lemma FooShown()
    ensures Shown83([70, 79, 79, 32, 66, 65, 82, 32, 84, 88, 84]) == [70, 79, 79, 46, 84, 88, 84]
  {
    hide UntilSpace;
    FirstSpace([70, 79, 79, 32, 66, 65, 82, 32], 3);
    FirstSpace([84, 88, 84], 3);
    assert [70, 79, 79, 32, 66, 65, 82, 32, 84, 88, 84][..8] == [70, 79, 79, 32, 66, 65, 82, 32];
    assert [70, 79, 79, 32, 66, 65, 82, 32, 84, 88, 84][8..] == [84, 88, 84];
  }

  lemma Inside(r: Name, n: nat)
    requires n < |r| && SPACE !in r
    ensures r[n] != SPACE
  {
  }

  lemma FirstSpace(s: Name, n: nat)
    requires n <= |s| && (n < |s| ==> s[n] == SPACE) && forall i :: 0 <= i < n ==> s[i] != SPACE
    ensures UntilSpace(s) == s[..n]
  {
    hide UntilSpace;
    var r := UntilSpace(s);
    if n < |r| {
      Inside(r, n);
    }
  }

  /** In a directory of written groups every file's 8.3 entry is a hit for its name. */
  lemma EveryNameHits(st: Scan, files: seq<File>, k: nat)
    requires st.Valid() && !st.has && AllValid(files) && k < |files| && files[k].File?
    ensures AllNumbered(Listing(files))
    ensures 0 <= EntryOf(files, k) < |Listing(files)| && Hit(st, Listing(files), EntryOf(files, k), files[k].name)
  {
    hide Hit, Listing;
    ListingNumbered(files);
    HitIsName(st, files, k, files[k].name);
  }

  lemma GroupOfOne(s: Name, tail: Name)
    requires |s| <= MAX_NAME && |tail| == 21 && !UsesLfn(s)
    ensures |Group(s, tail)| == 1
  {
  }

  /** No long name is under way where a group begins. */
  lemma NoLongName(st: Scan, files: seq<File>, k: nat)
    requires st.Valid() && !st.has && AllValid(files) && k < |files|
    ensures StartOf(files, k) <= |Listing(files)| && !StateAt(st, Listing(files), StartOf(files, k)).has
  {
    hide Next, Listing;
    ListingPrefix(files, k);
    StartsAtZero(files);
    if k > 0 {
      BeforeGroup(files, k);
      LastEntry(StateAt(st, Listing(files), StartOf(files, k) - 1), files[k - 1]);
    }
  }

  /** The entry in front of file `k` is the last of file `k - 1`. */
  lemma BeforeGroup(files: seq<File>, k: nat)
    requires AllValid(files) && 0 < k < |files|
    ensures var (at, g) := (StartOf(files, k), files[k - 1].Entries());
      0 < at <= |Listing(files)| && Listing(files)[at - 1] == g[|g| - 1]
  {
    hide Group, Listing;
    GroupOf(files, k - 1);
    var (at, g) := (StartOf(files, k - 1), files[k - 1].Entries());
    assert Listing(files)[at..at + |g|][|g| - 1] == Listing(files)[at + |g| - 1];
  }

  /** Behind the entries of a file, or a skipped one, no long name is under way. */
  lemma LastEntry(r: Scan, f: File)
    requires r.Valid() && f.Valid()
    ensures !Next(r, f.Entries()[|f.Entries()| - 1]).has
  {
    hide Group, Name83, Placed;
    if f.File? {
      GroupEnd(f.name, f.tail);
      ShortEntry(f.name, f.tail);
    } else {
      SkippedEntry(r, f.entry);
    }
  }
}
