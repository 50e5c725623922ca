/** Entries of a file allocation table as bytes: 12, 16 and 32 bits wide. */
module FatEntries {
  import opened Common

  datatype Kind = Fat12 | Fat16 | Fat32

  const EOC := 0x0FFF_FFF8
  const BAD := 0x0FFF_FFF7
  const FREE := 0
  const MASK28 := 0x1000_0000              // one more than FAT32_MASK

  /** The byte offset of the entry of cluster `c`. */
  function Offset(k: Kind, c: nat): nat {
    match k
    case Fat12 => c + c / 2
    case Fat16 => c * 2
    case Fat32 => c * 4
  }

  function Width(k: Kind): nat {
    if k == Fat32 then 4 else 2
  }

  predicate InTable(k: Kind, fat: seq<byte>, c: nat) {
    Offset(k, c) + Width(k) <= |fat|
  }

  function Le16(b: seq<byte>, i: nat): (v: nat)
    requires i + 2 <= |b|
    ensures v < 0x1_0000
  {
    (b[i] as int) + 256 * (b[i + 1] as int)
  }

  function Le32(b: seq<byte>, i: nat): (v: nat)
    requires i + 4 <= |b|
    ensures v < 0x1_0000_0000
  {
    Le16(b, i) + 0x1_0000 * Le16(b, i + 2)
  }

  function Put16(b: seq<byte>, i: nat, v: nat): (r: seq<byte>)
    requires i + 2 <= |b| && v < 0x1_0000
    ensures |r| == |b|
  {
    b[i := v % 256][i + 1 := v / 256]
  }

  function Put32(b: seq<byte>, i: nat, v: nat): (r: seq<byte>)
    requires i + 4 <= |b| && v < 0x1_0000_0000
    ensures |r| == |b|
  {
    Put16(Put16(b, i, v % 0x1_0000), i + 2, v / 0x1_0000)
  }

  /** The entry as `fat_get_entry` reports it, given the bytes at its offset. */
  function Decode(k: Kind, c: nat, raw: nat): nat {
    match k
    case Fat12 =>
      var v := if c % 2 == 1 then raw % 0x1_0000 / 16 else raw % 0x1000;
      if v >= 0xFF8 then EOC else v
    case Fat16 => if raw >= 0xFFF8 then EOC else raw
    case Fat32 => raw % MASK28
  }

  /** The bytes `fat_set_entry` stores over `raw` for a 32-bit value. */
  function Encode(k: Kind, c: nat, raw: nat, value: nat): (r: nat)
    requires value < 0x1_0000_0000 && raw < if k == Fat32 then 0x1_0000_0000 else 0x1_0000
    ensures r < if k == Fat32 then 0x1_0000_0000 else 0x1_0000
  {
    match k
    case Fat12 =>
      var v12 := if value >= EOC then 0xFF8 else value % 0x1000;
      if c % 2 == 1 then raw % 16 + v12 * 16 else raw / 0x1000 * 0x1000 + v12
    case Fat16 => if value >= EOC then 0xFFFF else value % 0x1_0000
    case Fat32 => raw / MASK28 * MASK28 + value % MASK28
  }

  function RawAt(k: Kind, fat: seq<byte>, i: nat): (v: nat)
    requires i + Width(k) <= |fat|
    ensures v < if k == Fat32 then 0x1_0000_0000 else 0x1_0000
  {
    if k == Fat32 then Le32(fat, i) else Le16(fat, i)
  }

  function PutRaw(k: Kind, fat: seq<byte>, i: nat, v: nat): (r: seq<byte>)
    requires i + Width(k) <= |fat| && v < if k == Fat32 then 0x1_0000_0000 else 0x1_0000
    ensures |r| == |fat|
  {
    if k == Fat32 then Put32(fat, i, v) else Put16(fat, i, v)
  }

  /** The entry of cluster `c` in a table of bytes. */
  function Get(k: Kind, fat: seq<byte>, c: nat): nat
    requires InTable(k, fat, c)
  {
    Decode(k, c, RawAt(k, fat, Offset(k, c)))
  }

  /** The table with the entry of cluster `c` set. */
  function Set(k: Kind, fat: seq<byte>, c: nat, value: nat): (r: seq<byte>)
    requires InTable(k, fat, c) && value < 0x1_0000_0000
    ensures |r| == |fat|
  {
    PutRaw(k, fat, Offset(k, c), Encode(k, c, RawAt(k, fat, Offset(k, c)), value))
  }

  /** What a stored value reads back as: end-of-chain values collapse, others lose high bits. */
  function Norm(k: Kind, value: nat): nat {
    match k
    case Fat12 => if value >= EOC || value % 0x1000 >= 0xFF8 then EOC else value % 0x1000
    case Fat16 => if value >= EOC || value % 0x1_0000 >= 0xFFF8 then EOC else value % 0x1_0000
    case Fat32 => value % MASK28
  }

  /** The cluster numbers a table of this kind can hold. */
  predicate Storable(k: Kind, value: nat) {
    value == EOC || value < match k case Fat12 => 0xFF8 case Fat16 => 0xFFF8 case Fat32 => MASK28
  }

  // ---------------------------------------------------------------- bytes

  lemma Le16Put(b: seq<byte>, i: nat, v: nat)
    requires i + 2 <= |b| && v < 0x1_0000
    ensures Le16(Put16(b, i, v), i) == v
  {
  }

  lemma RawPut(k: Kind, b: seq<byte>, i: nat, v: nat)
    requires i + Width(k) <= |b| && v < if k == Fat32 then 0x1_0000_0000 else 0x1_0000
    ensures RawAt(k, PutRaw(k, b, i, v), i) == v
    ensures forall j :: 0 <= j < |b| && !(i <= j < i + Width(k)) ==> PutRaw(k, b, i, v)[j] == b[j]
  {
    if k == Fat32 {
      Le16Put(b, i, v % 0x1_0000);
      Le16Put(Put16(b, i, v % 0x1_0000), i + 2, v / 0x1_0000);
    } else {
      Le16Put(b, i, v);
    }
  }

  lemma DecodeEncode(k: Kind, c: nat, raw: nat, value: nat)
    requires value < 0x1_0000_0000 && raw < if k == Fat32 then 0x1_0000_0000 else 0x1_0000
    ensures Decode(k, c, Encode(k, c, raw, value)) == Norm(k, value)
  {
    hide Decode, Encode, Norm;
    match k
    case Fat12 => DecodeEncode12(c, raw, value);
    case Fat16 => DecodeEncode16(c, raw, value);
    case Fat32 => DecodeEncode32(c, raw, value);
  }

  lemma DecodeEncode12(c: nat, raw: nat, value: nat)
    requires value < 0x1_0000_0000 && raw < 0x1_0000
    ensures Decode(Fat12, c, Encode(Fat12, c, raw, value)) == Norm(Fat12, value)
  {
  }

  lemma DecodeEncode16(c: nat, raw: nat, value: nat)
    requires value < 0x1_0000_0000 && raw < 0x1_0000
    ensures Decode(Fat16, c, Encode(Fat16, c, raw, value)) == Norm(Fat16, value)
  {
  }

  lemma DecodeEncode32(c: nat, raw: nat, value: nat)
    requires value < 0x1_0000_0000 && raw < 0x1_0000_0000
    ensures Decode(Fat32, c, Encode(Fat32, c, raw, value)) == Norm(Fat32, value)
  {
  }

  /** Reading a set entry gives the stored value's class. */
  lemma GetSet(k: Kind, fat: seq<byte>, c: nat, value: nat)
    requires InTable(k, fat, c) && value < 0x1_0000_0000
    ensures Get(k, Set(k, fat, c, value), c) == Norm(k, value)
  {
    var (i, raw) := (Offset(k, c), RawAt(k, fat, Offset(k, c)));
    RawPut(k, fat, i, Encode(k, c, raw, value));
    DecodeEncode(k, c, raw, value);
  }

  /** Cluster numbers, FREE and end-of-chain survive exactly. */
  lemma NormStorable(k: Kind, value: nat)
    requires Storable(k, value)
    ensures Norm(k, value) == value
  {
  }

  /** Setting an entry leaves every other entry as it was, even one that shares a byte with it. */
  lemma GetSetOther(k: Kind, fat: seq<byte>, c: nat, d: nat, value: nat)
    requires InTable(k, fat, c) && InTable(k, fat, d) && c != d && value < 0x1_0000_0000
    ensures Get(k, Set(k, fat, c, value), d) == Get(k, fat, d)
  {
    hide Get, Set;
    if k == Fat12 && c % 2 == 0 && d == c + 1 {
      SetSparesHigh(fat, c, value);
    } else if k == Fat12 && d % 2 == 0 && c == d + 1 {
      SetSparesLow(fat, c, value);
    } else {
      SetSparesApart(k, fat, c, d, value);
    }
  }

  lemma SetSparesHigh(fat: seq<byte>, c: nat, value: nat)
    requires InTable(Fat12, fat, c) && InTable(Fat12, fat, c + 1) && c % 2 == 0 && value < 0x1_0000_0000
    ensures Get(Fat12, Set(Fat12, fat, c, value), c + 1) == Get(Fat12, fat, c + 1)
  {
    hide Encode;
    var (i, raw) := (Offset(Fat12, c), RawAt(Fat12, fat, Offset(Fat12, c)));
    var v := Encode(Fat12, c, raw, value);
    HighNibbleKept(fat[i], fat[i + 1], value, c);
    PutBytes(fat, i, v);
    HighNibble(fat[i + 1], v / 256, fat[i + 2]);
  }

  lemma SetSparesLow(fat: seq<byte>, c: nat, value: nat)
    requires InTable(Fat12, fat, c) && c % 2 == 1 && value < 0x1_0000_0000
    ensures InTable(Fat12, fat, c - 1) && Get(Fat12, Set(Fat12, fat, c, value), c - 1) == Get(Fat12, fat, c - 1)
  {
    hide Encode;
    var (i, raw) := (Offset(Fat12, c), RawAt(Fat12, fat, Offset(Fat12, c)));
    var v := Encode(Fat12, c, raw, value);
    LowNibbleKept(fat[i], fat[i + 1], value, c);
    PutBytes(fat, i, v);
    LowNibble(fat[i - 1], fat[i], v % 256);
  }

  lemma SetSparesApart(k: Kind, fat: seq<byte>, c: nat, d: nat, value: nat)
    requires InTable(k, fat, c) && InTable(k, fat, d) && c != d && value < 0x1_0000_0000
    requires !(k == Fat12 && (if c < d then c % 2 == 0 && d == c + 1 else d % 2 == 0 && c == d + 1))
    ensures Get(k, Set(k, fat, c, value), d) == Get(k, fat, d)
  {
    hide Encode, PutRaw, Decode;
    RawPut(k, fat, Offset(k, c), Encode(k, c, RawAt(k, fat, Offset(k, c)), value));
    EntriesApart(k, c, d);
    hide Offset;
  }

  lemma EntriesApart(k: Kind, c: nat, d: nat)
    requires c != d && !(k == Fat12 && (if c < d then c % 2 == 0 && d == c + 1 else d % 2 == 0 && c == d + 1))
    ensures Offset(k, c) + Width(k) <= Offset(k, d) || Offset(k, d) + Width(k) <= Offset(k, c)
  {
  }

  lemma PutBytes(fat: seq<byte>, i: nat, v: nat)
    requires i + 2 <= |fat| && v < 0x1_0000
    ensures PutRaw(Fat12, fat, i, v)[i] == v % 256 && PutRaw(Fat12, fat, i, v)[i + 1] == v / 256
  {
  }

  /** The low nibble of the first byte belongs to the entry before an odd one. */
  lemma LowNibbleKept(lo: int, hi: int, value: nat, c: nat)
    requires 0 <= lo < 256 && 0 <= hi < 256 && value < 0x1_0000_0000 && c % 2 == 1
    ensures Encode(Fat12, c, lo + 256 * hi, value) % 256 % 16 == lo % 16
  {
    var v12 := if value >= EOC then 0xFF8 else value % 0x1000;
    assert (lo + 256 * hi) % 16 == lo % 16;
    assert (lo % 16 + v12 * 16) % 16 == lo % 16;
  }

  /** The high nibble of the second byte belongs to the entry after an even one. */
  lemma HighNibbleKept(lo: int, hi: int, value: nat, c: nat)
    requires 0 <= lo < 256 && 0 <= hi < 256 && value < 0x1_0000_0000 && c % 2 == 0
    ensures Encode(Fat12, c, lo + 256 * hi, value) / 256 / 16 == hi / 16
  {
    var v12 := if value >= EOC then 0xFF8 else value % 0x1000;
    assert (lo + 256 * hi) / 0x1000 == hi / 16;
    assert (hi / 16 * 0x1000 + v12) / 0x1000 == hi / 16;
  }

  lemma HighNibble(b: int, b': int, next: int)
    requires 0 <= b < 256 && 0 <= b' < 256 && b / 16 == b' / 16 && 0 <= next < 256
    ensures (b + 256 * next) % 0x1_0000 / 16 == (b' + 256 * next) % 0x1_0000 / 16
  {
    assert (b + 256 * next) % 0x1_0000 == b + 256 * next;
    assert (b' + 256 * next) % 0x1_0000 == b' + 256 * next;
    assert (b + 256 * next) / 16 == b / 16 + 16 * next;
    assert (b' + 256 * next) / 16 == b' / 16 + 16 * next;
  }

  lemma LowNibble(prev: int, b: int, b': int)
    requires 0 <= b < 256 && 0 <= b' < 256 && b % 16 == b' % 16 && 0 <= prev < 256
    ensures (prev + 256 * b) % 0x1000 == (prev + 256 * b') % 0x1000
  {
    assert (prev + 256 * b) % 0x1000 == prev + 256 * (b % 16);
    assert (prev + 256 * b') % 0x1000 == prev + 256 * (b' % 16);
  }
}
