/** Samples of 1, 2 or 4 bits packed into bytes, leftmost in the high bits (section 2.3 of RFC 2083). */
module PackedSamples {
  import opened Common
  import opened NumberBits

  predicate Depth(depth: nat) {
    depth == 1 || depth == 2 || depth == 4
  }

  /** One more than the largest sample. */
  function Levels(depth: nat): (b: nat)
    requires Depth(depth)
    ensures b >= 2
  {
    if depth == 1 then 2 else if depth == 2 then 4 else 16
  }

  /** How many samples a byte holds. */
  function Per(depth: nat): nat
    requires Depth(depth)
  {
    if depth == 1 then 8 else if depth == 2 then 4 else 2
  }

  /** The bits in front of sample `x`. */
  function BitOffset(x: nat, depth: nat): nat
    requires Depth(depth)
  {
    if depth == 1 then x else if depth == 2 then 2 * x else 4 * x
  }

  function RowBytes(n: nat, depth: nat): nat
    requires Depth(depth)
  {
    (BitOffset(n, depth) + 7) / 8
  }

  predicate Samples(s: seq<nat>, depth: nat)
    requires Depth(depth)
  {
    forall i :: 0 <= i < |s| ==> s[i] < Levels(depth)
  }

  function SampleAt(s: seq<nat>, i: nat): nat {
    if i < |s| then s[i] else 0
  }

  /** The number with digits `s[i]`, ..., `s[i + n - 1]` in base `b`, most significant first. */
  function Digits(s: seq<nat>, i: nat, n: nat, b: nat): nat {
    if n == 0 then 0 else Digits(s, i, n - 1, b) * b + SampleAt(s, i + n - 1)
  }

  function Pow(b: nat, n: nat): nat {
    if n == 0 then 1 else Pow(b, n - 1) * b
  }

  lemma {:induction false} DigitsBound(s: seq<nat>, i: nat, n: nat, b: nat)
    requires b > 0 && forall j :: 0 <= j < |s| ==> s[j] < b
    ensures Digits(s, i, n, b) < Pow(b, n)
    decreases n
  {
    if n > 0 {
      DigitsBound(s, i, n - 1, b);
      NextDigit(Digits(s, i, n - 1, b), Pow(b, n - 1), SampleAt(s, i + n - 1), b);
    }
  }

  lemma NextDigit(x: nat, p: nat, d: nat, b: nat)
    requires x < p && d < b
    ensures x * b + d < p * b
  {
    assert (p - x) * b >= b by {
      MulAtLeast(p - x, b);
    }
  }

  /** A number without its `m` low digits in base `b`. */
  function DropDigits(v: nat, b: nat, m: nat): nat
    requires b > 0
    decreases m
  {
    if m == 0 then v else QuotientNat(v, b); DropDigits(v / b, b, m - 1)
  }

  lemma QuotientNat(v: nat, b: nat)
    requires b > 0
    ensures v / b >= 0
  {
    assert v == b * (v / b) + v % b;
    var q := v / b;
    if q < 0 {
      MulAtLeast(-q, b);
    }
  }

  lemma {:induction false} DigitBack(s: seq<nat>, i: nat, n: nat, b: nat, j: nat)
    requires b > 0 && (forall k :: 0 <= k < |s| ==> s[k] < b) && j < n
    ensures DropDigits(Digits(s, i, n, b), b, n - 1 - j) % b == SampleAt(s, i + j)
    decreases n
  {
    var (x, d) := (Digits(s, i, n - 1, b), SampleAt(s, i + n - 1));
    ModIs(x * b + d, x, b, d);
    if j < n - 1 {
      QuotientIs(x, d, b);
      DigitBack(s, i, n - 1, b, j);
    }
  }

  lemma QuotientIs(x: nat, d: nat, b: nat)
    requires d < b
    ensures (x * b + d) / b == x
  {
    var v := x * b + d;
    ModIs(v, x, b, d);
    assert v == b * (v / b) + v % b;
    SameFactor(x, v / b, b);
  }

  lemma SameFactor(x: nat, y: nat, b: nat)
    requires b > 0 && x * b == b * y
    ensures x == y
  {
    if x > y {
      MulAtLeast(x - y, b);
    } else if y > x {
      MulAtLeast(y - x, b);
    }
  }

  // ---------------------------------------------------------------- packing and unpacking

  lemma ByteBound(depth: nat)
    requires Depth(depth)
    ensures Pow(Levels(depth), Per(depth)) == 256
  {
    assert Pow(2, 4) == 16 && Pow(2, 8) == 256;
    assert Pow(4, 4) == 256;
    assert Pow(16, 2) == 256;
  }

  /** Byte `k` of a packed row. */
  function PackByte(s: seq<nat>, depth: nat, k: nat): byte
    requires Depth(depth) && Samples(s, depth)
  {
    DigitsBound(s, k * Per(depth), Per(depth), Levels(depth));
    ByteBound(depth);
    Digits(s, k * Per(depth), Per(depth), Levels(depth))
  }

  function PackRow(s: seq<nat>, depth: nat): (row: seq<byte>)
    requires Depth(depth) && Samples(s, depth)
    ensures |row| == RowBytes(|s|, depth)
  {
    seq(RowBytes(|s|, depth), k requires 0 <= k => PackByte(s, depth, k))
  }

  /** `v >> n`. */
  function ShiftRight(v: nat, n: nat): nat
    decreases n
  {
    if n == 0 then v else ShiftRight(v / 2, n - 1)
  }

  lemma InRow(x: nat, width: nat, depth: nat)
    requires Depth(depth) && x < width
    ensures BitOffset(x, depth) / 8 < RowBytes(width, depth)
  {
  }

  /** The sample that `png_decode` reads for pixel `x`. */
  function Unpacked(row: seq<byte>, x: nat, depth: nat): nat
    requires Depth(depth) && BitOffset(x, depth) / 8 < |row|
  {
    var off := BitOffset(x, depth);
    Place(x, depth);
    LowBits(ShiftRight(row[off / 8], 8 - depth - off % 8), depth)
  }

  /** `v & maxval`. */
  function LowBits(v: nat, depth: nat): (r: nat)
    requires Depth(depth)
    ensures r < Levels(depth)
  {
    if depth == 1 then v % 2 else if depth == 2 then v % 4 else v % 16
  }

  lemma {:induction false} ShiftDrops(v: nat, depth: nat, m: nat)
    requires Depth(depth)
    ensures ShiftRight(v, BitOffset(m, depth)) == DropDigits(v, Levels(depth), m)
    decreases m
  {
    if m > 0 {
      ShiftDrops(v / Levels(depth), depth, m - 1);
      var n := BitOffset(m - 1, depth);
      ShiftOne(v, BitOffset(m, depth) - 1);
      if depth >= 2 {
        ShiftOne(v / 2, BitOffset(m, depth) - 2);
      }
      if depth == 4 {
        ShiftOne(v / 2 / 2, BitOffset(m, depth) - 3);
        ShiftOne(v / 2 / 2 / 2, BitOffset(m, depth) - 4);
      }
    }
  }

  lemma ShiftOne(v: nat, n: nat)
    ensures ShiftRight(v, n + 1) == ShiftRight(v / 2, n)
  {
  }

  /** Which byte and which place in it a sample has. */
  lemma Place(x: nat, depth: nat)
    requires Depth(depth)
    ensures var (off, per) := (BitOffset(x, depth), Per(depth));
      && off / 8 == x / per && x == x / per * per + x % per && x % per < per
      && 8 - depth - off % 8 == BitOffset(per - 1 - x % per, depth)
  {
  }

  /** The samples of a packed row are read back in order. */
  lemma SamplesBack(s: seq<nat>, depth: nat, x: nat)
    requires Depth(depth) && Samples(s, depth) && x < |s|
    ensures BitOffset(x, depth) / 8 < RowBytes(|s|, depth)
    ensures Unpacked(PackRow(s, depth), x, depth) == s[x]
  {
    hide Digits, DropDigits, ShiftRight, BitOffset, RowBytes, Per;
    forall v: nat ensures LowBits(v, depth) == v % Levels(depth) {
    }
    hide Levels, LowBits;
    Place(x, depth);
    InRow(x, |s|, depth);
    var per := Per(depth);
    var (k, j) := (x / per, x % per);
    ShiftDrops(PackByte(s, depth, k), depth, per - 1 - j);
    DigitBack(s, k * per, per, Levels(depth), j);
  }

  /** Shifting drops the low bits. */
  lemma {:induction false} ShiftedBit(v: nat, n: nat, j: nat)
    ensures BitAt(ShiftRight(v, n), j) <==> BitAt(v, j + n)
    decreases n
  {
    if n > 0 {
      ShiftedBit(v / 2, n - 1, j);
    }
  }

  /**
   * The bits of a sample, most significant first, are the next bits of the row, the high bit of
   * each byte first.
   */
  lemma SampleBits(row: seq<byte>, x: nat, depth: nat, i: nat)
    requires Depth(depth) && i < depth && BitOffset(x, depth) / 8 < |row|
    ensures var k := x * depth + i;
      k / 8 < |row| && (BitAt(Unpacked(row, x, depth), depth - 1 - i) <==> BitAt(row[k / 8], 7 - k % 8))
  {
    var off := BitOffset(x, depth);
    Place(x, depth);
    SameByte(x, depth, i);
    var v := ShiftRight(row[off / 8], 8 - depth - off % 8);
    LowBitsKeep(v, depth, depth - 1 - i);
    ShiftedBit(row[off / 8], 8 - depth - off % 8, depth - 1 - i);
  }

  lemma SameByte(x: nat, depth: nat, i: nat)
    requires Depth(depth) && i < depth
    ensures var (off, k) := (BitOffset(x, depth), x * depth + i);
      off == x * depth && k / 8 == off / 8 && k % 8 == off % 8 + i && off % 8 + depth <= 8
  {
    Place(x, depth);
    if depth == 1 {
      assert i == 0 && x * 1 == x;
    } else if depth == 2 {
      Within(x / 4, 2 * (x % 4), i);
      assert 2 * x == 8 * (x / 4) + 2 * (x % 4);
    } else {
      Within(x / 2, 4 * (x % 2), i);
      assert 4 * x == 8 * (x / 2) + 4 * (x % 2);
    }
  }

  lemma Within(q: nat, r: nat, i: nat)
    requires r + i < 8
    ensures (8 * q + r) / 8 == q && (8 * q + r) % 8 == r
    ensures (8 * q + r + i) / 8 == q && (8 * q + r + i) % 8 == r + i
  {
  }

  lemma LowBitsKeep(v: nat, depth: nat, j: nat)
    requires Depth(depth) && j < depth
    ensures BitAt(LowBits(v, depth), j) <==> BitAt(v, j)
  {
    RemainderBits(v, depth, j);
    assert Pow2(1) == 2 && Pow2(2) == 4 && Pow2(4) == 16;
  }

  /** The loop of `png_decode` that unpacks a row of samples. */
  method UnpackRow(row: seq<byte>, width: nat, depth: nat) returns (samples: array<nat>)
    requires Depth(depth) && |row| == RowBytes(width, depth)
    ensures fresh(samples) && samples.Length == width
    ensures forall x :: 0 <= x < width ==> BitOffset(x, depth) / 8 < |row|
    ensures forall x :: 0 <= x < width ==> samples[x] == Unpacked(row, x, depth)
  {
    hide ShiftRight, RowBytes;
    samples := new nat[width](_ => 0);
    forall x: nat | x < width ensures BitOffset(x, depth) / 8 < |row| {
      InRow(x, width, depth);
    }
    for x: nat := 0 to width
      invariant forall j :: 0 <= j < x ==> samples[j] == Unpacked(row, j, depth)
    {
      var off := BitOffset(x, depth);
      Place(x, depth);
      samples[x] := LowBits(ShiftRight(row[off / 8], 8 - depth - off % 8), depth);
    }
  }
}
