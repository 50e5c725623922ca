/** 8.3 names: encoding, decoding, checksum. */
module FatNames {
  import opened Common
  import opened NumberBits

  type Name = seq<byte>

  const SPACE: byte := 32
  const DOT: byte := 46

  function ToUpper(c: byte): byte {
    if 97 <= c <= 122 then c - 32 else c
  }

  function Upper(s: Name): (u: Name)
    ensures |u| == |s|
    ensures forall i :: 0 <= i < |s| ==> u[i] == ToUpper(s[i])
  {
    seq(|s|, i requires 0 <= i < |s| => ToUpper(s[i]))
  }

  function Spaces(n: nat): (s: Name)
    ensures |s| == n && forall i :: 0 <= i < n ==> s[i] == SPACE
  {
    seq(n, i => SPACE)
  }

  /** Where the last dot of a name is, or -1. */
  function LastDot(s: Name): (d: int)
    ensures -1 <= d < |s| && (d >= 0 ==> s[d] == DOT)
    ensures forall i :: d < i < |s| ==> s[i] != DOT
  {
    if s == [] then -1
    else if s[|s| - 1] == DOT then |s| - 1
    else LastDot(s[..|s| - 1])
  }

  /** The name in front of its last dot. */
  function Stem(s: Name): Name {
    if LastDot(s) >= 0 then s[..LastDot(s)] else s
  }

  /** The name behind its last dot. */
  function Extension(s: Name): Name {
    if LastDot(s) >= 0 then s[LastDot(s) + 1..] else []
  }

  predicate Fits83(s: Name) {
    |Stem(s)| <= 8 && |Extension(s)| <= 3
  }

  /** The 11 bytes of the 8.3 field; all spaces when the name does not fit. */
  function Name83(s: Name): (raw: Name)
    ensures |raw| == 11
  {
    if Fits83(s) then
      Upper(Stem(s)) + Spaces(8 - |Stem(s)|) + Upper(Extension(s)) + Spaces(3 - |Extension(s)|)
    else Spaces(11)
  }

  function UntilSpace(s: Name): (r: Name)
    ensures |r| <= |s| && r == s[..|r|] && SPACE !in r
    ensures |r| < |s| ==> s[|r|] == SPACE
  {
    if s == [] || s[0] == SPACE then [] else [s[0]] + UntilSpace(s[1..])
  }

  /** The name an 8.3 field shows. */
  function Shown83(raw: Name): Name
    requires |raw| == 11
  {
    UntilSpace(raw[..8]) + if raw[8] == SPACE then [] else [DOT] + UntilSpace(raw[8..])
  }

  /** Whether `fat_dir_add_entry` writes long-name entries. */
  predicate UsesLfn(s: Name) {
    !Fits83(s) || Upper(Shown83(Name83(s))) != Upper(s)
  }

  /** The search for the last dot. */
  method FindDot(name: Name) returns (dot: int)
    ensures dot == LastDot(name)
  {
    dot := -1;
    for i: nat := 0 to |name|
      invariant dot == LastDot(name[..i])
    {
      assert name[..i + 1][..i] == name[..i];
      if name[i] == DOT {
        dot := i;
      }
    }
    assert name[..|name|] == name;
  }

  lemma FitsIs(s: Name)
    ensures Fits83(s) <==> |Stem(s)| <= 8 && |Extension(s)| <= 3
    ensures |Stem(s)| == (if LastDot(s) >= 0 then LastDot(s) else |s|)
    ensures |Extension(s)| == if LastDot(s) >= 0 then |s| - LastDot(s) - 1 else 0
  {
    hide LastDot;
  }

  lemma SpacesOnly(s: Name, raw: Name)
    requires |raw| == 11 && forall j :: 0 <= j < 11 ==> raw[j] == SPACE
    ensures !Fits83(s) ==> raw == Name83(s)
  {
    hide LastDot, Upper, Fits83;
  }

  /** A copy loop of `fat_make_83name`. */
  method CopyUpper(raw: array<byte>, at: nat, part: Name)
    requires at + |part| <= raw.Length
    modifies raw
    ensures forall j :: 0 <= j < raw.Length ==> raw[j] == if at <= j < at + |part| then ToUpper(part[j - at]) else old(raw[j])
  {
    hide ToUpper;
    for i: nat := 0 to |part|
      invariant forall j :: 0 <= j < raw.Length ==> raw[j] == if at <= j < at + i then ToUpper(part[j - at]) else old(raw[j])
    {
      raw[at + i] := ToUpper(part[i]);
    }
  }

  /** `fat_make_83name`: whether the name fits, and the field. */
  method Make83(name: Name) returns (fits: bool, raw: array<byte>)
    ensures fits == Fits83(name) && fresh(raw) && raw[..] == Name83(name)
  {
    hide Name83, Upper, LastDot, Fits83, ToUpper, Stem, Extension;
    raw := new byte[11](_ => SPACE);
    var dot := FindDot(name);
    FitsIs(name);
    SpacesOnly(name, raw[..]);
    var baseLen := if dot >= 0 then dot else |name|;
    var extLen := if dot >= 0 then |name| - dot - 1 else 0;
    if baseLen > 8 || extLen > 3 {
      return false, raw;
    }
    CopyUpper(raw, 0, name[..baseLen]);
    CopyUpper(raw, 8, name[dot + 1..dot + 1 + extLen]);
    FieldBytes(name, raw[..]);
    fits := true;
  }

  /** The bytes of the 8.3 field one by one. */
  lemma FieldBytes(s: Name, raw: Name)
    requires Fits83(s) && |raw| == 11
    requires forall j :: 0 <= j < 8 ==> raw[j] == if j < |Stem(s)| then ToUpper(s[j]) else SPACE
    requires forall j :: 8 <= j < 11 ==>
      raw[j] == if j < 8 + |Extension(s)| then ToUpper(s[LastDot(s) + 1 + (j - 8)]) else SPACE
    ensures raw == Name83(s)
  {
    hide LastDot;
    var (b, x) := (Upper(Stem(s)), Upper(Extension(s)));
    Padded(raw[..8], b, 8);
    Padded(raw[8..], x, 3);
    hide Upper, Stem, Extension;
    assert raw == raw[..8] + raw[8..];
    Fourfold(b, Spaces(8 - |b|), x, Spaces(3 - |x|));
  }

  lemma Padded(part: Name, s: Name, n: nat)
    requires |s| <= n == |part| && forall j :: 0 <= j < n ==> part[j] == if j < |s| then s[j] else SPACE
    ensures part == s + Spaces(n - |s|)
  {
  }

  lemma Fourfold(a: Name, b: Name, c: Name, d: Name)
    ensures (a + b) + (c + d) == a + b + c + d
  {
  }

  /** A loop of `fat_parse_83name`: the bytes from `lo` on, up to a space. */
  method CopyUntilSpace(raw: Name, lo: nat, hi: nat) returns (out: Name)
    requires lo <= hi <= |raw|
    ensures out == UntilSpace(raw[lo..hi])
  {
    hide UntilSpace;
    out := [];
    var i := lo;
    while i < hi && raw[i] != SPACE
      invariant lo <= i <= hi && UntilSpace(raw[lo..hi]) == out + UntilSpace(raw[i..hi])
    {
      UntilSpaceStep(raw, i, hi);
      out := out + [raw[i]];
      i := i + 1;
    }
    UntilSpaceStep(raw, i, hi);
  }

  /** `fat_parse_83name`. */
  method Parse83(raw: Name) returns (out: Name)
    requires |raw| == 11
    ensures out == Shown83(raw)
  {
    hide UntilSpace;
    assert raw[0..8] == raw[..8] && raw[8..11] == raw[8..];
    out := CopyUntilSpace(raw, 0, 8);
    if raw[8] != SPACE {
      var ext := CopyUntilSpace(raw, 8, 11);
      out := out + ([DOT] + ext);
    }
  }

  lemma UntilSpaceStep(s: Name, i: nat, hi: nat)
    requires i <= hi <= |s|
    ensures UntilSpace(s[i..hi]) == if i == hi || s[i] == SPACE then [] else [s[i]] + UntilSpace(s[i + 1..hi])
  {
    if i < hi {
      assert s[i..hi][1..] == s[i + 1..hi];
    }
  }

  // ---------------------------------------------------------------- when the 8.3 field is enough

  lemma {:induction false} UntilSpaceAll(s: Name, n: nat)
    requires SPACE !in s
    ensures UntilSpace(s + Spaces(n)) == s
    decreases |s|
  {
    if s != [] {
      UntilSpaceAll(s[1..], n);
      assert (s + Spaces(n))[1..] == s[1..] + Spaces(n);
    } else {
      assert s + Spaces(n) == Spaces(n);
    }
  }

  lemma UpperHasSpace(s: Name)
    ensures SPACE in Upper(s) <==> SPACE in s
  {
    if i :| 0 <= i < |s| && s[i] == SPACE {
      assert Upper(s)[i] == SPACE;
    }
  }

  /** The field of a name without spaces shows its two parts. */
  lemma ShownParts(s: Name)
    requires Fits83(s) && SPACE !in s
    ensures Shown83(Name83(s)) == Upper(Stem(s)) + if Extension(s) == [] then [] else [DOT] + Upper(Extension(s))
  {
    var (b, x) := (Upper(Stem(s)), Upper(Extension(s)));
    PartsHaveNoSpace(s);
    UpperHasSpace(Stem(s));
    UpperHasSpace(Extension(s));
    hide Upper, Stem, Extension, UntilSpace;
    FieldParts(Name83(s), b, x);
  }

  lemma FieldParts(raw: Name, b: Name, x: Name)
    requires |b| <= 8 && |x| <= 3 && raw == b + Spaces(8 - |b|) + x + Spaces(3 - |x|) && SPACE !in b && SPACE !in x
    ensures Shown83(raw) == b + if x == [] then [] else [DOT] + x
  {
    hide UntilSpace;
    assert raw[..8] == b + Spaces(8 - |b|) && raw[8..] == x + Spaces(3 - |x|);
    UntilSpaceAll(b, 8 - |b|);
    UntilSpaceAll(x, 3 - |x|);
    if x != [] {
      assert raw[8] == x[0] && x[0] in x;
    }
  }

  lemma UpperParts(s: Name)
    ensures var shown := Upper(Stem(s)) + if Extension(s) == [] then [] else [DOT] + Upper(Extension(s));
      Upper(shown) == Upper(s) <==> LastDot(s) >= 0 ==> Extension(s) != []
  {
    hide LastDot;
    var shown := Upper(Stem(s)) + if Extension(s) == [] then [] else [DOT] + Upper(Extension(s));
    if LastDot(s) >= 0 && Extension(s) == [] {
      assert |Upper(shown)| < |Upper(s)|;
    }
  }

  /** The 8.3 field alone shows the name, up to case, exactly when both parts fit, hold no spaces, and no
      dot ends the name. */
  lemma ShortIsEnough(s: Name)
    ensures !UsesLfn(s) <==>
      Fits83(s) && SPACE !in s && (LastDot(s) >= 0 ==> Extension(s) != [])
  {
    hide Upper, Stem, Extension, Name83, Shown83, LastDot;
    if Fits83(s) {
      if SPACE !in s {
        ShownParts(s);
        UpperParts(s);
      } else {
        ShownHasNoSpace(Name83(s));
        UpperHasSpace(Shown83(Name83(s)));
        UpperHasSpace(s);
      }
    }
  }

  lemma PartsHaveNoSpace(s: Name)
    requires SPACE !in s
    ensures SPACE !in Stem(s) && SPACE !in Extension(s)
  {
  }

  lemma ShownHasNoSpace(raw: Name)
    requires |raw| == 11
    ensures SPACE !in Shown83(raw)
  {
  }

  // ---------------------------------------------------------------- checksum

  function Rotate(sum: byte): byte {
    sum / 2 + sum % 2 * 128
  }

  /** The rotation moves every bit one place down, and the lowest to the top. */
  lemma RotateBits(sum: byte, k: nat)
    ensures BitAt(Rotate(sum), k) <==> k < 8 && BitAt(sum, (k + 1) % 8)
  {
    Seven();
    hide Pow2;
    RotateHalves(sum);
    if k >= 7 {
      QuotientBits(Rotate(sum), 7, k - 7);
      if k > 7 {
        ZeroBits(k - 8);
      }
    } else {
      hide Rotate;
      RemainderBits(Rotate(sum), 7, k);
    }
  }

  lemma Seven()
    ensures Pow2(7) == 128
  {
  }

  lemma RotateHalves(sum: byte)
    ensures Rotate(sum) / 128 == sum % 2 && Rotate(sum) % 128 == sum / 2
  {
  }

  function Checksum(raw: Name): byte {
    if raw == [] then 0 else (Rotate(Checksum(raw[..|raw| - 1])) + raw[|raw| - 1]) % 256
  }

  /** `fat_lfn_checksum`. */
  method LfnChecksum(raw: Name) returns (sum: byte)
    requires |raw| == 11
    ensures sum == Checksum(raw)
  {
    sum := 0;
    for i: nat := 0 to 11
      invariant sum == Checksum(raw[..i])
    {
      assert raw[..i + 1][..i] == raw[..i];
      sum := (Rotate(sum) + raw[i]) % 256;
    }
    assert raw[..11] == raw;
  }

  /**
   * The checksum of a field with one more byte: the bits of the sum so far, each one place
   * down and the lowest on top, plus the byte, in eight bits.
   */
  lemma ChecksumStep(raw: Name, b: byte) returns (r: byte)
    ensures Checksum([]) == 0 && Checksum(raw + [b]) == (r + b) % 256
    ensures forall k: nat :: BitAt(r, k) <==> k < 8 && BitAt(Checksum(raw), (k + 1) % 8)
  {
    hide Rotate;
    r := Rotate(Checksum(raw));
    assert (raw + [b])[..|raw|] == raw;
    forall k: nat
      ensures BitAt(r, k) <==> k < 8 && BitAt(Checksum(raw), (k + 1) % 8)
    {
      RotateBits(Checksum(raw), k);
    }
  }

  /** The checksum tells apart any two fields that differ in one byte. */
  lemma {:induction false} ChecksumDetects(raw: Name, i: nat, b: byte)
    requires i < |raw| && raw[i] != b
    ensures Checksum(raw[i := b]) != Checksum(raw)
    decreases |raw|
  {
    hide Rotate;
    var (n, other) := (|raw| - 1, raw[i := b]);
    if i < n {
      assert other[..n] == raw[..n][i := b];
      ChecksumDetects(raw[..n], i, b);
      MixInjective(Checksum(raw[..n]), Checksum(other[..n]), raw[n], raw[n]);
    } else {
      assert other[..n] == raw[..n];
      MixInjective(Checksum(raw[..n]), Checksum(raw[..n]), raw[n], b);
    }
  }

  lemma RotateInjective(s: byte, t: byte)
    requires s != t
    ensures Rotate(s) != Rotate(t)
  {
  }

  lemma MixInjective(s: byte, t: byte, b: byte, c: byte)
    requires (s == t) != (b == c)
    ensures (Rotate(s) + b) % 256 != (Rotate(t) + c) % 256
  {
    hide Rotate;
    if s != t {
      RotateInjective(s, t);
    }
  }
}
