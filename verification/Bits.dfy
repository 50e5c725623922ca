/** Bits of a byte stream, least significant first (section 3.1.1 of RFC 1951), and the reader of them. */
module Bits {
  import opened Common

  type bit = n: nat | n < 2

  /** The low `n` bits of `v`, least significant first. */
  function BitsOf(v: nat, n: nat): (b: seq<bit>)
    ensures |b| == n
  {
    if n == 0 then [] else [v % 2] + BitsOf(v / 2, n - 1)
  }

  /** The number whose bits, least significant first, are `b`. */
  function ValueOf(b: seq<bit>): nat {
    if b == [] then 0 else b[0] + 2 * ValueOf(b[1..])
  }

  /** The bits of a sequence of bytes. */
  function BytesBits(s: seq<byte>): (b: seq<bit>)
    ensures |b| == 8 * |s|
  {
    if s == [] then [] else BitsOf(s[0], 8) + BytesBits(s[1..])
  }

  lemma {:induction false} ValueOfBits(v: nat, n: nat)
    requires v < Pow2(n)
    ensures ValueOf(BitsOf(v, n)) == v
    decreases n
  {
    if n > 0 {
      ValueOfBits(v / 2, n - 1);
      assert BitsOf(v, n)[1..] == BitsOf(v / 2, n - 1);
    }
  }

  lemma {:induction false} ValueBound(b: seq<bit>)
    ensures ValueOf(b) < Pow2(|b|)
    decreases |b|
  {
    if b != [] {
      ValueBound(b[1..]);
    }
  }

  lemma {:induction false} ValueAppend(a: seq<bit>, b: seq<bit>)
    ensures ValueOf(a + b) == ValueOf(a) + Pow2(|a|) * ValueOf(b)
    decreases |a|
  {
    if a == [] {
      assert a + b == b;
    } else {
      ValueAppend(a[1..], b);
      assert (a + b)[1..] == a[1..] + b;
      PowMul(|a|, ValueOf(b));
    }
  }

  lemma PowMul(n: nat, v: nat)
    requires n > 0
    ensures Pow2(n) * v == 2 * (Pow2(n - 1) * v)
  {
  }

  lemma BytesBitsHead(s: seq<byte>)
    requires s != []
    ensures BytesBits(s) == BitsOf(s[0], 8) + BytesBits(s[1..])
  {
    hide BitsOf;
  }

  lemma Regroup(a: seq<bit>, b: seq<bit>, c: seq<bit>)
    ensures a + (b + c) == (a + b) + c
  {
  }

  lemma TailOfSum(s: seq<byte>, t: seq<byte>)
    requires s != []
    ensures s + t != [] && (s + t)[0] == s[0] && (s + t)[1..] == s[1..] + t
  {
  }

  lemma {:induction false} BytesBitsConcat(s: seq<byte>, t: seq<byte>)
    ensures BytesBits(s + t) == BytesBits(s) + BytesBits(t)
    decreases |s|
  {
    hide BytesBits, BitsOf;
    if s == [] {
      NoBytes(s, t);
    } else {
      TailOfSum(s, t);
      BytesBitsHead(s);
      BytesBitsHead(s + t);
      BytesBitsConcat(s[1..], t);
      Regroup(BitsOf(s[0], 8), BytesBits(s[1..]), BytesBits(t));
    }
  }

  lemma NoBytes(s: seq<byte>, t: seq<byte>)
    requires s == []
    ensures BytesBits(s + t) == BytesBits(s) + BytesBits(t)
  {
    hide BitsOf;
    assert s + t == t && BytesBits(s) == [];
  }

  /** The bits of two stretches of bytes are the two parts of the bits of both. */
  lemma BytesBitsParts(a: seq<byte>, b: seq<byte>, n: nat)
    requires n == 8 * |a|
    ensures n <= |BytesBits(a + b)|
    ensures BytesBits(b) == BytesBits(a + b)[n..] && BytesBits(a) == BytesBits(a + b)[..n]
  {
    hide BytesBits;
    BytesBitsConcat(a, b);
    Parts(BytesBits(a), BytesBits(b), BytesBits(a + b));
  }

  lemma SplitAt(s: seq<byte>, k: nat)
    requires k <= |s|
    ensures s[..k] + s[k..] == s
  {
  }

  /** Dropping whole bytes drops their bits. */
  lemma BytesBitsDrop(s: seq<byte>, k: nat)
    requires k <= |s|
    ensures BytesBits(s[k..]) == BytesBits(s)[8 * k..]
    ensures BytesBits(s[..k]) == BytesBits(s)[..8 * k]
  {
    hide BytesBits;
    SplitAt(s, k);
    BytesBitsParts(s[..k], s[k..], 8 * k);
  }

  lemma Parts(a: seq<bit>, b: seq<bit>, c: seq<bit>)
    requires c == a + b
    ensures c[|a|..] == b && c[..|a|] == a
  {
  }

  /** The `n` bits in front, and what follows them. */
  function Take(b: seq<bit>, n: nat): (r: Option<(nat, seq<bit>)>)
    ensures r.Some? ==> n <= |b| && r.value.1 == b[n..]
  {
    if n <= |b| then Some((ValueOf(b[..n]), b[n..])) else None
  }

  /** The bits from the next byte boundary of a stream of whole bytes. */
  function Aligned(b: seq<bit>): seq<bit> {
    b[|b| % 8..]
  }

  /** `bitstream_t`. */
  class BitStream {
    const input: seq<byte>
    var inPos: nat
    var bitbuf: nat
    var bitcnt: nat

    predicate Valid()
      reads this
    {
      inPos <= |input| && bitcnt < 8
    }

    /** The bits not read yet. */
    ghost function Pending(): seq<bit>
      requires Valid()
      reads this
    {
      BitsOf(bitbuf, bitcnt) + BytesBits(input[inPos..])
    }

    constructor (input: seq<byte>)
      ensures Valid() && this.input == input && Pending() == BytesBits(input)
    {
      this.input, inPos, bitbuf, bitcnt := input, 0, 0, 0;
    }

    /** `bs_getbit`; no bit at the end of the input. */
    method GetBit() returns (b: Option<bit>)
      requires Valid()
      modifies this
      ensures Valid()
      ensures b.None? <==> old(Pending()) == []
      ensures b.Some? ==> b.value == old(Pending())[0] && Pending() == old(Pending())[1..]
    {
      if bitcnt == 0 {
        if inPos >= |input| {
          return None;
        }
        assert input[inPos..][1..] == input[inPos + 1..];
        bitbuf := input[inPos];
        inPos := inPos + 1;
        bitcnt := 8;
      }
      b := Some(bitbuf % 2);
      bitbuf := bitbuf / 2;
      bitcnt := bitcnt - 1;
    }

    /** `bs_getbits`. */
    method GetBits(n: nat) returns (v: Option<nat>)
      requires Valid()
      modifies this
      ensures Valid()
      ensures match Take(old(Pending()), n)
        case Some(r) => v == Some(r.0) && Pending() == r.1
        case None => v == None
    {
      hide BytesBits, BitsOf;
      ghost var all := Pending();
      var val: nat, weight: nat := 0, 1;
      for i: nat := 0 to n
        invariant Valid() && i <= |all| && Pending() == all[i..]
        invariant val == ValueOf(all[..i]) && weight == Pow2(i)
      {
        var b := GetBit();
        if b.None? {
          return None;
        }
        assert all[..i + 1] == all[..i] + [b.value];
        ValueAppend(all[..i], [b.value]);
        val := val + weight * b.value;
        weight := 2 * weight;
      }
      v := Some(val);
    }

    /** `bs_align`. */
    method Align()
      requires Valid()
      modifies this
      ensures Valid() && bitcnt == 0 && inPos == old(inPos)
      ensures Pending() == Aligned(old(Pending())) == BytesBits(input[inPos..])
    {
      assert |Pending()| % 8 == bitcnt;
      bitbuf := 0;
      bitcnt := 0;
    }
  }
}
