/** What a reader of a file sees after a write or a change of size. */
module FatFileBytes {
  import opened Common
  import opened FatEntries
  import opened FatVolume
  import opened FatChains
  import opened FatContent
  import opened FatImages
  import opened FatFiles

  /** A read delivers the bytes of the file in its range exactly when the range's end is no wrapped sum, or
      the range begins behind the file, or the file's last cluster holds nothing but file. */
  lemma SliceIsFileBytes(content: seq<byte>, size: nat, offset: nat, n: nat)
    requires size <= |content| && size < TWO_64
    ensures Slice(content, size, offset, n) == content[Min(offset, size)..Min(offset + n, size)]
      <==> offset + n < TWO_64 || offset >= size || size == |content|
  {
    if offset < size && offset + n >= TWO_64 && size < |content| {
      assert |Slice(content, size, offset, n)| == |content| - offset;
    }
  }

  /** What was written is read back, the file's other bytes are as before, and a gap left by the write reads
      as zeros wherever it lies in a new cluster. */
  lemma WriteThenRead(a: Image, s0: seq<nat>, size0: nat, b: Image, s: seq<nat>, size: nat, bpc: nat, offset: nat,
                      buf: seq<byte>, r: Outcome)
    requires Whole(a.cl, bpc, s0) && size0 <= |Content(a.cl, bpc, s0)|
    requires buf != [] && offset + |buf| < TWO_64
    requires Room(a, |s0|, bpc, offset + |buf|) && WriteResult(a, s0, size0, b, s, size, bpc, offset, buf, r)
    ensures Whole(b.cl, bpc, s) && size0 <= size <= |Content(b.cl, bpc, s)|
    ensures |Content(a.cl, bpc, s0)| <= |Content(b.cl, bpc, s)|
    ensures Slice(Content(b.cl, bpc, s), size, offset, |buf|) == buf
    ensures forall i :: 0 <= i < |Content(a.cl, bpc, s0)| && !(offset <= i < offset + |buf|) ==>
      Content(b.cl, bpc, s)[i] == Content(a.cl, bpc, s0)[i]
    ensures forall i :: |Content(a.cl, bpc, s0)| <= i < |Content(b.cl, bpc, s)| && !(offset <= i < offset + |buf|) ==>
      Content(b.cl, bpc, s)[i] == 0
  {
    hide Content, Whole, NoSurplus, Base, Patch;
  }

  /** A lengthened file has its old bytes, and zeros in its new part exactly when the rest of its old last
      cluster was zero. */
  lemma LengthenedReads(a: Image, s0: seq<nat>, size0: nat, b: Image, s: seq<nat>, size: nat, bpc: nat, newSize: nat,
                        r: Outcome)
    requires Whole(a.cl, bpc, s0) && size0 <= |Content(a.cl, bpc, s0)| && 0 < newSize && size0 <= newSize
    requires Room(a, |s0|, bpc, newSize) && TruncateResult(a, s0, size0, b, s, size, bpc, newSize, r)
    ensures Whole(b.cl, bpc, s) && size == newSize <= |Content(b.cl, bpc, s)|
    ensures Content(b.cl, bpc, s)[..size0] == Content(a.cl, bpc, s0)[..size0]
    ensures (forall i :: size0 <= i < newSize ==> Content(b.cl, bpc, s)[i] == 0)
      <==> (forall i :: size0 <= i < Min(newSize, |Content(a.cl, bpc, s0)|) ==> Content(a.cl, bpc, s0)[i] == 0)
  {
    ContentSize(b.cl, bpc, s);
    hide Content, Whole, NoSurplus, Base, Patch;
    var (x, y) := (Content(a.cl, bpc, s0), Content(b.cl, bpc, s));
    assert y[..|x|] == x;
  }

  /** A shortened file keeps its first bytes. */
  lemma ShortenedReads(a: Image, s0: seq<nat>, size0: nat, b: Image, s: seq<nat>, size: nat, bpc: nat, newSize: nat,
                       r: Outcome)
    requires Whole(a.cl, bpc, s0) && 0 < newSize < size0 <= |Content(a.cl, bpc, s0)|
    requires TruncateResult(a, s0, size0, b, s, size, bpc, newSize, r)
    ensures Whole(b.cl, bpc, s) && size == newSize <= |Content(b.cl, bpc, s)|
    ensures Content(b.cl, bpc, s)[..newSize] == Content(a.cl, bpc, s0)[..newSize]
  {
    hide Content, NoSurplus, Base, Needed;
    CeilIs(bpc, newSize, 0);
    ContentPrefix(a.cl, bpc, s0, |s|);
    ContentSize(b.cl, bpc, s);
    ContentFrame(a.cl, b.cl, bpc, s);
  }

  /** What a change to file `f` leaves of every other file: all of its bytes. */
  lemma OthersRead(a: Image, b: Image, f: nat, h: nat, size: nat, bpc: nat, offset: nat, n: nat)
    requires Untouched(a, b, f) && h in a.ch && h != f && Whole(a.cl, bpc, a.ch[h])
    requires size <= |Content(a.cl, bpc, a.ch[h])|
    ensures h in b.ch && Whole(b.cl, bpc, b.ch[h]) && size <= |Content(b.cl, bpc, b.ch[h])|
    ensures Slice(Content(b.cl, bpc, b.ch[h]), size, offset, n) == Slice(Content(a.cl, bpc, a.ch[h]), size, offset, n)
  {
    hide Content, Slice;
    UntouchedContent(a, b, f, h, bpc);
  }
}
