/** From the compressed data of a PNG image to its rows. */
module PngImage {
  import opened Common
  import opened Bits
  import opened Deflate
  import opened DeflateStreams
  import opened Inflate
  import opened Unfilter

  /** The rows in the compressed data `idat` of an image of `height` rows of `n` bytes; the row above the first is zeros. */
  function ImageRows(idat: seq<byte>, height: nat, n: nat, bpp: nat): Option<seq<Row>>
    requires bpp > 0
  {
    if |idat| < 2 then None
    else match Blocks(BytesBits(idat[2..]), [], height * (1 + n))
      case None => None
      case Some(raw) => if |raw| != height * (1 + n) then None else Decoded(raw, height, Zeros(n), bpp)
  }

  /** The part of `png_decode` between the collected data and the conversion of rows to pixels. */
  method DecodeRows(idat: seq<byte>, height: nat, bytesPerRow: nat, bpp: nat) returns (rows: Option<seq<Row>>)
    requires bpp > 0
    ensures rows == ImageRows(idat, height, bytesPerRow, bpp)
  {
    hide Blocks, Decoded, BytesBits;
    var rawSize := height * (1 + bytesPerRow);
    var raw := new byte[rawSize](_ => 0);
    var ob := new OutBuf(raw);
    var ok := InflateZlib(idat, ob);
    if !ok || ob.pos < rawSize {
      return None;
    }
    assert ob.Contents() == raw[..];
    rows := UnfilterImage(raw[..], height, bytesPerRow, bpp);
  }

  /** However an image is filtered, row by row, and compressed, in blocks of any types, decoding recovers its rows. */
  lemma ImageDecodes(idat: seq<byte>, blocks: seq<Block>, rest: seq<bit>, rows: seq<Row>, filters: seq<nat>, n: nat, bpp: nat)
    requires bpp > 0 && |rows| == |filters| && (forall i :: 0 <= i < |rows| ==> |rows[i]| == n)
    requires forall i :: 0 <= i < |filters| ==> filters[i] <= 4
    requires |idat| >= 2 && blocks != [] && AllValid(blocks, [])
    requires BytesBits(idat[2..]) == StreamBits(blocks, 0, []) + rest
    requires AllOutput(blocks, []) == Encoded(rows, filters, Zeros(n), bpp)
    ensures ImageRows(idat, |rows|, n, bpp) == Some(rows)
  {
    hide Blocks, Decoded, BytesBits, StreamBits, AllValid, AllOutput, Encoded;
    ImageBack(rows, filters, Zeros(n), bpp);
    ZlibBack(idat, blocks, rest, |rows| * (1 + n));
  }
}
