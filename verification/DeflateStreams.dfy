/** Dynamic blocks and whole streams as an encoder writes them. */
module DeflateStreams {
  import opened Common
  import opened Bits
  import opened Huffman
  import opened HuffmanTables
  import opened HuffmanCodes
  import opened Lz77
  import opened Deflate
  import opened DeflateEncoding
  import opened DeflateBlocks

  // ---------------------------------------------------------------- the code length code

  /** Run-length coded code lengths: one length, the last one 3 to 6 times, 3 to 10 or 11 to 138 zeros. */
  datatype Op = Len(v: nat) | Again(n: nat) | FewZeros(n: nat) | ManyZeros(n: nat)
  {
    predicate Valid() {
      match this
      case Len(v) => v <= MAXBITS
      case Again(n) => 3 <= n <= 6
      case FewZeros(n) => 3 <= n <= 10
      case ManyZeros(n) => 11 <= n <= 138
    }

    function Symbol(): nat {
      match this
      case Len(v) => v
      case Again(_) => 16
      case FewZeros(_) => 17
      case ManyZeros(_) => 18
    }
  }

  function Apply(lens: seq<nat>, op: Op): (r: seq<nat>)
    requires op.Again? ==> lens != []
    ensures |r| == |lens| + if op.Len? then 1 else op.n
  {
    match op
    case Len(v) => lens + [v]
    case Again(n) => lens + Same(lens[|lens| - 1], n)
    case FewZeros(n) => lens + Same(0, n)
    case ManyZeros(n) => lens + Same(0, n)
  }

  /** The lengths that `ops` append to `lens` are `total` in all, and `cl` has codes for the operations. */
  predicate OpsFit(lens: seq<nat>, ops: seq<Op>, cl: seq<nat>, total: nat)
    decreases |ops|
  {
    if ops == [] then |lens| == total
    else
      && ops[0].Valid() && HasCode(cl, ops[0].Symbol()) && (ops[0].Again? ==> lens != [])
      && OpsFit(Apply(lens, ops[0]), ops[1..], cl, total)
  }

  function OpsLengths(lens: seq<nat>, ops: seq<Op>, cl: seq<nat>, total: nat): (r: seq<nat>)
    requires OpsFit(lens, ops, cl, total)
    ensures |lens| <= |r| == total
    decreases |ops|
  {
    if ops == [] then lens else OpsLengths(Apply(lens, ops[0]), ops[1..], cl, total)
  }

  function OpBits(op: Op, cl: seq<nat>): seq<bit>
    requires op.Valid() && HasCode(cl, op.Symbol())
  {
    Codeword(cl, op.Symbol()) + OpExtra(op)
  }

  function OpsBits(lens: seq<nat>, ops: seq<Op>, cl: seq<nat>, total: nat): seq<bit>
    requires OpsFit(lens, ops, cl, total)
    decreases |ops|
  {
    if ops == [] then [] else OpBits(ops[0], cl) + OpsBits(Apply(lens, ops[0]), ops[1..], cl, total)
  }

  /** The extra bits of an operation. */
  function OpExtra(op: Op): seq<bit>
    requires op.Valid()
  {
    match op
    case Len(_) => []
    case Again(n) => BitsOf(n - 3, 2)
    case FewZeros(n) => BitsOf(n - 3, 3)
    case ManyZeros(n) => BitsOf(n - 11, 7)
  }

  lemma ExtraBack(op: Op, rest: seq<bit>)
    requires op.Valid()
    ensures op.Len? ==> OpExtra(op) + rest == rest
    ensures op.Again? ==> Take(OpExtra(op) + rest, 2) == Some((op.n - 3, rest))
    ensures op.FewZeros? ==> Take(OpExtra(op) + rest, 3) == Some((op.n - 3, rest))
    ensures op.ManyZeros? ==> Take(OpExtra(op) + rest, 7) == Some((op.n - 11, rest))
  {
    hide BitsOf, Take;
    SmallPowers();
    LargePowers();
    match op
    case Len(_) => assert OpExtra(op) + rest == rest;
    case Again(n) => NumberBack(n - 3, 2, rest);
    case FewZeros(n) => NumberBack(n - 3, 3, rest);
    case ManyZeros(n) => NumberBack(n - 11, 7, rest);
  }

  lemma ApplyIsFill(op: Op, lens: seq<nat>, total: nat)
    requires op.Valid() && (op.Again? ==> lens != []) && |Apply(lens, op)| <= total && Bounded(lens)
    ensures |lens| < total && Bounded(Apply(lens, op))
    ensures op.Again? ==> Apply(lens, op) == Fill(lens, lens[|lens| - 1], op.n, total)
    ensures op.FewZeros? || op.ManyZeros? ==> Apply(lens, op) == Fill(lens, 0, op.n, total)
  {
  }

  lemma OpStep(op: Op, lens: seq<nat>, cl: seq<nat>, total: nat, b: seq<bit>, b1: seq<bit>, rest: seq<bit>)
    requires Lengths(cl) && op.Valid() && Bounded(lens) && (op.Again? ==> lens != []) && |Apply(lens, op)| <= total
    requires SymbolOf(cl, b) == Some((op.Symbol(), b1)) && b1 == OpExtra(op) + rest
    ensures Bounded(Apply(lens, op))
    ensures CodeLengths(b, cl, lens, total) == CodeLengths(rest, cl, Apply(lens, op), total)
  {
    hide SymbolOf, Take, OpExtra, Fill, Lengths;
    ApplyIsFill(op, lens, total);
    ExtraBack(op, rest);
  }

  lemma OpBack(op: Op, lens: seq<nat>, cl: seq<nat>, total: nat, rest: seq<bit>)
    requires Usable(cl) && op.Valid() && HasCode(cl, op.Symbol()) && Bounded(lens) && (op.Again? ==> lens != [])
    requires |Apply(lens, op)| <= total
    ensures Bounded(Apply(lens, op))
    ensures CodeLengths(OpBits(op, cl) + rest, cl, lens, total) == CodeLengths(rest, cl, Apply(lens, op), total)
  {
    hide Codeword, Kraft, SymbolOf, OpExtra, CodeLengths, Apply;
    Regroup(Codeword(cl, op.Symbol()), OpExtra(op), rest);
    SymbolBack(cl, op.Symbol(), OpExtra(op) + rest);
    OpStep(op, lens, cl, total, OpBits(op, cl) + rest, OpExtra(op) + rest, rest);
  }

  lemma {:induction false} OpsGrow(lens: seq<nat>, ops: seq<Op>, cl: seq<nat>, total: nat)
    requires OpsFit(lens, ops, cl, total)
    ensures |lens| <= total
    decreases |ops|
  {
    if ops != [] {
      OpsGrow(Apply(lens, ops[0]), ops[1..], cl, total);
    }
  }

  lemma {:induction false} OpsBack(ops: seq<Op>, lens: seq<nat>, cl: seq<nat>, total: nat, rest: seq<bit>)
    requires Usable(cl) && Bounded(lens) && OpsFit(lens, ops, cl, total) && |lens| <= total
    ensures CodeLengths(OpsBits(lens, ops, cl, total) + rest, cl, lens, total) == Some((OpsLengths(lens, ops, cl, total), rest))
    decreases |ops|
  {
    hide Codeword, Kraft, SymbolOf, OpBits, Apply;
    if ops == [] {
      assert OpsBits(lens, ops, cl, total) + rest == rest;
    } else {
      var (next, more) := (Apply(lens, ops[0]), OpsBits(Apply(lens, ops[0]), ops[1..], cl, total));
      OpsGrow(next, ops[1..], cl, total);
      Regroup(OpBits(ops[0], cl), more, rest);
      OpBack(ops[0], lens, cl, total, more + rest);
      OpsBack(ops[1..], next, cl, total, rest);
    }
  }

  // ---------------------------------------------------------------- the lengths of the code length code

  /** Where in the order of section 3.2.7 a symbol of the code length code comes. */
  function ClenIndex(k: nat): (i: nat)
    requires k < 19
    ensures i < 19
  {
    [3, 17, 15, 13, 11, 9, 7, 5, 4, 6, 8, 10, 12, 14, 16, 18, 0, 1, 2][k]
  }

  lemma OrderIsPermutation(i: nat)
    requires i < 19
    ensures ClenIndex(ClenOrder(i)) == i && ClenOrder(ClenIndex(i)) == i
  {
  }

  function ClenBits(cl: seq<nat>, n: nat): seq<bit>
    requires |cl| == 19 && n <= 19
  {
    if n == 0 then [] else ClenBits(cl, n - 1) + BitsOf(cl[ClenOrder(n - 1)], 3)
  }

  /** The first `n` lengths in order, the others 0. */
  function Masked(cl: seq<nat>, n: nat): (r: seq<nat>)
    requires |cl| == 19 && n <= 19
    ensures |r| == 19
  {
    if n == 0 then Same(0, 19) else Masked(cl, n - 1)[ClenOrder(n - 1) := cl[ClenOrder(n - 1)]]
  }

  lemma {:induction false} MaskedAt(cl: seq<nat>, n: nat, k: nat)
    requires |cl| == 19 && n <= 19 && k < 19
    ensures Masked(cl, n)[k] == if ClenIndex(k) < n then cl[k] else 0
    decreases n
  {
    hide ClenOrder, ClenIndex;
    if n > 0 {
      MaskedAt(cl, n - 1, k);
      OrderIsPermutation(n - 1);
      OrderIsPermutation(k);
    }
  }

  lemma {:induction false} ClenBack(cl: seq<nat>, n: nat, rest: seq<bit>)
    requires |cl| == 19 && n <= 19 && forall i :: 0 <= i < 19 ==> cl[i] < 8
    ensures ClenLengths(ClenBits(cl, n) + rest, n) == Some((Masked(cl, n), rest))
    decreases n
  {
    hide ClenOrder, BitsOf, Take;
    if n == 0 {
      assert ClenBits(cl, 0) + rest == rest;
    } else {
      var v := cl[ClenOrder(n - 1)];
      Regroup(ClenBits(cl, n - 1), BitsOf(v, 3), rest);
      ClenBack(cl, n - 1, BitsOf(v, 3) + rest);
      SmallPowers();
      NumberBack(v, 3, rest);
    }
  }

  // ---------------------------------------------------------------- headers of dynamic blocks

  /** How many lengths of each kind, the code length code, and the run-length coded lengths. */
  datatype Head = Head(hlit: nat, hdist: nat, hclen: nat, cl: seq<nat>, ops: seq<Op>)
  {
    predicate Valid() {
      && 257 <= hlit <= 286 && 1 <= hdist <= 30 && 4 <= hclen <= 19
      && |cl| == 19 && (forall i :: 0 <= i < 19 ==> cl[i] < 8) && (forall i :: hclen <= i < 19 ==> cl[ClenOrder(i)] == 0)
      && Usable(cl) && OpsFit([], ops, cl, hlit + hdist)
    }

    function Lens(): (r: seq<nat>)
      requires Valid()
      ensures |r| == hlit + hdist
    {
      OpsLengths([], ops, cl, hlit + hdist)
    }

    function Bits(): seq<bit>
      requires Valid()
    {
      BitsOf(hlit - 257, 5) + (BitsOf(hdist - 1, 5) + (BitsOf(hclen - 4, 4)
      + (ClenBits(cl, hclen) + OpsBits([], ops, cl, hlit + hdist))))
    }
  }

  lemma MaskedAll(h: Head)
    requires h.Valid()
    ensures Masked(h.cl, h.hclen) == h.cl
  {
    hide ClenOrder, ClenIndex, Usable, OpsFit, Masked;
    forall k: nat | k < 19 ensures Masked(h.cl, h.hclen)[k] == h.cl[k] {
      MaskedAt(h.cl, h.hclen, k);
      OrderIsPermutation(k);
    }
  }

  lemma HeadBack(h: Head, rest: seq<bit>)
    requires h.Valid()
    ensures Header(h.Bits() + rest) == Some(((h.Lens()[..h.hlit], h.Lens()[h.hlit..]), rest))
  {
    hide ClenOrder, ClenIndex, Usable, OpsFit, Masked, BitsOf, Take, ClenBits, OpsBits, CodeLengths, ClenLengths, OpsLengths,
         Lengths;
    var (a, b, c) := (BitsOf(h.hlit - 257, 5), BitsOf(h.hdist - 1, 5), BitsOf(h.hclen - 4, 4));
    var (d, e) := (ClenBits(h.cl, h.hclen), OpsBits([], h.ops, h.cl, h.hlit + h.hdist));
    Regroup(a, b + (c + (d + e)), rest);
    Regroup(b, c + (d + e), rest);
    Regroup(c, d + e, rest);
    Regroup(d, e, rest);
    SmallPowers();
    NumberBack(h.hlit - 257, 5, b + (c + (d + (e + rest))));
    NumberBack(h.hdist - 1, 5, c + (d + (e + rest)));
    NumberBack(h.hclen - 4, 4, d + (e + rest));
    MaskedAll(h);
    ClenBack(h.cl, h.hclen, e + rest);
    OpsBack(h.ops, [], h.cl, h.hlit + h.hdist, rest);
  }

  // ---------------------------------------------------------------- streams

  datatype Block = StoredBlock(data: seq<byte>) | FixedBlock(toks: seq<Token>) | DynamicBlock(head: Head, toks: seq<Token>)
  {
    function LitLengths(): (l: seq<nat>)
      requires !StoredBlock? && (DynamicBlock? ==> head.Valid())
    {
      if FixedBlock? then FixedLit() else head.Lens()[..head.hlit]
    }

    function DistLengths(): (l: seq<nat>)
      requires !StoredBlock? && (DynamicBlock? ==> head.Valid())
    {
      if FixedBlock? then FixedDist() else head.Lens()[head.hlit..]
    }

    /** A block that can be written behind the output `out`. */
    predicate Valid(out: seq<byte>) {
      if StoredBlock? then |data| < 0x1_0000
      else
        && (DynamicBlock? ==> head.Valid() && Usable(LitLengths()) && Usable(DistLengths()))
        && HasCode(LitLengths(), 256) && AllCodable(toks, LitLengths(), DistLengths()) && AllReach(out, toks)
    }

    function Type(): (n: nat)
      ensures n < 3
    {
      if StoredBlock? then 0 else if FixedBlock? then 1 else 2
    }

    function Output(out: seq<byte>): (r: seq<byte>)
      requires Valid(out)
      ensures |out| <= |r| && r[..|out|] == out
    {
      if StoredBlock? then out + data else Expand(out, toks)
    }

    /** The bits behind the block's type, which begin at bit `pos` of the stream. */
    function Body(pos: nat, out: seq<byte>): seq<bit>
      requires Valid(out)
    {
      match this
      case StoredBlock(data) => StoredBits((8 - pos % 8) % 8, data)
      case FixedBlock(toks) => DataBits(toks, FixedLit(), FixedDist())
      case DynamicBlock(head, toks) => head.Bits() + DataBits(toks, LitLengths(), DistLengths())
    }
  }

  lemma BodyBack(k: Block, pos: nat, out: seq<byte>, cap: nat, rest: seq<bit>)
    requires k.Valid(out) && |k.Output(out)| <= cap && (pos + |k.Body(pos, out)| + |rest|) % 8 == 0
    ensures BlockBody(k.Type(), k.Body(pos, out) + rest, out, cap) == Some((k.Output(out), rest))
  {
    hide DataBits, BlockData, Expand, Stored, StoredBits, Usable, AllCodable, HasCode, AllReach, Header, Head.Bits, Head.Lens,
         Head.Valid, FixedLit, FixedDist, Lengths;
    match k
    case StoredBlock(data) =>
      var pad: nat := (8 - pos % 8) % 8;
      PadFits(pos, |data|, |rest|);
      StoredBack(pad, data, out, cap, rest);
    case FixedBlock(toks) =>
      FixedUsable();
      DataBack(toks, FixedLit(), FixedDist(), out, cap, rest);
    case DynamicBlock(head, toks) =>
      var d := DataBits(toks, k.LitLengths(), k.DistLengths());
      Regroup(head.Bits(), d, rest);
      HeadBack(head, d + rest);
      DataBack(toks, k.LitLengths(), k.DistLengths(), out, cap, rest);
  }

  lemma PadFits(pos: nat, n: nat, r: nat)
    requires (pos + ((8 - pos % 8) % 8 + 32 + 8 * n) + r) % 8 == 0
    ensures r % 8 == 0
  {
  }

  predicate AllValid(blocks: seq<Block>, out: seq<byte>)
    decreases |blocks|
  {
    blocks == [] || (blocks[0].Valid(out) && AllValid(blocks[1..], blocks[0].Output(out)))
  }

  function AllOutput(blocks: seq<Block>, out: seq<byte>): (r: seq<byte>)
    requires AllValid(blocks, out)
    ensures |out| <= |r| && r[..|out|] == out
    decreases |blocks|
  {
    if blocks == [] then out
    else
      var next := blocks[0].Output(out);
      var r := AllOutput(blocks[1..], next);
      assert r[..|out|] == r[..|next|][..|out|];
      r
  }

  /** The bits of one block: the last-block bit, the type, and the rest. */
  function BlockBits(k: Block, pos: nat, last: bool, out: seq<byte>): seq<bit>
    requires k.Valid(out)
  {
    BitsOf(if last then 1 else 0, 1) + (BitsOf(k.Type(), 2) + k.Body(pos + 3, out))
  }

  /** A stream whose first bit is bit `pos`. */
  function StreamBits(blocks: seq<Block>, pos: nat, out: seq<byte>): seq<bit>
    requires AllValid(blocks, out)
    decreases |blocks|
  {
    if blocks == [] then []
    else
      var first := BlockBits(blocks[0], pos, |blocks| == 1, out);
      first + StreamBits(blocks[1..], pos + |first|, blocks[0].Output(out))
  }

  lemma BlockBack(k: Block, pos: nat, last: bool, out: seq<byte>, cap: nat, rest: seq<bit>)
    requires k.Valid(out) && |k.Output(out)| <= cap && (pos + |BlockBits(k, pos, last, out)| + |rest|) % 8 == 0
    ensures Blocks(BlockBits(k, pos, last, out) + rest, out, cap)
      == if last || |k.Output(out)| >= cap then Some(k.Output(out)) else Blocks(rest, k.Output(out), cap)
  {
    hide BlockBody, BitsOf, Take, Block.Valid, Block.Output, Block.Body;
    var (a, b, c) := (BitsOf(if last then 1 else 0, 1), BitsOf(k.Type(), 2), k.Body(pos + 3, out));
    Regroup(a, b + c, rest);
    Regroup(b, c, rest);
    SmallPowers();
    NumberBack(if last then 1 else 0, 1, b + (c + rest));
    NumberBack(k.Type(), 2, c + rest);
    BodyBack(k, pos + 3, out, cap, rest);
  }

  lemma {:induction false} StreamBack(blocks: seq<Block>, pos: nat, out: seq<byte>, cap: nat, rest: seq<bit>)
    requires blocks != [] && AllValid(blocks, out) && |AllOutput(blocks, out)| <= cap
    requires (pos + |StreamBits(blocks, pos, out)| + |rest|) % 8 == 0
    ensures Blocks(StreamBits(blocks, pos, out) + rest, out, cap) == Some(AllOutput(blocks, out))
    decreases |blocks|
  {
    hide BlockBits, Blocks, Block.Valid, Block.Output;
    var (k, next) := (blocks[0], blocks[0].Output(out));
    var first := BlockBits(k, pos, |blocks| == 1, out);
    var more := StreamBits(blocks[1..], pos + |first|, next);
    Regroup(first, more, rest);
    BlockBack(k, pos, |blocks| == 1, out, cap, more + rest);
    if |blocks| > 1 {
      StreamBack(blocks[1..], pos + |first|, next, cap, rest);
    }
    var all := AllOutput(blocks[1..], next);
    if |next| >= cap {
      assert all == all[..|next|];
    }
  }

  /** A zlib stream, whatever its two header bytes and its trailer, inflates to the output of its blocks. */
  lemma ZlibBack(input: seq<byte>, blocks: seq<Block>, rest: seq<bit>, cap: nat)
    requires |input| >= 2 && blocks != [] && AllValid(blocks, []) && |AllOutput(blocks, [])| <= cap
    requires BytesBits(input[2..]) == StreamBits(blocks, 0, []) + rest
    ensures Blocks(BytesBits(input[2..]), [], cap) == Some(AllOutput(blocks, []))
  {
    hide Blocks, StreamBits, BytesBits, AllValid, AllOutput;
    assert |StreamBits(blocks, 0, [])| + |rest| == 8 * |input[2..]|;
    StreamBack(blocks, 0, [], cap, rest);
  }
}
