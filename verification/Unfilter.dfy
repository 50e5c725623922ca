/** Row filters of PNG images (section 6 of RFC 2083) and their inverse. */
module Unfilter {
  import opened Common

  type Row = seq<byte>

  function Distance(x: int, y: int): nat {
    if x > y then x - y else y - x
  }

  /** The neighbour nearest to a + b - c. */
  function Paeth(a: byte, b: byte, c: byte): byte {
    var p := a as int + b as int - c as int;
    var (pa, pb, pc) := (Distance(p, a), Distance(p, b), Distance(p, c));
    if pa <= pb && pa <= pc then a
    else if pb <= pc then b
    else c
  }

  /** The predictor picks a nearest of its three neighbours, left before upper before upper left on a tie. */
  lemma PaethIsNearest(a: byte, b: byte, c: byte)
    ensures var (p, r) := (a as int + b as int - c as int, Paeth(a, b, c));
      && (r == a || r == b || r == c)
      && Distance(p, r) <= Distance(p, a) && Distance(p, r) <= Distance(p, b) && Distance(p, r) <= Distance(p, c)
      && (Distance(p, a) == Distance(p, r) ==> r == a)
      && (Distance(p, b) == Distance(p, r) && r != a ==> r == b)
  {
  }

  /** What each filter predicts from the left, upper and upper left neighbours. */
  function Prediction(filter: nat, a: byte, b: byte, c: byte): (p: nat)
    ensures p < 256
  {
    if filter == 1 then a
    else if filter == 2 then b
    else if filter == 3 then (a as nat + b as nat) / 2
    else if filter == 4 then Paeth(a, b, c)
    else 0
  }

  /** The byte `bpp` before `x`, 0 in front of the row. */
  function Left(row: Row, x: nat, bpp: nat): byte
    requires x - bpp < |row| && bpp > 0
  {
    if x >= bpp then row[x - bpp] else 0
  }

  function PredictionAt(filter: nat, row: Row, prior: Row, x: nat, bpp: nat): (p: nat)
    requires bpp > 0 && x <= |row| && x < |prior|
    ensures p < 256
  {
    Prediction(filter, Left(row, x, bpp), prior[x], Left(prior, x, bpp))
  }

  // ---------------------------------------------------------------- the encoder's side

  /** A filtered row: each byte minus its prediction. */
  function FilterRow(filter: nat, row: Row, prior: Row, bpp: nat): (f: Row)
    requires bpp > 0 && |row| == |prior|
    ensures |f| == |row|
  {
    seq(|row|, x requires 0 <= x < |row| => (row[x] as int - PredictionAt(filter, row, prior, x, bpp)) % 256)
  }

  /** The rows of an image, each behind its filter's number; `prior` is the row above the first. */
  function Encoded(rows: seq<Row>, filters: seq<nat>, prior: Row, bpp: nat): seq<byte>
    requires bpp > 0 && |rows| == |filters| && (forall i :: 0 <= i < |rows| ==> |rows[i]| == |prior|)
    requires forall i :: 0 <= i < |filters| ==> filters[i] <= 4
    decreases |rows|
  {
    if rows == [] then []
    else [filters[0]] + FilterRow(filters[0], rows[0], prior, bpp) + Encoded(rows[1..], filters[1..], rows[0], bpp)
  }

  // ---------------------------------------------------------------- the decoder's side

  /** The first `n` bytes of a row from its filtered bytes. */
  function UnfilterRow(filter: nat, filt: Row, prior: Row, bpp: nat, n: nat): (row: Row)
    requires bpp > 0 && n <= |filt| == |prior|
    ensures |row| == n
  {
    if n == 0 then []
    else
      var row := UnfilterRow(filter, filt, prior, bpp, n - 1);
      row + [(filt[n - 1] as nat + PredictionAt(filter, row, prior, n - 1, bpp)) % 256]
  }

  /** The rows of an image; none when a filter is unknown. */
  function Decoded(raw: seq<byte>, height: nat, prior: Row, bpp: nat): Option<seq<Row>>
    requires bpp > 0 && |raw| == height * (1 + |prior|)
    decreases height
  {
    if height == 0 then Some([])
    else
      RowsLeft(height, 1 + |prior|);
      if raw[0] > 4 && |prior| > 0 then None
      else
        var row := UnfilterRow(raw[0], raw[1..1 + |prior|], prior, bpp, |prior|);
        match Decoded(raw[1 + |prior|..], height - 1, row, bpp)
        case None => None
        case Some(rest) => Some([row] + rest)
  }

  lemma RowsLeft(height: nat, w: nat)
    requires height > 0 && w > 0
    ensures height * w == w + (height - 1) * w && w <= height * w
  {
    assert (height - 1) * w >= 0;
  }

  lemma {:induction false} RowBack(filter: nat, row: Row, prior: Row, bpp: nat, n: nat)
    requires bpp > 0 && |row| == |prior| && n <= |row|
    ensures UnfilterRow(filter, FilterRow(filter, row, prior, bpp), prior, bpp, n) == row[..n]
    decreases n
  {
    hide Prediction;
    if n > 0 {
      RowBack(filter, row, prior, bpp, n - 1);
      var (x, part) := (n - 1, row[..n - 1]);
      assert PredictionAt(filter, part, prior, x, bpp) == PredictionAt(filter, row, prior, x, bpp);
      UndoByte(row[x], PredictionAt(filter, row, prior, x, bpp));
    }
  }

  lemma UndoByte(v: byte, p: nat)
    requires p < 256
    ensures ((v as int - p) % 256 + p) % 256 == v
  {
  }

  /** Whatever filter is chosen for each row, unfiltering recovers the image. */
  lemma {:induction false} ImageBack(rows: seq<Row>, filters: seq<nat>, prior: Row, bpp: nat)
    requires bpp > 0 && |rows| == |filters| && (forall i :: 0 <= i < |rows| ==> |rows[i]| == |prior|)
    requires forall i :: 0 <= i < |filters| ==> filters[i] <= 4
    ensures |Encoded(rows, filters, prior, bpp)| == |rows| * (1 + |prior|)
    ensures Decoded(Encoded(rows, filters, prior, bpp), |rows|, prior, bpp) == Some(rows)
    decreases |rows|
  {
    hide FilterRow, UnfilterRow;
    if rows != [] {
      var (f, more) := (FilterRow(filters[0], rows[0], prior, bpp), Encoded(rows[1..], filters[1..], rows[0], bpp));
      var raw := Encoded(rows, filters, prior, bpp);
      ImageBack(rows[1..], filters[1..], rows[0], bpp);
      RowsLeft(|rows|, 1 + |prior|);
      assert raw == [filters[0]] + f + more;
      assert raw[1..1 + |prior|] == f && raw[1 + |prior|..] == more;
      RowBack(filters[0], rows[0], prior, bpp, |prior|);
      assert rows[0][..|prior|] == rows[0] && [rows[0]] + rows[1..] == rows;
    }
  }

  // ---------------------------------------------------------------- the formulas of the standard

  /**
   * Byte `x` of a row from its filtered byte, by the formulas of section 6 of RFC 2083: the
   * neighbours are the byte `bpp` before it, the one above, and the one above `bpp` before,
   * with 0 in front of the row.
   */
  predicate ByFormula(filter: nat, filt: Row, prior: Row, row: Row, bpp: nat, x: nat)
    requires x < |filt| == |prior| == |row| && bpp > 0
  {
    var a: int := if x < bpp then 0 else row[x - bpp];
    var b: int := prior[x];
    var c: int := if x < bpp then 0 else prior[x - bpp];
    Formula(filter, filt[x], a, b, c, row[x])
  }

  /** The formulas themselves: the byte `r` from the filtered byte `f` and the three neighbours. */
  predicate Formula(filter: nat, f: int, a: int, b: int, c: int, r: int) {
    var p := a + b - c;
    && (filter == 0 ==> r == f)
    && (filter == 1 ==> r == (f + a) % 256)
    && (filter == 2 ==> r == (f + b) % 256)
    && (filter == 3 ==> r == (f + (a + b) / 2) % 256)
    && (filter == 4 ==>
          || (r == (f + a) % 256 && Abs(p - a) <= Abs(p - b) && Abs(p - a) <= Abs(p - c))
          || (r == (f + b) % 256 && Abs(p - b) < Abs(p - a) && Abs(p - b) <= Abs(p - c))
          || (r == (f + c) % 256 && Abs(p - c) < Abs(p - a) && Abs(p - c) < Abs(p - b)))
  }

  predicate AllByFormula(filter: nat, filt: Row, prior: Row, row: Row, bpp: nat)
    requires |filt| == |prior| == |row| && bpp > 0
  {
    forall x :: 0 <= x < |filt| ==> ByFormula(filter, filt, prior, row, bpp, x)
  }

  lemma PredictionFormula(filter: nat, f: byte, a: byte, b: byte, c: byte)
    ensures Formula(filter, f, a, b, c, (f as nat + Prediction(filter, a, b, c)) % 256)
  {
    if filter == 4 {
      PaethFormula(f, a, b, c);
    } else {
      hide Paeth;
    }
  }

  lemma PaethFormula(f: byte, a: byte, b: byte, c: byte)
    ensures Formula(4, f, a, b, c, (f as nat + Paeth(a, b, c) as nat) % 256)
  {
  }

  lemma UnfilterPrefix(filter: nat, filt: Row, prior: Row, bpp: nat, k: nat, n: nat)
    requires bpp > 0 && k <= n <= |filt| == |prior|
    ensures UnfilterRow(filter, filt, prior, bpp, n)[..k] == UnfilterRow(filter, filt, prior, bpp, k)
    decreases n
  {
    hide PredictionAt;
    if k < n {
      UnfilterPrefix(filter, filt, prior, bpp, k, n - 1);
      var row := UnfilterRow(filter, filt, prior, bpp, n);
      assert row[..n - 1] == UnfilterRow(filter, filt, prior, bpp, n - 1);
      assert row[..k] == row[..n - 1][..k];
    }
  }

  /** Every byte of an unfiltered row obeys its formula. */
  lemma RowByFormula(filter: nat, filt: Row, prior: Row, bpp: nat, x: nat)
    requires bpp > 0 && x < |filt| == |prior|
    ensures ByFormula(filter, filt, prior, UnfilterRow(filter, filt, prior, bpp, |filt|), bpp, x)
  {
    hide Prediction, Formula;
    var row := UnfilterRow(filter, filt, prior, bpp, |filt|);
    var part := UnfilterRow(filter, filt, prior, bpp, x);
    UnfilterPrefix(filter, filt, prior, bpp, x, |filt|);
    UnfilterPrefix(filter, filt, prior, bpp, x + 1, |filt|);
    PredictionFormula(filter, filt[x], Left(part, x, bpp), prior[x], Left(prior, x, bpp));
    assert row[x] == row[..x + 1][x] == (filt[x] as nat + PredictionAt(filter, part, prior, x, bpp)) % 256;
    assert x >= bpp ==> row[x - bpp] == row[..x][x - bpp];
  }

  lemma WholeByFormula(filter: nat, filt: Row, prior: Row, bpp: nat)
    requires bpp > 0 && |filt| == |prior|
    ensures AllByFormula(filter, filt, prior, UnfilterRow(filter, filt, prior, bpp, |filt|), bpp)
  {
    hide ByFormula, UnfilterRow;
    forall x: nat | x < |filt|
      ensures ByFormula(filter, filt, prior, UnfilterRow(filter, filt, prior, bpp, |filt|), bpp, x)
    {
      RowByFormula(filter, filt, prior, bpp, x);
    }
  }

  /** The formulas fix the row. */
  lemma {:induction false} FormulaFixes(filter: nat, filt: Row, prior: Row, row: Row, row': Row, bpp: nat, n: nat)
    requires bpp > 0 && filter <= 4 && n <= |filt| == |prior| == |row| == |row'|
    requires AllByFormula(filter, filt, prior, row, bpp) && AllByFormula(filter, filt, prior, row', bpp)
    ensures row[..n] == row'[..n]
    decreases n
  {
    if n > 0 {
      FormulaFixes(filter, filt, prior, row, row', bpp, n - 1);
      var x := n - 1;
      assert x >= bpp ==> row[x - bpp] == row[..x][x - bpp] == row'[..x][x - bpp] == row'[x - bpp];
      assert ByFormula(filter, filt, prior, row, bpp, x) && ByFormula(filter, filt, prior, row', bpp, x);
      assert row[x] == row'[x];
    }
  }

  /** Row `y` of an image obeys the formulas of the filter in front of it, with the row above it, or `prior`. */
  predicate RowOfImage(raw: seq<byte>, rows: seq<Row>, prior: Row, bpp: nat, y: nat)
    requires bpp > 0 && y < |rows|
  {
    var (k, n) := (RowAt(|prior|, y), |prior|);
    var above := if y == 0 then prior else rows[y - 1];
    && k + 1 + n <= |raw| && |rows[y]| == |above| == n && (n > 0 ==> raw[k] <= 4)
    && AllByFormula(raw[k], raw[k + 1..k + 1 + n], above, rows[y], bpp)
  }

  /**
   * Every row of a decoded image obeys the formulas of the filter in front of it, with the row
   * above it, and `prior` above the first.
   */
  lemma {:induction false} ImageByFormula(raw: seq<byte>, height: nat, prior: Row, bpp: nat, y: nat)
    requires bpp > 0 && |raw| == height * (1 + |prior|) && y < height
    requires Decoded(raw, height, prior, bpp).Some?
    ensures var rows := Decoded(raw, height, prior, bpp).value; |rows| == height && RowOfImage(raw, rows, prior, bpp, y)
    decreases height
  {
    hide AllByFormula, UnfilterRow, RowOfImage;
    var n := |prior|;
    RowsLeft(height, 1 + n);
    var (row, rest) := (UnfilterRow(raw[0], raw[1..1 + n], prior, bpp, n), raw[1 + n..]);
    var rows := Decoded(raw, height, prior, bpp).value;
    assert rows == [row] + Decoded(rest, height - 1, row, bpp).value;
    assert rows[1..] == Decoded(rest, height - 1, row, bpp).value;
    if height > 1 {
      ImageByFormula(rest, height - 1, row, bpp, if y == 0 then 0 else y - 1);
    }
    if y == 0 {
      FirstOfImage(raw, rows, prior, bpp);
    } else {
      LaterOfImage(raw, rows, prior, bpp, y);
    }
  }

  lemma FirstOfImage(raw: seq<byte>, rows: seq<Row>, prior: Row, bpp: nat)
    requires bpp > 0 && |rows| > 0 && 1 + |prior| <= |raw| && (|prior| > 0 ==> raw[0] <= 4)
    requires rows[0] == UnfilterRow(raw[0], raw[1..1 + |prior|], prior, bpp, |prior|)
    ensures RowOfImage(raw, rows, prior, bpp, 0)
  {
    hide UnfilterRow, AllByFormula;
    WholeByFormula(raw[0], raw[1..1 + |prior|], prior, bpp);
  }

  lemma LaterOfImage(raw: seq<byte>, rows: seq<Row>, prior: Row, bpp: nat, y: nat)
    requires bpp > 0 && 0 < y < |rows| && 1 + |prior| <= |raw| && |rows[0]| == |prior|
    requires RowOfImage(raw[1 + |prior|..], rows[1..], rows[0], bpp, y - 1)
    ensures RowOfImage(raw, rows, prior, bpp, y)
  {
    hide AllByFormula;
    var (n, rest) := (|prior|, raw[1 + |prior|..]);
    RowStep(y, 1 + n);
    var k := RowAt(n, y - 1);
    assert rest[k] == raw[1 + n + k] && rest[k + 1..k + 1 + n] == raw[1 + n + k + 1..1 + n + k + 1 + n];
  }

  /** Where row `y` begins, with its filter's number. */
  function RowAt(n: nat, y: nat): nat {
    y * (1 + n)
  }

  lemma RowFits(height: nat, w: nat, y: nat)
    requires y < height
    ensures y * w + w <= height * w
  {
    MulAdd(y + 1, height - y - 1, w);
    assert (y + 1) * w == y * w + w;
  }

  lemma RowStep(y: nat, w: nat)
    requires y > 0
    ensures y * w == w + (y - 1) * w
  {
  }

  lemma {:induction false} ImageFails(raw: seq<byte>, height: nat, prior: Row, bpp: nat)
    requires bpp > 0 && |raw| == height * (1 + |prior|)
    ensures Decoded(raw, height, prior, bpp).None? <==>
      |prior| > 0 && exists y: nat :: y < height && FilterUnknown(raw, |prior|, y)
    decreases height
  {
    hide UnfilterRow;
    var n := |prior|;
    if height > 0 {
      RowsLeft(height, 1 + n);
      var row := UnfilterRow(raw[0], raw[1..1 + n], prior, bpp, n);
      var rest := raw[1 + n..];
      ImageFails(rest, height - 1, row, bpp);
      forall y: nat | 0 < y < height
        ensures FilterUnknown(raw, n, y) <==> FilterUnknown(rest, n, y - 1)
      {
        RowStep(y, 1 + n);
        RowFits(height, 1 + n, y);
      }
      if n > 0 && raw[0] <= 4 && (exists y: nat :: y < height - 1 && FilterUnknown(rest, n, y)) {
        var y: nat :| y < height - 1 && FilterUnknown(rest, n, y);
        assert FilterUnknown(raw, n, y + 1);
      }
      assert FilterUnknown(raw, n, 0) <==> raw[0] > 4;
    }
  }

  predicate FilterUnknown(raw: seq<byte>, n: nat, y: nat) {
    RowAt(n, y) < |raw| && raw[RowAt(n, y)] > 4
  }

  // ---------------------------------------------------------------- the loops

  /** The byte loop: `cur` receives the row; what it held before does not matter. */
  method UnfilterInto(filter: nat, filt: Row, prev: array<byte>, cur: array<byte>, bpp: nat) returns (ok: bool)
    requires bpp > 0 && prev.Length == cur.Length == |filt| && prev != cur
    modifies cur
    ensures ok == (filter <= 4 || |filt| == 0)
    ensures ok ==> cur[..] == UnfilterRow(filter, filt, prev[..], bpp, |filt|)
    ensures ok ==> AllByFormula(filter, filt, prev[..], cur[..], bpp)
  {
    hide Prediction, Paeth, AllByFormula;
    ghost var prior := prev[..];
    for x: nat := 0 to |filt|
      invariant prev[..] == prior && (x > 0 ==> filter <= 4)
      invariant cur[..x] == UnfilterRow(filter, filt, prior, bpp, x)
    {
      var rawByte: nat := filt[x];
      var a: nat := if x >= bpp then cur[x - bpp] else 0;
      var b: nat := prev[x];
      var c: nat := if x >= bpp then prev[x - bpp] else 0;
      if filter > 4 {
        return false;
      }
      Predicted(filter, a, b, c);
      var val := match filter
        case 0 => rawByte
        case 1 => rawByte + a
        case 2 => rawByte + b
        case 3 => rawByte + (a + b) / 2
        case _ => rawByte + Paeth(a, b, c) as nat;
      assert a == Left(cur[..x], x, bpp) as nat;
      cur[x] := val % 256;
    }
    ok := true;
    WholeByFormula(filter, filt, prior, bpp);
  }

  lemma Predicted(filter: nat, a: byte, b: byte, c: byte)
    ensures Prediction(filter, a, b, c) == match filter
      case 1 => a as nat
      case 2 => b as nat
      case 3 => (a as nat + b as nat) / 2
      case 4 => Paeth(a, b, c) as nat
      case _ => 0
  {
  }

  /** The row loop of `png_decode`, with its two row buffers that change places after each row. */
  method UnfilterImage(raw: seq<byte>, height: nat, bytesPerRow: nat, bpp: nat) returns (rows: Option<seq<Row>>)
    requires bpp > 0 && |raw| == height * (1 + bytesPerRow)
    ensures rows == Decoded(raw, height, Zeros(bytesPerRow), bpp)
  {
    hide UnfilterRow;
    var prevLine := new byte[bytesPerRow](_ => 0);
    var curLine := new byte[bytesPerRow](_ => 0);
    assert prevLine[..] == Zeros(bytesPerRow);
    var done: seq<Row> := [];
    var rest := raw;
    ghost var first := prevLine[..];
    BehindNone(Decoded(raw, height, first, bpp));
    for y: nat := 0 to height
      invariant prevLine != curLine && prevLine.Length == curLine.Length == bytesPerRow
      invariant fresh(prevLine) && fresh(curLine)
      invariant |rest| == (height - y) * (1 + bytesPerRow)
      invariant Decoded(raw, height, first, bpp) == Behind(done, Decoded(rest, height - y, prevLine[..], bpp))
    {
      RowsLeft(height - y, 1 + bytesPerRow);
      var filter, filt := rest[0], rest[1..1 + bytesPerRow];
      var ok := UnfilterInto(filter, filt, prevLine, curLine, bpp);
      if !ok {
        return None;
      }
      BehindStep(done, rest, height - y, prevLine[..], curLine[..], bpp);
      done := done + [curLine[..]];
      rest := rest[1 + bytesPerRow..];
      prevLine, curLine := curLine, prevLine;
    }
    assert done + [] == done;
    rows := Some(done);
  }

  /** Rows decoded before others. */
  function Behind(done: seq<Row>, r: Option<seq<Row>>): Option<seq<Row>> {
    if r.None? then None else Some(done + r.value)
  }

  lemma BehindStep(done: seq<Row>, rest: seq<byte>, left: nat, prior: Row, row: Row, bpp: nat)
    requires left > 0 && bpp > 0 && |rest| == left * (1 + |prior|)
    requires |rest| >= 1 + |prior| && row == UnfilterRow(rest[0], rest[1..1 + |prior|], prior, bpp, |prior|)
    requires rest[0] <= 4 || |prior| == 0
    ensures |rest[1 + |prior|..]| == (left - 1) * (1 + |row|)
    ensures Behind(done, Decoded(rest, left, prior, bpp))
      == Behind(done + [row], Decoded(rest[1 + |prior|..], left - 1, row, bpp))
  {
    hide UnfilterRow;
    RowsLeft(left, 1 + |prior|);
    var r := Decoded(rest[1 + |prior|..], left - 1, row, bpp);
    if r.Some? {
      assert done + ([row] + r.value) == done + [row] + r.value;
    }
  }

  lemma BehindNone(r: Option<seq<Row>>)
    ensures Behind([], r) == r
  {
    if r.Some? {
      assert [] + r.value == r.value;
    }
  }
}
