/** Two integer algorithms of the framebuffer: lines and square roots. */
module Raster {
  import opened Common
  import opened LineError

  // ---------------------------------------------------------------- lines

  datatype Point = Point(x: int, y: int)

  function Towards(from: int, to: int): int {
    if from < to then 1 else -1
  }

  /** The point `i` columns and `j` rows from `a` on the way to `b`. */
  function At(a: Point, b: Point, i: nat, j: nat): Point {
    Point(a.x + Towards(a.x, b.x) * i, a.y + Towards(a.y, b.y) * j)
  }

  /** No further from the line than half a step of the longer axis, measured along the shorter one. */
  predicate Near(dx: nat, dy: nat, i: nat, j: nat) {
    2 * Abs(dx * j - dy * i) <= Max(dx, dy)
  }

  /** A plotted point of the line from `a` to `b`, `k` points behind the first. */
  predicate OnLine(a: Point, b: Point, k: nat, p: Point) {
    var (dx, dy, i, j) := (Abs(b.x - a.x), Abs(b.y - a.y), Abs(p.x - a.x), Abs(p.y - a.y));
    && p == At(a, b, i, j) && i <= dx && j <= dy && Max(i, j) <= k && Near(dx, dy, i, j)
    && (if dx >= dy then i == k else j == k)
  }

  /** Each plotted point is on the line. */
  predicate Plotted(a: Point, b: Point, points: seq<Point>) {
    forall k :: 0 <= k < |points| ==> OnLine(a, b, k, points[k])
  }

  lemma PlottedNone(a: Point, b: Point)
    ensures Plotted(a, b, [])
  {
  }

  lemma PlottedMore(a: Point, b: Point, points: seq<Point>, p: Point)
    requires Plotted(a, b, points) && OnLine(a, b, |points|, p)
    ensures Plotted(a, b, points + [p])
  {
    hide OnLine;
  }

  /** A point of the bounding box that is at the end on the longer axis is at the end on the other. */
  lemma LongerEnds(dx: nat, dy: nat, i: nat, j: nat)
    requires Near(dx, dy, i, j) && i <= dx && j <= dy && (if dx >= dy then i == dx else j == dy)
    ensures i == dx && j == dy
  {
    if dx >= dy {
      assert dx * j - dy * i == dx * (j - dy);
      SmallMultiple(dx, j - dy);
    } else {
      assert dx * j - dy * i == dy * (dx - i);
      SmallMultiple(dy, dx - i);
    }
  }

  lemma SmallMultiple(d: nat, n: int)
    requires 2 * Abs(d * n) <= d && (d == 0 ==> n == 0)
    ensures n == 0
  {
    if n > 0 {
      MulAtLeast(n, d);
    } else if n < 0 {
      MulAtLeast(-n, d);
    }
  }

  lemma Beyond(dx: nat, dy: nat, i: nat, j: nat)
    requires i <= dx && j > dy
    ensures dx * j - dy * i >= dx
  {
    Mono(dy, i, dx);
    Mono(dx, dy + 1, j);
    assert dx * (dy + 1) == dx * dy + dx;
  }

  /** Near points do not leave the bounding box on the shorter axis. */
  lemma StaysInBox(dx: nat, dy: nat, i: nat, j: nat)
    requires Near(dx, dy, i, j) && (if dx >= dy then i <= dx && dx > 0 else j <= dy)
    ensures i <= dx && j <= dy
  {
    if dx >= dy && j > dy {
      Beyond(dx, dy, i, j);
    }
    if dx < dy && i > dx {
      Beyond(dy, dx, j, i);
    }
  }

  lemma Mono(a: nat, x: nat, y: nat)
    requires x <= y
    ensures a * x <= a * y
  {
    assert a * (y - x) >= 0;
  }

  /** The error term after `i` columns and `j` rows. */
  function Err(dx: nat, dy: nat, i: nat, j: nat): int {
    dx * j - dy * i + dx - dy
  }

  lemma ErrSteps(dx: nat, dy: nat, i: nat, j: nat)
    ensures Err(dx, dy, i + 1, j) == Err(dx, dy, i, j) - dy
    ensures Err(dx, dy, i, j + 1) == Err(dx, dy, i, j) + dx
    ensures Near(dx, dy, i, j) <==> 2 * Abs(Err(dx, dy, i, j) - dx + dy) <= Max(dx, dy)
  {
    assert dx * (j + 1) == dx * j + dx && dy * (i + 1) == dy * i + dy;
  }

  /** The two tests of a round: the longer axis always advances, and the next point is near as well. */
  lemma RoundKeepsNear(dx: nat, dy: nat, i: nat, j: nat, i': nat, j': nat)
    requires Near(dx, dy, i, j) && Max(dx, dy) > 0
    requires i' == (if 2 * Err(dx, dy, i, j) + dy >= 0 then i + 1 else i)
    requires j' == (if 2 * Err(dx, dy, i, j) <= dx then j + 1 else j)
    ensures Near(dx, dy, i', j')
    ensures Err(dx, dy, i', j') == Err(dx, dy, i, j) - (if i' > i then dy else 0) + (if j' > j then dx else 0)
    ensures if dx >= dy then i' == i + 1 else j' == j + 1
  {
    hide Near, Err;
    ErrSteps(dx, dy, i, j);
    ErrSteps(dx, dy, i', j);
    ErrSteps(dx, dy, i', j');
  }

  /**
   * `fb_line`: the points it plots, in order.  `LineError.ErrorFitsExact` says that the
   * condition on the extents is exactly that no intermediate value leaves 32 bits.
   */
  method Line(x0: int, y0: int, x1: int, y1: int) returns (points: seq<Point>)
    requires Int32(x0) && Int32(y0) && Int32(x1) && Int32(y1)
    requires ErrorFits(Abs(x1 - x0), Abs(y1 - y0))
    ensures var (a, b) := (Point(x0, y0), Point(x1, y1));
      && |points| == Max(Abs(x1 - x0), Abs(y1 - y0)) + 1
      && points[0] == a && points[|points| - 1] == b
      && Plotted(a, b, points)
  {
    hide Near, OnLine, Plotted, At, Err, ErrorFits, LineFits, ErrAt;
    var dx := if x1 > x0 then x1 - x0 else x0 - x1;
    var dy := -(if y1 > y0 then y1 - y0 else y0 - y1);
    var sx := if x0 < x1 then 1 else -1;
    var sy := if y0 < y1 then 1 else -1;
    var err := dx + dy;
    var x, y := x0, y0;
    points := [];
    ghost var (a, b, ax, ay) := (Point(x0, y0), Point(x1, y1), dx as nat, (-dy) as nat);
    ghost var i: nat, j: nat := 0, 0;
    StartNear(a, b, ax, ay);
    ErrorFitsExact(ax, ay);
    ErrStarts(ax, ay);
    assert Int32(dx) && Int32(dy) && Int32(err);
    PlottedNone(a, b);
    while true
      invariant Near(ax, ay, i, j) && i <= ax && j <= ay && |points| == if ax >= ay then i else j
      invariant Point(x, y) == At(a, b, i, j) && err == Err(ax, ay, i, j)
      invariant i <= |points| && j <= |points| && err == ErrAt(ax, ay, |points|)
      invariant |points| > 0 ==> points[0] == a
      invariant |points| == 0 ==> i == j == 0
      invariant Plotted(a, b, points)
      decreases Max(ax, ay) - |points|
    {
      PointOnLine(a, b, i, j);
      AtEnd(a, b, i, j);
      PlottedMore(a, b, points, Point(x, y));
      points := points + [Point(x, y)];
      if x == x1 && y == y1 {
        break;
      }
      NotAtEnd(ax, ay, i, j);
      var e2 := 2 * err;
      ghost var i', j' := if e2 >= dy then i + 1 else i, if e2 <= dx then j + 1 else j;
      RoundGoesOn(a, b, ax, ay, i, j, i', j', |points| - 1);
      assert Int32(e2);
      if e2 >= dy {
        assert Int32(err + dy);
        err := err + dy;
        x := x + sx;
      }
      if e2 <= dx {
        assert Int32(err + dx);
        err := err + dx;
        y := y + sy;
      }
      i, j := i', j';
    }
  }

  /** What a round makes of the point, the error term and the distances gone. */
  lemma RoundGoesOn(a: Point, b: Point, dx: nat, dy: nat, i: nat, j: nat, i': nat, j': nat, k: nat)
    requires Near(dx, dy, i, j) && i <= dx && j <= dy && k == (if dx >= dy then i else j) < Max(dx, dy)
    requires LineFits(dx, dy) && Err(dx, dy, i, j) == ErrAt(dx, dy, k)
    requires var e := ErrAt(dx, dy, k);
      i' == (if 2 * e + dy >= 0 then i + 1 else i) && j' == (if 2 * e <= dx then j + 1 else j)
    ensures Near(dx, dy, i', j') && i' <= dx && j' <= dy && k + 1 == if dx >= dy then i' else j'
    ensures var e := ErrAt(dx, dy, k);
      && Int32(2 * e)
      && (i' > i ==> Int32(e - dy) && (j' > j ==> Int32(e - dy + dx)))
      && (i' == i && j' > j ==> Int32(e + dx))
      && ErrAt(dx, dy, k + 1) == Err(dx, dy, i', j') == e - (if i' > i then dy else 0) + (if j' > j then dx else 0)
    ensures var (p, q) := (At(a, b, i, j), At(a, b, i', j'));
      && q.x == p.x + (if i' > i then Towards(a.x, b.x) else 0)
      && q.y == p.y + (if j' > j then Towards(a.y, b.y) else 0)
  {
    hide Near, Err, ErrAt, At, LineFits;
    RoundValues(dx, dy, k);
    RoundKeepsNear(dx, dy, i, j, i', j');
    AtStep(a, b, i, j);
    AtStep(a, b, i', j);
    StaysInBox(dx, dy, i', j');
  }

  lemma AtStep(a: Point, b: Point, i: nat, j: nat)
    ensures At(a, b, i + 1, j) == Point(At(a, b, i, j).x + Towards(a.x, b.x), At(a, b, i, j).y)
    ensures At(a, b, i, j + 1) == Point(At(a, b, i, j).x, At(a, b, i, j).y + Towards(a.y, b.y))
  {
  }

  lemma StartNear(a: Point, b: Point, dx: nat, dy: nat)
    ensures Near(dx, dy, 0, 0) && At(a, b, 0, 0) == a && Err(dx, dy, 0, 0) == dx - dy
  {
  }

  lemma Steps(from: int, to: int, n: nat)
    ensures Abs(from + Towards(from, to) * n - from) == n
    ensures n == Abs(to - from) <==> from + Towards(from, to) * n == to
  {
  }

  lemma PointOnLine(a: Point, b: Point, i: nat, j: nat)
    requires var (dx, dy) := (Abs(b.x - a.x), Abs(b.y - a.y));
      Near(dx, dy, i, j) && i <= dx && j <= dy && if dx >= dy then j <= i else i <= j
    ensures OnLine(a, b, Max(i, j), At(a, b, i, j))
  {
    hide Near;
    Steps(a.x, b.x, i);
    Steps(a.y, b.y, j);
  }

  lemma AtEnd(a: Point, b: Point, i: nat, j: nat)
    ensures At(a, b, i, j) == b <==> i == Abs(b.x - a.x) && j == Abs(b.y - a.y)
  {
    Steps(a.x, b.x, i);
    Steps(a.y, b.y, j);
  }

  /** In front of the end there is a step to go on the longer axis. */
  lemma NotAtEnd(dx: nat, dy: nat, i: nat, j: nat)
    requires Near(dx, dy, i, j) && i <= dx && j <= dy && !(i == dx && j == dy)
    ensures if dx >= dy then i < dx else j < dy
  {
    hide Near;
    if (dx >= dy && i == dx) || (dx < dy && j == dy) {
      LongerEnds(dx, dy, i, j);
    }
  }

  lemma ErrStarts(dx: nat, dy: nat)
    requires LineFits(dx, dy)
    ensures ErrAt(dx, dy, 0) == dx - dy && Int32(dx) && Int32(dy) && Int32(dx - dy)
  {
  }

  /** The values of round `k`. */
  lemma RoundValues(dx: nat, dy: nat, k: nat)
    requires LineFits(dx, dy) && k < Max(dx, dy)
    ensures var e := ErrAt(dx, dy, k);
      && Int32(2 * e)
      && (2 * e + dy >= 0 ==> Int32(e - dy) && (2 * e <= dx ==> Int32(e - dy + dx)))
      && (2 * e + dy < 0 && 2 * e <= dx ==> Int32(e + dx))
      && ErrAt(dx, dy, k + 1) == e - (if 2 * e + dy >= 0 then dy else 0) + (if 2 * e <= dx then dx else 0)
  {
    assert RoundFits(dx, dy, ErrAt(dx, dy, k));
  }

  // ---------------------------------------------------------------- square roots

  function Wrap32(x: nat): (r: nat)
    ensures r < TWO_32
  {
    x % TWO_32
  }

  /** An iterate of Newton's method is never below the root. */
  lemma NewtonAbove(n: nat, x: nat)
    requires x > 0
    ensures 0 <= n / x && (var y := (x + n / x) / 2; n < (y + 1) * (y + 1))
  {
    QuotientOf(n, x);
    var q: nat := n / x;
    var y: nat := (x + q) / 2;
    var t := x + q + 1;
    FourProducts(x, q + 1);
    Doubles(y + 1, t);
    assert 4 * n < 4 * (x * (q + 1));
  }

  lemma QuotientOf(n: nat, x: nat)
    requires x > 0
    ensures 0 <= n / x && x * (n / x) <= n < x * (n / x + 1)
  {
    var q := n / x;
    assert n == x * q + n % x;
    if q < 0 {
      MulAtLeast(-q, x);
    }
    assert x * (q + 1) == x * q + x;
  }

  /** The square of a sum is at least four times the product. */
  lemma FourProducts(a: nat, b: nat)
    ensures 4 * (a * b) <= (a + b) * (a + b)
  {
    var d := a - b;
    assert d * d >= 0;
    assert (a + b) * (a + b) == a * a + 2 * (a * b) + b * b;
    assert d * d == a * a - 2 * (a * b) + b * b;
  }

  lemma Doubles(y: nat, t: nat)
    requires t <= 2 * y
    ensures t * t <= 4 * (y * y)
  {
    Mono(t, t, 2 * y);
    Mono(2 * y, t, 2 * y);
  }

  /** The sum of a divisor and its quotient stays in range. */
  lemma SumFits(n: nat, x: nat)
    requires 1 <= x <= n
    ensures 0 <= n / x && x + n / x <= n + 1
  {
    QuotientOf(n, x);
    var q: nat := n / x;
    assert x * (q + 1) == x * q + x;
    if q > 0 {
      MulSigns(x - 1, q - 1);
      assert (x - 1) * (q - 1) == x * q - x - q + 1;
    }
  }

  lemma MulSigns(a: nat, b: nat)
    ensures a * b >= 0
  {
  }

  /** Where the iteration stops the iterate is not above the root. */
  lemma NewtonStops(n: nat, x: nat, y: nat)
    requires Iterate(n, x, y) && y >= x
    ensures x * x <= n < (x + 1) * (x + 1)
  {
    QuotientOf(n, x);
    Mono(x, x, n / x);
  }

  /** `isqrt32`: the square root rounded down of every number but the largest, for which it divides by zero. */
  method Isqrt(n: nat) returns (r: Option<nat>)
    requires n < TWO_32
    ensures r.None? <==> n == TWO_32 - 1
    ensures r.Some? ==> r.value * r.value <= n < (r.value + 1) * (r.value + 1)
  {
    hide Iterate, Wrap32;
    if n == 0 {
      return Some(0);
    }
    var x: nat, y: nat := n, Wrap32(n + 1) / 2;
    if n < TWO_32 - 1 {
      FirstIterate(n);
    } else {
      LastWraps();
    }
    while y < x
      invariant x < TWO_32 && y < TWO_32
      invariant n == TWO_32 - 1 ==> x == n && y == 0
      invariant n < TWO_32 - 1 ==> Iterate(n, x, y)
      decreases x
    {
      if n < TWO_32 - 1 {
        NextIterate(n, x, y);
      }
      x := y;
      if x == 0 {
        return None;
      }
      y := Wrap32(x + n / x) / 2;
    }
    NewtonStops(n, x, y);
    r := Some(x);
  }

  /** Two consecutive iterates, both at least the root. */
  predicate Iterate(n: nat, x: nat, y: nat) {
    && 1 <= x <= n && 1 <= y && n < (x + 1) * (x + 1) && n < (y + 1) * (y + 1)
    && 0 <= n / x && y == (x + n / x) / 2
  }

  lemma FirstIterate(n: nat)
    requires 0 < n < TWO_32 - 1
    ensures Wrap32(n + 1) == n + 1 && Iterate(n, n, (n + 1) / 2)
  {
    SumFits(n, n);
    QuotientOf(n, n);
    assert n / n == 1;
    NewtonAbove(n, n);
    assert (n + 1) * (n + 1) == n * n + 2 * n + 1;
  }

  lemma LastWraps()
    ensures Wrap32(TWO_32) == 0
  {
  }

  lemma NextIterate(n: nat, x0: nat, x: nat)
    requires 0 < n < TWO_32 - 1 && Iterate(n, x0, x) && x < x0
    ensures 1 <= x <= n && 0 <= n / x && Wrap32(x + n / x) == x + n / x && Iterate(n, x, (x + n / x) / 2)
  {
    SumFits(n, x);
    NewtonAbove(n, x);
    QuotientOf(n, x);
  }
}
