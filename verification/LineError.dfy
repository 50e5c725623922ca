/** The error term of the line loop of the framebuffer, and when it stays within 32 bits. */
module LineError {
  import opened Common

  const TWO_31 := 0x8000_0000

  predicate Int32(x: int) {
    -TWO_31 <= x < TWO_31
  }

  // ---------------------------------------------------------------- the rounds of the loop

  /** The error term at the start of round `k` of a line with these extents. */
  function ErrAt(dx: nat, dy: nat, k: nat): int {
    if k == 0 then dx - dy
    else
      var e := ErrAt(dx, dy, k - 1);
      e - (if 2 * e + dy >= 0 then dy else 0) + (if 2 * e <= dx then dx else 0)
  }

  /** No value of a round that begins with `e` leaves 32 bits. */
  predicate RoundFits(dx: nat, dy: nat, e: int) {
    var e1 := if 2 * e + dy >= 0 then e - dy else e;
    Int32(e) && Int32(2 * e) && Int32(e1) && Int32(if 2 * e <= dx then e1 + dx else e1)
  }

  /** No value of the whole loop leaves 32 bits. */
  ghost predicate LineFits(dx: nat, dy: nat) {
    && Int32(dx) && Int32(dy) && Int32(dx - dy)
    && forall k: nat :: k < Max(dx, dy) ==> RoundFits(dx, dy, ErrAt(dx, dy, k))
  }

  // ---------------------------------------------------------------- remainders

  /** The remainder of -s * k by l that is nearest to 0. */
  function Rem(l: nat, s: nat, k: nat): int {
    if k == 0 then 0
    else
      var r := Rem(l, s, k - 1) - s;
      if 2 * r + l <= 0 then r + l else r
  }

  /** More than minus half, and at most half, of `l`. */
  predicate InWindow(l: nat, r: int) {
    0 < 2 * r + l && 2 * r <= l
  }

  function Turns(l: nat, s: nat, k: nat): nat {
    if k == 0 then 0
    else Turns(l, s, k - 1) + if 2 * (Rem(l, s, k - 1) - s) + l <= 0 then 1 else 0
  }

  lemma {:induction false} RemWindow(l: nat, s: nat, k: nat)
    requires s <= l && 0 < l
    ensures InWindow(l, Rem(l, s, k))
  {
    if k > 0 {
      RemWindow(l, s, k - 1);
    }
  }

  lemma {:induction false} RemTurns(l: nat, s: nat, k: nat)
    ensures Rem(l, s, k) == l * Turns(l, s, k) - s * k
  {
    if k > 0 {
      RemTurns(l, s, k - 1);
      var t := Turns(l, s, k - 1);
      assert s * k == s * (k - 1) + s && l * (t + 1) == l * t + l;
    }
  }

  /** The error term is the remainder of the longer extent, up to sign and a constant. */
  lemma {:induction false} ErrIsRem(dx: nat, dy: nat, k: nat)
    requires Max(dx, dy) > 0
    ensures ErrAt(dx, dy, k) == dx - dy + if dx >= dy then Rem(dx, dy, k) else -Rem(dy, dx, k)
  {
    if k > 0 {
      ErrIsRem(dx, dy, k - 1);
      RemWindow(Max(dx, dy), Min(dx, dy), k - 1);
    }
  }

  // ---------------------------------------------------------------- greatest common divisors

  function Gcd(a: nat, b: nat): nat
    decreases b
  {
    if b == 0 then a else Gcd(b, a % b)
  }

  lemma {:induction false} GcdDivides(a: nat, b: nat)
    requires a > 0
    ensures Gcd(a, b) > 0 && a % Gcd(a, b) == 0 && b % Gcd(a, b) == 0
    decreases b
  {
    if b == 0 {
      ModIs(a, 1, a, 0);
      ModIs(0, 0, a, 0);
    } else {
      GcdDivides(b, a % b);
      var (g, q, r) := (Gcd(a, b), a / b, a % b);
      assert a == b * q + r;
      SumDivides(g, b, q, r);
    }
  }

  lemma SumDivides(g: nat, b: nat, q: int, r: nat)
    requires g > 0 && b % g == 0 && r % g == 0
    ensures (b * q + r) % g == 0
  {
    var (m, n) := (b / g, r / g);
    assert b == g * m && r == g * n;
    ProductSum(g, m, q, n);
    ModIs(b * q + r, m * q + n, g, 0);
  }

  lemma ProductSum(g: nat, m: int, q: int, n: int)
    ensures g * m * q + g * n == (m * q + n) * g
  {
  }

  lemma {:induction false} Bezout(a: nat, b: nat) returns (x: int, y: int)
    ensures a * x + b * y == Gcd(a, b)
    decreases b
  {
    if b == 0 {
      x, y := 1, 0;
    } else {
      var (q, r) := (a / b, a % b);
      var u, v := Bezout(b, r);
      x, y := v, u - q * v;
      assert a == b * q + r;
      assert a * v == b * q * v + r * v && b * (u - q * v) == b * u - b * (q * v) && b * q * v == b * (q * v);
    }
  }

  // ---------------------------------------------------------------- the remainders that occur

  /** The largest multiple of the common divisor that is at most half of `l`. */
  function Half(l: nat, s: nat): nat
    requires l > 0
  {
    var (g, p) := (Gcd(l, s), Cofactor(l, s));
    g * (p / 2)
  }

  /** The largest multiple of it that is less than half of `l`. */
  function BelowHalf(l: nat, s: nat): nat
    requires l > 0
  {
    var (g, p) := (Gcd(l, s), Cofactor(l, s));
    g * ((p - 1) / 2)
  }

  /** `l` over the common divisor. */
  function Cofactor(l: nat, s: nat): (p: nat)
    requires l > 0
    ensures p > 0 && l == Gcd(l, s) * p
  {
    GcdDivides(l, s);
    Quotient(l, Gcd(l, s));
    l / Gcd(l, s)
  }

  lemma Quotient(l: nat, g: nat)
    requires l > 0 && g > 0 && l % g == 0
    ensures l / g > 0 && l == g * (l / g)
  {
    NoneLeft(l, g, l / g);
  }

  lemma NoneLeft(l: nat, g: nat, q: int)
    requires l > 0 && l == g * q
    ensures q > 0
  {
  }

  lemma Other(l: nat, s: nat) returns (q: nat)
    requires l > 0
    ensures s == Gcd(l, s) * q
  {
    GcdDivides(l, s);
    q := s / Gcd(l, s);
  }

  /** Every remainder is a multiple of the common divisor. */
  lemma RemMultiple(l: nat, s: nat, k: nat) returns (m: int)
    requires l > 0
    ensures Rem(l, s, k) == Gcd(l, s) * m
  {
    hide Gcd, Rem, Turns;
    RemTurns(l, s, k);
    var (g, p, t) := (Gcd(l, s), Cofactor(l, s), Turns(l, s, k));
    var q := Other(l, s);
    m := p * t - q * k;
    Distribute(g, p, t, q, k);
  }

  lemma Distribute(g: int, p: int, t: int, q: int, k: int)
    ensures g * (p * t - q * k) == g * p * t - g * q * k
  {
    assert g * (p * t - q * k) == g * (p * t) - g * (q * k);
  }

  /** Every multiple of it between minus and plus half of `l` occurs among the first `l` remainders. */
  lemma Occurs(l: nat, s: nat, m: int) returns (k: nat)
    requires 0 < l && s <= l && InWindow(l, Gcd(l, s) * m)
    ensures k < l && Rem(l, s, k) == Gcd(l, s) * m
  {
    hide Gcd, Rem, Turns;
    var g := Gcd(l, s);
    var x, y := Bezout(l, s);
    var p, k' := Divided(-(y * m), l);
    k := k';
    RemTurns(l, s, k);
    RemWindow(l, s, k);
    var t := Turns(l, s, k);
    var r := g * m;
    MultipleOf(l, s, g, x, y, m, k, p, t);
    SmallDifference(l, Rem(l, s, k) - r, t + s * p - x * m);
  }

  lemma Divided(n: int, l: nat) returns (q: int, r: nat)
    requires l > 0
    ensures n == l * q + r && r < l
  {
    q, r := n / l, n % l;
  }

  lemma MultipleOf(l: nat, s: nat, g: nat, x: int, y: int, m: int, k: nat, p: int, t: nat)
    requires l * x + s * y == g && -(y * m) == l * p + k
    ensures l * t - s * k - g * m == l * (t + s * p - x * m)
  {
    assert k == -(y * m) - l * p;
    assert s * k == -(s * (y * m)) - s * (l * p);
    assert g * m == l * x * m + s * y * m;
    assert s * y * m == s * (y * m) && l * x * m == l * (x * m) && s * (l * p) == l * (s * p);
    assert l * (t + s * p - x * m) == l * t + l * (s * p) - l * (x * m);
  }

  lemma SmallDifference(l: nat, d: int, z: int)
    requires d == l * z && 0 < d + l && d < l
    ensures d == 0
  {
    if z > 0 {
      MulAtLeast(z, l);
    } else if z < 0 {
      MulAtLeast(-z, l);
    }
  }

  /** The bounds of the remainders. */
  lemma RemBounds(l: nat, s: nat, k: nat)
    requires 0 < l && s <= l
    ensures 0 <= Rem(l, s, k) + BelowHalf(l, s) && Rem(l, s, k) <= Half(l, s)
    ensures 2 * (Rem(l, s, k) - s) + l <= 0 ==> Rem(l, s, k) <= s - l + Half(l, s)
  {
    GcdDivides(l, s);
    RemWindow(l, s, k);
    var m := RemMultiple(l, s, k);
    MultipleBounds(l, s, m);
  }

  lemma MultipleBounds(l: nat, s: nat, m: int)
    requires 0 < l && s <= l && InWindow(l, Gcd(l, s) * m)
    ensures 0 <= Gcd(l, s) * m + BelowHalf(l, s) && Gcd(l, s) * m <= Half(l, s)
    ensures 2 * (Gcd(l, s) * m - s) + l <= 0 ==> Gcd(l, s) * m <= s - l + Half(l, s)
  {
    GcdDivides(l, s);
    hide Gcd;
    var q := Other(l, s);
    BoundsBy(Gcd(l, s), Cofactor(l, s), q, m);
  }

  lemma BoundsBy(g: nat, p: nat, q: nat, m: int)
    requires g > 0 && p > 0 && 0 < 2 * (g * m) + g * p && 2 * (g * m) <= g * p
    ensures 0 <= g * m + g * ((p - 1) / 2) && g * m <= g * (p / 2)
    ensures 2 * (g * m - g * q) + g * p <= 0 ==> g * m <= g * q - g * p + g * (p / 2)
  {
    AtMostHalf(g, p, m);
    AtLeastMinusHalf(g, p, m);
    if 2 * (g * m - g * q) + g * p <= 0 {
      ShiftedHalf(g, p, q, m);
    }
  }

  lemma AtMostHalf(g: nat, p: nat, m: int)
    requires g > 0 && 2 * (g * m) <= g * p
    ensures g * m <= g * (p / 2)
  {
    Minus(g, p, 2 * m);
    Minus(g, p / 2, m);
    Scaled(g, p - 2 * m);
    Scaled(g, p / 2 - m);
  }

  lemma AtLeastMinusHalf(g: nat, p: nat, m: int)
    requires g > 0 && p > 0 && 0 < 2 * (g * m) + g * p
    ensures 0 <= g * m + g * ((p - 1) / 2)
  {
    Minus(g, p, -2 * m);
    Minus(g, (p - 1) / 2, -m);
    Scaled(g, p + 2 * m);
    Scaled(g, (p - 1) / 2 + m);
  }

  lemma ShiftedHalf(g: nat, p: nat, q: nat, m: int)
    requires g > 0 && 2 * (g * m - g * q) + g * p <= 0
    ensures g * m <= g * q - g * p + g * (p / 2)
  {
    Minus(g, m, q);
    var n: int := p;
    Minus(g, -n, 2 * (m - q));
    Minus(g, p / 2 - p, m - q);
    Minus(g, p / 2, p);
    Scaled(g, -n - 2 * (m - q));
    Scaled(g, p / 2 - p - (m - q));
  }

  lemma Minus(g: int, a: int, b: int)
    ensures g * (a - b) == g * a - g * b
    ensures g * (2 * a) == 2 * (g * a) && g * (2 * b) == 2 * (g * b) && g * -a == -(g * a) && g * -b == -(g * b)
  {
  }

  /** A positive factor does not change the sign. */
  lemma Scaled(g: nat, a: int)
    requires g > 0
    ensures (a >= 0 <==> g * a >= 0) && (a > 0 <==> g * a > 0)
  {
  }

  // ---------------------------------------------------------------- the exact condition

  /** Extents for which no intermediate value of the line loop leaves 32 bits. */
  predicate ErrorFits(dx: nat, dy: nat) {
    var (l, s) := (Max(dx, dy), Min(dx, dy));
    && l < TWO_31
    && (l > 0 ==>
          if dx >= dy then 2 * (Half(l, s) + l - s) < TWO_31 && 2 * s - l + BelowHalf(l, s) <= TWO_31
          else 2 * (Half(l, s) + l - s) <= TWO_31 && (s > 0 ==> l + Half(l, s) <= TWO_31))
  }

  /** The condition is exact. */
  lemma ErrorFitsExact(dx: nat, dy: nat)
    ensures ErrorFits(dx, dy) <==> LineFits(dx, dy)
  {
    hide RoundFits, ErrAt, Half, BelowHalf;
    var (l, s) := (Max(dx, dy), Min(dx, dy));
    if l > 0 && ErrorFits(dx, dy) {
      forall k: nat | k < l
        ensures RoundFits(dx, dy, ErrAt(dx, dy, k))
      {
        EveryRoundFits(dx, dy, k);
      }
    }
    if l > 0 && LineFits(dx, dy) {
      MostFits(dx, dy);
      OtherFits(dx, dy);
    }
  }

  /** The next remainder, and with it the next error term, is bounded like this one. */
  lemma EveryRoundFits(dx: nat, dy: nat, k: nat)
    requires ErrorFits(dx, dy) && k < Max(dx, dy)
    ensures RoundFits(dx, dy, ErrAt(dx, dy, k))
  {
    hide Half, BelowHalf, Gcd, Rem, ErrAt, RoundFits, ErrorFits;
    var (l, s) := (Max(dx, dy), Min(dx, dy));
    ErrIsRem(dx, dy, k);
    RemBounds(l, s, k);
    RemBounds(l, s, k + 1);
    RemWindow(l, s, k);
    RemNext(l, s, k);
    FitsBy(dx, dy, Rem(l, s, k), Rem(l, s, k + 1));
  }

  lemma FitsBy(dx: nat, dy: nat, r: int, r': int)
    requires ErrorFits(dx, dy) && Max(dx, dy) > 0
    requires var (l, s) := (Max(dx, dy), Min(dx, dy));
      && InWindow(l, r) && 0 <= r + BelowHalf(l, s) && r <= Half(l, s) && r' <= Half(l, s)
      && r' == (if 2 * (r - s) + l <= 0 then r - s + l else r - s)
      && (2 * (r - s) + l <= 0 ==> r <= s - l + Half(l, s))
    ensures RoundFits(dx, dy, dx - dy + if dx >= dy then r else -r)
  {
    hide Half, BelowHalf;
  }

  lemma RemNext(l: nat, s: nat, k: nat)
    ensures var r := Rem(l, s, k) - s; Rem(l, s, k + 1) == if 2 * r + l <= 0 then r + l else r
  {
  }

  /** The round in which the remainder is largest. */
  lemma MostFits(dx: nat, dy: nat)
    requires LineFits(dx, dy) && Max(dx, dy) > 0
    ensures var (l, s) := (Max(dx, dy), Min(dx, dy));
      if dx >= dy then 2 * (Half(l, s) + l - s) < TWO_31 else 2 * (Half(l, s) + l - s) <= TWO_31
  {
    hide Rem, ErrAt;
    var (l, s) := (Max(dx, dy), Min(dx, dy));
    var m := Cofactor(l, s) / 2;
    HalfInWindow(l, s);
    var k := Occurs(l, s, m);
    ErrIsRem(dx, dy, k);
    assert RoundFits(dx, dy, ErrAt(dx, dy, k));
  }

  lemma HalfInWindow(l: nat, s: nat)
    requires l > 0
    ensures InWindow(l, Half(l, s)) && Half(l, s) == Gcd(l, s) * (Cofactor(l, s) / 2)
  {
    GcdDivides(l, s);
    hide Gcd;
    var (g, p) := (Gcd(l, s), Cofactor(l, s));
    Minus(g, p, 2 * (p / 2));
    Scaled(g, p - 2 * (p / 2));
    Minus(g, p / 2, 0);
    Scaled(g, p / 2);
  }

  lemma BelowInWindow(l: nat, s: nat)
    requires l > 0
    ensures InWindow(l, 0 - BelowHalf(l, s)) && BelowHalf(l, s) == Gcd(l, s) * ((Cofactor(l, s) - 1) / 2)
  {
    GcdDivides(l, s);
    hide Gcd;
    var (g, p) := (Gcd(l, s), Cofactor(l, s));
    Minus(g, p, 2 * ((p - 1) / 2));
    Scaled(g, p - 2 * ((p - 1) / 2));
    Minus(g, (p - 1) / 2, 0);
    Scaled(g, (p - 1) / 2);
  }

  /** The round in which the remainder is least, or least short of a step on the shorter axis. */
  lemma OtherFits(dx: nat, dy: nat)
    requires LineFits(dx, dy) && Max(dx, dy) > 0
    ensures var (l, s) := (Max(dx, dy), Min(dx, dy));
      if dx >= dy then 2 * s - l + BelowHalf(l, s) <= TWO_31 else s > 0 ==> l + Half(l, s) <= TWO_31
  {
    hide Rem, ErrAt, Half, BelowHalf;
    var (l, s) := (Max(dx, dy), Min(dx, dy));
    if dx >= dy {
      BelowInWindow(l, s);
      var m := -((Cofactor(l, s) - 1) / 2);
      NegatedIs(l, s);
      var k := Occurs(l, s, m);
      ErrIsRem(dx, dy, k);
      RemWindow(l, s, k);
      assert RoundFits(dx, dy, ErrAt(dx, dy, k));
    } else if s > 0 {
      var m := WrapMultiple(l, s);
      var k := Occurs(l, s, m);
      ErrIsRem(dx, dy, k);
      assert RoundFits(dx, dy, ErrAt(dx, dy, k));
    }
  }

  lemma NegatedIs(l: nat, s: nat)
    requires l > 0
    ensures Gcd(l, s) * -((Cofactor(l, s) - 1) / 2) == 0 - BelowHalf(l, s)
  {
    hide Gcd;
    Minus(Gcd(l, s), (Cofactor(l, s) - 1) / 2, 0);
  }

  /** The largest remainder from which the next round wraps. */
  lemma WrapMultiple(l: nat, s: nat) returns (m: int)
    requires 0 < s <= l
    ensures Gcd(l, s) * m == s - l + Half(l, s) && InWindow(l, Gcd(l, s) * m)
    ensures 2 * (Gcd(l, s) * m - s) + l <= 0
  {
    GcdDivides(l, s);
    HalfInWindow(l, s);
    hide Gcd;
    var (g, p) := (Gcd(l, s), Cofactor(l, s));
    var q := Other(l, s);
    NoneLeft(s, g, q);
    m := WrapBy(g, p, q);
  }

  lemma WrapBy(g: nat, p: int, q: nat) returns (m: int)
    requires g > 0 && p > 0 && q > 0
    ensures g * m == g * q - g * p + g * (p / 2)
    ensures 0 < 2 * (g * m) + g * p && 2 * (g * m - g * q) + g * p <= 0
  {
    m := q - p + p / 2;
    Minus(g, q - p, -(p / 2));
    Minus(g, q, p);
    Minus(g, 2 * m, -p);
    Minus(g, 2 * (m - q), -p);
    Minus(g, m, q);
    Scaled(g, 2 * m + p);
    Scaled(g, -(2 * (m - q) + p));
    Minus(g, 2 * (m - q) + p, 0);
  }
}
