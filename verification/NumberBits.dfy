/** Binary digits of numbers. */
module NumberBits {
  import opened Common

  /** Bit `i` of `x` is set. */
  predicate BitAt(x: nat, i: nat) {
    if i == 0 then x % 2 == 1 else BitAt(x / 2, i - 1)
  }

  lemma {:induction false} BitAtIs(x: nat, i: nat)
    ensures BitAt(x, i) <==> Shifted(x, Pow2(i)) % 2 == 1
    decreases i
  {
    if i > 0 {
      BitAtIs(x / 2, i - 1);
      DivideTwice(x, Pow2(i - 1));
    }
  }

  lemma DivideTwice(x: nat, p: nat)
    requires p > 0
    ensures x / 2 / p == x / (2 * p)
  {
    var (q, r) := (x / 2 / p, x / 2 % p);
    assert x / 2 == p * q + r;
    assert x == 2 * (p * q + r) + x % 2;
    QuotientIs(x, q, 2 * p, 2 * r + x % 2);
  }

  lemma QuotientIs(x: nat, q: nat, n: nat, r: nat)
    requires r < n && x == q * n + r
    ensures x / n == q
  {
    assert x == n * (x / n) + x % n;
    RemainderIs(q, n, r, x / n, x % n);
  }

  lemma {:induction false} ZeroBits(i: nat)
    ensures !BitAt(0, i)
  {
    if i > 0 {
      ZeroBits(i - 1);
    }
  }

  /** A number is fixed by its bits. */
  lemma {:induction false} SameBits(x: nat, y: nat)
    requires forall i: nat :: BitAt(x, i) <==> BitAt(y, i)
    ensures x == y
    decreases x + y
  {
    assert BitAt(x, 0) <==> BitAt(y, 0);
    if x > 0 || y > 0 {
      forall i: nat
        ensures BitAt(x / 2, i) <==> BitAt(y / 2, i)
      {
        assert BitAt(x, i + 1) <==> BitAt(y, i + 1);
      }
      SameBits(x / 2, y / 2);
    }
  }

  /** A multiple of a power of two has zeros at the bottom. */
  lemma {:induction false} TimesBits(x: nat, k: nat, i: nat)
    ensures BitAt(x * Pow2(k), i) <==> k <= i && BitAt(x, i - k)
    decreases k
  {
    if k > 0 {
      assert x * Pow2(k) == 2 * (x * Pow2(k - 1));
      if i > 0 {
        TimesBits(x, k - 1, i - 1);
      }
    }
  }

  /** `x` over a power of two. */
  function Shifted(x: nat, p: nat): nat
    requires p > 0
  {
    x / p
  }

  lemma {:induction false} QuotientBits(x: nat, k: nat, i: nat)
    ensures BitAt(Shifted(x, Pow2(k)), i) <==> BitAt(x, i + k)
    decreases k
  {
    if k > 0 {
      DivideTwice(x, Pow2(k - 1));
      QuotientBits(x / 2, k - 1, i);
    }
  }

  lemma {:induction false} RemainderBits(x: nat, k: nat, i: nat)
    ensures BitAt(x % Pow2(k), i) <==> i < k && BitAt(x, i)
    decreases k
  {
    if k == 0 {
      ZeroBits(i);
    } else {
      HalfRemainder(x, Pow2(k - 1));
      if i > 0 {
        RemainderBits(x / 2, k - 1, i - 1);
      }
    }
  }

  lemma HalfRemainder(x: nat, p: nat)
    requires p > 0
    ensures x % (2 * p) / 2 == x / 2 % p && x % (2 * p) % 2 == x % 2
  {
    var (q, r) := (x / 2 / p, x / 2 % p);
    assert x / 2 == p * q + r;
    assert x == 2 * (p * q + r) + x % 2;
    ModIs(x, q, 2 * p, 2 * r + x % 2);
  }

  lemma {:induction false} PowSum(a: nat, b: nat)
    ensures Pow2(a + b) == Pow2(a) * Pow2(b)
    decreases b
  {
    if b > 0 {
      PowSum(a, b - 1);
      assert Pow2(a + b) == 2 * (Pow2(a) * Pow2(b - 1));
    }
  }
}
