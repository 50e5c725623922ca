/** Small helpers shared by every component of the kernel model. */
module Common {

  /** A value that may be absent: C's NULL, `(size_t)-1` or cluster number 0. */
  datatype Option<+T> = None | Some(value: T)

  type byte = n: nat | n < 256

  const TWO_64 := 0x1_0000_0000_0000_0000
  const TWO_32 := 0x1_0000_0000

  /** The virtual base of the kernel's map of physical memory. */
  const DIRECT_MAP_OFFSET := 0xFFFF_8800_0000_0000

  /** The virtual address at which the kernel heap begins: behind 4 GiB of direct map. */
  const HEAP_START := DIRECT_MAP_OFFSET + 0x1_0000_0000

  function Abs(x: int): nat {
    if x >= 0 then x else -x
  }

  function Max(x: nat, y: nat): nat {
    if x >= y then x else y
  }

  function Min(x: nat, y: nat): nat {
    if x >= y then y else x
  }

  /** The value of a `size_t` expression. */
  function Wrap(x: int): (r: nat)
    ensures 0 <= r < TWO_64
    ensures 0 <= x < TWO_64 ==> r == x
  {
    x % TWO_64
  }

  /** The addresses (or indices) in the half-open interval [lo, hi). */
  function Range(lo: nat, hi: nat): (s: set<nat>)
    ensures forall i :: i in s <==> lo <= i < hi
    decreases hi - lo
  {
    if hi <= lo then {} else {hi - 1} + Range(lo, hi - 1)
  }

  lemma {:induction false} RangeSize(lo: nat, hi: nat)
    requires lo <= hi
    ensures |Range(lo, hi)| == hi - lo
    decreases hi - lo
  {
    if lo < hi {
      RangeSize(lo, hi - 1);
    }
  }

  /** The element at `k`, or NULL beyond either end. */
  function At(l: seq<nat>, k: int): nat {
    if 0 <= k < |l| then l[k] else 0
  }

  /** A list without its element at `k`. */
  function Without(l: seq<nat>, k: nat): seq<nat>
    requires k < |l|
  {
    l[..k] + l[k + 1..]
  }

  lemma WithoutAt(l: seq<nat>, k: nat)
    requires k < |l|
    ensures |Without(l, k)| == |l| - 1
    ensures forall j :: 0 <= j < |l| - 1 ==> Without(l, k)[j] == l[if j < k then j else j + 1]
  {
  }

  /** Neighbours in a list without its element at `k`. */
  lemma AtWithout(l: seq<nat>, k: nat, j: int)
    requires k < |l| && -1 <= j < |l|
    ensures At(Without(l, k), j) == if j < k then At(l, j) else At(l, j + 1)
  {
  }

  lemma WithoutMembers(l: seq<nat>, k: nat)
    requires k < |l| && forall i, j :: 0 <= i < j < |l| ==> l[i] != l[j]
    ensures forall x :: x in Without(l, k) <==> x in l && x != l[k]
  {
    WithoutAt(l, k);
    forall x | x in l && x != l[k]
      ensures x in Without(l, k)
    {
      var i :| 0 <= i < |l| && l[i] == x;
      assert Without(l, k)[if i < k then i else i - 1] == x;
    }
  }

  lemma MulAtLeast(d: int, n: int)
    requires d >= 1 && n > 0
    ensures d * n >= n
  {
  }

  lemma RemainderIs(q: int, n: int, r: int, q': int, r': int)
    requires 0 <= r < n && 0 <= r' < n && q * n + r == q' * n + r'
    ensures r == r' && q == q'
  {
    if q > q' {
      MulAtLeast(q - q', n);
    } else if q < q' {
      MulAtLeast(q' - q, n);
    }
  }

  lemma ModIs(x: int, q: int, n: int, r: int)
    requires 0 <= r < n && x == q * n + r
    ensures x % n == r
  {
    assert x == n * (x / n) + x % n;
    RemainderIs(q, n, r, x / n, x % n);
  }

  lemma MulAdd(a: nat, b: nat, k: nat)
    ensures (a + b) * k == a * k + b * k
    ensures 0 <= a * k <= (a + b) * k
  {
  }

  function Pow2(n: nat): (p: nat)
    ensures p > 0
  {
    if n == 0 then 1 else 2 * Pow2(n - 1)
  }

  function Zeros(n: nat): (z: seq<byte>)
    ensures |z| == n && forall i :: 0 <= i < n ==> z[i] == 0
  {
    seq(n, _ => 0)
  }

  lemma SubsetSize(a: set<nat>, b: set<nat>)
    requires a <= b
    ensures |a| <= |b|
  {
    assert b == a + (b - a);
  }

  function Elements(s: seq<nat>): (e: set<nat>)
    ensures forall x :: x in e <==> x in s
  {
    set x | x in s
  }

  /** A list without repetitions has as many elements as it is long. */
  lemma {:induction false} ElementsSize(s: seq<nat>)
    requires forall i, j :: 0 <= i < j < |s| ==> s[i] != s[j]
    ensures |Elements(s)| == |s|
    decreases |s|
  {
    if |s| > 0 {
      var n := |s| - 1;
      ElementsSize(s[..n]);
      assert s == s[..n] + [s[n]];
      assert Elements(s) == Elements(s[..n]) + {s[n]};
      assert s[n] !in s[..n];
    } else {
      assert Elements(s) == {};
    }
  }
}
