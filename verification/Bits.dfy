/** The unsigned-integer operations of the Go source, over the naturals: shifts are halvings,
    `bits.Len64`, `bits.TrailingZeros64` and `&` recurse over the binary digits. */
module Bits {

  function Pow2(e: nat): (p: nat)
    ensures p >= 1
  {
    if e == 0 then 1 else 2 * Pow2(e - 1)
  }

  lemma Pow2Halves(e: nat)
    requires e > 0
    ensures Pow2(e) % 2 == 0 && Pow2(e) / 2 == Pow2(e - 1) && (Pow2(e) - 1) % 2 == 1 && (Pow2(e) - 1) / 2 == Pow2(e - 1) - 1
  {
  }

  lemma HalvesAdd(x: nat, p: nat)
    requires p % 2 == 0
    ensures (x + p) / 2 == x / 2 + p / 2 && (x + p) % 2 == x % 2
  {
  }

  /** bits.Len64: the number of binary digits of x. */
  function Len(x: nat): nat {
    if x == 0 then 0 else 1 + Len(x / 2)
  }

  /** bits.TrailingZeros64, for a non-zero argument. */
  function TrailingZeros(x: nat): nat
    requires x > 0
  {
    if x % 2 == 1 then 0 else 1 + TrailingZeros(x / 2)
  }

  /** Bitwise and. */
  function And(a: nat, b: nat): nat {
    if a == 0 || b == 0 then 0 else (if a % 2 == 1 && b % 2 == 1 then 1 else 0) + 2 * And(a / 2, b / 2)
  }

  /** x >> d */
  function Shift(x: nat, d: nat): nat {
    if d == 0 then x else Shift(x / 2, d - 1)
  }

  ghost predicate IsPow2(n: nat) {
    exists e: nat :: n == Pow2(e)
  }

  /** The d lowest binary digits of x are zero. */
  ghost predicate Aligned(x: nat, d: nat) {
    d == 0 || (x % 2 == 0 && Aligned(x / 2, d - 1))
  }

  lemma {:induction false} LenBounds(x: nat)
    requires x > 0
    ensures Len(x) >= 1 && Pow2(Len(x) - 1) <= x < Pow2(Len(x))
  {
    if x > 1 {
      LenBounds(x / 2);
    }
  }

  /** The number of digits is determined by the binary range x lies in. */
  lemma {:induction false} LenUnique(x: nat, e: nat)
    requires Pow2(e) <= x < 2 * Pow2(e)
    ensures Len(x) == e + 1
  {
    if e > 0 {
      LenUnique(x / 2, e - 1);
    }
  }

  lemma {:induction false} LenBelow(x: nat, e: nat)
    requires x < Pow2(e)
    ensures Len(x) <= e
  {
    if x > 0 {
      LenBelow(x / 2, e - 1);
    }
  }

  lemma {:induction false} LenMonotone(x: nat, y: nat)
    requires x <= y
    ensures Len(x) <= Len(y)
  {
    if x > 0 {
      LenMonotone(x / 2, y / 2);
    }
  }

  /** The source's test `n & (n-1) == 0` recognises exactly the powers of two. */
  lemma {:induction false} PowerTest(n: nat)
    requires n > 0
    ensures And(n, n - 1) == 0 <==> IsPow2(n)
  {
    if n == 1 {
      assert n == Pow2(0);
    } else if n % 2 == 0 {
      PowerTest(n / 2);
      assert (n - 1) / 2 == n / 2 - 1;
      HalfIsPow2(n / 2);
    } else {
      assert (n - 1) / 2 == n / 2;
      AndSelf(n / 2);
      OddIsNotPow2(n);
    }
  }

  lemma HalfIsPow2(h: nat)
    requires h > 0
    ensures IsPow2(h) <==> IsPow2(2 * h)
  {
    if IsPow2(h) {
      var e: nat :| h == Pow2(e);
      assert 2 * h == Pow2(e + 1);
    }
    if IsPow2(2 * h) {
      var e: nat :| 2 * h == Pow2(e);
      assert h == Pow2(e - 1);
    }
  }

  lemma OddIsNotPow2(n: nat)
    requires n > 1 && n % 2 == 1
    ensures !IsPow2(n)
  {
    if IsPow2(n) {
      var e: nat :| n == Pow2(e);
      Pow2Halves(e);
    }
  }

  lemma {:induction false} AndSelf(n: nat)
    ensures And(n, n) == n
  {
    if n > 0 {
      AndSelf(n / 2);
    }
  }

  /** The source's test `lo & (2^d - 1) == 0` holds exactly for the multiples of 2^d. */
  lemma {:induction false} AlignTest(lo: nat, d: nat)
    ensures And(lo, Pow2(d) - 1) == 0 <==> Aligned(lo, d)
    ensures Aligned(lo, d) <==> lo % Pow2(d) == 0
  {
    if lo == 0 {
      ZeroAligned(d);
      ZeroRemainder(Pow2(d));
    } else if d > 0 {
      assert (Pow2(d) - 1) / 2 == Pow2(d - 1) - 1;
      AlignTest(lo / 2, d - 1);
      HalfRemainder(lo, Pow2(d - 1));
    }
  }

  lemma ZeroRemainder(p: nat)
    requires p > 0
    ensures 0 % p == 0
  {
  }

  /** x is a multiple of 2p exactly when it is even and its half is a multiple of p. */
  lemma HalfRemainder(x: nat, p: nat)
    requires p > 0
    ensures x % (2 * p) == 0 <==> x % 2 == 0 && (x / 2) % p == 0
  {
    if x % (2 * p) == 0 {
      var k := x / (2 * p);
      assert x == (2 * p) * k == 2 * (p * k);
      MultipleRemainder(p, k);
    }
    if x % 2 == 0 && (x / 2) % p == 0 {
      var k := (x / 2) / p;
      assert x / 2 == p * k && x == (2 * p) * k;
      MultipleRemainder(2 * p, k);
    }
  }

  lemma MultipleRemainder(p: nat, k: nat)
    requires p > 0
    ensures (p * k) % p == 0
  {
    var (a, r) := ((p * k) / p, (p * k) % p);
    assert p * k == p * a + r && (k - a) * p == r;
    NoMultipleBelow(p, k - a, r);
  }

  lemma NoMultipleBelow(p: int, d: int, r: int)
    requires 0 <= r < p && d * p == r
    ensures r == 0
  {
  }

  lemma {:induction false} ZeroAligned(d: nat)
    ensures Aligned(0, d)
  {
    if d > 0 {
      ZeroAligned(d - 1);
    }
  }

  lemma {:induction false} AlignedLess(lo: nat, d: nat, c: nat)
    requires c <= d && Aligned(lo, d)
    ensures Aligned(lo, c)
  {
    if c > 0 {
      AlignedLess(lo / 2, d - 1, c - 1);
    }
  }

  lemma {:induction false} AlignedNext(lo: nat, d: nat)
    requires Aligned(lo, d)
    ensures Aligned(lo + Pow2(d), d)
  {
    if d > 0 {
      assert (lo + Pow2(d)) / 2 == lo / 2 + Pow2(d - 1);
      AlignedNext(lo / 2, d - 1);
    }
  }

  lemma {:induction false} TrailingZerosPow2(e: nat)
    ensures TrailingZeros(Pow2(e)) == e
    ensures Len(Pow2(e) - 1) == e
  {
    if e > 0 {
      assert Pow2(e) / 2 == Pow2(e - 1) && (Pow2(e) - 1) / 2 == Pow2(e - 1) - 1;
      TrailingZerosPow2(e - 1);
    }
  }

  /** Section 2.1.1 of RFC 9162: k is the power of two with k < n <= 2k. */
  ghost predicate IsSplit(n: nat, k: nat) {
    0 < k < n <= 2 * k && IsPow2(k)
  }

  ghost function SplitPoint(n: nat): (k: nat)
    requires n >= 2
    ensures 0 < k < n <= 2 * k
  {
    SplitExists(n);
    var k :| IsSplit(n, k);
    k
  }

  /** splitPoint of the Go source: 1 << (Len64(n-1) - 1). */
  function SplitPointBits(n: nat): nat
    requires n >= 2
  {
    LenBounds(n - 1);
    Pow2(Len(n - 1) - 1)
  }

  lemma SplitExists(n: nat)
    requires n >= 2
    ensures IsSplit(n, SplitPointBits(n))
  {
    LenBounds(n - 1);
  }

  lemma SplitPointUnique(n: nat, e: nat)
    requires Pow2(e) < n <= 2 * Pow2(e)
    ensures SplitPoint(n) == Pow2(e) && Len(n - 1) == e + 1
  {
    assert IsSplit(n, SplitPoint(n));
    var d: nat :| SplitPoint(n) == Pow2(d);
    LenUnique(n - 1, d);
    LenUnique(n - 1, e);
  }

  lemma SplitPower(n: nat) returns (d: nat)
    requires n >= 2
    ensures d + 1 == Len(n - 1) && Pow2(d) <= n - 1 < 2 * Pow2(d)
    ensures SplitPoint(n) == SplitPointBits(n) == Pow2(d)
  {
    LenBounds(n - 1);
    d := Len(n - 1) - 1;
    SplitPointUnique(n, d);
  }

  /** splitPoint computes the RFC's k: the largest power of two below n. */
  lemma SplitPointIsLargest(n: nat, e: nat)
    requires n >= 2 && Pow2(e) < n
    ensures SplitPointBits(n) == SplitPoint(n)
    ensures IsPow2(SplitPoint(n)) && Pow2(e) <= SplitPoint(n) < n
  {
    var d := SplitPower(n);
    if e > d {
      Pow2Monotone(d + 1, e);
    } else {
      Pow2Monotone(e, d);
    }
  }

  lemma {:induction false} Pow2Monotone(a: nat, b: nat)
    requires a <= b
    ensures Pow2(a) <= Pow2(b)
    decreases b
  {
    if a < b {
      Pow2Monotone(a, b - 1);
    }
  }

  lemma HalfLengths(n: nat)
    requires n >= 2
    ensures var (k, e) := (SplitPoint(n), Len(n - 1));
      e > 0 && k == Pow2(e - 1) && Len(k - 1) == e - 1 && Len(n - k - 1) <= e - 1
  {
    var d := SplitPower(n);
    TrailingZerosPow2(d);
    LenBelow(n - Pow2(d) - 1, d);
    hide Len, Pow2, SplitPoint, SplitPointBits;
  }
}
