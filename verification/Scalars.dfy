/** Arithmetic modulo the prime group order q: the scalars of ristretto255. Values are integers,
    compared after reduction; inverses are derived from primality. */
module Scalars {

  ghost predicate Divides(d: nat, n: nat)
    requires d > 0
  {
    n % d == 0
  }

  ghost predicate Prime(q: nat) {
    q > 1 && forall d: nat :: 1 < d < q ==> !Divides(d, q)
  }

  function Red(q: nat, x: int): nat
    requires q > 0
  {
    x % q
  }

  lemma RedSmall(q: nat, x: int)
    requires 0 <= x < q
    ensures Red(q, x) == x
  {
  }

  lemma RedAgain(q: nat, x: int)
    requires q > 0
    ensures 0 <= Red(q, x) < q && Red(q, Red(q, x)) == Red(q, x)
  {
  }

  lemma MultipleBelow(q: int, k: int, r: int)
    requires q > 0 && -q < r < q && k * q == r
    ensures k == 0
  {
  }

  /** Integers that differ by a multiple of q have one residue, and conversely. */
  lemma RedShift(q: nat, x: int, y: int, k: int)
    requires q > 0 && x == y + k * q
    ensures Red(q, x) == Red(q, y)
  {
    var (a, b) := (x / q, y / q);
    assert x == a * q + x % q && y == b * q + y % q;
    assert (a - b - k) * q == y % q - x % q;
    MultipleBelow(q, a - b - k, y % q - x % q);
  }

  lemma RedGap(q: nat, x: int, y: int) returns (k: int)
    requires q > 0 && Red(q, x) == Red(q, y)
    ensures x == y + k * q
  {
    k := x / q - y / q;
    assert x == (x / q) * q + x % q && y == (y / q) * q + y % q;
  }

  lemma RedAdd(q: nat, a: int, b: int, c: int, d: int)
    requires q > 0 && Red(q, a) == Red(q, c) && Red(q, b) == Red(q, d)
    ensures Red(q, a + b) == Red(q, c + d) && Red(q, a - b) == Red(q, c - d)
  {
    var k := RedGap(q, a, c);
    var l := RedGap(q, b, d);
    hide Red;
    SumGap(q, a, b, c, d, k, l);
    RedShift(q, a + b, c + d, k + l);
    RedShift(q, a - b, c - d, k - l);
  }

  lemma SumGap(q: nat, a: int, b: int, c: int, d: int, k: int, l: int)
    requires a == c + k * q && b == d + l * q
    ensures a + b == c + d + (k + l) * q && a - b == c - d + (k - l) * q
  {
  }

  lemma RedMul(q: nat, a: int, b: int, c: int, d: int)
    requires q > 0 && Red(q, a) == Red(q, c) && Red(q, b) == Red(q, d)
    ensures Red(q, a * b) == Red(q, c * d)
  {
    var k := RedGap(q, a, c);
    var l := RedGap(q, b, d);
    MulGap(q, c, d, k, l);
    RedShift(q, a * b, c * d, k * d + l * c + k * l * q);
  }

  lemma MulGap(q: nat, c: int, d: int, k: int, l: int)
    ensures (c + k * q) * (d + l * q) == c * d + (k * d + l * c + k * l * q) * q
  {
    var (x, y) := (k * q, l * q);
    assert (c + x) * (d + y) == c * d + c * y + x * d + x * y;
    assert c * y == (l * c) * q && x * d == (k * d) * q && x * y == (k * l * q) * q;
  }

  // ----- inverses

  /** Extended Euclid: a * x + b * y == g, the greatest common divisor. */
  function EGcd(a: nat, b: nat): (r: (nat, int, int))
    ensures r.0 == a * r.1 + b * r.2
    ensures a > 0 || b > 0 ==> r.0 > 0 && a % r.0 == 0 && b % r.0 == 0
    decreases b
  {
    if b == 0 then (a, 1, 0)
    else
      var (g, x, y) := EGcd(b, a % b);
      EGcdStep(a, b, g, x, y);
      (g, y, x - (a / b) * y)
  }

  lemma EGcdStep(a: nat, b: nat, g: nat, x: int, y: int)
    requires b > 0 && g == b * x + (a % b) * y && g > 0 && b % g == 0 && (a % b) % g == 0
    ensures g == a * y + b * (x - (a / b) * y)
    ensures a % g == 0
  {
    var d := a / b;
    var (m, n) := (b / g, (a % b) / g);
    assert a == d * b + a % b;
    assert b == m * g && a % b == n * g;
    assert a * y == (d * b) * y + (a % b) * y;
    assert b * (x - d * y) == b * x - (d * b) * y;
    assert (d * m) * g == d * (m * g);
    assert a == (d * m + n) * g;
    RedShift(g, a, 0, d * m + n);
  }

  /** Scalar.Invert: the inverse, and 0 for 0. */
  function Inv(q: nat, a: int): nat
    requires q > 0
  {
    if Red(q, a) == 0 then 0 else Red(q, EGcd(Red(q, a), q).1)
  }

  ghost predicate Unit(q: nat, a: int)
    requires q > 0
  {
    Red(q, a * Inv(q, a)) == 1
  }

  lemma NonZeroIsUnit(q: nat, a: int)
    requires Prime(q) && Red(q, a) != 0
    ensures Unit(q, a)
  {
    var r := Red(q, a);
    var (g, x, y) := EGcd(r, q);
    if g > 1 {
      DivisorSmaller(r, g);
      assert Divides(g, q);
    }
    assert r * x == 1 - y * q;
    RedShift(q, r * x, 1, -y);
    RedSmall(q, 1);
    RedAgain(q, a);
    RedAgain(q, x);
    RedMul(q, a, Inv(q, a), r, x);
  }

  lemma DivisorSmaller(r: nat, g: nat)
    requires r > 0 && g > 0 && r % g == 0
    ensures g <= r
  {
  }

  /** Cancelling a unit. */
  lemma Cancel(q: nat, a: int, x: int, y: int)
    requires q > 0 && Unit(q, a) && Red(q, a * x) == Red(q, a * y)
    ensures Red(q, x) == Red(q, y)
  {
    var i := Inv(q, a);
    RedMul(q, a * x, i, a * y, i);
    UnitTimes(q, a, x);
    UnitTimes(q, a, y);
  }

  lemma UnitTimes(q: nat, a: int, x: int)
    requires q > 0 && Unit(q, a)
    ensures Red(q, a * x * Inv(q, a)) == Red(q, x)
  {
    var i := Inv(q, a);
    assert a * x * i == (a * i) * x;
    RedAgain(q, a * i);
    RedMul(q, a * i, x, 1, x);
  }

  lemma UnitNonZero(q: nat, a: int)
    requires q > 1 && Unit(q, a)
    ensures Red(q, a) != 0
  {
    assert a * 0 == 0;
  }

  lemma UnitProduct(q: nat, a: int, b: int)
    requires Prime(q) && Unit(q, a) && Unit(q, b)
    ensures Unit(q, a * b)
  {
    if Red(q, a * b) == 0 {
      assert a * 0 == 0;
      Cancel(q, a, b, 0);
      UnitNonZero(q, b);
    }
    NonZeroIsUnit(q, a * b);
  }

  lemma InverseOfProduct(q: nat, a: int, b: int, i: int, j: int)
    requires q > 0 && Red(q, a * b * i) == 1 && Red(q, b * j) == 1
    ensures Red(q, a * i) == Red(q, j)
  {
    RedAgain(q, a * b * i);
    RedAgain(q, b * j);
    RedMul(q, a * b * i, j, 1, j);
    RedMul(q, a * i, b * j, a * i, 1);
    Regroup(a, b, i, j);
  }

  lemma Regroup(a: int, b: int, i: int, j: int)
    ensures a * b * i * j == a * i * (b * j)
  {
    assert a * b * i == a * i * b;
    assert a * i * b * j == a * i * (b * j);
  }

  // ----- there are primes of every size

  function Factorial(n: nat): (f: nat)
    ensures f > 0
  {
    if n == 0 then 1 else n * Factorial(n - 1)
  }

  lemma {:induction false} FactorialMultiple(n: nat, d: nat)
    requires 1 <= d <= n
    ensures Divides(d, Factorial(n))
  {
    var f := Factorial(n - 1);
    if d == n {
      RedShift(n, n * f, 0, f);
    } else {
      FactorialMultiple(n - 1, d);
      assert f == (f / d) * d;
      assert n * f == n * (f / d) * d;
      RedShift(d, n * f, 0, n * (f / d));
    }
  }

  lemma DividesOn(a: nat, b: nat, c: nat)
    requires a > 0 && b > 0 && Divides(a, b) && Divides(b, c)
    ensures Divides(a, c)
  {
    assert b == (b / a) * a && c == (c / b) * b;
    assert c == (c / b) * (b / a) * a;
    RedShift(a, c, 0, (c / b) * (b / a));
  }

  /** The least divisor above 1 is prime. */
  lemma PrimeFactor(n: nat) returns (p: nat)
    requires n > 1
    ensures Prime(p) && Divides(p, n)
  {
    p := 2;
    while !Divides(p, n)
      invariant 2 <= p <= n && forall d: nat :: 1 < d < p ==> !Divides(d, n)
      decreases n - p
    {
      assert Divides(n, n);
      p := p + 1;
    }
    forall d: nat | 1 < d < p
      ensures !Divides(d, p)
    {
      if Divides(d, p) {
        DividesOn(d, p, n);
      }
    }
  }

  /** Euclid: a prime factor of n! + 1 is above n. */
  lemma PrimeAbove(n: nat) returns (p: nat)
    ensures Prime(p) && p > n
  {
    var f := Factorial(n);
    p := PrimeFactor(f + 1);
    if p <= n {
      FactorialMultiple(n, p);
      RedAdd(p, f + 1, f, 0, 0);
      RedSmall(p, 0);
      RedSmall(p, 1);
    }
  }
}
