/** crypto/threshold/feldman.go: polynomials over the scalars, Horner evaluation and Lagrange
    interpolation at zero, with the interpolation identity proved from scratch. */
module Lagrange {
  import opened Scalars

  /** The polynomial with coefficients c, constant term first, over the integers. */
  function Eval(c: seq<int>, x: int): int {
    if c == [] then 0 else c[0] + x * Eval(c[1..], x)
  }

  /** The numerator and denominator of the Lagrange coefficient at 0 for the index x among xs. */
  function Num(xs: seq<int>, x: int): int {
    if xs == [] then 1 else (if xs[0] == x then 1 else xs[0]) * Num(xs[1..], x)
  }

  function Den(xs: seq<int>, x: int): int {
    if xs == [] then 1 else (if xs[0] == x then 1 else xs[0] - x) * Den(xs[1..], x)
  }

  function Lambda(q: nat, xs: seq<int>, x: int): nat
    requires q > 0
  {
    Red(q, Num(xs, x) * Inv(q, Den(xs, x)))
  }

  /** The indices are pairwise distinct modulo q. */
  ghost predicate Distinct(q: nat, xs: seq<int>)
    requires q > 0
  {
    forall i, j :: 0 <= i < j < |xs| ==> Red(q, xs[i]) != Red(q, xs[j])
  }

  /** The sum of Lambda(xs, z) * f(z) over the points zs. */
  function LagSum(q: nat, xs: seq<int>, zs: seq<int>, f: seq<int>): int
    requires q > 0
  {
    if zs == [] then 0 else Lambda(q, xs, zs[0]) * Eval(f, zs[0]) + LagSum(q, xs, zs[1..], f)
  }

  /** The same sum with the factor z - p in every term. */
  function LagShifted(q: nat, xs: seq<int>, zs: seq<int>, p: int, g: seq<int>): int
    requires q > 0
  {
    if zs == [] then 0
    else Lambda(q, xs, zs[0]) * (zs[0] - p) * Eval(g, zs[0]) + LagShifted(q, xs, zs[1..], p, g)
  }

  /** Synthetic division by X - p. */
  function Quotient(f: seq<int>, p: int): (g: seq<int>)
    ensures |g| == if f == [] then 0 else |f| - 1
  {
    if |f| <= 1 then [] else [Eval(f[1..], p)] + Quotient(f[1..], p)
  }

  lemma {:induction false} Division(f: seq<int>, p: int, z: int)
    ensures Eval(f, z) == Eval(f, p) + (z - p) * Eval(Quotient(f, p), z)
  {
    if |f| >= 2 {
      var (t, g) := (f[1..], Quotient(f[1..], p));
      Division(t, p, z);
      assert ([Eval(t, p)] + g)[1..] == g;
      assert z * Eval(t, z) == z * Eval(t, p) + (z - p) * (z * Eval(g, z)) by {
        assert z * ((z - p) * Eval(g, z)) == (z - p) * (z * Eval(g, z));
      }
      assert z * Eval(t, p) == p * Eval(t, p) + (z - p) * Eval(t, p);
    } else if |f| == 1 {
      assert z * Eval(f[1..], z) == z * 0 == 0 && p * Eval(f[1..], p) == p * 0 == 0;
    }
  }

  lemma {:induction false} DenIsUnit(q: nat, xs: seq<int>, z: int)
    requires Prime(q) && forall x :: x in xs && x != z ==> Red(q, x) != Red(q, z)
    ensures Unit(q, Den(xs, z))
  {
    OneIsUnit(q);
    if xs != [] {
      DenIsUnit(q, xs[1..], z);
      if xs[0] != z {
        assert xs[0] in xs;
        DifferenceIsUnit(q, xs[0], z);
        UnitProduct(q, xs[0] - z, Den(xs[1..], z));
      }
    }
  }

  lemma OneIsUnit(q: nat)
    requires Prime(q)
    ensures Unit(q, 1) && Red(q, 1) == 1 && Red(q, Inv(q, 1)) == 1
  {
    RedSmall(q, 1);
    NonZeroIsUnit(q, 1);
  }

  lemma DifferenceIsUnit(q: nat, x: int, y: int)
    requires Prime(q) && Red(q, x) != Red(q, y)
    ensures Unit(q, x - y)
  {
    if Red(q, x - y) == 0 {
      RedAdd(q, x - y, y, 0, y);
    }
    NonZeroIsUnit(q, x - y);
  }

  /** Dropping the point p: Lambda over [p] + rest, times z - p, is -p times Lambda over rest. */
  lemma DropPoint(q: nat, p: int, rest: seq<int>, z: int)
    requires Prime(q) && Red(q, z) != Red(q, p) && forall x :: x in rest && x != z ==> Red(q, x) != Red(q, z)
    ensures Red(q, Lambda(q, [p] + rest, z) * (z - p)) == Red(q, -p * Lambda(q, rest, z))
  {
    var xs := [p] + rest;
    assert xs[1..] == rest;
    var d := Den(rest, z);
    DenIsUnit(q, rest, z);
    DifferenceIsUnit(q, p, z);
    UnitProduct(q, p - z, d);
    DropFactor(q, p, z, Num(rest, z), d, Inv(q, (p - z) * d), Inv(q, d));
  }

  lemma DropFactor(q: nat, p: int, z: int, n: int, d: int, i: int, j: int)
    requires q > 0 && Red(q, (p - z) * d * i) == 1 && Red(q, d * j) == 1
    ensures Red(q, Red(q, p * n * i) * (z - p)) == Red(q, -p * Red(q, n * j))
  {
    InverseOfProduct(q, p - z, d, i, j);
    RedAgain(q, p * n * i);
    RedAgain(q, n * j);
    RedMul(q, Red(q, p * n * i), z - p, p * n * i, z - p);
    RedMul(q, -p, Red(q, n * j), -p, n * j);
    RedMul(q, -(p * n), (p - z) * i, -(p * n), j);
    DropAlgebra(p, z, n, i, j);
  }

  lemma DropAlgebra(p: int, z: int, n: int, i: int, j: int)
    ensures p * n * i * (z - p) == -(p * n) * ((p - z) * i) && -p * (n * j) == -(p * n) * j
  {
    var (m, w) := (p * n, p - z);
    assert m * i * (-w) == -m * (w * i);
    assert -p * (n * j) == -(p * n * j);
  }

  lemma {:induction false} DropPointSum(q: nat, p: int, rest: seq<int>, zs: seq<int>, g: seq<int>)
    requires Prime(q) && (forall z :: z in zs ==> Red(q, z) != Red(q, p))
    requires forall x, z :: x in rest && z in zs && x != z ==> Red(q, x) != Red(q, z)
    ensures Red(q, LagShifted(q, [p] + rest, zs, p, g)) == Red(q, -p * LagSum(q, rest, zs, g))
  {
    if zs == [] {
      assert -p * 0 == 0;
    } else {
      hide Lambda, Eval, Red;
      var z := zs[0];
      MembersOfTail(zs);
      DropPoint(q, p, rest, z);
      DropPointSum(q, p, rest, zs[1..], g);
      var (l, k, e) := (Lambda(q, [p] + rest, z), Lambda(q, rest, z), Eval(g, z));
      var (s, t) := (LagShifted(q, [p] + rest, zs[1..], p, g), LagSum(q, rest, zs[1..], g));
      FirstTerms(q, [p] + rest, rest, zs, p, g);
      hide LagShifted, LagSum;
      DropTerm(q, p, z, l, k, e, s, t, LagShifted(q, [p] + rest, zs, p, g), LagSum(q, rest, zs, g));
    }
  }

  lemma FirstTerms(q: nat, xs: seq<int>, ys: seq<int>, zs: seq<int>, p: int, g: seq<int>)
    requires q > 0 && zs != []
    ensures LagShifted(q, xs, zs, p, g)
         == Lambda(q, xs, zs[0]) * (zs[0] - p) * Eval(g, zs[0]) + LagShifted(q, xs, zs[1..], p, g)
    ensures LagSum(q, ys, zs, g) == Lambda(q, ys, zs[0]) * Eval(g, zs[0]) + LagSum(q, ys, zs[1..], g)
  {
  }

  lemma MembersOfTail<T>(zs: seq<T>)
    requires zs != []
    ensures zs[0] in zs && forall w :: w in zs[1..] ==> w in zs
  {
  }

  lemma DropTerm(q: nat, p: int, z: int, l: int, k: int, e: int, s: int, t: int, shifted: int, total: int)
    requires q > 0 && Red(q, l * (z - p)) == Red(q, -p * k) && Red(q, s) == Red(q, -p * t)
    requires shifted == l * (z - p) * e + s && total == k * e + t
    ensures Red(q, shifted) == Red(q, -p * total)
  {
    hide Red;
    ScaledTerm(q, l * (z - p), -p * k, e, s, -p * t);
    NegativeFactor(p, k, e, t);
  }

  lemma ScaledTerm(q: nat, a: int, b: int, e: int, s: int, t: int)
    requires q > 0 && Red(q, a) == Red(q, b) && Red(q, s) == Red(q, t)
    ensures Red(q, a * e + s) == Red(q, b * e + t)
  {
    RedMul(q, a, e, b, e);
    RedAdd(q, a * e, s, b * e, t);
  }

  lemma NegativeFactor(p: int, k: int, e: int, t: int)
    ensures -p * k * e + -p * t == -p * (k * e + t)
  {
    assert -p * k * e == -p * (k * e);
  }

  /** f = f(p) + (X - p) * g, summed over the points. */
  lemma {:induction false} SplitSum(q: nat, xs: seq<int>, zs: seq<int>, f: seq<int>, p: int)
    requires q > 0
    ensures LagSum(q, xs, zs, f) == Eval(f, p) * LagSum(q, xs, zs, [1]) + LagShifted(q, xs, zs, p, Quotient(f, p))
  {
    if zs != [] {
      var z := zs[0];
      Division(f, p, z);
      SplitSum(q, xs, zs[1..], f, p);
      assert Eval([1], z) == 1 by { assert z * Eval([], z) == 0; }
      SplitTerm(Lambda(q, xs, z), Eval(f, p), z - p, Eval(Quotient(f, p), z), LagSum(q, xs, zs[1..], [1]));
    }
  }

  lemma SplitTerm(l: int, v: int, d: int, w: int, s: int)
    ensures l * (v + d * w) + v * s == v * (l * 1 + s) + l * d * w
  {
    assert l * (d * w) == l * d * w;
  }

  /** Swapping the first two indices changes no coefficient. */
  lemma SwapLambda(q: nat, a: int, b: int, r: seq<int>, z: int)
    requires q > 0
    ensures Lambda(q, [a, b] + r, z) == Lambda(q, [b, a] + r, z)
  {
    FirstTwo(a, b, r, z);
    FirstTwo(b, a, r, z);
    SwapFactors(if a == z then 1 else a, if b == z then 1 else b, Num(r, z));
    SwapFactors(if a == z then 1 else a - z, if b == z then 1 else b - z, Den(r, z));
  }

  lemma FirstTwo(a: int, b: int, r: seq<int>, z: int)
    ensures Num([a, b] + r, z) == (if a == z then 1 else a) * ((if b == z then 1 else b) * Num(r, z))
    ensures Den([a, b] + r, z) == (if a == z then 1 else a - z) * ((if b == z then 1 else b - z) * Den(r, z))
  {
    assert ([a, b] + r)[1..] == [b] + r && ([b] + r)[1..] == r;
  }

  lemma SwapFactors(a: int, b: int, c: int)
    ensures a * (b * c) == b * (a * c)
  {
  }

  lemma {:induction false} SwapSum(q: nat, a: int, b: int, r: seq<int>, zs: seq<int>, f: seq<int>)
    requires q > 0
    ensures LagSum(q, [a, b] + r, zs, f) == LagSum(q, [b, a] + r, zs, f)
  {
    if zs != [] {
      SwapLambda(q, a, b, r, zs[0]);
      SwapSum(q, a, b, r, zs[1..], f);
    }
  }

  /** Over [p] + rest the term of p vanishes from a sum with the factor z - p. */
  lemma ShiftedSum(q: nat, p: int, rest: seq<int>, g: seq<int>)
    requires Prime(q) && Distinct(q, [p] + rest)
    ensures Red(q, LagShifted(q, [p] + rest, [p] + rest, p, g)) == Red(q, -p * LagSum(q, rest, rest, g))
    ensures Distinct(q, rest)
  {
    var xs := [p] + rest;
    assert xs[1..] == rest;
    forall i, j | 0 <= i < j < |rest|
      ensures Red(q, rest[i]) != Red(q, rest[j])
    {
      assert xs[i + 1] == rest[i] && xs[j + 1] == rest[j];
    }
    forall z | z in rest
      ensures Red(q, z) != Red(q, p)
    {
      var i :| 0 <= i < |rest| && rest[i] == z;
      assert xs[0] == p && xs[i + 1] == z;
    }
    DropPointSum(q, p, rest, rest, g);
    var l := Lambda(q, xs, p);
    assert l * (p - p) * Eval(g, p) == 0;
  }

  /** The coefficients sum to 1. */
  lemma {:induction false} LambdasSumToOne(q: nat, xs: seq<int>)
    requires Prime(q) && xs != [] && Distinct(q, xs)
    ensures Red(q, LagSum(q, xs, xs, [1])) == 1
    decreases |xs|, 0
  {
    OneIsUnit(q);
    if |xs| == 1 {
      var x := xs[0];
      assert xs == [x] && Eval([1], x) == 1 by { assert x * 0 == 0; }
      assert Num([], x) == 1 && Den([], x) == 1 && xs[1..] == [];
      assert Num(xs, x) == 1 && Den(xs, x) == 1;
      RedAgain(q, Num(xs, x) * Inv(q, 1));
    } else {
      var (a, b, r) := (xs[0], xs[1], xs[2..]);
      assert xs == [a] + ([b] + r) == [a, b] + r;
      var ys := [b] + ([a] + r);
      assert ys == [b, a] + r;
      SwappedDistinct(q, a, b, r);
      var (s, t) := (LagSum(q, xs, xs, [1]), LagSum(q, xs, xs, [0, 1]));
      ShiftedOnes(q, a, [b] + r);
      ShiftedOnes(q, b, [a] + r);
      SwapTotals(q, a, b, r, [1]);
      SwapTotals(q, a, b, r, [0, 1]);
      TwoEquations(q, s, t, a, b);
    }
  }

  lemma SwappedDistinct(q: nat, a: int, b: int, r: seq<int>)
    requires q > 0 && Distinct(q, [a] + ([b] + r))
    ensures Distinct(q, [b] + ([a] + r)) && Red(q, a) != Red(q, b)
  {
    var (xs, ys) := ([a] + ([b] + r), [b] + ([a] + r));
    assert xs[0] == a && xs[1] == b;
    forall i, j | 0 <= i < j < |ys|
      ensures Red(q, ys[i]) != Red(q, ys[j])
    {
      var (k, l) := (if i <= 1 then 1 - i else i, if j <= 1 then 1 - j else j);
      assert ys[i] == xs[k] && ys[j] == xs[l];
    }
  }

  lemma SwapTotals(q: nat, a: int, b: int, r: seq<int>, f: seq<int>)
    requires q > 0
    ensures LagSum(q, [a] + ([b] + r), [a] + ([b] + r), f) == LagSum(q, [b] + ([a] + r), [b] + ([a] + r), f)
  {
    var (xs, ys) := ([a] + ([b] + r), [b] + ([a] + r));
    assert xs == [a, b] + r && ys == [b, a] + r;
    SwapSum(q, a, b, r, xs, f);
    assert xs[1..] == [b] + r && xs[1..][1..] == r && ys[1..] == [a] + r && ys[1..][1..] == r;
    assert xs[1..][0] == b && ys[1..][0] == a;
  }

  /** sum of z - p, as two sums and as the shifted sum of 1. */
  lemma {:induction false} ShiftedOnes(q: nat, p: int, rest: seq<int>)
    requires Prime(q) && rest != [] && Distinct(q, [p] + rest)
    ensures var xs := [p] + rest;
      Red(q, LagSum(q, xs, xs, [0, 1]) - p * LagSum(q, xs, xs, [1])) == Red(q, -p)
    decreases |rest|, 1
  {
    var xs := [p] + rest;
    SplitSum(q, xs, xs, [0, 1], p);
    QuotientOfX(p);
    ShiftedSum(q, p, rest, [1]);
    LambdasSumToOne(q, rest);
    OneIsUnit(q);
    RedMul(q, -p, LagSum(q, rest, rest, [1]), -p, 1);
  }

  lemma QuotientOfX(p: int)
    ensures Quotient([0, 1], p) == [1] && Eval([0, 1], p) == p
  {
    assert [0, 1][1..] == [1] && Eval([1], p) == 1 by { assert p * 0 == 0; }
  }

  lemma TwoEquations(q: nat, s: int, t: int, a: int, b: int)
    requires Prime(q) && Red(q, a) != Red(q, b)
    requires Red(q, t - a * s) == Red(q, -a) && Red(q, t - b * s) == Red(q, -b)
    ensures Red(q, s) == 1
  {
    RedAdd(q, t - a * s, t - b * s, -a, -b);
    assert (t - a * s) - (t - b * s) == (b - a) * s;
    assert -a - -b == (b - a) * 1;
    DifferenceIsUnit(q, b, a);
    Cancel(q, b - a, s, 1);
    RedSmall(q, 1);
  }

  /** Interpolation: over at least as many distinct indices as f has coefficients, in any
      order, the Lagrange combination of the values of f is f(0). */
  lemma {:induction false} Interpolation(q: nat, xs: seq<int>, f: seq<int>)
    requires Prime(q) && Distinct(q, xs) && |f| <= |xs|
    ensures Red(q, LagSum(q, xs, xs, f)) == Red(q, Eval(f, 0))
    decreases |xs|
  {
    if xs != [] {
      var (p, rest) := (xs[0], xs[1..]);
      assert xs == [p] + rest;
      var g := Quotient(f, p);
      var v := Eval(f, p);
      SplitSum(q, xs, xs, f, p);
      LambdasSumToOne(q, xs);
      OneIsUnit(q);
      RedMul(q, v, LagSum(q, xs, xs, [1]), v, 1);
      ShiftedSum(q, p, rest, g);
      Interpolation(q, rest, g);
      RedMul(q, -p, LagSum(q, rest, rest, g), -p, Eval(g, 0));
      RedAdd(q, v * LagSum(q, xs, xs, [1]), LagShifted(q, xs, xs, p, g), v, -p * Eval(g, 0));
      Division(f, p, 0);
    }
  }
}
