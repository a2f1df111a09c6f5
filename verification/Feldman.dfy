/** crypto/threshold/feldman.go: verifiable secret sharing and Lagrange reconstruction. */
module Feldman {
  import opened Common
  import opened Scalars
  import opened Groups
  import opened Lagrange

  datatype Error = ErrThreshold | ErrNegative | ErrBadIndex | ErrDuplicateIndex | ErrNoShares | ErrShareCount
                 | ErrNilShare | ErrInvalidShare | ErrPosition

  /** checkIndex: a trustee index in 1..2^32-1. */
  predicate CheckIndex(i: int) {
    1 <= i <= 0xFFFF_FFFF
  }

  predicate CheckThreshold(threshold: int, numParties: int) {
    1 <= threshold <= numParties && CheckIndex(numParties)
  }

  ghost predicate InRange(xs: seq<int>) {
    forall x :: x in xs ==> CheckIndex(x)
  }

  /** checkIndices: every index in range, then no duplicates. */
  method CheckIndices(indices: seq<int>) returns (r: Option<Error>)
    ensures r == None <==> InRange(indices) && NoRepeat(indices)
    ensures r == Some(ErrBadIndex) <==> !InRange(indices)
    ensures r == Some(ErrDuplicateIndex) <==> InRange(indices) && !NoRepeat(indices)
  {
    for i := 0 to |indices|
      invariant forall j :: 0 <= j < i ==> CheckIndex(indices[j])
    {
      if !CheckIndex(indices[i]) {
        assert indices[i] in indices;
        return Some(ErrBadIndex);
      }
    }
    var seen: map<int, bool> := map[];
    for i := 0 to |indices|
      invariant forall x :: x in seen <==> x in indices[..i]
      invariant NoRepeat(indices[..i])
    {
      if indices[i] in seen {
        return Some(ErrDuplicateIndex);
      }
      assert indices[..i + 1] == indices[..i] + [indices[i]];
      seen := seen[indices[i] := true];
    }
    assert indices[..|indices|] == indices;
    return None;
  }

  /** Distinct indices below q are distinct modulo q. */
  lemma IndicesDistinct(G: Group, xs: seq<int>)
    requires Valid(G) && InRange(xs) && NoRepeat(xs)
    ensures Distinct(G.q, xs)
  {
    forall i, j | 0 <= i < j < |xs|
      ensures Red(G.q, xs[i]) != Red(G.q, xs[j])
    {
      assert xs[i] in xs && xs[j] in xs;
      RedSmall(G.q, xs[i]);
      RedSmall(G.q, xs[j]);
    }
  }

  /** Horner's rule. */
  method EvaluatePolynomial(G: Group, coeffs: seq<int>, x: int) returns (r: Result<int, Error>)
    requires Valid(G)
    ensures r == if x < 0 then Err(ErrNegative) else Ok(Red(G.q, Eval(coeffs, x)))
  {
    if x < 0 {
      return Err(ErrNegative);
    }
    var result, k := 0, |coeffs|;
    while k > 0
      invariant 0 <= k <= |coeffs| && result == Red(G.q, Eval(coeffs[k..], x))
    {
      k := k - 1;
      var scaled := Red(G.q, result * x);
      HornerStep(G.q, x, coeffs[k], Eval(coeffs[k + 1..], x), result);
      assert coeffs[k..][1..] == coeffs[k + 1..];
      result := Red(G.q, scaled + coeffs[k]);
    }
    assert coeffs[0..] == coeffs;
    return Ok(result);
  }

  lemma HornerStep(q: nat, x: int, c: int, e: int, r: int)
    requires q > 0 && r == Red(q, e)
    ensures Red(q, Red(q, r * x) + c) == Red(q, c + x * e)
  {
    RedAgain(q, e);
    RedMul(q, r, x, e, x);
    RedAgain(q, r * x);
    RedAdd(q, Red(q, r * x), c, e * x, c);
    assert e * x == x * e;
  }

  /** What VerifyShare checks: exactly t commitments and share * g = sum of index^k * C_k. */
  predicate ShareAccepted(G: Group, share: Option<int>, index: int, threshold: int, commitments: seq<Option<int>>)
    requires G.q > 0
  {
    && threshold >= 1 && |commitments| == threshold
    && share.Some? && CheckIndex(index)
    && (forall k :: 0 <= k < |commitments| ==> commitments[k].Some?)
    && BaseMul(G, share.value) == Red(G.q, Eval(Present(commitments), index))
  }

  function Present(os: seq<Option<int>>): (s: seq<int>)
    requires forall k :: 0 <= k < |os| ==> os[k].Some?
    ensures |s| == |os|
  {
    seq(|os|, k requires 0 <= k < |os| => os[k].value)
  }

  /** Each power is x times the one before. */
  ghost predicate Powers(q: nat, x: int, ps: seq<int>)
    requires q > 0
  {
    forall k :: 0 < k < |ps| ==> StepsBy(q, x, ps, k)
  }

  ghost predicate StepsBy(q: nat, x: int, ps: seq<int>, k: nat)
    requires q > 0 && 0 < k < |ps|
  {
    Red(q, ps[k]) == Red(q, ps[k - 1] * x)
  }

  lemma {:induction false} PowersAreHorner(q: nat, x: int, ps: seq<int>, cs: seq<int>)
    requires q > 0 && |ps| == |cs| && Powers(q, x, ps)
    ensures Red(q, Msm(ps, cs)) == if cs == [] then 0 else Red(q, ps[0] * Eval(cs, x))
  {
    if cs != [] {
      var (p, c) := (ps[0], cs[0]);
      var (pt, ct) := (ps[1..], cs[1..]);
      forall k | 0 < k < |pt|
        ensures StepsBy(q, x, pt, k)
      {
        assert StepsBy(q, x, ps, k + 1);
      }
      PowersAreHorner(q, x, pt, ct);
      if ct != [] {
        assert StepsBy(q, x, ps, 1);
        RedMul(q, pt[0], Eval(ct, x), p * x, Eval(ct, x));
        RedAdd(q, p * c, Msm(pt, ct), p * c, p * x * Eval(ct, x));
      }
      HornerProduct(p, c, x, Eval(ct, x));
      assert ct == [] ==> x * Eval(ct, x) == 0;
    }
  }

  lemma HornerProduct(p: int, c: int, x: int, e: int)
    ensures p * c + p * x * e == p * (c + x * e)
  {
    assert p * (x * e) == p * x * e;
  }

  method VerifyShare(G: Group, share: Option<int>, index: int, threshold: int, commitments: seq<Option<int>>)
    returns (ok: bool)
    requires Valid(G)
    ensures ok <==> ShareAccepted(G, share, index, threshold, commitments)
  {
    if threshold < 1 || |commitments| != threshold {
      return false;
    }
    if share.None? || !CheckIndex(index) {
      return false;
    }
    for k := 0 to |commitments|
      invariant forall j :: 0 <= j < k ==> commitments[j].Some?
    {
      if commitments[k].None? {
        return false;
      }
    }
    var pow, powers: seq<int> := 1, [];
    for k := 0 to |commitments|
      invariant |powers| == k && Powers(G.q, index, powers)
      invariant if k == 0 then pow == 1 else powers[0] == 1 && Red(G.q, pow) == Red(G.q, powers[k - 1] * index)
    {
      ghost var before := powers;
      powers := powers + [pow];
      forall j | 0 < j < |powers|
        ensures StepsBy(G.q, index, powers, j)
      {
        assert j < k ==> StepsBy(G.q, index, before, j);
      }
      RedAgain(G.q, pow * index);
      pow := Red(G.q, pow * index);
    }
    var lhs := BaseMul(G, share.value);
    var cs := Present(commitments);
    PowersAreHorner(G.q, index, powers, cs);
    var rhs := Red(G.q, Msm(powers, cs));
    return lhs == rhs;
  }

  /** The polynomial that commitments commit to. */
  function Committed(G: Group, cs: seq<int>): (f: seq<int>)
    requires G.q > 0
    ensures |f| == |cs|
  {
    if cs == [] then [] else [Log(G, cs[0])] + Committed(G, cs[1..])
  }

  lemma {:induction false} CommittedEval(G: Group, cs: seq<int>, x: int)
    requires Valid(G)
    ensures Red(G.q, Eval(cs, x)) == BaseMul(G, Eval(Committed(G, cs), x))
  {
    if cs != [] {
      var (a, f) := (Log(G, cs[0]), Committed(G, cs[1..]));
      assert ([a] + f)[1..] == f;
      LogCorrect(G, cs[0]);
      CommittedEval(G, cs[1..], x);
      LinearTerm(G.q, x, Eval(cs[1..], x), Eval(f, x), G.g, cs[0], a);
    }
  }

  /** v = e * c and w = s * c give l * v + w = (l * e + s) * c. */
  lemma LinearTerm(q: nat, l: int, v: int, e: int, c: int, w: int, s: int)
    requires q > 0 && Red(q, v) == Red(q, e * c) && Red(q, w) == Red(q, s * c)
    ensures Red(q, w + l * v) == Red(q, (s + l * e) * c)
  {
    RedMul(q, l, v, l, e * c);
    RedAdd(q, w, l * v, s * c, l * (e * c));
    Distribute(l, e, c, s);
  }

  lemma Distribute(l: int, e: int, c: int, s: int)
    ensures s * c + l * (e * c) == (s + l * e) * c
  {
    assert l * (e * c) == l * e * c;
  }

  /** A share is accepted for an index exactly when it is the value there of the committed
      polynomial, which has exactly t coefficients. */
  lemma ShareIsValue(G: Group, share: int, index: int, threshold: int, commitments: seq<Option<int>>)
    requires Valid(G) && forall k :: 0 <= k < |commitments| ==> commitments[k].Some?
    ensures ShareAccepted(G, Some(share), index, threshold, commitments) <==>
      (var f := Committed(G, Present(commitments));
       threshold >= 1 && |f| == threshold && CheckIndex(index) && Same(G, share, Eval(f, index)))
  {
    var cs := Present(commitments);
    var v := Eval(Committed(G, cs), index);
    CommittedEval(G, cs, index);
    if BaseMul(G, share) == BaseMul(G, v) {
      BaseMulInjective(G, share, v);
    }
    if Same(G, share, v) {
      RedMul(G.q, share, G.g, v, G.g);
    }
  }

  // ----- Lagrange reconstruction

  /** lagrangeAt. */
  method LagrangeAt(G: Group, indices: seq<int>, pos: nat) returns (r: int)
    requires Valid(G) && pos < |indices| && InRange(indices) && NoRepeat(indices)
    ensures r == Lambda(G.q, indices, indices[pos])
  {
    var q, xi := G.q, indices[pos];
    var num, den := 1, 1;
    for j := 0 to |indices|
      invariant Red(q, num * Num(indices[j..], xi)) == Red(q, Num(indices, xi))
      invariant Red(q, den * Den(indices[j..], xi)) == Red(q, Den(indices, xi))
    {
      assert indices[j..][1..] == indices[j + 1..] && indices[j..][0] == indices[j];
      if j != pos {
        var xj := indices[j];
        assert xj != xi;
        ProductStep(q, num, xj, Num(indices[j + 1..], xi));
        ProductStep(q, den, xj - xi, Den(indices[j + 1..], xi));
        num, den := Red(q, num * xj), Red(q, den * Red(q, xj - xi));
      }
    }
    assert indices[|indices|..] == [];
    r := Red(q, num * Inv(q, den));
    LambdaFromParts(q, indices, xi, num, den);
  }

  lemma ProductStep(q: nat, a: int, b: int, c: int)
    requires q > 0
    ensures Red(q, Red(q, a * b) * c) == Red(q, a * (b * c)) == Red(q, Red(q, a * Red(q, b)) * c)
  {
    RedAgain(q, b);
    RedMul(q, a, Red(q, b), a, b);
    RedAgain(q, a * b);
    RedAgain(q, a * Red(q, b));
    RedMul(q, Red(q, a * b), c, a * b, c);
    RedMul(q, Red(q, a * Red(q, b)), c, a * b, c);
    assert a * b * c == a * (b * c);
  }

  lemma LambdaFromParts(q: nat, xs: seq<int>, x: int, num: int, den: int)
    requires q > 0 && Red(q, num * 1) == Red(q, Num(xs, x)) && Red(q, den * 1) == Red(q, Den(xs, x))
    ensures Red(q, num * Inv(q, den)) == Lambda(q, xs, x)
  {
    assert Inv(q, den) == Inv(q, Den(xs, x));
    RedMul(q, num, Inv(q, den), Num(xs, x), Inv(q, den));
  }

  /** LagrangeCoefficient. */
  method LagrangeCoefficient(G: Group, indices: seq<int>, pos: int) returns (r: Result<int, Error>)
    requires Valid(G)
    ensures r == if !InRange(indices) then Err(ErrBadIndex)
                 else if !NoRepeat(indices) then Err(ErrDuplicateIndex)
                 else if !(0 <= pos < |indices|) then Err(ErrPosition)
                 else Ok(Lambda(G.q, indices, indices[pos]))
  {
    var err := CheckIndices(indices);
    if err.Some? {
      return Err(err.value);
    }
    if !(0 <= pos < |indices|) {
      return Err(ErrPosition);
    }
    var l := LagrangeAt(G, indices, pos);
    return Ok(l);
  }

  /** The sum of Lambda(xs, zs[i]) * vs[i]. */
  function Weighted(q: nat, xs: seq<int>, zs: seq<int>, vs: seq<int>): int
    requires q > 0 && |zs| == |vs|
  {
    if zs == [] then 0 else Lambda(q, xs, zs[0]) * vs[0] + Weighted(q, xs, zs[1..], vs[1..])
  }

  /** LagrangeInterpolate. */
  method LagrangeInterpolate(G: Group, shares: seq<Option<int>>, indices: seq<int>) returns (r: Result<int, Error>)
    requires Valid(G)
    ensures r ==
      if |shares| == 0 then Err(ErrNoShares)
      else if |shares| != |indices| then Err(ErrShareCount)
      else if !InRange(indices) then Err(ErrBadIndex)
      else if !NoRepeat(indices) then Err(ErrDuplicateIndex)
      else if exists k :: 0 <= k < |shares| && shares[k].None? then Err(ErrNilShare)
      else Ok(Red(G.q, Weighted(G.q, indices, indices, Present(shares))))
  {
    if |shares| == 0 {
      return Err(ErrNoShares);
    }
    if |shares| != |indices| {
      return Err(ErrShareCount);
    }
    var err := CheckIndices(indices);
    if err.Some? {
      return Err(err.value);
    }
    hide Red, Lambda, InRange, NoRepeat;
    RedSmall(G.q, 0);
    var secret := 0;
    ghost var vs := seq(|shares|, k requires 0 <= k < |shares| => if shares[k].Some? then shares[k].value else 0);
    for i := 0 to |shares|
      invariant forall k :: 0 <= k < i ==> shares[k].Some?
      invariant Red(G.q, secret + Weighted(G.q, indices, indices[i..], vs[i..])) == Red(G.q, Weighted(G.q, indices, indices, vs))
      invariant secret == Red(G.q, secret)
    {
      if shares[i].None? {
        return Err(ErrNilShare);
      }
      var lambda := LagrangeAt(G, indices, i);
      var term := Red(G.q, lambda * shares[i].value);
      assert indices[i..][1..] == indices[i + 1..] && vs[i..][1..] == vs[i + 1..];
      SumStep(G.q, secret, lambda * shares[i].value, Weighted(G.q, indices, indices[i + 1..], vs[i + 1..]));
      secret := Red(G.q, secret + term);
    }
    assert vs == Present(shares);
    assert indices[|shares|..] == [] && vs[|shares|..] == [];
    return Ok(secret);
  }

  lemma SumStep(q: nat, s: int, t: int, rest: int)
    requires q > 0
    ensures Red(q, Red(q, s + Red(q, t)) + rest) == Red(q, s + (t + rest))
    ensures Red(q, Red(q, s + Red(q, t))) == Red(q, s + Red(q, t))
  {
    RedAgain(q, t);
    RedAdd(q, s, Red(q, t), s, t);
    RedAgain(q, s + Red(q, t));
    RedAdd(q, Red(q, s + Red(q, t)), rest, s + t, rest);
  }

  /** Values that agree with the multiples c * f(z) weigh to c times the Lagrange sum of f. */
  lemma {:induction false} WeightedValues(q: nat, xs: seq<int>, zs: seq<int>, vs: seq<int>, f: seq<int>, c: int)
    requires q > 0 && |zs| == |vs|
    requires forall k :: 0 <= k < |zs| ==> Red(q, vs[k]) == Red(q, Eval(f, zs[k]) * c)
    ensures Red(q, Weighted(q, xs, zs, vs)) == Red(q, LagSum(q, xs, zs, f) * c)
  {
    if zs != [] {
      var (l, e) := (Lambda(q, xs, zs[0]), Eval(f, zs[0]));
      WeightedValues(q, xs, zs[1..], vs[1..], f, c);
      LinearTerm(q, l, vs[0], e, c, Weighted(q, xs, zs[1..], vs[1..]), LagSum(q, xs, zs[1..], f));
    }
  }

  /** Reconstruction: any t or more distinct trustees, in any order, interpolate f(0), and every
      denominator they use is invertible. */
  lemma Reconstruction(G: Group, indices: seq<int>, f: seq<int>, c: int, vs: seq<int>)
    requires Valid(G) && InRange(indices) && NoRepeat(indices) && |f| <= |indices| == |vs|
    requires forall k :: 0 <= k < |indices| ==> Same(G, vs[k], Eval(f, indices[k]) * c)
    ensures Same(G, Weighted(G.q, indices, indices, vs), Eval(f, 0) * c)
    ensures forall k :: 0 <= k < |indices| ==> Red(G.q, Den(indices, indices[k])) != 0
  {
    IndicesDistinct(G, indices);
    Interpolation(G.q, indices, f);
    WeightedValues(G.q, indices, indices, vs, f, c);
    RedMul(G.q, LagSum(G.q, indices, indices, f), c, Eval(f, 0), c);
    forall k | 0 <= k < |indices|
      ensures Red(G.q, Den(indices, indices[k])) != 0
    {
      forall x | x in indices && x != indices[k]
        ensures Red(G.q, x) != Red(G.q, indices[k])
      {
        var j :| 0 <= j < |indices| && indices[j] == x;
        var (lo, hi) := if j < k then (j, k) else (k, j);
        assert Red(G.q, indices[lo]) != Red(G.q, indices[hi]);
      }
      DenIsUnit(G.q, indices, indices[k]);
      UnitNonZero(G.q, Den(indices, indices[k]));
    }
  }
}
