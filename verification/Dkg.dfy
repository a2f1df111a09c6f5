/** crypto/threshold/feldman.go (NewDealer) and dkg.go: every participant deals a polynomial,
    checks what it receives and adds it up. The random coefficients are a parameter. */
module Dkg {
  import opened Common
  import opened Scalars
  import opened Groups
  import opened Lagrange
  import opened Feldman

  datatype Dealer = Dealer(coefficients: seq<int>, commitments: seq<int>, shares: seq<int>)

  datatype Participant = Participant(id: int, combinedShare: int, verificationKey: int)

  datatype DkgResult = DkgResult(electionPublicKey: int, participants: seq<Participant>)

  /** The sum of the dealers' polynomials, each of t coefficients. */
  ghost function Joint(coins: seq<seq<int>>, threshold: nat): (f: seq<int>)
    requires Drawn(coins, threshold)
    ensures |f| == threshold
  {
    if coins == [] then seq(threshold, (k: nat) => 0)
    else AddPoly(Joint(Init(coins), threshold), Last(coins))
  }

  ghost function AddPoly(a: seq<int>, b: seq<int>): (c: seq<int>)
    requires |a| == |b|
    ensures |c| == |a|
  {
    seq(|a|, k requires 0 <= k < |a| => a[k] + b[k])
  }

  ghost function Init<T>(s: seq<T>): seq<T>
    requires s != []
  {
    s[..|s| - 1]
  }

  ghost function Last<T>(s: seq<T>): T
    requires s != []
  {
    s[|s| - 1]
  }

  ghost predicate Drawn(coins: seq<seq<int>>, threshold: int) {
    forall f :: f in coins ==> |f| == threshold
  }

  /** a is a coefficient and c its commitment. */
  ghost predicate Commits(G: Group, a: int, c: int, f: int)
    requires G.q > 0
  {
    a == Red(G.q, f) && c == BaseMul(G, f)
  }

  ghost predicate IsShare(G: Group, s: int, f: seq<int>, i: int)
    requires G.q > 0
  {
    s == Red(G.q, Eval(f, i))
  }

  /** A dealer that follows the protocol with the polynomial f. */
  ghost predicate Dealt(G: Group, d: Dealer, f: seq<int>, numParties: nat)
    requires G.q > 0
  {
    && |d.coefficients| == |d.commitments| == |f| && |d.shares| == numParties
    && (forall k :: 0 <= k < |f| ==> Commits(G, d.coefficients[k], d.commitments[k], f[k]))
    && forall i :: 0 <= i < numParties ==> IsShare(G, d.shares[i], f, i + 1)
  }

  method NewDealer(G: Group, threshold: int, numParties: int, coins: seq<int>) returns (r: Result<Dealer, Error>)
    requires Valid(G) && (CheckThreshold(threshold, numParties) ==> |coins| == threshold)
    ensures r.Ok? <==> 1 <= threshold <= numParties <= 0xFFFF_FFFF
    ensures r.Err? ==> r.error == ErrThreshold
    ensures r.Ok? ==> Dealt(G, r.value, coins, numParties)
  {
    if !CheckThreshold(threshold, numParties) {
      return Err(ErrThreshold);
    }
    ghost var f := coins;
    var coeffs: seq<int>, commitments: seq<int> := [], [];
    for k := 0 to threshold
      invariant |coeffs| == |commitments| == k
      invariant forall j :: 0 <= j < k ==> Commits(G, coeffs[j], commitments[j], f[j])
    {
      var a := Red(G.q, coins[k]);
      CommitStep(G, coins[k]);
      coeffs, commitments := coeffs + [a], commitments + [BaseMul(G, a)];
    }
    SameCoefficients(G, coeffs, commitments, f);
    var shares: seq<int> := [];
    for i := 1 to numParties + 1
      invariant |shares| == i - 1
      invariant forall j :: 0 <= j < i - 1 ==> IsShare(G, shares[j], f, j + 1)
    {
      var s := EvaluatePolynomial(G, coeffs, i);
      EvalSame(G.q, coeffs, f, i);
      shares := shares + [s.value];
    }
    return Ok(Dealer(coeffs, commitments, shares));
  }

  lemma CommitStep(G: Group, c: int)
    requires G.q > 0
    ensures Commits(G, Red(G.q, c), BaseMul(G, Red(G.q, c)), c)
  {
    RedAgain(G.q, c);
    RedMul(G.q, Red(G.q, c), G.g, c, G.g);
  }

  lemma SameCoefficients(G: Group, coeffs: seq<int>, commitments: seq<int>, f: seq<int>)
    requires G.q > 0 && |coeffs| == |commitments| == |f|
    requires forall j :: 0 <= j < |f| ==> Commits(G, coeffs[j], commitments[j], f[j])
    ensures forall j :: 0 <= j < |f| ==> Red(G.q, coeffs[j]) == Red(G.q, f[j])
  {
    forall j | 0 <= j < |f|
      ensures Red(G.q, coeffs[j]) == Red(G.q, f[j])
    {
      assert Commits(G, coeffs[j], commitments[j], f[j]);
      RedAgain(G.q, f[j]);
    }
  }

  lemma {:induction false} EvalSame(q: nat, a: seq<int>, b: seq<int>, x: int)
    requires q > 0 && |a| == |b| && forall k :: 0 <= k < |a| ==> Red(q, a[k]) == Red(q, b[k])
    ensures Red(q, Eval(a, x)) == Red(q, Eval(b, x))
  {
    if a != [] {
      EvalSame(q, a[1..], b[1..], x);
      RedMul(q, x, Eval(a[1..], x), x, Eval(b[1..], x));
      RedAdd(q, a[0], x * Eval(a[1..], x), b[0], x * Eval(b[1..], x));
    }
  }

  /** Commitments to f evaluate to f in the exponent. */
  lemma {:induction false} CommitmentsEval(G: Group, cs: seq<int>, f: seq<int>, x: int)
    requires G.q > 0 && |cs| == |f| && forall k :: 0 <= k < |f| ==> Red(G.q, cs[k]) == BaseMul(G, f[k])
    ensures Red(G.q, Eval(cs, x)) == BaseMul(G, Eval(f, x))
  {
    if f != [] {
      CommitmentsEval(G, cs[1..], f[1..], x);
      LinearTerm(G.q, x, Eval(cs[1..], x), Eval(f[1..], x), G.g, cs[0], f[0]);
    }
  }

  /** A dealer's own shares always pass. */
  lemma DealtShareAccepted(G: Group, d: Dealer, f: seq<int>, numParties: nat, i: nat)
    requires Valid(G) && Dealt(G, d, f, numParties) && |f| >= 1 && i < numParties && CheckIndex(numParties)
    ensures ShareAccepted(G, Some(d.shares[i]), i + 1, |f|, Committing(d.commitments))
  {
    forall k | 0 <= k < |f|
      ensures Red(G.q, d.commitments[k]) == BaseMul(G, f[k])
    {
      assert Commits(G, d.coefficients[k], d.commitments[k], f[k]);
      RedAgain(G.q, f[k] * G.g);
    }
    CommitmentsEval(G, d.commitments, f, i + 1);
    assert Present(Committing(d.commitments)) == d.commitments;
    assert IsShare(G, d.shares[i], f, i + 1);
    CommitStep(G, Eval(f, i + 1));
  }

  function Committing(cs: seq<int>): (os: seq<Option<int>>)
    ensures |os| == |cs| && forall k :: 0 <= k < |cs| ==> os[k] == Some(cs[k])
  {
    seq(|cs|, k requires 0 <= k < |cs| => Some(cs[k]))
  }

  /** The sum of the dealers' values at x is the joint polynomial's value. */
  ghost function ValueSum(coins: seq<seq<int>>, x: int): int {
    if coins == [] then 0 else ValueSum(Init(coins), x) + Eval(Last(coins), x)
  }

  lemma {:induction false} JointValue(coins: seq<seq<int>>, threshold: nat, x: int)
    requires Drawn(coins, threshold)
    ensures ValueSum(coins, x) == Eval(Joint(coins, threshold), x)
  {
    if coins == [] {
      ZeroEval(Joint(coins, threshold), x);
    } else {
      JointValue(Init(coins), threshold, x);
      EvalSum(Joint(Init(coins), threshold), Last(coins), Joint(coins, threshold), x);
    }
  }

  lemma ValueSumStep(coins: seq<seq<int>>, j: nat, x: int)
    requires j < |coins|
    ensures ValueSum(coins[..j + 1], x) == ValueSum(coins[..j], x) + Eval(coins[j], x)
  {
    assert coins[..j + 1][..j] == coins[..j];
  }

  lemma {:induction false} ZeroEval(f: seq<int>, x: int)
    requires forall k :: 0 <= k < |f| ==> f[k] == 0
    ensures Eval(f, x) == 0
  {
    if f != [] {
      ZeroEval(f[1..], x);
    }
  }

  lemma {:induction false} EvalSum(a: seq<int>, b: seq<int>, c: seq<int>, x: int)
    requires |a| == |b| == |c| && forall k :: 0 <= k < |c| ==> c[k] == a[k] + b[k]
    ensures Eval(a, x) + Eval(b, x) == Eval(c, x)
  {
    if c != [] {
      EvalSum(a[1..], b[1..], c[1..], x);
      SumTerm(x, Eval(a[1..], x), Eval(b[1..], x));
    }
  }

  lemma SumTerm(x: int, a: int, b: int)
    ensures x * a + x * b == x * (a + b)
  {
  }

  ghost predicate Holds(G: Group, p: Participant, i: nat, F: seq<int>)
    requires G.q > 0
  {
    && p.id == i + 1
    && p.combinedShare == Red(G.q, Eval(F, i + 1))
    && p.verificationKey == BaseMul(G, Eval(F, i + 1))
  }

  /** Every combined share lies on one polynomial F, every verification key is F(i) * g and the
      election key is F(0) * g. */
  ghost predicate SharesOf(G: Group, r: DkgResult, F: seq<int>)
    requires G.q > 0
  {
    && (forall i :: 0 <= i < |r.participants| ==> Holds(G, r.participants[i], i, F))
    && r.electionPublicKey == BaseMul(G, Eval(F, 0))
  }

  method RunDkg(G: Group, threshold: int, numParties: int, coins: seq<seq<int>>) returns (r: Result<DkgResult, Error>)
    requires Valid(G) && (CheckThreshold(threshold, numParties) ==> |coins| == numParties && Drawn(coins, threshold))
    ensures r.Ok? <==> 1 <= threshold <= numParties <= 0xFFFF_FFFF
    ensures r.Err? ==> r.error == ErrThreshold
    ensures r.Ok? ==> |r.value.participants| == numParties && SharesOf(G, r.value, Joint(coins, threshold))
  {
    if !CheckThreshold(threshold, numParties) {
      return Err(ErrThreshold);
    }
    var n := numParties;
    var dealers: seq<Dealer> := [];
    for i := 0 to n
      invariant |dealers| == i
      invariant forall j :: 0 <= j < i ==> Dealt(G, dealers[j], coins[j], n)
    {
      var d := NewDealer(G, threshold, n, coins[i]);
      dealers := dealers + [d.value];
    }
    var received := new int[n, n];
    var ok := Distribute(G, threshold, n, coins, dealers, received);
    if !ok {
      return Err(ErrInvalidShare);
    }
    var ps := CombineAll(G, threshold, n, coins, received);
    var pk := ElectionKey(G, threshold, n, coins, dealers);
    JointValue(coins, threshold, 0);
    return Ok(DkgResult(pk, ps));
  }

  /** Round 2: every participant checks and keeps the share of every dealer. */
  method Distribute(G: Group, threshold: int, n: int, ghost coins: seq<seq<int>>, dealers: seq<Dealer>,
                    received: array2<int>)
    returns (ok: bool)
    requires Valid(G) && CheckThreshold(threshold, n) && |dealers| == |coins| == n == received.Length0 == received.Length1
    requires Drawn(coins, threshold) && forall j :: 0 <= j < n ==> Dealt(G, dealers[j], coins[j], n)
    modifies received
    ensures ok
    ensures forall a, b :: 0 <= a < n && 0 <= b < n ==> IsShare(G, received[a, b], coins[b], a + 1)
  {
    for i := 0 to n
      invariant forall a, b :: 0 <= a < i && 0 <= b < n ==> IsShare(G, received[a, b], coins[b], a + 1)
    {
      for j := 0 to n
        invariant forall a, b :: 0 <= a < i && 0 <= b < n ==> IsShare(G, received[a, b], coins[b], a + 1)
        invariant forall b :: 0 <= b < j ==> IsShare(G, received[i, b], coins[b], i + 1)
      {
        var share := dealers[j].shares[i];
        assert Dealt(G, dealers[j], coins[j], n) && coins[j] in coins;
        DealtShareAccepted(G, dealers[j], coins[j], n, i);
        var accepted := VerifyShare(G, Some(share), i + 1, threshold, Committing(dealers[j].commitments));
        if !accepted {
          return false;
        }
        received[i, j] := share;
      }
    }
    return true;
  }

  /** Round 3: every participant adds up what it received. */
  method CombineAll(G: Group, ghost threshold: int, n: int, ghost coins: seq<seq<int>>, received: array2<int>)
    returns (ps: seq<Participant>)
    requires Valid(G) && threshold >= 1 && 0 <= n == |coins| == received.Length0 == received.Length1 && Drawn(coins, threshold)
    requires forall a, b :: 0 <= a < n && 0 <= b < n ==> IsShare(G, received[a, b], coins[b], a + 1)
    ensures |ps| == n && forall a :: 0 <= a < n ==> Holds(G, ps[a], a, Joint(coins, threshold))
  {
    ghost var F := Joint(coins, threshold);
    ps := [];
    for i := 0 to n
      invariant |ps| == i && forall a :: 0 <= a < i ==> Holds(G, ps[a], a, F)
    {
      var combined := CombineShares(G, n, coins, received, i);
      JointValue(coins, threshold, i + 1);
      CommitStep(G, Eval(F, i + 1));
      ps := ps + [Participant(i + 1, combined, BaseMul(G, combined))];
    }
  }

  /** One participant's share of the joint polynomial. */
  method CombineShares(G: Group, n: int, ghost coins: seq<seq<int>>, received: array2<int>,
                       i: nat) returns (combined: int)
    requires Valid(G) && i < n == |coins| == received.Length0 == received.Length1
    requires forall a, b :: 0 <= a < n && 0 <= b < n ==> IsShare(G, received[a, b], coins[b], a + 1)
    ensures combined == Red(G.q, ValueSum(coins, i + 1))
  {
    combined := 0;
    for j := 0 to n
      invariant combined == Red(G.q, ValueSum(coins[..j], i + 1))
    {
      assert IsShare(G, received[i, j], coins[j], i + 1);
      ValueSumStep(coins, j, i + 1);
      AddReduced(G.q, ValueSum(coins[..j], i + 1), Eval(coins[j], i + 1));
      combined := Red(G.q, combined + received[i, j]);
    }
    assert coins[..n] == coins;
  }

  method ElectionKey(G: Group, threshold: int, n: int, ghost coins: seq<seq<int>>,
                     dealers: seq<Dealer>) returns (pk: int)
    requires Valid(G) && threshold >= 1 && |dealers| == |coins| == n && Drawn(coins, threshold)
    requires forall j :: 0 <= j < n ==> Dealt(G, dealers[j], coins[j], n)
    ensures pk == BaseMul(G, ValueSum(coins, 0))
  {
    pk := 0;
    for j := 0 to n
      invariant pk == BaseMul(G, ValueSum(coins[..j], 0))
    {
      assert Dealt(G, dealers[j], coins[j], n) && coins[j] in coins;
      FirstCommitment(G, dealers[j], coins[j], n);
      ValueSumStep(coins, j, 0);
      KeyStep(G, ValueSum(coins[..j], 0), Eval(coins[j], 0));
      pk := Add(G, pk, dealers[j].commitments[0]);
    }
    assert coins[..n] == coins;
  }

  lemma AddReduced(q: nat, a: int, b: int)
    requires q > 0
    ensures Red(q, Red(q, a) + Red(q, b)) == Red(q, a + b)
  {
    RedAgain(q, a);
    RedAgain(q, b);
    RedAdd(q, Red(q, a), Red(q, b), a, b);
  }

  lemma FirstCommitment(G: Group, d: Dealer, f: seq<int>, numParties: nat)
    requires G.q > 0 && |f| >= 1 && Dealt(G, d, f, numParties)
    ensures d.commitments[0] == BaseMul(G, Eval(f, 0))
  {
    assert Commits(G, d.coefficients[0], d.commitments[0], f[0]);
    assert Eval(f, 0) == f[0] by { assert 0 * Eval(f[1..], 0) == 0; }
  }

  lemma KeyStep(G: Group, a: int, b: int)
    requires G.q > 0
    ensures Red(G.q, BaseMul(G, a) + BaseMul(G, b)) == BaseMul(G, a + b)
  {
    AddReduced(G.q, a * G.g, b * G.g);
    assert a * G.g + b * G.g == (a + b) * G.g;
  }
}
