/** crypto/proof: Chaum-Pedersen, binary, sum-one, candidate-sum and consistency proofs. The
    Fiat-Shamir hash is an arbitrary function of the transcript, and all prover randomness is a
    parameter. */
module Sigma {
  import opened Common
  import opened Scalars
  import opened Groups
  import opened ElGamal

  datatype Error = ErrInvalidProof | ErrMalformed

  datatype Verdict = Accepted | Rejected(error: Error)

  datatype Context = Context(electionId: string, ballotId: string, index: nat)

  /** One length-prefixed field of a transcript context. */
  datatype Field = Text(text: string) | U32(number: nat) | Element(element: int) | Digest(bytes: Bytes)

  datatype Transcript =
    | CpTranscript(context: seq<Field>, elements: seq<int>)
    | BallotTranscript(domain: string, ctx: Context, elements: seq<int>)

  /** FiatShamir: the challenge of a transcript. */
  type Oracle = Transcript -> int

  const BINARY_DOMAIN := "otvoren-vot.ballot-binary-proof"
  const SUM_DOMAIN := "otvoren-vot.ballot-sum-proof"
  const CANDIDATE_SUM_DOMAIN := "otvoren-vot.candidate-sum-01-proof"
  const CONSISTENCY_DOMAIN := "otvoren-vot.candidate-consistency-proof"

  // ----- one linear equation: z * base = u + e * Y

  predicate Holds(G: Group, z: int, base: int, u: int, e: int, Y: int)
    requires G.q > 0
  {
    Mul(G, z, base) == Add(G, u, Mul(G, e, Y))
  }

  lemma HoldsIff(G: Group, z: int, base: int, u: int, e: int, Y: int)
    requires G.q > 0
    ensures Holds(G, z, base, u, e, Y) <==> Red(G.q, z * base - u - e * Y) == 0
  {
    hide Red;
    SumIff(G.q, z * base, u, e * Y);
  }

  lemma SumIff(q: nat, a: int, u: int, v: int)
    requires q > 0
    ensures Red(q, a) == Red(q, u + Red(q, v)) <==> Red(q, a - u - v) == 0
  {
    hide Red;
    RedSmall(q, 0);
    RedAgain(q, v);
    RedAdd(q, u, Red(q, v), u, v);
    if Red(q, a) == Red(q, u + v) {
      RedAdd(q, a, u + v, u + v, u + v);
    }
    if Red(q, a - u - v) == 0 {
      RedAdd(q, a - u - v, u + v, 0, u + v);
    }
  }

  /** An honest response to u = k * base for the witness x verifies exactly when the challenge
      annihilates the statement's error Y - x * base. */
  lemma HonestResponse(G: Group, k: int, e: int, x: int, base: int, Y: int, z: int)
    requires G.q > 0 && Same(G, z, k + e * x)
    ensures Holds(G, z, base, Mul(G, k, base), e, Y) <==> Red(G.q, e * (Y - x * base)) == 0
  {
    var u := Mul(G, k, base);
    HoldsIff(G, z, base, u, e, Y);
    ResponseResidue(G.q, k, e, x, base, Y, z, u);
    NegatedZero(G.q, e * (Y - x * base));
  }

  lemma ResponseResidue(q: nat, k: int, e: int, x: int, base: int, Y: int, z: int, u: int)
    requires q > 0 && Red(q, z) == Red(q, k + e * x) && u == Red(q, k * base)
    ensures Red(q, z * base - u - e * Y) == Red(q, -(e * (Y - x * base)))
  {
    RedAgain(q, k * base);
    RedMul(q, z, base, k + e * x, base);
    RedAdd(q, z * base, u, (k + e * x) * base, k * base);
    RedAdd(q, z * base - u, e * Y, (k + e * x) * base - k * base, e * Y);
    ResponseAlgebra(k, e, x, base, Y);
  }

  lemma NegatedZero(q: nat, w: int)
    requires q > 0
    ensures Red(q, -w) == 0 <==> Red(q, w) == 0
  {
    if Red(q, w) == 0 {
      RedAdd(q, 0, w, 0, 0);
    }
    if Red(q, -w) == 0 {
      RedAdd(q, 0, -w, 0, 0);
    }
  }

  lemma ResponseAlgebra(k: int, e: int, x: int, base: int, Y: int)
    ensures (k + e * x) * base - k * base - e * Y == -(e * (Y - x * base))
  {
    assert (k + e * x) * base == k * base + e * x * base;
    assert e * (Y - x * base) == e * Y - e * (x * base);
    assert e * x * base == e * (x * base);
  }

  /** A simulated commitment always verifies. */
  lemma SimulatedHolds(G: Group, z: int, base: int, e: int, Y: int)
    requires G.q > 0
    ensures Holds(G, z, base, Sub(G, Mul(G, z, base), Mul(G, e, Y)), e, Y)
  {
    var q := G.q;
    var a: int, b: int := Mul(G, z, base), Mul(G, e, Y);
    RedAgain(q, a - b);
    RedAdd(q, Sub(G, a, b), b, a - b, b);
    RedAgain(q, z * base);
  }

  /** Two responses to one commitment under different challenges open the statement. */
  lemma Extract(G: Group, z: int, z': int, base: int, u: int, e: int, e': int, Y: int)
    requires Valid(G) && Holds(G, z, base, u, e, Y) && Holds(G, z', base, u, e', Y) && !Same(G, e, e')
    ensures Same(G, Y, (z - z') * Inv(G.q, e - e') * base)
  {
    var q := G.q;
    var (d, w) := (e - e', z - z');
    if Red(q, d) == 0 {
      RedAdd(q, d, e', 0, e');
    }
    NonZeroIsUnit(q, d);
    HoldsIff(G, z, base, u, e, Y);
    HoldsIff(G, z', base, u, e', Y);
    RedAdd(q, z * base - u - e * Y, z' * base - u - e' * Y, 0, 0);
    ExtractAlgebra(z, z', base, u, e, e', Y);
    RedAdd(q, w * base - d * Y, d * Y, 0, d * Y);
    var i := Inv(q, d);
    RedMul(q, d * Y, i, w * base, i);
    UnitTimes(q, d, Y);
    assert w * base * i == w * i * base;
  }

  lemma ExtractAlgebra(z: int, z': int, base: int, u: int, e: int, e': int, Y: int)
    ensures (z * base - u - e * Y) - (z' * base - u - e' * Y) == (z - z') * base - (e - e') * Y
  {
  }

  // ----- Chaum-Pedersen

  datatype CpProof = CpProof(u: int, v: int, z: int)

  function ProveChaumPedersen(G: Group, O: Oracle, context: seq<Field>, g: int, h: int, A: int, B: int, x: int,
                              k: int): CpProof
    requires G.q > 0
  {
    var (u, v) := (Mul(G, k, g), Mul(G, k, h));
    var e := Red(G.q, O(CpTranscript(context, [g, h, A, B, u, v])));
    CpProof(u, v, Red(G.q, e * x + k))
  }

  function VerifyChaumPedersen(G: Group, O: Oracle, context: seq<Field>, g: int, h: int, A: int, B: int,
                               p: CpProof): Verdict
    requires G.q > 0
  {
    var e := Red(G.q, O(CpTranscript(context, [g, h, A, B, p.u, p.v])));
    if !Holds(G, p.z, g, p.u, e, A) then Rejected(ErrInvalidProof)
    else if !Holds(G, p.z, h, p.v, e, B) then Rejected(ErrInvalidProof)
    else Accepted
  }

  /** The honest prover's proof verifies exactly when the challenge annihilates both errors of
      the statement; in particular always when A = x * g and B = x * h. */
  lemma ChaumPedersenComplete(G: Group, O: Oracle, context: seq<Field>, g: int, h: int, A: int, B: int, x: int, k: int)
    requires Valid(G)
    ensures var p := ProveChaumPedersen(G, O, context, g, h, A, B, x, k);
      var e := Red(G.q, O(CpTranscript(context, [g, h, A, B, p.u, p.v])));
      && (VerifyChaumPedersen(G, O, context, g, h, A, B, p) == Accepted <==>
            Red(G.q, e * (A - x * g)) == 0 && Red(G.q, e * (B - x * h)) == 0)
      && (Same(G, A, x * g) && Same(G, B, x * h) ==> VerifyChaumPedersen(G, O, context, g, h, A, B, p) == Accepted)
  {
    var p := ProveChaumPedersen(G, O, context, g, h, A, B, x, k);
    var e := Red(G.q, O(CpTranscript(context, [g, h, A, B, p.u, p.v])));
    RedAgain(G.q, e * x + k);
    HonestResponse(G, k, e, x, g, A, p.z);
    HonestResponse(G, k, e, x, h, B, p.z);
    NoError(G, e, A, x * g);
    NoError(G, e, B, x * h);
  }

  lemma NoError(G: Group, e: int, A: int, B: int)
    requires G.q > 0
    ensures Same(G, A, B) ==> Red(G.q, e * (A - B)) == 0
  {
    if Same(G, A, B) {
      RedAdd(G.q, A, B, B, B);
      RedMul(G.q, e, A - B, e, 0);
      assert e * 0 == 0;
    }
  }

  /** Special soundness: one commitment accepted under two challenges gives the common discrete
      logarithm. */
  lemma ChaumPedersenSound(G: Group, g: int, h: int, A: int, B: int, u: int, v: int, e: int, z: int, e': int, z': int)
    returns (x: int)
    requires Valid(G) && !Same(G, e, e')
    requires Holds(G, z, g, u, e, A) && Holds(G, z, h, v, e, B)
    requires Holds(G, z', g, u, e', A) && Holds(G, z', h, v, e', B)
    ensures Same(G, A, x * g) && Same(G, B, x * h)
  {
    x := (z - z') * Inv(G.q, e - e');
    Extract(G, z, z', g, u, e, e', A);
    Extract(G, z, z', h, v, e, e', B);
  }

  // ----- binary proofs

  datatype BinaryProof = BinaryProof(a0: int, a1: int, b0: int, b1: int, e0: int, e1: int, z0: int, z1: int)

  predicate WellFormed(G: Group, ctx: Context, pk: int)
    requires G.q > 0
  {
    ctx.electionId != "" && ctx.ballotId != "" && Red(G.q, pk) != 0
  }

  function BinaryChallenge(G: Group, O: Oracle, domain: string, ctx: Context, pk: int, ct: Ciphertext, a0: int,
                           b0: int, a1: int, b1: int): nat
    requires G.q > 0
  {
    Red(G.q, O(BallotTranscript(domain, ctx, [pk, ct.c1, ct.c2, a0, b0, a1, b1])))
  }

  /** The prover for the bit 0: it answers the first branch with r, and makes up the second from the
      challenge es and the response zs. */
  function ProveBinaryReal0(G: Group, O: Oracle, domain: string, ctx: Context, h: int, ct: Ciphertext, r: int, k: int,
                            es: int, zs: int): BinaryProof
    requires G.q > 0
  {
    var (a0, b0) := (BaseMul(G, k), Mul(G, k, h));
    var (e1, z1) := (Red(G.q, es), Red(G.q, zs));
    var a1 := Sub(G, BaseMul(G, z1), Mul(G, e1, ct.c1));
    var b1 := Sub(G, Mul(G, z1, h), Mul(G, e1, Sub(G, ct.c2, G.g)));
    var e := BinaryChallenge(G, O, domain, ctx, h, ct, a0, b0, a1, b1);
    var e0 := Sub(G, e, e1);
    BinaryProof(a0, a1, b0, b1, e0, e1, Red(G.q, e0 * r + k), z1)
  }

  /** The prover for the bit 1, with the two branches exchanged. */
  function ProveBinaryReal1(G: Group, O: Oracle, domain: string, ctx: Context, h: int, ct: Ciphertext, r: int, k: int,
                            es: int, zs: int): BinaryProof
    requires G.q > 0
  {
    var (e0, z0) := (Red(G.q, es), Red(G.q, zs));
    var a0 := Sub(G, BaseMul(G, z0), Mul(G, e0, ct.c1));
    var b0 := Sub(G, Mul(G, z0, h), Mul(G, e0, ct.c2));
    var (a1, b1) := (BaseMul(G, k), Mul(G, k, h));
    var e := BinaryChallenge(G, O, domain, ctx, h, ct, a0, b0, a1, b1);
    var e1 := Sub(G, e, e0);
    BinaryProof(a0, a1, b0, b1, e0, e1, z0, Red(G.q, e1 * r + k))
  }

  function ProveBinary(G: Group, O: Oracle, domain: string, ctx: Context, pk: int, ct: Ciphertext, m: int, r: int,
                       k: int, es: int, zs: int): Result<BinaryProof, Error>
    requires G.q > 0
  {
    if !WellFormed(G, ctx, pk) || (m != 0 && m != 1) then Err(ErrMalformed)
    else if m == 0 then Ok(ProveBinaryReal0(G, O, domain, ctx, pk, ct, r, k, es, zs))
    else Ok(ProveBinaryReal1(G, O, domain, ctx, pk, ct, r, k, es, zs))
  }

  /** The five checks of the verifier under the challenge e. */
  predicate BinaryHolds(G: Group, pk: int, ct: Ciphertext, p: BinaryProof, e: int)
    requires G.q > 0
  {
    && Add(G, p.e0, p.e1) == Red(G.q, e)
    && Holds(G, p.z0, G.g, p.a0, p.e0, ct.c1)
    && Holds(G, p.z0, pk, p.b0, p.e0, ct.c2)
    && Holds(G, p.z1, G.g, p.a1, p.e1, ct.c1)
    && Holds(G, p.z1, pk, p.b1, p.e1, Sub(G, ct.c2, G.g))
  }

  function VerifyBinary(G: Group, O: Oracle, domain: string, ctx: Context, pk: int, ct: Ciphertext,
                        p: BinaryProof): Verdict
    requires G.q > 0
  {
    if !WellFormed(G, ctx, pk) then Rejected(ErrMalformed)
    else if BinaryHolds(G, pk, ct, p, BinaryChallenge(G, O, domain, ctx, pk, ct, p.a0, p.b0, p.a1, p.b1)) then Accepted
    else Rejected(ErrInvalidProof)
  }

  /** Exact completeness: for every plaintext m and all randomness, the honest prover that claims
      the bit b makes a proof that verifies if and only if e_b * (m - b) = 0. */
  lemma BinaryComplete(G: Group, O: Oracle, domain: string, ctx: Context, pk: int, ct: Ciphertext, m: int, r: int,
                       b: int, k: int, es: int, zs: int)
    requires Valid(G) && WellFormed(G, ctx, pk) && (b == 0 || b == 1) && Encrypts(G, pk, ct, m, r)
    ensures ProveBinary(G, O, domain, ctx, pk, ct, b, r, k, es, zs).Ok?
    ensures var p := ProveBinary(G, O, domain, ctx, pk, ct, b, r, k, es, zs).value;
      VerifyBinary(G, O, domain, ctx, pk, ct, p) == Accepted <==>
        Red(G.q, (if b == 0 then p.e0 else p.e1) * (m - b)) == 0
  {
    if b == 0 {
      Real0Complete(G, O, domain, ctx, pk, ct, m, r, k, es, zs);
    } else {
      Real1Complete(G, O, domain, ctx, pk, ct, m, r, k, es, zs);
    }
  }

  /** The statement error of a claimed bit b: c1 has none, and c2 - b * g has (m - b) * g. */
  lemma BranchErrors(G: Group, pk: int, ct: Ciphertext, m: int, r: int, b: int, e: int, Y: int)
    requires Valid(G) && Encrypts(G, pk, ct, m, r) && Same(G, Y, ct.c2 - b * G.g)
    ensures Red(G.q, e * (ct.c1 - r * G.g)) == 0
    ensures Red(G.q, e * (Y - r * pk)) == 0 <==> Red(G.q, e * (m - b)) == 0
  {
    var (q, g) := (G.q, G.g);
    NoError(G, e, ct.c1, r * g);
    RedAdd(q, ct.c2, b * g, r * pk + m * g, b * g);
    RedAdd(q, Y, r * pk, r * pk + m * g - b * g, r * pk);
    assert m * g - b * g == (m - b) * g;
    RedMul(q, e, Y - r * pk, e, (m - b) * g);
    assert e * ((m - b) * g) == g * (e * (m - b));
    ScaledZero(G, e * (m - b));
  }

  lemma ScaledZero(G: Group, w: int)
    requires Valid(G)
    ensures Red(G.q, G.g * w) == 0 <==> Red(G.q, w) == 0
  {
    NonZeroIsUnit(G.q, G.g);
    assert G.g * 0 == 0;
    if Red(G.q, G.g * w) == 0 {
      Cancel(G.q, G.g, w, 0);
    }
    if Red(G.q, w) == 0 {
      RedMul(G.q, G.g, w, G.g, 0);
    }
  }

  lemma SplitChallenge(G: Group, e: nat, s: nat)
    requires G.q > 0 && e < G.q && s < G.q
    ensures Add(G, Sub(G, e, s), s) == e && Add(G, s, Sub(G, e, s)) == e
  {
    RedAgain(G.q, e - s);
    RedAdd(G.q, Sub(G, e, s), s, e - s, s);
    RedSmall(G.q, e);
  }

  lemma Real0Complete(G: Group, O: Oracle, domain: string, ctx: Context, pk: int, ct: Ciphertext, m: int, r: int,
                      k: int, es: int, zs: int)
    requires Valid(G) && WellFormed(G, ctx, pk) && Encrypts(G, pk, ct, m, r)
    ensures var p := ProveBinaryReal0(G, O, domain, ctx, pk, ct, r, k, es, zs);
      VerifyBinary(G, O, domain, ctx, pk, ct, p) == Accepted <==> Red(G.q, p.e0 * (m - 0)) == 0
  {
    var p := ProveBinaryReal0(G, O, domain, ctx, pk, ct, r, k, es, zs);
    var e := BinaryChallenge(G, O, domain, ctx, pk, ct, p.a0, p.b0, p.a1, p.b1);
    Real0Equations(G, pk, ct, m, r, k, p, e);
  }

  lemma Real0Equations(G: Group, pk: int, ct: Ciphertext, m: int, r: int, k: int, p: BinaryProof, e: nat)
    requires Valid(G) && Encrypts(G, pk, ct, m, r) && e < G.q && 0 <= p.e1 < G.q && p.e0 == Sub(G, e, p.e1)
    requires p.a0 == BaseMul(G, k) && p.b0 == Mul(G, k, pk) && p.z0 == Red(G.q, p.e0 * r + k)
    requires p.a1 == Sub(G, BaseMul(G, p.z1), Mul(G, p.e1, ct.c1))
    requires p.b1 == Sub(G, Mul(G, p.z1, pk), Mul(G, p.e1, Sub(G, ct.c2, G.g)))
    ensures BinaryHolds(G, pk, ct, p, e) <==> Red(G.q, p.e0 * (m - 0)) == 0
  {
    SplitChallenge(G, e, p.e1);
    RedSmall(G.q, e);
    RedAgain(G.q, p.e0 * r + k);
    HonestResponse(G, k, p.e0, r, G.g, ct.c1, p.z0);
    HonestResponse(G, k, p.e0, r, pk, ct.c2, p.z0);
    SimulatedHolds(G, p.z1, G.g, p.e1, ct.c1);
    SimulatedHolds(G, p.z1, pk, p.e1, Sub(G, ct.c2, G.g));
    assert 0 * G.g == 0;
    BranchErrors(G, pk, ct, m, r, 0, p.e0, ct.c2);
  }

  lemma Real1Complete(G: Group, O: Oracle, domain: string, ctx: Context, pk: int, ct: Ciphertext, m: int, r: int,
                      k: int, es: int, zs: int)
    requires Valid(G) && WellFormed(G, ctx, pk) && Encrypts(G, pk, ct, m, r)
    ensures var p := ProveBinaryReal1(G, O, domain, ctx, pk, ct, r, k, es, zs);
      VerifyBinary(G, O, domain, ctx, pk, ct, p) == Accepted <==> Red(G.q, p.e1 * (m - 1)) == 0
  {
    var p := ProveBinaryReal1(G, O, domain, ctx, pk, ct, r, k, es, zs);
    var e := BinaryChallenge(G, O, domain, ctx, pk, ct, p.a0, p.b0, p.a1, p.b1);
    Real1Equations(G, pk, ct, m, r, k, p, e);
  }

  lemma Real1Equations(G: Group, pk: int, ct: Ciphertext, m: int, r: int, k: int, p: BinaryProof, e: nat)
    requires Valid(G) && Encrypts(G, pk, ct, m, r) && e < G.q && 0 <= p.e0 < G.q && p.e1 == Sub(G, e, p.e0)
    requires p.a1 == BaseMul(G, k) && p.b1 == Mul(G, k, pk) && p.z1 == Red(G.q, p.e1 * r + k)
    requires p.a0 == Sub(G, BaseMul(G, p.z0), Mul(G, p.e0, ct.c1))
    requires p.b0 == Sub(G, Mul(G, p.z0, pk), Mul(G, p.e0, ct.c2))
    ensures BinaryHolds(G, pk, ct, p, e) <==> Red(G.q, p.e1 * (m - 1)) == 0
  {
    var Y := Sub(G, ct.c2, G.g);
    SplitChallenge(G, e, p.e0);
    RedSmall(G.q, e);
    RedAgain(G.q, p.e1 * r + k);
    HonestResponse(G, k, p.e1, r, G.g, ct.c1, p.z1);
    HonestResponse(G, k, p.e1, r, pk, Y, p.z1);
    SimulatedHolds(G, p.z0, G.g, p.e0, ct.c1);
    SimulatedHolds(G, p.z0, pk, p.e0, ct.c2);
    RedAgain(G.q, ct.c2 - G.g);
    assert 1 * G.g == G.g;
    BranchErrors(G, pk, ct, m, r, 1, p.e1, Y);
  }

  /** Two accepted proofs with one commitment and different challenges. */
  ghost predicate Forked(G: Group, pk: int, ct: Ciphertext, p: BinaryProof, e: int, p': BinaryProof, e': int)
    requires G.q > 0
  {
    && BinaryHolds(G, pk, ct, p, e) && BinaryHolds(G, pk, ct, p', e') && !Same(G, e, e')
    && p.a0 == p'.a0 && p.a1 == p'.a1 && p.b0 == p'.b0 && p.b1 == p'.b1
  }

  /** Two accepting runs of the verifier under two hash functions are a fork. */
  lemma AcceptedFork(G: Group, O: Oracle, O': Oracle, domain: string, ctx: Context, pk: int, ct: Ciphertext,
                     p: BinaryProof, p': BinaryProof)
    requires G.q > 0 && p.a0 == p'.a0 && p.a1 == p'.a1 && p.b0 == p'.b0 && p.b1 == p'.b1
    requires VerifyBinary(G, O, domain, ctx, pk, ct, p) == VerifyBinary(G, O', domain, ctx, pk, ct, p') == Accepted
    ensures var (e, e') := (BinaryChallenge(G, O, domain, ctx, pk, ct, p.a0, p.b0, p.a1, p.b1),
                            BinaryChallenge(G, O', domain, ctx, pk, ct, p.a0, p.b0, p.a1, p.b1));
      e != e' ==> Forked(G, pk, ct, p, e, p', e')
  {
    var t := BallotTranscript(domain, ctx, [pk, ct.c1, ct.c2, p.a0, p.b0, p.a1, p.b1]);
    RedAgain(G.q, O(t));
    RedAgain(G.q, O'(t));
  }

  /** Special soundness: a fork opens the ciphertext to 0 or to 1. */
  lemma BinarySound(G: Group, pk: int, ct: Ciphertext, p: BinaryProof, e: int, p': BinaryProof, e': int)
    returns (m: int, r: int)
    requires Valid(G) && Forked(G, pk, ct, p, e, p', e')
    ensures (m == 0 || m == 1) && Encrypts(G, pk, ct, m, r)
  {
    var (q, g) := (G.q, G.g);
    if Same(G, p.e0, p'.e0) {
      if Same(G, p.e1, p'.e1) {
        RedAdd(q, p.e0, p.e1, p'.e0, p'.e1);
        assert false;
      }
      m, r := 1, (p.z1 - p'.z1) * Inv(q, p.e1 - p'.e1);
      Extract(G, p.z1, p'.z1, g, p.a1, p.e1, p'.e1, ct.c1);
      Extract(G, p.z1, p'.z1, pk, p.b1, p.e1, p'.e1, Sub(G, ct.c2, g));
      RedAgain(q, ct.c2 - g);
      RedAdd(q, ct.c2 - g, g, r * pk, g);
      assert 1 * g == g;
    } else {
      m, r := 0, (p.z0 - p'.z0) * Inv(q, p.e0 - p'.e0);
      Extract(G, p.z0, p'.z0, g, p.a0, p.e0, p'.e0, ct.c1);
      Extract(G, p.z0, p'.z0, pk, p.b0, p.e0, p'.e0, ct.c2);
      assert 0 * g == 0;
    }
  }

  // ----- sum-one proofs

  datatype SumProof = SumProof(a: int, b: int, z: int)

  function SumChallenge(G: Group, O: Oracle, ctx: Context, pk: int, agg: Ciphertext, a: int, b: int): nat
    requires G.q > 0
  {
    Red(G.q, O(BallotTranscript(SUM_DOMAIN, ctx, [pk, agg.c1, agg.c2, a, b])))
  }

  function ProveSumOne(G: Group, O: Oracle, ctx: Context, pk: int, cts: seq<Ciphertext>, rSum: int,
                       k: int): Result<SumProof, Error>
    requires G.q > 0
  {
    if !WellFormed(G, ctx, pk) || cts == [] then Err(ErrMalformed)
    else
      var agg := SumOf(G, cts);
      var (a, b) := (BaseMul(G, k), Mul(G, k, pk));
      Ok(SumProof(a, b, Red(G.q, SumChallenge(G, O, ctx, pk, agg, a, b) * rSum + k)))
  }

  predicate SumHolds(G: Group, pk: int, agg: Ciphertext, p: SumProof, e: int)
    requires G.q > 0
  {
    Holds(G, p.z, G.g, p.a, e, agg.c1) && Holds(G, p.z, pk, p.b, e, Sub(G, agg.c2, G.g))
  }

  function VerifySumOne(G: Group, O: Oracle, ctx: Context, pk: int, cts: seq<Ciphertext>, p: SumProof): Verdict
    requires G.q > 0
  {
    if !WellFormed(G, ctx, pk) || cts == [] then Rejected(ErrMalformed)
    else if SumHolds(G, pk, SumOf(G, cts), p, SumChallenge(G, O, ctx, pk, SumOf(G, cts), p.a, p.b)) then Accepted
    else Rejected(ErrInvalidProof)
  }

  /** The honest sum-one proof for an aggregate of plaintext m verifies if and only if
      e * (m - 1) = 0. */
  ghost predicate SumVerifiesIff(G: Group, O: Oracle, ctx: Context, pk: int, cts: seq<Ciphertext>, m: int, r: int,
                                 k: int)
    requires G.q > 0
  {
    var made := ProveSumOne(G, O, ctx, pk, cts, r, k);
    && made.Ok?
    && (VerifySumOne(G, O, ctx, pk, cts, made.value) == Accepted <==>
          Red(G.q, SumChallenge(G, O, ctx, pk, SumOf(G, cts), made.value.a, made.value.b) * (m - 1)) == 0)
  }

  /** Exact completeness, for every list of ciphertexts and all randomness. */
  lemma SumOneComplete(G: Group, O: Oracle, ctx: Context, pk: int, cts: seq<Ciphertext>, ms: seq<int>, rs: seq<int>,
                       k: int)
    requires Valid(G) && WellFormed(G, ctx, pk) && cts != [] && |cts| == |ms| == |rs|
    requires forall i :: 0 <= i < |cts| ==> Encrypts(G, pk, cts[i], ms[i], rs[i])
    ensures SumVerifiesIff(G, O, ctx, pk, cts, Total(ms), Total(rs), k)
  {
    SumEncrypts(G, pk, cts, ms, rs);
    AggregateComplete(G, O, ctx, pk, cts, Total(ms), Total(rs), k);
  }

  lemma AggregateComplete(G: Group, O: Oracle, ctx: Context, pk: int, cts: seq<Ciphertext>, m: int, r: int, k: int)
    requires Valid(G) && WellFormed(G, ctx, pk) && cts != [] && Encrypts(G, pk, SumOf(G, cts), m, r)
    ensures SumVerifiesIff(G, O, ctx, pk, cts, m, r, k)
  {
    var agg := SumOf(G, cts);
    var p := ProveSumOne(G, O, ctx, pk, cts, r, k).value;
    SumEquations(G, pk, agg, m, r, k, p, SumChallenge(G, O, ctx, pk, agg, p.a, p.b));
  }

  lemma SumEquations(G: Group, pk: int, agg: Ciphertext, m: int, r: int, k: int, p: SumProof, e: nat)
    requires Valid(G) && Encrypts(G, pk, agg, m, r)
    requires p.a == BaseMul(G, k) && p.b == Mul(G, k, pk) && p.z == Red(G.q, e * r + k)
    ensures SumHolds(G, pk, agg, p, e) <==> Red(G.q, e * (m - 1)) == 0
  {
    var Y := Sub(G, agg.c2, G.g);
    RedAgain(G.q, e * r + k);
    RedAgain(G.q, agg.c2 - G.g);
    assert 1 * G.g == G.g;
    HonestResponse(G, k, e, r, G.g, agg.c1, p.z);
    HonestResponse(G, k, e, r, pk, Y, p.z);
    BranchErrors(G, pk, agg, m, r, 1, e, Y);
  }

  /** Special soundness: a fork opens the aggregate to 1. */
  lemma SumOneSound(G: Group, pk: int, agg: Ciphertext, p: SumProof, e: int, p': SumProof, e': int) returns (r: int)
    requires Valid(G) && SumHolds(G, pk, agg, p, e) && SumHolds(G, pk, agg, p', e') && !Same(G, e, e')
    requires p.a == p'.a && p.b == p'.b
    ensures Encrypts(G, pk, agg, 1, r)
  {
    var (q, g) := (G.q, G.g);
    r := (p.z - p'.z) * Inv(q, e - e');
    Extract(G, p.z, p'.z, g, p.a, e, e', agg.c1);
    Extract(G, p.z, p'.z, pk, p.b, e, e', Sub(G, agg.c2, g));
    RedAgain(q, agg.c2 - g);
    RedAdd(q, agg.c2 - g, g, r * pk, g);
    assert 1 * g == g;
  }

  /** Two accepting runs of the verifier under two hash functions are a fork. */
  lemma SumAcceptedFork(G: Group, O: Oracle, O': Oracle, ctx: Context, pk: int, cts: seq<Ciphertext>, p: SumProof,
                        p': SumProof)
    requires G.q > 0 && p.a == p'.a && p.b == p'.b
    requires VerifySumOne(G, O, ctx, pk, cts, p) == VerifySumOne(G, O', ctx, pk, cts, p') == Accepted
    ensures var agg := SumOf(G, cts);
      var (e, e') := (SumChallenge(G, O, ctx, pk, agg, p.a, p.b), SumChallenge(G, O', ctx, pk, agg, p.a, p.b));
      SumHolds(G, pk, agg, p, e) && SumHolds(G, pk, agg, p', e') && (e != e' ==> !Same(G, e, e'))
  {
    var agg := SumOf(G, cts);
    var t := BallotTranscript(SUM_DOMAIN, ctx, [pk, agg.c1, agg.c2, p.a, p.b]);
    RedAgain(G.q, O(t));
    RedAgain(G.q, O'(t));
  }

  // ----- candidate-sum and consistency proofs

  function VerifyCandidateSum(G: Group, O: Oracle, ctx: Context, pk: int, agg: Ciphertext, p: BinaryProof): Verdict
    requires G.q > 0
  {
    VerifyBinary(G, O, CANDIDATE_SUM_DOMAIN, ctx, pk, agg, p)
  }

  function ProveConsistency(G: Group, O: Oracle, ctx: Context, pk: int, partyCt: Ciphertext, candSumCt: Ciphertext,
                            diff: int, rDiff: int, k: int, es: int, zs: int): Result<BinaryProof, Error>
    requires G.q > 0
  {
    ProveBinary(G, O, CONSISTENCY_DOMAIN, ctx, pk, SubCt(G, partyCt, candSumCt), diff, rDiff, k, es, zs)
  }

  function VerifyConsistency(G: Group, O: Oracle, ctx: Context, pk: int, partyCt: Ciphertext, candSumCt: Ciphertext,
                             p: BinaryProof): Verdict
    requires G.q > 0
  {
    VerifyBinary(G, O, CONSISTENCY_DOMAIN, ctx, pk, SubCt(G, partyCt, candSumCt), p)
  }

  /** Exact completeness of the consistency proof over the homomorphic difference: the claimed
      bit is compared with the party plaintext minus the candidate-sum plaintext. */
  lemma ConsistencyComplete(G: Group, O: Oracle, ctx: Context, pk: int, partyCt: Ciphertext, mp: int, rp: int,
                            candSumCt: Ciphertext, sp: int, Rp: int, b: int, k: int, es: int, zs: int)
    requires Valid(G) && WellFormed(G, ctx, pk) && (b == 0 || b == 1)
    requires Encrypts(G, pk, partyCt, mp, rp) && Encrypts(G, pk, candSumCt, sp, Rp)
    ensures ProveConsistency(G, O, ctx, pk, partyCt, candSumCt, b, rp - Rp, k, es, zs).Ok?
    ensures var p := ProveConsistency(G, O, ctx, pk, partyCt, candSumCt, b, rp - Rp, k, es, zs).value;
      VerifyConsistency(G, O, ctx, pk, partyCt, candSumCt, p) == Accepted <==>
        Red(G.q, (if b == 0 then p.e0 else p.e1) * (mp - sp - b)) == 0
  {
    AddEncrypts(G, pk, partyCt, mp, rp, candSumCt, sp, Rp);
    BinaryComplete(G, O, CONSISTENCY_DOMAIN, ctx, pk, SubCt(G, partyCt, candSumCt), mp - sp, rp - Rp, b, k, es, zs);
  }
}
