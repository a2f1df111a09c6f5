/** What acceptance by the verifiers of Sigma means, with every transcript written out; what a false
    statement costs; and that honest proofs give nothing away. */
module SigmaTheorems {
  import opened Common
  import opened Scalars
  import opened Groups
  import opened ElGamal
  import opened Sigma

  // ----- exactly when the verifiers accept

  lemma HoldsExactly(G: Group, z: int, base: int, u: int, e: int, Y: int)
    requires G.q > 0
    ensures Holds(G, z, base, u, Red(G.q, e), Y) <==> Same(G, z * base, u + e * Y)
  {
    var (q, r) := (G.q, Red(G.q, e));
    RedAgain(q, e);
    RedMul(q, r, Y, e, Y);
    RedAgain(q, r * Y);
    RedAdd(q, u, Red(q, r * Y), u, e * Y);
  }

  /** Chaum-Pedersen: both equations under the challenge of the whole transcript. */
  lemma ChaumPedersenExact(G: Group, O: Oracle, context: seq<Field>, g: int, h: int, A: int, B: int, p: CpProof)
    requires G.q > 0
    ensures var e := O(CpTranscript(context, [g, h, A, B, p.u, p.v]));
      VerifyChaumPedersen(G, O, context, g, h, A, B, p)
      == if Same(G, p.z * g, p.u + e * A) && Same(G, p.z * h, p.v + e * B) then Accepted else Rejected(ErrInvalidProof)
  {
    var e := O(CpTranscript(context, [g, h, A, B, p.u, p.v]));
    HoldsExactly(G, p.z, g, p.u, e, A);
    HoldsExactly(G, p.z, h, p.v, e, B);
  }

  /** The five equations of a binary proof. */
  ghost predicate BinaryEquations(G: Group, pk: int, ct: Ciphertext, p: BinaryProof, e: int)
    requires G.q > 0
  {
    && Same(G, p.e0 + p.e1, e)
    && Same(G, p.z0 * G.g, p.a0 + p.e0 * ct.c1) && Same(G, p.z0 * pk, p.b0 + p.e0 * ct.c2)
    && Same(G, p.z1 * G.g, p.a1 + p.e1 * ct.c1) && Same(G, p.z1 * pk, p.b1 + p.e1 * (ct.c2 - G.g))
  }

  ghost predicate Malformed(G: Group, ctx: Context, pk: int)
    requires G.q > 0
  {
    ctx.electionId == "" || ctx.ballotId == "" || Same(G, pk, 0)
  }

  lemma ScaledExactly(G: Group, z: int, base: int, u: int, e: int, Y: int)
    requires G.q > 0
    ensures Holds(G, z, base, u, e, Y) <==> Same(G, z * base, u + e * Y)
  {
    RedAgain(G.q, e * Y);
    RedAdd(G.q, u, Red(G.q, e * Y), u, e * Y);
  }

  lemma ShiftedExactly(G: Group, z: int, base: int, u: int, e: int, Y: int)
    requires G.q > 0
    ensures Holds(G, z, base, u, e, Sub(G, Y, G.g)) <==> Same(G, z * base, u + e * (Y - G.g))
  {
    ScaledExactly(G, z, base, u, e, Sub(G, Y, G.g));
    RedAgain(G.q, Y - G.g);
    RedMul(G.q, e, Sub(G, Y, G.g), e, Y - G.g);
    RedAdd(G.q, u, e * Sub(G, Y, G.g), u, e * (Y - G.g));
  }

  lemma BinaryHoldsExactly(G: Group, pk: int, ct: Ciphertext, p: BinaryProof, e: int)
    requires G.q > 0
    ensures BinaryHolds(G, pk, ct, p, Red(G.q, e)) <==> BinaryEquations(G, pk, ct, p, e)
  {
    RedAgain(G.q, e);
    ScaledExactly(G, p.z0, G.g, p.a0, p.e0, ct.c1);
    ScaledExactly(G, p.z0, pk, p.b0, p.e0, ct.c2);
    ScaledExactly(G, p.z1, G.g, p.a1, p.e1, ct.c1);
    ShiftedExactly(G, p.z1, pk, p.b1, p.e1, ct.c2);
    hide Holds;
  }

  /** A binary proof is accepted exactly when its context is complete, the key is not the identity
      and the five equations hold under the hash of domain, context, key, ciphertext and all four
      commitments. */
  lemma BinaryExact(G: Group, O: Oracle, domain: string, ctx: Context, pk: int, ct: Ciphertext, p: BinaryProof)
    requires G.q > 0
    ensures var e := O(BallotTranscript(domain, ctx, [pk, ct.c1, ct.c2, p.a0, p.b0, p.a1, p.b1]));
      VerifyBinary(G, O, domain, ctx, pk, ct, p)
      == if Malformed(G, ctx, pk) then Rejected(ErrMalformed)
         else if BinaryEquations(G, pk, ct, p, e) then Accepted
         else Rejected(ErrInvalidProof)
  {
    RedSmall(G.q, 0);
    BinaryHoldsExactly(G, pk, ct, p, O(BallotTranscript(domain, ctx, [pk, ct.c1, ct.c2, p.a0, p.b0, p.a1, p.b1])));
    hide BinaryHolds, BinaryEquations;
  }

  /** The candidate-sum and the consistency proof are binary proofs of the aggregate and of the
      difference, each under its own domain. */
  lemma AggregatesExact(G: Group, O: Oracle, ctx: Context, pk: int, partyCt: Ciphertext, agg: Ciphertext, p: BinaryProof)
    requires G.q > 0
    ensures VerifyCandidateSum(G, O, ctx, pk, agg, p)
         == VerifyBinary(G, O, "otvoren-vot.candidate-sum-01-proof", ctx, pk, agg, p)
    ensures VerifyConsistency(G, O, ctx, pk, partyCt, agg, p)
         == VerifyBinary(G, O, "otvoren-vot.candidate-consistency-proof", ctx, pk, SubCt(G, partyCt, agg), p)
  {
  }

  ghost predicate SumOneEquations(G: Group, pk: int, agg: Ciphertext, p: SumProof, e: int)
    requires G.q > 0
  {
    Same(G, p.z * G.g, p.a + e * agg.c1) && Same(G, p.z * pk, p.b + e * (agg.c2 - G.g))
  }

  lemma SumHoldsExactly(G: Group, pk: int, agg: Ciphertext, p: SumProof, e: int)
    requires G.q > 0
    ensures SumHolds(G, pk, agg, p, Red(G.q, e)) <==> SumOneEquations(G, pk, agg, p, e)
  {
    HoldsExactly(G, p.z, G.g, p.a, e, agg.c1);
    HoldsExactly(G, p.z, pk, p.b, e, Sub(G, agg.c2, G.g));
    RedAgain(G.q, agg.c2 - G.g);
    RedMul(G.q, e, Sub(G, agg.c2, G.g), e, agg.c2 - G.g);
    RedAdd(G.q, p.b, e * Sub(G, agg.c2, G.g), p.b, e * (agg.c2 - G.g));
  }

  /** The same for the sum-one proof over the homomorphic sum of a non-empty vector. */
  lemma SumOneExact(G: Group, O: Oracle, ctx: Context, pk: int, cts: seq<Ciphertext>, p: SumProof)
    requires G.q > 0
    ensures var agg := SumOf(G, cts);
      var e := O(BallotTranscript("otvoren-vot.ballot-sum-proof", ctx, [pk, agg.c1, agg.c2, p.a, p.b]));
      VerifySumOne(G, O, ctx, pk, cts, p)
      == if Malformed(G, ctx, pk) || cts == [] then Rejected(ErrMalformed)
         else if SumOneEquations(G, pk, agg, p, e) then Accepted
         else Rejected(ErrInvalidProof)
  {
    RedSmall(G.q, 0);
    var agg := SumOf(G, cts);
    SumHoldsExactly(G, pk, agg, p, O(BallotTranscript(SUM_DOMAIN, ctx, [pk, agg.c1, agg.c2, p.a, p.b])));
    hide SumOf, SumHolds, SumOneEquations;
  }

  /** The provers refuse exactly what the verifiers call malformed, and a claimed plaintext that is no
      bit. */
  lemma ProversRefuse(G: Group, O: Oracle, domain: string, ctx: Context, pk: int, ct: Ciphertext, cts: seq<Ciphertext>,
                      m: int, r: int, k: int, es: int, zs: int)
    requires G.q > 0
    ensures ProveBinary(G, O, domain, ctx, pk, ct, m, r, k, es, zs).Err? <==> Malformed(G, ctx, pk) || (m != 0 && m != 1)
    ensures ProveSumOne(G, O, ctx, pk, cts, r, k).Err? <==> Malformed(G, ctx, pk) || cts == []
    ensures var (a, b) := (ProveBinary(G, O, domain, ctx, pk, ct, m, r, k, es, zs), ProveSumOne(G, O, ctx, pk, cts, r, k));
      (a.Err? ==> a.error == ErrMalformed) && (b.Err? ==> b.error == ErrMalformed)
  {
    RedSmall(G.q, 0);
  }

  // ----- a hash function tells different statements apart

  /** A hash function that answers 0 on one transcript and 1 on all others. */
  function Separator(t: Transcript): Oracle {
    (u: Transcript) => if u == t then 0 else 1
  }

  lemma SeparatorSeparates(q: nat, t: Transcript, t': Transcript)
    requires q > 1
    ensures Red(q, Separator(t)(t)) == Red(q, Separator(t)(t')) <==> t == t'
  {
    RedSmall(q, 0);
    RedSmall(q, 1);
  }

  /** Challenges bind: two binary proofs that differ in the domain, the context, the key, a half of
      the ciphertext or a commitment get different challenges under a computed hash function. */
  lemma BinaryChallengeBinds(G: Group, domain: string, ctx: Context, pk: int, ct: Ciphertext, p: BinaryProof,
                             domain': string, ctx': Context, pk': int, ct': Ciphertext, p': BinaryProof)
    returns (O: Oracle)
    requires G.q > 1
    ensures BinaryChallenge(G, O, domain, ctx, pk, ct, p.a0, p.b0, p.a1, p.b1)
         == BinaryChallenge(G, O, domain', ctx', pk', ct', p'.a0, p'.b0, p'.a1, p'.b1)
      <==> && domain == domain' && ctx == ctx' && pk == pk' && ct == ct'
           && p.a0 == p'.a0 && p.b0 == p'.b0 && p.a1 == p'.a1 && p.b1 == p'.b1
  {
    var (s, s') := ([pk, ct.c1, ct.c2, p.a0, p.b0, p.a1, p.b1], [pk', ct'.c1, ct'.c2, p'.a0, p'.b0, p'.a1, p'.b1]);
    var (t, t') := (BallotTranscript(domain, ctx, s), BallotTranscript(domain', ctx', s'));
    O := Separator(t);
    SeparatorSeparates(G.q, t, t');
    if s == s' {
      assert forall i :: 0 <= i < 7 ==> s[i] == s'[i];
      assert s[0] == s'[0] && s[1] == s'[1] && s[2] == s'[2] && s[3] == s'[3];
      assert s[4] == s'[4] && s[5] == s'[5] && s[6] == s'[6];
    }
  }

  lemma SumChallengeBinds(G: Group, ctx: Context, pk: int, agg: Ciphertext, p: SumProof,
                          ctx': Context, pk': int, agg': Ciphertext, p': SumProof)
    returns (O: Oracle)
    requires G.q > 1
    ensures SumChallenge(G, O, ctx, pk, agg, p.a, p.b) == SumChallenge(G, O, ctx', pk', agg', p'.a, p'.b)
      <==> ctx == ctx' && pk == pk' && agg == agg' && p.a == p'.a && p.b == p'.b
  {
    var (s, s') := ([pk, agg.c1, agg.c2, p.a, p.b], [pk', agg'.c1, agg'.c2, p'.a, p'.b]);
    var (t, t') := (BallotTranscript(SUM_DOMAIN, ctx, s), BallotTranscript(SUM_DOMAIN, ctx', s'));
    O := Separator(t);
    SeparatorSeparates(G.q, t, t');
    if s == s' {
      assert s[0] == s'[0] && s[1] == s'[1] && s[2] == s'[2] && s[3] == s'[3] && s[4] == s'[4];
    }
  }

  // ----- false statements

  /** A plaintext other than 0 and 1: for each choice of the commitments at most one answer of the
      hash function lets any proof through. */
  lemma FalseBinary(G: Group, O: Oracle, O': Oracle, domain: string, ctx: Context, pk: int, ct: Ciphertext, m: int, r: int,
                    p: BinaryProof, p': BinaryProof)
    requires Valid(G) && Encrypts(G, pk, ct, m, r) && !Same(G, m, 0) && !Same(G, m, 1)
    requires p.a0 == p'.a0 && p.a1 == p'.a1 && p.b0 == p'.b0 && p.b1 == p'.b1
    requires VerifyBinary(G, O, domain, ctx, pk, ct, p) == VerifyBinary(G, O', domain, ctx, pk, ct, p') == Accepted
    ensures var t := BallotTranscript(domain, ctx, [pk, ct.c1, ct.c2, p.a0, p.b0, p.a1, p.b1]);
      Same(G, O(t), O'(t))
  {
    var t := BallotTranscript(domain, ctx, [pk, ct.c1, ct.c2, p.a0, p.b0, p.a1, p.b1]);
    AcceptedFork(G, O, O', domain, ctx, pk, ct, p, p');
    hide Forked, VerifyBinary;
    if !Same(G, O(t), O'(t)) {
      var n, s := BinarySound(G, pk, ct, p, Red(G.q, O(t)), p', Red(G.q, O'(t)));
      PlaintextUnique(G, pk, ct, m, r, n, s);
    }
  }

  /** The same for a vector whose plaintexts do not sum to 1. */
  lemma FalseSumOne(G: Group, O: Oracle, O': Oracle, ctx: Context, pk: int, cts: seq<Ciphertext>, m: int, r: int,
                    p: SumProof, p': SumProof)
    requires Valid(G) && Encrypts(G, pk, SumOf(G, cts), m, r) && !Same(G, m, 1) && p.a == p'.a && p.b == p'.b
    requires VerifySumOne(G, O, ctx, pk, cts, p) == VerifySumOne(G, O', ctx, pk, cts, p') == Accepted
    ensures var (agg, domain) := (SumOf(G, cts), "otvoren-vot.ballot-sum-proof");
      var t := BallotTranscript(domain, ctx, [pk, agg.c1, agg.c2, p.a, p.b]);
      Same(G, O(t), O'(t))
  {
    var agg := SumOf(G, cts);
    var t := BallotTranscript(SUM_DOMAIN, ctx, [pk, agg.c1, agg.c2, p.a, p.b]);
    SumAcceptedFork(G, O, O', ctx, pk, cts, p, p');
    hide SumHolds, VerifySumOne, SumOf;
    if !Same(G, O(t), O'(t)) {
      var s := SumOneSound(G, pk, agg, p, Red(G.q, O(t)), p', Red(G.q, O'(t)));
      PlaintextUnique(G, pk, agg, m, r, 1, s);
    }
  }

  /** And for two elements without a common logarithm. */
  lemma FalseChaumPedersen(G: Group, O: Oracle, O': Oracle, context: seq<Field>, g: int, h: int, A: int, B: int,
                           p: CpProof, p': CpProof)
    requires Valid(G) && (forall x :: !(Same(G, A, x * g) && Same(G, B, x * h))) && p.u == p'.u && p.v == p'.v
    requires VerifyChaumPedersen(G, O, context, g, h, A, B, p) == Accepted
    requires VerifyChaumPedersen(G, O', context, g, h, A, B, p') == Accepted
    ensures var t := CpTranscript(context, [g, h, A, B, p.u, p.v]);
      Same(G, O(t), O'(t))
  {
    var t := CpTranscript(context, [g, h, A, B, p.u, p.v]);
    RedAgain(G.q, O(t));
    RedAgain(G.q, O'(t));
    if !Same(G, O(t), O'(t)) {
      var x := ChaumPedersenSound(G, g, h, A, B, p.u, p.v, Red(G.q, O(t)), p.z, Red(G.q, O'(t)), p'.z);
    }
  }

  // ----- honest proofs give nothing away

  /** A commitment to the nonce z - e*x is z*base - e*Y, which needs no witness. */
  lemma NonceCommits(G: Group, z: int, e: int, x: int, base: int, Y: int)
    requires G.q > 0 && Same(G, Y, x * base)
    ensures Mul(G, z - e * x, base) == Sub(G, Mul(G, z, base), Mul(G, e, Y))
  {
    var q := G.q;
    RedMul(q, e, Y, e, x * base);
    RedAgain(q, z * base);
    RedAgain(q, e * Y);
    RedAdd(q, Mul(G, z, base), Mul(G, e, Y), z * base, e * (x * base));
    assert (z - e * x) * base == z * base - e * (x * base) by {
      assert (z - e * x) * base == z * base - e * x * base;
      assert e * x * base == e * (x * base);
    }
  }

  function Constant(e: int): Oracle {
    (t: Transcript) => e
  }

  /** A Chaum-Pedersen proof made from the challenge and the response alone. */
  function SimulatedCp(G: Group, g: int, h: int, A: int, B: int, e: int, z: int): CpProof
    requires G.q > 0
  {
    CpProof(Sub(G, Mul(G, z, g), Mul(G, e, A)), Sub(G, Mul(G, z, h), Mul(G, e, B)), z)
  }

  /** Honest-verifier zero knowledge: for a fixed challenge the proofs of the prover are, one for each
      nonce, exactly those that can be made without the witness, one for each response. */
  lemma ChaumPedersenHides(G: Group, context: seq<Field>, g: int, h: int, A: int, B: int, x: int, e: int, z: int)
    requires G.q > 0 && Same(G, A, x * g) && Same(G, B, x * h) && 0 <= e < G.q && 0 <= z < G.q
    ensures ProveChaumPedersen(G, Constant(e), context, g, h, A, B, x, z - e * x) == SimulatedCp(G, g, h, A, B, e, z)
  {
    RedSmall(G.q, e);
    RedSmall(G.q, z);
    NonceCommits(G, z, e, x, g, A);
    NonceCommits(G, z, e, x, h, B);
  }

  function SimulatedSum(G: Group, pk: int, agg: Ciphertext, e: int, z: int): SumProof
    requires G.q > 0
  {
    SumProof(Sub(G, Mul(G, z, G.g), Mul(G, e, agg.c1)), Sub(G, Mul(G, z, pk), Mul(G, e, Sub(G, agg.c2, G.g))), z)
  }

  lemma SumOneHides(G: Group, ctx: Context, pk: int, cts: seq<Ciphertext>, r: int, e: int, z: int)
    requires G.q > 0 && WellFormed(G, ctx, pk) && cts != [] && Encrypts(G, pk, SumOf(G, cts), 1, r)
    requires 0 <= e < G.q && 0 <= z < G.q
    ensures ProveSumOne(G, Constant(e), ctx, pk, cts, r, z - e * r) == Ok(SimulatedSum(G, pk, SumOf(G, cts), e, z))
  {
    var agg := SumOf(G, cts);
    RedSmall(G.q, e);
    RedSmall(G.q, z);
    NonceCommits(G, z, e, r, G.g, agg.c1);
    OneBranch(G, pk, agg, r);
    NonceCommits(G, z, e, r, pk, Sub(G, agg.c2, G.g));
    hide SumOf;
  }

  /** With plaintext 1, c2 - g is r*pk. */
  lemma OneBranch(G: Group, pk: int, ct: Ciphertext, r: int)
    requires G.q > 0 && Encrypts(G, pk, ct, 1, r)
    ensures Same(G, Sub(G, ct.c2, G.g), r * pk)
  {
    RedAgain(G.q, ct.c2 - G.g);
    RedAdd(G.q, ct.c2, G.g, r * pk + 1 * G.g, G.g);
    assert r * pk + 1 * G.g - G.g == r * pk;
  }

  /** A binary proof made from the two challenges and the two responses alone. */
  function SimulatedBinary(G: Group, pk: int, ct: Ciphertext, e0: int, e1: int, z0: int, z1: int): BinaryProof
    requires G.q > 0
  {
    BinaryProof(Sub(G, BaseMul(G, z0), Mul(G, e0, ct.c1)), Sub(G, BaseMul(G, z1), Mul(G, e1, ct.c1)),
                Sub(G, Mul(G, z0, pk), Mul(G, e0, ct.c2)), Sub(G, Mul(G, z1, pk), Mul(G, e1, Sub(G, ct.c2, G.g))),
                e0, e1, z0, z1)
  }

  /** The same for binary proofs, and the plaintext is hidden too: for every split of the challenge
      and every pair of responses some coins of the prover make this one proof, whether the bit is 0
      or 1. */
  lemma BinaryHides(G: Group, domain: string, ctx: Context, pk: int, ct: Ciphertext, b: int, r: int,
                    e0: int, e1: int, z0: int, z1: int)
    requires G.q > 0 && WellFormed(G, ctx, pk) && (b == 0 || b == 1) && Encrypts(G, pk, ct, b, r)
    requires 0 <= e0 < G.q && 0 <= e1 < G.q && 0 <= z0 < G.q && 0 <= z1 < G.q
    ensures var (k, es, zs) := if b == 0 then (z0 - e0 * r, e1, z1) else (z1 - e1 * r, e0, z0);
      ProveBinary(G, Constant(e0 + e1), domain, ctx, pk, ct, b, r, k, es, zs) == Ok(SimulatedBinary(G, pk, ct, e0, e1, z0, z1))
  {
    if b == 0 {
      HidesBitZero(G, domain, ctx, pk, ct, r, e0, e1, z0, z1);
    } else {
      HidesBitOne(G, domain, ctx, pk, ct, r, e0, e1, z0, z1);
    }
  }

  lemma HidesBitZero(G: Group, domain: string, ctx: Context, pk: int, ct: Ciphertext, r: int,
                     e0: int, e1: int, z0: int, z1: int)
    requires G.q > 0 && WellFormed(G, ctx, pk) && Encrypts(G, pk, ct, 0, r)
    requires 0 <= e0 < G.q && 0 <= e1 < G.q && 0 <= z0 < G.q && 0 <= z1 < G.q
    ensures ProveBinary(G, Constant(e0 + e1), domain, ctx, pk, ct, 0, r, z0 - e0 * r, e1, z1)
         == Ok(SimulatedBinary(G, pk, ct, e0, e1, z0, z1))
  {
    SplitBack(G.q, e0, e1);
    RedSmall(G.q, e1);
    RedSmall(G.q, z0);
    RedSmall(G.q, z1);
    assert 0 * G.g == 0;
    NonceCommits(G, z0, e0, r, G.g, ct.c1);
    NonceCommits(G, z0, e0, r, pk, ct.c2);
    hide Mul, BaseMul, Encrypts;
  }

  lemma HidesBitOne(G: Group, domain: string, ctx: Context, pk: int, ct: Ciphertext, r: int,
                    e0: int, e1: int, z0: int, z1: int)
    requires G.q > 0 && WellFormed(G, ctx, pk) && Encrypts(G, pk, ct, 1, r)
    requires 0 <= e0 < G.q && 0 <= e1 < G.q && 0 <= z0 < G.q && 0 <= z1 < G.q
    ensures ProveBinary(G, Constant(e0 + e1), domain, ctx, pk, ct, 1, r, z1 - e1 * r, e0, z0)
         == Ok(SimulatedBinary(G, pk, ct, e0, e1, z0, z1))
  {
    SplitBack(G.q, e0, e1);
    RedSmall(G.q, e0);
    RedSmall(G.q, z0);
    RedSmall(G.q, z1);
    OneBranch(G, pk, ct, r);
    NonceCommits(G, z1, e1, r, G.g, ct.c1);
    NonceCommits(G, z1, e1, r, pk, Sub(G, ct.c2, G.g));
    hide Mul, BaseMul, Encrypts;
  }

  lemma SplitBack(q: nat, a: int, b: int)
    requires 0 <= a < q && 0 <= b < q
    ensures Red(q, Red(q, a + b) - b) == a && Red(q, Red(q, a + b) - a) == b
  {
    RedAgain(q, a + b);
    RedAdd(q, Red(q, a + b), b, a + b, b);
    RedAdd(q, Red(q, a + b), a, a + b, a);
    RedSmall(q, a);
    RedSmall(q, b);
  }
}
