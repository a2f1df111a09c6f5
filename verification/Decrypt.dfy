/** crypto/threshold/decrypt.go: partial decryption, its verification and combination. */
module Decrypt {
  import opened Common
  import opened Scalars
  import opened Groups
  import opened Lagrange
  import opened Bsgs
  import opened ElGamal
  import F = Feldman
  import S = Sigma

  datatype CombineError = ErrArgument | ErrMalformed | ErrBadIndex | ErrInvalidProof | ErrPartialCount | ErrDuplicateIndex
                 | ErrUnknownTrustee | ErrPlaintextOutOfRange

  datatype SlotContext = SlotContext(electionId: string, slotIndex: nat, tallyDigest: Bytes, setCommitment: Bytes, sealedHead: Bytes)

  datatype Partial = Partial(trusteeIndex: int, d: int, proof: S.CpProof)

  function PartialContext(sc: SlotContext, trusteeIndex: int, c2: int): seq<S.Field>
    requires F.CheckIndex(trusteeIndex)
  {
    [S.Text(sc.electionId), S.U32(trusteeIndex), S.U32(sc.slotIndex), S.Element(c2),
     S.Digest(sc.tallyDigest), S.Digest(sc.setCommitment), S.Digest(sc.sealedHead)]
  }

  function PartialDecrypt(G: Group, O: S.Oracle, sc: SlotContext, trusteeIndex: int, share: int, ct: Ciphertext, k: int)
    : Result<Partial, CombineError>
    requires G.q > 0
  {
    if sc.electionId == "" then Err(ErrMalformed)
    else if !F.CheckIndex(trusteeIndex) then Err(ErrBadIndex)
    else
      var (d, hi) := (Mul(G, share, ct.c1), BaseMul(G, share));
      Ok(Partial(trusteeIndex, d,
                 S.ProveChaumPedersen(G, O, PartialContext(sc, trusteeIndex, ct.c2), G.g, ct.c1, hi, d, share, k)))
  }

  /** None is success. */
  function VerifyPartial(G: Group, O: S.Oracle, sc: SlotContext, ct: Ciphertext, p: Option<Partial>,
                         key: int): Option<CombineError>
    requires G.q > 0
  {
    if sc.electionId == "" then Some(ErrMalformed)
    else if p.None? then Some(ErrMalformed)
    else if !F.CheckIndex(p.value.trusteeIndex) then Some(ErrBadIndex)
    else
      var context := PartialContext(sc, p.value.trusteeIndex, ct.c2);
      if S.VerifyChaumPedersen(G, O, context, G.g, ct.c1, key, p.value.d, p.value.proof).Accepted? then None
      else Some(ErrInvalidProof)
  }

  /** Honest partial decryptions always verify against the trustee's key. */
  lemma HonestPartialVerifies(G: Group, O: S.Oracle, sc: SlotContext, index: int, share: int, ct: Ciphertext, k: int,
                              key: int)
    requires Valid(G) && sc.electionId != "" && F.CheckIndex(index) && key == BaseMul(G, share)
    ensures PartialDecrypt(G, O, sc, index, share, ct, k).Ok?
    ensures VerifyPartial(G, O, sc, ct, Some(PartialDecrypt(G, O, sc, index, share, ct, k).value), key) == None
  {
    var (d, hi) := (Mul(G, share, ct.c1), BaseMul(G, share));
    RedAgain(G.q, share * ct.c1);
    RedAgain(G.q, share * G.g);
    S.ChaumPedersenComplete(G, O, PartialContext(sc, index, ct.c2), G.g, ct.c1, hi, d, share, k);
  }

  function PartialChallenge(G: Group, O: S.Oracle, sc: SlotContext, ct: Ciphertext, p: Partial, key: int): nat
    requires G.q > 0 && F.CheckIndex(p.trusteeIndex)
  {
    var context := PartialContext(sc, p.trusteeIndex, ct.c2);
    Red(G.q, O(S.CpTranscript(context, [G.g, ct.c1, key, p.d, p.proof.u, p.proof.v])))
  }

  /** The trustee sent the same value and commitment, and the two hash functions answer differently. */
  ghost predicate Rewound(G: Group, O: S.Oracle, O': S.Oracle, sc: SlotContext, ct: Ciphertext, p: Partial, p': Partial,
                          key: int)
    requires G.q > 0
  {
    && p'.trusteeIndex == p.trusteeIndex && p'.d == p.d && p'.proof.u == p.proof.u && p'.proof.v == p.proof.v
    && F.CheckIndex(p.trusteeIndex) && PartialChallenge(G, O, sc, ct, p, key) != PartialChallenge(G, O', sc, ct, p, key)
  }

  /** Soundness: a partial that is accepted twice under the key x * g, with one commitment and two
      challenges, has the value x * c1. */
  lemma PartialSound(G: Group, O: S.Oracle, O': S.Oracle, sc: SlotContext, ct: Ciphertext, p: Partial, p': Partial,
                     key: int, x: int)
    requires Valid(G) && Same(G, key, BaseMul(G, x)) && Rewound(G, O, O', sc, ct, p, p', key)
    requires VerifyPartial(G, O, sc, ct, Some(p), key) == VerifyPartial(G, O', sc, ct, Some(p'), key) == None
    ensures Same(G, p.d, x * ct.c1)
  {
    var (e, e') := (PartialChallenge(G, O, sc, ct, p, key), PartialChallenge(G, O', sc, ct, p, key));
    RedSmall(G.q, e);
    RedSmall(G.q, e');
    var w := S.ChaumPedersenSound(G, G.g, ct.c1, key, p.d, p.proof.u, p.proof.v, e, p.proof.z, e', p'.proof.z);
    RedAgain(G.q, x * G.g);
    BaseMulInjective(G, w, x);
    RedMul(G.q, w, ct.c1, x, ct.c1);
  }

  function Indices(ps: seq<Option<Partial>>): (s: seq<int>)
    requires forall k :: 0 <= k < |ps| ==> ps[k].Some?
    ensures |s| == |ps|
  {
    seq(|ps|, k requires 0 <= k < |ps| => ps[k].value.trusteeIndex)
  }

  function Shares(ps: seq<Option<Partial>>): (s: seq<int>)
    requires forall k :: 0 <= k < |ps| ==> ps[k].Some?
    ensures |s| == |ps|
  {
    seq(|ps|, k requires 0 <= k < |ps| => ps[k].value.d)
  }

  /** The first partial, in order, that does not verify. */
  function FirstRejected(G: Group, O: S.Oracle, sc: SlotContext, ct: Ciphertext, ps: seq<Option<Partial>>,
                         keys: map<int, int>): Option<CombineError>
    requires G.q > 0 && forall k :: 0 <= k < |ps| ==> ps[k].Some? && ps[k].value.trusteeIndex in keys
  {
    if ps == [] then None
    else
      var r := VerifyPartial(G, O, sc, ct, ps[0], keys[ps[0].value.trusteeIndex]);
      if r.Some? then r else FirstRejected(G, O, sc, ct, ps[1..], keys)
  }

  /** The partial is accepted under the key of the trustee that it names. */
  predicate Verifies(G: Group, O: S.Oracle, sc: SlotContext, ct: Ciphertext, p: Option<Partial>, keys: map<int, int>)
    requires G.q > 0
  {
    p.Some? && p.value.trusteeIndex in keys && VerifyPartial(G, O, sc, ct, p, keys[p.value.trusteeIndex]) == None
  }

  /** The first partial that is not accepted decides. */
  lemma {:induction false} RejectedExactly(G: Group, O: S.Oracle, sc: SlotContext, ct: Ciphertext, ps: seq<Option<Partial>>,
                                           keys: map<int, int>)
    returns (first: nat)
    requires G.q > 0 && forall k :: 0 <= k < |ps| ==> ps[k].Some? && ps[k].value.trusteeIndex in keys
    ensures first <= |ps| && forall k :: 0 <= k < first ==> Verifies(G, O, sc, ct, ps[k], keys)
    ensures FirstRejected(G, O, sc, ct, ps, keys)
         == if first == |ps| then None else VerifyPartial(G, O, sc, ct, ps[first], keys[ps[first].value.trusteeIndex])
    ensures first < |ps| ==> !Verifies(G, O, sc, ct, ps[first], keys)
    decreases |ps|
  {
    if ps == [] || !Verifies(G, O, sc, ct, ps[0], keys) {
      first := 0;
    } else {
      var f := RejectedExactly(G, O, sc, ct, ps[1..], keys);
      first := f + 1;
      forall k | 0 <= k < first
        ensures Verifies(G, O, sc, ct, ps[k], keys)
      {
        if k > 0 {
          assert ps[k] == ps[1..][k - 1];
        }
      }
    }
  }

  /** The plaintext residue that the partials combine to: the logarithm of c2 - sum lambda_i * D_i. */
  function Combined(G: Group, ct: Ciphertext, indices: seq<int>, ds: seq<int>): nat
    requires G.q > 0 && |indices| == |ds|
  {
    Log(G, Sub(G, ct.c2, Red(G.q, F.Weighted(G.q, indices, indices, ds))))
  }

  /** What Combine answers. */
  ghost function Combination(G: Group, O: S.Oracle, sc: SlotContext, ct: Ciphertext, ps: seq<Option<Partial>>,
                             keys: map<int, int>, threshold: int, maxPlaintext: int): Result<int, CombineError>
    requires G.q > 0
  {
    if threshold < 1 || maxPlaintext < 0 then Err(ErrArgument)
    else if |ps| != threshold then Err(ErrPartialCount)
    else if exists k :: 0 <= k < |ps| && ps[k].None? then Err(ErrMalformed)
    else
      var indices := Indices(ps);
      if !F.InRange(indices) then Err(ErrBadIndex)
      else if !NoRepeat(indices) then Err(ErrDuplicateIndex)
      else if exists k :: 0 <= k < |ps| && ps[k].value.trusteeIndex !in keys then Err(ErrUnknownTrustee)
      else
        var bad := FirstRejected(G, O, sc, ct, ps, keys);
        if bad.Some? then Err(bad.value)
        else if Combined(G, ct, indices, Shares(ps)) <= maxPlaintext then Ok(Combined(G, ct, indices, Shares(ps)))
        else Err(ErrPlaintextOutOfRange)
  }

  method Combine(G: Group, O: S.Oracle, sc: SlotContext, ct: Ciphertext, partials: seq<Option<Partial>>,
                 keys: map<int, int>, threshold: int, maxPlaintext: int) returns (r: Result<int, CombineError>)
    requires Valid(G) && maxPlaintext <= MAX_SEARCH
    ensures r == Combination(G, O, sc, ct, partials, keys, threshold, maxPlaintext)
    ensures r.Ok? ==> |partials| == threshold && forall k :: 0 <= k < |partials| ==> Verifies(G, O, sc, ct, partials[k], keys)
  {
    if threshold < 1 {
      return Err(ErrArgument);
    }
    if maxPlaintext < 0 {
      return Err(ErrArgument);
    }
    if |partials| != threshold {
      return Err(ErrPartialCount);
    }
    var indices: seq<int> := [];
    for i := 0 to |partials|
      invariant |indices| == i
      invariant forall k :: 0 <= k < i ==> partials[k].Some? && indices[k] == partials[k].value.trusteeIndex
    {
      if partials[i].None? {
        return Err(ErrMalformed);
      }
      indices := indices + [partials[i].value.trusteeIndex];
    }
    assert indices == Indices(partials);
    var err := F.CheckIndices(indices);
    if err.Some? {
      return Err(if err.value == F.ErrBadIndex then ErrBadIndex else ErrDuplicateIndex);
    }
    for i := 0 to |indices|
      invariant forall k :: 0 <= k < i ==> indices[k] in keys
    {
      if indices[i] !in keys {
        assert partials[i].value.trusteeIndex !in keys;
        return Err(ErrUnknownTrustee);
      }
    }
    for i := 0 to |partials|
      invariant FirstRejected(G, O, sc, ct, partials, keys) == FirstRejected(G, O, sc, ct, partials[i..], keys)
      invariant forall k :: 0 <= k < i ==> Verifies(G, O, sc, ct, partials[k], keys)
    {
      var v := VerifyPartial(G, O, sc, ct, partials[i], keys[partials[i].value.trusteeIndex]);
      assert partials[i..][1..] == partials[i + 1..];
      if v.Some? {
        return Err(v.value);
      }
    }
    var combined := CombineShares(G, partials, indices);
    var gm := Sub(G, ct.c2, combined);
    var m, step, _ := BabyStepGiantStep(G, gm, maxPlaintext);
    if Log(G, gm) > maxPlaintext {
      NegativeBeyond(Log(G, gm), maxPlaintext, step);
    }
    if m < 0 {
      return Err(ErrPlaintextOutOfRange);
    }
    return Ok(m);
  }

  /** The Lagrange combination of the D_i. */
  method CombineShares(G: Group, partials: seq<Option<Partial>>, indices: seq<int>) returns (combined: int)
    requires Valid(G) && (forall k :: 0 <= k < |partials| ==> partials[k].Some?) && indices == Indices(partials)
    requires F.InRange(indices) && NoRepeat(indices)
    ensures combined == Red(G.q, F.Weighted(G.q, indices, indices, Shares(partials)))
  {
    var lambdas: seq<int>, ds: seq<int> := [], [];
    for i := 0 to |partials|
      invariant |lambdas| == |ds| == i
      invariant forall k :: 0 <= k < i ==> lambdas[k] == Lambda(G.q, indices, indices[k])
      invariant forall k :: 0 <= k < i ==> ds[k] == partials[k].value.d
    {
      var lambda := F.LagrangeAt(G, indices, i);
      lambdas, ds := lambdas + [lambda], ds + [partials[i].value.d];
    }
    assert ds == Shares(partials);
    MsmIsWeighted(G, indices, indices, lambdas, ds);
    combined := Red(G.q, Msm(lambdas, ds));
  }

  lemma {:induction false} MsmIsWeighted(G: Group, xs: seq<int>, zs: seq<int>, ls: seq<int>, ds: seq<int>)
    requires G.q > 0 && |zs| == |ls| == |ds|
    requires forall k :: 0 <= k < |zs| ==> ls[k] == Lambda(G.q, xs, zs[k])
    ensures Msm(ls, ds) == F.Weighted(G.q, xs, zs, ds)
  {
    if zs != [] {
      MsmIsWeighted(G, xs, zs[1..], ls[1..], ds[1..]);
    }
  }

  /** A quorum: exactly t partials, at distinct known trustees, each the value D_i = f(i) * c1 and
      accepted. */
  ghost predicate Quorum(G: Group, O: S.Oracle, sc: SlotContext, ct: Ciphertext, ps: seq<Option<Partial>>,
                         keys: map<int, int>, threshold: int, f: seq<int>)
    requires G.q > 0
  {
    && |ps| == threshold >= 1
    && (forall k :: 0 <= k < |ps| ==> ps[k].Some? && ps[k].value.trusteeIndex in keys)
    && F.InRange(Indices(ps)) && NoRepeat(Indices(ps))
    && (forall k :: 0 <= k < |ps| ==> Accepted(G, O, sc, ct, ps[k].value, keys[ps[k].value.trusteeIndex], f))
  }

  ghost predicate Accepted(G: Group, O: S.Oracle, sc: SlotContext, ct: Ciphertext, p: Partial, key: int, f: seq<int>)
    requires G.q > 0
  {
    && VerifyPartial(G, O, sc, ct, Some(p), key) == None
    && Same(G, p.d, Eval(f, p.trusteeIndex) * ct.c1)
  }

  lemma NoneRejected(G: Group, O: S.Oracle, sc: SlotContext, ct: Ciphertext, ps: seq<Option<Partial>>, keys: map<int, int>)
    requires G.q > 0 && forall k :: 0 <= k < |ps| ==> Verifies(G, O, sc, ct, ps[k], keys)
    ensures forall k :: 0 <= k < |ps| ==> ps[k].Some? && ps[k].value.trusteeIndex in keys
    ensures FirstRejected(G, O, sc, ct, ps, keys) == None
  {
    var _ := RejectedExactly(G, O, sc, ct, ps, keys);
  }

  /** Threshold decryption: whichever t trustees take part and in whichever order, Combine returns
      the plaintext of a ciphertext under F(0) * g when it is at most maxPlaintext, and the
      out-of-range error otherwise. */
  lemma ThresholdDecryption(G: Group, O: S.Oracle, sc: SlotContext, ct: Ciphertext, ps: seq<Option<Partial>>,
                            keys: map<int, int>, threshold: int, maxPlaintext: int, f: seq<int>, m: int, r: int)
    requires Valid(G) && maxPlaintext >= 0 && |f| <= threshold && 0 <= m < G.q
    requires Encrypts(G, BaseMul(G, Eval(f, 0)), ct, m, r)
    requires Quorum(G, O, sc, ct, ps, keys, threshold, f)
    ensures Combination(G, O, sc, ct, ps, keys, threshold, maxPlaintext)
         == if m <= maxPlaintext then Ok(m) else Err(ErrPlaintextOutOfRange)
  {
    hide VerifyPartial, Encrypts, Combined, F.Weighted, Eval;
    QuorumAccepted(G, O, sc, ct, ps, keys, threshold, f);
    var (indices, ds) := (Indices(ps), Shares(ps));
    F.Reconstruction(G, indices, f, ct.c1, ds);
    CombinedLog(G, ct, indices, ds, Eval(f, 0), m, r);
    RedSmall(G.q, m);
  }

  lemma QuorumAccepted(G: Group, O: S.Oracle, sc: SlotContext, ct: Ciphertext, ps: seq<Option<Partial>>,
                       keys: map<int, int>, threshold: int, f: seq<int>)
    requires G.q > 0 && Quorum(G, O, sc, ct, ps, keys, threshold, f)
    ensures FirstRejected(G, O, sc, ct, ps, keys) == None
    ensures forall k :: 0 <= k < |ps| ==> Same(G, Shares(ps)[k], Eval(f, Indices(ps)[k]) * ct.c1)
  {
    hide VerifyPartial, Eval, F.InRange;
    forall k | 0 <= k < |ps|
      ensures VerifyPartial(G, O, sc, ct, ps[k], keys[ps[k].value.trusteeIndex]) == None
      ensures Same(G, Shares(ps)[k], Eval(f, Indices(ps)[k]) * ct.c1)
    {
      assert Accepted(G, O, sc, ct, ps[k].value, keys[ps[k].value.trusteeIndex], f);
    }
    NoneRejected(G, O, sc, ct, ps, keys);
  }

  lemma CombinedLog(G: Group, ct: Ciphertext, indices: seq<int>, ds: seq<int>, x: int, m: int, r: int)
    requires Valid(G) && Encrypts(G, BaseMul(G, x), ct, m, r) && |indices| == |ds|
    requires Same(G, F.Weighted(G.q, indices, indices, ds), x * ct.c1)
    ensures Combined(G, ct, indices, ds) == Red(G.q, m)
  {
    RemovedMask(G, ct, F.Weighted(G.q, indices, indices, ds), x, m, r);
  }

  lemma RemovedMask(G: Group, ct: Ciphertext, w: int, x: int, m: int, r: int)
    requires Valid(G) && Encrypts(G, BaseMul(G, x), ct, m, r) && Same(G, w, x * ct.c1)
    ensures Log(G, Sub(G, ct.c2, Red(G.q, w))) == Red(G.q, m)
  {
    var (q, g) := (G.q, G.g);
    RedMul(q, x, ct.c1, x, r * g);
    RedAgain(q, x * g);
    RedMul(q, r, BaseMul(G, x), r, x * g);
    RedAdd(q, r * BaseMul(G, x), m * g, r * (x * g), m * g);
    RedAgain(q, w);
    RedAdd(q, ct.c2, Red(q, w), r * (x * g) + m * g, x * (r * g));
    assert r * (x * g) == x * (r * g);
    RedAgain(q, ct.c2 - Red(q, w));
    LogUnique(G, Sub(G, ct.c2, Red(q, w)), m);
  }
}
