/** What the operations of threshold decryption accept and refuse, with their conditions written out:
    no plaintext is published over a partial that does not verify. */
module DecryptTheorems {
  import opened Common
  import opened Scalars
  import opened Groups
  import opened ElGamal
  import opened Decrypt
  import opened Tally
  import F = Feldman
  import S = Sigma
  import ST = SigmaTheorems

  // ----- one partial

  /** The transcript that binds a partial: election, trustee, slot, ciphertext, the digests, the key,
      the value and the commitment. */
  function PartialTranscript(G: Group, sc: SlotContext, ct: Ciphertext, p: Partial, key: int): S.Transcript
    requires 1 <= p.trusteeIndex
  {
    S.CpTranscript([S.Text(sc.electionId), S.U32(p.trusteeIndex), S.U32(sc.slotIndex), S.Element(ct.c2),
                    S.Digest(sc.tallyDigest), S.Digest(sc.setCommitment), S.Digest(sc.sealedHead)],
                   [G.g, ct.c1, key, p.d, p.proof.u, p.proof.v])
  }

  ghost predicate PartialEquations(G: Group, ct: Ciphertext, p: Partial, key: int, e: int)
    requires G.q > 0
  {
    Same(G, p.proof.z * G.g, p.proof.u + e * key) && Same(G, p.proof.z * ct.c1, p.proof.v + e * p.d)
  }

  lemma PartialExact(G: Group, O: S.Oracle, sc: SlotContext, ct: Ciphertext, p: Option<Partial>, key: int)
    requires G.q > 0
    ensures VerifyPartial(G, O, sc, ct, p, key)
         == if sc.electionId == "" || p.None? then Some(ErrMalformed)
            else if !(1 <= p.value.trusteeIndex <= 0xFFFF_FFFF) then Some(ErrBadIndex)
            else if PartialEquations(G, ct, p.value, key, O(PartialTranscript(G, sc, ct, p.value, key))) then None
            else Some(ErrInvalidProof)
  {
    if p.Some? && F.CheckIndex(p.value.trusteeIndex) {
      var context := PartialContext(sc, p.value.trusteeIndex, ct.c2);
      ST.ChaumPedersenExact(G, O, context, G.g, ct.c1, key, p.value.d, p.value.proof);
    }
  }

  /** A false value gets through for at most one answer of the hash function to its transcript. */
  lemma FalsePartial(G: Group, O: S.Oracle, O': S.Oracle, sc: SlotContext, ct: Ciphertext, p: Partial, p': Partial,
                     key: int, x: int)
    requires Valid(G) && Same(G, key, x * G.g) && !Same(G, p.d, x * ct.c1)
    requires p' == p.(proof := S.CpProof(p.proof.u, p.proof.v, p'.proof.z))
    requires VerifyPartial(G, O, sc, ct, Some(p), key) == VerifyPartial(G, O', sc, ct, Some(p'), key) == None
    ensures p.trusteeIndex >= 1
    ensures var t := PartialTranscript(G, sc, ct, p, key);
      Same(G, O(t), O'(t))
  {
    PartialExact(G, O, sc, ct, Some(p), key);
    RedAgain(G.q, x * G.g);
    if PartialChallenge(G, O, sc, ct, p, key) != PartialChallenge(G, O', sc, ct, p, key) {
      PartialSound(G, O, O', sc, ct, p, p', key, x);
    }
  }

  /** A trustee's own computation: the value is its share of c1, and when it refuses. */
  lemma PartialDecryptExact(G: Group, O: S.Oracle, sc: SlotContext, i: int, share: int, ct: Ciphertext, k: int)
    requires G.q > 0
    ensures var r := PartialDecrypt(G, O, sc, i, share, ct, k);
      && (r == Err(ErrMalformed) <==> sc.electionId == "")
      && (r == Err(ErrBadIndex) <==> sc.electionId != "" && !(1 <= i <= 0xFFFF_FFFF))
      && (r.Ok? <==> sc.electionId != "" && 1 <= i <= 0xFFFF_FFFF)
      && (r.Ok? ==> r.value.trusteeIndex == i && Same(G, r.value.d, share * ct.c1))
  {
    RedAgain(G.q, share * ct.c1);
  }

  // ----- Combine

  /** Everything about the partials but their proofs. */
  ghost predicate Complete(ps: seq<Option<Partial>>, keys: map<int, int>, threshold: int) {
    && |ps| == threshold >= 1 && (forall k :: 0 <= k < |ps| ==> ps[k].Some?)
    && (forall k :: 0 <= k < |ps| ==> 1 <= ps[k].value.trusteeIndex <= 0xFFFF_FFFF && ps[k].value.trusteeIndex in keys)
    && NoRepeat(Indices(ps))
  }

  /** Combine gives a plaintext exactly when the partials are complete, every one of them verifies
      against the key of its own trustee, and the combination is in range; the plaintext is then the
      logarithm of c2 less the weighted values. When the partials are complete, the first one that
      does not verify decides the error. */
  lemma CombinationExact(G: Group, O: S.Oracle, sc: SlotContext, ct: Ciphertext, ps: seq<Option<Partial>>,
                         keys: map<int, int>, threshold: int, maxPlaintext: int)
    returns (first: nat)
    requires Valid(G)
    ensures var r := Combination(G, O, sc, ct, ps, keys, threshold, maxPlaintext);
      && (r.Ok? ==> Complete(ps, keys, threshold) && 0 <= r.value <= maxPlaintext)
      && (r.Ok? ==> forall k :: 0 <= k < |ps| ==> Verifies(G, O, sc, ct, ps[k], keys))
      && (r.Ok? ==> Same(G, r.value * G.g, ct.c2 - F.Weighted(G.q, Indices(ps), Indices(ps), Shares(ps))))
    ensures Complete(ps, keys, threshold) && maxPlaintext >= 0 ==>
      var r := Combination(G, O, sc, ct, ps, keys, threshold, maxPlaintext);
      && first <= |ps| && (forall k :: 0 <= k < first ==> Verifies(G, O, sc, ct, ps[k], keys))
      && (first < |ps| ==> !Verifies(G, O, sc, ct, ps[first], keys)
                           && r == Err(VerifyPartial(G, O, sc, ct, ps[first], keys[ps[first].value.trusteeIndex]).value))
      && (first == |ps| ==> r.Ok? || r == Err(ErrPlaintextOutOfRange))
  {
    hide VerifyPartial, F.Weighted, Combination, Combined, Complete, FirstRejected;
    first := 0;
    var r := Combination(G, O, sc, ct, ps, keys, threshold, maxPlaintext);
    if Complete(ps, keys, threshold) && maxPlaintext >= 0 {
      CompleteParts(ps, keys, threshold);
      first := RejectedExactly(G, O, sc, ct, ps, keys);
      CompleteCombination(G, O, sc, ct, ps, keys, threshold, maxPlaintext);
      CombinedIsLog(G, ct, Indices(ps), Shares(ps));
    } else {
      IncompleteRefused(G, O, sc, ct, ps, keys, threshold, maxPlaintext);
    }
  }

  lemma CompleteParts(ps: seq<Option<Partial>>, keys: map<int, int>, threshold: int)
    requires Complete(ps, keys, threshold)
    ensures |ps| == threshold && forall k :: 0 <= k < |ps| ==> ps[k].Some? && ps[k].value.trusteeIndex in keys
  {
  }

  lemma CompleteCombination(G: Group, O: S.Oracle, sc: SlotContext, ct: Ciphertext, ps: seq<Option<Partial>>,
                            keys: map<int, int>, threshold: int, maxPlaintext: int)
    requires G.q > 0 && Complete(ps, keys, threshold) && maxPlaintext >= 0
    ensures (forall k :: 0 <= k < |ps| ==> ps[k].Some? && ps[k].value.trusteeIndex in keys)
    ensures var (bad, m) := (FirstRejected(G, O, sc, ct, ps, keys), Combined(G, ct, Indices(ps), Shares(ps)));
      Combination(G, O, sc, ct, ps, keys, threshold, maxPlaintext)
      == if bad.Some? then Err(bad.value) else if m <= maxPlaintext then Ok(m) else Err(ErrPlaintextOutOfRange)
  {
    hide FirstRejected, Combined;
  }

  lemma IncompleteRefused(G: Group, O: S.Oracle, sc: SlotContext, ct: Ciphertext, ps: seq<Option<Partial>>,
                          keys: map<int, int>, threshold: int, maxPlaintext: int)
    requires G.q > 0 && !(Complete(ps, keys, threshold) && maxPlaintext >= 0)
    ensures Combination(G, O, sc, ct, ps, keys, threshold, maxPlaintext).Err?
  {
    hide FirstRejected, Combined;
    if |ps| == threshold && forall k :: 0 <= k < |ps| ==> ps[k].Some? {
      forall k | 0 <= k < |ps|
        ensures F.InRange(Indices(ps)) ==> F.CheckIndex(ps[k].value.trusteeIndex)
      {
        assert Indices(ps)[k] in Indices(ps);
      }
    }
  }

  lemma CombinedIsLog(G: Group, ct: Ciphertext, indices: seq<int>, ds: seq<int>)
    requires Valid(G) && |indices| == |ds|
    ensures Same(G, Combined(G, ct, indices, ds) * G.g, ct.c2 - F.Weighted(G.q, indices, indices, ds))
  {
    var w := F.Weighted(G.q, indices, indices, ds);
    var gm := Sub(G, ct.c2, Red(G.q, w));
    LogCorrect(G, gm);
    RedAgain(G.q, Log(G, gm) * G.g);
    RedAgain(G.q, w);
    RedAdd(G.q, ct.c2, Red(G.q, w), ct.c2, w);
    RedAgain(G.q, ct.c2 - Red(G.q, w));
  }

  /** The errors that come before any proof is looked at, each with the checks that precede it. */
  lemma CombinationErrors(G: Group, O: S.Oracle, sc: SlotContext, ct: Ciphertext, ps: seq<Option<Partial>>,
                          keys: map<int, int>, threshold: int, maxPlaintext: int)
    requires G.q > 0
    ensures var r := Combination(G, O, sc, ct, ps, keys, threshold, maxPlaintext);
      && (r == Err(ErrArgument) <==> threshold < 1 || maxPlaintext < 0)
      && (r == Err(ErrPartialCount) <==> threshold >= 1 && maxPlaintext >= 0 && |ps| != threshold)
      && (threshold >= 1 && maxPlaintext >= 0 && |ps| == threshold ==>
            if exists k :: 0 <= k < |ps| && ps[k].None? then r == Err(ErrMalformed)
            else if exists k :: 0 <= k < |ps| && !(1 <= ps[k].value.trusteeIndex <= 0xFFFF_FFFF) then r == Err(ErrBadIndex)
            else if !NoRepeat(Indices(ps)) then r == Err(ErrDuplicateIndex)
            else (exists k :: 0 <= k < |ps| && ps[k].value.trusteeIndex !in keys) ==> r == Err(ErrUnknownTrustee))
  {
    hide Combined;
    if forall k :: 0 <= k < |ps| ==> ps[k].Some? {
      if k :| 0 <= k < |ps| && !F.CheckIndex(ps[k].value.trusteeIndex) {
        assert Indices(ps)[k] in Indices(ps);
      }
      if forall k :: 0 <= k < |ps| ==> ps[k].value.trusteeIndex in keys {
        var first := RejectedExactly(G, O, sc, ct, ps, keys);
        if first < |ps| {
          PartialExact(G, O, sc, ct, ps[first], keys[ps[first].value.trusteeIndex]);
        }
      }
    }
  }

  // ----- DecryptTally

  /** Trustee t's vector has its own partial for the slot. */
  predicate Stored(partials: map<int, seq<Option<Partial>>>, t: int, slot: nat) {
    t in partials && slot < |partials[t]| && partials[t][slot].Some?
  }

  predicate StoredOwn(partials: map<int, seq<Option<Partial>>>, t: int, slot: nat) {
    Stored(partials, t, slot) && partials[t][slot].value.trusteeIndex == t
  }

  /** The partials of a slot are each trustee's own, in the trustees' order; the first trustee without
      one decides between the two errors. */
  lemma {:induction false} SlotPartialsExact(partials: map<int, seq<Option<Partial>>>, trustees: seq<int>, slot: nat)
    returns (first: nat)
    ensures first <= |trustees| && forall j :: 0 <= j < first ==> StoredOwn(partials, trustees[j], slot)
    ensures var r := SlotPartials(partials, trustees, slot);
      if first == |trustees| then
        r.Ok? && |r.value| == |trustees| && forall j :: 0 <= j < |trustees| ==>
          StoredOwn(partials, trustees[j], slot) && r.value[j] == partials[trustees[j]][slot]
      else r == Err(if Stored(partials, trustees[first], slot) then ErrWrongTrustee else ErrMissingPartial)
           && !StoredOwn(partials, trustees[first], slot)
    decreases |trustees|
  {
    first := 0;
    if trustees != [] && StoredOwn(partials, trustees[0], slot) {
      var f := SlotPartialsExact(partials, trustees[1..], slot);
      first := f + 1;
      forall j | 0 <= j < first
        ensures StoredOwn(partials, trustees[j], slot)
      {
        if j > 0 {
          assert trustees[j] == trustees[1..][j - 1];
        }
      }
    }
  }

  /** m is the plaintext of a slot over these trustees: every one of them has delivered its own partial
      for the slot, the partial verifies against that trustee's key, and m*g is what the partials leave. */
  ghost predicate Decrypts(G: Group, O: S.Oracle, sc: SlotContext, ct: Ciphertext, partials: map<int, seq<Option<Partial>>>,
                           trustees: seq<int>, keys: map<int, int>, slot: nat, m: int)
    requires G.q > 0
  {
    && sc.slotIndex == slot && 0 <= m <= MAX_DECRYPT && NoRepeat(trustees)
    && (forall j :: 0 <= j < |trustees| ==> DeliveredBy(G, O, sc, ct, partials, keys, trustees[j], slot))
    && Same(G, m * G.g, ct.c2 - F.Weighted(G.q, trustees, trustees, ValuesAt(partials, trustees, slot)))
  }

  ghost predicate DeliveredBy(G: Group, O: S.Oracle, sc: SlotContext, ct: Ciphertext,
                              partials: map<int, seq<Option<Partial>>>, keys: map<int, int>, t: int, slot: nat)
    requires G.q > 0
  {
    StoredOwn(partials, t, slot) && t in keys && VerifyPartial(G, O, sc, ct, partials[t][slot], keys[t]) == None
  }

  function ValuesAt(partials: map<int, seq<Option<Partial>>>, trustees: seq<int>, slot: nat): (ds: seq<int>)
    ensures |ds| == |trustees|
  {
    seq(|trustees|, (j: nat) requires j < |trustees| =>
      if Stored(partials, trustees[j], slot) then partials[trustees[j]][slot].value.d else 0)
  }

  lemma SlotResultSound(G: Group, O: S.Oracle, sc: SlotContext, ct: Ciphertext, partials: map<int, seq<Option<Partial>>>,
                        trustees: seq<int>, keys: map<int, int>, quorum: int, slot: nat)
    requires Valid(G)
    ensures var r := SlotResult(G, O, sc, ct, partials, trustees, keys, quorum, slot);
      && (r.Ok? ==> Decrypts(G, O, sc, ct, partials, trustees, keys, slot, r.value))
      && (r == Err(ErrSlotIndex) <==> sc.slotIndex != slot)
  {
    hide VerifyPartial, F.Weighted, Combination;
    var first := SlotPartialsExact(partials, trustees, slot);
    var r := SlotResult(G, O, sc, ct, partials, trustees, keys, quorum, slot);
    if r.Ok? {
      var ps := SlotPartials(partials, trustees, slot).value;
      var _ := CombinationExact(G, O, sc, ct, ps, keys, quorum, MAX_DECRYPT);
      assert Indices(ps) == trustees && Shares(ps) == ValuesAt(partials, trustees, slot);
      forall j | 0 <= j < |trustees|
        ensures DeliveredBy(G, O, sc, ct, partials, keys, trustees[j], slot)
      {
        assert Verifies(G, O, sc, ct, ps[j], keys);
      }
    }
  }

  /** What DecryptTally publishes: one plaintext for each slot, in slot order, over exactly the quorum
      asked for, and never over a partial that is missing, another trustee's, or unverified. The two
      length errors come first; after that the first slot without a plaintext decides the error. */
  lemma DecryptionExact(G: Group, O: S.Oracle, tally: TallyResult, contexts: seq<SlotContext>,
                        partials: map<int, seq<Option<Partial>>>, trustees: seq<int>, keys: map<int, int>, quorum: int)
    returns (failed: nat)
    requires Valid(G)
    ensures var (r, sums) := (Decryption(G, O, tally, contexts, partials, trustees, keys, quorum), tally.encryptedSums);
      && (|contexts| != |sums| ==> r == Err(ErrContexts))
      && (|contexts| == |sums| && |trustees| != quorum ==> r == Err(ErrTrusteeCount))
      && (r.Ok? ==> |contexts| == |sums| == |r.value| && |trustees| == quorum && forall slot :: 0 <= slot < |sums| ==>
            Decrypts(G, O, contexts[slot], sums[slot], partials, trustees, keys, slot, r.value[slot]))
      && (r.Err? && |contexts| == |sums| && |trustees| == quorum ==>
            (failed < |sums| && Failed(G, O, contexts[failed], sums[failed], partials, trustees, keys, quorum, failed, r.error)
             && forall slot :: 0 <= slot < failed ==>
                  Decryptable(G, O, contexts[slot], sums[slot], partials, trustees, keys, slot)))
  {
    hide Decrypts, Decryptable, Failed, SlotResult;
    failed := 0;
    if |contexts| == |tally.encryptedSums| && |trustees| == quorum {
      failed := ResultsExact(G, O, contexts, tally.encryptedSums, partials, trustees, keys, quorum, 0);
    }
  }

  ghost predicate Decryptable(G: Group, O: S.Oracle, sc: SlotContext, ct: Ciphertext,
                              partials: map<int, seq<Option<Partial>>>, trustees: seq<int>, keys: map<int, int>, slot: nat)
    requires G.q > 0
  {
    exists m :: Decrypts(G, O, sc, ct, partials, trustees, keys, slot, m)
  }

  ghost predicate Failed(G: Group, O: S.Oracle, sc: SlotContext, ct: Ciphertext, partials: map<int, seq<Option<Partial>>>,
                         trustees: seq<int>, keys: map<int, int>, quorum: int, slot: nat, e: DecryptError)
    requires G.q > 0
  {
    SlotResult(G, O, sc, ct, partials, trustees, keys, quorum, slot) == Err(e)
  }

  lemma {:induction false} ResultsExact(G: Group, O: S.Oracle, contexts: seq<SlotContext>, sums: seq<Ciphertext>,
                                        partials: map<int, seq<Option<Partial>>>, trustees: seq<int>, keys: map<int, int>,
                                        quorum: int, from: nat)
    returns (failed: nat)
    requires Valid(G) && |contexts| == |sums| && from <= |sums|
    ensures var r := Results(G, O, contexts, sums, partials, trustees, keys, quorum, from);
      && (r.Ok? ==> |r.value| == |sums| - from && forall slot :: from <= slot < |sums| ==>
            Decrypts(G, O, contexts[slot], sums[slot], partials, trustees, keys, slot, r.value[slot - from]))
      && (r.Err? ==>
            (from <= failed < |sums|
             && Failed(G, O, contexts[failed], sums[failed], partials, trustees, keys, quorum, failed, r.error)
             && forall slot :: from <= slot < failed ==>
                  Decryptable(G, O, contexts[slot], sums[slot], partials, trustees, keys, slot)))
    decreases |sums| - from
  {
    hide Decrypts, SlotResult;
    failed := from;
    if from < |sums| {
      SlotResultSound(G, O, contexts[from], sums[from], partials, trustees, keys, quorum, from);
      if SlotResult(G, O, contexts[from], sums[from], partials, trustees, keys, quorum, from).Ok? {
        failed := ResultsExact(G, O, contexts, sums, partials, trustees, keys, quorum, from + 1);
        assert Decryptable(G, O, contexts[from], sums[from], partials, trustees, keys, from);
      }
    }
  }

  // ----- ComputeTally

  /** A ballot that can be added to a tally of n slots. */
  predicate Tallies(b: SerializedBallot, n: nat) {
    b.payload.Some? && |b.payload.value| == n && forall j :: 0 <= j < n ==> b.payload.value[j].Some?
  }

  lemma {:induction false} FirstErrorExact(ballots: seq<SerializedBallot>, n: nat) returns (first: nat)
    ensures first <= |ballots| && forall i :: 0 <= i < first ==> Tallies(ballots[i], n)
    ensures FirstError(ballots, n) == if first == |ballots| then None
      else Some(if ballots[first].payload.None? then ErrParse
                else if |ballots[first].payload.value| != n then ErrPartyCount else ErrCiphertext)
    ensures first < |ballots| ==> !Tallies(ballots[first], n)
    decreases |ballots|
  {
    first := 0;
    if ballots != [] && Tallies(ballots[0], n) {
      var f := FirstErrorExact(ballots[1..], n);
      first := f + 1;
      forall i | 0 <= i < first
        ensures Tallies(ballots[i], n)
      {
        if i > 0 {
          assert ballots[i] == ballots[1..][i - 1];
        }
      }
    }
  }

  /** A tally result stands for all the ballots: there is one if and only if there are ballots and all
      have the number of slots of the first, every one decoded; otherwise the first ballot that has
      not decides the error. */
  lemma TallyExact(G: Group, ballots: seq<SerializedBallot>, r: Result<TallyResult, TallyError>) returns (first: nat)
    requires G.q > 0 && TallyOf(G, ballots, r)
    ensures ballots == [] ==> r == Err(ErrNoBallots)
    ensures ballots != [] && ballots[0].payload.None? ==> r == Err(ErrParse)
    ensures ballots != [] && ballots[0].payload.Some? ==>
      var n := |ballots[0].payload.value|;
      && first <= |ballots| && (forall i :: 0 <= i < first ==> Tallies(ballots[i], n))
      && (first == |ballots| ==> r.Ok? && r.value.numBallots == |ballots| && r.value.numParties == n == |r.value.encryptedSums|)
      && (first < |ballots| ==> !Tallies(ballots[first], n))
      && (first < |ballots| ==>
            r == Err(if ballots[first].payload.None? then ErrParse
                     else if |ballots[first].payload.value| != n then ErrPartyCount else ErrCiphertext))
  {
    first := 0;
    if ballots != [] && ballots[0].payload.Some? {
      first := FirstErrorExact(ballots, |ballots[0].payload.value|);
    }
  }
}
