/** crypto/elgamal/ballot.go: encoding a choice and summing whole ballots. */
module Ballots {
  import opened Common
  import opened Scalars
  import opened Groups
  import opened ElGamal
  import opened Tally

  datatype Ballot = Ballot(partyVector: seq<Ciphertext>, candidateVectors: Option<seq<seq<Ciphertext>>>,
                           numParties: int, numCandidates: int)

  datatype ShapeError = ErrNoBallots | ErrShapeMismatch

  /** EncodeBallot, with the randomness as a parameter: slot i encrypts 1 exactly when i is the
      choice. It fails on an identity key or a zero randomness, and on nothing else. */
  method EncodeBallot(G: Group, pk: int, numParties: nat, partyChoice: int,
                      coins: seq<int>) returns (r: Result<Ballot, ElGamal.Error>)
    requires Valid(G) && |coins| == numParties
    ensures r.Ok? <==> (numParties > 0 ==> Red(G.q, pk) != 0) && forall i :: 0 <= i < numParties ==> Red(G.q, coins[i]) != 0
    ensures r.Err? ==> r.error == if Red(G.q, pk) == 0 then ErrInvalidPublicKey else ErrInvalidRandomness
    ensures r.Ok? ==> r.value.numParties == numParties == |r.value.partyVector|
    ensures r.Ok? ==> r.value.candidateVectors.None? && r.value.numCandidates == 0
    ensures r.Ok? ==> forall i :: 0 <= i < numParties ==>
      Encrypts(G, pk, r.value.partyVector[i], if i == partyChoice then 1 else 0, coins[i])
  {
    var vector: seq<Ciphertext> := [];
    for i := 0 to numParties
      invariant |vector| == i && (i > 0 ==> Red(G.q, pk) != 0)
      invariant forall k :: 0 <= k < i ==> Red(G.q, coins[k]) != 0
      invariant forall k :: 0 <= k < i ==> Encrypts(G, pk, vector[k], if k == partyChoice then 1 else 0, coins[k])
    {
      var m := 0;
      if i == partyChoice {
        m := 1;
      }
      var ct := Encrypt(G, pk, m, coins[i]);
      if ct.Err? {
        return Err(ct.error);
      }
      EncryptEncrypts(G, pk, m, coins[i]);
      vector := vector + [ct.value];
    }
    return Ok(Ballot(vector, None, numParties, 0));
  }

  /** A ballot whose vectors have the lengths it declares. */
  predicate SelfShaped(b: Ballot) {
    && |b.partyVector| == b.numParties
    && (b.candidateVectors.Some? ==>
          |b.candidateVectors.value| == b.numParties
          && forall p :: 0 <= p < |b.candidateVectors.value| ==> |b.candidateVectors.value[p]| == b.numCandidates)
  }

  /** checkShape: b has the shape of ref. */
  predicate SameShape(ref: Ballot, b: Option<Ballot>) {
    && b.Some? && b.value.numParties == ref.numParties == |b.value.partyVector|
    && b.value.candidateVectors.Some? == ref.candidateVectors.Some?
    && (ref.candidateVectors.Some? ==>
          b.value.numCandidates == ref.numCandidates && |b.value.candidateVectors.value| == ref.numParties
          && forall p :: 0 <= p < |b.value.candidateVectors.value| ==> |b.value.candidateVectors.value[p]| == ref.numCandidates)
  }

  ghost predicate AllShaped(ballots: seq<Option<Ballot>>) {
    && ballots != [] && ballots[0].Some? && SelfShaped(ballots[0].value)
    && forall i :: 0 <= i < |ballots| ==> SameShape(ballots[0].value, ballots[i])
  }

  /** n party slots and, with candidates, m candidate slots for each party. */
  ghost predicate HasShape(b: Option<Ballot>, n: int, cands: bool, m: int) {
    && b.Some? && n == b.value.numParties == |b.value.partyVector| && cands == b.value.candidateVectors.Some?
    && (cands ==> var rows := b.value.candidateVectors.value;
                  m == b.value.numCandidates && |rows| == n && forall p :: 0 <= p < |rows| ==> |rows[p]| == m)
  }

  ghost predicate OneShape(ballots: seq<Option<Ballot>>, n: int, cands: bool, m: int) {
    forall k :: 0 <= k < |ballots| ==> HasShape(ballots[k], n, cands, m)
  }

  /** The check does not depend on which ballot comes first: it passes exactly when one shape is common
      to all ballots. */
  lemma ShapeExactly(ballots: seq<Option<Ballot>>)
    ensures AllShaped(ballots) <==>
      ballots != [] && exists n, cands, m :: OneShape(ballots, n, cands, m)
  {
    if ballots != [] {
      if AllShaped(ballots) {
        var b := ballots[0].value;
        forall k | 0 <= k < |ballots|
          ensures HasShape(ballots[k], b.numParties, b.candidateVectors.Some?, b.numCandidates)
        {
          assert SameShape(b, ballots[k]);
        }
        assert OneShape(ballots, b.numParties, b.candidateVectors.Some?, b.numCandidates);
      }
      if n, cands, m :| OneShape(ballots, n, cands, m) {
        assert HasShape(ballots[0], n, cands, m);
        forall k | 0 <= k < |ballots|
          ensures SameShape(ballots[0].value, ballots[k])
        {
          assert HasShape(ballots[k], n, cands, m);
        }
      }
    }
  }

  function PartyColumn(ballots: seq<Option<Ballot>>, i: nat): (c: seq<Ciphertext>)
    requires forall k :: 0 <= k < |ballots| ==> ballots[k].Some? && i < |ballots[k].value.partyVector|
    ensures |c| == |ballots|
  {
    seq(|ballots|, k requires 0 <= k < |ballots| => ballots[k].value.partyVector[i])
  }

  function CandidateColumn(ballots: seq<Option<Ballot>>, p: nat, c: nat): (s: seq<Ciphertext>)
    requires forall k :: 0 <= k < |ballots| ==>
      ballots[k].Some? && ballots[k].value.candidateVectors.Some?
      && p < |ballots[k].value.candidateVectors.value| && c < |ballots[k].value.candidateVectors.value[p]|
    ensures |s| == |ballots|
  {
    seq(|ballots|, k requires 0 <= k < |ballots| => ballots[k].value.candidateVectors.value[p][c])
  }

  /** The sums of all party slots, and of all candidate slots when there are any. */
  ghost predicate SumsBallots(G: Group, ballots: seq<Option<Ballot>>, t: Ballot)
    requires G.q > 0 && AllShaped(ballots)
  {
    var ref := ballots[0].value;
    && t.numParties == ref.numParties == |t.partyVector|
    && (forall i :: 0 <= i < ref.numParties ==> SlotSum(G, ballots, i, t.partyVector[i]))
    && t.candidateVectors.Some? == ref.candidateVectors.Some?
    && (t.candidateVectors.Some? ==>
          t.numCandidates == ref.numCandidates && |t.candidateVectors.value| == ref.numParties
          && forall p :: 0 <= p < ref.numParties ==> RowSum(G, ballots, p, t.candidateVectors.value[p]))
  }

  ghost predicate SlotSum(G: Group, ballots: seq<Option<Ballot>>, i: nat, ct: Ciphertext)
    requires G.q > 0 && AllShaped(ballots) && i < ballots[0].value.numParties
  {
    assert forall k :: 0 <= k < |ballots| ==> SameShape(ballots[0].value, ballots[k]);
    Sums(G, ct, PartyColumn(ballots, i))
  }

  ghost predicate RowSum(G: Group, ballots: seq<Option<Ballot>>, p: nat, row: seq<Ciphertext>)
    requires G.q > 0 && AllShaped(ballots) && p < ballots[0].value.numParties && ballots[0].value.candidateVectors.Some?
  {
    |row| == ballots[0].value.numCandidates
    && forall c :: 0 <= c < |row| ==> CandidateSum(G, ballots, p, c, row[c])
  }

  ghost predicate CandidateSum(G: Group, ballots: seq<Option<Ballot>>, p: nat, c: nat, ct: Ciphertext)
    requires G.q > 0 && AllShaped(ballots) && p < ballots[0].value.numParties && ballots[0].value.candidateVectors.Some?
    requires c < ballots[0].value.numCandidates
  {
    assert forall k :: 0 <= k < |ballots| ==> SameShape(ballots[0].value, ballots[k]);
    Sums(G, ct, CandidateColumn(ballots, p, c))
  }

  method TallyBallots(G: Group, ballots: seq<Option<Ballot>>) returns (r: Result<Ballot, ShapeError>)
    requires Valid(G)
    ensures r.Ok? <==> AllShaped(ballots)
    ensures r.Err? ==> r.error == if ballots == [] then ShapeError.ErrNoBallots else ErrShapeMismatch
    ensures r.Ok? ==> SumsBallots(G, ballots, r.value)
  {
    if |ballots| == 0 {
      return Err(ShapeError.ErrNoBallots);
    }
    if ballots[0].None? || !SelfShaped(ballots[0].value) {
      return Err(ErrShapeMismatch);
    }
    var first := ballots[0].value;
    for i := 0 to |ballots|
      invariant forall k :: 0 <= k < i ==> SameShape(first, ballots[k])
    {
      if !SameShape(first, ballots[i]) {
        return Err(ErrShapeMismatch);
      }
    }
    var party: seq<Ciphertext> := [];
    for i := 0 to first.numParties
      invariant |party| == i && forall k :: 0 <= k < i ==> SlotSum(G, ballots, k, party[k])
    {
      assert forall k :: 0 <= k < |ballots| ==> SameShape(first, ballots[k]);
      var sum := HomomorphicAdd(G, PartyColumn(ballots, i));
      party := party + [sum.value];
    }
    if first.candidateVectors.None? {
      return Ok(Ballot(party, None, first.numParties, 0));
    }
    var rows: seq<seq<Ciphertext>> := [];
    for p := 0 to first.numParties
      invariant |rows| == p && forall k :: 0 <= k < p ==> RowSum(G, ballots, k, rows[k])
    {
      assert first.numCandidates >= 0 by { assert |first.candidateVectors.value[p]| == first.numCandidates; }
      var row: seq<Ciphertext> := [];
      for c := 0 to first.numCandidates
        invariant |row| == c && forall k :: 0 <= k < c ==> CandidateSum(G, ballots, p, k, row[k])
      {
        assert forall k :: 0 <= k < |ballots| ==> SameShape(first, ballots[k]);
        var sum := HomomorphicAdd(G, CandidateColumn(ballots, p, c));
        row := row + [sum.value];
      }
      rows := rows + [row];
    }
    return Ok(Ballot(party, Some(rows), first.numParties, first.numCandidates));
  }

  /** The ballots encrypt these plaintexts in candidate slot c of party p. */
  ghost predicate CandidateVotes(G: Group, pk: int, ballots: seq<Option<Ballot>>, p: nat, c: nat, ms: seq<int>, rs: seq<int>)
    requires G.q > 0
  {
    |ms| == |rs| == |ballots| && forall k :: 0 <= k < |ballots| ==> CandidateVote(G, pk, ballots[k], p, c, ms[k], rs[k])
  }

  ghost predicate CandidateVote(G: Group, pk: int, b: Option<Ballot>, p: nat, c: nat, m: int, r: int)
    requires G.q > 0
  {
    && b.Some? && b.value.candidateVectors.Some? && p < |b.value.candidateVectors.value|
    && c < |b.value.candidateVectors.value[p]| && Encrypts(G, pk, b.value.candidateVectors.value[p][c], m, r)
  }

  ghost predicate PartyVotes(G: Group, pk: int, ballots: seq<Option<Ballot>>, i: nat, ms: seq<int>, rs: seq<int>)
    requires G.q > 0
  {
    |ms| == |rs| == |ballots| && forall k :: 0 <= k < |ballots| ==> PartyVote(G, pk, ballots[k], i, ms[k], rs[k])
  }

  ghost predicate PartyVote(G: Group, pk: int, b: Option<Ballot>, i: nat, m: int, r: int)
    requires G.q > 0
  {
    b.Some? && i < |b.value.partyVector| && Encrypts(G, pk, b.value.partyVector[i], m, r)
  }

  /** Every slot of a tally, of parties and of candidates, encrypts the sum of its own votes. */
  lemma TallySlotsEncrypt(G: Group, pk: int, ballots: seq<Option<Ballot>>, t: Ballot, p: nat, c: nat, ms: seq<int>,
                          rs: seq<int>)
    requires G.q > 0 && AllShaped(ballots) && SumsBallots(G, ballots, t) && p < |t.partyVector|
    ensures PartyVotes(G, pk, ballots, p, ms, rs) ==> Encrypts(G, pk, t.partyVector[p], Total(ms), Total(rs))
    ensures CandidateVotes(G, pk, ballots, p, c, ms, rs) ==>
      t.candidateVectors.Some? && p < |t.candidateVectors.value| && c < |t.candidateVectors.value[p]|
      && Encrypts(G, pk, t.candidateVectors.value[p][c], Total(ms), Total(rs))
  {
    hide Encrypts, SumOf, Total;
    assert forall k :: 0 <= k < |ballots| ==> SameShape(ballots[0].value, ballots[k]);
    if PartyVotes(G, pk, ballots, p, ms, rs) {
      assert SlotSum(G, ballots, p, t.partyVector[p]);
      var column := PartyColumn(ballots, p);
      forall k | 0 <= k < |column|
        ensures Encrypts(G, pk, column[k], ms[k], rs[k])
      {
        assert PartyVote(G, pk, ballots[k], p, ms[k], rs[k]);
      }
      SumEncrypts(G, pk, column, ms, rs);
      Unreduced(G, pk, t.partyVector[p], Total(ms), Total(rs));
    }
    if CandidateVotes(G, pk, ballots, p, c, ms, rs) {
      assert CandidateVote(G, pk, ballots[0], p, c, ms[0], rs[0]);
      assert SameShape(ballots[0].value, ballots[0]);
      assert RowSum(G, ballots, p, t.candidateVectors.value[p]);
      var ct := t.candidateVectors.value[p][c];
      assert CandidateSum(G, ballots, p, c, ct);
      var column := CandidateColumn(ballots, p, c);
      forall k | 0 <= k < |column|
        ensures Encrypts(G, pk, column[k], ms[k], rs[k])
      {
        assert CandidateVote(G, pk, ballots[k], p, c, ms[k], rs[k]);
      }
      SumEncrypts(G, pk, column, ms, rs);
      Unreduced(G, pk, ct, Total(ms), Total(rs));
    }
  }

  /** ComputeTally over the serialized party vectors and TallyBallots agree slot by slot. */
  lemma TalliesAgree(G: Group, ballots: seq<Option<Ballot>>, t: Ballot, sbs: seq<SerializedBallot>, r: TallyResult)
    requires Valid(G) && AllShaped(ballots) && SumsBallots(G, ballots, t)
    requires |sbs| == |ballots| && TallyOf(G, sbs, Ok(r))
    requires forall k :: 0 <= k < |sbs| ==> ballots[k].Some? && Serializes(sbs[k], ballots[k].value)
    ensures r.numParties == t.numParties
    ensures forall j :: 0 <= j < r.numParties ==> Reduced(G, r.encryptedSums[j]) == Reduced(G, t.partyVector[j])
  {
    var n := r.numParties;
    assert SameShape(ballots[0].value, ballots[0]) && Serializes(sbs[0], ballots[0].value);
    forall j | 0 <= j < n
      ensures Reduced(G, r.encryptedSums[j]) == Reduced(G, t.partyVector[j])
    {
      assert SlotSum(G, ballots, j, t.partyVector[j]);
      forall k | 0 <= k < |sbs|
        ensures ballots[k].Some? && j < |ballots[k].value.partyVector|
        ensures Column(sbs, n, j)[k] == ballots[k].value.partyVector[j]
      {
        assert SameShape(ballots[0].value, ballots[k]) && Serializes(sbs[k], ballots[k].value);
      }
      assert Column(sbs, n, j) == PartyColumn(ballots, j);
    }
  }

  /** sb is the board's form of the party vector of b. */
  ghost predicate Serializes(sb: SerializedBallot, b: Ballot) {
    && sb.payload.Some? && |sb.payload.value| == |b.partyVector|
    && forall j :: 0 <= j < |b.partyVector| ==> sb.payload.value[j] == Some(b.partyVector[j])
  }
}
