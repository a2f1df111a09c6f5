/** A whole ballot against its verifiers: an accepted ballot is valid, and the honest prover's
    proofs for a valid ballot are accepted. */
module BallotProofs {
  import opened Scalars
  import opened Groups
  import opened ElGamal
  import opened Sigma
  import opened BallotValidity

  // ----- accepted ballots are valid

  datatype Ballot = Ballot(electionId: string, ballotId: string, party: seq<Ciphertext>, cands: seq<seq<Ciphertext>>)

  datatype Proofs = Proofs(party: seq<BinaryProof>, sum: SumProof, cands: seq<seq<BinaryProof>>,
                                       candSums: seq<BinaryProof>, diffs: seq<BinaryProof>)

  function At(b: Ballot, index: nat): Context {
    Context(b.electionId, b.ballotId, index)
  }

  /** The statement index of the first candidate of party p: party slots come first. */
  function FirstCandidate(b: Ballot, p: nat): nat
    requires p <= |b.cands|
  {
    if p == 0 then |b.party| else FirstCandidate(b, p - 1) + |b.cands[p - 1]|
  }

  lemma {:induction false} CandidatesFollow(b: Ballot, p: nat, p': nat)
    requires p <= p' <= |b.cands|
    ensures |b.party| <= FirstCandidate(b, p)
    ensures p < p' ==> FirstCandidate(b, p) + |b.cands[p]| <= FirstCandidate(b, p')
    decreases p'
  {
    if p < p' {
      CandidatesFollow(b, p, p' - 1);
    } else if p > 0 {
      CandidatesFollow(b, p - 1, p - 1);
    }
  }

  /** No two slots of a ballot have one statement index: the party slots have theirs below all
      candidates, and every candidate of every party has its own. */
  lemma OwnIndices(b: Ballot, p: nat, c: nat, p': nat, c': nat)
    requires p < |b.cands| && c < |b.cands[p]| && p' < |b.cands| && c' < |b.cands[p']|
    ensures FirstCandidate(b, p) + c >= |b.party|
    ensures FirstCandidate(b, p) + c == FirstCandidate(b, p') + c' <==> p == p' && c == c'
  {
    if p <= p' {
      CandidatesFollow(b, p, p');
    } else {
      CandidatesFollow(b, p', p);
    }
    CandidatesFollow(b, p, p);
  }

  /** And no index is skipped. */
  lemma {:induction false} EveryIndex(b: Ballot, parties: nat, index: nat) returns (p: nat, c: nat)
    requires parties <= |b.cands| && |b.party| <= index < FirstCandidate(b, parties)
    ensures p < parties && c < |b.cands[p]| && index == FirstCandidate(b, p) + c
    decreases parties
  {
    if index < FirstCandidate(b, parties - 1) {
      p, c := EveryIndex(b, parties - 1, index);
    } else {
      p, c := parties - 1, index - FirstCandidate(b, parties - 1);
    }
  }

  /** Every entry passes VerifyBinary at its own index. */
  ghost predicate VectorAccepted(G: Group, O: Oracle, pk: int, b: Ballot, cts: seq<Ciphertext>, first: nat,
                                 ps: seq<BinaryProof>)
    requires G.q > 0
  {
    |cts| == |ps| &&
    forall i :: 0 <= i < |cts| ==> VerifyBinary(G, O, BINARY_DOMAIN, At(b, first + i), pk, cts[i], ps[i]) == Accepted
  }

  ghost predicate PartyAccepted(G: Group, O: Oracle, pk: int, b: Ballot, x: Proofs, p: nat)
    requires G.q > 0 && p < |b.cands| == |x.cands| == |x.candSums| == |x.diffs| <= |b.party|
  {
    && VectorAccepted(G, O, pk, b, b.cands[p], FirstCandidate(b, p), x.cands[p])
    && VerifyCandidateSum(G, O, At(b, p), pk, SumOf(G, b.cands[p]), x.candSums[p]) == Accepted
    && VerifyConsistency(G, O, At(b, p), pk, b.party[p], SumOf(G, b.cands[p]), x.diffs[p]) == Accepted
  }

  /** All the proofs of a ballot verify, each under its own domain and index. */
  ghost predicate BallotAccepted(G: Group, O: Oracle, pk: int, b: Ballot, x: Proofs)
    requires G.q > 0
  {
    && VectorAccepted(G, O, pk, b, b.party, 0, x.party)
    && VerifySumOne(G, O, At(b, 0), pk, b.party, x.sum) == Accepted
    && |b.cands| == |x.cands| == |x.candSums| == |x.diffs| <= |b.party|
    && forall p :: 0 <= p < |b.cands| ==> PartyAccepted(G, O, pk, b, x, p)
  }

  /** The prover sent the same commitments, and the two hash functions answer them differently. */
  ghost predicate Rewound(G: Group, O: Oracle, O': Oracle, domain: string, ctx: Context, pk: int, ct: Ciphertext,
                          p: BinaryProof, p': BinaryProof)
    requires G.q > 0
  {
    && p.a0 == p'.a0 && p.a1 == p'.a1 && p.b0 == p'.b0 && p.b1 == p'.b1
    && BinaryChallenge(G, O, domain, ctx, pk, ct, p.a0, p.b0, p.a1, p.b1)
       != BinaryChallenge(G, O', domain, ctx, pk, ct, p.a0, p.b0, p.a1, p.b1)
  }

  ghost predicate VectorRewound(G: Group, O: Oracle, O': Oracle, pk: int, b: Ballot, cts: seq<Ciphertext>, first: nat,
                                ps: seq<BinaryProof>, ps': seq<BinaryProof>)
    requires G.q > 0
  {
    |cts| == |ps| == |ps'| &&
    forall i :: 0 <= i < |cts| ==> Rewound(G, O, O', BINARY_DOMAIN, At(b, first + i), pk, cts[i], ps[i], ps'[i])
  }

  ghost predicate PartyRewound(G: Group, O: Oracle, O': Oracle, pk: int, b: Ballot, x: Proofs, x': Proofs, p: nat)
    requires G.q > 0 && p < |b.cands| == |x.cands| == |x.candSums| == |x.diffs| <= |b.party|
    requires |b.cands| == |x'.cands| == |x'.candSums| == |x'.diffs|
  {
    var agg := SumOf(G, b.cands[p]);
    && VectorRewound(G, O, O', pk, b, b.cands[p], FirstCandidate(b, p), x.cands[p], x'.cands[p])
    && Rewound(G, O, O', CANDIDATE_SUM_DOMAIN, At(b, p), pk, agg, x.candSums[p], x'.candSums[p])
    && Rewound(G, O, O', CONSISTENCY_DOMAIN, At(b, p), pk, SubCt(G, b.party[p], agg), x.diffs[p], x'.diffs[p])
  }

  ghost predicate BallotRewound(G: Group, O: Oracle, O': Oracle, pk: int, b: Ballot, x: Proofs, x': Proofs)
    requires G.q > 0
  {
    var agg := SumOf(G, b.party);
    && VectorRewound(G, O, O', pk, b, b.party, 0, x.party, x'.party)
    && x.sum.a == x'.sum.a && x.sum.b == x'.sum.b
    && SumChallenge(G, O, At(b, 0), pk, agg, x.sum.a, x.sum.b) != SumChallenge(G, O', At(b, 0), pk, agg, x.sum.a, x.sum.b)
    && |b.cands| == |x.cands| == |x.candSums| == |x.diffs| <= |b.party|
    && |b.cands| == |x'.cands| == |x'.candSums| == |x'.diffs|
    && forall p :: 0 <= p < |b.cands| ==> PartyRewound(G, O, O', pk, b, x, x', p)
  }

  function ForkFrom(G: Group, O: Oracle, O': Oracle, domain: string, ctx: Context, pk: int, ct: Ciphertext,
                    p: BinaryProof, p': BinaryProof): Fork
    requires G.q > 0
  {
    Fork(p, BinaryChallenge(G, O, domain, ctx, pk, ct, p.a0, p.b0, p.a1, p.b1),
         p', BinaryChallenge(G, O', domain, ctx, pk, ct, p.a0, p.b0, p.a1, p.b1))
  }

  lemma VectorForks(G: Group, O: Oracle, O': Oracle, pk: int, b: Ballot, cts: seq<Ciphertext>, first: nat,
                    ps: seq<BinaryProof>, ps': seq<BinaryProof>)
    returns (fs: seq<Fork>)
    requires G.q > 0 && VectorAccepted(G, O, pk, b, cts, first, ps) && VectorAccepted(G, O', pk, b, cts, first, ps')
    requires VectorRewound(G, O, O', pk, b, cts, first, ps, ps')
    ensures ForksOf(G, pk, cts, fs)
  {
    hide VerifyBinary, BinaryChallenge, Forked;
    fs := seq(|cts|, (i: nat) requires i < |cts| =>
      ForkFrom(G, O, O', BINARY_DOMAIN, At(b, first + i), pk, cts[i], ps[i], ps'[i]));
    forall i | 0 <= i < |cts|
      ensures ForkOf(G, pk, cts[i], fs[i])
    {
      assert Rewound(G, O, O', BINARY_DOMAIN, At(b, first + i), pk, cts[i], ps[i], ps'[i]);
      AcceptedFork(G, O, O', BINARY_DOMAIN, At(b, first + i), pk, cts[i], ps[i], ps'[i]);
    }
  }

  lemma ForksOfParty(G: Group, O: Oracle, O': Oracle, pk: int, b: Ballot, x: Proofs, x': Proofs, p: nat)
    returns (fs: seq<Fork>, sumFork: Fork, diffFork: Fork)
    requires G.q > 0 && p < |b.cands| == |x.cands| == |x.candSums| == |x.diffs| <= |b.party|
    requires |b.cands| == |x'.cands| == |x'.candSums| == |x'.diffs| && |b.cands[p]| < G.q
    requires PartyAccepted(G, O, pk, b, x, p) && PartyAccepted(G, O', pk, b, x', p) && PartyRewound(G, O, O', pk, b, x, x', p)
    ensures PartyForks(G, pk, b.party[p], b.cands[p], fs, sumFork, diffFork)
  {
    hide VerifyBinary, BinaryChallenge, Forked, VectorAccepted, VectorRewound, SumOf, SubCt;
    var agg := SumOf(G, b.cands[p]);
    var diff := SubCt(G, b.party[p], agg);
    fs := VectorForks(G, O, O', pk, b, b.cands[p], FirstCandidate(b, p), x.cands[p], x'.cands[p]);
    AcceptedFork(G, O, O', CANDIDATE_SUM_DOMAIN, At(b, p), pk, agg, x.candSums[p], x'.candSums[p]);
    AcceptedFork(G, O, O', CONSISTENCY_DOMAIN, At(b, p), pk, diff, x.diffs[p], x'.diffs[p]);
    sumFork := ForkFrom(G, O, O', CANDIDATE_SUM_DOMAIN, At(b, p), pk, agg, x.candSums[p], x'.candSums[p]);
    diffFork := ForkFrom(G, O, O', CONSISTENCY_DOMAIN, At(b, p), pk, diff, x.diffs[p], x'.diffs[p]);
  }

  /** Ballot validity from the verifiers alone: a ballot all of whose proofs are accepted under two
      hash functions, with the same commitments and different challenges, encrypts one party and at
      most one of its candidates. */
  lemma AcceptedBallotValid(G: Group, O: Oracle, O': Oracle, pk: int, b: Ballot, x: Proofs, x': Proofs)
    returns (o: Opening)
    requires Valid(G) && |b.party| < G.q && forall p :: 0 <= p < |b.cands| ==> |b.cands[p]| < G.q
    requires BallotAccepted(G, O, pk, b, x) && BallotAccepted(G, O', pk, b, x') && BallotRewound(G, O, O', pk, b, x, x')
    ensures ValidBallot(G, pk, b.party, b.cands, o)
  {
    hide VerifyBinary, VerifySumOne, VectorAccepted, VectorRewound, PartyAccepted, PartyRewound, SumHolds, SumOf, ForksOf;
    hide BinaryChallenge, SumChallenge, ForkOf, PartyForks;
    var partyForks := VectorForks(G, O, O', pk, b, b.party, 0, x.party, x'.party);
    SumAcceptedFork(G, O, O', At(b, 0), pk, b.party, x.sum, x'.sum);
    var agg := SumOf(G, b.party);
    var sumOne := SumFork(x.sum, SumChallenge(G, O, At(b, 0), pk, agg, x.sum.a, x.sum.b),
                          x'.sum, SumChallenge(G, O', At(b, 0), pk, agg, x.sum.a, x.sum.b));
    var (candForks, sumForks, diffForks) := ([], [], []);
    for p := 0 to |b.cands|
      invariant |candForks| == |sumForks| == |diffForks| == p
      invariant forall i :: 0 <= i < p ==> PartyForks(G, pk, b.party[i], b.cands[i], candForks[i], sumForks[i], diffForks[i])
    {
      assert PartyAccepted(G, O, pk, b, x, p) && PartyAccepted(G, O', pk, b, x', p) && PartyRewound(G, O, O', pk, b, x, x', p);
      var fs, sf, df := ForksOfParty(G, O, O', pk, b, x, x', p);
      candForks, sumForks, diffForks := candForks + [fs], sumForks + [sf], diffForks + [df];
    }
    o := BallotValid(G, pk, b.party, b.cands, partyForks, sumOne, candForks, sumForks, diffForks);
  }

  // ----- the honest prover

  /** The random values of the proof under a domain and an index. */
  type Coins = (string, nat) -> (int, int, int)

  /** The prover's binary proof for an opening to a bit. */
  function HonestBinary(G: Group, O: Oracle, domain: string, ctx: Context, pk: int, ct: Ciphertext, m: int, r: int,
                        coins: Coins): BinaryProof
    requires G.q > 0 && WellFormed(G, ctx, pk) && (m == 0 || m == 1)
  {
    var (k, es, zs) := coins(domain, ctx.index);
    ProveBinary(G, O, domain, ctx, pk, ct, m, r, k, es, zs).value
  }

  lemma HonestBinaryAccepted(G: Group, O: Oracle, domain: string, ctx: Context, pk: int, ct: Ciphertext, m: int, r: int,
                             coins: Coins)
    requires Valid(G) && WellFormed(G, ctx, pk) && (m == 0 || m == 1) && Encrypts(G, pk, ct, m, r)
    ensures VerifyBinary(G, O, domain, ctx, pk, ct, HonestBinary(G, O, domain, ctx, pk, ct, m, r, coins)) == Accepted
  {
    hide VerifyBinary, ProveBinaryReal0, ProveBinaryReal1, Encrypts;
    var (k, es, zs) := coins(domain, ctx.index);
    BinaryComplete(G, O, domain, ctx, pk, ct, m, r, m, k, es, zs);
    var p := ProveBinary(G, O, domain, ctx, pk, ct, m, r, k, es, zs).value;
    assert (if m == 0 then p.e0 else p.e1) * (m - m) == 0;
    RedSmall(G.q, 0);
  }

  function HonestVector(G: Group, O: Oracle, pk: int, b: Ballot, cts: seq<Ciphertext>, first: nat, ms: seq<int>,
                        rs: seq<int>, coins: Coins): seq<BinaryProof>
    requires G.q > 0 && |cts| == |ms| == |rs| && WellFormed(G, At(b, 0), pk)
    requires forall i :: 0 <= i < |ms| ==> ms[i] == 0 || ms[i] == 1
  {
    seq(|cts|, (i: nat) requires i < |cts| =>
      HonestBinary(G, O, BINARY_DOMAIN, At(b, first + i), pk, cts[i], ms[i], rs[i], coins))
  }

  lemma HonestVectorAccepted(G: Group, O: Oracle, pk: int, b: Ballot, cts: seq<Ciphertext>, first: nat, ms: seq<int>,
                             rs: seq<int>, coins: Coins)
    requires Valid(G) && WellFormed(G, At(b, 0), pk) && Opens(G, pk, cts, ms, rs) && Bits(ms)
    ensures VectorAccepted(G, O, pk, b, cts, first, HonestVector(G, O, pk, b, cts, first, ms, rs, coins))
  {
    hide VerifyBinary, HonestBinary, Encrypts;
    forall i | 0 <= i < |cts|
      ensures VerifyBinary(G, O, BINARY_DOMAIN, At(b, first + i), pk, cts[i],
                           HonestVector(G, O, pk, b, cts, first, ms, rs, coins)[i]) == Accepted
    {
      HonestBinaryAccepted(G, O, BINARY_DOMAIN, At(b, first + i), pk, cts[i], ms[i], rs[i], coins);
    }
  }

  lemma {:induction false} UnitTotal(ms: seq<int>, chosen: nat)
    requires chosen < |ms| && forall i :: 0 <= i < |ms| ==> ms[i] == if i == chosen then 1 else 0
    ensures Total(ms) == 1
  {
    if chosen == 0 {
      ZeroTotal(ms[1..]);
    } else {
      UnitTotal(ms[1..], chosen - 1);
    }
  }

  /** The totals that the candidate-sum and consistency proofs are about are bits. */
  lemma CandidateTotals(G: Group, pk: int, b: Ballot, o: Opening, p: nat)
    requires G.q > 0 && ValidBallot(G, pk, b.party, b.cands, o) && p < |b.cands| <= |b.party|
    ensures Bits(o.css[p]) && Opens(G, pk, b.cands[p], o.css[p], o.rss[p])
    ensures Total(o.css[p]) == 0 || Total(o.css[p]) == 1
    ensures o.ms[p] - Total(o.css[p]) == 0 || o.ms[p] - Total(o.css[p]) == 1
  {
    hide Encrypts;
    assert ValidCandidates(G, pk, b.cands[p], o.css[p], o.rss[p], p == o.chosen);
    TotalOfBits(o.css[p]);
    if p != o.chosen {
      ZeroTotal(o.css[p]);
    }
  }

  /** The three kinds of proof for one party's candidates. */
  datatype PartyProofs = PartyProofs(cands: seq<BinaryProof>, candSum: BinaryProof, diff: BinaryProof)

  ghost function HonestParty(G: Group, O: Oracle, pk: int, b: Ballot, o: Opening, coins: Coins, p: nat): PartyProofs
    requires G.q > 0 && ValidBallot(G, pk, b.party, b.cands, o) && p < |b.cands| <= |b.party| && WellFormed(G, At(b, p), pk)
  {
    CandidateTotals(G, pk, b, o, p);
    var (agg, total, rand) := (SumOf(G, b.cands[p]), Total(o.css[p]), Total(o.rss[p]));
    PartyProofs(HonestVector(G, O, pk, b, b.cands[p], FirstCandidate(b, p), o.css[p], o.rss[p], coins),
                HonestBinary(G, O, CANDIDATE_SUM_DOMAIN, At(b, p), pk, agg, total, rand, coins),
                HonestBinary(G, O, CONSISTENCY_DOMAIN, At(b, p), pk, SubCt(G, b.party[p], agg), o.ms[p] - total,
                             o.rs[p] - rand, coins))
  }

  /** All the proofs that the honest prover makes for a valid ballot. */
  ghost function HonestProofs(G: Group, O: Oracle, pk: int, b: Ballot, o: Opening, coins: Coins): Proofs
    requires G.q > 0 && ValidBallot(G, pk, b.party, b.cands, o) && |b.cands| <= |b.party| && WellFormed(G, At(b, 0), pk)
  {
    var parties := seq(|b.cands|, (p: nat) requires p < |b.cands| => HonestParty(G, O, pk, b, o, coins, p));
    Proofs(HonestVector(G, O, pk, b, b.party, 0, o.ms, o.rs, coins),
                 ProveSumOne(G, O, At(b, 0), pk, b.party, Total(o.rs), coins(SUM_DOMAIN, 0).0).value,
                 seq(|parties|, (p: nat) requires p < |parties| => parties[p].cands),
                 seq(|parties|, (p: nat) requires p < |parties| => parties[p].candSum),
                 seq(|parties|, (p: nat) requires p < |parties| => parties[p].diff))
  }

  lemma HonestPartyAccepted(G: Group, O: Oracle, pk: int, b: Ballot, o: Opening, coins: Coins, x: Proofs, p: nat)
    requires Valid(G) && ValidBallot(G, pk, b.party, b.cands, o) && WellFormed(G, At(b, p), pk)
    requires p < |b.cands| == |x.cands| == |x.candSums| == |x.diffs| <= |b.party|
    requires PartyProofs(x.cands[p], x.candSums[p], x.diffs[p]) == HonestParty(G, O, pk, b, o, coins, p)
    ensures PartyAccepted(G, O, pk, b, x, p)
  {
    hide VerifyBinary, HonestBinary, HonestVector, VectorAccepted, Encrypts, SumOf, SubCt, Total, ValidCandidates;
    CandidateTotals(G, pk, b, o, p);
    var (agg, total, rand) := (SumOf(G, b.cands[p]), Total(o.css[p]), Total(o.rss[p]));
    HonestVectorAccepted(G, O, pk, b, b.cands[p], FirstCandidate(b, p), o.css[p], o.rss[p], coins);
    SumEncrypts(G, pk, b.cands[p], o.css[p], o.rss[p]);
    HonestBinaryAccepted(G, O, CANDIDATE_SUM_DOMAIN, At(b, p), pk, agg, total, rand, coins);
    AddEncrypts(G, pk, b.party[p], o.ms[p], o.rs[p], agg, total, rand);
    HonestBinaryAccepted(G, O, CONSISTENCY_DOMAIN, At(b, p), pk, SubCt(G, b.party[p], agg), o.ms[p] - total,
                         o.rs[p] - rand, coins);
  }

  lemma HonestSumAccepted(G: Group, O: Oracle, pk: int, b: Ballot, o: Opening, k: int)
    requires Valid(G) && ValidBallot(G, pk, b.party, b.cands, o) && WellFormed(G, At(b, 0), pk)
    ensures VerifySumOne(G, O, At(b, 0), pk, b.party, ProveSumOne(G, O, At(b, 0), pk, b.party, Total(o.rs), k).value) == Accepted
  {
    hide VerifySumOne, Encrypts, Total, SumOf, ValidCandidates;
    SumOneComplete(G, O, At(b, 0), pk, b.party, o.ms, o.rs, k);
    UnitTotal(o.ms, o.chosen);
    RedSmall(G.q, 0);
  }

  /** Completeness of the whole ballot: whatever the hash function and the coins, the honest prover's
      proofs for a ballot that encrypts one party and at most one of its candidates are all accepted. */
  lemma HonestBallotAccepted(G: Group, O: Oracle, pk: int, b: Ballot, o: Opening, coins: Coins)
    requires Valid(G) && WellFormed(G, At(b, 0), pk) && |b.cands| <= |b.party| && ValidBallot(G, pk, b.party, b.cands, o)
    ensures BallotAccepted(G, O, pk, b, HonestProofs(G, O, pk, b, o, coins))
  {
    hide VerifySumOne, VectorAccepted, PartyAccepted, HonestVector, HonestParty, Encrypts, SumOf, ValidCandidates, Total;
    var x := HonestProofs(G, O, pk, b, o, coins);
    HonestVectorAccepted(G, O, pk, b, b.party, 0, o.ms, o.rs, coins);
    HonestSumAccepted(G, O, pk, b, o, coins(SUM_DOMAIN, 0).0);
    forall p | 0 <= p < |b.cands|
      ensures PartyAccepted(G, O, pk, b, x, p)
    {
      HonestPartyAccepted(G, O, pk, b, o, coins, x, p);
    }
  }
}
