/** The published number is the number of votes: key generation, encryption, tallying and threshold
    decryption composed. */
module TallyTheorems {
  import opened Common
  import opened Scalars
  import opened Groups
  import opened Lagrange
  import opened ElGamal
  import opened Decrypt
  import opened Tally
  import F = Feldman
  import S = Sigma
  import Dkg

  // ----- what the tally encrypts

  /** The ballot decodes to n ciphertexts that encrypt `votes` under pk. */
  ghost predicate Casts(G: Group, pk: int, b: SerializedBallot, n: nat, votes: seq<int>, rs: seq<int>)
    requires G.q > 0
  {
    && BallotError(b, n) == None && |votes| == |rs| == n
    && forall j :: 0 <= j < n ==> Encrypts(G, pk, b.payload.value[j].value, votes[j], rs[j])
  }

  ghost predicate Election(G: Group, pk: int, ballots: seq<SerializedBallot>, n: nat, votes: seq<seq<int>>,
                           rands: seq<seq<int>>)
    requires G.q > 0
  {
    && |ballots| == |votes| == |rands|
    && forall i :: 0 <= i < |ballots| ==> Casts(G, pk, ballots[i], n, votes[i], rands[i])
  }

  ghost function Slot(rows: seq<seq<int>>, j: nat): (c: seq<int>)
    requires forall i :: 0 <= i < |rows| ==> j < |rows[i]|
    ensures |c| == |rows| && forall i :: 0 <= i < |c| ==> c[i] == rows[i][j]
  {
    seq(|rows|, i requires 0 <= i < |rows| => rows[i][j])
  }

  lemma ElectionRows(G: Group, pk: int, ballots: seq<SerializedBallot>, n: nat, votes: seq<seq<int>>,
                     rands: seq<seq<int>>, i: nat)
    requires G.q > 0 && Election(G, pk, ballots, n, votes, rands) && i < |ballots|
    ensures |votes[i]| == |rands[i]| == n && BallotError(ballots[i], n) == None
  {
    assert Casts(G, pk, ballots[i], n, votes[i], rands[i]);
  }

  /** Every slot of the tally encrypts the sum of the votes in it. */
  lemma SlotEncryptsTotal(G: Group, pk: int, ballots: seq<SerializedBallot>, n: nat, votes: seq<seq<int>>,
                          rands: seq<seq<int>>,
                          ct: Ciphertext, j: nat)
    requires G.q > 0 && Election(G, pk, ballots, n, votes, rands) && j < n
    requires (forall b :: b in ballots ==> BallotError(b, n) == None) && Sums(G, ct, Column(ballots, n, j))
    requires forall i :: 0 <= i < |votes| ==> |votes[i]| == |rands[i]| == n
    ensures Encrypts(G, pk, ct, Total(Slot(votes, j)), Total(Slot(rands, j)))
  {
    var column := Column(ballots, n, j);
    forall i | 0 <= i < |column|
      ensures Encrypts(G, pk, column[i], Slot(votes, j)[i], Slot(rands, j)[i])
    {
      assert Casts(G, pk, ballots[i], n, votes[i], rands[i]);
    }
    SumEncrypts(G, pk, column, Slot(votes, j), Slot(rands, j));
    SameResidues(G, pk, ct, SumOf(G, column), Total(Slot(votes, j)), Total(Slot(rands, j)));
  }

  lemma SameResidues(G: Group, pk: int, a: Ciphertext, b: Ciphertext, m: int, r: int)
    requires G.q > 0 && Reduced(G, a) == b && Encrypts(G, pk, b, m, r)
    ensures Encrypts(G, pk, a, m, r)
  {
    RedAgain(G.q, a.c1);
    RedAgain(G.q, a.c2);
  }

  // ----- decryption of a slot by a quorum

  /** Trustee t's stored vector: one accepted partial per slot, carrying t's own index. */
  ghost predicate Delivered(G: Group, O: S.Oracle, contexts: seq<SlotContext>, sums: seq<Ciphertext>,
                            partials: map<int, seq<Option<Partial>>>, keys: map<int, int>, f: seq<int>, t: int)
    requires G.q > 0 && |contexts| == |sums|
  {
    && t in partials && t in keys && |partials[t]| == |sums|
    && forall slot :: 0 <= slot < |sums| ==> DeliveredSlot(G, O, contexts[slot], sums[slot], partials[t][slot], keys[t], f, t)
  }

  ghost predicate DeliveredSlot(G: Group, O: S.Oracle, sc: SlotContext, ct: Ciphertext, p: Option<Partial>, key: int,
                                f: seq<int>, t: int)
    requires G.q > 0
  {
    p.Some? && p.value.trusteeIndex == t && Accepted(G, O, sc, ct, p.value, key, f)
  }

  lemma {:induction false} SlotPartialsAre(G: Group, O: S.Oracle, contexts: seq<SlotContext>, sums: seq<Ciphertext>,
                                           partials: map<int, seq<Option<Partial>>>, keys: map<int, int>, f: seq<int>,
                                           trustees: seq<int>, slot: nat)
    requires G.q > 0 && |contexts| == |sums| && slot < |sums|
    requires forall t :: t in trustees ==> Delivered(G, O, contexts, sums, partials, keys, f, t)
    ensures SlotPartials(partials, trustees, slot).Ok?
    ensures var ps := SlotPartials(partials, trustees, slot).value;
      |ps| == |trustees| && forall k :: 0 <= k < |ps| ==>
        DeliveredSlot(G, O, contexts[slot], sums[slot], ps[k], if trustees[k] in keys then keys[trustees[k]] else 0, f, trustees[k])
  {
    if trustees != [] {
      var t := trustees[0];
      assert t in trustees && Delivered(G, O, contexts, sums, partials, keys, f, t);
      assert DeliveredSlot(G, O, contexts[slot], sums[slot], partials[t][slot], keys[t], f, t);
      SlotPartialsAre(G, O, contexts, sums, partials, keys, f, trustees[1..], slot);
    }
  }

  /** The partials of a slot form a quorum for it. */
  lemma SlotQuorum(G: Group, O: S.Oracle, contexts: seq<SlotContext>, sums: seq<Ciphertext>,
                   partials: map<int, seq<Option<Partial>>>, keys: map<int, int>, f: seq<int>,
                   trustees: seq<int>, slot: nat)
    requires G.q > 0 && |contexts| == |sums| && slot < |sums| && trustees != []
    requires F.InRange(trustees) && NoRepeat(trustees)
    requires forall t :: t in trustees ==> Delivered(G, O, contexts, sums, partials, keys, f, t)
    ensures SlotPartials(partials, trustees, slot).Ok?
    ensures Quorum(G, O, contexts[slot], sums[slot], SlotPartials(partials, trustees, slot).value, keys, |trustees|, f)
  {
    SlotPartialsAre(G, O, contexts, sums, partials, keys, f, trustees, slot);
    var ps := SlotPartials(partials, trustees, slot).value;
    forall k | 0 <= k < |ps|
      ensures ps[k].Some? && ps[k].value.trusteeIndex == trustees[k] && trustees[k] in keys
      ensures Accepted(G, O, contexts[slot], sums[slot], ps[k].value, keys[trustees[k]], f)
    {
      assert trustees[k] in trustees && Delivered(G, O, contexts, sums, partials, keys, f, trustees[k]);
      assert DeliveredSlot(G, O, contexts[slot], sums[slot], ps[k], keys[trustees[k]], f, trustees[k]);
    }
    assert Indices(ps) == trustees;
  }

  /** The totals as DecryptTally publishes them: all of them, unless one is beyond MaxDecrypt. */
  ghost function Published(totals: seq<int>): Result<seq<int>, DecryptError> {
    if exists j :: 0 <= j < |totals| && totals[j] > MAX_DECRYPT then Err(ErrCombine(ErrPlaintextOutOfRange)) else Ok(totals)
  }

  ghost predicate SlotContexts(contexts: seq<SlotContext>) {
    forall j :: 0 <= j < |contexts| ==> contexts[j].slotIndex == j
  }

  /** Every slot from `slot` on combines to its total, or is out of range. */
  ghost predicate SlotsCombine(G: Group, O: S.Oracle, contexts: seq<SlotContext>, sums: seq<Ciphertext>,
                               partials: map<int, seq<Option<Partial>>>, trustees: seq<int>, keys: map<int, int>,
                               totals: seq<int>)
    requires G.q > 0 && |contexts| == |sums| == |totals|
  {
    forall j :: 0 <= j < |sums| ==>
      SlotResult(G, O, contexts[j], sums[j], partials, trustees, keys, |trustees|, j) == SlotOutcome(totals[j])
  }

  ghost function SlotOutcome(total: int): Result<int, DecryptError> {
    if total <= MAX_DECRYPT then Ok(total) else Err(ErrCombine(ErrPlaintextOutOfRange))
  }

  lemma {:induction false} ResultsAreTotals(G: Group, O: S.Oracle, contexts: seq<SlotContext>, sums: seq<Ciphertext>,
                                            partials: map<int, seq<Option<Partial>>>, trustees: seq<int>, keys: map<int, int>,
                                            totals: seq<int>, slot: nat)
    requires G.q > 0 && |contexts| == |sums| == |totals| && slot <= |sums|
    requires SlotsCombine(G, O, contexts, sums, partials, trustees, keys, totals)
    ensures Results(G, O, contexts, sums, partials, trustees, keys, |trustees|, slot) == Published(totals[slot..])
    decreases |sums| - slot
  {
    hide SlotResult;
    if slot < |sums| {
      ResultsAreTotals(G, O, contexts, sums, partials, trustees, keys, totals, slot + 1);
      PublishedStep(totals, slot);
    } else {
      assert totals[slot..] == [];
    }
  }

  lemma PublishedStep(totals: seq<int>, slot: nat)
    requires slot < |totals|
    ensures Published(totals[slot..]) ==
      if totals[slot] > MAX_DECRYPT then Err(ErrCombine(ErrPlaintextOutOfRange))
      else var rest := Published(totals[slot + 1..]); if rest.Err? then rest else Ok([totals[slot]] + rest.value)
  {
    var (here, rest) := (totals[slot..], totals[slot + 1..]);
    assert here == [totals[slot]] + rest;
    if j :| 0 <= j < |rest| && rest[j] > MAX_DECRYPT {
      assert here[j + 1] == rest[j];
    }
    if totals[slot] > MAX_DECRYPT {
      assert here[0] > MAX_DECRYPT;
    }
  }

  lemma SlotIsTotal(G: Group, O: S.Oracle, contexts: seq<SlotContext>, sums: seq<Ciphertext>,
                    partials: map<int, seq<Option<Partial>>>, trustees: seq<int>, keys: map<int, int>, f: seq<int>,
                    total: int, r: int, slot: nat)
    requires Valid(G) && |contexts| == |sums| && slot < |sums| && contexts[slot].slotIndex == slot
    requires 0 <= total < G.q && Encrypts(G, BaseMul(G, Eval(f, 0)), sums[slot], total, r)
    requires |f| <= |trustees| && trustees != [] && F.InRange(trustees) && NoRepeat(trustees)
    requires forall t :: t in trustees ==> Delivered(G, O, contexts, sums, partials, keys, f, t)
    ensures SlotResult(G, O, contexts[slot], sums[slot], partials, trustees, keys, |trustees|, slot)
         == SlotOutcome(total)
  {
    SlotQuorum(G, O, contexts, sums, partials, keys, f, trustees, slot);
    var ps := SlotPartials(partials, trustees, slot).value;
    ThresholdDecryption(G, O, contexts[slot], sums[slot], ps, keys, |trustees|, MAX_DECRYPT, f, total, r);
  }

  // ----- counts

  ghost predicate BitRows(votes: seq<seq<int>>, n: nat) {
    forall i :: 0 <= i < |votes| ==> |votes[i]| == n && forall j :: 0 <= j < n ==> votes[i][j] == 0 || votes[i][j] == 1
  }

  ghost function Ones(votes: seq<seq<int>>, j: nat): set<int>
    requires forall i :: 0 <= i < |votes| ==> j < |votes[i]|
  {
    set i | 0 <= i < |votes| && votes[i][j] == 1
  }

  /** The number of rows with a 1 in slot j. */
  ghost function Count(votes: seq<seq<int>>, j: nat): nat
    requires forall i :: 0 <= i < |votes| ==> j < |votes[i]|
  {
    |Ones(votes, j)|
  }

  ghost function Counts(votes: seq<seq<int>>, n: nat): (c: seq<int>)
    requires BitRows(votes, n)
    ensures |c| == n && forall j :: 0 <= j < n ==> c[j] == Count(votes, j)
  {
    seq(n, j requires 0 <= j < n => Count(votes, j))
  }

  lemma CountPush(front: seq<seq<int>>, last: seq<int>, j: nat)
    requires (forall i :: 0 <= i < |front| ==> j < |front[i]|) && j < |last|
    ensures Count(front + [last], j) == Count(front, j) + if last[j] == 1 then 1 else 0
  {
    OnesPush(front, last, j);
    hide Ones;
    assert |Ones(front, j) + {|front|}| == |Ones(front, j)| + 1;
  }

  lemma OnesPush(front: seq<seq<int>>, last: seq<int>, j: nat)
    requires (forall i :: 0 <= i < |front| ==> j < |front[i]|) && j < |last|
    ensures |front| !in Ones(front, j)
    ensures Ones(front + [last], j) == Ones(front, j) + if last[j] == 1 then {|front|} else {}
  {
    forall i
      ensures i in Ones(front + [last], j) <==> i in Ones(front, j) || (i == |front| && last[j] == 1)
    {
      if 0 <= i < |front| {
        assert (front + [last])[i] == front[i];
      }
    }
  }

  lemma {:induction false} TotalIsCount(votes: seq<seq<int>>, n: nat, j: nat)
    requires BitRows(votes, n) && j < n
    ensures Total(Slot(votes, j)) == Count(votes, j) <= |votes|
  {
    if votes != [] {
      var (front, last) := (votes[..|votes| - 1], votes[|votes| - 1]);
      TotalIsCount(front, n, j);
      TotalPush(Slot(front, j), last[j]);
      CountPush(front, last, j);
      hide Total, Count;
      assert votes == front + [last] && Slot(votes, j) == Slot(front, j) + [last[j]];
    }
  }

  lemma {:induction false} TotalPush(xs: seq<int>, x: int)
    ensures Total(xs + [x]) == Total(xs) + x
  {
    if xs == [] {
      assert [] + [x] == [x] && [x][1..] == [];
    } else {
      assert (xs + [x])[1..] == xs[1..] + [x];
      TotalPush(xs[1..], x);
    }
  }

  /** With one 1 in every ballot the counts sum to the number of ballots. */
  ghost predicate OneHotRows(votes: seq<seq<int>>, n: nat) {
    BitRows(votes, n) && forall i :: 0 <= i < |votes| ==> Total(votes[i]) == 1
  }

  ghost function SlotTotals(votes: seq<seq<int>>, n: nat): (t: seq<int>)
    requires forall i :: 0 <= i < |votes| ==> |votes[i]| == n
    ensures |t| == n && forall j :: 0 <= j < n ==> t[j] == Total(Slot(votes, j))
  {
    seq(n, j requires 0 <= j < n => Total(Slot(votes, j)))
  }

  lemma {:induction false} TotalOfTotals(votes: seq<seq<int>>, n: nat)
    requires OneHotRows(votes, n)
    ensures Total(SlotTotals(votes, n)) == |votes|
  {
    if votes == [] {
      ZeroTotal(SlotTotals(votes, n));
    } else {
      var (front, last) := (votes[..|votes| - 1], votes[|votes| - 1]);
      TotalOfTotals(front, n);
      forall j | 0 <= j < n
        ensures SlotTotals(votes, n)[j] == SlotTotals(front, n)[j] + last[j]
      {
        TotalPush(Slot(front, j), last[j]);
        assert Slot(votes, j) == Slot(front, j) + [last[j]];
      }
      TotalSum(SlotTotals(front, n), last, SlotTotals(votes, n));
    }
  }

  lemma {:induction false} TotalSum(a: seq<int>, b: seq<int>, c: seq<int>)
    requires |a| == |b| == |c| && forall j :: 0 <= j < |c| ==> c[j] == a[j] + b[j]
    ensures Total(c) == Total(a) + Total(b)
  {
    if c != [] {
      TotalSum(a[1..], b[1..], c[1..]);
    }
  }

  // ----- end to end

  /** A tally of an election under the joint key, and a quorum that delivered. */
  ghost predicate Ceremony(G: Group, O: S.Oracle, f: seq<int>, ballots: seq<SerializedBallot>, votes: seq<seq<int>>,
                           rands: seq<seq<int>>,
                           tally: TallyResult, contexts: seq<SlotContext>, partials: map<int, seq<Option<Partial>>>,
                           trustees: seq<int>, keys: map<int, int>)
    requires G.q > 0
  {
    var n := tally.numParties;
    && TallyOf(G, ballots, Ok(tally)) && Election(G, BaseMul(G, Eval(f, 0)), ballots, n, votes, rands)
    && BitRows(votes, n) && |ballots| < G.q
    && |contexts| == |tally.encryptedSums| && SlotContexts(contexts)
    && |f| <= |trustees| && trustees != [] && F.InRange(trustees) && NoRepeat(trustees)
    && forall t :: t in trustees ==> Delivered(G, O, contexts, tally.encryptedSums, partials, keys, f, t)
  }

  /** Every sum encrypts its slot's count. */
  lemma SlotEncryptsCount(G: Group, pk: int, ballots: seq<SerializedBallot>, votes: seq<seq<int>>, rands: seq<seq<int>>,
                          tally: TallyResult, j: nat)
    requires G.q > 0 && TallyOf(G, ballots, Ok(tally)) && Election(G, pk, ballots, tally.numParties, votes, rands)
    requires BitRows(votes, tally.numParties) && j < tally.numParties && |tally.encryptedSums| == tally.numParties
    ensures Count(votes, j) == Total(Slot(votes, j)) <= |ballots|
    ensures exists r :: Encrypts(G, pk, tally.encryptedSums[j], Count(votes, j), r)
  {
    forall i | 0 <= i < |votes|
      ensures |votes[i]| == |rands[i]| == tally.numParties
    {
      ElectionRows(G, pk, ballots, tally.numParties, votes, rands, i);
    }
    TotalIsCount(votes, tally.numParties, j);
    SlotEncryptsTotal(G, pk, ballots, tally.numParties, votes, rands, tally.encryptedSums[j], j);
  }

  /** End to end: any quorum publishes for each party exactly the number of ballots that encrypt 1
      there, unless a count is beyond MaxDecrypt. */
  lemma PublishedCounts(G: Group, O: S.Oracle, f: seq<int>, ballots: seq<SerializedBallot>, votes: seq<seq<int>>,
                        rands: seq<seq<int>>, tally: TallyResult, contexts: seq<SlotContext>,
                        partials: map<int, seq<Option<Partial>>>, trustees: seq<int>, keys: map<int, int>)
    requires Valid(G) && Ceremony(G, O, f, ballots, votes, rands, tally, contexts, partials, trustees, keys)
    ensures Decryption(G, O, tally, contexts, partials, trustees, keys, |trustees|) == Published(Counts(votes, tally.numParties))
  {
    var (pk, n, sums) := (BaseMul(G, Eval(f, 0)), tally.numParties, tally.encryptedSums);
    var totals := Counts(votes, n);
    forall j | 0 <= j < n
      ensures SlotResult(G, O, contexts[j], sums[j], partials, trustees, keys, |trustees|, j) == SlotOutcome(totals[j])
    {
      SlotEncryptsCount(G, pk, ballots, votes, rands, tally, j);
      var r :| Encrypts(G, pk, sums[j], Count(votes, j), r);
      SlotIsTotal(G, O, contexts, sums, partials, trustees, keys, f, totals[j], r, j);
    }
    ResultsAreTotals(G, O, contexts, sums, partials, trustees, keys, totals, 0);
    assert totals[0..] == totals;
  }

  /** Which trustees decrypt, and in which order, does not change the results. */
  lemma QuorumIrrelevant(G: Group, O: S.Oracle, f: seq<int>, ballots: seq<SerializedBallot>, votes: seq<seq<int>>,
                         rands: seq<seq<int>>,
                         tally: TallyResult, contexts: seq<SlotContext>, partials: map<int, seq<Option<Partial>>>,
                         trustees: seq<int>, others: seq<int>, keys: map<int, int>)
    requires Valid(G) && Ceremony(G, O, f, ballots, votes, rands, tally, contexts, partials, trustees, keys)
    requires Ceremony(G, O, f, ballots, votes, rands, tally, contexts, partials, others, keys)
    ensures Decryption(G, O, tally, contexts, partials, trustees, keys, |trustees|)
         == Decryption(G, O, tally, contexts, partials, others, keys, |others|)
  {
    PublishedCounts(G, O, f, ballots, votes, rands, tally, contexts, partials, trustees, keys);
    PublishedCounts(G, O, f, ballots, votes, rands, tally, contexts, partials, others, keys);
  }

  /** For one-hot ballots the published counts sum to the number of ballots. */
  lemma CountsSumToBallots(votes: seq<seq<int>>, n: nat)
    requires OneHotRows(votes, n)
    ensures Total(Counts(votes, n)) == |votes|
  {
    TotalOfTotals(votes, n);
    forall j | 0 <= j < n
      ensures SlotTotals(votes, n)[j] == Counts(votes, n)[j]
    {
      TotalIsCount(votes, n, j);
    }
    assert SlotTotals(votes, n) == Counts(votes, n);
  }

  /** A trustee of the key generation that decrypts honestly delivers an accepted partial. */
  lemma HonestTrusteeDelivers(G: Group, O: S.Oracle, sc: SlotContext, ct: Ciphertext, r: Dkg.DkgResult, f: seq<int>,
                              i: nat, k: int)
    requires Valid(G) && Dkg.SharesOf(G, r, f) && i < |r.participants| && F.CheckIndex(i + 1) && sc.electionId != ""
    ensures var p := r.participants[i];
      var made := PartialDecrypt(G, O, sc, p.id, p.combinedShare, ct, k);
      made.Ok? && DeliveredSlot(G, O, sc, ct, Some(made.value), p.verificationKey, f, i + 1)
  {
    var p := r.participants[i];
    assert Dkg.Holds(G, p, i, f);
    Dkg.CommitStep(G, Eval(f, i + 1));
    HonestPartialVerifies(G, O, sc, p.id, p.combinedShare, ct, k, p.verificationKey);
    RedAgain(G.q, Eval(f, i + 1));
    RedMul(G.q, p.combinedShare, ct.c1, Eval(f, i + 1), ct.c1);
    RedAgain(G.q, p.combinedShare * ct.c1);
  }

  /** What an honest participant of the key generation sends. */
  ghost function HonestVector(G: Group, O: S.Oracle, contexts: seq<SlotContext>, sums: seq<Ciphertext>, p: Dkg.Participant,
                              coins: nat -> int): (v: seq<Option<Partial>>)
    requires G.q > 0 && |contexts| == |sums|
    ensures |v| == |sums|
  {
    seq(|sums|, (slot: nat) requires slot < |sums| =>
      var made := PartialDecrypt(G, O, contexts[slot], p.id, p.combinedShare, sums[slot], coins(slot));
      if made.Ok? then Some(made.value) else None)
  }

  lemma HonestVectorDelivers(G: Group, O: S.Oracle, contexts: seq<SlotContext>, sums: seq<Ciphertext>, r: Dkg.DkgResult,
                             f: seq<int>, t: int, coins: nat -> int, partials: map<int, seq<Option<Partial>>>,
                             keys: map<int, int>)
    requires Valid(G) && Dkg.SharesOf(G, r, f) && 1 <= t <= |r.participants| && F.CheckIndex(t) && |contexts| == |sums|
    requires forall slot :: 0 <= slot < |contexts| ==> contexts[slot].electionId != ""
    requires t in keys && keys[t] == r.participants[t - 1].verificationKey
    requires t in partials && partials[t] == HonestVector(G, O, contexts, sums, r.participants[t - 1], coins)
    ensures Delivered(G, O, contexts, sums, partials, keys, f, t)
  {
    assert Dkg.Holds(G, r.participants[t - 1], t - 1, f);
    forall slot | 0 <= slot < |sums|
      ensures DeliveredSlot(G, O, contexts[slot], sums[slot], partials[t][slot], keys[t], f, t)
    {
      HonestTrusteeDelivers(G, O, contexts[slot], sums[slot], r, f, t - 1, coins(slot));
    }
  }

  /** The whole election: after the key generation, whichever threshold of participants decrypt
      honestly, with any randomness, they publish the counts of the ballots under the election key. */
  lemma HonestElection(G: Group, O: S.Oracle, threshold: nat, polynomials: seq<seq<int>>, r: Dkg.DkgResult,
                       ballots: seq<SerializedBallot>, votes: seq<seq<int>>, rands: seq<seq<int>>, tally: TallyResult,
                       contexts: seq<SlotContext>, trustees: seq<int>, coins: map<int, nat -> int>,
                       partials: map<int, seq<Option<Partial>>>, keys: map<int, int>)
    requires Valid(G) && F.CheckThreshold(threshold, |r.participants|) && Dkg.Drawn(polynomials, threshold)
    requires Dkg.SharesOf(G, r, Dkg.Joint(polynomials, threshold))
    requires TallyOf(G, ballots, Ok(tally)) && Election(G, r.electionPublicKey, ballots, tally.numParties, votes, rands)
    requires BitRows(votes, tally.numParties) && |ballots| < G.q
    requires |contexts| == |tally.encryptedSums| && SlotContexts(contexts)
    requires forall slot :: 0 <= slot < |contexts| ==> contexts[slot].electionId != ""
    requires |trustees| == threshold && NoRepeat(trustees)
    requires forall t :: t in trustees ==>
      && 1 <= t <= |r.participants| && t in keys && keys[t] == r.participants[t - 1].verificationKey && t in coins
      && t in partials
      && partials[t] == HonestVector(G, O, contexts, tally.encryptedSums, r.participants[t - 1], coins[t])
    ensures Decryption(G, O, tally, contexts, partials, trustees, keys, threshold) == Published(Counts(votes, tally.numParties))
  {
    hide Dkg.Joint, Decryption, PartialDecrypt, TallyOf, Election, BitRows, HonestVector;
    var f := Dkg.Joint(polynomials, threshold);
    forall t | t in trustees
      ensures Delivered(G, O, contexts, tally.encryptedSums, partials, keys, f, t)
    {
      HonestVectorDelivers(G, O, contexts, tally.encryptedSums, r, f, t, coins[t], partials, keys);
    }
    PublishedCounts(G, O, f, ballots, votes, rands, tally, contexts, partials, trustees, keys);
  }

  // ----- order of the ballots

  /** Where the first entry of a list occurs in a permutation of it. */
  lemma FindFirst<T>(a: seq<T>, b: seq<T>) returns (k: nat)
    requires a != [] && multiset(a) == multiset(b)
    ensures k < |b| && b[k] == a[0] && multiset(a[1..]) == multiset(b[..k] + b[k + 1..])
  {
    assert a[0] in multiset(b);
    k :| 0 <= k < |b| && b[k] == a[0];
    Without(a, 0);
    Without(b, k);
    assert a[..0] + a[1..] == a[1..];
    CancelOne(multiset(a[1..]), multiset(b[..k] + b[k + 1..]), a[0]);
  }

  lemma Without<T>(s: seq<T>, k: nat)
    requires k < |s|
    ensures multiset(s) == multiset(s[..k] + s[k + 1..]) + multiset{s[k]}
  {
    assert s == s[..k] + [s[k]] + s[k + 1..];
  }

  lemma CancelOne<T>(a: multiset<T>, b: multiset<T>, x: T)
    requires a + multiset{x} == b + multiset{x}
    ensures a == b
  {
    assert a == a + multiset{x} - multiset{x} && b == b + multiset{x} - multiset{x};
  }

  /** The sums of a column do not depend on the order of the ballots. */
  lemma {:induction false} SumPermutation(a: seq<Ciphertext>, b: seq<Ciphertext>)
    requires multiset(a) == multiset(b)
    ensures Sum1(a) == Sum1(b) && Sum2(a) == Sum2(b)
    decreases |a|
  {
    if a == [] {
      assert |multiset(b)| == 0;
    } else {
      var k := FindFirst(a, b);
      SumPermutation(a[1..], b[..k] + b[k + 1..]);
      SumRemove(b, k);
    }
  }

  lemma {:induction false} SumRemove(b: seq<Ciphertext>, k: nat)
    requires k < |b|
    ensures Sum1(b) == b[k].c1 + Sum1(b[..k] + b[k + 1..])
    ensures Sum2(b) == b[k].c2 + Sum2(b[..k] + b[k + 1..])
  {
    if k == 0 {
      assert b[..0] + b[1..] == b[1..];
    } else {
      SumRemove(b[1..], k - 1);
      assert (b[..k] + b[k + 1..])[1..] == b[1..][..k - 1] + b[1..][k..];
    }
  }

  /** Permuting the ballots changes no slot of the tally. */
  lemma {:induction false} ColumnPermutation(a: seq<SerializedBallot>, b: seq<SerializedBallot>, n: nat, j: nat)
    requires j < n && multiset(a) == multiset(b)
    requires (forall x :: x in a ==> BallotError(x, n) == None) && (forall x :: x in b ==> BallotError(x, n) == None)
    ensures multiset(Column(a, n, j)) == multiset(Column(b, n, j))
    decreases |a|
  {
    if a == [] {
      assert |multiset(b)| == 0;
    } else {
      var k := FindFirst(a, b);
      ColumnPermutation(a[1..], b[..k] + b[k + 1..], n, j);
      ColumnParts(a, n, j);
      ColumnSplit(b, k, n, j);
    }
  }

  lemma ColumnParts(a: seq<SerializedBallot>, n: nat, j: nat)
    requires a != [] && j < n && forall y :: y in a ==> BallotError(y, n) == None
    ensures multiset(Column(a, n, j)) == multiset(Column([a[0]], n, j)) + multiset(Column(a[1..], n, j))
  {
    assert Column(a, n, j) == Column([a[0]], n, j) + Column(a[1..], n, j);
  }

  lemma ColumnSplit(b: seq<SerializedBallot>, k: nat, n: nat, j: nat)
    requires k < |b| && j < n && forall y :: y in b ==> BallotError(y, n) == None
    ensures multiset(Column(b, n, j)) == multiset(Column([b[k]], n, j)) + multiset(Column(b[..k] + b[k + 1..], n, j))
  {
    var (l, r) := (b[..k], b[k + 1..]);
    assert Column(b, n, j) == Column(l, n, j) + Column([b[k]], n, j) + Column(r, n, j);
    assert Column(l + r, n, j) == Column(l, n, j) + Column(r, n, j);
  }

  lemma {:induction false} NoFirstError(ballots: seq<SerializedBallot>, n: nat)
    requires forall b :: b in ballots ==> BallotError(b, n) == None
    ensures FirstError(ballots, n) == None
  {
    if ballots != [] {
      NoFirstError(ballots[1..], n);
    }
  }

  /** Permuted ballots tally too, to the same number of ballots and, slot by slot, the same sums. */
  lemma TallyOrderIrrelevant(G: Group, a: seq<SerializedBallot>, b: seq<SerializedBallot>, s: TallyResult,
                             r: Result<TallyResult, TallyError>)
    requires G.q > 0 && multiset(a) == multiset(b) && TallyOf(G, a, Ok(s)) && TallyOf(G, b, r)
    ensures r.Ok? && r.value.numBallots == s.numBallots && r.value.numParties == s.numParties
    ensures forall j :: 0 <= j < s.numParties ==> Reduced(G, s.encryptedSums[j]) == Reduced(G, r.value.encryptedSums[j])
  {
    var n := s.numParties;
    assert |multiset(a)| == |multiset(b)|;
    forall x | x in b
      ensures BallotError(x, n) == None
    {
      assert x in multiset(a);
    }
    NoFirstError(b, n);
    assert BallotError(b[0], n) == None;
    forall j | 0 <= j < n
      ensures Reduced(G, s.encryptedSums[j]) == Reduced(G, r.value.encryptedSums[j])
    {
      ColumnPermutation(a, b, n, j);
      SumPermutation(Column(a, n, j), Column(b, n, j));
      assert Sums(G, s.encryptedSums[j], Column(a, n, j));
      assert Sums(G, r.value.encryptedSums[j], Column(b, n, j));
    }
  }

  /** So the published results do not depend on the order of the ballots either. */
  lemma ResultsOrderIrrelevant(G: Group, O: S.Oracle, f: seq<int>, keys: map<int, int>,
                               a: seq<SerializedBallot>, votes: seq<seq<int>>, rands: seq<seq<int>>, tally: TallyResult,
                               contexts: seq<SlotContext>, partials: map<int, seq<Option<Partial>>>, trustees: seq<int>,
                               b: seq<SerializedBallot>, votes': seq<seq<int>>, rands': seq<seq<int>>, tally': TallyResult,
                               contexts': seq<SlotContext>, partials': map<int, seq<Option<Partial>>>, trustees': seq<int>)
    requires Valid(G) && multiset(a) == multiset(b)
    requires Ceremony(G, O, f, a, votes, rands, tally, contexts, partials, trustees, keys)
    requires Ceremony(G, O, f, b, votes', rands', tally', contexts', partials', trustees', keys)
    ensures Decryption(G, O, tally, contexts, partials, trustees, keys, |trustees|)
         == Decryption(G, O, tally', contexts', partials', trustees', keys, |trustees'|)
  {
    TallyOrderIrrelevant(G, a, b, tally, Ok(tally'));
    var (pk, n) := (BaseMul(G, Eval(f, 0)), tally.numParties);
    forall j | 0 <= j < n
      ensures Counts(votes, n)[j] == Counts(votes', n)[j]
    {
      SlotEncryptsCount(G, pk, a, votes, rands, tally, j);
      SlotEncryptsCount(G, pk, b, votes', rands', tally', j);
      SameCount(G, pk, tally.encryptedSums[j], tally'.encryptedSums[j], Count(votes, j), Count(votes', j));
    }
    assert Counts(votes, n) == Counts(votes', n);
    PublishedCounts(G, O, f, a, votes, rands, tally, contexts, partials, trustees, keys);
    PublishedCounts(G, O, f, b, votes', rands', tally', contexts', partials', trustees', keys);
  }

  lemma SameCount(G: Group, pk: int, ct: Ciphertext, ct': Ciphertext, m: nat, m': nat)
    requires Valid(G) && m < G.q && m' < G.q && Reduced(G, ct) == Reduced(G, ct')
    requires (exists r :: Encrypts(G, pk, ct, m, r)) && exists r :: Encrypts(G, pk, ct', m', r)
    ensures m == m'
  {
    var r :| Encrypts(G, pk, ct, m, r);
    var r' :| Encrypts(G, pk, ct', m', r');
    PlaintextUnique(G, pk, ct, m, r, m', r');
    RedSmall(G.q, m);
    RedSmall(G.q, m');
  }
}
