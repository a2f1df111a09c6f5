/** What the ceremony publishes: what the first five recorded vectors decrypt to in every reachable
    state, and that this is the counts when the trustees are honest, or prove what they sent. */
module CeremonyResults {
  import opened Common
  import opened Groups
  import opened Lagrange
  import opened ElGamal
  import opened Decrypt
  import opened Tally
  import opened Ceremony
  import opened CeremonySafety
  import F = Feldman
  import S = Sigma
  import TT = TallyTheorems

  // ----- what the first five decrypt to

  ghost function ShareAt(c: State, t: int, slot: nat): int {
    if t in c.partials && slot < |c.partials[t]| && c.partials[t][slot].Some? then c.partials[t][slot].value.d else 0
  }

  /** The stored D_i of these trustees for one slot. */
  ghost function SharesAt(c: State, trustees: seq<int>, slot: nat): (ds: seq<int>)
    ensures |ds| == |trustees|
  {
    seq(|trustees|, (k: nat) requires k < |trustees| => ShareAt(c, trustees[k], slot))
  }

  ghost predicate HasQuorum(c: State) {
    c.tally.Some? && c.partyCount == |c.tally.value.encryptedSums| && |c.trusteeOrder| >= DECRYPTION_THRESHOLD
  }

  /** The plaintext that the stored shares of the first five trustees leave in a slot. */
  ghost function SlotPlaintext(env: Env, c: State, slot: nat): nat
    requires env.G.q > 0 && HasQuorum(c) && slot < c.partyCount
  {
    var trustees := c.trusteeOrder[..DECRYPTION_THRESHOLD];
    Combined(env.G, c.tally.value.encryptedSums[slot], trustees, SharesAt(c, trustees, slot))
  }

  ghost function SlotPlaintexts(env: Env, c: State): (ms: seq<int>)
    requires env.G.q > 0 && HasQuorum(c)
    ensures |ms| == c.partyCount
  {
    seq(c.partyCount, (slot: nat) requires slot < c.partyCount => SlotPlaintext(env, c, slot))
  }

  lemma {:induction false} StoredPartials(env: Env, c: State, trustees: seq<int>, slot: nat)
    requires env.G.q > 0 && slot < c.partyCount && forall t :: t in trustees ==> Verified(env, c, t)
    ensures SlotPartials(c.partials, trustees, slot).Ok?
    ensures var ps := SlotPartials(c.partials, trustees, slot).value;
      |ps| == |trustees| && forall k :: 0 <= k < |ps| ==>
        trustees[k] in c.partials && slot < |c.partials[trustees[k]]| && ps[k] == c.partials[trustees[k]][slot]
  {
    if trustees != [] {
      var t := trustees[0];
      assert t in trustees && Verified(env, c, t);
      assert SlotVerified(env, c, t, slot);
      StoredPartials(env, c, trustees[1..], slot);
    }
  }

  /** Of the errors of Combine only the plaintext range is left. */
  lemma SlotDecrypts(env: Env, c: State, trustees: seq<int>, slot: nat)
    requires env.G.q > 0 && HasQuorum(c) && slot < c.partyCount && Contexts(env, c).Some?
    requires trustees == c.trusteeOrder[..DECRYPTION_THRESHOLD] && NoRepeat(trustees)
    requires forall t :: t in trustees ==> Verified(env, c, t)
    ensures SlotResult(env.G, env.O, Contexts(env, c).value[slot], c.tally.value.encryptedSums[slot], c.partials, trustees,
                       env.keys, |trustees|, slot) == TT.SlotOutcome(SlotPlaintext(env, c, slot))
  {
    hide Combined, VerifyPartial;
    var (sc, ct) := (Contexts(env, c).value[slot], c.tally.value.encryptedSums[slot]);
    StoredPartials(env, c, trustees, slot);
    var ps := SlotPartials(c.partials, trustees, slot).value;
    forall k | 0 <= k < |ps|
      ensures ps[k].Some? && ps[k].value.trusteeIndex == trustees[k] && trustees[k] in env.keys && F.CheckIndex(trustees[k])
      ensures VerifyPartial(env.G, env.O, sc, ct, ps[k], env.keys[trustees[k]]) == None
    {
      assert trustees[k] in trustees && Verified(env, c, trustees[k]);
      assert SlotVerified(env, c, trustees[k], slot);
      VerifiedIndex(env, sc, ct, ps[k], env.keys[trustees[k]]);
    }
    NoneRejected(env.G, env.O, sc, ct, ps, env.keys);
    assert Indices(ps) == trustees && Shares(ps) == SharesAt(c, trustees, slot);
  }

  lemma VerifiedIndex(env: Env, sc: SlotContext, ct: Ciphertext, p: Option<Partial>, key: int)
    requires env.G.q > 0 && VerifyPartial(env.G, env.O, sc, ct, p, key) == None
    ensures p.Some? && F.CheckIndex(p.value.trusteeIndex)
  {
  }

  lemma QuorumStored(env: Env, c: State, task: Task)
    requires env.G.q > 0 && Good(env, c, task) && |c.trusteeOrder| >= DECRYPTION_THRESHOLD
    ensures HasQuorum(c) && Contexts(env, c).Some? && NoRepeat(c.trusteeOrder[..DECRYPTION_THRESHOLD])
    ensures forall t :: t in c.trusteeOrder[..DECRYPTION_THRESHOLD] ==> Verified(env, c, t)
  {
    assert c.trusteeOrder[0] in c.trusteeOrder;
    assert Verified(env, c, c.trusteeOrder[0]);
  }

  /** In every reachable state with five recorded trustees, decryptLocked publishes what their shares
      leave in each slot, and fails if and only if that is beyond MaxDecrypt in some slot: no missing,
      foreign, unknown, repeated or unverified partial can stop it. */
  lemma FirstFiveDecrypts(env: Env, c: State, task: Task)
    requires env.G.q > 0 && Good(env, c, task) && |c.trusteeOrder| >= DECRYPTION_THRESHOLD
    ensures HasQuorum(c)
    ensures FirstFive(env, c) == if exists slot :: 0 <= slot < c.partyCount && SlotPlaintexts(env, c)[slot] > MAX_DECRYPT
                                 then None else Some(SlotPlaintexts(env, c))
  {
    hide Verified, Combined, TallyOf, SlotPlaintext, SlotResult;
    QuorumStored(env, c, task);
    var (contexts, sums) := (Contexts(env, c).value, c.tally.value.encryptedSums);
    var (trustees, totals) := (c.trusteeOrder[..DECRYPTION_THRESHOLD], SlotPlaintexts(env, c));
    forall slot | 0 <= slot < |sums|
      ensures SlotResult(env.G, env.O, contexts[slot], sums[slot], c.partials, trustees, env.keys, |trustees|, slot)
           == TT.SlotOutcome(totals[slot])
    {
      SlotDecrypts(env, c, trustees, slot);
    }
    TT.ResultsAreTotals(env.G, env.O, contexts, sums, c.partials, trustees, env.keys, totals, 0);
    assert totals[0..] == totals;
  }

  // ----- honest values

  /** The stored partials of the first five trustees have the values D_i = f(i) * c1. */
  ghost predicate HonestValues(env: Env, c: State, f: seq<int>)
    requires env.G.q > 0
  {
    c.tally.Some? && forall k :: 0 <= k < |c.trusteeOrder| && k < DECRYPTION_THRESHOLD && c.trusteeOrder[k] in c.partials ==>
      HonestVector(env, c.partials[c.trusteeOrder[k]], c.tally.value.encryptedSums, f, c.trusteeOrder[k])
  }

  ghost predicate HonestVector(env: Env, v: seq<Option<Partial>>, sums: seq<Ciphertext>, f: seq<int>, t: int)
    requires env.G.q > 0
  {
    forall slot :: 0 <= slot < |v| && slot < |sums| && v[slot].Some? ==> Same(env.G, v[slot].value.d, Eval(f, t) * sums[slot].c1)
  }

  /** The ballots of the ceremony's active set encrypt these bits under the joint key. */
  ghost predicate Voted(env: Env, c: State, task: Task, f: seq<int>, votes: seq<seq<int>>, rands: seq<seq<int>>)
    requires env.G.q > 0
  {
    && !task.FetchPending?
    && var ballots := ActiveBallots(task.fetched, c.activeSet);
    && TT.Election(env.G, BaseMul(env.G, Eval(f, 0)), ballots, c.partyCount, votes, rands)
    && TT.BitRows(votes, c.partyCount) && |ballots| < env.G.q && c.partyCount > 0 && |f| <= DECRYPTION_THRESHOLD
  }

  /** Decrypting over the first five trustees gives the counts, unless one is beyond MaxDecrypt. */
  lemma FirstFiveIsCounts(env: Env, c: State, task: Task, f: seq<int>, votes: seq<seq<int>>, rands: seq<seq<int>>)
    requires Valid(env.G) && Good(env, c, task) && c.tally.Some? && |c.trusteeOrder| >= DECRYPTION_THRESHOLD
    requires HonestValues(env, c, f) && Voted(env, c, task, f, votes, rands)
    ensures FirstFive(env, c) == if exists j :: 0 <= j < c.partyCount && TT.Counts(votes, c.partyCount)[j] > MAX_DECRYPT
                                 then None else Some(TT.Counts(votes, c.partyCount))
  {
    var trustees := c.trusteeOrder[..DECRYPTION_THRESHOLD];
    assert trustees[0] in c.trusteeOrder;
    assert Verified(env, c, trustees[0]);
    var contexts := Contexts(env, c).value;
    forall t | t in trustees
      ensures TT.Delivered(env.G, env.O, contexts, c.tally.value.encryptedSums, c.partials, env.keys, f, t) && F.CheckIndex(t)
    {
      var k :| 0 <= k < DECRYPTION_THRESHOLD && c.trusteeOrder[k] == t;
      DeliveredBy(env, c, f, t);
    }
    TT.PublishedCounts(env.G, env.O, f, task.ballots, votes, rands, c.tally.value, contexts, c.partials, trustees, env.keys);
  }

  lemma DeliveredBy(env: Env, c: State, f: seq<int>, t: int)
    requires env.G.q > 0 && Verified(env, c, t) && c.partyCount > 0
    requires HonestVector(env, c.partials[t], c.tally.value.encryptedSums, f, t)
    ensures TT.Delivered(env.G, env.O, Contexts(env, c).value, c.tally.value.encryptedSums, c.partials, env.keys, f, t)
    ensures F.CheckIndex(t)
  {
    var (contexts, sums) := (Contexts(env, c).value, c.tally.value.encryptedSums);
    forall slot | 0 <= slot < |sums|
      ensures TT.DeliveredSlot(env.G, env.O, contexts[slot], sums[slot], c.partials[t][slot], env.keys[t], f, t)
    {
      assert SlotVerified(env, c, t, slot);
    }
    assert SlotVerified(env, c, t, 0);
  }

  // ----- the published results

  /** Some earlier step fetched these ballots for ceremony i. */
  ghost predicate FetchedBefore(steps: seq<Step>, k: nat, i: nat, fetched: seq<SerializedBallot>) {
    exists j :: 0 <= j < k && j < |steps| && steps[j] == Fetched(i, Some(fetched))
  }

  lemma {:induction false} TaskWasFetched(env: Env, states: seq<System>, steps: seq<Step>, k: nat, i: nat)
    requires env.G.q > 0 && Run(env, states, steps) && k < |states| && i < |states[k].all| == |states[k].tasks|
    ensures var task := states[k].tasks[i];
      task.FetchPending? || task.ballots == [] || FetchedBefore(steps, k, i, task.fetched)
    decreases k
  {
    if k > 0 {
      RunInvariant(env, states, steps, k - 1);
      assert Steps(env, states, steps, k - 1);
      if i < |states[k - 1].all| {
        TaskWasFetched(env, states, steps, k - 1, i);
        KeepsTask(env, states[k - 1], steps[k - 1], i);
      }
    }
  }

  /** Only the fetch of ceremony i sets what it fetched. */
  lemma KeepsTask(env: Env, s: System, step: Step, i: nat)
    requires env.G.q > 0 && Enabled(env, s, step) && i < |s.all|
    ensures var (before, after) := (s.tasks[i], Do(env, s, step).tasks[i]);
      || after == before
      || (step.Fetched? && step.who == i && (step.fetched.Some? ==> after.fetched == step.fetched.value) && (step.fetched.None? ==> after.ballots == []))
      || (step.Computed? && step.who == i && after == Done(before.fetched, before.ballots))
  {
  }

  /** In every reachable state, the results of a decrypted ceremony are exactly the numbers of ballots
      that encrypt 1 in each slot, over the ballots of its active set among those that it fetched,
      when the first five trustees' values are honest. */
  lemma ResultsAreVotes(env: Env, states: seq<System>, steps: seq<Step>, k: nat, i: nat, f: seq<int>, votes: seq<seq<int>>,
                        rands: seq<seq<int>>)
    requires Valid(env.G) && Run(env, states, steps) && k < |states| && i < |states[k].all| == |states[k].tasks|
    requires var (c, task) := (states[k].all[i], states[k].tasks[i]);
      && Decided(c) && HonestValues(env, c, f) && Voted(env, c, task, f, votes, rands)
    ensures states[k].all[i].results == Some(TT.Counts(votes, states[k].all[i].partyCount))
    ensures FetchedBefore(steps, k, i, states[k].tasks[i].fetched)
  {
    RunInvariant(env, states, steps, k);
    var (c, task) := (states[k].all[i], states[k].tasks[i]);
    assert Good(env, c, task);
    FirstFiveIsCounts(env, c, task, f, votes, rands);
    TaskWasFetched(env, states, steps, k, i);
  }

  // ----- from proofs instead of honesty

  /** The vectors that the first five trustees answer with when the hash function is O' instead. */
  ghost predicate RewoundVectors(env: Env, O': S.Oracle, c: State, again: map<int, seq<Option<Partial>>>)
    requires env.G.q > 0
  {
    && Contexts(env, c).Some?
    && forall k :: 0 <= k < |c.trusteeOrder| && k < DECRYPTION_THRESHOLD ==> RewoundVector(env, O', c, again, c.trusteeOrder[k])
  }

  ghost predicate RewoundVector(env: Env, O': S.Oracle, c: State, again: map<int, seq<Option<Partial>>>, t: int)
    requires env.G.q > 0 && Contexts(env, c).Some?
  {
    && t in c.partials && t in again && t in env.keys && |c.partials[t]| == |again[t]| == c.partyCount
    && forall slot :: 0 <= slot < c.partyCount ==> RewoundSlot(env, O', c, c.partials[t][slot], again[t][slot], t, slot)
  }

  /** The second answer verifies, for the same value and commitment and another challenge. */
  ghost predicate RewoundSlot(env: Env, O': S.Oracle, c: State, p: Option<Partial>, p': Option<Partial>, t: int, slot: nat)
    requires env.G.q > 0 && Contexts(env, c).Some? && slot < c.partyCount && t in env.keys
  {
    var (sc, ct) := (Contexts(env, c).value[slot], c.tally.value.encryptedSums[slot]);
    && p.Some? && p'.Some? && VerifyPartial(env.G, O', sc, ct, p', env.keys[t]) == None
    && Rewound(env.G, env.O, O', sc, ct, p.value, p'.value, env.keys[t])
  }

  /** The verification keys are those of shares f(t). */
  ghost predicate KeysHold(env: Env, f: seq<int>)
    requires env.G.q > 0
  {
    forall t :: t in env.keys ==> KeyHolds(env, f, t)
  }

  ghost predicate KeyHolds(env: Env, f: seq<int>, t: int)
    requires env.G.q > 0 && t in env.keys
  {
    Same(env.G, env.keys[t], BaseMul(env.G, Eval(f, t)))
  }

  /** Vectors that are accepted twice have the honest values, under the keys of the key generation. */
  lemma ForksAreHonest(env: Env, O': S.Oracle, c: State, task: Task, f: seq<int>, again: map<int, seq<Option<Partial>>>)
    requires Valid(env.G) && Good(env, c, task) && RewoundVectors(env, O', c, again) && KeysHold(env, f)
    ensures HonestValues(env, c, f)
  {
    hide Verified, VerifyPartial, Rewound, TallyOf, KeyHolds;
    forall k | 0 <= k < |c.trusteeOrder| && k < DECRYPTION_THRESHOLD
      ensures c.trusteeOrder[k] in c.partials
      ensures HonestVector(env, c.partials[c.trusteeOrder[k]], c.tally.value.encryptedSums, f, c.trusteeOrder[k])
    {
      var t := c.trusteeOrder[k];
      assert t in c.trusteeOrder && Verified(env, c, t) && RewoundVector(env, O', c, again, t) && KeyHolds(env, f, t);
      ForkedVectorHonest(env, O', c, f, again, t);
    }
  }

  lemma ForkedVectorHonest(env: Env, O': S.Oracle, c: State, f: seq<int>, again: map<int, seq<Option<Partial>>>, t: int)
    requires Valid(env.G) && Verified(env, c, t) && RewoundVector(env, O', c, again, t)
    requires KeyHolds(env, f, t)
    ensures HonestVector(env, c.partials[t], c.tally.value.encryptedSums, f, t)
  {
    hide VerifyPartial, Rewound, Eval;
    var sums := c.tally.value.encryptedSums;
    forall slot | 0 <= slot < c.partyCount
      ensures Same(env.G, c.partials[t][slot].value.d, Eval(f, t) * sums[slot].c1)
    {
      var (p, p') := (c.partials[t][slot], again[t][slot]);
      assert SlotVerified(env, c, t, slot) && RewoundSlot(env, O', c, p, p', t, slot);
      PartialSound(env.G, env.O, O', Contexts(env, c).value[slot], sums[slot], p.value, p'.value, env.keys[t], Eval(f, t));
    }
  }

  /** The same results without any honesty: it is enough that the first five trustees' vectors were
      accepted twice, under two hash functions with one commitment. */
  lemma ResultsFromForks(env: Env, O': S.Oracle, states: seq<System>, steps: seq<Step>, k: nat, i: nat, f: seq<int>,
                         votes: seq<seq<int>>, rands: seq<seq<int>>, again: map<int, seq<Option<Partial>>>)
    requires Valid(env.G) && Run(env, states, steps) && k < |states| && i < |states[k].all| == |states[k].tasks|
    requires KeysHold(env, f)
    requires var (c, task) := (states[k].all[i], states[k].tasks[i]);
      && Decided(c) && RewoundVectors(env, O', c, again) && Voted(env, c, task, f, votes, rands)
    ensures states[k].all[i].results == Some(TT.Counts(votes, states[k].all[i].partyCount))
    ensures FetchedBefore(steps, k, i, states[k].tasks[i].fetched)
  {
    hide RewoundVectors, Voted, TT.Counts, HonestValues, KeysHold;
    RunInvariant(env, states, steps, k);
    assert Good(env, states[k].all[i], states[k].tasks[i]);
    ForksAreHonest(env, O', states[k].all[i], states[k].tasks[i], f, again);
    ResultsAreVotes(env, states, steps, k, i, f, votes, rands);
  }
}
