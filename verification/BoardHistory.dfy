/** What a board's past says about its answers: exactly when it is sealed, across restarts and lost
    replies, and the answer to every append. */
module BoardHistory {
  import opened Rfc9162
  import opened Board
  import opened BoardSafety

  /** The stored flag was set by a seal before moment k. */
  ghost predicate SealStored(steps: seq<Step>, k: nat) {
    exists j :: 0 <= j < k && j < |steps| && SealsRow(steps, j)
  }

  ghost predicate SealsRow(steps: seq<Step>, j: nat)
    requires j < |steps|
  {
    steps[j].Seal? && !steps[j].fault.Refused?
  }

  /** A seal succeeded before moment k, or one that reached the database was followed by a restart. */
  ghost predicate SealKnown(steps: seq<Step>, k: nat) {
    exists j :: 0 <= j < k && j < |steps| && SealsMemory(steps, j, k)
  }

  ghost predicate SealsMemory(steps: seq<Step>, j: nat, k: nat)
    requires j < |steps|
  {
    SealsRow(steps, j) && (steps[j].fault.Works? || exists i :: j < i < k && i < |steps| && steps[i].Restart?)
  }

  /** The board is sealed, in the database and in memory, exactly when its history says so. */
  lemma {:induction false} SealedExactly(H: Hasher, validate: Validator, states: seq<State>, steps: seq<Step>, k: nat)
    requires Run(H, validate, states, steps) && k < |states|
    ensures states[k].sealedRow <==> SealStored(steps, k)
    ensures states[k].sealed <==> SealKnown(steps, k)
  {
    hide Head, Insert, Leaves;
    if k > 0 {
      SealedExactly(H, validate, states, steps, k - 1);
      assert Steps(H, validate, states, steps, k - 1);
      StoredStep(steps, k - 1);
      KnownStep(steps, k - 1);
      FlagsStep(H, validate, states[k - 1], steps[k - 1]);
    }
  }

  lemma FlagsStep(H: Hasher, validate: Validator, s: State, step: Step)
    requires step.Append? ==> |step.attempts| == MAX_RETRIES
    ensures var s' := Do(H, validate, s, step);
      && s'.sealedRow == (s.sealedRow || (step.Seal? && !step.fault.Refused?))
      && s'.sealed == if step.Restart? then s.sealedRow else s.sealed || step == Seal(Works)
  {
    hide Insert, Head, Leaves;
  }

  lemma StoredStep(steps: seq<Step>, k: nat)
    requires k < |steps|
    ensures SealStored(steps, k + 1) <==> SealStored(steps, k) || SealsRow(steps, k)
  {
    if j :| 0 <= j < k + 1 && j < |steps| && SealsRow(steps, j) {
      assert j < k || SealsRow(steps, k);
    }
  }

  lemma KnownStep(steps: seq<Step>, k: nat)
    requires k < |steps|
    ensures SealKnown(steps, k + 1) <==>
      if steps[k].Restart? then SealStored(steps, k) else SealKnown(steps, k) || steps[k] == Seal(Works)
  {
    if steps[k].Restart? {
      if j :| 0 <= j < k && j < |steps| && SealsRow(steps, j) {
        assert SealsMemory(steps, j, k + 1);
      }
    } else {
      if j :| 0 <= j < k && j < |steps| && SealsMemory(steps, j, k) {
        assert SealsMemory(steps, j, k + 1);
      }
      if steps[k] == Seal(Works) {
        assert SealsMemory(steps, k, k + 1);
      }
      var n := k + 1;
      if SealKnown(steps, n) {
        var j :| 0 <= j < n && j < |steps| && SealsMemory(steps, j, n);
        if j < k && !steps[j].fault.Works? {
          var i :| j < i < k + 1 && i < |steps| && steps[i].Restart?;
          assert i != k;
        }
        assert j < k ==> SealsMemory(steps, j, k);
      }
    }
  }

  /** The validator, if there is one, accepts the ballot. */
  predicate Accepts(validate: Validator, r: Record) {
    validate.None? || validate.value(r.encrypted, r.proofs)
  }

  /** With one writer, the answer to an append is decided by the history and the ballot: sealed, an
      invalid proof, a failing database, a known id, or the next position with the new head. A position
      conflict is never reported. */
  lemma AppendAnswer(H: Hasher, validate: Validator, states: seq<State>, steps: seq<Step>, k: nat, r: Record,
                     attempts: seq<Attempt>)
    requires Run(H, validate, states, steps) && SingleWriter(steps) && k < |states|
    requires |attempts| == MAX_RETRIES && attempts[0].meanwhile == map[]
    ensures var (s, reply) := (states[k], AfterAppend(H, validate, states[k], r, attempts).1);
      var reached := !SealKnown(steps, k) && Accepts(validate, r);
      var works := !attempts[0].maxFails && !attempts[0].insert.Refused?;
      && (reply == BoardSealed <==> SealKnown(steps, k))
      && (reply == ProofsInvalid <==> !SealKnown(steps, k) && !Accepts(validate, r))
      && (reply == Duplicate <==> reached && works && Taken(s.table, r.id))
      && (reply == StoreFailed <==> reached && (!works || (!Taken(s.table, r.id) && attempts[0].insert.ReplyLost?)))
      && (reply.Appended? <==> reached && works && !Taken(s.table, r.id) && attempts[0].insert.Works?)
      && (reply.Appended? ==> reply == Appended(|s.table| + 1, Head(H, s.leaves + [H.leaf(EncodeLeaf(r))])))
  {
    SealedExactly(H, validate, states, steps, k);
    RunTable(H, validate, states, steps, k);
    InsertOutcome(states[k].table, r, attempts);
    hide Insert, Head, EncodeLeaf, Taken, Dense, UniqueIds, SealKnown;
  }

  /** In particular a board that was never sealed takes valid new ballots after any restart. */
  lemma UnsealedAccepts(H: Hasher, validate: Validator, states: seq<State>, steps: seq<Step>, k: nat, r: Record,
                        attempts: seq<Attempt>)
    requires Run(H, validate, states, steps) && SingleWriter(steps) && 0 < k < |states| && steps[k - 1].Restart?
    requires forall j :: 0 <= j < k ==> !steps[j].Seal?
    requires Accepts(validate, r) && !Taken(states[k].table, r.id)
    requires |attempts| == MAX_RETRIES && attempts[0] == Attempt(false, map[], Works)
    ensures AfterAppend(H, validate, states[k], r, attempts).1.Appended?
  {
    AppendAnswer(H, validate, states, steps, k, r, attempts);
  }
}
