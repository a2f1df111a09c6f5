/** How every reachable ceremony came to be what it is: which request started it, what its background
    tally brought, whose submissions it holds and who finalized it. */
module CeremonyHistory {
  import opened Common
  import opened Decrypt
  import opened Tally
  import opened Ceremony
  import opened CeremonySafety
  import opened CeremonyReplies

  // ----- starts

  /** The step j created ceremony i: an accepted start on a sealed board, when the ceremony before
      had failed or was finalized. */
  ghost predicate StartedAt(env: Env, states: seq<System>, steps: seq<Step>, j: nat, i: nat, c: State)
    requires j < |steps| < |states|
  {
    && steps[j].Start? && steps[j].start.board == Sealed && steps[j].start.body.Some? && steps[j].start.body.value != []
    && |states[j].all| == i
    && (i > 0 ==> states[j].all[i - 1].phase == ErrorPhase || states[j].all[i - 1].phase == Finalized)
    && c.id == steps[j].start.id && c.electionId == env.electionId && c.activeSet == steps[j].start.body.value
  }

  /** Every ceremony of every run was started by such a step, and keeps its id, election and active set. */
  lemma {:induction false} EveryCeremonyStarted(env: Env, states: seq<System>, steps: seq<Step>, k: nat, i: nat)
    returns (j: nat)
    requires env.G.q > 0 && Run(env, states, steps) && k < |states| && i < |states[k].all|
    ensures j < k && StartedAt(env, states, steps, j, i, states[k].all[i])
    decreases k
  {
    RunInvariant(env, states, steps, k - 1);
    assert Steps(env, states, steps, k - 1);
    var (s, step) := (states[k - 1], steps[k - 1]);
    if i < |s.all| {
      j := EveryCeremonyStarted(env, states, steps, k - 1, i);
      StepSafe(env, s, step);
      assert Evolves(s.all[i], states[k].all[i]);
    } else {
      j := k - 1;
      StartExact(CeremonySafety.Current(s), step.start);
    }
  }

  /** In every reachable state a slot's context carries the election of the installation, the slot and
      the digest of the whole tally; there is none exactly when that election has no id or there is no
      tally yet. */
  lemma RunContexts(env: Env, states: seq<System>, steps: seq<Step>, k: nat, i: nat)
    requires env.G.q > 0 && Run(env, states, steps) && k < |states| && i < |states[k].all|
    ensures var c := states[k].all[i];
      && (Contexts(env, c).Some? <==> env.electionId != "" && c.tally.Some?)
      && (Contexts(env, c).Some? ==> |Contexts(env, c).value| == c.partyCount && forall slot :: 0 <= slot < c.partyCount ==>
            Contexts(env, c).value[slot]
            == SlotContext(env.electionId, slot, env.digest(c.tally.value.encryptedSums), ZERO_DIGEST, ZERO_DIGEST))
  {
    RunInvariant(env, states, steps, k);
    var j := EveryCeremonyStarted(env, states, steps, k, i);
    assert Good(env, states[k].all[i], states[k].tasks[i]);
    ContextsExact(env, states[k].all[i]);
    hide Verified, TallyOf, ActiveBallots, Contexts;
    if states[k].all[i].tally.Some? {
      TallySize(env, states[k].all[i], states[k].tasks[i]);
    }
  }

  lemma TallySize(env: Env, c: State, task: Task)
    requires env.G.q > 0 && Good(env, c, task) && c.tally.Some?
    ensures c.partyCount == |c.tally.value.encryptedSums|
  {
  }

  // ----- the background tally

  /** What the fetch of ceremony i brought before moment k; None when it is still out. */
  ghost function FetchOf(steps: seq<Step>, k: nat, i: nat): Option<Option<seq<SerializedBallot>>>
    requires k <= |steps|
  {
    if k == 0 then None
    else if steps[k - 1].Fetched? && steps[k - 1].who == i then Some(steps[k - 1].fetched)
    else FetchOf(steps, k - 1, i)
  }

  /** And its tally. */
  ghost function TallyBy(steps: seq<Step>, k: nat, i: nat): Option<Result<TallyResult, TallyError>>
    requires k <= |steps|
  {
    if k == 0 then None
    else if steps[k - 1].Computed? && steps[k - 1].who == i then Some(steps[k - 1].result)
    else TallyBy(steps, k - 1, i)
  }

  /** The fetch brought ballots of the active set. */
  ghost predicate Usable(fetched: Option<Option<seq<SerializedBallot>>>, activeSet: seq<string>) {
    fetched.Some? && fetched.value.Some? && ActiveBallots(fetched.value.value, activeSet) != []
  }

  /** What the fetch and the tally decide. */
  ghost predicate Traced(c: State, task: Task, fetched: Option<Option<seq<SerializedBallot>>>,
                         tallied: Option<Result<TallyResult, TallyError>>) {
    && (c.phase == Fetching <==> fetched.None?)
    && (c.phase == Tallying <==> Usable(fetched, c.activeSet) && tallied.None?)
    && (c.phase == ErrorPhase <==> fetched.Some? && (!Usable(fetched, c.activeSet) || (tallied.Some? && tallied.value.Err?)))
    && (tallied.Some? ==> Usable(fetched, c.activeSet))
    && (tallied.Some? && tallied.value.Ok? ==> c.tally == Some(tallied.value.value))
    && (c.tally.None? ==> c.partyCount == 0)
    && (!Usable(fetched, c.activeSet) ==> c.ballotCount == 0)
    && (Usable(fetched, c.activeSet) ==>
          var active := ActiveBallots(fetched.value.value, c.activeSet);
          c.ballotCount == |active| && !task.FetchPending? && task.ballots == active)
  }

  lemma TraceStep(env: Env, s: System, step: Step, i: nat, fetched: Option<Option<seq<SerializedBallot>>>,
                  tallied: Option<Result<TallyResult, TallyError>>)
    requires env.G.q > 0 && Inv(env, s) && Enabled(env, s, step)
    requires i < |s.all| && Traced(s.all[i], s.tasks[i], fetched, tallied)
    ensures var s' := Do(env, s, step);
      && i < |s'.all| == |s'.tasks|
      && Traced(s'.all[i], s'.tasks[i],
                if step.Fetched? && step.who == i then Some(step.fetched) else fetched,
                if step.Computed? && step.who == i then Some(step.result) else tallied)
  {
    assert Good(env, s.all[i], s.tasks[i]);
    hide Verified, TallyOf, ActiveBallots, FirstFive, Contexts, Refusal;
    StepSafe(env, s, step);
    var s' := Do(env, s, step);
    if step.Submit? || step.Finalize? {
      RequestKeeps(env, s, step, i);
    }
  }

  /** Requests do not touch what the background tally wrote. */
  lemma RequestKeeps(env: Env, s: System, step: Step, i: nat)
    requires env.G.q > 0 && Inv(env, s) && Enabled(env, s, step) && i < |s.all| && (step.Submit? || step.Finalize?)
    ensures var s' := Do(env, s, step);
      && |s'.all| == |s.all| && s'.tasks == s.tasks
      && s'.all[i].tally == s.all[i].tally && s'.all[i].ballotCount == s.all[i].ballotCount
      && s'.all[i].activeSet == s.all[i].activeSet
      && (s'.all[i].phase == s.all[i].phase
          || (s.all[i].phase == AwaitingTrustees && s'.all[i].phase == Decrypted)
          || (s.all[i].phase == Decrypted && s'.all[i].phase == Finalized))
  {
    hide Verified, TallyOf, ActiveBallots, FirstFive, Contexts, Inv;
    assert WellFormed(s) by { InvFormed(env, s); }
  }

  lemma InvFormed(env: Env, s: System)
    requires env.G.q > 0 && Inv(env, s)
    ensures WellFormed(s)
  {
  }

  lemma {:induction false} RunTraced(env: Env, states: seq<System>, steps: seq<Step>, k: nat, i: nat)
    requires env.G.q > 0 && Run(env, states, steps) && k < |states|
    ensures |states[k].all| == |states[k].tasks|
    ensures i >= |states[k].all| ==> FetchOf(steps, k, i) == None && TallyBy(steps, k, i) == None
    ensures i < |states[k].all| ==>
      Traced(states[k].all[i], states[k].tasks[i], FetchOf(steps, k, i), TallyBy(steps, k, i))
    decreases k
  {
    hide Do, Inv, Traced, Enabled;
    RunInvariant(env, states, steps, k);
    InvFormed(env, states[k]);
    if k > 0 {
      RunTraced(env, states, steps, k - 1, i);
      RunInvariant(env, states, steps, k - 1);
      assert Steps(env, states, steps, k - 1);
      var (s, step) := (states[k - 1], steps[k - 1]);
      if i < |s.all| {
        TraceStep(env, s, step, i, FetchOf(steps, k - 1, i), TallyBy(steps, k - 1, i));
      } else {
        NotYetThere(env, s, step, i);
        if i < |states[k].all| {
          FreshTraced(env, s, step, i);
        }
      }
    }
  }

  lemma NotYetThere(env: Env, s: System, step: Step, i: nat)
    requires env.G.q > 0 && Enabled(env, s, step) && i >= |s.all|
    ensures !(step.Fetched? && step.who == i) && !(step.Computed? && step.who == i)
  {
  }

  lemma FreshTraced(env: Env, s: System, step: Step, i: nat)
    requires env.G.q > 0 && Enabled(env, s, step)
    requires |s.all| == |s.tasks| <= i < |Do(env, s, step).all| == |Do(env, s, step).tasks|
    ensures Traced(Do(env, s, step).all[i], Do(env, s, step).tasks[i], None, None)
  {
  }

  /** The phase of every reachable ceremony is what happened to it: it fetches until a fetch comes in,
      tallies while that brought active ballots and no tally is in, has failed when the fetch failed,
      brought no active ballot or could not be tallied, and otherwise holds exactly the tally that was
      computed. The counts are those of the active ballots fetched and of the slots tallied. */
  lemma PhaseExact(env: Env, states: seq<System>, steps: seq<Step>, k: nat, i: nat)
    requires env.G.q > 0 && Run(env, states, steps) && k < |states| && i < |states[k].all|
    ensures var (c, fetched, tallied) := (states[k].all[i], FetchOf(steps, k, i), TallyBy(steps, k, i));
      && (c.phase == Fetching <==> fetched.None?)
      && (c.phase == Tallying <==> Usable(fetched, c.activeSet) && tallied.None?)
      && (c.phase == ErrorPhase <==> fetched.Some? && (!Usable(fetched, c.activeSet) || (tallied.Some? && tallied.value.Err?)))
      && (c.phase == AwaitingTrustees || Decided(c) <==> tallied.Some? && tallied.value.Ok?)
      && (c.tally.Some? ==> tallied == Some(Ok(c.tally.value)))
      && c.ballotCount == (if Usable(fetched, c.activeSet) then |ActiveBallots(fetched.value.value, c.activeSet)| else 0)
      && c.partyCount == (if c.tally.Some? then |c.tally.value.encryptedSums| else 0)
  {
    RunTraced(env, states, steps, k, i);
    RunInvariant(env, states, steps, k);
    assert Good(env, states[k].all[i], states[k].tasks[i]);
    hide Verified, TallyOf, ActiveBallots, FirstFive, Contexts;
  }

  // ----- submissions and finalization

  /** Step j recorded trustee t's submission for ceremony i, which was current and awaited it; v is the
      vector of its elements. */
  ghost predicate RecordedAt(env: Env, states: seq<System>, steps: seq<Step>, j: nat, i: nat, t: int, v: seq<Option<Partial>>)
    requires env.G.q > 0 && j < |steps| < |states|
  {
    && i < |states[j].all| && states[j].current == Some(i) && steps[j].Submit?
    && Recordable(env, states[j].all[i], steps[j].submit) && steps[j].submit.body.value.0 == t
    && Filled(steps[j].submit.body.value.1, t, Blank(states[j].all[i].partyCount), v)
  }

  /** Every vector that a reachable ceremony holds was submitted for it by its own trustee's request, and
      was acceptable then. */
  lemma {:induction false} EveryVectorSubmitted(env: Env, states: seq<System>, steps: seq<Step>, k: nat, i: nat, t: int)
    returns (j: nat)
    requires env.G.q > 0 && Run(env, states, steps) && k < |states| && i < |states[k].all| && t in states[k].all[i].partials
    ensures j < k && RecordedAt(env, states, steps, j, i, t, states[k].all[i].partials[t])
    decreases k
  {
    RunInvariant(env, states, steps, k - 1);
    assert Steps(env, states, steps, k - 1);
    var (s, step) := (states[k - 1], steps[k - 1]);
    PartialsStep(env, s, step, i, t);
    hide Do, Inv, Filled, Recordable, Blank, Enabled;
    if i < |s.all| && t in s.all[i].partials {
      j := EveryVectorSubmitted(env, states, steps, k - 1, i, t);
    } else {
      j := k - 1;
    }
  }

  lemma PartialsStep(env: Env, s: System, step: Step, i: nat, t: int)
    requires env.G.q > 0 && Inv(env, s) && Enabled(env, s, step)
    requires i < |Do(env, s, step).all| && t in Do(env, s, step).all[i].partials
    ensures var v := Do(env, s, step).all[i].partials[t];
      if i < |s.all| && t in s.all[i].partials then v == s.all[i].partials[t]
      else i < |s.all| && s.current == Some(i) && step.Submit? && Recordable(env, s.all[i], step.submit)
           && step.submit.body.value.0 == t
           && Filled(step.submit.body.value.1, t, Blank(s.all[i].partyCount), v)
  {
    hide Verified, TallyOf, ActiveBallots, FirstFive, Contexts, Recordable, Filled, Refusal;
    InvFormed(env, s);
    if step.Submit? && s.current == Some(i) {
      var c := s.all[i];
      SubmitPartials(env, c, step.submit, t);
    } else if step.Computed? && step.who == i {
      assert Good(env, s.all[i], s.tasks[i]);
    }
  }

  lemma SubmitPartials(env: Env, c: State, req: SubmitRequest, t: int)
    requires env.G.q > 0
    ensures AfterSubmit(env, Some(c), req).0.Some?
    ensures var c' := AfterSubmit(env, Some(c), req).0.value;
      t in c'.partials ==>
        if t in c.partials then c'.partials[t] == c.partials[t]
        else Recordable(env, c, req) && req.body.value.0 == t
             && Filled(req.body.value.1, t, Blank(c.partyCount), c'.partials[t])
  {
    RecordedIff(env, c, req);
    if Recordable(env, c, req) {
      RecordedEffect(env, c, req);
    }
    hide Filled, Refusal, FirstFive, Recorded;
  }

  /** A finalized ceremony was finalized by a request with its own id, while it was current and decrypted. */
  lemma {:induction false} EveryFinalizationAsked(env: Env, states: seq<System>, steps: seq<Step>, k: nat, i: nat)
    returns (j: nat)
    requires env.G.q > 0 && Run(env, states, steps) && k < |states|
    requires i < |states[k].all| && states[k].all[i].phase == Finalized
    ensures j < k && i < |states[j].all| && states[j].current == Some(i) && states[j].all[i].phase == Decrypted
    ensures steps[j].Finalize? && steps[j].id == states[j].all[i].id == states[k].all[i].id
    decreases k
  {
    RunInvariant(env, states, steps, k - 1);
    assert Steps(env, states, steps, k - 1);
    var (s, step) := (states[k - 1], steps[k - 1]);
    FinalizeStep(env, s, step, i);
    hide Do, Inv, Enabled;
    if s.all[i].phase == Finalized {
      j := EveryFinalizationAsked(env, states, steps, k - 1, i);
    } else {
      j := k - 1;
    }
  }

  lemma FinalizeStep(env: Env, s: System, step: Step, i: nat)
    requires env.G.q > 0 && Inv(env, s) && Enabled(env, s, step)
    requires i < |Do(env, s, step).all| && Do(env, s, step).all[i].phase == Finalized
    ensures i < |s.all| && Do(env, s, step).all[i].id == s.all[i].id
    ensures s.all[i].phase == Finalized
      || (s.current == Some(i) && s.all[i].phase == Decrypted && step.Finalize? && step.id == s.all[i].id)
  {
    hide Verified, TallyOf, ActiveBallots, FirstFive, Contexts, Refusal;
    InvFormed(env, s);
  }
}
