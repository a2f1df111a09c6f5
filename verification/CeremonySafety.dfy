/** Safety of the decryption ceremony over every interleaving of its critical sections in one
    process, with every Save allowed to fail. */
module CeremonySafety {
  import opened Common
  import opened Decrypt
  import opened Tally
  import opened Ceremony
  import F = Feldman
  import TT = TallyTheorems

  /** Where the background tally of a ceremony stands, what it fetched and which ballots it kept. */
  datatype Task =
    | FetchPending
    | TallyPending(fetched: seq<SerializedBallot>, ballots: seq<SerializedBallot>)
    | Done(fetched: seq<SerializedBallot>, ballots: seq<SerializedBallot>)

  /** Every ceremony the process ever made, the task of each, and the one the handler points at,
      which is the newest. */
  datatype System = System(all: seq<State>, tasks: seq<Task>, current: Option<nat>)

  datatype Step =
    | Start(start: StartRequest)
    | Fetched(who: nat, fetched: Option<seq<SerializedBallot>>)
    | Computed(who: nat, result: Result<TallyResult, TallyError>)
    | Submit(submit: SubmitRequest)
    | Finalize(id: string, saved: bool)
    | ReadResults(id: string)

  const INITIAL: System := System([], [], None)

  ghost predicate WellFormed(s: System) {
    |s.all| == |s.tasks| && s.current == if s.all == [] then None else Some(|s.all| - 1)
  }

  ghost function Current(s: System): Option<State>
    requires WellFormed(s)
  {
    if s.current.None? then None else Some(s.all[s.current.value])
  }

  ghost function WithCurrent(s: System, c: Option<State>): System
    requires WellFormed(s)
  {
    if s.current.Some? && c.Some? then s.(all := s.all[s.current.value := c.value]) else s
  }

  /** A background step needs its ballots at the right place; a tally result is what ComputeTally
      answers for them. Requests are always possible. */
  ghost predicate Enabled(env: Env, s: System, step: Step)
    requires env.G.q > 0
  {
    WellFormed(s) &&
    match step
    case Fetched(i, _) => i < |s.all| && s.tasks[i].FetchPending?
    case Computed(i, r) => i < |s.all| && s.tasks[i].TallyPending? && TallyOf(env.G, s.tasks[i].ballots, r)
    case _ => true
  }

  ghost function Do(env: Env, s: System, step: Step): System
    requires env.G.q > 0 && Enabled(env, s, step)
  {
    match step
    case Start(req) =>
      if StartReply(Current(s), req).status != 202 then s
      else System(s.all + [NewState(req.id, env.electionId, req.body.value)], s.tasks + [FetchPending], Some(|s.all|))
    case Fetched(i, fetched) =>
      var c := AfterFetch(s.all[i], fetched);
      var all := if fetched.Some? then fetched.value else [];
      var ballots := ActiveBallots(all, s.all[i].activeSet);
      System(s.all[i := c], s.tasks[i := if c.phase == Tallying then TallyPending(all, ballots) else Done(all, ballots)], s.current)
    case Computed(i, r) =>
      System(s.all[i := AfterTally(s.all[i], r)], s.tasks[i := Done(s.tasks[i].fetched, s.tasks[i].ballots)], s.current)
    case Submit(req) => WithCurrent(s, AfterSubmit(env, Current(s), req).0)
    case Finalize(id, _) => WithCurrent(s, AfterFinalize(Current(s), id))
    case ReadResults(_) => s
  }

  /** The reply to a request; None for a background step. */
  ghost function ReplyTo(env: Env, s: System, step: Step): Option<Reply>
    requires env.G.q > 0 && Enabled(env, s, step)
  {
    match step
    case Start(req) => Some(StartReply(Current(s), req))
    case Submit(req) => Some(AfterSubmit(env, Current(s), req).1)
    case Finalize(id, saved) => Some(FinalizeReply(Current(s), id, saved))
    case ReadResults(id) => Some(ResultsReply(Current(s), id).0)
    case _ => None
  }

  // ----- the invariant

  /** Trustee t's stored vector is complete and every slot verifies under t's own key. */
  ghost predicate Verified(env: Env, c: State, t: int)
    requires env.G.q > 0
  {
    && t in env.keys && t in c.partials && Contexts(env, c).Some? && |c.partials[t]| == c.partyCount
    && forall slot :: 0 <= slot < c.partyCount ==> SlotVerified(env, c, t, slot)
  }

  ghost predicate SlotVerified(env: Env, c: State, t: int, slot: nat)
    requires env.G.q > 0 && t in env.keys && t in c.partials && Contexts(env, c).Some?
    requires |c.partials[t]| == c.partyCount && slot < c.partyCount
  {
    var (p, contexts, sums) := (c.partials[t][slot], Contexts(env, c).value, c.tally.value.encryptedSums);
    && p.Some? && p.value.trusteeIndex == t
    && VerifyPartial(env.G, env.O, contexts[slot], sums[slot], p, env.keys[t]) == None
  }

  ghost predicate Decided(c: State) {
    c.phase == Decrypted || c.phase == Finalized
  }

  /** One ceremony with its task. */
  ghost predicate Good(env: Env, c: State, task: Task)
    requires env.G.q > 0
  {
    && (c.phase == Fetching <==> task.FetchPending?) && (c.phase == Tallying <==> task.TallyPending?)
    && (!task.FetchPending? ==> task.ballots == ActiveBallots(task.fetched, c.activeSet))
    && NoRepeat(c.trusteeOrder) && (forall t :: t in c.trusteeOrder <==> t in c.partials)
    && (forall t :: t in c.partials ==> Verified(env, c, t))
    && (c.tally.Some? <==> c.phase == AwaitingTrustees || Decided(c))
    && (c.tally.Some? ==> task.Done? && TallyOf(env.G, task.ballots, Ok(c.tally.value)) && c.partyCount == c.tally.value.numParties)
    && (c.results.Some? <==> Decided(c))
    && (Decided(c) ==> c.results == FirstFive(env, c))
  }

  ghost predicate Inv(env: Env, s: System)
    requires env.G.q > 0
  {
    && WellFormed(s)
    && (forall i :: 0 <= i < |s.all| ==> Good(env, s.all[i], s.tasks[i]))
    && forall i :: 0 <= i < |s.all| && s.current != Some(i) ==> s.all[i].phase == ErrorPhase || s.all[i].phase == Finalized
  }

  /** What one step may do to one ceremony. */
  ghost predicate Forward(a: Phase, b: Phase) {
    match a
    case Fetching => true
    case Tallying => b != Fetching
    case AwaitingTrustees => b == AwaitingTrustees || b == Decrypted || b == Finalized
    case Decrypted => b == Decrypted || b == Finalized
    case Finalized => b == Finalized
    case ErrorPhase => b == ErrorPhase
  }

  ghost predicate KeepsTally(a: State, b: State) {
    && b.tally == a.tally && b.partyCount == a.partyCount && a.trusteeOrder <= b.trusteeOrder
    && forall t :: t in a.partials ==> t in b.partials && b.partials[t] == a.partials[t]
  }

  ghost predicate Evolves(a: State, b: State) {
    && a.id == b.id && a.electionId == b.electionId && a.activeSet == b.activeSet
    && Forward(a.phase, b.phase)
    && (a.results.Some? ==> b.results == a.results)
    && (a.tally.Some? ==> KeepsTally(a, b))
  }

  /** What any number of steps may do: ceremonies evolve, and one that has been replaced is never
      written again. */
  ghost predicate SystemEvolves(s: System, s': System) {
    && |s.all| <= |s'.all|
    && forall i :: 0 <= i < |s.all| ==> Evolves(s.all[i], s'.all[i]) && (s.current != Some(i) ==> s'.all[i] == s.all[i])
  }

  // ----- submissions

  lemma {:induction false} DecodeShape(elements: seq<Element>, t: int, pds: seq<Option<Partial>>)
    requires forall k :: 0 <= k < |pds| ==> pds[k].Some? ==> pds[k].value.trusteeIndex == t
    ensures var r := Decode(elements, t, pds);
      r.Ok? ==> |r.value| == |pds| && forall k :: 0 <= k < |pds| ==> r.value[k].Some? ==> r.value[k].value.trusteeIndex == t
    decreases |elements|
  {
    if elements != [] && ElementError(elements[0], pds) == None {
      var e := elements[0];
      DecodeShape(elements[1..], t, pds[e.partyIndex := Some(Partial(t, e.point.d, e.proof.proof))]);
    }
  }

  /** A recorded submission is verified for its own trustee, and the others stay so. */
  lemma RecordedVerified(env: Env, c: State, req: SubmitRequest, t: int)
    requires env.G.q > 0 && Refusal(env, Some(c), req) == None
    requires forall u :: u in c.partials ==> Verified(env, c, u)
    requires t in Recorded(env, c, req).partials
    ensures Verified(env, Recorded(env, c, req), t)
  {
    var c' := Recorded(env, c, req);
    var (u, elements) := req.body.value;
    assert Contexts(env, c') == Contexts(env, c);
    DecodeShape(elements, u, Blank(c.partyCount));
    if t == u {
      forall slot | 0 <= slot < c.partyCount
        ensures SlotVerified(env, c', t, slot)
      {
        assert VerifyPartial(env.G, env.O, Contexts(env, c).value[slot], c.tally.value.encryptedSums[slot], c'.partials[t][slot], env.keys[t]) == None;
      }
    } else {
      assert Verified(env, c, t);
      forall slot | 0 <= slot < c.partyCount
        ensures SlotVerified(env, c', t, slot)
      {
        assert SlotVerified(env, c, t, slot);
      }
    }
  }

  lemma RecordedGood(env: Env, c: State, task: Task, req: SubmitRequest)
    requires env.G.q > 0 && Good(env, c, task) && Refusal(env, Some(c), req) == None
    ensures Good(env, Recorded(env, c, req), task)
  {
    var c' := Recorded(env, c, req);
    forall t | t in c'.partials
      ensures Verified(env, c', t)
    {
      RecordedVerified(env, c, req, t);
    }
    assert forall t :: t in c'.trusteeOrder <==> t in c.trusteeOrder || t == req.body.value.0;
  }

  /** Decrypting changes neither what is stored nor what it verifies against. */
  lemma DecryptedGood(env: Env, c: State, task: Task)
    requires env.G.q > 0 && Good(env, c, task) && c.phase == AwaitingTrustees && FirstFive(env, c).Some?
    ensures Good(env, c.(results := FirstFive(env, c), phase := Decrypted), task)
  {
    var c' := c.(results := FirstFive(env, c), phase := Decrypted);
    SameStored(env, c, c');
  }

  lemma SameStored(env: Env, c: State, c': State)
    requires env.G.q > 0 && c'.partials == c.partials && c'.tally == c.tally && c'.partyCount == c.partyCount
    requires c'.electionId == c.electionId && c'.trusteeOrder == c.trusteeOrder
    ensures Contexts(env, c') == Contexts(env, c) && FirstFive(env, c') == FirstFive(env, c)
    ensures forall t :: Verified(env, c, t) ==> Verified(env, c', t)
  {
    assert Contexts(env, c') == Contexts(env, c);
    forall t | Verified(env, c, t)
      ensures Verified(env, c', t)
    {
      forall slot | 0 <= slot < c.partyCount
        ensures SlotVerified(env, c', t, slot)
      {
        assert SlotVerified(env, c, t, slot);
      }
    }
  }

  lemma SubmitGood(env: Env, c: State, task: Task, req: SubmitRequest)
    requires env.G.q > 0 && Good(env, c, task)
    ensures AfterSubmit(env, Some(c), req).0.Some?
    ensures Good(env, AfterSubmit(env, Some(c), req).0.value, task)
    ensures Evolves(c, AfterSubmit(env, Some(c), req).0.value)
  {
    if Refusal(env, Some(c), req) == None {
      RecordedGood(env, c, task, req);
      var c' := Recorded(env, c, req);
      if req.saved && |c'.partials| >= DECRYPTION_THRESHOLD && FirstFive(env, c').Some? {
        DecryptedGood(env, c', task);
      }
    }
  }

  lemma FinalizeGood(env: Env, c: State, task: Task, id: string)
    requires env.G.q > 0 && Good(env, c, task)
    ensures AfterFinalize(Some(c), id).Some?
    ensures Good(env, AfterFinalize(Some(c), id).value, task) && Evolves(c, AfterFinalize(Some(c), id).value)
  {
    SameStored(env, c, AfterFinalize(Some(c), id).value);
  }

  // ----- every step

  /** Every step keeps the invariant and only lets ceremonies evolve. */
  lemma StepSafe(env: Env, s: System, step: Step)
    requires env.G.q > 0 && Inv(env, s) && Enabled(env, s, step)
    ensures Inv(env, Do(env, s, step)) && SystemEvolves(s, Do(env, s, step))
  {
    match step {
      case Start(req) => StartSafe(env, s, req);
      case Fetched(i, fetched) => BackgroundSafe(env, s, step, i);
      case Computed(i, r) => BackgroundSafe(env, s, step, i);
      case Submit(req) => SubmitSafe(env, s, req);
      case Finalize(id, saved) => FinalizeSafe(env, s, id, saved);
      case ReadResults(_) => NothingSafe(s);
    }
  }

  lemma NothingSafe(s: System)
    ensures SystemEvolves(s, s)
  {
  }

  lemma BackgroundGood(env: Env, s: System, step: Step, i: nat)
    requires env.G.q > 0 && Enabled(env, s, step) && (step.Fetched? || step.Computed?) && step.who == i
    requires Good(env, s.all[i], s.tasks[i])
    ensures var s' := Do(env, s, step);
      && |s'.all| == |s.all| == |s'.tasks| && s'.current == s.current
      && (forall k :: 0 <= k < |s.all| && k != i ==> s'.all[k] == s.all[k] && s'.tasks[k] == s.tasks[k])
      && Good(env, s'.all[i], s'.tasks[i]) && Evolves(s.all[i], s'.all[i])
      && s.all[i].phase != ErrorPhase && s.all[i].phase != Finalized
  {
    hide FirstFive, Contexts;
  }

  lemma BackgroundSafe(env: Env, s: System, step: Step, i: nat)
    requires env.G.q > 0 && Inv(env, s) && Enabled(env, s, step)
    requires (step.Fetched? || step.Computed?) && step.who == i
    ensures Inv(env, Do(env, s, step)) && SystemEvolves(s, Do(env, s, step))
  {
    assert Good(env, s.all[i], s.tasks[i]);
    BackgroundGood(env, s, step, i);
    hide Do, Good, Evolves;
    UpdateSafe(env, s, Do(env, s, step), i);
  }

  lemma SubmitSafe(env: Env, s: System, req: SubmitRequest)
    requires env.G.q > 0 && Inv(env, s)
    ensures Inv(env, Do(env, s, Submit(req))) && SystemEvolves(s, Do(env, s, Submit(req)))
  {
    if s.current.Some? {
      var i := s.current.value;
      assert Good(env, s.all[i], s.tasks[i]);
      SubmitGood(env, s.all[i], s.tasks[i], req);
      hide Good, Evolves, AfterSubmit;
      UpdateSafe(env, s, Do(env, s, Submit(req)), i);
    }
  }

  lemma FinalizeSafe(env: Env, s: System, id: string, saved: bool)
    requires env.G.q > 0 && Inv(env, s)
    ensures Inv(env, Do(env, s, Finalize(id, saved))) && SystemEvolves(s, Do(env, s, Finalize(id, saved)))
  {
    if s.current.Some? {
      var i := s.current.value;
      assert Good(env, s.all[i], s.tasks[i]);
      FinalizeGood(env, s.all[i], s.tasks[i], id);
      hide Good, Evolves, AfterFinalize;
      UpdateSafe(env, s, Do(env, s, Finalize(id, saved)), i);
    }
  }

  lemma StartSafe(env: Env, s: System, req: StartRequest)
    requires env.G.q > 0 && Inv(env, s)
    ensures Inv(env, Do(env, s, Start(req))) && SystemEvolves(s, Do(env, s, Start(req)))
  {
    var s' := Do(env, s, Start(req));
    if StartReply(Current(s), req).status == 202 {
      NewGood(env, req);
      forall i | 0 <= i < |s'.all|
        ensures Good(env, s'.all[i], s'.tasks[i])
      {
        if i < |s.all| {
          assert Good(env, s.all[i], s.tasks[i]);
        }
      }
      AddedEvolves(s, s');
    } else {
      NothingSafe(s);
    }
  }

  lemma NewGood(env: Env, req: StartRequest)
    requires env.G.q > 0 && req.body.Some?
    ensures Good(env, NewState(req.id, env.electionId, req.body.value), FetchPending)
  {
  }

  lemma AddedEvolves(s: System, s': System)
    requires s.all <= s'.all
    ensures SystemEvolves(s, s')
  {
  }

  /** A step that rewrites one live or current ceremony, and keeps it good. */
  lemma UpdateSafe(env: Env, s: System, s': System, i: nat)
    requires env.G.q > 0 && Inv(env, s) && i < |s.all| == |s'.all| == |s'.tasks| && s'.current == s.current
    requires forall k :: 0 <= k < |s.all| && k != i ==> s'.all[k] == s.all[k] && s'.tasks[k] == s.tasks[k]
    requires Good(env, s'.all[i], s'.tasks[i]) && Evolves(s.all[i], s'.all[i])
    requires (s.all[i].phase != ErrorPhase && s.all[i].phase != Finalized) || s.current == Some(i)
    ensures Inv(env, s') && SystemEvolves(s, s')
  {
    assert s.current == Some(i);
    hide Verified, TallyOf, ActiveBallots, FirstFive, Evolves;
    forall k | 0 <= k < |s'.all|
      ensures Good(env, s'.all[k], s'.tasks[k])
    {
      if k != i {
        assert Good(env, s.all[k], s.tasks[k]);
      }
    }
    UpdateEvolves(s, s', i);
  }

  lemma UpdateEvolves(s: System, s': System, i: nat)
    requires i < |s.all| == |s'.all| && s.current == Some(i) && Evolves(s.all[i], s'.all[i])
    requires forall k :: 0 <= k < |s.all| && k != i ==> s'.all[k] == s.all[k]
    ensures SystemEvolves(s, s')
  {
  }

  /** The replies after which nothing has changed. A submission or a finalization that is answered
      500 has changed the ceremony. */
  predicate Unchanging(step: Step, reply: Reply) {
    match step
    case Start(_) => reply.status != 202
    case Submit(_) => 400 <= reply.status < 500 || reply.status == 503 || reply.code == "already_submitted"
    case Finalize(_, _) => 400 <= reply.status < 500
    case _ => true
  }

  /** A request leaves the whole system as it was if and only if its reply says so. */
  lemma UnchangedByReply(env: Env, s: System, step: Step)
    requires env.G.q > 0 && Enabled(env, s, step) && ReplyTo(env, s, step).Some?
    ensures Do(env, s, step) == s <==> Unchanging(step, ReplyTo(env, s, step).value)
  {
    if s.current.Some? {
      var i := s.current.value;
      assert s.all[i := s.all[i]] == s.all;
      if step.Submit? {
        SubmitChanges(env, s.all[i], step.submit);
        assert WithCurrent(s, AfterSubmit(env, Current(s), step.submit).0).all[i] == AfterSubmit(env, Current(s), step.submit).0.value;
      }
      if step.Finalize? {
        assert WithCurrent(s, AfterFinalize(Current(s), step.id)).all[i] == AfterFinalize(Current(s), step.id).value;
      }
    }
  }

  lemma SubmitChanges(env: Env, c: State, req: SubmitRequest)
    requires env.G.q > 0
    ensures var (c', reply) := AfterSubmit(env, Some(c), req);
      c'.Some? && (c'.value == c <==> Unchanging(Submit(req), reply))
  {
    var refusal := Refusal(env, Some(c), req);
    if refusal == None {
      assert req.body.value.0 in AfterSubmit(env, Some(c), req).0.value.partials;
      assert "accepted"[1] == 'c' && "already_submitted"[1] == 'l' && "state_error"[0] == 's' && "decrypt_error"[0] == 'd';
    }
  }

  // ----- runs

  ghost predicate Run(env: Env, states: seq<System>, steps: seq<Step>)
    requires env.G.q > 0
  {
    && |states| == |steps| + 1 && states[0] == INITIAL
    && forall k :: 0 <= k < |steps| ==> Steps(env, states, steps, k)
  }

  ghost predicate Steps(env: Env, states: seq<System>, steps: seq<Step>, k: nat)
    requires env.G.q > 0 && k < |steps| < |states|
  {
    Enabled(env, states[k], steps[k]) && states[k + 1] == Do(env, states[k], steps[k])
  }

  lemma {:induction false} RunInvariant(env: Env, states: seq<System>, steps: seq<Step>, k: nat)
    requires env.G.q > 0 && Run(env, states, steps) && k < |states|
    ensures Inv(env, states[k])
  {
    assert Inv(env, INITIAL);
    hide Inv, Do, Enabled, SystemEvolves;
    if k > 0 {
      RunInvariant(env, states, steps, k - 1);
      assert Steps(env, states, steps, k - 1);
      StepSafe(env, states[k - 1], steps[k - 1]);
    }
  }

  lemma RunStepEvolves(env: Env, states: seq<System>, steps: seq<Step>, k: nat)
    requires env.G.q > 0 && Run(env, states, steps) && k < |steps|
    ensures WellFormed(states[k]) && SystemEvolves(states[k], states[k + 1])
  {
    RunInvariant(env, states, steps, k);
    assert Steps(env, states, steps, k);
    StepSafe(env, states[k], steps[k]);
  }

  lemma EvolvesTransitive(a: State, b: State, c: State)
    requires Evolves(a, b) && Evolves(b, c)
    ensures Evolves(a, c)
  {
  }

  lemma SystemEvolvesTransitive(a: System, b: System, c: System)
    requires WellFormed(a) && WellFormed(b) && SystemEvolves(a, b) && SystemEvolves(b, c)
    ensures SystemEvolves(a, c)
  {
    forall i | 0 <= i < |a.all|
      ensures Evolves(a.all[i], c.all[i]) && (a.current != Some(i) ==> c.all[i] == a.all[i])
    {
      assert Evolves(a.all[i], b.all[i]) && Evolves(b.all[i], c.all[i]);
      EvolvesTransitive(a.all[i], b.all[i], c.all[i]);
    }
  }

  lemma {:induction false} RunEvolves(env: Env, states: seq<System>, steps: seq<Step>, j: nat, k: nat)
    requires env.G.q > 0 && Run(env, states, steps) && j <= k < |states|
    ensures WellFormed(states[j]) && SystemEvolves(states[j], states[k])
    decreases k
  {
    if j == k {
      RunInvariant(env, states, steps, j);
      NothingSafe(states[j]);
    } else {
      RunEvolves(env, states, steps, j, k - 1);
      RunStepEvolves(env, states, steps, k - 1);
      SystemEvolvesTransitive(states[j], states[k - 1], states[k]);
    }
  }

  /** Safety of every run: at any two moments, phases only moved forward, results never changed,
      recorded partials stayed, and a replaced ceremony was never written. */
  lemma RunSafety(env: Env, states: seq<System>, steps: seq<Step>, j: nat, k: nat)
    requires env.G.q > 0 && Run(env, states, steps) && j <= k < |states|
    ensures Inv(env, states[j]) && Inv(env, states[k]) && SystemEvolves(states[j], states[k])
  {
    RunInvariant(env, states, steps, j);
    RunInvariant(env, states, steps, k);
    RunEvolves(env, states, steps, j, k);
  }
}
