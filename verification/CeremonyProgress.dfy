/** When a ceremony decrypts and when it stays undecrypted, over every run; and an honest run that
    does either, depending on one save. */
module CeremonyProgress {
  import opened Common
  import opened Groups
  import opened ElGamal
  import opened Decrypt
  import opened Tally
  import opened Ceremony
  import opened CeremonySafety
  import opened CeremonyResults
  import F = Feldman
  import L = Lagrange
  import S = Sigma
  import Sc = Scalars
  import TT = TallyTheorems
  import Dkg

  // ----- exactly when a quorum stays undecrypted

  /** The step records a submission for ceremony i. */
  ghost predicate RecordsFor(env: Env, s: System, step: Step, i: nat)
    requires env.G.q > 0
  {
    WellFormed(s) && step.Submit? && s.current == Some(i) && Refusal(env, Current(s), step.submit) == None
  }

  /** Whether the last submission recorded for ceremony i was saved; None when there is none. */
  ghost function LastSaved(env: Env, states: seq<System>, steps: seq<Step>, k: nat, i: nat): Option<bool>
    requires env.G.q > 0 && k < |states| == |steps| + 1
  {
    if k == 0 then None
    else if RecordsFor(env, states[k - 1], steps[k - 1], i) then Some(steps[k - 1].submit.saved)
    else LastSaved(env, states, steps, k - 1, i)
  }

  /** What the last save and the decryption over the first five decide. */
  ghost predicate Explained(env: Env, c: State, last: Option<bool>)
    requires env.G.q > 0
  {
    && (Decided(c) ==> last == Some(true))
    && (c.phase == AwaitingTrustees && |c.trusteeOrder| >= DECRYPTION_THRESHOLD ==> last == Some(false) || FirstFive(env, c) == None)
  }

  lemma OrderSize<V>(order: seq<int>, m: map<int, V>)
    requires NoRepeat(order) && forall t :: t in order <==> t in m
    ensures |order| == |m|
  {
    MembersSize(order);
    assert (set t | t in order) == m.Keys;
  }

  lemma SubmitExplained(env: Env, c: State, task: Task, req: SubmitRequest, last: Option<bool>)
    requires env.G.q > 0 && Good(env, c, task) && Explained(env, c, last)
    ensures AfterSubmit(env, Some(c), req).0.Some?
    ensures Explained(env, AfterSubmit(env, Some(c), req).0.value,
                      if Refusal(env, Some(c), req) == None then Some(req.saved) else last)
  {
    if Refusal(env, Some(c), req) == None {
      RecordedGood(env, c, task, req);
      var c' := Recorded(env, c, req);
      hide Refusal, Verified, TallyOf;
      OrderSize(c'.trusteeOrder, c'.partials);
      if req.saved && |c'.partials| >= DECRYPTION_THRESHOLD && FirstFive(env, c') == None {
        assert AfterSubmit(env, Some(c), req).0.value == c';
      }
    }
  }

  lemma StepExplained(env: Env, s: System, step: Step, i: nat, last: Option<bool>)
    requires env.G.q > 0 && Inv(env, s) && Enabled(env, s, step) && i < |s.all| && Explained(env, s.all[i], last)
    ensures i < |Do(env, s, step).all|
    ensures Explained(env, Do(env, s, step).all[i], if RecordsFor(env, s, step, i) then Some(step.submit.saved) else last)
  {
    assert Good(env, s.all[i], s.tasks[i]);
    hide FirstFive, Verified, TallyOf, ActiveBallots, Contexts;
    match step {
      case Submit(req) =>
        if s.current == Some(i) {
          SubmitExplained(env, s.all[i], s.tasks[i], req, last);
        }
      case _ =>
    }
  }

  lemma {:induction false} RunExplained(env: Env, states: seq<System>, steps: seq<Step>, k: nat, i: nat)
    requires env.G.q > 0 && Run(env, states, steps) && k < |states| && i < |states[k].all|
    ensures Explained(env, states[k].all[i], LastSaved(env, states, steps, k, i))
    decreases k
  {
    if k > 0 {
      RunInvariant(env, states, steps, k - 1);
      assert Steps(env, states, steps, k - 1);
      if i < |states[k - 1].all| {
        RunExplained(env, states, steps, k - 1, i);
        StepExplained(env, states[k - 1], steps[k - 1], i, LastSaved(env, states, steps, k - 1, i));
      }
    }
  }

  /** A ceremony with a quorum of recorded submissions is still awaiting trustees if and only if the
      last of them was not saved, or the first five leave a plaintext beyond MaxDecrypt in some slot. */
  lemma AwaitingWithQuorum(env: Env, states: seq<System>, steps: seq<Step>, k: nat, i: nat)
    requires env.G.q > 0 && Run(env, states, steps) && k < |states| && i < |states[k].all|
    requires |states[k].all[i].trusteeOrder| >= DECRYPTION_THRESHOLD
    ensures HasQuorum(states[k].all[i])
    ensures var c := states[k].all[i];
      c.phase == AwaitingTrustees <==>
      LastSaved(env, states, steps, k, i) == Some(false)
      || exists slot :: 0 <= slot < c.partyCount && SlotPlaintexts(env, c)[slot] > MAX_DECRYPT
  {
    hide FirstFive, SlotPlaintexts, TallyOf;
    RunInvariant(env, states, steps, k);
    RunExplained(env, states, steps, k, i);
    var c := states[k].all[i];
    assert Good(env, c, states[k].tasks[i]);
    QuorumStored(env, c, states[k].tasks[i]);
    FirstFiveDecrypts(env, c, states[k].tasks[i]);
  }

  /** A saved submission that completes a quorum of honest values decrypts to the counts, unless a
      count is beyond MaxDecrypt; then it is answered 500 and the ceremony keeps awaiting. */
  lemma SavedQuorumDecrypts(env: Env, states: seq<System>, steps: seq<Step>, k: nat, i: nat, req: SubmitRequest, f: seq<int>,
                            votes: seq<seq<int>>, rands: seq<seq<int>>)
    requires Valid(env.G) && Run(env, states, steps) && k < |states| && i < |states[k].all| == |states[k].tasks|
    requires var c := states[k].all[i];
      && Refusal(env, Some(c), req) == None && req.saved && |c.trusteeOrder| + 1 >= DECRYPTION_THRESHOLD
      && HonestValues(env, Recorded(env, c, req), f) && Voted(env, c, states[k].tasks[i], f, votes, rands)
    ensures var (c, counts) := (states[k].all[i], TT.Counts(votes, states[k].all[i].partyCount));
      var recorded := Recorded(env, c, req);
      AfterSubmit(env, Some(c), req) ==
        if exists j :: 0 <= j < c.partyCount && counts[j] > MAX_DECRYPT then (Some(recorded), Reply(500, "decrypt_error"))
        else (Some(recorded.(results := Some(counts), phase := Decrypted)),
              if req.savedDecrypted then Reply(200, "accepted") else Reply(500, "decrypt_error"))
  {
    RunInvariant(env, states, steps, k);
    var (c, task) := (states[k].all[i], states[k].tasks[i]);
    assert Good(env, c, task);
    RecordedGood(env, c, task, req);
    var c' := Recorded(env, c, req);
    OrderSize(c'.trusteeOrder, c'.partials);
    FirstFiveIsCounts(env, c', task, f, votes, rands);
  }

  // ----- a ceremony that nothing can move

  /** The current ceremony awaits trustees, and every known trustee has been recorded. */
  ghost predicate Exhausted(env: Env, s: System) {
    && WellFormed(s) && s.current.Some? && Current(s).value.phase == AwaitingTrustees
    && forall t :: t in env.keys ==> t in Current(s).value.partials
  }

  lemma ExhaustedStep(env: Env, s: System, step: Step)
    requires env.G.q > 0 && Inv(env, s) && Exhausted(env, s) && Enabled(env, s, step)
    ensures Do(env, s, step) == s
  {
    var i := s.current.value;
    assert s.all[i := s.all[i]] == s.all;
    assert forall k :: 0 <= k < |s.all| ==> Good(env, s.all[k], s.tasks[k]);
  }

  /** Then no step of any continuation changes anything: no retry decrypts, and no new ceremony starts. */
  lemma {:induction false} ExhaustedForever(env: Env, states: seq<System>, steps: seq<Step>, j: nat, k: nat)
    requires env.G.q > 0 && Run(env, states, steps) && j <= k < |states| && Exhausted(env, states[j])
    ensures states[k] == states[j]
    decreases k
  {
    if j < k {
      hide Do, Exhausted, Inv, Enabled;
      ExhaustedForever(env, states, steps, j, k - 1);
      RunInvariant(env, states, steps, k - 1);
      assert Steps(env, states, steps, k - 1);
      ExhaustedStep(env, states[k - 1], steps[k - 1]);
    }
  }

  // ----- an honest run

  /** What trustee t sends: its partials in slot order. */
  ghost function Sent(id: string, t: int, v: seq<Option<Partial>>, saved: bool): SubmitRequest
    requires forall slot :: 0 <= slot < |v| ==> v[slot].Some?
  {
    SubmitRequest(id, Some((t, seq(|v|, (slot: nat) requires slot < |v| => ElementOf(slot, v[slot].value)))), saved, true)
  }

  function ElementOf(slot: nat, p: Partial): Element {
    Element(slot, Point(p.d), GoodProof(p.proof))
  }

  /** The elements of a partial are not the identity, which the wire format refuses. */
  ghost predicate Encodable(G: Group, p: Partial)
    requires G.q > 0
  {
    Sc.Red(G.q, p.d) != 0 && Sc.Red(G.q, p.proof.u) != 0 && Sc.Red(G.q, p.proof.v) != 0
  }

  lemma {:induction false} DecodeSent(elements: seq<Element>, t: int, v: seq<Option<Partial>>, j: nat, pds: seq<Option<Partial>>)
    requires j <= |v| == |elements| == |pds|
    requires forall slot :: 0 <= slot < |v| ==> v[slot].Some? && v[slot].value.trusteeIndex == t && elements[slot] == ElementOf(slot, v[slot].value)
    requires forall slot :: 0 <= slot < |v| ==> pds[slot] == if slot < j then v[slot] else None
    ensures Decode(elements[j..], t, pds) == Ok(v)
    decreases |v| - j
  {
    if j == |v| {
      assert pds == v;
    } else {
      assert elements[j..][1..] == elements[j + 1..];
      var e := elements[j];
      assert v[j] == Some(Partial(t, e.point.d, e.proof.proof));
      DecodeSent(elements, t, v, j + 1, pds[j := v[j]]);
    }
  }

  /** The ceremony with the vectors of these trustees recorded. */
  ghost function WithRecorded(c: State, vectors: map<int, seq<Option<Partial>>>, order: seq<int>): State
    requires forall t :: t in order ==> t in vectors
  {
    c.(partials := map t | t in order :: vectors[t], trusteeOrder := order)
  }

  /** Trustee t's vector is accepted and complete for the ceremony. */
  ghost predicate Ready(env: Env, c: State, vectors: map<int, seq<Option<Partial>>>, f: seq<int>, t: int)
    requires env.G.q > 0
  {
    && c.phase == AwaitingTrustees && Contexts(env, c).Some? && t in env.keys && t in vectors
    && TT.Delivered(env.G, env.O, Contexts(env, c).value, c.tally.value.encryptedSums, vectors, env.keys, f, t)
  }

  lemma ReadyVector(env: Env, c: State, vectors: map<int, seq<Option<Partial>>>, f: seq<int>, t: int)
    requires env.G.q > 0 && Ready(env, c, vectors, f, t)
    ensures |vectors[t]| == c.partyCount
    ensures forall slot :: 0 <= slot < |vectors[t]| ==> vectors[t][slot].Some? && vectors[t][slot].value.trusteeIndex == t
    ensures AllVerify(env, Contexts(env, c).value, c.tally.value.encryptedSums, vectors[t], env.keys[t])
    ensures HonestVector(env, vectors[t], c.tally.value.encryptedSums, f, t)
  {
    var (contexts, sums) := (Contexts(env, c).value, c.tally.value.encryptedSums);
    forall slot | 0 <= slot < |vectors[t]|
      ensures vectors[t][slot].Some? && vectors[t][slot].value.trusteeIndex == t
      ensures VerifyPartial(env.G, env.O, contexts[slot], sums[slot], vectors[t][slot], env.keys[t]) == None
      ensures Same(env.G, vectors[t][slot].value.d, L.Eval(f, t) * sums[slot].c1)
    {
      assert TT.DeliveredSlot(env.G, env.O, contexts[slot], sums[slot], vectors[t][slot], env.keys[t], f, t);
    }
  }

  /** The next trustee's submission is recorded. */
  lemma SentIsRecorded(env: Env, c: State, vectors: map<int, seq<Option<Partial>>>, f: seq<int>, order: seq<int>, t: int, saved: bool)
    requires env.G.q > 0 && (forall u :: u in order ==> u in vectors) && t !in order && Ready(env, c, vectors, f, t)
    ensures forall slot :: 0 <= slot < |vectors[t]| ==> vectors[t][slot].Some?
    ensures var (now, req) := (WithRecorded(c, vectors, order), Sent(c.id, t, vectors[t], saved));
      Refusal(env, Some(now), req) == None && Recorded(env, now, req) == WithRecorded(c, vectors, order + [t])
  {
    ReadyVector(env, c, vectors, f, t);
    var (now, req) := (WithRecorded(c, vectors, order), Sent(c.id, t, vectors[t], saved));
    assert Contexts(env, now) == Contexts(env, c);
    var elements := req.body.value.1;
    DecodeSent(elements, t, vectors[t], 0, Blank(c.partyCount));
    assert elements[0..] == elements;
    assert (map u | u in order + [t] :: vectors[u]) == (map u | u in order :: vectors[u])[t := vectors[t]];
  }

  lemma RunOneMore(env: Env, states: seq<System>, steps: seq<Step>, step: Step)
    requires env.G.q > 0 && Run(env, states, steps) && Enabled(env, states[|steps|], step)
    ensures Run(env, states + [Do(env, states[|steps|], step)], steps + [step])
  {
    var (states', steps') := (states + [Do(env, states[|steps|], step)], steps + [step]);
    forall k | 0 <= k < |steps'|
      ensures Steps(env, states', steps', k)
    {
      if k < |steps| {
        assert Steps(env, states, steps, k);
      }
    }
  }

  /** A start request that succeeds, and a fetch whose active ballots tally. */
  ghost predicate Prepared(env: Env, start: StartRequest, fetched: seq<SerializedBallot>, tally: TallyResult)
    requires env.G.q > 0
  {
    && start.body.Some? && start.body.value != [] && start.board.Sealed? && start.created && start.saved
    && env.electionId != "" && ActiveBallots(fetched, start.body.value) != []
    && TallyOf(env.G, ActiveBallots(fetched, start.body.value), Ok(tally))
  }

  ghost function Awaiting(env: Env, start: StartRequest, fetched: seq<SerializedBallot>, tally: TallyResult): State
    requires env.G.q > 0 && Prepared(env, start, fetched, tally)
  {
    AfterTally(AfterFetch(NewState(start.id, env.electionId, start.body.value), Some(fetched)), Ok(tally))
  }

  ghost function Only(c: State, start: StartRequest, fetched: seq<SerializedBallot>): System
    requires start.body.Some?
  {
    System([c], [Done(fetched, ActiveBallots(fetched, start.body.value))], Some(0))
  }

  lemma EmptyRun(env: Env)
    requires env.G.q > 0
    ensures Run(env, [INITIAL], [])
  {
  }

  lemma PreparedRun(env: Env, start: StartRequest, fetched: seq<SerializedBallot>, tally: TallyResult)
    returns (states: seq<System>, steps: seq<Step>)
    requires env.G.q > 0 && Prepared(env, start, fetched, tally)
    ensures Run(env, states, steps) && |steps| == 3
    ensures states[3] == Only(Awaiting(env, start, fetched, tally), start, fetched)
  {
    hide TallyOf, ActiveBallots, Run;
    states, steps := [INITIAL], [];
    assert Run(env, states, steps) by { EmptyRun(env); }
    var s0 := INITIAL;
    assert Enabled(env, s0, Start(start)) && StartReply(CeremonySafety.Current(s0), start).status == 202;
    RunOneMore(env, states, steps, Start(start));
    var s1 := Do(env, s0, Start(start));
    states, steps := states + [s1], steps + [Start(start)];
    assert s1 == System([NewState(start.id, env.electionId, start.body.value)], [FetchPending], Some(0));
    RunOneMore(env, states, steps, Fetched(0, Some(fetched)));
    var s2 := Do(env, s1, Fetched(0, Some(fetched)));
    states, steps := states + [s2], steps + [Fetched(0, Some(fetched))];
    RunOneMore(env, states, steps, Computed(0, Ok(tally)));
    states, steps := states + [Do(env, s2, Computed(0, Ok(tally)))], steps + [Computed(0, Ok(tally))];
  }

  lemma NotBefore(order: seq<int>, t: int)
    requires NoRepeat(order + [t])
    ensures t !in order
  {
    forall u | 0 <= u < |order|
      ensures order[u] != t
    {
      assert (order + [t])[u] != (order + [t])[|order|];
    }
  }

  /** The next submission of the run. */
  lemma SendNext(env: Env, start: StartRequest, fetched: seq<SerializedBallot>, c: State, vectors: map<int, seq<Option<Partial>>>,
                 f: seq<int>, order: seq<int>, t: int, saved: bool, states: seq<System>, steps: seq<Step>)
    returns (states': seq<System>, steps': seq<Step>)
    requires env.G.q > 0 && start.body.Some? && Run(env, states, steps) && NoRepeat(order + [t])
    requires (forall u :: u in order ==> u in vectors) && Ready(env, c, vectors, f, t)
    requires states[|steps|] == Only(WithRecorded(c, vectors, order), start, fetched)
    requires saved ==> |order| + 1 < DECRYPTION_THRESHOLD
    ensures Run(env, states', steps') && |steps'| == |steps| + 1
    ensures states'[|steps'|] == Only(WithRecorded(c, vectors, order + [t]), start, fetched)
  {
    var (now, next) := (WithRecorded(c, vectors, order), WithRecorded(c, vectors, order + [t]));
    NotBefore(order, t);
    SentIsRecorded(env, c, vectors, f, order, t, saved);
    var req := Sent(c.id, t, vectors[t], saved);
    OrderSize(order + [t], next.partials);
    assert AfterSubmit(env, Some(now), req).0 == Some(next);
    states', steps' := Submitted(env, start, fetched, states, steps, now, req);
  }

  /** All but the last of the ready trustees send their vectors to a ceremony without any. */
  lemma AllButLastSent(env: Env, start: StartRequest, fetched: seq<SerializedBallot>, c: State,
                       vectors: map<int, seq<Option<Partial>>>, f: seq<int>, trustees: seq<int>, before: seq<System>,
                       did: seq<Step>)
    returns (states: seq<System>, steps: seq<Step>)
    requires env.G.q > 0 && start.body.Some? && |trustees| == DECRYPTION_THRESHOLD && NoRepeat(trustees)
    requires c.partials == map[] && c.trusteeOrder == [] && Run(env, before, did) && before[|did|] == Only(c, start, fetched)
    requires forall t :: t in trustees ==> t in vectors && Ready(env, c, vectors, f, t)
    ensures Run(env, states, steps) && |steps| == |did| + 4
    ensures states[|steps|] == Only(WithRecorded(c, vectors, trustees[..4]), start, fetched)
  {
    states, steps := before, did;
    assert WithRecorded(c, vectors, trustees[..0]) == c;
    hide Ready, WithRecorded, Only, Steps;
    for j := 0 to 4
      invariant Run(env, states, steps) && |steps| == |did| + j
      invariant states[|steps|] == Only(WithRecorded(c, vectors, trustees[..j]), start, fetched)
    {
      assert trustees[..j + 1] == trustees[..j] + [trustees[j]];
      states, steps := SendNext(env, start, fetched, c, vectors, f, trustees[..j], trustees[j], true, states, steps);
    }
  }

  /** Four of five ready trustees have been recorded. */
  lemma FourSent(env: Env, start: StartRequest, fetched: seq<SerializedBallot>, tally: TallyResult,
                 vectors: map<int, seq<Option<Partial>>>, f: seq<int>, trustees: seq<int>)
    returns (states: seq<System>, steps: seq<Step>)
    requires env.G.q > 0 && Prepared(env, start, fetched, tally) && |trustees| == DECRYPTION_THRESHOLD && NoRepeat(trustees)
    requires forall t :: t in trustees ==> Ready(env, Awaiting(env, start, fetched, tally), vectors, f, t)
    ensures Run(env, states, steps) && |steps| == 7 && forall t :: t in trustees ==> t in vectors
    ensures states[7] == Only(WithRecorded(Awaiting(env, start, fetched, tally), vectors, trustees[..4]), start, fetched)
  {
    var c := Awaiting(env, start, fetched, tally);
    states, steps := PreparedRun(env, start, fetched, tally);
    assert forall t :: t in trustees ==> Ready(env, c, vectors, f, t) && t in vectors;
    hide Run, Only, WithRecorded, TallyOf, ActiveBallots;
    states, steps := AllButLastSent(env, start, fetched, c, vectors, f, trustees, states, steps);
  }

  /** A run that gets stuck: the fifth submission is recorded but its save fails. When there are no
      other trustees, nothing moves the ceremony any more. */
  lemma StuckRun(env: Env, start: StartRequest, fetched: seq<SerializedBallot>, tally: TallyResult,
                 vectors: map<int, seq<Option<Partial>>>, f: seq<int>, trustees: seq<int>)
    returns (states: seq<System>, steps: seq<Step>)
    requires env.G.q > 0 && Prepared(env, start, fetched, tally) && |trustees| == DECRYPTION_THRESHOLD && NoRepeat(trustees)
    requires forall t :: t in trustees ==> Ready(env, Awaiting(env, start, fetched, tally), vectors, f, t)
    ensures Run(env, states, steps) && |steps| == 8 && states[8].current == Some(0) && |states[8].all| == 1
    ensures states[8].all[0].phase == AwaitingTrustees && states[8].all[0].trusteeOrder == trustees
    ensures (forall t :: t in env.keys ==> t in trustees) ==> Exhausted(env, states[8])
  {
    states, steps := FourSent(env, start, fetched, tally, vectors, f, trustees);
    assert trustees == trustees[..4] + [trustees[4]];
    states, steps := SendNext(env, start, fetched, Awaiting(env, start, fetched, tally), vectors, f, trustees[..4], trustees[4],
                              false, states, steps);
  }

  /** The same run with that save succeeding ends with the counts. */
  lemma DecryptedRun(env: Env, start: StartRequest, fetched: seq<SerializedBallot>, tally: TallyResult,
                     vectors: map<int, seq<Option<Partial>>>, f: seq<int>, trustees: seq<int>,
                     votes: seq<seq<int>>, rands: seq<seq<int>>)
    returns (states: seq<System>, steps: seq<Step>)
    requires Valid(env.G) && Prepared(env, start, fetched, tally) && |trustees| == DECRYPTION_THRESHOLD && NoRepeat(trustees)
    requires var c := Awaiting(env, start, fetched, tally);
      && (forall t :: t in trustees ==> Ready(env, c, vectors, f, t))
      && Voted(env, c, Done(fetched, ActiveBallots(fetched, c.activeSet)), f, votes, rands)
      && forall j :: 0 <= j < c.partyCount ==> TT.Counts(votes, c.partyCount)[j] <= MAX_DECRYPT
    ensures Run(env, states, steps) && |steps| == 8 && |states[8].all| == 1
    ensures states[8].all[0].phase == Decrypted && states[8].all[0].results == Some(TT.Counts(votes, tally.numParties))
  {
    var c := Awaiting(env, start, fetched, tally);
    states, steps := FourSent(env, start, fetched, tally, vectors, f, trustees);
    var req := FifthDecrypts(env, start, fetched, c, vectors, f, trustees, votes, rands, states, steps);
    hide Ready, Awaiting, Prepared, Voted, AfterSubmit, Run;
    states, steps := Submitted(env, start, fetched, states, steps, WithRecorded(c, vectors, trustees[..4]), req);
  }

  /** A run with one more submission to its only ceremony. */
  lemma Submitted(env: Env, start: StartRequest, fetched: seq<SerializedBallot>, states: seq<System>, steps: seq<Step>,
                  now: State, req: SubmitRequest)
    returns (states': seq<System>, steps': seq<Step>)
    requires env.G.q > 0 && start.body.Some? && Run(env, states, steps) && states[|steps|] == Only(now, start, fetched)
    ensures AfterSubmit(env, Some(now), req).0.Some?
    ensures Run(env, states', steps') && |steps'| == |steps| + 1
    ensures states'[|steps'|] == Only(AfterSubmit(env, Some(now), req).0.value, start, fetched)
  {
    RunOneMore(env, states, steps, Submit(req));
    hide AfterSubmit, Run;
    states', steps' := states + [Do(env, states[|steps|], Submit(req))], steps + [Submit(req)];
  }

  lemma FifthDecrypts(env: Env, start: StartRequest, fetched: seq<SerializedBallot>, c: State,
                      vectors: map<int, seq<Option<Partial>>>, f: seq<int>, trustees: seq<int>,
                      votes: seq<seq<int>>, rands: seq<seq<int>>, states: seq<System>, steps: seq<Step>)
    returns (req: SubmitRequest)
    requires Valid(env.G) && start.body.Some? && Run(env, states, steps)
    requires |trustees| == DECRYPTION_THRESHOLD && NoRepeat(trustees)
    requires forall t :: t in trustees ==> t in vectors && Ready(env, c, vectors, f, t)
    requires c.activeSet == start.body.value && Voted(env, c, Done(fetched, ActiveBallots(fetched, c.activeSet)), f, votes, rands)
    requires forall j :: 0 <= j < c.partyCount ==> TT.Counts(votes, c.partyCount)[j] <= MAX_DECRYPT
    requires states[|steps|] == Only(WithRecorded(c, vectors, trustees[..4]), start, fetched)
    ensures AfterSubmit(env, Some(WithRecorded(c, vectors, trustees[..4])), req).0 ==
      Some(WithRecorded(c, vectors, trustees).(results := Some(TT.Counts(votes, c.partyCount)), phase := Decrypted))
  {
    var (order, t) := (trustees[..4], trustees[4]);
    assert trustees == order + [t];
    NotBefore(order, t);
    SentIsRecorded(env, c, vectors, f, order, t, true);
    req := Sent(c.id, t, vectors[t], true);
    AllHonest(env, c, vectors, f, trustees);
    hide Refusal, Ready, Contexts, HonestValues;
    SavedQuorumDecrypts(env, states, steps, |steps|, 0, req, f, votes, rands);
  }

  lemma AllHonest(env: Env, c: State, vectors: map<int, seq<Option<Partial>>>, f: seq<int>, trustees: seq<int>)
    requires env.G.q > 0 && trustees != [] && forall t :: t in trustees ==> t in vectors && Ready(env, c, vectors, f, t)
    ensures HonestValues(env, WithRecorded(c, vectors, trustees), f)
  {
    assert Ready(env, c, vectors, f, trustees[0]);
    forall t | t in trustees
      ensures HonestVector(env, vectors[t], c.tally.value.encryptedSums, f, t)
    {
      ReadyVector(env, c, vectors, f, t);
    }
  }

  // ----- honest trustees are ready

  /** A participant of the key generation that decrypts honestly is ready. */
  lemma HonestIsReady(env: Env, c: State, r: Dkg.DkgResult, f: seq<int>, t: int, coins: nat -> int,
                      vectors: map<int, seq<Option<Partial>>>)
    requires Valid(env.G) && Dkg.SharesOf(env.G, r, f) && 1 <= t <= |r.participants| && F.CheckIndex(t)
    requires c.phase == AwaitingTrustees && Contexts(env, c).Some?
    requires t in env.keys && env.keys[t] == r.participants[t - 1].verificationKey && t in vectors
    requires vectors[t] == TT.HonestVector(env.G, env.O, Contexts(env, c).value, c.tally.value.encryptedSums, r.participants[t - 1], coins)
    ensures Ready(env, c, vectors, f, t)
  {
    TT.HonestVectorDelivers(env.G, env.O, Contexts(env, c).value, c.tally.value.encryptedSums, r, f, t, coins, vectors, env.keys);
  }

  /** And the wire format carries what it sends, unless a share, a coin or a sum is zero. */
  lemma HonestIsEncodable(G: Group, O: S.Oracle, sc: SlotContext, p: Dkg.Participant, ct: Ciphertext, k: int)
    requires Valid(G) && F.CheckIndex(p.id) && sc.electionId != ""
    requires Sc.Red(G.q, p.combinedShare) != 0 && Sc.Red(G.q, k) != 0 && Sc.Red(G.q, ct.c1) != 0
    ensures PartialDecrypt(G, O, sc, p.id, p.combinedShare, ct, k).Ok?
    ensures Encodable(G, PartialDecrypt(G, O, sc, p.id, p.combinedShare, ct, k).value)
  {
    NonZeroProduct(G.q, p.combinedShare, ct.c1);
    NonZeroProduct(G.q, k, G.g);
    NonZeroProduct(G.q, k, ct.c1);
    Sc.RedAgain(G.q, p.combinedShare * ct.c1);
    Sc.RedAgain(G.q, k * G.g);
    Sc.RedAgain(G.q, k * ct.c1);
  }

  lemma NonZeroProduct(q: nat, a: int, b: int)
    requires Sc.Prime(q) && Sc.Red(q, a) != 0 && Sc.Red(q, b) != 0
    ensures Sc.Red(q, a * b) != 0
  {
    Sc.NonZeroIsUnit(q, a);
    Sc.NonZeroIsUnit(q, b);
    Sc.UnitProduct(q, a, b);
    Sc.UnitNonZero(q, a * b);
  }
}
