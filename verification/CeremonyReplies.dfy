/** What the handler answers, with every condition written out: when a ceremony starts, which
    submissions are recorded, and who gets to see which results. */
module CeremonyReplies {
  import opened Common
  import opened Groups
  import opened Decrypt
  import opened Tally
  import opened Ceremony
  import opened CeremonySafety
  import opened CeremonyResults
  import TT = TallyTheorems

  // ----- start

  ghost predicate Busy(current: Option<State>) {
    current.Some? && current.value.phase != ErrorPhase && current.value.phase != Finalized
  }

  /** A start is accepted exactly for a non-empty active set, with no ceremony in progress, on a board
      that was reached and is sealed, and when the state could be created and saved; and which answer
      the first failing check gives. */
  lemma StartExact(current: Option<State>, req: StartRequest)
    ensures var reply := StartReply(current, req);
      && (reply == Reply(202, "") <==>
            req.body.Some? && req.body.value != [] && !Busy(current) && req.board.Sealed? && req.created && req.saved)
      && (reply == Reply(400, "invalid_body") <==> req.body.None?)
      && (reply == Reply(400, "empty_active_set") <==> req.body == Some([]))
      && (reply == Reply(409, "ceremony_in_progress") <==> req.body.Some? && req.body.value != [] && Busy(current))
      && (req.body.Some? && req.body.value != [] && !Busy(current) ==>
            && (reply == Reply(502, "bb_unavailable") <==> req.board.Unreachable?)
            && (reply == Reply(409, "board_not_sealed") <==> req.board.NotSealed?)
            && (reply == Reply(500, "state_error") <==> req.board.Sealed? && !(req.created && req.saved)))
  {
    assert "ceremony_in_progress"[0] != "board_not_sealed"[0] && "invalid_body"[0] != "empty_active_set"[0];
  }

  // ----- submissions

  predicate GoodElement(e: Element) {
    e.point.Point? && e.proof.GoodProof?
  }

  function PartialOf(t: int, e: Element): Partial
    requires GoodElement(e)
  {
    Partial(t, e.point.d, e.proof.proof)
  }

  /** No two elements name one party. */
  ghost predicate DifferentParties(elements: seq<Element>) {
    forall i, j :: 0 <= i < j < |elements| ==> elements[i].partyIndex != elements[j].partyIndex
  }

  ghost predicate FreeFor(e: Element, pds: seq<Option<Partial>>) {
    0 <= e.partyIndex < |pds| && pds[e.partyIndex].None?
  }

  /** The vector after the elements: each at its party's place, the others as before. */
  ghost predicate Filled(elements: seq<Element>, t: int, pds: seq<Option<Partial>>, v: seq<Option<Partial>>) {
    && |v| == |pds|
    && (forall i :: 0 <= i < |elements| ==> GoodElement(elements[i]) && 0 <= elements[i].partyIndex < |v|
                                            && v[elements[i].partyIndex] == Some(PartialOf(t, elements[i])))
    && forall slot :: 0 <= slot < |v| && (forall i :: 0 <= i < |elements| ==> elements[i].partyIndex != slot) ==>
         v[slot] == pds[slot]
  }

  /** Decoding succeeds exactly for good elements that name different free parties. */
  lemma {:induction false} DecodeExact(elements: seq<Element>, t: int, pds: seq<Option<Partial>>)
    ensures Decode(elements, t, pds).Ok? <==>
      && DifferentParties(elements)
      && forall i :: 0 <= i < |elements| ==> GoodElement(elements[i]) && FreeFor(elements[i], pds)
    ensures Decode(elements, t, pds).Ok? ==> Filled(elements, t, pds, Decode(elements, t, pds).value)
    decreases |elements|
  {
    if elements != [] {
      var (e, rest) := (elements[0], elements[1..]);
      if GoodElement(e) && FreeFor(e, pds) {
        var next := pds[e.partyIndex := Some(PartialOf(t, e))];
        DecodeExact(rest, t, next);
        FreeStep(elements, t, pds);
        if Decode(rest, t, next).Ok? {
          FilledStep(elements, t, pds, Decode(rest, t, next).value);
        }
      }
    }
  }

  lemma FreeStep(elements: seq<Element>, t: int, pds: seq<Option<Partial>>)
    requires elements != [] && GoodElement(elements[0]) && FreeFor(elements[0], pds)
    ensures var (rest, next) := (elements[1..], pds[elements[0].partyIndex := Some(PartialOf(t, elements[0]))]);
      (DifferentParties(elements) && forall i :: 0 <= i < |elements| ==> GoodElement(elements[i]) && FreeFor(elements[i], pds))
      <==> DifferentParties(rest) && forall i :: 0 <= i < |rest| ==> GoodElement(rest[i]) && FreeFor(rest[i], next)
  {
    var (rest, next) := (elements[1..], pds[elements[0].partyIndex := Some(PartialOf(t, elements[0]))]);
    assert forall i :: 0 <= i < |rest| ==> rest[i] == elements[i + 1];
    if DifferentParties(rest) && forall i :: 0 <= i < |rest| ==> GoodElement(rest[i]) && FreeFor(rest[i], next) {
      forall i | 0 <= i < |elements|
        ensures GoodElement(elements[i]) && FreeFor(elements[i], pds)
        ensures i > 0 ==> elements[i].partyIndex != elements[0].partyIndex
      {
        if i > 0 {
          assert elements[i] == rest[i - 1];
        }
      }
      forall i, j | 0 <= i < j < |elements|
        ensures elements[i].partyIndex != elements[j].partyIndex
      {
        if i > 0 {
          assert elements[i] == rest[i - 1] && elements[j] == rest[j - 1];
        }
      }
    }
  }

  lemma FilledStep(elements: seq<Element>, t: int, pds: seq<Option<Partial>>, v: seq<Option<Partial>>)
    requires elements != [] && GoodElement(elements[0]) && FreeFor(elements[0], pds) && DifferentParties(elements)
    requires Filled(elements[1..], t, pds[elements[0].partyIndex := Some(PartialOf(t, elements[0]))], v)
    ensures Filled(elements, t, pds, v)
  {
    var (rest, next) := (elements[1..], pds[elements[0].partyIndex := Some(PartialOf(t, elements[0]))]);
    var first := elements[0].partyIndex;
    assert forall i :: 0 <= i < |rest| ==> rest[i] == elements[i + 1];
    assert v[first] == next[first];
    forall i | 0 <= i < |elements|
      ensures GoodElement(elements[i]) && 0 <= elements[i].partyIndex < |v|
      ensures v[elements[i].partyIndex] == Some(PartialOf(t, elements[i]))
    {
      if i > 0 {
        assert elements[i] == rest[i - 1];
      }
    }
    forall slot | 0 <= slot < |v| && forall i :: 0 <= i < |elements| ==> elements[i].partyIndex != slot
      ensures v[slot] == pds[slot]
    {
      assert elements[0].partyIndex != slot;
      assert next[slot] == pds[slot];
    }
  }

  /** Why an element is refused. */
  lemma ElementErrorExact(e: Element, pds: seq<Option<Partial>>)
    ensures var (code, inside) := (ElementError(e, pds), 0 <= e.partyIndex < |pds|);
      && (code == None <==> FreeFor(e, pds) && GoodElement(e))
      && (code == Some("invalid_party_index") <==> !inside)
      && (code == Some("duplicate_party_index") <==> inside && pds[e.partyIndex].Some?)
      && (code == Some("invalid_hex") <==> FreeFor(e, pds) && e.point.BadHex?)
      && (code == Some("invalid_point_length") <==> FreeFor(e, pds) && e.point.BadLength?)
      && (code == Some("invalid_point") <==> FreeFor(e, pds) && e.point.BadPoint?)
      && (code == Some("invalid_proof_encoding") <==> FreeFor(e, pds) && e.point.Point? && !e.proof.GoodProof?)
  {
    assert "invalid_hex"[8] == 'h' && "invalid_party_index"[9] == 'a';
    assert "invalid_point"[9] == 'o' && "invalid_proof_encoding"[9] == 'r';
    assert "invalid_party_index"[8] == 'p' && |"invalid_point"| == 13 && |"invalid_point_length"| == 20;
  }

  /** The first element that cannot be placed decides the code. */
  lemma {:induction false} DecodeCode(elements: seq<Element>, t: int, pds: seq<Option<Partial>>) returns (first: nat)
    requires Decode(elements, t, pds).Err?
    ensures first < |elements| && Decode(elements[..first], t, pds).Ok?
    ensures ElementError(elements[first], Decode(elements[..first], t, pds).value) == Some(Decode(elements, t, pds).error)
    decreases |elements|
  {
    var e := elements[0];
    if ElementError(e, pds).Some? {
      first := 0;
      assert elements[..0] == [];
    } else {
      var next := pds[e.partyIndex := Some(Partial(t, e.point.d, e.proof.proof))];
      var f := DecodeCode(elements[1..], t, next);
      first := f + 1;
      assert elements[..first][1..] == elements[1..][..f] && elements[first] == elements[1..][f];
    }
  }

  /** What makes a submission for the ceremony c acceptable: its id, phase and trustee, and one good,
      verified element for every slot. */
  ghost predicate Recordable(env: Env, c: State, req: SubmitRequest)
    requires env.G.q > 0
  {
    && req.body.Some? && req.id == c.id && c.phase == AwaitingTrustees
    && c.electionId != "" && c.tally.Some? && |c.tally.value.encryptedSums| == c.partyCount
    && var (t, elements) := req.body.value;
    && t in env.keys && t !in c.partials && |elements| == c.partyCount && DifferentParties(elements)
    && forall i :: 0 <= i < |elements| ==> ElementVerifies(env, c, t, elements[i])
  }

  /** The context of a slot: the election of the ceremony, the slot and the digest of the whole tally. */
  function ContextOf(env: Env, c: State, slot: nat): SlotContext
    requires c.tally.Some?
  {
    SlotContext(c.electionId, slot, env.digest(c.tally.value.encryptedSums), ZERO_DIGEST, ZERO_DIGEST)
  }

  ghost predicate ElementVerifies(env: Env, c: State, t: int, e: Element)
    requires env.G.q > 0 && c.tally.Some? && t in env.keys
  {
    var sums := c.tally.value.encryptedSums;
    && GoodElement(e) && 0 <= e.partyIndex < |sums|
    && VerifyPartial(env.G, env.O, ContextOf(env, c, e.partyIndex), sums[e.partyIndex], Some(PartialOf(t, e)), env.keys[t])
       == None
  }

  lemma ContextsExact(env: Env, c: State)
    ensures Contexts(env, c).Some? <==> c.electionId != "" && c.tally.Some? && |c.tally.value.encryptedSums| == c.partyCount
    ensures Contexts(env, c).Some? ==>
      && |Contexts(env, c).value| == c.partyCount
      && forall slot :: 0 <= slot < c.partyCount ==> Contexts(env, c).value[slot] == ContextOf(env, c, slot)
  {
  }

  /** n different numbers below n are all of them. */
  lemma AllSlots(elements: seq<Element>, n: nat, slot: nat)
    requires DifferentParties(elements) && |elements| == n && slot < n
    requires forall i :: 0 <= i < |elements| ==> 0 <= elements[i].partyIndex < n
    ensures exists i :: 0 <= i < |elements| && elements[i].partyIndex == slot
  {
    var xs := seq(n, (i: nat) requires i < n => elements[i].partyIndex);
    MembersSize(xs);
    var members := set x | x in xs;
    if slot !in members {
      assert members <= Below(n) - {slot};
      SubsetSize(members, Below(n) - {slot});
    } else {
      var i :| 0 <= i < n && xs[i] == slot;
    }
  }

  function Below(n: nat): (s: set<int>)
    ensures |s| == n && forall x :: x in s <==> 0 <= x < n
  {
    if n == 0 then {} else Below(n - 1) + {n - 1}
  }

  lemma SubsetSize(a: set<int>, b: set<int>)
    requires a <= b
    ensures |a| <= |b|
  {
    assert b == a + (b - a);
  }

  /** A submission is recorded if and only if it is acceptable, whatever else it carries. */
  lemma RecordedIff(env: Env, c: State, req: SubmitRequest)
    requires env.G.q > 0
    ensures Refusal(env, Some(c), req) == None <==> Recordable(env, c, req)
  {
    ContextsExact(env, c);
    if req.body.Some? && |req.body.value.1| == c.partyCount {
      var (t, elements) := req.body.value;
      DecodeExact(elements, t, Blank(c.partyCount));
      if Contexts(env, c).Some? && t in env.keys && Decode(elements, t, Blank(c.partyCount)).Ok? {
        VerifiedIff(env, c, t, elements);
      }
      hide AllVerify, VerifyPartial, Decode, Contexts;
    }
  }

  lemma VerifiedIff(env: Env, c: State, t: int, elements: seq<Element>)
    requires env.G.q > 0 && Contexts(env, c).Some? && t in env.keys && |elements| == c.partyCount
    requires Decode(elements, t, Blank(c.partyCount)).Ok?
    ensures AllVerify(env, Contexts(env, c).value, c.tally.value.encryptedSums,
                      Decode(elements, t, Blank(c.partyCount)).value, env.keys[t])
      <==> forall i :: 0 <= i < |elements| ==> ElementVerifies(env, c, t, elements[i])
  {
    var v := Decode(elements, t, Blank(c.partyCount)).value;
    var (contexts, sums) := (Contexts(env, c).value, c.tally.value.encryptedSums);
    ContextsExact(env, c);
    DecodeExact(elements, t, Blank(c.partyCount));
    hide VerifyPartial, Decode, Contexts;
    if AllVerify(env, contexts, sums, v, env.keys[t]) {
      forall i | 0 <= i < |elements|
        ensures ElementVerifies(env, c, t, elements[i])
      {
        var slot := elements[i].partyIndex;
        assert v[slot] == Some(PartialOf(t, elements[i])) && contexts[slot] == ContextOf(env, c, slot);
        assert VerifyPartial(env.G, env.O, contexts[slot], sums[slot], v[slot], env.keys[t]) == None;
      }
    }
    if forall i :: 0 <= i < |elements| ==> ElementVerifies(env, c, t, elements[i]) {
      forall slot | 0 <= slot < |v|
        ensures VerifyPartial(env.G, env.O, contexts[slot], sums[slot], v[slot], env.keys[t]) == None
      {
        AllSlots(elements, c.partyCount, slot);
        var i :| 0 <= i < |elements| && elements[i].partyIndex == slot;
        assert ElementVerifies(env, c, t, elements[i]);
      }
    }
  }

  /** The answer to every submission: the first check that fails, or what saving and decrypting do to
      an acceptable one. */
  lemma SubmitExact(env: Env, current: Option<State>, req: SubmitRequest)
    requires env.G.q > 0
    ensures var reply := AfterSubmit(env, current, req).1;
      && (req.body.None? ==> reply == Reply(400, "invalid_body"))
      && (req.body.Some? && (current.None? || current.value.id != req.id) ==> reply == Reply(404, "not_found"))
      && (req.body.Some? && current.Some? && current.value.id == req.id ==> reply == ReplyFor(env, current.value, req))
  {
    if req.body.Some? && current.Some? && current.value.id == req.id {
      RecordedIff(env, current.value, req);
      ContextsExact(env, current.value);
      hide AllVerify, Decode, FirstFive, Recordable;
    }
  }

  ghost function ReplyFor(env: Env, c: State, req: SubmitRequest): Reply
    requires env.G.q > 0 && req.body.Some? && req.id == c.id
  {
    var (t, elements) := req.body.value;
    if Recordable(env, c, req) then
      var recorded := RecordedState(env, c, req);
      if !req.saved then Reply(500, "state_error")
      else if |recorded.partials| < 5 then Reply(200, "accepted")
      else if FirstFive(env, recorded).Some? && req.savedDecrypted then Reply(200, "accepted")
      else Reply(500, "decrypt_error")
    else if c.phase != AwaitingTrustees then Reply(409, "wrong_phase")
    else if t !in env.keys then Reply(400, "unknown_trustee")
    else if t in c.partials then Reply(200, "already_submitted")
    else if |elements| != c.partyCount then Reply(400, "wrong_party_count")
    else
      var decoded := Decode(elements, t, Blank(c.partyCount));
      if decoded.Err? then Reply(400, decoded.error)
      else if c.electionId == "" || c.tally.None? || |c.tally.value.encryptedSums| != c.partyCount then
        Reply(503, "tally_unavailable")
      else Reply(422, "invalid_partial_proof")
  }

  ghost function RecordedState(env: Env, c: State, req: SubmitRequest): State
    requires env.G.q > 0 && Recordable(env, c, req)
  {
    RecordedIff(env, c, req);
    Recorded(env, c, req)
  }

  /** What recording stores: the trustee's vector, with each element at its party's slot, and the trustee
      at the end of the order; decrypting adds the results and the phase. */
  lemma RecordedEffect(env: Env, c: State, req: SubmitRequest)
    requires env.G.q > 0 && Recordable(env, c, req)
    ensures var ((t, elements), recorded) := (req.body.value, RecordedState(env, c, req));
      && recorded == c.(partials := recorded.partials, trusteeOrder := c.trusteeOrder + [t])
      && recorded.partials.Keys == c.partials.Keys + {t}
      && (forall u :: u in c.partials ==> recorded.partials[u] == c.partials[u])
      && Filled(elements, t, Blank(c.partyCount), recorded.partials[t])
      && AfterSubmit(env, Some(c), req).0
         == Some(if req.saved && |recorded.partials| >= 5 && FirstFive(env, recorded).Some?
                 then recorded.(results := FirstFive(env, recorded), phase := Decrypted) else recorded)
  {
    RecordedIff(env, c, req);
    var (t, elements) := req.body.value;
    DecodeExact(elements, t, Blank(c.partyCount));
    hide FirstFive, Decode, AllVerify, Recordable;
  }

  // ----- finalize and results

  /** A finalization succeeds only with the ceremony's own id, on a decrypted ceremony, when it is
      saved; the phase moves without the save too. */
  lemma FinalizeExact(current: Option<State>, id: string, saved: bool)
    ensures var (reply, after) := (FinalizeReply(current, id, saved), AfterFinalize(current, id));
      var mine := current.Some? && current.value.id == id;
      && (reply == Reply(404, "not_found") <==> !mine)
      && (reply == Reply(409, "wrong_phase") <==> mine && current.value.phase != Decrypted)
      && (reply == Reply(500, "state_error") <==> mine && current.value.phase == Decrypted && !saved)
      && (reply == Reply(200, "finalized") <==> mine && current.value.phase == Decrypted && saved)
      && (mine && current.value.phase == Decrypted ==> after == Some(current.value.(phase := Finalized)))
      && (!(mine && current.value.phase == Decrypted) ==> after == current)
  {
  }

  /** The ceremony that a reader got hold of at moment j, as it is at moment k. */
  ghost function ReadAt(env: Env, states: seq<System>, steps: seq<Step>, j: nat, k: nat): Option<State>
    requires env.G.q > 0 && Run(env, states, steps) && j <= k < |states|
  {
    RunSafety(env, states, steps, j, k);
    if states[j].current.None? then None else Some(states[k].all[states[j].current.value])
  }

  /** Results over every run, with the pointer read at one moment and the ceremony at a later one:
      they are shown, with status 200, exactly for the ceremony's own id once it is decrypted, and are
      then what the stored shares of the first five trustees leave in each slot, in slot order. Any
      other id gets 404 and any other phase 409, without results. */
  lemma ResultsAnswer(env: Env, states: seq<System>, steps: seq<Step>, j: nat, k: nat, id: string)
    requires env.G.q > 0 && Run(env, states, steps) && j <= k < |states|
    ensures var c := ReadAt(env, states, steps, j, k);
      && (c.Some? && c.value.id == id && (c.value.phase == Decrypted || c.value.phase == Finalized) ==>
            HasQuorum(c.value) && ResultsReply(c, id) == (Reply(200, ""), Some(SlotPlaintexts(env, c.value))))
      && (c.Some? && c.value.id == id && c.value.phase != Decrypted && c.value.phase != Finalized ==>
            ResultsReply(c, id) == (Reply(409, "not_decrypted"), None))
      && (c.None? || c.value.id != id ==> ResultsReply(c, id) == (Reply(404, "not_found"), None))
  {
    RunSafety(env, states, steps, j, k);
    var c := ReadAt(env, states, steps, j, k);
    if c.Some? && Decided(c.value) {
      var i := states[j].current.value;
      assert Good(env, c.value, states[k].tasks[i]);
      DecidedResults(env, c.value, states[k].tasks[i]);
    }
  }

  lemma DecidedResults(env: Env, c: State, task: Task)
    requires env.G.q > 0 && Good(env, c, task) && Decided(c)
    ensures HasQuorum(c) && c.results == Some(SlotPlaintexts(env, c))
  {
    hide SlotPlaintexts, Verified, TallyOf;
    assert |c.trusteeOrder| >= DECRYPTION_THRESHOLD;
    FirstFiveDecrypts(env, c, task);
  }

  /** And they are the counts, for honest values of the first five; a later read of the same id is
      answered alike. */
  lemma ShownResultsAreVotes(env: Env, states: seq<System>, steps: seq<Step>, j: nat, k: nat, id: string, f: seq<int>,
                             votes: seq<seq<int>>, rands: seq<seq<int>>)
    requires Valid(env.G) && Run(env, states, steps) && j <= k < |states| && ReadAt(env, states, steps, j, k).Some?
    requires states[j].current.Some? && states[j].current.value < |states[k].all| == |states[k].tasks|
    requires var (c, task) := (ReadAt(env, states, steps, j, k).value, states[k].tasks[states[j].current.value]);
      c.id == id && Decided(c) && HonestValues(env, c, f) && Voted(env, c, task, f, votes, rands)
    ensures var c := ReadAt(env, states, steps, j, k);
      && ResultsReply(c, id) == (Reply(200, ""), Some(TT.Counts(votes, c.value.partyCount)))
      && forall l :: k <= l < |states| ==> ResultsReply(ReadAt(env, states, steps, j, l), id) == ResultsReply(c, id)
  {
    hide TT.Counts, HonestValues;
    var i := states[j].current.value;
    ResultsAreVotes(env, states, steps, k, i, f, votes, rands);
    forall l | k <= l < |states|
      ensures ResultsReply(ReadAt(env, states, steps, j, l), id) == ResultsReply(ReadAt(env, states, steps, j, k), id)
    {
      RunSafety(env, states, steps, k, l);
      assert Evolves(states[k].all[i], states[l].all[i]);
    }
  }
}
