/** tally/handler.go and state.go: what each critical section of the decryption ceremony does to
    the ceremony it runs on, as functions of the state before it. */
module Ceremony {
  import opened Common
  import opened Groups
  import opened ElGamal
  import opened Decrypt
  import opened Tally
  import S = Sigma

  datatype Phase = Fetching | Tallying | AwaitingTrustees | Decrypted | Finalized | ErrorPhase

  datatype State = State(id: string, phase: Phase, electionId: string, activeSet: seq<string>, ballotCount: nat, partyCount: nat,
                         partials: map<int, seq<Option<Partial>>>, trusteeOrder: seq<int>, results: Option<seq<int>>,
                         tally: Option<TallyResult>)

  /** The handler's fixed surroundings: the group, the transcript hash, the trustee keys, the
      election and the digest of a tally vector. */
  datatype Env = Env(G: Group, O: S.Oracle, keys: map<int, int>, electionId: string, digest: seq<Ciphertext> -> Bytes)

  /** An HTTP status and its error code. */
  datatype Reply = Reply(status: nat, code: string)

  const DECRYPTION_THRESHOLD := 5

  const ZERO_DIGEST: Bytes := seq(32, _ => 0)

  // ----- start

  datatype BoardAnswer = Sealed | NotSealed | Unreachable

  /** body is None when it does not parse; created and saved are the outcomes of creating the new
      state and of saving it. */
  datatype StartRequest = StartRequest(body: Option<seq<string>>, board: BoardAnswer, id: string, created: bool, saved: bool)

  function NewState(id: string, electionId: string, activeSet: seq<string>): State {
    State(id, Fetching, electionId, activeSet, 0, 0, map[], [], None, None)
  }

  function StartReply(current: Option<State>, req: StartRequest): Reply {
    if req.body.None? then Reply(400, "invalid_body")
    else if req.body.value == [] then Reply(400, "empty_active_set")
    else if current.Some? && current.value.phase != ErrorPhase && current.value.phase != Finalized then Reply(409, "ceremony_in_progress")
    else if req.board.Unreachable? then Reply(502, "bb_unavailable")
    else if req.board.NotSealed? then Reply(409, "board_not_sealed")
    else if !req.created || !req.saved then Reply(500, "state_error")
    else Reply(202, "")
  }

  // ----- the background tally

  /** The ballots of the active set, in board order; all of them when no set was given. */
  function ActiveBallots(all: seq<SerializedBallot>, activeSet: seq<string>): seq<SerializedBallot> {
    if activeSet == [] then all else Restrict(all, activeSet)
  }

  function Restrict(all: seq<SerializedBallot>, ids: seq<string>): seq<SerializedBallot> {
    if all == [] then []
    else (if all[0].ballotId in ids then [all[0]] else []) + Restrict(all[1..], ids)
  }

  /** The state after the fetch; None is a failed fetch. */
  function AfterFetch(c: State, fetched: Option<seq<SerializedBallot>>): State {
    if fetched.None? || ActiveBallots(fetched.value, c.activeSet) == [] then c.(phase := ErrorPhase)
    else c.(ballotCount := |ActiveBallots(fetched.value, c.activeSet)|, phase := Tallying)
  }

  /** The state after the homomorphic tally. */
  function AfterTally(c: State, r: Result<TallyResult, TallyError>): State {
    if r.Err? then c.(phase := ErrorPhase)
    else c.(tally := Some(r.value), partyCount := r.value.numParties, partials := map[], trusteeOrder := [], phase := AwaitingTrustees)
  }

  // ----- partial decryptions

  datatype PointForm = BadHex | BadLength | BadPoint | Point(d: int)

  datatype ProofForm = NoProof | BadProof | GoodProof(proof: S.CpProof)

  datatype Element = Element(partyIndex: int, point: PointForm, proof: ProofForm)

  /** body is None when it does not parse; saved and savedDecrypted are the outcomes of saving the
      submission and of saving the decrypted phase. */
  datatype SubmitRequest = SubmitRequest(id: string, body: Option<(int, seq<Element>)>, saved: bool, savedDecrypted: bool)

  function ElementError(e: Element, pds: seq<Option<Partial>>): Option<string> {
    if e.partyIndex < 0 || e.partyIndex >= |pds| then Some("invalid_party_index")
    else if pds[e.partyIndex].Some? then Some("duplicate_party_index")
    else if e.point.BadHex? then Some("invalid_hex")
    else if e.point.BadLength? then Some("invalid_point_length")
    else if e.point.BadPoint? then Some("invalid_point")
    else if !e.proof.GoodProof? then Some("invalid_proof_encoding")
    else None
  }

  /** The decoded partials by party index, or the code of the first bad element. */
  function Decode(elements: seq<Element>, t: int, pds: seq<Option<Partial>>): (r: Result<seq<Option<Partial>>, string>)
    ensures r.Ok? ==> |r.value| == |pds|
  {
    if elements == [] then Ok(pds)
    else
      var e := elements[0];
      var bad := ElementError(e, pds);
      if bad.Some? then Err(bad.value)
      else Decode(elements[1..], t, pds[e.partyIndex := Some(Partial(t, e.point.d, e.proof.proof))])
  }

  function Blank(n: nat): (s: seq<Option<Partial>>)
    ensures |s| == n && forall i :: 0 <= i < n ==> s[i] == None
  {
    seq(n, _ => None)
  }

  /** slotContexts: None when the election id or the tally is missing or the sizes disagree. */
  function Contexts(env: Env, c: State): (r: Option<seq<SlotContext>>)
    ensures r.Some? ==> c.tally.Some? && |r.value| == |c.tally.value.encryptedSums| == c.partyCount
    ensures r.Some? ==> forall i :: 0 <= i < |r.value| ==> r.value[i].slotIndex == i
  {
    if c.electionId == "" || c.tally.None? || |c.tally.value.encryptedSums| != c.partyCount then None
    else
      var digest := env.digest(c.tally.value.encryptedSums);
      Some(seq(c.partyCount, (slot: nat) => SlotContext(c.electionId, slot, digest, ZERO_DIGEST, ZERO_DIGEST)))
  }

  /** Every slot's partial verifies against the trustee's key. */
  predicate AllVerify(env: Env, contexts: seq<SlotContext>, sums: seq<Ciphertext>, pds: seq<Option<Partial>>, key: int)
    requires env.G.q > 0 && |contexts| == |sums| == |pds|
  {
    forall slot :: 0 <= slot < |pds| ==> VerifyPartial(env.G, env.O, contexts[slot], sums[slot], pds[slot], key) == None
  }

  /** The answer to a submission that is refused or already known; None when it is to be stored. */
  function Refusal(env: Env, current: Option<State>, req: SubmitRequest): (r: Option<Reply>)
    requires env.G.q > 0
    ensures r == None ==> current.Some? && req.body.Some? && Contexts(env, current.value).Some?
  {
    if req.body.None? then Some(Reply(400, "invalid_body"))
    else if current.None? || current.value.id != req.id then Some(Reply(404, "not_found"))
    else
      var c := current.value;
      var (t, elements) := req.body.value;
      if c.phase != AwaitingTrustees then Some(Reply(409, "wrong_phase"))
      else if t !in env.keys then Some(Reply(400, "unknown_trustee"))
      else if t in c.partials then Some(Reply(200, "already_submitted"))
      else if |elements| != c.partyCount then Some(Reply(400, "wrong_party_count"))
      else
        var decoded := Decode(elements, t, Blank(c.partyCount));
        var contexts := Contexts(env, c);
        if decoded.Err? then Some(Reply(400, decoded.error))
        else if contexts.None? then Some(Reply(503, "tally_unavailable"))
        else if !AllVerify(env, contexts.value, c.tally.value.encryptedSums, decoded.value, env.keys[t]) then
          Some(Reply(422, "invalid_partial_proof"))
        else None
  }

  /** The state with a verified submission recorded. */
  function Recorded(env: Env, c: State, req: SubmitRequest): State
    requires env.G.q > 0 && Refusal(env, Some(c), req) == None
  {
    var (t, elements) := req.body.value;
    c.(partials := c.partials[t := Decode(elements, t, Blank(c.partyCount)).value], trusteeOrder := c.trusteeOrder + [t])
  }

  /** decryptLocked: the results over the first five trustees, or None. */
  ghost function FirstFive(env: Env, c: State): Option<seq<int>>
    requires env.G.q > 0
  {
    var contexts := Contexts(env, c);
    if contexts.None? || |c.trusteeOrder| < DECRYPTION_THRESHOLD then None
    else
      var d := Decryption(env.G, env.O, c.tally.value, contexts.value, c.partials, c.trusteeOrder[..DECRYPTION_THRESHOLD], env.keys, DECRYPTION_THRESHOLD);
      if d.Err? then None else Some(d.value)
  }

  /** The state and the answer after a submission. */
  ghost function AfterSubmit(env: Env, current: Option<State>, req: SubmitRequest): (Option<State>, Reply)
    requires env.G.q > 0
  {
    var refusal := Refusal(env, current, req);
    if refusal.Some? then (current, refusal.value)
    else
      var c := Recorded(env, current.value, req);
      if !req.saved then (Some(c), Reply(500, "state_error"))
      else if |c.partials| < DECRYPTION_THRESHOLD then (Some(c), Reply(200, "accepted"))
      else
        var results := FirstFive(env, c);
        if results.None? then (Some(c), Reply(500, "decrypt_error"))
        else
          (Some(c.(results := results, phase := Decrypted)),
           if req.savedDecrypted then Reply(200, "accepted") else Reply(500, "decrypt_error"))
  }

  // ----- finalize and results

  function FinalizeReply(current: Option<State>, id: string, saved: bool): Reply {
    if current.None? || current.value.id != id then Reply(404, "not_found")
    else if current.value.phase != Decrypted then Reply(409, "wrong_phase")
    else if !saved then Reply(500, "state_error")
    else Reply(200, "finalized")
  }

  function AfterFinalize(current: Option<State>, id: string): Option<State> {
    if current.Some? && current.value.id == id && current.value.phase == Decrypted
    then Some(current.value.(phase := Finalized)) else current
  }

  function ResultsReply(current: Option<State>, id: string): (Reply, Option<seq<int>>) {
    if current.None? || current.value.id != id then (Reply(404, "not_found"), None)
    else if current.value.phase != Decrypted && current.value.phase != Finalized then (Reply(409, "not_decrypted"), None)
    else (Reply(200, ""), current.value.results)
  }
}
