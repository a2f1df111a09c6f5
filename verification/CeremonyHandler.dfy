/** tally/handler.go and state.go in place: the ceremony's fields, and the handler's critical
    sections that update them. */
module CeremonyHandler {
  import opened Common
  import opened Groups
  import opened ElGamal
  import opened Decrypt
  import opened Tally
  import opened Ceremony

  class CeremonyState {
    var id: string
    var phase: Phase
    var electionId: string
    var activeSet: seq<string>
    var ballotCount: nat
    var partyCount: nat
    var partials: map<int, seq<Option<Partial>>>
    var trusteeOrder: seq<int>
    var results: Option<seq<int>>
    var tallyResult: Option<TallyResult>

    function View(): State
      reads this
    {
      State(id, phase, electionId, activeSet, ballotCount, partyCount, partials, trusteeOrder, results, tallyResult)
    }

    /** NewCeremonyState, followed by the assignment of the active set. */
    constructor (id: string, electionId: string, activeSet: seq<string>)
      ensures View() == NewState(id, electionId, activeSet)
    {
      this.id, this.phase, this.electionId, this.activeSet := id, Fetching, electionId, activeSet;
      this.ballotCount, this.partyCount := 0, 0;
      this.partials, this.trusteeOrder, this.results, this.tallyResult := map[], [], None, None;
    }

    /** SetPhase assigns before it saves: a failed save leaves the new phase in memory. */
    method SetPhase(phase: Phase, saved: bool) returns (ok: bool)
      modifies this`phase
      ensures View() == old(View()).(phase := phase) && ok == saved
    {
      this.phase := phase;
      return saved;
    }
  }

  /** The filter of runTally: membership in a map built from the active set. */
  method FilterActive(all: seq<SerializedBallot>, activeSet: seq<string>) returns (ballots: seq<SerializedBallot>)
    ensures ballots == ActiveBallots(all, activeSet)
  {
    if |activeSet| == 0 {
      return all;
    }
    var activeIds: map<string, bool> := map[];
    for i := 0 to |activeSet|
      invariant forall id :: id in activeIds <==> id in activeSet[..i]
    {
      assert activeSet[..i + 1] == activeSet[..i] + [activeSet[i]];
      activeIds := activeIds[activeSet[i] := true];
    }
    assert activeSet[..|activeSet|] == activeSet;
    ballots := [];
    for i := 0 to |all|
      invariant ballots + Restrict(all[i..], activeSet) == Restrict(all, activeSet)
    {
      assert all[i..][1..] == all[i + 1..];
      if all[i].ballotId in activeIds {
        ballots := ballots + [all[i]];
      }
    }
    assert all[|all|..] == [];
  }

  class CeremonyHandler {
    const env: Env
    var ceremony: CeremonyState?

    ghost function Current(): Option<State>
      reads this, ceremony
    {
      if ceremony == null then None else Some(ceremony.View())
    }

    constructor (env: Env)
      ensures this.env == env && Current() == None
    {
      this.env := env;
      this.ceremony := null;
    }

    method HandleStart(req: StartRequest) returns (reply: Reply)
      modifies this
      ensures reply == StartReply(old(Current()), req)
      ensures reply.status != 202 ==> ceremony == old(ceremony) && Current() == old(Current())
      ensures reply.status == 202 ==>
        ceremony != null && fresh(ceremony) && Current() == Some(NewState(req.id, env.electionId, req.body.value))
    {
      if req.body.None? {
        return Reply(400, "invalid_body");
      }
      if |req.body.value| == 0 {
        return Reply(400, "empty_active_set");
      }
      if ceremony != null {
        var phase := ceremony.phase;
        if phase != ErrorPhase && phase != Finalized {
          return Reply(409, "ceremony_in_progress");
        }
      }
      match req.board {
        case Unreachable => return Reply(502, "bb_unavailable");
        case NotSealed => return Reply(409, "board_not_sealed");
        case Sealed =>
      }
      if !req.created {
        return Reply(500, "state_error");
      }
      var cs := new CeremonyState(req.id, env.electionId, req.body.value);
      if !req.saved {
        return Reply(500, "state_error");
      }
      ceremony := cs;
      return Reply(202, "");
    }

    /** runTally up to its first state change. It holds its own pointer to the ceremony. */
    method RunTallyFetched(cs: CeremonyState, fetched: Option<seq<SerializedBallot>>, saved: bool)
      returns (ballots: seq<SerializedBallot>)
      modifies cs
      ensures cs.View() == AfterFetch(old(cs.View()), fetched)
      ensures fetched.Some? ==> ballots == ActiveBallots(fetched.value, old(cs.activeSet))
    {
      if fetched.None? {
        var _ := cs.SetPhase(ErrorPhase, saved);
        return [];
      }
      ballots := FilterActive(fetched.value, cs.activeSet);
      if |ballots| == 0 {
        var _ := cs.SetPhase(ErrorPhase, saved);
        return;
      }
      cs.ballotCount := |ballots|;
      cs.phase := Tallying;
    }

    /** The rest of runTally. */
    method RunTallyComputed(cs: CeremonyState, ballots: seq<SerializedBallot>,
                            saved: bool) returns (ghost r: Result<TallyResult, TallyError>)
      requires Valid(env.G)
      modifies cs
      ensures TallyOf(env.G, ballots, r) && cs.View() == AfterTally(old(cs.View()), r)
    {
      var tally := ComputeTally(env.G, ballots);
      r := tally;
      if tally.Err? {
        var _ := cs.SetPhase(ErrorPhase, saved);
        return;
      }
      cs.tallyResult := Some(tally.value);
      cs.partyCount := tally.value.numParties;
      cs.partials := map[];
      cs.trusteeOrder := [];
      var _ := cs.SetPhase(AwaitingTrustees, saved);
    }

    method HandlePartialDecryption(req: SubmitRequest) returns (reply: Reply)
      requires Valid(env.G)
      modifies ceremony
      ensures ceremony == old(ceremony) && (Current(), reply) == AfterSubmit(env, old(Current()), req)
    {
      assert env.G.q > 0;
      hide AllVerify, FirstFive, Contexts, Decode, Blank, Valid;
      if req.body.None? {
        return Reply(400, "invalid_body");
      }
      if ceremony == null || ceremony.id != req.id {
        return Reply(404, "not_found");
      }
      var cs := ceremony;
      var (t, elements) := req.body.value;
      if cs.phase != AwaitingTrustees {
        return Reply(409, "wrong_phase");
      }
      if t !in env.keys {
        return Reply(400, "unknown_trustee");
      }
      if t in cs.partials {
        return Reply(200, "already_submitted");
      }
      if |elements| != cs.partyCount {
        return Reply(400, "wrong_party_count");
      }
      var pds, code := DecodeElements(elements, t, cs.partyCount);
      if code.Some? {
        return Reply(400, code.value);
      }
      var contexts := Contexts(env, cs.View());
      if contexts.None? {
        return Reply(503, "tally_unavailable");
      }
      var sums := cs.tallyResult.value.encryptedSums;
      var ok := VerifyElements(env, contexts.value, sums, pds, env.keys[t]);
      if !ok {
        return Reply(422, "invalid_partial_proof");
      }
      cs.partials := cs.partials[t := pds];
      cs.trusteeOrder := cs.trusteeOrder + [t];
      assert cs.View() == Recorded(env, old(cs.View()), req);
      if !req.saved {
        return Reply(500, "state_error");
      }
      if |cs.partials| >= DECRYPTION_THRESHOLD {
        var decrypted := DecryptLocked(cs, req.savedDecrypted);
        if !decrypted {
          return Reply(500, "decrypt_error");
        }
      }
      return Reply(200, "accepted");
    }

    /** decryptLocked. */
    method DecryptLocked(cs: CeremonyState, saved: bool) returns (ok: bool)
      requires Valid(env.G)
      modifies cs
      ensures var results := FirstFive(env, old(cs.View()));
        && ok == (results.Some? && saved)
        && cs.View() == if results.None? then old(cs.View()) else old(cs.View()).(results := results, phase := Decrypted)
    {
      var contexts := Contexts(env, cs.View());
      if contexts.None? {
        return false;
      }
      if |cs.trusteeOrder| < DECRYPTION_THRESHOLD {
        return false;
      }
      var trustees := cs.trusteeOrder[..DECRYPTION_THRESHOLD];
      var results := DecryptTally(env.G, env.O, cs.tallyResult.value, contexts.value, cs.partials, trustees, env.keys, DECRYPTION_THRESHOLD);
      if results.Err? {
        return false;
      }
      cs.results := Some(results.value);
      ok := cs.SetPhase(Decrypted, saved);
    }

    method HandleFinalize(id: string, saved: bool) returns (reply: Reply)
      modifies ceremony
      ensures ceremony == old(ceremony)
      ensures reply == FinalizeReply(old(Current()), id, saved) && Current() == AfterFinalize(old(Current()), id)
    {
      if ceremony == null || ceremony.id != id {
        return Reply(404, "not_found");
      }
      if ceremony.phase != Decrypted {
        return Reply(409, "wrong_phase");
      }
      var ok := ceremony.SetPhase(Finalized, saved);
      if !ok {
        return Reply(500, "state_error");
      }
      return Reply(200, "finalized");
    }

    /** handleResults after its first critical section, which only reads the pointer. */
    method HandleResults(cs: CeremonyState?, id: string) returns (reply: Reply, results: Option<seq<int>>)
      ensures (reply, results) == ResultsReply(if cs == null then None else Some(cs.View()), id)
    {
      if cs == null || cs.id != id {
        return Reply(404, "not_found"), None;
      }
      var phase, r := cs.phase, cs.results;
      if phase != Decrypted && phase != Finalized {
        return Reply(409, "not_decrypted"), None;
      }
      return Reply(200, ""), r;
    }
  }

  /** The decoding loop of handlePartialDecryption; code is the error of the first bad element. */
  method DecodeElements(elements: seq<Element>, t: int, partyCount: nat) returns (pds: seq<Option<Partial>>,
                        code: Option<string>)
    ensures var r := Decode(elements, t, Blank(partyCount));
      if r.Ok? then code == None && pds == r.value else code == Some(r.error)
  {
    pds := Blank(partyCount);
    for i := 0 to |elements|
      invariant |pds| == partyCount && Decode(elements[i..], t, pds) == Decode(elements, t, Blank(partyCount))
    {
      var e := elements[i];
      assert elements[i..][1..] == elements[i + 1..];
      if e.partyIndex < 0 || e.partyIndex >= partyCount {
        return pds, Some("invalid_party_index");
      }
      if pds[e.partyIndex].Some? {
        return pds, Some("duplicate_party_index");
      }
      match e.point {
        case BadHex => return pds, Some("invalid_hex");
        case BadLength => return pds, Some("invalid_point_length");
        case BadPoint => return pds, Some("invalid_point");
        case Point(d) =>
          if !e.proof.GoodProof? {
            return pds, Some("invalid_proof_encoding");
          }
          pds := pds[e.partyIndex := Some(Partial(t, d, e.proof.proof))];
      }
    }
    assert elements[|elements|..] == [];
    code := None;
  }

  /** The check of every slot against the trustee's key. */
  method VerifyElements(env: Env, contexts: seq<SlotContext>, sums: seq<Ciphertext>, pds: seq<Option<Partial>>, key: int)
    returns (ok: bool)
    requires env.G.q > 0 && |contexts| == |sums| == |pds|
    ensures ok == AllVerify(env, contexts, sums, pds, key)
  {
    for slot := 0 to |pds|
      invariant forall k :: 0 <= k < slot ==> VerifyPartial(env.G, env.O, contexts[k], sums[k], pds[k], key) == None
    {
      var v := VerifyPartial(env.G, env.O, contexts[slot], sums[slot], pds[slot], key);
      if v.Some? {
        return false;
      }
    }
    return true;
  }
}
