/** tally/ceremony/tally.go and crypto/elgamal/ballot.go: homomorphic tallying, slot-wise threshold
    decryption, and the published counts. */
module Tally {
  import opened Common
  import opened Scalars
  import opened Groups
  import opened ElGamal
  import opened Decrypt
  import F = Feldman
  import S = Sigma

  /** A ballot on the board: None is JSON that does not parse, an inner None a ciphertext that does
      not decode. */
  datatype SerializedBallot = SerializedBallot(ballotId: string, payload: Option<seq<Option<Ciphertext>>>)

  datatype TallyError = ErrNoBallots | ErrParse | ErrPartyCount | ErrCiphertext

  datatype TallyResult = TallyResult(encryptedSums: seq<Ciphertext>, numBallots: nat, numParties: nat)

  /** Why a ballot cannot be tallied among ballots of n parties. */
  function BallotError(b: SerializedBallot, n: nat): Option<TallyError> {
    if b.payload.None? then Some(ErrParse)
    else if |b.payload.value| != n then Some(ErrPartyCount)
    else if exists j :: 0 <= j < n && b.payload.value[j].None? then Some(ErrCiphertext)
    else None
  }

  /** The first ballot in order that cannot be tallied decides the error. */
  function FirstError(ballots: seq<SerializedBallot>, n: nat): Option<TallyError> {
    if ballots == [] then None
    else if BallotError(ballots[0], n).Some? then BallotError(ballots[0], n)
    else FirstError(ballots[1..], n)
  }

  /** Slot j of every ballot. */
  function Column(ballots: seq<SerializedBallot>, n: nat, j: nat): (c: seq<Ciphertext>)
    requires j < n && forall b :: b in ballots ==> BallotError(b, n) == None
    ensures |c| == |ballots|
  {
    seq(|ballots|, i requires 0 <= i < |ballots| =>
      assert BallotError(ballots[i], n) == None;
      ballots[i].payload.value[j].value)
  }

  /** ct holds, as residues, the homomorphic sum of a column. */
  ghost predicate Sums(G: Group, ct: Ciphertext, column: seq<Ciphertext>)
    requires G.q > 0
  {
    Reduced(G, ct) == SumOf(G, column)
  }

  /** What ComputeTally answers: the error of the first bad ballot, or one sum per party. */
  ghost predicate TallyOf(G: Group, ballots: seq<SerializedBallot>, r: Result<TallyResult, TallyError>)
    requires G.q > 0
  {
    if ballots == [] then r == Err(ErrNoBallots)
    else if ballots[0].payload.None? then r == Err(ErrParse)
    else
      var n := |ballots[0].payload.value|;
      if FirstError(ballots, n).Some? then r == Err(FirstError(ballots, n).value)
      else
        && r.Ok? && r.value.numBallots == |ballots| && r.value.numParties == n == |r.value.encryptedSums|
        && (forall b :: b in ballots ==> BallotError(b, n) == None)
        && forall j :: 0 <= j < n ==> Sums(G, r.value.encryptedSums[j], Column(ballots, n, j))
  }

  method ComputeTally(G: Group, ballots: seq<SerializedBallot>) returns (r: Result<TallyResult, TallyError>)
    requires Valid(G)
    ensures TallyOf(G, ballots, r)
  {
    if |ballots| == 0 {
      return Err(ErrNoBallots);
    }
    if ballots[0].payload.None? {
      return Err(ErrParse);
    }
    var n := |ballots[0].payload.value|;
    var sums := new Option<Ciphertext>[n](i => None);
    for i := 0 to |ballots|
      invariant FirstError(ballots, n) == FirstError(ballots[i..], n)
      invariant forall b :: b in ballots[..i] ==> BallotError(b, n) == None
      invariant forall j :: 0 <= j < n ==> Accumulated(G, sums[j], ballots[..i], n, j)
    {
      var bd := ballots[i].payload;
      assert ballots[i..][1..] == ballots[i + 1..] && ballots[i..][0] == ballots[i];
      if bd.None? {
        return Err(ErrParse);
      }
      if |bd.value| != n {
        return Err(ErrPartyCount);
      }
      for j := 0 to n
        invariant forall k :: 0 <= k < j ==> bd.value[k].Some? && Extended(G, sums[k], ballots[..i], n, k, bd.value[k].value)
        invariant forall k :: j <= k < n ==> Accumulated(G, sums[k], ballots[..i], n, k)
      {
        if bd.value[j].None? {
          return Err(ErrCiphertext);
        }
        var ct := bd.value[j].value;
        assert Accumulated(G, sums[j], ballots[..i], n, j);
        if sums[j].None? {
          FirstOfColumn(G, ct);
          sums[j] := Some(ct);
        } else {
          ghost var was := sums[j].value;
          sums[j] := HomomorphicAdd(G, [sums[j].value, ct]);
          ColumnAdd(G, was, Column(ballots[..i], n, j), ct, sums[j].value);
        }
      }
      assert BallotError(ballots[i], n) == None;
      assert ballots[..i + 1] == ballots[..i] + [ballots[i]];
      forall k | 0 <= k < n
        ensures Accumulated(G, sums[k], ballots[..i + 1], n, k)
      {
        assert Extended(G, sums[k], ballots[..i], n, k, bd.value[k].value);
        assert Column(ballots[..i + 1], n, k) == Column(ballots[..i], n, k) + [bd.value[k].value];
      }
    }
    assert ballots[..|ballots|] == ballots && ballots[|ballots|..] == [];
    var out: seq<Ciphertext> := [];
    for j := 0 to n
      invariant |out| == j && forall k :: 0 <= k < j ==> Sums(G, out[k], Column(ballots, n, k))
    {
      assert Accumulated(G, sums[j], ballots, n, j);
      out := out + [sums[j].value];
    }
    return Ok(TallyResult(out, |ballots|, n));
  }

  ghost predicate Accumulated(G: Group, s: Option<Ciphertext>, done: seq<SerializedBallot>, n: nat, j: nat)
    requires G.q > 0 && j < n && forall b :: b in done ==> BallotError(b, n) == None
  {
    (s.None? <==> done == []) && (s.Some? ==> Sums(G, s.value, Column(done, n, j)))
  }

  ghost predicate Extended(G: Group, s: Option<Ciphertext>, done: seq<SerializedBallot>, n: nat, j: nat, ct: Ciphertext)
    requires G.q > 0 && j < n && forall b :: b in done ==> BallotError(b, n) == None
  {
    s.Some? && Sums(G, s.value, Column(done, n, j) + [ct])
  }

  lemma FirstOfColumn(G: Group, ct: Ciphertext)
    requires G.q > 0
    ensures Sums(G, ct, [] + [ct])
  {
    SumsPush([], ct);
  }

  lemma {:induction false} SumsPush(column: seq<Ciphertext>, ct: Ciphertext)
    ensures Sum1(column + [ct]) == Sum1(column) + ct.c1 && Sum2(column + [ct]) == Sum2(column) + ct.c2
  {
    if column == [] {
      assert [] + [ct] == [ct] && [ct][1..] == [];
    } else {
      assert (column + [ct])[1..] == column[1..] + [ct];
      SumsPush(column[1..], ct);
    }
  }

  lemma ColumnAdd(G: Group, was: Ciphertext, column: seq<Ciphertext>, ct: Ciphertext, now: Ciphertext)
    requires G.q > 0 && Sums(G, was, column) && Reduced(G, now) == SumOf(G, [was, ct])
    ensures Sums(G, now, column + [ct])
  {
    SumsPush(column, ct);
    SumsPush([was], ct);
    SumsPush([], was);
    assert [was] + [ct] == [was, ct] && [] + [was] == [was];
    AddHalf(G.q, now.c1, was.c1, ct.c1, Sum1(column));
    AddHalf(G.q, now.c2, was.c2, ct.c2, Sum2(column));
  }

  lemma AddHalf(q: nat, now: int, was: int, x: int, sum: int)
    requires q > 0 && Red(q, was) == Red(q, sum) && Red(q, now) == Red(q, was + x)
    ensures Red(q, now) == Red(q, sum + x)
  {
    RedAdd(q, was, x, sum, x);
  }

  // ----- DecryptTally

  datatype DecryptError = ErrContexts | ErrTrusteeCount | ErrSlotIndex | ErrMissingPartial | ErrWrongTrustee | ErrCombine(error: CombineError)

  /** The partials of one slot, in trustee order, or the first defect. */
  function SlotPartials(partials: map<int, seq<Option<Partial>>>, trustees: seq<int>, slot: nat)
    : Result<seq<Option<Partial>>, DecryptError>
  {
    if trustees == [] then Ok([])
    else
      var tp := if trustees[0] in partials then partials[trustees[0]] else [];
      if slot >= |tp| || tp[slot].None? then Err(ErrMissingPartial)
      else if tp[slot].value.trusteeIndex != trustees[0] then Err(ErrWrongTrustee)
      else
        var rest := SlotPartials(partials, trustees[1..], slot);
        if rest.Err? then rest else Ok([tp[slot]] + rest.value)
  }

  /** The plaintext of one slot, or the first defect. */
  ghost function SlotResult(G: Group, O: S.Oracle, sc: SlotContext, ct: Ciphertext,
                            partials: map<int, seq<Option<Partial>>>,
                            trustees: seq<int>, keys: map<int, int>, quorum: int, slot: nat): Result<int, DecryptError>
    requires G.q > 0
  {
    if sc.slotIndex != slot then Err(ErrSlotIndex)
    else
      var ps := SlotPartials(partials, trustees, slot);
      if ps.Err? then Err(ps.error)
      else
        var c := Combination(G, O, sc, ct, ps.value, keys, quorum, MAX_DECRYPT);
        if c.Err? then Err(ErrCombine(c.error)) else Ok(c.value)
  }

  /** All slots from `slot` on. */
  ghost function Results(G: Group, O: S.Oracle, contexts: seq<SlotContext>, sums: seq<Ciphertext>,
                         partials: map<int, seq<Option<Partial>>>,
                         trustees: seq<int>, keys: map<int, int>, quorum: int, slot: nat): Result<seq<int>, DecryptError>
    requires G.q > 0 && |contexts| == |sums| && slot <= |sums|
    decreases |sums| - slot
  {
    if slot == |sums| then Ok([])
    else
      var m := SlotResult(G, O, contexts[slot], sums[slot], partials, trustees, keys, quorum, slot);
      if m.Err? then Err(m.error)
      else
        var rest := Results(G, O, contexts, sums, partials, trustees, keys, quorum, slot + 1);
        if rest.Err? then rest else Ok([m.value] + rest.value)
  }

  /** What DecryptTally answers. */
  ghost function Decryption(G: Group, O: S.Oracle, tally: TallyResult, contexts: seq<SlotContext>,
                            partials: map<int, seq<Option<Partial>>>,
                            trustees: seq<int>, keys: map<int, int>, quorum: int): Result<seq<int>, DecryptError>
    requires G.q > 0
  {
    if |contexts| != |tally.encryptedSums| then Err(ErrContexts)
    else if |trustees| != quorum then Err(ErrTrusteeCount)
    else Results(G, O, contexts, tally.encryptedSums, partials, trustees, keys, quorum, 0)
  }

  method DecryptTally(G: Group, O: S.Oracle, tally: TallyResult, contexts: seq<SlotContext>,
                      partials: map<int, seq<Option<Partial>>>,
                      trustees: seq<int>, keys: map<int, int>, quorum: int) returns (r: Result<seq<int>, DecryptError>)
    requires Valid(G)
    ensures r == Decryption(G, O, tally, contexts, partials, trustees, keys, quorum)
  {
    hide Combination, SlotPartials, Verifies;
    var sums := tally.encryptedSums;
    if |contexts| != |sums| {
      return Err(ErrContexts);
    }
    if |trustees| != quorum {
      return Err(ErrTrusteeCount);
    }
    var results: seq<int> := [];
    PrefixedByNothing(Results(G, O, contexts, sums, partials, trustees, keys, quorum, 0));
    for slot := 0 to |sums|
      invariant Prefixed(results, Results(G, O, contexts, sums, partials, trustees, keys, quorum, slot))
             == Results(G, O, contexts, sums, partials, trustees, keys, quorum, 0)
    {
      if contexts[slot].slotIndex != slot {
        return Err(ErrSlotIndex);
      }
      var gathered := GatherPartials(partials, trustees, slot);
      if gathered.Err? {
        return Err(gathered.error);
      }
      var slotPartials := gathered.value;
      var m := Combine(G, O, contexts[slot], sums[slot], slotPartials, keys, quorum, MAX_DECRYPT);
      if m.Err? {
        return Err(ErrCombine(m.error));
      }
      ghost var rest := Results(G, O, contexts, sums, partials, trustees, keys, quorum, slot + 1);
      assert rest.Ok? ==> results + ([m.value] + rest.value) == results + [m.value] + rest.value;
      results := results + [m.value];
    }
    assert results + [] == results;
    return Ok(results);
  }

  /** The partials of one slot, with each trustee's own index on them. */
  method GatherPartials(partials: map<int, seq<Option<Partial>>>, trustees: seq<int>, slot: nat)
    returns (r: Result<seq<Option<Partial>>, DecryptError>)
    ensures r == SlotPartials(partials, trustees, slot)
  {
    var slotPartials: seq<Option<Partial>> := [];
    ghost var all := SlotPartials(partials, trustees, slot);
    assert trustees[0..] == trustees && (all.Ok? ==> [] + all.value == all.value);
    for j := 0 to |trustees|
      invariant PrefixedPartials(slotPartials, SlotPartials(partials, trustees[j..], slot)) == all
    {
      var tidx := trustees[j];
      var tp := if tidx in partials then partials[tidx] else [];
      assert trustees[j..][0] == tidx && trustees[j..][1..] == trustees[j + 1..];
      if slot >= |tp| || tp[slot].None? {
        return Err(ErrMissingPartial);
      }
      if tp[slot].value.trusteeIndex != tidx {
        return Err(ErrWrongTrustee);
      }
      ghost var rest := SlotPartials(partials, trustees[j + 1..], slot);
      assert rest.Ok? ==> slotPartials + ([tp[slot]] + rest.value) == slotPartials + [tp[slot]] + rest.value;
      slotPartials := slotPartials + [tp[slot]];
    }
    assert trustees[|trustees|..] == [] && slotPartials + [] == slotPartials;
    return Ok(slotPartials);
  }

  lemma PrefixedByNothing(r: Result<seq<int>, DecryptError>)
    ensures Prefixed([], r) == r
  {
    assert r.Ok? ==> [] + r.value == r.value;
  }

  ghost function Prefixed(s: seq<int>, r: Result<seq<int>, DecryptError>): Result<seq<int>, DecryptError> {
    if r.Ok? then Ok(s + r.value) else r
  }

  ghost function PrefixedPartials(s: seq<Option<Partial>>, r: Result<seq<Option<Partial>>, DecryptError>)
    : Result<seq<Option<Partial>>, DecryptError>
  {
    if r.Ok? then Ok(s + r.value) else r
  }
}
