/** From the collection server's voter map to the tally's filter: which ballots of the board are
    counted. */
module ActiveSet {
  import opened Common
  import opened Tally
  import opened Ceremony
  import V = VoterMap
  import VS = VoterMapSafety

  /** The ballot that a voter submitted last. */
  ghost predicate LastOf(subs: seq<V.Submission>, voter: string, ballotId: string) {
    var mine := VS.Of(subs, voter);
    mine != [] && mine[|mine| - 1].ballotId == ballotId
  }

  /** What ActiveSet returned for a store: one id per voter, the active one. */
  ghost predicate IsActiveSet(s: V.Records, voters: seq<string>, ids: seq<string>) {
    && V.Enumerates(s.mapping, voters) && |ids| == |voters|
    && forall i :: 0 <= i < |ids| ==> voters[i] in s.mapping && ids[i] == s.mapping[voters[i]].ballotId
  }

  lemma {:induction false} RestrictMembers(all: seq<SerializedBallot>, ids: seq<string>)
    ensures forall b :: b in Restrict(all, ids) <==> b in all && b.ballotId in ids
  {
    if all != [] {
      RestrictMembers(all[1..], ids);
      assert all == [all[0]] + all[1..];
    }
  }

  /** The filter keeps the order of the board and every occurrence: it works ballot by ballot. */
  lemma {:induction false} RestrictJoins(a: seq<SerializedBallot>, b: seq<SerializedBallot>, ids: seq<string>)
    ensures Restrict(a + b, ids) == Restrict(a, ids) + Restrict(b, ids)
  {
    if a == [] {
      assert a + b == b;
    } else {
      assert (a + b)[1..] == a[1..] + b;
      RestrictJoins(a[1..], b, ids);
    }
  }

  /** Without an active set all ballots are counted; a single ballot is kept exactly when it is listed. */
  lemma ActiveBallotsExact(all: seq<SerializedBallot>, ids: seq<string>, b: SerializedBallot)
    ensures ActiveBallots(all, []) == all
    ensures ids != [] ==> ActiveBallots(all + [b], ids) == ActiveBallots(all, ids) + if b.ballotId in ids then [b] else []
    ensures ids != [] ==> ActiveBallots([], ids) == []
  {
    RestrictJoins(all, [b], ids);
  }

  lemma ActiveIds(mac: string -> string, subs: seq<V.Submission>, voters: seq<string>, ids: seq<string>, id: string)
    requires IsActiveSet(V.AfterAll(mac, subs), voters, ids)
    ensures id in ids <==> exists v :: LastOf(subs, v, id)
  {
    var s := V.AfterAll(mac, subs);
    VS.RunTracks(mac, subs);
    if id in ids {
      var i :| 0 <= i < |ids| && ids[i] == id;
      assert VS.TracksVoter(mac, s, subs, voters[i]);
      assert LastOf(subs, voters[i], id);
    }
    if v :| LastOf(subs, v, id) {
      assert VS.TracksVoter(mac, s, subs, v);
      assert v in voters;
    }
  }

  /** A ballot is counted exactly when it is on the board and is some voter's last submission:
      overridden ballots are left out, and no voter's last ballot is. */
  lemma CountedAreLastSubmissions(mac: string -> string, subs: seq<V.Submission>, voters: seq<string>, ids: seq<string>,
                                  all: seq<SerializedBallot>, b: SerializedBallot)
    requires IsActiveSet(V.AfterAll(mac, subs), voters, ids) && ids != []
    ensures b in ActiveBallots(all, ids) <==> b in all && exists v :: LastOf(subs, v, b.ballotId)
  {
    RestrictMembers(all, ids);
    ActiveIds(mac, subs, voters, ids, b.ballotId);
  }

  // ----- one ballot per voter

  ghost function IdsOf(all: seq<SerializedBallot>): seq<string> {
    seq(|all|, (i: nat) requires i < |all| => all[i].ballotId)
  }

  lemma NoRepeatCons<T>(x: T, xs: seq<T>)
    requires NoRepeat(xs) && forall k :: 0 <= k < |xs| ==> xs[k] != x
    ensures NoRepeat([x] + xs)
  {
  }

  lemma {:induction false} RestrictNoRepeat(all: seq<SerializedBallot>, ids: seq<string>)
    requires NoRepeat(IdsOf(all))
    ensures NoRepeat(IdsOf(Restrict(all, ids)))
  {
    if all != [] {
      var (first, rest) := (all[0], all[1..]);
      assert IdsOf(all) == [first.ballotId] + IdsOf(rest);
      assert NoRepeat(IdsOf(rest)) by {
        assert forall i :: 0 <= i < |rest| ==> IdsOf(rest)[i] == IdsOf(all)[i + 1];
      }
      RestrictNoRepeat(rest, ids);
      if first.ballotId in ids {
        var kept := Restrict(rest, ids);
        RestrictMembers(rest, ids);
        assert IdsOf([first] + kept) == [first.ballotId] + IdsOf(kept);
        forall k | 0 <= k < |kept|
          ensures IdsOf(kept)[k] != first.ballotId
        {
          assert kept[k] in rest;
          var i :| 0 <= i < |rest| && rest[i] == kept[k];
          assert IdsOf(all)[0] != IdsOf(all)[i + 1];
        }
        NoRepeatCons(first.ballotId, IdsOf(kept));
        assert Restrict(all, ids) == [first] + kept;
      } else {
        assert Restrict(all, ids) == Restrict(rest, ids);
      }
    }
  }

  /** When the board's ids are unique and holds every active ballot, and no two voters share an
      active ballot, exactly one ballot per voter is counted. */
  lemma OneBallotPerVoter(s: V.Records, voters: seq<string>, ids: seq<string>, all: seq<SerializedBallot>)
    requires IsActiveSet(s, voters, ids) && ids != [] && NoRepeat(ids) && NoRepeat(IdsOf(all))
    requires forall id :: id in ids ==> id in IdsOf(all)
    ensures |ActiveBallots(all, ids)| == |voters| == |s.mapping|
  {
    var kept := IdsOf(Restrict(all, ids));
    RestrictNoRepeat(all, ids);
    forall id
      ensures id in kept <==> id in ids
    {
      KeptIds(all, ids, id);
    }
    hide IdsOf, Restrict;
    MembersSize(kept);
    MembersSize(ids);
    assert (set x | x in kept) == (set x | x in ids);
    MembersSize(voters);
    assert (set x | x in voters) == s.mapping.Keys;
  }

  lemma KeptIds(all: seq<SerializedBallot>, ids: seq<string>, id: string)
    requires id in ids ==> id in IdsOf(all)
    ensures id in IdsOf(Restrict(all, ids)) <==> id in ids
  {
    var kept := Restrict(all, ids);
    RestrictMembers(all, ids);
    hide Restrict;
    if id in ids {
      var i :| 0 <= i < |all| && IdsOf(all)[i] == id;
      assert all[i] in kept;
      var k :| 0 <= k < |kept| && kept[k] == all[i];
      assert IdsOf(kept)[k] == id;
    }
    if id in IdsOf(kept) {
      var k :| 0 <= k < |kept| && IdsOf(kept)[k] == id;
      assert kept[k] in kept;
    }
  }
}
