/** Override chains: what recording builds, what passing the audit proves, and what the two
    enumerations emit. */
module VoterMapSafety {
  import opened VoterMap

  // ----- what a run of submissions builds

  /** One voter's submissions, in order. */
  ghost function Of(subs: seq<Submission>, egnHash: string): seq<Submission> {
    if subs == [] then []
    else
      var last := subs[|subs| - 1];
      Of(subs[..|subs| - 1], egnHash) + if last.egnHash == egnHash then [last] else []
  }

  /** The history is exactly the submissions, numbered from 1, and linked. */
  ghost predicate Recounts(mac: string -> string, egnHash: string, subs: seq<Submission>, entries: seq<HistoryEntry>) {
    && |entries| == |subs| && Linked(mac, egnHash, entries)
    && forall i :: 0 <= i < |entries| ==>
      entries[i].ballotId == subs[i].ballotId && entries[i].channel == subs[i].channel
      && entries[i].at == subs[i].at && entries[i].seqNo == i + 1
  }

  ghost predicate Tracks(mac: string -> string, s: Records, subs: seq<Submission>) {
    forall egnHash :: TracksVoter(mac, s, subs, egnHash)
  }

  ghost predicate TracksVoter(mac: string -> string, s: Records, subs: seq<Submission>, egnHash: string) {
    var mine := Of(subs, egnHash);
    && (egnHash in s.history <==> mine != []) && (egnHash in s.mapping <==> mine != [])
    && Recounts(mac, egnHash, mine, HistoryOf(s, egnHash))
    && (mine != [] ==> var last := mine[|mine| - 1];
                       s.mapping[egnHash] == Entry(last.ballotId, last.channel, last.at))
  }

  lemma LinkedNext(mac: string -> string, egnHash: string, entries: seq<HistoryEntry>, e: HistoryEntry)
    requires Linked(mac, egnHash, entries)
    requires e.rowHash == ComputeRowHash(mac, PrevHash(entries, |entries|), egnHash, e.ballotId, e.seqNo)
    ensures Linked(mac, egnHash, entries + [e])
  {
    forall i | 0 <= i < |entries + [e]|
      ensures LinkedAt(mac, egnHash, entries + [e], i)
    {
      assert i < |entries| ==> LinkedAt(mac, egnHash, entries, i);
      assert PrevHash(entries + [e], i) == PrevHash(entries, i);
    }
  }

  /** After any run of Record, every voter's history is that voter's submissions in order, numbered
      1..n and linked, and the active ballot is the last of them. */
  lemma {:induction false} RunTracks(mac: string -> string, subs: seq<Submission>)
    ensures Tracks(mac, AfterAll(mac, subs), subs)
    decreases |subs|
  {
    if subs != [] {
      var (before, last) := (subs[..|subs| - 1], subs[|subs| - 1]);
      RunTracks(mac, before);
      forall egnHash
        ensures TracksVoter(mac, AfterAll(mac, subs), subs, egnHash)
      {
        assert TracksVoter(mac, AfterAll(mac, before), before, egnHash);
        if egnHash == last.egnHash {
          var entries := HistoryOf(AfterAll(mac, before), egnHash);
          LinkedNext(mac, egnHash, entries, NextEntry(mac, entries, last));
        }
      }
    }
  }

  /** So the audit never fails on the store's own chains, and names the active ballot of each. */
  lemma ChainsPassAudit(mac: string -> string, subs: seq<Submission>, c: OverrideChain)
    requires IsOverride(AfterAll(mac, subs), c)
    ensures Linked(mac, c.egnHash, c.submissions) && c.egnHash in AfterAll(mac, subs).mapping
    ensures c.ActiveBallotId() == AfterAll(mac, subs).mapping[c.egnHash].ballotId
    ensures |Of(subs, c.egnHash)| == |c.submissions|
  {
    RunTracks(mac, subs);
    assert TracksVoter(mac, AfterAll(mac, subs), subs, c.egnHash);
  }

  /** The chains that the enumeration may emit are exactly those of the voters with two submissions or
      more: all of them, in order, numbered and linked. */
  lemma OverridesExactly(mac: string -> string, subs: seq<Submission>, egnHash: string, entries: seq<HistoryEntry>)
    ensures IsOverride(AfterAll(mac, subs), OverrideChain(egnHash, entries))
      <==> |Of(subs, egnHash)| >= 2 && Recounts(mac, egnHash, Of(subs, egnHash), entries)
  {
    RunTracks(mac, subs);
    var s := AfterAll(mac, subs);
    assert TracksVoter(mac, s, subs, egnHash);
    if Recounts(mac, egnHash, Of(subs, egnHash), entries) {
      OneRecount(mac, egnHash, Of(subs, egnHash), entries, HistoryOf(s, egnHash));
    }
  }

  /** Submissions have one history. */
  lemma OneRecount(mac: string -> string, egnHash: string, subs: seq<Submission>, a: seq<HistoryEntry>, b: seq<HistoryEntry>)
    requires Recounts(mac, egnHash, subs, a) && Recounts(mac, egnHash, subs, b)
    ensures a == b
  {
    SameUpTo(mac, egnHash, subs, a, b, |subs|);
    assert a[..|subs|] == a && b[..|subs|] == b;
  }

  lemma {:induction false} SameUpTo(mac: string -> string, egnHash: string, subs: seq<Submission>, a: seq<HistoryEntry>,
                                    b: seq<HistoryEntry>, n: nat)
    requires Recounts(mac, egnHash, subs, a) && Recounts(mac, egnHash, subs, b) && n <= |subs|
    ensures a[..n] == b[..n]
  {
    if n > 0 {
      SameUpTo(mac, egnHash, subs, a, b, n - 1);
      assert LinkedAt(mac, egnHash, a, n - 1) && LinkedAt(mac, egnHash, b, n - 1);
      assert n > 1 ==> a[..n - 1][n - 2] == b[..n - 1][n - 2];
      assert a[..n] == a[..n - 1] + [a[n - 1]] && b[..n] == b[..n - 1] + [b[n - 1]];
    }
  }

  // ----- the framing is injective

  lemma SplitFirst(a: string, x: string, b: string, y: string)
    requires NUL !in a && NUL !in b && a + ([NUL] + x) == b + ([NUL] + y)
    ensures a == b && x == y
  {
    var (s, t) := (a + ([NUL] + x), b + ([NUL] + y));
    assert s[|a|] == NUL && t[|b|] == NUL;
    assert s[..|a|] == a && t[..|b|] == b && s[|a| + 1..] == x && t[|b| + 1..] == y;
  }

  lemma SplitLast(x: string, a: string, y: string, b: string)
    requires NUL !in a && NUL !in b && x + ([NUL] + a) == y + ([NUL] + b)
    ensures a == b && x == y
  {
    var (s, t) := (x + ([NUL] + a), y + ([NUL] + b));
    assert s[|x|] == NUL && t[|y|] == NUL;
    assert s[..|x|] == x && t[..|y|] == y && s[|x| + 1..] == a && t[|y| + 1..] == b;
  }

  lemma {:induction false} DigitsShape(n: nat)
    ensures Digits(n) != "" && forall c :: c in Digits(n) ==> 48 <= c as int <= 57
  {
    if n >= 10 {
      DigitsShape(n / 10);
    }
  }

  /** The number that decimal digits stand for. */
  function Number(s: string): int {
    if s == [] then 0 else Number(s[..|s| - 1]) * 10 + (s[|s| - 1] as int - '0' as int)
  }

  lemma {:induction false} NumberOfDigits(n: nat)
    ensures Number(Digits(n)) == n
  {
    var s := Digits(n);
    if n < 10 {
      assert s[..0] == [] && Number(s[..0]) == 0;
    } else {
      NumberOfDigits(n / 10);
      assert s[..|s| - 1] == Digits(n / 10);
    }
  }

  /** The integer that a sequence number reads as. */
  function Reading(s: string): int {
    if s != [] && s[0] == '-' then -Number(s[1..]) else Number(s)
  }

  lemma DecimalReads(n: int)
    ensures Reading(Decimal(n)) == n && (Decimal(n)[..1] == "-" <==> n < 0)
  {
    var a := if n < 0 then -n else n;
    DigitsShape(a);
    NumberOfDigits(a);
    assert n < 0 ==> Decimal(n)[0] == '-' && Decimal(n)[1..] == Digits(a);
    assert n >= 0 ==> Digits(a)[0] in Digits(a);
  }

  lemma DecimalHasNoNul(n: int)
    ensures NUL !in Decimal(n)
  {
    DigitsShape(if n < 0 then -n else n);
  }

  /** For arbitrary ballot ids, NULs included: the other fields contain none. */
  lemma RowDataInjective(prev: string, egn: string, ballot: string, n: int, prev': string, egn': string,
                         ballot': string, n': int)
    requires NUL !in prev && NUL !in egn && NUL !in prev' && NUL !in egn'
    requires RowData(prev, egn, ballot, n) == RowData(prev', egn', ballot', n')
    ensures prev == prev' && egn == egn' && ballot == ballot' && n == n'
  {
    var (tail, tail') := (ballot + ([NUL] + Decimal(n)), ballot' + ([NUL] + Decimal(n')));
    SplitFirst(prev, egn + ([NUL] + tail), prev', egn' + ([NUL] + tail'));
    SplitFirst(egn, tail, egn', tail');
    DecimalHasNoNul(n);
    DecimalHasNoNul(n');
    SplitLast(ballot, Decimal(n), ballot', Decimal(n'));
    DecimalReads(n);
    DecimalReads(n');
  }

  /** The fields in their order, the number in decimal. */
  lemma RowDataExample()
    ensures RowData("prev", "voter", "ballot", 42) == "prev" + [NUL] + "voter" + [NUL] + "ballot" + [NUL] + "42"
    ensures RowData("", "voter", "ballot", 1) == [NUL] + "voter" + [NUL] + "ballot" + [NUL] + "1"
  {
    assert Digits(42) == Digits(4) + ['2'] && Digits(4) == ['4'];
  }

  // ----- what the audit proves

  /** Two chains agree on everything that the MAC covers. */
  ghost predicate SameRows(c: seq<HistoryEntry>, c': seq<HistoryEntry>) {
    && |c| == |c'|
    && forall i :: 0 <= i < |c| ==> c[i].ballotId == c'[i].ballotId && c[i].seqNo == c'[i].seqNo && c[i].rowHash == c'[i].rowHash
  }

  lemma LinkedPrefix(mac: string -> string, egnHash: string, entries: seq<HistoryEntry>, n: nat)
    requires Linked(mac, egnHash, entries) && n <= |entries|
    ensures Linked(mac, egnHash, entries[..n])
  {
    forall i | 0 <= i < n
      ensures LinkedAt(mac, egnHash, entries[..n], i)
    {
      assert LinkedAt(mac, egnHash, entries, i) && PrevHash(entries[..n], i) == PrevHash(entries, i);
    }
  }

  lemma PrevHashNoNul(mac: string -> string, egnHash: string, entries: seq<HistoryEntry>, i: nat)
    requires IsMac(mac) && Linked(mac, egnHash, entries) && i <= |entries|
    ensures NUL !in PrevHash(entries, i) && (PrevHash(entries, i) == "" <==> i == 0)
  {
    assert i > 0 ==> LinkedAt(mac, egnHash, entries, i - 1);
  }

  /** Two chains that pass the audit and end in the same row hash belong to the same voter and hold
      the same ballots under the same numbers, or two inputs collide under the MAC. */
  lemma {:induction false} LastHashBinds(mac: string -> string, egn: string, c: seq<HistoryEntry>, egn': string,
                                         c': seq<HistoryEntry>)
    returns (x: string, y: string)
    requires IsMac(mac) && NUL !in egn && NUL !in egn' && Linked(mac, egn, c) && Linked(mac, egn', c')
    requires c != [] && c' != [] && c[|c| - 1].rowHash == c'[|c'| - 1].rowHash
    ensures (egn == egn' && SameRows(c, c')) || (x != y && mac(x) == mac(y))
    decreases |c|
  {
    var (i, j) := (|c| - 1, |c'| - 1);
    assert LinkedAt(mac, egn, c, i) && LinkedAt(mac, egn', c', j);
    PrevHashNoNul(mac, egn, c, i);
    PrevHashNoNul(mac, egn', c', j);
    x := RowData(PrevHash(c, i), egn, c[i].ballotId, c[i].seqNo);
    y := RowData(PrevHash(c', j), egn', c'[j].ballotId, c'[j].seqNo);
    if x == y {
      RowDataInjective(PrevHash(c, i), egn, c[i].ballotId, c[i].seqNo, PrevHash(c', j), egn', c'[j].ballotId, c'[j].seqNo);
      if i > 0 {
        LinkedPrefix(mac, egn, c, i);
        LinkedPrefix(mac, egn', c', j);
        x, y := LastHashBinds(mac, egn, c[..i], egn', c'[..j]);
        ExtendSame(c, c');
      }
    }
  }

  lemma ExtendSame(c: seq<HistoryEntry>, c': seq<HistoryEntry>)
    requires c != [] && c' != []
    ensures var (i, j) := (|c| - 1, |c'| - 1);
      SameRows(c[..i], c'[..j]) && SameRows([c[i]], [c'[j]]) ==> SameRows(c, c')
  {
    var (i, j) := (|c| - 1, |c'| - 1);
    if SameRows(c[..i], c'[..j]) && SameRows([c[i]], [c'[j]]) {
      assert [c[i]][0] == c[i] && [c'[j]][0] == c'[j];
      forall k | 0 <= k < |c|
        ensures c[k].ballotId == c'[k].ballotId && c[k].seqNo == c'[k].seqNo && c[k].rowHash == c'[k].rowHash
      {
        assert k < i ==> c[..i][k] == c[k] && c'[..j][k] == c'[k];
      }
    }
  }

  /** The stored last row hash pins the recorded history: any audited chain that ends in it lists
      the voter's own submissions, all of them, in order and numbered 1..n. */
  lemma StoredHashPinsHistory(mac: string -> string, subs: seq<Submission>, egn: string, claimed: OverrideChain)
    returns (x: string, y: string)
    requires IsMac(mac) && NUL !in egn && NUL !in claimed.egnHash && Linked(mac, claimed.egnHash, claimed.submissions)
    requires var stored := HistoryOf(AfterAll(mac, subs), egn);
      stored != [] && claimed.submissions != []
      && claimed.submissions[|claimed.submissions| - 1].rowHash == stored[|stored| - 1].rowHash
    ensures var (mine, theirs) := (Of(subs, egn), claimed.submissions);
      (claimed.egnHash == egn && |theirs| == |mine|
       && forall i :: 0 <= i < |mine| ==> theirs[i].ballotId == mine[i].ballotId && theirs[i].seqNo == i + 1)
      || (x != y && mac(x) == mac(y))
  {
    RunTracks(mac, subs);
    assert TracksVoter(mac, AfterAll(mac, subs), subs, egn);
    x, y := LastHashBinds(mac, egn, HistoryOf(AfterAll(mac, subs), egn), claimed.egnHash, claimed.submissions);
  }

  /** Rows that agree on what the MAC covers pass the audit together, whatever their channels and
      times. */
  lemma SameRowsLinked(mac: string -> string, egnHash: string, c: seq<HistoryEntry>, c': seq<HistoryEntry>)
    requires Linked(mac, egnHash, c) && SameRows(c, c')
    ensures Linked(mac, egnHash, c')
  {
    forall i | 0 <= i < |c'|
      ensures LinkedAt(mac, egnHash, c', i)
    {
      assert LinkedAt(mac, egnHash, c, i) && PrevHash(c', i) == PrevHash(c, i);
    }
  }

  /** Exactly what the audit accepts against a voter's stored rows: a chain passes and ends in the
      row hash of stored row i if and only if it is the stored chain up to that row, with any
      channels and times; or two inputs collide under the MAC. */
  lemma AuditAccepts(mac: string -> string, egn: string, stored: seq<HistoryEntry>, i: nat, claimed: seq<HistoryEntry>)
    returns (x: string, y: string)
    requires IsMac(mac) && NUL !in egn && Linked(mac, egn, stored) && i < |stored|
    ensures (Linked(mac, egn, claimed) && EndsIn(claimed, stored[i].rowHash) <==> SameRows(stored[..i + 1], claimed))
      || (x != y && mac(x) == mac(y))
  {
    x, y := "", "";
    LinkedPrefix(mac, egn, stored, i + 1);
    if Linked(mac, egn, claimed) && EndsIn(claimed, stored[i].rowHash) {
      x, y := LastHashBinds(mac, egn, stored[..i + 1], egn, claimed);
    } else if SameRows(stored[..i + 1], claimed) {
      SameRowsLinked(mac, egn, stored[..i + 1], claimed);
    }
  }

  ghost predicate EndsIn(c: seq<HistoryEntry>, rowHash: string) {
    c != [] && c[|c| - 1].rowHash == rowHash
  }

  /** So a chain that the audit passes and that ends in a stored row hash is the voter's record, up
      to channels and times, if and only if it has as many rows as the record; or the MAC collides. */
  lemma AuditBlindSpots(mac: string -> string, egn: string, stored: seq<HistoryEntry>, i: nat, claimed: seq<HistoryEntry>)
    returns (x: string, y: string)
    requires IsMac(mac) && NUL !in egn && Linked(mac, egn, stored) && i < |stored|
    requires Linked(mac, egn, claimed) && EndsIn(claimed, stored[i].rowHash)
    ensures (SameRows(stored, claimed) <==> |claimed| == |stored|) || (x != y && mac(x) == mac(y))
  {
    x, y := AuditAccepts(mac, egn, stored, i, claimed);
    assert stored[..|stored|] == stored;
  }

  // ----- grouping sorted rows

  /** The query's rows: chain after chain. */
  ghost function Flatten(chains: seq<OverrideChain>): seq<Row> {
    if chains == [] then [] else RowsOf(chains[0]) + Flatten(chains[1..])
  }

  ghost function RowsOf(c: OverrideChain): seq<Row> {
    seq(|c.submissions|, (i: nat) requires i < |c.submissions| => Row(c.egnHash, c.submissions[i]))
  }

  /** Neighbours belong to different voters, which sorting by voter and one chain each imply. */
  ghost predicate Apart(chains: seq<OverrideChain>) {
    && (forall i :: 0 <= i < |chains| ==> chains[i].submissions != [])
    && forall i :: 0 < i < |chains| ==> chains[i - 1].egnHash != chains[i].egnHash
  }

  lemma {:induction false} GroupRest(current: OverrideChain, more: seq<HistoryEntry>, rest: seq<Row>)
    ensures Group(current, RowsOf(OverrideChain(current.egnHash, more)) + rest)
         == Group(current.(submissions := current.submissions + more), rest)
    decreases |more|
  {
    var rows := RowsOf(OverrideChain(current.egnHash, more));
    if more == [] {
      assert rows + rest == rest && current.submissions + more == current.submissions;
    } else {
      var next := current.(submissions := current.submissions + [more[0]]);
      GroupRest(next, more[1..], rest);
      assert (rows + rest)[1..] == RowsOf(OverrideChain(current.egnHash, more[1..])) + rest;
      assert next.submissions + more[1..] == current.submissions + more;
    }
  }

  lemma {:induction false} GroupFlatten(current: OverrideChain, chains: seq<OverrideChain>)
    requires Apart(chains) && (chains != [] ==> chains[0].egnHash != current.egnHash && forall i :: 0 < i < |chains| ==> chains[i].egnHash != "")
    ensures Group(current, Flatten(chains)) == Emit(current) + (if chains != [] && chains[0].egnHash == "" then chains[1..] else chains)
    decreases |chains|
  {
    if chains == [] {
      assert Emit(current) + [] == Emit(current);
    } else {
      var (c, rest) := (chains[0], Flatten(chains[1..]));
      var (first, more) := (c.submissions[0], c.submissions[1..]);
      var begun := OverrideChain(c.egnHash, [first]);
      assert [first] + more == c.submissions;
      assert Flatten(chains) == RowsOf(c) + rest;
      assert Flatten(chains)[1..] == RowsOf(OverrideChain(c.egnHash, more)) + rest;
      GroupRest(begun, more, rest);
      ApartTail(chains);
      GroupFlatten(c, chains[1..]);
      assert chains == [c] + chains[1..];
    }
  }

  lemma ApartTail(chains: seq<OverrideChain>)
    requires chains != [] && Apart(chains)
    ensures Apart(chains[1..]) && (|chains| > 1 ==> chains[1..][0].egnHash != chains[0].egnHash)
  {
    var tail := chains[1..];
    assert forall i :: 0 <= i < |tail| ==> tail[i] == chains[i + 1];
    forall i | 0 < i < |tail|
      ensures tail[i - 1].egnHash != tail[i].egnHash
    {
      assert chains[i + 1 - 1].egnHash != chains[i + 1].egnHash;
    }
  }

  /** The loop recovers the chains that the rows were read from, if and only if no voter hash is
      empty: a voter with the empty hash, who sorts first, is left out. */
  lemma {:induction false} GroupingRecovers(chains: seq<OverrideChain>)
    requires Apart(chains) && forall i :: 0 < i < |chains| ==> chains[i].egnHash != ""
    ensures Group(NO_CHAIN, Flatten(chains)) == chains <==> (chains != [] ==> chains[0].egnHash != "")
    ensures chains != [] && chains[0].egnHash == "" ==> Group(NO_CHAIN, Flatten(chains)) == chains[1..]
  {
    if chains != [] && chains[0].egnHash == "" {
      var (c, rest) := (chains[0], Flatten(chains[1..]));
      GroupRest(NO_CHAIN, c.submissions, rest);
      assert [] + c.submissions == c.submissions;
      assert OverrideChain(NO_CHAIN.egnHash, c.submissions) == c;
      ApartTail(chains);
      GroupFlatten(c, chains[1..]);
      assert Group(NO_CHAIN, Flatten(chains)) == [] + chains[1..];
    } else {
      GroupFlatten(NO_CHAIN, chains);
      assert [] + chains == chains;
    }
  }
}
