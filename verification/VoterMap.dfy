/** collection/votermap/votermap.go, the audit of collection/audit/audit.go and the row grouping of
    collection/store/postgres.go: each voter's submissions as a chain of hashed rows. */
module VoterMap {
  import opened Common

  datatype Channel = Online | InPerson

  datatype Submission = Submission(egnHash: string, ballotId: string, channel: Channel, at: int)

  datatype HistoryEntry = HistoryEntry(ballotId: string, channel: Channel, at: int, seqNo: int, rowHash: string)

  datatype OverrideChain = OverrideChain(egnHash: string, submissions: seq<HistoryEntry>) {
    function ActiveBallotId(): string {
      if submissions == [] then "" else submissions[|submissions| - 1].ballotId
    }
  }

  datatype Entry = Entry(ballotId: string, channel: Channel, at: int)

  datatype Records = Records(mapping: map<string, Entry>, history: map<string, seq<HistoryEntry>>)

  // ----- row hashes

  const NUL: char := 0 as char

  function Digits(n: nat): string {
    if n < 10 then [(n + 48) as char] else Digits(n / 10) + [(n % 10 + 48) as char]
  }

  /** %d */
  function Decimal(n: int): string {
    if n < 0 then ['-'] + Digits(-n) else Digits(n)
  }

  /** The bytes that the MAC covers. */
  function RowData(prevHash: string, egnHash: string, ballotId: string, seqNo: int): string {
    prevHash + ([NUL] + (egnHash + ([NUL] + (ballotId + ([NUL] + Decimal(seqNo))))))
  }

  /** ComputeRowHash, over the keyed MAC and its hex encoding, left uninterpreted. */
  function ComputeRowHash(mac: string -> string, prevHash: string, egnHash: string, ballotId: string,
                          seqNo: int): string {
    mac(RowData(prevHash, egnHash, ballotId, seqNo))
  }

  /** Hex digests are not empty and contain no NUL. */
  ghost predicate IsMac(mac: string -> string) {
    forall data :: mac(data) != "" && NUL !in mac(data)
  }

  // ----- the audit

  function PrevHash(entries: seq<HistoryEntry>, i: nat): string
    requires i <= |entries|
  {
    if i == 0 then "" else entries[i - 1].rowHash
  }

  ghost predicate Linked(mac: string -> string, egnHash: string, entries: seq<HistoryEntry>) {
    forall i :: 0 <= i < |entries| ==> LinkedAt(mac, egnHash, entries, i)
  }

  ghost predicate LinkedAt(mac: string -> string, egnHash: string, entries: seq<HistoryEntry>, i: nat)
    requires i < |entries|
  {
    entries[i].rowHash == ComputeRowHash(mac, PrevHash(entries, i), egnHash, entries[i].ballotId, entries[i].seqNo)
  }

  method VerifyHashChain(mac: string -> string, chain: OverrideChain) returns (ok: bool)
    ensures ok <==> Linked(mac, chain.egnHash, chain.submissions)
  {
    var prevHash := "";
    for i := 0 to |chain.submissions|
      invariant prevHash == PrevHash(chain.submissions, i)
      invariant forall k :: 0 <= k < i ==> LinkedAt(mac, chain.egnHash, chain.submissions, k)
    {
      var entry := chain.submissions[i];
      var expected := ComputeRowHash(mac, prevHash, chain.egnHash, entry.ballotId, entry.seqNo);
      if entry.rowHash != expected {
        assert !LinkedAt(mac, chain.egnHash, chain.submissions, i);
        return false;
      }
      prevHash := entry.rowHash;
    }
    return true;
  }

  // ----- recording

  function HistoryOf(s: Records, egnHash: string): seq<HistoryEntry> {
    if egnHash in s.history then s.history[egnHash] else []
  }

  function NextEntry(mac: string -> string, entries: seq<HistoryEntry>, sub: Submission): HistoryEntry {
    var seqNo := |entries| + 1;
    HistoryEntry(sub.ballotId, sub.channel, sub.at, seqNo,
                 ComputeRowHash(mac, PrevHash(entries, |entries|), sub.egnHash, sub.ballotId, seqNo))
  }

  function AfterRecord(mac: string -> string, s: Records, sub: Submission): Records {
    var entries := HistoryOf(s, sub.egnHash);
    Records(s.mapping[sub.egnHash := Entry(sub.ballotId, sub.channel, sub.at)],
            s.history[sub.egnHash := entries + [NextEntry(mac, entries, sub)]])
  }

  const NO_RECORDS: Records := Records(map[], map[])

  /** The store after a run of submissions. */
  function AfterAll(mac: string -> string, subs: seq<Submission>): Records {
    if subs == [] then NO_RECORDS
    else AfterRecord(mac, AfterAll(mac, subs[..|subs| - 1]), subs[|subs| - 1])
  }

  /** The voters, each once, in some order: the unspecified order of a Go map iteration. */
  ghost predicate Enumerates<V>(m: map<string, V>, voters: seq<string>) {
    NoRepeat(voters) && forall v :: v in voters <==> v in m
  }

  class MemoryStore {
    const mac: string -> string
    var mapping: map<string, Entry>
    var history: map<string, seq<HistoryEntry>>

    function View(): Records
      reads this
    {
      Records(mapping, history)
    }

    constructor (mac: string -> string)
      ensures View() == NO_RECORDS && this.mac == mac
    {
      this.mac, this.mapping, this.history := mac, map[], map[];
    }

    method Record(sub: Submission) returns (prev: string)
      modifies this
      ensures View() == AfterRecord(mac, old(View()), sub)
      ensures prev == if sub.egnHash in old(mapping) then old(mapping)[sub.egnHash].ballotId else ""
    {
      prev := "";
      if sub.egnHash in mapping {
        prev := mapping[sub.egnHash].ballotId;
      }
      mapping := mapping[sub.egnHash := Entry(sub.ballotId, sub.channel, sub.at)];
      var prevHash := "";
      var entries := HistoryOf(View(), sub.egnHash);
      if |entries| > 0 {
        prevHash := entries[|entries| - 1].rowHash;
      }
      var nextSeq := |entries| + 1;
      var rowHash := ComputeRowHash(mac, prevHash, sub.egnHash, sub.ballotId, nextSeq);
      history := history[sub.egnHash := entries + [HistoryEntry(sub.ballotId, sub.channel, sub.at, nextSeq, rowHash)]];
    }

    /** The active ballots, one per voter. */
    method ActiveSet() returns (ids: seq<string>, ghost voters: seq<string>)
      ensures |ids| == |mapping| && forall v :: v in mapping ==> mapping[v].ballotId in ids
      ensures Enumerates(mapping, voters) && |ids| == |voters|
      ensures forall i :: 0 <= i < |ids| ==> voters[i] in mapping && ids[i] == mapping[voters[i]].ballotId
    {
      ids, voters := [], [];
      var left := mapping.Keys;
      while left != {}
        invariant left <= mapping.Keys && |ids| == |voters| && |ids| + |left| == |mapping|
        invariant forall v :: v in mapping && v !in left ==> mapping[v].ballotId in ids
        invariant forall v :: v in voters <==> v in mapping && v !in left
        invariant forall i, j :: 0 <= i < j < |voters| ==> voters[i] != voters[j]
        invariant forall i :: 0 <= i < |ids| ==> voters[i] in mapping && ids[i] == mapping[voters[i]].ballotId
        decreases |left|
      {
        var egnHash :| egnHash in left;
        ids, voters, left := ids + [mapping[egnHash].ballotId], voters + [egnHash], left - {egnHash};
      }
    }

    /** GetAllOverrideChains: emitted holds the chains that fn was called on; only the last call may
        have failed, and then it stops. */
    method GetAllOverrideChains(fn: OverrideChain -> bool) returns (emitted: seq<OverrideChain>, ok: bool)
      ensures forall i :: 0 <= i < |emitted| ==> IsOverride(View(), emitted[i])
      ensures forall i, j :: 0 <= i < j < |emitted| ==> emitted[i].egnHash != emitted[j].egnHash
      ensures ok ==> forall c :: IsOverride(View(), c) ==> c in emitted
      ensures ok || emitted != []
      ensures forall i :: 0 <= i < |emitted| ==> (fn(emitted[i]) <==> ok || i < |emitted| - 1)
    {
      emitted := [];
      var left := history.Keys;
      while left != {}
        invariant left <= history.Keys
        invariant forall i :: 0 <= i < |emitted| ==> IsOverride(View(), emitted[i]) && emitted[i].egnHash !in left && fn(emitted[i])
        invariant forall i, j :: 0 <= i < j < |emitted| ==> emitted[i].egnHash != emitted[j].egnHash
        invariant forall c :: IsOverride(View(), c) && c.egnHash !in left ==> c in emitted
        decreases |left|
      {
        var egnHash :| egnHash in left;
        left := left - {egnHash};
        if |history[egnHash]| >= 2 {
          var chain := OverrideChain(egnHash, history[egnHash]);
          emitted := emitted + [chain];
          if !fn(chain) {
            return emitted, false;
          }
        }
      }
      ok := true;
    }
  }

  /** A voter who submitted at least twice, with the whole history. */
  predicate IsOverride(s: Records, c: OverrideChain) {
    c.egnHash in s.history && c.submissions == s.history[c.egnHash] && |c.submissions| >= 2
  }

  // ----- grouping sorted rows

  datatype Row = Row(egnHash: string, entry: HistoryEntry)

  /** The chains that the grouping loop emits from `current` on. */
  function Group(current: OverrideChain, rows: seq<Row>): seq<OverrideChain>
    decreases |rows|
  {
    if rows == [] then Emit(current)
    else
      var r := rows[0];
      if r.egnHash != current.egnHash then Emit(current) + Group(OverrideChain(r.egnHash, [r.entry]), rows[1..])
      else Group(current.(submissions := current.submissions + [r.entry]), rows[1..])
  }

  /** An empty voter hash marks that no group has begun. */
  function Emit(current: OverrideChain): seq<OverrideChain> {
    if current.egnHash == "" then [] else [current]
  }

  const NO_CHAIN: OverrideChain := OverrideChain("", [])

  /** The chain in progress after one more row, and what the loop emits on that row. */
  function Started(current: OverrideChain, r: Row): OverrideChain {
    if r.egnHash != current.egnHash then OverrideChain(r.egnHash, [r.entry])
    else current.(submissions := current.submissions + [r.entry])
  }

  function Closed(current: OverrideChain, r: Row): seq<OverrideChain> {
    if r.egnHash != current.egnHash then Emit(current) else []
  }

  lemma GroupStep(current: OverrideChain, rows: seq<Row>, i: nat)
    requires i <= |rows|
    ensures i == |rows| ==> Group(current, rows[i..]) == Emit(current)
    ensures i < |rows| ==> Group(current, rows[i..]) == Closed(current, rows[i]) + Group(Started(current, rows[i]), rows[i + 1..])
  {
    if i < |rows| {
      assert rows[i..][1..] == rows[i + 1..];
      assert [] + Group(Started(current, rows[i]), rows[i + 1..]) == Group(Started(current, rows[i]), rows[i + 1..]);
    }
  }

  lemma OneMoreCall(fn: OverrideChain -> bool, emitted: seq<OverrideChain>, c: OverrideChain)
    requires forall i :: 0 <= i < |emitted| ==> fn(emitted[i])
    ensures forall i :: 0 <= i < |emitted + [c]| ==> (fn((emitted + [c])[i]) <==> fn(c) || i < |emitted|)
  {
  }

  /** GetAllOverrideChains of the Postgres store, over the rows of its query. */
  method GroupRows(rows: seq<Row>, fn: OverrideChain -> bool) returns (emitted: seq<OverrideChain>, ok: bool)
    ensures emitted <= Group(NO_CHAIN, rows) && (ok ==> emitted == Group(NO_CHAIN, rows))
    ensures ok || emitted != []
    ensures forall i :: 0 <= i < |emitted| ==> (fn(emitted[i]) <==> ok || i < |emitted| - 1)
  {
    hide Group;
    emitted := [];
    var current := NO_CHAIN;
    assert rows[0..] == rows;
    for i := 0 to |rows|
      invariant Group(NO_CHAIN, rows) == emitted + Group(current, rows[i..])
      invariant forall k :: 0 <= k < |emitted| ==> fn(emitted[k])
    {
      GroupStep(current, rows, i);
      var r := rows[i];
      ghost var (was, before) := (current, emitted);
      if r.egnHash != current.egnHash {
        if current.egnHash != "" {
          OneMoreCall(fn, emitted, current);
          emitted := emitted + [current];
          if !fn(current) {
            return emitted, false;
          }
        }
        current := OverrideChain(r.egnHash, []);
      }
      current := current.(submissions := current.submissions + [r.entry]);
      assert current == Started(was, r) && emitted == before + Closed(was, r);
      ghost var later := Group(current, rows[i + 1..]);
      assert before + (Closed(was, r) + later) == emitted + later;
    }
    GroupStep(current, rows, |rows|);
    if current.egnHash != "" {
      OneMoreCall(fn, emitted, current);
      emitted, ok := emitted + [current], fn(current);
    } else {
      ok := true;
    }
  }
}
