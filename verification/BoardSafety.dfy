/** The bulletin board over every run of appends, seals and restarts: the tree and the table agree,
    what was published stays. */
module BoardSafety {
  import opened Common
  import opened Rfc9162
  import opened Framing
  import opened Board

  // ----- leaf encoding

  ghost predicate Small(r: Record) {
    |r.id| < U32_END && |r.encrypted| < U32_END && |r.proofs| < U32_END
  }

  /** The leaf of the documentation: three fields in this order, each after its length. */
  lemma LeafIsFramed(r: Record)
    ensures EncodeLeaf(r) == Framed([r.id, r.encrypted, r.proofs])
  {
    var (fields, two, one) := ([r.id, r.encrypted, r.proofs], [r.encrypted, r.proofs], [r.proofs]);
    assert fields[1..] == two && two[1..] == one && one[1..] == one[..0];
    assert Framed(one) == U32(|r.proofs|) + r.proofs;
    assert Framed(two) == U32(|r.encrypted|) + (r.encrypted + Framed(one));
    assert Framed(fields) == U32(|r.id|) + (r.id + Framed(two));
  }

  /** The length prefixes make the leaf encoding injective. */
  lemma EncodeLeafInjective(r: Record, r': Record)
    requires Small(r) && Small(r') && EncodeLeaf(r) == EncodeLeaf(r')
    ensures r == r'
  {
    LeafIsFramed(r);
    LeafIsFramed(r');
    var (a, b) := ([r.id, r.encrypted, r.proofs], [r'.id, r'.encrypted, r'.proofs]);
    FramedInjective(a, b);
    assert a[0] == b[0] && a[1] == b[1] && a[2] == b[2];
  }

  // ----- the table in position order

  lemma {:induction false} OrderOfRange(keys: set<int>, lo: int, hi: int)
    requires lo <= hi && forall p :: p in keys <==> lo < p <= hi
    ensures |Ordered(keys)| == hi - lo && forall i :: 0 <= i < hi - lo ==> Ordered(keys)[i] == lo + 1 + i
    decreases hi - lo
  {
    if lo == hi {
      SomeMember(keys);
    } else {
      assert lo + 1 in keys;
      LeastExists(keys);
      var k :| IsLeast(k, keys);
      OrderOfRange(keys - {k}, lo + 1, hi);
      assert Ordered(keys) == [k] + Ordered(keys - {k});
    }
  }

  lemma DenseOrder(t: Table)
    requires Dense(t)
    ensures |Ordered(t.Keys)| == |t| == MaxPosition(t) && forall i :: 0 <= i < |t| ==> Ordered(t.Keys)[i] == i + 1
  {
    OrderOfRange(t.Keys, 0, |t|);
  }

  lemma LeavesOfDense(H: Hasher, t: Table)
    requires Dense(t)
    ensures |Leaves(H, t)| == |t| && forall i :: 0 <= i < |t| ==> Leaves(H, t)[i] == LeafAt(H, t, i + 1)
  {
    DenseOrder(t);
  }

  lemma NextDense(t: Table, r: Record)
    requires Dense(t)
    ensures |t| + 1 !in t && |t[|t| + 1 := r]| == |t| + 1 && Dense(t[|t| + 1 := r])
  {
    var t' := t[|t| + 1 := r];
    assert |t| + 1 !in t;
    assert t'.Keys == t.Keys + {|t| + 1};
    assert |t'| == |t'.Keys| == |t| + 1;
    forall p: int
      ensures p in t' <==> 1 <= p <= |t'|
    {
      assert p in t' <==> p in t || p == |t| + 1;
    }
  }

  /** A row at the next position leaves the table dense and adds one leaf. */
  lemma NextRow(H: Hasher, t: Table, r: Record)
    requires Dense(t) && UniqueIds(t) && !Taken(t, r.id)
    ensures var t' := t[|t| + 1 := r];
      |t'| == |t| + 1 && Dense(t') && UniqueIds(t') && Leaves(H, t') == Leaves(H, t) + [H.leaf(EncodeLeaf(r))]
  {
    hide Ordered, Leaves, EncodeLeaf;
    NextDense(t, r);
    LeavesOfDense(H, t);
    LeavesOfDense(H, t[|t| + 1 := r]);
  }

  // ----- one append

  /** The table that pass i of the retry loop starts from, when the passes before it wrote nothing. */
  function TableAt(t: Table, attempts: seq<Attempt>, i: nat): Table
    requires i <= |attempts|
  {
    if i == 0 then t else attempts[i - 1].meanwhile + TableAt(t, attempts, i - 1)
  }

  /** The pass violates a constraint whose name does not say "ballot". */
  ghost predicate Conflicts(names: Constraints, t: Table, r: Record, a: Attempt) {
    && !a.maxFails && !a.insert.Refused?
    && if Taken(a.meanwhile + t, r.id) then !Contains(names.id, "ballot")
       else MaxPosition(t) + 1 in a.meanwhile + t && !Contains(names.position, "ballot")
  }

  /** The passes before k conflict, and k, if there is such a pass, does not. */
  ghost predicate StopsAt(names: Constraints, t: Table, r: Record, attempts: seq<Attempt>, k: nat) {
    && k <= |attempts|
    && (forall i :: 0 <= i < k ==> Conflicts(names, TableAt(t, attempts, i), r, attempts[i]))
    && (k < |attempts| ==> !Conflicts(names, TableAt(t, attempts, k), r, attempts[k]))
  }

  /** The first pass that does not conflict. */
  ghost function Stop(names: Constraints, t: Table, r: Record, attempts: seq<Attempt>): (k: nat)
    ensures k <= |attempts|
    decreases |attempts|
  {
    if attempts == [] || !Conflicts(names, t, r, attempts[0]) then 0
    else 1 + Stop(names, attempts[0].meanwhile + t, r, attempts[1..])
  }

  /** The retry loop for every choice of constraint names: it goes on exactly as long as passes violate
      a constraint whose name does not contain "ballot", each on the table that the other writers have
      left, and reports a position conflict exactly when all passes do. */
  lemma RetriesExactly(names: Constraints, t: Table, r: Record, attempts: seq<Attempt>) returns (k: nat)
    requires attempts != []
    ensures StopsAt(names, t, r, attempts, k)
    ensures Retry(names, t, r, attempts).1 == Err(Conflict) <==> k == |attempts|
    ensures k < |attempts| ==> Retry(names, t, r, attempts) == Retry(names, TableAt(t, attempts, k), r, [attempts[k]])
  {
    hide Retry, StopsAt, TableAt;
    k := Stop(names, t, r, attempts);
    StopStops(names, t, r, attempts);
    StopDecides(names, t, r, attempts);
  }

  lemma {:induction false} StopStops(names: Constraints, t: Table, r: Record, attempts: seq<Attempt>)
    ensures StopsAt(names, t, r, attempts, Stop(names, t, r, attempts))
    decreases |attempts|
  {
    hide Conflicts;
    if attempts != [] && Conflicts(names, t, r, attempts[0]) {
      StopStops(names, attempts[0].meanwhile + t, r, attempts[1..]);
      hide StopsAt, TableAt;
      StopsLater(names, t, r, attempts, Stop(names, attempts[0].meanwhile + t, r, attempts[1..]));
    }
  }

  lemma {:induction false} StopDecides(names: Constraints, t: Table, r: Record, attempts: seq<Attempt>)
    requires attempts != []
    ensures var k := Stop(names, t, r, attempts);
      && (Retry(names, t, r, attempts).1 == Err(Conflict) <==> k == |attempts|)
      && (k < |attempts| ==> Retry(names, t, r, attempts) == Retry(names, TableAt(t, attempts, k), r, [attempts[k]]))
    decreases |attempts|
  {
    OnePass(names, t, r, attempts);
    hide Retry, Conflicts;
    if Conflicts(names, t, r, attempts[0]) && |attempts| > 1 {
      var (t', rest) := (attempts[0].meanwhile + t, attempts[1..]);
      StopDecides(names, t', r, rest);
      var f := Stop(names, t', r, rest);
      assert f < |rest| ==> rest[f] == attempts[f + 1];
      TableAfterFirst(t, attempts, f);
      hide TableAt;
    }
  }

  lemma StopsLater(names: Constraints, t: Table, r: Record, attempts: seq<Attempt>, f: nat)
    requires attempts != [] && Conflicts(names, t, r, attempts[0])
    requires StopsAt(names, attempts[0].meanwhile + t, r, attempts[1..], f)
    ensures f < |attempts| && StopsAt(names, t, r, attempts, f + 1)
    ensures TableAt(attempts[0].meanwhile + t, attempts[1..], f) == TableAt(t, attempts, f + 1)
  {
    hide Conflicts;
    var (t', rest) := (attempts[0].meanwhile + t, attempts[1..]);
    forall i | 0 <= i <= f
      ensures TableAt(t', rest, i) == TableAt(t, attempts, i + 1)
    {
      TableAfterFirst(t, attempts, i);
    }
    forall i | 0 <= i <= f
      ensures Conflicts(names, TableAt(t, attempts, i), r, attempts[i])
    {
      if i > 0 {
        assert rest[i - 1] == attempts[i];
        assert Conflicts(names, TableAt(t', rest, i - 1), r, rest[i - 1]);
      }
    }
  }

  lemma OnePass(names: Constraints, t: Table, r: Record, attempts: seq<Attempt>)
    requires attempts != []
    ensures var t' := attempts[0].meanwhile + t;
      Conflicts(names, t, r, attempts[0]) ==>
        Retry(names, t, r, attempts) == if |attempts| == 1 then (t', Err(Conflict)) else Retry(names, t', r, attempts[1..])
    ensures !Conflicts(names, t, r, attempts[0]) ==>
      Retry(names, t, r, attempts) == Retry(names, t, r, [attempts[0]]) && Retry(names, t, r, attempts).1 != Err(Conflict)
  {
    hide MaxPosition, Taken, Contains;
  }

  lemma {:induction false} TableAfterFirst(t: Table, attempts: seq<Attempt>, i: nat)
    requires i < |attempts|
    ensures TableAt(attempts[0].meanwhile + t, attempts[1..], i) == TableAt(t, attempts, i + 1)
  {
    if i > 0 {
      TableAfterFirst(t, attempts, i - 1);
    }
  }

  /** A position conflict reads as a duplicate, so the retry loop never makes a second pass, and the
      reply is the duplicate error exactly when the id or the position is taken by the time of the
      insert. */
  lemma NeverRetries(t: Table, r: Record, attempts: seq<Attempt>)
    requires attempts != []
    ensures Insert(t, r, attempts) == Insert(t, r, attempts[..1]) && Insert(t, r, attempts).1 != Err(Conflict)
    ensures var a := attempts[0];
      Insert(t, r, attempts).1 == Err(Duplicate) <==>
      !a.maxFails && !a.insert.Refused? && (Taken(a.meanwhile + t, r.id) || MaxPosition(t) + 1 in a.meanwhile + t)
  {
    ConflictReadsAsDuplicate();
  }

  /** With a second writer, a ballot that is on no board can be refused as a duplicate. */
  lemma UnstoredDuplicate(r: Record, other: Record, rest: seq<Attempt>)
    requires r.id != other.id
    ensures Insert(map[], r, [Attempt(false, map[1 := other], Works)] + rest) == (map[1 := other], Err(Duplicate))
    ensures !Taken(map[1 := other], r.id)
  {
    var attempts := [Attempt(false, map[1 := other], Works)] + rest;
    assert map[1 := other] + map[] == map[1 := other];
    NeverRetries(map[], r, attempts);
  }

  /** The index agrees with the table. */
  ghost predicate Agreement(H: Hasher, s: State) {
    Dense(s.table) && UniqueIds(s.table) && s.leaves == Leaves(H, s.table)
  }

  /** Other writers add a row between the board's reading of the maximum and its insert. */
  ghost predicate Intrudes(t: Table, a: Attempt) {
    exists p :: p in a.meanwhile && p !in t
  }

  lemma InsertOutcome(t: Table, r: Record, attempts: seq<Attempt>)
    requires attempts != [] && !Intrudes(t, attempts[0]) && Dense(t)
    ensures var a := attempts[0];
      Insert(t, r, attempts) ==
        if a.maxFails || a.insert.Refused? then (t, Err(StoreFailed))
        else if Taken(t, r.id) then (t, Err(Duplicate))
        else (t[|t| + 1 := r], if a.insert.Works? then Ok(|t| + 1) else Err(StoreFailed))
  {
    ConflictReadsAsDuplicate();
    NoIntruder(t, attempts[0]);
    DenseOrder(t);
    assert |t| + 1 !in t;
    hide Dense, Ordered, MaxPosition, Taken, Violation, Intrudes;
  }

  lemma NoIntruder(t: Table, a: Attempt)
    requires !Intrudes(t, a)
    ensures a.meanwhile + t == t
  {
    var merged := a.meanwhile + t;
    forall p
      ensures p in merged <==> p in t
    {
      assert p in a.meanwhile ==> p in t;
    }
    assert forall p :: p in t ==> merged[p] == t[p];
  }

  /** The call gets as far as the insert. */
  predicate Reaches(validate: Validator, s: State, r: Record, a: Attempt) {
    !s.sealed && (validate.Some? ==> validate.value(r.encrypted, r.proofs)) && !a.maxFails
  }

  /** And the database stores the ballot, with or without a reply. */
  predicate Stores(validate: Validator, s: State, r: Record, a: Attempt) {
    Reaches(validate, s, r, a) && !a.insert.Refused? && !Taken(s.table, r.id)
  }

  /** With no other writer: when an append succeeds, what it changes then, and that a failed one
      changes nothing unless its reply was lost. */
  lemma AppendOutcome(H: Hasher, validate: Validator, s: State, r: Record, attempts: seq<Attempt>)
    requires |attempts| == MAX_RETRIES && !Intrudes(s.table, attempts[0]) && Dense(s.table) && UniqueIds(s.table)
    ensures var (s', reply) := AfterAppend(H, validate, s, r, attempts);
      var (row, leaf) := (s.table[|s.table| + 1 := r], H.leaf(EncodeLeaf(r)));
      var stored := Stores(validate, s, r, attempts[0]);
      && (reply.Appended? <==> stored && attempts[0].insert.Works?)
      && (reply.Appended? ==> s' == s.(table := row, leaves := s.leaves + [leaf])
                              && reply == Appended(|s.table| + 1, Head(H, s'.leaves)))
      && (!reply.Appended? ==> s' == if stored then s.(table := row) else s)
      && Dense(s'.table) && UniqueIds(s'.table)
  {
    hide Insert, Leaves, EncodeLeaf, Head, Taken, Dense, UniqueIds, Intrudes;
    InsertOutcome(s.table, r, attempts);
    if !Taken(s.table, r.id) {
      NextRow(H, s.table, r);
    }
  }

  /** Tree and table stay in agreement over one append if and only if no other writer added a row
      in between and no insert was stored with its reply lost. */
  lemma AppendAgreement(H: Hasher, validate: Validator, s: State, r: Record, attempts: seq<Attempt>)
    requires |attempts| == MAX_RETRIES && Agreement(H, s)
    ensures Agreement(H, AfterAppend(H, validate, s, r, attempts).0) <==>
      && !(Reaches(validate, s, r, attempts[0]) && Intrudes(s.table, attempts[0]))
      && !(Stores(validate, s, r, attempts[0]) && attempts[0].insert.ReplyLost?)
  {
    assert Dense(s.table) && UniqueIds(s.table);
    hide Intrudes, Insert, Agreement, AfterAppend, EncodeLeaf;
    var s' := AfterAppend(H, validate, s, r, attempts).0;
    AgreementSize(H, s);
    AgreementSize(H, s');
    if !Reaches(validate, s, r, attempts[0]) {
      NotReached(H, validate, s, r, attempts);
    } else if Intrudes(s.table, attempts[0]) {
      IntruderLeavesGap(H, validate, s, r, attempts);
    } else {
      AppendOutcome(H, validate, s, r, attempts);
      if !Taken(s.table, r.id) {
        KeptAgreement(H, s, r);
      }
    }
  }

  /** One row and its leaf keep agreement; a row without its leaf leaves a gap. */
  lemma KeptAgreement(H: Hasher, s: State, r: Record)
    requires Agreement(H, s) && !Taken(s.table, r.id)
    ensures var t' := s.table[|s.table| + 1 := r];
      |t'| == |s.table| + 1 && Agreement(H, s.(table := t', leaves := s.leaves + [H.leaf(EncodeLeaf(r))]))
  {
    NextRow(H, s.table, r);
  }

  lemma {:induction false} OrderedSize(keys: set<int>)
    ensures |Ordered(keys)| == |keys|
  {
    if keys != {} {
      LeastExists(keys);
      var k :| IsLeast(k, keys);
      OrderedSize(keys - {k});
      assert Ordered(keys) == [k] + Ordered(keys - {k});
    }
  }

  lemma AgreementSize(H: Hasher, s: State)
    ensures Agreement(H, s) ==> |s.leaves| == |s.table|
  {
    OrderedSize(s.table.Keys);
  }

  lemma IntruderLeavesGap(H: Hasher, validate: Validator, s: State, r: Record, attempts: seq<Attempt>)
    requires |attempts| == MAX_RETRIES && |s.leaves| == |s.table| && Intrudes(s.table, attempts[0])
    requires Reaches(validate, s, r, attempts[0])
    ensures var s' := AfterAppend(H, validate, s, r, attempts).0;
      |s'.leaves| < |s'.table|
  {
    InsertAdds(H, validate, s, r, attempts);
    IntruderInserted(s.table, r, attempts);
    hide AfterAppend, Insert, Intrudes, Reaches;
  }

  lemma InsertAdds(H: Hasher, validate: Validator, s: State, r: Record, attempts: seq<Attempt>)
    requires |attempts| == MAX_RETRIES && Reaches(validate, s, r, attempts[0])
    ensures var (s', o) := (AfterAppend(H, validate, s, r, attempts).0, Insert(s.table, r, attempts));
      s'.table == o.0 && |s'.leaves| == |s.leaves| + if o.1.Ok? then 1 else 0
  {
    hide Insert, Head, EncodeLeaf;
  }

  lemma IntruderInserted(t: Table, r: Record, attempts: seq<Attempt>)
    requires attempts != [] && !attempts[0].maxFails && Intrudes(t, attempts[0])
    ensures var (t', o) := Insert(t, r, attempts);
      |t'| > |t| + if o.Ok? then 1 else 0
  {
    OneAttempt(t, r, attempts);
    IntruderAddsRow(t, attempts[0]);
    InsertedSize(attempts[0].meanwhile + t, MaxPosition(t) + 1, r, attempts[0].insert);
    hide Insert, InsertBallot, MaxPosition, Intrudes;
  }

  lemma NotReached(H: Hasher, validate: Validator, s: State, r: Record, attempts: seq<Attempt>)
    requires |attempts| == MAX_RETRIES && !Reaches(validate, s, r, attempts[0])
    ensures AfterAppend(H, validate, s, r, attempts).0 == s
  {
  }

  lemma InsertedSize(t: Table, position: int, r: Record, fault: Fault)
    ensures var (t', reply) := InsertBallot(t, position, r, fault);
      |t'| >= |t| && (reply == Inserted ==> |t'| == |t| + 1)
  {
    hide Taken;
    ConflictReadsAsDuplicate();
  }

  /** What the retry loop makes of its first and only pass. */
  lemma OneAttempt(t: Table, r: Record, attempts: seq<Attempt>)
    requires attempts != [] && !attempts[0].maxFails
    ensures var (t', reply) := InsertBallot(attempts[0].meanwhile + t, MaxPosition(t) + 1, r, attempts[0].insert);
      Insert(t, r, attempts).0 == t' && (Insert(t, r, attempts).1.Ok? <==> reply == Inserted)
  {
    ConflictReadsAsDuplicate();
  }

  lemma IntruderAddsRow(t: Table, a: Attempt)
    requires Intrudes(t, a)
    ensures |a.meanwhile + t| > |t|
  {
    var merged := a.meanwhile + t;
    var p :| p in a.meanwhile && p !in t;
    Larger(t.Keys, merged.Keys, p);
  }

  lemma Larger(a: set<int>, b: set<int>, p: int)
    requires a <= b && p in b && p !in a
    ensures |a| < |b|
  {
    assert b == a + (b - a);
    assert p in b - a;
  }

  /** A concrete loss: the first ballot is stored but reported as failed; the second is accepted,
      and the board then has no proof for it and proves it in the first one's place. */
  lemma LostReplyMisplaces(H: Hasher, a: Record, b: Record, rest: seq<Attempt>)
    requires a.id != b.id && |rest| == MAX_RETRIES - 1
    ensures var s0 := State(map[], false, [], false);
      var (s1, r1) := AfterAppend(H, None, s0, a, [Attempt(false, map[], ReplyLost)] + rest);
      var (s2, r2) := AfterAppend(H, None, s1, b, [Attempt(false, map[], Works)] + rest);
      && r1 == StoreFailed && r2.Appended? && r2.position == 2 && s2.table == map[1 := a, 2 := b]
      && ProofFor(H, s2, 2) == NotInTree
      && ProofFor(H, s2, 1) == Included([], 1, H.leaf(EncodeLeaf(b)))
      && Agreement(H, AfterRestart(H, s2))
  {
    var s0 := State(map[], false, [], false);
    var first := [Attempt(false, map[], ReplyLost)] + rest;
    var s1 := AfterAppend(H, None, s0, a, first).0;
    AppendOutcome(H, None, s0, a, first);
    assert s1.table == map[1 := a];
    AppendOutcome(H, None, s1, b, [Attempt(false, map[], Works)] + rest);
  }

  // ----- runs

  datatype Step = Append(record: Record, attempts: seq<Attempt>) | Seal(fault: Fault) | Restart

  const INITIAL: State := State(map[], false, [], false)

  ghost function Do(H: Hasher, validate: Validator, s: State, step: Step): State
    requires step.Append? ==> |step.attempts| == MAX_RETRIES
  {
    match step
    case Append(r, attempts) => AfterAppend(H, validate, s, r, attempts).0
    case Seal(fault) => AfterSeal(s, fault)
    case Restart => AfterRestart(H, s)
  }

  ghost predicate Steps(H: Hasher, validate: Validator, states: seq<State>, steps: seq<Step>, k: nat)
    requires k < |steps| < |states|
  {
    (steps[k].Append? ==> |steps[k].attempts| == MAX_RETRIES) && states[k + 1] == Do(H, validate, states[k], steps[k])
  }

  ghost predicate Run(H: Hasher, validate: Validator, states: seq<State>, steps: seq<Step>) {
    && |states| == |steps| + 1 && states[0] == INITIAL
    && forall k :: 0 <= k < |steps| ==> Steps(H, validate, states, steps, k)
  }

  /** No other process inserts rows. */
  ghost predicate SingleWriter(steps: seq<Step>) {
    forall k :: 0 <= k < |steps| && steps[k].Append? && steps[k].attempts != [] ==> steps[k].attempts[0].meanwhile == map[]
  }

  /** The positions of the inserts since the last restart that were stored with their reply lost. */
  ghost function Lost(H: Hasher, validate: Validator, states: seq<State>, steps: seq<Step>, k: nat): set<int>
    requires k < |states| == |steps| + 1
  {
    if k == 0 then {}
    else
      match steps[k - 1]
      case Restart => {}
      case Seal(_) => Lost(H, validate, states, steps, k - 1)
      case Append(r, attempts) =>
        Lost(H, validate, states, steps, k - 1) + LostBy(validate, states[k - 1], r, attempts)
  }

  ghost function LostBy(validate: Validator, s: State, r: Record, attempts: seq<Attempt>): set<int> {
    if attempts != [] && Stores(validate, s, r, attempts[0]) && attempts[0].insert.ReplyLost? then {|s.table| + 1} else {}
  }

  lemma EmptyAgrees(H: Hasher)
    ensures Dense(INITIAL.table) && UniqueIds(INITIAL.table) && Agreement(H, INITIAL)
  {
  }

  lemma RestartAgrees(H: Hasher, s: State)
    requires Dense(s.table) && UniqueIds(s.table)
    ensures Agreement(H, AfterRestart(H, s))
  {
  }

  /** Positions are 1..n and ids are unique at every moment, whatever replies are lost. */
  lemma {:induction false} RunTable(H: Hasher, validate: Validator, states: seq<State>, steps: seq<Step>, k: nat)
    requires Run(H, validate, states, steps) && SingleWriter(steps) && k < |states|
    ensures Dense(states[k].table) && UniqueIds(states[k].table)
  {
    hide AfterAppend, Dense, UniqueIds;
    EmptyAgrees(H);
    if k > 0 {
      RunTable(H, validate, states, steps, k - 1);
      assert Steps(H, validate, states, steps, k - 1);
      if steps[k - 1].Append? {
        AppendOutcome(H, validate, states[k - 1], steps[k - 1].record, steps[k - 1].attempts);
      }
    }
  }

  /** The tree is that of the table at a moment of a single-writer run if and only if no stored
      insert lost its reply since the last restart; otherwise leaves are missing. */
  lemma {:induction false} RunAgreement(H: Hasher, validate: Validator, states: seq<State>, steps: seq<Step>, k: nat)
    requires Run(H, validate, states, steps) && SingleWriter(steps) && k < |states|
    ensures Agreement(H, states[k]) <==> Lost(H, validate, states, steps, k) == {}
    ensures |states[k].leaves| <= |states[k].table|
    ensures Lost(H, validate, states, steps, k) != {} ==> |states[k].leaves| < |states[k].table|
  {
    hide AfterAppend, Dense, UniqueIds, Leaves, Stores;
    RunTable(H, validate, states, steps, k);
    AgreementSize(H, states[k]);
    EmptyAgrees(H);
    if k > 0 {
      RunAgreement(H, validate, states, steps, k - 1);
      RunTable(H, validate, states, steps, k - 1);
      assert Steps(H, validate, states, steps, k - 1);
      match steps[k - 1] {
        case Append(r, attempts) => AppendGap(H, validate, states[k - 1], r, attempts);
        case Seal(_) => SealKeeps(H, states[k - 1], steps[k - 1].fault);
        case Restart => RestartAgrees(H, states[k - 1]);
      }
    }
  }

  lemma SealKeeps(H: Hasher, s: State, fault: Fault)
    ensures Agreement(H, AfterSeal(s, fault)) <==> Agreement(H, s)
  {
  }

  /** One single-writer append: it keeps agreement, opens a gap, or keeps the gap there is. */
  lemma AppendGap(H: Hasher, validate: Validator, s: State, r: Record, attempts: seq<Attempt>)
    requires |attempts| == MAX_RETRIES && attempts[0].meanwhile == map[] && Dense(s.table) && UniqueIds(s.table)
    requires Agreement(H, s) || |s.leaves| < |s.table|
    ensures var (s', lost) := (AfterAppend(H, validate, s, r, attempts).0,
                               Stores(validate, s, r, attempts[0]) && attempts[0].insert.ReplyLost?);
      if Agreement(H, s) && !lost then Agreement(H, s') else |s'.leaves| < |s'.table|
  {
    hide Insert, AfterAppend, Leaves, Dense, UniqueIds, EncodeLeaf;
    AppendOutcome(H, validate, s, r, attempts);
    AgreementSize(H, s);
    if !Taken(s.table, r.id) {
      NextRow(H, s.table, r);
    }
  }

  lemma InsertKeepsRows(t: Table, r: Record, attempts: seq<Attempt>)
    requires attempts != []
    ensures var t' := Insert(t, r, attempts).0;
      forall p :: p in t ==> p in t' && t'[p] == t[p]
  {
    NeverRetries(t, r, attempts);
  }

  /** Rows are never changed or removed, by any step of any run. */
  lemma {:induction false} RowsStay(H: Hasher, validate: Validator, states: seq<State>, steps: seq<Step>, j: nat,
                                    k: nat)
    requires Run(H, validate, states, steps) && j <= k < |states|
    ensures forall p :: p in states[j].table ==> p in states[k].table && states[k].table[p] == states[j].table[p]
    decreases k
  {
    if j < k {
      RowsStay(H, validate, states, steps, j, k - 1);
      assert Steps(H, validate, states, steps, k - 1);
      if steps[k - 1].Append? {
        InsertKeepsRows(states[k - 1].table, steps[k - 1].record, steps[k - 1].attempts);
      }
    }
  }

  /** Once Seal has succeeded, no step adds a row, across restarts too. */
  lemma {:induction false} SealedStays(H: Hasher, validate: Validator, states: seq<State>, steps: seq<Step>, j: nat,
                                       k: nat)
    requires Run(H, validate, states, steps) && j < k < |states| && steps[j] == Seal(Works)
    ensures states[k].sealed && states[k].sealedRow && states[k].table == states[j].table
    ensures k < |steps| ==> Steps(H, validate, states, steps, k)
    ensures k < |steps| && steps[k].Append? ==>
      AfterAppend(H, validate, states[k], steps[k].record, steps[k].attempts) == (states[k], BoardSealed)
    decreases k
  {
    assert Steps(H, validate, states, steps, k - 1);
    if j + 1 < k {
      SealedStays(H, validate, states, steps, j, k - 1);
    }
    if k < |steps| {
      assert Steps(H, validate, states, steps, k);
    }
  }

  lemma LeavesGrow(H: Hasher, t: Table, t': Table)
    requires Dense(t) && Dense(t') && forall p :: p in t ==> p in t' && t'[p] == t[p]
    ensures Leaves(H, t) <= Leaves(H, t')
  {
    LeavesOfDense(H, t);
    LeavesOfDense(H, t');
    if |t| > 0 {
      assert |t| in t;
    }
  }
}
