/** What the board hands out over a run with one writer, lost replies and restarts included: exactly
    when the proof for a ballot verifies, and exactly when two published heads are consistent. */
module BoardProofs {
  import opened Common
  import opened Rfc9162
  import opened MerkleVerify
  import opened Board
  import opened BoardSafety
  import MT = MerkleTheorems

  // ----- the rows behind the leaves

  ghost predicate AllAbove(lost: set<int>, p: int) {
    forall q :: q in lost ==> q > p
  }

  ghost predicate LeafIs(H: Hasher, s: State, rows: seq<int>, i: nat)
    requires i < |rows| == |s.leaves|
  {
    i + 1 <= rows[i] <= |s.table| && s.leaves[i] == LeafAt(H, s.table, rows[i])
  }

  /** Leaf i is that of row rows[i], which is row i + 1 exactly as long as no row up to there is lost. */
  ghost predicate LeavesAre(H: Hasher, s: State, rows: seq<int>, lost: set<int>) {
    && |rows| == |s.leaves| <= |s.table| && AllAbove(lost, 0)
    && (forall i :: 0 <= i < |rows| ==> LeafIs(H, s, rows, i))
    && (forall i :: 0 <= i < |rows| ==> (rows[i] == i + 1 <==> AllAbove(lost, i + 1)))
    && (lost == {} ==> |rows| == |s.table|)
    && (lost != {} ==> |rows| < |s.table| && !AllAbove(lost, |rows| + 1))
  }

  lemma {:induction false} RowsOfLeaves(H: Hasher, validate: Validator, states: seq<State>, steps: seq<Step>, k: nat)
    returns (rows: seq<int>)
    requires Run(H, validate, states, steps) && SingleWriter(steps) && k < |states|
    ensures LeavesAre(H, states[k], rows, Lost(H, validate, states, steps, k))
  {
    hide AfterAppend, Dense, UniqueIds, LeavesAre, LostBy;
    rows := [];
    if k == 0 {
      NoRows(H);
    } else {
      RunTable(H, validate, states, steps, k - 1);
      assert Steps(H, validate, states, steps, k - 1);
      rows := RowsOfLeaves(H, validate, states, steps, k - 1);
      var (s, lost) := (states[k - 1], Lost(H, validate, states, steps, k - 1));
      match steps[k - 1] {
        case Append(r, attempts) => rows := AppendRows(H, validate, s, r, attempts, rows, lost);
        case Seal(fault) => SealRows(H, s, fault, rows, lost);
        case Restart => rows := RestartRows(H, s);
      }
    }
  }

  lemma NoRows(H: Hasher)
    ensures LeavesAre(H, INITIAL, [], {})
  {
  }

  lemma SealRows(H: Hasher, s: State, fault: Fault, rows: seq<int>, lost: set<int>)
    requires LeavesAre(H, s, rows, lost)
    ensures LeavesAre(H, AfterSeal(s, fault), rows, lost)
  {
    var s' := AfterSeal(s, fault);
    forall i | 0 <= i < |rows|
      ensures LeafIs(H, s', rows, i)
    {
      assert LeafIs(H, s, rows, i);
    }
  }

  lemma RestartRows(H: Hasher, s: State) returns (rows: seq<int>)
    requires Dense(s.table)
    ensures LeavesAre(H, AfterRestart(H, s), rows, {})
  {
    rows := seq(|s.table|, (i: nat) => i + 1);
    LeavesOfDense(H, s.table);
  }

  lemma AppendRows(H: Hasher, validate: Validator, s: State, r: Record, attempts: seq<Attempt>, rows: seq<int>,
                   lost: set<int>)
    returns (rows': seq<int>)
    requires |attempts| == MAX_RETRIES && attempts[0].meanwhile == map[] && Dense(s.table) && UniqueIds(s.table)
    requires LeavesAre(H, s, rows, lost)
    ensures LeavesAre(H, AfterAppend(H, validate, s, r, attempts).0, rows', lost + LostBy(validate, s, r, attempts))
  {
    hide AfterAppend, Dense, UniqueIds, LeavesAre, Stores, EncodeLeaf, LeafAt, LostBy;
    SingleAppend(H, validate, s, r, attempts);
    RowAdded(H, s.table, r);
    rows' := rows;
    assert lost + {} == lost;
    var s' := s.(table := s.table[|s.table| + 1 := r]);
    if Stores(validate, s, r, attempts[0]) {
      if attempts[0].insert.Works? {
        rows' := rows + [|s.table| + 1];
        StoredRow(H, s, s'.(leaves := s.leaves + [H.leaf(EncodeLeaf(r))]), rows, lost);
      } else {
        LostRow(H, s, s', rows, lost);
      }
    }
  }

  lemma SingleAppend(H: Hasher, validate: Validator, s: State, r: Record, attempts: seq<Attempt>)
    requires |attempts| == MAX_RETRIES && attempts[0].meanwhile == map[] && Dense(s.table) && UniqueIds(s.table)
    ensures var (stored, works) := (Stores(validate, s, r, attempts[0]), attempts[0].insert.Works?);
      var (t, leaves) := (s.table[|s.table| + 1 := r], s.leaves + [H.leaf(EncodeLeaf(r))]);
      && LostBy(validate, s, r, attempts) == (if stored && !works then {|s.table| + 1} else {})
      && AfterAppend(H, validate, s, r, attempts).0
         == if !stored then s else if works then s.(table := t, leaves := leaves) else s.(table := t)
  {
    hide AfterAppend, Dense, UniqueIds, EncodeLeaf, Head, Taken;
    AppendOutcome(H, validate, s, r, attempts);
  }

  lemma RowAdded(H: Hasher, t: Table, r: Record)
    requires Dense(t)
    ensures var t' := t[|t| + 1 := r];
      && |t'| == |t| + 1 && LeafAt(H, t', |t| + 1) == H.leaf(EncodeLeaf(r))
      && forall p :: 1 <= p <= |t| ==> LeafAt(H, t', p) == LeafAt(H, t, p)
  {
    hide EncodeLeaf;
    assert |t| + 1 !in t;
  }

  /** A row with its leaf. */
  lemma StoredRow(H: Hasher, s: State, s': State, rows: seq<int>, lost: set<int>)
    requires LeavesAre(H, s, rows, lost) && |s'.table| == |s.table| + 1
    requires forall p :: 1 <= p <= |s.table| ==> LeafAt(H, s'.table, p) == LeafAt(H, s.table, p)
    requires s'.leaves == s.leaves + [LeafAt(H, s'.table, |s.table| + 1)]
    ensures LeavesAre(H, s', rows + [|s.table| + 1], lost)
  {
    hide LeafAt;
    var rows' := rows + [|s.table| + 1];
    forall i | 0 <= i < |rows'|
      ensures LeafIs(H, s', rows', i) && (rows'[i] == i + 1 <==> AllAbove(lost, i + 1))
    {
      if i < |rows| {
        assert LeafIs(H, s, rows, i);
      }
    }
    assert AllAbove(lost, |rows'| + 1) ==> AllAbove(lost, |rows| + 1);
  }

  /** A row without. */
  lemma LostRow(H: Hasher, s: State, s': State, rows: seq<int>, lost: set<int>)
    requires LeavesAre(H, s, rows, lost) && |s'.table| == |s.table| + 1 && s'.leaves == s.leaves
    requires forall p :: 1 <= p <= |s.table| ==> LeafAt(H, s'.table, p) == LeafAt(H, s.table, p)
    ensures LeavesAre(H, s', rows, lost + {|s.table| + 1})
  {
    hide LeafAt;
    var lost' := lost + {|s.table| + 1};
    forall i | 0 <= i < |rows|
      ensures LeafIs(H, s', rows, i) && (rows[i] == i + 1 <==> AllAbove(lost', i + 1))
    {
      assert LeafIs(H, s, rows, i);
      assert AllAbove(lost', i + 1) <==> AllAbove(lost, i + 1);
    }
    assert |s.table| + 1 in lost' && (AllAbove(lost', |rows| + 1) ==> AllAbove(lost, |rows| + 1));
  }

  // ----- inclusion

  ghost predicate Verifies(H: Hasher, s: State, r: Record, position: int) {
    var answer := ProofFor(H, s, position);
    answer.Included? && answer.root == Head(H, s.leaves) &&
    InclusionVerdict(H, H.leaf(EncodeLeaf(r)), position - 1, answer.treeSize, answer.proof, answer.root) == Accepted
  }

  /** Two different rows under one leaf hash. */
  ghost predicate RowsClash(H: Hasher, t: Table, p: int, p': int) {
    p in t && p' in t && EncodeLeaf(t[p]) != EncodeLeaf(t[p']) && H.leaf(EncodeLeaf(t[p])) == H.leaf(EncodeLeaf(t[p']))
  }

  lemma DifferentRows(H: Hasher, t: Table, p: int, p': int)
    requires UniqueIds(t) && (forall q :: q in t ==> Small(t[q])) && p in t && p' in t && p != p'
    requires LeafAt(H, t, p) == LeafAt(H, t, p')
    ensures RowsClash(H, t, p, p')
  {
    if EncodeLeaf(t[p]) == EncodeLeaf(t[p']) {
      EncodeLeafInjective(t[p], t[p']);
    }
  }

  /** A row read at one moment and proved at a later one: whatever happened in between, the proof
      verifies for that row's own leaf at position - 1 if no row up to it has lost its reply since
      the last restart, and only if, unless a hash collides. */
  lemma GetBallotVerifies(H: Hasher, validate: Validator, states: seq<State>, steps: seq<Step>, j: nat, k: nat,
                          position: int)
    returns (c: Collision, other: int)
    requires Run(H, validate, states, steps) && SingleWriter(steps) && j <= k < |states| && position in states[j].table
    ensures position >= 1
    ensures AllAbove(Lost(H, validate, states, steps, k), position) ==>
              Verifies(H, states[k], states[j].table[position], position)
    ensures Verifies(H, states[k], states[j].table[position], position) &&
            (forall p :: p in states[k].table ==> Small(states[k].table[p])) ==>
              AllAbove(Lost(H, validate, states, steps, k), position) || IsCollision(H, c) ||
              RowsClash(H, states[k].table, position, other)
  {
    RunTable(H, validate, states, steps, j);
    RunTable(H, validate, states, steps, k);
    RowsStay(H, validate, states, steps, j, k);
    var rows := RowsOfLeaves(H, validate, states, steps, k);
    c, other := ProofOfRow(H, states[k], rows, Lost(H, validate, states, steps, k), position);
  }

  lemma ProofOfRow(H: Hasher, s: State, rows: seq<int>, lost: set<int>, position: int) returns (c: Collision, other: int)
    requires Dense(s.table) && UniqueIds(s.table) && LeavesAre(H, s, rows, lost) && position in s.table
    ensures AllAbove(lost, position) ==> Verifies(H, s, s.table[position], position)
    ensures Verifies(H, s, s.table[position], position) && (forall p :: p in s.table ==> Small(s.table[p])) ==>
              AllAbove(lost, position) || IsCollision(H, c) || RowsClash(H, s.table, position, other)
  {
    hide AuditPath, EncodeLeaf, InclusionVerdict, Mth;
    c, other := Collision(H.empty, H.empty, H.empty, H.empty), 0;
    if position > |rows| {
      assert AllAbove(lost, position) ==> AllAbove(lost, |rows| + 1);
    } else {
      var i := position - 1;
      assert LeafIs(H, s, rows, i);
      if rows[i] == position {
        MT.InclusionComplete(H, s.leaves, i, |s.leaves|);
      } else if Verifies(H, s, s.table[position], position) {
        other := rows[i];
        c := MT.InclusionSound(H, s.leaves, LeafAt(H, s.table, position), i, ProofFor(H, s, position).proof);
        if (forall p :: p in s.table ==> Small(s.table[p])) && !IsCollision(H, c) {
          DifferentRows(H, s.table, position, other);
        }
      }
    }
  }

  // ----- consistency

  ghost predicate RestartIn(steps: seq<Step>, j: nat, k: nat) {
    exists i :: j <= i < k && i < |steps| && steps[i].Restart?
  }

  /** Between restarts the tree only grows. */
  lemma {:induction false} TreeGrows(H: Hasher, validate: Validator, states: seq<State>, steps: seq<Step>, j: nat, k: nat)
    requires Run(H, validate, states, steps) && j <= k < |states| && !RestartIn(steps, j, k)
    ensures states[j].leaves <= states[k].leaves
    decreases k
  {
    if j < k {
      TreeGrows(H, validate, states, steps, j, k - 1);
      assert Steps(H, validate, states, steps, k - 1);
    }
  }

  /** After a restart every earlier row has its leaf in its place. */
  lemma {:induction false} RestartRestores(H: Hasher, validate: Validator, states: seq<State>, steps: seq<Step>, j: nat,
                                           k: nat)
    requires Run(H, validate, states, steps) && SingleWriter(steps) && j <= k < |states| && RestartIn(steps, j, k)
    ensures |states[j].table| <= |states[k].leaves| && AllAbove(Lost(H, validate, states, steps, k), |states[j].table|)
    decreases k
  {
    hide AfterAppend, Leaves, Dense, UniqueIds, Stores;
    var s := states[k - 1];
    assert Steps(H, validate, states, steps, k - 1);
    RunTable(H, validate, states, steps, k - 1);
    TableGrows(H, validate, states, steps, j, k - 1);
    match steps[k - 1] {
      case Restart => LeavesOfDense(H, s.table);
      case Seal(_) => RestartRestores(H, validate, states, steps, j, k - 1);
      case Append(r, attempts) =>
        RestartRestores(H, validate, states, steps, j, k - 1);
        AppendOutcome(H, validate, s, r, attempts);
    }
  }

  lemma TableGrows(H: Hasher, validate: Validator, states: seq<State>, steps: seq<Step>, j: nat, k: nat)
    requires Run(H, validate, states, steps) && SingleWriter(steps) && j <= k < |states|
    ensures |states[j].table| <= |states[k].table|
  {
    RunTable(H, validate, states, steps, j);
    RunTable(H, validate, states, steps, k);
    RowsStay(H, validate, states, steps, j, k);
    if |states[j].table| > 0 {
      assert |states[j].table| in states[j].table;
    }
  }

  /** The heads at two moments are joined by an accepted proof, the log's own, if no restart lies
      between them or no reply was lost up to the size of the first; and only if, unless a hash
      collides: a restart replaces a head that leaves a stored ballot out by one that contradicts it. */
  lemma HeadsConsistent(H: Hasher, validate: Validator, states: seq<State>, steps: seq<Step>, j: nat, k: nat,
                        proof: seq<Hash>)
    returns (c: Collision, p: int, p': int)
    requires Run(H, validate, states, steps) && SingleWriter(steps) && j <= k < |states|
    ensures var (A, B) := (states[j].leaves, states[k].leaves);
      !RestartIn(steps, j, k) || AllAbove(Lost(H, validate, states, steps, j), |A|) ==>
        |A| <= |B| && ConsistencyVerdict(H, |A|, |B|, Head(H, A), Head(H, B), ConsistencyPath(H, |A|, B, |B|)) == Accepted
    ensures var (A, B) := (states[j].leaves, states[k].leaves);
      ConsistencyVerdict(H, |A|, |B|, Head(H, A), Head(H, B), proof) == Accepted &&
      (forall q :: q in states[k].table ==> Small(states[k].table[q])) ==>
        !RestartIn(steps, j, k) || AllAbove(Lost(H, validate, states, steps, j), |A|) || IsCollision(H, c) ||
        RowsClash(H, states[k].table, p, p')
  {
    hide Lost, AuditPath, EncodeLeaf, ConsistencyVerdict, Mth, RestartIn, Dense, UniqueIds, ConsistencyPath;
    c, p, p' := Collision(H.empty, H.empty, H.empty, H.empty), 0, 0;
    var (A, B) := (states[j].leaves, states[k].leaves);
    if !RestartIn(steps, j, k) {
      TreeGrows(H, validate, states, steps, j, k);
      PrefixJoined(H, A, B);
    } else {
      var pair := Misplaced(H, validate, states, steps, j, k);
      if A <= B {
        PrefixJoined(H, A, B);
      } else if ConsistencyVerdict(H, |A|, |B|, Head(H, A), Head(H, B), proof) == Accepted {
        c := MT.ConsistencySound(H, A, B, proof);
      }
      p, p' := pair.0, pair.1;
    }
  }

  lemma PrefixJoined(H: Hasher, A: seq<Hash>, B: seq<Hash>)
    requires A <= B
    ensures ConsistencyVerdict(H, |A|, |B|, Head(H, A), Head(H, B), ConsistencyPath(H, |A|, B, |B|)) == Accepted
  {
    MthFrame(H, A, B, 0, |A|);
    MT.ConsistencyComplete(H, B, |A|, |B|);
  }

  /** Across a restart, the earlier leaves are a prefix of the later ones if no reply was lost among
      them; and only if, unless two rows have one leaf hash. */
  lemma Misplaced(H: Hasher, validate: Validator, states: seq<State>, steps: seq<Step>, j: nat, k: nat)
    returns (pair: (int, int))
    requires Run(H, validate, states, steps) && SingleWriter(steps) && j <= k < |states| && RestartIn(steps, j, k)
    ensures AllAbove(Lost(H, validate, states, steps, j), |states[j].leaves|) ==> states[j].leaves <= states[k].leaves
    ensures states[j].leaves <= states[k].leaves && (forall q :: q in states[k].table ==> Small(states[k].table[q])) ==>
      AllAbove(Lost(H, validate, states, steps, j), |states[j].leaves|) || RowsClash(H, states[k].table, pair.0, pair.1)
  {
    hide Lost, EncodeLeaf, RestartIn, UniqueIds, LeavesAre;
    RunTable(H, validate, states, steps, j);
    RunTable(H, validate, states, steps, k);
    RowsStay(H, validate, states, steps, j, k);
    RestartRestores(H, validate, states, steps, j, k);
    var rows := RowsOfLeaves(H, validate, states, steps, j);
    var rows' := RowsOfLeaves(H, validate, states, steps, k);
    pair := PrefixOfRestored(H, states[j], states[k], rows, rows', Lost(H, validate, states, steps, j),
                             Lost(H, validate, states, steps, k));
  }

  lemma PrefixOfRestored(H: Hasher, s: State, s': State, rows: seq<int>, rows': seq<int>, lost: set<int>,
                         lost': set<int>)
    returns (pair: (int, int))
    requires Dense(s.table) && Dense(s'.table) && UniqueIds(s'.table)
    requires forall p :: p in s.table ==> p in s'.table && s'.table[p] == s.table[p]
    requires LeavesAre(H, s, rows, lost) && LeavesAre(H, s', rows', lost')
    requires |s.table| <= |s'.leaves| && AllAbove(lost', |s.table|)
    ensures AllAbove(lost, |s.leaves|) ==> s.leaves <= s'.leaves
    ensures s.leaves <= s'.leaves && (forall q :: q in s'.table ==> Small(s'.table[q])) ==>
      AllAbove(lost, |s.leaves|) || RowsClash(H, s'.table, pair.0, pair.1)
  {
    hide EncodeLeaf, UniqueIds;
    pair := (0, 0);
    forall i | 0 <= i < |s.leaves|
      ensures s'.leaves[i] == LeafAt(H, s'.table, i + 1) && s.leaves[i] == LeafAt(H, s'.table, rows[i])
    {
      assert LeafIs(H, s, rows, i) && LeafIs(H, s', rows', i);
      assert AllAbove(lost', i + 1);
      assert rows[i] in s.table;
    }
    if AllAbove(lost, |s.leaves|) {
      forall i | 0 <= i < |s.leaves|
        ensures s.leaves[i] == s'.leaves[i]
      {
        assert AllAbove(lost, i + 1);
      }
    } else if s.leaves <= s'.leaves && forall q :: q in s'.table ==> Small(s'.table[q]) {
      var i := |s.leaves| - 1;
      assert s.leaves[i] == s'.leaves[i];
      assert LeafIs(H, s, rows, i) && !AllAbove(lost, i + 1);
      assert rows[i] in s.table && i + 1 in s.table;
      pair := (rows[i], i + 1);
      DifferentRows(H, s'.table, rows[i], i + 1);
    }
  }

  lemma ForkTables(H: Hasher, a: Record, b: Record, rest: seq<Attempt>)
    requires a.id != b.id && |rest| == MAX_RETRIES - 1
    ensures var s1 := AfterAppend(H, None, INITIAL, a, [Attempt(false, map[], ReplyLost)] + rest).0;
      var s2 := AfterAppend(H, None, s1, b, [Attempt(false, map[], Works)] + rest).0;
      s2.leaves == [H.leaf(EncodeLeaf(b))] &&
      AfterRestart(H, s2).leaves == [H.leaf(EncodeLeaf(a)), H.leaf(EncodeLeaf(b))]
  {
    hide EncodeLeaf, AfterAppend, Leaves;
    LostReplyMisplaces(H, a, b, rest);
    var t := map[1 := a, 2 := b];
    assert t.Keys == {1, 2};
    LeavesOfDense(H, t);
  }

  lemma ForkRun(H: Hasher, a: Record, b: Record, rest: seq<Attempt>) returns (states: seq<State>, steps: seq<Step>)
    requires a.id != b.id && |rest| == MAX_RETRIES - 1
    ensures Run(H, None, states, steps) && SingleWriter(steps) && |states| == 4
    ensures states[2].leaves == [H.leaf(EncodeLeaf(b))]
    ensures states[3].leaves == [H.leaf(EncodeLeaf(a)), H.leaf(EncodeLeaf(b))]
  {
    hide EncodeLeaf, AfterAppend, AfterRestart;
    var first := [Attempt(false, map[], ReplyLost)] + rest;
    var second := [Attempt(false, map[], Works)] + rest;
    steps := [Append(a, first), Append(b, second), Restart];
    var s1 := AfterAppend(H, None, INITIAL, a, first).0;
    var s2 := AfterAppend(H, None, s1, b, second).0;
    states := [INITIAL, s1, s2, AfterRestart(H, s2)];
    ForkTables(H, a, b, rest);
  }

  /** The shortest fork: the first ballot is stored with its reply lost, the second is accepted, the
      process restarts. No proof joins the head before the restart to the one after it, unless the
      two leaves or two nodes have one hash. */
  lemma ForkedHeads(H: Hasher, a: Record, b: Record, rest: seq<Attempt>, proof: seq<Hash>)
    returns (states: seq<State>, steps: seq<Step>, c: Collision)
    requires a.id != b.id && |rest| == MAX_RETRIES - 1
    ensures Run(H, None, states, steps) && SingleWriter(steps) && |states| == 4
    ensures states[2].leaves == [H.leaf(EncodeLeaf(b))]
    ensures states[3].leaves == [H.leaf(EncodeLeaf(a)), H.leaf(EncodeLeaf(b))]
    ensures ConsistencyVerdict(H, 1, 2, Head(H, states[2].leaves), Head(H, states[3].leaves), proof) == Accepted ==>
      H.leaf(EncodeLeaf(a)) == H.leaf(EncodeLeaf(b)) || IsCollision(H, c)
  {
    hide EncodeLeaf, ConsistencyVerdict, ConsistencyPath, Head, Run;
    states, steps := ForkRun(H, a, b, rest);
    c := Collision(H.empty, H.empty, H.empty, H.empty);
    if ConsistencyVerdict(H, 1, 2, Head(H, states[2].leaves), Head(H, states[3].leaves), proof) == Accepted {
      c := MT.ConsistencySound(H, states[2].leaves, states[3].leaves, proof);
      assert states[2].leaves <= states[3].leaves ==> states[2].leaves[0] == states[3].leaves[0];
    }
  }

  // ----- a ballot against a head

  /** Any ballot that verifies against the board's head is the row stored at that position, or
      two inputs collide under the leaf or the node hash. */
  lemma ProofPinsRow(H: Hasher, s: State, r: Record, index: nat, proof: seq<Hash>) returns (c: Collision)
    requires Agreement(H, s) && Small(r) && (forall p :: p in s.table ==> Small(s.table[p]))
    requires InclusionVerdict(H, H.leaf(EncodeLeaf(r)), index, |s.leaves|, proof, Head(H, s.leaves)) == Accepted
    ensures index + 1 in s.table
    ensures var row := s.table[index + 1];
      row == r || (EncodeLeaf(row) != EncodeLeaf(r) && H.leaf(EncodeLeaf(row)) == H.leaf(EncodeLeaf(r))) || IsCollision(H, c)
  {
    c := MT.InclusionSound(H, s.leaves, H.leaf(EncodeLeaf(r)), index, proof);
    LeavesOfDense(H, s.table);
    if EncodeLeaf(s.table[index + 1]) == EncodeLeaf(r) {
      EncodeLeafInjective(s.table[index + 1], r);
    }
  }
}
