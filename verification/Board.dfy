/** bulletin-board/board/board.go over bulletin-board/store/postgres.go: the log's index in memory
    and its table in the database, with every database call allowed to fail. */
module Board {
  import opened Common
  import opened Framing
  import opened Rfc9162
  import opened MerkleTree

  datatype Record = Record(id: Bytes, encrypted: Bytes, proofs: Bytes)

  /** The ballots table, by position. The table is append-only: rows are never changed. */
  type Table = map<int, Record>

  function EncodeLeaf(r: Record): Bytes {
    U32(|r.id|) + (r.id + (U32(|r.encrypted|) + (r.encrypted + (U32(|r.proofs|) + r.proofs))))
  }

  // ----- the table

  /** The positions of the table, ascending: ORDER BY position. */
  function Ordered(keys: set<int>): seq<int> {
    if keys == {} then []
    else
      LeastExists(keys);
      var k :| IsLeast(k, keys);
      [k] + Ordered(keys - {k})
  }

  predicate IsLeast(k: int, keys: set<int>) {
    k in keys && forall j :: j in keys ==> k <= j
  }

  lemma SomeMember(keys: set<int>)
    ensures keys == {} || exists x :: x in keys
  {
    assert (forall x :: x !in keys) ==> keys == {};
  }

  lemma {:induction false} LeastExists(keys: set<int>)
    requires keys != {}
    ensures exists k :: IsLeast(k, keys)
  {
    SomeMember(keys);
    var x :| x in keys;
    var rest := keys - {x};
    assert keys == rest + {x};
    if rest == {} {
      assert IsLeast(x, keys);
    } else {
      LeastExists(rest);
      var y :| IsLeast(y, rest);
      assert IsLeast(if x < y then x else y, keys);
    }
  }

  /** GetMaxPosition: the last position, 0 for the empty table. */
  function MaxPosition(t: Table): int {
    var order := Ordered(t.Keys);
    if order == [] then 0 else order[|order| - 1]
  }

  lemma {:induction false} OrderedMembers(keys: set<int>)
    ensures forall p :: p in Ordered(keys) <==> p in keys
  {
    if keys != {} {
      LeastExists(keys);
      var k :| IsLeast(k, keys);
      OrderedMembers(keys - {k});
      assert Ordered(keys) == [k] + Ordered(keys - {k});
    }
  }

  /** GetAllLeafData, hashed: the leaf of every row in position order. */
  function Leaves(H: Hasher, t: Table): seq<Hash> {
    var order := Ordered(t.Keys);
    seq(|order|, (i: nat) requires i < |order| => LeafAt(H, t, order[i]))
  }

  function LeafAt(H: Hasher, t: Table, position: int): Hash {
    if position in t then H.leaf(EncodeLeaf(t[position])) else H.empty
  }

  /** Positions are exactly 1..n. */
  ghost predicate Dense(t: Table) {
    forall p :: p in t <==> 1 <= p <= |t|
  }

  ghost predicate UniqueIds(t: Table) {
    forall p, p' :: p in t && p' in t && t[p].id == t[p'].id ==> p == p'
  }

  predicate Taken(t: Table, id: Bytes) {
    exists p :: p in t && t[p].id == id
  }

  // ----- inserting a row

  /** What a database call does: it works, it fails without effect, or it takes effect and the
      reply is lost. */
  datatype Fault = Works | Refused | ReplyLost

  datatype InsertReply = Inserted | DuplicateBallot | PositionConflict | Failed

  predicate Contains(s: string, part: string) {
    exists i | 0 <= i <= |s| :: ContainsAt(s, part, i)
  }

  predicate ContainsAt(s: string, part: string, i: nat) {
    i + |part| <= |s| && s[i..i + |part|] == part
  }

  /** The names of the two unique constraints of the table. */
  datatype Constraints = Constraints(id: string, position: string)

  /** The names that PostgreSQL gives to those of 001_initial.sql. */
  const POSTGRES := Constraints("ballots_pkey", "ballots_position_key")

  /** How InsertBallot reads the name of a violated constraint. */
  function Violation(constraint: string): InsertReply {
    if Contains(constraint, "ballot") then DuplicateBallot else PositionConflict
  }

  function InsertRow(names: Constraints, t: Table, position: int, r: Record, fault: Fault): (Table, InsertReply) {
    if fault.Refused? then (t, Failed)
    else if Taken(t, r.id) then (t, Violation(names.id))
    else if position in t then (t, Violation(names.position))
    else (t[position := r], if fault.Works? then Inserted else Failed)
  }

  function InsertBallot(t: Table, position: int, r: Record, fault: Fault): (Table, InsertReply) {
    InsertRow(POSTGRES, t, position, r, fault)
  }

  /** When an insert adds its row, that it touches no other, and which reply follows. */
  lemma InsertBallotEffect(t: Table, position: int, r: Record, fault: Fault)
    ensures var (t', reply) := InsertBallot(t, position, r, fault);
      var added := !fault.Refused? && !Taken(t, r.id) && position !in t;
      && (forall p :: p in t' <==> p in t || (added && p == position))
      && (forall p :: p in t ==> t'[p] == t[p]) && (added ==> t'[position] == r)
      && (UniqueIds(t) ==> UniqueIds(t'))
      && (reply == Inserted <==> added && fault.Works?)
      && (reply == Failed <==> fault.Refused? || (added && fault.ReplyLost?))
      && (reply == DuplicateBallot <==> !fault.Refused? && !added)
  {
    ConflictReadsAsDuplicate();
  }

  /** A violated constraint is read by its name: with "ballot" anywhere in it as a duplicate ballot,
      and as a position conflict otherwise. */
  lemma ReadsConstraintName(constraint: string)
    ensures Violation(constraint) == DuplicateBallot <==> exists a, b :: constraint == a + "ballot" + b
    ensures Violation(constraint) == DuplicateBallot || Violation(constraint) == PositionConflict
  {
    if a, b :| constraint == a + "ballot" + b {
      assert constraint[|a|..|a| + 6] == "ballot";
      assert ContainsAt(constraint, "ballot", |a|);
    }
    if i :| 0 <= i <= |constraint| && ContainsAt(constraint, "ballot", i) {
      assert constraint == constraint[..i] + "ballot" + constraint[i + 6..];
    }
  }

  /** PostgreSQL's names for both constraints contain "ballot", so a position conflict is reported
      as a duplicate ballot. */
  lemma ConflictReadsAsDuplicate()
    ensures Violation(POSTGRES.id) == Violation(POSTGRES.position) == DuplicateBallot
  {
    assert ContainsAt(POSTGRES.id, "ballot", 0);
    assert ContainsAt(POSTGRES.position, "ballot", 0);
  }

  /** One pass of the retry loop: whether reading the maximum fails, the rows other writers insert
      before this one does, and what happens to the insert. */
  datatype Attempt = Attempt(maxFails: bool, meanwhile: Table, insert: Fault)

  const MAX_RETRIES := 3

  datatype AppendReply = Appended(position: int, root: Hash) | BoardSealed | ProofsInvalid | Duplicate | Conflict | StoreFailed

  /** The retry loop: the table after it, and the position or the error. */
  function Retry(names: Constraints, t: Table, r: Record, attempts: seq<Attempt>): (Table, Result<int, AppendReply>)
    requires attempts != []
    decreases |attempts|
  {
    var a := attempts[0];
    if a.maxFails then (t, Err(StoreFailed))
    else
      var position := MaxPosition(t) + 1;
      var (t', reply) := InsertRow(names, a.meanwhile + t, position, r, a.insert);
      match reply
      case Inserted => (t', Ok(position))
      case DuplicateBallot => (t', Err(Duplicate))
      case Failed => (t', Err(StoreFailed))
      case PositionConflict => if |attempts| == 1 then (t', Err(Conflict)) else Retry(names, t', r, attempts[1..])
  }

  function Insert(t: Table, r: Record, attempts: seq<Attempt>): (Table, Result<int, AppendReply>)
    requires attempts != []
  {
    Retry(POSTGRES, t, r, attempts)
  }

  // ----- the board

  /** The table and the sealed row of the database, the leaf hashes of the tree and the sealed flag. */
  datatype State = State(table: Table, sealedRow: bool, leaves: seq<Hash>, sealed: bool)

  type Validator = Option<(Bytes, Bytes) -> bool>

  ghost function AfterAppend(H: Hasher, validate: Validator, s: State, r: Record, attempts: seq<Attempt>): (State,
                             AppendReply)
    requires |attempts| == MAX_RETRIES
  {
    if s.sealed then (s, BoardSealed)
    else if validate.Some? && !validate.value(r.encrypted, r.proofs) then (s, ProofsInvalid)
    else
      var (t, o) := Insert(s.table, r, attempts);
      match o
      case Err(e) => (s.(table := t), e)
      case Ok(position) =>
        var leaves := s.leaves + [H.leaf(EncodeLeaf(r))];
        (s.(table := t, leaves := leaves), Appended(position, Head(H, leaves)))
  }

  function AfterSeal(s: State, fault: Fault): State {
    if fault.Refused? then s
    else if fault.ReplyLost? then s.(sealedRow := true)
    else s.(sealedRow := true, sealed := true)
  }

  /** A process that starts over the same database. */
  function AfterRestart(H: Hasher, s: State): State {
    State(s.table, s.sealedRow, Leaves(H, s.table), s.sealedRow)
  }

  datatype Inclusion = NotInTree | Included(proof: seq<Hash>, treeSize: nat, root: Hash)

  /** The answer for a row at some position: the part of GetBallot under the lock. */
  ghost function ProofFor(H: Hasher, s: State, position: int): Inclusion {
    if position < 1 || position - 1 >= |s.leaves| then NotInTree
    else Included(AuditPath(H, position - 1, s.leaves, 0, |s.leaves|), |s.leaves|, Head(H, s.leaves))
  }

  class Store {
    var ballots: Table
    var sealedRow: bool

    constructor ()
      ensures ballots == map[] && !sealedRow
    {
      ballots, sealedRow := map[], false;
    }

    /** InsertBallot, after the rows that other writers insert first. */
    method Insert(meanwhile: Table, position: int, r: Record, fault: Fault) returns (reply: InsertReply)
      modifies this`ballots
      ensures (ballots, reply) == InsertRow(POSTGRES, meanwhile + old(ballots), position, r, fault)
    {
      var (t, e) := InsertRow(POSTGRES, meanwhile + ballots, position, r, fault);
      ballots := t;
      return e;
    }

    /** GetBallot: the row with an id, and its position. */
    method GetBallot(id: Bytes) returns (found: Option<(int, Record)>)
      ensures found.None? <==> !Taken(ballots, id)
      ensures found.Some? ==> found.value.0 in ballots && ballots[found.value.0] == found.value.1 && found.value.1.id == id
    {
      if Taken(ballots, id) {
        var p :| p in ballots && ballots[p].id == id;
        return Some((p, ballots[p]));
      }
      return None;
    }
  }

  class Board {
    const H: Hasher
    const store: Store
    const tree: Tree
    var sealed: bool
    var validateFn: Validator

    ghost predicate Valid()
      reads this, tree
    {
      tree.Valid() && tree.H == H
    }

    ghost function View(): State
      reads this, store, tree
    {
      State(store.ballots, store.sealedRow, tree.leaves, sealed)
    }

    /** New, over the database of an earlier process. */
    constructor (H: Hasher, store: Store)
      ensures Valid() && this.H == H && this.store == store && fresh(tree) && validateFn == None
      ensures View() == AfterRestart(H, State(store.ballots, store.sealedRow, [], false))
    {
      this.H, this.store, this.sealed, this.validateFn := H, store, store.sealedRow, None;
      var t := new Tree(H);
      this.tree := t;
      new;
      OrderedMembers(store.ballots.Keys);
      var order := Ordered(store.ballots.Keys);
      for i := 0 to |order|
        invariant t.Valid() && t.H == H && t.leaves == Leaves(H, store.ballots)[..i]
        invariant validateFn == None && sealed == store.sealedRow
      {
        assert order[i] in store.ballots;
        var _ := t.Append(EncodeLeaf(store.ballots[order[i]]));
      }
    }

    method SetValidator(fn: (Bytes, Bytes) -> bool)
      requires Valid()
      modifies this`validateFn
      ensures Valid() && validateFn == Some(fn) && View() == old(View())
    {
      validateFn := Some(fn);
    }

    method AppendBallot(r: Record, attempts: seq<Attempt>) returns (reply: AppendReply)
      requires Valid() && |attempts| == MAX_RETRIES
      modifies store`ballots, tree
      ensures Valid()
      ensures (View(), reply) == AfterAppend(H, validateFn, old(View()), r, attempts)
    {
      if sealed {
        return BoardSealed;
      }
      if validateFn.Some? && !validateFn.value(r.encrypted, r.proofs) {
        return ProofsInvalid;
      }
      var leafData := EncodeLeaf(r);
      var position := 0;
      var attempt := 0;
      while attempt < MAX_RETRIES
        invariant attempt < MAX_RETRIES && View() == old(View()).(table := store.ballots) && tree.Valid()
        invariant Insert(old(store.ballots), r, attempts) == Retry(POSTGRES, store.ballots, r, attempts[attempt..])
      {
        var a := attempts[attempt];
        assert attempts[attempt..][1..] == attempts[attempt + 1..];
        if a.maxFails {
          return StoreFailed;
        }
        position := MaxPosition(store.ballots) + 1;
        var inserted := store.Insert(a.meanwhile, position, r, a.insert);
        match inserted {
          case Inserted => break;
          case DuplicateBallot => return Duplicate;
          case PositionConflict =>
            if attempt == MAX_RETRIES - 1 {
              return Conflict;
            }
          case Failed => return StoreFailed;
        }
        attempt := attempt + 1;
      }
      var _ := tree.Append(leafData);
      var root := tree.Root();
      return Appended(position, root.value);
    }

    /** GetBallot under the lock, for the row that it has read before. */
    method ProveInclusion(position: int) returns (r: Inclusion)
      requires Valid()
      ensures r == ProofFor(H, View(), position)
    {
      var size := tree.Size();
      if position < 1 || position - 1 >= size {
        return NotInTree;
      }
      var proof := tree.InclusionProof(position - 1, size);
      var root := tree.Root();
      return Included(proof.value, size, root.value);
    }

    method Seal(fault: Fault) returns (ok: bool)
      requires Valid()
      modifies this`sealed, store`sealedRow
      ensures Valid() && View() == AfterSeal(old(View()), fault) && ok == fault.Works?
    {
      if !fault.Refused? {
        store.sealedRow := true;
      }
      if !fault.Works? {
        return false;
      }
      sealed := true;
      return true;
    }
  }
}
