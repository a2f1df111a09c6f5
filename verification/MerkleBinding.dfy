/** What a proof says about the index and the sizes that it is verified at: exactly the turns that
    the verifier takes there, which those numbers determine. */
module MerkleBinding {
  import opened Bits
  import opened Common
  import opened Rfc9162
  import opened MerkleVerify

  lemma {:induction false} ClimbShrinks(fn: nat, sn: nat)
    ensures Climb(fn, sn).1 <= sn
  {
    if fn % 2 == 0 && fn != 0 {
      ClimbShrinks(fn / 2, sn / 2);
    }
  }

  /** The turns of the walk from (fn, sn), one for every proof hash it takes. */
  function Turns(fn: nat, sn: nat): seq<bool>
    decreases sn
  {
    if sn == 0 then []
    else
      ClimbShrinks(fn, sn);
      var (f, s) := Next(fn, sn);
      [TurnsLeft(fn, sn)] + Turns(f, s)
  }

  /** The hashes after the given turns over as many proof hashes. */
  function Fold(H: Hasher, turns: seq<bool>, at: Heads, proof: seq<Hash>): Heads
    requires |turns| == |proof|
  {
    if turns == [] then at else Fold(H, turns[1..], Combine(H, turns[0], at, proof[0]), proof[1..])
  }

  lemma {:induction false} WalkIsFold(H: Hasher, fn: nat, sn: nat, at: Heads, proof: seq<Hash>)
    ensures var turns := Turns(fn, sn);
      Walk(H, fn, sn, at, proof) == if |proof| == |turns| then Some(Fold(H, turns, at, proof)) else None
    decreases |proof|
  {
    if proof != [] && sn != 0 {
      ClimbShrinks(fn, sn);
      var (f, s) := Next(fn, sn);
      WalkIsFold(H, f, s, Combine(H, TurnsLeft(fn, sn), at, proof[0]), proof[1..]);
      assert Turns(fn, sn)[1..] == Turns(f, s);
    }
  }

  // ----- equal folds

  /** One step from the end of the proof. */
  lemma {:induction false} FoldLast(H: Hasher, turns: seq<bool>, at: Heads, proof: seq<Hash>)
    requires |turns| == |proof| > 0
    ensures var n := |proof| - 1;
      Fold(H, turns, at, proof) == Combine(H, turns[n], Fold(H, turns[..n], at, proof[..n]), proof[n])
    decreases |proof|
  {
    var n := |proof| - 1;
    if n > 0 {
      var next := Combine(H, turns[0], at, proof[0]);
      FoldLast(H, turns[1..], next, proof[1..]);
      assert turns[1..][..n - 1] == turns[..n][1..] && proof[1..][..n - 1] == proof[..n][1..];
    }
  }

  /** Folds of one proof that end on one hash started there and took the same turns, or the node
      hash collides, or a proof hash is the running hash of the first. */
  lemma {:induction false} EqualFolds(H: Hasher, turns: seq<bool>, turns': seq<bool>, at: Heads, at': Heads,
                                      proof: seq<Hash>)
    returns (c: Collision, k: nat)
    requires |turns| == |turns'| == |proof| && Fold(H, turns, at, proof).sr == Fold(H, turns', at', proof).sr
    ensures (turns == turns' && at.sr == at'.sr) || IsCollision(H, c)
      || (k < |proof| && proof[k] == Fold(H, turns[..k], at, proof[..k]).sr)
    decreases |proof|
  {
    c, k := Collision(H.empty, H.empty, H.empty, H.empty), 0;
    if proof != [] {
      var n := |proof| - 1;
      FoldLast(H, turns, at, proof);
      FoldLast(H, turns', at', proof);
      var (r, r', p) := (Fold(H, turns[..n], at, proof[..n]).sr, Fold(H, turns'[..n], at', proof[..n]).sr, proof[n]);
      c := Collision(if turns[n] then p else r, if turns[n] then r else p, if turns'[n] then p else r', if turns'[n] then r' else p);
      if c.l0 == c.l1 && c.r0 == c.r1 {
        if turns[n] == turns'[n] {
          c, k := EqualFolds(H, turns[..n], turns'[..n], at, at', proof[..n]);
          assert turns == turns[..n] + [turns[n]] && turns' == turns'[..n] + [turns'[n]];
          assert k < n ==> turns[..n][..k] == turns[..k] && proof[..n][..k] == proof[..k];
        } else {
          k := n;
        }
      }
    }
  }

  /** Turning right keeps the head of the smaller tree. */
  lemma {:induction false} RightKeeps(H: Hasher, turns: seq<bool>, at: Heads, proof: seq<Hash>)
    requires |turns| == |proof| && forall k :: 0 <= k < |turns| ==> !turns[k]
    ensures Fold(H, turns, at, proof).fr == at.fr
    decreases |proof|
  {
    if turns != [] {
      RightKeeps(H, turns[1..], Combine(H, turns[0], at, proof[0]), proof[1..]);
    }
  }

  /** A proof over a and b of which no hash is the running hash it is combined with. */
  function Avoiding(H: Hasher, a: Hash, b: Hash, turns: seq<bool>, at: Heads): (proof: seq<Hash>)
    ensures |proof| == |turns|
  {
    if turns == [] then []
    else
      var p := if at.sr == a then b else a;
      [p] + Avoiding(H, a, b, turns[1..], Combine(H, turns[0], at, p))
  }

  lemma {:induction false} AvoidingAvoids(H: Hasher, a: Hash, b: Hash, turns: seq<bool>, at: Heads, k: nat)
    requires a != b && k < |turns|
    ensures var proof := Avoiding(H, a, b, turns, at);
      proof[k] != Fold(H, turns[..k], at, proof[..k]).sr
    decreases |turns|
  {
    var proof := Avoiding(H, a, b, turns, at);
    if k > 0 {
      var next := Combine(H, turns[0], at, proof[0]);
      AvoidingAvoids(H, a, b, turns[1..], next, k - 1);
      assert turns[..k][1..] == turns[1..][..k - 1] && proof[..k][1..] == proof[1..][..k - 1];
    }
  }

  // ----- inclusion

  /** Everything that VerifyInclusion is given besides the index and the size. */
  datatype InclusionInput = InclusionInput(H: Hasher, leaf: Hash, proof: seq<Hash>, root: Hash)

  function InclusionAt(w: InclusionInput, index: nat, size: nat): Verdict {
    InclusionVerdict(w.H, w.leaf, index, size, w.proof, w.root)
  }

  lemma InclusionIsFold(w: InclusionInput, index: nat, size: nat)
    requires index < size
    ensures var turns := Turns(index, size - 1);
      InclusionAt(w, index, size) ==
        if |w.proof| == |turns| && Fold(w.H, turns, Heads(w.leaf, w.leaf), w.proof).sr == w.root then Accepted else ErrInvalidProof
  {
    WalkIsFold(w.H, index, size - 1, Heads(w.leaf, w.leaf), w.proof);
  }

  /** For any node hash: what verifies at two pairs took the same turns, or the node hash collides,
      or a proof hash is the running hash it is combined with. */
  lemma InclusionAtBoth(w: InclusionInput, index: nat, size: nat, index': nat, size': nat) returns (c: Collision, k: nat)
    requires InclusionAt(w, index, size) == Accepted && InclusionAt(w, index', size') == Accepted
    ensures index < size && index' < size' && |Turns(index, size - 1)| == |Turns(index', size' - 1)| == |w.proof|
    ensures var turns := Turns(index, size - 1);
      turns == Turns(index', size' - 1) || IsCollision(w.H, c)
      || (k < |w.proof| && w.proof[k] == Fold(w.H, turns[..k], Heads(w.leaf, w.leaf), w.proof[..k]).sr)
  {
    InclusionIsFold(w, index, size);
    InclusionIsFold(w, index', size');
    c, k := EqualFolds(w.H, Turns(index, size - 1), Turns(index', size' - 1), Heads(w.leaf, w.leaf),
                       Heads(w.leaf, w.leaf), w.proof);
  }

  /** Two pairs of index and size get one verdict for every hash, leaf, proof and root if and only
      if the verifier takes the same turns at both. When it does not, then for every node hash an
      input is computed that verifies at the first pair only, or the node hash collides. */
  lemma InclusionBinding(H: Hasher, a: Hash, b: Hash, index: nat, size: nat, index': nat, size': nat)
    returns (w: InclusionInput, c: Collision)
    requires index < size && index' < size' && a != b
    ensures Turns(index, size - 1) == Turns(index', size' - 1) ==>
      forall v :: InclusionAt(v, index, size) == InclusionAt(v, index', size')
    ensures Turns(index, size - 1) != Turns(index', size' - 1) ==>
      w.H == H && InclusionAt(w, index, size) == Accepted &&
      (InclusionAt(w, index', size') != Accepted || IsCollision(H, c))
  {
    var (turns, start) := (Turns(index, size - 1), Heads(a, a));
    var proof := Avoiding(H, a, b, turns, start);
    w := InclusionInput(H, a, proof, Fold(H, turns, start, proof).sr);
    c := Collision(a, a, a, a);
    InclusionIsFold(w, index, size);
    if turns == Turns(index', size' - 1) {
      forall v
        ensures InclusionAt(v, index, size) == InclusionAt(v, index', size')
      {
        InclusionIsFold(v, index, size);
        InclusionIsFold(v, index', size');
      }
    } else if InclusionAt(w, index', size') == Accepted {
      var k: nat;
      c, k := InclusionAtBoth(w, index, size, index', size');
      if k < |proof| {
        AvoidingAvoids(H, a, b, turns, start, k);
      }
    }
  }

  /** The instance that the protocol's documentation names: leaf 2 of 3 and leaf 1 of 2. */
  lemma InclusionDoesNotBindSize(w: InclusionInput)
    ensures InclusionAt(w, 2, 3) == InclusionAt(w, 1, 2)
  {
    assert Climb(2, 2) == (1, 1);
    assert Turns(0, 0) == [] && Turns(2, 2) == [true] && Turns(1, 1) == [true];
    var _, _ := InclusionBinding(w.H, Hash([0]), Hash([1]), 2, 3, 1, 2);
  }

  // ----- consistency

  /** Everything that VerifyConsistency is given besides the sizes. */
  datatype ConsistencyInput = ConsistencyInput(H: Hasher, root1: Hash, root2: Hash, proof: seq<Hash>)

  function ConsistencyAt(w: ConsistencyInput, size1: nat, size2: nat): Verdict {
    ConsistencyVerdict(w.H, size1, size2, w.root1, w.root2, w.proof)
  }

  /** Whether the walk starts from root1, and the turns it takes. */
  datatype Shape = Shape(fromRoot: bool, turns: seq<bool>)

  function ShapeOf(size1: nat, size2: nat): Shape
    requires 0 < size1 < size2
  {
    var (fn, sn) := Skip(size1 - 1, size2 - 1);
    Shape(And(size1, size1 - 1) == 0, Turns(fn, sn))
  }

  function StartOf(w: ConsistencyInput, sh: Shape): Hash
    requires w.proof != []
  {
    if sh.fromRoot then w.root1 else w.proof[0]
  }

  function RestOf(w: ConsistencyInput, sh: Shape): seq<Hash>
    requires w.proof != []
  {
    if sh.fromRoot then w.proof else w.proof[1..]
  }

  /** The hashes after the first k turns. */
  function RunningAt(w: ConsistencyInput, sh: Shape, k: nat): Heads
    requires w.proof != [] && k <= |RestOf(w, sh)| == |sh.turns|
  {
    var start := StartOf(w, sh);
    Fold(w.H, sh.turns[..k], Heads(start, start), RestOf(w, sh)[..k])
  }

  predicate FoldsTo(w: ConsistencyInput, sh: Shape) {
    w.proof != [] && |RestOf(w, sh)| == |sh.turns| && RunningAt(w, sh, |sh.turns|) == Heads(w.root1, w.root2)
  }

  /** A hash of the proof is the running hash of the larger tree that it is combined with. */
  predicate RunsInto(w: ConsistencyInput, sh: Shape, k: nat) {
    w.proof != [] && k < |RestOf(w, sh)| == |sh.turns| && RestOf(w, sh)[k] == RunningAt(w, sh, k).sr
  }

  lemma ConsistencyIsFold(w: ConsistencyInput, size1: nat, size2: nat)
    requires 0 < size1 < size2
    ensures ConsistencyAt(w, size1, size2) == if FoldsTo(w, ShapeOf(size1, size2)) then Accepted else ErrInvalidProof
  {
    if w.proof != [] {
      var (start, rest) := Start(size1, w.root1, w.proof);
      var (fn, sn) := Skip(size1 - 1, size2 - 1);
      WalkIsFold(w.H, fn, sn, Heads(start, start), rest);
      var turns := Turns(fn, sn);
      assert turns[..|turns|] == turns && rest[..|rest|] == rest;
    }
  }

  predicate RightOnly(sh: Shape) {
    sh.turns != [] && forall k :: 0 <= k < |sh.turns| ==> !sh.turns[k]
  }

  /** A walk that starts from root1 only turns right, and takes at least one hash. */
  lemma {:induction false} RightTurns(sn: nat)
    ensures forall k :: 0 <= k < |Turns(0, sn)| ==> !Turns(0, sn)[k]
    ensures sn > 0 ==> Turns(0, sn) != []
    decreases sn
  {
    if sn > 0 {
      assert Next(0, sn) == (0, sn / 2);
      RightTurns(sn / 2);
    }
  }

  lemma FromRootTurns(size1: nat, size2: nat)
    requires 0 < size1 < size2 && ShapeOf(size1, size2).fromRoot
    ensures RightOnly(ShapeOf(size1, size2))
  {
    PowerTest(size1);
    var e: nat :| size1 == Pow2(e);
    SkipPow2(e, size1);
    SkipFirst(size1 - 1, size1 - 1, size2 - 1);
    SkipStaysBelow(size1 - 1, size2 - 1);
    RightTurns(Skip(size1 - 1, size2 - 1).1);
  }

  lemma {:induction false} SkipFirst(fn: nat, sn: nat, sn': nat)
    ensures Skip(fn, sn).0 == Skip(fn, sn').0
  {
    if fn % 2 == 1 {
      SkipFirst(fn / 2, sn / 2, sn' / 2);
    }
  }

  /** What folds to both its roots over two shapes shows that they are one, or the node hash
      collides, or a proof hash is a running hash. */
  lemma FoldsToBoth(w: ConsistencyInput, sh: Shape, sh': Shape) returns (c: Collision, k: nat)
    requires FoldsTo(w, sh) && FoldsTo(w, sh') && (sh'.fromRoot ==> sh.fromRoot) && (sh.fromRoot ==> RightOnly(sh))
    ensures sh == sh' || IsCollision(w.H, c) || RunsInto(w, sh, k)
  {
    var (n, n') := (|sh.turns|, |sh'.turns|);
    var (rest, rest') := (RestOf(w, sh), RestOf(w, sh'));
    var (start, start') := (StartOf(w, sh), StartOf(w, sh'));
    var (at, at') := (Heads(start, start), Heads(start', start'));
    assert sh.turns[..n] == sh.turns && sh'.turns[..n'] == sh'.turns && rest[..n] == rest && rest'[..n'] == rest';
    if sh.fromRoot == sh'.fromRoot {
      c, k := EqualFolds(w.H, sh.turns, sh'.turns, at, at', rest);
    } else {
      var (tail, first) := (sh.turns[1..], Combine(w.H, sh.turns[0], at, rest[0]));
      c, k := EqualFolds(w.H, tail, sh'.turns, first, at', rest');
      if tail == sh'.turns {
        RightKeeps(w.H, sh'.turns, at', rest');
        k := 0;
      } else if !IsCollision(w.H, c) {
        k := k + 1;
        assert sh.turns[..k][1..] == tail[..k - 1] && rest[..k][1..] == rest'[..k - 1];
      }
    }
  }

  /** For any node hash: what verifies at two pairs of sizes walked in one shape there, or the node
      hash collides, or a proof hash is the running hash of the walk, the one from root1 if the
      walks start differently. */
  lemma ConsistencyAtBoth(w: ConsistencyInput, m: nat, n: nat, m': nat, n': nat) returns (c: Collision, k: nat)
    requires 0 < m < n && 0 < m' < n' && ConsistencyAt(w, m, n) == Accepted && ConsistencyAt(w, m', n') == Accepted
    ensures var (sh, sh') := (ShapeOf(m, n), ShapeOf(m', n'));
      sh == sh' || IsCollision(w.H, c) || RunsInto(w, if sh'.fromRoot then sh' else sh, k)
  {
    var (sh, sh') := (ShapeOf(m, n), ShapeOf(m', n'));
    ConsistencyIsFold(w, m, n);
    ConsistencyIsFold(w, m', n');
    if sh.fromRoot {
      FromRootTurns(m, n);
    }
    if sh'.fromRoot {
      FromRootTurns(m', n');
      c, k := FoldsToBoth(w, sh', sh);
    } else {
      c, k := FoldsToBoth(w, sh, sh');
    }
  }

  /** An input that the walk of a shape accepts and that never runs into its own hashes. */
  function AvoidingInput(H: Hasher, a: Hash, b: Hash, sh: Shape): ConsistencyInput {
    var rest := Avoiding(H, a, b, sh.turns, Heads(a, a));
    var to := Fold(H, sh.turns, Heads(a, a), rest);
    ConsistencyInput(H, to.fr, to.sr, if sh.fromRoot then rest else [a] + rest)
  }

  lemma AvoidingFolds(H: Hasher, a: Hash, b: Hash, sh: Shape, k: nat)
    requires a != b && (sh.fromRoot ==> RightOnly(sh))
    ensures FoldsTo(AvoidingInput(H, a, b, sh), sh) && !RunsInto(AvoidingInput(H, a, b, sh), sh, k)
  {
    var w := AvoidingInput(H, a, b, sh);
    var rest := Avoiding(H, a, b, sh.turns, Heads(a, a));
    if sh.fromRoot {
      RightKeeps(H, sh.turns, Heads(a, a), rest);
    }
    assert RestOf(w, sh) == rest && StartOf(w, sh) == a;
    assert sh.turns[..|sh.turns|] == sh.turns && rest[..|rest|] == rest;
    if k < |rest| {
      AvoidingAvoids(H, a, b, sh.turns, Heads(a, a), k);
    }
  }

  /** Two pairs of sizes get one verdict for every hash, roots and proof if and only if the walk has
      the same shape at both. When it has not, then for every node hash an input is computed that
      verifies at exactly one of them, or the node hash collides. */
  lemma ConsistencyBinding(H: Hasher, a: Hash, b: Hash, m: nat, n: nat, m': nat, n': nat)
    returns (w: ConsistencyInput, c: Collision)
    requires 0 < m < n && 0 < m' < n' && a != b
    ensures ShapeOf(m, n) == ShapeOf(m', n') ==> forall v :: ConsistencyAt(v, m, n) == ConsistencyAt(v, m', n')
    ensures ShapeOf(m, n) != ShapeOf(m', n') ==>
      w.H == H && (ConsistencyAt(w, m, n) != ConsistencyAt(w, m', n') || IsCollision(H, c))
  {
    var (sh, sh') := (ShapeOf(m, n), ShapeOf(m', n'));
    c := Collision(a, a, a, a);
    if sh.fromRoot {
      FromRootTurns(m, n);
    }
    if sh'.fromRoot {
      FromRootTurns(m', n');
    }
    var base := if sh'.fromRoot then sh' else sh;
    w := AvoidingInput(H, a, b, base);
    AvoidingFolds(H, a, b, base, 0);
    ConsistencyIsFold(w, m, n);
    ConsistencyIsFold(w, m', n');
    if sh == sh' {
      forall v
        ensures ConsistencyAt(v, m, n) == ConsistencyAt(v, m', n')
      {
        ConsistencyIsFold(v, m, n);
        ConsistencyIsFold(v, m', n');
      }
    } else if ConsistencyAt(w, m, n) == ConsistencyAt(w, m', n') {
      var k: nat;
      c, k := ConsistencyAtBoth(w, m, n, m', n');
      AvoidingFolds(H, a, b, base, k);
    }
  }

  /** The documented instance: sizes 2 and 3, and sizes 1 and 2. */
  lemma ConsistencyDoesNotBindSizes(w: ConsistencyInput)
    ensures ConsistencyAt(w, 2, 3) == ConsistencyAt(w, 1, 2)
  {
    assert Skip(1, 2) == (0, 1) && Skip(0, 1) == (0, 1);
    assert And(2, 1) == 0 && And(1, 0) == 0;
    var _, _ := ConsistencyBinding(w.H, Hash([0]), Hash([1]), 2, 3, 1, 2);
  }
}
