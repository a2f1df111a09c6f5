/** crypto/merkle/tree.go: the append-only tree that stores every complete aligned subtree. */
module MerkleTree {
  import opened Bits
  import opened Common
  import opened Rfc9162

  /** One level up: the parents of the complete pairs. */
  function PairUp(H: Hasher, s: seq<Hash>): seq<Hash> {
    seq(|s| / 2, i requires 0 <= i < |s| / 2 => H.node(s[2 * i], s[2 * i + 1]))
  }

  /** The stored levels hold the leaves at the bottom, each level pairs up the one below it, and
      the top level is the single largest complete subtree. */
  ghost predicate Stores(H: Hasher, levels: seq<seq<Hash>>, leaves: seq<Hash>) {
    && (leaves == [] <==> levels == [])
    && (levels != [] ==> levels[0] == leaves && |levels[|levels| - 1]| == 1)
    && forall L :: 0 < L < |levels| ==> PairsUp(H, levels, L)
  }

  ghost predicate PairsUp(H: Hasher, levels: seq<seq<Hash>>, L: nat)
    requires 0 < L < |levels|
  {
    levels[L] == PairUp(H, levels[L - 1])
  }

  lemma LevelEntry(H: Hasher, levels: seq<seq<Hash>>, leaves: seq<Hash>, L: nat, i: nat)
    requires Stores(H, levels, leaves) && 0 < L < |levels| && i < |levels[L]|
    ensures 2 * i + 1 < |levels[L - 1]|
    ensures levels[L][i] == H.node(levels[L - 1][2 * i], levels[L - 1][2 * i + 1])
  {
    assert PairsUp(H, levels, L);
  }

  /** The stored hash of the complete subtree of w = 2^e leaves that starts at the aligned leaf lo. */
  lemma {:induction false} LevelIsHead(H: Hasher, levels: seq<seq<Hash>>, leaves: seq<Hash>, lo: nat, e: nat, w: nat)
    requires Stores(H, levels, leaves) && w == Pow2(e) && Aligned(lo, e) && lo + w <= |leaves|
    ensures e < |levels| && Shift(lo, e) < |levels[e]|
    ensures levels[e][Shift(lo, e)] == Mth(H, leaves, lo, lo + w)
    decreases e
  {
    LevelReaches(H, levels, leaves, lo, e, w);
    if e > 0 {
      var h := Pow2(e - 1);
      PairIndices(lo, e, h);
      hide Stores, Aligned, Mth, Shift;
      LevelIsHead(H, levels, leaves, lo, e - 1, h);
      LevelIsHead(H, levels, leaves, lo + h, e - 1, h);
      LevelStep(H, levels, leaves, lo, e, w, h, Shift(lo, e));
    }
  }

  lemma LevelStep(H: Hasher, levels: seq<seq<Hash>>, leaves: seq<Hash>, lo: nat, e: nat, w: nat, h: nat, i: nat)
    requires Stores(H, levels, leaves) && 0 < e < |levels| && w == Pow2(e) && h == Pow2(e - 1) && lo + w <= |leaves|
    requires i < |levels[e]| && 2 * i + 1 < |levels[e - 1]|
    requires levels[e - 1][2 * i] == Mth(H, leaves, lo, lo + h) && levels[e - 1][2 * i + 1] == Mth(H, leaves, lo + h, lo + h + h)
    ensures levels[e][i] == Mth(H, leaves, lo, lo + w)
  {
    hide Mth;
    LevelEntry(H, levels, leaves, e, i);
    SplitPointUnique(w, e - 1);
    MthPair(H, leaves, lo, h);
  }

  /** The two children of an aligned subtree are aligned, at twice its index and the next one. */
  lemma {:induction false} PairIndices(lo: nat, e: nat, h: nat)
    requires e > 0 && h == Pow2(e - 1) && Aligned(lo, e)
    ensures Aligned(lo, e - 1) && Aligned(lo + h, e - 1)
    ensures Shift(lo, e - 1) == 2 * Shift(lo, e) && Shift(lo + h, e - 1) == 2 * Shift(lo, e) + 1
  {
    if e > 1 {
      assert (lo + h) / 2 == lo / 2 + h / 2;
      PairIndices(lo / 2, e - 1, h / 2);
    }
  }

  lemma {:induction false} ShiftOfMultiple(i: nat, L: nat)
    ensures Aligned(i * Pow2(L), L) && Shift(i * Pow2(L), L) == i
  {
    if L > 0 {
      var h := Pow2(L - 1);
      assert i * Pow2(L) == 2 * (i * h);
      ShiftOfMultiple(i, L - 1);
    }
  }

  /** The documented invariant of `levels`: level L holds Size() >> L hashes, and its entry i is
      the head of the 2^L leaves that start at leaf i * 2^L. */
  lemma LevelsInvariant(H: Hasher, levels: seq<seq<Hash>>, leaves: seq<Hash>, L: nat, i: nat)
    requires Stores(H, levels, leaves) && L < |levels| && i < |levels[L]|
    ensures |levels[L]| == Shift(|leaves|, L)
    ensures i * Pow2(L) + Pow2(L) <= |leaves|
    ensures levels[L][i] == Mth(H, leaves, i * Pow2(L), i * Pow2(L) + Pow2(L))
  {
    LevelLength(H, levels, leaves, L);
    ShiftOfMultiple(i, L);
    ShiftFits(|leaves|, L, i);
    LevelIsHead(H, levels, leaves, i * Pow2(L), L, Pow2(L));
  }

  lemma {:induction false} ShiftFits(x: nat, L: nat, i: nat)
    requires i < Shift(x, L)
    ensures i * Pow2(L) + Pow2(L) <= x
  {
    if L > 0 {
      var h := Pow2(L - 1);
      ShiftFits(x / 2, L - 1, i);
      assert i * Pow2(L) == 2 * (i * h);
    }
  }

  lemma MthPair(H: Hasher, leaves: seq<Hash>, a: nat, h: nat)
    requires h > 0 && a + h + h <= |leaves| && SplitPoint(h + h) == h
    ensures Mth(H, leaves, a, a + h + h) == H.node(Mth(H, leaves, a, a + h), Mth(H, leaves, a + h, a + h + h))
  {
  }

  lemma {:induction false} LevelLength(H: Hasher, levels: seq<seq<Hash>>, leaves: seq<Hash>, L: nat)
    requires Stores(H, levels, leaves) && L < |levels|
    ensures |levels[L]| == Shift(|leaves|, L)
  {
    if L > 0 {
      assert PairsUp(H, levels, L);
      LevelLength(H, levels, leaves, L - 1);
      ShiftStep(|leaves|, L - 1);
    }
  }

  lemma {:induction false} ShiftStep(x: nat, d: nat)
    ensures Shift(x, d + 1) == Shift(x, d) / 2
  {
    if d > 0 {
      ShiftStep(x / 2, d - 1);
    }
  }

  /** The stored levels reach as far as the complete subtrees do. */
  lemma LevelReaches(H: Hasher, levels: seq<seq<Hash>>, leaves: seq<Hash>, lo: nat, e: nat, w: nat)
    requires Stores(H, levels, leaves) && w == Pow2(e) && lo + w <= |leaves|
    ensures e < |levels| && Shift(lo, e) < |levels[e]|
  {
    ShiftGrows(lo, e, w, |leaves|);
    LevelCount(H, levels, leaves, e);
    LevelLength(H, levels, leaves, e);
  }

  lemma {:induction false} ShiftGrows(x: nat, d: nat, w: nat, y: nat)
    requires w == Pow2(d) && x + w <= y
    ensures Shift(x, d) < Shift(y, d)
  {
    if d > 0 {
      ShiftGrows(x / 2, d - 1, w / 2, y / 2);
    }
  }

  lemma {:induction false} LevelCount(H: Hasher, levels: seq<seq<Hash>>, leaves: seq<Hash>, L: nat)
    requires Stores(H, levels, leaves) && Shift(|leaves|, L) > 0
    ensures L < |levels|
  {
    if L >= |levels| {
      if levels == [] {
        ShiftZero(L);
      } else {
        var top := |levels| - 1;
        LevelLength(H, levels, leaves, top);
        ShiftSplit(|leaves|, top, L - top);
        assert Shift(1, L - top) == Shift(0, L - top - 1);
        ShiftZero(L - top - 1);
      }
    }
  }

  lemma {:induction false} ShiftZero(d: nat)
    ensures Shift(0, d) == 0
  {
    if d > 0 {
      ShiftZero(d - 1);
    }
  }

  lemma {:induction false} ShiftSplit(x: nat, a: nat, b: nat)
    ensures Shift(x, a + b) == Shift(Shift(x, a), b)
  {
    if a > 0 {
      ShiftSplit(x / 2, a - 1, b);
    }
  }

  /** hashRange. None is the panic on an unaligned subtree or an index out of range. */
  function HashRange(H: Hasher, levels: seq<seq<Hash>>, lo: nat, hi: nat): Option<Hash>
    requires lo <= hi
    decreases hi - lo
  {
    var n := hi - lo;
    if n == 0 then Some(H.empty)
    else if And(n, n - 1) == 0 then
      if And(lo, n - 1) != 0 then None
      else
        var level := TrailingZeros(n);
        if level < |levels| && Shift(lo, level) < |levels[level]| then Some(levels[level][Shift(lo, level)])
        else None
    else
      PowerTest(n);
      assert n >= 2 by { assert Pow2(0) == 1; }
      SplitExists(n);
      var k := SplitPointBits(n);
      match (HashRange(H, levels, lo, lo + k), HashRange(H, levels, lo + k, hi))
      case (Some(l), Some(r)) => Some(H.node(l, r))
      case _ => None
  }

  /** path. None means that a hashRange call panicked. */
  function Path(H: Hasher, levels: seq<seq<Hash>>, m: nat, lo: nat, hi: nat, proof: seq<Hash>): Option<seq<Hash>>
    requires lo <= hi && m < hi - lo
    decreases hi - lo
  {
    var n := hi - lo;
    if n == 1 then Some(proof)
    else
      SplitExists(n);
      var k := SplitPointBits(n);
      if m < k then PushHash(Path(H, levels, m, lo, lo + k, proof), HashRange(H, levels, lo + k, hi))
      else PushHash(Path(H, levels, m - k, lo + k, hi, proof), HashRange(H, levels, lo, lo + k))
  }

  function PushHash(proof: Option<seq<Hash>>, h: Option<Hash>): Option<seq<Hash>> {
    if proof.Some? && h.Some? then Some(proof.value + [h.value]) else None
  }

  /** subproof. None means that a hashRange call panicked. */
  function SubProofOf(H: Hasher, levels: seq<seq<Hash>>, m: nat, lo: nat, hi: nat, b: bool, proof: seq<Hash>)
    : Option<seq<Hash>>
    requires lo <= hi && 0 < m <= hi - lo
    decreases hi - lo
  {
    var n := hi - lo;
    if m == n then
      if b then Some(proof) else PushHash(Some(proof), HashRange(H, levels, lo, hi))
    else
      SplitExists(n);
      var k := SplitPointBits(n);
      if m <= k then PushHash(SubProofOf(H, levels, m, lo, lo + k, b, proof), HashRange(H, levels, lo + k, hi))
      else PushHash(SubProofOf(H, levels, m - k, lo + k, hi, false, proof), HashRange(H, levels, lo, lo + k))
  }

  /** The ranges for which hashRange is called: aligned on every power of two up to the first that
      covers them. */
  ghost predicate Visited(lo: nat, hi: nat) {
    forall d: nat :: lo < hi && d <= Len(hi - lo - 1) ==> Aligned(lo, d)
  }

  lemma VisitedHalves(lo: nat, hi: nat)
    requires lo + 2 <= hi && Visited(lo, hi)
    ensures SplitPointBits(hi - lo) == SplitPoint(hi - lo)
    ensures Visited(lo, lo + SplitPoint(hi - lo)) && Visited(lo + SplitPoint(hi - lo), hi)
  {
    var e := SplitPower(hi - lo);
    HalfLengths(hi - lo);
    assert Aligned(lo, e);
    AlignedNext(lo, e);
    hide SplitPoint, SplitPointBits, Aligned, Len, Pow2, Shift;
    var mid := lo + SplitPoint(hi - lo);
    forall d: nat | d <= Len(mid - lo - 1)
      ensures Aligned(lo, d)
    {
      AlignedLess(lo, e, d);
    }
    forall d: nat | d <= Len(hi - mid - 1)
      ensures Aligned(mid, d)
    {
      AlignedLess(mid, e, d);
    }
  }

  ghost predicate Hashes(H: Hasher, levels: seq<seq<Hash>>, leaves: seq<Hash>, lo: nat, hi: nat)
    requires lo <= hi <= |leaves|
  {
    HashRange(H, levels, lo, hi) == Some(Mth(H, leaves, lo, hi))
  }

  lemma {:induction false} HashRangeIsMth(H: Hasher, levels: seq<seq<Hash>>, leaves: seq<Hash>, lo: nat, hi: nat)
    requires Stores(H, levels, leaves) && lo <= hi <= |leaves| && Visited(lo, hi)
    ensures Hashes(H, levels, leaves, lo, hi)
    decreases hi - lo
  {
    var n := hi - lo;
    if n > 0 {
      PowerTest(n);
      if And(n, n - 1) == 0 {
        var e: nat :| n == Pow2(e);
        StoredRange(H, levels, leaves, lo, e, hi);
      } else {
        assert n >= 2 by { assert Pow2(0) == 1; }
        var mid := lo + SplitPoint(n);
        VisitedHalves(lo, hi);
        HashRangeIsMth(H, levels, leaves, lo, mid);
        HashRangeIsMth(H, levels, leaves, mid, hi);
        HashesJoin(H, levels, leaves, lo, mid, hi);
      }
    }
  }

  /** On a range of 2^e leaves hashRange panics exactly when the range is not aligned or not stored. */
  lemma PanicsExactly(H: Hasher, levels: seq<seq<Hash>>, lo: nat, e: nat)
    ensures HashRange(H, levels, lo, lo + Pow2(e)).None?
      <==> lo % Pow2(e) != 0 || e >= |levels| || Shift(lo, e) >= |levels[e]|
  {
    PowerTest(Pow2(e));
    AlignTest(lo, e);
    TrailingZerosPow2(e);
    hide Pow2, And, TrailingZeros, Shift;
  }

  /** A complete aligned subtree is found in the levels, not recomputed. */
  lemma StoredRange(H: Hasher, levels: seq<seq<Hash>>, leaves: seq<Hash>, lo: nat, e: nat, hi: nat)
    requires Stores(H, levels, leaves) && lo < hi <= |leaves| && Visited(lo, hi)
    requires hi - lo == Pow2(e) && And(hi - lo, hi - lo - 1) == 0
    ensures Hashes(H, levels, leaves, lo, hi)
  {
    TrailingZerosPow2(e);
    assert Aligned(lo, e);
    AlignTest(lo, e);
    LevelIsHead(H, levels, leaves, lo, e, hi - lo);
  }

  lemma HashesJoin(H: Hasher, levels: seq<seq<Hash>>, leaves: seq<Hash>, lo: nat, mid: nat, hi: nat)
    requires lo + 2 <= hi <= |leaves| && And(hi - lo, hi - lo - 1) != 0
    requires mid - lo == SplitPointBits(hi - lo) == SplitPoint(hi - lo)
    requires Hashes(H, levels, leaves, lo, mid) && Hashes(H, levels, leaves, mid, hi)
    ensures Hashes(H, levels, leaves, lo, hi)
  {
  }

  ghost predicate Paths(H: Hasher, levels: seq<seq<Hash>>, leaves: seq<Hash>, m: nat, lo: nat, hi: nat,
                        proof: seq<Hash>)
    requires lo + m < hi <= |leaves|
  {
    Path(H, levels, m, lo, hi, proof) == Some(proof + AuditPath(H, m, leaves, lo, hi))
  }

  lemma {:induction false} PathIsAuditPath(H: Hasher, levels: seq<seq<Hash>>, leaves: seq<Hash>,
                                           m: nat, lo: nat, hi: nat, proof: seq<Hash>)
    requires Stores(H, levels, leaves) && lo + m < hi <= |leaves| && Visited(lo, hi)
    ensures Paths(H, levels, leaves, m, lo, hi, proof)
    decreases hi - lo
  {
    if hi - lo == 1 {
      assert proof + [] == proof;
    } else {
      hide SplitPoint, Visited, Paths, Hashes;
      var k := SplitPoint(hi - lo);
      var mid := lo + k;
      VisitedHalves(lo, hi);
      if m < k {
        PathIsAuditPath(H, levels, leaves, m, lo, mid, proof);
        HashRangeIsMth(H, levels, leaves, mid, hi);
        PathsLeft(H, levels, leaves, m, lo, mid, hi, proof);
      } else {
        PathIsAuditPath(H, levels, leaves, m - k, mid, hi, proof);
        HashRangeIsMth(H, levels, leaves, lo, mid);
        PathsRight(H, levels, leaves, m, lo, mid, hi, proof);
      }
    }
  }

  lemma PathsLeft(H: Hasher, levels: seq<seq<Hash>>, leaves: seq<Hash>, m: nat, lo: nat, mid: nat, hi: nat,
                  proof: seq<Hash>)
    requires lo + 2 <= hi <= |leaves| && lo + m < mid
    requires mid - lo == SplitPointBits(hi - lo) == SplitPoint(hi - lo)
    requires Paths(H, levels, leaves, m, lo, mid, proof) && Hashes(H, levels, leaves, mid, hi)
    ensures Paths(H, levels, leaves, m, lo, hi, proof)
  {
    PushAfter(proof, AuditPath(H, m, leaves, lo, mid), Mth(H, leaves, mid, hi));
  }

  lemma PathsRight(H: Hasher, levels: seq<seq<Hash>>, leaves: seq<Hash>, m: nat, lo: nat, mid: nat, hi: nat,
                   proof: seq<Hash>)
    requires lo + 2 <= hi <= |leaves| && lo < mid <= lo + m < hi
    requires mid - lo == SplitPointBits(hi - lo) == SplitPoint(hi - lo)
    requires Paths(H, levels, leaves, m - (mid - lo), mid, hi, proof) && Hashes(H, levels, leaves, lo, mid)
    ensures Paths(H, levels, leaves, m, lo, hi, proof)
  {
    PushAfter(proof, AuditPath(H, m - (mid - lo), leaves, mid, hi), Mth(H, leaves, lo, mid));
  }

  lemma PushAfter(proof: seq<Hash>, p: seq<Hash>, h: Hash)
    ensures PushHash(Some(proof + p), Some(h)) == Some(proof + (p + [h]))
  {
    assert proof + p + [h] == proof + (p + [h]);
  }

  ghost predicate SubProofs(H: Hasher, levels: seq<seq<Hash>>, leaves: seq<Hash>,
                            m: nat, lo: nat, hi: nat, b: bool, proof: seq<Hash>)
    requires 0 < m && lo + m <= hi <= |leaves|
  {
    SubProofOf(H, levels, m, lo, hi, b, proof) == Some(proof + SubProof(H, m, leaves, lo, hi, b))
  }

  lemma {:induction false} SubProofOfIsSubProof(H: Hasher, levels: seq<seq<Hash>>, leaves: seq<Hash>,
                                                m: nat, lo: nat, hi: nat, b: bool, proof: seq<Hash>)
    requires Stores(H, levels, leaves) && 0 < m && lo + m <= hi <= |leaves| && Visited(lo, hi)
    ensures SubProofs(H, levels, leaves, m, lo, hi, b, proof)
    decreases hi - lo, 1
  {
    if m == hi - lo {
      HashRangeIsMth(H, levels, leaves, lo, hi);
      SubProofsWhole(H, levels, leaves, lo, hi, b, proof);
    } else if m <= SplitPoint(hi - lo) {
      SubProofsInLeft(H, levels, leaves, m, lo, hi, b, proof);
    } else {
      SubProofsInRight(H, levels, leaves, m, lo, hi, b, proof);
    }
  }

  lemma {:induction false} SubProofsInLeft(H: Hasher, levels: seq<seq<Hash>>, leaves: seq<Hash>,
                                           m: nat, lo: nat, hi: nat, b: bool, proof: seq<Hash>)
    requires Stores(H, levels, leaves) && 0 < m && lo + m < hi <= |leaves| && Visited(lo, hi) && m <= SplitPoint(hi - lo)
    ensures SubProofs(H, levels, leaves, m, lo, hi, b, proof)
    decreases hi - lo, 0
  {
    var mid := lo + SplitPoint(hi - lo);
    VisitedHalves(lo, hi);
    SubProofOfIsSubProof(H, levels, leaves, m, lo, mid, b, proof);
    HashRangeIsMth(H, levels, leaves, mid, hi);
    SubProofsLeft(H, levels, leaves, m, lo, mid, hi, b, proof);
  }

  lemma {:induction false} SubProofsInRight(H: Hasher, levels: seq<seq<Hash>>, leaves: seq<Hash>,
                                            m: nat, lo: nat, hi: nat, b: bool, proof: seq<Hash>)
    requires Stores(H, levels, leaves) && 0 < m && lo + m < hi <= |leaves| && Visited(lo, hi) && m > SplitPoint(hi - lo)
    ensures SubProofs(H, levels, leaves, m, lo, hi, b, proof)
    decreases hi - lo, 0
  {
    var mid := lo + SplitPoint(hi - lo);
    VisitedHalves(lo, hi);
    SubProofOfIsSubProof(H, levels, leaves, lo + m - mid, mid, hi, false, proof);
    HashRangeIsMth(H, levels, leaves, lo, mid);
    SubProofsRight(H, levels, leaves, m, lo + m - mid, lo, mid, hi, b, proof);
  }

  lemma SubProofsWhole(H: Hasher, levels: seq<seq<Hash>>, leaves: seq<Hash>, lo: nat, hi: nat, b: bool,
                       proof: seq<Hash>)
    requires lo < hi <= |leaves| && Hashes(H, levels, leaves, lo, hi)
    ensures SubProofs(H, levels, leaves, hi - lo, lo, hi, b, proof)
  {
    assert proof + [] == proof;
  }

  lemma SubProofsLeft(H: Hasher, levels: seq<seq<Hash>>, leaves: seq<Hash>,
                      m: nat, lo: nat, mid: nat, hi: nat, b: bool, proof: seq<Hash>)
    requires lo + 2 <= hi <= |leaves| && 0 < m && lo + m <= mid < hi
    requires mid - lo == SplitPointBits(hi - lo) == SplitPoint(hi - lo)
    requires SubProofs(H, levels, leaves, m, lo, mid, b, proof) && Hashes(H, levels, leaves, mid, hi)
    ensures SubProofs(H, levels, leaves, m, lo, hi, b, proof)
  {
    PushAfter(proof, SubProof(H, m, leaves, lo, mid, b), Mth(H, leaves, mid, hi));
  }

  lemma SubProofsRight(H: Hasher, levels: seq<seq<Hash>>, leaves: seq<Hash>,
                       m: nat, j: nat, lo: nat, mid: nat, hi: nat, b: bool, proof: seq<Hash>)
    requires lo + 2 <= hi <= |leaves| && lo < mid < lo + m < hi && j == m - (mid - lo)
    requires mid - lo == SplitPointBits(hi - lo) == SplitPoint(hi - lo)
    requires SubProofs(H, levels, leaves, j, mid, hi, false, proof) && Hashes(H, levels, leaves, lo, mid)
    ensures SubProofs(H, levels, leaves, m, lo, hi, b, proof)
  {
    SubProofOfRight(H, levels, m, j, lo, mid, hi, b, proof);
    PushAfter(proof, SubProof(H, j, leaves, mid, hi, false), Mth(H, leaves, lo, mid));
  }

  lemma SubProofOfRight(H: Hasher, levels: seq<seq<Hash>>, m: nat, j: nat, lo: nat, mid: nat, hi: nat, b: bool,
                        proof: seq<Hash>)
    requires lo + 2 <= hi && lo < mid < lo + m < hi && j == m - (mid - lo) && mid - lo == SplitPointBits(hi - lo)
    ensures SubProofOf(H, levels, m, lo, hi, b, proof)
         == PushHash(SubProofOf(H, levels, j, mid, hi, false, proof), HashRange(H, levels, lo, mid))
  {
  }

  /** What the tree's queries answer: a value, an error of crypto/merkle/hash.go, or a Go panic. */
  datatype Answer<+T> = Answer(value: T) | ErrIndexOutOfRange | ErrSizeOutOfRange | Panic

  function Answered<T>(o: Option<T>): Answer<T> {
    if o.Some? then Answer(o.value) else Panic
  }

  /** Level L, empty above the top. */
  ghost function At(levels: seq<seq<Hash>>, L: nat): seq<Hash> {
    if L < |levels| then levels[L] else []
  }

  /** Append's loop: the levels below `level` have their new entry and pair up again, those from
      `level` on are untouched, and h is the entry that `level` still lacks. */
  ghost predicate Carried(H: Hasher, was: seq<seq<Hash>>, now: seq<seq<Hash>>, level: nat, h: Hash, leaf: Hash) {
    && level <= |was| == |now|
    && (forall L :: level <= L < |was| ==> now[L] == was[L])
    && (forall L :: 0 < L < level ==> PairsUp(H, now, L))
    && (if level == 0 then h == leaf
        else now[0] == At(was, 0) + [leaf] && PairUp(H, now[level - 1]) == At(was, level) + [h])
  }

  /** What one pass of Append's loop writes. */
  ghost function Written(now: seq<seq<Hash>>, level: nat, h: Hash): seq<seq<Hash>>
    requires level <= |now|
  {
    if level == |now| then now + [[h]] else now[level := now[level] + [h]]
  }

  lemma WrittenPairsUp(H: Hasher, was: seq<seq<Hash>>, now: seq<seq<Hash>>, level: nat, h: Hash, leaf: Hash, L: nat)
    requires Carried(H, was, now, level, h, leaf) && 0 < L <= level
    ensures PairsUp(H, Written(now, level, h), L)
  {
    assert L < level ==> PairsUp(H, now, L);
  }

  /** With an even number, the written hash waits for its pair, and nothing above changes. */
  lemma CarryStops(H: Hasher, was: seq<seq<Hash>>, leaves: seq<Hash>, now: seq<seq<Hash>>, level: nat, h: Hash,
                   leaf: Hash)
    requires Stores(H, was, leaves) && Carried(H, was, now, level, h, leaf) && |At(was, level)| % 2 == 0
    ensures Stores(H, Written(now, level, h), leaves + [leaf])
  {
    var then' := Written(now, level, h);
    forall L | 0 < L < |then'|
      ensures PairsUp(H, then', L)
    {
      if L <= level {
        WrittenPairsUp(H, was, now, level, h, leaf, L);
      } else {
        assert PairsUp(H, was, L);
        PairUpEven(H, At(was, level), h);
      }
    }
  }

  /** With an odd number of entries below it, the written hash pairs up with the last of them. */
  lemma CarryContinues(H: Hasher, was: seq<seq<Hash>>, leaves: seq<Hash>, now: seq<seq<Hash>>, level: nat, h: Hash,
                       leaf: Hash)
    requires Stores(H, was, leaves) && Carried(H, was, now, level, h, leaf) && |At(was, level)| % 2 == 1
    ensures var s := was[level];
      Carried(H, was, Written(now, level, h), level + 1, H.node(s[|s| - 1], h), leaf)
      && |At(was, level + 1)| == |s| / 2
  {
    PairUpOdd(H, was[level], h);
    PairUpHalves(H, was[level]);
    hide PairUp;
    assert level + 1 < |was| ==> PairsUp(H, was, level + 1);
    forall L | 0 < L < level + 1
      ensures PairsUp(H, Written(now, level, h), L)
    {
      WrittenPairsUp(H, was, now, level, h, leaf, L);
    }
  }

  class Tree {
    const H: Hasher
    var levels: seq<seq<Hash>>
    ghost var leaves: seq<Hash>  // the leaf hashes in append order

    ghost predicate Valid()
      reads this
    {
      Stores(H, levels, leaves)
    }

    constructor (H: Hasher)
      ensures Valid() && leaves == [] && this.H == H
    {
      this.H := H;
      levels, leaves := [], [];
    }

    method Append(data: Bytes) returns (index: nat)
      requires Valid()
      modifies this
      ensures Valid()
      ensures index == |old(leaves)| && leaves == old(leaves) + [H.leaf(data)]
    {
      hide PairsUp, PairUp;
      index := Size();
      var h, i, level := H.leaf(data), index, 0;
      ghost var was := levels;
      while true
        invariant Stores(H, was, leaves) && leaves == old(leaves)
        invariant Carried(H, was, levels, level, h, H.leaf(data)) && i == |At(was, level)|
        decreases i
      {
        ghost var now := levels;
        if level == |levels| {
          levels := levels + [[]];
        }
        levels := levels[level := levels[level] + [h]];
        assert levels == Written(now, level, h) by { assert [] + [h] == [h]; }
        if i % 2 == 0 {
          CarryStops(H, was, leaves, now, level, h, H.leaf(data));
          break;
        }
        CarryContinues(H, was, leaves, now, level, h, H.leaf(data));
        h := H.node(levels[level][i - 1], h);
        i := i / 2;
        level := level + 1;
      }
      leaves := leaves + [H.leaf(data)];
    }

    method Size() returns (n: nat)
      requires Valid()
      ensures n == |leaves|
    {
      n := if |levels| == 0 then 0 else |levels[0]|;
    }

    /** RootAt; Root is RootAt at Size(). */
    method RootAt(size: nat) returns (r: Answer<Hash>)
      requires Valid()
      ensures r == if size > |leaves| then ErrSizeOutOfRange else Answer(Mth(H, leaves, 0, size))
    {
      var n := Size();
      if size > n {
        return ErrSizeOutOfRange;
      }
      VisitedWhole(size);
      HashRangeIsMth(H, levels, leaves, 0, size);
      assert Hashes(H, levels, leaves, 0, size);
      r := Answered(HashRange(H, levels, 0, size));
    }

    method Root() returns (r: Answer<Hash>)
      requires Valid()
      ensures r == Answer(Head(H, leaves))
    {
      var n := Size();
      r := RootAt(n);
    }

    method InclusionProof(index: nat, size: nat) returns (r: Answer<seq<Hash>>)
      requires Valid()
      ensures r == if size > |leaves| then ErrSizeOutOfRange
                   else if index >= size then ErrIndexOutOfRange
                   else Answer(AuditPath(H, index, leaves, 0, size))
    {
      var n := Size();
      if size > n {
        return ErrSizeOutOfRange;
      }
      if index >= size {
        return ErrIndexOutOfRange;
      }
      VisitedWhole(size);
      PathIsAuditPath(H, levels, leaves, index, 0, size, []);
      assert Paths(H, levels, leaves, index, 0, size, []);
      assert [] + AuditPath(H, index, leaves, 0, size) == AuditPath(H, index, leaves, 0, size);
      r := Answered(Path(H, levels, index, 0, size, []));
    }

    method ConsistencyProof(size1: nat, size2: nat) returns (r: Answer<seq<Hash>>)
      requires Valid()
      ensures r == if size2 > |leaves| || size1 > size2 then ErrSizeOutOfRange
                   else Answer(ConsistencyPath(H, size1, leaves, size2))
    {
      var n := Size();
      if size2 > n || size1 > size2 {
        return ErrSizeOutOfRange;
      }
      if size1 == 0 || size1 == size2 {
        return Answer([]);
      }
      VisitedWhole(size2);
      SubProofOfIsSubProof(H, levels, leaves, size1, 0, size2, true, []);
      assert SubProofs(H, levels, leaves, size1, 0, size2, true, []);
      assert [] + SubProof(H, size1, leaves, 0, size2, true) == SubProof(H, size1, leaves, 0, size2, true);
      r := Answered(SubProofOf(H, levels, size1, 0, size2, true, []));
    }
  }

  lemma VisitedWhole(size: nat)
    ensures Visited(0, size)
  {
    forall d: nat
      ensures Aligned(0, d)
    {
      ZeroAligned(d);
    }
  }

  lemma PairUpHalves(H: Hasher, s: seq<Hash>)
    ensures |PairUp(H, s)| == |s| / 2
  {
  }

  lemma PairUpEven(H: Hasher, s: seq<Hash>, h: Hash)
    requires |s| % 2 == 0
    ensures PairUp(H, s + [h]) == PairUp(H, s)
  {
  }

  lemma PairUpOdd(H: Hasher, s: seq<Hash>, h: Hash)
    requires |s| % 2 == 1
    ensures PairUp(H, s + [h]) == PairUp(H, s) + [H.node(s[|s| - 1], h)]
  {
  }
}
