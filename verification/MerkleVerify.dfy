/** crypto/merkle/verify.go and web/src/crypto/merkle.ts: the bottom-up verifiers, and the
    top-down recursions they turn out to compute. */
module MerkleVerify {
  import opened Bits
  import opened Common
  import opened Rfc9162

  /** nil and the three errors of crypto/merkle/hash.go. */
  datatype Verdict = Accepted | ErrIndexOutOfRange | ErrSizeOutOfRange | ErrInvalidProof

  /** Halving both counters while the first is even and not zero. */
  function Climb(fn: nat, sn: nat): (nat, nat) {
    if fn % 2 == 0 && fn != 0 then Climb(fn / 2, sn / 2) else (fn, sn)
  }

  /** Halving both counters while the first is odd. */
  function Skip(fn: nat, sn: nat): (nat, nat) {
    if fn % 2 == 1 then Skip(fn / 2, sn / 2) else (fn, sn)
  }

  /** The two hashes the consistency walk carries. The inclusion walk carries the second only. */
  datatype Heads = Heads(fr: Hash, sr: Hash)

  /** Whether the next proof hash goes on the left. */
  predicate TurnsLeft(fn: nat, sn: nat) {
    fn % 2 == 1 || fn == sn
  }

  function Next(fn: nat, sn: nat): (nat, nat) {
    var (f, s) := if TurnsLeft(fn, sn) then Climb(fn, sn) else (fn, sn);
    (f / 2, s / 2)
  }

  function Combine(H: Hasher, left: bool, at: Heads, c: Hash): Heads {
    if left then Heads(H.node(c, at.fr), H.node(c, at.sr)) else Heads(at.fr, H.node(at.sr, c))
  }

  /** The loop over the proof; None when the proof is too long or too short. */
  function Walk(H: Hasher, fn: nat, sn: nat, at: Heads, proof: seq<Hash>): Option<Heads>
    decreases |proof|
  {
    if |proof| == 0 then (if sn == 0 then Some(at) else None)
    else if sn == 0 then None
    else
      var (f, s) := Next(fn, sn);
      Walk(H, f, s, Combine(H, TurnsLeft(fn, sn), at, proof[0]), proof[1..])
  }

  function InclusionVerdict(H: Hasher, leaf: Hash, index: nat, size: nat, proof: seq<Hash>, root: Hash): Verdict {
    if index >= size then ErrIndexOutOfRange
    else
      var o := Walk(H, index, size - 1, Heads(leaf, leaf), proof);
      if o.Some? && o.value.sr == root then Accepted else ErrInvalidProof
  }

  /** Where the consistency walk starts, and what is left of the proof after it. */
  function Start(size1: nat, root1: Hash, proof: seq<Hash>): (Hash, seq<Hash>)
    requires size1 > 0 && proof != []
  {
    if And(size1, size1 - 1) == 0 then (root1, proof) else (proof[0], proof[1..])
  }

  function ConsistencyVerdict(H: Hasher, size1: nat, size2: nat, root1: Hash, root2: Hash, proof: seq<Hash>): Verdict {
    if size1 > size2 then ErrSizeOutOfRange
    else if size1 == 0 || size1 == size2 then
      if proof == [] && (size1 == 0 ==> root1 == H.empty) && (size1 == size2 ==> root1 == root2)
      then Accepted else ErrInvalidProof
    else if proof == [] then ErrInvalidProof
    else
      var (start, rest) := Start(size1, root1, proof);
      var (fn, sn) := Skip(size1 - 1, size2 - 1);
      if Walk(H, fn, sn, Heads(start, start), rest) == Some(Heads(root1, root2)) then Accepted else ErrInvalidProof
  }

  method VerifyInclusion(H: Hasher, leafHash: Hash, index: nat, size: nat, proof: seq<Hash>, root: Hash)
    returns (v: Verdict)
    ensures v == InclusionVerdict(H, leafHash, index, size, proof, root)
  {
    if index >= size {
      return ErrIndexOutOfRange;
    }
    var fn: nat, sn: nat, r := index, size - 1, leafHash;
    ghost var fr := leafHash;
    for i := 0 to |proof|
      invariant fn <= sn
      invariant Walk(H, index, size - 1, Heads(leafHash, leafHash), proof) == Walk(H, fn, sn, Heads(fr, r), proof[i..])
    {
      var p := proof[i];
      assert proof[i..][1..] == proof[i + 1..];
      if sn == 0 {
        return ErrInvalidProof;
      }
      if fn % 2 == 1 || fn == sn {
        fr, r := H.node(p, fr), H.node(p, r);
        ghost var top := Climb(fn, sn);
        assert fn != 0;
        while fn % 2 == 0 && fn != 0
          invariant Climb(fn, sn) == top && 0 < fn <= sn
        {
          fn, sn := fn / 2, sn / 2;
        }
        assert fn % 2 == 1;  // so the loop never stops on fn == 0
      } else {
        r := H.node(r, p);
      }
      fn, sn := fn / 2, sn / 2;
    }
    if sn != 0 || r != root {
      return ErrInvalidProof;
    }
    return Accepted;
  }

  method VerifyConsistency(H: Hasher, size1: nat, size2: nat, root1: Hash, root2: Hash, proof: seq<Hash>)
    returns (v: Verdict)
    ensures v == ConsistencyVerdict(H, size1, size2, root1, root2, proof)
  {
    if size1 > size2 {
      return ErrSizeOutOfRange;
    }
    if size1 == 0 || size1 == size2 {
      if |proof| != 0 {
        return ErrInvalidProof;
      }
      if size1 == 0 && root1 != H.empty {
        return ErrInvalidProof;
      }
      if size1 == size2 && root1 != root2 {
        return ErrInvalidProof;
      }
      return Accepted;
    }
    if |proof| == 0 {
      return ErrInvalidProof;
    }
    var start, rest := proof[0], proof[1..];
    if And(size1, size1 - 1) == 0 {
      start, rest := root1, proof;
    }
    var fn: nat, sn: nat := size1 - 1, size2 - 1;
    while fn % 2 == 1
      invariant fn <= sn && Skip(fn, sn) == Skip(size1 - 1, size2 - 1)
      decreases fn
    {
      fn, sn := fn / 2, sn / 2;
    }
    var fr, sr := start, start;
    ghost var verdict := Walk(H, fn, sn, Heads(fr, sr), rest);
    for i := 0 to |rest|
      invariant fn <= sn && verdict == Walk(H, fn, sn, Heads(fr, sr), rest[i..])
    {
      var c := rest[i];
      assert rest[i..][1..] == rest[i + 1..];
      if sn == 0 {
        return ErrInvalidProof;
      }
      if fn % 2 == 1 || fn == sn {
        fr, sr := H.node(c, fr), H.node(c, sr);
        ghost var top := Climb(fn, sn);
        while fn % 2 == 0 && fn != 0
          invariant Climb(fn, sn) == top && 0 < fn <= sn
        {
          fn, sn := fn / 2, sn / 2;
        }
        assert fn % 2 == 1;  // so the loop never stops on fn == 0
      } else {
        sr := H.node(sr, c);
      }
      fn, sn := fn / 2, sn / 2;
    }
    if fr != root1 || sr != root2 || sn != 0 {
      return ErrInvalidProof;
    }
    return Accepted;
  }

  // ----- the walk, top down

  /** One level up from a left child that only the larger tree extends: the smaller tree's hash
      stays. */
  function LiftLeft(H: Hasher, o: Option<Heads>, h: Hash): Option<Heads> {
    if o.Some? then Some(Heads(o.value.fr, H.node(o.value.sr, h))) else None
  }

  /** One level up from a right child, in both trees. */
  function LiftRight(H: Hasher, o: Option<Heads>, h: Hash): Option<Heads> {
    if o.Some? then Some(Heads(H.node(h, o.value.fr), H.node(h, o.value.sr))) else None
  }

  /** Below the split point, a tree and its complete left subtree take the same turns. */
  lemma TurnLeft(d: nat, p: nat, fn: nat, sn: nat)
    requires d > 0 && p == Pow2(d) && fn < p <= sn < 2 * p
    ensures TurnsLeft(fn, sn) == TurnsLeft(fn, p - 1)
    ensures Next(fn, sn) == (fn / 2, sn / 2) && Next(fn, p - 1) == (fn / 2, p / 2 - 1)
  {
    Pow2Halves(d);
    hide Pow2;
  }

  /** So do their walks, and the tree's last step is to the right sibling h. */
  lemma {:induction false} WalkLeft(H: Hasher, d: nat, p: nat, fn: nat, sn: nat, at: Heads, q: seq<Hash>, h: Hash)
    requires p == Pow2(d) && fn < p <= sn < 2 * p
    ensures Walk(H, fn, sn, at, q + [h]) == LiftLeft(H, Walk(H, fn, p - 1, at, q), h)
    decreases d
  {
    var w := q + [h];
    if d > 0 {
      TurnLeft(d, p, fn, sn);
    }
    if q == [] {
      assert w[1..] == [];
    } else if d > 0 {
      assert w[1..] == q[1..] + [h];
      WalkLeft(H, d - 1, p / 2, fn / 2, sn / 2, Combine(H, TurnsLeft(fn, sn), at, q[0]), q[1..], h);
    }
  }

  lemma {:induction false} ClimbPow2(d: nat, p: nat)
    requires p == Pow2(d)
    ensures Climb(p, p) == (1, 1)
  {
    if d > 0 {
      ClimbPow2(d - 1, p / 2);
    }
  }

  /** On the right edge, a climb keeps the two walks one power of two apart. */
  lemma {:induction false} ClimbRight(x: nat, d: nat, p: nat) returns (d': nat, p': nat, y: nat)
    requires p == Pow2(d) && 0 < x < p
    ensures p' == Pow2(d') && y < p' && y % 2 == 1 && d' <= d
    ensures Climb(x, x) == (y, y) && Climb(x + p, x + p) == (y + p', y + p')
    decreases d
  {
    if x % 2 == 1 {
      d', p', y := d, p, x;
    } else {
      d', p', y := ClimbRight(x / 2, d - 1, p / 2);
      assert (x + p) / 2 == x / 2 + p / 2;
    }
  }

  /** Beyond the split point, a tree and its right subtree take the same turns. */
  lemma TurnRight(d: nat, p: nat, fn: nat, sn: nat) returns (d': nat, p': nat)
    requires p == Pow2(d) && fn <= sn < p && sn > 0
    ensures p' == Pow2(d') && d' < d && TurnsLeft(fn, sn) == TurnsLeft(fn + p, sn + p)
    ensures var (f, s) := Next(fn, sn);
      f <= s < p' && Next(fn + p, sn + p) == (f + p', s + p')
  {
    if fn == sn {
      var y;
      d', p', y := ClimbRight(fn, d, p);
      assert d' > 0 && d > 0;
      Pow2Halves(d');
      Pow2Halves(d);
      HalvesAdd(fn, p);
      HalvesAdd(y, p');
      hide Climb, Pow2;
      d', p' := d' - 1, p' / 2;
    } else {
      assert d > 0;
      Pow2Halves(d);
      HalvesAdd(fn, p);
      HalvesAdd(sn, p);
      hide Climb, Pow2;
      d', p' := d - 1, p / 2;
    }
  }

  /** So do their walks, and the tree's last step is to the left sibling h. */
  lemma {:induction false} WalkRight(H: Hasher, d: nat, p: nat, fn: nat, sn: nat, at: Heads, q: seq<Hash>, h: Hash)
    requires p == Pow2(d) && fn <= sn < p
    ensures Walk(H, fn + p, sn + p, at, q + [h]) == LiftRight(H, Walk(H, fn, sn, at, q), h)
    decreases d
  {
    var w := q + [h];
    if q == [] {
      assert w[1..] == [];
    } else {
      assert w[1..] == q[1..] + [h];
    }
    if sn == 0 {
      ClimbPow2(d, p);
    } else {
      var d', p' := TurnRight(d, p, fn, sn);
      if q != [] {
        var (f, s) := Next(fn, sn);
        WalkRight(H, d', p', f, s, Combine(H, TurnsLeft(fn, sn), at, q[0]), q[1..], h);
      }
    }
  }

  /** The head of a tree of n leaves as rebuilt, top down, from its leaf i and an audit path. */
  ghost function Rise(H: Hasher, i: nat, n: nat, leaf: Hash, proof: seq<Hash>): Option<Hash>
    requires i < n
    decreases n
  {
    if n == 1 then (if proof == [] then Some(leaf) else None)
    else if proof == [] then None
    else
      var k := SplitPoint(n);
      var (q, h) := (proof[..|proof| - 1], proof[|proof| - 1]);
      if i < k then
        var o := Rise(H, i, k, leaf, q);
        if o.Some? then Some(H.node(o.value, h)) else None
      else
        var o := Rise(H, i - k, n - k, leaf, q);
        if o.Some? then Some(H.node(h, o.value)) else None
  }

  /** One unfolding of Rise, from a value it reaches. */
  lemma RiseUnfolds(H: Hasher, i: nat, n: nat, leaf: Hash, proof: seq<Hash>) returns (q: seq<Hash>, h: Hash, v: Hash)
    requires i < n && n > 1 && Rise(H, i, n, leaf, proof).Some?
    ensures proof == q + [h]
    ensures var k := SplitPoint(n);
      if i < k then Rise(H, i, k, leaf, q) == Some(v) && Rise(H, i, n, leaf, proof) == Some(H.node(v, h))
      else Rise(H, i - k, n - k, leaf, q) == Some(v) && Rise(H, i, n, leaf, proof) == Some(H.node(h, v))
  {
    var k := SplitPoint(n);
    q, h := proof[..|proof| - 1], proof[|proof| - 1];
    v := if i < k then Rise(H, i, k, leaf, q).value else Rise(H, i - k, n - k, leaf, q).value;
  }

  function Second(o: Option<Heads>): Option<Hash> {
    if o.Some? then Some(o.value.sr) else None
  }

  ghost predicate Rises(H: Hasher, i: nat, n: nat, at: Heads, proof: seq<Hash>)
    requires i < n
  {
    Second(Walk(H, i, n - 1, at, proof)) == Rise(H, i, n, at.sr, proof)
  }

  /** The bottom-up walk of section 2.1.3.2 computes the top-down recursion. */
  lemma {:induction false} WalkIsRise(H: Hasher, i: nat, n: nat, at: Heads, proof: seq<Hash>)
    requires i < n
    ensures Rises(H, i, n, at, proof)
    decreases n
  {
    if n > 1 && proof != [] {
      var k := SplitPoint(n);
      var d := SplitPower(n);
      var (q, h) := (proof[..|proof| - 1], proof[|proof| - 1]);
      assert proof == q + [h];
      if i < k {
        WalkIsRise(H, i, k, at, q);
        RiseLeft(H, i, k, n, d, at, q, h);
      } else {
        WalkIsRise(H, i - k, n - k, at, q);
        RiseRight(H, i, k, n, d, at, q, h);
      }
    }
  }

  lemma RiseLeft(H: Hasher, i: nat, k: nat, n: nat, d: nat, at: Heads, q: seq<Hash>, h: Hash)
    requires i < k < n <= 2 * k && k == SplitPoint(n) == Pow2(d) && Rises(H, i, k, at, q)
    ensures Rises(H, i, n, at, q + [h])
  {
    WalkLeft(H, d, k, i, n - 1, at, q, h);
    assert (q + [h])[..|q|] == q;
  }

  lemma RiseRight(H: Hasher, i: nat, k: nat, n: nat, d: nat, at: Heads, q: seq<Hash>, h: Hash)
    requires k <= i < n <= 2 * k && k < n && k == SplitPoint(n) == Pow2(d) && Rises(H, i - k, n - k, at, q)
    ensures Rises(H, i, n, at, q + [h])
  {
    WalkRight(H, d, k, i - k, n - 1 - k, at, q, h);
    assert (q + [h])[..|q|] == q;
  }

  /** The heads of the trees of m and n leaves as rebuilt, top down, from the head of the
      deepest subtree they share and the rest of a consistency proof. */
  ghost function Rebuild(H: Hasher, m: nat, n: nat, start: Hash, rest: seq<Hash>): Option<Heads>
    requires 0 < m <= n
    decreases n
  {
    if m == n then (if rest == [] then Some(Heads(start, start)) else None)
    else if rest == [] then None
    else
      var k := SplitPoint(n);
      var (q, h) := (rest[..|rest| - 1], rest[|rest| - 1]);
      if m <= k then LiftLeft(H, Rebuild(H, m, k, start, q), h)
      else LiftRight(H, Rebuild(H, m - k, n - k, start, q), h)
  }

  lemma {:induction false} SkipLeft(d: nat, p: nat, fn: nat, sn: nat) returns (d': nat, p': nat, f: nat, s: nat)
    requires p == Pow2(d) && fn < p <= sn < 2 * p
    ensures p' == Pow2(d') && f < p' <= s < 2 * p'
    ensures Skip(fn, sn) == (f, s) && Skip(fn, p - 1) == (f, p' - 1)
  {
    if fn % 2 == 1 {
      d', p', f, s := SkipLeft(d - 1, p / 2, fn / 2, sn / 2);
      assert (p - 1) / 2 == p / 2 - 1;
    } else {
      d', p', f, s := d, p, fn, sn;
    }
  }

  lemma {:induction false} SkipRight(d: nat, p: nat, fn: nat, sn: nat) returns (d': nat, p': nat, f: nat, s: nat)
    requires p == Pow2(d) && fn + 1 < p && fn <= sn < p
    ensures p' == Pow2(d') && f <= s < p'
    ensures Skip(fn, sn) == (f, s) && Skip(fn + p, sn + p) == (f + p', s + p')
  {
    if fn % 2 == 1 {
      assert d > 0;
      Pow2Halves(d);
      HalvesAdd(fn, p);
      HalvesAdd(sn, p);
      hide Pow2;
      d', p', f, s := SkipRight(d - 1, p / 2, fn / 2, sn / 2);
    } else {
      d', p', f, s := d, p, fn, sn;
    }
  }

  lemma {:induction false} SkipPow2(d: nat, p: nat)
    requires p == Pow2(d)
    ensures Skip(p - 1, p - 1) == (0, 0)
  {
    if d > 0 {
      Pow2Halves(d);
      SkipPow2(d - 1, p / 2);
    }
  }

  /** The consistency walk from its first step, past the levels it skips. */
  function SkipWalk(H: Hasher, fn: nat, sn: nat, at: Heads, rest: seq<Hash>): Option<Heads> {
    var (f, s) := Skip(fn, sn);
    Walk(H, f, s, at, rest)
  }

  ghost predicate RebuildsFrom(H: Hasher, m: nat, n: nat, start: Hash, rest: seq<Hash>)
    requires 0 < m <= n
  {
    SkipWalk(H, m - 1, n - 1, Heads(start, start), rest) == Rebuild(H, m, n, start, rest)
  }

  /** The bottom-up walk of section 2.1.4.2 computes the top-down recursion. */
  lemma {:induction false} WalkIsRebuild(H: Hasher, m: nat, n: nat, start: Hash, rest: seq<Hash>)
    requires 0 < m <= n && (m == n ==> IsPow2(m))
    ensures RebuildsFrom(H, m, n, start, rest)
    decreases n
  {
    if m == n {
      var e: nat :| m == Pow2(e);
      SkipPow2(e, m);
    } else {
      var k := SplitPoint(n);
      var d := SplitPower(n);
      if rest == [] {
        SkipStaysBelow(m - 1, n - 1);
      } else {
        var (q, h) := (rest[..|rest| - 1], rest[|rest| - 1]);
        assert rest == q + [h];
        if m <= k {
          WalkIsRebuild(H, m, k, start, q);
          RebuildLeft(H, m, k, n, d, start, q, h);
        } else {
          WalkIsRebuild(H, m - k, n - k, start, q);
          RebuildRight(H, m, k, n, d, start, q, h);
        }
      }
    }
  }

  lemma {:induction false} SkipStaysBelow(fn: nat, sn: nat)
    requires fn < sn
    ensures Skip(fn, sn).0 < Skip(fn, sn).1
  {
    if fn % 2 == 1 {
      SkipStaysBelow(fn / 2, sn / 2);
    }
  }

  /** Rebuild over a proof with one more hash at its end. */
  lemma RebuildPush(H: Hasher, m: nat, n: nat, start: Hash, q: seq<Hash>, h: Hash)
    requires 0 < m < n
    ensures var k := SplitPoint(n);
      Rebuild(H, m, n, start, q + [h]) ==
        if m <= k then LiftLeft(H, Rebuild(H, m, k, start, q), h)
        else LiftRight(H, Rebuild(H, m - k, n - k, start, q), h)
  {
    assert (q + [h])[..|q|] == q;
  }

  lemma SkipWalkLeft(H: Hasher, d: nat, p: nat, fn: nat, sn: nat, at: Heads, q: seq<Hash>, h: Hash)
    requires p == Pow2(d) && fn < p <= sn < 2 * p
    ensures SkipWalk(H, fn, sn, at, q + [h]) == LiftLeft(H, SkipWalk(H, fn, p - 1, at, q), h)
  {
    var d', p', f, s := SkipLeft(d, p, fn, sn);
    WalkLeft(H, d', p', f, s, at, q, h);
  }

  lemma SkipWalkRight(H: Hasher, d: nat, p: nat, fn: nat, sn: nat, at: Heads, q: seq<Hash>, h: Hash)
    requires p == Pow2(d) && fn + 1 < p && fn <= sn < p
    ensures SkipWalk(H, fn + p, sn + p, at, q + [h]) == LiftRight(H, SkipWalk(H, fn, sn, at, q), h)
  {
    var d', p', f, s := SkipRight(d, p, fn, sn);
    WalkRight(H, d', p', f, s, at, q, h);
  }

  lemma RebuildLeft(H: Hasher, m: nat, k: nat, n: nat, d: nat, start: Hash, q: seq<Hash>, h: Hash)
    requires 0 < m <= k < n <= 2 * k && k == SplitPoint(n) == Pow2(d) && RebuildsFrom(H, m, k, start, q)
    ensures RebuildsFrom(H, m, n, start, q + [h])
  {
    RebuildPush(H, m, n, start, q, h);
    SkipWalkLeft(H, d, k, m - 1, n - 1, Heads(start, start), q, h);
  }

  lemma RebuildRight(H: Hasher, m: nat, k: nat, n: nat, d: nat, start: Hash, q: seq<Hash>, h: Hash)
    requires k < m < n <= 2 * k && k == SplitPoint(n) == Pow2(d) && RebuildsFrom(H, m - k, n - k, start, q)
    ensures RebuildsFrom(H, m, n, start, q + [h])
  {
    RebuildPush(H, m, n, start, q, h);
    SkipWalkRight(H, d, k, m - k - 1, n - k - 1, Heads(start, start), q, h);
  }

  // ----- proof lengths and the TypeScript cap

  lemma {:induction false} RiseLength(H: Hasher, i: nat, n: nat, leaf: Hash, proof: seq<Hash>)
    requires i < n && Rise(H, i, n, leaf, proof).Some?
    ensures |proof| <= Len(n - 1)
    decreases n
  {
    if n > 1 {
      var k := SplitPoint(n);
      HalfLengths(n);
      var q, _, _ := RiseUnfolds(H, i, n, leaf, proof);
      if i < k {
        RiseLength(H, i, k, leaf, q);
      } else {
        RiseLength(H, i - k, n - k, leaf, q);
      }
    }
  }

  lemma {:induction false} RebuildLength(H: Hasher, m: nat, n: nat, start: Hash, rest: seq<Hash>)
    requires 0 < m <= n && Rebuild(H, m, n, start, rest).Some?
    ensures |rest| <= Len(n - 1)
    decreases n
  {
    if m < n {
      var k := SplitPoint(n);
      HalfLengths(n);
      if m <= k {
        RebuildLength(H, m, k, start, rest[..|rest| - 1]);
      } else {
        RebuildLength(H, m - k, n - k, start, rest[..|rest| - 1]);
      }
    }
  }

  /** An accepted inclusion proof has at most Len64(size-1) hashes. */
  lemma InclusionLength(H: Hasher, leaf: Hash, index: nat, size: nat, proof: seq<Hash>, root: Hash)
    requires InclusionVerdict(H, leaf, index, size, proof, root) == Accepted
    ensures size > 0 && |proof| <= Len(size - 1)
  {
    WalkIsRise(H, index, size, Heads(leaf, leaf), proof);
    assert Rises(H, index, size, Heads(leaf, leaf), proof);
    RiseLength(H, index, size, leaf, proof);
  }

  /** An accepted consistency proof has at most Len64(size2-1) + 1 hashes. */
  lemma ConsistencyLength(H: Hasher, size1: nat, size2: nat, root1: Hash, root2: Hash, proof: seq<Hash>)
    requires ConsistencyVerdict(H, size1, size2, root1, root2, proof) == Accepted && size2 > 0
    ensures |proof| <= Len(size2 - 1) + 1
  {
    if 0 < size1 < size2 {
      var (start, rest) := Start(size1, root1, proof);
      WalkIsRebuild(H, size1, size2, start, rest);
      assert RebuildsFrom(H, size1, size2, start, rest);
      RebuildLength(H, size1, size2, start, rest);
    }
  }

  const MAX_SAFE_INTEGER: nat := 0x1F_FFFF_FFFF_FFFF
  const MAX_PROOF_LENGTH: nat := 64

  lemma SafeLength(n: nat)
    requires 0 < n <= MAX_SAFE_INTEGER
    ensures Len(n - 1) + 1 <= MAX_PROOF_LENGTH
  {
    assert Pow2(53) == 0x20_0000_0000_0000 by {
      assert Pow2(10) == 1024;
      assert Pow2(20) == 0x10_0000;
      assert Pow2(30) == 0x4000_0000;
      assert Pow2(40) == 0x100_0000_0000;
      assert Pow2(50) == 0x4_0000_0000_0000;
    }
    LenBelow(n - 1, 53);
  }

  predicate IsCount(x: int) {
    0 <= x <= MAX_SAFE_INTEGER
  }

  /** verifyInclusion of the web client. It rejects unsafe integers and proofs of more than 64
      hashes before it walks; on safe integers the cap changes no verdict. */
  method VerifyInclusionWeb(H: Hasher, leaf: Hash, index: int, size: int, proof: seq<Hash>, root: Hash)
    returns (ok: bool)
    ensures ok <==> 0 <= index < 0x20_0000_0000_0000 && 0 <= size < 0x20_0000_0000_0000 &&
                    InclusionVerdict(H, leaf, index, size, proof, root) == Accepted
  {
    if !IsCount(index) || !IsCount(size) {
      return false;
    }
    if InclusionVerdict(H, leaf, index, size, proof, root) == Accepted {
      InclusionLength(H, leaf, index, size, proof, root);
      SafeLength(size);
    }
    if |proof| > MAX_PROOF_LENGTH {
      return false;
    }
    if index >= size {
      return false;
    }
    var fn: nat, sn: nat, r := index, size - 1, leaf;
    ghost var fr := leaf;
    for i := 0 to |proof|
      invariant fn <= sn
      invariant Walk(H, index, size - 1, Heads(leaf, leaf), proof) == Walk(H, fn, sn, Heads(fr, r), proof[i..])
    {
      var p := proof[i];
      assert proof[i..][1..] == proof[i + 1..];
      if sn == 0 {
        return false;
      }
      if fn % 2 == 1 || fn == sn {
        fr, r := H.node(p, fr), H.node(p, r);
        ghost var top := Climb(fn, sn);
        while fn % 2 == 0 && fn != 0
          invariant Climb(fn, sn) == top && 0 < fn <= sn
        {
          fn, sn := fn / 2, sn / 2;
        }
      } else {
        r := H.node(r, p);
      }
      fn, sn := fn / 2, sn / 2;
    }
    if sn != 0 {
      return false;
    }
    return r == root;
  }

  lemma WithinCap(H: Hasher, size1: nat, size2: nat, root1: Hash, root2: Hash, proof: seq<Hash>)
    requires IsCount(size2)
    ensures ConsistencyVerdict(H, size1, size2, root1, root2, proof) == Accepted ==> |proof| <= MAX_PROOF_LENGTH
  {
    if size2 > 0 && ConsistencyVerdict(H, size1, size2, root1, root2, proof) == Accepted {
      ConsistencyLength(H, size1, size2, root1, root2, proof);
      SafeLength(size2);
    }
  }

  /** verifyConsistency of the web client. */
  method VerifyConsistencyWeb(H: Hasher, size1: int, size2: int, root1: Hash, root2: Hash, proof: seq<Hash>)
    returns (ok: bool)
    ensures ok <==> 0 <= size1 < 0x20_0000_0000_0000 && 0 <= size2 < 0x20_0000_0000_0000 &&
                    ConsistencyVerdict(H, size1, size2, root1, root2, proof) == Accepted
  {
    hide And, Len, Rebuild;
    if !IsCount(size1) || !IsCount(size2) {
      return false;
    }
    WithinCap(H, size1, size2, root1, root2, proof);
    if |proof| > MAX_PROOF_LENGTH {
      return false;
    }
    if size1 > size2 {
      return false;
    }
    if size1 == 0 || size1 == size2 {
      if |proof| != 0 {
        return false;
      }
      if size1 == 0 && root1 != H.empty {
        return false;
      }
      if size1 == size2 && root1 != root2 {
        return false;
      }
      return true;
    }
    if |proof| == 0 {
      return false;
    }
    var start, rest := proof[0], proof[1..];
    if And(size1, size1 - 1) == 0 {
      start, rest := root1, proof;
    }
    var fn: nat, sn: nat := size1 - 1, size2 - 1;
    while fn % 2 == 1
      invariant fn <= sn && Skip(fn, sn) == Skip(size1 - 1, size2 - 1)
      decreases fn
    {
      fn, sn := fn / 2, sn / 2;
    }
    var fr, sr := start, start;
    ghost var verdict := Walk(H, fn, sn, Heads(fr, sr), rest);
    for i := 0 to |rest|
      invariant fn <= sn && verdict == Walk(H, fn, sn, Heads(fr, sr), rest[i..])
    {
      var c := rest[i];
      assert rest[i..][1..] == rest[i + 1..];
      if sn == 0 {
        return false;
      }
      if fn % 2 == 1 || fn == sn {
        fr, sr := H.node(c, fr), H.node(c, sr);
        ghost var top := Climb(fn, sn);
        while fn % 2 == 0 && fn != 0
          invariant Climb(fn, sn) == top && 0 < fn <= sn
        {
          fn, sn := fn / 2, sn / 2;
        }
      } else {
        sr := H.node(sr, c);
      }
      fn, sn := fn / 2, sn / 2;
    }
    if fr != root1 {
      return false;
    }
    if sr != root2 {
      return false;
    }
    if sn != 0 {
      return false;
    }
    return true;
  }
}
