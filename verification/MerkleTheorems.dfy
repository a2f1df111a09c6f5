/** What acceptance by the verifiers of MerkleVerify means, for every node hash. Each soundness
    lemma either concludes its claim or computes two inputs on which the node hash collides. */
module MerkleTheorems {
  import opened Bits
  import opened Common
  import opened Rfc9162
  import opened MerkleVerify

  // ----- inclusion

  ghost predicate PathRises(H: Hasher, i: nat, D: seq<Hash>, lo: nat, hi: nat)
    requires lo + i < hi <= |D|
  {
    Rise(H, i, hi - lo, D[lo + i], AuditPath(H, i, D, lo, hi)) == Some(Mth(H, D, lo, hi))
  }

  lemma {:induction false} RiseComplete(H: Hasher, i: nat, D: seq<Hash>, lo: nat, hi: nat)
    requires lo + i < hi <= |D|
    ensures PathRises(H, i, D, lo, hi)
    decreases hi - lo
  {
    if hi - lo > 1 {
      hide SplitPoint, PathRises, Rise, AuditPath, Mth;
      var k := SplitPoint(hi - lo);
      if i < k {
        RiseComplete(H, i, D, lo, lo + k);
        PathRisesLeft(H, i, D, lo, k, hi);
      } else {
        RiseComplete(H, i - k, D, lo + k, hi);
        PathRisesRight(H, i, D, lo, k, hi);
      }
    }
  }

  lemma PathRisesLeft(H: Hasher, i: nat, D: seq<Hash>, lo: nat, k: nat, hi: nat)
    requires lo + 2 <= hi <= |D| && k == SplitPoint(hi - lo) && i < k && PathRises(H, i, D, lo, lo + k)
    ensures PathRises(H, i, D, lo, hi)
  {
    var (q, h) := (AuditPath(H, i, D, lo, lo + k), Mth(H, D, lo + k, hi));
    assert (q + [h])[..|q|] == q;
  }

  lemma PathRisesRight(H: Hasher, i: nat, D: seq<Hash>, lo: nat, k: nat, hi: nat)
    requires lo + 2 <= hi <= |D| && k == SplitPoint(hi - lo) && k <= i < hi - lo && PathRises(H, i - k, D, lo + k, hi)
    ensures PathRises(H, i, D, lo, hi)
  {
    var (q, h) := (AuditPath(H, i - k, D, lo + k, hi), Mth(H, D, lo, lo + k));
    assert (q + [h])[..|q|] == q;
  }

  ghost predicate Bound(H: Hasher, i: nat, leaf: Hash, D: seq<Hash>, lo: nat, hi: nat, proof: seq<Hash>)
    requires lo + i < hi <= |D|
  {
    leaf == D[lo + i] && proof == AuditPath(H, i, D, lo, hi)
  }

  lemma {:induction false} RiseSound(H: Hasher, i: nat, leaf: Hash, D: seq<Hash>, lo: nat, hi: nat, proof: seq<Hash>)
    returns (c: Collision)
    requires lo + i < hi <= |D| && Rise(H, i, hi - lo, leaf, proof) == Some(Mth(H, D, lo, hi))
    ensures Bound(H, i, leaf, D, lo, hi, proof) || IsCollision(H, c)
    decreases hi - lo
  {
    hide SplitPoint, Bound, Rise, Mth;
    if hi - lo == 1 {
      c := Collision(H.empty, H.empty, H.empty, H.empty);
      RiseLeaf(H, leaf, D, lo, proof);
    } else {
      var k := SplitPoint(hi - lo);
      var q, h, v;
      q, h, v, c := RiseCompare(H, i, leaf, D, lo, k, hi, proof);
      if !IsCollision(H, c) {
        if i < k {
          c := RiseSound(H, i, leaf, D, lo, lo + k, q);
        } else {
          c := RiseSound(H, i - k, leaf, D, lo + k, hi, q);
        }
        BoundAbove(H, i, leaf, D, lo, k, hi, q);
      }
    }
  }

  lemma RiseLeaf(H: Hasher, leaf: Hash, D: seq<Hash>, lo: nat, proof: seq<Hash>)
    requires lo < |D| && Rise(H, 0, 1, leaf, proof) == Some(Mth(H, D, lo, lo + 1))
    ensures Bound(H, 0, leaf, D, lo, lo + 1, proof)
  {
  }

  /** At the root: the two children are those of the tree, or their node hash collides. */
  lemma RiseCompare(H: Hasher, i: nat, leaf: Hash, D: seq<Hash>, lo: nat, k: nat, hi: nat, proof: seq<Hash>)
    returns (q: seq<Hash>, h: Hash, v: Hash, c: Collision)
    requires lo + i < hi <= |D| && hi - lo > 1 && k == SplitPoint(hi - lo)
    requires Rise(H, i, hi - lo, leaf, proof) == Some(Mth(H, D, lo, hi))
    ensures proof == q + [h]
    ensures !IsCollision(H, c) ==>
      if i < k then h == Mth(H, D, lo + k, hi) && Rise(H, i, k, leaf, q) == Some(Mth(H, D, lo, lo + k))
      else h == Mth(H, D, lo, lo + k) && Rise(H, i - k, hi - lo - k, leaf, q) == Some(Mth(H, D, lo + k, hi))
  {
    MthSplit(H, D, lo, k, hi);
    q, h, v := RiseUnfolds(H, i, hi - lo, leaf, proof);
    hide SplitPoint, Rise, Mth;
    var (l, r) := (Mth(H, D, lo, lo + k), Mth(H, D, lo + k, hi));
    c := if i < k then Collision(v, h, l, r) else Collision(h, v, l, r);
  }

  lemma BoundAbove(H: Hasher, i: nat, leaf: Hash, D: seq<Hash>, lo: nat, k: nat, hi: nat, q: seq<Hash>)
    requires lo + i < hi <= |D| && hi - lo > 1 && k == SplitPoint(hi - lo)
    ensures i < k && Bound(H, i, leaf, D, lo, lo + k, q) ==> Bound(H, i, leaf, D, lo, hi, q + [Mth(H, D, lo + k, hi)])
    ensures k <= i && Bound(H, i - k, leaf, D, lo + k, hi, q) ==> Bound(H, i, leaf, D, lo, hi, q + [Mth(H, D, lo, lo + k)])
  {
  }

  /** Completeness: the audit path of every leaf of every tree verifies. */
  lemma InclusionComplete(H: Hasher, D: seq<Hash>, index: nat, size: nat)
    requires index < size <= |D|
    ensures InclusionVerdict(H, D[index], index, size, AuditPath(H, index, D, 0, size), Mth(H, D, 0, size)) == Accepted
  {
    var proof := AuditPath(H, index, D, 0, size);
    RiseComplete(H, index, D, 0, size);
    assert PathRises(H, index, D, 0, size);
    WalkIsRise(H, index, size, Heads(D[index], D[index]), proof);
    assert Rises(H, index, size, Heads(D[index], D[index]), proof);
  }

  /** Soundness and uniqueness: what verifies against the head of D is leaf `index` of D with
      exactly its audit path, or a collision. */
  lemma InclusionSound(H: Hasher, D: seq<Hash>, leaf: Hash, index: nat, proof: seq<Hash>) returns (c: Collision)
    requires InclusionVerdict(H, leaf, index, |D|, proof, Head(H, D)) == Accepted
    ensures index < |D|
    ensures (leaf == D[index] && proof == AuditPath(H, index, D, 0, |D|)) || IsCollision(H, c)
  {
    WalkIsRise(H, index, |D|, Heads(leaf, leaf), proof);
    assert Rises(H, index, |D|, Heads(leaf, leaf), proof);
    c := RiseSound(H, index, leaf, D, 0, |D|, proof);
    assert !IsCollision(H, c) ==> Bound(H, index, leaf, D, 0, |D|, proof);
  }

  // ----- consistency

  /** The head of the deepest subtree that PROOF(m, D[lo:hi]) rests on, and the rest of it. */
  ghost function SharedHead(H: Hasher, m: nat, D: seq<Hash>, lo: nat, hi: nat): Hash
    requires 0 < m && lo + m <= hi <= |D|
    decreases hi - lo
  {
    if lo + m == hi then Mth(H, D, lo, hi)
    else
      var k := SplitPoint(hi - lo);
      if m <= k then SharedHead(H, m, D, lo, lo + k) else SharedHead(H, m - k, D, lo + k, hi)
  }

  ghost function SharedRest(H: Hasher, m: nat, D: seq<Hash>, lo: nat, hi: nat): seq<Hash>
    requires 0 < m && lo + m <= hi <= |D|
    decreases hi - lo
  {
    if lo + m == hi then []
    else
      var k := SplitPoint(hi - lo);
      if m <= k then SharedRest(H, m, D, lo, lo + k) + [Mth(H, D, lo + k, hi)]
      else SharedRest(H, m - k, D, lo + k, hi) + [Mth(H, D, lo, lo + k)]
  }

  /** SUBPROOF(m, D, b) is the two of them, without the head when `whole`: then the head is the
      smaller tree's own. */
  ghost predicate InParts(H: Hasher, m: nat, D: seq<Hash>, lo: nat, hi: nat, b: bool, whole: bool)
    requires 0 < m && lo + m <= hi <= |D|
  {
    var (start, rest) := (SharedHead(H, m, D, lo, hi), SharedRest(H, m, D, lo, hi));
    && SubProof(H, m, D, lo, hi, b) == (if whole then rest else [start] + rest)
    && (whole ==> start == Mth(H, D, lo, lo + m))
  }

  /** The head is left out exactly when b holds and m is a power of two. */
  lemma {:induction false} SubProofParts(H: Hasher, m: nat, D: seq<Hash>, lo: nat, hi: nat, b: bool, whole: bool)
    requires 0 < m && lo + m <= hi <= |D| && (lo + m == hi ==> IsPow2(m)) && (whole <==> b && IsPow2(m))
    ensures InParts(H, m, D, lo, hi, b, whole)
    decreases hi - lo
  {
    if lo + m < hi {
      var k := SplitPoint(hi - lo);
      if m <= k {
        SplitPointIsLargest(hi - lo, 0);
        SubProofParts(H, m, D, lo, lo + k, b, whole);
        PartsLeft(H, m, D, lo, k, hi, b, whole);
      } else {
        NotPow2(m, hi - lo);
        SubProofParts(H, m - k, D, lo + k, hi, false, false);
        PartsRight(H, m, D, lo, k, hi, b);
      }
    }
  }

  lemma PartsLeft(H: Hasher, m: nat, D: seq<Hash>, lo: nat, k: nat, hi: nat, b: bool, whole: bool)
    requires 0 < m && lo + m < hi <= |D| && m <= k == SplitPoint(hi - lo) && InParts(H, m, D, lo, lo + k, b, whole)
    ensures InParts(H, m, D, lo, hi, b, whole)
  {
    ConsPush(SharedHead(H, m, D, lo, lo + k), SharedRest(H, m, D, lo, lo + k), Mth(H, D, lo + k, hi));
  }

  lemma ConsPush(start: Hash, rest: seq<Hash>, h: Hash)
    ensures [start] + rest + [h] == [start] + (rest + [h])
  {
  }

  lemma PartsRight(H: Hasher, m: nat, D: seq<Hash>, lo: nat, k: nat, hi: nat, b: bool)
    requires lo + m < hi <= |D| && m > k == SplitPoint(hi - lo) && InParts(H, m - k, D, lo + k, hi, false, false)
    ensures InParts(H, m, D, lo, hi, b, false)
  {
    ConsPush(SharedHead(H, m - k, D, lo + k, hi), SharedRest(H, m - k, D, lo + k, hi), Mth(H, D, lo, lo + k));
  }

  /** A size beyond the split point is not a power of two, and splits at the same point. */
  lemma NotPow2(m: nat, n: nat)
    requires n >= 2 && SplitPoint(n) < m < n
    ensures !IsPow2(m) && SplitPoint(m) == SplitPoint(n)
  {
    var d := SplitPower(n);
    SplitPointUnique(m, d);
    forall e: nat
      ensures Pow2(e) != m
    {
      if e > d {
        Pow2Monotone(d + 1, e);
      } else {
        Pow2Monotone(e, d);
      }
    }
  }

  ghost predicate ProofRebuilds(H: Hasher, m: nat, D: seq<Hash>, lo: nat, hi: nat)
    requires 0 < m && lo + m <= hi <= |D|
  {
    Rebuild(H, m, hi - lo, SharedHead(H, m, D, lo, hi), SharedRest(H, m, D, lo, hi))
      == Some(Heads(Mth(H, D, lo, lo + m), Mth(H, D, lo, hi)))
  }

  lemma {:induction false} RebuildComplete(H: Hasher, m: nat, D: seq<Hash>, lo: nat, hi: nat)
    requires 0 < m && lo + m <= hi <= |D|
    ensures ProofRebuilds(H, m, D, lo, hi)
    decreases hi - lo, 1
  {
    if lo + m < hi {
      if m <= SplitPoint(hi - lo) {
        RebuildCompleteLeft(H, m, D, lo, hi);
      } else {
        RebuildCompleteRight(H, m, D, lo, hi);
      }
    }
  }

  lemma {:induction false} RebuildCompleteLeft(H: Hasher, m: nat, D: seq<Hash>, lo: nat, hi: nat)
    requires 0 < m && lo + m < hi <= |D| && m <= SplitPoint(hi - lo)
    ensures ProofRebuilds(H, m, D, lo, hi)
    decreases hi - lo, 0
  {
    RebuildComplete(H, m, D, lo, lo + SplitPoint(hi - lo));
    ProofRebuildsLeft(H, m, D, lo, SplitPoint(hi - lo), hi);
  }

  lemma {:induction false} RebuildCompleteRight(H: Hasher, m: nat, D: seq<Hash>, lo: nat, hi: nat)
    requires 0 < m && lo + m < hi <= |D| && m > SplitPoint(hi - lo)
    ensures ProofRebuilds(H, m, D, lo, hi)
    decreases hi - lo, 0
  {
    RebuildComplete(H, m - SplitPoint(hi - lo), D, lo + SplitPoint(hi - lo), hi);
    NotPow2(m, hi - lo);
    ProofRebuildsRight(H, m, D, lo, SplitPoint(hi - lo), hi);
  }

  lemma ProofRebuildsLeft(H: Hasher, m: nat, D: seq<Hash>, lo: nat, k: nat, hi: nat)
    requires 0 < m && lo + m < hi <= |D| && m <= k == SplitPoint(hi - lo) && ProofRebuilds(H, m, D, lo, lo + k)
    ensures ProofRebuilds(H, m, D, lo, hi)
  {
    var (q, h) := (SharedRest(H, m, D, lo, lo + k), Mth(H, D, lo + k, hi));
    assert (q + [h])[..|q|] == q;
  }

  lemma ProofRebuildsRight(H: Hasher, m: nat, D: seq<Hash>, lo: nat, k: nat, hi: nat)
    requires lo + m < hi <= |D| && m > k == SplitPoint(hi - lo) && m >= 2 && k == SplitPoint(m)
    requires ProofRebuilds(H, m - k, D, lo + k, hi)
    ensures ProofRebuilds(H, m, D, lo, hi)
  {
    var (j, mid, end) := (m - k, lo + k, lo + m);
    hide Mth, SharedHead, SharedRest, Rebuild;
    assert mid + j == end && hi - mid == (hi - lo) - k;
    SharedRight(H, m, D, lo, k, hi);
    MthSplit(H, D, lo, k, end);
    MthSplit(H, D, lo, k, hi);
    RebuiltRight(H, m, hi - lo, k, SharedHead(H, m, D, lo, hi), SharedRest(H, j, D, mid, hi), Mth(H, D, lo, mid),
                 Mth(H, D, mid, end), Mth(H, D, mid, hi));
  }

  lemma RebuiltRight(H: Hasher, m: nat, n: nat, k: nat, start: Hash, q: seq<Hash>, h: Hash, fr: Hash, sr: Hash)
    requires k < m < n && k == SplitPoint(n) && Rebuild(H, m - k, n - k, start, q) == Some(Heads(fr, sr))
    ensures Rebuild(H, m, n, start, q + [h]) == Some(Heads(H.node(h, fr), H.node(h, sr)))
  {
    RebuildPush(H, m, n, start, q, h);
  }

  lemma SharedRight(H: Hasher, m: nat, D: seq<Hash>, lo: nat, k: nat, hi: nat)
    requires lo + m < hi <= |D| && m > k == SplitPoint(hi - lo)
    ensures SharedHead(H, m, D, lo, hi) == SharedHead(H, m - k, D, lo + k, hi)
    ensures SharedRest(H, m, D, lo, hi) == SharedRest(H, m - k, D, lo + k, hi) + [Mth(H, D, lo, lo + k)]
  {
  }

  lemma MthSplit(H: Hasher, D: seq<Hash>, lo: nat, k: nat, hi: nat)
    requires lo + 2 <= hi <= |D| && k == SplitPoint(hi - lo)
    ensures Mth(H, D, lo, hi) == H.node(Mth(H, D, lo, lo + k), Mth(H, D, lo + k, hi))
  {
  }

  /** The start, the rest and the smaller head of an accepted walk are those of PROOF(m, B). */
  ghost predicate Pinned(H: Hasher, m: nat, B: seq<Hash>, lo: nat, hi: nat, start: Hash, rest: seq<Hash>, fr: Hash)
    requires 0 < m && lo + m <= hi <= |B|
  {
    && fr == Mth(H, B, lo, lo + m)
    && start == SharedHead(H, m, B, lo, hi)
    && rest == SharedRest(H, m, B, lo, hi)
  }

  lemma {:induction false} RebuildSound(H: Hasher, m: nat, B: seq<Hash>, lo: nat, hi: nat, start: Hash, rest: seq<Hash>,
                                        fr: Hash)
    returns (c: Collision)
    requires 0 < m && lo + m <= hi <= |B|
    requires Rebuild(H, m, hi - lo, start, rest) == Some(Heads(fr, Mth(H, B, lo, hi)))
    ensures Pinned(H, m, B, lo, hi, start, rest, fr) || IsCollision(H, c)
    decreases hi - lo
  {
    hide Mth, SplitPoint, Rebuild, Pinned;
    if m == hi - lo {
      c := Collision(start, start, start, start);
      PinnedWhole(H, B, lo, hi, start, rest, fr);
    } else {
      var k := SplitPoint(hi - lo);
      MthSplit(H, B, lo, k, hi);
      var (l, r) := (Mth(H, B, lo, lo + k), Mth(H, B, lo + k, hi));
      var q, h, o := RebuildUnfolds(H, m, hi - lo, start, rest);
      if m <= k {
        c := Collision(o.sr, h, l, r);
        if o.sr == l && h == r {
          c := RebuildSound(H, m, B, lo, lo + k, start, q, o.fr);
          PinnedAbove(H, m, B, lo, k, hi, start, q, o.fr);
        }
      } else {
        c := Collision(h, o.sr, l, r);
        if h == l && o.sr == r {
          c := RebuildSound(H, m - k, B, lo + k, hi, start, q, o.fr);
          PinnedAbove(H, m, B, lo, k, hi, start, q, o.fr);
        }
      }
    }
  }

  lemma PinnedWhole(H: Hasher, B: seq<Hash>, lo: nat, hi: nat, start: Hash, rest: seq<Hash>, fr: Hash)
    requires lo < hi <= |B| && Rebuild(H, hi - lo, hi - lo, start, rest) == Some(Heads(fr, Mth(H, B, lo, hi)))
    ensures Pinned(H, hi - lo, B, lo, hi, start, rest, fr)
  {
    hide Mth;
  }

  lemma RebuildUnfolds(H: Hasher, m: nat, n: nat, start: Hash, rest: seq<Hash>) returns (q: seq<Hash>, h: Hash, o: Heads)
    requires 0 < m < n && Rebuild(H, m, n, start, rest).Some?
    ensures rest == q + [h]
    ensures var k := SplitPoint(n);
      if m <= k then Rebuild(H, m, k, start, q) == Some(o) && Rebuild(H, m, n, start, rest) == Some(Heads(o.fr, H.node(o.sr, h)))
      else Rebuild(H, m - k, n - k, start, q) == Some(o)
           && Rebuild(H, m, n, start, rest) == Some(Heads(H.node(h, o.fr), H.node(h, o.sr)))
  {
    hide SplitPoint;
    q, h := rest[..|rest| - 1], rest[|rest| - 1];
    var k := SplitPoint(n);
    o := if m <= k then Rebuild(H, m, k, start, q).value else Rebuild(H, m - k, n - k, start, q).value;
  }

  lemma PinnedAbove(H: Hasher, m: nat, B: seq<Hash>, lo: nat, k: nat, hi: nat, start: Hash, q: seq<Hash>, fr: Hash)
    requires 0 < m && lo + m < hi <= |B| && k == SplitPoint(hi - lo)
    ensures m <= k && Pinned(H, m, B, lo, lo + k, start, q, fr) ==>
      Pinned(H, m, B, lo, hi, start, q + [Mth(H, B, lo + k, hi)], fr)
    ensures m > k && Pinned(H, m - k, B, lo + k, hi, start, q, fr) ==>
      Pinned(H, m, B, lo, hi, start, q + [Mth(H, B, lo, lo + k)], H.node(Mth(H, B, lo, lo + k), fr))
  {
    if m > k {
      NotPow2(m, hi - lo);
      MthSplit(H, B, lo, k, lo + m);
      SharedRight(H, m, B, lo, k, hi);
    }
    hide SplitPoint, Mth;
  }

  /** Completeness, at every pair of sizes: the proof between two heads of one log verifies. */
  lemma ConsistencyComplete(H: Hasher, D: seq<Hash>, m: nat, n: nat)
    requires m <= n <= |D|
    ensures ConsistencyVerdict(H, m, n, Mth(H, D, 0, m), Mth(H, D, 0, n), ConsistencyPath(H, m, D, n)) == Accepted
  {
    if 0 < m < n {
      var (start, rest) := (SharedHead(H, m, D, 0, n), SharedRest(H, m, D, 0, n));
      StartOfProof(H, m, D, n);
      RebuildComplete(H, m, D, 0, n);
      assert ProofRebuilds(H, m, D, 0, n);
      WalkIsRebuild(H, m, n, start, rest);
      assert RebuildsFrom(H, m, n, start, rest);
    }
  }

  lemma StartOfProof(H: Hasher, m: nat, D: seq<Hash>, n: nat)
    requires 0 < m < n <= |D|
    ensures SubProof(H, m, D, 0, n, true) != []
    ensures Start(m, Mth(H, D, 0, m), SubProof(H, m, D, 0, n, true))
         == (SharedHead(H, m, D, 0, n), SharedRest(H, m, D, 0, n))
  {
    PowerTest(m);
    SubProofParts(H, m, D, 0, n, true, And(m, m - 1) == 0);
    assert InParts(H, m, D, 0, n, true, And(m, m - 1) == 0);
    var (start, rest) := (SharedHead(H, m, D, 0, n), SharedRest(H, m, D, 0, n));
    assert ([start] + rest)[1..] == rest;
  }

  /** Soundness with the larger head alone trusted: whatever root1 and proof are given, acceptance
      makes root1 the head of the first m leaves and the proof exactly PROOF(m, D[n]), or there is a
      collision. In particular no other root1 than the empty one is accepted at size 0. */
  lemma ConsistencyPins(H: Hasher, m: nat, B: seq<Hash>, root1: Hash, proof: seq<Hash>) returns (c: Collision)
    requires ConsistencyVerdict(H, m, |B|, root1, Head(H, B), proof) == Accepted
    ensures m <= |B|
    ensures (root1 == Mth(H, B, 0, m) && proof == ConsistencyPath(H, m, B, |B|)) || IsCollision(H, c)
  {
    c := Collision(root1, root1, root1, root1);
    if 0 < m < |B| {
      var (start, rest) := Start(m, root1, proof);
      WalkIsRebuild(H, m, |B|, start, rest);
      assert RebuildsFrom(H, m, |B|, start, rest);
      c := RebuildSound(H, m, B, 0, |B|, start, rest, root1);
      if Pinned(H, m, B, 0, |B|, start, rest, root1) {
        ProofFromParts(H, m, B, root1, proof);
      }
    }
  }

  lemma ProofFromParts(H: Hasher, m: nat, B: seq<Hash>, root1: Hash, proof: seq<Hash>)
    requires 0 < m < |B| && proof != []
    requires var (start, rest) := Start(m, root1, proof);
      Pinned(H, m, B, 0, |B|, start, rest, root1)
    ensures proof == SubProof(H, m, B, 0, |B|, true)
  {
    PowerTest(m);
    SubProofParts(H, m, B, 0, |B|, true, And(m, m - 1) == 0);
    assert InParts(H, m, B, 0, |B|, true, And(m, m - 1) == 0);
    assert proof == [proof[0]] + proof[1..];
  }

  /** Soundness between two heads: the smaller list is a prefix of the larger. */
  lemma ConsistencySound(H: Hasher, A: seq<Hash>, B: seq<Hash>, proof: seq<Hash>) returns (c: Collision)
    requires ConsistencyVerdict(H, |A|, |B|, Head(H, A), Head(H, B), proof) == Accepted
    ensures |A| <= |B|
    ensures (A <= B && proof == ConsistencyPath(H, |A|, B, |B|)) || IsCollision(H, c)
  {
    c := ConsistencyPins(H, |A|, B, Head(H, A), proof);
    if Head(H, A) == Mth(H, B, 0, |A|) && proof == ConsistencyPath(H, |A|, B, |B|) {
      c := HeadsBind(H, A, B, 0, |A|);
      assert A[0..|A|] == A && B[0..|A|] == B[..|A|];
    }
  }

  /** The range errors of both verifiers. Any other refusal is of the proof. */
  lemma RangeErrors(H: Hasher, x: nat, size: nat, hash: Hash, root: Hash, proof: seq<Hash>)
    ensures InclusionVerdict(H, hash, x, size, proof, root) == ErrIndexOutOfRange <==> x >= size
    ensures ConsistencyVerdict(H, x, size, hash, root, proof) == ErrSizeOutOfRange <==> x > size
    ensures InclusionVerdict(H, hash, x, size, proof, root) != ErrSizeOutOfRange
    ensures ConsistencyVerdict(H, x, size, hash, root, proof) != ErrIndexOutOfRange
  {
  }
}
