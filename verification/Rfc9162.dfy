/** The definitions of section 2.1 of RFC 9162 that the Merkle log implements, over lists of
    leaf hashes. The hash functions are a parameter: every theorem holds for all of them. */
module Rfc9162 {
  import opened Bits
  import opened Common

  datatype Hash = Hash(bytes: Bytes)

  /** crypto/merkle/hash.go: LeafHash, NodeHash and EmptyRoot, left uninterpreted. */
  datatype Hasher = Hasher(leaf: Bytes -> Hash, node: (Hash, Hash) -> Hash, empty: Hash)

  /** MTH(D[lo:hi]): the head of the tree over a range of the leaf hashes D (section 2.1.1). */
  ghost function Mth(H: Hasher, D: seq<Hash>, lo: nat, hi: nat): Hash
    requires lo <= hi <= |D|
    decreases hi - lo
  {
    var n := hi - lo;
    if n == 0 then H.empty
    else if n == 1 then D[lo]
    else
      var k := SplitPoint(n);
      H.node(Mth(H, D, lo, lo + k), Mth(H, D, lo + k, hi))
  }

  /** MTH(D). */
  ghost function Head(H: Hasher, D: seq<Hash>): Hash {
    Mth(H, D, 0, |D|)
  }

  /** PATH(m, D[lo:hi]): the audit path of leaf lo + m, nearest sibling first (section 2.1.3.1). */
  ghost function AuditPath(H: Hasher, m: nat, D: seq<Hash>, lo: nat, hi: nat): seq<Hash>
    requires lo + m < hi <= |D|
    decreases hi - lo
  {
    var n := hi - lo;
    if n == 1 then []
    else
      var k := SplitPoint(n);
      if m < k then AuditPath(H, m, D, lo, lo + k) + [Mth(H, D, lo + k, hi)]
      else AuditPath(H, m - k, D, lo + k, hi) + [Mth(H, D, lo, lo + k)]
  }

  /** SUBPROOF(m, D[lo:hi], b) (section 2.1.4.1). */
  ghost function SubProof(H: Hasher, m: nat, D: seq<Hash>, lo: nat, hi: nat, b: bool): seq<Hash>
    requires 0 < m && lo + m <= hi <= |D|
    decreases hi - lo
  {
    var n := hi - lo;
    if m == n then (if b then [] else [Mth(H, D, lo, hi)])
    else
      var k := SplitPoint(n);
      if m <= k then SubProof(H, m, D, lo, lo + k, b) + [Mth(H, D, lo + k, hi)]
      else SubProof(H, m - k, D, lo + k, hi, false) + [Mth(H, D, lo, lo + k)]
  }

  /** PROOF(m, D[0:n]), with the empty proof at the two sizes the RFC leaves out. */
  ghost function ConsistencyPath(H: Hasher, m: nat, D: seq<Hash>, n: nat): seq<Hash>
    requires m <= n <= |D|
  {
    if m == 0 || m == n then [] else SubProof(H, m, D, 0, n, true)
  }

  // ----- an example of the RFC

  lemma SmallSplits()
    ensures SplitPoint(2) == 1 && SplitPoint(3) == 2 && SplitPoint(4) == 2 && SplitPoint(7) == 4
  {
    assert Pow2(2) == 2 * Pow2(1) && Pow2(1) == 2;
    SplitPointUnique(2, 0);
    SplitPointUnique(3, 1);
    SplitPointUnique(4, 1);
    SplitPointUnique(7, 2);
  }

  /** The heads below the root of seven leaves. */
  lemma SevenHeads(H: Hasher, D: seq<Hash>)
    requires |D| == 7
    ensures Mth(H, D, 0, 2) == H.node(D[0], D[1]) && Mth(H, D, 2, 4) == H.node(D[2], D[3]) && Mth(H, D, 4, 6) == H.node(D[4], D[5])
    ensures Mth(H, D, 0, 4) == H.node(Mth(H, D, 0, 2), Mth(H, D, 2, 4)) && Mth(H, D, 4, 7) == H.node(Mth(H, D, 4, 6), D[6])
  {
    SmallSplits();
    hide SplitPoint;
  }

  /** The example of section 2.1.5: the tree of seven leaves, its audit paths and consistency proofs. */
  lemma SevenLeaves(H: Hasher, D: seq<Hash>)
    requires |D| == 7
    ensures var (g, h, i, j) := (H.node(D[0], D[1]), H.node(D[2], D[3]), H.node(D[4], D[5]), D[6]);
      var (k, l) := (H.node(g, h), H.node(i, j));
      && Head(H, D) == H.node(k, l)
      && AuditPath(H, 0, D, 0, 7) == [D[1], h, l] && AuditPath(H, 3, D, 0, 7) == [D[2], g, l]
      && AuditPath(H, 4, D, 0, 7) == [D[5], j, k] && AuditPath(H, 6, D, 0, 7) == [i, k]
      && ConsistencyPath(H, 3, D, 7) == [D[2], D[3], g, l] && ConsistencyPath(H, 4, D, 7) == [l]
      && ConsistencyPath(H, 6, D, 7) == [i, j, k]
  {
    SmallSplits();
    SevenHeads(H, D);
    SevenPaths(H, D);
    SevenProofs(H, D);
    hide SplitPoint, AuditPath, SubProof;
  }

  lemma SevenPaths(H: Hasher, D: seq<Hash>)
    requires |D| == 7
    ensures var (g, h, k, l) := (Mth(H, D, 0, 2), Mth(H, D, 2, 4), Mth(H, D, 0, 4), Mth(H, D, 4, 7));
      && AuditPath(H, 0, D, 0, 7) == [D[1], h, l] && AuditPath(H, 3, D, 0, 7) == [D[2], g, l]
      && AuditPath(H, 4, D, 0, 7) == [D[5], D[6], k] && AuditPath(H, 6, D, 0, 7) == [Mth(H, D, 4, 6), k]
  {
    SmallSplits();
    hide SplitPoint;
    assert AuditPath(H, 0, D, 0, 2) == [D[1]] && AuditPath(H, 1, D, 2, 4) == [D[2]] && AuditPath(H, 0, D, 4, 6) == [D[5]];
    assert AuditPath(H, 0, D, 0, 4) == [D[1], Mth(H, D, 2, 4)] && AuditPath(H, 3, D, 0, 4) == [D[2], Mth(H, D, 0, 2)];
    assert AuditPath(H, 0, D, 4, 7) == [D[5], D[6]] && AuditPath(H, 2, D, 4, 7) == [Mth(H, D, 4, 6)];
  }

  lemma SevenProofs(H: Hasher, D: seq<Hash>)
    requires |D| == 7
    ensures var (g, k, l) := (Mth(H, D, 0, 2), Mth(H, D, 0, 4), Mth(H, D, 4, 7));
      && ConsistencyPath(H, 3, D, 7) == [D[2], D[3], g, l] && ConsistencyPath(H, 4, D, 7) == [l]
      && ConsistencyPath(H, 6, D, 7) == [Mth(H, D, 4, 6), D[6], k]
  {
    SmallSplits();
    hide SplitPoint;
    assert SubProof(H, 1, D, 2, 3, false) == [D[2]] && SubProof(H, 1, D, 2, 4, false) == [D[2], D[3]];
    assert SubProof(H, 3, D, 0, 4, true) == [D[2], D[3], Mth(H, D, 0, 2)];
    assert SubProof(H, 2, D, 4, 7, false) == [Mth(H, D, 4, 6), D[6]];
  }

  // ----- appending

  /** A head depends on its own leaves only. */
  lemma {:induction false} MthFrame(H: Hasher, D: seq<Hash>, E: seq<Hash>, lo: nat, hi: nat)
    requires lo <= hi <= |D| && hi <= |E| && forall i :: lo <= i < hi ==> D[i] == E[i]
    ensures Mth(H, D, lo, hi) == Mth(H, E, lo, hi)
    decreases hi - lo
  {
    if hi - lo >= 2 {
      var k := SplitPoint(hi - lo);
      MthFrame(H, D, E, lo, lo + k);
      MthFrame(H, D, E, lo + k, hi);
    }
  }

  /** So do audit paths and subproofs: appending to a log changes none of its earlier proofs. */
  lemma {:induction false} AuditPathFrame(H: Hasher, m: nat, D: seq<Hash>, E: seq<Hash>, lo: nat, hi: nat)
    requires lo + m < hi <= |D| && hi <= |E| && forall i :: lo <= i < hi ==> D[i] == E[i]
    ensures AuditPath(H, m, D, lo, hi) == AuditPath(H, m, E, lo, hi)
    decreases hi - lo
  {
    if hi - lo >= 2 {
      hide SplitPoint, Mth;
      var mid := lo + SplitPoint(hi - lo);
      if lo + m < mid {
        MthFrame(H, D, E, mid, hi);
        AuditPathFrame(H, m, D, E, lo, mid);
      } else {
        MthFrame(H, D, E, lo, mid);
        AuditPathFrame(H, lo + m - mid, D, E, mid, hi);
      }
    }
  }

  lemma {:induction false} SubProofFrame(H: Hasher, m: nat, D: seq<Hash>, E: seq<Hash>, lo: nat, hi: nat, b: bool)
    requires 0 < m && lo + m <= hi <= |D| && hi <= |E| && forall i :: lo <= i < hi ==> D[i] == E[i]
    ensures SubProof(H, m, D, lo, hi, b) == SubProof(H, m, E, lo, hi, b)
    decreases hi - lo
  {
    hide SplitPoint, Mth;
    if m == hi - lo {
      MthFrame(H, D, E, lo, hi);
    } else {
      var mid := lo + SplitPoint(hi - lo);
      if lo + m <= mid {
        MthFrame(H, D, E, mid, hi);
        SubProofFrame(H, m, D, E, lo, mid, b);
      } else {
        MthFrame(H, D, E, lo, mid);
        SubProofFrame(H, lo + m - mid, D, E, mid, hi, false);
      }
    }
  }

  /** A longer log answers every query about an earlier size exactly as the shorter one did. */
  lemma AppendsKeepAnswers(H: Hasher, D: seq<Hash>, E: seq<Hash>, index: nat, m: nat, n: nat)
    requires D <= E && n <= |D| && index < n && m <= n
    ensures Mth(H, E, 0, n) == Mth(H, D, 0, n)
    ensures AuditPath(H, index, E, 0, n) == AuditPath(H, index, D, 0, n)
    ensures ConsistencyPath(H, m, E, n) == ConsistencyPath(H, m, D, n)
  {
    MthFrame(H, E, D, 0, n);
    AuditPathFrame(H, index, E, D, 0, n);
    if 0 < m < n {
      SubProofFrame(H, m, E, D, 0, n, true);
    }
  }

  /** Two different inputs on which the node hash agrees. */
  datatype Collision = Collision(l0: Hash, r0: Hash, l1: Hash, r1: Hash)

  ghost predicate IsCollision(H: Hasher, c: Collision) {
    (c.l0 != c.l1 || c.r0 != c.r1) && H.node(c.l0, c.r0) == H.node(c.l1, c.r1)
  }

  /** A head binds all the leaves of its range: two lists under one head are equal there, or the
      walk down to the node where they part yields a collision. */
  lemma {:induction false} HeadsBind(H: Hasher, A: seq<Hash>, B: seq<Hash>, lo: nat, hi: nat)
    returns (c: Collision)
    requires lo <= hi <= |A| && hi <= |B| && Mth(H, A, lo, hi) == Mth(H, B, lo, hi)
    ensures A[lo..hi] == B[lo..hi] || IsCollision(H, c)
    decreases hi - lo
  {
    c := Collision(H.empty, H.empty, H.empty, H.empty);
    if hi - lo >= 2 {
      var mid := lo + SplitPoint(hi - lo);
      c := Collision(Mth(H, A, lo, mid), Mth(H, A, mid, hi), Mth(H, B, lo, mid), Mth(H, B, mid, hi));
      if c.l0 == c.l1 && c.r0 == c.r1 {
        var c1 := HeadsBind(H, A, B, lo, mid);
        var c2 := HeadsBind(H, A, B, mid, hi);
        c := if A[lo..mid] == B[lo..mid] then c2 else c1;
        JoinRanges(A, B, lo, mid, hi);
      }
    }
  }

  /** The leaf hashes of a list of leaf data. */
  function LeafHashes(H: Hasher, data: seq<Bytes>): (D: seq<Hash>)
    ensures |D| == |data|
  {
    seq(|data|, (i: nat) requires i < |data| => H.leaf(data[i]))
  }

  /** Two different preimages of one hash, and whether they are leaves, nodes or the empty tree. */
  datatype Clash =
    | NodeNode(nodes: Collision)
    | LeafLeaf(d0: Bytes, d1: Bytes)
    | LeafNode(d: Bytes, l: Hash, r: Hash)
    | EmptyLeaf(d: Bytes)
    | EmptyNode(l: Hash, r: Hash)

  ghost predicate IsClash(H: Hasher, c: Clash) {
    match c
    case NodeNode(n) => IsCollision(H, n)
    case LeafLeaf(d0, d1) => d0 != d1 && H.leaf(d0) == H.leaf(d1)
    case LeafNode(d, l, r) => H.leaf(d) == H.node(l, r)
    case EmptyLeaf(d) => H.empty == H.leaf(d)
    case EmptyNode(l, r) => H.empty == H.node(l, r)
  }

  /** h is an output of one of the hash functions. */
  ghost predicate Made(H: Hasher, h: Hash) {
    h == H.empty || (exists d :: h == H.leaf(d)) || exists l, r :: h == H.node(l, r)
  }

  ghost predicate MadeNodes(H: Hasher, c: Clash) {
    c.NodeNode? ==> Made(H, c.nodes.l0) && Made(H, c.nodes.r0) && Made(H, c.nodes.l1) && Made(H, c.nodes.r1)
  }

  lemma HeadsAreMade(H: Hasher, data: seq<Bytes>, lo: nat, hi: nat)
    requires lo <= hi <= |data|
    ensures Made(H, Mth(H, LeafHashes(H, data), lo, hi))
  {
  }

  /** A head binds its leaf data and their number: lists of any two sizes under one head are equal,
      or one of the hash functions clashes. */
  lemma HeadBindsData(H: Hasher, a: seq<Bytes>, b: seq<Bytes>) returns (c: Clash)
    requires Head(H, LeafHashes(H, a)) == Head(H, LeafHashes(H, b))
    ensures a == b || IsClash(H, c)
    ensures MadeNodes(H, c)
  {
    c := RangesBind(H, a, 0, |a|, b, 0, |b|);
    assert a[0..|a|] == a && b[0..|b|] == b;
  }

  lemma {:induction false} RangesBind(H: Hasher, a: seq<Bytes>, lo: nat, hi: nat, b: seq<Bytes>, lo': nat, hi': nat)
    returns (c: Clash)
    requires lo <= hi <= |a| && lo' <= hi' <= |b|
    requires Mth(H, LeafHashes(H, a), lo, hi) == Mth(H, LeafHashes(H, b), lo', hi')
    ensures a[lo..hi] == b[lo'..hi'] || IsClash(H, c)
    ensures MadeNodes(H, c)
    decreases hi - lo
  {
    var (A, B) := (LeafHashes(H, a), LeafHashes(H, b));
    hide Made;
    if hi - lo >= 2 && hi' - lo' >= 2 {
      hide SplitPoint, LeafHashes;
      var (mid, mid') := (lo + SplitPoint(hi - lo), lo' + SplitPoint(hi' - lo'));
      var n := Collision(Mth(H, A, lo, mid), Mth(H, A, mid, hi), Mth(H, B, lo', mid'), Mth(H, B, mid', hi'));
      c := NodeNode(n);
      HeadsAreMade(H, a, lo, mid);
      HeadsAreMade(H, a, mid, hi);
      HeadsAreMade(H, b, lo', mid');
      HeadsAreMade(H, b, mid', hi');
      assert H.node(n.l0, n.r0) == H.node(n.l1, n.r1);
      hide Mth;
      if n.l0 == n.l1 && n.r0 == n.r1 {
        var c1 := RangesBind(H, a, lo, mid, b, lo', mid');
        var c2 := RangesBind(H, a, mid, hi, b, mid', hi');
        c := if a[lo..mid] == b[lo'..mid'] then c2 else c1;
        CutRange(a, lo, mid, hi);
        CutRange(b, lo', mid', hi');
      }
    } else if hi - lo >= 2 {
      c := SmallClash(H, b, lo', hi', a, lo, hi);
    } else {
      c := SmallClash(H, a, lo, hi, b, lo', hi');
    }
  }

  lemma CutRange<T>(s: seq<T>, lo: nat, mid: nat, hi: nat)
    requires lo <= mid <= hi <= |s|
    ensures s[lo..hi] == s[lo..mid] + s[mid..hi]
  {
  }

  /** The first range holds at most one leaf. */
  lemma SmallClash(H: Hasher, a: seq<Bytes>, lo: nat, hi: nat, b: seq<Bytes>, lo': nat, hi': nat) returns (c: Clash)
    requires lo <= hi <= |a| && lo' <= hi' <= |b| && hi - lo <= 1
    requires Mth(H, LeafHashes(H, a), lo, hi) == Mth(H, LeafHashes(H, b), lo', hi')
    ensures a[lo..hi] == b[lo'..hi'] || IsClash(H, c)
    ensures !c.NodeNode?
  {
    var B := LeafHashes(H, b);
    if hi' - lo' >= 2 {
      var mid' := lo' + SplitPoint(hi' - lo');
      var (l, r) := (Mth(H, B, lo', mid'), Mth(H, B, mid', hi'));
      c := if hi == lo then EmptyNode(l, r) else LeafNode(a[lo], l, r);
    } else if hi - lo == 1 && hi' - lo' == 1 {
      c := LeafLeaf(a[lo], b[lo']);
    } else {
      c := EmptyLeaf(if hi - lo == 1 then a[lo] else if hi' - lo' == 1 then b[lo'] else []);
    }
  }

  lemma JoinRanges<T>(A: seq<T>, B: seq<T>, lo: nat, mid: nat, hi: nat)
    requires lo <= mid <= hi <= |A| && hi <= |B|
    ensures A[lo..mid] == B[lo..mid] && A[mid..hi] == B[mid..hi] ==> A[lo..hi] == B[lo..hi]
  {
    assert A[lo..hi] == A[lo..mid] + A[mid..hi] && B[lo..hi] == B[lo..mid] + B[mid..hi];
  }
}
