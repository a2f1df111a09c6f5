/** crypto/merkle/hash.go over SHA-256 as an arbitrary function to 32 bytes: the prefixes reduce every
    clash between leaves, nodes and the empty tree to a collision of SHA-256 itself. */
module MerkleHash {
  import opened Common
  import opened Rfc9162

  const HASH_SIZE := 32
  const LEAF_PREFIX: Byte := 0x00
  const NODE_PREFIX: Byte := 0x01

  type Digest = Bytes -> Bytes

  ghost predicate IsDigest(sha: Digest) {
    forall d :: |sha(d)| == HASH_SIZE
  }

  function LeafInput(data: Bytes): Bytes {
    [LEAF_PREFIX] + data
  }

  function NodeInput(left: Hash, right: Hash): Bytes {
    [NODE_PREFIX] + (left.bytes + right.bytes)
  }

  /** LeafHash, NodeHash and EmptyRoot. */
  function Hashing(sha: Digest): Hasher {
    Hasher((data: Bytes) => Hash(sha(LeafInput(data))), (l: Hash, r: Hash) => Hash(sha(NodeInput(l, r))), Hash(sha([])))
  }

  ghost predicate ShaCollision(sha: Digest, x: Bytes, y: Bytes) {
    x != y && sha(x) == sha(y)
  }

  lemma MadeSize(sha: Digest, h: Hash)
    requires IsDigest(sha) && Made(Hashing(sha), h)
    ensures |h.bytes| == HASH_SIZE
  {
    var H := Hashing(sha);
    if h == H.empty {
    } else if d :| h == H.leaf(d) {
      assert h == Hash(sha(LeafInput(d)));
    } else {
      var l, r :| h == H.node(l, r);
      assert h == Hash(sha(NodeInput(l, r)));
    }
  }

  /** Inputs of different nodes are different, at one size of hashes. */
  lemma NodeInputInjective(l: Hash, r: Hash, l': Hash, r': Hash)
    requires |l.bytes| == |l'.bytes| && NodeInput(l, r) == NodeInput(l', r')
    ensures l == l' && r == r'
  {
    var (s, s', n) := (NodeInput(l, r)[1..], NodeInput(l', r')[1..], |l.bytes|);
    assert s == l.bytes + r.bytes && s' == l'.bytes + r'.bytes;
    assert s[..n] == l.bytes && s'[..n] == l'.bytes && s[n..] == r.bytes && s'[n..] == r'.bytes;
  }

  /** Domain separation: a leaf, a node and the empty tree never hash one input. */
  lemma ClashIsCollision(sha: Digest, c: Clash) returns (x: Bytes, y: Bytes)
    requires IsDigest(sha) && IsClash(Hashing(sha), c) && MadeNodes(Hashing(sha), c)
    ensures ShaCollision(sha, x, y)
  {
    match c {
      case NodeNode(n) =>
        x, y := NodeInput(n.l0, n.r0), NodeInput(n.l1, n.r1);
        MadeSize(sha, n.l0);
        MadeSize(sha, n.l1);
        if x == y {
          NodeInputInjective(n.l0, n.r0, n.l1, n.r1);
        }
      case LeafLeaf(d0, d1) =>
        x, y := LeafInput(d0), LeafInput(d1);
        assert x[1..] == d0 && y[1..] == d1;
      case LeafNode(d, l, r) =>
        x, y := LeafInput(d), NodeInput(l, r);
        assert x[0] != y[0];
      case EmptyLeaf(d) => x, y := [], LeafInput(d);
      case EmptyNode(l, r) => x, y := [], NodeInput(l, r);
    }
  }

  /** A tree head binds the leaf data and their number, or SHA-256 collides on two computed inputs. */
  lemma HeadBinds(sha: Digest, a: seq<Bytes>, b: seq<Bytes>) returns (x: Bytes, y: Bytes)
    requires IsDigest(sha) && Head(Hashing(sha), LeafHashes(Hashing(sha), a)) == Head(Hashing(sha), LeafHashes(Hashing(sha), b))
    ensures a == b || ShaCollision(sha, x, y)
  {
    var c := HeadBindsData(Hashing(sha), a, b);
    x, y := [], [];
    if a != b {
      x, y := ClashIsCollision(sha, c);
    }
  }
}
