/** Length-prefixed fields: the byte format of the ballot leaves and of the proof transcripts. */
module Framing {
  import opened Common

  /** binary.Write of a uint32, big endian; the conversion drops higher bits. */
  function U32(n: nat): (b: Bytes)
    ensures |b| == 4
  {
    [n / 256 / 256 / 256 % 256, n / 256 / 256 % 256, n / 256 % 256, n % 256]
  }

  const U32_END := 0x1_0000_0000

  /** The number that big-endian bytes stand for. */
  function Value(b: Bytes): nat {
    if b == [] then 0 else Value(b[..|b| - 1]) * 256 + b[|b| - 1]
  }

  lemma {:induction false} U32Value(n: nat)
    requires n < U32_END
    ensures Value(U32(n)) == n
  {
    var (n1, n2, n3) := (n / 256, n / 256 / 256, n / 256 / 256 / 256);
    var b := U32(n);
    assert b[..3][..2] == [n3, n2 % 256] && b[..3] == [n3, n2 % 256, n1 % 256] && b[..3][..2][..1] == [n3];
    assert Value([n3]) == n3 by {
      assert [n3][..0] == [];
    }
    assert Value(b[..3][..2]) == n2;
    assert Value(b[..3]) == n1;
  }

  lemma U32Injective(m: nat, n: nat)
    requires m < U32_END && n < U32_END && U32(m) == U32(n)
    ensures m == n
  {
    U32Value(m);
    U32Value(n);
  }

  lemma FrameInjective(a: Bytes, x: Bytes, b: Bytes, y: Bytes)
    requires |a| < U32_END && |b| < U32_END
    requires U32(|a|) + (a + x) == U32(|b|) + (b + y)
    ensures a == b && x == y
  {
    var (s, t) := (U32(|a|) + (a + x), U32(|b|) + (b + y));
    assert s[..4] == U32(|a|) && t[..4] == U32(|b|);
    U32Injective(|a|, |b|);
    assert s[4..] == a + x && t[4..] == b + y;
    assert (a + x)[..|a|] == a && (b + y)[..|b|] == b;
    assert (a + x)[|a|..] == x && (b + y)[|b|..] == y;
  }

  /** Every field after its length. */
  function Framed(fields: seq<Bytes>): Bytes {
    if fields == [] then [] else U32(|fields[0]|) + (fields[0] + Framed(fields[1..]))
  }

  ghost predicate Fits(fields: seq<Bytes>) {
    forall i :: 0 <= i < |fields| ==> |fields[i]| < U32_END
  }

  lemma FramedSize(fields: seq<Bytes>)
    ensures |Framed(fields)| == 0 <==> fields == []
  {
  }

  /** The frame determines the fields and their number. */
  lemma {:induction false} FramedInjective(a: seq<Bytes>, b: seq<Bytes>)
    requires Fits(a) && Fits(b) && Framed(a) == Framed(b)
    ensures a == b
    decreases |a|
  {
    if a != [] && b != [] {
      FrameInjective(a[0], Framed(a[1..]), b[0], Framed(b[1..]));
      FramedInjective(a[1..], b[1..]);
      assert a == [a[0]] + a[1..] && b == [b[0]] + b[1..];
    } else {
      FramedSize(a);
      FramedSize(b);
    }
  }
}
