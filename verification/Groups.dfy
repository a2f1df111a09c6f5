/** A cyclic group of prime order q with generator g, written as the residues modulo q: every
    such group is isomorphic to this one. A scalar or an element is an integer that stands for
    its residue; Equal on the Go side is equality of residues. */
module Groups {
  import opened Scalars

  datatype Group = Group(q: nat, g: int)

  /** The order is a prime above 2^33, as the order of ristretto255 is. */
  ghost predicate Valid(G: Group) {
    Prime(G.q) && G.q > 0x2_0000_0000 && Red(G.q, G.g) != 0
  }

  /** There are such groups, of any size. */
  lemma GroupsExist(n: nat) returns (G: Group)
    ensures Valid(G) && G.q > n
  {
    var q := PrimeAbove(n + 0x2_0000_0000);
    RedSmall(q, 1);
    G := Group(q, 1);
  }

  /** ScalarMult and ScalarBaseMult. */
  function Mul(G: Group, s: int, P: int): nat
    requires G.q > 0
  {
    Red(G.q, s * P)
  }

  function BaseMul(G: Group, s: int): nat
    requires G.q > 0
  {
    Mul(G, s, G.g)
  }

  function Add(G: Group, P: int, Q: int): nat
    requires G.q > 0
  {
    Red(G.q, P + Q)
  }

  function Sub(G: Group, P: int, Q: int): nat
    requires G.q > 0
  {
    Red(G.q, P - Q)
  }

  function Neg(G: Group, P: int): nat
    requires G.q > 0
  {
    Red(G.q, -P)
  }

  ghost predicate Same(G: Group, x: int, y: int)
    requires G.q > 0
  {
    Red(G.q, x) == Red(G.q, y)
  }

  /** The discrete logarithm of P to the base g, in [0, q). */
  function Log(G: Group, P: int): nat
    requires G.q > 0
  {
    Red(G.q, P * Inv(G.q, G.g))
  }

  lemma LogCorrect(G: Group, P: int)
    requires Valid(G)
    ensures Log(G, P) < G.q && BaseMul(G, Log(G, P)) == Red(G.q, P)
  {
    var (q, g, i) := (G.q, G.g, Inv(G.q, G.g));
    NonZeroIsUnit(q, g);
    RedAgain(q, P * i);
    RedMul(q, Log(G, P), g, P * i, g);
    UnitTimes(q, g, P);
    assert P * i * g == g * P * i;
  }

  lemma LogUnique(G: Group, P: int, x: int)
    requires Valid(G) && BaseMul(G, x) == Red(G.q, P)
    ensures Log(G, P) == Red(G.q, x)
  {
    LogCorrect(G, P);
    BaseMulInjective(G, x, Log(G, P));
    RedAgain(G.q, P * Inv(G.q, G.g));
  }

  lemma BaseMulInjective(G: Group, x: int, y: int)
    requires Valid(G) && BaseMul(G, x) == BaseMul(G, y)
    ensures Red(G.q, x) == Red(G.q, y)
  {
    NonZeroIsUnit(G.q, G.g);
    assert x * G.g == G.g * x && y * G.g == G.g * y;
    Cancel(G.q, G.g, x, y);
  }

  /** MultiScalarMult, before the final reduction. */
  function Msm(ss: seq<int>, Ps: seq<int>): int
    requires |ss| == |Ps|
  {
    if ss == [] then 0 else ss[0] * Ps[0] + Msm(ss[1..], Ps[1..])
  }
}
