/** crypto/elgamal: exponential ElGamal over a prime-order group. */
module ElGamal {
  import opened Common
  import opened Scalars
  import opened Groups
  import opened Bsgs

  datatype Ciphertext = Ciphertext(c1: int, c2: int)

  datatype Error = ErrInvalidPublicKey | ErrInvalidRandomness | ErrNegative

  const MAX_DECRYPT: int := 5_000_000

  /** ct encrypts m under pk with randomness r: c1 = r * g and c2 = r * pk + m * g. */
  ghost predicate Encrypts(G: Group, pk: int, ct: Ciphertext, m: int, r: int)
    requires G.q > 0
  {
    Same(G, ct.c1, r * G.g) && Same(G, ct.c2, r * pk + m * G.g)
  }

  /** EncryptWithRandomness. */
  function Encrypt(G: Group, pk: int, m: int, r: int): Result<Ciphertext, Error>
    requires G.q > 0
  {
    if Red(G.q, pk) == 0 then Err(ErrInvalidPublicKey)
    else if Red(G.q, r) == 0 then Err(ErrInvalidRandomness)
    else if m < 0 then Err(ErrNegative)
    else Ok(Ciphertext(BaseMul(G, r), Add(G, Mul(G, r, pk), BaseMul(G, m))))
  }

  /** Encryption refuses an identity key, then a zero randomness, then a negative plaintext, and nothing
      else. */
  lemma EncryptExact(G: Group, pk: int, m: int, r: int)
    requires G.q > 0
    ensures var e := Encrypt(G, pk, m, r);
      && (e == Err(ErrInvalidPublicKey) <==> Same(G, pk, 0))
      && (e == Err(ErrInvalidRandomness) <==> !Same(G, pk, 0) && Same(G, r, 0))
      && (e == Err(ErrNegative) <==> !Same(G, pk, 0) && !Same(G, r, 0) && m < 0)
  {
    RedSmall(G.q, 0);
  }

  lemma EncryptEncrypts(G: Group, pk: int, m: int, r: int)
    requires G.q > 0 && Encrypt(G, pk, m, r).Ok?
    ensures Encrypts(G, pk, Encrypt(G, pk, m, r).value, m, r)
  {
    RedAgain(G.q, r * G.g);
    RedAgain(G.q, r * pk);
    RedAgain(G.q, m * G.g);
    RedAdd(G.q, Mul(G, r, pk), BaseMul(G, m), r * pk, m * G.g);
    RedAgain(G.q, Mul(G, r, pk) + BaseMul(G, m));
  }

  function AddCt(G: Group, a: Ciphertext, b: Ciphertext): Ciphertext
    requires G.q > 0
  {
    Ciphertext(Add(G, a.c1, b.c1), Add(G, a.c2, b.c2))
  }

  /** homomorphicSubtract. */
  function SubCt(G: Group, a: Ciphertext, b: Ciphertext): Ciphertext
    requires G.q > 0
  {
    Ciphertext(Sub(G, a.c1, b.c1), Sub(G, a.c2, b.c2))
  }

  lemma AddEncrypts(G: Group, pk: int, a: Ciphertext, m: int, r: int, b: Ciphertext, n: int, s: int)
    requires G.q > 0 && Encrypts(G, pk, a, m, r) && Encrypts(G, pk, b, n, s)
    ensures Encrypts(G, pk, AddCt(G, a, b), m + n, r + s)
    ensures Encrypts(G, pk, SubCt(G, a, b), m - n, r - s)
  {
    CombineHalves(G.q, G.g, a.c1, b.c1, r, 0, s, 0, pk);
    CombineHalves(G.q, G.g, a.c2, b.c2, r, m, s, n, pk);
  }

  lemma CombineHalves(q: nat, g: int, x: int, y: int, r: int, m: int, s: int, n: int, pk: int)
    requires q > 0
    ensures Red(q, x) == Red(q, r * g) && Red(q, y) == Red(q, s * g) ==>
      Red(q, Red(q, x + y)) == Red(q, (r + s) * g) && Red(q, Red(q, x - y)) == Red(q, (r - s) * g)
    ensures Red(q, x) == Red(q, r * pk + m * g) && Red(q, y) == Red(q, s * pk + n * g) ==>
      Red(q, Red(q, x + y)) == Red(q, (r + s) * pk + (m + n) * g)
      && Red(q, Red(q, x - y)) == Red(q, (r - s) * pk + (m - n) * g)
  {
    RedAgain(q, x + y);
    RedAgain(q, x - y);
    DistributeSum(r, s, g);
    DistributeSum(r, s, pk);
    DistributeSum(m, n, g);
    if Red(q, x) == Red(q, r * g) && Red(q, y) == Red(q, s * g) {
      RedAdd(q, x, y, r * g, s * g);
    }
    if Red(q, x) == Red(q, r * pk + m * g) && Red(q, y) == Red(q, s * pk + n * g) {
      RedAdd(q, x, y, r * pk + m * g, s * pk + n * g);
    }
  }

  lemma DistributeSum(r: int, s: int, g: int)
    ensures (r + s) * g == r * g + s * g && (r - s) * g == r * g - s * g
  {
  }

  /** The component-wise sums, before reduction. */
  function Sum1(cts: seq<Ciphertext>): int {
    if cts == [] then 0 else cts[0].c1 + Sum1(cts[1..])
  }

  function Sum2(cts: seq<Ciphertext>): int {
    if cts == [] then 0 else cts[0].c2 + Sum2(cts[1..])
  }

  /** The residues of a ciphertext's halves. */
  function Reduced(G: Group, ct: Ciphertext): Ciphertext
    requires G.q > 0
  {
    Ciphertext(Red(G.q, ct.c1), Red(G.q, ct.c2))
  }

  function SumOf(G: Group, cts: seq<Ciphertext>): Ciphertext
    requires G.q > 0
  {
    Ciphertext(Red(G.q, Sum1(cts)), Red(G.q, Sum2(cts)))
  }

  /** HomomorphicAdd: nil on the empty list. */
  method HomomorphicAdd(G: Group, cts: seq<Ciphertext>) returns (r: Option<Ciphertext>)
    requires Valid(G)
    ensures r.Some? <==> cts != []
    ensures r.Some? ==> Reduced(G, r.value) == SumOf(G, cts)
  {
    if |cts| == 0 {
      return None;
    }
    var sumC1, sumC2 := cts[0].c1, cts[0].c2;
    SumsFrom(cts, 0);
    assert cts[0..] == cts;
    for i := 1 to |cts|
      invariant SumsTo(G, sumC1, sumC2, cts, i)
    {
      NextSums(G, sumC1, sumC2, cts, i);
      sumC1, sumC2 := Add(G, sumC1, cts[i].c1), Add(G, sumC2, cts[i].c2);
    }
    assert SumsTo(G, sumC1, sumC2, cts, |cts|) && cts[|cts|..] == [];
    return Some(Ciphertext(sumC1, sumC2));
  }

  /** s and the rest of a list make up its total. */
  ghost predicate Completes(G: Group, s: int, rest: int, total: int)
    requires G.q > 0
  {
    Red(G.q, s + rest) == Red(G.q, total)
  }

  /** s1 and s2 hold the sums of the first i ciphertexts. */
  ghost predicate SumsTo(G: Group, s1: int, s2: int, cts: seq<Ciphertext>, i: nat)
    requires G.q > 0 && i <= |cts|
  {
    Completes(G, s1, Sum1(cts[i..]), Sum1(cts)) && Completes(G, s2, Sum2(cts[i..]), Sum2(cts))
  }

  lemma NextSums(G: Group, s1: int, s2: int, cts: seq<Ciphertext>, i: nat)
    requires Valid(G) && i < |cts| && SumsTo(G, s1, s2, cts, i)
    ensures SumsTo(G, Add(G, s1, cts[i].c1), Add(G, s2, cts[i].c2), cts, i + 1)
  {
    SumsFrom(cts, i);
    AddFirst(G, s1, cts[i].c1, Sum1(cts[i..]), Sum1(cts[i + 1..]), Sum1(cts));
    AddFirst(G, s2, cts[i].c2, Sum2(cts[i..]), Sum2(cts[i + 1..]), Sum2(cts));
  }

  lemma SumsFrom(cts: seq<Ciphertext>, i: nat)
    requires i < |cts|
    ensures Sum1(cts[i..]) == cts[i].c1 + Sum1(cts[i + 1..])
    ensures Sum2(cts[i..]) == cts[i].c2 + Sum2(cts[i + 1..])
  {
    assert cts[i..][1..] == cts[i + 1..];
  }

  lemma AddFirst(G: Group, s: int, x: int, rest: int, after: int, total: int)
    requires G.q > 0 && rest == x + after && Completes(G, s, rest, total)
    ensures Completes(G, Add(G, s, x), after, total)
  {
    RedAgain(G.q, s + x);
    RedAdd(G.q, Red(G.q, s + x), after, s + x, after);
  }

  function Total(xs: seq<int>): int {
    if xs == [] then 0 else xs[0] + Total(xs[1..])
  }

  lemma {:induction false} ZeroTotal(xs: seq<int>)
    requires forall j :: 0 <= j < |xs| ==> xs[j] == 0
    ensures Total(xs) == 0
  {
    if xs != [] {
      ZeroTotal(xs[1..]);
    }
  }

  /** The homomorphic sum encrypts the sum of the plaintexts. */
  lemma {:induction false} SumEncrypts(G: Group, pk: int, cts: seq<Ciphertext>, ms: seq<int>, rs: seq<int>)
    requires G.q > 0 && |cts| == |ms| == |rs|
    requires forall i :: 0 <= i < |cts| ==> Encrypts(G, pk, cts[i], ms[i], rs[i])
    ensures Encrypts(G, pk, Ciphertext(Sum1(cts), Sum2(cts)), Total(ms), Total(rs))
    ensures Encrypts(G, pk, SumOf(G, cts), Total(ms), Total(rs))
  {
    var sum := Ciphertext(Sum1(cts), Sum2(cts));
    if cts != [] {
      SumEncrypts(G, pk, cts[1..], ms[1..], rs[1..]);
      var rest := Ciphertext(Sum1(cts[1..]), Sum2(cts[1..]));
      hide Encrypts, Red;
      AddEncrypts(G, pk, cts[0], ms[0], rs[0], rest, Total(ms[1..]), Total(rs[1..]));
      assert AddCt(G, cts[0], rest) == Reduced(G, sum);
    }
    Unreduced(G, pk, sum, Total(ms), Total(rs));
  }

  /** Reducing the halves does not change what a ciphertext encrypts. */
  lemma Unreduced(G: Group, pk: int, ct: Ciphertext, m: int, r: int)
    requires G.q > 0
    ensures Encrypts(G, pk, Reduced(G, ct), m, r) <==> Encrypts(G, pk, ct, m, r)
  {
    RedAgain(G.q, ct.c1);
    RedAgain(G.q, ct.c2);
  }

  /** A ciphertext has one plaintext modulo q. */
  lemma PlaintextUnique(G: Group, pk: int, ct: Ciphertext, m: int, r: int, n: int, s: int)
    requires Valid(G) && Encrypts(G, pk, ct, m, r) && Encrypts(G, pk, ct, n, s)
    ensures Same(G, m, n)
  {
    BaseMulInjective(G, r, s);
    RedMul(G.q, r, pk, s, pk);
    RedAdd(G.q, r * pk + m * G.g, r * pk, s * pk + n * G.g, s * pk);
    BaseMulInjective(G, m, n);
  }

  /** Decrypt inverts encryption under its key up to MaxDecrypt, and answers -1 beyond. */
  method Decrypt(G: Group, privateKey: int, ct: Ciphertext) returns (m: int)
    requires Valid(G)
    ensures forall n, r {:trigger Encrypts(G, BaseMul(G, privateKey), ct, n, r)} ::
      0 <= n < G.q && Encrypts(G, BaseMul(G, privateKey), ct, n, r) ==> m == if n <= MAX_DECRYPT then n else -1
  {
    var s := Neg(G, Mul(G, privateKey, ct.c1));
    var gm := Add(G, ct.c2, s);
    forall n, r | 0 <= n < G.q && Encrypts(G, BaseMul(G, privateKey), ct, n, r)
      ensures Log(G, gm) == n
    {
      DecryptionLog(G, privateKey, ct, n, r);
      RedSmall(G.q, n);
    }
    var found, step, _ := BabyStepGiantStep(G, gm, MAX_DECRYPT);
    if Log(G, gm) > MAX_DECRYPT {
      NegativeBeyond(Log(G, gm), MAX_DECRYPT, step);
    }
    m := found;
  }

  lemma DecryptionLog(G: Group, x: int, ct: Ciphertext, n: int, r: int)
    requires Valid(G) && Encrypts(G, BaseMul(G, x), ct, n, r)
    ensures Log(G, Add(G, ct.c2, Neg(G, Mul(G, x, ct.c1)))) == Red(G.q, n)
  {
    var (q, g) := (G.q, G.g);
    RedMul(q, x, ct.c1, x, r * g);
    RedAgain(q, x * g);
    RedMul(q, r, BaseMul(G, x), r, x * g);
    RedAdd(q, r * BaseMul(G, x), n * g, r * (x * g), n * g);
    RedAdd(q, ct.c2, x * ct.c1, r * (x * g) + n * g, x * (r * g));
    assert r * (x * g) == x * (r * g);
    AddNegative(q, ct.c2, x * ct.c1);
    RedAgain(q, ct.c2 - x * ct.c1);
    LogUnique(G, Add(G, ct.c2, Neg(G, Mul(G, x, ct.c1))), n);
  }

  lemma AddNegative(q: nat, a: int, b: int)
    requires q > 0
    ensures var c: int := Red(q, b);
      Red(q, a + Red(q, -c)) == Red(q, a - b)
  {
    var c: int := Red(q, b);
    RedAgain(q, b);
    RedAdd(q, 0, c, 0, b);
    RedAgain(q, -c);
    RedAdd(q, a, Red(q, -c), a, -b);
  }
}
