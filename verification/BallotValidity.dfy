/** The proofs of one ballot taken together: what their extracted openings force the encrypted
    vectors to be. */
module BallotValidity {
  import opened Scalars
  import opened Groups
  import opened ElGamal
  import opened Sigma

  /** Two accepted binary proofs with one commitment and different challenges. */
  datatype Fork = Fork(p: BinaryProof, e: int, p': BinaryProof, e': int)

  datatype SumFork = SumFork(p: SumProof, e: int, p': SumProof, e': int)

  ghost predicate ForkOf(G: Group, pk: int, ct: Ciphertext, f: Fork)
    requires G.q > 0
  {
    Forked(G, pk, ct, f.p, f.e, f.p', f.e')
  }

  ghost predicate ForksOf(G: Group, pk: int, cts: seq<Ciphertext>, fs: seq<Fork>)
    requires G.q > 0
  {
    |cts| == |fs| && forall i :: 0 <= i < |cts| ==> ForkOf(G, pk, cts[i], fs[i])
  }

  ghost predicate SumForkOf(G: Group, pk: int, agg: Ciphertext, f: SumFork)
    requires G.q > 0
  {
    && SumHolds(G, pk, agg, f.p, f.e) && SumHolds(G, pk, agg, f.p', f.e') && !Same(G, f.e, f.e')
    && f.p.a == f.p'.a && f.p.b == f.p'.b
  }

  ghost predicate Bits(ms: seq<int>) {
    forall i :: 0 <= i < |ms| ==> ms[i] == 0 || ms[i] == 1
  }

  ghost predicate Opens(G: Group, pk: int, cts: seq<Ciphertext>, ms: seq<int>, rs: seq<int>)
    requires G.q > 0
  {
    |cts| == |ms| == |rs| && forall i :: 0 <= i < |cts| ==> Encrypts(G, pk, cts[i], ms[i], rs[i])
  }

  /** Every entry of a vector with binary proofs opens to a bit. */
  lemma {:induction false} VectorSound(G: Group, pk: int, cts: seq<Ciphertext>, fs: seq<Fork>)
    returns (ms: seq<int>, rs: seq<int>)
    requires Valid(G) && ForksOf(G, pk, cts, fs)
    ensures Opens(G, pk, cts, ms, rs) && Bits(ms)
    decreases |cts|
  {
    ms, rs := [], [];
    if cts != [] {
      assert ForkOf(G, pk, cts[0], fs[0]);
      var m, r := BinarySound(G, pk, cts[0], fs[0].p, fs[0].e, fs[0].p', fs[0].e');
      ms, rs := VectorSound(G, pk, cts[1..], fs[1..]);
      ms, rs := [m] + ms, [r] + rs;
    }
  }

  lemma {:induction false} TotalOfBits(ms: seq<int>)
    requires Bits(ms)
    ensures 0 <= Total(ms) <= |ms|
  {
    if ms != [] {
      TotalOfBits(ms[1..]);
    }
  }

  lemma {:induction false} BitsOfZero(ms: seq<int>, i: nat)
    requires Bits(ms) && Total(ms) == 0 && i < |ms|
    ensures ms[i] == 0
  {
    TotalOfBits(ms[1..]);
    if i > 0 {
      BitsOfZero(ms[1..], i - 1);
    }
  }

  /** Bits that sum to 1 are a unit vector. */
  lemma {:induction false} OneHot(ms: seq<int>) returns (chosen: nat)
    requires Bits(ms) && Total(ms) == 1
    ensures chosen < |ms| && forall i :: 0 <= i < |ms| ==> ms[i] == if i == chosen then 1 else 0
    decreases |ms|
  {
    TotalOfBits(ms[1..]);
    if ms[0] == 1 {
      chosen := 0;
      forall i | 0 < i < |ms|
        ensures ms[i] == 0
      {
        BitsOfZero(ms[1..], i - 1);
      }
    } else {
      var c := OneHot(ms[1..]);
      chosen := c + 1;
      forall i | 0 < i < |ms|
        ensures ms[i] == if i == chosen then 1 else 0
      {
        assert ms[i] == ms[1..][i - 1];
      }
    }
  }

  /** Small plaintexts of one ciphertext are equal. */
  lemma SmallPlaintext(G: Group, pk: int, ct: Ciphertext, m: int, r: int, n: int, s: int)
    requires Valid(G) && Encrypts(G, pk, ct, m, r) && Encrypts(G, pk, ct, n, s)
    requires 0 <= m < G.q && 0 <= n < G.q
    ensures m == n
  {
    PlaintextUnique(G, pk, ct, m, r, n, s);
    RedSmall(G.q, m);
    RedSmall(G.q, n);
  }

  /** A party vector whose entries have binary proofs and whose sum has a sum-one proof, with
      fewer than q parties, selects exactly one party. */
  lemma ExactlyOneParty(G: Group, pk: int, party: seq<Ciphertext>, fs: seq<Fork>, sf: SumFork)
    returns (chosen: nat, ms: seq<int>, rs: seq<int>)
    requires Valid(G) && |party| < G.q && ForksOf(G, pk, party, fs) && SumForkOf(G, pk, SumOf(G, party), sf)
    ensures Opens(G, pk, party, ms, rs)
    ensures chosen < |party| && forall i :: 0 <= i < |party| ==> ms[i] == if i == chosen then 1 else 0
  {
    ms, rs := VectorSound(G, pk, party, fs);
    var r := SumOneSound(G, pk, SumOf(G, party), sf.p, sf.e, sf.p', sf.e');
    SumEncrypts(G, pk, party, ms, rs);
    TotalOfBits(ms);
    SmallPlaintext(G, pk, SumOf(G, party), Total(ms), Total(rs), 1, r);
    chosen := OneHot(ms);
  }

  /** One party's candidate vector: binary proofs on the entries, the candidate-sum proof and the
      consistency proof leave at most the party's own bit of candidates. */
  lemma CandidatesUnderParty(G: Group, pk: int, partyCt: Ciphertext, m: int, r: int,
                             cands: seq<Ciphertext>, fs: seq<Fork>, sumFork: Fork, diffFork: Fork)
    returns (cs: seq<int>, rs: seq<int>)
    requires Valid(G) && (m == 0 || m == 1) && Encrypts(G, pk, partyCt, m, r)
    requires |cands| < G.q && ForksOf(G, pk, cands, fs)
    requires ForkOf(G, pk, SumOf(G, cands), sumFork)
    requires ForkOf(G, pk, SubCt(G, partyCt, SumOf(G, cands)), diffFork)
    ensures Opens(G, pk, cands, cs, rs) && Bits(cs) && Total(cs) <= m
  {
    var agg := SumOf(G, cands);
    cs, rs := VectorSound(G, pk, cands, fs);
    SumEncrypts(G, pk, cands, cs, rs);
    TotalOfBits(cs);
    var s, rr := BinarySound(G, pk, agg, sumFork.p, sumFork.e, sumFork.p', sumFork.e');
    SmallPlaintext(G, pk, agg, Total(cs), Total(rs), s, rr);
    var d, rd := BinarySound(G, pk, SubCt(G, partyCt, agg), diffFork.p, diffFork.e, diffFork.p', diffFork.e');
    AddEncrypts(G, pk, partyCt, m, r, agg, s, rr);
    PlaintextUnique(G, pk, SubCt(G, partyCt, agg), m - s, r - rr, d, rd);
    if s > m {
      RedAdd(G.q, -1, 1, d, 1);
      RedSmall(G.q, 0);
      RedSmall(G.q, d + 1);
    }
  }

  /** Forks of all the proofs of a ballot. The last slots of the party vector, as the blank one, may
      have no candidates. */
  ghost predicate BallotForks(G: Group, pk: int, party: seq<Ciphertext>, cands: seq<seq<Ciphertext>>,
                              partyForks: seq<Fork>, sumOne: SumFork,
                              candForks: seq<seq<Fork>>, sumForks: seq<Fork>, diffForks: seq<Fork>)
    requires G.q > 0
  {
    && |party| < G.q && ForksOf(G, pk, party, partyForks) && SumForkOf(G, pk, SumOf(G, party), sumOne)
    && |cands| == |candForks| == |sumForks| == |diffForks| <= |party|
    && forall p :: 0 <= p < |cands| ==> PartyForks(G, pk, party[p], cands[p], candForks[p], sumForks[p], diffForks[p])
  }

  ghost predicate PartyForks(G: Group, pk: int, partyCt: Ciphertext, cands: seq<Ciphertext>, fs: seq<Fork>,
                             sumFork: Fork, diffFork: Fork)
    requires G.q > 0
  {
    && |cands| < G.q && ForksOf(G, pk, cands, fs) && ForkOf(G, pk, SumOf(G, cands), sumFork)
    && ForkOf(G, pk, SubCt(G, partyCt, SumOf(G, cands)), diffFork)
  }

  /** The candidate bits cs of a party. */
  ghost predicate ValidCandidates(G: Group, pk: int, cands: seq<Ciphertext>, cs: seq<int>, rs: seq<int>, selected: bool)
    requires G.q > 0
  {
    && Opens(G, pk, cands, cs, rs) && Bits(cs)
    && Total(cs) <= 1
    && (!selected ==> forall c :: 0 <= c < |cs| ==> cs[c] == 0)
  }

  lemma CandidatesOf(G: Group, pk: int, partyCt: Ciphertext, m: int, r: int, cands: seq<Ciphertext>, fs: seq<Fork>,
                     sumFork: Fork, diffFork: Fork)
    returns (cs: seq<int>, rs: seq<int>)
    requires Valid(G) && (m == 0 || m == 1) && Encrypts(G, pk, partyCt, m, r)
    requires PartyForks(G, pk, partyCt, cands, fs, sumFork, diffFork)
    ensures ValidCandidates(G, pk, cands, cs, rs, m == 1)
  {
    hide ForkOf, ForksOf, SumOf, SubCt, Encrypts;
    cs, rs := CandidatesUnderParty(G, pk, partyCt, m, r, cands, fs, sumFork, diffFork);
    if m == 0 {
      TotalOfBits(cs);
      forall c | 0 <= c < |cs|
        ensures cs[c] == 0
      {
        BitsOfZero(cs, c);
      }
    }
  }

  /** What the vectors of a ballot encrypt: exactly one party slot is 1, and candidate slots are 1
      only under that party and at most once. */
  datatype Opening = Opening(chosen: nat, ms: seq<int>, rs: seq<int>, css: seq<seq<int>>, rss: seq<seq<int>>)

  ghost predicate ValidBallot(G: Group, pk: int, party: seq<Ciphertext>, cands: seq<seq<Ciphertext>>, o: Opening)
    requires G.q > 0
  {
    && Opens(G, pk, party, o.ms, o.rs)
    && o.chosen < |party| && (forall p :: 0 <= p < |party| ==> o.ms[p] == if p == o.chosen then 1 else 0)
    && |o.css| == |o.rss| == |cands|
    && forall p :: 0 <= p < |cands| ==> ValidCandidates(G, pk, cands[p], o.css[p], o.rss[p], p == o.chosen)
  }

  lemma BallotValid(G: Group, pk: int, party: seq<Ciphertext>, cands: seq<seq<Ciphertext>>,
                    partyForks: seq<Fork>, sumOne: SumFork,
                    candForks: seq<seq<Fork>>, sumForks: seq<Fork>, diffForks: seq<Fork>)
    returns (o: Opening)
    requires Valid(G) && BallotForks(G, pk, party, cands, partyForks, sumOne, candForks, sumForks, diffForks)
    ensures ValidBallot(G, pk, party, cands, o)
  {
    hide ForkOf, ForksOf, SumForkOf, SumOf, SubCt, PartyForks, ValidCandidates, Encrypts, Total;
    var chosen, ms, rs := ExactlyOneParty(G, pk, party, partyForks, sumOne);
    var (css, rss) := ([], []);
    for p := 0 to |cands|
      invariant |css| == |rss| == p
      invariant forall i :: 0 <= i < p ==> ValidCandidates(G, pk, cands[i], css[i], rss[i], i == chosen)
    {
      assert PartyForks(G, pk, party[p], cands[p], candForks[p], sumForks[p], diffForks[p]);
      var cs, rr := CandidatesOf(G, pk, party[p], ms[p], rs[p], cands[p], candForks[p], sumForks[p], diffForks[p]);
      css, rss := css + [cs], rss + [rr];
    }
    o := Opening(chosen, ms, rs, css, rss);
  }
}
