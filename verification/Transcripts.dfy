/** docs/protocol/fiat-shamir.md: the bytes that the challenges hash. SHA-512, the encoding of points
    and UTF-8 are parameters; the framing makes every field of a transcript recoverable. */
module Transcripts {
  import opened Common
  import opened Scalars
  import opened Groups
  import opened ElGamal
  import opened Sigma
  import opened Decrypt
  import F = Feldman
  import R = Framing

  datatype Codec = Codec(utf8: string -> Bytes, point: nat -> Bytes)

  /** Different texts and different points have different encodings; points have 32 bytes. */
  ghost predicate IsCodec(q: nat, c: Codec) {
    && (forall s, s' :: c.utf8(s) == c.utf8(s') ==> s == s')
    && (forall P: nat, P': nat :: P < q && P' < q && c.point(P) == c.point(P') ==> P == P')
    && forall P: nat :: |c.point(P)| == 32
  }

  // ----- there are such encodings

  function BigEndian(n: nat, size: nat): (b: Bytes)
    ensures |b| == size
  {
    if size == 0 then [] else BigEndian(n / 256, size - 1) + [n % 256]
  }

  lemma {:induction false} BigEndianValue(n: nat, size: nat)
    requires n < Power(size)
    ensures R.Value(BigEndian(n, size)) == n
  {
    if size > 0 {
      BigEndianValue(n / 256, size - 1);
      assert BigEndian(n, size)[..size - 1] == BigEndian(n / 256, size - 1);
    }
  }

  function Power(size: nat): nat {
    if size == 0 then 1 else 256 * Power(size - 1)
  }

  function FourBytes(s: string): Bytes {
    if s == "" then [] else R.U32(s[0] as int) + FourBytes(s[1..])
  }

  lemma {:induction false} FourBytesInjective(s: string, s': string)
    requires FourBytes(s) == FourBytes(s')
    ensures s == s'
  {
    if s != "" && s' != "" {
      var (b, b') := (FourBytes(s), FourBytes(s'));
      assert b[..4] == R.U32(s[0] as int) && b'[..4] == R.U32(s'[0] as int);
      R.U32Injective(s[0] as int, s'[0] as int);
      assert b[4..] == FourBytes(s[1..]) && b'[4..] == FourBytes(s'[1..]);
      FourBytesInjective(s[1..], s'[1..]);
      assert s == [s[0]] + s[1..] && s' == [s'[0]] + s'[1..];
    }
  }

  /** For every group order below 2^256. */
  lemma CodecsExist(q: nat) returns (c: Codec)
    requires q <= Power(32)
    ensures IsCodec(q, c)
  {
    c := Codec(FourBytes, (P: nat) => BigEndian(P, 32));
    forall s, s' | c.utf8(s) == c.utf8(s')
      ensures s == s'
    {
      FourBytesInjective(s, s');
    }
    forall P: nat, P': nat | P < q && P' < q && c.point(P) == c.point(P')
      ensures P == P'
    {
      BigEndianValue(P, 32);
      BigEndianValue(P', 32);
    }
  }

  // ----- transcripts

  const CP_DOMAIN := "otvoren-vot.chaum-pedersen"

  function Points(q: nat, c: Codec, elements: seq<int>): (s: seq<Bytes>)
    requires q > 0
    ensures |s| == |elements|
  {
    seq(|elements|, (i: nat) requires i < |elements| => c.point(Red(q, elements[i])))
  }

  function FieldBytes(q: nat, c: Codec, f: Field): Bytes
    requires q > 0
  {
    match f
    case Text(text) => c.utf8(text)
    case U32(n) => R.U32(n)
    case Element(e) => c.point(Red(q, e))
    case Digest(bytes) => bytes
  }

  /** The fields of a transcript, the domain first. */
  function Fields(q: nat, c: Codec, t: Transcript): seq<Bytes>
    requires q > 0
  {
    match t
    case CpTranscript(context, elements) =>
      [c.utf8(CP_DOMAIN)] + seq(|context|, (i: nat) requires i < |context| => FieldBytes(q, c, context[i]))
      + Points(q, c, elements)
    case BallotTranscript(domain, ctx, elements) =>
      [c.utf8(domain), c.utf8(ctx.electionId), c.utf8(ctx.ballotId), R.U32(ctx.index)] + Points(q, c, elements)
  }

  /** What FiatShamir hashes. */
  function Input(q: nat, c: Codec, t: Transcript): Bytes
    requires q > 0
  {
    R.Framed(Fields(q, c, t))
  }

  ghost predicate SameElements(q: nat, a: seq<int>, b: seq<int>)
    requires q > 0
  {
    |a| == |b| && forall i :: 0 <= i < |a| ==> Red(q, a[i]) == Red(q, b[i])
  }

  lemma PointsBind(q: nat, c: Codec, a: seq<int>, b: seq<int>)
    requires q > 0 && IsCodec(q, c) && Points(q, c, a) == Points(q, c, b)
    ensures SameElements(q, a, b)
  {
    assert |a| == |Points(q, c, a)| == |b|;
    forall i | 0 <= i < |a|
      ensures Red(q, a[i]) == Red(q, b[i])
    {
      assert Points(q, c, a)[i] == Points(q, c, b)[i];
    }
  }

  /** One input stands for one ballot-proof transcript: its domain, election, ballot, index and every
      element of the statement and the commitments, up to the choice of a residue's representative. */
  lemma BallotInputBinds(q: nat, c: Codec, domain: string, ctx: Context, es: seq<int>,
                         domain': string, ctx': Context, es': seq<int>)
    requires q > 0 && IsCodec(q, c) && ctx.index < R.U32_END && ctx'.index < R.U32_END
    requires R.Fits(Fields(q, c, BallotTranscript(domain, ctx, es)))
    requires R.Fits(Fields(q, c, BallotTranscript(domain', ctx', es')))
    requires Input(q, c, BallotTranscript(domain, ctx, es)) == Input(q, c, BallotTranscript(domain', ctx', es'))
    ensures domain == domain' && ctx == ctx' && SameElements(q, es, es')
  {
    var (a, b) := (Fields(q, c, BallotTranscript(domain, ctx, es)), Fields(q, c, BallotTranscript(domain', ctx', es')));
    R.FramedInjective(a, b);
    assert a[0] == b[0] && a[1] == b[1] && a[2] == b[2] && a[3] == b[3];
    R.U32Injective(ctx.index, ctx'.index);
    assert a[4..] == Points(q, c, es) && b[4..] == Points(q, c, es');
    PointsBind(q, c, es, es');
  }

  /** No ballot proof under another domain shares an input with a Chaum-Pedersen proof. */
  lemma DomainsSeparate(q: nat, c: Codec, domain: string, ctx: Context, es: seq<int>, context: seq<Field>, es': seq<int>)
    requires q > 0 && IsCodec(q, c) && domain != CP_DOMAIN
    requires R.Fits(Fields(q, c, BallotTranscript(domain, ctx, es))) && R.Fits(Fields(q, c, CpTranscript(context, es')))
    ensures Input(q, c, BallotTranscript(domain, ctx, es)) != Input(q, c, CpTranscript(context, es'))
  {
    var (a, b) := (Fields(q, c, BallotTranscript(domain, ctx, es)), Fields(q, c, CpTranscript(context, es')));
    assert a[0] == c.utf8(domain) && b[0] == c.utf8(CP_DOMAIN);
    if R.Framed(a) == R.Framed(b) {
      R.FramedInjective(a, b);
    }
  }

  lemma BallotDomainsSeparate()
    ensures BINARY_DOMAIN != SUM_DOMAIN && BINARY_DOMAIN != CANDIDATE_SUM_DOMAIN && BINARY_DOMAIN != CONSISTENCY_DOMAIN
    ensures SUM_DOMAIN != CANDIDATE_SUM_DOMAIN && SUM_DOMAIN != CONSISTENCY_DOMAIN && CANDIDATE_SUM_DOMAIN != CONSISTENCY_DOMAIN
    ensures CP_DOMAIN !in [BINARY_DOMAIN, SUM_DOMAIN, CANDIDATE_SUM_DOMAIN, CONSISTENCY_DOMAIN]
  {
    assert |BINARY_DOMAIN| == 31 && |SUM_DOMAIN| == 28 && |CANDIDATE_SUM_DOMAIN| == 34;
    assert |CONSISTENCY_DOMAIN| == 39 && |CP_DOMAIN| == 26;
  }

  /** One input stands for one partial decryption: its election, trustee, slot, ciphertext, tally and
      key, the value and the commitment. */
  lemma PartialInputBinds(q: nat, c: Codec, sc: SlotContext, i: int, c2: int, es: seq<int>,
                          sc': SlotContext, i': int, c2': int, es': seq<int>)
    requires q > 0 && IsCodec(q, c) && F.CheckIndex(i) && F.CheckIndex(i')
    requires sc.slotIndex < R.U32_END && sc'.slotIndex < R.U32_END
    requires R.Fits(Fields(q, c, CpTranscript(PartialContext(sc, i, c2), es)))
    requires R.Fits(Fields(q, c, CpTranscript(PartialContext(sc', i', c2'), es')))
    requires Input(q, c, CpTranscript(PartialContext(sc, i, c2), es))
          == Input(q, c, CpTranscript(PartialContext(sc', i', c2'), es'))
    ensures sc == sc' && i == i' && Red(q, c2) == Red(q, c2') && SameElements(q, es, es')
  {
    var (x, x') := (PartialContext(sc, i, c2), PartialContext(sc', i', c2'));
    var (a, b) := (Fields(q, c, CpTranscript(x, es)), Fields(q, c, CpTranscript(x', es')));
    R.FramedInjective(a, b);
    forall k | 0 <= k < 7
      ensures a[k + 1] == FieldBytes(q, c, x[k]) && b[k + 1] == FieldBytes(q, c, x'[k])
    {
    }
    PartialFields(q, c, sc, i, c2, sc', i', c2');
    assert a[8..] == Points(q, c, es) && b[8..] == Points(q, c, es');
    PointsBind(q, c, es, es');
  }

  lemma PartialFields(q: nat, c: Codec, sc: SlotContext, i: int, c2: int, sc': SlotContext, i': int, c2': int)
    requires q > 0 && IsCodec(q, c) && F.CheckIndex(i) && F.CheckIndex(i')
    requires sc.slotIndex < R.U32_END && sc'.slotIndex < R.U32_END
    requires forall k :: 0 <= k < 7 ==>
      FieldBytes(q, c, PartialContext(sc, i, c2)[k]) == FieldBytes(q, c, PartialContext(sc', i', c2')[k])
    ensures sc == sc' && i == i' && Red(q, c2) == Red(q, c2')
  {
    var (x, x') := (PartialContext(sc, i, c2), PartialContext(sc', i', c2'));
    assert FieldBytes(q, c, x[0]) == FieldBytes(q, c, x'[0]) && FieldBytes(q, c, x[1]) == FieldBytes(q, c, x'[1]);
    assert FieldBytes(q, c, x[2]) == FieldBytes(q, c, x'[2]) && FieldBytes(q, c, x[3]) == FieldBytes(q, c, x'[3]);
    assert FieldBytes(q, c, x[4]) == FieldBytes(q, c, x'[4]) && FieldBytes(q, c, x[5]) == FieldBytes(q, c, x'[5]);
    assert FieldBytes(q, c, x[6]) == FieldBytes(q, c, x'[6]);
    R.U32Injective(i, i');
    R.U32Injective(sc.slotIndex, sc'.slotIndex);
  }

  // ----- the tally digest

  const TALLY_DOMAIN := "otvoren-vot.tally-vector"

  function CiphertextBytes(q: nat, c: Codec, ct: Ciphertext): Bytes
    requires q > 0
  {
    c.point(Red(q, ct.c1)) + c.point(Red(q, ct.c2))
  }

  /** What TallyDigest hashes: every ciphertext of the vector, in slot order. */
  function TallyInput(q: nat, c: Codec, cts: seq<Ciphertext>): seq<Bytes>
    requires q > 0
  {
    [c.utf8(TALLY_DOMAIN)] + seq(|cts|, (i: nat) requires i < |cts| => CiphertextBytes(q, c, cts[i]))
  }

  /** One input stands for one vector of ciphertexts, of one length and in one order. */
  lemma TallyInputBinds(G: Group, c: Codec, a: seq<Ciphertext>, b: seq<Ciphertext>)
    requires G.q > 0 && IsCodec(G.q, c) && R.Fits(TallyInput(G.q, c, a)) && R.Fits(TallyInput(G.q, c, b))
    requires R.Framed(TallyInput(G.q, c, a)) == R.Framed(TallyInput(G.q, c, b))
    ensures |a| == |b| && forall i :: 0 <= i < |a| ==> Reduced(G, a[i]) == Reduced(G, b[i])
  {
    var (x, y) := (TallyInput(G.q, c, a), TallyInput(G.q, c, b));
    R.FramedInjective(x, y);
    assert |x| == |a| + 1 && |y| == |b| + 1;
    forall i | 0 <= i < |a|
      ensures Reduced(G, a[i]) == Reduced(G, b[i])
    {
      assert x[i + 1] == CiphertextBytes(G.q, c, a[i]) && y[i + 1] == CiphertextBytes(G.q, c, b[i]);
      HalvesBind(G.q, c, a[i], b[i]);
    }
  }

  lemma HalvesBind(q: nat, c: Codec, a: Ciphertext, b: Ciphertext)
    requires q > 0 && IsCodec(q, c) && CiphertextBytes(q, c, a) == CiphertextBytes(q, c, b)
    ensures Red(q, a.c1) == Red(q, b.c1) && Red(q, a.c2) == Red(q, b.c2)
  {
    var (x, y) := (CiphertextBytes(q, c, a), CiphertextBytes(q, c, b));
    assert x[..32] == c.point(Red(q, a.c1)) && y[..32] == c.point(Red(q, b.c1));
    assert x[32..] == c.point(Red(q, a.c2)) && y[32..] == c.point(Red(q, b.c2));
  }
}
