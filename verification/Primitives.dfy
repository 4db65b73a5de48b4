/** Shared constants, scalar codec and Fiat-Shamir challenges (src/core/utils.rs).

    SHA-256, HKDF and hash-to-curve are arbitrary functions: the constants below
    have no value, so every theorem holds for every choice of them.
 */
module Primitives {
  import opened Bits
  import opened Bytes
  import opened Field
  import opened Group

  type BitCount = m: nat | 2 <= m <= 8 witness 3

  /** Bits of an index into the anonymity set, fixed when the crate is built. */
  const M: BitCount

  /** The size of a padded anonymity set. */
  const N: nat := Exp2(M)

  const SHA256: seq<byte> -> Bytes32

  /** HKDF-SHA256 with a 32-byte output, as a function of HMAC's key block, key material and info. */
  const HKDF: (seq<byte>, Bytes32, seq<byte>) -> Bytes32

  /** The salt as an HMAC key: one longer than a block is hashed. */
  function HmacKey(salt: seq<byte>): (key: seq<byte>)
    ensures |key| <= 64
  {
    if |salt| > 64 then SHA256(salt) else salt
  }

  /** HMAC fills the key's block with zeros (section 2 of RFC 2104). */
  function KeyBlock(salt: seq<byte>): (b: seq<byte>)
    ensures |b| == 64
  {
    HmacKey(salt) + Zeros(64 - |HmacKey(salt)|)
  }

  /** Hash-to-curve under the domain separation tag all callers share. */
  const HASH_TO_CURVE: seq<byte> -> Point

  function Ascii(s: string): seq<byte> {
    seq(|s|, i requires 0 <= i < |s| => (s[i] as int) % 256)
  }

  // ── labels ─────────────────────────────────────────────────────────────────

  /** What is hashed to the curve. */
  datatype Label = Generator(l: nat) | NameGenerator | BitGenerator(k: nat) | CredentialGenerator(name: seq<byte>)

  /** A number as it is formatted, in decimal digits. */
  function Decimal(n: nat): (d: seq<byte>)
    ensures d != [] && forall i :: 0 <= i < |d| ==> 48 <= d[i] <= 57
  {
    if n < 10 then [48 + n] else Decimal(n / 10) + [48 + n % 10]
  }

  function Tag(kind: Label): seq<byte> {
    match kind
    case Generator(l) => Ascii("CRS-ASC-generator-") + Decimal(l)
    case NameGenerator => Ascii("CRS-ASC-generator-name")
    case BitGenerator(k) => Ascii("CRS-ASC-bit-generator-") + Decimal(k)
    case CredentialGenerator(name) => Ascii("CRS-ASC-credential-generator-") + name
  }

  function HashLabel(kind: Label): Point { HASH_TO_CURVE(Tag(kind)) }

  lemma {:induction false} DecimalBinds(m: nat, n: nat)
    requires Decimal(m) == Decimal(n)
    ensures m == n
  {
    assert (m >= 10 <==> |Decimal(m)| > 1) && (n >= 10 <==> |Decimal(n)| > 1);
    if m >= 10 {
      var a, b := Decimal(m / 10), Decimal(n / 10);
      assert (a + [48 + m % 10])[..|a|] == a && (b + [48 + n % 10])[..|b|] == b;
      assert Decimal(m)[|a|] == Decimal(n)[|a|];
      DecimalBinds(m / 10, n / 10);
    }
  }

  lemma TailsAgree(s: string, x: seq<byte>, y: seq<byte>)
    requires Ascii(s) + x == Ascii(s) + y
    ensures x == y
  {
    SplitHead(Ascii(s), x, Ascii(s), y);
  }

  /** Distinct labels are distinct strings. */
  lemma TagBinds(a: Label, b: Label)
    requires Tag(a) == Tag(b)
    ensures a == b
  {
    hide Ascii, Decimal;
    match (a, b)
    case (Generator(l), Generator(m)) =>
      TailsAgree("CRS-ASC-generator-", Decimal(l), Decimal(m));
      DecimalBinds(l, m);
    case (BitGenerator(l), BitGenerator(m)) =>
      TailsAgree("CRS-ASC-bit-generator-", Decimal(l), Decimal(m));
      DecimalBinds(l, m);
    case (CredentialGenerator(l), CredentialGenerator(m)) =>
      TailsAgree("CRS-ASC-credential-generator-", l, m);
    case (NameGenerator, NameGenerator) =>
    case _ => KindsDiffer(a, b);
  }

  /** The tags of two kinds part at the ninth byte, or after "generator-". */
  lemma KindsDiffer(a: Label, b: Label)
    requires a != b && !(a.Generator? && b.Generator?) && !(a.BitGenerator? && b.BitGenerator?)
    requires !(a.CredentialGenerator? && b.CredentialGenerator?)
    ensures Tag(a) != Tag(b)
  {
    if a.Generator? && b.NameGenerator? {
      DigitsAreNotName(a.l);
    } else if a.NameGenerator? && b.Generator? {
      DigitsAreNotName(b.l);
    } else {
      NinthByte(a); NinthByte(b);
      hide Tag;
    }
  }

  lemma NinthByte(a: Label)
    ensures 8 < |Tag(a)|
    ensures Tag(a)[8] == (if a.BitGenerator? then 'b' else if a.CredentialGenerator? then 'c' else 'g') as int
  {
    hide Decimal;
  }

  lemma DigitsAreNotName(l: nat)
    ensures Tag(Generator(l)) != Tag(NameGenerator)
  {
    assert Tag(Generator(l))[18] == Decimal(l)[0] && Tag(NameGenerator)[18] == 'n' as int;
  }

  function BitGenerators(): (hs: seq<Point>)
    ensures |hs| == M
  {
    seq(M, k requires 0 <= k < M => HashLabel(BitGenerator(k)))
  }

  // ── scalars ────────────────────────────────────────────────────────────────

  function ScalarFromBytes(b: Bytes32): Scalar { R(DecodeBE(b)) }

  function ScalarToBytes(s: Scalar): Bytes32 { EncodeBE(s, 32) }

  lemma ScalarRoundTrip(s: Scalar)
    ensures ScalarFromBytes(ScalarToBytes(s)) == s
  {
    ScalarWidth();
    DecodeEncode(s, 32);
    RScalar(s);
  }

  lemma ScalarWidth()
    ensures Pow256(32) == TWO_256
  {
    assert Pow256(4) == 0x1_0000_0000;
    Pow256Add(4, 4); Pow256Add(8, 8); Pow256Add(16, 16);
  }

  // ── challenges ─────────────────────────────────────────────────────────────

  function PointsToBytes(ps: seq<Point>): (r: seq<seq<byte>>)
    ensures |r| == |ps| && Uniform(r, 33)
  {
    seq(|ps|, i requires 0 <= i < |ps| => PointToBytes(ps[i]))
  }

  /** The statement a registration proof is bound to. */
  datatype Statement = Statement(
    g: Point, pseudonym: Bytes33, nullifier: Bytes33, serviceIndex: nat, setId: Bytes32, nameScalar: Bytes32)

  function StatementBytes(st: Statement): seq<byte> {
    Ascii("CRS-ASC-service-registration-v1") + PointToBytes(st.g) + st.pseudonym + st.nullifier
    + EncodeBE(st.serviceIndex, 8) + st.setId + st.nameScalar
  }

  /** Everything hashed into the challenge: the statement, the shifted set, then A, B, C, D and E. */
  function TranscriptBytes(st: Statement, dSet: seq<Point>, points: seq<Point>): seq<byte> {
    StatementBytes(st) + Flatten(PointsToBytes(dSet)) + Flatten(PointsToBytes(points))
  }

  function Challenge(st: Statement, dSet: seq<Point>, points: seq<Point>): Scalar {
    ScalarFromBytes(SHA256(TranscriptBytes(st, dSet, points)))
  }

  /** The hasher fed a list of points. */
  method Update(hasher: seq<byte>, ps: seq<Point>) returns (r: seq<byte>)
    ensures r == hasher + Flatten(PointsToBytes(ps))
  {
    hide PointToBytes;
    r := hasher;
    for i := 0 to |ps|
      invariant r == hasher + Flatten(PointsToBytes(ps[..i]))
    {
      FlattenPoints(ps[..i], ps[i]);
      assert ps[..i + 1] == ps[..i] + [ps[i]];
      r := r + PointToBytes(ps[i]);
    }
    assert ps[..|ps|] == ps;
  }

  /** The incremental hasher sees the same bytes. */
  method FiatShamirChallenge(st: Statement, dSet: seq<Point>, a: Point, b: Point, c: Point, d: Point,
                             ePoly: seq<Point>) returns (x: Scalar)
    ensures x == Challenge(st, dSet, [a, b, c, d] + ePoly)
  {
    hide *;
    var hasher := Update(StatementBytes(st), dSet);
    hasher := hasher + PointToBytes(a) + PointToBytes(b) + PointToBytes(c) + PointToBytes(d);
    hasher := Update(hasher, ePoly);
    ChallengeInput(hasher, st, dSet, a, b, c, d, ePoly);
    x := ScalarFromBytes(SHA256(hasher));
  }

  lemma ChallengeInput(h: seq<byte>, st: Statement, dSet: seq<Point>, a: Point, b: Point, c: Point, d: Point,
                       es: seq<Point>)
    requires h == StatementBytes(st) + Flatten(PointsToBytes(dSet))
      + PointToBytes(a) + PointToBytes(b) + PointToBytes(c) + PointToBytes(d) + Flatten(PointsToBytes(es))
    ensures ScalarFromBytes(SHA256(h)) == Challenge(st, dSet, [a, b, c, d] + es)
  {
    hide StatementBytes, PointToBytes, PointsToBytes, Flatten;
    FlattenFour(a, b, c, d);
    FlattenConcat([a, b, c, d], es);
    assert h == TranscriptBytes(st, dSet, [a, b, c, d] + es);
  }

  lemma FlattenFour(a: Point, b: Point, c: Point, d: Point)
    ensures Flatten(PointsToBytes([a, b, c, d]))
         == PointToBytes(a) + PointToBytes(b) + PointToBytes(c) + PointToBytes(d)
  {
    hide PointToBytes, PointsToBytes;
    FlattenPoints([a, b, c], d); FlattenPoints([a, b], c); FlattenPoints([a], b); FlattenPoints([], a);
    assert [a, b, c, d] == [a, b, c] + [d] && [a, b, c] == [a, b] + [c] && [a, b] == [a] + [b] && [a] == [] + [a];
    assert Flatten(PointsToBytes([])) == [] by { FlattenEmpty(); }
  }

  lemma FlattenEmpty()
    ensures Flatten(PointsToBytes([])) == []
  {}

  lemma {:induction false} FlattenConcat(ps: seq<Point>, qs: seq<Point>)
    ensures Flatten(PointsToBytes(ps + qs)) == Flatten(PointsToBytes(ps)) + Flatten(PointsToBytes(qs))
  {
    hide PointToBytes, PointsToBytes, Flatten;
    if qs == [] {
      assert ps + qs == ps;
      FlattenEmpty();
    } else {
      var init, last := qs[..|qs| - 1], qs[|qs| - 1];
      FlattenConcat(ps, init);
      FlattenPoints(ps + init, last);
      FlattenPoints(init, last);
      assert qs == init + [last] && ps + qs == ps + init + [last];
    }
  }

  lemma FlattenPoints(ps: seq<Point>, p: Point)
    ensures Flatten(PointsToBytes(ps + [p])) == Flatten(PointsToBytes(ps)) + PointToBytes(p)
  {
    assert PointsToBytes(ps + [p])[..|ps|] == PointsToBytes(ps);
  }

  /** The challenge input determines the whole statement and the first message:
      two transcripts over sets of one size that hash the same bytes are equal. */
  lemma TranscriptBinds(st: Statement, ds: seq<Point>, ps: seq<Point>, st': Statement, ds': seq<Point>, ps': seq<Point>)
    requires |ds| == |ds'|
    requires st.serviceIndex < Pow256(8) && st'.serviceIndex < Pow256(8)
    requires TranscriptBytes(st, ds, ps) == TranscriptBytes(st', ds', ps')
    ensures st == st' && ds == ds' && ps == ps'
  {
    hide StatementBytes, PointsToBytes, Flatten;
    var s, s' := StatementBytes(st), StatementBytes(st');
    var f, f' := Flatten(PointsToBytes(ds)), Flatten(PointsToBytes(ds'));
    assert |s| == |s'| by { StatementLength(st); StatementLength(st'); }
    FlattenLength(PointsToBytes(ds), 33); FlattenLength(PointsToBytes(ds'), 33);
    SplitHead(s + f, Flatten(PointsToBytes(ps)), s' + f', Flatten(PointsToBytes(ps')));
    SplitHead(s, f, s', f');
    StatementBinds(st, st');
    FlattenInjective(ds, ds');
    FlattenInjective(ps, ps');
  }

  lemma StatementLength(st: Statement)
    ensures |StatementBytes(st)| == |Ascii("CRS-ASC-service-registration-v1")| + 171
  {
    hide Ascii;
  }

  lemma StatementBinds(st: Statement, st': Statement)
    requires st.serviceIndex < Pow256(8) && st'.serviceIndex < Pow256(8)
    requires StatementBytes(st) == StatementBytes(st')
    ensures st == st'
  {
    hide Ascii;
    var s0, s0' := Ascii("CRS-ASC-service-registration-v1") + PointToBytes(st.g),
                   Ascii("CRS-ASC-service-registration-v1") + PointToBytes(st'.g);
    var s1, s1' := s0 + st.pseudonym, s0' + st'.pseudonym;
    var s2, s2' := s1 + st.nullifier, s1' + st'.nullifier;
    var s3, s3' := s2 + EncodeBE(st.serviceIndex, 8), s2' + EncodeBE(st'.serviceIndex, 8);
    SplitTail(s3 + st.setId, st.nameScalar, s3' + st'.setId, st'.nameScalar);
    SplitTail(s3, st.setId, s3', st'.setId);
    SplitTail(s2, EncodeBE(st.serviceIndex, 8), s2', EncodeBE(st'.serviceIndex, 8));
    SplitTail(s1, st.nullifier, s1', st'.nullifier);
    SplitTail(s0, st.pseudonym, s0', st'.pseudonym);
    SplitTail(Ascii("CRS-ASC-service-registration-v1"), PointToBytes(st.g),
              Ascii("CRS-ASC-service-registration-v1"), PointToBytes(st'.g));
    DecodeEncode(st.serviceIndex, 8); DecodeEncode(st'.serviceIndex, 8);
    PointRoundTrip(st.g); PointRoundTrip(st'.g);
  }

  lemma FlattenInjective(ps: seq<Point>, qs: seq<Point>)
    requires Flatten(PointsToBytes(ps)) == Flatten(PointsToBytes(qs))
    ensures ps == qs
  {
    var bs, cs := PointsToBytes(ps), PointsToBytes(qs);
    FlattenDetermines(bs, cs, 33);
    forall i | 0 <= i < |ps| ensures ps[i] == qs[i] {
      assert bs[i] == cs[i];
      PointRoundTrip(ps[i]); PointRoundTrip(qs[i]);
    }
  }

  // ── Schnorr challenges ─────────────────────────────────────────────────────

  /** tag || g || key || R */
  function SchnorrBytes(tag: string, g: Point, key: Bytes33, nonce: Point): seq<byte> {
    Ascii(tag) + PointToBytes(g) + key + PointToBytes(nonce)
  }

  function NullifierInput(g: Point, nullifier: Bytes33, nonce: Point): seq<byte> {
    SchnorrBytes("CRS-ASC-schnorr-nullifier", g, nullifier, nonce)
  }

  function RequestInput(g: Point, pseudonym: Bytes33, nonce: Point): seq<byte> {
    SchnorrBytes("CRS-ASC-schnorr-child-auth", g, pseudonym, nonce)
  }

  function SchnorrChallenge(g: Point, nullifier: Bytes33, nonce: Point): Scalar {
    ScalarFromBytes(SHA256(NullifierInput(g, nullifier, nonce)))
  }

  /** Under one tag the input determines base point, key and nonce. */
  lemma SchnorrBinds(tag: string, g: Point, key: Bytes33, nonce: Point, g': Point, key': Bytes33, nonce': Point)
    requires SchnorrBytes(tag, g, key, nonce) == SchnorrBytes(tag, g', key', nonce')
    ensures g == g' && key == key' && nonce == nonce'
  {
    hide Ascii, PointToBytes;
    var s, s' := Ascii(tag) + PointToBytes(g), Ascii(tag) + PointToBytes(g');
    SplitTail(s + key, PointToBytes(nonce), s' + key', PointToBytes(nonce'));
    SplitTail(s, key, s', key');
    TailsAgree(tag, PointToBytes(g), PointToBytes(g'));
    PointRoundTrip(g); PointRoundTrip(g');
    PointRoundTrip(nonce); PointRoundTrip(nonce');
  }

  lemma SchnorrTag(tag: string, g: Point, key: Bytes33, nonce: Point, i: nat)
    requires i < |tag|
    ensures i < |SchnorrBytes(tag, g, key, nonce)| && SchnorrBytes(tag, g, key, nonce)[i] == (tag[i] as int) % 256
  {
    hide PointToBytes;
  }

  lemma TranscriptTag(st: Statement, ds: seq<Point>, ps: seq<Point>)
    ensures 9 < |TranscriptBytes(st, ds, ps)| && TranscriptBytes(st, ds, ps)[9] == 'e' as int
  {
    hide StatementBytes;
    StatementTag(st);
  }

  lemma StatementTag(st: Statement)
    ensures 9 < |StatementBytes(st)| && StatementBytes(st)[9] == 'e' as int
  {
    hide PointToBytes, EncodeBE;
    assert Ascii("CRS-ASC-service-registration-v1")[9] == 'e' as int;
  }

  /** The three kinds of challenge never share an input. */
  lemma InputsApart(g: Point, nullifier: Bytes33, nonce: Point, g': Point, pseudonym: Bytes33, nonce': Point,
                    st: Statement, ds: seq<Point>, ps: seq<Point>)
    ensures NullifierInput(g, nullifier, nonce) != RequestInput(g', pseudonym, nonce')
    ensures TranscriptBytes(st, ds, ps) != NullifierInput(g, nullifier, nonce)
    ensures TranscriptBytes(st, ds, ps) != RequestInput(g', pseudonym, nonce')
  {
    hide SchnorrBytes, TranscriptBytes;
    TranscriptTag(st, ds, ps);
    SchnorrTag("CRS-ASC-schnorr-nullifier", g, nullifier, nonce, 9);
    SchnorrTag("CRS-ASC-schnorr-child-auth", g', pseudonym, nonce', 9);
    SchnorrTag("CRS-ASC-schnorr-nullifier", g, nullifier, nonce, 16);
    SchnorrTag("CRS-ASC-schnorr-child-auth", g', pseudonym, nonce', 16);
  }
}
