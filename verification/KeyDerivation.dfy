/** Which secrets and merchants share a nullifier or a pseudonym
    (src/core/nullifier.rs, src/core/request.rs).

    Both are HKDF outputs with the merchant's name as salt. HMAC pads its key with zeros, so
    a name is bound only up to zero bytes at its end, and a name of more than 64 bytes only
    up to its hash.
 */
module KeyDerivation {
  import opened Bytes
  import opened Credential
  import opened Crs
  import opened Field
  import opened Group
  import opened IndexHiding
  import opened PaymentIdentity
  import opened Primitives

  /** What HKDF is applied to. */
  datatype HkdfInput = HkdfInput(block: seq<byte>, keyMaterial: Bytes32, info: seq<byte>)

  function Derived(input: HkdfInput): Bytes32 { HKDF(input.block, input.keyMaterial, input.info) }

  function NullifierSource(sk: Bytes32, name: seq<byte>): HkdfInput {
    HkdfInput(KeyBlock(name), sk, Ascii("CRS-ASC-nullifier"))
  }

  function ChildSource(r: Bytes32, name: seq<byte>): HkdfInput {
    HkdfInput(KeyBlock(name), r, Ascii("CRS-ASC-child-secret-key"))
  }

  /** Two inputs of HKDF are exhibited whose outputs are one scalar. */
  predicate Collide(a: HkdfInput, b: HkdfInput) {
    a != b && ScalarFromBytes(Derived(a)) == ScalarFromBytes(Derived(b))
  }

  // ── which names share a key ────────────────────────────────────────────────

  predicate ZerosApart(a: seq<byte>, b: seq<byte>) {
    || (|a| <= |b| && b == a + Zeros(|b| - |a|))
    || (|b| <= |a| && a == b + Zeros(|a| - |b|))
  }

  /** As HMAC keys the names differ at most in zeros at the end. */
  predicate SameKey(name: seq<byte>, name': seq<byte>) {
    ZerosApart(HmacKey(name), HmacKey(name'))
  }

  lemma PaddedAlike(a: seq<byte>, b: seq<byte>, n: nat)
    requires |a| <= |b| <= n
    ensures a + Zeros(n - |a|) == b + Zeros(n - |b|) <==> b == a + Zeros(|b| - |a|)
  {
    assert (a + Zeros(n - |a|))[..|b|] == a + Zeros(|b| - |a|);
    assert (b + Zeros(n - |b|))[..|b|] == b;
  }

  lemma SameKeyExactly(name: seq<byte>, name': seq<byte>)
    ensures KeyBlock(name) == KeyBlock(name') <==> SameKey(name, name')
  {
    hide HmacKey, Zeros;
    var a, b := HmacKey(name), HmacKey(name');
    if |a| <= |b| { PaddedAlike(a, b, 64); }
    if |b| <= |a| { PaddedAlike(b, a, 64); }
  }

  /** Names of at most 64 bytes that do not end in a zero byte share no key. */
  lemma PlainNamesApart(name: seq<byte>, name': seq<byte>)
    requires |name| <= 64 && |name'| <= 64
    requires (name != [] ==> name[|name| - 1] != 0) && (name' != [] ==> name'[|name'| - 1] != 0)
    ensures SameKey(name, name') <==> name == name'
  {}

  // ── the derivations ────────────────────────────────────────────────────────

  /** The input of a nullifier determines the master secret, and the name up to its key. */
  lemma NullifierSourceBinds(sk: Bytes32, name: seq<byte>, sk': Bytes32, name': seq<byte>)
    ensures NullifierSource(sk, name) == NullifierSource(sk', name') <==> sk == sk' && SameKey(name, name')
  {
    SameKeyExactly(name, name');
  }

  /** The input of a child secret determines the child randomness, and the name up to its key. */
  lemma ChildSourceBinds(r: Bytes32, name: seq<byte>, r': Bytes32, name': seq<byte>)
    ensures ChildSource(r, name) == ChildSource(r', name') <==> r == r' && SameKey(name, name')
  {
    SameKeyExactly(name, name');
  }

  /** The two derivations never share an input. */
  lemma SourcesApart(sk: Bytes32, name: seq<byte>, r: Bytes32, name': seq<byte>)
    ensures NullifierSource(sk, name) != ChildSource(r, name')
  {
    assert Ascii("CRS-ASC-nullifier")[8] != Ascii("CRS-ASC-child-secret-key")[8];
  }

  /** Multiples of a base other than the identity encode alike only when the factors agree. */
  lemma SameEncodedMultiple(g: Point, s: Scalar, t: Scalar)
    requires g != Identity()
    ensures PointToBytes(SMul(s, g)) == PointToBytes(SMul(t, g)) <==> s == t
  {
    hide SMul, Identity;
    PointRoundTrip(SMul(s, g)); PointRoundTrip(SMul(t, g));
    if SMul(s, g) == SMul(t, g) { LogUnique(g, s, t); }
  }

  /** Nullifiers agree if and only if secrets and keys agree, or two HKDF inputs collide. */
  lemma NullifiersAgree(g: Point, sk: Bytes32, name: seq<byte>, sk': Bytes32, name': seq<byte>)
    requires g != Identity()
    ensures DerivePublicNullifier(sk, name, g) == DerivePublicNullifier(sk', name', g) <==>
      (sk == sk' && SameKey(name, name')) || Collide(NullifierSource(sk, name), NullifierSource(sk', name'))
  {
    hide ScalarFromBytes, KeyBlock, SameKey, Identity, Ascii, PointToBytes, SMul;
    NullifierSourceBinds(sk, name, sk', name');
    SameEncodedMultiple(g, ScalarFromBytes(DeriveNullifier(sk, name)), ScalarFromBytes(DeriveNullifier(sk', name')));
  }

  /** The same for pseudonyms. */
  lemma PseudonymsAgree(g: Point, r: Bytes32, name: seq<byte>, r': Bytes32, name': seq<byte>)
    requires g != Identity()
    ensures Pseudonym(r, name, g) == Pseudonym(r', name', g) <==>
      (r == r' && SameKey(name, name')) || Collide(ChildSource(r, name), ChildSource(r', name'))
  {
    hide ScalarFromBytes, KeyBlock, SameKey, Identity, Ascii, PointToBytes, SMul;
    ChildSourceBinds(r, name, r', name');
    SameEncodedMultiple(g, ChildSecret(r, name), ChildSecret(r', name'));
  }

  /** A nullifier that is also a pseudonym comes with colliding HKDF inputs, whatever the
      secrets and the names. */
  lemma NullifierIsNoPseudonym(g: Point, sk: Bytes32, name: seq<byte>, r: Bytes32, name': seq<byte>)
    requires g != Identity()
    ensures DerivePublicNullifier(sk, name, g) == Pseudonym(r, name', g) <==>
      Collide(NullifierSource(sk, name), ChildSource(r, name'))
  {
    hide ScalarFromBytes, KeyBlock, Identity, Ascii, PointToBytes, SMul;
    SourcesApart(sk, name, r, name');
    SameEncodedMultiple(g, ScalarFromBytes(DeriveNullifier(sk, name)), ChildSecret(r, name'));
  }

  /** Of one credential: two merchants of the CRS see one nullifier, or one pseudonym, if and
      only if their names share a key or HKDF inputs collide. */
  lemma MerchantsUnlinked(crs: Crs, cred: MasterCredential, l: nat, l': nat)
    requires crs.g != Identity() && ValidService(crs, l) && ValidService(crs, l')
    ensures var name, name' := crs.merchants[l - 1].name, crs.merchants[l' - 1].name;
      && (PublicNullifier(cred, crs, l) == PublicNullifier(cred, crs, l') <==>
            SameKey(name, name') || Collide(NullifierSource(cred.sk, name), NullifierSource(cred.sk, name')))
      && (Pseudonym(cred.r, name, crs.g) == Pseudonym(cred.r, name', crs.g) <==>
            SameKey(name, name') || Collide(ChildSource(cred.r, name), ChildSource(cred.r, name')))
  {
    hide SameKey, Collide, Identity, Pseudonym, DerivePublicNullifier;
    var name, name' := crs.merchants[l - 1].name, crs.merchants[l' - 1].name;
    NullifiersAgree(crs.g, cred.sk, name, cred.sk, name');
    PseudonymsAgree(crs.g, cred.r, name, cred.r, name');
  }

  /** A name that the name with a zero byte behind it cannot be told from: every master secret
      and every child randomness derives the same at both. */
  lemma ZeroSharesKeys(sk: Bytes32, r: Bytes32, name: seq<byte>)
    requires |name| < 64
    ensures name != name + [0]
    ensures DeriveNullifier(sk, name) == DeriveNullifier(sk, name + [0])
    ensures ChildSecret(r, name) == ChildSecret(r, name + [0])
  {
    hide Ascii, ScalarFromBytes, KeyBlock;
    assert name + [0] == name + Zeros(1);
    SameKeyExactly(name, name + [0]);
  }
}
