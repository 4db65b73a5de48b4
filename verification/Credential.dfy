/** Nullifiers, master credentials and payment requests
    (src/core/nullifier.rs, src/core/credential.rs, src/core/request.rs). */
module Credential {
  import opened Bytes
  import opened Crs
  import opened Field
  import opened Group
  import opened IndexHiding
  import opened PaymentIdentity
  import opened Primitives
  import opened ProofTheorems

  // ── nullifiers ─────────────────────────────────────────────────────────────

  /** s_l = HKDF(salt = name, key material = master secret) */
  function DeriveNullifier(sk: Bytes32, name: seq<byte>): Bytes32 {
    HKDF(KeyBlock(name), sk, Ascii("CRS-ASC-nullifier"))
  }

  function DeriveAllNullifiers(sk: Bytes32, names: seq<seq<byte>>): (r: seq<Bytes32>)
    ensures |r| == |names|
  {
    seq(|names|, i requires 0 <= i < |names| => DeriveNullifier(sk, names[i]))
  }

  function DerivePublicNullifier(sk: Bytes32, name: seq<byte>, g: Point): Bytes33 {
    PointToBytes(SMul(ScalarFromBytes(DeriveNullifier(sk, name)), g))
  }

  // ── master credentials ─────────────────────────────────────────────────────

  datatype MasterCredential = MasterCredential(
    phi: Bytes33, sk: Bytes32, r: Bytes32, k: Bytes32, friendlyName: seq<byte>)

  function NullifierScalars(cred: MasterCredential, crs: Crs): (r: seq<Bytes32>)
    ensures |r| == |crs.merchants|
  {
    DeriveAllNullifiers(cred.sk, Names(crs))
  }

  function NameScalar(cred: MasterCredential): Bytes32 { SHA256(cred.friendlyName) }

  function RecomputePhi(cred: MasterCredential, crs: Crs): Bytes33 {
    Commitment(crs, NullifierScalars(cred, crs), cred.k, NameScalar(cred)).value
  }

  function Create(crs: Crs, sk: Bytes32, r: Bytes32, k: Bytes32, friendlyName: seq<byte>): MasterCredential {
    var blank: Bytes33 := Zeros(33);
    var cred := MasterCredential(blank, sk, r, k, friendlyName);
    cred.(phi := RecomputePhi(cred, crs))
  }

  function PublicNullifier(cred: MasterCredential, crs: Crs, l: nat): Bytes33
    requires ValidService(crs, l)
  {
    DerivePublicNullifier(cred.sk, crs.merchants[l - 1].name, crs.g)
  }

  /** The credential's commitment was made under a CRS with these generators and names. */
  predicate MadeUnder(cred: MasterCredential, crs: Crs) {
    cred.phi == RecomputePhi(cred, crs)
  }

  /** A created credential holds the opening its registration proofs need: at any
      position where its commitment sits, with its own derived nullifiers, and its
      public nullifier is the one belonging to the scalar revealed at service l. */
  lemma CredentialOpens(crs: Crs, cred: MasterCredential, members: seq<Bytes33>, index: nat, l: nat)
    requires MadeUnder(cred, crs) && index < |members| && members[index] == cred.phi && ValidService(crs, l)
    ensures Holds(crs, members, index, NullifierScalars(cred, crs), cred.k, NameScalar(cred))
    ensures PublicNullifier(cred, crs, l)
         == PointToBytes(SMul(ScalarFromBytes(NullifierScalars(cred, crs)[l - 1]), crs.g))
  {
    hide MasterPoint, ScalarFromBytes, PointToBytes, SMul, ToScalars, DeriveAllNullifiers, NameScalar,
      DerivePublicNullifier;
    NullifierAt(cred, crs, l);
  }

  lemma NullifierAt(cred: MasterCredential, crs: Crs, l: nat)
    requires ValidService(crs, l)
    ensures PublicNullifier(cred, crs, l)
      == PointToBytes(SMul(ScalarFromBytes(NullifierScalars(cred, crs)[l - 1]), crs.g))
  {
    hide ScalarFromBytes, PointToBytes, SMul;
    assert Names(crs)[l - 1] == crs.merchants[l - 1].name;
  }

  /** Creating a credential commits to the given secrets under the CRS it was created with. */
  lemma CreatedUnder(crs: Crs, sk: Bytes32, r: Bytes32, k: Bytes32, friendlyName: seq<byte>)
    ensures MadeUnder(Create(crs, sk, r, k, friendlyName), crs)
    ensures var cred := Create(crs, sk, r, k, friendlyName);
      cred == MasterCredential(cred.phi, sk, r, k, friendlyName)
  {
    hide MasterPoint, ScalarFromBytes, PointToBytes;
  }

  // ── payment requests ───────────────────────────────────────────────────────

  datatype RequestProof = RequestProof(r: Bytes33, s: Bytes32)

  /** csk_l = HKDF(salt = name, key material = child randomness) */
  function ChildSecret(r: Bytes32, name: seq<byte>): Scalar {
    ScalarFromBytes(HKDF(KeyBlock(name), r, Ascii("CRS-ASC-child-secret-key")))
  }

  function Pseudonym(r: Bytes32, name: seq<byte>, g: Point): Bytes33 {
    PointToBytes(SMul(ChildSecret(r, name), g))
  }

  function RequestChallenge(g: Point, pseudonym: Bytes33, nonce: Point): Scalar {
    ScalarFromBytes(SHA256(RequestInput(g, pseudonym, nonce)))
  }

  function ProveRequest(r: Bytes32, name: seq<byte>, g: Point, t: Scalar): RequestProof {
    var nonce := SMul(t, g);
    RequestProof(PointToBytes(nonce),
      ScalarToBytes(Add(t, Mul(RequestChallenge(g, Pseudonym(r, name, g), nonce), ChildSecret(r, name)))))
  }

  predicate VerifyRequest(g: Point, pseudonym: Bytes33, proof: RequestProof) {
    match (PointFromBytes(proof.r), PointFromBytes(pseudonym))
    case (Some(nonce), Some(phi)) =>
      SchnorrHolds(g, phi, nonce, RequestChallenge(g, pseudonym, nonce), ScalarFromBytes(proof.s))
    case _ => false
  }

  /** s·g == R + e·φ */
  predicate SchnorrHolds(g: Point, phi: Point, nonce: Point, e: Scalar, s: Scalar) {
    SMul(s, g) == PAdd(nonce, SMul(e, phi))
  }

  /** Every honest request verifies, whatever the nonce. */
  lemma HonestRequestVerifies(r: Bytes32, name: seq<byte>, g: Point, t: Scalar)
    ensures VerifyRequest(g, Pseudonym(r, name, g), ProveRequest(r, name, g, t))
  {
    hide R, Add, Mul, SMul, PAdd, ScalarFromBytes, ScalarToBytes, PointFromBytes, PointToBytes, ChildSecret,
      RequestChallenge;
    var csk, e := ChildSecret(r, name), RequestChallenge(g, Pseudonym(r, name, g), SMul(t, g));
    PointRoundTrip(SMul(t, g)); PointRoundTrip(SMul(csk, g));
    ScalarRoundTrip(Add(t, Mul(e, csk)));
    SchnorrEquation(g, t, e, csk);
  }

  /** What an accepted request is: its pseudonym decodes to some φ, and its nonce is s·g - e·φ
      for the challenge hashed from base point, pseudonym and that very nonce. */
  lemma VerifyRequestExactly(g: Point, pseudonym: Bytes33, proof: RequestProof)
    ensures VerifyRequest(g, pseudonym, proof) <==>
      && PointFromBytes(pseudonym).Some? && PointFromBytes(proof.r).Some?
      && var nonce, phi := PointFromBytes(proof.r).value, PointFromBytes(pseudonym).value;
         nonce == PSub(SMul(ScalarFromBytes(proof.s), g),
                       SMul(ScalarFromBytes(SHA256(RequestInput(g, pseudonym, nonce))), phi))
  {
    hide SMul, PAdd, PSub, ScalarFromBytes, PointFromBytes, RequestInput;
    if PointFromBytes(pseudonym).Some? && PointFromBytes(proof.r).Some? {
      var nonce := PointFromBytes(proof.r).value;
      var ephi := SMul(RequestChallenge(g, pseudonym, nonce), PointFromBytes(pseudonym).value);
      PSubPAdd(nonce, ephi);
      PSubPAdd(SMul(ScalarFromBytes(proof.s), g), ephi);
    }
  }

  /** Accepted requests hashed from one input are the same request: one base point, one
      pseudonym, one nonce and, when g is not the identity, one answer. */
  lemma OneRequestPerInput(g: Point, pseudonym: Bytes33, proof: RequestProof,
                           g': Point, pseudonym': Bytes33, proof': RequestProof)
    requires VerifyRequest(g, pseudonym, proof) && VerifyRequest(g', pseudonym', proof')
    requires RequestInput(g, pseudonym, PointFromBytes(proof.r).value)
          == RequestInput(g', pseudonym', PointFromBytes(proof'.r).value)
    ensures g == g' && pseudonym == pseudonym' && PointFromBytes(proof.r) == PointFromBytes(proof'.r)
    ensures g != Identity() ==> ScalarFromBytes(proof.s) == ScalarFromBytes(proof'.s)
  {
    hide SMul, PAdd, ScalarFromBytes, PointFromBytes, SchnorrBytes;
    SchnorrBinds("CRS-ASC-schnorr-child-auth", g, pseudonym, PointFromBytes(proof.r).value,
                 g', pseudonym', PointFromBytes(proof'.r).value);
    if g != Identity() { LogUnique(g, ScalarFromBytes(proof.s), ScalarFromBytes(proof'.s)); }
  }

  /** The secret computed from two answers to one nonce. */
  ghost function ExtractSecret(e: Scalar, s: Scalar, e': Scalar, s': Scalar): Scalar {
    R((s as int - s' as int) * Inv(e as int - e' as int))
  }

  lemma SchnorrAt(g: Point, phi: Point, nonce: Point, e: Scalar, s: Scalar, c: nat)
    requires c < D && SchnorrHolds(g, phi, nonce, e, s)
    ensures Cong(s as int * g[c] as int, nonce[c] as int + e as int * phi[c] as int)
  {
    hide R, Add;
    assert SMul(s, g)[c] == Mul(s, g[c]);
    assert PAdd(nonce, SMul(e, phi))[c] == Add(nonce[c], Mul(e, phi[c]));
    RScalar(nonce[c]);
    MulAdd(nonce[c], e, phi[c]);
  }

  lemma SecretAt(g: int, phi: int, n: int, e: Scalar, s: Scalar, e': Scalar, s': Scalar)
    requires e != e'
    requires Cong(s as int * g, n + e as int * phi) && Cong(s' as int * g, n + e' as int * phi)
    ensures Cong(ExtractSecret(e, s, e', s') as int * g, phi)
  {
    hide R, Inv;
    var ds, de := s as int - s' as int, e as int - e' as int;
    Soundness.DifferentUnit(e, e');
    var i := Inv(de);
    CongAdd(s as int * g, n + e as int * phi, s' as int * g, n + e' as int * phi);
    DifferenceOfProducts(s, s', g); DifferenceOfProducts(e, e', phi);
    CongR(ds * i);
    CongMul(R(ds * i), ds * i, g, g);
    CongMul(ds * g, de * phi, i, i);
    InverseExists(de);
    InverseTimes(de, i, phi);
    assert ds * i * g == ds * g * i;
  }

  lemma DifferenceOfProducts(a: int, b: int, c: int)
    ensures a * c - b * c == (a - b) * c
  {}

  /** Special soundness of the Schnorr proof: two accepting answers to different
      challenges for one nonce point give the secret behind the pseudonym, and it is
      the only one when g is not the identity. */
  lemma RequestSpecialSoundness(g: Point, phi: Point, nonce: Point, e: Scalar, s: Scalar, e': Scalar, s': Scalar)
    requires e != e' && SchnorrHolds(g, phi, nonce, e, s) && SchnorrHolds(g, phi, nonce, e', s')
    ensures SMul(ExtractSecret(e, s, e', s'), g) == phi
    ensures g != Identity() ==> forall w: Scalar :: SMul(w, g) == phi ==> w == ExtractSecret(e, s, e', s')
  {
    hide R, PAdd, SMul, ExtractSecret;
    var w := ExtractSecret(e, s, e', s');
    forall c: nat | c < D ensures SMul(w, g)[c] == phi[c] {
      SchnorrAt(g, phi, nonce, e, s, c); SchnorrAt(g, phi, nonce, e', s', c);
      SecretAt(g[c], phi[c], nonce[c], e, s, e', s');
      MultipleAt(w, g, c);
      RScalar(phi[c]);
    }
    if g != Identity() {
      forall v: Scalar | SMul(v, g) == phi ensures v == w { LogUnique(g, v, w); }
    }
  }

  lemma MultipleAt(w: Scalar, g: Point, c: nat)
    requires c < D
    ensures SMul(w, g)[c] == R(w as int * g[c] as int)
  {}
}
