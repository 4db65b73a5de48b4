/** Payment identity registration proofs: what the prover sends and what the
    verifier accepts (src/core/payment_identity.rs). */
module PaymentIdentity {
  import opened Bytes
  import opened Crs
  import opened Field
  import opened Group
  import opened OneOfMany
  import opened Primitives

  datatype RawProof = Proof(
    a: Bytes33, b: Bytes33, c: Bytes33, d: Bytes33, ePoly: seq<Bytes33>, f: seq<Bytes32>, zA: Bytes32, zC: Bytes32,
    zResponses: seq<Bytes32>, schnorrR: Bytes33, schnorrS: Bytes32, nullifierScalar: Bytes32, nameScalar: Bytes32)

  function Repeat<T>(x: T, n: nat): (s: seq<T>)
    ensures |s| == n
  {
    seq(n, i => x)
  }

  function BlankProof(): RawProof {
    var p: Bytes33, s: Bytes32 := Zeros(33), Zeros(32);
    Proof(p, p, p, p, Repeat(p, M), Repeat(s, M), s, s, [], p, s, s, s)
  }

  /** e_poly and f are arrays of M entries; z_responses is a vector. */
  type RegistrationProof = p: RawProof | |p.ePoly| == M && |p.f| == M witness BlankProof()

  datatype ProveError =
    | WrongSetSize | IndexOutOfRange | ServiceOutOfRange | WrongNullifierCount
    | UndecodableMember  // the prover panics here

  predicate ValidService(crs: Crs, l: nat) {
    1 <= l <= |crs.merchants|
  }

  /** g, the h_m with m != l, and h_name. */
  function ActiveGenerators(crs: Crs, l: nat): (r: seq<Point>)
    requires ValidService(crs, l)
    ensures |r| == |crs.merchants| + 1 && r[0] == crs.g
  {
    [crs.g] + crs.generators[..l - 1] + crs.generators[l..] + [crs.hName]
  }

  /** k, the s_m with m != l, and the name scalar. */
  function ActiveSecrets(k: Scalar, ss: seq<Scalar>, l: nat, name: Scalar): (r: seq<Scalar>)
    requires 1 <= l <= |ss|
    ensures |r| == |ss| + 1
  {
    [k] + ss[..l - 1] + ss[l..] + [name]
  }

  // ── the shifted set ────────────────────────────────────────────────────────

  predicate AllDecode(members: seq<Bytes33>) {
    forall i :: 0 <= i < |members| ==> PointFromBytes(members[i]).Some?
  }

  /** Φ_i - s_l·h_l; the verifier takes an undecodable member for the identity. */
  function ShiftedMember(member: Bytes33, shift: Point): Point {
    match PointFromBytes(member)
    case Some(p) => PSub(p, shift)
    case None => Identity()
  }

  function ShiftedSet(members: seq<Bytes33>, shift: Point): (r: seq<Point>)
    ensures |r| == |members|
  {
    seq(|members|, i requires 0 <= i < |members| => ShiftedMember(members[i], shift))
  }

  function ShiftFor(crs: Crs, l: nat, nullifierScalar: Bytes32): Point
    requires ValidService(crs, l)
  {
    SMul(ScalarFromBytes(nullifierScalar), crs.generators[l - 1])
  }

  function StatementFor(crs: Crs, l: nat, setId: Bytes32, pseudonym: Bytes33, nullifier: Bytes33,
                        nameScalar: Bytes32): Statement {
    Statement(crs.g, pseudonym, nullifier, l, setId, nameScalar)
  }

  function ChallengeFor(st: Statement, dSet: seq<Point>, msg: Message): Scalar {
    Challenge(st, dSet, [msg.a, msg.b, msg.c, msg.d] + msg.e)
  }

  // ── encoding ───────────────────────────────────────────────────────────────

  function EncodePoints(ps: seq<Point>): (r: seq<Bytes33>)
    ensures |r| == |ps|
  {
    seq(|ps|, i requires 0 <= i < |ps| => PointToBytes(ps[i]))
  }

  function EncodeScalars(ss: seq<Scalar>): (r: seq<Bytes32>)
    ensures |r| == |ss|
  {
    seq(|ss|, i requires 0 <= i < |ss| => ScalarToBytes(ss[i]))
  }

  function EncodeProof(msg: Message, ans: Answers, nonce: Point, s: Scalar, nullifierScalar: Bytes32,
                       nameScalar: Bytes32): RegistrationProof {
    Proof(PointToBytes(msg.a), PointToBytes(msg.b), PointToBytes(msg.c), PointToBytes(msg.d), EncodePoints(msg.e),
          EncodeScalars(ans.f), ScalarToBytes(ans.zA), ScalarToBytes(ans.zC), EncodeScalars(ans.zs),
          PointToBytes(nonce), ScalarToBytes(s), nullifierScalar, nameScalar)
  }

  function DecodePoints(bs: seq<Bytes33>): (r: Option<seq<Point>>)
    ensures r.Some? ==> |r.value| == |bs|
  {
    if forall i :: 0 <= i < |bs| ==> PointFromBytes(bs[i]).Some?
    then Some(seq(|bs|, i requires 0 <= i < |bs| && PointFromBytes(bs[i]).Some? => PointFromBytes(bs[i]).value))
    else None
  }

  function DecodeMessage(proof: RegistrationProof): Option<Message> {
    match (PointFromBytes(proof.a), PointFromBytes(proof.b), PointFromBytes(proof.c), PointFromBytes(proof.d),
           DecodePoints(proof.ePoly))
    case (Some(a), Some(b), Some(c), Some(d), Some(e)) => Some(Message(a, b, c, d, e))
    case _ => None
  }

  function DecodeAnswers(proof: RegistrationProof): Answers {
    Answers(ToScalars(proof.f), ScalarFromBytes(proof.zA), ScalarFromBytes(proof.zC), ToScalars(proof.zResponses))
  }

  // ── prove and verify ───────────────────────────────────────────────────────

  function SchnorrAnswer(g: Point, nullifier: Bytes33, secret: Scalar, nonce: Scalar): Scalar {
    Add(nonce, Mul(SchnorrChallenge(g, nullifier, SMul(nonce, g)), secret))
  }

  predicate SchnorrAccepts(g: Point, nullifier: Bytes33, r: Bytes33, s: Bytes32) {
    match (PointFromBytes(r), PointFromBytes(nullifier))
    case (Some(rp), Some(np)) =>
      SMul(ScalarFromBytes(s), g) == PAdd(rp, SMul(SchnorrChallenge(g, nullifier, rp), np))
    case _ => false
  }

  function Prove(crs: Crs, members: seq<Bytes33>, index: nat, l: nat, setId: Bytes32, blinding: Bytes32,
                 nullifiers: seq<Bytes32>, pseudonym: Bytes33, nullifier: Bytes33, nameScalar: Bytes32, coins: Coins)
    : Result<RegistrationProof, ProveError>
    requires |coins.rho| == |crs.merchants| + 1
  {
    if |members| != N then Err(WrongSetSize)
    else if index >= N then Err(IndexOutOfRange)
    else if !ValidService(crs, l) then Err(ServiceOutOfRange)
    else if |nullifiers| != |crs.merchants| then Err(WrongNullifierCount)
    else if !AllDecode(members) then Err(UndecodableMember)
    else
      var act, bits := ActiveGenerators(crs, l), BitsOf(index);
      var dSet := ShiftedSet(members, ShiftFor(crs, l, nullifiers[l - 1]));
      var secrets := ActiveSecrets(ScalarFromBytes(blinding), ToScalars(nullifiers), l, ScalarFromBytes(nameScalar));
      var msg := FirstMessage(crs.g, act, dSet, bits, coins);
      var x := ChallengeFor(StatementFor(crs, l, setId, pseudonym, nullifier, nameScalar), dSet, msg);
      Ok(EncodeProof(msg, Respond(bits, secrets, coins, x), SMul(coins.nonce, crs.g),
                     SchnorrAnswer(crs.g, nullifier, ScalarFromBytes(nullifiers[l - 1]), coins.nonce),
                     nullifiers[l - 1], nameScalar))
  }

  predicate Verify(crs: Crs, members: seq<Bytes33>, l: nat, setId: Bytes32, pseudonym: Bytes33, nullifier: Bytes33,
                   proof: RegistrationProof)
  {
    && |members| == N && ValidService(crs, l) && |proof.zResponses| == |crs.merchants| + 1
    && var dSet := ShiftedSet(members, ShiftFor(crs, l, proof.nullifierScalar));
       var msg := DecodeMessage(proof);
    && msg.Some?
    && Accepts(crs.g, ActiveGenerators(crs, l), dSet, msg.value,
               ChallengeFor(StatementFor(crs, l, setId, pseudonym, nullifier, proof.nameScalar), dSet, msg.value),
               DecodeAnswers(proof))
    && PointToBytes(SMul(ScalarFromBytes(proof.nullifierScalar), crs.g)) == nullifier
    && SchnorrAccepts(crs.g, nullifier, proof.schnorrR, proof.schnorrS)
  }

  predicate VerifyNameRevelation(nameScalar: Bytes32, name: seq<byte>) {
    SHA256(name) == nameScalar
  }
}
