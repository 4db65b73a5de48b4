/** What an accepted proof is tied to: its statement, and the revealed scalar. */
module ProofBinding {
  import opened Bytes
  import opened Completeness
  import opened Crs
  import opened Field
  import opened Group
  import opened IndexHiding
  import opened OneOfMany
  import opened PaymentIdentity
  import opened Primitives
  import opened ProofTheorems
  import opened VerifierTable

  /** One set of answers passes the first check at two challenges only if B is the identity. */
  lemma TwoChallenges(g: Point, msg: Message, x: Scalar, x': Scalar, ans: Answers)
    requires CheckBits(g, msg, x, ans) && CheckBits(g, msg, x', ans) && x != x'
    ensures msg.b == Identity()
  {
    hide R, Lin, PAdd, PSub, SMul, Identity;
    var p, p', f := PAdd(msg.a, SMul(x, msg.b)), PAdd(msg.a, SMul(x', msg.b)), Lin(ans.f, BitGenerators());
    PSubPAdd(p, f); PSubPAdd(p', f);
    PAddCommutes(msg.a, SMul(x, msg.b)); PAddCommutes(msg.a, SMul(x', msg.b));
    PAddCancel(SMul(x, msg.b), SMul(x', msg.b), msg.a);
    if msg.b != Identity() { LogUnique(msg.b, x, x'); }
  }

  /** All that a registration proof is checked against. */
  datatype Claim = Claim(members: seq<Bytes33>, l: nat, setId: Bytes32, pseudonym: Bytes33, nullifier: Bytes33)

  predicate Passes(crs: Crs, c: Claim, proof: RegistrationProof) {
    Verify(crs, c.members, c.l, c.setId, c.pseudonym, c.nullifier, proof)
  }

  /** The challenge input of a proof for a claim. */
  function HashInput(crs: Crs, c: Claim, proof: RegistrationProof): seq<byte>
    requires Passes(crs, c, proof)
  {
    var msg := DecodeMessage(proof).value;
    TranscriptBytes(StatementFor(crs, c.l, c.setId, c.pseudonym, c.nullifier, proof.nameScalar),
      ShiftedSet(c.members, ShiftFor(crs, c.l, proof.nullifierScalar)), [msg.a, msg.b, msg.c, msg.d] + msg.e)
  }

  /** The challenge input of an accepted proof determines everything it speaks about: base
      point, service, set id, pseudonym, nullifier, name, shifted set and first message. */
  lemma HashInputDetermines(crs: Crs, c: Claim, proof: RegistrationProof,
                            crs': Crs, c': Claim, proof': RegistrationProof)
    requires Passes(crs, c, proof) && Passes(crs', c', proof')
    requires |crs.merchants| < Pow256(8) && |crs'.merchants| < Pow256(8)
    requires HashInput(crs, c, proof) == HashInput(crs', c', proof')
    ensures crs.g == crs'.g && c'.(members := c.members) == c && proof.nameScalar == proof'.nameScalar
    ensures ShiftedSet(c.members, ShiftFor(crs, c.l, proof.nullifierScalar))
         == ShiftedSet(c'.members, ShiftFor(crs', c'.l, proof'.nullifierScalar))
    ensures DecodeMessage(proof) == DecodeMessage(proof')
  {
    hide Accepts, SMul, ShiftedSet, ShiftFor, TranscriptBytes, ActiveGenerators, SchnorrAccepts, ScalarFromBytes,
      DecodeAnswers, DecodePoints, ChallengeFor, Pow256;
    var msg, msg' := DecodeMessage(proof).value, DecodeMessage(proof').value;
    var ps, ps' := [msg.a, msg.b, msg.c, msg.d] + msg.e, [msg'.a, msg'.b, msg'.c, msg'.d] + msg'.e;
    TranscriptBinds(
      StatementFor(crs, c.l, c.setId, c.pseudonym, c.nullifier, proof.nameScalar),
      ShiftedSet(c.members, ShiftFor(crs, c.l, proof.nullifierScalar)), ps,
      StatementFor(crs', c'.l, c'.setId, c'.pseudonym, c'.nullifier, proof'.nameScalar),
      ShiftedSet(c'.members, ShiftFor(crs', c'.l, proof'.nullifierScalar)), ps');
    assert ps[..4] == [msg.a, msg.b, msg.c, msg.d] && ps'[..4] == [msg'.a, msg'.b, msg'.c, msg'.d];
    assert ps[4..] == msg.e && ps'[4..] == msg'.e && ps[0] == msg.a && ps[1] == msg.b && ps[2] == msg.c;
  }

  /** Both claims shift to one set of points. */
  predicate SamePoints(crs: Crs, c: Claim, c': Claim, nullifierScalar: Bytes32) {
    && ValidService(crs, c.l) && ValidService(crs, c'.l)
    && ShiftedSet(c.members, ShiftFor(crs, c.l, nullifierScalar))
      == ShiftedSet(c'.members, ShiftFor(crs, c'.l, nullifierScalar))
  }

  /** One proof, one claim, one name: a proof that passes for two claims differing in service,
      set id, pseudonym, nullifier or shifted set, or passes again under another name scalar,
      comes with two different challenge inputs of one challenge, or its B is the identity. */
  lemma ProofBoundToClaim(crs: Crs, c: Claim, c': Claim, proof: RegistrationProof, proof': RegistrationProof)
    requires Passes(crs, c, proof) && Passes(crs, c', proof') && |crs.merchants| < Pow256(8)
    requires proof == proof'.(nameScalar := proof.nameScalar)
    requires c'.(members := c.members) != c || proof.nameScalar != proof'.nameScalar
      || !SamePoints(crs, c, c', proof.nullifierScalar)
    ensures PointFromBytes(proof.b) == Some(Identity())
      || (HashInput(crs, c, proof) != HashInput(crs, c', proof')
          && ScalarFromBytes(SHA256(HashInput(crs, c, proof))) == ScalarFromBytes(SHA256(HashInput(crs, c', proof'))))
  {
    hide R, Lin, SMul, ShiftedSet, ShiftFor, TranscriptBytes, ActiveGenerators, CheckBits, CheckBinary, CheckMember,
      SchnorrAccepts,
      ScalarFromBytes, DecodePoints, Identity, Pow256;
    var msg, ans := DecodeMessage(proof).value, DecodeAnswers(proof);
    var st := StatementFor(crs, c.l, c.setId, c.pseudonym, c.nullifier, proof.nameScalar);
    var st' := StatementFor(crs, c'.l, c'.setId, c'.pseudonym, c'.nullifier, proof'.nameScalar);
    var ds, ds' := ShiftedSet(c.members, ShiftFor(crs, c.l, proof.nullifierScalar)),
                   ShiftedSet(c'.members, ShiftFor(crs, c'.l, proof.nullifierScalar));
    if HashInput(crs, c, proof) == HashInput(crs, c', proof') { HashInputDetermines(crs, c, proof, crs, c', proof'); }
    if ChallengeFor(st, ds, msg) != ChallengeFor(st', ds', msg) {
      TwoChallenges(crs.g, msg, ChallengeFor(st, ds, msg), ChallengeFor(st', ds', msg), ans);
    }
  }

  /** The Schnorr part of an accepted proof: its nonce is the multiple of g by
      s - e·s_l, for the very scalar the proof reveals. */
  lemma AcceptedNonce(crs: Crs, c: Claim, proof: RegistrationProof, nonce: Point)
    requires Passes(crs, c, proof) && PointFromBytes(proof.schnorrR) == Some(nonce)
    ensures var e := ScalarFromBytes(SHA256(NullifierInput(crs.g, c.nullifier, nonce)));
      nonce == SMul(Sub(ScalarFromBytes(proof.schnorrS), Mul(e, ScalarFromBytes(proof.nullifierScalar))), crs.g)
  {
    hide R, Lin, SMul, PAdd, ShiftedSet, ActiveGenerators, Accepts, Add, Mul, Sub, ScalarFromBytes, DecodeMessage,
      DecodeAnswers,
      ChallengeFor, NullifierInput;
    var g, sl, s := crs.g, ScalarFromBytes(proof.nullifierScalar), ScalarFromBytes(proof.schnorrS);
    var e := SchnorrChallenge(g, c.nullifier, nonce);
    var t := Sub(s, Mul(e, sl));
    PointRoundTrip(SMul(sl, g));
    SchnorrEquation(g, t, e, sl);
    AddSub(s, Mul(e, sl));
    PAddCancel(nonce, SMul(t, g), SMul(e, SMul(sl, g)));
  }

  /** Every accepted proof has such a nonce, and g times its revealed scalar is the nullifier. */
  lemma AcceptedSchnorr(crs: Crs, c: Claim, proof: RegistrationProof)
    requires Passes(crs, c, proof)
    ensures PointFromBytes(proof.schnorrR).Some?
    ensures PointFromBytes(c.nullifier) == Some(SMul(ScalarFromBytes(proof.nullifierScalar), crs.g))
  {
    hide R, SMul, PAdd, ShiftedSet, ActiveGenerators, Accepts, ScalarFromBytes, DecodeMessage, DecodeAnswers,
      ChallengeFor;
    PointRoundTrip(SMul(ScalarFromBytes(proof.nullifierScalar), crs.g));
  }

  // ── accepted requests ──────────────────────────────────────────────────────

  /** What a request to the merchant claims about a set. */
  function ClaimOf(userIndex: nat, q: Request, members: seq<Bytes33>): Claim {
    Claim(members, userIndex, q.setId, q.pseudonym, q.nullifier)
  }

  /** A request is accepted if and only if its set is cached, its proof passes for that set,
      the name scalar it is hashed with is the hash of the friendly name, and nullifier and
      pseudonym are new. */
  lemma AcceptedExactly(t: Table, userIndex: nat, q: Request)
    ensures Accepted(t, userIndex, Register(q)) <==>
      && q.setId in t.setCache && Passes(q.crs, ClaimOf(userIndex, q, t.setCache[q.setId]), q.proof)
      && SHA256(q.friendlyName) == q.proof.nameScalar
      && q.nullifier !in t.nullifiers && q.pseudonym !in t.pseudonyms
  {
    hide Verify;
  }

  /** The challenge input of a request accepted in a state. */
  function InputOf(t: Table, userIndex: nat, q: Request): seq<byte>
    requires Accepted(t, userIndex, Register(q))
  {
    AcceptedExactly(t, userIndex, q);
    HashInput(q.crs, ClaimOf(userIndex, q, t.setCache[q.setId]), q.proof)
  }

  /** No challenge input carries two names: requests accepted anywhere with one input are for
      one identity at one service, and their friendly names have one hash, which is a collision
      unless they agree. */
  lemma OneNamePerInput(t: Table, l: nat, q: Request, t': Table, l': nat, q': Request)
    requires Accepted(t, l, Register(q)) && Accepted(t', l', Register(q'))
    requires |q.crs.merchants| < Pow256(8) && |q'.crs.merchants| < Pow256(8)
    requires InputOf(t, l, q) == InputOf(t', l', q')
    ensures l == l' && q.setId == q'.setId && q.pseudonym == q'.pseudonym && q.nullifier == q'.nullifier
    ensures SHA256(q.friendlyName) == SHA256(q'.friendlyName)
  {
    hide Passes, HashInput, ShiftedSet, ShiftFor, DecodeMessage, Pow256;
    AcceptedExactly(t, l, q); AcceptedExactly(t', l', q');
    HashInputDetermines(q.crs, ClaimOf(l, q, t.setCache[q.setId]), q.proof,
                        q'.crs, ClaimOf(l', q', t'.setCache[q'.setId]), q'.proof);
  }

  /** A merchant never accepts one challenge input twice: whatever it accepts after a request
      was hashed from other bytes. */
  lemma InputsNeverRepeat(userIndex: nat, ops: seq<Op>, q: Request, more: seq<Op>, again: Request)
    requires Accepted(Run(userIndex, ops), userIndex, Register(q))
    requires Accepted(Run(userIndex, ops + [Register(q)] + more), userIndex, Register(again))
    requires |q.crs.merchants| < Pow256(8) && |again.crs.merchants| < Pow256(8)
    ensures InputOf(Run(userIndex, ops), userIndex, q)
         != InputOf(Run(userIndex, ops + [Register(q)] + more), userIndex, again)
  {
    hide InputOf, Accepted, Run, Pow256;
    AcceptedOnceAndForever(userIndex, ops, q, more, again);
    if InputOf(Run(userIndex, ops), userIndex, q)
       == InputOf(Run(userIndex, ops + [Register(q)] + more), userIndex, again)
    {
      OneNamePerInput(Run(userIndex, ops), userIndex, q,
                      Run(userIndex, ops + [Register(q)] + more), userIndex, again);
      assert false;
    }
  }
}
