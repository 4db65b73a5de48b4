/** Completeness, soundness and index hiding of whole registration proofs. */
module ProofTheorems {
  import opened Bytes
  import opened Completeness
  import opened Crs
  import opened Field
  import opened Group
  import opened IndexHiding
  import opened Matrices
  import opened OneOfMany
  import opened PaymentIdentity
  import opened Primitives
  import opened Soundness

  /** Removing service l from the commitment leaves the active part. */
  lemma ActivePart(crs: Crs, l: nat, k: Scalar, ss: seq<Scalar>, name: Scalar)
    requires ValidService(crs, l) && |ss| == |crs.generators|
    ensures PAdd(Lin(ActiveSecrets(k, ss, l, name), ActiveGenerators(crs, l)), SMul(ss[l - 1], crs.generators[l - 1]))
         == MasterPoint(crs, k, ss, name)
  {
    hide R, Lin, PAdd, SMul;
    var w, act, h := ActiveSecrets(k, ss, l, name), ActiveGenerators(crs, l), crs.generators[l - 1];
    var lhs, rhs := PAdd(Lin(w, act), SMul(ss[l - 1], h)), MasterPoint(crs, k, ss, name);
    forall c: nat | c < D ensures lhs[c] == rhs[c] {
      ActivePartAt(crs, l, k, ss, name, c);
    }
  }

  lemma ActivePartAt(crs: Crs, l: nat, k: Scalar, ss: seq<Scalar>, name: Scalar, c: nat)
    requires ValidService(crs, l) && |ss| == |crs.generators| && c < D
    ensures PAdd(Lin(ActiveSecrets(k, ss, l, name), ActiveGenerators(crs, l)),
      SMul(ss[l - 1], crs.generators[l - 1]))[c]
         == MasterPoint(crs, k, ss, name)[c]
  {
    hide R, Lin, PAdd, SMul, Add, Mul, Dot;
    var w, act, h, s := ActiveSecrets(k, ss, l, name), ActiveGenerators(crs, l), crs.generators[l - 1], ss[l - 1];
    LinCoord(w, act, c);
    LinCoord([k] + ss + [name], IdentityGenerators(crs), c);
    Axpy(Lin(w, act), s, h, c);
    MulAdd(Dot(w, act, c), s, h[c]);
    SplitDot(crs.g, crs.generators, crs.hName, l, k, ss, name, c);
  }

  lemma SplitDot(g: Point, hs: seq<Point>, hn: Point, l: nat, k: Scalar, ss: seq<Scalar>, name: Scalar, c: nat)
    requires 1 <= l <= |hs| == |ss| && c < D
    ensures Dot([k] + ss + [name], [g] + hs + [hn], c)
         == Dot([k] + ss[..l - 1] + ss[l..] + [name], [g] + hs[..l - 1] + hs[l..] + [hn], c)
          + ss[l - 1] as int * hs[l - 1][c] as int
  {
    hide Dot;
    var a, b, p, q := [k] + ss[..l - 1], ss[l..] + [name], [g] + hs[..l - 1], hs[l..] + [hn];
    assert [k] + ss + [name] == a + ([ss[l - 1]] + b) && [g] + hs + [hn] == p + ([hs[l - 1]] + q);
    assert a + b == [k] + ss[..l - 1] + ss[l..] + [name] && p + q == [g] + hs[..l - 1] + hs[l..] + [hn];
    DotAppend(a, [ss[l - 1]] + b, p, [hs[l - 1]] + q, c);
    DotAppend([ss[l - 1]], b, [hs[l - 1]], q, c);
    DotAppend(a, b, p, q, c);
    DotSingle(ss[l - 1], hs[l - 1], c);
  }

  // ── completeness ───────────────────────────────────────────────────────────

  /** The member made from these secrets is at this position. */
  predicate Holds(crs: Crs, members: seq<Bytes33>, index: nat, nullifiers: seq<Bytes32>, blinding: Bytes32,
                  nameScalar: Bytes32) {
    index < |members| && Commitment(crs, nullifiers, blinding, nameScalar) == Some(members[index])
  }

  lemma ShiftedOpens(crs: Crs, members: seq<Bytes33>, index: nat, l: nat, nullifiers: seq<Bytes32>, blinding: Bytes32,
                     nameScalar: Bytes32)
    requires ValidService(crs, l) && |nullifiers| == |crs.generators|
    requires Holds(crs, members, index, nullifiers, blinding, nameScalar)
    ensures Opens(ShiftedSet(members, ShiftFor(crs, l, nullifiers[l - 1]))[index],
      ActiveSecrets(ScalarFromBytes(blinding), ToScalars(nullifiers), l, ScalarFromBytes(nameScalar)),
      ActiveGenerators(crs, l))
  {
    hide R, Lin, PAdd, SMul, PSub, ScalarFromBytes, MasterPoint;
    var k, ss, name := ScalarFromBytes(blinding), ToScalars(nullifiers), ScalarFromBytes(nameScalar);
    PointRoundTrip(MasterPoint(crs, k, ss, name));
    ActivePart(crs, l, k, ss, name);
    PSubPAdd(Lin(ActiveSecrets(k, ss, l, name), ActiveGenerators(crs, l)), SMul(ss[l - 1], crs.generators[l - 1]));
  }

  lemma MessageRoundTrip(msg: Message, ans: Answers, nonce: Point, s: Scalar, ns: Bytes32, nm: Bytes32)
    ensures DecodeMessage(EncodeProof(msg, ans, nonce, s, ns, nm)) == Some(msg)
  {
    hide ScalarToBytes;
    PointRoundTrip(msg.a); PointRoundTrip(msg.b); PointRoundTrip(msg.c); PointRoundTrip(msg.d);
    forall i | 0 <= i < M ensures PointFromBytes(EncodePoints(msg.e)[i]) == Some(msg.e[i]) { PointRoundTrip(msg.e[i]); }
    assert DecodePoints(EncodePoints(msg.e)).value == msg.e;
  }

  lemma ScalarsRoundTrip(ss: seq<Scalar>)
    ensures ToScalars(EncodeScalars(ss)) == ss
  {
    hide ScalarFromBytes, ScalarToBytes;
    forall i | 0 <= i < |ss| ensures ScalarFromBytes(ScalarToBytes(ss[i])) == ss[i] { ScalarRoundTrip(ss[i]); }
  }

  lemma AnswersRoundTrip(msg: Message, ans: Answers, nonce: Point, s: Scalar, ns: Bytes32, nm: Bytes32)
    ensures DecodeAnswers(EncodeProof(msg, ans, nonce, s, ns, nm)) == ans
  {
    hide ScalarFromBytes, ScalarToBytes;
    ScalarsRoundTrip(ans.f); ScalarsRoundTrip(ans.zs);
    ScalarRoundTrip(ans.zA); ScalarRoundTrip(ans.zC);
  }

  /** (t + e·s)·g == t·g + e·(s·g) */
  lemma SchnorrEquation(g: Point, t: Scalar, e: Scalar, s: Scalar)
    ensures SMul(Add(t, Mul(e, s)), g) == PAdd(SMul(t, g), SMul(e, SMul(s, g)))
  {
    hide R, Add, Mul;
    forall c: nat | c < D
      ensures Mul(Add(t, Mul(e, s)), g[c]) == Add(Mul(t, g[c]), Mul(e, Mul(s, g[c])))
    {
      SchnorrScalar(t, e, s, g[c]);
    }
  }

  lemma SchnorrScalar(t: Scalar, e: Scalar, s: Scalar, d: Scalar)
    ensures Mul(Add(t, Mul(e, s)), d) == Add(Mul(t, d), Mul(e, Mul(s, d)))
  {
    hide R;
    var t', e', s', d': int := t, e, s, d;
    RScalar(t); RScalar(e); RScalar(s); RScalar(d);
    var es, sd, td := e' * s', s' * d', t' * d';
    var left, right := t' + es, e' * sd;
    assert left * d' == td + right by { assert es * d' == right; }
    ROps(e', s'); ROps(t', es); ROps(left, d');
    ROps(t', d'); ROps(s', d'); ROps(e', sd); ROps(td, right);
  }

  lemma HonestSchnorr(g: Point, secret: Scalar, nonce: Scalar, nullifier: Bytes33)
    requires nullifier == PointToBytes(SMul(secret, g))
    ensures SchnorrAccepts(g, nullifier, PointToBytes(SMul(nonce, g)),
      ScalarToBytes(SchnorrAnswer(g, nullifier, secret, nonce)))
  {
    hide R, Add, Mul, SMul, PAdd, ScalarToBytes, ScalarFromBytes, SchnorrChallenge;
    PointRoundTrip(SMul(nonce, g)); PointRoundTrip(SMul(secret, g));
    ScalarRoundTrip(SchnorrAnswer(g, nullifier, secret, nonce));
    SchnorrEquation(g, nonce, SchnorrChallenge(g, nullifier, SMul(nonce, g)), secret);
  }

  /** What the prover makes of the secrets behind a member when it reveals the given name scalar. */
  function ProofNaming(crs: Crs, members: seq<Bytes33>, index: nat, l: nat, setId: Bytes32, blinding: Bytes32,
                       nullifiers: seq<Bytes32>, pseudonym: Bytes33, nullifier: Bytes33, nameScalar: Bytes32,
                       revealed: Bytes32, coins: Coins): RegistrationProof
    requires |members| == N && index < N && ValidService(crs, l)
    requires |nullifiers| == |crs.merchants| && |coins.rho| == |crs.merchants| + 1
  {
    var act, bits := ActiveGenerators(crs, l), BitsOf(index);
    var dSet := ShiftedSet(members, ShiftFor(crs, l, nullifiers[l - 1]));
    var secrets := ActiveSecrets(ScalarFromBytes(blinding), ToScalars(nullifiers), l, ScalarFromBytes(nameScalar));
    var msg := FirstMessage(crs.g, act, dSet, bits, coins);
    var x := ChallengeFor(StatementFor(crs, l, setId, pseudonym, nullifier, revealed), dSet, msg);
    EncodeProof(msg, Respond(bits, secrets, coins, x), SMul(coins.nonce, crs.g),
                SchnorrAnswer(crs.g, nullifier, ScalarFromBytes(nullifiers[l - 1]), coins.nonce),
                nullifiers[l - 1], revealed)
  }

  /** The name a proof reveals is not the one committed to: over every opened member, and for
      every name scalar revealed, there is an accepted proof that reveals it. */
  lemma RevealedNameIsFree(crs: Crs, members: seq<Bytes33>, index: nat, l: nat, setId: Bytes32, blinding: Bytes32,
                           nullifiers: seq<Bytes32>, pseudonym: Bytes33, nullifier: Bytes33, nameScalar: Bytes32,
                           revealed: Bytes32, coins: Coins)
    requires |members| == N && ValidService(crs, l)
    requires |nullifiers| == |crs.merchants| && |coins.rho| == |crs.merchants| + 1
    requires Holds(crs, members, index, nullifiers, blinding, nameScalar)
    requires nullifier == PointToBytes(SMul(ScalarFromBytes(nullifiers[l - 1]), crs.g))
    ensures var proof := ProofNaming(crs, members, index, l, setId, blinding, nullifiers, pseudonym, nullifier,
                                     nameScalar, revealed, coins);
      Verify(crs, members, l, setId, pseudonym, nullifier, proof) && proof.nameScalar == revealed
  {
    hide R, Lin, SMul, PAdd, FirstMessage, Respond, Accepts, BitsOf, SchnorrAnswer, SchnorrAccepts, ScalarFromBytes,
      ScalarToBytes, ChallengeFor, DecodeMessage, DecodeAnswers, Opens, ShiftedMember;
    var act, bits := ActiveGenerators(crs, l), BitsOf(index);
    var sl := ScalarFromBytes(nullifiers[l - 1]);
    var dSet := ShiftedSet(members, ShiftFor(crs, l, nullifiers[l - 1]));
    var secrets := ActiveSecrets(ScalarFromBytes(blinding), ToScalars(nullifiers), l, ScalarFromBytes(nameScalar));
    var msg := FirstMessage(crs.g, act, dSet, bits, coins);
    var x := ChallengeFor(StatementFor(crs, l, setId, pseudonym, nullifier, revealed), dSet, msg);
    ShiftedOpens(crs, members, index, l, nullifiers, blinding, nameScalar);
    RespondLength(bits, secrets, coins, x);
    HonestAccepts(crs.g, act, dSet, index, secrets, coins, x);
    var ans, s := Respond(bits, secrets, coins, x), SchnorrAnswer(crs.g, nullifier, sl, coins.nonce);
    MessageRoundTrip(msg, ans, SMul(coins.nonce, crs.g), s, nullifiers[l - 1], revealed);
    AnswersRoundTrip(msg, ans, SMul(coins.nonce, crs.g), s, nullifiers[l - 1], revealed);
    HonestSchnorr(crs.g, sl, coins.nonce, nullifier);
  }

  lemma ProveNamesItself(crs: Crs, members: seq<Bytes33>, index: nat, l: nat, setId: Bytes32, blinding: Bytes32,
                         nullifiers: seq<Bytes32>, pseudonym: Bytes33, nullifier: Bytes33, nameScalar: Bytes32,
                         coins: Coins)
    requires |members| == N && index < N && AllDecode(members) && ValidService(crs, l)
    requires |nullifiers| == |crs.merchants| && |coins.rho| == |crs.merchants| + 1
    ensures Prove(crs, members, index, l, setId, blinding, nullifiers, pseudonym, nullifier, nameScalar, coins)
      == Ok(ProofNaming(crs, members, index, l, setId, blinding, nullifiers, pseudonym, nullifier, nameScalar,
                        nameScalar, coins))
  {
    hide R, SMul, ActiveGenerators, BitsOf, ShiftedSet, ShiftFor, ActiveSecrets, ScalarFromBytes, ToScalars,
      FirstMessage, ChallengeFor, StatementFor, Respond, SchnorrAnswer, EncodeProof, PointFromBytes;
  }

  /** Completeness: whatever the parameters, the position, the service, the secrets
      and the coins, an honest proof is produced and accepted. */
  lemma HonestProofVerifies(crs: Crs, members: seq<Bytes33>, index: nat, l: nat, setId: Bytes32, blinding: Bytes32,
                            nullifiers: seq<Bytes32>, pseudonym: Bytes33, nullifier: Bytes33, nameScalar: Bytes32,
                            coins: Coins)
    requires |members| == N && AllDecode(members) && ValidService(crs, l)
    requires |nullifiers| == |crs.merchants| && |coins.rho| == |crs.merchants| + 1
    requires Holds(crs, members, index, nullifiers, blinding, nameScalar)
    requires nullifier == PointToBytes(SMul(ScalarFromBytes(nullifiers[l - 1]), crs.g))
    ensures var proof :=
        Prove(crs, members, index, l, setId, blinding, nullifiers, pseudonym, nullifier, nameScalar, coins);
      proof.Ok? && Verify(crs, members, l, setId, pseudonym, nullifier, proof.value)
  {
    RevealedNameIsFree(crs, members, index, l, setId, blinding, nullifiers, pseudonym, nullifier, nameScalar,
                       nameScalar, coins);
    ProveNamesItself(crs, members, index, l, setId, blinding, nullifiers, pseudonym, nullifier, nameScalar, coins);
    hide *;
  }

  // ── soundness ──────────────────────────────────────────────────────────────

  /** A commitment point opened to scalars, with s_l at service l. */
  datatype Opening = Opening(k: Scalar, ss: seq<Scalar>, name: Scalar)

  predicate OpensMaster(crs: Crs, p: Point, o: Opening) {
    |o.ss| == |crs.generators| && p == MasterPoint(crs, o.k, o.ss, o.name)
  }

  /** The active secrets with s_l put back in its place. */
  function Reinsert(w: seq<Scalar>, l: nat, sl: Scalar): Opening
    requires 2 <= |w| && 1 <= l <= |w| - 1
  {
    Opening(w[0], w[1..l] + [sl] + w[l..|w| - 1], w[|w| - 1])
  }

  lemma ReinsertActive(w: seq<Scalar>, l: nat, sl: Scalar)
    requires 2 <= |w| && 1 <= l <= |w| - 1
    ensures var o := Reinsert(w, l, sl);
      |o.ss| == |w| - 1 && o.ss[l - 1] == sl && ActiveSecrets(o.k, o.ss, l, o.name) == w
  {
    var o := Reinsert(w, l, sl);
    assert o.ss[..l - 1] == w[1..l] && o.ss[l..] == w[l..|w| - 1];
    assert w == [w[0]] + w[1..l] + w[l..|w| - 1] + [w[|w| - 1]];
  }

  /** A forked statement: accepting answers for the set shifted by the revealed s_l. */
  predicate ForkedStatement(crs: Crs, members: seq<Bytes33>, l: nat, nullifierScalar: Bytes32, msg: Message,
                            ts: seq<Transcript>) {
    ValidService(crs, l) &&
    Forked(crs.g, ActiveGenerators(crs, l), ShiftedSet(members, ShiftFor(crs, l, nullifierScalar)), msg, ts)
  }

  ghost function ExtractedOpening(crs: Crs, l: nat, nullifierScalar: Bytes32, ts: seq<Transcript>): (o: Opening)
    requires ValidService(crs, l) && 0 < |ts|
    requires forall i :: 0 <= i < |ts| ==> |ts[i].ans.zs| == |crs.merchants| + 1
    ensures |o.ss| == |crs.generators|
  {
    Reinsert(ExtractedSecrets(ts, |crs.merchants| + 1), l, ScalarFromBytes(nullifierScalar))
  }

  /** The extractor's claim: this member, if it is a point at all, opens with exactly the
      revealed s_l on h_l and nothing outside g, h_1 … h_L and h_name. */
  ghost predicate MemberOpened(crs: Crs, members: seq<Bytes33>, l: nat, nullifierScalar: Bytes32, index: nat,
                               o: Opening)
    requires ValidService(crs, l)
  {
    && index < |members|
    && |o.ss| == |crs.generators| && o.ss[l - 1] == ScalarFromBytes(nullifierScalar)
    && (PointFromBytes(members[index]).Some? ==> OpensMaster(crs, PointFromBytes(members[index]).value, o))
  }

  /** Soundness of a registration: forked answers open one member, or they give a
      relation between g and the bit generators. */
  lemma ForkOpensMember(crs: Crs, members: seq<Bytes33>, l: nat, nullifierScalar: Bytes32, msg: Message,
                        ts: seq<Transcript>)
    requires ForkedStatement(crs, members, l, nullifierScalar, msg, ts)
    ensures BreaksBinding(crs.g, ts) ||
      MemberOpened(crs, members, l, nullifierScalar, ExtractedIndex(ts), ExtractedOpening(crs, l, nullifierScalar, ts))
  {
    ForkedParts(crs, members, l, nullifierScalar, msg, ts);
    hide *;
    var act, shift := ActiveGenerators(crs, l), ShiftFor(crs, l, nullifierScalar);
    SpecialSoundness(crs.g, act, ShiftedSet(members, shift), msg, ts);
    if !BreaksBinding(crs.g, ts) {
      UnshiftMember(crs, members, l, nullifierScalar, ExtractedIndex(ts), ExtractedSecrets(ts, |act|));
      OpeningDef(crs, l, nullifierScalar, ts);
    }
  }

  lemma ForkedParts(crs: Crs, members: seq<Bytes33>, l: nat, nullifierScalar: Bytes32, msg: Message,
                    ts: seq<Transcript>)
    requires ForkedStatement(crs, members, l, nullifierScalar, msg, ts)
    ensures ValidService(crs, l) && |members| == N && |ts| == M + 1
    ensures forall i :: 0 <= i < |ts| ==> |ts[i].ans.zs| == |crs.merchants| + 1
    ensures Forked(crs.g, ActiveGenerators(crs, l), ShiftedSet(members, ShiftFor(crs, l, nullifierScalar)), msg, ts)
  {
    hide Accepts, ShiftFor;
  }

  lemma OpeningDef(crs: Crs, l: nat, nullifierScalar: Bytes32, ts: seq<Transcript>)
    requires ValidService(crs, l) && 0 < |ts|
    requires forall i :: 0 <= i < |ts| ==> |ts[i].ans.zs| == |crs.merchants| + 1
    ensures ExtractedOpening(crs, l, nullifierScalar, ts)
         == Reinsert(ExtractedSecrets(ts, |ActiveGenerators(crs, l)|), l, ScalarFromBytes(nullifierScalar))
  {
    hide ExtractedSecrets, ScalarFromBytes;
  }

  lemma UnshiftMember(crs: Crs, members: seq<Bytes33>, l: nat, nullifierScalar: Bytes32, index: nat, w: seq<Scalar>)
    requires ValidService(crs, l) && index < |members| && |w| == |crs.merchants| + 1
    requires Opens(ShiftedSet(members, ShiftFor(crs, l, nullifierScalar))[index], w, ActiveGenerators(crs, l))
    ensures MemberOpened(crs, members, l, nullifierScalar, index, Reinsert(w, l, ScalarFromBytes(nullifierScalar)))
  {
    hide R, Lin, SMul, PAdd, PSub, MasterPoint, ScalarFromBytes, ActiveGenerators, ActiveSecrets, Reinsert;
    var sl := ScalarFromBytes(nullifierScalar);
    var o := Reinsert(w, l, sl);
    ReinsertActive(w, l, sl);
    ActivePart(crs, l, o.k, o.ss, o.name);
    if PointFromBytes(members[index]).Some? {
      PSubPAdd(PointFromBytes(members[index]).value, SMul(sl, crs.generators[l - 1]));
    }
  }

  /** The points are independent as far as these combinations go: none is a relation. */
  ghost predicate Independent(ps: seq<Point>, known: iset<seq<Scalar>>) {
    forall cs :: cs in known ==> !Relation(cs, ps)
  }

  /** The combinations the extractor forms from a fork. */
  ghost predicate Reaches(known: iset<seq<Scalar>>, ts: seq<Transcript>)
    requires |ts| == M + 1
  {
    EliminateBinary(ts) in known && forall i :: 2 <= i <= M ==> EliminateBits(ts, i) in known
  }

  /** Whatever combinations a prover can find: if g and the bit generators are independent
      as far as these go, and the extractor's are among them, the opening is there. */
  lemma IndependentSoundness(crs: Crs, members: seq<Bytes33>, l: nat, nullifierScalar: Bytes32, msg: Message,
                             ts: seq<Transcript>, known: iset<seq<Scalar>>)
    requires ForkedStatement(crs, members, l, nullifierScalar, msg, ts)
    requires Independent(Base(crs.g), known) && Reaches(known, ts)
    ensures MemberOpened(crs, members, l, nullifierScalar, ExtractedIndex(ts),
                         ExtractedOpening(crs, l, nullifierScalar, ts))
  {
    hide Relation, Forked, ExtractedIndex, ExtractedOpening, MemberOpened, Base, EliminateBits, EliminateBinary;
    ForkOpensMember(crs, members, l, nullifierScalar, msg, ts);
  }

  // ── index hiding ───────────────────────────────────────────────────────────

  /** What a prover holds: its position and the scalars behind its commitment. */
  datatype Prover = Prover(index: nat, blinding: Bytes32, nullifiers: seq<Bytes32>)

  predicate CanProve(crs: Crs, members: seq<Bytes33>, l: nat, nameScalar: Bytes32, p: Prover) {
    && |members| == N && AllDecode(members) && ValidService(crs, l) && |p.nullifiers| == |crs.merchants|
    && Holds(crs, members, p.index, p.nullifiers, p.blinding, nameScalar)
  }

  function ProofOf(crs: Crs, members: seq<Bytes33>, l: nat, setId: Bytes32, pseudonym: Bytes33, nullifier: Bytes33,
                   nameScalar: Bytes32, p: Prover, coins: Coins): Result<RegistrationProof, ProveError>
    requires |coins.rho| == |crs.merchants| + 1
  {
    Prove(crs, members, p.index, l, setId, p.blinding, p.nullifiers, pseudonym, nullifier, nameScalar, coins)
  }

  function SecretsOf(l: nat, nameScalar: Bytes32, p: Prover): (r: seq<Scalar>)
    requires 1 <= l <= |p.nullifiers|
    ensures |r| == |p.nullifiers| + 1
  {
    ActiveSecrets(ScalarFromBytes(p.blinding), ToScalars(p.nullifiers), l, ScalarFromBytes(nameScalar))
  }

  /** The coins with which q sends what p sends with the given coins. */
  ghost function MatchedCoins(crs: Crs, members: seq<Bytes33>, l: nat, setId: Bytes32, pseudonym: Bytes33,
                              nullifier: Bytes33,
                              nameScalar: Bytes32, p: Prover, q: Prover, coins: Coins): (c: Coins)
    requires Generates(crs.g) && CanProve(crs, members, l, nameScalar, p) && CanProve(crs, members, l, nameScalar, q)
    requires |coins.rho| == |crs.merchants| + 1
    ensures |c.rho| == |coins.rho|
  {
    var act, dSet := ActiveGenerators(crs, l), ShiftedSet(members, ShiftFor(crs, l, p.nullifiers[l - 1]));
    var msg := FirstMessage(crs.g, act, dSet, BitsOf(p.index), coins);
    Transport(crs.g, act, dSet, p.index, SecretsOf(l, nameScalar, p), q.index, SecretsOf(l, nameScalar, q), coins,
              ChallengeFor(StatementFor(crs, l, setId, pseudonym, nullifier, nameScalar), dSet, msg))
  }

  /** Index hiding: two members with the same s_l at this service send, for matching
      coins, the very same bytes; and the matching is a bijection on coins. */
  lemma ProofHidesIndex(crs: Crs, members: seq<Bytes33>, l: nat, setId: Bytes32, pseudonym: Bytes33, nullifier: Bytes33,
                        nameScalar: Bytes32, p: Prover, q: Prover, coins: Coins)
    requires Generates(crs.g) && CanProve(crs, members, l, nameScalar, p) && CanProve(crs, members, l, nameScalar, q)
    requires p.nullifiers[l - 1] == q.nullifiers[l - 1] && |coins.rho| == |crs.merchants| + 1
    ensures var c := MatchedCoins(crs, members, l, setId, pseudonym, nullifier, nameScalar, p, q, coins);
      && ProofOf(crs, members, l, setId, pseudonym, nullifier, nameScalar, q, c)
      == ProofOf(crs, members, l, setId, pseudonym, nullifier, nameScalar, p, coins)
      && MatchedCoins(crs, members, l, setId, pseudonym, nullifier, nameScalar, q, p, c) == coins
  {
    hide R, Lin, SMul, PAdd, FirstMessage, Respond, BitsOf, ScalarFromBytes, ChallengeFor, Generates, Transport, Opens,
      SchnorrAnswer, EncodeProof, ShiftedSet, ShiftFor, ActiveGenerators, ActiveSecrets, Holds, AllDecode;
    var act, dSet := ActiveGenerators(crs, l), ShiftedSet(members, ShiftFor(crs, l, p.nullifiers[l - 1]));
    var msg := FirstMessage(crs.g, act, dSet, BitsOf(p.index), coins);
    var x := ChallengeFor(StatementFor(crs, l, setId, pseudonym, nullifier, nameScalar), dSet, msg);
    HoldsInside(crs, members, l, nameScalar, p); HoldsInside(crs, members, l, nameScalar, q);
    ShiftedOpens(crs, members, p.index, l, p.nullifiers, p.blinding, nameScalar);
    ShiftedOpens(crs, members, q.index, l, q.nullifiers, q.blinding, nameScalar);
    SameTranscript(crs.g, act, dSet, p.index, SecretsOf(l, nameScalar, p), q.index, SecretsOf(l, nameScalar, q), coins,
                   x);
  }

  lemma HoldsInside(crs: Crs, members: seq<Bytes33>, l: nat, nameScalar: Bytes32, p: Prover)
    requires CanProve(crs, members, l, nameScalar, p)
    ensures p.index < N
  {}
}
