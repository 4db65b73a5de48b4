/** Why every member of a set must decode. The verifier takes an undecodable member for
    the identity (src/core/payment_identity.rs:440-443), which zero secrets open; so what
    soundness and the Sybil bound say of a set holds exactly when all of it decodes. */
module DecodableSets {
  import opened Bytes
  import opened Completeness
  import opened Crs
  import opened Extraction
  import opened Field
  import opened Group
  import opened OneOfMany
  import opened PaymentIdentity
  import opened Primitives
  import opened ProofTheorems
  import opened Soundness

  predicate Undecodable(members: seq<Bytes33>, index: nat) {
    index < |members| && PointFromBytes(members[index]).None?
  }

  // ── zero secrets ───────────────────────────────────────────────────────────

  function ZeroSecrets(n: nat): (r: seq<Scalar>)
    ensures |r| == n
  {
    seq(n, i => 0)
  }

  lemma {:induction false} ZerosOpen(ps: seq<Point>)
    ensures Opens(Identity(), ZeroSecrets(|ps|), ps)
  {
    if ps != [] {
      var n := |ps| - 1;
      ZerosOpen(ps[..n]);
      assert ZeroSecrets(|ps|)[..n] == ZeroSecrets(n);
      assert SMul(0, ps[n]) == Identity() by { ZeroTimes(ps[n]); }
      hide SMul, PAdd, Identity;
      IdentityPlus(Identity());
    }
  }

  lemma ZeroTimes(p: Point)
    ensures SMul(0, p) == Identity()
  {
    forall i | 0 <= i < D ensures Mul(0, p[i]) == 0 {
      assert 0 * p[i] as int == 0;
      RScalar(0);
    }
  }

  lemma ZerosOpenUndecodable(members: seq<Bytes33>, index: nat, shift: Point, act: seq<Point>)
    requires Undecodable(members, index)
    ensures Opens(ShiftedSet(members, shift)[index], ZeroSecrets(|act|), act)
  {
    hide Opens, Identity, PSub;
    ZerosOpen(act);
  }

  // ── a proof without secrets ────────────────────────────────────────────────

  /** The honest answers to zero secrets at some index, with any scalar revealed. */
  function SecretlessProof(crs: Crs, members: seq<Bytes33>, index: nat, l: nat, setId: Bytes32, pseudonym: Bytes33,
                           nullifierScalar: Bytes32, nameScalar: Bytes32, coins: Coins): RegistrationProof
    requires |members| == N && ValidService(crs, l) && |coins.rho| == |crs.merchants| + 1
  {
    var act, bits := ActiveGenerators(crs, l), BitsOf(index);
    var sl := ScalarFromBytes(nullifierScalar);
    var nullifier := PointToBytes(SMul(sl, crs.g));
    var dSet := ShiftedSet(members, ShiftFor(crs, l, nullifierScalar));
    var msg := FirstMessage(crs.g, act, dSet, bits, coins);
    var x := ChallengeFor(StatementFor(crs, l, setId, pseudonym, nullifier, nameScalar), dSet, msg);
    EncodeProof(msg, Respond(bits, ZeroSecrets(|act|), coins, x), SMul(coins.nonce, crs.g),
                SchnorrAnswer(crs.g, nullifier, sl, coins.nonce), nullifierScalar, nameScalar)
  }

  /** Whatever scalar, name and pseudonym are claimed, it passes if its member does not decode. */
  lemma SecretlessVerifies(crs: Crs, members: seq<Bytes33>, index: nat, l: nat, setId: Bytes32, pseudonym: Bytes33,
                           nullifierScalar: Bytes32, nameScalar: Bytes32, coins: Coins)
    requires |members| == N && ValidService(crs, l) && |coins.rho| == |crs.merchants| + 1 && Undecodable(members, index)
    ensures Verify(crs, members, l, setId, pseudonym, PointToBytes(SMul(ScalarFromBytes(nullifierScalar), crs.g)),
      SecretlessProof(crs, members, index, l, setId, pseudonym, nullifierScalar, nameScalar, coins))
  {
    hide R, Lin, SMul, PAdd, FirstMessage, Respond, Accepts, BitsOf, SchnorrAnswer, SchnorrAccepts, ScalarFromBytes,
      ScalarToBytes, ChallengeFor, DecodeMessage, DecodeAnswers, Opens, ShiftedMember, ZeroSecrets;
    var act, bits, sl := ActiveGenerators(crs, l), BitsOf(index), ScalarFromBytes(nullifierScalar);
    var nullifier := PointToBytes(SMul(sl, crs.g));
    var dSet := ShiftedSet(members, ShiftFor(crs, l, nullifierScalar));
    var zeros := ZeroSecrets(|act|);
    var msg := FirstMessage(crs.g, act, dSet, bits, coins);
    var x := ChallengeFor(StatementFor(crs, l, setId, pseudonym, nullifier, nameScalar), dSet, msg);
    ZerosOpenUndecodable(members, index, ShiftFor(crs, l, nullifierScalar), act);
    RespondLength(bits, zeros, coins, x);
    HonestAccepts(crs.g, act, dSet, index, zeros, coins, x);
    var ans, s := Respond(bits, zeros, coins, x), SchnorrAnswer(crs.g, nullifier, sl, coins.nonce);
    MessageRoundTrip(msg, ans, SMul(coins.nonce, crs.g), s, nullifierScalar, nameScalar);
    AnswersRoundTrip(msg, ans, SMul(coins.nonce, crs.g), s, nullifierScalar, nameScalar);
    HonestSchnorr(crs.g, sl, coins.nonce, nullifier);
  }

  // ── soundness holds exactly for sets that decode ───────────────────────────

  function ZeroCoins(n: nat): (c: Coins)
    ensures |c.rho| == n
  {
    var z: Scalars := Repeat(0, M);
    Coins(z, 0, 0, 0, 0, Repeat(z, n), 0)
  }

  /** 0, 1, … M */
  function SmallChallenges(): (xs: seq<Scalar>)
    requires M < Q
    ensures |xs| == M + 1
  {
    seq(M + 1, i requires 0 <= i < M + 1 => i)
  }

  /** Zero secrets answered at M + 1 challenges; the set does not enter. */
  function SecretlessTranscripts(index: nat, n: nat): (ts: seq<Transcript>)
    requires M < Q
    ensures |ts| == M + 1 && forall i :: 0 <= i < |ts| ==> |ts[i].ans.zs| == n
  {
    HonestTranscripts(BitsOf(index), ZeroSecrets(n), ZeroCoins(n), SmallChallenges())
  }

  ghost function SecretlessMessage(crs: Crs, members: seq<Bytes33>, index: nat, l: nat,
                                   nullifierScalar: Bytes32): Message
    requires |members| == N && ValidService(crs, l)
  {
    var act := ActiveGenerators(crs, l);
    FirstMessage(crs.g, act, ShiftedSet(members, ShiftFor(crs, l, nullifierScalar)), BitsOf(index), ZeroCoins(|act|))
  }

  /** They form a fork that exhibits no relation and leads to the undecodable member. */
  lemma SecretlessFork(crs: Crs, members: seq<Bytes33>, index: nat, l: nat, nullifierScalar: Bytes32)
    requires |members| == N && ValidService(crs, l) && Undecodable(members, index) && M < Q
    ensures var ts := SecretlessTranscripts(index, |crs.merchants| + 1);
      && ForkedStatement(crs, members, l, nullifierScalar,
                         SecretlessMessage(crs, members, index, l, nullifierScalar), ts)
      && Extracts(crs.g, ts, index, ZeroSecrets(|crs.merchants| + 1))
  {
    hide R, Lin, Forked, Extracts, FirstMessage, BitsOf, Respond, ShiftedSet, ShiftFor, ZeroSecrets, ZeroCoins,
      ActiveGenerators,
      SmallChallenges, Opens;
    var act, n := ActiveGenerators(crs, l), |crs.merchants| + 1;
    var ts := SecretlessTranscripts(index, n);
    ZerosOpenUndecodable(members, index, ShiftFor(crs, l, nullifierScalar), act);
    ChallengesAre(index, n);
    ExtractorInvertsProver(crs.g, act, ShiftedSet(members, ShiftFor(crs, l, nullifierScalar)), index, ZeroSecrets(n),
                           ZeroCoins(n), ts);
  }

  lemma ChallengesAre(index: nat, n: nat)
    requires M < Q
    ensures var ts := SecretlessTranscripts(index, n);
      Challenges(ts) == SmallChallenges() && DistinctChallenges(ts)
  {
    hide BitsOf, Respond, ZeroSecrets, ZeroCoins;
  }

  /** The fork leads to a member that is a point and opens with the revealed scalar. */
  ghost predicate LeadsToCommitment(crs: Crs, members: seq<Bytes33>, l: nat, nullifierScalar: Bytes32,
                                    ts: seq<Transcript>)
    requires ValidService(crs, l) && 2 <= |ts| && forall i :: 0 <= i < |ts| ==> |ts[i].ans.zs| == |crs.merchants| + 1
  {
    && MemberOpened(crs, members, l, nullifierScalar, ExtractedIndex(ts), ExtractedOpening(crs, l, nullifierScalar, ts))
    && PointFromBytes(members[ExtractedIndex(ts)]).Some?
  }

  /** Every fork leads to a commitment of the set, or exhibits a relation. */
  ghost predicate SoundFor(crs: Crs, members: seq<Bytes33>, l: nat, nullifierScalar: Bytes32) {
    forall msg: Message, ts: seq<Transcript> :: ForkedStatement(crs, members, l, nullifierScalar, msg, ts) ==>
      BreaksBinding(crs.g, ts) || LeadsToCommitment(crs, members, l, nullifierScalar, ts)
  }

  /** The exact condition: soundness holds for a set if and only if every member decodes. */
  lemma SoundExactlyWhenDecodable(crs: Crs, members: seq<Bytes33>, l: nat, nullifierScalar: Bytes32)
    requires |members| == N && ValidService(crs, l) && M < Q
    ensures SoundFor(crs, members, l, nullifierScalar) <==> AllDecode(members)
  {
    if AllDecode(members) {
      forall msg, ts | ForkedStatement(crs, members, l, nullifierScalar, msg, ts)
        ensures BreaksBinding(crs.g, ts) || LeadsToCommitment(crs, members, l, nullifierScalar, ts)
      {
        DecodableIsSound(crs, members, l, nullifierScalar, msg, ts);
      }
    } else {
      hide ForkedStatement, BreaksBinding, ExtractedIndex, ExtractedOpening, SecretlessTranscripts, SecretlessMessage,
        MemberOpened;
      var index :| 0 <= index < |members| && PointFromBytes(members[index]).None?;
      SecretlessFork(crs, members, index, l, nullifierScalar);
      var msg, ts := SecretlessMessage(crs, members, index, l, nullifierScalar),
                     SecretlessTranscripts(index, |crs.merchants| + 1);
      assert ForkedStatement(crs, members, l, nullifierScalar, msg, ts);
    }
  }

  lemma DecodableIsSound(crs: Crs, members: seq<Bytes33>, l: nat, nullifierScalar: Bytes32, msg: Message,
                         ts: seq<Transcript>)
    requires AllDecode(members) && ForkedStatement(crs, members, l, nullifierScalar, msg, ts)
    ensures |ts| == M + 1 && forall i :: 0 <= i < |ts| ==> |ts[i].ans.zs| == |crs.merchants| + 1
    ensures BreaksBinding(crs.g, ts) || LeadsToCommitment(crs, members, l, nullifierScalar, ts)
  {
    ForkedParts(crs, members, l, nullifierScalar, msg, ts);
    ForkOpensMember(crs, members, l, nullifierScalar, msg, ts);
    hide ForkedStatement, BreaksBinding, ExtractedIndex, ExtractedOpening;
  }
}
