/** From joining a set to being paid: what an honest member can rely on. */
module EndToEnd {
  import opened Bytes
  import opened Client
  import opened Credential
  import opened Crs
  import opened CrsCodec
  import opened Field
  import opened Membership
  import opened Merkle
  import opened OneOfMany
  import opened PaymentIdentity
  import opened Primitives
  import opened ProofTheorems
  import opened RegistryData
  import Service
  import ServicePromises
  import ServiceSafety
  import VerifierTable

  // ── finding one's place ────────────────────────────────────────────────────

  /** Padding repeats the last member, so first positions are as in the raw set. */
  lemma PlaceInPaddedSet(raw: seq<Bytes33>, phi: Bytes33, index: nat)
    requires NoDuplicates(raw) && |raw| <= N && index < |raw| && raw[index] == phi
    ensures |PaddedSet(raw)| == N && FirstPosition(PaddedSet(raw), phi) == Some(index)
  {
    var xs := PaddedSet(raw);
    forall j | 0 <= j < index ensures xs[..index][j] != phi { assert raw[j] != raw[index]; }
    FirstIs(xs, phi, index);
  }

  lemma PaddedDecodes(raw: seq<Bytes33>)
    ensures AllDecode(PaddedSet(raw)) <==> AllDecode(raw)
  {
    forall i | 0 <= i < |raw| ensures i < |PaddedSet(raw)| && PaddedSet(raw)[i] == raw[i] {}
  }

  /** A member of a sealed set that the run answered with a position. */
  ghost predicate Joined(cfg: Service.Config, before: seq<Service.Event>, e: Service.Event, after: seq<Service.Event>,
                         phi: Bytes33, index: nat, id: Bytes32) {
    var es := before + [e] + after;
    && ServiceSafety.NoResets(es) && ServiceSafety.FreshTxids(cfg, es)
    && ServicePromises.AnswersPosition(cfg, Service.Run(cfg, before), e, phi, index)
    && id in Service.Run(cfg, es).shared.store.activeSets
    && index < |Service.Run(cfg, es).shared.store.activeSets[id].registry.anonymitySet|
  }

  /** What get_anonymity_set and get_crs serve for a sealed set. */
  function SealedSet(cfg: Service.Config, es: seq<Service.Event>, id: Bytes32): ActiveSet
    requires id in Service.Run(cfg, es).shared.store.activeSets
  {
    Service.Run(cfg, es).shared.store.activeSets[id]
  }

  /** When the bytes of a sealed CRS parse back: its counts fit their four bytes, and names and
      origins are text of a printable length. Names are never too long. */
  lemma SealedPrintable(cfg: Service.Config, es: seq<Service.Event>, id: Bytes32)
    requires ServiceSafety.NoResets(es) && ServiceSafety.FreshTxids(cfg, es)
    requires id in Service.Run(cfg, es).shared.store.activeSets
    ensures var crs := SealedSet(cfg, es, id).registry.crs;
      Printable(crs) <==>
      && |crs.merchants| < 0x1_0000_0000 && cfg.capacity < 0x1_0000_0000
      && forall m :: m in crs.merchants ==> IS_UTF8(m.name) && |m.origin| <= 65535 && IS_UTF8(m.origin)
  {
    hide Service.Run, ServiceSafety.FreshTxids, ServiceSafety.NoResets, MerkleRoot, NoDuplicates;
    ServiceSafety.SealedAlwaysInOrder(cfg, es);
    ServicePromises.NamesAlwaysFit(cfg, es);
    var d, crs := Service.Run(cfg, es).shared, SealedSet(cfg, es, id).registry.crs;
    var i :| 0 <= i < |d.sealed| && d.sealed[i] == id;
    assert crs.merchants <= d.registry.merchants;
    assert forall j :: 0 <= j < |crs.merchants| ==> crs.merchants[j] == d.registry.merchants[j];
    assert Pow256(4) == 0x1_0000_0000;
  }

  /** The sealed snapshot holds the member where it was told, and nowhere else; the
      served CRS bytes parse to the sealed CRS. */
  lemma SealedWithMember(cfg: Service.Config, before: seq<Service.Event>, e: Service.Event, after: seq<Service.Event>,
                         phi: Bytes33, index: nat, id: Bytes32)
    requires Joined(cfg, before, e, after, phi, index, id)
    ensures var a := SealedSet(cfg, before + [e] + after, id);
      && ServiceSafety.SnapshotOk(cfg, a) && index < |a.registry.anonymitySet| && a.registry.anonymitySet[index] == phi
      && (Printable(a.registry.crs) ==> FromBytes(ToBytes(a.registry.crs)) == Ok(a.registry.crs))
  {
    hide Service.Run, ServiceSafety.NoResets, ServiceSafety.FreshTxids, ServicePromises.AnswersPosition,
      ServicePromises.Undisturbed,
      ServiceSafety.SnapshotOk, ToBytes, FromBytes;
    var es := before + [e] + after;
    ServicePromises.NoResetsUndisturbed(cfg, before + [e], after);
    ServicePromises.PositionStands(cfg, before, e, after, phi, index);
    ServiceSafety.SealedAlwaysInOrder(cfg, es);
    var d := Service.Run(cfg, es).shared;
    assert id in d.sealed;
    SnapshotCrsParses(cfg, d.store.activeSets[id]);
  }

  lemma SnapshotCrsParses(cfg: Service.Config, a: ActiveSet)
    requires ServiceSafety.SnapshotOk(cfg, a)
    ensures Printable(a.registry.crs) ==> FromBytes(ToBytes(a.registry.crs)) == Ok(a.registry.crs)
  {
    hide ToBytes, FromBytes, MerkleRoot;
    var crs := a.registry.crs;
    if Printable(crs) {
      hide Printable;
      FromBytesToBytes(crs, []);
      assert ToBytes(crs) + [] == ToBytes(crs);
      NumberedIds(crs.merchants, 1);
      assert Numbered(crs.merchants, 1) == crs.merchants;
    }
  }

  /** Whenever a sealed set is asked for later, all three handlers that serve it answer
      with the same padded members and the same CRS bytes. */
  lemma ServedAlike(cfg: Service.Config, es: seq<Service.Event>, more: seq<Service.Event>, id: Bytes32, o: Outside)
    requires ServiceSafety.NoResets(es + more) && ServiceSafety.FreshTxids(cfg, es + more)
    requires id in Service.Run(cfg, es).shared.store.activeSets
    ensures var a, later := SealedSet(cfg, es, id), Service.Run(cfg, es + more).shared;
      var members := Service.MembersSent(PaddedSet(a.registry.anonymitySet), |a.registry.anonymitySet|);
      && Service.Section(cfg, Service.GetAnonymitySet(id), 0, 0, later, o).1 == Service.Finished(members)
      && Service.Section(cfg, Service.Subscribe(id), 1, 0, later, o).1 == Service.Finished(members)
      && Service.Section(cfg, Service.GetCrs(id), 0, 0, later, o).1
        == Service.Finished(Service.CrsSent(ToBytes(a.registry.crs)))
  {
    hide Service.Run, ServiceSafety.NoResets, ServiceSafety.FreshTxids, ToBytes, PaddedSet;
    ServiceSafety.SealedFrozen(cfg, es, more, id);
  }

  // ── the CRS a member builds for itself ─────────────────────────────────────

  /** These clients hold the merchants the registry answered with: each under its own id,
      and together all that are sealed. */
  ghost predicate AnsweredAll(d: Service.Shared, a: ActiveSet, states: seq<MerchantState>) {
    && (forall i :: 0 <= i < |states| ==>
          var m := states[i].merchant;
          1 <= m.merchantId <= |a.registry.merchants| && m.merchantId in d.named && d.named[m.merchantId] == m)
    && (forall i, j :: 0 <= i < j < |states| ==> states[i].merchant.merchantId != states[j].merchant.merchantId)
    && (forall m :: m in a.registry.merchants ==> m in MerchantsOf(states))
  }

  /** A credential created under a CRS built from the answered merchants, in any order,
      was made under the sealed CRS. */
  lemma LocalCredentialFits(cfg: Service.Config, es: seq<Service.Event>, id: Bytes32, states: seq<MerchantState>,
                            size: nat,
                            sk: Bytes32, r: Bytes32, k: Bytes32, friendlyName: seq<byte>)
    requires ServiceSafety.NoResets(es) && ServiceSafety.FreshTxids(cfg, es)
    requires id in Service.Run(cfg, es).shared.store.activeSets
    requires AnsweredAll(Service.Run(cfg, es).shared, SealedSet(cfg, es, id), states)
    ensures MadeUnder(Create(BuildCrs(states, size), sk, r, k, friendlyName), SealedSet(cfg, es, id).registry.crs)
  {
    hide Service.Run, ServiceSafety.NoResets, ServiceSafety.FreshTxids, MadeUnder, Create, BuildCrs, Setup, AnsweredAll,
      ServiceSafety.SnapshotOk, ServiceSafety.PendingOk;
    ServiceSafety.SealedAlwaysInOrder(cfg, es);
    ServiceSafety.PendingAlwaysOk(cfg, es);
    var d := Service.Run(cfg, es).shared;
    assert id in d.sealed;
    AnsweredFits(cfg, d, d.store.activeSets[id], states, size, sk, r, k, friendlyName);
  }

  lemma AnsweredPositions(d: Service.Shared, a: ActiveSet, states: seq<MerchantState>)
    requires forall id :: id in d.named ==>
      1 <= id <= |d.registry.merchants| && d.registry.merchants[id - 1] == d.named[id]
    requires Positions(a.registry.merchants) && AnsweredAll(d, a, states)
    requires a.registry.merchants <= d.registry.merchants
    ensures multiset(MerchantsOf(states)) == multiset(a.registry.merchants)
  {
    var ms, sealed := MerchantsOf(states), a.registry.merchants;
    forall i | 0 <= i < |ms| ensures 1 <= ms[i].merchantId <= |sealed| && ms[i] == sealed[ms[i].merchantId - 1] {
      assert ms[i] == states[i].merchant;
    }
    AnsweredAreSealed(ms, sealed);
  }

  lemma AnsweredFits(cfg: Service.Config, d: Service.Shared, a: ActiveSet, states: seq<MerchantState>, size: nat,
                     sk: Bytes32, r: Bytes32, k: Bytes32, friendlyName: seq<byte>)
    requires ServiceSafety.PendingOk(cfg, d) && ServiceSafety.SnapshotOk(cfg, a) && AnsweredAll(d, a, states)
    requires a.registry.merchants <= d.registry.merchants
    ensures MadeUnder(Create(BuildCrs(states, size), sk, r, k, friendlyName), a.registry.crs)
  {
    hide MadeUnder, Create, BuildCrs, Setup, MerkleRoot, NoDuplicates, AnsweredAll;
    AnsweredPositions(d, a, states);
    CreatedUnderLocalCrs(states, a.registry.merchants, size, cfg.capacity, sk, r, k, friendlyName);
  }

  // ── registering with a merchant ────────────────────────────────────────────

  /** How a registration is put to a merchant's verifier. */
  function RequestOf(crs: Crs, r: PaymentRegistration): VerifierTable.Request {
    VerifierTable.Request(crs, r.pseudonym, r.publicNullifier, r.proof, r.setId, r.friendlyName)
  }

  function PseudonymAt(cred: MasterCredential, crs: Crs, l: nat): Bytes33
    requires ValidService(crs, l)
  {
    Pseudonym(cred.r, crs.merchants[l - 1].name, crs.g)
  }

  /** A member seated where its commitment is can register with every merchant exactly
      when all of its set decodes, and then merchant l's verifier refuses only a stale
      pseudonym or nullifier. */
  lemma SeatedMemberRegisters(m: Member, crs: Crs, l: nat, coins: Coins, t: VerifierTable.Table)
    requires m.seat.Some? && MadeUnder(m.credential, crs) && ValidService(crs, l) && |coins.rho| == |crs.merchants| + 1
    requires var seat := m.seat.value;
      && |seat.anonymitySet| == N && seat.index < N && seat.anonymitySet[seat.index] == m.credential.phi
      && seat.setId in t.setCache && t.setCache[seat.setId] == seat.anonymitySet
    ensures RegistrationFor(m, crs, l, coins).Ok? <==> AllDecode(m.seat.value.anonymitySet)
    ensures var r := RegistrationFor(m, crs, l, coins);
      r.Ok? ==>
        && r.value.serviceIndex == l && r.value.friendlyName == m.credential.friendlyName
        && r.value.pseudonym == PseudonymAt(m.credential, crs, l)
        && r.value.publicNullifier == PublicNullifier(m.credential, crs, l)
        && VerifierTable.Refusal(t, l, RequestOf(crs, r.value))
           == if r.value.publicNullifier in t.nullifiers then Some(VerifierTable.NullifierAlreadyUsed)
              else if r.value.pseudonym in t.pseudonyms then Some(VerifierTable.PseudonymAlreadyUsed) else None
  {
    hide Verify, Pseudonym, PublicNullifier, NullifierScalars, MadeUnder, ProofTheorems.Holds, Challenge, AllDecode;
    var cred, seat := m.credential, m.seat.value;
    if AllDecode(seat.anonymitySet) {
      CredentialOpens(crs, cred, seat.anonymitySet, seat.index, l);
      HonestProofVerifies(crs, seat.anonymitySet, seat.index, l, seat.setId, cred.k, NullifierScalars(cred, crs),
                          PseudonymAt(cred, crs, l), PublicNullifier(cred, crs, l), NameScalar(cred), coins);
      ProofRevealsName(crs, seat.anonymitySet, seat.index, l, seat.setId, cred.k, NullifierScalars(cred, crs),
                       PseudonymAt(cred, crs, l), PublicNullifier(cred, crs, l), NameScalar(cred), coins);
    } else {
      UndecodableStops(crs, seat.anonymitySet, seat.index, l, seat.setId, cred.k, NullifierScalars(cred, crs),
                       PseudonymAt(cred, crs, l), PublicNullifier(cred, crs, l), NameScalar(cred), coins);
    }
  }

  /** The prover gives up on a set with an undecodable member. */
  lemma UndecodableStops(crs: Crs, members: seq<Bytes33>, index: nat, l: nat, setId: Bytes32, blinding: Bytes32,
                         nullifiers: seq<Bytes32>, pseudonym: Bytes33, nullifier: Bytes33, nameScalar: Bytes32,
                         coins: Coins)
    requires |coins.rho| == |crs.merchants| + 1 && !AllDecode(members)
    ensures Prove(crs, members, index, l, setId, blinding, nullifiers, pseudonym, nullifier, nameScalar, coins).Err?
  {
    hide ActiveSecrets, FirstMessage, Respond, ChallengeFor, ShiftedSet, AllDecode;
  }

  lemma ProofRevealsName(crs: Crs, members: seq<Bytes33>, index: nat, l: nat, setId: Bytes32, blinding: Bytes32,
                         nullifiers: seq<Bytes32>, pseudonym: Bytes33, nullifier: Bytes33, nameScalar: Bytes32,
                         coins: Coins)
    requires |coins.rho| == |crs.merchants| + 1
    ensures var p :=
        Prove(crs, members, index, l, setId, blinding, nullifiers, pseudonym, nullifier, nameScalar, coins);
      p.Ok? ==> p.value.nameScalar == nameScalar
  {
    hide ActiveSecrets, FirstMessage, Respond, ChallengeFor, ShiftedSet, AllDecode;
  }

  /** A member ready to register at merchant l on a sealed set: its commitment was made
      under the sealed CRS, the merchant's verifier caches the served set, and the
      member's nullifier and pseudonym are fresh there. */
  predicate Ready(a: ActiveSet, id: Bytes32, cred: MasterCredential, l: nat, t: VerifierTable.Table) {
    var crs := a.registry.crs;
    && Printable(crs) && MadeUnder(cred, crs) && ValidService(crs, l)
    && id in t.setCache && t.setCache[id] == PaddedSet(a.registry.anonymitySet)
    && PublicNullifier(cred, crs, l) !in t.nullifiers && PseudonymAt(cred, crs, l) !in t.pseudonyms
  }

  /** The member parses the served CRS, finds itself at index in the served set, and
      registers there with a proof the verifier accepts. */
  predicate RegistersAt(a: ActiveSet, id: Bytes32, m: Member, index: nat, l: nat, coins: Coins, t: VerifierTable.Table)
    requires |coins.rho| == |a.registry.crs.merchants| + 1
  {
    var served := PaddedSet(a.registry.anonymitySet);
    var seated := Seated(m, id, served);
    && FromBytes(ToBytes(a.registry.crs)) == Ok(a.registry.crs)
    && seated.seat == Some(Seat(id, index, served))
    && var r := RegistrationFor(seated, a.registry.crs, l, coins);
    && r.Ok? && VerifierTable.Refusal(t, l, RequestOf(a.registry.crs, r.value)).None?
  }

  lemma SnapshotAccepts(cfg: Service.Config, a: ActiveSet, id: Bytes32, m: Member, index: nat, l: nat, coins: Coins,
                        t: VerifierTable.Table)
    requires cfg.capacity <= N && ServiceSafety.SnapshotOk(cfg, a) && index < |a.registry.anonymitySet|
    requires a.registry.anonymitySet[index] == m.credential.phi && Ready(a, id, m.credential, l, t)
    requires |coins.rho| == |a.registry.crs.merchants| + 1
    ensures RegistersAt(a, id, m, index, l, coins, t) <==> AllDecode(a.registry.anonymitySet)
  {
    hide Pseudonym, PublicNullifier, MadeUnder, RegistrationFor, AllDecode, Printable, ToBytes, FromBytes, Setup,
      MerkleRoot,
      VerifierTable.Refusal;
    var raw := a.registry.anonymitySet;
    SnapshotCrsParses(cfg, a);
    PlaceInPaddedSet(raw, m.credential.phi, index);
    PaddedDecodes(raw);
    SeatedMemberRegisters(Seated(m, id, PaddedSet(raw)), a.registry.crs, l, coins, t);
  }

  /** End to end. In any reset-free run of a registry whose capacity fits the proof, a
      beneficiary answered with a position finds that position in every set sealed with
      it, and its registration is accepted by any merchant it is ready to register at,
      whatever happened at that merchant before, if and only if all of the set decodes. */
  lemma HonestMemberAccepted(cfg: Service.Config, before: seq<Service.Event>, e: Service.Event,
                             after: seq<Service.Event>,
                             id: Bytes32, m: Member, index: nat, l: nat, coins: Coins, ops: seq<VerifierTable.Op>)
    requires cfg.capacity <= N && Joined(cfg, before, e, after, m.credential.phi, index, id)
    requires |coins.rho| == |SealedSet(cfg, before + [e] + after, id).registry.crs.merchants| + 1
    requires Ready(SealedSet(cfg, before + [e] + after, id), id, m.credential, l, VerifierTable.Run(l, ops))
    ensures RegistersAt(SealedSet(cfg, before + [e] + after, id), id, m, index, l, coins, VerifierTable.Run(l, ops))
       <==> AllDecode(SealedSet(cfg, before + [e] + after, id).registry.anonymitySet)
  {
    SealedWithMember(cfg, before, e, after, m.credential.phi, index, id);
    hide *;
    SnapshotAccepts(cfg, SealedSet(cfg, before + [e] + after, id), id, m, index, l, coins, VerifierTable.Run(l, ops));
  }

  // ── being paid ─────────────────────────────────────────────────────────────

  /** In every state after a member's registration was accepted, every payment request
      it makes to that merchant verifies, and its pseudonym looks up its nullifier and
      its name. */
  lemma PaymentFollowsRegistration(m: Member, crs: Crs, l: nat, coins: Coins, ops: seq<VerifierTable.Op>,
                                   more: seq<VerifierTable.Op>, nonce: Scalar)
    requires |coins.rho| == |crs.merchants| + 1 && RegistrationFor(m, crs, l, coins).Ok?
    requires VerifierTable.Accepted(VerifierTable.Run(l, ops), l,
      VerifierTable.Register(RequestOf(crs, RegistrationFor(m, crs, l, coins).value)))
    ensures ValidService(crs, l)
    ensures var q := VerifierTable.Register(RequestOf(crs, RegistrationFor(m, crs, l, coins).value));
      var later := VerifierTable.Run(l, ops + [q] + more);
      var name, pseudonym := crs.merchants[l - 1].name, PseudonymAt(m.credential, crs, l);
      && VerifyRequest(crs.g, pseudonym, ProveRequest(m.credential.r, name, crs.g, nonce))
      && pseudonym in later.registrations
      && later.registrations[pseudonym]
         == VerifierTable.RegistrationResult(pseudonym, PublicNullifier(m.credential, crs, l),
           m.credential.friendlyName)
  {
    hide Prove, VerifierTable.Run, Pseudonym, PublicNullifier, VerifierTable.Refusal, VerifyRequest, ProveRequest;
    var reg := RegistrationFor(m, crs, l, coins).value;
    VerifierTable.AcceptedOnceAndForever(l, ops, RequestOf(crs, reg), more, RequestOf(crs, reg));
    HonestRequestVerifies(m.credential.r, crs.merchants[l - 1].name, crs.g, nonce);
  }
}
