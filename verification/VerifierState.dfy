/** A merchant's registration table (src/core/verifier.rs). */
module VerifierTable {
  import opened Bytes
  import opened Crs
  import opened PaymentIdentity
  import opened RegistrationVerifier

  datatype VerificationError =
    | SetNotFound(setId: Bytes32) | ProofInvalid | NullifierAlreadyUsed | PseudonymAlreadyUsed | NameMismatch

  datatype RegistrationResult = RegistrationResult(
    pseudonym: Bytes33, publicNullifier: Bytes33, friendlyName: seq<byte>)

  /** What a beneficiary sends to be registered. */
  datatype Request = Request(
    crs: Crs, pseudonym: Bytes33, nullifier: Bytes33, proof: RegistrationProof, setId: Bytes32, friendlyName: seq<byte>)

  /** The four stores of a verifier. */
  datatype Table = Table(
    setCache: map<Bytes32, seq<Bytes33>>, nullifiers: set<Bytes33>, pseudonyms: set<Bytes33>,
    registrations: map<Bytes33, RegistrationResult>)

  const EMPTY: Table := Table(map[], {}, {}, map[])

  /** Why a request is turned down, checked in this order. */
  function Refusal(t: Table, userIndex: nat, q: Request): Option<VerificationError> {
    if q.setId !in t.setCache then Some(SetNotFound(q.setId))
    else if !Verify(q.crs, t.setCache[q.setId], userIndex, q.setId, q.pseudonym, q.nullifier, q.proof)
    then Some(ProofInvalid)
    else if !VerifyNameRevelation(q.proof.nameScalar, q.friendlyName) then Some(NameMismatch)
    else if q.nullifier in t.nullifiers then Some(NullifierAlreadyUsed)
    else if q.pseudonym in t.pseudonyms then Some(PseudonymAlreadyUsed)
    else None
  }

  function ResultOf(q: Request): RegistrationResult {
    RegistrationResult(q.pseudonym, q.nullifier, q.friendlyName)
  }

  function Registered(t: Table, q: Request): Table {
    t.(nullifiers := t.nullifiers + {q.nullifier}, pseudonyms := t.pseudonyms + {q.pseudonym},
       registrations := t.registrations[q.pseudonym := ResultOf(q)])
  }

  class VerifierState {
    const userIndex: nat
    var setCache: map<Bytes32, seq<Bytes33>>
    var registeredNullifiers: set<Bytes33>
    var registeredPseudonyms: set<Bytes33>
    var registrations: map<Bytes33, RegistrationResult>

    function State(): Table
      reads this
    {
      Table(setCache, registeredNullifiers, registeredPseudonyms, registrations)
    }

    constructor (userIndex: nat)
      ensures this.userIndex == userIndex && State() == EMPTY
    {
      this.userIndex := userIndex;
      setCache, registeredNullifiers, registeredPseudonyms, registrations := map[], {}, {}, map[];
    }

    /** Inserting under a known id replaces the earlier set. */
    method CacheSet(setId: Bytes32, commitments: seq<Bytes33>)
      modifies this`setCache
      ensures State() == old(State()).(setCache := old(setCache)[setId := commitments])
    {
      setCache := setCache[setId := commitments];
    }

    method GetCachedSet(setId: Bytes32) returns (r: Option<seq<Bytes33>>)
      ensures r.Some? <==> setId in setCache
      ensures r.Some? ==> r.value == setCache[setId]
    {
      r := if setId in setCache then Some(setCache[setId]) else None;
    }

    method LookupByPseudonym(pseudonym: Bytes33) returns (r: Option<RegistrationResult>)
      ensures r.Some? <==> pseudonym in registrations
      ensures r.Some? ==> r.value == registrations[pseudonym]
    {
      r := if pseudonym in registrations then Some(registrations[pseudonym]) else None;
    }

    method CheckFreshness(pseudonym: Bytes33, nullifier: Bytes33) returns (r: Option<VerificationError>)
      ensures r.None? <==> nullifier !in registeredNullifiers && pseudonym !in registeredPseudonyms
      ensures nullifier in registeredNullifiers ==> r == Some(NullifierAlreadyUsed)
      ensures nullifier !in registeredNullifiers && pseudonym in registeredPseudonyms ==>
        r == Some(PseudonymAlreadyUsed)
    {
      if nullifier in registeredNullifiers { return Some(NullifierAlreadyUsed); }
      if pseudonym in registeredPseudonyms { return Some(PseudonymAlreadyUsed); }
      r := None;
    }

    /** Accepts exactly the requests nothing refuses; a refusal changes nothing. */
    method VerifyAndRegister(q: Request) returns (r: Result<RegistrationResult, VerificationError>)
      modifies this
      ensures match Refusal(old(State()), userIndex, q)
        case Some(e) => r == Err(e) && State() == old(State())
        case None => r == Ok(ResultOf(q)) && State() == Registered(old(State()), q)
    {
      hide Verify;
      if q.setId !in setCache { return Err(SetNotFound(q.setId)); }
      var anonymitySet := setCache[q.setId];
      var valid := VerifyPaymentIdentityRegistrationProof(
        q.crs, anonymitySet, userIndex, q.setId, q.pseudonym, q.nullifier, q.proof);
      if !valid { return Err(ProofInvalid); }
      if !VerifyNameRevelation(q.proof.nameScalar, q.friendlyName) { return Err(NameMismatch); }
      var stale := CheckFreshness(q.pseudonym, q.nullifier);
      if stale.Some? { return Err(stale.value); }
      registeredNullifiers := registeredNullifiers + {q.nullifier};
      registeredPseudonyms := registeredPseudonyms + {q.pseudonym};
      registrations := registrations[q.pseudonym := ResultOf(q)];
      r := Ok(ResultOf(q));
    }
  }

  // ── runs ───────────────────────────────────────────────────────────────────

  datatype Op = Cache(setId: Bytes32, members: seq<Bytes33>) | Register(q: Request)

  function Accepted(t: Table, userIndex: nat, op: Op): bool {
    op.Register? && Refusal(t, userIndex, op.q).None?
  }

  function Step(t: Table, userIndex: nat, op: Op): Table {
    match op
    case Cache(id, members) => t.(setCache := t.setCache[id := members])
    case Register(q) => if Refusal(t, userIndex, q).None? then Registered(t, q) else t
  }

  function Run(userIndex: nat, ops: seq<Op>): Table {
    if ops == [] then EMPTY else Step(Run(userIndex, ops[..|ops| - 1]), userIndex, ops[|ops| - 1])
  }

  function NullifiersOf(m: map<Bytes33, RegistrationResult>): set<Bytes33> {
    set p | p in m :: m[p].publicNullifier
  }

  lemma NullifiersOfInsert(m: map<Bytes33, RegistrationResult>, p: Bytes33, r: RegistrationResult)
    requires p !in m
    ensures NullifiersOf(m[p := r]) == NullifiersOf(m) + {r.publicNullifier}
  {
    var m' := m[p := r];
    forall n | n in NullifiersOf(m) + {r.publicNullifier} ensures n in NullifiersOf(m') {
      if n in NullifiersOf(m) {
        var q :| q in m && m[q].publicNullifier == n;
        assert q in m' && m'[q].publicNullifier == n;
      } else {
        assert p in m' && m'[p].publicNullifier == n;
      }
    }
  }

  /** Filed under its own pseudonym, and no two pseudonyms share a nullifier. */
  ghost predicate OneToOne(m: map<Bytes33, RegistrationResult>) {
    && (forall p :: p in m ==> m[p].pseudonym == p)
    && (forall p, p' :: p in m && p' in m && p != p' ==> m[p].publicNullifier != m[p'].publicNullifier)
  }

  /** The sets agree with the table, entry for entry. */
  ghost predicate Coherent(t: Table) {
    && t.pseudonyms == t.registrations.Keys
    && t.nullifiers == NullifiersOf(t.registrations)
    && OneToOne(t.registrations)
    && |t.pseudonyms| == |t.nullifiers| == |t.registrations|
  }

  lemma StepCoherent(t: Table, userIndex: nat, op: Op)
    requires Coherent(t)
    ensures Coherent(Step(t, userIndex, op))
  {
    hide Verify, NullifiersOf;
    if Accepted(t, userIndex, op) {
      RegisteredCoherent(t, op.q);
    }
  }

  lemma RegisteredCoherent(t: Table, q: Request)
    requires Coherent(t) && q.nullifier !in t.nullifiers && q.pseudonym !in t.pseudonyms
    ensures Coherent(Registered(t, q))
  {
    hide NullifiersOf, OneToOne;
    NullifiersOfInsert(t.registrations, q.pseudonym, ResultOf(q));
    OneToOneInsert(t.registrations, q.pseudonym, ResultOf(q));
    var m' := t.registrations[q.pseudonym := ResultOf(q)];
    assert m'.Keys == t.registrations.Keys + {q.pseudonym};
    assert |m'| == |m'.Keys| && |t.registrations| == |t.registrations.Keys|;
  }

  lemma OneToOneInsert(m: map<Bytes33, RegistrationResult>, p: Bytes33, r: RegistrationResult)
    requires OneToOne(m) && p !in m && r.pseudonym == p && r.publicNullifier !in NullifiersOf(m)
    ensures OneToOne(m[p := r])
  {
    forall p' | p' in m ensures m[p'].publicNullifier != r.publicNullifier {
      assert m[p'].publicNullifier in NullifiersOf(m);
    }
  }

  /** Every reachable table is coherent. */
  lemma {:induction false} RunCoherent(userIndex: nat, ops: seq<Op>)
    ensures Coherent(Run(userIndex, ops))
  {
    if ops != [] {
      RunCoherent(userIndex, ops[..|ops| - 1]);
      StepCoherent(Run(userIndex, ops[..|ops| - 1]), userIndex, ops[|ops| - 1]);
    }
  }

  /** Nothing registered is ever altered or removed. */
  ghost predicate Grows(t: Table, t': Table) {
    && t.nullifiers <= t'.nullifiers && t.pseudonyms <= t'.pseudonyms
    && forall p :: p in t.registrations ==> p in t'.registrations && t'.registrations[p] == t.registrations[p]
  }

  lemma StepGrows(t: Table, userIndex: nat, op: Op)
    requires Coherent(t)
    ensures Grows(t, Step(t, userIndex, op))
  {
    hide Verify, NullifiersOf, OneToOne, VerifyNameRevelation;
  }

  lemma {:induction false} RunGrows(userIndex: nat, ops: seq<Op>, more: seq<Op>)
    ensures Grows(Run(userIndex, ops), Run(userIndex, ops + more))
    decreases |more|
  {
    if more == [] {
      assert ops + more == ops;
    } else {
      var n := |more| - 1;
      assert (ops + more)[..|ops| + n] == ops + more[..n];
      RunGrows(userIndex, ops, more[..n]);
      RunCoherent(userIndex, ops + more[..n]);
      StepGrows(Run(userIndex, ops + more[..n]), userIndex, more[n]);
    }
  }

  /** After a request is accepted, its result can be looked up in every later state,
      and no later request with the same pseudonym or the same nullifier is accepted. */
  lemma AcceptedOnceAndForever(userIndex: nat, ops: seq<Op>, q: Request, more: seq<Op>, again: Request)
    requires Accepted(Run(userIndex, ops), userIndex, Register(q))
    ensures var later := Run(userIndex, ops + [Register(q)] + more);
      && q.pseudonym in later.registrations && later.registrations[q.pseudonym] == ResultOf(q)
      && (again.pseudonym == q.pseudonym || again.nullifier == q.nullifier ==>
        !Accepted(later, userIndex, Register(again)))
  {
    hide Verify;
    var now := ops + [Register(q)];
    assert now[..|ops|] == ops;
    RunGrows(userIndex, now, more);
  }
}
