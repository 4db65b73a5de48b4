/** A member of an anonymity set (src/core/beneficiary.rs). */
module Membership {
  import opened Bytes
  import opened Credential
  import opened Crs
  import opened OneOfMany
  import opened PaymentIdentity
  import opened RegistrationProver

  /** What a member sends to a merchant. */
  datatype PaymentRegistration = PaymentRegistration(
    pseudonym: Bytes33, publicNullifier: Bytes33, setId: Bytes32, serviceIndex: nat, friendlyName: seq<byte>,
    proof: RegistrationProof)

  datatype MemberError = NotInSet | NotRegistered | MerchantOutOfRange | ProofFailed(error: ProveError)

  /** The set a member belongs to and where it sits. */
  datatype Seat = Seat(setId: Bytes32, index: nat, anonymitySet: seq<Bytes33>)

  datatype Member = Member(
    credential: MasterCredential, seat: Option<Seat>, registrations: map<nat, PaymentRegistration>)

  function FirstPosition(xs: seq<Bytes33>, x: Bytes33): (r: Option<nat>)
    ensures r.None? ==> x !in xs
    ensures r.Some? ==> r.value < |xs| && xs[r.value] == x && x !in xs[..r.value]
  {
    if xs == [] then None
    else if xs[0] == x then Some(0)
    else match FirstPosition(xs[1..], x)
      case None => None
      case Some(i) => assert xs[..i + 1] == [xs[0]] + xs[1..][..i]; Some(i + 1)
  }

  function Seated(m: Member, setId: Bytes32, anonymitySet: seq<Bytes33>): Member {
    match FirstPosition(anonymitySet, m.credential.phi)
    case None => m
    case Some(i) => m.(seat := Some(Seat(setId, i, anonymitySet)))
  }

  /** The registration of a seated member at merchant l, for these coins. */
  function RegistrationFor(m: Member, crs: Crs, l: nat, coins: Coins): Result<PaymentRegistration, MemberError>
    requires |coins.rho| == |crs.merchants| + 1
  {
    if m.seat.None? then Err(NotRegistered)
    else if !ValidService(crs, l) then Err(MerchantOutOfRange)
    else
      var cred, seat := m.credential, m.seat.value;
      var pseudonym := Pseudonym(cred.r, crs.merchants[l - 1].name, crs.g);
      var nullifier := PublicNullifier(cred, crs, l);
      match Prove(crs, seat.anonymitySet, seat.index, l, seat.setId, cred.k, NullifierScalars(cred, crs), pseudonym,
                  nullifier, NameScalar(cred), coins)
      case Err(e) => Err(ProofFailed(e))
      case Ok(proof) => Ok(PaymentRegistration(pseudonym, nullifier, seat.setId, l, cred.friendlyName, proof))
  }

  function Recorded(m: Member, l: nat, r: Result<PaymentRegistration, MemberError>): Member {
    if r.Ok? then m.(registrations := m.registrations[l := r.value]) else m
  }

  class Beneficiary {
    const credential: MasterCredential
    var setId: Option<Bytes32>
    var index: Option<nat>
    var anonymitySet: Option<seq<Bytes33>>
    var registrations: map<nat, PaymentRegistration>

    /** The three parts of a seat are known together. */
    ghost predicate Valid()
      reads this
    {
      setId.Some? == index.Some? == anonymitySet.Some?
    }

    ghost function Data(): Member
      reads this
      requires Valid()
    {
      Member(credential, if setId.None? then None else Some(Seat(setId.value, index.value, anonymitySet.value)),
        registrations)
    }

    constructor (crs: Crs, friendlyName: seq<byte>, sk: Bytes32, r: Bytes32, k: Bytes32)
      ensures Valid() && Data() == Member(Create(crs, sk, r, k, friendlyName), None, map[])
      ensures MadeUnder(credential, crs)
    {
      credential := Create(crs, sk, r, k, friendlyName);
      setId, index, anonymitySet, registrations := None, None, None, map[];
      new;
      CreatedUnder(crs, sk, r, k, friendlyName);
    }

    /** The first position holding the member's commitment, by linear search. */
    method Register(setId: Bytes32, anonymitySet: seq<Bytes33>) returns (r: Option<MemberError>)
      requires Valid()
      modifies this`setId, this`index, this`anonymitySet
      ensures Valid() && Data() == Seated(old(Data()), setId, anonymitySet)
      ensures r.None? <==> credential.phi in anonymitySet
      ensures r.Some? ==> r.value == NotInSet && Data() == old(Data())
    {
      var i := 0;
      while i < |anonymitySet| && anonymitySet[i] != credential.phi
        invariant i <= |anonymitySet| && credential.phi !in anonymitySet[..i]
      {
        i := i + 1;
      }
      if i == |anonymitySet| { return Some(NotInSet); }
      FirstIs(anonymitySet, credential.phi, i);
      this.setId, this.index, this.anonymitySet := Some(setId), Some(i), Some(anonymitySet);
      r := None;
    }

    method SetSize() returns (n: Option<nat>)
      requires Valid()
      ensures n == if Data().seat.None? then None else Some(|Data().seat.value.anonymitySet|)
    {
      n := if anonymitySet.None? then None else Some(|anonymitySet.value|);
    }

    /** A failure leaves the member as it was. */
    method CreatePaymentRegistration(crs: Crs, l: nat, coins: Coins)
      returns (r: Result<PaymentRegistration, MemberError>)
      requires Valid() && |coins.rho| == |crs.merchants| + 1
      modifies this`registrations
      ensures Valid() && r == RegistrationFor(old(Data()), crs, l, coins) && Data() == Recorded(old(Data()), l, r)
    {
      hide Prove, Pseudonym, DerivePublicNullifier, NullifierScalars, NameScalar;
      if anonymitySet.None? || index.None? || setId.None? { return Err(NotRegistered); }
      if l < 1 || l > |crs.merchants| { return Err(MerchantOutOfRange); }
      var pseudonym := Pseudonym(credential.r, crs.merchants[l - 1].name, crs.g);
      var nullifier := PublicNullifier(credential, crs, l);
      var proof := ProvePaymentIdentityRegistration(
        crs, anonymitySet.value, index.value, l, setId.value, credential.k, NullifierScalars(credential, crs),
        pseudonym, nullifier, NameScalar(credential), coins);
      if proof.Err? { return Err(ProofFailed(proof.error)); }
      var registration := PaymentRegistration(
        pseudonym, nullifier, setId.value, l, credential.friendlyName, proof.value);
      registrations := registrations[l := registration];
      r := Ok(registration);
    }
  }

  lemma FirstIs(xs: seq<Bytes33>, x: Bytes33, i: nat)
    requires i < |xs| && xs[i] == x && x !in xs[..i]
    ensures FirstPosition(xs, x) == Some(i)
  {
    var j := FirstPosition(xs, x).value;
    forall k | 0 <= k < i ensures xs[k] != x { assert xs[k] == xs[..i][k]; }
    forall k | 0 <= k < j ensures xs[k] != x { assert xs[k] == xs[..j][k]; }
  }
}
