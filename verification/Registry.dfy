/** The pending registry and the store behind the service
    (src/core/registry.rs, src/registry/store.rs). */
module RegistryData {
  import opened Bytes
  import opened Crs
  import opened Group
  import opened Merkle
  import opened Primitives

  datatype OutPoint = OutPoint(txid: Bytes32, vout: nat)

  /** The value of a registry: what is cloned when a set is sealed. */
  datatype Pending = Pending(
    crs: Crs, merchants: seq<Merchant>, setSize: nat, anonymitySet: seq<Bytes33>, setId: Bytes32,
    outputs: seq<OutPoint>)

  const MAX_NAME: nat := 255

  function NewMerchant(name: seq<byte>, origin: seq<byte>): Merchant {
    Merchant(name, PointToBytes(HashLabel(CredentialGenerator(name))), origin, 0)
  }

  /** Merchants of different names have different credential generators, or two different
      strings hash to one point. */
  lemma EqualCredentialGenerators(name: seq<byte>, origin: seq<byte>, name': seq<byte>, origin': seq<byte>)
    requires name != name'
    requires NewMerchant(name, origin).credentialGenerator == NewMerchant(name', origin').credentialGenerator
    ensures var a, b := Tag(CredentialGenerator(name)), Tag(CredentialGenerator(name'));
      a != b && HASH_TO_CURVE(a) == HASH_TO_CURVE(b)
  {
    hide Tag;
    PointRoundTrip(HashLabel(CredentialGenerator(name))); PointRoundTrip(HashLabel(CredentialGenerator(name')));
    if Tag(CredentialGenerator(name)) == Tag(CredentialGenerator(name')) {
      TagBinds(CredentialGenerator(name), CredentialGenerator(name'));
      assert false;
    }
  }

  function EmptyRegistry(setSize: nat): Pending {
    var zero: Bytes32 := Zeros(32);
    Pending(Setup([], setSize), [], setSize, [], zero, [])
  }

  function WithMerchant(r: Pending, m: Merchant): Pending {
    r.(merchants := r.merchants + [m.(merchantId := |r.merchants| + 1)])
  }

  function WithCrs(r: Pending): Pending {
    r.(crs := Setup(r.merchants, r.setSize))
  }

  function WithBeneficiary(r: Pending, phi: Bytes33, output: OutPoint): Pending {
    r.(anonymitySet := r.anonymitySet + [phi], outputs := r.outputs + [output])
  }

  function Anchored(r: Pending): Pending {
    if r.anonymitySet == [] then r else r.(setId := MerkleRoot(r.anonymitySet))
  }

  datatype StoreError = AlreadyRegistered | PaymentMissing | NamePanic | DatabaseError | EmptySet | TweakFailed
    | BroadcastFailed

  class Registry {
    var crs: Crs
    var merchants: seq<Merchant>
    const setSize: nat
    var anonymitySet: seq<Bytes33>
    var setId: Bytes32
    var outputs: seq<OutPoint>

    function Data(): Pending
      reads this
    {
      Pending(crs, merchants, setSize, anonymitySet, setId, outputs)
    }

    constructor (setSize: nat)
      ensures Data() == EmptyRegistry(setSize)
    {
      this.setSize := setSize;
      crs, merchants := Setup([], setSize), [];
      anonymitySet, outputs, setId := [], [], Zeros(32);
    }

    method AddMerchant(m: Merchant) returns (id: nat)
      modifies this`merchants
      ensures Data() == WithMerchant(old(Data()), m)
      ensures id == |merchants| && merchants[id - 1].name == m.name && merchants[id - 1].merchantId == id
    {
      id := |merchants| + 1;
      merchants := merchants + [m.(merchantId := id)];
    }

    method SetupCrs()
      modifies this`crs
      ensures Data() == WithCrs(old(Data()))
    {
      crs := Setup(merchants, setSize);
    }

    /** Returns the position of the new commitment. */
    method AddBeneficiary(phi: Bytes33, output: OutPoint) returns (index: nat)
      modifies this`anonymitySet, this`outputs
      ensures Data() == WithBeneficiary(old(Data()), phi, output)
      ensures index == |anonymitySet| - 1 && anonymitySet[index] == phi
    {
      anonymitySet := anonymitySet + [phi];
      outputs := outputs + [output];
      index := |anonymitySet| - 1;
    }

    /** Records the Merkle root, even when the Taproot tweak then fails. */
    method CreateAnonymitySet(tweakOk: bool) returns (r: Result<Bytes32, StoreError>)
      modifies this`setId
      ensures Data() == Anchored(old(Data()))
      ensures r == if anonymitySet == [] then Err(EmptySet)
                   else if !tweakOk then Err(TweakFailed) else Ok(MerkleRoot(anonymitySet))
    {
      if anonymitySet == [] { return Err(EmptySet); }
      var root := ComputeRoot(anonymitySet);
      setId := root;
      r := if !tweakOk then Err(TweakFailed) else Ok(root);
    }
  }

  // ── the store ──────────────────────────────────────────────────────────────

  datatype MerchantInfo = MerchantInfo(merchant: Merchant, email: seq<byte>, phone: seq<byte>)

  datatype ActiveSet = ActiveSet(registry: Pending, capacity: nat, satsPerUser: nat, finalized: bool)

  datatype Store = Store(merchantPool: map<seq<byte>, MerchantInfo>, activeSets: map<Bytes32, ActiveSet>)

  /** How the wallet, the database and the tweak turn out. */
  datatype Outside = Outside(paid: bool, saved: bool, tweakOk: bool, txid: Option<Bytes32>)

  /** The pool after add_merchant; a failed save leaves the merchant in the pool. */
  function AddToPool(s: Store, name: seq<byte>, info: MerchantInfo, o: Outside): (Store, Option<StoreError>) {
    if name in s.merchantPool then (s, Some(AlreadyRegistered))
    else if !o.paid then (s, Some(PaymentMissing))
    else if |name| > MAX_NAME then (s, Some(NamePanic))
    else (s.(merchantPool := s.merchantPool[name := info]), if o.saved then None else Some(DatabaseError))
  }

  /** Sealing: anchor the pending set, broadcast, file a snapshot under the txid. */
  function Seal(s: Store, r: Pending, capacity: nat, sats: nat, o: Outside): (Store, Result<Bytes32, StoreError>) {
    if r.anonymitySet == [] then (s, Err(EmptySet))
    else if !o.tweakOk then (s, Err(TweakFailed))
    else match o.txid
      case None => (s, Err(BroadcastFailed))
      case Some(id) =>
        (s.(activeSets := s.activeSets[id := ActiveSet(Anchored(r), capacity, sats, true)]),
         if o.saved then Ok(id) else Err(DatabaseError))
  }

  class RegistryStore {
    var merchantPool: map<seq<byte>, MerchantInfo>
    var activeSets: map<Bytes32, ActiveSet>

    function Data(): Store
      reads this
    {
      Store(merchantPool, activeSets)
    }

    constructor ()
      ensures Data() == Store(map[], map[])
    {
      merchantPool, activeSets := map[], map[];
    }

    method AddMerchant(name: seq<byte>, origin: seq<byte>, email: seq<byte>, phone: seq<byte>, o: Outside)
      returns (r: Option<StoreError>)
      modifies this`merchantPool
      ensures (Data(), r) == AddToPool(old(Data()), name, MerchantInfo(NewMerchant(name, origin), email, phone), o)
    {
      if name in merchantPool { return Some(AlreadyRegistered); }
      if !o.paid { return Some(PaymentMissing); }
      if |name| > MAX_NAME { return Some(NamePanic); }
      merchantPool := merchantPool[name := MerchantInfo(NewMerchant(name, origin), email, phone)];
      r := if o.saved then None else Some(DatabaseError);
    }

    method CreateTx(registry: Registry, capacity: nat, sats: nat, o: Outside) returns (r: Result<Bytes32, StoreError>)
      modifies this`activeSets, registry`setId
      ensures registry.Data() == Anchored(old(registry.Data()))
      ensures (Data(), r) == Seal(old(Data()), old(registry.Data()), capacity, sats, o)
    {
      var commitment := registry.CreateAnonymitySet(o.tweakOk);
      if commitment.Err? { return Err(commitment.error); }
      if o.txid.None? { return Err(BroadcastFailed); }
      var id := o.txid.value;
      activeSets := activeSets[id := ActiveSet(registry.Data(), capacity, sats, true)];
      r := if o.saved then Ok(id) else Err(DatabaseError);
    }

    method GetAnonymitySet(id: Bytes32) returns (r: Option<ActiveSet>)
      ensures r.Some? <==> id in activeSets
      ensures r.Some? ==> r.value == activeSets[id]
    {
      r := if id in activeSets then Some(activeSets[id]) else None;
    }
  }

  /** The commitments handed out for a sealed set: padded to N with the last one. */
  function PaddedSet(raw: seq<Bytes33>): (r: seq<Bytes33>)
    ensures 0 < |raw| <= N ==> |r| == N
  {
    if raw != [] && |raw| < N then PadTo(raw, N) else raw
  }

  method PadForProof(raw: seq<Bytes33>) returns (r: seq<Bytes33>)
    ensures r == PaddedSet(raw)
  {
    r := raw;
    if raw != [] && |raw| < N { r := PadWithLast(raw, N); }
  }
}
