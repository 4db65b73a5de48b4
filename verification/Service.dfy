/** The registry service: handlers interleaving at the locks of the store and of
    the pending registry (src/registry/service.rs).

    A handler alternates between waiting for a lock and running the section the
    lock protects. Every run is a sequence of events: a request arriving, or one
    handler taking its next step with some outcome of wallet, database and network. */
module Service {
  import opened Bytes
  import opened Crs
  import opened CrsCodec
  import opened RegistryData

  datatype Config = Config(minSats: nat, capacity: nat)

  datatype Handler =
    | RegisterMerchant(name: seq<byte>, origin: seq<byte>, email: seq<byte>, phone: seq<byte>)
    | RegisterBeneficiary(phi: Bytes33, output: OutPoint)
    | FinalizeSet
    | GetCrs(setId: Bytes32)
    | GetAnonymitySet(setId: Bytes32)
    | Subscribe(setId: Bytes32)
    | Reset

  datatype Outcome =
    | MerchantRegistered(id: nat) | BeneficiaryRegistered(index: nat) | SetSealed(txid: Bytes32)
    | CrsSent(crsBytes: seq<byte>) | MembersSent(members: seq<Bytes33>, count: nat) | StreamClosed | WasReset
    | StoreFailed(error: StoreError) | SetFull | AlreadyMember | UnknownSet

  /** Where a handler is: before or inside its at-th section, or done. */
  datatype Pc = Waiting(h: Handler, at: nat, carry: nat) | Inside(h: Handler, at: nat, carry: nat)
    | Finished(o: Outcome)

  datatype Lock = StoreLock | RegistryLock

  /** The lock each section takes. */
  function LockOf(h: Handler, at: nat): Lock {
    match h
    case RegisterMerchant(_, _, _, _) => if at == 1 then RegistryLock else StoreLock
    case RegisterBeneficiary(_, _) => if at == 0 then StoreLock else RegistryLock
    case FinalizeSet => if at == 0 then RegistryLock else StoreLock
    case Reset => if at == 0 then StoreLock else RegistryLock
    case _ => StoreLock
  }

  /** finalize_set keeps the registry lock while it takes the store lock. */
  predicate Holds(pc: Pc, l: Lock) {
    || (pc.Inside? && LockOf(pc.h, pc.at) == l)
    || (l == RegistryLock && !pc.Finished? && pc.h.FinalizeSet? && pc.at > 0)
  }

  /** The shared data, and what the service has promised so far: positions returned to
      beneficiaries, ids returned to merchants, names stranded by a failed save, and
      sealed sets in order. */
  datatype Shared = Shared(store: Store, registry: Pending, placed: map<nat, Bytes33>, named: map<nat, Merchant>,
                           stranded: set<seq<byte>>, sealed: seq<Bytes32>)

  datatype System = System(shared: Shared, storeLock: Option<nat>, registryLock: Option<nat>, threads: seq<Pc>)

  function Initial(cfg: Config): System {
    System(Shared(Store(map[], map[]), EmptyRegistry(cfg.capacity), map[], map[], {}, []), None, None, [])
  }

  // ── the sections ───────────────────────────────────────────────────────────

  function MerchantSection(h: Handler, at: nat, carry: nat, d: Shared, o: Outside): (Shared, Pc)
    requires h.RegisterMerchant?
  {
    if at == 0 then
      var info := MerchantInfo(NewMerchant(h.name, h.origin), h.email, h.phone);
      var (store, failed) := AddToPool(d.store, h.name, info, o);
      var stranded := if failed == Some(DatabaseError) then d.stranded + {h.name} else d.stranded;
      (d.(store := store, stranded := stranded),
       if failed.Some? then Finished(StoreFailed(failed.value)) else Waiting(h, 1, carry))
    else if at == 1 then
      var registry := WithMerchant(d.registry, NewMerchant(h.name, h.origin));
      var id := |registry.merchants|;
      (d.(registry := registry, named := d.named[id := registry.merchants[id - 1]]), Waiting(h, 2, id))
    else
      (d, Finished(MerchantRegistered(carry)))
  }

  function BeneficiarySection(cfg: Config, h: Handler, at: nat, d: Shared, o: Outside): (Shared, Pc)
    requires h.RegisterBeneficiary?
  {
    if at == 0 then
      (d, if o.paid then Waiting(h, 1, 0) else Finished(StoreFailed(PaymentMissing)))
    else if |d.registry.anonymitySet| >= cfg.capacity then (d, Finished(SetFull))
    else if h.phi in d.registry.anonymitySet then (d, Finished(AlreadyMember))
    else
      var registry := WithBeneficiary(d.registry, h.phi, h.output);
      var index := |registry.anonymitySet| - 1;
      (d.(registry := registry, placed := d.placed[index := h.phi]), Finished(BeneficiaryRegistered(index)))
  }

  function FinalizeSection(cfg: Config, h: Handler, at: nat, d: Shared, o: Outside): (Shared, Pc) {
    if at == 0 then
      (d.(registry := WithCrs(d.registry)), Waiting(h, 1, 0))
    else
      var (store, r) := Seal(d.store, d.registry, cfg.capacity, cfg.minSats, o);
      var filed := r.Ok? || r == Err(DatabaseError);
      var sealed := if filed && o.txid.Some? then d.sealed + [o.txid.value] else d.sealed;
      (d.(store := store, registry := Anchored(d.registry), sealed := sealed),
       Finished(match r case Ok(id) => SetSealed(id) case Err(e) => StoreFailed(e)))
  }

  /** Reading a sealed set, padded for the proof. */
  function MembersOf(d: Shared, id: Bytes32): Outcome {
    if id !in d.store.activeSets then UnknownSet
    else var raw := d.store.activeSets[id].registry.anonymitySet; MembersSent(PaddedSet(raw), |raw|)
  }

  function Section(cfg: Config, h: Handler, at: nat, carry: nat, d: Shared, o: Outside): (Shared, Pc) {
    match h
    case RegisterMerchant(_, _, _, _) => MerchantSection(h, at, carry, d, o)
    case RegisterBeneficiary(_, _) => BeneficiarySection(cfg, h, at, d, o)
    case FinalizeSet => FinalizeSection(cfg, h, at, d, o)
    case GetCrs(id) =>
      (d, Finished(if id !in d.store.activeSets then UnknownSet
                   else CrsSent(ToBytes(d.store.activeSets[id].registry.crs))))
    case GetAnonymitySet(id) => (d, Finished(MembersOf(d, id)))
    case Subscribe(id) =>
      if at == 0 then (d, if id in d.store.activeSets then Waiting(h, 1, 0) else Waiting(h, 0, 0))
      else (d, Finished(if id in d.store.activeSets then MembersOf(d, id) else StreamClosed))
    case Reset =>
      if at == 0 then (d.(store := Store(map[], map[]), stranded := {}, sealed := []), Waiting(h, 1, 0))
      else (d.(registry := EmptyRegistry(cfg.capacity), placed := map[], named := map[]), Finished(WasReset))
  }

  // ── events ─────────────────────────────────────────────────────────────────

  datatype Event = Arrive(h: Handler) | Advance(thread: nat, outside: Outside)

  function LockHolder(s: System, l: Lock): Option<nat> {
    if l == StoreLock then s.storeLock else s.registryLock
  }

  predicate CanStep(s: System, t: nat) {
    && t < |s.threads| && !s.threads[t].Finished?
    && (s.threads[t].Waiting? ==> LockHolder(s, LockOf(s.threads[t].h, s.threads[t].at)).None?)
  }

  /** The lock words after thread t moves from one pc to another. */
  function Relock(holder: Option<nat>, t: nat, l: Lock, from: Pc, to: Pc): Option<nat> {
    if Holds(to, l) then Some(t) else if Holds(from, l) then None else holder
  }

  function Moved(s: System, t: nat, d: Shared, to: Pc): System
    requires t < |s.threads|
  {
    System(d, Relock(s.storeLock, t, StoreLock, s.threads[t], to),
           Relock(s.registryLock, t, RegistryLock, s.threads[t], to),
           s.threads[t := to])
  }

  function Exec(cfg: Config, s: System, e: Event): System {
    match e
    case Arrive(h) => s.(threads := s.threads + [Waiting(h, 0, 0)])
    case Advance(t, o) =>
      if !CanStep(s, t) then s
      else match s.threads[t]
        case Waiting(h, at, carry) => Moved(s, t, s.shared, Inside(h, at, carry))
        case Inside(h, at, carry) =>
          var (d, to) := Section(cfg, h, at, carry, s.shared, o);
          Moved(s, t, d, to)
        case Finished(_) => s
  }

  function Run(cfg: Config, es: seq<Event>): System {
    if es == [] then Initial(cfg) else Exec(cfg, Run(cfg, es[..|es| - 1]), es[|es| - 1])
  }

  // ── locks ──────────────────────────────────────────────────────────────────

  /** The lock word names exactly the thread that holds the lock. */
  ghost predicate Agrees(s: System, l: Lock) {
    && (LockHolder(s, l).Some? ==> LockHolder(s, l).value < |s.threads|)
    && forall t :: 0 <= t < |s.threads| ==> (Holds(s.threads[t], l) <==> LockHolder(s, l) == Some(t))
  }

  ghost predicate LocksAgree(s: System) {
    Agrees(s, StoreLock) && Agrees(s, RegistryLock)
  }

  lemma MovedLock(s: System, t: nat, d: Shared, to: Pc, l: Lock)
    requires Agrees(s, l) && t < |s.threads|
    requires Holds(to, l) && !Holds(s.threads[t], l) ==> LockHolder(s, l).None?
    ensures Agrees(Moved(s, t, d, to), l)
  {
    hide Holds;
    assert Holds(s.threads[t], l) <==> LockHolder(s, l) == Some(t);
  }

  /** A section ends with no lock it did not already hold. */
  lemma SectionAcquiresNothing(cfg: Config, h: Handler, at: nat, carry: nat, d: Shared, o: Outside, l: Lock)
    ensures Holds(Section(cfg, h, at, carry, d, o).1, l) ==> Holds(Inside(h, at, carry), l)
  {
    hide WithMerchant, WithBeneficiary, WithCrs, Seal, AddToPool, MembersOf, ToBytes, EmptyRegistry, Anchored;
  }

  lemma ExecLock(cfg: Config, s: System, e: Event, l: Lock)
    requires Agrees(s, l)
    ensures Agrees(Exec(cfg, s, e), l)
  {
    hide Section, Moved;
    match e
    case Arrive(h) =>
    case Advance(t, o) =>
      if CanStep(s, t) {
        match s.threads[t]
        case Waiting(h, at, carry) => MovedLock(s, t, s.shared, Inside(h, at, carry), l);
        case Inside(h, at, carry) =>
          SectionAcquiresNothing(cfg, h, at, carry, s.shared, o, l);
          MovedLock(s, t, Section(cfg, h, at, carry, s.shared, o).0, Section(cfg, h, at, carry, s.shared, o).1, l);
      }
  }

  lemma {:induction false} RunLocks(cfg: Config, es: seq<Event>)
    ensures LocksAgree(Run(cfg, es))
  {
    hide Exec, Agrees;
    if es == [] {
      NobodyHolds(Initial(cfg), StoreLock); NobodyHolds(Initial(cfg), RegistryLock);
    } else {
      RunLocks(cfg, es[..|es| - 1]);
      ExecLock(cfg, Run(cfg, es[..|es| - 1]), es[|es| - 1], StoreLock);
      ExecLock(cfg, Run(cfg, es[..|es| - 1]), es[|es| - 1], RegistryLock);
    }
  }

  lemma NobodyHolds(s: System, l: Lock)
    requires s.threads == [] && LockHolder(s, l).None?
    ensures Agrees(s, l)
  {  }

  /** Following from u the holders of the locks waited for, at most n times, leads to a
      handler that can step. */
  predicate LeadsToStep(s: System, u: nat, n: nat)
    decreases n
  {
    || CanStep(s, u)
    || (n > 0 && u < |s.threads| && s.threads[u].Waiting?
        && var holder := LockHolder(s, LockOf(s.threads[u].h, s.threads[u].at));
           holder.Some? && LeadsToStep(s, holder.value, n - 1))
  }

  /** Whoever holds the store lock is inside a section and can go on. */
  lemma StoreHolderSteps(s: System)
    requires LocksAgree(s) && s.storeLock.Some?
    ensures CanStep(s, s.storeLock.value)
  {
    assert LockHolder(s, StoreLock) == Some(s.storeLock.value);
    assert Holds(s.threads[s.storeLock.value], StoreLock);
  }

  /** No deadlock: in every reachable state every unfinished handler can step, or waits for
      a lock whose holder can step, or whose holder waits for a lock whose holder can
      step. Only finalize_set holds both locks, and it takes the registry first. */
  lemma DeadlockFree(cfg: Config, es: seq<Event>, u: nat)
    requires u < |Run(cfg, es).threads| && !Run(cfg, es).threads[u].Finished?
    ensures LeadsToStep(Run(cfg, es), u, 2)
  {
    hide Run;
    RunLocks(cfg, es);
    var s := Run(cfg, es);
    if s.storeLock.Some? { StoreHolderSteps(s); }
    if s.registryLock.Some? {
      var t := s.registryLock.value;
      assert LockHolder(s, RegistryLock) == Some(t);
      assert Holds(s.threads[t], RegistryLock);
      assert LeadsToStep(s, t, 1);
    }
  }
}
