/** Particular runs of the service: what its handlers admit. */
module ServiceRuns {
  import opened Bytes
  import opened Credential
  import opened Crs
  import opened CrsCodec
  import opened Group
  import KeyDerivation
  import opened MerchantNames
  import opened Merkle
  import opened PaymentIdentity
  import opened Primitives
  import opened RegistryData
  import opened Service

  // ── turns ──────────────────────────────────────────────────────────────────

  lemma RunSnoc(cfg: Config, es: seq<Event>, e: Event)
    ensures Run(cfg, es + [e]) == Exec(cfg, Run(cfg, es), e)
  {
    assert (es + [e])[..|es|] == es;
  }

  /** A handler takes the lock it waits for and runs the section. */
  function Turn(es: seq<Event>, t: nat, o: Outside): seq<Event> { es + [Advance(t, o)] + [Advance(t, o)] }

  /** The state after a turn that nobody interrupts. */
  function Turned(cfg: Config, s: System, t: nat, o: Outside): System
    requires t < |s.threads| && s.threads[t].Waiting?
  {
    var pc := s.threads[t];
    var (d, to) := Section(cfg, pc.h, pc.at, pc.carry, s.shared, o);
    System(d, None, if Holds(to, RegistryLock) then Some(t) else None, s.threads[t := to])
  }

  /** Nobody holds a lock but this handler, which does not wait for what it holds. */
  predicate Alone(s: System, t: nat) {
    && t < |s.threads| && s.threads[t].Waiting? && s.storeLock.None?
    && (s.registryLock.None? || (s.registryLock == Some(t) && Holds(s.threads[t], RegistryLock)
                                 && LockOf(s.threads[t].h, s.threads[t].at) == StoreLock))
  }

  lemma TurnIs(cfg: Config, es: seq<Event>, t: nat, o: Outside)
    requires Alone(Run(cfg, es), t)
    ensures Run(cfg, Turn(es, t, o)) == Turned(cfg, Run(cfg, es), t, o)
  {
    hide Run, Section;
    var s := Run(cfg, es);
    RunSnoc(cfg, es, Advance(t, o));
    RunSnoc(cfg, es + [Advance(t, o)], Advance(t, o));
    var pc := s.threads[t];
    SectionEnds(cfg, pc.h, pc.at, pc.carry, s.shared, o);
  }

  lemma SectionEnds(cfg: Config, h: Handler, at: nat, carry: nat, d: Shared, o: Outside)
    ensures var to := Section(cfg, h, at, carry, d, o).1;
      !to.Inside? && (Holds(to, RegistryLock) ==> Holds(Inside(h, at, carry), RegistryLock))
  {
    hide WithMerchant, WithBeneficiary, WithCrs, Seal, AddToPool, MembersOf, ToBytes, Anchored, EmptyRegistry;
  }

  /** A request arrives at an idle service. */
  lemma ArriveAlone(cfg: Config, es: seq<Event>, h: Handler)
    requires Run(cfg, es).storeLock.None? && Run(cfg, es).registryLock.None?
    ensures var s, s' := Run(cfg, es), Run(cfg, es + [Arrive(h)]);
      s' == s.(threads := s.threads + [Waiting(h, 0, 0)]) && Alone(s', |s.threads|)
  {
    RunSnoc(cfg, es, Arrive(h));
    hide Run;
  }

  // ── any 33 bytes can be sealed ─────────────────────────────────────────────

  /** One beneficiary joins and the set is finalized. */
  function JoinAndSeal(phi: Bytes33, output: OutPoint, o: Outside): seq<Event> {
    var joined := Turn(Turn([] + [Arrive(RegisterBeneficiary(phi, output))], 0, o), 0, o);
    Turn(Turn(joined + [Arrive(FinalizeSet)], 1, o), 1, o)
  }

  lemma Joined(cfg: Config, phi: Bytes33, output: OutPoint, o: Outside)
    requires cfg.capacity > 0 && o.paid
    ensures var s := Run(cfg, Turn(Turn([] + [Arrive(RegisterBeneficiary(phi, output))], 0, o), 0, o));
      && s.storeLock.None? && s.registryLock.None? && |s.threads| == 1
      && s.shared.store == Store(map[], map[]) && s.shared.registry.anonymitySet == [phi]
  {
    var es := [] + [Arrive(RegisterBeneficiary(phi, output))];
    ArriveAlone(cfg, [], RegisterBeneficiary(phi, output));
    hide Run, Setup;
    TurnIs(cfg, es, 0, o);
    TurnIs(cfg, Turn(es, 0, o), 0, o);
  }

  /** register_beneficiary never decodes: whatever 33 bytes arrive, a paid run files a
      sealed set whose one commitment is those bytes, and serves it padded to N. So an
      undecodable member is sealed like any other. */
  lemma AnyBytesSealed(cfg: Config, phi: Bytes33, output: OutPoint, o: Outside)
    requires cfg.capacity > 0 && o.paid && o.tweakOk && o.txid.Some?
    ensures var d := Run(cfg, JoinAndSeal(phi, output, o)).shared;
      o.txid.value in d.store.activeSets && d.store.activeSets[o.txid.value].registry.anonymitySet == [phi]
    ensures |PaddedSet([phi])| == N && (AllDecode(PaddedSet([phi])) <==> PointFromBytes(phi).Some?)
  {
    hide Run, Setup, MerkleRoot;
    Joined(cfg, phi, output, o);
    assert PaddedSet([phi])[0] == phi;
    var es := Turn(Turn([] + [Arrive(RegisterBeneficiary(phi, output))], 0, o), 0, o);
    ArriveAlone(cfg, es, FinalizeSet);
    TurnIs(cfg, es + [Arrive(FinalizeSet)], 1, o);
    TurnIs(cfg, Turn(es + [Arrive(FinalizeSet)], 1, o), 1, o);
  }

  // ── a failed save ──────────────────────────────────────────────────────────

  /** A paid merchant arrives and its save fails. */
  lemma SaveCanFail(cfg: Config, name: seq<byte>, origin: seq<byte>, o: Outside)
    requires |name| <= RegistryData.MAX_NAME && o.paid && !o.saved
    ensures var es := Turn([] + [Arrive(RegisterMerchant(name, origin, [], []))], 0, o);
      var s := Run(cfg, es);
      && SomeSaveFails(cfg, es) && s.threads == [Finished(StoreFailed(DatabaseError))]
      && name in s.shared.store.merchantPool && s.shared.registry.merchants == [] && ClaimedNames(s.threads) == {}
  {
    var h := RegisterMerchant(name, origin, [], []);
    var es := [] + [Arrive(h)];
    ArriveAlone(cfg, [], h);
    hide Run, Setup, NewMerchant;
    TurnIs(cfg, es, 0, o);
    RunSnoc(cfg, es, Advance(0, o));
    assert Turn(es, 0, o)[..2] == es + [Advance(0, o)];
    assert SaveFails(Run(cfg, es + [Advance(0, o)]), Advance(0, o));
  }

  // ── a merchant between the sections of a reset ─────────────────────────────

  /** A reset clears the store; a merchant registers from start to end; the reset then
      clears the registry. */
  function ResetAround(name: seq<byte>, origin: seq<byte>, o: Outside): seq<Event> {
    var es := Turn([] + [Arrive(Reset)], 0, o) + [Arrive(RegisterMerchant(name, origin, [], []))];
    Turn(Turn(Turn(Turn(es, 1, o), 1, o), 1, o), 0, o)
  }

  lemma RegisteredMeanwhile(cfg: Config, name: seq<byte>, origin: seq<byte>, o: Outside)
    requires |name| <= RegistryData.MAX_NAME && o.paid && o.saved
    ensures var es := Turn([] + [Arrive(Reset)], 0, o) + [Arrive(RegisterMerchant(name, origin, [], []))];
      var s := Run(cfg, Turn(Turn(Turn(es, 1, o), 1, o), 1, o));
      && s.storeLock.None? && s.registryLock.None? && name in s.shared.store.merchantPool && s.shared.stranded == {}
      && s.threads == [Waiting(Reset, 1, 0), Finished(MerchantRegistered(1))]
  {
    hide Run, Setup, NewMerchant;
    var h := RegisterMerchant(name, origin, [], []);
    assert Run(cfg, []) == Initial(cfg) by { RunEmpty(cfg); }
    ArriveAlone(cfg, [], Reset);
    TurnIs(cfg, [] + [Arrive(Reset)], 0, o);
    var es := Turn([] + [Arrive(Reset)], 0, o);
    ArriveAlone(cfg, es, h);
    TurnIs(cfg, es + [Arrive(h)], 1, o);
    TurnIs(cfg, Turn(es + [Arrive(h)], 1, o), 1, o);
    TurnIs(cfg, Turn(Turn(es + [Arrive(h)], 1, o), 1, o), 1, o);
  }

  lemma RunEmpty(cfg: Config)
    ensures Run(cfg, []) == Initial(cfg)
  {}

  /** Without the restriction to reset-free runs the account of the names fails: here a
      merchant was told its id, its name is taken, no save failed, and the registry does
      not have it. */
  lemma ResetOrphansName(cfg: Config, name: seq<byte>, origin: seq<byte>, o: Outside)
    requires |name| <= RegistryData.MAX_NAME && o.paid && o.saved
    ensures var s := Run(cfg, ResetAround(name, origin, o));
      && s.threads == [Finished(WasReset), Finished(MerchantRegistered(1))]
      && name in s.shared.store.merchantPool && s.shared.stranded == {} && s.shared.registry.merchants == []
      && !NamesOk(s)
  {
    hide Run, Setup, NewMerchant;
    RegisteredMeanwhile(cfg, name, origin, o);
    var es := Turn([] + [Arrive(Reset)], 0, o) + [Arrive(RegisterMerchant(name, origin, [], []))];
    TurnIs(cfg, Turn(Turn(Turn(es, 1, o), 1, o), 1, o), 0, o);
    var s := Run(cfg, ResetAround(name, origin, o));
    assert name in s.shared.store.merchantPool.Keys && RegisteredNames([]) == {} && ClaimedNames(s.threads) == {};
  }

  /** A merchant takes its name, a reset runs from start to end, the merchant enters the
      cleared registry, and another of the same name registers. */
  function ResetBetween(name: seq<byte>, origin: seq<byte>, o: Outside): seq<Event> {
    var h := RegisterMerchant(name, origin, [], []);
    var cleared := Turn(Turn(Turn([] + [Arrive(h)], 0, o) + [Arrive(Reset)], 1, o), 1, o);
    Turn(Turn(Turn(Turn(Turn(cleared, 0, o), 0, o) + [Arrive(h)], 2, o), 2, o), 2, o)
  }

  lemma TakenBeforeReset(cfg: Config, name: seq<byte>, origin: seq<byte>, o: Outside)
    requires |name| <= RegistryData.MAX_NAME && o.paid && o.saved
    ensures var h := RegisterMerchant(name, origin, [], []);
      var s := Run(cfg, Turn(Turn(Turn([] + [Arrive(h)], 0, o) + [Arrive(Reset)], 1, o), 1, o));
      && s.storeLock.None? && s.registryLock.None? && s.shared.store.merchantPool == map[] && s.shared.stranded == {}
      && s.shared.registry.merchants == [] && s.threads == [Waiting(h, 1, 0), Finished(WasReset)]
  {
    hide Run, Setup, NewMerchant;
    var h := RegisterMerchant(name, origin, [], []);
    assert Run(cfg, []) == Initial(cfg) by { RunEmpty(cfg); }
    ArriveAlone(cfg, [], h);
    TurnIs(cfg, [] + [Arrive(h)], 0, o);
    var es := Turn([] + [Arrive(h)], 0, o);
    ArriveAlone(cfg, es, Reset);
    TurnIs(cfg, es + [Arrive(Reset)], 1, o);
    TurnIs(cfg, Turn(es + [Arrive(Reset)], 1, o), 1, o);
  }

  lemma EntersCleared(cfg: Config, name: seq<byte>, origin: seq<byte>, o: Outside)
    requires |name| <= RegistryData.MAX_NAME && o.paid && o.saved
    ensures var h := RegisterMerchant(name, origin, [], []);
      var cleared := Turn(Turn(Turn([] + [Arrive(h)], 0, o) + [Arrive(Reset)], 1, o), 1, o);
      var s := Run(cfg, Turn(Turn(cleared, 0, o), 0, o));
      && s.storeLock.None? && s.registryLock.None? && s.shared.store.merchantPool == map[] && s.shared.stranded == {}
      && s.shared.registry.merchants == [NewMerchant(name, origin).(merchantId := 1)]
      && s.threads == [Finished(MerchantRegistered(1)), Finished(WasReset)]
  {
    TakenBeforeReset(cfg, name, origin, o);
    hide Run, Setup, NewMerchant;
    var h := RegisterMerchant(name, origin, [], []);
    var cleared := Turn(Turn(Turn([] + [Arrive(h)], 0, o) + [Arrive(Reset)], 1, o), 1, o);
    hide Turn;
    TurnIs(cfg, cleared, 0, o);
    TurnIs(cfg, Turn(cleared, 0, o), 0, o);
  }

  /** Worse than an orphan: in a settled state, with no failed save, one name is registered
      twice, under two ids. */
  lemma ResetDoublesName(cfg: Config, name: seq<byte>, origin: seq<byte>, o: Outside)
    requires |name| <= RegistryData.MAX_NAME && o.paid && o.saved
    ensures var s := Run(cfg, ResetBetween(name, origin, o));
      && s.threads == [Finished(MerchantRegistered(1)), Finished(WasReset), Finished(MerchantRegistered(2))]
      && s.shared.stranded == {} && |s.shared.registry.merchants| == 2
      && s.shared.registry.merchants[0].name == s.shared.registry.merchants[1].name == name
      && !NamesOk(s)
  {
    EntersCleared(cfg, name, origin, o);
    NewMerchantName(name, origin);
    hide Run, Setup, NewMerchant;
    var h := RegisterMerchant(name, origin, [], []);
    var cleared := Turn(Turn(Turn([] + [Arrive(h)], 0, o) + [Arrive(Reset)], 1, o), 1, o);
    var es := Turn(Turn(cleared, 0, o), 0, o);
    assert ResetBetween(name, origin, o) == Turn(Turn(Turn(es + [Arrive(h)], 2, o), 2, o), 2, o);
    hide Turn, ResetBetween;
    ArriveAlone(cfg, es, h);
    TurnIs(cfg, es + [Arrive(h)], 2, o);
    TurnIs(cfg, Turn(es + [Arrive(h)], 2, o), 2, o);
    TurnIs(cfg, Turn(Turn(es + [Arrive(h)], 2, o), 2, o), 2, o);
    var ms := Run(cfg, ResetBetween(name, origin, o)).shared.registry.merchants;
    assert Labels(ms)[0] == Labels(ms)[1] == Some(name);
  }

  // ── a reset that nobody interrupts ─────────────────────────────────────────

  /** From any idle state a reset that runs from start to end leaves the service as it began. */
  lemma ResetRestarts(cfg: Config, es: seq<Event>, o: Outside)
    requires Run(cfg, es).storeLock.None? && Run(cfg, es).registryLock.None?
    ensures var s, t := Run(cfg, es), |Run(cfg, es).threads|;
      Run(cfg, Turn(Turn(es + [Arrive(Reset)], t, o), t, o))
      == Initial(cfg).(threads := s.threads + [Finished(WasReset)])
  {
    hide Run, Setup;
    var t := |Run(cfg, es).threads|;
    ArriveAlone(cfg, es, Reset);
    TurnIs(cfg, es + [Arrive(Reset)], t, o);
    TurnIs(cfg, Turn(es + [Arrive(Reset)], t, o), t, o);
  }

  // ── names that cannot be told apart ────────────────────────────────────────

  /** A merchant registers from start to end. */
  function Registers(es: seq<Event>, t: nat, name: seq<byte>, origin: seq<byte>, o: Outside): seq<Event> {
    Turn(Turn(Turn(es + [Arrive(RegisterMerchant(name, origin, [], []))], t, o), t, o), t, o)
  }

  lemma RegistersIs(cfg: Config, es: seq<Event>, name: seq<byte>, origin: seq<byte>, o: Outside)
    requires |name| <= RegistryData.MAX_NAME && o.paid && o.saved
    requires Run(cfg, es).storeLock.None? && Run(cfg, es).registryLock.None?
    requires name !in Run(cfg, es).shared.store.merchantPool
    ensures var s, s' := Run(cfg, es), Run(cfg, Registers(es, |Run(cfg, es).threads|, name, origin, o));
      && s'.storeLock.None? && s'.registryLock.None? && |s'.threads| == |s.threads| + 1
      && s'.shared.store.merchantPool.Keys == s.shared.store.merchantPool.Keys + {name}
      && s'.shared.registry.merchants
        == s.shared.registry.merchants + [NewMerchant(name, origin).(merchantId := |s.shared.registry.merchants| + 1)]
  {
    hide Run, NewMerchant;
    var h, t := RegisterMerchant(name, origin, [], []), |Run(cfg, es).threads|;
    ArriveAlone(cfg, es, h);
    hide Turn;
    TurnIs(cfg, es + [Arrive(h)], t, o);
    TurnIs(cfg, Turn(es + [Arrive(h)], t, o), t, o);
    TurnIs(cfg, Turn(Turn(es + [Arrive(h)], t, o), t, o), t, o);
  }

  lemma BothRegister(cfg: Config, name: seq<byte>, name': seq<byte>, origin: seq<byte>, o: Outside)
    requires |name| <= RegistryData.MAX_NAME && |name'| <= RegistryData.MAX_NAME && name != name' && o.paid && o.saved
    ensures var ms := Run(cfg, Registers(Registers([], 0, name, origin, o), 1, name', origin, o))
        .shared.registry.merchants;
      |ms| == 2 && ms[0].name == name && ms[1].name == name'
  {
    RunEmpty(cfg);
    NewMerchantName(name, origin); NewMerchantName(name', origin);
    RegistersIs(cfg, [], name, origin, o);
    hide Run, Registers, NewMerchant, Setup;
    RegistersIs(cfg, Registers([], 0, name, origin, o), name', origin, o);
  }

  /** The registry tells names apart by all their bytes, key derivation does not: a name and
      the name with a zero byte behind it register side by side, and every member has one
      nullifier and one pseudonym at both. */
  lemma ZeroNameRegisters(cfg: Config, name: seq<byte>, origin: seq<byte>, o: Outside, sk: Bytes32, r: Bytes32)
    requires |name| < 64 && o.paid && o.saved
    ensures var ms := Run(cfg, Registers(Registers([], 0, name, origin, o), 1, name + [0], origin, o))
        .shared.registry.merchants;
      && |ms| == 2 && ms[0].name == name && ms[1].name == name + [0]
      && DeriveNullifier(sk, ms[0].name) == DeriveNullifier(sk, ms[1].name)
      && ChildSecret(r, ms[0].name) == ChildSecret(r, ms[1].name)
  {
    hide Run, Registers, DeriveNullifier, ChildSecret;
    BothRegister(cfg, name, name + [0], origin, o);
    KeyDerivation.ZeroSharesKeys(sk, r, name);
  }
}
