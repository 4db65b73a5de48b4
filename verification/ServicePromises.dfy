/** What a handler has answered stays true until the registry is reset. */
module ServicePromises {
  import opened Bytes
  import opened Crs
  import opened CrsCodec
  import opened Merkle
  import opened RegistryData
  import opened Service
  import opened ServiceSafety

  /** This event is the one that replaces the pending registry. */
  predicate ClearsRegistry(s: System, e: Event) {
    && e.Advance? && CanStep(s, e.thread) && s.threads[e.thread].Inside?
    && s.threads[e.thread].h.Reset? && s.threads[e.thread].at > 0
  }

  /** The registry is not cleared while the run goes on from es with these events. */
  predicate Undisturbed(cfg: Config, es: seq<Event>, more: seq<Event>) {
    more == [] ||
    (Undisturbed(cfg, es, more[..|more| - 1]) && !ClearsRegistry(Run(cfg, es + more[..|more| - 1]), more[|more| - 1]))
  }

  /** Every promise of d is still a promise of d'. */
  ghost predicate Kept(d: Shared, d': Shared) {
    && (forall i :: i in d.placed ==> i in d'.placed && d'.placed[i] == d.placed[i])
    && (forall id :: id in d.named ==> id in d'.named && d'.named[id] == d.named[id])
  }

  lemma SectionKeeps(cfg: Config, h: Handler, at: nat, carry: nat, d: Shared, o: Outside)
    requires PendingOk(cfg, d) && !(h.Reset? && at > 0)
    ensures Kept(d, Section(cfg, h, at, carry, d, o).0)
  {
    hide Seal, AddToPool, MembersOf, ToBytes, MerkleRoot, NewMerchant, Setup, Anchored, NoDuplicates;
    if h.RegisterMerchant? && at == 1 { assert |d.registry.merchants| + 1 !in d.named; }
    if h.RegisterBeneficiary? { assert |d.registry.anonymitySet| !in d.placed; }
  }

  lemma {:induction false} PromisesKept(cfg: Config, es: seq<Event>, more: seq<Event>)
    requires Undisturbed(cfg, es, more)
    ensures Kept(Run(cfg, es).shared, Run(cfg, es + more).shared)
    decreases |more|
  {
    hide Section, PendingOk;
    if more == [] {
      assert es + more == es;
    } else {
      var n := |more| - 1;
      var init := es + more[..n];
      assert (es + more)[..|es| + n] == init && (es + more)[|es| + n] == more[n];
      PromisesKept(cfg, es, more[..n]);
      PendingAlwaysOk(cfg, init);
      var s := Run(cfg, init);
      if more[n].Advance? && CanStep(s, more[n].thread) && s.threads[more[n].thread].Inside? {
        var pc := s.threads[more[n].thread];
        SectionKeeps(cfg, pc.h, pc.at, pc.carry, s.shared, more[n].outside);
      }
    }
  }

  /** This step of a register_beneficiary handler answers with a position. */
  predicate AnswersPosition(cfg: Config, s: System, e: Event, phi: Bytes33, index: nat) {
    && e.Advance? && CanStep(s, e.thread) && s.threads[e.thread].Inside?
    && s.threads[e.thread].h.RegisterBeneficiary? && s.threads[e.thread].h.phi == phi
    && Exec(cfg, s, e).threads[e.thread] == Finished(BeneficiaryRegistered(index))
  }

  lemma PositionPromised(cfg: Config, s: System, e: Event, phi: Bytes33, index: nat)
    requires AnswersPosition(cfg, s, e, phi, index)
    ensures index in Exec(cfg, s, e).shared.placed && Exec(cfg, s, e).shared.placed[index] == phi
  {
    hide Relock;
  }

  /** A position, once returned, names the same commitment in every later state until
      the registry is cleared, whatever else interleaves. */
  lemma PositionStands(cfg: Config, es: seq<Event>, e: Event, more: seq<Event>, phi: Bytes33, index: nat)
    requires AnswersPosition(cfg, Run(cfg, es), e, phi, index) && Undisturbed(cfg, es + [e], more)
    ensures var r := Run(cfg, es + [e] + more).shared.registry;
      index < |r.anonymitySet| && r.anonymitySet[index] == phi
      && forall i :: 0 <= i < |r.anonymitySet| && r.anonymitySet[i] == phi ==> i == index
  {
    hide Exec, AnswersPosition, Undisturbed;
    assert (es + [e])[..|es|] == es;
    PositionPromised(cfg, Run(cfg, es), e, phi, index);
    PromisesKept(cfg, es + [e], more);
    PendingAlwaysOk(cfg, es + [e] + more);
  }

  /** This step of a register_merchant handler settles on an id. */
  predicate SettlesId(cfg: Config, s: System, e: Event, name: seq<byte>, origin: seq<byte>, id: nat) {
    && e.Advance? && CanStep(s, e.thread) && s.threads[e.thread].Inside?
    && s.threads[e.thread].h.RegisterMerchant? && s.threads[e.thread].at == 1
    && s.threads[e.thread].h.name == name && s.threads[e.thread].h.origin == origin
    && Exec(cfg, s, e).threads[e.thread].Waiting? && Exec(cfg, s, e).threads[e.thread].carry == id
  }

  /** A merchant id stands for the very merchant its client holds, in every later state
      until then, too. */
  lemma IdStands(cfg: Config, es: seq<Event>, e: Event, more: seq<Event>, name: seq<byte>, origin: seq<byte>, id: nat)
    requires SettlesId(cfg, Run(cfg, es), e, name, origin, id) && Undisturbed(cfg, es + [e], more)
    ensures var r := Run(cfg, es + [e] + more).shared.registry;
      1 <= id <= |r.merchants| && r.merchants[id - 1] == NewMerchant(name, origin).(merchantId := id)
  {
    hide Undisturbed, NewMerchant;
    assert (es + [e])[..|es|] == es;
    assert id in Run(cfg, es + [e]).shared.named
      && Run(cfg, es + [e]).shared.named[id] == NewMerchant(name, origin).(merchantId := id);
    PromisesKept(cfg, es + [e], more);
    PendingAlwaysOk(cfg, es + [e] + more);
  }

  /** Without resets nothing is ever cleared. */
  lemma {:induction false} NoResetsUndisturbed(cfg: Config, es: seq<Event>, more: seq<Event>)
    requires NoResets(es + more)
    ensures Undisturbed(cfg, es, more)
    decreases |more|
  {
    hide Exec;
    if more != [] {
      var n := |more| - 1;
      var init := es + more[..n];
      assert (es + more)[..|es| + n] == init;
      NoResetsPrefix(es + more);
      NoResetsUndisturbed(cfg, es, more[..n]);
      NoResetThreads(cfg, init);
    }
  }

  /** A handler on its way to answer this id, or done with it. */
  predicate CarriesId(s: System, t: nat, id: nat) {
    && t < |s.threads|
    && var pc := s.threads[t];
       if pc.Finished? then pc == Finished(MerchantRegistered(id))
       else pc.h.RegisterMerchant? && pc.at == 2 && pc.carry == id
  }

  lemma ExecCarriesId(cfg: Config, s: System, e: Event, t: nat, id: nat)
    requires CarriesId(s, t, id)
    ensures CarriesId(Exec(cfg, s, e), t, id)
  {
    hide Relock;
    if e.Advance? && e.thread == t && CanStep(s, t) {
      hide NewMerchant, Setup, AddToPool, WithMerchant;
    } else {
      hide Section;
    }
  }

  lemma SettledCarries(cfg: Config, s: System, e: Event, name: seq<byte>, origin: seq<byte>, id: nat)
    requires SettlesId(cfg, s, e, name, origin, id)
    ensures CarriesId(Exec(cfg, s, e), e.thread, id)
  {
    hide NewMerchant, Relock, WithMerchant;
  }

  /** A handler that settled on an id answers that id and no other, whatever else interleaves. */
  lemma {:induction false} SettledIdAnswered(cfg: Config, es: seq<Event>, e: Event, more: seq<Event>,
                                             name: seq<byte>, origin: seq<byte>, id: nat)
    requires SettlesId(cfg, Run(cfg, es), e, name, origin, id)
    ensures CarriesId(Run(cfg, es + [e] + more), e.thread, id)
    decreases |more|
  {
    hide Exec, CarriesId;
    if more == [] {
      assert es + [e] + more == es + [e] && (es + [e])[..|es|] == es;
      SettledCarries(cfg, Run(cfg, es), e, name, origin, id);
    } else {
      var n := |more| - 1;
      var init := es + [e] + more[..n];
      assert (es + [e] + more)[..|init|] == init && (es + [e] + more)[|init|] == more[n];
      SettledIdAnswered(cfg, es, e, more[..n], name, origin, id);
      ExecCarriesId(cfg, Run(cfg, init), more[n], e.thread, id);
    }
  }

  // ── sealing ────────────────────────────────────────────────────────────────

  /** This step runs the second section of finalize_set. */
  predicate Seals(s: System, e: Event) {
    && e.Advance? && CanStep(s, e.thread) && s.threads[e.thread].Inside?
    && s.threads[e.thread].h.FinalizeSet? && s.threads[e.thread].at > 0
  }

  /** What finalize_set answers: the id it returns is one under which the pending registry has
      just been filed; a failure has filed nothing, unless the database refused a set that
      was broadcast and filed before. */
  lemma SealingAnswers(cfg: Config, s: System, e: Event)
    requires Seals(s, e)
    ensures var s', sets := Exec(cfg, s, e), s.shared.store.activeSets;
      var filed := ActiveSet(Anchored(s.shared.registry), cfg.capacity, cfg.minSats, true);
      match s'.threads[e.thread]
      case Finished(SetSealed(id)) => s'.shared.store.activeSets == sets[id := filed]
      case Finished(StoreFailed(DatabaseError)) =>
        e.outside.txid.Some? && s'.shared.store.activeSets == sets[e.outside.txid.value := filed]
      case Finished(StoreFailed(_)) => s'.shared.store.activeSets == sets
      case _ => false
  {
    hide MerkleRoot, Relock;
  }

  /** An answered set id names that very set in every later state: its members are those
      pending when it was sealed, under their Merkle root, with the CRS of the merchants then. */
  lemma SealedStands(cfg: Config, es: seq<Event>, e: Event, more: seq<Event>, id: Bytes32)
    requires NoResets(es + [e] + more) && FreshTxids(cfg, es + [e] + more)
    requires Seals(Run(cfg, es), e) && Exec(cfg, Run(cfg, es), e).threads[e.thread] == Finished(SetSealed(id))
    ensures var r, sets := Run(cfg, es).shared.registry, Run(cfg, es + [e] + more).shared.store.activeSets;
      && id in sets && sets[id].registry.anonymitySet == r.anonymitySet != []
      && sets[id].registry.merchants == r.merchants && sets[id].registry.outputs == r.outputs
      && sets[id].registry.crs == Setup(r.merchants, cfg.capacity)
      && sets[id].registry.setId == MerkleRoot(r.anonymitySet)
  {
    hide Exec, Setup, Seals, FreshTxids, NoResets, MerkleRoot;
    assert (es + [e])[..|es|] == es && es + [e] + more == (es + [e]) + more;
    SealingAnswers(cfg, Run(cfg, es), e);
    SealedFrozen(cfg, es + [e], more, id);
    SealedAlwaysInOrder(cfg, es + [e] + more);
    var d := Run(cfg, es + [e] + more).shared;
    assert d.store.activeSets[id].registry.setId == MerkleRoot(d.store.activeSets[id].registry.anonymitySet)
      && d.store.activeSets[id].registry.crs == Setup(d.store.activeSets[id].registry.merchants, cfg.capacity) by {
      var i :| 0 <= i < |d.sealed| && d.sealed[i] == id;
      assert SnapshotOk(cfg, d.store.activeSets[d.sealed[i]]);
    }
  }

  // ── writing and reading ────────────────────────────────────────────────────

  lemma SectionNeedsStore(cfg: Config, h: Handler, at: nat, carry: nat, d: Shared, o: Outside)
    ensures Section(cfg, h, at, carry, d, o).0.store == d.store || Holds(Inside(h, at, carry), StoreLock)
  {
    hide MembersOf, ToBytes, MerkleRoot, NewMerchant, Setup, Seal, AddToPool;
  }

  /** In every run only the handler named in a lock's word changes what the lock protects. */
  lemma WritesUnderLock(cfg: Config, es: seq<Event>, e: Event)
    ensures var s, s' := Run(cfg, es), Exec(cfg, Run(cfg, es), e);
      && (s'.shared.store != s.shared.store ==> e.Advance? && s.storeLock == Some(e.thread))
      && (s'.shared.registry != s.shared.registry ==> e.Advance? && s.registryLock == Some(e.thread))
  {
    hide Run, Section, Relock, Holds;
    RunLocks(cfg, es);
    var s := Run(cfg, es);
    if e.Advance? && CanStep(s, e.thread) && s.threads[e.thread].Inside? {
      var pc := s.threads[e.thread];
      SectionNeedsStore(cfg, pc.h, pc.at, pc.carry, s.shared, e.outside);
      SectionNeedsLock(cfg, pc.h, pc.at, pc.carry, s.shared, e.outside);
      assert Holds(pc, StoreLock) <==> LockHolder(s, StoreLock) == Some(e.thread);
      assert Holds(pc, RegistryLock) <==> LockHolder(s, RegistryLock) == Some(e.thread);
    }
  }

  /** Who asks for a set, and for which. */
  function AsksFor(h: Handler): Option<Bytes32> {
    match h
    case GetCrs(id) => Some(id)
    case GetAnonymitySet(id) => Some(id)
    case Subscribe(id) => Some(id)
    case _ => None
  }

  /** In reset-free runs a reader learns of a set exactly when it has been sealed: before
      that it is told so or goes on polling, and it never changes anything. */
  lemma ReadsExactlySealed(cfg: Config, es: seq<Event>, t: nat, o: Outside, id: Bytes32)
    requires NoResets(es) && FreshTxids(cfg, es)
    requires CanStep(Run(cfg, es), t) && Run(cfg, es).threads[t].Inside?
    requires AsksFor(Run(cfg, es).threads[t].h) == Some(id)
    ensures var s, s' := Run(cfg, es), Exec(cfg, Run(cfg, es), Advance(t, o));
      && s'.shared == s.shared
      && (s'.threads[t] in {Finished(UnknownSet), Waiting(Subscribe(id), 0, 0), Finished(StreamClosed)}
          <==> id !in s.shared.sealed)
  {
    hide Run, FreshTxids, NoResets, ToBytes, PaddedSet, SnapshotOk, Extends, NoDuplicates, Relock;
    SealedAlwaysInOrder(cfg, es);
  }

  // ── names ──────────────────────────────────────────────────────────────────

  /** A merchant past the store has a name that fits. */
  predicate FitsPast(pc: Pc) {
    !pc.Finished? && pc.h.RegisterMerchant? && pc.at > 0 ==> |pc.h.name| <= 255
  }

  ghost predicate NamesFit(s: System) {
    && (forall i :: 0 <= i < |s.shared.registry.merchants| ==> |s.shared.registry.merchants[i].name| <= 255)
    && (forall t :: 0 <= t < |s.threads| ==> FitsPast(s.threads[t]))
  }

  lemma SectionFits(cfg: Config, h: Handler, at: nat, carry: nat, d: Shared, o: Outside)
    requires FitsPast(Inside(h, at, carry))
    requires forall i :: 0 <= i < |d.registry.merchants| ==> |d.registry.merchants[i].name| <= 255
    ensures var (d', to) := Section(cfg, h, at, carry, d, o);
      FitsPast(to) && forall i :: 0 <= i < |d'.registry.merchants| ==> |d'.registry.merchants[i].name| <= 255
  {
    hide MembersOf, ToBytes, MerkleRoot, Setup, Seal;
  }

  /** Every registered name is within the limit a CRS is parsed with, in every run. */
  lemma {:induction false} NamesAlwaysFit(cfg: Config, es: seq<Event>)
    ensures NamesFit(Run(cfg, es))
  {
    hide Section, FitsPast, Relock;
    if es == [] {
      hide Setup;
    } else {
      var s := Run(cfg, es[..|es| - 1]);
      NamesAlwaysFit(cfg, es[..|es| - 1]);
      match es[|es| - 1]
      case Arrive(h) => assert FitsPast(Waiting(h, 0, 0)) by { NewFits(h); }
      case Advance(t, o) =>
        if CanStep(s, t) {
          var pc := s.threads[t];
          if pc.Inside? { SectionFits(cfg, pc.h, pc.at, pc.carry, s.shared, o); } else { EnteringFits(pc); }
        }
    }
  }

  lemma NewFits(h: Handler)
    ensures FitsPast(Waiting(h, 0, 0))
  {}

  lemma EnteringFits(pc: Pc)
    requires pc.Waiting? && FitsPast(pc)
    ensures FitsPast(Inside(pc.h, pc.at, pc.carry))
  {}
}
