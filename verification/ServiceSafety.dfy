/** What every interleaving of the service's handlers keeps. */
module ServiceSafety {
  import opened Bytes
  import opened Crs
  import opened CrsCodec
  import opened Merkle
  import opened RegistryData
  import opened Service

  // ── the pending set, in all runs ───────────────────────────────────────────

  /** Commitments are distinct, within capacity and aligned with their payments; ids are
      positions; and every position or id ever returned still names what it did. */
  ghost predicate PendingOk(cfg: Config, d: Shared) {
    var r := d.registry;
    && NoDuplicates(r.anonymitySet) && |r.anonymitySet| <= cfg.capacity && |r.outputs| == |r.anonymitySet|
    && r.setSize == cfg.capacity
    && (forall i :: 0 <= i < |r.merchants| ==> r.merchants[i].merchantId == i + 1)
    && (forall i :: i in d.placed ==> i < |r.anonymitySet| && r.anonymitySet[i] == d.placed[i])
    && (forall id :: id in d.named ==> 1 <= id <= |r.merchants| && r.merchants[id - 1] == d.named[id])
  }

  lemma SectionPending(cfg: Config, h: Handler, at: nat, carry: nat, d: Shared, o: Outside)
    requires PendingOk(cfg, d)
    ensures PendingOk(cfg, Section(cfg, h, at, carry, d, o).0)
  {
    hide Seal, AddToPool, MembersOf, ToBytes, MerkleRoot, NewMerchant, Setup;
    match h
    case RegisterMerchant(_, _, _, _) => MerchantPending(cfg, h, at, carry, d, o);
    case RegisterBeneficiary(_, _) => BeneficiaryPending(cfg, h, at, d, o);
    case _ =>
  }

  lemma MerchantPending(cfg: Config, h: Handler, at: nat, carry: nat, d: Shared, o: Outside)
    requires PendingOk(cfg, d) && h.RegisterMerchant?
    ensures PendingOk(cfg, MerchantSection(h, at, carry, d, o).0)
  {
    hide AddToPool, NoDuplicates;
    if at == 1 {
      var d' := MerchantSection(h, at, carry, d, o).0;
      var n := |d.registry.merchants|;
      assert d'.registry.merchants == d.registry.merchants + [NewMerchant(h.name, h.origin).(merchantId := n + 1)];
      assert d'.named == d.named[n + 1 := d'.registry.merchants[n]];
    }
  }

  lemma BeneficiaryPending(cfg: Config, h: Handler, at: nat, d: Shared, o: Outside)
    requires PendingOk(cfg, d) && h.RegisterBeneficiary?
    ensures PendingOk(cfg, BeneficiarySection(cfg, h, at, d, o).0)
  {
    var r := d.registry;
    if at > 0 && |r.anonymitySet| < cfg.capacity && h.phi !in r.anonymitySet {
      var d' := BeneficiarySection(cfg, h, at, d, o).0;
      assert d'.registry.anonymitySet == r.anonymitySet + [h.phi];
      assert d'.placed == d.placed[|r.anonymitySet| := h.phi];
    }
  }

  /** In every interleaving, resets included. */
  lemma {:induction false} PendingAlwaysOk(cfg: Config, es: seq<Event>)
    ensures PendingOk(cfg, Run(cfg, es).shared)
  {
    if es != [] {
      hide PendingOk, Section;
      PendingAlwaysOk(cfg, es[..|es| - 1]);
      var s := Run(cfg, es[..|es| - 1]);
      match es[|es| - 1]
      case Arrive(h) =>
      case Advance(t, o) =>
        if CanStep(s, t) && s.threads[t].Inside? {
          SectionPending(cfg, s.threads[t].h, s.threads[t].at, s.threads[t].carry, s.shared, o);
        }
    }
  }

  // ── growth without resets ──────────────────────────────────────────────────

  predicate NoResets(es: seq<Event>) {
    forall i :: 0 <= i < |es| && es[i].Arrive? ==> !es[i].h.Reset?
  }

  predicate Quiet(pc: Pc) { pc.Finished? || !pc.h.Reset? }

  lemma {:induction false} NoResetThreads(cfg: Config, es: seq<Event>)
    requires NoResets(es)
    ensures forall t :: 0 <= t < |Run(cfg, es).threads| ==> Quiet(Run(cfg, es).threads[t])
  {
    if es != [] {
      hide WithMerchant, WithBeneficiary, WithCrs, Seal, AddToPool, MembersOf, ToBytes, Anchored;
      NoResetThreads(cfg, es[..|es| - 1]);
    }
  }

  /** The registry only gains members and merchants. */
  ghost predicate Extends(r: Pending, r': Pending) {
    && r.merchants <= r'.merchants && r.anonymitySet <= r'.anonymitySet
    && r.outputs <= r'.outputs && r.setSize == r'.setSize
  }

  /** Only finalize_set files sets, and only under the broadcast txid. */
  lemma SectionGrows(cfg: Config, h: Handler, at: nat, carry: nat, d: Shared, o: Outside)
    requires !h.Reset?
    ensures var d' := Section(cfg, h, at, carry, d, o).0;
      && Extends(d.registry, d'.registry)
      && ((d'.store.activeSets == d.store.activeSets && d'.sealed == d.sealed)
          || (h.FinalizeSet? && at > 0 && o.txid.Some? && d.registry.anonymitySet != []
              && d'.registry == Anchored(d.registry)
              && d'.sealed == d.sealed + [o.txid.value]
              && d'.store.activeSets == d.store.activeSets[
                   o.txid.value := ActiveSet(Anchored(d.registry), cfg.capacity, cfg.minSats, true)]))
  {
    hide MembersOf, ToBytes, MerkleRoot, NewMerchant, Setup;
  }

  predicate PastSetup(pc: Pc) { !pc.Finished? && pc.h.FinalizeSet? && pc.at > 0 }

  /** finalize_set has taken the registry lock and rebuilt the CRS. */
  ghost predicate SetupHeld(s: System) {
    forall t :: 0 <= t < |s.threads| && PastSetup(s.threads[t]) ==>
      s.shared.registry.crs == Setup(s.shared.registry.merchants, s.shared.registry.setSize)
  }

  /** Only a holder of the registry lock changes the registry. */
  lemma SectionNeedsLock(cfg: Config, h: Handler, at: nat, carry: nat, d: Shared, o: Outside)
    ensures Section(cfg, h, at, carry, d, o).0.registry == d.registry || Holds(Inside(h, at, carry), RegistryLock)
  {
    hide MembersOf, ToBytes, MerkleRoot, NewMerchant, Setup, Seal, AddToPool;
  }

  lemma FinalizeKeepsCrs(cfg: Config, h: Handler, at: nat, carry: nat, d: Shared, o: Outside)
    requires h.FinalizeSet? && (at > 0 ==> d.registry.crs == Setup(d.registry.merchants, d.registry.setSize))
    ensures var r := Section(cfg, h, at, carry, d, o).0.registry; r.crs == Setup(r.merchants, r.setSize)
  {
    hide MerkleRoot, Setup, Seal;
  }

  /** Whoever else may be past setup holds the registry lock too, so nobody is. */
  lemma ExecSetupHeld(cfg: Config, s: System, e: Event)
    requires SetupHeld(s) && LocksAgree(s)
    ensures SetupHeld(Exec(cfg, s, e))
  {
    hide Section, Setup, Relock;
    match e
    case Arrive(h) =>
    case Advance(t, o) =>
      if CanStep(s, t) && s.threads[t].Inside? {
        var pc := s.threads[t];
        SectionNeedsLock(cfg, pc.h, pc.at, pc.carry, s.shared, o);
        SectionTarget(cfg, pc.h, pc.at, pc.carry, s.shared, o);
        if pc.h.FinalizeSet? { FinalizeKeepsCrs(cfg, pc.h, pc.at, pc.carry, s.shared, o); }
        forall u | 0 <= u < |s.threads| && u != t && PastSetup(s.threads[u])
          ensures Section(cfg, pc.h, pc.at, pc.carry, s.shared, o).0.registry == s.shared.registry
        {
          assert Holds(s.threads[u], RegistryLock);
          assert LockHolder(s, RegistryLock) == Some(u);
        }
      }
  }

  /** A section leads only to a later section of the same handler. */
  lemma SectionTarget(cfg: Config, h: Handler, at: nat, carry: nat, d: Shared, o: Outside)
    ensures var to := Section(cfg, h, at, carry, d, o).1; to.Finished? || (to.Waiting? && to.h == h)
  {
    hide WithMerchant, WithBeneficiary, WithCrs, Seal, AddToPool, MembersOf, ToBytes, Anchored;
  }

  lemma {:induction false} SetupAlwaysHeld(cfg: Config, es: seq<Event>)
    ensures SetupHeld(Run(cfg, es))
  {
    hide Exec;
    if es != [] {
      SetupAlwaysHeld(cfg, es[..|es| - 1]);
      RunLocks(cfg, es[..|es| - 1]);
      ExecSetupHeld(cfg, Run(cfg, es[..|es| - 1]), es[|es| - 1]);
    }
  }

  // ── sealed sets ────────────────────────────────────────────────────────────

  /** If this event broadcasts a commitment transaction, its txid was not used before. */
  predicate FreshTxid(s: System, e: Event) {
    (e.Advance? && CanStep(s, e.thread) && s.threads[e.thread].Inside? && s.threads[e.thread].h.FinalizeSet?
     && e.outside.txid.Some?) ==> e.outside.txid.value !in s.shared.store.activeSets
  }

  predicate FreshTxids(cfg: Config, es: seq<Event>) {
    es == [] || (FreshTxids(cfg, es[..|es| - 1]) && FreshTxid(Run(cfg, es[..|es| - 1]), es[|es| - 1]))
  }

  /** A sealed snapshot: a non-empty set within capacity and a CRS built from its merchants. */
  ghost predicate SnapshotOk(cfg: Config, a: ActiveSet) {
    var r := a.registry;
    && a.finalized && a.capacity == cfg.capacity
    && r.crs == Setup(r.merchants, cfg.capacity)
    && r.anonymitySet != [] && NoDuplicates(r.anonymitySet) && |r.anonymitySet| <= cfg.capacity
    && r.setId == MerkleRoot(r.anonymitySet)
    && (forall i :: 0 <= i < |r.merchants| ==> r.merchants[i].merchantId == i + 1)
  }

  /** The sets sealed so far, in order, each extended by the next and the last by the
      pending registry. */
  ghost predicate SealedInOrder(cfg: Config, d: Shared) {
    && (forall id :: id in d.store.activeSets <==> id in d.sealed)
    && (forall i :: 0 <= i < |d.sealed| ==> d.sealed[i] in d.store.activeSets)
    && NoDuplicates(d.sealed)
    && (forall i :: 0 <= i < |d.sealed| ==>
          SnapshotOk(cfg, d.store.activeSets[d.sealed[i]])
            && Extends(d.store.activeSets[d.sealed[i]].registry, d.registry))
    && (forall i, j :: 0 <= i < j < |d.sealed| ==>
          Extends(d.store.activeSets[d.sealed[i]].registry, d.store.activeSets[d.sealed[j]].registry))
  }

  lemma ExtendsTransitive(a: Pending, b: Pending, c: Pending)
    requires Extends(a, b) && Extends(b, c)
    ensures Extends(a, c)
  {}

  lemma SealedKeeps(cfg: Config, d: Shared, d': Shared)
    requires SealedInOrder(cfg, d) && Extends(d.registry, d'.registry)
    requires d'.store.activeSets == d.store.activeSets && d'.sealed == d.sealed
    ensures SealedInOrder(cfg, d')
  {
    hide SnapshotOk, NoDuplicates, Extends;
    forall i | 0 <= i < |d.sealed| ensures Extends(d.store.activeSets[d.sealed[i]].registry, d'.registry) {
      ExtendsTransitive(d.store.activeSets[d.sealed[i]].registry, d.registry, d'.registry);
    }
  }

  lemma SealedAdds(cfg: Config, d: Shared, d': Shared, id: Bytes32, a: ActiveSet)
    requires SealedInOrder(cfg, d) && Extends(d.registry, d'.registry) && id !in d.store.activeSets
    requires d'.store.activeSets == d.store.activeSets[id := a] && d'.sealed == d.sealed + [id]
    requires SnapshotOk(cfg, a) && a.registry == d'.registry
    ensures SealedInOrder(cfg, d')
  {
    hide SnapshotOk, Extends;
    var n := |d.sealed|;
    assert d'.sealed[n] == id;
    ExtendsItself(a.registry);
    forall i | 0 <= i < n
      ensures d'.sealed[i] == d.sealed[i] && d'.sealed[i] in d.store.activeSets
      ensures Extends(d.store.activeSets[d.sealed[i]].registry, d'.registry)
    {
      ExtendsTransitive(d.store.activeSets[d.sealed[i]].registry, d.registry, d'.registry);
    }
    forall k ensures k in d'.store.activeSets <==> k in d'.sealed {
      if k in d.store.activeSets {
        var i :| 0 <= i < n && d.sealed[i] == k;
        assert d'.sealed[i] == k;
      }
      if k in d'.sealed && k != id { assert k in d.sealed; }
    }
  }

  lemma ExtendsItself(a: Pending)
    ensures Extends(a, a)
  {}

  lemma NewSnapshot(cfg: Config, d: Shared)
    requires PendingOk(cfg, d) && d.registry.anonymitySet != []
    requires d.registry.crs == Setup(d.registry.merchants, d.registry.setSize)
    ensures SnapshotOk(cfg, ActiveSet(Anchored(d.registry), cfg.capacity, cfg.minSats, true))
  {
    hide MerkleRoot, Setup, NoDuplicates;
  }

  lemma ExecSealed(cfg: Config, s: System, e: Event)
    requires SealedInOrder(cfg, s.shared) && PendingOk(cfg, s.shared) && SetupHeld(s) && FreshTxid(s, e)
    requires forall t :: 0 <= t < |s.threads| ==> Quiet(s.threads[t])
    ensures SealedInOrder(cfg, Exec(cfg, s, e).shared)
    ensures forall id :: id in s.shared.store.activeSets ==>
      id in Exec(cfg, s, e).shared.store.activeSets
      && Exec(cfg, s, e).shared.store.activeSets[id] == s.shared.store.activeSets[id]
  {
    hide Section, Setup, SealedInOrder, PendingOk, Relock, Extends, Anchored;
    match e
    case Arrive(h) =>
    case Advance(t, o) =>
      if CanStep(s, t) && s.threads[t].Inside? {
        var pc, d := s.threads[t], s.shared;
        var d' := Section(cfg, pc.h, pc.at, pc.carry, d, o).0;
        SectionGrows(cfg, pc.h, pc.at, pc.carry, d, o);
        if d'.store.activeSets == d.store.activeSets && d'.sealed == d.sealed {
          SealedKeeps(cfg, d, d');
        } else {
          NewSnapshot(cfg, d);
          SealedAdds(cfg, d, d', o.txid.value, ActiveSet(Anchored(d.registry), cfg.capacity, cfg.minSats, true));
        }
      }
  }

  lemma NoResetsPrefix(es: seq<Event>)
    requires es != [] && NoResets(es)
    ensures NoResets(es[..|es| - 1])
  {}

  /** In every reset-free run with fresh txids the sealed sets form a chain. */
  lemma {:induction false} SealedAlwaysInOrder(cfg: Config, es: seq<Event>)
    requires NoResets(es) && FreshTxids(cfg, es)
    ensures SealedInOrder(cfg, Run(cfg, es).shared)
  {
    hide Exec, SealedInOrder, PendingOk, SetupHeld, FreshTxid, Quiet, NoResets;
    if es == [] {
      NothingSealed(cfg);
    } else {
      var init := es[..|es| - 1];
      NoResetsPrefix(es);
      SealedAlwaysInOrder(cfg, init);
      PendingAlwaysOk(cfg, init); SetupAlwaysHeld(cfg, init); NoResetThreads(cfg, init);
      ExecSealed(cfg, Run(cfg, init), es[|es| - 1]);
    }
  }

  lemma NothingSealed(cfg: Config)
    ensures SealedInOrder(cfg, Initial(cfg).shared)
  {}

  /** A sealed set is frozen: however the run goes on, its entry never changes. */
  lemma {:induction false} SealedFrozen(cfg: Config, es: seq<Event>, more: seq<Event>, id: Bytes32)
    requires NoResets(es + more) && FreshTxids(cfg, es + more)
    requires id in Run(cfg, es).shared.store.activeSets
    ensures id in Run(cfg, es + more).shared.store.activeSets
    ensures Run(cfg, es + more).shared.store.activeSets[id] == Run(cfg, es).shared.store.activeSets[id]
    decreases |more|
  {
    hide Exec, SealedInOrder, PendingOk, SetupHeld, FreshTxid, Quiet, NoResets;
    if more == [] {
      assert es + more == es;
    } else {
      var n := |more| - 1;
      var init := es + more[..n];
      assert (es + more)[..|es| + n] == init && (es + more)[|es| + n] == more[n];
      NoResetsPrefix(es + more);
      SealedFrozen(cfg, es, more[..n], id);
      SealedAlwaysInOrder(cfg, init);
      PendingAlwaysOk(cfg, init); SetupAlwaysHeld(cfg, init); NoResetThreads(cfg, init);
      ExecSealed(cfg, Run(cfg, init), more[n]);
    }
  }

  /** Of two sealed sets the earlier one's merchants and members are prefixes of the
      later one's, so merchant l keeps its generator, its id and its name. */
  lemma SealedSetsExtend(cfg: Config, es: seq<Event>, i: nat, j: nat)
    requires NoResets(es) && FreshTxids(cfg, es) && i < j < |Run(cfg, es).shared.sealed|
    ensures var d := Run(cfg, es).shared;
      && d.sealed[i] in d.store.activeSets && d.sealed[j] in d.store.activeSets
      && var a, b := d.store.activeSets[d.sealed[i]].registry, d.store.activeSets[d.sealed[j]].registry;
      && a.anonymitySet <= b.anonymitySet && a.merchants <= b.merchants && a.crs.generators <= b.crs.generators
      && a.crs.g == b.crs.g && a.crs.hName == b.crs.hName
      && forall l :: 0 <= l < |a.merchants| ==> b.merchants[l] == a.merchants[l] && b.merchants[l].merchantId == l + 1
  {
    hide Run, FreshTxids, NoResets, MerkleRoot;
    SealedAlwaysInOrder(cfg, es);
    var d := Run(cfg, es).shared;
    assert SnapshotOk(cfg, d.store.activeSets[d.sealed[i]]) && SnapshotOk(cfg, d.store.activeSets[d.sealed[j]]);
  }
}
