/** Where every payment goes, in every run of the service. */
module Payments {
  import opened Bytes
  import opened Counting
  import opened Crs
  import opened CrsCodec
  import opened Merkle
  import opened RegistryData
  import opened Service

  /** What a payment that was found is for. */
  datatype Deposit = ForMember(phi: Bytes33, output: OutPoint) | ForName(name: seq<byte>)

  // ── what the events do ─────────────────────────────────────────────────────

  predicate RunsSection(s: System, e: Event) {
    e.Advance? && CanStep(s, e.thread) && s.threads[e.thread].Inside?
  }

  /** The deposit whose payment a first section finds. The pool answers for a taken name
      before it looks for a payment. */
  function FoundIn(h: Handler, at: nat, d: Shared, o: Outside): Option<Deposit> {
    if at != 0 || !o.paid then None
    else match h
      case RegisterBeneficiary(phi, output) => Some(ForMember(phi, output))
      case RegisterMerchant(name, _, _, _) => if name in d.store.merchantPool then None else Some(ForName(name))
      case _ => None
  }

  /** The deposit that is refused after its payment was found. */
  function RefusedIn(cfg: Config, h: Handler, at: nat, d: Shared, o: Outside): Option<Deposit> {
    match h
    case RegisterBeneficiary(phi, output) =>
      if at > 0 && (|d.registry.anonymitySet| >= cfg.capacity || phi in d.registry.anonymitySet)
      then Some(ForMember(phi, output)) else None
    case RegisterMerchant(name, _, _, _) =>
      if FoundIn(h, at, d, o).Some? && (|name| > RegistryData.MAX_NAME || !o.saved) then Some(ForName(name)) else None
    case _ => None
  }

  function Found(s: System, e: Event): multiset<Deposit> {
    if !RunsSection(s, e) then multiset{}
    else One(FoundIn(s.threads[e.thread].h, s.threads[e.thread].at, s.shared, e.outside))
  }

  function Refused(cfg: Config, s: System, e: Event): multiset<Deposit> {
    if !RunsSection(s, e) then multiset{}
    else One(RefusedIn(cfg, s.threads[e.thread].h, s.threads[e.thread].at, s.shared, e.outside))
  }

  function Forgotten(s: System, e: Event): multiset<Deposit> {
    if RunsSection(s, e) && s.threads[e.thread].h.Reset? && s.threads[e.thread].at > 0
    then Recorded(s.shared.registry) else multiset{}
  }

  function AllFound(cfg: Config, es: seq<Event>): multiset<Deposit> {
    if es == [] then multiset{} else
      AllFound(cfg, es[..|es| - 1]) + Found(Run(cfg, es[..|es| - 1]), es[|es| - 1])
  }

  /** All that was refused after its payment, or registered and then forgotten by a reset. */
  function AllGone(cfg: Config, es: seq<Event>): multiset<Deposit> {
    if es == [] then multiset{} else
      AllGone(cfg, es[..|es| - 1])
      + (Refused(cfg, Run(cfg, es[..|es| - 1]), es[|es| - 1]) + Forgotten(Run(cfg, es[..|es| - 1]), es[|es| - 1]))
  }

  // ── what the state holds ───────────────────────────────────────────────────

  function MemberDeposits(r: Pending): (s: seq<Option<Deposit>>)
    ensures |s| == |r.anonymitySet|
  {
    seq(|r.anonymitySet|, i requires 0 <= i < |r.anonymitySet| =>
      if i < |r.outputs| then Some(ForMember(r.anonymitySet[i], r.outputs[i])) else None)
  }

  function NameDeposits(ms: seq<Merchant>): (s: seq<Option<Deposit>>)
    ensures |s| == |ms|
  {
    seq(|ms|, i requires 0 <= i < |ms| => Some(ForName(ms[i].name)))
  }

  /** The deposits of the pending registry: commitments with their outputs, and merchants. */
  function Recorded(r: Pending): multiset<Deposit> {
    Occurrences(MemberDeposits(r)) + Occurrences(NameDeposits(r.merchants))
  }

  /** A deposit between its payment and its place in the registry. */
  function Carried(pc: Pc): Option<Deposit> {
    if pc.Finished? then None
    else match pc.h
      case RegisterBeneficiary(phi, output) => if pc.at > 0 then Some(ForMember(phi, output)) else None
      case RegisterMerchant(name, _, _, _) => if pc.at == 1 then Some(ForName(name)) else None
      case _ => None
  }

  function CarriedBy(threads: seq<Pc>): (s: seq<Option<Deposit>>)
    ensures |s| == |threads|
  {
    seq(|threads|, i requires 0 <= i < |threads| => Carried(threads[i]))
  }

  // ── one section ────────────────────────────────────────────────────────────

  predicate Paired(d: Shared) { |d.registry.outputs| == |d.registry.anonymitySet| }

  lemma MemberJoins(r: Pending, phi: Bytes33, output: OutPoint)
    requires |r.outputs| == |r.anonymitySet|
    ensures Recorded(WithBeneficiary(r, phi, output)) == Recorded(r) + multiset{ForMember(phi, output)}
  {
    hide Occurrences;
    var r' := WithBeneficiary(r, phi, output);
    assert MemberDeposits(r') == MemberDeposits(r) + [Some(ForMember(phi, output))];
    OccurrencesPush(MemberDeposits(r), Some(ForMember(phi, output)));
  }

  lemma MerchantJoins(r: Pending, name: seq<byte>, origin: seq<byte>)
    ensures Recorded(WithMerchant(r, NewMerchant(name, origin))) == Recorded(r) + multiset{ForName(name)}
  {
    hide Occurrences;
    var r' := WithMerchant(r, NewMerchant(name, origin));
    assert NameDeposits(r'.merchants) == NameDeposits(r.merchants) + [Some(ForName(name))];
    OccurrencesPush(NameDeposits(r.merchants), Some(ForName(name)));
    assert MemberDeposits(r') == MemberDeposits(r);
  }

  lemma NothingRecorded(size: nat)
    ensures Recorded(EmptyRegistry(size)) == multiset{}
  {
    hide Setup;
    var r := EmptyRegistry(size);
    assert r.anonymitySet == [] && r.merchants == [];
    assert MemberDeposits(r) == [] && NameDeposits(r.merchants) == [];
  }

  lemma SameRecorded(r: Pending, r': Pending)
    requires r'.merchants == r.merchants && r'.anonymitySet == r.anonymitySet && r'.outputs == r.outputs
    ensures Recorded(r') == Recorded(r)
  {
    hide Occurrences;
    assert MemberDeposits(r') == MemberDeposits(r);
  }

  lemma OtherSection(cfg: Config, h: Handler, at: nat, carry: nat, d: Shared, o: Outside)
    requires !h.RegisterMerchant? && !h.RegisterBeneficiary? && !(h.Reset? && at > 0)
    ensures var (d', to) := Section(cfg, h, at, carry, d, o);
      && d'.registry.merchants == d.registry.merchants && d'.registry.anonymitySet == d.registry.anonymitySet
      && d'.registry.outputs == d.registry.outputs && Carried(to).None?
  {
    hide MerkleRoot, Setup, MembersOf, ToBytes;
  }

  /** What one section does to the books: found goes in; recorded, carried, refused and
      forgotten come out. */
  ghost predicate Balanced(cfg: Config, h: Handler, at: nat, d: Shared, o: Outside, d': Shared, to: Pc,
                           gone: multiset<Deposit>)
  {
    && Paired(d')
    && Recorded(d'.registry) + One(Carried(to)) + (One(RefusedIn(cfg, h, at, d, o)) + gone)
    == Recorded(d.registry) + One(Carried(Inside(h, at, 0))) + One(FoundIn(h, at, d, o))
  }

  lemma BeneficiaryBalance(cfg: Config, h: Handler, at: nat, d: Shared, o: Outside)
    requires h.RegisterBeneficiary? && Paired(d)
    ensures var (d', to) := BeneficiarySection(cfg, h, at, d, o);
      Balanced(cfg, h, at, d, o, d', to, multiset{})
  {
    hide Recorded, One, WithBeneficiary;
    OneNone<Deposit>();
    OneSome(ForMember(h.phi, h.output));
    MemberJoins(d.registry, h.phi, h.output);
    var r := Recorded(d.registry);
    var added := One(Some(ForMember(h.phi, h.output)));
    assert r + multiset{} + (added + multiset{}) == r + added + multiset{};
    assert r + added + (multiset{} + multiset{}) == r + multiset{} + added == r + added + multiset{};
    Outputs(d.registry, h.phi, h.output);
  }

  lemma Outputs(r: Pending, phi: Bytes33, output: OutPoint)
    ensures var r' := WithBeneficiary(r, phi, output);
      |r'.outputs| == |r.outputs| + 1 && |r'.anonymitySet| == |r.anonymitySet| + 1
  {}

  /** In its first section a found deposit goes one of two ways. */
  lemma MerchantPays(h: Handler, carry: nat, d: Shared, o: Outside, cfg: Config)
    requires h.RegisterMerchant?
    ensures var (d', to) := MerchantSection(h, 0, carry, d, o);
      var found, carried, refused := FoundIn(h, 0, d, o), Carried(to), RefusedIn(cfg, h, 0, d, o);
      && d'.registry == d.registry
      && ((carried == found && refused.None?) || (refused == found && carried.None?))
  {
    hide NewMerchant;
  }

  lemma OneWay<T>(r: multiset<T>, found: Option<T>, carried: Option<T>, refused: Option<T>)
    requires (carried == found && refused.None?) || (refused == found && carried.None?)
    ensures r + One(carried) + (One(refused) + multiset{}) == r + One(None) + One(found)
  {
    OneNone<T>();
  }

  lemma MerchantBalance(cfg: Config, h: Handler, at: nat, carry: nat, d: Shared, o: Outside)
    requires h.RegisterMerchant? && Paired(d)
    ensures var (d', to) := MerchantSection(h, at, carry, d, o);
      Balanced(cfg, h, at, d, o, d', to, multiset{})
  {
    hide Recorded, NewMerchant, One;
    OneNone<Deposit>();
    if at == 0 {
      MerchantPays(h, carry, d, o, cfg);
      var to := MerchantSection(h, 0, carry, d, o).1;
      hide MerchantSection, FoundIn, RefusedIn;
      OneWay(Recorded(d.registry), FoundIn(h, 0, d, o), Carried(to), RefusedIn(cfg, h, 0, d, o));
    } else if at == 1 {
      OneSome(ForName(h.name));
      MerchantJoins(d.registry, h.name, h.origin);
    }
  }

  lemma OtherBalance(cfg: Config, h: Handler, at: nat, carry: nat, d: Shared, o: Outside)
    requires !h.RegisterMerchant? && !h.RegisterBeneficiary? && Paired(d)
    ensures var (d', to) := Section(cfg, h, at, carry, d, o);
      Balanced(cfg, h, at, d, o, d', to, if h.Reset? && at > 0 then Recorded(d.registry) else multiset{})
  {
    hide Recorded, Setup, One;
    OneNone<Deposit>();
    if h.Reset? && at > 0 {
      NothingRecorded(cfg.capacity);
    } else {
      hide Section;
      OtherSection(cfg, h, at, carry, d, o);
      SameRecorded(d.registry, Section(cfg, h, at, carry, d, o).0.registry);
    }
  }

  lemma SectionBalance(cfg: Config, s: System, t: nat, o: Outside)
    requires RunsSection(s, Advance(t, o)) && Paired(s.shared)
    ensures var pc, e := s.threads[t], Advance(t, o);
      var (d', to) := Section(cfg, pc.h, pc.at, pc.carry, s.shared, o);
      && Paired(d')
      && Recorded(d'.registry) + One(Carried(to)) + (Refused(cfg, s, e) + Forgotten(s, e))
      == Recorded(s.shared.registry) + One(Carried(pc)) + Found(s, e)
  {
    hide Recorded, BeneficiarySection, MerchantSection, One, RefusedIn, FoundIn;
    var pc := s.threads[t];
    match pc.h
    case RegisterBeneficiary(_, _) => BeneficiaryBalance(cfg, pc.h, pc.at, s.shared, o);
    case RegisterMerchant(_, _, _, _) => MerchantBalance(cfg, pc.h, pc.at, pc.carry, s.shared, o);
    case _ =>
      hide Section;
      OtherBalance(cfg, pc.h, pc.at, pc.carry, s.shared, o);
  }

  // ── every run ──────────────────────────────────────────────────────────────

  lemma CarriedMove(threads: seq<Pc>, t: nat, to: Pc)
    requires t < |threads|
    ensures Occurrences(CarriedBy(threads[t := to])) + One(Carried(threads[t]))
         == Occurrences(CarriedBy(threads)) + One(Carried(to))
  {
    hide Carried, Occurrences;
    assert CarriedBy(threads[t := to]) == CarriedBy(threads)[t := Carried(to)];
    OccurrencesUpdate(CarriedBy(threads), t, Carried(to));
  }

  lemma CarriedArrive(threads: seq<Pc>, h: Handler)
    ensures Occurrences(CarriedBy(threads + [Waiting(h, 0, 0)])) == Occurrences(CarriedBy(threads))
  {
    hide Occurrences;
    assert CarriedBy(threads + [Waiting(h, 0, 0)]) == CarriedBy(threads) + [None];
    OccurrencesPush(CarriedBy(threads), None);
    OneNone<Deposit>();
  }

  lemma EntersAlike(threads: seq<Pc>, t: nat)
    requires t < |threads| && threads[t].Waiting?
    ensures CarriedBy(threads[t := Inside(threads[t].h, threads[t].at, threads[t].carry)]) == CarriedBy(threads)
  {}

  lemma ExecBalance(cfg: Config, s: System, e: Event)
    requires Paired(s.shared)
    ensures var s' := Exec(cfg, s, e);
      && Paired(s'.shared)
      && Recorded(s'.shared.registry) + Occurrences(CarriedBy(s'.threads)) + (Refused(cfg, s, e) + Forgotten(s, e))
      == Recorded(s.shared.registry) + Occurrences(CarriedBy(s.threads)) + Found(s, e)
  {
    hide Section, Occurrences, CarriedBy, Carried, Recorded, One, RefusedIn, FoundIn, Relock;
    match e
    case Arrive(h) => CarriedArrive(s.threads, h);
    case Advance(t, o) =>
      if CanStep(s, t) {
        var pc := s.threads[t];
        if pc.Waiting? {
          EntersAlike(s.threads, t);
        } else {
          var (d', to) := Section(cfg, pc.h, pc.at, pc.carry, s.shared, o);
          SectionBalance(cfg, s, t, o);
          CarriedMove(s.threads, t, to);
          Balance(Recorded(d'.registry), Recorded(s.shared.registry), Occurrences(CarriedBy(s.threads[t := to])),
                  Occurrences(CarriedBy(s.threads)), One(Carried(to)), One(Carried(pc)),
                  Refused(cfg, s, e) + Forgotten(s, e), Found(s, e));
        }
      }
  }

  /** No payment is created or lost, in any interleaving, resets included: what the registry
      records with what handlers carry there, with what was refused after its payment or
      forgotten by a reset, is what payments were found for, each deposit as often. */
  lemma {:induction false} Conservation(cfg: Config, es: seq<Event>)
    ensures Paired(Run(cfg, es).shared)
    ensures Recorded(Run(cfg, es).shared.registry) + Occurrences(CarriedBy(Run(cfg, es).threads)) + AllGone(cfg, es)
         == AllFound(cfg, es)
  {
    hide Exec, Recorded, Found, Refused, Forgotten;
    if es == [] {
      NothingRecorded(cfg.capacity);
      assert CarriedBy(Run(cfg, []).threads) == [];
    } else {
      var init, e := es[..|es| - 1], es[|es| - 1];
      Conservation(cfg, init);
      hide Run, CarriedBy, Occurrences;
      var s := Run(cfg, init);
      var s' := Exec(cfg, s, e);
      RunStep(cfg, es);
      ExecBalance(cfg, s, e);
      Accumulate(Recorded(s'.shared.registry) + Occurrences(CarriedBy(s'.threads)),
                 Recorded(s.shared.registry) + Occurrences(CarriedBy(s.threads)),
                 Refused(cfg, s, e) + Forgotten(s, e), Found(s, e), AllGone(cfg, init), AllFound(cfg, init));
    }
  }

  lemma RunStep(cfg: Config, es: seq<Event>)
    requires es != []
    ensures Run(cfg, es) == Exec(cfg, Run(cfg, es[..|es| - 1]), es[|es| - 1])
  {}

  lemma Accumulate<T>(d': multiset<T>, d: multiset<T>, g: multiset<T>, f: multiset<T>, gs: multiset<T>, fs: multiset<T>)
    requires d' + g == d + f && d + gs == fs
    ensures d' + (gs + g) == fs + f
  {
    forall n ensures d'[n] + g[n] == d[n] + f[n] && d[n] + gs[n] == fs[n] {
      assert (d' + g)[n] == (d + f)[n] && (d + gs)[n] == fs[n];
    }
  }

  /** So nobody is registered unpaid: each recorded commitment with its output, each recorded
      name, and each that a handler still carries, occurs at most as often as its payment
      was found. */
  lemma RecordedWerePaid(cfg: Config, es: seq<Event>)
    ensures Recorded(Run(cfg, es).shared.registry) + Occurrences(CarriedBy(Run(cfg, es).threads)) <= AllFound(cfg, es)
  {
    hide Recorded, Occurrences, CarriedBy, AllFound, AllGone, Run;
    Conservation(cfg, es);
  }

  lemma {:induction false} Occurs<T>(os: seq<Option<T>>, i: nat)
    requires i < |os| && os[i].Some?
    ensures os[i].value in Occurrences(os)
  {
    var n := |os| - 1;
    if i < n { Occurs(os[..n], i); }
  }

  /** Each commitment in the registry, and with a payment found for its own output. */
  lemma MemberWasPaid(cfg: Config, es: seq<Event>, i: nat)
    requires i < |Run(cfg, es).shared.registry.anonymitySet|
    ensures var r := Run(cfg, es).shared.registry;
      i < |r.outputs| && ForMember(r.anonymitySet[i], r.outputs[i]) in AllFound(cfg, es)
  {
    hide Run, AllFound, AllGone, Occurrences;
    Conservation(cfg, es);
    var r := Run(cfg, es).shared.registry;
    Occurs(MemberDeposits(r), i);
  }

  /** Each registered merchant, too. */
  lemma MerchantWasPaid(cfg: Config, es: seq<Event>, i: nat)
    requires i < |Run(cfg, es).shared.registry.merchants|
    ensures ForName(Run(cfg, es).shared.registry.merchants[i].name) in AllFound(cfg, es)
  {
    hide Run, AllFound, AllGone, Occurrences;
    Conservation(cfg, es);
    Occurs(NameDeposits(Run(cfg, es).shared.registry.merchants), i);
  }

  /** A first section that finds no payment ends its handler with a refusal and leaves all
      shared data as it was. */
  lemma UnpaidEnds(cfg: Config, s: System, t: nat, o: Outside)
    requires RunsSection(s, Advance(t, o)) && s.threads[t].at == 0 && !o.paid
    requires s.threads[t].h.RegisterBeneficiary? || s.threads[t].h.RegisterMerchant?
    ensures var s' := Exec(cfg, s, Advance(t, o));
      && s'.shared == s.shared && CarriedBy(s'.threads) == CarriedBy(s.threads)
      && s'.threads[t] == Finished(StoreFailed(
        if s.threads[t].h.RegisterMerchant? && s.threads[t].h.name in s.shared.store.merchantPool
        then AlreadyRegistered else PaymentMissing))
  {
    hide NewMerchant;
  }
}
