/** The merchant name pool and the registered merchants, in every run. */
module MerchantNames {
  import opened Bytes
  import opened Counting
  import opened Crs
  import opened CrsCodec
  import opened Merkle
  import opened RegistryData
  import opened Service
  import opened ServiceSafety

  // ── counting names ─────────────────────────────────────────────────────────

  type Name = seq<byte>

  function NamesIn(os: seq<Option<Name>>): set<Name> {
    set i | 0 <= i < |os| && os[i].Some? :: os[i].value
  }

  ghost predicate Distinct(os: seq<Option<Name>>) {
    forall i, j :: 0 <= i < j < |os| && os[i].Some? ==> os[i] != os[j]
  }

  lemma PushParts(os: seq<Option<Name>>, o: Option<Name>)
    ensures NamesIn(os + [o]) == NamesIn(os) + if o.Some? then {o.value} else {}
    ensures Distinct(os + [o]) <==> Distinct(os) && (o.Some? ==> o.value !in NamesIn(os))
  {
    var all := os + [o];
    assert all[|os|] == o && forall i :: 0 <= i < |os| ==> all[i] == os[i];
    if Distinct(all) && o.Some? {
      forall i | 0 <= i < |os| ensures os[i] != o {
        assert all[i].Some? ==> all[i] != all[|os|];
      }
    }
    forall n | n in NamesIn(os) ensures n in NamesIn(all) {
      var i :| 0 <= i < |os| && os[i].Some? && os[i].value == n;
      assert all[i].Some? && all[i].value == n;
    }
  }

  /** A list is distinct exactly when no name occurs twice. */
  lemma {:induction false} DistinctCounts(os: seq<Option<Name>>)
    ensures forall n :: n in Occurrences(os) <==> n in NamesIn(os)
    ensures Distinct(os) <==> forall n :: Occurrences(os)[n] <= 1
  {
    if os != [] {
      var init, o := os[..|os| - 1], os[|os| - 1];
      assert os == init + [o];
      DistinctCounts(init);
      PushParts(init, o);
      hide Distinct, NamesIn;
      OccurrencesPush(init, o);
      OneMoreName(Occurrences(init), o);
    }
  }

  lemma OneMoreName(m: multiset<Name>, o: Option<Name>)
    ensures (forall n :: (m + One(o))[n] <= 1) <==> (forall n :: m[n] <= 1) && (o.Some? ==> o.value !in m)
  {
    if forall n :: (m + One(o))[n] <= 1 {
      forall n ensures m[n] <= 1 && (o == Some(n) ==> n !in m) { assert (m + One(o))[n] <= 1; }
    }
  }

  // ── the account ────────────────────────────────────────────────────────────

  function Labels(ms: seq<Merchant>): (r: seq<Option<Name>>)
    ensures |r| == |ms|
  {
    seq(|ms|, i requires 0 <= i < |ms| => Some(ms[i].name))
  }

  /** The name a handler has put in the pool and not yet in the registry. */
  function Claim(pc: Pc): Option<Name> {
    if !pc.Finished? && pc.h.RegisterMerchant? && pc.at == 1 then Some(pc.h.name) else None
  }

  function Claims(threads: seq<Pc>): (r: seq<Option<Name>>)
    ensures |r| == |threads|
  {
    seq(|threads|, i requires 0 <= i < |threads| => Claim(threads[i]))
  }

  function RegisteredNames(ms: seq<Merchant>): set<Name> { NamesIn(Labels(ms)) }

  function ClaimedNames(threads: seq<Pc>): set<Name> { NamesIn(Claims(threads)) }

  /** The pool is split three ways: merchants in the registry, merchants on their way
      there, and names whose save failed. No name is in two parts or twice in one. */
  ghost predicate NamesOk(s: System) {
    var pool, names := s.shared.store.merchantPool.Keys, RegisteredNames(s.shared.registry.merchants);
    && Distinct(Labels(s.shared.registry.merchants)) && Distinct(Claims(s.threads))
    && pool == names + ClaimedNames(s.threads) + s.shared.stranded
    && names !! ClaimedNames(s.threads) !! s.shared.stranded
  }

  /** All the names the pool should hold, each as often as it should. */
  function Due(d: Shared, threads: seq<Pc>): multiset<Name> {
    Occurrences(Labels(d.registry.merchants)) + Occurrences(Claims(threads)) + multiset(d.stranded)
  }

  function Held(d: Shared): multiset<Name> { multiset(d.store.merchantPool.Keys) }

  /** The account is right exactly when what is due is what is held. */
  lemma NamesOkIsBalance(s: System)
    ensures NamesOk(s) <==> Due(s.shared, s.threads) == Held(s.shared)
  {
    var a, b := Labels(s.shared.registry.merchants), Claims(s.threads);
    DistinctCounts(a); DistinctCounts(b);
    hide Labels, Claims, Distinct, NamesIn, Occurrences;
    ThreeWays(Occurrences(a), Occurrences(b), s.shared.stranded, NamesIn(a), NamesIn(b),
              s.shared.store.merchantPool.Keys);
  }

  lemma ThreeWays(a: multiset<Name>, b: multiset<Name>, c: set<Name>, xs: set<Name>, ys: set<Name>, pool: set<Name>)
    requires (forall n :: n in a <==> n in xs) && (forall n :: n in b <==> n in ys)
    ensures a + b + multiset(c) == multiset(pool) <==>
      ((forall n :: a[n] <= 1) && (forall n :: b[n] <= 1) && pool == xs + ys + c && xs !! ys !! c)
  {
    if a + b + multiset(c) == multiset(pool) {
      forall n ensures a[n] + b[n] + multiset(c)[n] == multiset(pool)[n] {
        assert (a + b + multiset(c))[n] == multiset(pool)[n];
      }
    }
  }

  // ── sections ───────────────────────────────────────────────────────────────

  /** Most sections leave names alone. */
  lemma OtherSection(cfg: Config, h: Handler, at: nat, carry: nat, d: Shared, o: Outside)
    requires !h.Reset? && !(h.RegisterMerchant? && at < 2)
    ensures var (d', to) := Section(cfg, h, at, carry, d, o);
      && d'.store.merchantPool == d.store.merchantPool && d'.registry.merchants == d.registry.merchants
      && d'.stranded == d.stranded && Claim(to) == Claim(Inside(h, at, carry))
  {
    hide MerkleRoot, NewMerchant, Setup, MembersOf, ToBytes;
  }

  // ── the ledger ─────────────────────────────────────────────────────────────

  /** What this event does to the store and the registry, if it runs a reset's section. */
  predicate RunsReset(s: System, e: Event) {
    && e.Advance? && CanStep(s, e.thread) && s.threads[e.thread].Inside? && s.threads[e.thread].h.Reset?
  }

  /** The pool names a reset forgets in its first section, failed saves aside. */
  function WipedBy(s: System, e: Event): multiset<Name> {
    if RunsReset(s, e) && s.threads[e.thread].at == 0
    then multiset(s.shared.store.merchantPool.Keys - s.shared.stranded) else multiset{}
  }

  /** The registered names it forgets in its second section. */
  function ClearedBy(s: System, e: Event): multiset<Name> {
    if RunsReset(s, e) && s.threads[e.thread].at > 0
    then Occurrences(Labels(s.shared.registry.merchants)) else multiset{}
  }

  function Wiped(cfg: Config, es: seq<Event>): multiset<Name> {
    if es == [] then multiset{} else
      Wiped(cfg, es[..|es| - 1]) + WipedBy(Run(cfg, es[..|es| - 1]), es[|es| - 1])
  }

  function Cleared(cfg: Config, es: seq<Event>): multiset<Name> {
    if es == [] then multiset{} else
      Cleared(cfg, es[..|es| - 1]) + ClearedBy(Run(cfg, es[..|es| - 1]), es[|es| - 1])
  }

  /** Names due to d alone. */
  function DueTo(d: Shared): multiset<Name> {
    Occurrences(Labels(d.registry.merchants)) + multiset(d.stranded)
  }

  lemma PoolLedger(h: Handler, carry: nat, d: Shared, o: Outside)
    requires h.RegisterMerchant? && d.stranded <= d.store.merchantPool.Keys
    ensures var (d', to) := MerchantSection(h, 0, carry, d, o);
      && d'.stranded <= d'.store.merchantPool.Keys
      && DueTo(d') + One(Claim(to)) + Held(d) == DueTo(d) + Held(d')
  {
    hide NewMerchant, Occurrences, Labels, DueTo, Held;
    var (d', to) := MerchantSection(h, 0, carry, d, o);
    if h.name in d.store.merchantPool || d'.store == d.store {
      SameHeld(d, d'); SameDue(d, d');
    } else {
      NameHeld(d, d', h.name);
      if d'.stranded == d.stranded { SameDue(d, d'); } else { NameStranded(d, d', h.name); }
    }
  }

  lemma NameHeld(d: Shared, d': Shared, n: Name)
    requires n !in d.store.merchantPool && d'.store.merchantPool.Keys == d.store.merchantPool.Keys + {n}
    ensures Held(d') == Held(d) + multiset{n}
  {}

  lemma NameStranded(d: Shared, d': Shared, n: Name)
    requires n !in d.stranded && d'.stranded == d.stranded + {n} && d'.registry.merchants == d.registry.merchants
    ensures DueTo(d') == DueTo(d) + multiset{n}
  {
    hide Occurrences, Labels;
    assert multiset(d'.stranded) == multiset(d.stranded) + multiset{n};
  }

  lemma JoinLedger(h: Handler, carry: nat, d: Shared, o: Outside)
    requires h.RegisterMerchant?
    ensures var (d', to) := MerchantSection(h, 1, carry, d, o);
      && d'.stranded == d.stranded && d'.store == d.store && Claim(to).None?
      && DueTo(d') == DueTo(d) + multiset{h.name}
  {
    hide NewMerchant, Occurrences;
    var ms, d' := d.registry.merchants, MerchantSection(h, 1, carry, d, o).0;
    NewMerchantName(h.name, h.origin);
    assert Labels(d'.registry.merchants) == Labels(ms) + [Some(h.name)];
    OccurrencesPush(Labels(ms), Some(h.name));
  }

  lemma NewMerchantName(name: seq<byte>, origin: seq<byte>)
    ensures NewMerchant(name, origin).name == name
  {}

  lemma ResetLedger(cfg: Config, h: Handler, at: nat, carry: nat, d: Shared, o: Outside)
    requires h.Reset? && d.stranded <= d.store.merchantPool.Keys
    ensures var (d', to) := Section(cfg, h, at, carry, d, o);
      && d'.stranded <= d'.store.merchantPool.Keys && Claim(to).None?
      && (at == 0 ==> DueTo(d') + Held(d) == DueTo(d) + Held(d') + multiset(d.store.merchantPool.Keys - d.stranded))
      && (at > 0 ==> DueTo(d') + Occurrences(Labels(d.registry.merchants)) == DueTo(d) && Held(d') == Held(d))
  {
    hide Setup;
    var d' := Section(cfg, h, at, carry, d, o).0;
    if at == 0 {
      assert d'.stranded == {} && d'.store.merchantPool == map[];
      Forgotten(d, d');
    } else {
      assert d'.registry.merchants == [] && Labels([]) == [];
    }
  }

  lemma Forgotten(d: Shared, d': Shared)
    requires d.stranded <= d.store.merchantPool.Keys && d'.registry == d.registry
    requires d'.stranded == {} && d'.store.merchantPool == map[]
    ensures DueTo(d') + Held(d) == DueTo(d) + Held(d') + multiset(d.store.merchantPool.Keys - d.stranded)
  {
    hide Occurrences, Labels;
    assert Held(d) == multiset(d.stranded) + multiset(d.store.merchantPool.Keys - d.stranded);
    assert Held(d') == multiset{} == multiset(d'.stranded);
  }

  /** One section balances, whatever the handler. */
  lemma SectionLedger(cfg: Config, s: System, t: nat, o: Outside)
    requires CanStep(s, t) && s.threads[t].Inside? && s.shared.stranded <= s.shared.store.merchantPool.Keys
    ensures var pc, e := s.threads[t], Advance(t, o);
      var (d', to) := Section(cfg, pc.h, pc.at, pc.carry, s.shared, o);
      && d'.stranded <= d'.store.merchantPool.Keys
      && DueTo(d') + One(Claim(to)) + (ClearedBy(s, e) + Held(s.shared))
      == DueTo(s.shared) + One(Claim(pc)) + (Held(d') + WipedBy(s, e))
  {
    hide MerchantSection, DueTo, Held, Occurrences, Labels, One;
    var pc, d := s.threads[t], s.shared;
    assert One<Name>(None) == multiset{} by { OneNone<Name>(); }
    if pc.h.RegisterMerchant? && pc.at == 0 {
      PoolLedger(pc.h, pc.carry, d, o);
      var (d', to) := MerchantSection(pc.h, 0, pc.carry, d, o);
      Padded(DueTo(d') + One(Claim(to)), DueTo(d), Held(d), Held(d'));
    } else if pc.h.RegisterMerchant? && pc.at == 1 {
      JoinLedger(pc.h, pc.carry, d, o);
      assert One(Some(pc.h.name)) == multiset{pc.h.name} by { OneSome(pc.h.name); }
      SameHeld(d, MerchantSection(pc.h, 1, pc.carry, d, o).0);
    } else if pc.h.Reset? {
      ResetBalance(cfg, s, t, o);
    } else {
      hide Section;
      OtherSection(cfg, pc.h, pc.at, pc.carry, d, o);
      var d' := Section(cfg, pc.h, pc.at, pc.carry, d, o).0;
      SameHeld(d, d');
      SameDue(d, d');
    }
  }

  lemma ResetBalance(cfg: Config, s: System, t: nat, o: Outside)
    requires CanStep(s, t) && s.threads[t].Inside? && s.shared.stranded <= s.shared.store.merchantPool.Keys
    requires s.threads[t].h.Reset?
    ensures var pc, e := s.threads[t], Advance(t, o);
      var (d', to) := Section(cfg, pc.h, pc.at, pc.carry, s.shared, o);
      && d'.stranded <= d'.store.merchantPool.Keys
      && DueTo(d') + One(Claim(to)) + (ClearedBy(s, e) + Held(s.shared))
      == DueTo(s.shared) + One(Claim(pc)) + (Held(d') + WipedBy(s, e))
  {
    hide DueTo, Held, Occurrences, Labels, Section;
    var pc, d := s.threads[t], s.shared;
    var d' := Section(cfg, pc.h, pc.at, pc.carry, d, o).0;
    ResetLedger(cfg, pc.h, pc.at, pc.carry, d, o);
    if pc.at == 0 {
      Shift(DueTo(d'), multiset{}, Held(d), DueTo(d), Held(d'), multiset(d.store.merchantPool.Keys - d.stranded));
    } else {
      Shift(DueTo(d'), Occurrences(Labels(d.registry.merchants)), Held(d), DueTo(d), Held(d'), multiset{});
    }
  }

  lemma Shift(d': multiset<Name>, c: multiset<Name>, h: multiset<Name>, d: multiset<Name>, h': multiset<Name>,
              w: multiset<Name>)
    requires (c == multiset{} && d' + h == d + h' + w) || (w == multiset{} && d' + c == d && h' == h)
    ensures d' + multiset{} + (c + h) == d + multiset{} + (h' + w)
  {
    if d' + h == d + h' + w && c == multiset{} {
      forall n ensures d'[n] + h[n] == d[n] + h'[n] + w[n] { assert (d' + h)[n] == (d + h' + w)[n]; }
    }
  }

  lemma Padded(a: multiset<Name>, b: multiset<Name>, c: multiset<Name>, d: multiset<Name>)
    requires a + c == b + d
    ensures a + (multiset{} + c) == b + multiset{} + (d + multiset{})
  {
    assert multiset{} + c == c && b + multiset{} == b && d + multiset{} == d;
  }

  lemma SameHeld(d: Shared, d': Shared)
    requires d'.store.merchantPool == d.store.merchantPool
    ensures Held(d') == Held(d)
  {}

  lemma SameDue(d: Shared, d': Shared)
    requires d'.registry.merchants == d.registry.merchants && d'.stranded == d.stranded
    ensures DueTo(d') == DueTo(d)
  {}

  lemma DueSplits(d: Shared, threads: seq<Pc>)
    ensures Due(d, threads) == DueTo(d) + Occurrences(Claims(threads))
  {
    hide Occurrences, Labels, Claims;
  }

  lemma ClaimsMove(threads: seq<Pc>, t: nat, to: Pc)
    requires t < |threads|
    ensures Occurrences(Claims(threads[t := to])) + One(Claim(threads[t]))
         == Occurrences(Claims(threads)) + One(Claim(to))
  {
    hide Claim, Occurrences;
    assert Claims(threads[t := to]) == Claims(threads)[t := Claim(to)];
    OccurrencesUpdate(Claims(threads), t, Claim(to));
  }

  lemma ClaimsArrive(threads: seq<Pc>, h: Handler)
    ensures Occurrences(Claims(threads + [Waiting(h, 0, 0)])) == Occurrences(Claims(threads))
  {
    hide Occurrences;
    assert Claims(threads + [Waiting(h, 0, 0)]) == Claims(threads) + [None];
    OccurrencesPush(Claims(threads), None);
  }

  /** Every event keeps the books. */
  lemma ExecLedger(cfg: Config, s: System, e: Event)
    requires s.shared.stranded <= s.shared.store.merchantPool.Keys
    ensures var s' := Exec(cfg, s, e);
      && s'.shared.stranded <= s'.shared.store.merchantPool.Keys
      && Due(s'.shared, s'.threads) + (ClearedBy(s, e) + Held(s.shared))
      == Due(s.shared, s.threads) + (Held(s'.shared) + WipedBy(s, e))
  {
    hide Section, Occurrences, Claims, Labels, Claim, One, DueTo, Due, Held, Relock;
    var s' := Exec(cfg, s, e);
    DueSplits(s.shared, s.threads); DueSplits(s'.shared, s'.threads);
    match e
    case Arrive(h) => ClaimsArrive(s.threads, h);
    case Advance(t, o) =>
      if CanStep(s, t) {
        var pc := s.threads[t];
        if pc.Waiting? {
          ClaimsMove(s.threads, t, Inside(pc.h, pc.at, pc.carry));
          assert s'.shared == s.shared && WipedBy(s, e) == multiset{} == ClearedBy(s, e);
          ClaimInside(pc);
          assert multiset{} + Held(s.shared) == Held(s.shared) + multiset{};
          Balance(DueTo(s.shared), DueTo(s.shared), Occurrences(Claims(s'.threads)), Occurrences(Claims(s.threads)),
                  One(Claim(pc)), One(Claim(pc)), multiset{} + Held(s.shared), Held(s.shared) + multiset{});
        } else {
          var (d', to) := Section(cfg, pc.h, pc.at, pc.carry, s.shared, o);
          SectionLedger(cfg, s, t, o);
          ClaimsMove(s.threads, t, to);
          Balance(DueTo(d'), DueTo(s.shared), Occurrences(Claims(s'.threads)), Occurrences(Claims(s.threads)),
                  One(Claim(to)), One(Claim(pc)), ClearedBy(s, e) + Held(s.shared), Held(d') + WipedBy(s, e));
        }
      }
  }

  lemma ClaimInside(pc: Pc)
    requires pc.Waiting?
    ensures Claim(Inside(pc.h, pc.at, pc.carry)) == Claim(pc)
  {}

  /** The ledger of every run: the names due, with those the registry was cleared of, are
      the names held, with those the pool was wiped of. */
  lemma {:induction false} Ledger(cfg: Config, es: seq<Event>)
    ensures Run(cfg, es).shared.stranded <= Run(cfg, es).shared.store.merchantPool.Keys
    ensures Due(Run(cfg, es).shared, Run(cfg, es).threads) + Cleared(cfg, es)
         == Held(Run(cfg, es).shared) + Wiped(cfg, es)
  {
    hide Exec, Due, Held, WipedBy, ClearedBy;
    if es == [] {
      NothingDue(cfg);
    } else {
      Ledger(cfg, es[..|es| - 1]);
      var s, e := Run(cfg, es[..|es| - 1]), es[|es| - 1];
      var s' := Exec(cfg, s, e);
      ExecLedger(cfg, s, e);
      Carry(Due(s'.shared, s'.threads), Due(s.shared, s.threads), Held(s'.shared), Held(s.shared), ClearedBy(s, e),
            WipedBy(s, e), Cleared(cfg, es[..|es| - 1]), Wiped(cfg, es[..|es| - 1]));
    }
  }

  lemma Carry(d': multiset<Name>, d: multiset<Name>, h': multiset<Name>, h: multiset<Name>,
              c: multiset<Name>, w: multiset<Name>, cs: multiset<Name>, ws: multiset<Name>)
    requires d' + (c + h) == d + (h' + w) && d + cs == h + ws
    ensures d' + (cs + c) == h' + (ws + w)
  {
    forall n ensures d'[n] + c[n] + h[n] == d[n] + h'[n] + w[n] && d[n] + cs[n] == h[n] + ws[n] {
      assert (d' + (c + h))[n] == (d + (h' + w))[n] && (d + cs)[n] == (h + ws)[n];
    }
  }

  lemma NothingDue(cfg: Config)
    ensures Due(Initial(cfg).shared, Initial(cfg).threads) == Held(Initial(cfg).shared) == multiset{}
  {
    var d := Initial(cfg).shared;
    assert Labels(d.registry.merchants) == [] && Claims([]) == [] && d.store.merchantPool.Keys == {};
  }

  /** The exact condition, for every interleaving: the account of the names is right if
      and only if resets wiped from the pool just the names they cleared from the
      registry. */
  lemma NamesExactly(cfg: Config, es: seq<Event>)
    ensures NamesOk(Run(cfg, es)) <==> Wiped(cfg, es) == Cleared(cfg, es)
  {
    hide Run, NamesOk, Due, Held, Wiped, Cleared;
    Ledger(cfg, es);
    NamesOkIsBalance(Run(cfg, es));
    Cancel(Due(Run(cfg, es).shared, Run(cfg, es).threads), Cleared(cfg, es), Held(Run(cfg, es).shared), Wiped(cfg, es));
  }

  lemma Cancel(a: multiset<Name>, b: multiset<Name>, c: multiset<Name>, d: multiset<Name>)
    requires a + b == c + d
    ensures a == c <==> b == d
  {
    forall n ensures a[n] + b[n] == c[n] + d[n] {
      assert (a + b)[n] == (c + d)[n];
    }
  }

  lemma {:induction false} NothingReset(cfg: Config, es: seq<Event>)
    requires NoResets(es)
    ensures Wiped(cfg, es) == Cleared(cfg, es) == multiset{}
  {
    hide Exec, Quiet;
    if es != [] {
      NoResetsPrefix(es);
      NothingReset(cfg, es[..|es| - 1]);
      NoResetThreads(cfg, es[..|es| - 1]);
      QuietResets(Run(cfg, es[..|es| - 1]), es[|es| - 1]);
    }
  }

  lemma QuietResets(s: System, e: Event)
    requires forall t :: 0 <= t < |s.threads| ==> Quiet(s.threads[t])
    ensures !RunsReset(s, e)
  {}

  /** So it is right in every reset-free interleaving: merchant names are distinct, and
      the pool is the registered names, the names in flight and the names whose save
      failed. */
  lemma NamesAlwaysOk(cfg: Config, es: seq<Event>)
    requires NoResets(es)
    ensures NamesOk(Run(cfg, es))
  {
    NamesExactly(cfg, es);
    NothingReset(cfg, es);
  }

  // ── failed saves ───────────────────────────────────────────────────────────

  /** This event takes a new name, finds the payment, and then fails to save. */
  predicate SaveFails(s: System, e: Event) {
    && e.Advance? && CanStep(s, e.thread) && s.threads[e.thread].Inside?
    && s.threads[e.thread].h.RegisterMerchant? && s.threads[e.thread].at == 0
    && var name := s.threads[e.thread].h.name;
    && name !in s.shared.store.merchantPool && |name| <= RegistryData.MAX_NAME && e.outside.paid && !e.outside.saved
  }

  predicate SomeSaveFails(cfg: Config, es: seq<Event>) {
    es != [] && (SomeSaveFails(cfg, es[..|es| - 1]) || SaveFails(Run(cfg, es[..|es| - 1]), es[|es| - 1]))
  }

  lemma ExecStranded(cfg: Config, s: System, e: Event)
    requires forall t :: 0 <= t < |s.threads| ==> Quiet(s.threads[t])
    ensures Exec(cfg, s, e).shared.stranded
         == s.shared.stranded + if SaveFails(s, e) then {s.threads[e.thread].h.name} else {}
  {
    hide MembersOf, ToBytes, Seal, Anchored, NewMerchant, Setup, Relock;
    if e.Advance? && CanStep(s, e.thread) && s.threads[e.thread].Inside? {
      var pc := s.threads[e.thread];
      if !(pc.h.RegisterMerchant? && pc.at < 2) { OtherSection(cfg, pc.h, pc.at, pc.carry, s.shared, e.outside); }
    }
  }

  lemma {:induction false} StrandedExactly(cfg: Config, es: seq<Event>)
    requires NoResets(es)
    ensures Run(cfg, es).shared.stranded != {} <==> SomeSaveFails(cfg, es)
  {
    hide Exec, Quiet, SaveFails;
    if es != [] {
      NoResetsPrefix(es);
      StrandedExactly(cfg, es[..|es| - 1]);
      NoResetThreads(cfg, es[..|es| - 1]);
      ExecStranded(cfg, Run(cfg, es[..|es| - 1]), es[|es| - 1]);
    }
  }

  /** The pool equals the registered and in-flight names exactly when no save failed. */
  lemma PoolIsNames(cfg: Config, es: seq<Event>)
    requires NoResets(es)
    ensures var s := Run(cfg, es);
      s.shared.store.merchantPool.Keys == RegisteredNames(s.shared.registry.merchants) + ClaimedNames(s.threads)
      <==> !SomeSaveFails(cfg, es)
  {
    hide RegisteredNames, ClaimedNames, Distinct, Labels, Claims, Run, SomeSaveFails, NoResets;
    NamesAlwaysOk(cfg, es);
    StrandedExactly(cfg, es);
    var s := Run(cfg, es);
    if s.shared.stranded != {} {
      var n :| n in s.shared.stranded;
      assert n in s.shared.store.merchantPool.Keys;
    }
  }

  /** A name whose save failed stays taken and is never registered, until a reset. */
  lemma {:induction false} StrandedForever(cfg: Config, es: seq<Event>, more: seq<Event>, name: seq<byte>)
    requires NoResets(es + more) && name in Run(cfg, es).shared.stranded
    ensures var d := Run(cfg, es + more).shared;
      name in d.stranded && name in d.store.merchantPool && name !in RegisteredNames(d.registry.merchants)
    decreases |more|
  {
    hide Exec, Quiet, SaveFails, RegisteredNames, ClaimedNames, Distinct, Labels, Claims, NoResets;
    NamesAlwaysOk(cfg, es + more);
    if more == [] {
      assert es + more == es;
    } else {
      var n := |more| - 1;
      var init := es + more[..n];
      assert (es + more)[..|es| + n] == init && (es + more)[|es| + n] == more[n];
      NoResetsPrefix(es + more);
      StrandedForever(cfg, es, more[..n], name);
      NoResetThreads(cfg, init);
      ExecStranded(cfg, Run(cfg, init), more[n]);
    }
  }
}
