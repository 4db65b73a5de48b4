/** Over whole runs, a merchant accepts no more identities than there are
    commitments, unless a relation among the generators is exhibited. */
module SybilBound {
  import opened Bytes
  import opened Crs
  import opened Field
  import opened Group
  import opened OneOfMany
  import opened PaymentIdentity
  import opened Primitives
  import opened ProofTheorems
  import opened Soundness
  import opened VerifierTable

  // ── two openings of one commitment ─────────────────────────────────────────

  function Coefficients(o: Opening): seq<Scalar> { [o.k] + o.ss + [o.name] }

  function Difference(o: Opening, o': Opening): (r: seq<Scalar>)
    requires |o.ss| == |o'.ss|
    ensures |r| == |o.ss| + 2
  {
    var u, v := Coefficients(o), Coefficients(o');
    seq(|u|, i requires 0 <= i < |u| => Sub(u[i], v[i]))
  }

  lemma {:induction false} LinDifference(us: seq<Scalar>, vs: seq<Scalar>, ps: seq<Point>)
    requires |us| == |vs| == |ps| && Lin(us, ps) == Lin(vs, ps)
    ensures Lin(seq(|us|, i requires 0 <= i < |us| => Sub(us[i], vs[i])), ps) == Identity()
  {
    hide R, Lin, Dot;
    var ws := seq(|us|, i requires 0 <= i < |us| => Sub(us[i], vs[i]));
    forall c: nat | c < D ensures Lin(ws, ps)[c] == 0 {
      forall i | 0 <= i < |us| ensures Cong(ws[i], 1 * us[i] as int + (0 - 1) * vs[i] as int) {
        CongR(us[i] as int - vs[i] as int);
      }
      DotLinear(ws, 1, us, 0 - 1, vs, ps, c);
      LinCoord(us, ps, c); LinCoord(vs, ps, c); LinCoord(ws, ps, c);
      VanishingDifference(Dot(ws, ps, c), Dot(us, ps, c), Dot(vs, ps, c));
    }
    assert Lin(ws, ps) == Identity();
  }

  lemma VanishingDifference(w: int, u: int, v: int)
    requires Cong(w, 1 * u + (0 - 1) * v) && R(u) == R(v)
    ensures R(w) == 0
  {
    hide R;
    CongAdd(u, v, v, v);
    RScalar(0);
  }

  /** Opening one commitment with two values at a service exhibits a relation
      among g, h_1 … h_L and h_name. */
  lemma TwoOpeningsRelation(crs: Crs, p: Point, o: Opening, o': Opening, l: nat)
    requires OpensMaster(crs, p, o) && OpensMaster(crs, p, o') && ValidService(crs, l) && o.ss[l - 1] != o'.ss[l - 1]
    ensures Relation(Difference(o, o'), IdentityGenerators(crs))
  {
    hide Lin, IdentityGenerators;
    LinDifference(Coefficients(o), Coefficients(o'), IdentityGenerators(crs));
    NonZeroAt(o, o', l);
  }

  lemma NonZeroAt(o: Opening, o': Opening, l: nat)
    requires |o.ss| == |o'.ss| && 1 <= l <= |o.ss| && o.ss[l - 1] != o'.ss[l - 1]
    ensures Difference(o, o')[l] != 0
  {
    hide R;
    var s, s' := o.ss[l - 1], o'.ss[l - 1];
    DifferentUnit(s, s');
    RScalar(0);
  }

  // ── the accepted requests of a run ─────────────────────────────────────────

  /** An accepted request with the anonymity set it was checked against. */
  datatype Acceptance = Acceptance(q: Request, members: seq<Bytes33>)

  function Acceptances(userIndex: nat, ops: seq<Op>): seq<Acceptance> {
    if ops == [] then [] else
      var t, op := Run(userIndex, ops[..|ops| - 1]), ops[|ops| - 1];
      Acceptances(userIndex, ops[..|ops| - 1]) +
      if Accepted(t, userIndex, op) then [Acceptance(op.q, t.setCache[op.q.setId])] else []
  }

  function ElementsOf(s: seq<Bytes33>): set<Bytes33> { set c | c in s }

  /** Every commitment ever cached. */
  function EverCached(ops: seq<Op>): set<Bytes33> {
    if ops == [] then {} else
      EverCached(ops[..|ops| - 1]) +
      if ops[|ops| - 1].Cache? then ElementsOf(ops[|ops| - 1].members) else {}
  }

  lemma {:induction false} CacheWithin(userIndex: nat, ops: seq<Op>)
    ensures forall id :: id in Run(userIndex, ops).setCache ==>
      forall c :: c in Run(userIndex, ops).setCache[id] ==> c in EverCached(ops)
  {
    hide Verify;
    if ops != [] { CacheWithin(userIndex, ops[..|ops| - 1]); }
  }

  lemma {:induction false} AcceptancesMatchTable(userIndex: nat, ops: seq<Op>)
    ensures var acc, t := Acceptances(userIndex, ops), Run(userIndex, ops);
      && |acc| == |t.registrations|
      && (forall i :: 0 <= i < |acc| ==> acc[i].q.nullifier in t.nullifiers)
      && (forall i, j :: 0 <= i < j < |acc| ==> acc[i].q.nullifier != acc[j].q.nullifier)
  {
    hide Verify;
    if ops != [] {
      AcceptancesMatchTable(userIndex, ops[..|ops| - 1]);
      RunCoherent(userIndex, ops[..|ops| - 1]);
    }
  }

  /** An accepted request passed the proof check against a cached set. */
  lemma {:induction false} AcceptancesVerified(userIndex: nat, ops: seq<Op>)
    ensures forall a :: a in Acceptances(userIndex, ops) ==>
      && (forall c :: c in a.members ==> c in EverCached(ops))
      && Verify(a.q.crs, a.members, userIndex, a.q.setId, a.q.pseudonym, a.q.nullifier, a.q.proof)
      && Register(a.q) in ops
  {
    hide Verify;
    if ops != [] {
      var init := ops[..|ops| - 1];
      AcceptancesVerified(userIndex, init);
      CacheWithin(userIndex, init);
    }
  }

  // ── the bound ──────────────────────────────────────────────────────────────

  /** Rewound answers to one first message. */
  datatype Fork = Fork(msg: Message, ts: seq<Transcript>)

  predicate Extractable(crs: Crs, userIndex: nat, a: Acceptance, f: Fork) {
    ForkedStatement(crs, a.members, userIndex, a.q.proof.nullifierScalar, f.msg, f.ts)
  }

  ghost function OpeningOf(crs: Crs, userIndex: nat, a: Acceptance, f: Fork): (o: Opening)
    requires Extractable(crs, userIndex, a, f)
    ensures |o.ss| == |crs.generators|
  {
    ForkedParts(crs, a.members, userIndex, a.q.proof.nullifierScalar, f.msg, f.ts);
    ExtractedOpening(crs, userIndex, a.q.proof.nullifierScalar, f.ts)
  }

  ghost predicate ForkBreaks(crs: Crs, f: Fork) {
    |f.ts| == M + 1 && BreaksBinding(crs.g, f.ts)
  }

  /** A relation is exhibited: by one fork among g and the bit generators, or by two
      forks among the identity generators. */
  ghost predicate RelationExhibited(crs: Crs, userIndex: nat, acc: seq<Acceptance>, forks: seq<Fork>)
    requires |acc| == |forks| && forall i :: 0 <= i < |acc| ==> Extractable(crs, userIndex, acc[i], forks[i])
  {
    || (exists i :: 0 <= i < |acc| && ForkBreaks(crs, forks[i]))
    || (exists i, j :: 0 <= i < j < |acc| &&
          Relation(Difference(OpeningOf(crs, userIndex, acc[i], forks[i]), OpeningOf(crs, userIndex, acc[j], forks[j])),
                      IdentityGenerators(crs)))
  }

  /** No more positions than elements, when positions hold distinct elements. */
  lemma {:induction false} DistinctEntries(at: set<nat>, xs: seq<Bytes33>, s: set<Bytes33>)
    requires forall i :: i in at ==> i < |xs| && xs[i] in s
    requires forall i, j :: i in at && j in at && i != j ==> xs[i] != xs[j]
    ensures |at| <= |s|
  {
    if at != {} {
      var i :| i in at;
      DistinctEntries(at - {i}, xs, s - {xs[i]});
    }
  }

  function Decodable(cs: set<Bytes33>): set<Bytes33> { set c | c in cs && PointFromBytes(c).Some? }

  /** The members the forks lead to. */
  ghost function Members(crs: Crs, userIndex: nat, acc: seq<Acceptance>, forks: seq<Fork>): (r: seq<Bytes33>)
    requires |acc| == |forks| && forall i :: 0 <= i < |acc| ==> Extractable(crs, userIndex, acc[i], forks[i])
    ensures |r| == |acc|
  {
    seq(|acc|, i requires 0 <= i < |acc| => MemberOf(crs, userIndex, acc[i], forks[i]))
  }

  /** The acceptances whose extracted member is a point. */
  ghost function Backed(crs: Crs, userIndex: nat, acc: seq<Acceptance>, forks: seq<Fork>): set<nat>
    requires |acc| == |forks| && forall i :: 0 <= i < |acc| ==> Extractable(crs, userIndex, acc[i], forks[i])
  {
    set i | 0 <= i < |acc| && PointFromBytes(Members(crs, userIndex, acc, forks)[i]).Some?
  }

  /** The Sybil bound: with one CRS and every accepted proof extractable, the acceptances
      of a whole run that a decodable member backs are at most as many as the decodable
      commitments ever cached, or a relation among the generators is exhibited. When
      every cached commitment decodes, that bounds the registrations themselves. */
  lemma RegistrationsBounded(crs: Crs, userIndex: nat, ops: seq<Op>, forks: seq<Fork>)
    requires forall i :: 0 <= i < |ops| && ops[i].Register? ==> ops[i].q.crs == crs
    requires |forks| == |Acceptances(userIndex, ops)|
    requires forall i :: 0 <= i < |forks| ==> Extractable(crs, userIndex, Acceptances(userIndex, ops)[i], forks[i])
    ensures RelationExhibited(crs, userIndex, Acceptances(userIndex, ops), forks)
         || |Backed(crs, userIndex, Acceptances(userIndex, ops), forks)| <= |Decodable(EverCached(ops))|
    ensures RelationExhibited(crs, userIndex, Acceptances(userIndex, ops), forks)
         || EverCached(ops) != Decodable(EverCached(ops))
         || |Run(userIndex, ops).registrations| <= |EverCached(ops)|
  {
    hide Verify, Extractable, ForkBreaks, Relation, Run, Acceptances, EverCached, ExtractedIndex, ExtractedOpening,
      MemberOf;
    var acc := Acceptances(userIndex, ops);
    AcceptancesMatchTable(userIndex, ops);
    AcceptancesVerified(userIndex, ops);
    if !RelationExhibited(crs, userIndex, acc, forks) {
      var xs, backed := Members(crs, userIndex, acc, forks), Backed(crs, userIndex, acc, forks);
      forall i | 0 <= i < |acc| ensures xs[i] in EverCached(ops) {
        MemberIsOpened(crs, userIndex, acc[i], forks[i]);
      }
      forall i, j | i in backed && j in backed && i < j ensures xs[i] != xs[j] {
        BackedDiffer(crs, userIndex, ops, acc, forks, i, j);
      }
      DistinctEntries(backed, xs, Decodable(EverCached(ops)));
      if EverCached(ops) == Decodable(EverCached(ops)) { AllBacked(crs, userIndex, acc, forks, EverCached(ops)); }
    }
  }

  lemma AllBacked(crs: Crs, userIndex: nat, acc: seq<Acceptance>, forks: seq<Fork>, cs: set<Bytes33>)
    requires |acc| == |forks| && forall i :: 0 <= i < |acc| ==> Extractable(crs, userIndex, acc[i], forks[i])
    requires forall i :: 0 <= i < |acc| ==> Members(crs, userIndex, acc, forks)[i] in cs
    requires cs == Decodable(cs)
    ensures |Backed(crs, userIndex, acc, forks)| == |acc|
  {
    hide Extractable, Members;
    UptoCounts(|acc|);
    assert Backed(crs, userIndex, acc, forks) == Upto(|acc|);
  }

  function Upto(n: nat): set<nat> {
    if n == 0 then {} else Upto(n - 1) + {n - 1}
  }

  lemma {:induction false} UptoCounts(n: nat)
    ensures |Upto(n)| == n && forall i :: i in Upto(n) <==> 0 <= i < n
  {
    if n > 0 { UptoCounts(n - 1); }
  }

  /** Two acceptances backed by one member open it with two scalars. */
  lemma BackedDiffer(crs: Crs, userIndex: nat, ops: seq<Op>, acc: seq<Acceptance>, forks: seq<Fork>, i: nat, j: nat)
    requires acc == Acceptances(userIndex, ops) && |acc| == |forks| && i < j < |acc|
    requires forall k :: 0 <= k < |ops| && ops[k].Register? ==> ops[k].q.crs == crs
    requires forall k :: 0 <= k < |acc| ==> Extractable(crs, userIndex, acc[k], forks[k])
    requires !RelationExhibited(crs, userIndex, acc, forks)
    requires PointFromBytes(MemberOf(crs, userIndex, acc[i], forks[i])).Some?
    ensures MemberOf(crs, userIndex, acc[i], forks[i]) != MemberOf(crs, userIndex, acc[j], forks[j])
  {
    AcceptancesMatchTable(userIndex, ops);
    AcceptancesVerified(userIndex, ops);
    hide Verify, Extractable, ForkBreaks, Relation, Run, Acceptances, EverCached, ExtractedIndex, ExtractedOpening,
      MemberOf;
    var x, y := MemberOf(crs, userIndex, acc[i], forks[i]), MemberOf(crs, userIndex, acc[j], forks[j]);
    if x == y {
      MemberIsOpened(crs, userIndex, acc[i], forks[i]);
      MemberIsOpened(crs, userIndex, acc[j], forks[j]);
      NullifiersDiffer(crs, userIndex, acc[i].q, acc[i].members, acc[j].q, acc[j].members);
      TwoOpeningsRelation(crs, PointFromBytes(x).value, OpeningOf(crs, userIndex, acc[i], forks[i]),
                          OpeningOf(crs, userIndex, acc[j], forks[j]), userIndex);
      assert false;
    }
  }

  ghost function MemberOf(crs: Crs, userIndex: nat, a: Acceptance, f: Fork): Bytes33
    requires Extractable(crs, userIndex, a, f)
  {
    if ExtractedIndex(f.ts) < |a.members| then a.members[ExtractedIndex(f.ts)] else Zeros(33)
  }

  lemma MemberIsOpened(crs: Crs, userIndex: nat, a: Acceptance, f: Fork)
    requires Extractable(crs, userIndex, a, f) && !ForkBreaks(crs, f)
    ensures var m, o := MemberOf(crs, userIndex, a, f), OpeningOf(crs, userIndex, a, f);
      && m in a.members && ValidService(crs, userIndex)
      && (PointFromBytes(m).Some? ==> OpensMaster(crs, PointFromBytes(m).value, o))
      && o.ss[userIndex - 1] == ScalarFromBytes(a.q.proof.nullifierScalar)
  {
    hide BreaksBinding, ExtractedIndex, ExtractedOpening, OpensMaster, ScalarFromBytes;
    ForkOpensMember(crs, a.members, userIndex, a.q.proof.nullifierScalar, f.msg, f.ts);
  }

  /** Distinct nullifier bytes mean distinct revealed scalars. */
  lemma NullifiersDiffer(crs: Crs, l: nat, q: Request, members: seq<Bytes33>, q': Request, members': seq<Bytes33>)
    requires q.crs == crs && q'.crs == crs && q.nullifier != q'.nullifier
    requires Verify(crs, members, l, q.setId, q.pseudonym, q.nullifier, q.proof)
    requires Verify(crs, members', l, q'.setId, q'.pseudonym, q'.nullifier, q'.proof)
    ensures ScalarFromBytes(q.proof.nullifierScalar) != ScalarFromBytes(q'.proof.nullifierScalar)
  {
    hide Accepts, DecodeMessage, DecodeAnswers, ChallengeFor, SchnorrAccepts, ShiftedSet;
  }
}
