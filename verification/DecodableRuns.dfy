/** Runs of a verifier over a set with an undecodable member, and the exact condition of
    the Sybil bound. */
module DecodableRuns {
  import opened Bytes
  import opened Crs
  import opened DecodableSets
  import opened Extraction
  import opened Field
  import opened Group
  import opened IndexHiding
  import opened OneOfMany
  import opened PaymentIdentity
  import opened Primitives
  import opened ProofTheorems
  import opened Soundness
  import opened Sums
  import opened SybilBound
  import opened VerifierTable

  // ── one request ────────────────────────────────────────────────────────────

  function NullifierFor(crs: Crs, scalar: Bytes32): Bytes33 {
    PointToBytes(SMul(ScalarFromBytes(scalar), crs.g))
  }

  function SecretlessRequest(crs: Crs, members: seq<Bytes33>, index: nat, l: nat, id: Bytes32, pseudonym: Bytes33,
                             scalar: Bytes32, name: seq<byte>, coins: Coins): Request
    requires |members| == N && ValidService(crs, l) && |coins.rho| == |crs.merchants| + 1
  {
    Request(crs, pseudonym, NullifierFor(crs, scalar),
            SecretlessProof(crs, members, index, l, id, pseudonym, scalar, SHA256(name), coins), id, name)
  }

  /** Whatever is in the table: over a cached set with an undecodable member, a request
      needs no secret; only a stale nullifier or pseudonym is refused. */
  lemma SecretlessAccepted(t: Table, crs: Crs, l: nat, id: Bytes32, index: nat, pseudonym: Bytes33, scalar: Bytes32,
                           name: seq<byte>, coins: Coins)
    requires id in t.setCache && |t.setCache[id]| == N && Undecodable(t.setCache[id], index)
    requires ValidService(crs, l) && |coins.rho| == |crs.merchants| + 1
    requires NullifierFor(crs, scalar) !in t.nullifiers && pseudonym !in t.pseudonyms
    ensures Refusal(t, l, SecretlessRequest(crs, t.setCache[id], index, l, id, pseudonym, scalar, name, coins)).None?
  {
    SecretlessVerifies(crs, t.setCache[id], index, l, id, pseudonym, scalar, SHA256(name), coins);
    Reveals(crs, t.setCache[id], index, l, id, pseudonym, scalar, SHA256(name), coins);
    hide Verify, SecretlessProof, NullifierFor;
  }

  lemma Reveals(crs: Crs, members: seq<Bytes33>, index: nat, l: nat, setId: Bytes32, pseudonym: Bytes33,
                scalar: Bytes32,
                nameScalar: Bytes32, coins: Coins)
    requires |members| == N && ValidService(crs, l) && |coins.rho| == |crs.merchants| + 1
    ensures var p := SecretlessProof(crs, members, index, l, setId, pseudonym, scalar, nameScalar, coins);
      p.nameScalar == nameScalar && p.nullifierScalar == scalar
  {
    hide FirstMessage, Respond, ChallengeFor, ShiftedSet, ShiftFor, BitsOf, ActiveGenerators;
  }

  // ── many requests ──────────────────────────────────────────────────────────

  predicate Valid(l: nat, id: Bytes32, members: seq<Bytes33>, q: Request) {
    && q.setId == id && Verify(q.crs, members, l, id, q.pseudonym, q.nullifier, q.proof)
    && VerifyNameRevelation(q.proof.nameScalar, q.friendlyName)
  }

  /** No nullifier and no pseudonym occurs twice. */
  ghost predicate AllNew(qs: seq<Request>) {
    forall i, j :: 0 <= i < j < |qs| ==> qs[i].nullifier != qs[j].nullifier && qs[i].pseudonym != qs[j].pseudonym
  }

  /** The set is cached and the requests arrive. */
  function Submit(id: Bytes32, members: seq<Bytes33>, qs: seq<Request>): seq<Op> {
    if qs == [] then [Cache(id, members)] else Submit(id, members, qs[..|qs| - 1]) + [Register(qs[|qs| - 1])]
  }

  function AcceptancesOf(members: seq<Bytes33>, qs: seq<Request>): (acc: seq<Acceptance>)
    ensures |acc| == |qs|
  {
    seq(|qs|, i requires 0 <= i < |qs| => Acceptance(qs[i], members))
  }

  function NullifiersIn(qs: seq<Request>): set<Bytes33> {
    if qs == [] then {} else NullifiersIn(qs[..|qs| - 1]) + {qs[|qs| - 1].nullifier}
  }

  function PseudonymsIn(qs: seq<Request>): set<Bytes33> {
    if qs == [] then {} else PseudonymsIn(qs[..|qs| - 1]) + {qs[|qs| - 1].pseudonym}
  }

  /** The table holds what the requests brought. */
  ghost predicate OnlyFrom(t: Table, id: Bytes32, members: seq<Bytes33>, qs: seq<Request>) {
    t.setCache == map[id := members] && t.nullifiers == NullifiersIn(qs) && t.pseudonyms == PseudonymsIn(qs)
  }

  lemma {:induction false} NewToAll(qs: seq<Request>, q: Request)
    requires forall i :: 0 <= i < |qs| ==> qs[i].nullifier != q.nullifier && qs[i].pseudonym != q.pseudonym
    ensures q.nullifier !in NullifiersIn(qs) && q.pseudonym !in PseudonymsIn(qs)
  {
    if qs != [] { NewToAll(qs[..|qs| - 1], q); }
  }

  lemma CacheFirst(l: nat, id: Bytes32, members: seq<Bytes33>)
    ensures OnlyFrom(Run(l, [Cache(id, members)]), id, members, [])
    ensures Acceptances(l, [Cache(id, members)]) == [] && EverCached([Cache(id, members)]) == ElementsOf(members)
  {
    hide Verify, ElementsOf;
    var ops := [Cache(id, members)];
    assert ops[..0] == [] && Run(l, []) == EMPTY && EverCached([]) == {} && Acceptances(l, []) == [];
    assert Run(l, ops) == Step(EMPTY, l, ops[0]);
  }

  lemma PushAccepted(l: nat, ops: seq<Op>, q: Request)
    requires Refusal(Run(l, ops), l, q).None?
    ensures Run(l, ops + [Register(q)]) == Registered(Run(l, ops), q)
    ensures q.setId in Run(l, ops).setCache
    ensures Acceptances(l, ops + [Register(q)]) == Acceptances(l, ops) + [Acceptance(q, Run(l, ops).setCache[q.setId])]
    ensures EverCached(ops + [Register(q)]) == EverCached(ops)
  {
    hide Verify;
    assert (ops + [Register(q)])[..|ops|] == ops;
  }

  lemma StillOnly(t: Table, id: Bytes32, members: seq<Bytes33>, qs: seq<Request>, q: Request)
    requires OnlyFrom(t, id, members, qs)
    ensures OnlyFrom(Registered(t, q), id, members, qs + [q])
  {
    assert (qs + [q])[..|qs|] == qs;
  }

  lemma NotRefused(t: Table, l: nat, id: Bytes32, members: seq<Bytes33>, qs: seq<Request>, q: Request)
    requires OnlyFrom(t, id, members, qs) && Valid(l, id, members, q)
    requires forall i :: 0 <= i < |qs| ==> qs[i].nullifier != q.nullifier && qs[i].pseudonym != q.pseudonym
    ensures Refusal(t, l, q).None?
  {
    hide Verify, VerifyNameRevelation;
    NewToAll(qs, q);
  }

  /** Valid requests with new nullifiers and pseudonyms are all accepted. */
  lemma {:induction false} AllAccepted(l: nat, id: Bytes32, members: seq<Bytes33>, qs: seq<Request>)
    requires AllNew(qs) && forall i :: 0 <= i < |qs| ==> Valid(l, id, members, qs[i])
    ensures var ops := Submit(id, members, qs);
      && OnlyFrom(Run(l, ops), id, members, qs)
      && Acceptances(l, ops) == AcceptancesOf(members, qs) && EverCached(ops) == ElementsOf(members)
  {
    hide Valid, Run, Acceptances, EverCached, ElementsOf, Refusal, OnlyFrom;
    if qs == [] {
      CacheFirst(l, id, members);
    } else {
      var n := |qs| - 1;
      var init, q := qs[..n], qs[n];
      assert qs == init + [q];
      AllAccepted(l, id, members, init);
      var ops := Submit(id, members, init);
      NotRefused(Run(l, ops), l, id, members, init, q);
      PushAccepted(l, ops, q);
      StillOnly(Run(l, ops), id, members, init, q);
      assert AcceptancesOf(members, qs) == AcceptancesOf(members, init) + [Acceptance(q, members)];
    }
  }

  // ── requests that need no secret ───────────────────────────────────────────

  /** A set of the right size with an undecodable member, at a service of a CRS whose g and
      h_l are not the identity. */
  predicate Proper(crs: Crs, members: seq<Bytes33>, index: nat, l: nat) {
    && |members| == N && ValidService(crs, l) && Undecodable(members, index)
    && crs.g != Identity() && crs.generators[l - 1] != Identity()
  }

  function ScalarAt(i: nat): Bytes32
    requires i < Q
  {
    ScalarToBytes(i)
  }

  function NumberedPseudonym(i: nat): Bytes33 { EncodeBE(i, 33) }

  /** The fork leads to the undecodable member and opens it to zeros. */
  ghost predicate Backing(crs: Crs, members: seq<Bytes33>, index: nat, l: nat, scalar: Bytes32, f: Fork) {
    && ForkedStatement(crs, members, l, scalar, f.msg, f.ts) && |f.ts| == M + 1
    && (forall k :: 0 <= k < |f.ts| ==> |f.ts[k].ans.zs| == |crs.merchants| + 1)
    && Extracts(crs.g, f.ts, index, ZeroSecrets(|crs.merchants| + 1))
  }

  predicate Carries(crs: Crs, q: Request, i: nat)
    requires i < Q
  {
    && q.crs == crs && q.nullifier == NullifierFor(crs, ScalarAt(i)) && q.pseudonym == NumberedPseudonym(i)
    && q.proof.nullifierScalar == ScalarAt(i)
  }

  /** The i-th of them, with a fork behind its proof. */
  ghost predicate Evidence(crs: Crs, members: seq<Bytes33>, index: nat, l: nat, id: Bytes32, i: nat, q: Request,
                           f: Fork)
    requires i < Q
  {
    Carries(crs, q, i) && Valid(l, id, members, q) && Backing(crs, members, index, l, ScalarAt(i), f)
  }

  lemma RequestAt(crs: Crs, members: seq<Bytes33>, index: nat, l: nat, id: Bytes32, i: nat) returns (q: Request)
    requires |members| == N && ValidService(crs, l) && Undecodable(members, index) && i < Q
    ensures Carries(crs, q, i) && Valid(l, id, members, q)
  {
    hide Verify, SecretlessProof, ScalarAt, NumberedPseudonym, ZeroCoins, NullifierFor, Undecodable;
    var coins := ZeroCoins(|crs.merchants| + 1);
    var name: seq<byte>, scalar, pseudonym := [], ScalarAt(i), NumberedPseudonym(i);
    SecretlessVerifies(crs, members, index, l, id, pseudonym, scalar, SHA256(name), coins);
    Reveals(crs, members, index, l, id, pseudonym, scalar, SHA256(name), coins);
    q := SecretlessRequest(crs, members, index, l, id, pseudonym, scalar, name, coins);
    NullifierIs(crs, scalar);
  }

  lemma NullifierIs(crs: Crs, scalar: Bytes32)
    ensures NullifierFor(crs, scalar) == PointToBytes(SMul(ScalarFromBytes(scalar), crs.g))
  {}

  lemma ForkFor(crs: Crs, members: seq<Bytes33>, index: nat, l: nat, scalar: Bytes32) returns (f: Fork)
    requires |members| == N && ValidService(crs, l) && Undecodable(members, index) && M < Q
    ensures Backing(crs, members, index, l, scalar, f)
  {
    hide SecretlessMessage, SecretlessTranscripts, ForkedStatement, Extracts, ZeroSecrets, Undecodable;
    SecretlessFork(crs, members, index, l, scalar);
    f := Fork(SecretlessMessage(crs, members, index, l, scalar), SecretlessTranscripts(index, |crs.merchants| + 1));
  }

  lemma ScalarsDiffer(crs: Crs, i: nat, j: nat)
    requires crs.g != Identity() && i < Q && j < Q && i != j
    ensures NullifierFor(crs, ScalarAt(i)) != NullifierFor(crs, ScalarAt(j))
  {
    hide R, SMul, ScalarFromBytes, ScalarToBytes, Identity;
    ScalarRoundTrip(i); ScalarRoundTrip(j);
    PointRoundTrip(SMul(i, crs.g)); PointRoundTrip(SMul(j, crs.g));
    if SMul(i, crs.g) == SMul(j, crs.g) { LogUnique(crs.g, i, j); }
  }

  lemma PseudonymsDiffer(i: nat, j: nat)
    requires i != j && i < Q && j < Q
    ensures NumberedPseudonym(i) != NumberedPseudonym(j)
  {
    hide EncodeBE;
    assert Pow256(33) == 256 * Pow256(32);
    hide Pow256;
    DecodeEncode(i, 33); DecodeEncode(j, 33);
    ScalarWidth();
  }

  /** The first n of them. */
  ghost predicate AllEvidence(crs: Crs, members: seq<Bytes33>, index: nat, l: nat, id: Bytes32, qs: seq<Request>,
                              fs: seq<Fork>) {
    |qs| == |fs| <= Q && forall i :: 0 <= i < |qs| ==> Evidence(crs, members, index, l, id, i, qs[i], fs[i])
  }

  lemma {:induction false} ManyEvidence(crs: Crs, members: seq<Bytes33>, index: nat, l: nat, id: Bytes32, n: nat)
    returns (qs: seq<Request>, fs: seq<Fork>)
    requires Proper(crs, members, index, l) && n <= Q && M < Q
    ensures |qs| == n && AllEvidence(crs, members, index, l, id, qs, fs)
    decreases n
  {
    hide Carries, Valid, Backing, Identity, AllEvidence;
    qs, fs := [], [];
    NoEvidence(crs, members, index, l, id);
    if n > 0 {
      qs, fs := ManyEvidence(crs, members, index, l, id, n - 1);
      var q := RequestAt(crs, members, index, l, id, n - 1);
      var f := ForkFor(crs, members, index, l, ScalarAt(n - 1));
      AddEvidence(crs, members, index, l, id, qs, fs, q, f);
      qs, fs := qs + [q], fs + [f];
    }
  }

  lemma NoEvidence(crs: Crs, members: seq<Bytes33>, index: nat, l: nat, id: Bytes32)
    ensures AllEvidence(crs, members, index, l, id, [], [])
  {}

  lemma AddEvidence(crs: Crs, members: seq<Bytes33>, index: nat, l: nat, id: Bytes32, qs: seq<Request>, fs: seq<Fork>,
                    q: Request, f: Fork)
    requires AllEvidence(crs, members, index, l, id, qs, fs) && |qs| < Q
    requires Evidence(crs, members, index, l, id, |qs|, q, f)
    ensures AllEvidence(crs, members, index, l, id, qs + [q], fs + [f])
  {
    hide Evidence;
  }

  function ZeroOpening(n: nat, l: nat, s: Scalar): (o: Opening)
    requires 1 <= l <= n
    ensures |o.ss| == n && o.ss[l - 1] == s
  {
    Reinsert(ZeroSecrets(n + 1), l, s)
  }

  lemma ZerosExtracted(crs: Crs, index: nat, l: nat, scalar: Bytes32, ts: seq<Transcript>)
    requires ValidService(crs, l) && |ts| == M + 1
    requires forall k :: 0 <= k < |ts| ==> |ts[k].ans.zs| == |crs.merchants| + 1
    requires Extracts(crs.g, ts, index, ZeroSecrets(|crs.merchants| + 1))
    ensures ExtractedOpening(crs, l, scalar, ts) == ZeroOpening(|crs.generators|, l, ScalarFromBytes(scalar))
  {
    hide BreaksBinding, ExtractedIndex, ExtractedSecrets, ScalarFromBytes, ZeroSecrets, Reinsert;
  }

  lemma Unbroken(crs: Crs, index: nat, f: Fork, secrets: seq<Scalar>)
    requires |f.ts| == M + 1 && forall k :: 0 <= k < |f.ts| ==> |f.ts[k].ans.zs| == |secrets|
    requires Extracts(crs.g, f.ts, index, secrets)
    ensures !ForkBreaks(crs, f)
  {
    hide BreaksBinding, ExtractedIndex, ExtractedSecrets;
  }

  lemma OpeningOfIs(crs: Crs, l: nat, a: Acceptance, f: Fork)
    requires Extractable(crs, l, a, f) && ValidService(crs, l) && |f.ts| == M + 1
    requires forall k :: 0 <= k < |f.ts| ==> |f.ts[k].ans.zs| == |crs.merchants| + 1
    ensures OpeningOf(crs, l, a, f) == ExtractedOpening(crs, l, a.q.proof.nullifierScalar, f.ts)
  {
    hide Extractable, ExtractedOpening;
  }

  lemma ExtractableIs(crs: Crs, l: nat, a: Acceptance, f: Fork)
    requires ForkedStatement(crs, a.members, l, a.q.proof.nullifierScalar, f.msg, f.ts)
    ensures Extractable(crs, l, a, f)
  {
    hide ForkedStatement;
  }

  /** What the fork behind one of them opens: the revealed scalar and zeros. */
  lemma BackingOpens(crs: Crs, members: seq<Bytes33>, index: nat, l: nat, q: Request, f: Fork)
    requires Backing(crs, members, index, l, q.proof.nullifierScalar, f) && ValidService(crs, l)
    ensures Extractable(crs, l, Acceptance(q, members), f) && !ForkBreaks(crs, f)
    ensures OpeningOf(crs, l, Acceptance(q, members), f)
         == ZeroOpening(|crs.generators|, l, ScalarFromBytes(q.proof.nullifierScalar))
  {
    hide ForkedStatement, Extracts, ExtractedOpening, ScalarFromBytes, ZeroSecrets, ZeroOpening, Extractable,
      ForkBreaks, OpeningOf;
    var zeros := ZeroSecrets(|crs.merchants| + 1);
    ExtractableIs(crs, l, Acceptance(q, members), f);
    Unbroken(crs, index, f, zeros);
    ZerosExtracted(crs, index, l, q.proof.nullifierScalar, f.ts);
    OpeningOfIs(crs, l, Acceptance(q, members), f);
  }

  /** A combination with one nonzero coefficient is a multiple of one point. */
  lemma LinSingle(cs: seq<Scalar>, ps: seq<Point>, j: nat)
    requires j < |cs| == |ps| && forall i :: 0 <= i < |cs| && i != j ==> cs[i] == 0
    ensures Lin(cs, ps) == SMul(cs[j], ps[j])
  {
    hide R, Lin;
    forall c: nat | c < D ensures Lin(cs, ps)[c] == SMul(cs[j], ps[j])[c] {
      LinCoord(cs, ps, c);
      DotOne(cs, ps, j, c);
    }
  }

  lemma DotOne(cs: seq<int>, ps: seq<Point>, j: nat, c: nat)
    requires c < D && j < |cs| == |ps| && forall i :: 0 <= i < |cs| && i != j ==> cs[i] == 0
    ensures Dot(cs, ps, c) == cs[j] * ps[j][c] as int
  {
    forall i: nat | i < |cs| && i != j ensures DotTerm(cs, ps, c)(i) == 0 {
      assert cs[i] == 0;
    }
    SumSingle(|cs|, DotTerm(cs, ps, c), j);
  }

  /** Two such openings differ at h_l alone, so they relate nothing. */
  lemma NoRelationBetween(crs: Crs, l: nat, s: Scalar, s': Scalar)
    requires ValidService(crs, l) && crs.generators[l - 1] != Identity() && s != s'
    ensures !Relation(Difference(ZeroOpening(|crs.generators|, l, s), ZeroOpening(|crs.generators|, l, s')),
                      IdentityGenerators(crs))
  {
    var n, gens := |crs.generators|, IdentityGenerators(crs);
    var d := Difference(ZeroOpening(n, l, s), ZeroOpening(n, l, s'));
    hide Lin, SMul, Identity, ZeroOpening, Difference;
    NonZeroAt(ZeroOpening(n, l, s), ZeroOpening(n, l, s'), l);
    forall k | 0 <= k < |d| && k != l ensures d[k] == 0 { ZerosElsewhere(n, l, s, s', k); }
    LinSingle(d, gens, l);
    assert gens[l] == crs.generators[l - 1];
    ZeroTimes(gens[l]);
    if SMul(d[l], gens[l]) == Identity() {
      LogUnique(gens[l], d[l], 0);
      assert false;
    }
  }

  lemma ZerosElsewhere(n: nat, l: nat, s: Scalar, s': Scalar, k: nat)
    requires 1 <= l <= n && k < n + 2 && k != l
    ensures Difference(ZeroOpening(n, l, s), ZeroOpening(n, l, s'))[k] == 0
  {
    hide R;
    RScalar(0);
  }

  // ── the exact condition of the bound ───────────────────────────────────────

  /** A run over one set and one CRS whose accepted proofs are all extractable. */
  ghost predicate RunOver(crs: Crs, members: seq<Bytes33>, l: nat, ops: seq<Op>, forks: seq<Fork>) {
    && (forall i :: 0 <= i < |ops| ==> if ops[i].Register? then ops[i].q.crs == crs else ops[i].members == members)
    && |forks| == |Acceptances(l, ops)|
    && forall i :: 0 <= i < |forks| ==> Extractable(crs, l, Acceptances(l, ops)[i], forks[i])
  }

  /** The Sybil bound for one set: in every such run. */
  ghost predicate BoundedOver(crs: Crs, members: seq<Bytes33>, l: nat) {
    forall ops: seq<Op>, forks: seq<Fork> :: RunOver(crs, members, l, ops, forks) ==>
      RelationExhibited(crs, l, Acceptances(l, ops), forks) || |Run(l, ops).registrations| <= |EverCached(ops)|
  }

  lemma {:induction false} CachedWithin(crs: Crs, members: seq<Bytes33>, ops: seq<Op>)
    requires forall i :: 0 <= i < |ops| ==> if ops[i].Register? then ops[i].q.crs == crs else ops[i].members == members
    ensures EverCached(ops) <= ElementsOf(members)
  {
    if ops != [] { CachedWithin(crs, members, ops[..|ops| - 1]); }
  }

  lemma DecodableIsBounded(crs: Crs, members: seq<Bytes33>, l: nat, ops: seq<Op>, forks: seq<Fork>)
    requires AllDecode(members) && RunOver(crs, members, l, ops, forks)
    ensures RelationExhibited(crs, l, Acceptances(l, ops), forks) || |Run(l, ops).registrations| <= |EverCached(ops)|
  {
    hide Extractable, Run, Acceptances, EverCached, RelationExhibited;
    CachedWithin(crs, members, ops);
    assert EverCached(ops) == Decodable(EverCached(ops));
    RegistrationsBounded(crs, l, ops, forks);
  }

  lemma {:induction false} FewElements(s: seq<Bytes33>)
    ensures |ElementsOf(s)| <= |s|
  {
    if s != [] {
      var n := |s| - 1;
      FewElements(s[..n]);
      assert ElementsOf(s) == ElementsOf(s[..n]) + {s[n]};
    }
  }

  lemma EvidenceDiffers(crs: Crs, members: seq<Bytes33>, index: nat, l: nat, id: Bytes32, qs: seq<Request>,
                        fs: seq<Fork>)
    requires AllEvidence(crs, members, index, l, id, qs, fs) && crs.g != Identity()
    ensures AllNew(qs) && forall i :: 0 <= i < |qs| ==> Valid(l, id, members, qs[i]) && qs[i].crs == crs
  {
    hide Valid, Backing, NullifierFor, ScalarAt, NumberedPseudonym, Identity;
    forall i, j | 0 <= i < j < |qs| ensures qs[i].nullifier != qs[j].nullifier && qs[i].pseudonym != qs[j].pseudonym {
      ScalarsDiffer(crs, i, j);
      PseudonymsDiffer(i, j);
    }
  }

  lemma NothingExhibited(crs: Crs, members: seq<Bytes33>, index: nat, l: nat, id: Bytes32, qs: seq<Request>,
                         fs: seq<Fork>)
    requires AllEvidence(crs, members, index, l, id, qs, fs) && Proper(crs, members, index, l)
    ensures forall i :: 0 <= i < |qs| ==> Extractable(crs, l, AcceptancesOf(members, qs)[i], fs[i])
    ensures !RelationExhibited(crs, l, AcceptancesOf(members, qs), fs)
  {
    hide Extractable, OpeningOf, Relation, ForkBreaks, Difference, IdentityGenerators, Valid, Backing, ZeroOpening,
      Undecodable, Identity, ScalarFromBytes, ScalarToBytes, NullifierFor, NumberedPseudonym;
    var acc := AcceptancesOf(members, qs);
    forall i | 0 <= i < |qs|
      ensures Extractable(crs, l, acc[i], fs[i]) && !ForkBreaks(crs, fs[i])
      ensures OpeningOf(crs, l, acc[i], fs[i]) == ZeroOpening(|crs.generators|, l, i)
    {
      assert Evidence(crs, members, index, l, id, i, qs[i], fs[i]);
      BackingOpens(crs, members, index, l, qs[i], fs[i]);
      ScalarRoundTrip(i);
    }
    forall i, j | 0 <= i < j < |qs|
      ensures !Relation(Difference(OpeningOf(crs, l, acc[i], fs[i]), OpeningOf(crs, l, acc[j], fs[j])),
                        IdentityGenerators(crs))
    {
      NoRelationBetween(crs, l, i, j);
    }
  }

  lemma {:induction false} SubmitOver(crs: Crs, id: Bytes32, members: seq<Bytes33>, qs: seq<Request>)
    requires forall i :: 0 <= i < |qs| ==> qs[i].crs == crs
    ensures forall op :: op in Submit(id, members, qs) ==>
      if op.Register? then op.q.crs == crs else op.members == members
  {
    if qs != [] { SubmitOver(crs, id, members, qs[..|qs| - 1]); }
  }

  /** With an undecodable member, n registrations over one set, for every n up to the
      order of the group: all extractable, and relating nothing. */
  lemma UndecodableIsUnbounded(crs: Crs, members: seq<Bytes33>, index: nat, l: nat, id: Bytes32, n: nat)
    returns (ops: seq<Op>, forks: seq<Fork>)
    requires Proper(crs, members, index, l) && M < Q && n <= Q
    ensures RunOver(crs, members, l, ops, forks) && |Run(l, ops).registrations| == n
    ensures EverCached(ops) == ElementsOf(members) && !RelationExhibited(crs, l, Acceptances(l, ops), forks)
  {
    var qs: seq<Request>;
    qs, forks := ManyEvidence(crs, members, index, l, id, n);
    ops := Submit(id, members, qs);
    EvidenceDiffers(crs, members, index, l, id, qs, forks);
    NothingExhibited(crs, members, index, l, id, qs, forks);
    hide *;
    SubmitRun(crs, members, l, id, qs, forks);
  }

  lemma SubmitRun(crs: Crs, members: seq<Bytes33>, l: nat, id: Bytes32, qs: seq<Request>, forks: seq<Fork>)
    requires AllNew(qs) && forall i :: 0 <= i < |qs| ==> Valid(l, id, members, qs[i]) && qs[i].crs == crs
    requires |forks| == |qs|
    requires forall i :: 0 <= i < |qs| ==> Extractable(crs, l, AcceptancesOf(members, qs)[i], forks[i])
    ensures var ops := Submit(id, members, qs);
      && RunOver(crs, members, l, ops, forks) && |Run(l, ops).registrations| == |qs|
      && Acceptances(l, ops) == AcceptancesOf(members, qs) && EverCached(ops) == ElementsOf(members)
  {
    AllAccepted(l, id, members, qs);
    hide *;
    SubmitOver(crs, id, members, qs);
    var ops := Submit(id, members, qs);
    AcceptancesMatchTable(l, ops);
    RunOverIs(crs, members, l, ops, forks);
  }

  lemma RunOverIs(crs: Crs, members: seq<Bytes33>, l: nat, ops: seq<Op>, forks: seq<Fork>)
    requires forall op :: op in ops ==> if op.Register? then op.q.crs == crs else op.members == members
    requires |forks| == |Acceptances(l, ops)|
    requires forall i :: 0 <= i < |forks| ==> Extractable(crs, l, Acceptances(l, ops)[i], forks[i])
    ensures RunOver(crs, members, l, ops, forks)
  {}

  lemma UndecodableNotBounded(crs: Crs, members: seq<Bytes33>, index: nat, l: nat)
    requires Proper(crs, members, index, l) && M < Q && N < Q
    ensures !BoundedOver(crs, members, l)
  {
    var ops, forks := UndecodableIsUnbounded(crs, members, index, l, Zeros(32), N + 1);
    FewElements(members);
    hide RunOver, RelationExhibited, Run, Acceptances, EverCached, Undecodable, Identity;
    assert RunOver(crs, members, l, ops, forks);
  }

  lemma DecodableBounded(crs: Crs, members: seq<Bytes33>, l: nat)
    requires AllDecode(members)
    ensures BoundedOver(crs, members, l)
  {
    forall ops, forks | RunOver(crs, members, l, ops, forks)
      ensures RelationExhibited(crs, l, Acceptances(l, ops), forks) || |Run(l, ops).registrations| <= |EverCached(ops)|
    {
      DecodableIsBounded(crs, members, l, ops, forks);
    }
    hide RelationExhibited, Extractable;
  }

  /** The exact condition: the Sybil bound holds over a set if and only if every member
      of it decodes. */
  lemma BoundedExactlyWhenDecodable(crs: Crs, members: seq<Bytes33>, l: nat)
    requires |members| == N && ValidService(crs, l) && M < Q && N < Q
    requires crs.g != Identity() && crs.generators[l - 1] != Identity()
    ensures BoundedOver(crs, members, l) <==> AllDecode(members)
  {
    hide BoundedOver, Identity;
    if AllDecode(members) {
      DecodableBounded(crs, members, l);
    } else {
      var index :| 0 <= index < |members| && PointFromBytes(members[index]).None?;
      UndecodableNotBounded(crs, members, index, l);
    }
  }
}
