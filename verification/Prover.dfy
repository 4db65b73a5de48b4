/** The prover's loops, proved to build the proof of PaymentIdentity.Prove. */
module RegistrationProver {
  import opened Bytes
  import opened Crs
  import opened Expansion
  import opened Field
  import opened Group
  import opened Matrices
  import opened OneOfMany
  import opened PaymentIdentity
  import opened Polynomials
  import opened Primitives

  /** cap = g·r; for k in 0..M: cap += H_k·c_k */
  method CommitVector(g: Point, r: Scalar, cs: Scalars) returns (cap: Point)
    ensures cap == Lin([r] + cs, Base(g))
  {
    hide *;
    var hk := BitGenerators();
    ghost var all, gens := [r] + cs, [g] + hk;
    cap := SMul(r, g);
    LinPush(all, gens, 0); LinEmpty(); IdentityPlus(cap);
    for k := 0 to M
      invariant cap == Lin(all[..k + 1], gens[..k + 1])
    {
      LinPush(all, gens, k + 1);
      cap := PAdd(cap, SMul(cs[k], hk[k]));
    }
    assert all[..M + 1] == all && gens[..M + 1] == gens;
    BaseDef(g);
  }

  lemma BaseDef(g: Point)
    ensures Base(g) == [g] + BitGenerators()
  {}

  /** Pushes every entry but the l-th between a first and a last one. */
  method SkipService<T>(first: T, items: seq<T>, l: nat, last: T) returns (r: seq<T>)
    requires 1 <= l <= |items|
    ensures r == [first] + items[..l - 1] + items[l..] + [last]
  {
    r := [first];
    for m := 1 to |items| + 1
      invariant r == if m <= l then [first] + items[..m - 1] else [first] + items[..l - 1] + items[l..m - 1]
    {
      if m != l {
        r := r + [items[m - 1]];
        assert m > l ==> items[l..m] == items[l..m - 1] + [items[m - 1]];
      }
    }
    assert items[l..|items|] == items[l..];
    r := r + [last];
  }

  /** Every accumulator holds the first n terms of its E_k. */
  ghost predicate Filled(cap: seq<Point>, P: seq<seq<Scalar>>, ps: seq<Point>, n: nat)
    requires Rectangular(P, M) && n <= |P| == |ps|
  {
    |cap| == M && forall k :: 0 <= k < M ==> cap[k] == Partial(P, ps, n, k)
  }

  /** The masks on the active generators, accumulator by accumulator. */
  method AddMasks(capE: array<Point>, act: seq<Point>, rho: seq<Scalars>, ghost P: seq<seq<Scalar>>,
                  ghost ps: seq<Point>)
    requires capE.Length == M && |rho| == |act| && Rectangular(P, M) && |act| <= |P| == |ps|
    requires rho == P[..|rho|] && act == ps[..|act|]
    requires forall i :: 0 <= i < M ==> capE[i] == Identity()
    modifies capE
    ensures Filled(capE[..], P, ps, |act|)
  {
    hide Partial, PAdd, SMul, Identity;
    for k := 0 to M
      invariant forall i :: 0 <= i < k ==> capE[i] == Partial(P, ps, |act|, i)
      invariant forall i :: k <= i < M ==> capE[i] == Identity()
    {
      PartialZero(P, ps, k);
      for n := 0 to |act|
        invariant capE[k] == Partial(P, ps, n, k)
        invariant forall i :: 0 <= i < k ==> capE[i] == Partial(P, ps, |act|, i)
        invariant forall i :: k < i < M ==> capE[i] == Identity()
      {
        PartialStep(P, ps, n, k);
        capE[k] := PAdd(capE[k], SMul(rho[n][k], act[n]));
      }
    }
  }

  /** The coefficients of one set member, into every accumulator. */
  method AddMember(capE: array<Point>, poly: array<Scalar>, dj: Point, n: nat, ghost P: seq<seq<Scalar>>,
                   ghost ps: seq<Point>)
    requires capE.Length == M && poly.Length == M + 1 && Rectangular(P, M) && n < |P| == |ps|
    requires dj == ps[n] && poly[..M] == P[n] && Filled(capE[..], P, ps, n)
    modifies capE
    ensures Filled(capE[..], P, ps, n + 1)
  {
    hide Partial, PAdd, SMul, Identity;
    for m := 0 to M
      invariant forall i :: 0 <= i < m ==> capE[i] == Partial(P, ps, n + 1, i)
      invariant forall i :: m <= i < M ==> capE[i] == Partial(P, ps, n, i)
    {
      PartialStep(P, ps, n, m);
      assert poly[..M][m] == poly[m];
      capE[m] := PAdd(capE[m], SMul(poly[m], dj));
    }
  }

  /** E_k: first the masks on the active generators, then, member by member, the
      coefficients of the expanded product. */
  method MaskedPoints(act: seq<Point>, dSet: seq<Point>, bits: Scalars, coins: Coins) returns (e: Points)
    requires |coins.rho| == |act| && |dSet| == N
    ensures e == seq(M, k requires 0 <= k < M => MaskedPoint(bits, coins, act, dSet, k))
  {
    hide Partial, PAdd, SMul, Identity, Coefficients, MaskedPoint, LowRows, Lin;
    ghost var P, ps := coins.rho + LowRows(bits, coins.a), act + dSet;
    var capE := new Point[M](_ => Identity());
    AddMasks(capE, act, coins.rho, P, ps);
    for j := 0 to N
      invariant Filled(capE[..], P, ps, |act| + j)
    {
      var poly := Expand(j, bits, coins.a);
      assert poly[..M] == P[|act| + j] by { LowRowsAt(bits, coins.a, j); }
      AddMember(capE, poly, dSet[j], |act| + j, P, ps);
    }
    forall i: nat | i < M ensures capE[i] == MaskedPoint(bits, coins, act, dSet, i) {
      PartialAll(P, ps, i);
      MaskedPointDef(bits, coins, act, dSet, i);
    }
    e := capE[..];
  }

  lemma LowRowsAt(bits: Scalars, a: Scalars, j: nat)
    requires j < N
    ensures LowRows(bits, a)[j] == Coefficients(j, bits, a, M)[..M]
  {}

  lemma MaskedPointDef(bits: Scalars, coins: Coins, act: seq<Point>, dSet: seq<Point>, k: nat)
    requires |coins.rho| == |act| && |dSet| == N && k < M
    ensures MaskedPoint(bits, coins, act, dSet, k) == Lin(Column(coins.rho + LowRows(bits, coins.a), M, k), act + dSet)
  {}

  /** The first n terms of E_k. */
  ghost function Partial(P: seq<seq<Scalar>>, ps: seq<Point>, n: nat, k: nat): Point
    requires Rectangular(P, M) && n <= |P| == |ps| && k < M
  {
    Lin(Column(P, M, k)[..n], ps[..n])
  }

  lemma PartialZero(P: seq<seq<Scalar>>, ps: seq<Point>, k: nat)
    requires Rectangular(P, M) && |P| == |ps| && k < M
    ensures Partial(P, ps, 0, k) == Identity()
  {}

  lemma PartialStep(P: seq<seq<Scalar>>, ps: seq<Point>, n: nat, k: nat)
    requires Rectangular(P, M) && n < |P| == |ps| && k < M
    ensures Partial(P, ps, n + 1, k) == PAdd(Partial(P, ps, n, k), SMul(P[n][k], ps[n]))
  {
    hide Lin, PAdd, SMul;
    LinPush(Column(P, M, k), ps, n);
  }

  lemma PartialAll(P: seq<seq<Scalar>>, ps: seq<Point>, k: nat)
    requires Rectangular(P, M) && |P| == |ps| && k < M
    ensures Partial(P, ps, |P|, k) == Lin(Column(P, M, k), ps)
  {
    hide Lin;
    assert Column(P, M, k)[..|P|] == Column(P, M, k) && ps[..|P|] == ps;
  }

  /** 1, x, x², … x^M */
  method PowerTable(x: Scalar) returns (xs: seq<Scalar>)
    ensures |xs| == M + 1 && forall k :: 0 <= k <= M ==> xs[k] == R(Pow(x, k))
  {
    hide R;
    var xPow: Scalar := 1;
    RScalar(1); RScalar(x);
    var table := new Scalar[M + 1](_ => 0);
    for k := 0 to M + 1
      invariant xPow == R(Pow(x, k))
      invariant forall i :: 0 <= i < k ==> table[i] == R(Pow(x, i))
    {
      table[k] := xPow;
      ROps(Pow(x, k), x);
      xPow := Mul(xPow, x);
    }
    xs := table[..];
  }

  /** Σ rho_k·x^k */
  method MaskValue(row: Scalars, xs: seq<Scalar>, x: Scalar) returns (sum: Scalar)
    requires |xs| == M + 1 && forall k :: 0 <= k <= M ==> xs[k] == R(Pow(x, k))
    ensures sum == R(Eval(row, x))
  {
    hide R, Add, Mul, Pow;
    sum := 0;
    RScalar(0);
    for k := 0 to M
      invariant sum == R(Eval(row[..k], x))
    {
      EvalStep(row, k, x);
      sum := Add(sum, Mul(row[k], xs[k]));
    }
    assert row[..M] == row;
  }

  /** z = w·x^M - Σ rho_k·x^k, for each active generator. */
  method PolynomialAnswers(secrets: seq<Scalar>, rho: seq<Scalars>, x: Scalar) returns (zs: seq<Scalar>)
    requires |secrets| == |rho|
    ensures |zs| == |rho|
    ensures forall i :: 0 <= i < |rho| ==> zs[i] == R(secrets[i] as int * Pow(x, M) - Eval(rho[i], x))
  {
    hide R, Add, Mul, Sub, Eval, Pow;
    var xPowers := PowerTable(x);
    zs := [];
    for n := 0 to |rho|
      invariant |zs| == n
      invariant forall i :: 0 <= i < n ==> zs[i] == R(secrets[i] as int * Pow(x, M) - Eval(rho[i], x))
    {
      var sumRho := MaskValue(rho[n], xPowers, x);
      AnswerStep(secrets[n], Pow(x, M), Eval(rho[n], x));
      zs := zs + [Sub(Mul(secrets[n], xPowers[M]), sumRho)];
    }
  }

  lemma EvalStep(row: seq<Scalar>, k: nat, x: Scalar)
    requires k < |row|
    ensures Add(R(Eval(row[..k], x)), Mul(row[k], R(Pow(x, k)))) == R(Eval(row[..k + 1], x))
  {
    hide R, Pow;
    assert row[..k + 1] == row[..k] + [row[k]];
    EvalSnoc(row[..k], row[k], x);
    RScalar(row[k]);
    ROps(row[k], Pow(x, k));
    ROps(Eval(row[..k], x), row[k] as int * Pow(x, k));
  }

  lemma AnswerStep(w: Scalar, X: int, e: int)
    ensures Sub(Mul(w, R(X)), R(e)) == R(w as int * X - e)
  {
    hide R;
    RScalar(w);
    ROps(w, X);
    ROps(w as int * X, e);
  }

  method ProvePaymentIdentityRegistration(
    crs: Crs, members: seq<Bytes33>, index: nat, l: nat, setId: Bytes32, blinding: Bytes32,
    nullifiers: seq<Bytes32>, pseudonym: Bytes33, nullifier: Bytes33, nameScalar: Bytes32, coins: Coins)
    returns (r: Result<RegistrationProof, ProveError>)
    requires |coins.rho| == |crs.merchants| + 1
    ensures r == Prove(crs, members, index, l, setId, blinding, nullifiers, pseudonym, nullifier, nameScalar, coins)
  {
    hide Lin, R, Respond, Base, BitsOf, CrossTerms, NegSquares, MaskedPoint, ScalarFromBytes, ScalarToBytes, SMul, PAdd,
      ShiftedSet, Challenge, SchnorrChallenge, AllDecode;
    if |members| != N { return Err(WrongSetSize); }
    if index >= N { return Err(IndexOutOfRange); }
    if l < 1 || l > |crs.merchants| { return Err(ServiceOutOfRange); }
    if |nullifiers| != |crs.merchants| { return Err(WrongNullifierCount); }
    if !AllDecode(members) { return Err(UndecodableMember); }
    var sl := ScalarFromBytes(nullifiers[l - 1]);
    var dSet := ShiftedSet(members, SMul(sl, crs.generators[l - 1]));
    var bits := BitsOf(index);
    var capA := CommitVector(crs.g, coins.rA, coins.a);
    var capB := CommitVector(crs.g, coins.rB, bits);
    var capC := CommitVector(crs.g, coins.rC, CrossTerms(coins.a, bits));
    var capD := CommitVector(crs.g, coins.rD, NegSquares(coins.a));
    var act := SkipService(crs.g, crs.generators, l, crs.hName);
    var capE := MaskedPoints(act, dSet, bits, coins);
    var msg := Message(capA, capB, capC, capD, capE);
    var x := FiatShamirChallenge(StatementFor(crs, l, setId, pseudonym, nullifier, nameScalar), dSet,
                                 capA, capB, capC, capD, capE);
    var secrets := SkipService(ScalarFromBytes(blinding), ToScalars(nullifiers), l, ScalarFromBytes(nameScalar));
    var ans := AnswerAll(bits, secrets, coins, x);
    var nonce := SMul(coins.nonce, crs.g);
    var s := SchnorrAnswer(crs.g, nullifier, sl, coins.nonce);
    r := Ok(EncodeProof(msg, ans, nonce, s, nullifiers[l - 1], nameScalar));
  }

  method AnswerAll(bits: Scalars, secrets: seq<Scalar>, coins: Coins, x: Scalar) returns (ans: Answers)
    requires |coins.rho| == |secrets|
    ensures ans == Respond(bits, secrets, coins, x)
  {
    hide R, Add, Mul, Eval, Pow;
    var f: Scalars := seq(M, k requires 0 <= k < M => Add(Mul(bits[k], x), coins.a[k]));
    var zs := PolynomialAnswers(secrets, coins.rho, x);
    ans := Answers(f, Add(coins.rA, Mul(coins.rB, x)), Add(Mul(coins.rC, x), coins.rD), zs);
    assert zs == Respond(bits, secrets, coins, x).zs;
  }
}
