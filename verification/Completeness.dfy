/** Completeness of the one-out-of-many argument, at every challenge. */
module Completeness {
  import opened Expansion
  import opened Field
  import opened Group
  import opened Matrices
  import opened OneOfMany
  import opened Polynomials
  import opened Primitives
  import opened Sums

  // ── the bit checks ─────────────────────────────────────────────────────────

  /** Commitments on one line open at x to the point of the line at x. */
  lemma LineOpens(g: Point, u: Scalar, us: Scalars, x: Scalar, v: Scalar, vs: Scalars, w: Scalar, ws: Scalars)
    requires Cong(w, u as int + x as int * v as int)
    requires forall k :: 0 <= k < M ==> Cong(ws[k], us[k] as int + x as int * vs[k] as int)
    ensures SMul(w, g) == PSub(PAdd(Lin([u] + us, Base(g)), SMul(x, Lin([v] + vs, Base(g)))), Lin(ws, BitGenerators()))
  {
    hide Cong, R, Lin, PAdd, PSub, SMul, BitGenerators;
    var u', v', w' := [u] + us, [v] + vs, [w] + ws;
    forall i | 0 <= i < |w'| ensures Cong(w'[i], u'[i] as int + x as int * v'[i] as int) {
      if i > 0 { assert w'[i] == ws[i - 1] && u'[i] == us[i - 1] && v'[i] == vs[i - 1]; }
    }
    LinLinear(u', x, v', w', Base(g));
    BaseForm(g, w, PAdd(Lin(u', Base(g)), SMul(x, Lin(v', Base(g)))), ws);
  }

  lemma BitsCheckHolds(g: Point, act: seq<Point>, dSet: seq<Point>, bits: Scalars, secrets: seq<Scalar>, coins: Coins,
                       x: Scalar)
    requires |coins.rho| == |act| == |secrets| && |dSet| == N
    ensures CheckBits(g, FirstMessage(g, act, dSet, bits, coins), x, Respond(bits, secrets, coins, x))
  {
    hide R, Lin, PAdd, PSub, SMul, Add, Mul, Base, BitGenerators, MaskedPoint, Eval, Pow;
    var ans := Respond(bits, secrets, coins, x);
    Affine(coins.rA, x, coins.rB);
    forall k | 0 <= k < M ensures Cong(ans.f[k], coins.a[k] as int + x as int * bits[k] as int) {
      Affine(coins.a[k], x, bits[k]);
    }
    LineOpens(g, coins.rA, coins.a, x, coins.rB, bits, ans.zA, ans.f);
  }

  lemma Affine(u: Scalar, x: Scalar, v: Scalar)
    ensures Cong(Add(u, Mul(v, x)), u as int + x as int * v as int)
    ensures Cong(Add(Mul(v, x), u), u as int + x as int * v as int)
  {
    hide R;
    var vx: int := v as int * x as int;
    CongR(vx); CongR(u as int + R(vx)); CongR(R(vx) + u as int);
    CongAdd(u, u, R(vx), vx);
  }

  lemma BinaryCheckHolds(g: Point, act: seq<Point>, dSet: seq<Point>, bits: Scalars, secrets: seq<Scalar>, coins: Coins,
                         x: Scalar)
    requires |coins.rho| == |act| == |secrets| && |dSet| == N && Binary(bits)
    ensures CheckBinary(g, FirstMessage(g, act, dSet, bits, coins), x, Respond(bits, secrets, coins, x))
  {
    hide R, Lin, PAdd, PSub, SMul, Add, Sub, Mul, Base, BitGenerators, MaskedPoint, Eval, Pow, BitProducts, NegSquares,
      CrossTerms, Binary;
    var msg, ans := FirstMessage(g, act, dSet, bits, coins), Respond(bits, secrets, coins, x);
    Affine(coins.rD, x, coins.rC);
    forall k | 0 <= k < M
      ensures Cong(BitProducts(ans.f, x)[k],
                   NegSquares(coins.a)[k] as int + x as int * CrossTerms(coins.a, bits)[k] as int)
    {
      BinaryEntry(bits, secrets, coins, x, k);
    }
    LineOpens(g, coins.rD, NegSquares(coins.a), x, coins.rC, CrossTerms(coins.a, bits), ans.zC, BitProducts(ans.f, x));
    PAddCommutes(msg.d, SMul(x, msg.c));
  }

  lemma BinaryEntry(bits: Scalars, secrets: seq<Scalar>, coins: Coins, x: Scalar, i: nat)
    requires |coins.rho| == |secrets| && Binary(bits) && i < M
    ensures Cong(BitProducts(Respond(bits, secrets, coins, x).f, x)[i],
      NegSquares(coins.a)[i] as int + x as int * CrossTerms(coins.a, bits)[i] as int)
  {
    hide R, Add, Sub, Mul;
    BitProductValue(bits[i], coins.a[i], x);
  }

  lemma PAddCommutes(p: Point, q: Point)
    ensures PAdd(p, q) == PAdd(q, p)
  {}

  /** f(x - f) == -a² + x·a(1 - 2b) when f == b·x + a and b is a bit. */
  lemma BitProductValue(b: Scalar, a: Scalar, x: Scalar)
    requires b == 0 || b == 1
    ensures var f := Add(Mul(b, x), a);
      Cong(Mul(f, Sub(x, f)), Mul(Sub(0, a), a) as int + x as int * Mul(a, Sub(1, Mul(R(2), b))) as int)
  {
    hide R;
    var b', a', x': int := b, a, x;
    var f: Scalar := Add(Mul(b, x), a);
    RScalar(a); RScalar(b); RScalar(x); RScalar(0); RScalar(1);
    ROps(b', x'); ROps(b' * x', a');
    var fi := b' * x' + a';
    ROps(x', fi); ROps(fi, x' - fi);
    ROps(0, a'); ROps(0 - a', a');
    ROps(2, b'); ROps(1, 2 * b'); ROps(a', 1 - 2 * b');
    var l, m := (0 - a') * a', a' * (1 - 2 * b');
    assert fi * (x' - fi) == l + x' * m by {
      BitIdentity(b', a', x');
    }
    ROps(x', m); ROps(l, x' * m);
    CongR(l); CongR(m); CongR(fi * (x' - fi));
    CongMul(x', x', R(m), m);
    CongAdd(R(l), l, x' * R(m), x' * m);
  }

  lemma BitIdentity(b: int, a: int, x: int)
    requires b == 0 || b == 1
    ensures (b * x + a) * (x - (b * x + a)) == (0 - a) * a + x * (a * (1 - 2 * b))
  {
    if b == 0 {
      assert a * (x - a) == (0 - a) * a + x * a;
    } else {
      assert (x + a) * (0 - a) == (0 - a) * a + x * (a * (0 - 1));
    }
  }

  // ── the membership check ───────────────────────────────────────────────────

  /** D_index is the combination of the active generators by the secrets. */
  predicate Opens(p: Point, secrets: seq<Scalar>, act: seq<Point>) {
    |secrets| == |act| && p == Lin(secrets, act)
  }

  lemma MemberCheckHolds(g: Point, act: seq<Point>, dSet: seq<Point>, index: nat, secrets: seq<Scalar>, coins: Coins,
                         x: Scalar)
    requires |coins.rho| == |act| && |dSet| == N && index < N
    requires Opens(dSet[index], secrets, act)
    ensures CheckMember(act, dSet, FirstMessage(g, act, dSet, BitsOf(index), coins), x,
                        Respond(BitsOf(index), secrets, coins, x))
  {
    hide R, Lin, FirstMessage, Respond, Products, Powers;
    var bits := BitsOf(index);
    var msg, ans := FirstMessage(g, act, dSet, bits, coins), Respond(bits, secrets, coins, x);
    assert |ans.zs| == |act| by { RespondLength(bits, secrets, coins, x); }
    var lhs, rhs := Lin(Products(ans.f, x), dSet), Lin(ans.zs + Powers(x), act + msg.e);
    forall c: nat | c < D ensures lhs[c] == rhs[c] {
      MemberLeft(dSet, index, secrets, coins, x, act, c);
      MemberRight(g, act, dSet, bits, secrets, coins, x, c);
      LinCoord(Products(ans.f, x), dSet, c);
      LinCoord(ans.zs + Powers(x), act + msg.e, c);
    }
  }

  lemma RespondLength(bits: Scalars, secrets: seq<Scalar>, coins: Coins, x: Scalar)
    requires |coins.rho| == |secrets|
    ensures |Respond(bits, secrets, coins, x).zs| == |secrets|
  {}

  /** The value both sides share at coordinate c. */
  ghost function Target(dSet: seq<Point>, bits: Scalars, secrets: seq<Scalar>, coins: Coins, x: Scalar, act: seq<Point>,
                        c: nat): int
    requires c < D
  {
    Dot(Evals(LowRows(bits, coins.a), x), dSet, c) + Pow(x, M) * Dot(secrets, act, c)
  }

  lemma MemberLeft(dSet: seq<Point>, index: nat, secrets: seq<Scalar>, coins: Coins, x: Scalar, act: seq<Point>, c: nat)
    requires |coins.rho| == |act| && |dSet| == N && index < N && c < D
    requires Opens(dSet[index], secrets, act)
    ensures var bits := BitsOf(index);
      Cong(Dot(Products(Respond(bits, secrets, coins, x).f, x), dSet, c), Target(dSet, bits, secrets, coins, x, act, c))
  {
    hide R, Lin, Dot, Respond, Leading, LowRows, Products;
    var bits := BitsOf(index);
    var f := Respond(bits, secrets, coins, x).f;
    var tops := Leading(bits, coins.a);
    FactorsOf(bits, secrets, coins, x);
    ProductsSplit(dSet, bits, coins.a, f, x, c);
    LeadingSelects(bits, coins.a, index);
    DotSelect(tops, dSet, index, c);
    LinCoord(secrets, act, c);
    ReplaceFactor(Dot(Products(f, x), dSet, c), Dot(Evals(LowRows(bits, coins.a), x), dSet, c), Pow(x, M),
                  dSet[index][c], Dot(secrets, act, c));
  }

  lemma ProductsSplit(dSet: seq<Point>, bits: Scalars, a: Scalars, f: Scalars, x: Scalar, c: nat)
    requires |dSet| == N && c < D
    requires forall k :: 0 <= k < M ==> Cong(f[k], bits[k] as int * x as int + a[k] as int)
    ensures Cong(Dot(Products(f, x), dSet, c),
                 1 * Dot(Evals(LowRows(bits, a), x), dSet, c) + Pow(x, M) * Dot(Leading(bits, a), dSet, c))
  {
    hide R, Dot, Leading, LowRows, Products, Evals;
    var ps, lows, tops, X := Products(f, x), Evals(LowRows(bits, a), x), Leading(bits, a), Pow(x, M);
    forall j: nat | j < N ensures Cong(ps[j], 1 * lows[j] + X * tops[j] as int) {
      ProductSplits(j, bits, a, f, x);
    }
    DotLinear(ps, 1, lows, X, tops, dSet, c);
  }

  lemma ReplaceFactor(p: int, l: int, X: int, d: Scalar, s: int)
    requires Cong(p, 1 * l + X * d as int) && d == R(s)
    ensures Cong(p, l + X * s)
  {
    hide R;
    CongR(s);
    CongMul(X, X, d, s);
    CongAdd(l, l, X * d as int, X * s);
  }

  lemma FactorsOf(bits: Scalars, secrets: seq<Scalar>, coins: Coins, x: Scalar)
    requires |coins.rho| == |secrets|
    ensures forall k :: 0 <= k < M ==>
      Cong(Respond(bits, secrets, coins, x).f[k], bits[k] as int * x as int + coins.a[k] as int)
  {
    hide R;
    forall k | 0 <= k < M
      ensures Cong(Respond(bits, secrets, coins, x).f[k], bits[k] as int * x as int + coins.a[k] as int)
    {
      Affine(coins.a[k], x, bits[k]);
    }
  }

  /** The verifier's product is the low part plus x^M times the leading coefficient. */
  lemma ProductSplits(j: nat, bits: Scalars, a: Scalars, f: Scalars, x: Scalar)
    requires j < N
    requires forall k :: 0 <= k < M ==> Cong(f[k], bits[k] as int * x as int + a[k] as int)
    ensures Cong(Products(f, x)[j], 1 * Evals(LowRows(bits, a), x)[j] + Pow(x, M) * Leading(bits, a)[j] as int)
  {
    hide R;
    var p := Coefficients(j, bits, a, M);
    ExpansionIsProduct(j, bits, a, f, x, M);
    assert p == p[..M] + [p[M]];
    EvalSnoc(p[..M], p[M], x);
    assert p[M] as int * Pow(x, M) == Pow(x, M) * p[M] as int;
  }

  lemma MemberRight(g: Point, act: seq<Point>, dSet: seq<Point>, bits: Scalars, secrets: seq<Scalar>, coins: Coins,
                    x: Scalar, c: nat)
    requires |coins.rho| == |act| == |secrets| && |dSet| == N && c < D
    ensures var msg, ans := FirstMessage(g, act, dSet, bits, coins), Respond(bits, secrets, coins, x);
      Cong(Dot(ans.zs + Powers(x), act + msg.e, c), Target(dSet, bits, secrets, coins, x, act, c))
  {
    hide R, Lin, Dot, FirstMessage, Powers, Evals, LowRows;
    var msg, zs := FirstMessage(g, act, dSet, bits, coins), Respond(bits, secrets, coins, x).zs;
    DotAppend(zs, Powers(x), act, msg.e, c);
    MasksOfMessage(g, act, dSet, bits, coins, x, c);
    AnswersValue(act, bits, secrets, coins, x, c);
    CancelMasks(Dot(zs, act, c), Dot(Powers(x), msg.e, c), Pow(x, M),
                Dot(secrets, act, c), Dot(Evals(coins.rho, x), act, c), Dot(Evals(LowRows(bits, coins.a), x), dSet, c));
  }

  lemma AnswersValue(act: seq<Point>, bits: Scalars, secrets: seq<Scalar>, coins: Coins, x: Scalar, c: nat)
    requires |coins.rho| == |act| == |secrets| && c < D
    ensures Cong(Dot(Respond(bits, secrets, coins, x).zs, act, c),
                 Pow(x, M) * Dot(secrets, act, c) + (0 - 1) * Dot(Evals(coins.rho, x), act, c))
  {
    hide R, Dot;
    var zs, rhos := Respond(bits, secrets, coins, x).zs, Evals(coins.rho, x);
    forall i | 0 <= i < |act| ensures Cong(zs[i], Pow(x, M) * secrets[i] as int + (0 - 1) * rhos[i]) {
      CongR(secrets[i] as int * Pow(x, M) - Eval(coins.rho[i], x));
      assert secrets[i] as int * Pow(x, M) == Pow(x, M) * secrets[i] as int;
    }
    DotLinear(zs, Pow(x, M), secrets, 0 - 1, rhos, act, c);
  }

  lemma CancelMasks(z: int, e: int, X: int, s: int, r: int, l: int)
    requires Cong(z, X * s + (0 - 1) * r) && Cong(e, r + l)
    ensures Cong(z + e, l + X * s)
  {
    hide R;
    CongAdd(z, X * s + (0 - 1) * r, e, r + l);
  }

  /** Σ x^k·E_k carries the row values of a matrix whose columns the E_k combine. */
  lemma MasksTogether(e: Points, P: seq<seq<Scalar>>, ps: seq<Point>, x: Scalar, c: nat)
    requires Rectangular(P, M) && |P| == |ps| && c < D
    requires forall k :: 0 <= k < M ==> e[k] == Lin(Column(P, M, k), ps)
    ensures Cong(Dot(Powers(x), e, c), Dot(Evals(P, x), ps, c))
  {
    hide R, Lin, Evals, Powers, Pow, ColumnDot;
    forall k: nat | k < M ensures Cong(DotTerm(Powers(x), e, c)(k), ColumnDot(P, M, ps, x, c)(k)) {
      MaskTerm(e, P, ps, x, c, k);
    }
    SumCong(M, DotTerm(Powers(x), e, c), ColumnDot(P, M, ps, x, c));
    ColumnsToRows(P, M, ps, x, c);
  }

  /** In the prover's E_k the rows of rho meet the generators and the low
      coefficients meet the set. */
  lemma MasksOfMessage(g: Point, act: seq<Point>, dSet: seq<Point>, bits: Scalars, coins: Coins, x: Scalar, c: nat)
    requires |coins.rho| == |act| && |dSet| == N && c < D
    ensures Cong(Dot(Powers(x), FirstMessage(g, act, dSet, bits, coins).e, c),
                 Dot(Evals(coins.rho, x), act, c) + Dot(Evals(LowRows(bits, coins.a), x), dSet, c))
  {
    hide R, Lin, Evals, Powers, LowRows, Dot;
    MasksTogether(FirstMessage(g, act, dSet, bits, coins).e, coins.rho + LowRows(bits, coins.a), act + dSet, x, c);
    EvalsAppend(coins.rho, LowRows(bits, coins.a), x);
    DotAppend(Evals(coins.rho, x), Evals(LowRows(bits, coins.a), x), act, dSet, c);
  }

  lemma EvalsAppend(P: seq<seq<Scalar>>, S: seq<seq<Scalar>>, x: int)
    ensures Evals(P + S, x) == Evals(P, x) + Evals(S, x)
  {
    hide Eval;
  }

  lemma MaskTerm(e: Points, P: seq<seq<Scalar>>, ps: seq<Point>, x: Scalar, c: nat, k: nat)
    requires Rectangular(P, M) && |P| == |ps| && k < M && c < D
    requires e[k] == Lin(Column(P, M, k), ps)
    ensures Cong(DotTerm(Powers(x), e, c)(k), ColumnDot(P, M, ps, x, c)(k))
  {
    hide R, Lin, Dot, Pow;
    var d := Dot(Column(P, M, k), ps, c);
    LinCoord(Column(P, M, k), ps, c);
    CongR(d); CongR(Pow(x, k));
    CongMul(R(Pow(x, k)), Pow(x, k), R(d), d);
  }

  /** Completeness: an honest answer passes all three checks at every challenge. */
  lemma HonestAccepts(g: Point, act: seq<Point>, dSet: seq<Point>, index: nat, secrets: seq<Scalar>, coins: Coins,
                      x: Scalar)
    requires |coins.rho| == |act| && |dSet| == N && index < N
    requires Opens(dSet[index], secrets, act)
    ensures Accepts(g, act, dSet, FirstMessage(g, act, dSet, BitsOf(index), coins), x,
                    Respond(BitsOf(index), secrets, coins, x))
  {
    BitsCheckHolds(g, act, dSet, BitsOf(index), secrets, coins, x);
    BinaryCheckHolds(g, act, dSet, BitsOf(index), secrets, coins, x);
    MemberCheckHolds(g, act, dSet, index, secrets, coins, x);
  }
}
