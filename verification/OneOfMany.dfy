/** The one-out-of-many argument: its messages, the prover's and the verifier's
    formulas (src/core/payment_identity.rs). */
module OneOfMany {
  import opened Bits
  import opened Field
  import opened Group
  import opened Matrices
  import opened Polynomials
  import opened Primitives

  /** One scalar, or one point, for each index bit. */
  type Scalars = s: seq<Scalar> | |s| == M witness seq(M, i => 0)
  type Points = p: seq<Point> | |p| == M witness Identities(M)

  function Identities(n: nat): (ps: seq<Point>)
    ensures |ps| == n
  {
    if n == 0 then [] else Identities(n - 1) + [Identity()]
  }

  /** The prover's first message. */
  datatype Message = Message(a: Point, b: Point, c: Point, d: Point, e: Points)

  /** The prover's answers to a challenge. */
  datatype Answers = Answers(f: Scalars, zA: Scalar, zC: Scalar, zs: seq<Scalar>)

  /** All the randomness of one proof; rho has one row for each active generator. */
  datatype Coins = Coins(
    a: Scalars, rA: Scalar, rB: Scalar, rC: Scalar, rD: Scalar, rho: seq<Scalars>, nonce: Scalar)

  function Base(g: Point): (r: seq<Point>)
    ensures |r| == M + 1
  {
    [g] + BitGenerators()
  }

  function BitsOf(index: nat): Scalars {
    seq(M, k requires 0 <= k < M => Bit(index, k))
  }

  predicate Binary(bits: Scalars) {
    forall k :: 0 <= k < M ==> bits[k] == 0 || bits[k] == 1
  }

  // ── the factors of p_j ─────────────────────────────────────────────────────

  function FactorX(j: nat, bits: Scalars, k: nat): Scalar
    requires k < M
  {
    if Bit(j, k) == 1 then bits[k] else Sub(1, bits[k])
  }

  function Factor0(j: nat, a: Scalars, k: nat): Scalar
    requires k < M
  {
    if Bit(j, k) == 1 then a[k] else Sub(0, a[k])
  }

  /** Coefficients of the product of the first n factors for set position j. */
  function Coefficients(j: nat, bits: Scalars, a: Scalars, n: nat): (p: seq<Scalar>)
    requires n <= M
    ensures |p| == n + 1
  {
    if n == 0 then [1] else
      TimesLinear(Coefficients(j, bits, a, n - 1), FactorX(j, bits, n - 1), Factor0(j, a, n - 1))
  }

  /** The verifier's product over the first n bits: f_k where j has the bit, x - f_k elsewhere. */
  function Product(j: nat, f: Scalars, x: Scalar, n: nat): Scalar
    requires n <= M
  {
    if n == 0 then 1 else
      Mul(Product(j, f, x, n - 1), if Bit(j, n - 1) == 1 then f[n - 1] else Sub(x, f[n - 1]))
  }

  function Products(f: Scalars, x: Scalar): (r: seq<Scalar>)
    ensures |r| == N
  {
    seq(N, j requires 0 <= j < N => Product(j, f, x, M))
  }

  // ── the prover ─────────────────────────────────────────────────────────────

  function CrossTerms(a: Scalars, bits: Scalars): Scalars {
    seq(M, k requires 0 <= k < M => Mul(a[k], Sub(1, Mul(R(2), bits[k]))))
  }

  function NegSquares(a: Scalars): Scalars {
    seq(M, k requires 0 <= k < M => Mul(Sub(0, a[k]), a[k]))
  }

  /** For each set position, all coefficients but the leading one. */
  function LowRows(bits: Scalars, a: Scalars): (r: seq<seq<Scalar>>)
    ensures |r| == N && Rectangular(r, M)
  {
    seq(N, j requires 0 <= j < N => Coefficients(j, bits, a, M)[..M])
  }

  function Leading(bits: Scalars, a: Scalars): (r: seq<Scalar>)
    ensures |r| == N
  {
    seq(N, j requires 0 <= j < N => Coefficients(j, bits, a, M)[M])
  }

  /** E_k masks the x^k coefficients of the set with the k-th column of rho. */
  function MaskedPoint(bits: Scalars, coins: Coins, act: seq<Point>, dSet: seq<Point>, k: nat): Point
    requires |coins.rho| == |act| && |dSet| == N && k < M
  {
    Lin(Column(coins.rho + LowRows(bits, coins.a), M, k), act + dSet)
  }

  function FirstMessage(g: Point, act: seq<Point>, dSet: seq<Point>, bits: Scalars, coins: Coins): Message
    requires |coins.rho| == |act| && |dSet| == N
  {
    Message(
      Lin([coins.rA] + coins.a, Base(g)),
      Lin([coins.rB] + bits, Base(g)),
      Lin([coins.rC] + CrossTerms(coins.a, bits), Base(g)),
      Lin([coins.rD] + NegSquares(coins.a), Base(g)),
      seq(M, k requires 0 <= k < M => MaskedPoint(bits, coins, act, dSet, k)))
  }

  function Respond(bits: Scalars, secrets: seq<Scalar>, coins: Coins, x: Scalar): Answers
    requires |coins.rho| == |secrets|
  {
    Answers(
      seq(M, k requires 0 <= k < M => Add(Mul(bits[k], x), coins.a[k])),
      Add(coins.rA, Mul(coins.rB, x)),
      Add(Mul(coins.rC, x), coins.rD),
      seq(|secrets|, i requires 0 <= i < |secrets| => R(secrets[i] as int * Pow(x, M) - Eval(coins.rho[i], x))))
  }

  // ── the verifier ───────────────────────────────────────────────────────────

  function BitProducts(f: Scalars, x: Scalar): Scalars {
    seq(M, k requires 0 <= k < M => Mul(f[k], Sub(x, f[k])))
  }

  function Powers(x: Scalar): Scalars {
    seq(M, k requires 0 <= k < M => R(Pow(x, k)))
  }

  /** z_a·g == A + x·B - Σ f_k·H_k */
  predicate CheckBits(g: Point, msg: Message, x: Scalar, ans: Answers) {
    SMul(ans.zA, g) == PSub(PAdd(msg.a, SMul(x, msg.b)), Lin(ans.f, BitGenerators()))
  }

  /** z_c·g == x·C + D - Σ f_k(x - f_k)·H_k */
  predicate CheckBinary(g: Point, msg: Message, x: Scalar, ans: Answers) {
    SMul(ans.zC, g) == PSub(PAdd(SMul(x, msg.c), msg.d), Lin(BitProducts(ans.f, x), BitGenerators()))
  }

  /** Σ p_j(x)·D_j == Σ z_i·act_i + Σ x^k·E_k */
  predicate CheckMember(act: seq<Point>, dSet: seq<Point>, msg: Message, x: Scalar, ans: Answers)
    requires |ans.zs| == |act| && |dSet| == N
  {
    Lin(Products(ans.f, x), dSet) == Lin(ans.zs + Powers(x), act + msg.e)
  }

  predicate Accepts(g: Point, act: seq<Point>, dSet: seq<Point>, msg: Message, x: Scalar, ans: Answers)
    requires |ans.zs| == |act| && |dSet| == N
  {
    CheckBits(g, msg, x, ans) && CheckBinary(g, msg, x, ans) && CheckMember(act, dSet, msg, x, ans)
  }

  // ── the checks as coordinate equations ─────────────────────────────────────

  /** Both bit checks have the form z·g == P - Σ c_k·H_k. */
  lemma BaseForm(g: Point, z: Scalar, p: Point, cs: Scalars)
    ensures SMul(z, g) == PSub(p, Lin(cs, BitGenerators())) <==> p == Lin([z] + cs, Base(g))
  {
    hide BitGenerators, R, Lin;
    var hs := BitGenerators();
    forall c: nat | c < D ensures SMul(z, g)[c] == PSub(p, Lin(cs, hs))[c] <==> p[c] == Lin([z] + cs, Base(g))[c] {
      BaseFormAt(g, z, p, cs, c);
    }
  }

  lemma BaseFormAt(g: Point, z: Scalar, p: Point, cs: Scalars, c: nat)
    requires c < D
    ensures SMul(z, g)[c] == PSub(p, Lin(cs, BitGenerators()))[c] <==> p[c] == Lin([z] + cs, Base(g))[c]
  {
    hide *;
    var hs := BitGenerators();
    Coordinates(z, g, p, Lin(cs, hs), c);
    LinCoord(cs, hs, c);
    BaseCoordinate(z, cs, g, c);
    RScalar(p[c]);
    Balances(SMul(z, g)[c], PSub(p, Lin(cs, hs))[c], p[c], Lin(cs, hs)[c], Lin([z] + cs, Base(g))[c],
             z as int * g[c] as int, Dot(cs, hs, c));
  }

  lemma Balances(left: int, right: int, p: int, q: int, lin: int, a: int, u: int)
    requires left == R(a) && right == R(p - q) && q == R(u) && lin == R(a + u) && p == R(p)
    ensures left == right <==> p == lin
  {
    hide R;
    Transpose(a, p, u);
  }

  lemma BaseCoordinate(z: Scalar, cs: Scalars, g: Point, c: nat)
    requires c < D
    ensures Lin([z] + cs, Base(g))[c] == R(z as int * g[c] as int + Dot(cs, BitGenerators(), c))
  {
    hide BitGenerators, R, Lin, Dot;
    LinCoord([z] + cs, Base(g), c);
    DotAppend([z], cs, [g], BitGenerators(), c);
    DotSingle(z, g, c);
  }

  lemma Coordinates(z: Scalar, g: Point, p: Point, q: Point, c: nat)
    requires c < D
    ensures SMul(z, g)[c] == R(z as int * g[c] as int) && PSub(p, q)[c] == R(p[c] as int - q[c] as int)
  {}

  lemma Transpose(a: int, p: int, u: int)
    ensures R(a) == R(p - R(u)) <==> R(p) == R(a + u)
  {
    hide R;
    CongR(u);
    CongAdd(p, p, R(u), u);
    if R(a) == R(p - R(u)) { CongAdd(a, p - u, u, u); }
    if R(p) == R(a + u) { CongAdd(p, a + u, u, u); }
  }
}
