/** Special soundness: from M + 1 accepting answers to one first message, an
    explicit extractor reads off an index and an opening of that set member, or
    an explicit non-trivial relation between g and the bit generators. */
module Soundness {
  import opened Bits
  import opened Completeness
  import opened Expansion
  import opened Field
  import opened Group
  import opened Matrices
  import opened OneOfMany
  import opened Polynomials
  import opened Primitives
  import opened Sums

  datatype Transcript = Transcript(x: Scalar, ans: Answers)

  predicate DistinctChallenges(ts: seq<Transcript>) {
    forall i, j :: 0 <= i < j < |ts| ==> ts[i].x != ts[j].x
  }

  /** Accepting answers to one first message at M + 1 distinct challenges. */
  predicate Forked(g: Point, act: seq<Point>, dSet: seq<Point>, msg: Message, ts: seq<Transcript>) {
    && |ts| == M + 1 && |dSet| == N && DistinctChallenges(ts)
    && (forall i :: 0 <= i < |ts| ==> |ts[i].ans.zs| == |act| && Accepts(g, act, dSet, msg, ts[i].x, ts[i].ans))
  }

  /** A non-trivial linear relation. */
  ghost predicate Relation(cs: seq<Scalar>, ps: seq<Point>) {
    |cs| == |ps| && Lin(cs, ps) == Identity() && exists i :: 0 <= i < |cs| && cs[i] != 0
  }

  // ── the extractor ──────────────────────────────────────────────────────────

  /** The coefficients left when the two unknown points are eliminated from three answers. */
  function Eliminate(x0: int, x1: int, x2: int, u0: seq<Scalar>, u1: seq<Scalar>, u2: seq<Scalar>): (r: seq<Scalar>)
    requires |u0| == |u1| == |u2|
    ensures |r| == |u0|
  {
    seq(|u0|, i requires 0 <= i < |u0| => R(Second(x0, x1, x2, u0[i], u1[i], u2[i])))
  }

  function Second(x0: int, x1: int, x2: int, u0: int, u1: int, u2: int): int {
    (x1 - x2) * u0 + (x2 - x0) * u1 + (x0 - x1) * u2
  }

  function Line(p: int, x: int, s: int): int { p + x * s }

  function BitOpening(t: Transcript): (r: seq<Scalar>)
    ensures |r| == M + 1
  {
    [t.ans.zA] + t.ans.f
  }

  function BinaryOpening(t: Transcript): (r: seq<Scalar>)
    ensures |r| == M + 1
  {
    [t.ans.zC] + BitProducts(t.ans.f, t.x)
  }

  function EliminateBits(ts: seq<Transcript>, i: nat): (r: seq<Scalar>)
    requires 2 <= i < |ts|
    ensures |r| == M + 1
  {
    Eliminate(ts[0].x, ts[1].x, ts[i].x, BitOpening(ts[0]), BitOpening(ts[1]), BitOpening(ts[i]))
  }

  function EliminateBinary(ts: seq<Transcript>): (r: seq<Scalar>)
    requires 3 <= |ts|
    ensures |r| == M + 1
  {
    Eliminate(ts[0].x, ts[1].x, ts[2].x, BinaryOpening(ts[0]), BinaryOpening(ts[1]), BinaryOpening(ts[2]))
  }

  ghost function Slope(x0: int, x1: int, f0: int, f1: int): Scalar {
    R((f1 - f0) * Inv(x1 - x0))
  }

  /** The bits committed in B, from the first two answers. */
  ghost function ExtractedBits(ts: seq<Transcript>): Scalars
    requires 2 <= |ts|
  {
    seq(M, k requires 0 <= k < M => Slope(ts[0].x, ts[1].x, ts[0].ans.f[k], ts[1].ans.f[k]))
  }

  /** The masks committed in A. */
  ghost function ExtractedMasks(ts: seq<Transcript>): Scalars
    requires 2 <= |ts|
  {
    seq(M, k requires 0 <= k < M => R(ts[0].ans.f[k] as int - ExtractedBits(ts)[k] as int * ts[0].x as int))
  }

  ghost function ExtractedIndex(ts: seq<Transcript>): nat
    requires 2 <= |ts|
  {
    FromBits(ExtractedBits(ts))
  }

  function Challenges(ts: seq<Transcript>): (r: seq<Scalar>)
    ensures |r| == |ts|
  {
    seq(|ts|, i requires 0 <= i < |ts| => ts[i].x)
  }

  /** The answers to the n-th generator, across the transcripts. */
  function AnswersFor(ts: seq<Transcript>, n: nat): (r: seq<Scalar>)
    requires forall i :: 0 <= i < |ts| ==> n < |ts[i].ans.zs|
    ensures |r| == |ts|
  {
    seq(|ts|, i requires 0 <= i < |ts| => ts[i].ans.zs[n])
  }

  /** The opening of the member: top divided differences of the answers. */
  ghost function ExtractedSecrets(ts: seq<Transcript>, n: nat): (r: seq<Scalar>)
    requires 0 < |ts| && forall i :: 0 <= i < |ts| ==> n <= |ts[i].ans.zs|
    ensures |r| == n
  {
    seq(n, i requires 0 <= i < n => R(Top(Challenges(ts), AnswersFor(ts, i))))
  }

  // ── eliminating the committed points ───────────────────────────────────────

  lemma EliminationVanishes(p: Point, s: Point, ps: seq<Point>, x0: Scalar, x1: Scalar, x2: Scalar,
                            u0: seq<Scalar>, u1: seq<Scalar>, u2: seq<Scalar>)
    requires |u0| == |u1| == |u2| == |ps|
    requires PAdd(p, SMul(x0, s)) == Lin(u0, ps)
    requires PAdd(p, SMul(x1, s)) == Lin(u1, ps)
    requires PAdd(p, SMul(x2, s)) == Lin(u2, ps)
    ensures Lin(Eliminate(x0, x1, x2, u0, u1, u2), ps) == Identity()
  {
    hide Lin, PAdd, SMul, Eliminate;
    forall c: nat | c < D ensures Lin(Eliminate(x0, x1, x2, u0, u1, u2), ps)[c] == 0 {
      VanishesAt(p, s, ps, x0, x1, x2, u0, u1, u2, c);
    }
    assert Lin(Eliminate(x0, x1, x2, u0, u1, u2), ps) == Identity();
  }

  lemma VanishesAt(p: Point, s: Point, ps: seq<Point>, x0: Scalar, x1: Scalar, x2: Scalar,
                   u0: seq<Scalar>, u1: seq<Scalar>, u2: seq<Scalar>, c: nat)
    requires |u0| == |u1| == |u2| == |ps| && c < D
    requires PAdd(p, SMul(x0, s)) == Lin(u0, ps)
    requires PAdd(p, SMul(x1, s)) == Lin(u1, ps)
    requires PAdd(p, SMul(x2, s)) == Lin(u2, ps)
    ensures Lin(Eliminate(x0, x1, x2, u0, u1, u2), ps)[c] == 0
  {
    hide *;
    var e, w := Eliminate(x0, x1, x2, u0, u1, u2), Second(x0, x1, x2, Dot(u0, ps, c), Dot(u1, ps, c), Dot(u2, ps, c));
    assert Cong(w, 0) by {
      LineAt(p, s, x0, u0, ps, c); LineAt(p, s, x1, u1, ps, c); LineAt(p, s, x2, u2, ps, c);
      SecondOfLine(x0, x1, x2, Dot(u0, ps, c), Dot(u1, ps, c), Dot(u2, ps, c), p[c], s[c]);
    }
    DotEliminate(x0, x1, x2, u0, u1, u2, ps, c);
    CongZero(Dot(e, ps, c), w);
    LinCoord(e, ps, c);
  }

  lemma CongZero(a: int, b: int)
    requires Cong(a, b) && Cong(b, 0)
    ensures R(a) == 0
  {
    RScalar(0);
  }

  lemma LineAt(p: Point, s: Point, x: Scalar, u: seq<Scalar>, ps: seq<Point>, c: nat)
    requires c < D && |u| == |ps| && PAdd(p, SMul(x, s)) == Lin(u, ps)
    ensures Cong(Dot(u, ps, c), Line(p[c], x, s[c]))
  {
    hide R, Lin, Dot, PAdd, SMul, Add, Mul;
    LinCoord(u, ps, c);
    Axpy(p, x, s, c);
    RScalar(p[c]);
    MulAdd(p[c], x, s[c]);
  }

  lemma DotEliminate(x0: int, x1: int, x2: int, u0: seq<Scalar>, u1: seq<Scalar>, u2: seq<Scalar>, ps: seq<Point>,
                     c: nat)
    requires |u0| == |u1| == |u2| == |ps| && c < D
    ensures Cong(Dot(Eliminate(x0, x1, x2, u0, u1, u2), ps, c),
                 Second(x0, x1, x2, Dot(u0, ps, c), Dot(u1, ps, c), Dot(u2, ps, c)))
  {
    hide *;
    var e, mid := Eliminate(x0, x1, x2, u0, u1, u2), Blend(x1 - x2, u0, x2 - x0, u1);
    EliminateDot(x0, x1, x2, u0, u1, u2, ps, c);
    BlendDot(x1 - x2, u0, x2 - x0, u1, ps, c);
    SecondOfDots(x0, x1, x2, Dot(e, ps, c), Dot(mid, ps, c), Dot(u0, ps, c), Dot(u1, ps, c), Dot(u2, ps, c));
  }

  lemma EliminateDot(x0: int, x1: int, x2: int, u0: seq<Scalar>, u1: seq<Scalar>, u2: seq<Scalar>, ps: seq<Point>,
                     c: nat)
    requires |u0| == |u1| == |u2| == |ps| && c < D
    ensures Cong(Dot(Eliminate(x0, x1, x2, u0, u1, u2), ps, c),
                 1 * Dot(Blend(x1 - x2, u0, x2 - x0, u1), ps, c) + (x0 - x1) * Dot(u2, ps, c))
  {
    hide *;
    var e, mid, m := Eliminate(x0, x1, x2, u0, u1, u2), Blend(x1 - x2, u0, x2 - x0, u1), x0 - x1;
    forall i | 0 <= i < |e| ensures Cong(e[i], 1 * mid[i] + m * u2[i]) {
      EliminateAt(x0, x1, x2, u0, u1, u2, i);
    }
    DotLinear(e, 1, mid, m, u2, ps, c);
  }

  lemma BlendDot(a: int, us: seq<Scalar>, b: int, vs: seq<Scalar>, ps: seq<Point>, c: nat)
    requires |us| == |vs| && c < D
    ensures Cong(Dot(Blend(a, us, b, vs), ps, c), a * Dot(us, ps, c) + b * Dot(vs, ps, c))
  {
    hide R, Dot;
    DotLinear(Blend(a, us, b, vs), a, us, b, vs, ps, c);
  }

  lemma EliminateAt(x0: int, x1: int, x2: int, u0: seq<Scalar>, u1: seq<Scalar>, u2: seq<Scalar>, i: nat)
    requires |u0| == |u1| == |u2| && i < |u0|
    ensures Cong(Eliminate(x0, x1, x2, u0, u1, u2)[i], 1 * Blend(x1 - x2, u0, x2 - x0, u1)[i] + (x0 - x1) * u2[i])
  {
    hide R;
    CongR(Second(x0, x1, x2, u0[i], u1[i], u2[i]));
  }

  lemma SecondOfDots(x0: int, x1: int, x2: int, e: int, mid: int, d0: int, d1: int, d2: int)
    requires Cong(e, 1 * mid + (x0 - x1) * d2) && Cong(mid, (x1 - x2) * d0 + (x2 - x0) * d1)
    ensures Cong(e, Second(x0, x1, x2, d0, d1, d2))
  {
    hide R;
    AddThird(e, mid, (x0 - x1) * d2, (x1 - x2) * d0 + (x2 - x0) * d1);
  }

  function Blend(a: int, us: seq<Scalar>, b: int, vs: seq<Scalar>): (r: seq<int>)
    requires |us| == |vs|
    ensures |r| == |us|
  {
    seq(|us|, i requires 0 <= i < |us| => a * us[i] as int + b * vs[i] as int)
  }

  lemma AddThird(e: int, m: int, t: int, v: int)
    requires Cong(e, 1 * m + t) && Cong(m, v)
    ensures Cong(e, v + t)
  {
    hide R;
    CongAdd(m, v, t, t);
  }

  lemma SecondOfLine(x0: int, x1: int, x2: int, u0: int, u1: int, u2: int, p: int, s: int)
    requires Cong(u0, Line(p, x0, s)) && Cong(u1, Line(p, x1, s)) && Cong(u2, Line(p, x2, s))
    ensures Cong(Second(x0, x1, x2, u0, u1, u2), 0)
  {
    hide R, Second;
    SecondCong(x0, x1, x2, u0, u1, u2, Line(p, x0, s), Line(p, x1, s), Line(p, x2, s));
    LineIdentity(x0, x1, x2, p, s);
  }

  lemma LineIdentity(x0: int, x1: int, x2: int, p: int, s: int)
    ensures Second(x0, x1, x2, Line(p, x0, s), Line(p, x1, s), Line(p, x2, s)) == 0
  {}

  lemma SecondCong(x0: int, x1: int, x2: int, u0: int, u1: int, u2: int, v0: int, v1: int, v2: int)
    requires Cong(u0, v0) && Cong(u1, v1) && Cong(u2, v2)
    ensures Cong(Second(x0, x1, x2, u0, u1, u2), Second(x0, x1, x2, v0, v1, v2))
  {
    hide R;
    CongMul(x1 - x2, x1 - x2, u0, v0);
    CongMul(x2 - x0, x2 - x0, u1, v1);
    CongMul(x0 - x1, x0 - x1, u2, v2);
    CongAdd((x1 - x2) * u0, (x1 - x2) * v0, (x2 - x0) * u1, (x2 - x0) * v1);
    CongAdd((x1 - x2) * u0 + (x2 - x0) * u1, (x1 - x2) * v0 + (x2 - x0) * v1, (x0 - x1) * u2, (x0 - x1) * v2);
  }

  /** What the accepted bit checks leave: combinations of g and the H_k that vanish. */
  lemma BitsEliminate(g: Point, act: seq<Point>, dSet: seq<Point>, msg: Message, ts: seq<Transcript>, i: nat)
    requires Forked(g, act, dSet, msg, ts) && 2 <= i <= M
    ensures Lin(EliminateBits(ts, i), Base(g)) == Identity()
    ensures Lin(EliminateBinary(ts), Base(g)) == Identity()
  {
    hide R, Lin, Base, CheckMember, Eliminate;
    forall j | 0 <= j <= M
      ensures PAdd(msg.a, SMul(ts[j].x, msg.b)) == Lin(BitOpening(ts[j]), Base(g))
      ensures PAdd(msg.d, SMul(ts[j].x, msg.c)) == Lin(BinaryOpening(ts[j]), Base(g))
    {
      var t := ts[j];
      BaseForm(g, t.ans.zA, PAdd(msg.a, SMul(t.x, msg.b)), t.ans.f);
      BaseForm(g, t.ans.zC, PAdd(SMul(t.x, msg.c), msg.d), BitProducts(t.ans.f, t.x));
      PAddCommutes(msg.d, SMul(t.x, msg.c));
    }
    EliminationVanishes(msg.a, msg.b, Base(g), ts[0].x, ts[1].x, ts[i].x,
                        BitOpening(ts[0]), BitOpening(ts[1]), BitOpening(ts[i]));
    EliminationVanishes(msg.d, msg.c, Base(g), ts[0].x, ts[1].x, ts[2].x,
                        BinaryOpening(ts[0]), BinaryOpening(ts[1]), BinaryOpening(ts[2]));
  }

  // ── the extracted bits ─────────────────────────────────────────────────────

  lemma DifferentUnit(x: Scalar, y: Scalar)
    requires x != y
    ensures !Cong(x as int - y as int, 0)
  {
    if Cong(x as int - y as int, 0) {
      CongIff(x as int - y as int, 0); CongIff(x, y);
      RScalar(x); RScalar(y);
    }
  }

  /** Three answers on a line: the third follows from the first two. */
  lemma ThirdOnLine(x0: Scalar, x1: Scalar, x: Scalar, f0: Scalar, f1: Scalar, f: Scalar)
    requires x0 != x1 && Cong(Second(x0, x1, x, f0, f1, f), 0)
    ensures var b := Slope(x0, x1, f0, f1);
      Cong(f, b as int * x as int + R(f0 as int - b as int * x0 as int) as int)
  {
    hide R;
    var b := Slope(x0, x1, f0, f1);
    var d, e := x1 as int - x0 as int, f1 as int - f0 as int;
    DifferentUnit(x1, x0);
    SlopeTimesRun(d, e, b);
    LineRearrange(x0, x1, x, f0, f1, f, b);
    var a, bx := f0 as int - b as int * x0 as int, b as int * x as int;
    hide Slope, Second;
    Cancel(d, f, bx + a);
    ReduceTail(f, bx, a);
  }

  lemma ReduceTail(f: int, bx: int, a: int)
    requires Cong(f, bx + a)
    ensures Cong(f, bx + R(a) as int)
  {
    hide R;
    CongR(a);
    CongAdd(bx, bx, R(a), a);
  }

  lemma SlopeTimesRun(d: int, e: int, b: Scalar)
    requires !Cong(d, 0) && b == R(e * Inv(d))
    ensures Cong(d * b, e)
  {
    hide R;
    var i := Inv(d);
    CongR(e * i);
    CongMul(d, d, b, e * i);
    CongMul(d * i, 1, e, e);
    assert d * (e * i) == d * i * e;
  }

  lemma LineRearrange(x0: int, x1: int, x: int, f0: int, f1: int, f: int, b: int)
    requires Cong(Second(x0, x1, x, f0, f1, f), 0)
    requires Cong((x1 - x0) * b, f1 - f0)
    ensures Cong((x1 - x0) * f, (x1 - x0) * (b * x + (f0 - b * x0)))
  {
    hide R;
    var d, e, s := x1 - x0, f1 - f0, Second(x0, x1, x, f0, f1, f);
    CongMul(d * b, e, x - x0, x - x0);
    SecondForm(x0, x1, x, f0, f1, f);
    RunForm(d, b, x, x0, f0);
    CongAdd(d * f0 + e * (x - x0), d * f0 + e * (x - x0), s, 0);
    CongAdd(d * f0, d * f0, d * b * (x - x0), e * (x - x0));
  }

  lemma SecondForm(x0: int, x1: int, x: int, f0: int, f1: int, f: int)
    ensures (x1 - x0) * f == (x1 - x0) * f0 + (f1 - f0) * (x - x0) - Second(x0, x1, x, f0, f1, f)
  {}

  lemma RunForm(d: int, b: int, x: int, x0: int, f0: int)
    ensures d * (b * x + (f0 - b * x0)) == d * f0 + d * b * (x - x0)
  {}

  /** Without a relation among g and the H_k, every answer f_k is b_k·x + a_k. */
  lemma AnswersAreLinear(ts: seq<Transcript>, i: nat, k: nat)
    requires |ts| == M + 1 && DistinctChallenges(ts) && i <= M && k < M
    requires forall j, n :: 2 <= j <= M && 0 <= n <= M ==> EliminateBits(ts, j)[n] == 0
    ensures Cong(ts[i].ans.f[k], ExtractedBits(ts)[k] as int * ts[i].x as int + ExtractedMasks(ts)[k] as int)
  {
    var x0, x1, x, f0, f1, f := ts[0].x, ts[1].x, ts[i].x, ts[0].ans.f[k], ts[1].ans.f[k], ts[i].ans.f[k];
    ExtractedAt(ts, k);
    hide *;
    if i >= 2 {
      EliminatedAt(ts, i, k);
    } else {
      SecondOfTwo(x0, x1, f0, f1);
    }
    ThirdOnLine(x0, x1, x, f0, f1, f);
  }

  lemma ExtractedAt(ts: seq<Transcript>, k: nat)
    requires 2 <= |ts| && k < M
    ensures ExtractedBits(ts)[k] == Slope(ts[0].x, ts[1].x, ts[0].ans.f[k], ts[1].ans.f[k])
    ensures ExtractedMasks(ts)[k] == R(ts[0].ans.f[k] as int - ExtractedBits(ts)[k] as int * ts[0].x as int)
  {
    hide R, Slope;
  }

  lemma EliminatedAt(ts: seq<Transcript>, i: nat, k: nat)
    requires 2 <= i < |ts| && k < M && EliminateBits(ts, i)[k + 1] == 0
    ensures Cong(Second(ts[0].x, ts[1].x, ts[i].x, ts[0].ans.f[k], ts[1].ans.f[k], ts[i].ans.f[k]), 0)
  {
    hide R, Second;
    RScalar(0);
  }

  lemma SecondOfTwo(x0: int, x1: int, f0: int, f1: int)
    ensures Cong(Second(x0, x1, x0, f0, f1, f0), 0) && Cong(Second(x0, x1, x1, f0, f1, f1), 0)
  {
    assert Second(x0, x1, x0, f0, f1, f0) == 0 && Second(x0, x1, x1, f0, f1, f1) == 0;
  }

  /** f(x - f) for f == b·x + a, as a quadratic in x. */
  lemma QuadraticForm(b: int, a: int, x: int)
    ensures (b * x + a) * (x - (b * x + a)) == b * (1 - b) * (x * x) + (a * (1 - 2 * b)) * x - a * a
  {}

  lemma Vandermonde(x0: int, x1: int, x2: int)
    ensures Second(x0, x1, x2, x0 * x0, x1 * x1, x2 * x2) == (x1 - x0) * ((x2 - x1) * (x0 - x2))
  {}

  lemma SecondLinear(x0: int, x1: int, x2: int, q: int, u0: int, u1: int, u2: int, m: int, p: int)
    ensures Second(x0, x1, x2, q * u0 + m * x0 - p, q * u1 + m * x1 - p, q * u2 + m * x2 - p)
         == q * Second(x0, x1, x2, u0, u1, u2)
  {}

  lemma BitProductCong(f: Scalar, x: Scalar, b: Scalar, a: Scalar)
    requires Cong(f, b as int * x as int + a as int)
    ensures Cong(Mul(f, Sub(x, f)),
      b as int * (1 - b as int) * (x as int * x as int) + (a as int * (1 - 2 * b as int)) * x as int
        - a as int * a as int)
  {
    hide R;
    var v := b as int * x as int + a as int;
    CongAdd(x, x, f, v);
    CongR(x as int - f as int);
    CongMul(f, v, Sub(x, f), x as int - v);
    CongR(f as int * Sub(x, f) as int);
    QuadraticForm(b, a, x);
  }

  /** The degree-two check at three points forces b(1 - b) == 0, hence a bit. */
  lemma BitIsBinary(x0: Scalar, x1: Scalar, x2: Scalar, f0: Scalar, f1: Scalar, f2: Scalar, b: Scalar, a: Scalar)
    requires x0 != x1 && x1 != x2 && x0 != x2
    requires Cong(f0, b as int * x0 as int + a as int)
    requires Cong(f1, b as int * x1 as int + a as int)
    requires Cong(f2, b as int * x2 as int + a as int)
    requires Cong(Second(x0, x1, x2, Mul(f0, Sub(x0, f0)), Mul(f1, Sub(x1, f1)), Mul(f2, Sub(x2, f2))), 0)
    ensures b == 0 || b == 1
  {
    hide R, Second;
    var q, m, p := b as int * (1 - b as int), a as int * (1 - 2 * b as int), a as int * a as int;
    var s0, s1, s2 := x0 as int * x0 as int, x1 as int * x1 as int, x2 as int * x2 as int;
    BitProductCong(f0, x0, b, a); BitProductCong(f1, x1, b, a); BitProductCong(f2, x2, b, a);
    SecondCong(x0, x1, x2, Mul(f0, Sub(x0, f0)), Mul(f1, Sub(x1, f1)), Mul(f2, Sub(x2, f2)),
               q * s0 + m * x0 as int - p, q * s1 + m * x1 as int - p, q * s2 + m * x2 as int - p);
    SecondLinear(x0, x1, x2, q, s0, s1, s2, m, p);
    Vandermonde(x0, x1, x2);
    NoRoots(q, x1 as int - x0 as int, x2 as int - x1 as int, x0 as int - x2 as int, x0, x1, x2);
    Euclid(b, 1 - b as int);
    BinaryScalar(b);
  }

  lemma NoRoots(q: int, d: int, e: int, h: int, x0: Scalar, x1: Scalar, x2: Scalar)
    requires d == x1 as int - x0 as int && e == x2 as int - x1 as int && h == x0 as int - x2 as int
    requires x0 != x1 && x1 != x2 && x0 != x2 && Cong(q * (d * (e * h)), 0)
    ensures Cong(q, 0)
  {
    hide R;
    DifferentUnit(x1, x0); DifferentUnit(x2, x1); DifferentUnit(x0, x2);
    Euclid(q, d * (e * h));
    if !Cong(q, 0) {
      Euclid(d, e * h);
      Euclid(e, h);
    }
  }

  lemma BinaryScalar(b: Scalar)
    requires Cong(b, 0) || Cong(1 - b as int, 0)
    ensures b == 0 || b == 1
  {
    hide R;
    RScalar(b); RScalar(0); RScalar(1);
    if Cong(1 - b as int, 0) { CongAdd(1 - b as int, 0, b, b); }
  }

  lemma ExtractedBitsBinary(ts: seq<Transcript>)
    requires |ts| == M + 1 && DistinctChallenges(ts)
    requires forall j, n :: 2 <= j <= M && 0 <= n <= M ==> EliminateBits(ts, j)[n] == 0
    requires forall n :: 0 <= n <= M ==> EliminateBinary(ts)[n] == 0
    ensures Binary(ExtractedBits(ts))
  {
    hide R, Second, ExtractedBits, ExtractedMasks;
    forall k: nat | k < M ensures ExtractedBits(ts)[k] == 0 || ExtractedBits(ts)[k] == 1 {
      AnswersAreLinear(ts, 0, k); AnswersAreLinear(ts, 1, k); AnswersAreLinear(ts, 2, k);
      BinaryComponent(ts, k);
      BitIsBinary(ts[0].x, ts[1].x, ts[2].x, ts[0].ans.f[k], ts[1].ans.f[k], ts[2].ans.f[k],
                  ExtractedBits(ts)[k], ExtractedMasks(ts)[k]);
    }
  }

  lemma BinaryComponent(ts: seq<Transcript>, k: nat)
    requires |ts| == M + 1 && k < M && EliminateBinary(ts)[k + 1] == 0
    ensures var f0, f1, f2 := ts[0].ans.f[k], ts[1].ans.f[k], ts[2].ans.f[k];
      Cong(Second(ts[0].x, ts[1].x, ts[2].x,
                  Mul(f0, Sub(ts[0].x, f0)), Mul(f1, Sub(ts[1].x, f1)), Mul(f2, Sub(ts[2].x, f2))), 0)
  {
    hide R, Second, Mul, Sub;
    RScalar(0);
  }

  // ── the extracted opening ──────────────────────────────────────────────────

  /** Coefficients, at coordinate c, of Σ_j p_j(X)·D_j - Σ_k X^k·E_k. */
  ghost function DifferencePoly(lows: seq<seq<Scalar>>, dSet: seq<Point>, e: Points, d: Point, c: nat): (r: seq<int>)
    requires Rectangular(lows, M) && |lows| == |dSet| && c < D
    ensures |r| == M + 1
  {
    seq(M, k requires 0 <= k < M => Dot(Column(lows, M, k), dSet, c) - e[k][c] as int) + [d[c]]
  }

  lemma DifferenceValue(lows: seq<seq<Scalar>>, dSet: seq<Point>, e: Points, d: Point, x: int, c: nat)
    requires Rectangular(lows, M) && |lows| == |dSet| && c < D
    ensures Eval(DifferencePoly(lows, dSet, e, d, c), x)
         == Dot(Evals(lows, x), dSet, c) - Sum(M, MaskSum(e, x, c)) + d[c] as int * Pow(x, M)
  {
    hide Dot, Pow;
    var p := DifferencePoly(lows, dSet, e, d, c);
    forall k: nat | k < M
      ensures Term(p[..M], x)(k) == 1 * ColumnDot(lows, M, dSet, x, c)(k) + (0 - 1) * MaskSum(e, x, c)(k)
    {
      DifferenceTermAt(lows, dSet, e, d, x, c, k);
    }
    hide DifferencePoly, Term, ColumnDot, MaskSum, Sum;
    assert p == p[..M] + [p[M]];
    EvalSnoc(p[..M], p[M], x);
    EvalIsSum(p[..M], x);
    DifferenceTop(lows, dSet, e, d, c);
    SumLinear(M, Term(p[..M], x), 1, ColumnDot(lows, M, dSet, x, c), 0 - 1, MaskSum(e, x, c));
    ColumnsToRows(lows, M, dSet, x, c);
  }

  lemma DifferenceTermAt(lows: seq<seq<Scalar>>, dSet: seq<Point>, e: Points, d: Point, x: int, c: nat, k: nat)
    requires Rectangular(lows, M) && |lows| == |dSet| && c < D && k < M
    ensures Term(DifferencePoly(lows, dSet, e, d, c)[..M], x)(k)
         == 1 * ColumnDot(lows, M, dSet, x, c)(k) + (0 - 1) * MaskSum(e, x, c)(k)
  {
    hide Dot, Pow;
    DifferenceTerm(Dot(Column(lows, M, k), dSet, c), e[k][c], Pow(x, k));
  }

  lemma DifferenceTerm(u: int, v: int, w: int)
    ensures (u - v) * w == 1 * (w * u) + (0 - 1) * (w * v)
  {}

  ghost function MaskSum(e: Points, x: int, c: nat): nat -> int
    requires c < D
  {
    (k: nat) => Pow(x, k) * Coord(e, k, c)
  }

  lemma PowersDot(e: Points, x: Scalar, c: nat)
    requires c < D
    ensures Cong(Dot(Powers(x), e, c), Sum(M, MaskSum(e, x, c)))
  {
    hide R, Pow;
    forall k: nat | k < M ensures Cong(DotTerm(Powers(x), e, c)(k), MaskSum(e, x, c)(k)) {
      CongR(Pow(x, k));
      CongMul(R(Pow(x, k)), Pow(x, k), Coord(e, k, c), Coord(e, k, c));
    }
    SumCong(M, DotTerm(Powers(x), e, c), MaskSum(e, x, c));
  }

  /** At every challenge the answers evaluate the difference polynomial. */
  lemma AnswersEvaluate(act: seq<Point>, dSet: seq<Point>, msg: Message, t: Transcript, bits: Scalars, a: Scalars,
                        index: nat, c: nat)
    requires |t.ans.zs| == |act| && |dSet| == N && index < N && c < D
    requires CheckMember(act, dSet, msg, t.x, t.ans)
    requires forall k :: 0 <= k < M ==> bits[k] == Bit(index, k)
    requires forall k :: 0 <= k < M ==> Cong(t.ans.f[k], bits[k] as int * t.x as int + a[k] as int)
    ensures Cong(Dot(t.ans.zs, act, c), Eval(DifferencePoly(LowRows(bits, a), dSet, msg.e, dSet[index], c), t.x))
  {
    hide R, Lin, Dot, LowRows, Products, Powers, Leading, Evals, DifferencePoly, Pow;
    var x, zs := t.x, t.ans.zs;
    LinCoord(Products(t.ans.f, x), dSet, c);
    LinCoord(zs + Powers(x), act + msg.e, c);
    DotAppend(zs, Powers(x), act, msg.e, c);
    ProductsSplit(dSet, bits, a, t.ans.f, x, c);
    LeadingSelects(bits, a, index);
    DotSelect(Leading(bits, a), dSet, index, c);
    PowersDot(msg.e, x, c);
    DifferenceValue(LowRows(bits, a), dSet, msg.e, dSet[index], x, c);
    Isolate(Dot(Products(t.ans.f, x), dSet, c), Dot(zs, act, c), Dot(Powers(x), msg.e, c),
            Dot(Evals(LowRows(bits, a), x), dSet, c), Pow(x, M), dSet[index][c], Sum(M, MaskSum(msg.e, x, c)));
  }

  lemma Isolate(p: int, z: int, e: int, l: int, X: int, d: int, s: int)
    requires Cong(p, z + e) && Cong(p, 1 * l + X * d) && Cong(e, s)
    ensures Cong(z, l - s + d * X)
  {
    hide R;
    CongAdd(p, z + e, e, e);
    CongAdd(p, 1 * l + X * d, e, s);
  }

  /** Divided differences of combinations are combinations of divided differences. */
  lemma {:induction false} TopOfCombinations(ts: seq<Transcript>, act: seq<Point>, c: nat, n: nat)
    requires 0 < |ts| && c < D && n <= |act|
    requires forall i :: 0 <= i < |ts| ==> |ts[i].ans.zs| == |act|
    ensures Cong(Top(Challenges(ts), Combinations(ts, act, c, n)), Dot(ExtractedSecrets(ts, n), act[..n], c))
  {
    hide R, Dot, Top;
    var xs, us := Challenges(ts), Combinations(ts, act, c, n);
    if n == 0 {
      forall i | 0 <= i < |ts| ensures Cong(us[i], 0 * us[i] + 0 * us[i]) { DotEmpty(c); }
      TopLinear(xs, us, 0, us, 0, us);
      DotEmpty(c);
    } else {
      var vs, ws, d := Combinations(ts, act, c, n - 1), AnswersFor(ts, n - 1), act[n - 1][c] as int;
      forall i | 0 <= i < |ts| ensures Cong(us[i], 1 * vs[i] + d * ws[i] as int) {
        CombinationSnoc(ts[i].ans.zs, act, c, n);
      }
      TopLinear(xs, us, 1, vs, d, ws);
      TopOfCombinations(ts, act, c, n - 1);
      SecretsSnoc(ts, act, c, n);
      AddTerm(Top(xs, us), Top(xs, vs), d, Top(xs, ws), Dot(ExtractedSecrets(ts, n - 1), act[..n - 1], c));
    }
  }

  lemma AddTerm(u: int, v: int, d: int, w: int, e: int)
    requires Cong(u, 1 * v + d * w) && Cong(v, e)
    ensures Cong(u, e + R(w) as int * d)
  {
    hide R;
    CongR(w);
    CongMul(R(w), w, d, d);
    CongAdd(v, e, w * d, R(w) as int * d);
  }

  ghost function Combinations(ts: seq<Transcript>, act: seq<Point>, c: nat, n: nat): (r: seq<int>)
    requires c < D && n <= |act| && forall i :: 0 <= i < |ts| ==> |ts[i].ans.zs| == |act|
    ensures |r| == |ts|
  {
    seq(|ts|, i requires 0 <= i < |ts| => Dot(ts[i].ans.zs[..n], act[..n], c))
  }

  lemma CombinationSnoc(zs: seq<Scalar>, act: seq<Point>, c: nat, n: nat)
    requires c < D && 0 < n <= |act| == |zs|
    ensures Dot(zs[..n], act[..n], c)
         == Dot(zs[..n - 1], act[..n - 1], c) + act[n - 1][c] as int * zs[n - 1] as int
  {
    hide Dot;
    assert zs[..n][..n - 1] == zs[..n - 1] && act[..n][..n - 1] == act[..n - 1];
    DotSnoc(zs[..n], act[..n], c);
  }

  lemma SecretsSnoc(ts: seq<Transcript>, act: seq<Point>, c: nat, n: nat)
    requires 0 < |ts| && c < D && 0 < n <= |act|
    requires forall i :: 0 <= i < |ts| ==> |ts[i].ans.zs| == |act|
    ensures Dot(ExtractedSecrets(ts, n), act[..n], c)
         == Dot(ExtractedSecrets(ts, n - 1), act[..n - 1], c)
          + R(Top(Challenges(ts), AnswersFor(ts, n - 1))) as int * act[n - 1][c] as int
  {
    hide R, Dot, Top;
    var s := ExtractedSecrets(ts, n);
    assert s[..n - 1] == ExtractedSecrets(ts, n - 1) && act[..n][..n - 1] == act[..n - 1];
    DotSnoc(s, act[..n], c);
  }

  lemma ChallengesDistinct(ts: seq<Transcript>)
    requires DistinctChallenges(ts)
    ensures Distinct(Challenges(ts))
  {
    hide R;
    forall i, j | 0 <= i < j < |ts| ensures !Cong(ts[j].x, ts[i].x) {
      RScalar(ts[j].x); RScalar(ts[i].x);
    }
  }

  lemma OpeningExtracted(g: Point, act: seq<Point>, dSet: seq<Point>, msg: Message, ts: seq<Transcript>,
                         bits: Scalars, a: Scalars, index: nat)
    requires Forked(g, act, dSet, msg, ts) && index < N
    requires forall k :: 0 <= k < M ==> bits[k] == Bit(index, k)
    requires forall i, k :: 0 <= i <= M && 0 <= k < M ==>
      Cong(ts[i].ans.f[k], bits[k] as int * ts[i].x as int + a[k] as int)
    ensures Opens(dSet[index], ExtractedSecrets(ts, |act|), act)
  {
    hide R, Lin, Dot, CheckBits, CheckBinary, CheckMember, Top, ExtractedSecrets, DifferencePoly;
    var secrets, xs := ExtractedSecrets(ts, |act|), Challenges(ts);
    ChallengesDistinct(ts);
    forall c: nat | c < D ensures dSet[index][c] == Lin(secrets, act)[c] {
      var p, us := DifferencePoly(LowRows(bits, a), dSet, msg.e, dSet[index], c), Combinations(ts, act, c, |act|);
      forall i | 0 <= i < |ts| ensures Cong(us[i], Eval(p, xs[i])) {
        assert ts[i].ans.zs[..|act|] == ts[i].ans.zs && act[..|act|] == act;
        AnswersEvaluate(act, dSet, msg, ts[i], bits, a, index, c);
      }
      TopOfPolynomial(xs, us, p);
      DifferenceTop(LowRows(bits, a), dSet, msg.e, dSet[index], c);
      TopOfCombinations(ts, act, c, |act|);
      assert act[..|act|] == act;
      LinCoord(secrets, act, c);
      RScalar(dSet[index][c]);
    }
  }

  lemma DifferenceTop(lows: seq<seq<Scalar>>, dSet: seq<Point>, e: Points, d: Point, c: nat)
    requires Rectangular(lows, M) && |lows| == |dSet| && c < D
    ensures DifferencePoly(lows, dSet, e, d, c)[M] == d[c]
  {}

  // ── the theorem ────────────────────────────────────────────────────────────

  /** The forked answers give away a relation between g and the bit generators. */
  ghost predicate BreaksBinding(g: Point, ts: seq<Transcript>)
    requires |ts| == M + 1
  {
    || Relation(EliminateBinary(ts), Base(g))
    || exists i :: 2 <= i <= M && Relation(EliminateBits(ts, i), Base(g))
  }

  /** Special soundness: the extracted index names a set member, and the extracted
      secrets open the shifted commitment there, unless a relation is exhibited. */
  lemma SpecialSoundness(g: Point, act: seq<Point>, dSet: seq<Point>, msg: Message, ts: seq<Transcript>)
    requires Forked(g, act, dSet, msg, ts)
    ensures BreaksBinding(g, ts) ||
      (ExtractedIndex(ts) < N && Opens(dSet[ExtractedIndex(ts)], ExtractedSecrets(ts, |act|), act))
  {
    hide R, Lin, Base, CheckBits, CheckBinary, CheckMember, EliminateBits, EliminateBinary, ExtractedSecrets,
      ExtractedBits, ExtractedMasks, Opens;
    if !BreaksBinding(g, ts) {
      forall i, n | 2 <= i <= M && 0 <= n <= M ensures EliminateBits(ts, i)[n] == 0 {
        BitsEliminate(g, act, dSet, msg, ts, i);
        assert !Relation(EliminateBits(ts, i), Base(g));
      }
      BitsEliminate(g, act, dSet, msg, ts, 2);
      var bits, a := ExtractedBits(ts), ExtractedMasks(ts);
      ExtractedBitsBinary(ts);
      BitsRoundTrip(bits);
      forall i, k | 0 <= i <= M && 0 <= k < M
        ensures Cong(ts[i].ans.f[k], bits[k] as int * ts[i].x as int + a[k] as int)
      {
        AnswersAreLinear(ts, i, k);
      }
      OpeningExtracted(g, act, dSet, msg, ts, bits, a, FromBits(bits));
    }
  }
}
