/** The extractor run on honest answers: it gives back what the prover put in. */
module Extraction {
  import opened Bits
  import opened Completeness
  import opened Field
  import opened Group
  import opened OneOfMany
  import opened Polynomials
  import opened Primitives
  import opened Soundness

  /** One first message answered honestly at several challenges. */
  function HonestTranscripts(bits: Scalars, secrets: seq<Scalar>, coins: Coins, xs: seq<Scalar>): (ts: seq<Transcript>)
    requires |coins.rho| == |secrets|
    ensures |ts| == |xs| && forall i :: 0 <= i < |xs| ==> ts[i].x == xs[i] && |ts[i].ans.zs| == |secrets|
  {
    seq(|xs|, i requires 0 <= i < |xs| => Transcript(xs[i], Respond(bits, secrets, coins, xs[i])))
  }

  // ── the index ──────────────────────────────────────────────────────────────

  /** The slope of b·x + a is b. */
  lemma SlopeOfAnswers(x0: Scalar, x1: Scalar, b: Scalar, a: Scalar)
    requires x0 != x1
    ensures Slope(x0, x1, Add(Mul(b, x0), a), Add(Mul(b, x1), a)) == b
  {
    hide R;
    var f0, f1, d := Add(Mul(b, x0), a), Add(Mul(b, x1), a), x1 as int - x0 as int;
    DifferentUnit(x1, x0);
    InverseExists(d);
    Affine(a, x0, b); Affine(a, x1, b);
    CongAdd(f1, a as int + x1 as int * b as int, f0, a as int + x0 as int * b as int);
    SlopeTimesWidth(a, x0, x1, b);
    CongMul(f1 as int - f0 as int, d * b as int, Inv(d), Inv(d));
    InverseTimes(d, Inv(d), b);
    RScalar(b);
  }

  lemma SlopeTimesWidth(a: int, x0: int, x1: int, b: int)
    ensures (a + x1 * b) - (a + x0 * b) == (x1 - x0) * b
  {}

  lemma {:induction false} FromBitsOf(index: nat, n: nat, bs: seq<nat>)
    requires index < Exp2(n) && |bs| == n && forall k :: 0 <= k < n ==> bs[k] == Bit(index, k)
    ensures FromBits(bs) == index
  {
    BitsRoundTrip(bs);
    BitsDetermine(FromBits(bs), index, n);
  }

  lemma IndexRecovered(index: nat, secrets: seq<Scalar>, coins: Coins, xs: seq<Scalar>)
    requires index < N && |coins.rho| == |secrets| && |xs| >= 2 && xs[0] != xs[1]
    ensures ExtractedIndex(HonestTranscripts(BitsOf(index), secrets, coins, xs)) == index
  {
    hide R, Slope, Add, Mul;
    var ts, bits := HonestTranscripts(BitsOf(index), secrets, coins, xs), BitsOf(index);
    forall k | 0 <= k < M ensures ExtractedBits(ts)[k] == bits[k] {
      SlopeOfAnswers(xs[0], xs[1], bits[k], coins.a[k]);
    }
    FromBitsOf(index, M, ExtractedBits(ts));
  }

  // ── the secrets ────────────────────────────────────────────────────────────

  function Negated(p: seq<int>): (r: seq<int>)
    ensures |r| == |p|
  {
    seq(|p|, i requires 0 <= i < |p| => 0 - p[i])
  }

  lemma {:induction false} EvalNegated(p: seq<int>, x: int)
    ensures Eval(Negated(p), x) == 0 - Eval(p, x)
  {
    if p != [] {
      EvalNegated(p[1..], x);
      assert Negated(p)[1..] == Negated(p[1..]);
      assert x * (0 - Eval(p[1..], x)) == 0 - x * Eval(p[1..], x);
    }
  }

  /** The n-th answers are the values of a polynomial led by the n-th secret. */
  lemma SecretRecovered(bits: Scalars, secrets: seq<Scalar>, coins: Coins, xs: seq<Scalar>, n: nat)
    requires |coins.rho| == |secrets| && |xs| == M + 1 && n < |secrets|
    requires DistinctChallenges(HonestTranscripts(bits, secrets, coins, xs))
    ensures var ts := HonestTranscripts(bits, secrets, coins, xs);
      R(Top(Challenges(ts), AnswersFor(ts, n))) == secrets[n]
  {
    hide R, Top, Eval, Pow;
    var ts := HonestTranscripts(bits, secrets, coins, xs);
    var w, row := secrets[n], coins.rho[n];
    var p := Negated(row) + [w as int];
    ChallengesDistinct(ts);
    forall i | 0 <= i <= M ensures Cong(AnswersFor(ts, n)[i], Eval(p, Challenges(ts)[i])) {
      EvalSnoc(Negated(row), w, xs[i]);
      EvalNegated(row, xs[i]);
      CongR(w as int * Pow(xs[i], M) - Eval(row, xs[i]));
    }
    TopOfPolynomial(Challenges(ts), AnswersFor(ts, n), p);
    RScalar(w);
  }

  // ── no relation ────────────────────────────────────────────────────────────

  lemma LineVanishes(x0: Scalar, x1: Scalar, x2: Scalar, u0: Scalar, u1: Scalar, u2: Scalar, p: Scalar, s: Scalar)
    requires Cong(u0, p as int + x0 as int * s as int) && Cong(u1, p as int + x1 as int * s as int)
    requires Cong(u2, p as int + x2 as int * s as int)
    ensures R(Second(x0, x1, x2, u0, u1, u2)) == 0
  {
    hide R, Second;
    SecondOfLine(x0, x1, x2, u0, u1, u2, p, s);
    RScalar(0);
  }

  /** What honest answers open A + x·B and D + x·C to lies on lines in x. */
  lemma BitsOnLine(bits: Scalars, secrets: seq<Scalar>, coins: Coins, x: Scalar, n: nat)
    requires |coins.rho| == |secrets| && n <= M
    ensures Cong(BitOpening(Transcript(x, Respond(bits, secrets, coins, x)))[n],
                 ([coins.rA] + coins.a)[n] as int + x as int * ([coins.rB] + bits)[n] as int)
  {
    hide R, Add, Mul, Eval, Pow;
    if n == 0 { Affine(coins.rA, x, coins.rB); } else { Affine(coins.a[n - 1], x, bits[n - 1]); }
  }

  lemma BinaryOnLine(bits: Scalars, secrets: seq<Scalar>, coins: Coins, x: Scalar, n: nat)
    requires |coins.rho| == |secrets| && n <= M && Binary(bits)
    ensures Cong(BinaryOpening(Transcript(x, Respond(bits, secrets, coins, x)))[n],
      ([coins.rD] + NegSquares(coins.a))[n] as int + x as int * ([coins.rC] + CrossTerms(coins.a, bits))[n] as int)
  {
    hide R, Add, Mul, Sub, Eval, Pow;
    if n == 0 {
      Affine(coins.rD, x, coins.rC);
    } else {
      hide Binary;
      BitProductValue(bits[n - 1], coins.a[n - 1], x);
    }
  }

  lemma BitsVanish(bits: Scalars, secrets: seq<Scalar>, coins: Coins, xs: seq<Scalar>, i: nat, n: nat)
    requires |coins.rho| == |secrets| && |xs| == M + 1 && 2 <= i <= M && n <= M
    ensures EliminateBits(HonestTranscripts(bits, secrets, coins, xs), i)[n] == 0
  {
    hide R, Second, Respond, BitOpening;
    var ts := HonestTranscripts(bits, secrets, coins, xs);
    BitsOnLine(bits, secrets, coins, xs[0], n); BitsOnLine(bits, secrets, coins, xs[1], n);
    BitsOnLine(bits, secrets, coins, xs[i], n);
    LineVanishes(xs[0], xs[1], xs[i], BitOpening(ts[0])[n], BitOpening(ts[1])[n], BitOpening(ts[i])[n],
                 ([coins.rA] + coins.a)[n], ([coins.rB] + bits)[n]);
  }

  lemma BinaryVanish(bits: Scalars, secrets: seq<Scalar>, coins: Coins, xs: seq<Scalar>, n: nat)
    requires |coins.rho| == |secrets| && |xs| == M + 1 && n <= M && Binary(bits)
    ensures EliminateBinary(HonestTranscripts(bits, secrets, coins, xs))[n] == 0
  {
    hide R, Second, Respond, BinaryOpening, NegSquares, CrossTerms;
    var ts := HonestTranscripts(bits, secrets, coins, xs);
    BinaryOnLine(bits, secrets, coins, xs[0], n); BinaryOnLine(bits, secrets, coins, xs[1], n);
    BinaryOnLine(bits, secrets, coins, xs[2], n);
    LineVanishes(xs[0], xs[1], xs[2], BinaryOpening(ts[0])[n], BinaryOpening(ts[1])[n], BinaryOpening(ts[2])[n],
                 ([coins.rD] + NegSquares(coins.a))[n], ([coins.rC] + CrossTerms(coins.a, bits))[n]);
  }

  lemma NoRelation(g: Point, bits: Scalars, secrets: seq<Scalar>, coins: Coins, xs: seq<Scalar>)
    requires |coins.rho| == |secrets| && |xs| == M + 1 && Binary(bits)
    ensures !BreaksBinding(g, HonestTranscripts(bits, secrets, coins, xs))
  {
    hide HonestTranscripts, EliminateBits, EliminateBinary, Lin, Base;
    var ts := HonestTranscripts(bits, secrets, coins, xs);
    forall i, n | 2 <= i <= M && 0 <= n <= M ensures EliminateBits(ts, i)[n] == 0 {
      BitsVanish(bits, secrets, coins, xs, i, n);
    }
    forall n | 0 <= n <= M ensures EliminateBinary(ts)[n] == 0 { BinaryVanish(bits, secrets, coins, xs, n); }
  }

  // ── the theorem ────────────────────────────────────────────────────────────

  /** From these transcripts the extractor reads off this index and these secrets. */
  ghost predicate Extracts(g: Point, ts: seq<Transcript>, index: nat, secrets: seq<Scalar>)
    requires |ts| == M + 1 && forall i :: 0 <= i < |ts| ==> |ts[i].ans.zs| == |secrets|
  {
    !BreaksBinding(g, ts) && ExtractedIndex(ts) == index && ExtractedSecrets(ts, |secrets|) == secrets
  }

  /** An honest prover rewound to M + 1 challenges is a fork that never breaks the
      binding, and the extractor recovers exactly its index and its secrets. */
  lemma ExtractorInvertsProver(g: Point, act: seq<Point>, dSet: seq<Point>, index: nat, secrets: seq<Scalar>,
                               coins: Coins,
                               ts: seq<Transcript>)
    requires |coins.rho| == |act| && |dSet| == N && index < N && Opens(dSet[index], secrets, act)
    requires |ts| == M + 1 && DistinctChallenges(ts)
    requires ts == HonestTranscripts(BitsOf(index), secrets, coins, Challenges(ts))
    ensures Forked(g, act, dSet, FirstMessage(g, act, dSet, BitsOf(index), coins), ts)
    ensures Extracts(g, ts, index, secrets)
  {
    hide R, Lin, Top, FirstMessage, Accepts, BreaksBinding, ExtractedIndex, BitsOf, Respond;
    var bits, xs := BitsOf(index), Challenges(ts);
    forall i | 0 <= i <= M
      ensures |ts[i].ans.zs| == |act|
      ensures Accepts(g, act, dSet, FirstMessage(g, act, dSet, bits, coins), xs[i], ts[i].ans)
    {
      HonestAccepts(g, act, dSet, index, secrets, coins, xs[i]);
    }
    BitsAreBinary(index);
    NoRelation(g, bits, secrets, coins, xs);
    assert xs[0] != xs[1];
    IndexRecovered(index, secrets, coins, xs);
    forall n | 0 <= n < |act| ensures ExtractedSecrets(ts, |act|)[n] == secrets[n] {
      SecretRecovered(bits, secrets, coins, xs, n);
    }
  }

  lemma BitsAreBinary(index: nat)
    ensures Binary(BitsOf(index))
  {}
}
