/** Polynomials over the scalar field, lowest coefficient first.

    Two facts carry the proof system: multiplying by a linear factor, which is
    how the prover expands the product of the index-bit factors, and the top
    divided difference, which recovers the leading coefficient from values at
    distinct points and so bounds the number of roots.
 */
module Polynomials {
  import opened Field
  import opened Sums

  function Pow(x: int, n: nat): int {
    if n == 0 then 1 else Pow(x, n - 1) * x
  }

  function Eval(p: seq<int>, x: int): int {
    if p == [] then 0 else p[0] + x * Eval(p[1..], x)
  }

  function At(p: seq<int>, i: int): int {
    if 0 <= i < |p| then p[i] else 0
  }

  /** (c0 + cx·X) · p, unreduced and reduced. */
  function Shifted(p: seq<int>, cx: int, c0: int): (r: seq<int>)
    ensures |r| == |p| + 1
  {
    seq(|p| + 1, i => At(p, i) * c0 + At(p, i - 1) * cx)
  }

  function Residues(p: seq<int>): (r: seq<Scalar>)
    ensures |r| == |p|
  {
    seq(|p|, i requires 0 <= i < |p| => R(p[i]))
  }

  function TimesLinear(p: seq<int>, cx: int, c0: int): (r: seq<Scalar>)
    ensures |r| == |p| + 1
  {
    Residues(Shifted(p, cx, c0))
  }

  // ── evaluation ─────────────────────────────────────────────────────────────

  lemma {:induction false} EvalSnoc(p: seq<int>, c: int, x: int)
    ensures Eval(p + [c], x) == Eval(p, x) + c * Pow(x, |p|)
  {
    if p != [] {
      assert (p + [c])[1..] == p[1..] + [c];
      EvalSnoc(p[1..], c, x);
      PowFront(x, |p|);
      Regroup(x, Eval(p[1..], x), c, Pow(x, |p| - 1));
    } else {
      assert Eval([c], x) == c + x * Eval([], x);
    }
  }

  lemma {:induction false} PowFront(x: int, n: nat)
    requires n > 0
    ensures Pow(x, n) == x * Pow(x, n - 1)
  {
    if n > 1 { PowFront(x, n - 1); }
  }

  function Term(p: seq<int>, x: int): nat -> int {
    (i: nat) => At(p, i) * Pow(x, i)
  }

  /** Horner's rule computes the power sum. */
  lemma {:induction false} EvalIsSum(p: seq<int>, x: int)
    ensures Eval(p, x) == Sum(|p|, Term(p, x))
  {
    if p != [] {
      var q, c := p[..|p| - 1], p[|p| - 1];
      assert p == q + [c];
      EvalSnoc(q, c, x);
      EvalIsSum(q, x);
      SumEq(|q|, Term(p, x), Term(q, x));
    }
  }

  lemma {:induction false} EvalCong(p: seq<int>, q: seq<int>, x: int)
    requires |p| == |q| && forall i :: 0 <= i < |p| ==> Cong(p[i], q[i])
    ensures Cong(Eval(p, x), Eval(q, x))
  {
    hide R;
    if p != [] {
      EvalCong(p[1..], q[1..], x);
      CongMul(x, x, Eval(p[1..], x), Eval(q[1..], x));
      CongAdd(p[0], q[0], x * Eval(p[1..], x), x * Eval(q[1..], x));
    }
  }

  function Delayed(p: seq<int>, x: int): nat -> int {
    (i: nat) => At(p, i - 1) * Pow(x, i)
  }

  lemma {:induction false} EvalShifted(p: seq<int>, cx: int, c0: int, x: int)
    ensures Eval(Shifted(p, cx, c0), x) == (c0 + cx * x) * Eval(p, x)
  {
    var s, n := Shifted(p, cx, c0), |p|;
    EvalIsSum(s, x); EvalIsSum(p, x);
    forall i: nat | i < n + 1 ensures Term(s, x)(i) == c0 * Term(p, x)(i) + cx * Delayed(p, x)(i) {
      Distribute(At(p, i), c0, At(p, i - 1), cx, Pow(x, i));
    }
    SumLinear(n + 1, Term(s, x), c0, Term(p, x), cx, Delayed(p, x));
    SumDelayed(p, x);
    Reassociate(c0, cx, x, Sum(n, Term(p, x)));
  }

  lemma SumDelayed(p: seq<int>, x: int)
    ensures Sum(|p| + 1, Delayed(p, x)) == x * Sum(|p|, Term(p, x))
    ensures Sum(|p| + 1, Term(p, x)) == Sum(|p|, Term(p, x))
  {
    hide Pow, At;
    var up := (i: nat) => x * Term(p, x)(i);
    forall i: nat | i < |p| ensures up(i) == Delayed(p, x)(i + 1) { DelayedStep(p, x, i); }
    DelayedEnds(p, x);
    SumFront(|p| + 1, Delayed(p, x), up);
    SumScale(|p|, up, x, Term(p, x));
  }

  lemma DelayedStep(p: seq<int>, x: int, i: nat)
    ensures Delayed(p, x)(i + 1) == x * Term(p, x)(i)
  {
    hide Pow, At;
    PowFront(x, i + 1);
    Reorder(x, At(p, i), Pow(x, i));
  }

  lemma DelayedEnds(p: seq<int>, x: int)
    ensures Delayed(p, x)(0) == 0 && Term(p, x)(|p|) == 0
  {}

  lemma Distribute(a: int, b: int, c: int, d: int, e: int)
    ensures (a * b + c * d) * e == b * (a * e) + d * (c * e)
  {}

  lemma Reassociate(a: int, b: int, x: int, e: int)
    ensures (a + b * x) * e == a * e + b * (x * e)
  {}

  lemma Regroup(x: int, e: int, c: int, w: int)
    ensures x * (e + c * w) == x * e + c * (x * w)
  {}

  lemma DeflateStep(x: int, x0: int, e0: int, d: int)
    ensures (x - x0) * (e0 + x * d) == (x - x0) * e0 + x * ((x - x0) * d)
  {}

  lemma Reorder(x: int, a: int, b: int)
    ensures x * (a * b) == a * (x * b)
  {}

  /** The reduced product evaluates to the product of the values. */
  lemma EvalTimesLinear(p: seq<int>, cx: int, c0: int, x: int)
    ensures Cong(Eval(TimesLinear(p, cx, c0), x), (c0 + cx * x) * Eval(p, x))
  {
    hide R;
    var s, t := Shifted(p, cx, c0), TimesLinear(p, cx, c0);
    forall i | 0 <= i < |s| ensures Cong(t[i], s[i]) {
      CongR(s[i]);
    }
    EvalCong(t, s, x);
    EvalShifted(p, cx, c0, x);
  }

  // ── divided differences ────────────────────────────────────────────────────

  ghost predicate Distinct(xs: seq<int>) {
    forall i, j :: 0 <= i < j < |xs| ==> !Cong(xs[j], xs[i])
  }

  ghost function Quotients(xs: seq<int>, vs: seq<int>): (r: seq<int>)
    requires |xs| == |vs| > 0
    ensures |r| == |xs| - 1
  {
    seq(|xs| - 1, i requires 0 <= i < |xs| - 1 => (vs[i + 1] - vs[0]) * Inv(xs[i + 1] - xs[0]))
  }

  /** The top divided difference of the values vs at the points xs. */
  ghost function Top(xs: seq<int>, vs: seq<int>): int
    requires |xs| == |vs| > 0
    decreases |xs|
  {
    if |xs| == 1 then vs[0] else Top(xs[1..], Quotients(xs, vs))
  }

  /** The quotient of p(X) - p(x0) by X - x0. */
  function Deflate(p: seq<int>, x0: int): seq<int>
    requires p != []
  {
    if |p| == 1 then [] else [Eval(p[1..], x0)] + Deflate(p[1..], x0)
  }

  lemma {:induction false} EvalDeflate(p: seq<int>, x0: int, x: int)
    requires p != []
    ensures |Deflate(p, x0)| == |p| - 1
    ensures |p| > 1 ==> Deflate(p, x0)[|p| - 2] == p[|p| - 1]
    ensures Eval(p, x) - Eval(p, x0) == (x - x0) * Eval(Deflate(p, x0), x)
  {
    var t := p[1..];
    if |p| == 1 {
      assert t == [];
    } else {
      EvalDeflate(t, x0, x);
      var d, e, e0 := Deflate(t, x0), Eval(t, x), Eval(t, x0);
      assert ([e0] + d)[1..] == d;
      DeflateStep(x, x0, e0, Eval(d, x));
      assert x * (e - e0) == x * e - x * e0;
      if |p| == 2 { assert t[1..] == []; }
    }
  }

  /** A polynomial with n coefficients is pinned down at n distinct points: its
      leading coefficient is the top divided difference of its values. */
  lemma {:induction false} TopOfPolynomial(xs: seq<int>, vs: seq<int>, p: seq<int>)
    requires |xs| == |vs| == |p| > 0 && Distinct(xs)
    requires forall i :: 0 <= i < |xs| ==> Cong(vs[i], Eval(p, xs[i]))
    ensures Cong(Top(xs, vs), p[|p| - 1])
    decreases |xs|
  {
    hide R;
    if |xs| == 1 {
      assert p[1..] == [];
    } else {
      var x0, qs, d := xs[0], Quotients(xs, vs), Deflate(p, xs[0]);
      EvalDeflate(p, x0, x0);
      forall i | 0 <= i < |qs| ensures Cong(qs[i], Eval(d, xs[1..][i])) {
        var x := xs[i + 1];
        EvalDeflate(p, x0, x);
        var u, e := Inv(x - x0), Eval(d, x);
        CongIff(x, x0); CongIff(x - x0, 0);
        CongAdd(vs[i + 1], Eval(p, x), vs[0], Eval(p, x0));
        CongMul(vs[i + 1] - vs[0], (x - x0) * e, u, u);
        CongMul((x - x0) * u, 1, e, e);
        assert (x - x0) * e * u == (x - x0) * u * e;
      }
      TopOfPolynomial(xs[1..], qs, d);
    }
  }

  /** The top divided difference is linear in the values. */
  lemma {:induction false} TopLinear(xs: seq<int>, us: seq<int>, a: int, vs: seq<int>, b: int, ws: seq<int>)
    requires |xs| == |us| == |vs| == |ws| > 0
    requires forall i :: 0 <= i < |xs| ==> Cong(us[i], a * vs[i] + b * ws[i])
    ensures Cong(Top(xs, us), a * Top(xs, vs) + b * Top(xs, ws))
    decreases |xs|
  {
    hide R;
    if |xs| > 1 {
      var qu, qv, qw := Quotients(xs, us), Quotients(xs, vs), Quotients(xs, ws);
      forall i | 0 <= i < |qu| ensures Cong(qu[i], a * qv[i] + b * qw[i]) {
        QuotientLinear(us[i + 1], us[0], a, vs[i + 1], vs[0], b, ws[i + 1], ws[0], Inv(xs[i + 1] - xs[0]));
      }
      TopLinear(xs[1..], qu, a, qv, b, qw);
    }
  }

  lemma QuotientLinear(u: int, u0: int, a: int, v: int, v0: int, b: int, w: int, w0: int, inv: int)
    requires Cong(u, a * v + b * w) && Cong(u0, a * v0 + b * w0)
    ensures Cong((u - u0) * inv, a * ((v - v0) * inv) + b * ((w - w0) * inv))
  {
    hide R;
    CongAdd(u, a * v + b * w, u0, a * v0 + b * w0);
    CongMul(u - u0, a * v + b * w - (a * v0 + b * w0), inv, inv);
    assert a * v + b * w - (a * v0 + b * w0) == (v - v0) * a + (w - w0) * b by {
      assert a * (v - v0) == a * v - a * v0;
      assert b * (w - w0) == b * w - b * w0;
    }
    Distribute(v - v0, a, w - w0, b, inv);
  }
}
