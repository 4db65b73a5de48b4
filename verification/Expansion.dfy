/** The in-place expansion of the index-bit factors refines their product. */
module Expansion {
  import opened Bits
  import opened Field
  import opened OneOfMany
  import opened Polynomials
  import opened Primitives

  // ── what the coefficients mean ─────────────────────────────────────────────

  /** Evaluated at x, the expanded coefficients give the verifier's product. */
  lemma {:induction false} ExpansionIsProduct(j: nat, bits: Scalars, a: Scalars, f: Scalars, x: Scalar, n: nat)
    requires n <= M
    requires forall k :: 0 <= k < M ==> Cong(f[k], bits[k] as int * x as int + a[k] as int)
    ensures Cong(Eval(Coefficients(j, bits, a, n), x), Product(j, f, x, n))
  {
    if n == 0 {
      assert Eval([1], x) == 1 + x as int * Eval([], x);
    } else {
      hide R;
      ExpansionIsProduct(j, bits, a, f, x, n - 1);
      var p, cx, c0 := Coefficients(j, bits, a, n - 1), FactorX(j, bits, n - 1), Factor0(j, a, n - 1);
      var prev := Product(j, f, x, n - 1);
      var factor: Scalar := if Bit(j, n - 1) == 1 then f[n - 1] else Sub(x, f[n - 1]);
      FactorValue(j, bits, a, f, x, n - 1);
      EvalTimesLinear(p, cx, c0, x);
      StepCong(Eval(TimesLinear(p, cx, c0), x), c0 as int + cx as int * x as int, Eval(p, x), factor, prev);
    }
  }

  lemma StepCong(e: int, v: int, w: int, factor: Scalar, prev: Scalar)
    requires Cong(e, v * w) && Cong(v, factor) && Cong(w, prev)
    ensures Cong(e, Mul(prev, factor))
  {
    hide R;
    CongMul(v, factor, w, prev);
    CongR(prev as int * factor as int);
    assert factor as int * prev as int == prev as int * factor as int;
  }

  lemma FactorValue(j: nat, bits: Scalars, a: Scalars, f: Scalars, x: Scalar, k: nat)
    requires k < M && Cong(f[k], bits[k] as int * x as int + a[k] as int)
    ensures Cong(Factor0(j, a, k) as int + FactorX(j, bits, k) as int * x as int,
                 if Bit(j, k) == 1 then f[k] else Sub(x, f[k]))
  {
    hide R;
    if Bit(j, k) != 1 { Complement(bits[k], x, a[k], f[k]); }
  }

  lemma Complement(b: Scalar, x: Scalar, a: Scalar, f: Scalar)
    requires Cong(f, b as int * x as int + a as int)
    ensures Cong(Sub(0, a) as int + Sub(1, b) as int * x as int, Sub(x, f))
  {
    hide R;
    var bx := b as int * x as int;
    var cx := Sub(1, b) as int * x as int;
    assert Cong(cx, x as int - bx) by {
      CongR(1 - b as int);
      CongMul(Sub(1, b), 1 - b as int, x, x);
      assert (1 - b as int) * x as int == x as int - bx;
    }
    CongR(0 - a as int); CongR(x as int - f as int);
    CongAdd(Sub(0, a), 0 - a as int, cx, x as int - bx);
    CongAdd(x, x, f, bx + a as int);
  }

  /** The leading coefficient is 1 exactly when the bits spell j. */
  lemma {:induction false} LeadingCoefficient(j: nat, bits: Scalars, a: Scalars, n: nat)
    requires n <= M && Binary(bits)
    ensures Coefficients(j, bits, a, n)[n] == if forall k: nat :: k < n ==> Bit(j, k) == bits[k] then 1 else 0
  {
    if n > 0 {
      hide R;
      LeadingCoefficient(j, bits, a, n - 1);
      var p, cx := Coefficients(j, bits, a, n - 1), FactorX(j, bits, n - 1);
      TopOfTimesLinear(p, cx, Factor0(j, a, n - 1));
      FactorXBinary(j, bits, n - 1);
      BinaryProduct(p[n - 1], cx);
      OneMoreBit(j, bits, n - 1);
      hide Bit;
    }
  }

  lemma OneMoreBit(j: nat, bits: Scalars, n: nat)
    requires n < M
    ensures (forall k: nat :: k < n + 1 ==> Bit(j, k) == bits[k])
       <==> (forall k: nat :: k < n ==> Bit(j, k) == bits[k]) && Bit(j, n) == bits[n]
  {
    hide Bit;
  }

  lemma FactorXBinary(j: nat, bits: Scalars, k: nat)
    requires k < M && Binary(bits)
    ensures FactorX(j, bits, k) == if Bit(j, k) == bits[k] then 1 else 0
  {
    hide R, Bit;
    RScalar(0); RScalar(1);
  }

  lemma BinaryProduct(u: int, v: int)
    requires (u == 0 || u == 1) && (v == 0 || v == 1)
    ensures R(u * v) == if u == 1 && v == 1 then 1 else 0
  {
    assert u * v == if u == 1 && v == 1 then 1 else 0;
  }

  lemma TopOfTimesLinear(p: seq<Scalar>, cx: Scalar, c0: Scalar)
    requires p != []
    ensures TimesLinear(p, cx, c0)[|p|] == R(p[|p| - 1] as int * cx as int)
  {
    hide R;
    assert 0 * c0 as int == 0;
  }

  /** Among all set positions, only the prover's index has leading coefficient 1. */
  lemma LeadingSelects(bits: Scalars, a: Scalars, index: nat)
    requires index < N && forall k :: 0 <= k < M ==> bits[k] == Bit(index, k)
    ensures forall j :: 0 <= j < N ==> Leading(bits, a)[j] == if j == index then 1 else 0
  {
    forall j: nat | j < N ensures Leading(bits, a)[j] == if j == index then 1 else 0 {
      LeadingCoefficient(j, bits, a, M);
      if forall k: nat :: k < M ==> Bit(j, k) == bits[k] {
        BitsDetermine(j, index, M);
      }
    }
  }

  // ── the loop ───────────────────────────────────────────────────────────────

  /** One multiplication by cx·X + c0, from the top coefficient down. */
  method MultiplyInPlace(poly: array<Scalar>, k: nat, cx: Scalar, c0: Scalar)
    requires k + 1 < poly.Length && poly[k + 1] == 0
    modifies poly
    ensures poly[..k + 2] == TimesLinear(old(poly[..k + 1]), cx, c0)
    ensures forall t :: k + 1 < t < poly.Length ==> poly[t] == old(poly[t])
  {
    hide R, Add, Mul, TimesLinear;
    ghost var prev := poly[..k + 1];
    ghost var next := TimesLinear(prev, cx, c0);
    for i := k + 1 downto 0
      invariant forall t :: 0 <= t < i ==> poly[t] == prev[t]
      invariant poly[i] == if i <= k then Mul(prev[i], c0) else 0
      invariant forall t :: i < t <= k + 1 ==> poly[t] == next[t]
      invariant forall t :: k + 1 < t < poly.Length ==> poly[t] == old(poly[t])
    {
      ProductCoefficient(prev, cx, c0, i + 1);
      poly[i + 1] := Add(poly[i + 1], Mul(poly[i], cx));
      poly[i] := Mul(poly[i], c0);
    }
    ProductCoefficient(prev, cx, c0, 0);
  }

  lemma ProductCoefficient(p: seq<Scalar>, cx: Scalar, c0: Scalar, i: nat)
    requires p != [] && i <= |p|
    ensures TimesLinear(p, cx, c0)[i] ==
      if i == 0 then Mul(p[0], c0)
      else Add(if i < |p| then Mul(p[i], c0) else 0, Mul(p[i - 1], cx))
  {
    hide R, TimesLinear;
    CoefficientAt(p, cx, c0, i);
    TwoTerms(if i < |p| then p[i] else 0, c0, if i > 0 then p[i - 1] else 0, cx);
  }

  lemma CoefficientAt(p: seq<Scalar>, cx: Scalar, c0: Scalar, i: nat)
    requires i <= |p|
    ensures TimesLinear(p, cx, c0)[i] == R(At(p, i) * c0 as int + At(p, i - 1) * cx as int)
  {
    hide R;
  }

  lemma TwoTerms(u: Scalar, c0: Scalar, v: Scalar, cx: Scalar)
    ensures R(u as int * c0 as int + v as int * cx as int) == Add(Mul(u, c0), Mul(v, cx))
    ensures u == 0 ==> Mul(u, c0) == 0
    ensures v == 0 ==> Add(Mul(u, c0), Mul(v, cx)) == Mul(u, c0)
  {
    hide R;
    var l, h := u as int * c0 as int, v as int * cx as int;
    ROps(l, h);
    RScalar(0);
    assert u == 0 ==> l == 0;
    assert v == 0 ==> h == 0;
    assert v == 0 ==> l + h == l;
  }

  /** Expands the factors of set position j, coefficient array first to last. */
  method Expand(j: nat, bits: Scalars, a: Scalars) returns (poly: array<Scalar>)
    ensures fresh(poly) && poly[..] == Coefficients(j, bits, a, M)
  {
    hide R, TimesLinear, FactorX, Factor0;
    poly := new Scalar[M + 1](i => 0);
    poly[0] := 1;
    assert poly[..1] == Coefficients(j, bits, a, 0);
    for k := 0 to M
      invariant fresh(poly) && poly.Length == M + 1
      invariant poly[..k + 1] == Coefficients(j, bits, a, k)
      invariant forall t :: k < t <= M ==> poly[t] == 0
    {
      MultiplyInPlace(poly, k, FactorX(j, bits, k), Factor0(j, a, k));
    }
    assert poly[..] == poly[..M + 1];
  }
}
