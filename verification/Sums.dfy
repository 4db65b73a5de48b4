/** Finite sums of integers and their behaviour up to congruence. */
module Sums {
  import opened Field

  function Sum(n: nat, f: nat -> int): int {
    if n == 0 then 0 else Sum(n - 1, f) + f(n - 1)
  }

  lemma {:induction false} SumCong(n: nat, f: nat -> int, g: nat -> int)
    requires forall i: nat :: i < n ==> Cong(f(i), g(i))
    ensures Cong(Sum(n, f), Sum(n, g))
  {
    if n > 0 {
      hide Cong;
      SumCong(n - 1, f, g);
      CongAdd(Sum(n - 1, f), Sum(n - 1, g), f(n - 1), g(n - 1));
    }
  }

  lemma {:induction false} SumEq(n: nat, f: nat -> int, g: nat -> int)
    requires forall i: nat :: i < n ==> f(i) == g(i)
    ensures Sum(n, f) == Sum(n, g)
  {
    if n > 0 { SumEq(n - 1, f, g); }
  }

  /** A sum of linear combinations is the linear combination of the sums. */
  lemma {:induction false} SumLinear(n: nat, f: nat -> int, a: int, g: nat -> int, b: int, h: nat -> int)
    requires forall i: nat :: i < n ==> f(i) == a * g(i) + b * h(i)
    ensures Sum(n, f) == a * Sum(n, g) + b * Sum(n, h)
  {
    if n > 0 {
      SumLinear(n - 1, f, a, g, b, h);
      assert a * (Sum(n - 1, g) + g(n - 1)) == a * Sum(n - 1, g) + a * g(n - 1);
      assert b * (Sum(n - 1, h) + h(n - 1)) == b * Sum(n - 1, h) + b * h(n - 1);
    } else {
      assert a * 0 + b * 0 == 0;
    }
  }

  lemma {:induction false} SumScale(n: nat, f: nat -> int, a: int, g: nat -> int)
    requires forall i: nat :: i < n ==> f(i) == a * g(i)
    ensures Sum(n, f) == a * Sum(n, g)
  {
    SumLinear(n, f, a, g, 0, g);
  }

  lemma {:induction false} SumZero(n: nat, f: nat -> int)
    requires forall i: nat :: i < n ==> f(i) == 0
    ensures Sum(n, f) == 0
  {
    if n > 0 { SumZero(n - 1, f); }
  }

  /** Only the term at j survives. */
  lemma {:induction false} SumSingle(n: nat, f: nat -> int, j: nat)
    requires j < n && forall i: nat :: i < n && i != j ==> f(i) == 0
    ensures Sum(n, f) == f(j)
  {
    if j == n - 1 { SumZero(n - 1, f); } else { SumSingle(n - 1, f, j); }
  }

  /** The first term taken out. */
  lemma {:induction false} SumFront(n: nat, f: nat -> int, g: nat -> int)
    requires n > 0 && forall i: nat :: i < n - 1 ==> g(i) == f(i + 1)
    ensures Sum(n, f) == f(0) + Sum(n - 1, g)
  {
    if n > 1 { SumFront(n - 1, f, g); }
  }

  /** One row, and one column, of a matrix. */
  function Row(F: (nat, nat) -> int, i: nat): nat -> int { (k: nat) => F(i, k) }
  function Col(F: (nat, nat) -> int, k: nat): nat -> int { (i: nat) => F(i, k) }

  /** Exchanging the order of a double sum. */
  lemma {:induction false} SumSwap(n: nat, m: nat, F: (nat, nat) -> int, rows: nat -> int, cols: nat -> int)
    requires forall i: nat :: i < n ==> rows(i) == Sum(m, Row(F, i))
    requires forall k: nat :: k < m ==> cols(k) == Sum(n, Col(F, k))
    ensures Sum(n, rows) == Sum(m, cols)
  {
    if n == 0 {
      SumZero(m, cols);
    } else {
      var prev := (k: nat) => Sum(n - 1, Col(F, k));
      SumSwap(n - 1, m, F, rows, prev);
      SumLinear(m, cols, 1, prev, 1, Row(F, n - 1));
    }
  }
}
