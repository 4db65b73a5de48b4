/** Combinations of concatenated lists, and of the columns of a matrix. */
module Matrices {
  import opened Field
  import opened Group
  import opened Polynomials
  import opened Sums

  lemma {:induction false} DotAppend(us: seq<int>, vs: seq<int>, ps: seq<Point>, qs: seq<Point>, c: nat)
    requires c < D && |us| == |ps| && |vs| == |qs|
    ensures Dot(us + vs, ps + qs, c) == Dot(us, ps, c) + Dot(vs, qs, c)
    decreases |vs|
  {
    hide *;
    if vs == [] {
      assert us + vs == us && ps + qs == ps && qs == [];
      DotEmpty(c);
    } else {
      var n, m := |us|, |vs| - 1;
      var us', ps' := us + vs, ps + qs;
      DotAppend(us, vs[..m], ps, qs[..m], c);
      assert us'[..n + m] == us + vs[..m] && ps'[..n + m] == ps + qs[..m];
      DotSnoc(us', ps', c);
      DotSnoc(vs, qs, c);
    }
  }

  lemma DotEmpty(c: nat)
    requires c < D
    ensures Dot([], [], c) == 0
  {}

  lemma DotSingle(s: int, p: Point, c: nat)
    requires c < D
    ensures Dot([s], [p], c) == s * p[c] as int
  {
    var f := DotTerm([s], [p], c);
    assert Sum(1, f) == Sum(0, f) + f(0);
  }

  /** A selector picks out one point. */
  lemma DotSelect(cs: seq<int>, ps: seq<Point>, j: nat, c: nat)
    requires c < D && j < |cs| == |ps|
    requires forall i :: 0 <= i < |cs| ==> cs[i] == if i == j then 1 else 0
    ensures Dot(cs, ps, c) == ps[j][c]
  {
    forall i: nat | i < |cs| && i != j ensures DotTerm(cs, ps, c)(i) == 0 {
      assert cs[i] == 0;
    }
    SumSingle(|cs|, DotTerm(cs, ps, c), j);
  }

  // ── matrices ───────────────────────────────────────────────────────────────

  predicate Rectangular(P: seq<seq<Scalar>>, m: nat) {
    forall i :: 0 <= i < |P| ==> |P[i]| == m
  }

  function Column(P: seq<seq<Scalar>>, m: nat, k: nat): (r: seq<Scalar>)
    requires Rectangular(P, m) && k < m
    ensures |r| == |P|
  {
    seq(|P|, i requires 0 <= i < |P| => P[i][k])
  }

  /** Each row read as a polynomial and evaluated. */
  ghost function Evals(P: seq<seq<Scalar>>, x: int): (r: seq<int>)
    ensures |r| == |P|
  {
    seq(|P|, i requires 0 <= i < |P| => Eval(P[i], x))
  }

  ghost function Entry(P: seq<seq<Scalar>>, ps: seq<Point>, x: int, c: nat): (nat, nat) -> int
    requires c < D
  {
    (i: nat, k: nat) => if i < |P| then Pow(x, k) * (At(P[i], k) * Coord(ps, i, c)) else 0
  }

  ghost function ColumnDot(P: seq<seq<Scalar>>, m: nat, ps: seq<Point>, x: int, c: nat): nat -> int
    requires Rectangular(P, m) && c < D
  {
    (k: nat) => if k < m then Pow(x, k) * Dot(Column(P, m, k), ps, c) else 0
  }

  /** Summing x^k times the k-th column's combination combines the row values. */
  lemma ColumnsToRows(P: seq<seq<Scalar>>, m: nat, ps: seq<Point>, x: int, c: nat)
    requires Rectangular(P, m) && |P| == |ps| && c < D
    ensures Sum(m, ColumnDot(P, m, ps, x, c)) == Dot(Evals(P, x), ps, c)
  {
    var F := Entry(P, ps, x, c);
    var rows, cols := DotTerm(Evals(P, x), ps, c), ColumnDot(P, m, ps, x, c);
    forall i: nat | i < |P| ensures rows(i) == Sum(m, Row(F, i)) {
      RowValue(P, m, ps, x, c, i);
    }
    forall k: nat | k < m ensures cols(k) == Sum(|P|, Col(F, k)) {
      ColumnValue(P, m, ps, x, c, k);
    }
    SumSwap(|P|, m, F, rows, cols);
  }

  lemma RowValue(P: seq<seq<Scalar>>, m: nat, ps: seq<Point>, x: int, c: nat, i: nat)
    requires Rectangular(P, m) && |P| == |ps| && c < D && i < |P|
    ensures Sum(m, Row(Entry(P, ps, x, c), i)) == Eval(P[i], x) * Coord(ps, i, c)
  {
    var d := Coord(ps, i, c);
    EvalIsSum(P[i], x);
    forall k: nat | k < m ensures Row(Entry(P, ps, x, c), i)(k) == d * Term(P[i], x)(k) {
      Rotate(Pow(x, k), At(P[i], k), d);
    }
    SumScale(m, Row(Entry(P, ps, x, c), i), d, Term(P[i], x));
  }

  lemma ColumnValue(P: seq<seq<Scalar>>, m: nat, ps: seq<Point>, x: int, c: nat, k: nat)
    requires Rectangular(P, m) && |P| == |ps| && c < D && k < m
    ensures Sum(|P|, Col(Entry(P, ps, x, c), k)) == Pow(x, k) * Dot(Column(P, m, k), ps, c)
  {
    SumScale(|P|, Col(Entry(P, ps, x, c), k), Pow(x, k), DotTerm(Column(P, m, k), ps, c));
  }

  lemma Rotate(a: int, b: int, c: int)
    ensures a * (b * c) == c * (b * a)
  {}
}
