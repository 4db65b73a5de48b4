/** The commitment group: an arbitrary finite module over Z_q.

    Every such module is Z_q^D for some D, so a point is its vector of D
    coordinates. D == 1 is the prime-order curve group; larger D are groups
    with generators that satisfy no relation. No theorem fixes D.
 */
module Group {
  import opened Bytes
  import opened Field
  import opened Polynomials
  import opened Sums

  /** An encoding of coordinate vectors as 33-byte strings. */
  datatype Codec = Codec(encode: seq<Scalar> -> Bytes33, decode: Bytes33 -> Option<seq<Scalar>>)

  datatype EncodedGroup = EncodedGroup(rank: nat, codec: Codec)

  /** Encoding then decoding is the identity, and only points are decoded. */
  ghost predicate Lawful(g: EncodedGroup) {
    && (forall p: seq<Scalar> :: |p| == g.rank ==> g.codec.decode(g.codec.encode(p)) == Some(p))
    && (forall b: Bytes33 :: g.codec.decode(b).Some? ==> |g.codec.decode(b).value| == g.rank)
  }

  function TrivialGroup(): EncodedGroup {
    EncodedGroup(0, Codec((p: seq<Scalar>) => seq(33, i => 0), (b: Bytes33) => Some([])))
  }

  type LawfulGroup = g: EncodedGroup | Lawful(g) witness TrivialGroup()

  /** The group and its SEC1 compression, known only by the round trip. */
  const GROUP: LawfulGroup

  /** The rank of the group. */
  const D: nat := GROUP.rank

  type Point = p: seq<Scalar> | |p| == D witness seq(D, i => 0)

  function Identity(): Point { seq(D, i => 0) }

  function PAdd(p: Point, q: Point): Point {
    seq(D, i requires 0 <= i < D => Add(p[i], q[i]))
  }

  function PSub(p: Point, q: Point): Point {
    seq(D, i requires 0 <= i < D => Sub(p[i], q[i]))
  }

  function SMul(s: Scalar, p: Point): Point {
    seq(D, i requires 0 <= i < D => Mul(s, p[i]))
  }

  /** The linear combination cs[0]·ps[0] + cs[1]·ps[1] + … */
  function Lin(cs: seq<Scalar>, ps: seq<Point>): Point
    requires |cs| == |ps|
  {
    if cs == [] then Identity()
    else PAdd(Lin(cs[..|cs| - 1], ps[..|ps| - 1]), SMul(cs[|cs| - 1], ps[|ps| - 1]))
  }

  /** A loop that accumulates term by term computes the combination. */
  lemma LinPush(cs: seq<Scalar>, ps: seq<Point>, i: nat)
    requires i < |cs| == |ps|
    ensures Lin(cs[..i + 1], ps[..i + 1]) == PAdd(Lin(cs[..i], ps[..i]), SMul(cs[i], ps[i]))
  {
    assert cs[..i + 1][..i] == cs[..i] && ps[..i + 1][..i] == ps[..i];
  }

  lemma LinEmpty()
    ensures Lin([], []) == Identity()
  {}

  lemma IdentityPlus(p: Point)
    ensures PAdd(Identity(), p) == p
  {
    forall i | 0 <= i < D ensures Add(0, p[i]) == p[i] {
      RScalar(p[i]);
    }
  }

  // ── coordinates ────────────────────────────────────────────────────────────

  function Coord(ps: seq<Point>, i: int, c: nat): int
    requires c < D
  {
    if 0 <= i < |ps| then ps[i][c] else 0
  }

  ghost function DotTerm(cs: seq<int>, ps: seq<Point>, c: nat): nat -> int
    requires c < D
  {
    (i: nat) => At(cs, i) * Coord(ps, i, c)
  }

  /** Coordinate c of the combination, unreduced. */
  ghost function Dot(cs: seq<int>, ps: seq<Point>, c: nat): int
    requires c < D
  {
    Sum(|cs|, DotTerm(cs, ps, c))
  }

  lemma DotSnoc(cs: seq<int>, ps: seq<Point>, c: nat)
    requires 0 < |cs| == |ps| && c < D
    ensures Dot(cs, ps, c) == Dot(cs[..|cs| - 1], ps[..|cs| - 1], c) + cs[|cs| - 1] as int * ps[|cs| - 1][c] as int
  {
    var n := |cs| - 1;
    SumEq(n, DotTerm(cs, ps, c), DotTerm(cs[..n], ps[..n], c));
  }

  lemma LinUnfold(cs: seq<Scalar>, ps: seq<Point>, c: nat)
    requires 0 < |cs| == |ps| && c < D
    ensures var n := |cs| - 1; Lin(cs, ps)[c] == Add(Lin(cs[..n], ps[..n])[c], Mul(cs[n], ps[n][c]))
  {
    hide Add, Mul;
  }

  lemma {:induction false} LinCoord(cs: seq<Scalar>, ps: seq<Point>, c: nat)
    requires |cs| == |ps| && c < D
    ensures Lin(cs, ps)[c] == R(Dot(cs, ps, c))
  {
    if cs == [] {
      RScalar(0);
    } else {
      hide *;
      var n := |cs| - 1;
      LinCoord(cs[..n], ps[..n], c);
      LinUnfold(cs, ps, c);
      DotSnoc(cs, ps, c);
      MulAdd(Dot(cs[..n], ps[..n], c), cs[n], ps[n][c]);
    }
  }

  /** Lin(u) + x·Lin(v) == Lin(w) when w == u + x·v coefficientwise. */
  lemma LinLinear(us: seq<Scalar>, x: Scalar, vs: seq<Scalar>, ws: seq<Scalar>, ps: seq<Point>)
    requires |us| == |vs| == |ws| == |ps|
    requires forall i :: 0 <= i < |us| ==> Cong(ws[i], us[i] + x * vs[i])
    ensures PAdd(Lin(us, ps), SMul(x, Lin(vs, ps))) == Lin(ws, ps)
  {
    hide *;
    var lhs, rhs := PAdd(Lin(us, ps), SMul(x, Lin(vs, ps))), Lin(ws, ps);
    forall c: nat | c < D ensures lhs[c] == rhs[c] { LinLinearAt(us, x, vs, ws, ps, c); }
  }

  lemma LinLinearAt(us: seq<Scalar>, x: Scalar, vs: seq<Scalar>, ws: seq<Scalar>, ps: seq<Point>, c: nat)
    requires |us| == |vs| == |ws| == |ps| && c < D
    requires forall i :: 0 <= i < |us| ==> Cong(ws[i], us[i] + x * vs[i])
    ensures PAdd(Lin(us, ps), SMul(x, Lin(vs, ps)))[c] == Lin(ws, ps)[c]
  {
    var u, v := Dot(us, ps, c), Dot(vs, ps, c);
    DotAxpy(ws, us, x, vs, ps, c);
    hide *;
    LinCoord(us, ps, c); LinCoord(vs, ps, c); LinCoord(ws, ps, c);
    Axpy(Lin(us, ps), x, Lin(vs, ps), c);
    ReducedAxpy(u, x, v);
  }

  lemma ReducedAxpy(u: int, x: Scalar, v: int)
    ensures Add(R(u), Mul(x, R(v))) == R(u + x * v)
  {
    RScalar(x);
    hide R;
    var xv := x * v;
    ROps(x, v); ROps(u, xv);
  }

  lemma DotAxpy(ws: seq<int>, us: seq<int>, x: int, vs: seq<int>, ps: seq<Point>, c: nat)
    requires c < D && |ws| == |us| == |vs|
    requires forall i :: 0 <= i < |us| ==> Cong(ws[i], us[i] + x * vs[i])
    ensures R(Dot(ws, ps, c)) == R(Dot(us, ps, c) + x * Dot(vs, ps, c))
  {
    hide R, Dot;
    DotLinear(ws, 1, us, x, vs, ps, c);
  }

  lemma Axpy(p: Point, x: Scalar, q: Point, c: nat)
    requires c < D
    ensures PAdd(p, SMul(x, q))[c] == Add(p[c], Mul(x, q[c]))
  {}

  lemma {:induction false} DotLinear(ws: seq<int>, a: int, us: seq<int>, b: int, vs: seq<int>, ps: seq<Point>, c: nat)
    requires c < D && |ws| == |us| == |vs|
    requires forall i :: 0 <= i < |us| ==> Cong(ws[i], a * us[i] + b * vs[i])
    ensures Cong(Dot(ws, ps, c), a * Dot(us, ps, c) + b * Dot(vs, ps, c))
  {
    hide R;
    var n := |ws|;
    var mix := (i: nat) => a * DotTerm(us, ps, c)(i) + b * DotTerm(vs, ps, c)(i);
    forall i: nat | i < n ensures Cong(DotTerm(ws, ps, c)(i), mix(i)) {
      var d := Coord(ps, i, c);
      assert DotTerm(ws, ps, c)(i) == At(ws, i) * d;
      assert DotTerm(us, ps, c)(i) == At(us, i) * d && DotTerm(vs, ps, c)(i) == At(vs, i) * d;
      TermLinear(At(ws, i), a, At(us, i), b, At(vs, i), Coord(ps, i, c));
    }
    SumCong(n, DotTerm(ws, ps, c), mix);
    SumLinear(n, mix, a, DotTerm(us, ps, c), b, DotTerm(vs, ps, c));
  }

  lemma TermLinear(w: int, a: int, u: int, b: int, v: int, d: int)
    requires Cong(w, a * u + b * v)
    ensures Cong(w * d, a * (u * d) + b * (v * d))
  {
    hide R;
    CongMul(w, a * u + b * v, d, d);
    Distribute(u, a, v, b, d);
  }

  // ── the encoding of points ─────────────────────────────────────────────────

  function PointToBytes(p: Point): Bytes33 { GROUP.codec.encode(p) }

  function PointFromBytes(b: Bytes33): Option<Point> {
    match GROUP.codec.decode(b)
    case Some(p) => Some(p)
    case None => None
  }

  lemma PointRoundTrip(p: Point)
    ensures PointFromBytes(PointToBytes(p)) == Some(p)
  {}
}
