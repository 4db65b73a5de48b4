/** The scalar field Z_q, for an arbitrary prime q that fits in 32 bytes.

    Scalars are the integers in [0, q). Algebra is carried out on plain
    integers up to congruence and reduced at the end, so a polynomial identity
    over the integers is a polynomial identity over the field. Euclid's lemma
    and the existence of inverses are proved from primality.
 */
module Field {

  /** 2^256, written out so that it is a literal. */
  const TWO_256: nat := 0x1_0000_0000_0000_0000_0000_0000_0000_0000_0000_0000_0000_0000_0000_0000_0000_0000

  ghost predicate Divides(d: int, n: int) {
    exists k: int :: n == k * d
  }

  ghost predicate IsPrime(p: int) {
    p >= 2 && forall d: int :: 1 < d < p ==> !Divides(d, p)
  }

  type Modulus = q: nat | q <= TWO_256 && IsPrime(q) witness 2

  /** The group order: any prime of at most 256 bits. */
  const Q: Modulus

  type Scalar = s: int | 0 <= s < Q witness 0

  /** The residue of an integer. */
  function R(x: int): Scalar { x % Q }

  function Add(a: Scalar, b: Scalar): Scalar { R(a + b) }
  function Sub(a: Scalar, b: Scalar): Scalar { R(a - b) }
  function Mul(a: Scalar, b: Scalar): Scalar { R(a * b) }

  predicate Cong(a: int, b: int) { R(a) == R(b) }

  lemma CongIff(a: int, b: int)
    ensures Cong(a, b) <==> Divides(Q, a - b)
  {
    if Cong(a, b) {
      assert a - b == (a / Q - b / Q) * Q;
    }
    if Divides(Q, a - b) {
      var k: int :| a - b == k * Q;
      ModShift(b, k);
    }
  }

  lemma ModShift(b: int, k: int)
    ensures (b + k * Q) % Q == b % Q
  {
    var q: int := Q;
    var u, v := (b + k * q) / q, b / q;
    var d := u - v - k;
    assert d * q == b % q - (b + k * q) % q;
    assert d >= 1 ==> d * q >= q;
    assert d <= -1 ==> d * q <= -q;
  }

  lemma RScalar(s: Scalar)
    ensures R(s) == s
  {}

  lemma CongR(x: int)
    ensures Cong(R(x), x)
  {
    RScalar(R(x));
  }

  lemma CongAdd(a: int, a': int, b: int, b': int)
    requires Cong(a, a') && Cong(b, b')
    ensures Cong(a + b, a' + b') && Cong(a - b, a' - b')
  {
    hide Cong;
    CongIff(a, a'); CongIff(b, b');
    var k: int, m: int :| a - a' == k * Q && b - b' == m * Q;
    assert (a + b) - (a' + b') == (k + m) * Q;
    assert (a - b) - (a' - b') == (k - m) * Q;
    CongIff(a + b, a' + b'); CongIff(a - b, a' - b');
  }

  lemma CongMul(a: int, a': int, b: int, b': int)
    requires Cong(a, a') && Cong(b, b')
    ensures Cong(a * b, a' * b')
  {
    hide Cong;
    CongIff(a, a'); CongIff(b, b');
    var k: int, m: int :| a - a' == k * Q && b - b' == m * Q;
    assert a * b - a' * b' == (k * b + a' * m) * Q by {
      assert a * b - a' * b' == (a - a') * b + a' * (b - b');
      assert (k * Q) * b + a' * (m * Q) == (k * b + a' * m) * Q;
    }
    CongIff(a * b, a' * b');
  }

  /** Reduction is a ring homomorphism. */
  lemma ROps(a: int, b: int)
    ensures Add(R(a), R(b)) == R(a + b)
    ensures Sub(R(a), R(b)) == R(a - b)
    ensures Mul(R(a), R(b)) == R(a * b)
  {
    hide R;
    CongR(a); CongR(b);
    CongAdd(R(a), a, R(b), b);
    CongMul(R(a), a, R(b), b);
  }

  /** One multiply-accumulate step. */
  lemma MulAdd(e: int, s: Scalar, d: Scalar)
    ensures Add(R(e), Mul(s, d)) == R(e + s as int * d as int)
  {
    hide R;
    RScalar(s); RScalar(d);
    ROps(s, d);
    ROps(e, s as int * d as int);
  }

  /** Bezout's identity, by the Euclidean algorithm. */
  lemma Bezout(a: nat, b: nat) returns (x: int, y: int, g: int)
    requires a > 0 || b > 0
    ensures g > 0 && a * x + b * y == g && Divides(g, a) && Divides(g, b)
    decreases b
  {
    if b == 0 {
      x, y, g := 1, 0, a;
      assert a == 1 * g && b == 0 * g;
    } else {
      var u, v;
      u, v, g := Bezout(b, a % b);
      x, y := v, u - (a / b) * v;
      assert a == (a / b) * b + a % b;
      assert a * x + b * y == b * u + (a - (a / b) * b) * v;
      var k: int, m: int :| b == k * g && a % b == m * g;
      assert a == ((a / b) * k + m) * g by {
        assert (a / b) * (k * g) == ((a / b) * k) * g;
      }
    }
  }

  lemma InverseExists(a: int)
    requires !Cong(a, 0)
    ensures exists b: Scalar :: Cong(a * b, 1)
  {
    hide R;
    var r: nat, q: nat := R(a), Q;
    var x, y, g := Bezout(r, q);
    CongR(a);
    if g != 1 {
      DividesBelow(g, q);
      CongIff(r, 0);
      assert false;
    }
    assert r * x - 1 == (0 - y) * q;
    CongIff(r * x, 1);
    CongR(x);
    CongMul(a, r, R(x), x);
    assert Cong(a * R(x), 1);
  }

  /** A divisor of the prime other than 1 is the prime. */
  lemma DividesBelow(g: nat, q: nat)
    requires q == Q && g > 0 && g != 1 && Divides(g, q)
    ensures g == q
  {
    var k: int :| q == k * g;
    assert k >= 1 by {
      assert k <= 0 ==> k * g <= 0;
    }
    assert k * g >= g;
  }

  /** The multiplicative inverse of a unit, and 0 otherwise. */
  ghost function Inv(a: int): (b: Scalar)
    ensures !Cong(a, 0) ==> Cong(a * b, 1)
  {
    if Cong(a, 0) then 0 else
      InverseExists(a);
      var b: Scalar :| Cong(a * b, 1);
      b
  }

  /** Euclid's lemma: the field has no zero divisors. */
  lemma Euclid(a: int, b: int)
    requires Cong(a * b, 0)
    ensures Cong(a, 0) || Cong(b, 0)
  {
    if !Cong(a, 0) {
      var i := Inv(a);
      CongMul(a * i, 1, b, b);
      CongMul(a * b, 0, i, i);
      assert a * i * b == a * b * i;
    }
  }

  /** Cancelling a unit. */
  lemma Cancel(c: int, a: int, b: int)
    requires !Cong(c, 0) && Cong(c * a, c * b)
    ensures Cong(a, b)
  {
    ProductDifference(c, a, b);
    hide R;
    CongAdd(c * a, c * b, c * b, c * b);
    Euclid(c, a - b);
    CongAdd(a - b, 0, b, b);
  }

  lemma ProductDifference(c: int, a: int, b: int)
    ensures c * a - c * b == c * (a - b) && c * b - c * b == 0
  {}

  lemma InverseTimes(d: int, i: int, p: int)
    requires Cong(d * i, 1)
    ensures Cong(d * p * i, p)
  {
    hide R;
    CongMul(d * i, 1, p, p);
    assert d * p * i == d * i * p;
  }
}
