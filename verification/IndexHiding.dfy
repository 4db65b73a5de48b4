/** Index hiding: when g generates the group, the proof says nothing about the
    prover's position. For any two positions with openings, the coins used at
    the one correspond, bijectively, to coins at the other that give the same
    first message and the same answers. */
module IndexHiding {
  import opened Completeness
  import opened Field
  import opened Group
  import opened Matrices
  import opened OneOfMany
  import opened Polynomials
  import opened Primitives

  ghost predicate IsMultiple(p: Point, g: Point) {
    exists s: Scalar :: SMul(s, g) == p
  }

  /** Every point is a multiple of g. */
  ghost predicate Generates(g: Point) {
    g != Identity() && forall p: Point :: IsMultiple(p, g)
  }

  ghost function Log(g: Point, p: Point): (s: Scalar)
    requires Generates(g)
    ensures SMul(s, g) == p
  {
    assert IsMultiple(p, g);
    var s: Scalar :| SMul(s, g) == p;
    s
  }

  lemma LogUnique(g: Point, s: Scalar, t: Scalar)
    requires g != Identity() && SMul(s, g) == SMul(t, g)
    ensures s == t
  {
    var c :| 0 <= c < D && g[c] != 0;
    var gc: int := g[c];
    assert SMul(s, g)[c] == R(s as int * gc) && SMul(t, g)[c] == R(t as int * gc);
    hide R;
    RScalar(g[c]); RScalar(0); RScalar(s); RScalar(t);
    assert gc * s as int == s as int * gc && gc * t as int == t as int * gc;
    Cancel(gc, s, t);
  }

  // ── points as sums ─────────────────────────────────────────────────────────

  lemma LinFront(s: Scalar, cs: seq<Scalar>, p: Point, ps: seq<Point>)
    requires |cs| == |ps|
    ensures Lin([s] + cs, [p] + ps) == PAdd(SMul(s, p), Lin(cs, ps))
  {
    hide R, Lin;
    forall c: nat | c < D ensures Lin([s] + cs, [p] + ps)[c] == PAdd(SMul(s, p), Lin(cs, ps))[c] {
      hide Add, Mul;
      LinCoord([s] + cs, [p] + ps, c);
      DotAppend([s], cs, [p], ps, c);
      DotSingle(s, p, c);
      LinCoord(cs, ps, c);
      FrontAt(s, p[c], Dot(cs, ps, c));
    }
  }

  lemma FrontAt(s: Scalar, d: Scalar, e: int)
    ensures Add(Mul(s, d), R(e)) == R(s as int * d as int + e)
  {
    hide R, Mul;
    MulAdd(e, s, d);
    assert Add(Mul(s, d), R(e)) == Add(R(e), Mul(s, d)) by { AddCommutes(Mul(s, d), R(e)); }
  }

  lemma AddCommutes(a: Scalar, b: Scalar)
    ensures Add(a, b) == Add(b, a)
  {}

  lemma PSubPAdd(p: Point, q: Point)
    ensures PAdd(PSub(p, q), q) == p
    ensures PSub(PAdd(p, q), q) == p
  {
    forall c | 0 <= c < D
      ensures Add(Sub(p[c], q[c]), q[c]) == p[c] && Sub(Add(p[c], q[c]), q[c]) == p[c]
    {
      AddSub(p[c], q[c]);
    }
  }

  lemma AddSub(a: Scalar, b: Scalar)
    ensures Add(Sub(a, b), b) == a && Sub(Add(a, b), b) == a && Add(b, Sub(a, b)) == a && Sub(Add(b, a), b) == a
  {
    hide R;
    RScalar(a); RScalar(b);
    ROps(a as int - b as int, b); ROps(b, a as int - b as int); ROps(a as int + b as int, b); ROps(b as int + a as int,
         b);
  }

  lemma PAddCancel(p: Point, p': Point, q: Point)
    requires PAdd(p, q) == PAdd(p', q)
    ensures p == p'
  {
    PSubPAdd(p, q); PSubPAdd(p', q);
  }

  // ── the matching coins ─────────────────────────────────────────────────────

  function MatchingMasks(bits: Scalars, f: Scalars, x: Scalar): Scalars {
    seq(M, k requires 0 <= k < M => Sub(f[k], Mul(bits[k], x)))
  }

  /** The row of rho for a generator other than g: only its constant entry moves. */
  function MatchingRow(secret: Scalar, z: Scalar, x: Scalar, row: Scalars): Scalars {
    [R(secret as int * Pow(x, M) - x as int * Eval(row[1..], x) - z as int)] + row[1..]
  }

  function MatchingRows(secrets: seq<Scalar>, zs: seq<Scalar>, x: Scalar, rho: seq<Scalars>): (r: seq<Scalars>)
    requires |secrets| == |zs| == |rho|
    ensures |r| == |rho|
  {
    seq(|rho|, i requires 0 <= i < |rho| => MatchingRow(secrets[i], zs[i], x, rho[i]))
  }

  /** E_k without its component on g. */
  function RestOfMask(bits: Scalars, a: Scalars, rows: seq<Scalars>, act: seq<Point>, dSet: seq<Point>, k: nat): Point
    requires 0 < |rows| == |act| && |dSet| == N && k < M
  {
    Lin(Column(rows[1..] + LowRows(bits, a), M, k), act[1..] + dSet)
  }

  ghost function MatchingCoins(g: Point, act: seq<Point>, dSet: seq<Point>, bits: Scalars, secrets: seq<Scalar>,
                               msg: Message, x: Scalar, ans: Answers, rho: seq<Scalars>, nonce: Scalar): (c: Coins)
    requires Generates(g) && 0 < |act| == |secrets| == |ans.zs| == |rho| && |dSet| == N
    ensures |c.rho| == |rho| && c.nonce == nonce
  {
    var a := MatchingMasks(bits, ans.f, x);
    var rB := Log(g, PSub(msg.b, Lin(bits, BitGenerators())));
    var rC := Log(g, PSub(msg.c, Lin(CrossTerms(a, bits), BitGenerators())));
    var rows := MatchingRows(secrets, ans.zs, x, rho);
    var first: Scalars := seq(M,
      k requires 0 <= k < M => Log(g, PSub(msg.e[k], RestOfMask(bits, a, rows, act, dSet, k))));
    Coins(a, Sub(ans.zA, Mul(rB, x)), rB, rC, Sub(ans.zC, Mul(rC, x)), [first] + rows[1..], nonce)
  }

  // ── the matching coins reproduce the transcript ────────────────────────────

  lemma MatchingBits(g: Point, act: seq<Point>, dSet: seq<Point>, bits: Scalars, secrets: seq<Scalar>,
                     msg: Message, x: Scalar, ans: Answers, rho: seq<Scalars>, nonce: Scalar)
    requires Generates(g) && 0 < |act| == |secrets| == |ans.zs| == |rho| && |dSet| == N && Binary(bits)
    requires CheckBits(g, msg, x, ans) && CheckBinary(g, msg, x, ans)
    ensures var coins := MatchingCoins(g, act, dSet, bits, secrets, msg, x, ans, rho, nonce);
      var m, r := FirstMessage(g, act, dSet, bits, coins), Respond(bits, secrets, coins, x);
      m.a == msg.a && m.b == msg.b && m.c == msg.c && m.d == msg.d && r.f == ans.f && r.zA == ans.zA && r.zC == ans.zC
  {
    hide R, Lin, PAdd, PSub, SMul, Add, Sub, Mul, Generates, BitGenerators, MatchingRows, MaskedPoint, RestOfMask;
    var coins := MatchingCoins(g, act, dSet, bits, secrets, msg, x, ans, rho, nonce);
    var m, r := FirstMessage(g, act, dSet, bits, coins), Respond(bits, secrets, coins, x);
    forall k | 0 <= k < M ensures r.f[k] == ans.f[k] { AddSub(ans.f[k], Mul(bits[k], x)); }
    assert r.f == ans.f;
    AddSub(ans.zA, Mul(coins.rB, x)); AddSub(ans.zC, Mul(coins.rC, x));
    LinFront(coins.rB, bits, g, BitGenerators());
    PSubPAdd(msg.b, Lin(bits, BitGenerators()));
    LinFront(coins.rC, CrossTerms(coins.a, bits), g, BitGenerators());
    PSubPAdd(msg.c, Lin(CrossTerms(coins.a, bits), BitGenerators()));
    assert m.b == msg.b && m.c == msg.c;
    BitsCheckHolds(g, act, dSet, bits, secrets, coins, x);
    BinaryCheckHolds(g, act, dSet, bits, secrets, coins, x);
    BaseForm(g, ans.zA, PAdd(msg.a, SMul(x, msg.b)), ans.f);
    BaseForm(g, ans.zA, PAdd(m.a, SMul(x, m.b)), ans.f);
    PAddCancel(m.a, msg.a, SMul(x, msg.b));
    BaseForm(g, ans.zC, PAdd(SMul(x, msg.c), msg.d), BitProducts(ans.f, x));
    BaseForm(g, ans.zC, PAdd(SMul(x, m.c), m.d), BitProducts(ans.f, x));
    PAddCommutes(SMul(x, msg.c), msg.d); PAddCommutes(SMul(x, msg.c), m.d);
    PAddCancel(m.d, msg.d, SMul(x, msg.c));
  }

  lemma MaskFront(g: Point, act: seq<Point>, dSet: seq<Point>, bits: Scalars, coins: Coins, k: nat)
    requires 0 < |act| == |coins.rho| && act[0] == g && |dSet| == N && k < M
    ensures MaskedPoint(bits, coins, act, dSet, k)
         == PAdd(SMul(coins.rho[0][k], g), RestOfMask(bits, coins.a, coins.rho, act, dSet, k))
  {
    hide R, Lin, PAdd, SMul, LowRows;
    var rho, lows := coins.rho, LowRows(bits, coins.a);
    ColumnFront(rho, lows, k);
    assert act + dSet == [g] + (act[1..] + dSet) by { FrontOf(act, dSet); }
    hide Column;
    LinFront(rho[0][k], Column(rho[1..] + lows, M, k), g, act[1..] + dSet);
  }

  lemma ColumnFront(rho: seq<Scalars>, lows: seq<seq<Scalar>>, k: nat)
    requires 0 < |rho| && Rectangular(lows, M) && k < M
    ensures Column(rho + lows, M, k) == [rho[0][k]] + Column(rho[1..] + lows, M, k)
  {}

  lemma MatchingMessage(g: Point, act: seq<Point>, dSet: seq<Point>, bits: Scalars, secrets: seq<Scalar>,
                        msg: Message, x: Scalar, ans: Answers, rho: seq<Scalars>, nonce: Scalar)
    requires Generates(g) && 0 < |act| == |secrets| == |ans.zs| == |rho| && |dSet| == N && act[0] == g
    ensures FirstMessage(g, act, dSet, bits, MatchingCoins(g, act, dSet, bits, secrets, msg, x, ans, rho, nonce)).e
      == msg.e
  {
    hide R, Lin, PAdd, PSub, SMul, Add, Sub, Mul, Generates, BitGenerators, MatchingRows, MaskedPoint, RestOfMask;
    var coins := MatchingCoins(g, act, dSet, bits, secrets, msg, x, ans, rho, nonce);
    var m := FirstMessage(g, act, dSet, bits, coins);
    var rows := MatchingRows(secrets, ans.zs, x, rho);
    forall k | 0 <= k < M ensures m.e[k] == msg.e[k] {
      MaskFront(g, act, dSet, bits, coins, k);
      RestIgnoresFirst(bits, coins.a, coins.rho, rows, act, dSet, k);
      PSubPAdd(msg.e[k], RestOfMask(bits, coins.a, rows, act, dSet, k));
    }
    assert m.e == msg.e;
  }

  lemma RestIgnoresFirst(bits: Scalars, a: Scalars, rows: seq<Scalars>, rows': seq<Scalars>, act: seq<Point>,
                         dSet: seq<Point>, k: nat)
    requires 0 < |rows| == |rows'| == |act| && |dSet| == N && k < M && rows[1..] == rows'[1..]
    ensures RestOfMask(bits, a, rows, act, dSet, k) == RestOfMask(bits, a, rows', act, dSet, k)
  {}

  lemma RowAnswer(secret: Scalar, z: Scalar, x: Scalar, row: Scalars)
    ensures R(secret as int * Pow(x, M) - Eval(MatchingRow(secret, z, x, row), x)) == z
  {
    hide R, Pow;
    var s, t := secret as int * Pow(x, M), row[1..];
    var e := x as int * Eval(t, x);
    var next := MatchingRow(secret, z, x, row);
    assert next[1..] == t;
    assert Eval(next, x) == next[0] as int + e;
    CongR(s - e - z as int);
    CongAdd(s - e, s - e, next[0], s - e - z as int);
    RScalar(z);
  }

  /** The answers: all but the first by choice of the rows, the first because both
      transcripts satisfy the membership equation and g has no torsion. */
  lemma MatchingAnswers(g: Point, act: seq<Point>, dSet: seq<Point>, index: nat, secrets: seq<Scalar>,
                        msg: Message, x: Scalar, ans: Answers, rho: seq<Scalars>, nonce: Scalar)
    requires Generates(g) && 0 < |act| == |secrets| == |ans.zs| == |rho| && |dSet| == N && act[0] == g
    requires index < N && Opens(dSet[index], secrets, act) && Accepts(g, act, dSet, msg, x, ans)
    ensures var coins := MatchingCoins(g, act, dSet, BitsOf(index), secrets, msg, x, ans, rho, nonce);
      Respond(BitsOf(index), secrets, coins, x) == ans
      && FirstMessage(g, act, dSet, BitsOf(index), coins) == msg
  {
    hide R, Lin, PAdd, PSub, SMul, Add, Sub, Mul, BitGenerators, MatchingRows, MaskedPoint, RestOfMask, MatchingCoins,
      FirstMessage, Products, Powers, CheckBits, CheckBinary, Opens, Eval, Pow;
    var bits := BitsOf(index);
    var coins := MatchingCoins(g, act, dSet, bits, secrets, msg, x, ans, rho, nonce);
    var m, r := FirstMessage(g, act, dSet, bits, coins), Respond(bits, secrets, coins, x);
    MatchingBits(g, act, dSet, bits, secrets, msg, x, ans, rho, nonce);
    MatchingMessage(g, act, dSet, bits, secrets, msg, x, ans, rho, nonce);
    assert m == msg;
    forall i | 1 <= i < |act| ensures r.zs[i] == ans.zs[i] {
      MatchingRowAt(g, act, dSet, bits, secrets, msg, x, ans, rho, nonce, i);
      RowAnswer(secrets[i], ans.zs[i], x, rho[i]);
    }
    HonestAccepts(g, act, dSet, index, secrets, coins, x);
    SameTail(r.zs, ans.zs);
    FirstAnswerForced(g, act, msg.e, r.zs, ans.zs, Powers(x));
  }

  lemma MatchingRowAt(g: Point, act: seq<Point>, dSet: seq<Point>, bits: Scalars, secrets: seq<Scalar>,
                      msg: Message, x: Scalar, ans: Answers, rho: seq<Scalars>, nonce: Scalar, i: nat)
    requires Generates(g) && 0 < |act| == |secrets| == |ans.zs| == |rho| && |dSet| == N && 1 <= i < |act|
    ensures |MatchingCoins(g, act, dSet, bits, secrets, msg, x, ans, rho, nonce).rho| == |rho|
    ensures MatchingCoins(g, act, dSet, bits, secrets, msg, x, ans, rho, nonce).rho[i]
         == MatchingRow(secrets[i], ans.zs[i], x, rho[i])
  {
    hide Generates, MatchingRow, MatchingCoins;
    MatchingTail(g, act, dSet, bits, secrets, msg, x, ans, rho, nonce);
    var rows := MatchingCoins(g, act, dSet, bits, secrets, msg, x, ans, rho, nonce).rho;
    assert rows[i] == rows[1..][i - 1];
  }

  lemma MatchingTail(g: Point, act: seq<Point>, dSet: seq<Point>, bits: Scalars, secrets: seq<Scalar>,
                     msg: Message, x: Scalar, ans: Answers, rho: seq<Scalars>, nonce: Scalar)
    requires Generates(g) && 0 < |act| == |secrets| == |ans.zs| == |rho| && |dSet| == N
    ensures MatchingCoins(g, act, dSet, bits, secrets, msg, x, ans, rho, nonce).rho[1..]
         == MatchingRows(secrets, ans.zs, x, rho)[1..]
  {
    hide R, Generates, MatchingRows, MatchingMasks, CrossTerms, RestOfMask, Log, PSub, Lin, Sub, Mul, BitGenerators;
  }

  lemma FirstAnswerForced(g: Point, act: seq<Point>, e: seq<Point>, zs: seq<Scalar>, zs': seq<Scalar>, xs: seq<Scalar>)
    requires 0 < |act| == |zs| == |zs'| && |xs| == |e| && act[0] == g && g != Identity()
    requires zs[1..] == zs'[1..]
    requires Lin(zs + xs, act + e) == Lin(zs' + xs, act + e)
    ensures zs == zs'
  {
    hide *;
    var cs, ps := zs[1..] + xs, act[1..] + e;
    FrontOf(zs, xs); FrontOf(zs', xs); FrontOf(act, e);
    LinFront(zs[0], cs, g, ps); LinFront(zs'[0], cs, g, ps);
    PAddCancel(SMul(zs[0], g), SMul(zs'[0], g), Lin(cs, ps));
    LogUnique(g, zs[0], zs'[0]);
    HeadAndTail(zs, zs');
  }

  lemma HeadAndTail<T>(s: seq<T>, t: seq<T>)
    requires |s| == |t| > 0
    ensures s[0] == t[0] && s[1..] == t[1..] ==> s == t
  {
    assert s == [s[0]] + s[1..] && t == [t[0]] + t[1..];
  }

  lemma SameTail<T>(s: seq<T>, t: seq<T>)
    requires |s| == |t| > 0 && forall i :: 1 <= i < |s| ==> s[i] == t[i]
    ensures s[1..] == t[1..]
  {}

  lemma FrontOf<T>(s: seq<T>, t: seq<T>)
    requires s != []
    ensures s + t == [s[0]] + (s[1..] + t)
  {}

  // ── the correspondence is a bijection ──────────────────────────────────────

  /** Coins are determined by their transcript and by the rows of rho past the
      first entry, so matching a transcript with its own coins changes nothing. */
  lemma MatchingIsIdentity(g: Point, act: seq<Point>, dSet: seq<Point>, bits: Scalars, secrets: seq<Scalar>,
                           coins: Coins, x: Scalar)
    requires Generates(g) && 0 < |act| == |secrets| == |coins.rho| && |dSet| == N && act[0] == g
    ensures MatchingCoins(g, act, dSet, bits, secrets, FirstMessage(g, act, dSet, bits, coins), x,
                          Respond(bits, secrets, coins, x), coins.rho, coins.nonce) == coins
  {
    hide R, Lin, PAdd, PSub, SMul, Add, Sub, Mul, BitGenerators, MaskedPoint, RestOfMask, Eval, Pow, MatchingRows,
      Generates;
    var msg, ans := FirstMessage(g, act, dSet, bits, coins), Respond(bits, secrets, coins, x);
    var c := MatchingCoins(g, act, dSet, bits, secrets, msg, x, ans, coins.rho, coins.nonce);
    forall k | 0 <= k < M ensures c.a[k] == coins.a[k] { AddSub(coins.a[k], Mul(bits[k], x)); }
    assert c.a == coins.a;
    SameLog(g, coins.rB, bits, msg.b);
    SameLog(g, coins.rC, CrossTerms(coins.a, bits), msg.c);
    AddSub(coins.rA, Mul(coins.rB, x)); AddSub(coins.rD, Mul(coins.rC, x));
    RowsAreIdentity(bits, secrets, coins, x);
    forall k | 0 <= k < M ensures c.rho[0][k] == coins.rho[0][k] {
      FirstRowIsIdentity(g, act, dSet, bits, coins, k);
    }
    assert c.rho[0] == coins.rho[0];
    assert c.rho == [coins.rho[0]] + coins.rho[1..];
  }

  lemma RowsAreIdentity(bits: Scalars, secrets: seq<Scalar>, coins: Coins, x: Scalar)
    requires |secrets| == |coins.rho|
    ensures MatchingRows(secrets, Respond(bits, secrets, coins, x).zs, x, coins.rho) == coins.rho
  {
    hide R, MatchingRow, Eval, Pow;
    var zs := Respond(bits, secrets, coins, x).zs;
    forall i | 0 <= i < |secrets| ensures MatchingRow(secrets[i], zs[i], x, coins.rho[i]) == coins.rho[i] {
      RowIsIdentity(secrets[i], x, coins.rho[i]);
    }
    assert MatchingRows(secrets, zs, x, coins.rho) == coins.rho;
  }

  lemma FirstRowIsIdentity(g: Point, act: seq<Point>, dSet: seq<Point>, bits: Scalars, coins: Coins, k: nat)
    requires Generates(g) && 0 < |act| == |coins.rho| && |dSet| == N && act[0] == g && k < M
    ensures Log(g, PSub(MaskedPoint(bits, coins, act, dSet, k), RestOfMask(bits, coins.a, coins.rho, act, dSet, k)))
         == coins.rho[0][k]
  {
    hide R, Lin, PAdd, PSub, SMul, MaskedPoint, RestOfMask;
    var p, rest := MaskedPoint(bits, coins, act, dSet, k), RestOfMask(bits, coins.a, coins.rho, act, dSet, k);
    MaskFront(g, act, dSet, bits, coins, k);
    PSubPAdd(SMul(coins.rho[0][k], g), rest);
    LogUnique(g, Log(g, PSub(p, rest)), coins.rho[0][k]);
  }

  lemma SameLog(g: Point, r: Scalar, cs: Scalars, p: Point)
    requires Generates(g) && p == Lin([r] + cs, Base(g))
    ensures Log(g, PSub(p, Lin(cs, BitGenerators()))) == r
  {
    hide R, Lin, PAdd, PSub, SMul, BitGenerators;
    LinFront(r, cs, g, BitGenerators());
    PSubPAdd(SMul(r, g), Lin(cs, BitGenerators()));
    LogUnique(g, Log(g, PSub(p, Lin(cs, BitGenerators()))), r);
  }

  lemma RowIsIdentity(secret: Scalar, x: Scalar, row: Scalars)
    ensures MatchingRow(secret, R(secret as int * Pow(x, M) - Eval(row, x)), x, row) == row
  {
    hide R, Pow;
    var s, e := secret as int * Pow(x, M), x as int * Eval(row[1..], x);
    assert Eval(row, x) == row[0] as int + e;
    var z := R(s - Eval(row, x));
    CongR(s - Eval(row, x));
    CongAdd(s - e, s - e, z, s - Eval(row, x));
    RScalar(row[0]);
    assert row == [row[0]] + row[1..];
  }

  /** Only the rows past their first entry matter to the matching. */
  predicate SameTails(rho: seq<Scalars>, rho': seq<Scalars>) {
    |rho| == |rho'| && forall i :: 1 <= i < |rho| ==> rho[i][1..] == rho'[i][1..]
  }

  lemma MatchingUsesTails(g: Point, act: seq<Point>, dSet: seq<Point>, bits: Scalars, secrets: seq<Scalar>,
                          msg: Message, x: Scalar, ans: Answers, rho: seq<Scalars>, rho': seq<Scalars>, nonce: Scalar)
    requires Generates(g) && 0 < |act| == |secrets| == |ans.zs| == |rho| && |dSet| == N && SameTails(rho, rho')
    ensures MatchingCoins(g, act, dSet, bits, secrets, msg, x, ans, rho, nonce)
         == MatchingCoins(g, act, dSet, bits, secrets, msg, x, ans, rho', nonce)
  {
    hide Generates, PSub, Lin, BitGenerators, RestOfMask;
    var rows, rows' := MatchingRows(secrets, ans.zs, x, rho), MatchingRows(secrets, ans.zs, x, rho');
    assert rows[1..] == rows'[1..];
    var a := MatchingMasks(bits, ans.f, x);
    forall k: nat | k < M ensures RestOfMask(bits, a, rows, act, dSet, k) == RestOfMask(bits, a, rows', act, dSet, k) {
      RestIgnoresFirst(bits, a, rows, rows', act, dSet, k);
    }
    var c, c' := MatchingCoins(g, act, dSet, bits, secrets, msg, x, ans, rho, nonce),
                 MatchingCoins(g, act, dSet, bits, secrets, msg, x, ans, rho', nonce);
    assert c.rho[0] == c'.rho[0];
  }

  /** Coins at index j that reproduce the transcript of coins at index i. */
  ghost function Transport(g: Point, act: seq<Point>, dSet: seq<Point>, i: nat, from: seq<Scalar>, j: nat,
                           to: seq<Scalar>,
                           coins: Coins, x: Scalar): Coins
    requires Generates(g) && 0 < |act| == |from| == |to| == |coins.rho| && |dSet| == N
  {
    MatchingCoins(g, act, dSet, BitsOf(j), to, FirstMessage(g, act, dSet, BitsOf(i), coins), x,
                  Respond(BitsOf(i), from, coins, x), coins.rho, coins.nonce)
  }

  lemma TransportTails(g: Point, act: seq<Point>, dSet: seq<Point>, i: nat, from: seq<Scalar>, j: nat, to: seq<Scalar>,
                       coins: Coins, x: Scalar)
    requires Generates(g) && 0 < |act| == |from| == |to| == |coins.rho| && |dSet| == N
    ensures SameTails(Transport(g, act, dSet, i, from, j, to, coins, x).rho, coins.rho)
    ensures Transport(g, act, dSet, i, from, j, to, coins, x).nonce == coins.nonce
  {
    hide Generates, PSub, Lin, BitGenerators, RestOfMask, FirstMessage;
  }

  /** Perfect index hiding at a challenge: the transported coins give the identical
      transcript at the other index, and transporting back restores the coins. */
  lemma SameTranscript(g: Point, act: seq<Point>, dSet: seq<Point>, i: nat, from: seq<Scalar>, j: nat, to: seq<Scalar>,
                       coins: Coins, x: Scalar)
    requires Generates(g) && 0 < |act| == |coins.rho| && |dSet| == N && act[0] == g && i < N && j < N
    requires Opens(dSet[i], from, act) && Opens(dSet[j], to, act)
    ensures var coins' := Transport(g, act, dSet, i, from, j, to, coins, x);
      && |coins'.rho| == |coins.rho| && coins'.nonce == coins.nonce
      && FirstMessage(g, act, dSet, BitsOf(j), coins') == FirstMessage(g, act, dSet, BitsOf(i), coins)
      && Respond(BitsOf(j), to, coins', x) == Respond(BitsOf(i), from, coins, x)
      && Transport(g, act, dSet, j, to, i, from, coins', x) == coins
  {
    hide MatchingCoins, FirstMessage, Respond, Lin, Generates, Accepts;
    var msg, ans := FirstMessage(g, act, dSet, BitsOf(i), coins), Respond(BitsOf(i), from, coins, x);
    RespondLength(BitsOf(i), from, coins, x);
    HonestAccepts(g, act, dSet, i, from, coins, x);
    MatchingAnswers(g, act, dSet, j, to, msg, x, ans, coins.rho, coins.nonce);
    TransportTails(g, act, dSet, i, from, j, to, coins, x);
    var coins' := Transport(g, act, dSet, i, from, j, to, coins, x);
    MatchingUsesTails(g, act, dSet, BitsOf(i), from, msg, x, ans, coins'.rho, coins.rho, coins.nonce);
    MatchingIsIdentity(g, act, dSet, BitsOf(i), from, coins, x);
  }
}
