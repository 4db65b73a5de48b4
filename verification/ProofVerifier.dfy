/** The verifier's loops, proved to decide PaymentIdentity.Verify. */
module RegistrationVerifier {
  import opened Bits
  import opened Bytes
  import opened Crs
  import opened Field
  import opened Group
  import opened OneOfMany
  import opened PaymentIdentity
  import opened Polynomials
  import opened Primitives

  /** rhs -= H_k·c_k, for each bit. */
  method SubtractAll(start: Point, cs: Scalars) returns (rhs: Point)
    ensures rhs == PSub(start, Lin(cs, BitGenerators()))
  {
    hide *;
    var hk := BitGenerators();
    rhs := start;
    LinEmpty(); MinusIdentity(start);
    for k := 0 to M
      invariant rhs == PSub(start, Lin(cs[..k], hk[..k]))
    {
      LinPush(cs, hk, k);
      MinusTwice(start, Lin(cs[..k], hk[..k]), SMul(cs[k], hk[k]));
      rhs := PSub(rhs, SMul(cs[k], hk[k]));
    }
    assert cs[..M] == cs && hk[..M] == hk;
  }

  lemma MinusIdentity(p: Point)
    ensures PSub(p, Identity()) == p
  {
    forall i | 0 <= i < D ensures Sub(p[i], 0) == p[i] { RScalar(p[i]); }
  }

  lemma MinusTwice(p: Point, q: Point, r: Point)
    ensures PSub(PSub(p, q), r) == PSub(p, PAdd(q, r))
  {
    hide R, Add, Sub;
    forall i | 0 <= i < D ensures Sub(Sub(p[i], q[i]), r[i]) == Sub(p[i], Add(q[i], r[i])) {
      SubTwice(p[i], q[i], r[i]);
    }
  }

  lemma SubTwice(a: Scalar, b: Scalar, c: Scalar)
    ensures Sub(Sub(a, b), c) == Sub(a, Add(b, c))
  {
    hide R;
    RScalar(a); RScalar(c);
    ROps(a as int - b as int, c);
    ROps(a, b as int + c as int);
  }

  /** p_j(x): f_k where j has bit k, x - f_k elsewhere. */
  method SelectorProduct(j: nat, f: Scalars, x: Scalar) returns (pj: Scalar)
    ensures pj == Product(j, f, x, M)
  {
    hide R, Mul, Sub;
    pj := 1;
    for k := 0 to M
      invariant pj == Product(j, f, x, k)
    {
      if Bit(j, k) == 1 {
        pj := Mul(pj, f[k]);
      } else {
        pj := Mul(pj, Sub(x, f[k]));
      }
    }
  }

  /** Σ p_j(x)·D_j */
  method MemberSum(dSet: seq<Point>, f: Scalars, x: Scalar) returns (lhs: Point)
    requires |dSet| == N
    ensures lhs == Lin(Products(f, x), dSet)
  {
    hide PAdd, SMul, Lin, Product, Identity;
    ghost var ps := Products(f, x);
    lhs := Identity();
    LinEmpty();
    for j := 0 to N
      invariant lhs == Lin(ps[..j], dSet[..j])
    {
      var pj := SelectorProduct(j, f, x);
      LinPush(ps, dSet, j);
      lhs := PAdd(lhs, SMul(pj, dSet[j]));
    }
    assert ps[..N] == ps && dSet[..N] == dSet;
  }

  /** z_g·g + Σ z_m·h_m + z_name·h_name, the responses consumed in order. */
  method ResponseSum(crs: Crs, l: nat, zs: seq<Scalar>) returns (rhs: Point)
    requires ValidService(crs, l) && |zs| == |crs.merchants| + 1
    ensures rhs == Lin(zs, ActiveGenerators(crs, l))
  {
    hide PAdd, SMul, Lin, Identity, R;
    ghost var act := ActiveGenerators(crs, l);
    LinEmpty(); LinPush(zs, act, 0);
    rhs := PAdd(Identity(), SMul(zs[0], crs.g));
    var respIdx := 1;
    for m := 1 to |crs.merchants| + 1
      invariant respIdx == if m <= l then m else m - 1
      invariant rhs == Lin(zs[..respIdx], act[..respIdx])
    {
      if m != l {
        LinPush(zs, act, respIdx);
        assert act[respIdx] == crs.generators[m - 1];
        rhs := PAdd(rhs, SMul(zs[respIdx], crs.generators[m - 1]));
        respIdx := respIdx + 1;
      }
    }
    LinPush(zs, act, respIdx);
    rhs := PAdd(rhs, SMul(zs[respIdx], crs.hName));
    assert zs[..respIdx + 1] == zs && act[..respIdx + 1] == act;
  }

  /** … + Σ x^k·E_k */
  method AddPowers(start: Point, ghost zs: seq<Scalar>, ghost act: seq<Point>, e: Points, x: Scalar)
    returns (rhs: Point)
    requires |zs| == |act| && start == Lin(zs, act)
    ensures rhs == Lin(zs + Powers(x), act + e)
  {
    hide PAdd, SMul, Lin, R;
    ghost var cs, ps, n := zs + Powers(x), act + e, |zs|;
    assert cs[..n] == zs && ps[..n] == act;
    rhs := start;
    var xPow: Scalar := 1;
    RScalar(1); RScalar(x);
    for k := 0 to M
      invariant xPow == R(Pow(x, k))
      invariant rhs == Lin(cs[..n + k], ps[..n + k])
    {
      LinPush(cs, ps, n + k);
      rhs := PAdd(rhs, SMul(xPow, e[k]));
      ROps(Pow(x, k), x);
      xPow := Mul(xPow, x);
    }
    assert cs[..n + M] == cs && ps[..n + M] == ps;
  }

  /** Decodes e_poly, stopping at the first undecodable entry. */
  method DecodeAll(bs: seq<Bytes33>) returns (r: Option<seq<Point>>)
    ensures r == DecodePoints(bs)
  {
    var ps: seq<Point> := [];
    for k := 0 to |bs|
      invariant |ps| == k && forall i :: 0 <= i < k ==> PointFromBytes(bs[i]) == Some(ps[i])
    {
      match PointFromBytes(bs[k])
      case None => return None;
      case Some(p) => ps := ps + [p];
    }
    assert ps == DecodePoints(bs).value;
    r := Some(ps);
  }

  method VerifyPaymentIdentityRegistrationProof(
    crs: Crs, members: seq<Bytes33>, l: nat, setId: Bytes32, pseudonym: Bytes33, nullifier: Bytes33,
    proof: RegistrationProof)
    returns (ok: bool)
    ensures ok == Verify(crs, members, l, setId, pseudonym, nullifier, proof)
  {
    hide Lin, R, PAdd, PSub, SMul, Products, Powers, BitProducts, ActiveGenerators, ScalarFromBytes, ShiftedSet,
      Challenge,
      SchnorrAccepts, BitGenerators, DecodePoints;
    if |members| != N { return false; }
    if l < 1 || l > |crs.merchants| { return false; }
    if |proof.zResponses| != |crs.merchants| + 1 { return false; }
    var sl := ScalarFromBytes(proof.nullifierScalar);
    var dSet := ShiftedSet(members, SMul(sl, crs.generators[l - 1]));
    var capA, capB := PointFromBytes(proof.a), PointFromBytes(proof.b);
    var capC, capD := PointFromBytes(proof.c), PointFromBytes(proof.d);
    if capA.None? || capB.None? || capC.None? || capD.None? { return false; }
    var capE := DecodeAll(proof.ePoly);
    if capE.None? { return false; }
    var ans := DecodeAnswers(proof);
    var msg := Message(capA.value, capB.value, capC.value, capD.value, capE.value);
    var x := FiatShamirChallenge(StatementFor(crs, l, setId, pseudonym, nullifier, proof.nameScalar), dSet,
                                 msg.a, msg.b, msg.c, msg.d, msg.e);
    var rhs1 := SubtractAll(PAdd(msg.a, SMul(x, msg.b)), ans.f);
    if SMul(ans.zA, crs.g) != rhs1 { return false; }
    var rhs2 := SubtractAll(PAdd(SMul(x, msg.c), msg.d), BitProducts(ans.f, x));
    if SMul(ans.zC, crs.g) != rhs2 { return false; }
    var lhs3 := MemberSum(dSet, ans.f, x);
    var rhs3 := ResponseSum(crs, l, ans.zs);
    rhs3 := AddPowers(rhs3, ans.zs, ActiveGenerators(crs, l), msg.e, x);
    if lhs3 != rhs3 { return false; }
    if PointToBytes(SMul(sl, crs.g)) != nullifier { return false; }
    ok := SchnorrAccepts(crs.g, nullifier, proof.schnorrR, proof.schnorrS);
  }
}
