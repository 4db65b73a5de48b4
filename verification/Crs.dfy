/** The common reference string and the master identity commitment (src/core/crs.rs). */
module Crs {
  import opened Bytes
  import opened Field
  import opened Group
  import opened Primitives

  datatype Merchant = Merchant(name: seq<byte>, credentialGenerator: Bytes33, origin: seq<byte>, merchantId: nat)

  datatype RawCrs = RawCrs(
    securityParam: nat, g: Point, hName: Point, generators: seq<Point>, merchants: seq<Merchant>, setSize: nat)

  /** One generator for each merchant. */
  type Crs = c: RawCrs | |c.generators| == |c.merchants|
    witness RawCrs(128, Identity(), Identity(), [], [], 0)

  function Generators(n: nat): (hs: seq<Point>)
    ensures |hs| == n
  {
    seq(n, i requires 0 <= i < n => HashLabel(Generator(i + 1)))
  }

  function Setup(merchants: seq<Merchant>, setSize: nat): Crs {
    RawCrs(128, HashLabel(Generator(0)), HashLabel(NameGenerator), Generators(|merchants|), merchants, setSize)
  }

  // ── where the generators come from ─────────────────────────────────────────

  /** Every generator a proof under this CRS uses: g, h_1 … h_L, h_name, H_0 … H_{M-1}. */
  function AllGenerators(crs: Crs): (r: seq<Point>)
    ensures |r| == |crs.generators| + 2 + M
  {
    [crs.g] + crs.generators + [crs.hName] + BitGenerators()
  }

  /** Their labels. */
  function LabelAt(n: nat, i: nat): Label {
    if i <= n then Generator(i) else if i == n + 1 then NameGenerator else BitGenerator(i - n - 2)
  }

  /** Of a CRS set up for any merchants each generator is hashed from a label of its own. */
  lemma GeneratorAt(merchants: seq<Merchant>, setSize: nat, i: nat)
    requires i < |merchants| + 2 + M
    ensures AllGenerators(Setup(merchants, setSize))[i] == HASH_TO_CURVE(Tag(LabelAt(|merchants|, i)))
  {
    hide Tag;
  }

  /** No two generators coincide unless two different strings hash to one point: equal
      entries exhibit the pair. */
  lemma EqualGeneratorsCollide(merchants: seq<Merchant>, setSize: nat, i: nat, j: nat)
    requires i < j < |merchants| + 2 + M
    requires AllGenerators(Setup(merchants, setSize))[i] == AllGenerators(Setup(merchants, setSize))[j]
    ensures var a, b := Tag(LabelAt(|merchants|, i)), Tag(LabelAt(|merchants|, j));
      a != b && HASH_TO_CURVE(a) == HASH_TO_CURVE(b)
  {
    hide Tag;
    GeneratorAt(merchants, setSize, i); GeneratorAt(merchants, setSize, j);
    if Tag(LabelAt(|merchants|, i)) == Tag(LabelAt(|merchants|, j)) {
      TagBinds(LabelAt(|merchants|, i), LabelAt(|merchants|, j));
      assert false;
    }
  }

  function Names(crs: Crs): (r: seq<seq<byte>>)
    ensures |r| == |crs.merchants|
  {
    seq(|crs.merchants|, i requires 0 <= i < |crs.merchants| => crs.merchants[i].name)
  }

  function ToScalars(bs: seq<Bytes32>): (r: seq<Scalar>)
    ensures |r| == |bs|
  {
    seq(|bs|, i requires 0 <= i < |bs| => ScalarFromBytes(bs[i]))
  }

  /** The generators of a master identity: g, h_1 … h_L, h_name. */
  function IdentityGenerators(crs: Crs): (r: seq<Point>)
    ensures |r| == |crs.generators| + 2
  {
    [crs.g] + crs.generators + [crs.hName]
  }

  /** k·g + Σ s_l·h_l + name·h_name */
  function MasterPoint(crs: Crs, k: Scalar, ss: seq<Scalar>, name: Scalar): Point
    requires |ss| == |crs.generators|
  {
    Lin([k] + ss + [name], IdentityGenerators(crs))
  }

  /** The scalars committed to, in the order of the generators. */
  function CommittedScalars(nullifiers: seq<Bytes32>, blinding: Bytes32, nameScalar: Bytes32): (r: seq<Scalar>)
    ensures |r| == |nullifiers| + 2
  {
    [ScalarFromBytes(blinding)] + ToScalars(nullifiers) + [ScalarFromBytes(nameScalar)]
  }

  function Commitment(crs: Crs, nullifiers: seq<Bytes32>, blinding: Bytes32, nameScalar: Bytes32): Option<Bytes33> {
    if |nullifiers| != |crs.generators| then None
    else Some(PointToBytes(
      MasterPoint(crs, ScalarFromBytes(blinding), ToScalars(nullifiers), ScalarFromBytes(nameScalar))))
  }

  lemma CommitmentDef(crs: Crs, nullifiers: seq<Bytes32>, blinding: Bytes32, nameScalar: Bytes32)
    requires |nullifiers| == |crs.generators|
    ensures Commitment(crs, nullifiers, blinding, nameScalar)
         == Some(PointToBytes(Lin(CommittedScalars(nullifiers, blinding, nameScalar), IdentityGenerators(crs))))
  {}

  /** The first n terms of the commitment. */
  ghost function Terms(crs: Crs, nullifiers: seq<Bytes32>, blinding: Bytes32, nameScalar: Bytes32, n: nat): Point
    requires |nullifiers| == |crs.generators| && n <= |nullifiers| + 2
  {
    Lin(CommittedScalars(nullifiers, blinding, nameScalar)[..n], IdentityGenerators(crs)[..n])
  }

  lemma FirstTerm(crs: Crs, nullifiers: seq<Bytes32>, blinding: Bytes32, nameScalar: Bytes32)
    requires |nullifiers| == |crs.generators|
    ensures Terms(crs, nullifiers, blinding, nameScalar, 1) == SMul(ScalarFromBytes(blinding), crs.g)
  {
    hide ScalarFromBytes, Lin, SMul, PAdd, Identity, ToScalars;
    LinPush(CommittedScalars(nullifiers, blinding, nameScalar), IdentityGenerators(crs), 0);
    LinEmpty(); IdentityPlus(SMul(ScalarFromBytes(blinding), crs.g));
  }

  lemma NextTerm(crs: Crs, nullifiers: seq<Bytes32>, blinding: Bytes32, nameScalar: Bytes32, i: nat)
    requires |nullifiers| == |crs.generators| && i < |nullifiers|
    ensures Terms(crs, nullifiers, blinding, nameScalar, i + 2)
      == PAdd(Terms(crs, nullifiers, blinding, nameScalar, i + 1),
              SMul(ScalarFromBytes(nullifiers[i]), crs.generators[i]))
  {
    hide ScalarFromBytes, Lin, SMul, PAdd;
    LinPush(CommittedScalars(nullifiers, blinding, nameScalar), IdentityGenerators(crs), i + 1);
  }

  lemma LastTerm(crs: Crs, nullifiers: seq<Bytes32>, blinding: Bytes32, nameScalar: Bytes32)
    requires |nullifiers| == |crs.generators|
    ensures Commitment(crs, nullifiers, blinding, nameScalar) == Some(PointToBytes(PAdd(
      Terms(crs, nullifiers, blinding, nameScalar, |nullifiers| + 1), SMul(ScalarFromBytes(nameScalar), crs.hName))))
  {
    hide ScalarFromBytes, Lin, SMul, PAdd, ToScalars, PointToBytes;
    var all, gens, n := CommittedScalars(nullifiers, blinding, nameScalar), IdentityGenerators(crs), |nullifiers|;
    LinPush(all, gens, n + 1);
    assert all[..n + 2] == all && gens[..n + 2] == gens;
    CommitmentDef(crs, nullifiers, blinding, nameScalar);
  }

  method CommitMasterIdentity(crs: Crs, nullifiers: seq<Bytes32>, blinding: Bytes32, nameScalar: Bytes32)
    returns (r: Result<Bytes33, string>)
    ensures r.Ok? <==> |nullifiers| == |crs.generators|
    ensures r.Ok? ==> Commitment(crs, nullifiers, blinding, nameScalar) == Some(r.value)
  {
    if |nullifiers| != |crs.generators| {
      return Err("nullifier count must equal number of service merchants");
    }
    hide *;
    var point := SMul(ScalarFromBytes(blinding), crs.g);
    FirstTerm(crs, nullifiers, blinding, nameScalar);
    for i := 0 to |nullifiers|
      invariant point == Terms(crs, nullifiers, blinding, nameScalar, i + 1)
    {
      NextTerm(crs, nullifiers, blinding, nameScalar, i);
      point := PAdd(point, SMul(ScalarFromBytes(nullifiers[i]), crs.generators[i]));
    }
    LastTerm(crs, nullifiers, blinding, nameScalar);
    point := PAdd(point, SMul(ScalarFromBytes(nameScalar), crs.hName));
    r := Ok(PointToBytes(point));
  }
}
