/** The byte encoding of registration proofs (src/core/payment_identity.rs). */
module ProofCodec {
  import opened Bytes
  import opened PaymentIdentity
  import opened Primitives

  // The encoding is four runs of equal blocks: A to D and E; f, z_a and z_c; the
  // Schnorr nonce; the remaining scalars and the responses.

  function HeadSize(): nat { Span(M + 4, 33) }

  function MidSize(): nat { Span(M + 2, 32) }

  function TailStart(): nat { HeadSize() + MidSize() + 33 }

  function BaseSize(): nat { TailStart() + Span(3, 32) }

  function HeadBlocks(p: RegistrationProof): (r: seq<seq<byte>>)
    ensures |r| == M + 4 && Uniform(r, 33)
  {
    [p.a, p.b, p.c, p.d] + p.ePoly
  }

  function MidBlocks(p: RegistrationProof): (r: seq<seq<byte>>)
    ensures |r| == M + 2 && Uniform(r, 32)
  {
    p.f + [p.zA, p.zC]
  }

  function TailBlocks(p: RegistrationProof): (r: seq<seq<byte>>)
    ensures |r| == |p.zResponses| + 3 && Uniform(r, 32)
  {
    [p.schnorrS, p.nullifierScalar, p.nameScalar] + p.zResponses
  }

  function Serialize(p: RegistrationProof): seq<byte> {
    Flatten(HeadBlocks(p)) + Flatten(MidBlocks(p)) + p.schnorrR + Flatten(TailBlocks(p))
  }

  datatype DecodeError = TooShort | RaggedResponses

  function Deserialize(b: seq<byte>): Result<RegistrationProof, DecodeError> {
    if |b| < BaseSize() then Err(TooShort)
    else if (|b| - BaseSize()) % 32 != 0 then Err(RaggedResponses)
    else
      var n := (|b| - BaseSize()) / 32;
      TailFits(b, n);
      Ok(FromBlocks(Blocks(b, 0, 33, M + 4), Blocks(b, HeadSize(), 32, M + 2),
                    b[HeadSize() + MidSize()..TailStart()], Blocks(b, TailStart(), 32, n + 3)))
  }

  function FromBlocks(head: seq<seq<byte>>, mid: seq<seq<byte>>, r: Bytes33, tail: seq<seq<byte>>): RegistrationProof
    requires |head| == M + 4 && Uniform(head, 33) && |mid| == M + 2 && Uniform(mid, 32) && |tail| >= 3
    requires Uniform(tail, 32)
  {
    Proof(head[0], head[1], head[2], head[3], head[4..], mid[..M], mid[M], mid[M + 1], tail[3..], r, tail[0], tail[1],
      tail[2])
  }

  lemma {:induction false} Span32(n: nat)
    ensures Span(n, 32) == 32 * n
  {
    if n > 0 { Span32(n - 1); }
  }

  lemma {:induction false} Span33(n: nat)
    ensures Span(n, 33) == 33 * n
  {
    if n > 0 { Span33(n - 1); }
  }

  lemma TailFits(b: seq<byte>, n: nat)
    requires BaseSize() <= |b| && (|b| - BaseSize()) % 32 == 0 && n == (|b| - BaseSize()) / 32
    ensures TailStart() + Span(n + 3, 32) == |b|
  {
    hide HeadSize, MidSize;
    Span32(n + 3); Span32(3);
  }

  /** PROOF_BASE_SIZE = 4·33 + M·33 + M·32 + 2·32 + 33 + 3·32 */
  lemma BaseSizeValue()
    ensures BaseSize() == 4 * 33 + M * 33 + M * 32 + 2 * 32 + 33 + 3 * 32
  {
    Span33(M + 4); Span32(M + 2); Span32(3);
  }

  lemma BlocksOfProof(p: RegistrationProof)
    ensures FromBlocks(HeadBlocks(p), MidBlocks(p), p.schnorrR, TailBlocks(p)) == p
  {
    assert HeadBlocks(p)[4..] == p.ePoly && MidBlocks(p)[..M] == p.f && TailBlocks(p)[3..] == p.zResponses;
  }

  lemma ProofOfBlocks(head: seq<seq<byte>>, mid: seq<seq<byte>>, r: Bytes33, tail: seq<seq<byte>>)
    requires |head| == M + 4 && Uniform(head, 33) && |mid| == M + 2 && Uniform(mid, 32) && |tail| >= 3
    requires Uniform(tail, 32)
    ensures var p := FromBlocks(head, mid, r, tail);
      HeadBlocks(p) == head && MidBlocks(p) == mid && TailBlocks(p) == tail && p.schnorrR == r
  {
    var p := FromBlocks(head, mid, r, tail);
    assert HeadBlocks(p) == head && MidBlocks(p) == mid && TailBlocks(p) == tail;
  }

  lemma SerializedSize(p: RegistrationProof)
    ensures |Flatten(HeadBlocks(p))| == HeadSize() && |Flatten(MidBlocks(p))| == MidSize()
    ensures |Serialize(p)| == BaseSize() + 32 * |p.zResponses|
  {
    hide HeadBlocks, MidBlocks, TailBlocks;
    FlattenLength(HeadBlocks(p), 33); FlattenLength(MidBlocks(p), 32); FlattenLength(TailBlocks(p), 32);
    Span32(|p.zResponses| + 3); Span32(3);
  }

  /** Reading back what was written, for every number of responses. */
  lemma DeserializeSerialize(p: RegistrationProof)
    ensures Deserialize(Serialize(p)) == Ok(p)
  {
    hide HeadBlocks, MidBlocks, TailBlocks, HeadSize, MidSize, FromBlocks, Flatten, Blocks;
    var b, n := Serialize(p), |p.zResponses|;
    var h, m, r, t := Flatten(HeadBlocks(p)), Flatten(MidBlocks(p)), p.schnorrR, Flatten(TailBlocks(p));
    SerializedSize(p);
    assert (|b| - BaseSize()) % 32 == 0 && (|b| - BaseSize()) / 32 == n;
    TailFits(b, n);
    BlocksFlatten([], HeadBlocks(p), m + r + t, 33);
    assert b == [] + h + (m + r + t);
    BlocksFlatten(h, MidBlocks(p), r + t, 32);
    assert b == h + m + (r + t);
    BlocksFlatten(h + m + r, TailBlocks(p), [], 32);
    assert b == h + m + r + t + [];
    assert b[|h| + |m|..|h| + |m| + 33] == r;
    BlocksOfProof(p);
  }

  /** Writing back what was read, and exactly which byte strings are read. */
  lemma SerializeDeserialize(b: seq<byte>)
    ensures Deserialize(b).Ok? <==> |b| >= BaseSize() && (|b| - BaseSize()) % 32 == 0
    ensures Deserialize(b).Ok? ==> Serialize(Deserialize(b).value) == b
  {
    hide HeadBlocks, MidBlocks, TailBlocks, HeadSize, MidSize, FromBlocks, Flatten, Blocks;
    if Deserialize(b).Ok? {
      var n := (|b| - BaseSize()) / 32;
      TailFits(b, n);
      HeadAndMid(b);
      BlocksReprint(b, HeadSize(), HeadSize() + MidSize(), TailStart(), n);
    }
  }

  /** The blocks cut out of b print to b. */
  lemma BlocksReprint(b: seq<byte>, h: nat, m: nat, t: nat, n: nat)
    requires h == Span(M + 4, 33) && m == h + Span(M + 2, 32) && t == m + 33 && t + Span(n + 3, 32) == |b|
    ensures b == Serialize(
      FromBlocks(Blocks(b, 0, 33, M + 4), Blocks(b, h, 32, M + 2), b[m..t], Blocks(b, t, 32, n + 3)))
  {
    hide HeadBlocks, MidBlocks, TailBlocks, FromBlocks, Flatten, Blocks, Span;
    FlattenBlocks(b, 0, 33, M + 4); FlattenBlocks(b, h, 32, M + 2); FlattenBlocks(b, t, 32, n + 3);
    ProofOfBlocks(Blocks(b, 0, 33, M + 4), Blocks(b, h, 32, M + 2), b[m..t], Blocks(b, t, 32, n + 3));
    FourPieces(b, h, m, t);
  }

  lemma FourPieces(b: seq<byte>, h: nat, m: nat, t: nat)
    requires h <= m <= t <= |b|
    ensures b[0..h] + b[h..m] + b[m..t] + b[t..|b|] == b
  {}

  lemma HeadAndMid(b: seq<byte>)
    ensures HeadSize() == Span(M + 4, 33) && HeadSize() + MidSize() == HeadSize() + Span(M + 2, 32)
  {}

  // ── the loops ──────────────────────────────────────────────────────────────

  /** buf.extend_from_slice for each block in turn. */
  method ExtendAll(start: seq<byte>, blocks: seq<seq<byte>>) returns (buf: seq<byte>)
    ensures buf == start + Flatten(blocks)
  {
    buf := start;
    for i := 0 to |blocks|
      invariant buf == start + Flatten(blocks[..i])
    {
      assert blocks[..i + 1][..i] == blocks[..i];
      buf := buf + blocks[i];
    }
    assert blocks[..|blocks|] == blocks;
  }

  method SerializeProof(p: RegistrationProof) returns (buf: seq<byte>)
    ensures buf == Serialize(p)
  {
    hide Flatten;
    buf := ExtendAll([], HeadBlocks(p));
    buf := ExtendAll(buf, MidBlocks(p));
    buf := buf + p.schnorrR;
    buf := ExtendAll(buf, TailBlocks(p));
  }

  /** The n slices of width w from start on, in order. */
  method ReadBlocks(b: seq<byte>, start: nat, w: nat, n: nat) returns (r: seq<seq<byte>>)
    requires start + Span(n, w) <= |b|
    ensures r == Blocks(b, start, w, n)
  {
    r := [];
    var at := start;
    for k := 0 to n
      invariant at == start + Span(k, w) && start + Span(k, w) <= |b|
      invariant r == Blocks(b, start, w, k)
    {
      SpanMonotone(k, n, w);
      SpanMonotone(k + 1, n, w);
      r := r + [b[at..at + w]];
      at := at + w;
    }
  }

  method DeserializeProof(b: seq<byte>) returns (r: Result<RegistrationProof, DecodeError>)
    ensures r == Deserialize(b)
  {
    hide HeadSize, MidSize, FromBlocks, Blocks;
    if |b| < BaseSize() { return Err(TooShort); }
    if (|b| - BaseSize()) % 32 != 0 { return Err(RaggedResponses); }
    var n := (|b| - BaseSize()) / 32;
    TailFits(b, n);
    HeadAndMid(b);
    var head := ReadBlocks(b, 0, 33, M + 4);
    var mid := ReadBlocks(b, HeadSize(), 32, M + 2);
    var tail := ReadBlocks(b, TailStart(), 32, n + 3);
    r := Ok(FromBlocks(head, mid, b[HeadSize() + MidSize()..TailStart()], tail));
  }
}
