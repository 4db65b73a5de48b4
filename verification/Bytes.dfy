/** Bytes and the fixed-width big-endian integers of the wire formats. */
module Bytes {
  type byte = b: int | 0 <= b < 256
  type Bytes32 = b: seq<byte> | |b| == 32 witness seq(32, i => 0)
  type Bytes33 = b: seq<byte> | |b| == 33 witness seq(33, i => 0)

  datatype Option<+T> = None | Some(value: T)

  datatype Result<+T, +E> = Ok(value: T) | Err(error: E)

  function Zeros(n: nat): (b: seq<byte>)
    ensures |b| == n
  {
    seq(n, i => 0)
  }

  function Pow256(w: nat): (r: nat)
    ensures r > 0
  {
    if w == 0 then 1 else 256 * Pow256(w - 1)
  }

  lemma {:induction false} Pow256Add(v: nat, w: nat)
    ensures Pow256(v + w) == Pow256(v) * Pow256(w)
  {
    if v > 0 {
      Pow256Add(v - 1, w);
      Pow256Step(v - 1); Pow256Step(v - 1 + w);
      Associate(256, Pow256(v - 1), Pow256(w));
    }
  }

  lemma Pow256Step(w: nat)
    ensures Pow256(w + 1) == 256 * Pow256(w)
  {}

  lemma Associate(a: int, b: int, c: int)
    ensures a * (b * c) == (a * b) * c
  {}

  /** Equal concatenations whose tails have one length agree piecewise. */
  lemma SplitTail(a: seq<byte>, b: seq<byte>, c: seq<byte>, d: seq<byte>)
    requires a + b == c + d && |b| == |d|
    ensures a == c && b == d
  {
    assert |a| == |c|;
    assert (a + b)[..|a|] == a && (c + d)[..|a|] == c;
    assert (a + b)[|a|..] == b && (c + d)[|a|..] == d;
  }

  /** The w low-order bytes of n; larger values are truncated, as an integer cast does. */
  function EncodeBE(n: nat, w: nat): (r: seq<byte>)
    ensures |r| == w
  {
    if w == 0 then [] else EncodeBE(n / 256, w - 1) + [n % 256]
  }

  function DecodeBE(b: seq<byte>): nat {
    if b == [] then 0 else DecodeBE(b[..|b| - 1]) * 256 + b[|b| - 1]
  }

  lemma {:induction false} DecodeEncode(n: nat, w: nat)
    ensures n < Pow256(w) ==> DecodeBE(EncodeBE(n, w)) == n
    ensures DecodeBE(EncodeBE(n, w)) < Pow256(w)
  {
    if w > 0 {
      DecodeEncode(n / 256, w - 1);
      assert EncodeBE(n, w)[..w - 1] == EncodeBE(n / 256, w - 1);
    }
  }

  lemma {:induction false} EncodeDecode(b: seq<byte>)
    ensures EncodeBE(DecodeBE(b), |b|) == b
    ensures DecodeBE(b) < Pow256(|b|)
  {
    if b != [] {
      EncodeDecode(b[..|b| - 1]);
      assert b == b[..|b| - 1] + [b[|b| - 1]];
    }
  }

  /** Equal concatenations whose heads have one length agree piecewise. */
  lemma SplitHead(a: seq<byte>, b: seq<byte>, c: seq<byte>, d: seq<byte>)
    requires a + b == c + d && |a| == |c|
    ensures a == c && b == d
  {
    assert |b| == |d|;
    SplitTail(a, b, c, d);
  }

  // ── blocks of one width ────────────────────────────────────────────────────

  /** The total length of n blocks of width w. */
  function Span(n: nat, w: nat): nat {
    if n == 0 then 0 else Span(n - 1, w) + w
  }

  lemma {:induction false} SpanMonotone(i: nat, n: nat, w: nat)
    requires i <= n
    ensures Span(i, w) <= Span(n, w)
    ensures i < n ==> Span(i, w) + w <= Span(n, w)
  {
    if i < n { SpanMonotone(i, n - 1, w); }
  }

  predicate Uniform(bs: seq<seq<byte>>, w: nat) {
    forall j :: 0 <= j < |bs| ==> |bs[j]| == w
  }

  /** Concatenation of a list of blocks. */
  function Flatten(bs: seq<seq<byte>>): seq<byte> {
    if bs == [] then [] else Flatten(bs[..|bs| - 1]) + bs[|bs| - 1]
  }

  lemma {:induction false} FlattenLength(bs: seq<seq<byte>>, w: nat)
    requires Uniform(bs, w)
    ensures |Flatten(bs)| == Span(|bs|, w)
  {
    if bs != [] { FlattenLength(bs[..|bs| - 1], w); }
  }

  /** Blocks of one width are recovered from their concatenation. */
  lemma {:induction false} FlattenDetermines(bs: seq<seq<byte>>, cs: seq<seq<byte>>, w: nat)
    requires Uniform(bs, w) && Uniform(cs, w) && w > 0
    requires Flatten(bs) == Flatten(cs)
    ensures bs == cs
  {
    FlattenLength(bs, w); FlattenLength(cs, w);
    if bs != [] && cs != [] {
      var n, m := |bs| - 1, |cs| - 1;
      SplitTail(Flatten(bs[..n]), bs[n], Flatten(cs[..m]), cs[m]);
      FlattenDetermines(bs[..n], cs[..m], w);
      assert bs == bs[..n] + [bs[n]] && cs == cs[..m] + [cs[m]];
    }
  }

  /** The n consecutive blocks of width w found in b from position start on. */
  function Blocks(b: seq<byte>, start: nat, w: nat, n: nat): (r: seq<seq<byte>>)
    requires start + Span(n, w) <= |b|
    ensures |r| == n && Uniform(r, w)
  {
    if n == 0 then [] else
      var at := start + Span(n - 1, w);
      Blocks(b, start, w, n - 1) + [b[at..at + w]]
  }

  lemma {:induction false} FlattenBlocks(b: seq<byte>, start: nat, w: nat, n: nat)
    requires start + Span(n, w) <= |b|
    ensures Flatten(Blocks(b, start, w, n)) == b[start..start + Span(n, w)]
  {
    if n > 0 {
      BlocksStep(b, start, w, n);
      hide *;
      var at := start + Span(n - 1, w);
      FlattenBlocks(b, start, w, n - 1);
      FlattenPush(Blocks(b, start, w, n - 1), b[at..at + w]);
      Adjacent(b, start, at, at + w);
    }
  }

  lemma BlocksStep(b: seq<byte>, start: nat, w: nat, n: nat)
    requires n > 0 && start + Span(n, w) <= |b|
    ensures Span(n, w) == Span(n - 1, w) + w
    ensures var at := start + Span(n - 1, w); Blocks(b, start, w, n) == Blocks(b, start, w, n - 1) + [b[at..at + w]]
  {}

  lemma Adjacent(b: seq<byte>, i: nat, j: nat, k: nat)
    requires i <= j <= k <= |b|
    ensures b[i..j] + b[j..k] == b[i..k]
  {}

  lemma FlattenPush(bs: seq<seq<byte>>, last: seq<byte>)
    ensures Flatten(bs + [last]) == Flatten(bs) + last
  {
    assert (bs + [last])[..|bs|] == bs;
  }

  lemma {:induction false} BlocksFlatten(pre: seq<byte>, bs: seq<seq<byte>>, post: seq<byte>, w: nat)
    requires Uniform(bs, w)
    ensures |Flatten(bs)| == Span(|bs|, w)
    ensures Blocks(pre + Flatten(bs) + post, |pre|, w, |bs|) == bs
  {
    FlattenLength(bs, w);
    if bs != [] {
      var init, last := bs[..|bs| - 1], bs[|bs| - 1];
      var b := pre + Flatten(bs) + post;
      BlocksFlatten(pre, init, last + post, w);
      assert b == pre + Flatten(init) + (last + post);
      var at := |pre| + Span(|init|, w);
      assert b[at..at + w] == last;
      assert Blocks(b, |pre|, w, |bs|) == Blocks(b, |pre|, w, |init|) + [b[at..at + w]];
    }
  }
}
