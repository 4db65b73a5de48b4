/** Binary digits of set indices. */
module Bits {
  function Exp2(n: nat): (r: nat)
    ensures r > 0
  {
    if n == 0 then 1 else 2 * Exp2(n - 1)
  }

  /** (j >> k) & 1 */
  function Bit(j: nat, k: nat): (b: nat)
    ensures b == 0 || b == 1
  {
    if k == 0 then j % 2 else Bit(j / 2, k - 1)
  }

  /** The number with the given binary digits, least significant first. */
  function FromBits(bs: seq<nat>): nat {
    if bs == [] then 0 else bs[0] + 2 * FromBits(bs[1..])
  }

  lemma {:induction false} BitsRoundTrip(bs: seq<nat>)
    requires forall k :: 0 <= k < |bs| ==> bs[k] == 0 || bs[k] == 1
    ensures FromBits(bs) < Exp2(|bs|)
    ensures forall k :: 0 <= k < |bs| ==> Bit(FromBits(bs), k) == bs[k]
  {
    if bs != [] {
      var rest := bs[1..];
      BitsRoundTrip(rest);
      assert FromBits(bs) / 2 == FromBits(rest);
      forall k | 0 <= k < |bs| ensures Bit(FromBits(bs), k) == bs[k] {
        if k > 0 { assert bs[k] == rest[k - 1]; }
      }
    }
  }

  /** Two indices of n bits that agree on every bit are equal. */
  lemma {:induction false} BitsDetermine(i: nat, j: nat, n: nat)
    requires i < Exp2(n) && j < Exp2(n)
    requires forall k: nat :: k < n ==> Bit(i, k) == Bit(j, k)
    ensures i == j
  {
    if n > 0 {
      assert Bit(i, 0) == Bit(j, 0);
      forall k: nat | k < n - 1 ensures Bit(i / 2, k) == Bit(j / 2, k) {
        assert Bit(i, k + 1) == Bit(j, k + 1);
      }
      BitsDetermine(i / 2, j / 2, n - 1);
    }
  }
}
