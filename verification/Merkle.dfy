/** The Merkle root anchoring an anonymity set (src/core/registry.rs). */
module Merkle {
  import opened Bits
  import opened Bytes
  import opened Primitives

  function NodeHash(l: Bytes32, r: Bytes32): Bytes32 { SHA256(l + r) }

  function LeafHashes(cs: seq<Bytes33>): (r: seq<Bytes32>)
    ensures |r| == |cs|
  {
    seq(|cs|, i requires 0 <= i < |cs| => SHA256(cs[i]))
  }

  // ── padding ────────────────────────────────────────────────────────────────

  /** The height of the smallest complete tree with room for n leaves. */
  function Height(n: nat): (k: nat)
    requires n > 0
    ensures n <= Exp2(k) && (k > 0 ==> Exp2(k - 1) < n)
  {
    if n == 1 then 0 else Height((n + 1) / 2) + 1
  }

  function PadTo<T>(xs: seq<T>, n: nat): (r: seq<T>)
    requires xs != []
    ensures |xs| <= n ==> |r| == n
    ensures forall i :: 0 <= i < |r| ==> r[i] == if i < |xs| then xs[i] else xs[|xs| - 1]
    decreases n - |xs|
  {
    if |xs| >= n then xs else PadTo(xs + [xs[|xs| - 1]], n)
  }

  /** A loop that repeats the last element until there are n. */
  method PadWithLast<T>(xs: seq<T>, n: nat) returns (r: seq<T>)
    requires xs != []
    ensures r == PadTo(xs, n)
  {
    r := xs;
    while |r| < n
      invariant r != [] && PadTo(r, n) == PadTo(xs, n)
    {
      r := r + [r[|r| - 1]];
    }
  }

  function Padded(cs: seq<Bytes33>): (r: seq<Bytes33>)
    requires cs != []
    ensures |r| == Exp2(Height(|cs|))
  {
    PadTo(cs, Exp2(Height(|cs|)))
  }

  // ── the root, by halves and level by level ─────────────────────────────────

  /** The root of a complete tree of height k over these hashes. */
  function TreeRoot(hs: seq<Bytes32>, k: nat): Bytes32
    requires |hs| == Exp2(k)
  {
    if k == 0 then hs[0] else
      NodeHash(TreeRoot(hs[..Exp2(k - 1)], k - 1), TreeRoot(hs[Exp2(k - 1)..], k - 1))
  }

  /** One level up: each pair of neighbours hashed together. */
  function LevelUp(hs: seq<Bytes32>): (r: seq<Bytes32>)
    ensures |r| == |hs| / 2
    ensures forall i :: 0 <= i < |r| ==> r[i] == NodeHash(hs[2 * i], hs[2 * i + 1])
  {
    seq(|hs| / 2, i requires 0 <= i < |hs| / 2 => NodeHash(hs[2 * i], hs[2 * i + 1]))
  }

  lemma LevelUpSlice(hs: seq<Bytes32>, g: nat, n: nat)
    requires 2 * (g + n) <= |hs|
    ensures LevelUp(hs)[g..g + n] == LevelUp(hs[2 * g..2 * (g + n)])
  {
    hide NodeHash;
    var part := hs[2 * g..2 * (g + n)];
    forall i | 0 <= i < n ensures LevelUp(hs)[g + i] == LevelUp(part)[i] {
      assert part[2 * i] == hs[2 * (g + i)] && part[2 * i + 1] == hs[2 * (g + i) + 1];
    }
  }

  lemma LevelUpSplits(hs: seq<Bytes32>, g: nat)
    requires |hs| == 4 * g
    ensures LevelUp(hs)[..g] == LevelUp(hs[..2 * g]) && LevelUp(hs)[g..] == LevelUp(hs[2 * g..])
  {
    LevelUpSlice(hs, 0, g);
    LevelUpSlice(hs, g, g);
    hide LevelUp;
    assert hs[..2 * g] == hs[0..2 * (0 + g)] && hs[2 * g..] == hs[2 * g..2 * (g + g)];
    assert LevelUp(hs)[..g] == LevelUp(hs)[0..0 + g] && LevelUp(hs)[g..] == LevelUp(hs)[g..g + g];
  }

  /** Hashing pairs bottom-up gives the same root as splitting top-down. */
  lemma {:induction false} LevelUpKeepsRoot(hs: seq<Bytes32>, k: nat)
    requires k > 0 && |hs| == Exp2(k)
    ensures |LevelUp(hs)| == Exp2(k - 1) && TreeRoot(LevelUp(hs), k - 1) == TreeRoot(hs, k)
  {
    hide NodeHash, LevelUp;
    var h := Exp2(k - 1);
    if k == 1 {
      TwoLeaves(hs);
    } else {
      LevelUpKeepsRoot(hs[..h], k - 1);
      LevelUpKeepsRoot(hs[h..], k - 1);
      LevelUpSplits(hs, Exp2(k - 2));
    }
  }

  lemma TwoLeaves(hs: seq<Bytes32>)
    requires |hs| == 2
    ensures |LevelUp(hs)| == 1 && TreeRoot(LevelUp(hs), 0) == TreeRoot(hs, 1)
  {
    assert Exp2(0) == 1 && Exp2(1) == 2;
  }

  function MerkleRoot(cs: seq<Bytes33>): Bytes32
    requires cs != []
  {
    TreeRoot(LeafHashes(Padded(cs)), Height(|cs|))
  }

  /** Hashes each chunk of two. */
  method HashPairs(level: seq<Bytes32>) returns (next: seq<Bytes32>)
    ensures next == LevelUp(level)
  {
    hide NodeHash;
    next := [];
    for i := 0 to |level| / 2
      invariant |next| == i && forall j :: 0 <= j < i ==> next[j] == NodeHash(level[2 * j], level[2 * j + 1])
    {
      next := next + [NodeHash(level[2 * i], level[2 * i + 1])];
    }
  }

  /** Pads the leaves, then rewrites the level until one hash is left. */
  method ComputeRoot(cs: seq<Bytes33>) returns (root: Bytes32)
    requires cs != []
    ensures root == MerkleRoot(cs)
  {
    hide NodeHash, LevelUp, Height;
    var k := Height(|cs|);
    var level := PadWithLast(LeafHashes(cs), Exp2(k));
    assert level == LeafHashes(Padded(cs)) by { PadLeaves(cs, Exp2(k)); }
    hide LeafHashes, Padded, PadTo;
    while |level| > 1
      invariant |level| == Exp2(k)
      invariant TreeRoot(level, k) == MerkleRoot(cs)
      decreases k
    {
      LevelUpKeepsRoot(level, k);
      level := HashPairs(level);
      k := k - 1;
    }
    OneLeaf(k);
    root := level[0];
  }

  lemma PadLeaves(cs: seq<Bytes33>, n: nat)
    requires cs != [] && |cs| <= n
    ensures PadTo(LeafHashes(cs), n) == LeafHashes(PadTo(cs, n))
  {
    hide SHA256;
  }

  lemma {:induction false} OneLeaf(k: nat)
    ensures Exp2(k) <= 1 ==> k == 0
  {
    if k > 0 { assert Exp2(k - 1) >= 1; }
  }

  // ── binding, with an explicit reduction ────────────────────────────────────

  function CommitmentRoot(cs: seq<Bytes33>, k: nat): Bytes32
    requires |cs| == Exp2(k)
    decreases k, 1
  {
    if k == 0 then SHA256(cs[0]) else SHA256(NodeInput(cs, k))
  }

  /** What the root node hashes. */
  function NodeInput(cs: seq<Bytes33>, k: nat): (r: seq<byte>)
    requires k > 0 && |cs| == Exp2(k)
    ensures |r| == 64
    decreases k, 0
  {
    CommitmentRoot(cs[..Exp2(k - 1)], k - 1) + CommitmentRoot(cs[Exp2(k - 1)..], k - 1)
  }

  function RootInput(cs: seq<Bytes33>, k: nat): seq<byte>
    requires |cs| == Exp2(k)
  {
    if k == 0 then cs[0] else NodeInput(cs, k)
  }

  lemma {:induction false} RootsAgree(cs: seq<Bytes33>, k: nat)
    requires |cs| == Exp2(k)
    ensures TreeRoot(LeafHashes(cs), k) == CommitmentRoot(cs, k)
  {
    if k > 0 {
      var h := Exp2(k - 1);
      RootsAgree(cs[..h], k - 1);
      RootsAgree(cs[h..], k - 1);
      assert LeafHashes(cs)[..h] == LeafHashes(cs[..h]) && LeafHashes(cs)[h..] == LeafHashes(cs[h..]);
    }
  }

  /** Walks two trees from their roots to the first pair of hash inputs that differ. */
  function FindCollision(xs: seq<Bytes33>, k: nat, ys: seq<Bytes33>, m: nat): Option<(seq<byte>, seq<byte>)>
    requires |xs| == Exp2(k) && |ys| == Exp2(m)
    decreases k
  {
    var a, b := RootInput(xs, k), RootInput(ys, m);
    if a != b then Some((a, b))
    else if k == 0 || m == 0 then None
    else
      var left := FindCollision(xs[..Exp2(k - 1)], k - 1, ys[..Exp2(m - 1)], m - 1);
      if left.Some? then left else FindCollision(xs[Exp2(k - 1)..], k - 1, ys[Exp2(m - 1)..], m - 1)
  }

  /** Equal roots: either the walk finds two distinct inputs with one hash, or the
      trees have one height and the same leaves. Leaves hash 33 bytes and nodes 64,
      so trees of different heights always give a collision. */
  lemma {:induction false} EqualRoots(xs: seq<Bytes33>, k: nat, ys: seq<Bytes33>, m: nat)
    requires |xs| == Exp2(k) && |ys| == Exp2(m) && CommitmentRoot(xs, k) == CommitmentRoot(ys, m)
    ensures match FindCollision(xs, k, ys, m)
      case Some((a, b)) => a != b && SHA256(a) == SHA256(b)
      case None => k == m && xs == ys
    decreases k
  {
    hide CommitmentRoot, NodeInput;
    var a, b := RootInput(xs, k), RootInput(ys, m);
    RootHashes(xs, k); RootHashes(ys, m);
    if a == b && k > 0 && m > 0 {
      var h, g := Exp2(k - 1), Exp2(m - 1);
      NodeInputSplits(xs, k, ys, m);
      EqualRoots(xs[..h], k - 1, ys[..g], m - 1);
      EqualRoots(xs[h..], k - 1, ys[g..], m - 1);
      assert xs == xs[..h] + xs[h..] && ys == ys[..g] + ys[g..];
    }
  }

  lemma RootHashes(xs: seq<Bytes33>, k: nat)
    requires |xs| == Exp2(k)
    ensures CommitmentRoot(xs, k) == SHA256(RootInput(xs, k))
  {}

  lemma NodeInputSplits(xs: seq<Bytes33>, k: nat, ys: seq<Bytes33>, m: nat)
    requires k > 0 && m > 0 && |xs| == Exp2(k) && |ys| == Exp2(m) && NodeInput(xs, k) == NodeInput(ys, m)
    ensures var h, g := Exp2(k - 1), Exp2(m - 1);
      && CommitmentRoot(xs[..h], k - 1) == CommitmentRoot(ys[..g], m - 1)
      && CommitmentRoot(xs[h..], k - 1) == CommitmentRoot(ys[g..], m - 1)
  {
    hide CommitmentRoot;
    var h, g := Exp2(k - 1), Exp2(m - 1);
    SplitHead(CommitmentRoot(xs[..h], k - 1), CommitmentRoot(xs[h..], k - 1),
              CommitmentRoot(ys[..g], m - 1), CommitmentRoot(ys[g..], m - 1));
  }

  ghost predicate NoDuplicates<T>(xs: seq<T>) {
    forall i, j :: 0 <= i < j < |xs| ==> xs[i] != xs[j]
  }

  /** The collision exhibited by two lists with one root. */
  function RootCollision(xs: seq<Bytes33>, ys: seq<Bytes33>): Option<(seq<byte>, seq<byte>)>
    requires xs != [] && ys != []
  {
    FindCollision(Padded(xs), Height(|xs|), Padded(ys), Height(|ys|))
  }

  /** Binding: two non-empty lists with one root have equal padded lists, and equal
      lists if neither repeats an entry, or a concrete SHA-256 collision is produced. */
  lemma RootBinds(xs: seq<Bytes33>, ys: seq<Bytes33>)
    requires xs != [] && ys != [] && MerkleRoot(xs) == MerkleRoot(ys)
    ensures match RootCollision(xs, ys)
      case Some((a, b)) => a != b && SHA256(a) == SHA256(b)
      case None => Padded(xs) == Padded(ys) && (NoDuplicates(xs) && NoDuplicates(ys) ==> xs == ys)
  {
    RootsAgree(Padded(xs), Height(|xs|));
    RootsAgree(Padded(ys), Height(|ys|));
    EqualRoots(Padded(xs), Height(|xs|), Padded(ys), Height(|ys|));
    if Padded(xs) == Padded(ys) && NoDuplicates(xs) && NoDuplicates(ys) {
      hide Padded;
      PaddingDetermines(xs, ys, Exp2(Height(|xs|)));
    }
  }

  lemma PaddingDetermines<T>(xs: seq<T>, ys: seq<T>, n: nat)
    requires xs != [] && ys != [] && |xs| <= n && |ys| <= n && PadTo(xs, n) == PadTo(ys, n)
    requires NoDuplicates(xs) && NoDuplicates(ys)
    ensures xs == ys
  {
    hide PadTo;
    NoShorter(xs, ys, n); NoShorter(ys, xs, n);
    forall i | 0 <= i < |xs| ensures xs[i] == ys[i] {
      PadAt(xs, n, i); PadAt(ys, n, i);
    }
  }

  lemma PadAt<T>(xs: seq<T>, n: nat, i: nat)
    requires xs != [] && |xs| <= n && i < n
    ensures |PadTo(xs, n)| == n && PadTo(xs, n)[i] == if i < |xs| then xs[i] else xs[|xs| - 1]
  {}

  /** A list that repeats nothing is not longer than one with the same padding. */
  lemma NoShorter<T>(xs: seq<T>, ys: seq<T>, n: nat)
    requires xs != [] && ys != [] && |xs| <= n && |ys| <= n && PadTo(xs, n) == PadTo(ys, n) && NoDuplicates(ys)
    ensures |ys| <= |xs|
  {
    hide PadTo;
    var m, last: nat := |xs|, |xs| - 1;
    if m < |ys| {
      PadAt(xs, n, m); PadAt(xs, n, last);
      PadAt(ys, n, m); PadAt(ys, n, last);
    }
  }
}
