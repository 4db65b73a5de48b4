/** The CRS a merchant or beneficiary builds for itself (src/client.rs). */
module Client {
  import opened Bytes
  import opened Credential
  import opened Crs
  import opened Group
  import opened Merkle
  import opened Primitives

  datatype MerchantState = MerchantState(merchant: Merchant, crs: Option<Crs>, anonymitySet: Option<seq<Bytes33>>)

  function MerchantsOf(states: seq<MerchantState>): (r: seq<Merchant>)
    ensures |r| == |states|
  {
    seq(|states|, i requires 0 <= i < |states| => states[i].merchant)
  }

  /** Puts m behind everything that does not have a larger id. */
  function InsertById(m: Merchant, ms: seq<Merchant>): seq<Merchant> {
    if ms == [] || ms[|ms| - 1].merchantId <= m.merchantId then ms + [m]
    else InsertById(m, ms[..|ms| - 1]) + [ms[|ms| - 1]]
  }

  /** The stable sort by id. */
  function SortById(ms: seq<Merchant>): seq<Merchant> {
    if ms == [] then [] else InsertById(ms[|ms| - 1], SortById(ms[..|ms| - 1]))
  }

  function BuildCrs(states: seq<MerchantState>, setSize: nat): Crs {
    Setup(SortById(MerchantsOf(states)), setSize)
  }

  // ── the sort ───────────────────────────────────────────────────────────────

  ghost predicate Sorted(ms: seq<Merchant>) {
    forall i, j :: 0 <= i < j < |ms| ==> ms[i].merchantId <= ms[j].merchantId
  }

  function WithId(ms: seq<Merchant>, id: nat): seq<Merchant> {
    if ms == [] then [] else
      WithId(ms[..|ms| - 1], id) + if ms[|ms| - 1].merchantId == id then [ms[|ms| - 1]] else []
  }

  lemma {:induction false} InsertKeeps(m: Merchant, ms: seq<Merchant>)
    ensures multiset(InsertById(m, ms)) == multiset(ms) + multiset{m}
  {
    if ms != [] && ms[|ms| - 1].merchantId > m.merchantId {
      InsertKeeps(m, ms[..|ms| - 1]);
      assert ms == ms[..|ms| - 1] + [ms[|ms| - 1]];
    }
  }

  lemma SortedPush(ms: seq<Merchant>, m: Merchant)
    requires Sorted(ms) && (ms == [] || ms[|ms| - 1].merchantId <= m.merchantId)
    ensures Sorted(ms + [m])
  {
    forall i | 0 <= i < |ms| ensures ms[i].merchantId <= m.merchantId {
      if i < |ms| - 1 { assert ms[i].merchantId <= ms[|ms| - 1].merchantId; }
    }
  }

  lemma {:induction false} InsertSorts(m: Merchant, ms: seq<Merchant>)
    requires Sorted(ms)
    ensures Sorted(InsertById(m, ms))
  {
    if ms == [] || ms[|ms| - 1].merchantId <= m.merchantId {
      SortedPush(ms, m);
    } else {
      var init, last := ms[..|ms| - 1], ms[|ms| - 1];
      InsertSorts(m, init);
      SortedPush(InsertById(m, init), last);
    }
  }

  lemma {:induction false} InsertStable(m: Merchant, ms: seq<Merchant>, id: nat)
    requires Sorted(ms)
    ensures WithId(InsertById(m, ms), id) == WithId(ms, id) + if m.merchantId == id then [m] else []
  {
    if ms == [] || ms[|ms| - 1].merchantId <= m.merchantId {
      assert (ms + [m])[..|ms|] == ms;
    } else {
      var init, last := ms[..|ms| - 1], ms[|ms| - 1];
      InsertStable(m, init, id);
      assert (InsertById(m, init) + [last])[..|InsertById(m, init)|] == InsertById(m, init);
    }
  }

  /** Sorting permutes, sorts, and keeps the order of equal ids. */
  lemma {:induction false} SortCorrect(ms: seq<Merchant>)
    ensures multiset(SortById(ms)) == multiset(ms) && Sorted(SortById(ms))
    ensures forall id :: WithId(SortById(ms), id) == WithId(ms, id)
  {
    if ms != [] {
      var init, last := ms[..|ms| - 1], ms[|ms| - 1];
      assert ms == init + [last];
      SortCorrect(init);
      InsertKeeps(last, SortById(init));
      InsertSorts(last, SortById(init));
      forall id ensures WithId(SortById(ms), id) == WithId(ms, id) { InsertStable(last, SortById(init), id); }
    }
  }

  // ── order independence ─────────────────────────────────────────────────────

  /** As the registry numbers them. */
  predicate Positions(ms: seq<Merchant>) {
    forall i :: 0 <= i < |ms| ==> ms[i].merchantId == i + 1
  }

  lemma SameSize(a: seq<Merchant>, b: seq<Merchant>)
    requires multiset(a) == multiset(b)
    ensures |a| == |b|
  {
    assert |multiset(a)| == |a| && |multiset(b)| == |b|;
  }

  /** The largest id comes last in both. */
  lemma SameLast(s: seq<Merchant>, ms: seq<Merchant>)
    requires multiset(s) == multiset(ms) && Sorted(s) && Positions(ms) && |s| == |ms| > 0
    ensures s[|s| - 1] == ms[|ms| - 1]
  {
    var n := |ms| - 1;
    assert ms[n] in multiset(s) && s[n] in multiset(ms);
    var i :| 0 <= i <= n && ms[i] == s[n];
    var j :| 0 <= j <= n && s[j] == ms[n];
  }

  lemma SameRest(s: seq<Merchant>, ms: seq<Merchant>)
    requires multiset(s) == multiset(ms) && |s| == |ms| > 0 && s[|s| - 1] == ms[|ms| - 1]
    ensures multiset(s[..|s| - 1]) == multiset(ms[..|ms| - 1])
  {
    var n := |ms| - 1;
    assert s == s[..n] + [s[n]] && ms == ms[..n] + [ms[n]];
    assert multiset(s[..n]) == multiset(s) - multiset{s[n]};
  }

  lemma {:induction false} SortedIsPositions(s: seq<Merchant>, ms: seq<Merchant>)
    requires multiset(s) == multiset(ms) && Sorted(s) && Positions(ms)
    ensures s == ms
  {
    SameSize(s, ms);
    if ms != [] {
      var n := |ms| - 1;
      SameLast(s, ms);
      SameRest(s, ms);
      SortedIsPositions(s[..n], ms[..n]);
      assert s == s[..n] + [s[n]] && ms == ms[..n] + [ms[n]];
    }
  }

  /** In whatever order the registered merchants are listed, the CRS built from them is
      the one the registry sets up. */
  lemma BuildCrsIgnoresOrder(states: seq<MerchantState>, ms: seq<Merchant>, setSize: nat)
    requires multiset(MerchantsOf(states)) == multiset(ms) && Positions(ms)
    ensures BuildCrs(states, setSize) == Setup(ms, setSize)
  {
    SortCorrect(MerchantsOf(states));
    SortedIsPositions(SortById(MerchantsOf(states)), ms);
  }

  /** So a credential created under the local CRS, whatever size it was built for, was
      made under the registry's. */
  lemma CreatedUnderLocalCrs(states: seq<MerchantState>, ms: seq<Merchant>, localSize: nat, setSize: nat,
                             sk: Bytes32, r: Bytes32, k: Bytes32, friendlyName: seq<byte>)
    requires multiset(MerchantsOf(states)) == multiset(ms) && Positions(ms)
    ensures MadeUnder(Create(BuildCrs(states, localSize), sk, r, k, friendlyName), Setup(ms, setSize))
  {
    hide SMul, PAdd, Lin, ScalarFromBytes, PointToBytes, DeriveNullifier, ToScalars;
    BuildCrsIgnoresOrder(states, ms, localSize);
    CreatedUnder(Setup(ms, localSize), sk, r, k, friendlyName);
    assert Names(Setup(ms, localSize)) == Names(Setup(ms, setSize));
  }

  // ── all of the registered merchants ────────────────────────────────────────

  lemma {:induction false} EachOnce<T>(xs: seq<T>, x: T)
    requires NoDuplicates(xs)
    ensures multiset(xs)[x] == if x in xs then 1 else 0
  {
    if xs != [] {
      var n := |xs| - 1;
      EachOnce(xs[..n], x);
      assert xs == xs[..n] + [xs[n]];
      assert xs[n] !in xs[..n];
    }
  }

  lemma SameElements<T>(xs: seq<T>, ys: seq<T>)
    requires NoDuplicates(xs) && NoDuplicates(ys) && forall x :: x in xs <==> x in ys
    ensures multiset(xs) == multiset(ys)
  {
    forall x ensures multiset(xs)[x] == multiset(ys)[x] {
      EachOnce(xs, x); EachOnce(ys, x);
    }
  }

  /** Merchants under their own ids, none twice and none missing, are all of them. */
  lemma AnsweredAreSealed(ms: seq<Merchant>, sealed: seq<Merchant>)
    requires Positions(sealed)
    requires forall i :: 0 <= i < |ms| ==> 1 <= ms[i].merchantId <= |sealed| && ms[i] == sealed[ms[i].merchantId - 1]
    requires forall i, j :: 0 <= i < j < |ms| ==> ms[i].merchantId != ms[j].merchantId
    requires forall m :: m in sealed ==> m in ms
    ensures multiset(ms) == multiset(sealed)
  {
    SameElements(ms, sealed);
  }
}
