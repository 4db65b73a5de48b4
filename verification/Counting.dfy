/** Counting what a list of optional entries holds. */
module Counting {
  import opened Bytes

  function One<T>(o: Option<T>): multiset<T> {
    if o.Some? then multiset{o.value} else multiset{}
  }

  lemma OneNone<T>()
    ensures One<T>(None) == multiset{}
  {}

  lemma OneSome<T>(x: T)
    ensures One(Some(x)) == multiset{x}
  {}

  /** Each entry as often as it occurs. */
  function Occurrences<T>(os: seq<Option<T>>): multiset<T> {
    if os == [] then multiset{} else Occurrences(os[..|os| - 1]) + One(os[|os| - 1])
  }

  lemma OccurrencesPush<T>(os: seq<Option<T>>, o: Option<T>)
    ensures Occurrences(os + [o]) == Occurrences(os) + One(o)
  {
    assert (os + [o])[..|os|] == os;
  }

  lemma {:induction false} OccurrencesUpdate<T>(os: seq<Option<T>>, i: nat, o: Option<T>)
    requires i < |os|
    ensures Occurrences(os[i := o]) + One(os[i]) == Occurrences(os) + One(o)
  {
    hide One;
    var n := |os| - 1;
    var after := os[i := o];
    if i == n {
      assert after[..n] == os[..n];
    } else {
      assert after[..n] == os[..n][i := o];
      OccurrencesUpdate(os[..n], i, o);
      AddLast(Occurrences(after[..n]), Occurrences(os[..n]), One(os[i]), One(o), One(os[n]));
    }
  }

  lemma AddLast<T>(a: multiset<T>, b: multiset<T>, x: multiset<T>, y: multiset<T>, l: multiset<T>)
    requires a + x == b + y
    ensures a + l + x == b + l + y
  {
    assert a + l + x == (a + x) + l && b + l + y == (b + y) + l;
  }

  /** Two books that balance, balance together: the second moves t in where the first moves p out. */
  lemma Balance<T>(d': multiset<T>, d: multiset<T>, c': multiset<T>, c: multiset<T>,
                   t: multiset<T>, p: multiset<T>, l: multiset<T>, r: multiset<T>)
    requires d' + t + l == d + p + r && c' + p == c + t
    ensures d' + c' + l == d + c + r
  {
    forall n ensures d'[n] + t[n] + l[n] == d[n] + p[n] + r[n] && c'[n] + p[n] == c[n] + t[n] {
      assert (d' + t + l)[n] == (d + p + r)[n] && (c' + p)[n] == (c + t)[n];
    }
  }
}
