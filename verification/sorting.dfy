/** std::sort, directory enumeration, and what is certain about their results. */
module Sorting {

  ghost predicate TotalPreorder<T(!new)>(leq: (T, T) -> bool) {
    && (forall x, y :: leq(x, y) || leq(y, x))
    && (forall x, y, z :: leq(x, y) && leq(y, z) ==> leq(x, z))
  }

  ghost predicate SortedBy<T>(s: seq<T>, leq: (T, T) -> bool) {
    forall i, j :: 0 <= i < j < |s| ==> leq(s[i], s[j])
  }

  /** std::sort, which promises no order among elements that compare alike. */
  method Sort<T(!new)>(s: seq<T>, leq: (T, T) -> bool) returns (r: seq<T>)
    requires TotalPreorder(leq)
    ensures SortedBy(r, leq) && multiset(r) == multiset(s)
  {
    r := [];
    for i := 0 to |s|
      invariant SortedBy(r, leq) && multiset(r) == multiset(s[..i])
    {
      var k: nat := |r|;
      while k > 0 && !leq(r[k - 1], s[i])
        invariant k <= |r|
        invariant forall j :: k <= j < |r| ==> leq(s[i], r[j])
      {
        k := k - 1;
      }
      Inserted(r, k, s[i], leq);
      InsertedElements(r, k, s[i]);
      assert s[..i + 1] == s[..i] + [s[i]];
      r := r[..k] + [s[i]] + r[k..];
    }
    assert s[..|s|] == s;
  }

  lemma InsertedElements<T>(r: seq<T>, k: nat, x: T)
    requires k <= |r|
    ensures multiset(r[..k] + [x] + r[k..]) == multiset(r) + multiset{x}
  {
    assert r == r[..k] + r[k..];
  }

  lemma Inserted<T(!new)>(r: seq<T>, k: nat, x: T, leq: (T, T) -> bool)
    requires TotalPreorder(leq) && SortedBy(r, leq) && k <= |r|
    requires k > 0 ==> leq(r[k - 1], x)
    requires forall j :: k <= j < |r| ==> leq(x, r[j])
    ensures SortedBy(r[..k] + [x] + r[k..], leq)
  {
  }

  predicate IntLeq(x: int, y: int) { x <= y }

  lemma IntLeqIsTotal()
    ensures TotalPreorder(IntLeq)
  {
  }

  ghost predicate Distinct<T>(s: seq<T>) {
    forall i, j :: 0 <= i < j < |s| ==> s[i] != s[j]
  }

  /** A directory iterator: every name once, in any order. */
  method Enumerate(names: set<string>) returns (order: seq<string>)
    ensures Distinct(order) && forall n :: n in order <==> n in names
  {
    var left := names;
    order := [];
    while left != {}
      invariant left <= names
      invariant forall i :: 0 <= i < |order| ==> order[i] in names && order[i] !in left
      invariant forall n :: n in names && n !in left ==> n in order
      invariant Distinct(order)
      decreases left
    {
      var name :| name in left;
      left := left - {name};
      order := order + [name];
    }
  }

  /** The elements of `keys` once each, ascending. */
  ghost predicate IsListing(r: seq<int>, keys: set<int>) {
    && (forall i, j :: 0 <= i < j < |r| ==> r[i] < r[j])
    && (forall k :: k in r <==> k in keys)
  }

  /** There is one such list. */
  lemma {:induction false} ListingUnique(a: seq<int>, b: seq<int>, keys: set<int>)
    requires IsListing(a, keys) && IsListing(b, keys)
    ensures a == b
    decreases |a|
  {
    NoneToList(a, keys);
    NoneToList(b, keys);
    if keys != {} {
      var n, m := |a| - 1, |b| - 1;
      LastIsGreatest(a, keys, b[m]);
      LastIsGreatest(b, keys, a[n]);
      DropLast(a, keys);
      DropLast(b, keys);
      hide *;
      ListingUnique(a[..n], b[..m], keys - {a[n]});
      assert a == a[..n] + [a[n]] && b == b[..m] + [b[m]];
    }
  }

  lemma NoneToList(a: seq<int>, keys: set<int>)
    requires IsListing(a, keys)
    ensures a == [] <==> keys == {}
  {
    assert a != [] ==> a[0] in a;
    assert forall k :: k in keys ==> k in a;
  }

  lemma LastIsGreatest(a: seq<int>, keys: set<int>, x: int)
    requires IsListing(a, keys) && a != []
    ensures a[|a| - 1] in keys && (x in keys ==> x <= a[|a| - 1])
  {
    assert a[|a| - 1] in a;
  }

  lemma DropLast(a: seq<int>, keys: set<int>)
    requires IsListing(a, keys) && a != []
    ensures IsListing(a[..|a| - 1], keys - {a[|a| - 1]})
  {
    var n := |a| - 1;
    assert a == a[..n] + [a[n]];
    assert a[n] !in a[..n];
  }

  /** A permutation keeps the elements, and keeps them distinct. */
  lemma DistinctPermutation<T>(r: seq<T>, s: seq<T>)
    requires multiset(r) == multiset(s) && Distinct(s)
    ensures Distinct(r) && forall x :: x in r <==> x in s
  {
    forall x ensures x in r <==> x in s {
      assert x in r <==> x in multiset(r);
      assert x in s <==> x in multiset(s);
    }
    DistinctHasOneEach(s);
    forall i, j | 0 <= i < j < |r| ensures r[i] != r[j] {
      assert r[i] in s;
      if r[i] == r[j] {
        TwiceInMultiset(r, i, j);
      }
    }
  }

  /** Sorting distinct ints lists them. */
  lemma SortedDistinctIsListing(r: seq<int>, s: seq<int>)
    requires SortedBy(r, IntLeq) && multiset(r) == multiset(s) && Distinct(s)
    ensures IsListing(r, set x | x in s)
  {
    DistinctPermutation(r, s);
  }

  /** An ascending list within 1..n that lacks one of these numbers is shorter than n. */
  lemma {:induction false} AscendingMisses(r: seq<int>, n: nat, c: int)
    requires forall i, j :: 0 <= i < j < |r| ==> r[i] < r[j]
    requires forall i :: 0 <= i < |r| ==> 1 <= r[i] <= n
    requires c !in r
    ensures |r| <= n && (1 <= c <= n ==> |r| < n)
    decreases |r|
  {
    if r != [] {
      var m := |r| - 1;
      assert r[m] in r;
      AscendingMisses(r[..m], r[m] - 1, c);
    }
  }

  lemma {:induction false} DistinctHasOneEach<T>(s: seq<T>)
    requires Distinct(s)
    ensures forall x :: x in s ==> multiset(s)[x] == 1
    decreases |s|
  {
    if s != [] {
      var n := |s| - 1;
      DistinctHasOneEach(s[..n]);
      assert s == s[..n] + [s[n]];
      forall x | x in s ensures multiset(s)[x] == 1 {
        if x == s[n] {
          assert x !in s[..n];
          assert multiset(s[..n])[x] == 0;
        }
      }
    }
  }

  lemma TwiceInMultiset<T>(r: seq<T>, i: nat, j: nat)
    requires i < j < |r| && r[i] == r[j]
    ensures multiset(r)[r[i]] >= 2
  {
    assert r == r[..j] + r[j..];
    assert r[i] == r[..j][i] && r[i] in r[..j] && r[j] == r[j..][0] && r[j] in r[j..];
    assert multiset(r[..j])[r[i]] >= 1 && multiset(r[j..])[r[i]] >= 1;
  }
}
