/** Option, the model of std::optional and of a null pointer result, and a few
    regroupings of sequences that proofs call by name. */
module Wrappers {
  datatype Option<+T> = None | Some(value: T)

  lemma Regroup<T>(a: seq<T>, n: nat, b: seq<T>)
    requires n <= |a|
    ensures a + b == a[..n] + (a[n..] + b)
  {
  }

  lemma MoveFirst<T>(a: seq<T>, b: seq<T>)
    requires b != []
    ensures (a + [b[0]]) + b[1..] == a + b
  {
  }

  lemma Associate<T>(a: seq<T>, b: seq<T>, c: seq<T>)
    ensures (a + b) + c == a + (b + c)
  {
  }

  lemma TrimEnds<T>(s: seq<T>, n: nat)
    requires 1 <= n < |s|
    ensures s[..n + 1][1..n] == s[1..][..n - 1]
  {
  }

  lemma Pick<T>(s: set<T>) returns (x: T)
    requires s != {}
    ensures x in s
  {
    x :| x in s;
  }

  /** `r` are the values found, in order and one each; `at` is where they were found. */
  ghost predicate Picks<T>(found: seq<Option<T>>, r: seq<T>, at: seq<nat>) {
    && |r| == |at|
    && (forall k :: 0 <= k < |at| ==> at[k] < |found| && found[at[k]] == Some(r[k]))
    && (forall j, k :: 0 <= j < k < |at| ==> at[j] < at[k])
    && (forall i: nat :: i < |found| && found[i].Some? ==> i in at)
  }

  lemma PickNothing<T>()
    ensures Picks<T>([], [], [])
  {
  }

  lemma PickOneMore<T>(found: seq<Option<T>>, r: seq<T>, at: seq<nat>, x: Option<T>)
    requires Picks(found, r, at)
    ensures x == None ==> Picks(found + [x], r, at)
    ensures x.Some? ==> Picks(found + [x], r + [x.value], at + [|found|])
  {
    if x == None {
      SkipLast(found, r, at);
    } else {
      PickLast(found, r, at, x.value);
    }
  }

  lemma SkipLast<T>(found: seq<Option<T>>, r: seq<T>, at: seq<nat>)
    requires Picks(found, r, at)
    ensures Picks(found + [None], r, at)
  {
    assert forall i :: 0 <= i < |found| ==> (found + [None])[i] == found[i];
  }

  lemma PickLast<T>(found: seq<Option<T>>, r: seq<T>, at: seq<nat>, x: T)
    requires Picks(found, r, at)
    ensures Picks(found + [Some(x)], r + [x], at + [|found|])
  {
    var all, at' := found + [Some(x)], at + [|found|];
    assert forall i :: 0 <= i < |found| ==> all[i] == found[i];
    assert forall k :: 0 <= k < |at| ==> at'[k] == at[k];
    assert at'[|at|] == |found|;
    forall i: nat | i < |all| && all[i].Some? ensures i in at' {
      if i < |found| {
        assert i in at;
      }
    }
  }
}
