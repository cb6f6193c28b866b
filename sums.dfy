/** Sums of map values along a list of keys, and sizes of finite sets. */
module Sums {

  predicate Distinct(s: seq<int>)
  {
    forall i, j :: 0 <= i < j < |s| ==> s[i] != s[j]
  }

  /** Sum of `m`'s values at the keys listed in `keys`. */
  function SumSeq(m: map<int, nat>, keys: seq<int>): nat
    requires forall k :: k in keys ==> k in m
    decreases |keys|
  {
    if |keys| == 0 then 0
    else
      var last := keys[|keys| - 1];
      assert last in keys;
      SumSeq(m, keys[..|keys| - 1]) + m[last]
  }

  lemma SumSeqAppend(m: map<int, nat>, keys: seq<int>, k: int)
    requires forall j :: j in keys ==> j in m
    requires k in m
    ensures SumSeq(m, keys + [k]) == SumSeq(m, keys) + m[k]
  {
    assert (keys + [k])[..|keys|] == keys;
  }

  /** The sum only depends on the values at the listed keys. */
  lemma {:induction false} SumSeqAgree(m1: map<int, nat>, m2: map<int, nat>, keys: seq<int>)
    requires forall k :: k in keys ==> k in m1 && k in m2 && m1[k] == m2[k]
    ensures SumSeq(m1, keys) == SumSeq(m2, keys)
    decreases |keys|
  {
    if |keys| > 0 {
      assert keys[|keys| - 1] in keys;
      SumSeqAgree(m1, m2, keys[..|keys| - 1]);
    }
  }

  /** Raising the value at a key listed once raises the sum by the same amount. */
  lemma {:induction false} SumSeqBump(m1: map<int, nat>, m2: map<int, nat>, keys: seq<int>, u: int)
    requires Distinct(keys) && u in keys
    requires forall k :: k in keys ==> k in m1 && k in m2
    requires forall k :: k in keys && k != u ==> m1[k] == m2[k]
    requires m2[u] == m1[u] + 1
    ensures SumSeq(m2, keys) == SumSeq(m1, keys) + 1
    decreases |keys|
  {
    var front := keys[..|keys| - 1];
    assert Distinct(front);
    if keys[|keys| - 1] == u {
      assert u !in front;
      SumSeqAgree(m1, m2, front);
    } else {
      SumSeqBump(m1, m2, front, u);
    }
  }

  /** A set drawn from the elements of `s` has at most as many members as `s` has distinct ones. */
  lemma {:induction false} SubsetOfSeqCardinality(a: set<string>, s: seq<string>)
    requires forall x :: x in a ==> x in s
    ensures |a| <= |set x | x in s| <= |s|
    decreases |s|
  {
    if |s| == 0 {
      assert a == {};
    } else {
      var rest := s[1..];
      var whole := set x | x in s;
      var tail := set x | x in rest;
      assert whole == tail + {s[0]};
      SubsetOfSeqCardinality(a - {s[0]}, rest);
      if s[0] in tail {
        SubsetOfSeqCardinality(a, rest);
      }
    }
  }
}
