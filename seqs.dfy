/** The Swift collection operations the app state is built from: `firstIndex(where:)` and `filter`. */
module Seqs {

  /** `firstIndex(where: p)`, with -1 for `nil`. */
  function FirstIndex<T>(s: seq<T>, p: T -> bool): (i: int)
    ensures -1 <= i < |s|
    ensures i >= 0 ==> p(s[i]) && forall j :: 0 <= j < i ==> !p(s[j])
    ensures i < 0 ==> forall j :: 0 <= j < |s| ==> !p(s[j])
    decreases |s|
  {
    if s == [] then -1
    else if p(s[0]) then 0
    else
      var k := FirstIndex(s[1..], p);
      if k < 0 then -1 else k + 1
  }

  /** `filter(p)`; `removeAll(where: q)` is the filter of its negation. */
  function Filter<T>(s: seq<T>, p: T -> bool): (r: seq<T>)
    ensures |r| <= |s|
    decreases |s|
  {
    if s == [] then []
    else if p(s[|s| - 1]) then Filter(s[..|s| - 1], p) + [s[|s| - 1]]
    else Filter(s[..|s| - 1], p)
  }

  /** The concatenation of `f(x)` for the elements `x` of `s`, in order. */
  function Flatten<T, U>(s: seq<T>, f: T -> seq<U>): seq<U>
    decreases |s|
  {
    if s == [] then [] else Flatten(s[..|s| - 1], f) + f(s[|s| - 1])
  }

  /** An element is in the concatenation exactly when it is in one of the pieces. */
  lemma {:induction false} FlattenMembers<T, U>(s: seq<T>, f: T -> seq<U>, u: U)
    ensures u in Flatten(s, f) <==> exists k :: 0 <= k < |s| && u in f(s[k])
    decreases |s|
  {
    if s != [] {
      var init := s[..|s| - 1];
      FlattenMembers(init, f, u);
      assert forall k :: 0 <= k < |init| ==> init[k] == s[k];
      if u in Flatten(s, f) && u !in Flatten(init, f) {
        assert u in f(s[|s| - 1]);
      }
    }
  }

  /** The filter keeps exactly the elements satisfying `p`. */
  lemma {:induction false} FilterMembers<T>(s: seq<T>, p: T -> bool)
    ensures forall x :: x in Filter(s, p) ==> x in s && p(x)
    ensures forall x :: x in s && p(x) ==> x in Filter(s, p)
    decreases |s|
  {
    if s != [] {
      var init := s[..|s| - 1];
      FilterMembers(init, p);
      assert s == init + [s[|s| - 1]];
    }
  }

  /** Filtering a sequence whose elements all satisfy `p` changes nothing. */
  lemma {:induction false} FilterAll<T>(s: seq<T>, p: T -> bool)
    requires forall i :: 0 <= i < |s| ==> p(s[i])
    ensures Filter(s, p) == s
    decreases |s|
  {
    if s != [] {
      var init := s[..|s| - 1];
      assert forall i :: 0 <= i < |init| ==> init[i] == s[i];
      FilterAll(init, p);
      assert s == init + [s[|s| - 1]];
    }
  }

  /** Filtering keeps the kept elements in their order: every pair of them appears in `s` in that order. */
  lemma {:induction false} FilterKeepsOrder<T>(s: seq<T>, p: T -> bool, i: nat, j: nat)
    requires i < j < |Filter(s, p)|
    ensures exists a, b :: 0 <= a < b < |s| && s[a] == Filter(s, p)[i] && s[b] == Filter(s, p)[j]
    decreases |s|
  {
    var init := s[..|s| - 1];
    var r := Filter(s, p);
    var r0 := Filter(init, p);
    if j < |r0| {
      assert r[i] == r0[i] && r[j] == r0[j];
      FilterKeepsOrder(init, p, i, j);
      var a, b :| 0 <= a < b < |init| && init[a] == r0[i] && init[b] == r0[j];
      assert s[a] == init[a] && s[b] == init[b];
    } else {
      assert r[j] == s[|s| - 1] && r[i] == r0[i];
      FilterMembers(init, p);
      assert r0[i] in r0;
      assert r0[i] in init;
      var a :| 0 <= a < |init| && init[a] == r0[i];
      assert s[a] == init[a];
    }
  }

  /** No two elements of `s` share a key. */
  predicate DistinctBy<T, K(==)>(s: seq<T>, key: T -> K) {
    forall i, j :: 0 <= i < j < |s| ==> key(s[i]) != key(s[j])
  }

  /** Keys that are pairwise distinct in `s` stay pairwise distinct after filtering. */
  lemma {:induction false} FilterKeepsDistinct<T, K>(s: seq<T>, p: T -> bool, key: T -> K)
    requires DistinctBy(s, key)
    ensures DistinctBy(Filter(s, p), key)
    decreases |s|
  {
    if s != [] {
      var init := s[..|s| - 1];
      var last := s[|s| - 1];
      assert forall i :: 0 <= i < |init| ==> init[i] == s[i];
      FilterKeepsDistinct(init, p, key);
      FilterMembers(init, p);
      var r0 := Filter(init, p);
      if p(last) {
        var r := r0 + [last];
        forall i, j | 0 <= i < j < |r|
          ensures key(r[i]) != key(r[j])
        {
          if j == |r0| {
            assert r[i] == r0[i] && r0[i] in r0;
            assert r0[i] in init;
            var a :| 0 <= a < |init| && init[a] == r0[i];
            assert key(s[a]) != key(s[|s| - 1]);
          } else {
            assert r[i] == r0[i] && r[j] == r0[j];
          }
        }
      }
    }
  }
}
