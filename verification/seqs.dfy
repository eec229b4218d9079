/**
 Order-preserving selection over sequences: the model of JavaScript's
 `Array.prototype.filter`, on which the quote list's search, delete and
 per-status counts are all built.
 */
module Seqs {

  /** The complement of a predicate. */
  function Not<T>(p: T -> bool): T -> bool {
    x => !p(x)
  }

  /** The predicate "the key of `x` is `v`". */
  function KeyIs<T, K(==)>(key: T -> K, v: K): T -> bool {
    x => key(x) == v
  }

  /** The key of every element, position by position (`s.map(key)`). */
  function Project<T, K>(s: seq<T>, key: T -> K): (r: seq<K>)
    ensures |r| == |s|
    ensures forall i :: 0 <= i < |s| ==> r[i] == key(s[i])
  {
    seq(|s|, i requires 0 <= i < |s| => key(s[i]))
  }

  /** No two positions of `s` carry the same key. */
  ghost predicate DistinctBy<T, K>(s: seq<T>, key: T -> K) {
    forall i, j :: 0 <= i < j < |s| ==> key(s[i]) != key(s[j])
  }

  /** The elements of `s` that satisfy `p`, in their original order. */
  function Filter<T>(s: seq<T>, p: T -> bool): (r: seq<T>)
    ensures |r| <= |s|
    ensures forall i :: 0 <= i < |r| ==> r[i] in s && p(r[i])
    ensures forall i :: 0 <= i < |s| && p(s[i]) ==> s[i] in r
    decreases |s|
  {
    if |s| == 0 then []
    else
      assert s == s[..|s| - 1] + [s[|s| - 1]];
      Filter(s[..|s| - 1], p) + (if p(s[|s| - 1]) then [s[|s| - 1]] else [])
  }

  /** `idx` lists positions in strictly increasing order. */
  ghost predicate StrictlyIncreasing(idx: seq<nat>) {
    forall k, l :: 0 <= k < l < |idx| ==> idx[k] < idx[l]
  }

  /** `a` is `b` read at the increasing positions `idx`. */
  ghost predicate EmbedsAt<T>(a: seq<T>, b: seq<T>, idx: seq<nat>) {
    && |idx| == |a|
    && StrictlyIncreasing(idx)
    && forall k :: 0 <= k < |idx| ==> idx[k] < |b| && a[k] == b[idx[k]]
  }

  /** `a` is obtained from `b` by dropping elements, keeping relative order. */
  ghost predicate IsSubsequence<T>(a: seq<T>, b: seq<T>) {
    exists idx :: EmbedsAt(a, b, idx)
  }

  /** The positions of `s` whose element satisfies `p`, ascending. */
  function Selected<T>(s: seq<T>, p: T -> bool): (idx: seq<nat>)
    ensures StrictlyIncreasing(idx)
    ensures forall k :: 0 <= k < |idx| ==> idx[k] < |s| && p(s[idx[k]])
    ensures forall i :: 0 <= i < |s| && p(s[i]) ==> i in idx
    decreases |s|
  {
    if |s| == 0 then []
    else Selected(s[..|s| - 1], p) + (if p(s[|s| - 1]) then [|s| - 1] else [])
  }

  /** Filter keeps exactly the elements at the selected positions, in order:
      the result is `s` read at the positions where `p` holds. */
  lemma {:induction false} FilterIsSelection<T>(s: seq<T>, p: T -> bool)
    ensures EmbedsAt(Filter(s, p), s, Selected(s, p))
    decreases |s|
  {
    if |s| > 0 {
      var s' := s[..|s| - 1];
      FilterIsSelection(s', p);
      var r, idx := Filter(s, p), Selected(s, p);
      var r', idx' := Filter(s', p), Selected(s', p);
      forall k | 0 <= k < |idx'|
        ensures idx[k] < |s| && r[k] == s[idx[k]]
      {
        assert idx[k] == idx'[k] && r[k] == r'[k];
      }
    }
  }

  /** The filtered sequence is a subsequence of its input. */
  lemma FilterIsSubsequence<T>(s: seq<T>, p: T -> bool)
    ensures IsSubsequence(Filter(s, p), s)
  {
    FilterIsSelection(s, p);
  }

  /** Filtering a sequence all of whose elements pass returns it unchanged. */
  lemma {:induction false} FilterAllPass<T>(s: seq<T>, p: T -> bool)
    requires forall i :: 0 <= i < |s| ==> p(s[i])
    ensures Filter(s, p) == s
    decreases |s|
  {
    if |s| > 0 {
      FilterAllPass(s[..|s| - 1], p);
      assert s == s[..|s| - 1] + [s[|s| - 1]];
    }
  }

  /** Predicates that agree on every element of `s` select the same elements. */
  lemma {:induction false} FilterAgreeing<T>(s: seq<T>, p: T -> bool, q: T -> bool)
    requires forall i :: 0 <= i < |s| ==> p(s[i]) == q(s[i])
    ensures Filter(s, p) == Filter(s, q)
    decreases |s|
  {
    if |s| > 0 {
      FilterAgreeing(s[..|s| - 1], p, q);
    }
  }

  /** Filtering twice with the same predicate is the same as filtering once. */
  lemma FilterIdempotent<T>(s: seq<T>, p: T -> bool)
    ensures Filter(Filter(s, p), p) == Filter(s, p)
  {
    var r := Filter(s, p);
    assert forall i :: 0 <= i < |r| ==> r[i] in r;
    FilterAllPass(r, p);
  }

  /** Every element is kept by exactly one of `p` and its complement. */
  lemma {:induction false} FilterPartition<T>(s: seq<T>, p: T -> bool)
    ensures |Filter(s, p)| + |Filter(s, Not(p))| == |s|
    decreases |s|
  {
    if |s| > 0 {
      FilterPartition(s[..|s| - 1], p);
    }
  }

  /** Counting the elements with a given key is the key's multiplicity. */
  lemma {:induction false} FilterKeyIsMultiplicity<T, K>(s: seq<T>, key: T -> K, v: K)
    ensures |Filter(s, KeyIs(key, v))| == multiset(Project(s, key))[v]
    decreases |s|
  {
    if |s| > 0 {
      var s' := s[..|s| - 1];
      FilterKeyIsMultiplicity(s', key, v);
      assert Project(s, key) == Project(s', key) + [key(s[|s| - 1])];
    }
  }

  /** A key that is distinct across `s` stays distinct across any filtering of `s`. */
  lemma FilterKeepsDistinct<T, K>(s: seq<T>, p: T -> bool, key: T -> K)
    requires DistinctBy(s, key)
    ensures DistinctBy(Filter(s, p), key)
  {
    FilterIsSelection(s, p);
  }

  /** Filtering a sequence none of whose elements pass yields nothing. */
  lemma FilterNonePass<T>(s: seq<T>, p: T -> bool)
    requires forall i :: 0 <= i < |s| ==> !p(s[i])
    ensures Filter(s, p) == []
  {
  }

  /** Under a distinct key, at most one element carries a given key value. */
  lemma {:induction false} AtMostOneWithKey<T, K>(s: seq<T>, key: T -> K, v: K)
    requires DistinctBy(s, key)
    ensures |Filter(s, KeyIs(key, v))| <= 1
    decreases |s|
  {
    var p := KeyIs(key, v);
    if |s| > 0 {
      var s' := s[..|s| - 1];
      AtMostOneWithKey(s', key, v);
      if p(s[|s| - 1]) {
        assert forall i :: 0 <= i < |s'| ==> key(s'[i]) != key(s[|s| - 1]);
        FilterNonePass(s', p);
      }
    }
  }
}
