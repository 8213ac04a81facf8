/** `Array.prototype.filter` and the uniqueness of list elements. */
module Seqs {

  /** `a` is obtained from `b` by deleting elements, keeping the order of
      the rest. */
  ghost predicate Subsequence<T>(a: seq<T>, b: seq<T>)
    decreases |b|
  {
    if a == [] then true
    else if b == [] then false
    else (a[0] == b[0] && Subsequence(a[1..], b[1..])) || Subsequence(a, b[1..])
  }

  /** How many elements of `s` satisfy `p`, repeats counted. */
  function Count<T>(s: seq<T>, p: T -> bool): (n: nat)
    ensures n <= |s|
  {
    if s == [] then 0 else (if p(s[0]) then 1 else 0) + Count(s[1..], p)
  }

  /** Every element passes exactly when all of them are counted, and none
      does exactly when the count is zero. */
  lemma {:induction false} CountExtremes<T>(s: seq<T>, p: T -> bool)
    ensures Count(s, p) == |s| <==> forall i :: 0 <= i < |s| ==> p(s[i])
    ensures Count(s, p) == 0 <==> forall i :: 0 <= i < |s| ==> !p(s[i])
  {
    if s != [] {
      CountExtremes(s[1..], p);
      assert forall i :: 1 <= i < |s| ==> s[i] == s[1..][i - 1];
    }
  }

  /** The elements of `s` that satisfy `p`, in their original order, each
      as often as it occurs in `s`. */
  function Filter<T(==)>(s: seq<T>, p: T -> bool): (r: seq<T>)
    ensures Subsequence(r, s)
    ensures |r| == Count(s, p)
    ensures |r| == |s| ==> forall i :: 0 <= i < |s| ==> p(s[i])
    ensures forall i :: 0 <= i < |r| ==> r[i] in s && p(r[i])
    ensures forall i :: 0 <= i < |s| && p(s[i]) ==> s[i] in r
  {
    if s == [] then []
    else
      assert s == [s[0]] + s[1..];
      if p(s[0]) then [s[0]] + Filter(s[1..], p)
      else Filter(s[1..], p)
  }

  /** Filtering keeps every passing element as often as it occurs, and
      drops every other one. */
  lemma {:induction false} FilterMultiplicity<T>(s: seq<T>, p: T -> bool)
    ensures multiset(Filter(s, p)) <= multiset(s)
    ensures forall i :: 0 <= i < |s| ==>
      multiset(Filter(s, p))[s[i]] == if p(s[i]) then multiset(s)[s[i]] else 0
  {
    if s != [] {
      FilterMultiplicity(s[1..], p);
      assert s == [s[0]] + s[1..];
      var r := Filter(s, p);
      var r' := Filter(s[1..], p);
      assert multiset(s) == multiset{s[0]} + multiset(s[1..]);
      assert multiset(r) == (if p(s[0]) then multiset{s[0]} else multiset{}) + multiset(r');
      forall i | 0 <= i < |s|
        ensures multiset(r)[s[i]] == if p(s[i]) then multiset(s)[s[i]] else 0
      {
        if s[i] !in s[1..] {
          assert multiset(s[1..])[s[i]] == 0;
          assert multiset(r')[s[i]] == 0;
        } else {
          var j :| 0 <= j < |s[1..]| && s[1..][j] == s[i];
        }
      }
    }
  }

  /** Filtering distributes over concatenation. */
  lemma {:induction false} FilterAppend<T>(s: seq<T>, t: seq<T>, p: T -> bool)
    ensures Filter(s + t, p) == Filter(s, p) + Filter(t, p)
  {
    if s == [] {
      assert s + t == t;
    } else {
      var u := s + t;
      assert u[0] == s[0] && u[1..] == s[1..] + t;
      FilterAppend(s[1..], t, p);
      if p(s[0]) {
        calc {
          Filter(u, p);
          [s[0]] + Filter(s[1..] + t, p);
          [s[0]] + (Filter(s[1..], p) + Filter(t, p));
          ([s[0]] + Filter(s[1..], p)) + Filter(t, p);
        }
      }
    }
  }

  /** No two elements share a `key`. */
  ghost predicate DistinctBy<T, K>(s: seq<T>, key: T -> K) {
    forall i, j :: 0 <= i < j < |s| ==> key(s[i]) != key(s[j])
  }

  function Itself<T>(x: T): T { x }

  /** No element occurs twice. */
  ghost predicate NoDuplicates<T>(s: seq<T>) {
    DistinctBy(s, Itself)
  }

  /** Filtering keeps a list free of duplicates. */
  lemma {:induction false} FilterNoDuplicates<T>(s: seq<T>, p: T -> bool)
    requires NoDuplicates(s)
    ensures NoDuplicates(Filter(s, p))
  {
    if s != [] {
      FilterNoDuplicates(s[1..], p);
      assert s[0] !in s[1..];
    }
  }

  /** The elements whose `f`-value is `k`, in their original order. */
  function WithKey<T, K(==)>(s: seq<T>, f: T -> K, k: K): (r: seq<T>)
    ensures |r| <= |s|
    ensures forall i :: 0 <= i < |r| ==> f(r[i]) == k
  {
    if s == [] then []
    else (if f(s[0]) == k then [s[0]] else []) + WithKey(s[1..], f, k)
  }

  /** Selecting by key distributes over concatenation. */
  lemma {:induction false} WithKeyAppend<T, K>(s: seq<T>, t: seq<T>, f: T -> K, k: K)
    ensures WithKey(s + t, f, k) == WithKey(s, f, k) + WithKey(t, f, k)
  {
    if s == [] {
      assert s + t == t;
    } else {
      assert (s + t)[1..] == s[1..] + t;
      WithKeyAppend(s[1..], t, f, k);
    }
  }

  /** Nothing is selected when no element has the key. */
  lemma {:induction false} WithKeyNone<T, K>(s: seq<T>, f: T -> K, k: K)
    requires forall i :: 0 <= i < |s| ==> f(s[i]) != k
    ensures WithKey(s, f, k) == []
  {
    if s != [] {
      WithKeyNone(s[1..], f, k);
    }
  }

  /** Where a selected element comes from in the input. */
  lemma {:induction false} WithKeySource<T, K>(s: seq<T>, f: T -> K, k: K, i: nat) returns (j: nat)
    requires i < |WithKey(s, f, k)|
    ensures j < |s| && s[j] == WithKey(s, f, k)[i]
  {
    if f(s[0]) == k && i == 0 {
      j := 0;
    } else {
      var i' := if f(s[0]) == k then i - 1 else i;
      var j' := WithKeySource(s[1..], f, k, i');
      j := j' + 1;
    }
  }

  /** An element is selected exactly when it is in the list and has the key. */
  lemma {:induction false} WithKeyMembers<T, K>(s: seq<T>, f: T -> K, k: K)
    ensures forall x :: x in WithKey(s, f, k) <==> x in s && f(x) == k
  {
    if s != [] {
      WithKeyMembers(s[1..], f, k);
      assert forall x :: x in s <==> x == s[0] || x in s[1..];
    }
  }
}
