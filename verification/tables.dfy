/** Reading a whole keyed table (`ToListAsync`) in some storage order. */
module Tables {
  import opened Wrappers
  import Seqs

  /** The position of the first element satisfying `p` (LINQ's
      `FirstOrDefault(p)` over a list, as a position). */
  function FirstIndex<T>(s: seq<T>, p: T -> bool): (r: Option<nat>)
    ensures r.None? <==> forall i :: 0 <= i < |s| ==> !p(s[i])
    ensures r.Some? ==> r.value < |s| && p(s[r.value])
    ensures r.Some? ==> forall j :: 0 <= j < r.value ==> !p(s[j])
  {
    if s == [] then None
    else if p(s[0]) then Some(0)
    else match FirstIndex(s[1..], p)
      case None => None
      case Some(i) => Some(i + 1)
  }

  /** The key of a listed entry. */
  function Key<K, V>(row: (K, V)): K { row.0 }

  /** `m2` holds exactly the entries of `m1` at every key other than `k`. */
  ghost predicate AgreeExcept<K(!new), V>(m1: map<K, V>, m2: map<K, V>, k: K) {
    forall k' :: k' != k ==> (k' in m1 <==> k' in m2) && (k' in m1 ==> m1[k'] == m2[k'])
  }

  /** Lists every entry of `m` exactly once, in an order the store chooses. */
  method Rows<K, V>(m: map<K, V>) returns (rows: seq<(K, V)>)
    ensures |rows| == |m|
    ensures Seqs.DistinctBy(rows, Key)
    ensures forall i :: 0 <= i < |rows| ==> rows[i].0 in m && m[rows[i].0] == rows[i].1
    ensures forall k :: k in m ==> exists i :: 0 <= i < |rows| && rows[i].0 == k
  {
    rows := [];
    var left := m.Keys;
    while left != {}
      invariant left <= m.Keys
      invariant |rows| + |left| == |m|
      invariant Seqs.DistinctBy(rows, Key)
      invariant forall i :: 0 <= i < |rows| ==>
        rows[i].0 in m && rows[i].0 !in left && m[rows[i].0] == rows[i].1
      invariant forall k :: k in m && k !in left ==> exists i :: 0 <= i < |rows| && rows[i].0 == k
      decreases left
    {
      var k :| k in left;
      ghost var before := rows;
      rows := rows + [(k, m[k])];
      left := left - {k};
      forall k' | k' in m && k' !in left
        ensures exists i :: 0 <= i < |rows| && rows[i].0 == k'
      {
        if k' == k {
          assert rows[|rows| - 1].0 == k';
        } else {
          var i :| 0 <= i < |before| && before[i].0 == k';
          assert rows[i] == before[i];
        }
      }
    }
  }
}
