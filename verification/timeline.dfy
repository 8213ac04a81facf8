/** The activity timeline: which engagement icons appear, and which entries
    are expanded to show their details. */
module Timeline {
  import opened Wrappers
  import opened JsText
  import Seqs

  /** `hasDate`: a date is shown when it is present and not blank. */
  predicate HasDate(date: Option<string>) {
    date.Some? && Trim(date.value) != ""
  }

  /** A date is hidden exactly when it is missing or made only of characters
      `trim` strips. */
  lemma HasDateIff(date: Option<string>)
    ensures !HasDate(date) <==>
      date.None? || forall i :: 0 <= i < |date.value| ==> IsTrimmable(date.value[i])
  {
    if date.Some? {
      BlankIff(date.value);
    }
  }

  /** An entry is expanded when its id is in the list. */
  predicate IsExpanded(expandedIds: seq<string>, id: string) {
    id in expandedIds
  }

  /** `toggleDetails`: drops every occurrence of `id` when present, otherwise
      appends it. */
  function ToggleDetails(prev: seq<string>, id: string): (next: seq<string>)
    ensures IsExpanded(next, id) <==> !IsExpanded(prev, id)
    ensures forall other :: other != id ==> (IsExpanded(next, other) <==> IsExpanded(prev, other))
    ensures id !in prev ==> next == prev + [id]
    ensures id in prev ==> Seqs.Subsequence(next, prev) && |next| + multiset(prev)[id] == |prev|
  {
    if id in prev then
      DropCount(prev, id);
      Seqs.Filter(prev, (i: string) => i != id)
    else prev + [id]
  }

  /** Every entry is either `id` or one of the others. */
  lemma {:induction false} DropCount(prev: seq<string>, id: string)
    ensures Seqs.Count(prev, (i: string) => i != id) + multiset(prev)[id] == |prev|
  {
    if prev != [] {
      DropCount(prev[1..], id);
      assert prev == [prev[0]] + prev[1..];
      assert multiset(prev) == multiset{prev[0]} + multiset(prev[1..]);
    }
  }

  /** Toggling keeps the list free of duplicates. */
  lemma ToggleKeepsNoDuplicates(prev: seq<string>, id: string)
    requires Seqs.NoDuplicates(prev)
    ensures Seqs.NoDuplicates(ToggleDetails(prev, id))
  {
    if id in prev {
      Seqs.FilterNoDuplicates(prev, (i: string) => i != id);
    }
  }

  /** Toggling an id that is not expanded, then toggling it again, restores
      the list. */
  lemma ToggleTwiceRestores(prev: seq<string>, id: string)
    requires id !in prev
    ensures ToggleDetails(ToggleDetails(prev, id), id) == prev
  {
    var p := (i: string) => i != id;
    Seqs.FilterAppend(prev, [id], p);
    FilterKeepsAll(prev, p);
    assert Seqs.Filter([id], p) == [];
  }

  /** Collapsing then expanding an expanded id moves it to the end: the
      entries are the same but the order may differ. */
  lemma ToggleTwiceMovesToEnd(prev: seq<string>, id: string)
    requires id in prev
    ensures var back := ToggleDetails(ToggleDetails(prev, id), id);
      back[|back| - 1] == id && forall x :: x in back <==> x in prev
  {
  }

  /** Filtering with a test every element passes changes nothing. */
  lemma {:induction false} FilterKeepsAll(s: seq<string>, p: string -> bool)
    requires forall i :: 0 <= i < |s| ==> p(s[i])
    ensures Seqs.Filter(s, p) == s
  {
    if s != [] {
      FilterKeepsAll(s[1..], p);
    }
  }
}
