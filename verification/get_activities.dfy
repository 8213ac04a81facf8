/** The activity list page: loaded activities are ordered newest first,
    grouped into month sections, and each section can be opened or closed.
    The month key (`format(createdDate, "MMMM yyyy")`) and the timestamp
    (`new Date(createdDate).getTime()`) are parameters. */
module GetActivities {
  import opened Wrappers
  import Seqs

  /** One month section: its key and its activities. */
  datatype Group<T> = Group(month: string, items: seq<T>)

  /** Sum of the section sizes. */
  function TotalItems<T>(gs: seq<Group<T>>): nat {
    if gs == [] then 0 else TotalItems(gs[..|gs| - 1]) + |gs[|gs| - 1].items|
  }

  /** No two sections share a month. */
  ghost predicate DistinctMonths<T>(gs: seq<Group<T>>) {
    forall i, j :: 0 <= i < j < |gs| ==> gs[i].month != gs[j].month
  }

  /** Every section holds exactly its month's activities, in input order. */
  ghost predicate SectionsMatch<T>(gs: seq<Group<T>>, acts: seq<T>, key: T -> string) {
    forall i :: 0 <= i < |gs| ==> gs[i].items == Seqs.WithKey(acts, key, gs[i].month)
  }

  /** No section is empty. */
  ghost predicate NoEmptySection<T>(gs: seq<Group<T>>) {
    forall i :: 0 <= i < |gs| ==> gs[i].items != []
  }

  /** The months that have a section. */
  function Months<T>(gs: seq<Group<T>>): set<string> {
    set i | 0 <= i < |gs| :: gs[i].month
  }

  /** Every activity's month has a section. */
  ghost predicate Covers<T>(gs: seq<Group<T>>, acts: seq<T>, key: T -> string) {
    forall j :: 0 <= j < |acts| ==> key(acts[j]) in Months(gs)
  }

  /** `gs` is a grouping of `acts` by `key`: one section per month that
      occurs, none empty, each holding exactly that month's activities in
      input order, and the section sizes adding up to the input length. */
  ghost predicate GroupedBy<T>(gs: seq<Group<T>>, acts: seq<T>, key: T -> string) {
    && DistinctMonths(gs)
    && SectionsMatch(gs, acts, key)
    && NoEmptySection(gs)
    && Covers(gs, acts, key)
    && TotalItems(gs) == |acts|
  }

  /** Position of the section for `month`, or `|gs|` when there is none. */
  function IndexOfMonth<T>(gs: seq<Group<T>>, month: string): (i: nat)
    ensures i <= |gs|
    ensures i < |gs| ==> gs[i].month == month
    ensures i == |gs| ==> month !in Months(gs)
  {
    if gs == [] then 0
    else if gs[0].month == month then 0
    else
      var i := 1 + IndexOfMonth(gs[1..], month);
      assert i == |gs| ==> Months(gs) == {gs[0].month} + Months(gs[1..]) by {
        if i == |gs| {
          forall m | m in Months(gs) ensures m in {gs[0].month} + Months(gs[1..]) {
            var k :| 0 <= k < |gs| && gs[k].month == m;
            if k > 0 { assert gs[1..][k - 1] == gs[k]; }
          }
        }
      }
      i
  }

  /** One step of the `reduce`: append `a` to the section of `month`,
      opening a new section at the end when there is none. */
  function AddToGroup<T>(gs: seq<Group<T>>, month: string, a: T): seq<Group<T>> {
    var i := IndexOfMonth(gs, month);
    if i < |gs| then gs[i := gs[i].(items := gs[i].items + [a])]
    else gs + [Group(month, [a])]
  }

  /** `groupByMonth`: one section per month that occurs. */
  function GroupByMonth<T>(acts: seq<T>, key: T -> string): (gs: seq<Group<T>>)
    ensures GroupedBy(gs, acts, key)
    decreases |acts|
  {
    if acts == [] then []
    else
      var n := |acts| - 1;
      var gs := GroupByMonth(acts[..n], key);
      AddKeepsGrouping(gs, acts[..n], key, acts[n]);
      assert acts[..n] + [acts[n]] == acts;
      AddToGroup(gs, key(acts[n]), acts[n])
  }

  /** Replacing one section changes the total by the difference in size. */
  lemma {:induction false} TotalItemsUpdate<T>(gs: seq<Group<T>>, i: nat, g: Group<T>)
    requires i < |gs|
    ensures TotalItems(gs[i := g]) + |gs[i].items| == TotalItems(gs) + |g.items|
    decreases |gs|
  {
    var n := |gs| - 1;
    if i < n {
      assert gs[i := g][..n] == gs[..n][i := g];
      TotalItemsUpdate(gs[..n], i, g);
    } else {
      assert gs[i := g][..n] == gs[..n];
    }
  }

  /** Appending `a` selects it under its own month and nowhere else. */
  lemma SelectAppended<T>(acts: seq<T>, key: T -> string, a: T, m: string)
    ensures Seqs.WithKey(acts + [a], key, m) ==
      Seqs.WithKey(acts, key, m) + (if key(a) == m then [a] else [])
  {
    Seqs.WithKeyAppend(acts, [a], key, m);
  }

  /** One reduce step extends a grouping of `acts` to `acts + [a]`. */
  lemma AddKeepsGrouping<T>(gs: seq<Group<T>>, acts: seq<T>, key: T -> string, a: T)
    requires GroupedBy(gs, acts, key)
    ensures GroupedBy(AddToGroup(gs, key(a), a), acts + [a], key)
  {
    if IndexOfMonth(gs, key(a)) < |gs| {
      AddToExisting(gs, acts, key, a);
    } else {
      AddNew(gs, acts, key, a);
    }
  }

  /** Adding to an existing section keeps the set of months and their order. */
  lemma AddToExistingMonths<T>(gs: seq<Group<T>>, month: string, a: T)
    requires IndexOfMonth(gs, month) < |gs|
    ensures var gs' := AddToGroup(gs, month, a);
      && |gs'| == |gs|
      && (forall k :: 0 <= k < |gs| ==> gs'[k].month == gs[k].month)
      && Months(gs') == Months(gs)
  {
    var gs' := AddToGroup(gs, month, a);
    assert forall k :: 0 <= k < |gs| ==> gs'[k].month == gs[k].month;
  }

  lemma AddToExisting<T>(gs: seq<Group<T>>, acts: seq<T>, key: T -> string, a: T)
    requires GroupedBy(gs, acts, key)
    requires IndexOfMonth(gs, key(a)) < |gs|
    ensures GroupedBy(AddToGroup(gs, key(a), a), acts + [a], key)
  {
    var i := IndexOfMonth(gs, key(a));
    var gs' := AddToGroup(gs, key(a), a);
    var acts' := acts + [a];
    AddToExistingMonths(gs, key(a), a);
    TotalItemsUpdate(gs, i, gs[i].(items := gs[i].items + [a]));
    assert DistinctMonths(gs');
    assert NoEmptySection(gs');
    AddToExistingSections(gs, acts, key, a);
    assert Covers(gs', acts', key) by {
      forall j | 0 <= j < |acts'| ensures key(acts'[j]) in Months(gs') {
        if j < |acts| { assert acts'[j] == acts[j]; }
      }
    }
  }

  /** Adding to an existing section keeps every section equal to its
      month's selection. */
  lemma AddToExistingSections<T>(gs: seq<Group<T>>, acts: seq<T>, key: T -> string, a: T)
    requires DistinctMonths(gs) && SectionsMatch(gs, acts, key)
    requires IndexOfMonth(gs, key(a)) < |gs|
    ensures SectionsMatch(AddToGroup(gs, key(a), a), acts + [a], key)
  {
    var i := IndexOfMonth(gs, key(a));
    var gs' := AddToGroup(gs, key(a), a);
    assert gs' == gs[i := gs[i].(items := gs[i].items + [a])];
    forall k | 0 <= k < |gs'| ensures gs'[k].items == Seqs.WithKey(acts + [a], key, gs'[k].month) {
      SelectAppended(acts, key, a, gs[k].month);
      if k == i {
        assert gs'[k].items == gs[k].items + [a];
      } else {
        assert gs'[k] == gs[k] && gs[k].month != key(a);
      }
    }
  }

  /** Opening a new section appends one month. */
  lemma AddNewMonths<T>(gs: seq<Group<T>>, month: string, a: T)
    requires IndexOfMonth(gs, month) == |gs|
    ensures var gs' := AddToGroup(gs, month, a);
      && gs' == gs + [Group(month, [a])]
      && Months(gs') == Months(gs) + {month}
      && TotalItems(gs') == TotalItems(gs) + 1
  {
    var gs' := AddToGroup(gs, month, a);
    assert gs'[..|gs'| - 1] == gs;
    assert forall k :: 0 <= k < |gs| ==> gs'[k] == gs[k];
    assert gs'[|gs|].month == month;
  }

  /** A month without a section selects no activity. */
  lemma NoSectionNoActivity<T>(gs: seq<Group<T>>, acts: seq<T>, key: T -> string, m: string)
    requires Covers(gs, acts, key)
    requires m !in Months(gs)
    ensures Seqs.WithKey(acts, key, m) == []
  {
    Seqs.WithKeyMembers(acts, key, m);
  }

  lemma AddNew<T>(gs: seq<Group<T>>, acts: seq<T>, key: T -> string, a: T)
    requires GroupedBy(gs, acts, key)
    requires IndexOfMonth(gs, key(a)) == |gs|
    ensures GroupedBy(AddToGroup(gs, key(a), a), acts + [a], key)
  {
    var gs' := AddToGroup(gs, key(a), a);
    var acts' := acts + [a];
    AddNewMonths(gs, key(a), a);
    NoSectionNoActivity(gs, acts, key, key(a));
    assert DistinctMonths(gs') by {
      forall k | 0 <= k < |gs| ensures gs[k].month != key(a) {
        assert gs[k].month in Months(gs);
      }
    }
    assert NoEmptySection(gs');
    assert SectionsMatch(gs', acts', key) by {
      forall k | 0 <= k < |gs'| ensures gs'[k].items == Seqs.WithKey(acts', key, gs'[k].month) {
        SelectAppended(acts, key, a, gs'[k].month);
        if k < |gs| {
          assert gs[k].month in Months(gs);
        }
      }
    }
    assert Covers(gs', acts', key) by {
      forall j | 0 <= j < |acts'| ensures key(acts'[j]) in Months(gs') {
        if j < |acts| { assert acts'[j] == acts[j]; }
      }
    }
  }

  /** An activity is in a section exactly when the section is its month's. */
  lemma GroupMembership<T>(acts: seq<T>, key: T -> string, i: nat, a: T)
    requires a in acts
    requires i < |GroupByMonth(acts, key)|
    ensures var g := GroupByMonth(acts, key)[i];
      a in g.items <==> g.month == key(a)
  {
    Seqs.WithKeyMembers(acts, key, GroupByMonth(acts, key)[i].month);
  }

  /** Timestamps never increase along the list. */
  ghost predicate NewestFirst<T>(s: seq<T>, time: T -> int) {
    forall i, j :: 0 <= i < j < |s| ==> time(s[i]) >= time(s[j])
  }

  /** Places `a` after every element at least as new as it and before the
      first older one. */
  function InsertByTime<T>(sorted: seq<T>, a: T, time: T -> int): (r: seq<T>)
    requires NewestFirst(sorted, time)
    ensures |r| == |sorted| + 1
    ensures NewestFirst(r, time)
    ensures r[0] == a || (sorted != [] && r[0] == sorted[0])
  {
    if sorted == [] then [a]
    else if time(sorted[0]) < time(a) then [a] + sorted
    else
      var rest := InsertByTime(sorted[1..], a, time);
      assert sorted == [sorted[0]] + sorted[1..];
      assert forall i :: 0 <= i < |rest| ==> time(rest[i]) <= time(rest[0]);
      [sorted[0]] + rest
  }

  /** The comparator `(a, b) => time(b) - time(a)` under a stable sort:
      newest first, equal times in their loaded order. */
  function SortNewestFirst<T>(s: seq<T>, time: T -> int): (r: seq<T>)
    ensures |r| == |s|
    ensures NewestFirst(r, time)
    decreases |s|
  {
    if s == [] then []
    else
      var n := |s| - 1;
      InsertByTime(SortNewestFirst(s[..n], time), s[n], time)
  }

  /** Inserting adds exactly `a` to the elements. */
  lemma {:induction false} InsertByTimePermutes<T>(sorted: seq<T>, a: T, time: T -> int)
    requires NewestFirst(sorted, time)
    ensures multiset(InsertByTime(sorted, a, time)) == multiset(sorted) + multiset{a}
  {
    if sorted != [] && time(sorted[0]) >= time(a) {
      InsertByTimePermutes(sorted[1..], a, time);
      assert sorted == [sorted[0]] + sorted[1..];
    }
  }

  /** Sorting rearranges the activities without adding or dropping any. */
  lemma {:induction false} SortPermutes<T>(s: seq<T>, time: T -> int)
    ensures multiset(SortNewestFirst(s, time)) == multiset(s)
    decreases |s|
  {
    if s != [] {
      var n := |s| - 1;
      SortPermutes(s[..n], time);
      InsertByTimePermutes(SortNewestFirst(s[..n], time), s[n], time);
      assert s == s[..n] + [s[n]];
    }
  }

  /** Selecting from a list with a head element. */
  lemma WithKeyCons<T>(x: T, s: seq<T>, time: T -> int, t: int)
    ensures Seqs.WithKey([x] + s, time, t) == (if time(x) == t then [x] else []) + Seqs.WithKey(s, time, t)
  {
    assert ([x] + s)[1..] == s;
  }

  /** Inserting keeps the elements of each timestamp in order, the new one last. */
  lemma {:induction false} InsertByTimeStable<T>(sorted: seq<T>, a: T, time: T -> int, t: int)
    requires NewestFirst(sorted, time)
    ensures Seqs.WithKey(InsertByTime(sorted, a, time), time, t) ==
      Seqs.WithKey(sorted, time, t) + (if time(a) == t then [a] else [])
    decreases |sorted|
  {
    if sorted == [] {
      WithKeyCons(a, [], time, t);
    } else if time(sorted[0]) < time(a) {
      InsertAtFrontStable(sorted, a, time, t);
    } else {
      InsertByTimeStable(sorted[1..], a, time, t);
      InsertFurtherStable(sorted, a, time, t);
    }
  }

  /** An element newer than the whole list goes first; no element of the
      list shares its timestamp. */
  lemma InsertAtFrontStable<T>(sorted: seq<T>, a: T, time: T -> int, t: int)
    requires NewestFirst(sorted, time)
    requires sorted != [] && time(sorted[0]) < time(a)
    ensures Seqs.WithKey(InsertByTime(sorted, a, time), time, t) ==
      Seqs.WithKey(sorted, time, t) + (if time(a) == t then [a] else [])
  {
    WithKeyCons(a, sorted, time, t);
    if time(a) == t {
      assert forall i :: 0 <= i < |sorted| ==> time(sorted[i]) <= time(sorted[0]);
      Seqs.WithKeyNone(sorted, time, t);
    }
  }

  /** A common head in front of two lists whose selections differ by a
      trailing part keeps that difference. */
  lemma ConsSelection<T>(x: T, tail: seq<T>, rest: seq<T>, last: seq<T>, time: T -> int, t: int)
    requires Seqs.WithKey(rest, time, t) == Seqs.WithKey(tail, time, t) + last
    ensures Seqs.WithKey([x] + rest, time, t) == Seqs.WithKey([x] + tail, time, t) + last
  {
    WithKeyCons(x, rest, time, t);
    WithKeyCons(x, tail, time, t);
    var head := if time(x) == t then [x] else [];
    assert head + (Seqs.WithKey(tail, time, t) + last) == (head + Seqs.WithKey(tail, time, t)) + last;
  }

  /** The head stays in front; the rest follows from the tail's case. */
  lemma InsertFurtherStable<T>(sorted: seq<T>, a: T, time: T -> int, t: int)
    requires NewestFirst(sorted, time)
    requires sorted != [] && time(sorted[0]) >= time(a)
    requires Seqs.WithKey(InsertByTime(sorted[1..], a, time), time, t) ==
      Seqs.WithKey(sorted[1..], time, t) + (if time(a) == t then [a] else [])
    ensures Seqs.WithKey(InsertByTime(sorted, a, time), time, t) ==
      Seqs.WithKey(sorted, time, t) + (if time(a) == t then [a] else [])
  {
    var s0, tail := sorted[0], sorted[1..];
    assert sorted == [s0] + tail;
    var rest := InsertByTime(tail, a, time);
    assert InsertByTime(sorted, a, time) == [s0] + rest;
    ConsSelection(s0, tail, rest, if time(a) == t then [a] else [], time, t);
  }

  /** The sort is stable: activities with the same timestamp keep their
      loaded order. */
  lemma {:induction false} SortIsStable<T>(s: seq<T>, time: T -> int, t: int)
    ensures Seqs.WithKey(SortNewestFirst(s, time), time, t) == Seqs.WithKey(s, time, t)
    decreases |s|
  {
    if s != [] {
      var n := |s| - 1;
      var init, last := s[..n], s[n];
      SortIsStable(init, time, t);
      InsertByTimeStable(SortNewestFirst(init, time), last, time, t);
      assert s == init + [last];
      Seqs.WithKeyAppend(init, [last], time, t);
      WithKeyCons(last, [], time, t);
    }
  }

  /** Selecting one month keeps the newest-first order. */
  lemma {:induction false} WithKeyNewestFirst<T>(s: seq<T>, time: T -> int, key: T -> string, m: string)
    requires NewestFirst(s, time)
    ensures NewestFirst(Seqs.WithKey(s, key, m), time)
  {
    if s != [] {
      var rest := Seqs.WithKey(s[1..], key, m);
      WithKeyNewestFirst(s[1..], time, key, m);
      if key(s[0]) == m {
        forall j | 0 <= j < |rest| ensures time(rest[j]) <= time(s[0]) {
          var k := Seqs.WithKeySource(s[1..], key, m, j);
          assert s[k + 1] == rest[j];
        }
        assert Seqs.WithKey(s, key, m) == [s[0]] + rest;
      }
    }
  }

  /** The response of `getAllActivities`: a failure, or the data, which may
      be `null`. */
  datatype Response<T> = Failed | Loaded(data: Option<seq<T>>)

  /** The page's state: the activities shown, the loading flag and the
      error message. */
  datatype Page<T> = Page(activities: seq<T>, loading: bool, error: Option<string>)

  /** The message shown when loading fails. */
  const LoadFailed: string := "Failed to load activities"

  /** Before the first response: nothing loaded, loading, no error. */
  function InitialPage<T>(): Page<T> {
    Page([], true, None)
  }

  /** `loadActivities` once the response is in: a failure sets the error
      and keeps the activities; data replaces them, sorted newest first;
      `null` data changes nothing. Loading ends either way, and an earlier
      error is never cleared. */
  function LoadActivities<T>(p: Page<T>, resp: Response<T>, time: T -> int): (r: Page<T>)
    ensures !r.loading
    ensures resp.Failed? ==> r.error == Some(LoadFailed) && r.activities == p.activities
    ensures resp.Loaded? ==> r.error == p.error
    ensures resp == Loaded(None) ==> r.activities == p.activities
    ensures resp.Loaded? && resp.data.Some? ==>
      NewestFirst(r.activities, time) && multiset(r.activities) == multiset(resp.data.value)
  {
    match resp
    case Failed => p.(loading := false, error := Some(LoadFailed))
    case Loaded(None) => p.(loading := false)
    case Loaded(Some(data)) =>
      SortPermutes(data, time);
      p.(activities := SortNewestFirst(data, time), loading := false)
  }

  /** What the page shows. */
  datatype View<T> = Spinner | ErrorText(message: string) | Sections(groups: seq<Group<T>>)

  /** The accordion: a spinner while loading, else the error if there is
      one, else one section per month of the loaded activities. */
  function Render<T>(p: Page<T>, key: T -> string): (v: View<T>)
    ensures v.Spinner? <==> p.loading
    ensures v.ErrorText? <==> !p.loading && p.error.Some?
    ensures v.Sections? ==> GroupedBy(v.groups, p.activities, key)
  {
    if p.loading then Spinner
    else if p.error.Some? then ErrorText(p.error.value)
    else Sections(GroupByMonth(p.activities, key))
  }

  /** The page opens on the spinner, and its first successful load shows
      the loaded activities by month. */
  lemma FirstLoad<T>(data: seq<T>, time: T -> int, key: T -> string)
    ensures Render(InitialPage<T>(), key) == Spinner
    ensures Render(LoadActivities(InitialPage(), Loaded(Some(data)), time), key).Sections?
  {
  }

  /** Once a load has failed the page shows the error after every later
      load, whatever it returns. */
  lemma ErrorIsSticky<T>(p: Page<T>, resp: Response<T>, time: T -> int, key: T -> string)
    requires p.error.Some?
    ensures Render(LoadActivities(p, resp, time), key) == ErrorText(if resp.Failed? then LoadFailed else p.error.value)
  {
  }

  /** After a successful load every month section lists its activities
      newest first, and together the sections hold every loaded activity. */
  lemma SectionsNewestFirst<T>(p: Page<T>, data: seq<T>, time: T -> int, key: T -> string)
    requires p.error.None?
    ensures var v := Render(LoadActivities(p, Loaded(Some(data)), time), key);
      && v.Sections?
      && TotalItems(v.groups) == |data|
      && forall i :: 0 <= i < |v.groups| ==> NewestFirst(v.groups[i].items, time)
  {
    var q := LoadActivities(p, Loaded(Some(data)), time);
    var v := Render(q, key);
    SortPermutes(data, time);
    assert |q.activities| == |data| by {
      assert |multiset(q.activities)| == |multiset(data)|;
    }
    forall i | 0 <= i < |v.groups| ensures NewestFirst(v.groups[i].items, time) {
      WithKeyNewestFirst(q.activities, time, key, v.groups[i].month);
    }
  }

  /** A section is open when its flag is set; an unset flag reads as closed. */
  predicate IsOpen(open: map<string, bool>, month: string) {
    month in open && open[month]
  }

  /** `toggleSection`: flips the flag of one month and records it. */
  function ToggleSection(open: map<string, bool>, month: string): (r: map<string, bool>)
    ensures month in r && (IsOpen(r, month) <==> !IsOpen(open, month))
    ensures forall m :: m != month ==> (m in r <==> m in open) && (m in open ==> r[m] == open[m])
  {
    open[month := !IsOpen(open, month)]
  }

  /** The first toggle of a section never toggled before opens it. */
  lemma FirstToggleOpens(open: map<string, bool>, month: string)
    requires month !in open
    ensures IsOpen(ToggleSection(open, month), month)
  {
  }
}
