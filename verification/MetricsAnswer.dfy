/**
 When a range query is answered from the totals, and when that answer is right: the check on
 the watermark of the active store is compared with what the totals really cover.
 */
module MetricsAnswer {
  import opened Wrappers
  import opened Aggregate
  import opened AggregateScan
  import opened AggregateStore
  import opened AggregateLaws
  import opened AggregateHazards
  import opened MetricsMerge
  import opened MetricsEngine
  import opened MetricsRollup

  /** The active store with the recorded watermark, or an archive whose file is known or not. */
  datatype Shard = Active(state: Option<ActiveState>) | Archive(known: bool)

  predicate MayAnswer(shard: Shard, rows: seq<Row>, neededMs: int) {
    match shard
    case Active(state) => ActiveCaughtUp(state, rows, neededMs)
    case Archive(known) => known
  }

  /**
   `rollup_groups`: totals of the whole days, then one scan per correction window merged in.
   `slice` is what reading the totals gives, nothing when they are unbuilt, outdated or unreadable.
   */
  method RollupGroups(shard: Shard, slice: Option<map<string, Acc>>, rows: seq<Row>, dim: Dim, from: int, to: int,
                      cal: Calendar, next: NextDay, metrics: set<MetricName>)
    returns (r: Option<GroupRows>)
    ensures r.Some? <==>
      FullDayBounds(cal, next, from, to).Some? &&
      FullDayBounds(cal, next, from, to).value.0 < FullDayBounds(cal, next, from, to).value.1 &&
      MayAnswer(shard, rows, FullDayBounds(cal, next, from, to).value.1 - 1) && slice.Some?
    ensures r.Some? ==>
      var (first, end) := FullDayBounds(cal, next, from, to).value;
      r.value ==
        WithWindows(SliceGroups(slice.value, metrics), rows, dim, CorrectionWindows(from, to, first, end), metrics)
  {
    hide SliceGroups, ScanGroups, MergeGroups, FullDayBounds, ActiveCaughtUp;
    var bounds := FullDayBounds(cal, next, from, to);
    if bounds.None? || bounds.value.1 <= bounds.value.0 {
      return None;
    }
    var (first, end) := bounds.value;
    if !MayAnswer(shard, rows, end - 1) || slice.None? {
      return None;
    }
    var groups := SliceGroups(slice.value, metrics);
    var ws := CorrectionWindows(from, to, first, end);
    for i := 0 to |ws|
      invariant groups == WithWindows(SliceGroups(slice.value, metrics), rows, dim, ws[..i], metrics)
    {
      assert ws[..i + 1][..i] == ws[..i];
      groups := MergeInto(groups, ScanGroups(rows, dim, ws[i].0, ws[i].1, metrics), metrics);
    }
    assert ws[..|ws|] == ws;
    return Some(groups);
  }

  // ---------------------------------------------------------------- what the watermark check misses

  /** No row behind the first `k` falls into the whole days. */
  ghost predicate NoneLate(rows: seq<Row>, k: nat, first: int, end: int)
    requires k <= |rows|
  {
    forall r :: r in rows[k..] && r.timeMs.Some? ==> !(first <= r.timeMs.value < end)
  }

  /** The slice holds exactly the groups of the whole days, each with the fold over its rows. */
  ghost predicate SliceIsRight(slice: map<string, Acc>, rows: seq<Row>, dim: Dim, first: int, end: int) {
    forall name ::
      (name in slice <==> name in GroupNames(rows, dim, first, end - 1)) &&
      (name in slice ==> slice[name] == SumOf(rows, GroupFilter(dim, name, first, end - 1)))
  }

  /** The totals that the watermark stands for answer for the whole days exactly when no row is late. */
  lemma SliceIsRightIff(slice: map<string, Acc>, t: Tables, cal: Calendar, next: NextDay, rows: seq<Row>, k: nat,
                        dim: Dim, first: int, end: int)
    requires ValidCalendar(cal, next) && cal(first) == Some(first) && cal(end) == Some(end)
    requires k <= |rows| && Describes(t, cal, rows[..k]) && IsSlice(slice, t, dim, first, end)
    ensures SliceIsRight(slice, rows, dim, first, end) <==> NoneLate(rows, k, first, end)
  {
    hide ValidCalendar, Describes, IsSlice, GroupNames, SumOf, GroupExpr;
    if NoneLate(rows, k, first, end) {
      forall name
        ensures name in slice <==> name in GroupNames(rows, dim, first, end - 1)
        ensures name in slice ==> slice[name] == SumOf(rows, GroupFilter(dim, name, first, end - 1))
      {
        SliceIsTheFold(slice, t, cal, next, rows, k, dim, first, end, name);
      }
    } else {
      var r :| r in rows[k..] && r.timeMs.Some? && first <= r.timeMs.value < end;
      LateRowIsMissed(slice, t, cal, next, rows, k, dim, first, end, r);
    }
  }

  lemma LateRowIsMissed(slice: map<string, Acc>, t: Tables, cal: Calendar, next: NextDay, rows: seq<Row>, k: nat,
                        dim: Dim, first: int, end: int, r: Row)
    requires ValidCalendar(cal, next) && cal(first) == Some(first) && cal(end) == Some(end)
    requires k <= |rows| && Describes(t, cal, rows[..k]) && IsSlice(slice, t, dim, first, end)
    requires r in rows[k..] && r.timeMs.Some? && first <= r.timeMs.value < end
    ensures !SliceIsRight(slice, rows, dim, first, end)
  {
    hide ValidCalendar, Describes, IsSlice, GroupNames, SumOf, GroupExpr;
    var name := GroupExpr(r, dim);
    var p := GroupFilter(dim, name, first, end - 1);
    assert rows[..k][..k] == rows[..k] && rows[..k] + rows[k..] == rows && p(r);
    assert r in rows;
    SliceIsTheFold(slice, t, cal, next, rows[..k], k, dim, first, end, name);
    SumOfSplits(rows[..k], rows[k..], p);
    SumOfFacts(rows[..k], p);
    SumOfFacts(rows[k..], p);
    NamesAreRows(rows, dim, name, first, end - 1);
  }

  /**
   Main result for the active store: where its check lets a query be answered from the totals,
   the totals are right exactly when no row behind the watermark falls into the whole days.
   */
  lemma CaughtUpAnswersRightIff(slice: map<string, Acc>, t: Tables, s: ActiveState, cal: Calendar, next: NextDay,
                                rows: seq<Row>, identity: int, k: nat, dim: Dim, first: int, end: int)
    requires ValidCalendar(cal, next) && cal(first) == Some(first) && cal(end) == Some(end)
    requires Ascending(rows) && SyncedAt(k, cal, rows, identity, t, s) && IsSlice(slice, t, dim, first, end)
    requires ActiveCaughtUp(Some(s), rows, end - 1)
    ensures SliceIsRight(slice, rows, dim, first, end) <==> NoneLate(rows, k, first, end)
    ensures s.maxTimeMs < end - 1 ==> SliceIsRight(slice, rows, dim, first, end)
  {
    hide ValidCalendar, Describes, IsSlice, MaxTime, SliceIsRight, ActiveCaughtUp;
    SliceIsRightIff(slice, t, cal, next, rows, k, dim, first, end);
    CaughtUpIsSound(cal, rows, identity, t, s, k, end - 1);
  }

  // ---------------------------------------------------------------- rows inserted in time order

  ghost predicate TimesAscend(rows: seq<Row>) {
    forall i, j :: 0 <= i < j < |rows| && rows[i].timeMs.Some? && rows[j].timeMs.Some? ==>
      rows[i].timeMs.value <= rows[j].timeMs.value
  }

  lemma {:induction false} MaxTimeIsARow(rows: seq<Row>) returns (i: nat)
    requires MaxTime(rows) > 0
    ensures i < |rows| && rows[i].timeMs == Some(MaxTime(rows))
  {
    var n := |rows| - 1;
    if rows[n].timeMs == Some(MaxTime(rows)) {
      i := n;
    } else {
      i := MaxTimeIsARow(rows[..n]);
    }
  }

  /** Rows that arrive in time order can be late only in the last millisecond of the last day. */
  lemma InOrderOnlyTheLastInstantIsLate(t: Tables, s: ActiveState, cal: Calendar, rows: seq<Row>, identity: int,
                                        k: nat, first: int, end: int)
    requires Ascending(rows) && TimesAscend(rows) && SyncedAt(k, cal, rows, identity, t, s)
    requires ActiveCaughtUp(Some(s), rows, end - 1) && 1 < end && first < end
    ensures NoneLate(rows, k, first, end) <==> forall r :: r in rows[k..] ==> r.timeMs != Some(end - 1)
  {
    hide Describes, MaxTime, ActiveCaughtUp;
    CaughtUpIsSound(cal, rows, identity, t, s, k, end - 1);
    forall r | r in rows[k..] && r.timeMs.Some? ensures r.timeMs.value >= end - 1 {
      var j :| k <= j < |rows| && rows[j] == r;
      if s.maxTimeMs >= end - 1 {
        var i := MaxTimeIsARow(rows[..k]);
        assert rows[i] == rows[..k][i];
      }
    }
  }

  /**
   A row of a day that is over arrives after a row of a later day has been counted: the check
   passes, because it looks at the newest time first, and the late row is missing.
   */
  lemma NewestTimeHidesLateRows(slice: map<string, Acc>, t: Tables, s: ActiveState, cal: Calendar, next: NextDay,
                                newer: Row, late: Row, identity: int, dim: Dim, first: int, end: int)
    requires ValidCalendar(cal, next) && cal(first) == Some(first) && cal(end) == Some(end) && 1 < end
    requires newer.id < late.id && newer.timeMs.Some? && late.timeMs.Some?
    requires first <= late.timeMs.value < end <= newer.timeMs.value
    requires SyncedAt(1, cal, [newer, late], identity, t, s) && IsSlice(slice, t, dim, first, end)
    ensures ActiveCaughtUp(Some(s), [newer, late], end - 1)
    ensures !SliceIsRight(slice, [newer, late], dim, first, end)
  {
    hide ValidCalendar, Describes, IsSlice, SliceIsRight;
    var rows := [newer, late];
    assert rows[..1] == [newer] && [newer][..0] == [] && MaxTime([]) == 0;
    assert late in rows[1..];
    CaughtUpAnswersRightIff(slice, t, s, cal, next, rows, identity, 1, dim, first, end);
  }

  /**
   From the check to the answer: an active store whose rows arrive in time order answers range
   queries as one scan would, unless a row still uncounted falls on the last instant of the days.
   */
  lemma ActiveAnswerIsTheScan(slice: map<string, Acc>, t: Tables, s: ActiveState, cal: Calendar, next: NextDay,
                              rows: seq<Row>, identity: int, k: nat, dim: Dim, from: int, to: int,
                              metrics: set<MetricName>)
    requires ValidCalendar(cal, next) && from <= to && FullDayBounds(cal, next, from, to).Some?
    requires NonNegative(rows) && CountersFit(rows, dim, from, to)
    requires Ascending(rows) && TimesAscend(rows) && SyncedAt(k, cal, rows, identity, t, s)
    requires var (first, end) := FullDayBounds(cal, next, from, to).value;
      first < end && 1 < end && IsSlice(slice, t, dim, first, end) && MayAnswer(Active(Some(s)), rows, end - 1) &&
      forall r :: r in rows[k..] ==> r.timeMs != Some(end - 1)
    ensures var (first, end) := FullDayBounds(cal, next, from, to).value;
      WithWindows(SliceGroups(slice, metrics), rows, dim, CorrectionWindows(from, to, first, end), metrics) ==
        ScanGroups(rows, dim, from, to, metrics)
  {
    hide ValidCalendar, FullDayBounds, IsSlice, NonNegative, CountersFit, SliceGroups, ScanGroups, Describes,
      ActiveCaughtUp, MaxTime;
    var (first, end) := FullDayBounds(cal, next, from, to).value;
    InOrderOnlyTheLastInstantIsLate(t, s, cal, rows, identity, k, first, end);
    RollupAnswerIsTheScan(slice, t, cal, next, rows, k, dim, from, to, metrics);
  }
}
