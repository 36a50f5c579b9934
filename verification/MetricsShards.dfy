/**
 The answer over all shards: each shard answers for its own rows, from a scan or from its
 totals, and the merged answers are one scan of all rows.
 */
module MetricsShards {
  import opened Wrappers
  import opened Numbers
  import opened Aggregate
  import opened MetricsMerge
  import opened MetricsEngine
  import opened MetricsRollup

  /** The rows of all shards, one shard after the other. */
  function AllRows(shards: seq<seq<Row>>): seq<Row> {
    if shards == [] then [] else AllRows(shards[..|shards| - 1]) + shards[|shards| - 1]
  }

  // ---------------------------------------------------------------- metrics of two lists of rows

  lemma {:induction false} IntMetricOfBoth(a: seq<Row>, b: seq<Row>, p: RowFilter, m: MetricName)
    requires IsInt(m) && NonNegative(a + b)
    ensures ScanMetric(a + b, p, m).i == ScanMetric(a, p, m).i + ScanMetric(b, p, m).i
    ensures 0 <= ScanMetric(a, p, m).i && 0 <= ScanMetric(b, p, m).i
    decreases |b|
  {
    NonNegativeParts(a, b);
    IntMetricSplits(a, p, Nothing, p, m);
    IntMetricSplits(b, p, Nothing, p, m);
    if b == [] {
      assert a + b == a;
    } else {
      var n := |b| - 1;
      assert a + b == (a + b[..n]) + [b[n]] && (a + b)[..|a| + n] == a + b[..n];
      NonNegativeParts(a + b[..n], [b[n]]);
      IntMetricOfBoth(a, b[..n], p, m);
    }
  }

  lemma NonNegativeParts(a: seq<Row>, b: seq<Row>)
    requires NonNegative(a + b)
    ensures NonNegative(a) && NonNegative(b)
  {
    assert forall r :: r in a || r in b ==> r in a + b;
  }

  lemma {:induction false} MaxOfBoth(a: seq<Row>, b: seq<Row>, p: RowFilter)
    requires NonNegative(a + b)
    ensures Coalesce(MaxReal(a + b, p)) == Max(Coalesce(MaxReal(a, p)), Coalesce(MaxReal(b, p)))
    ensures MaxReal(a + b, p).None? <==> MaxReal(a, p).None? && MaxReal(b, p).None?
    ensures Coalesce(MaxReal(a, p)) >= 0.0 && Coalesce(MaxReal(b, p)) >= 0.0
    decreases |b|
  {
    NonNegativeParts(a, b);
    MaxSplits(a, p, Nothing, p);
    MaxSplits(b, p, Nothing, p);
    if b == [] {
      assert a + b == a;
    } else {
      var n := |b| - 1;
      assert a + b == (a + b[..n]) + [b[n]] && (a + b)[..|a| + n] == a + b[..n];
      assert b[n] in b;
      NonNegativeParts(a + b[..n], [b[n]]);
      MaxOfBoth(a, b[..n], p);
    }
  }

  lemma {:induction false} RealSumOfBoth(a: seq<Row>, b: seq<Row>, p: RowFilter, m: MetricName)
    requires m.LatencySum? || m.TtftSum?
    ensures ScanMetric(a + b, p, m).r == ScanMetric(a, p, m).r + ScanMetric(b, p, m).r
    decreases |b|
  {
    if b == [] {
      assert a + b == a;
    } else {
      var n := |b| - 1;
      assert (a + b)[..|a| + n] == a + b[..n];
      RealSumOfBoth(a, b[..n], p, m);
    }
  }

  /** One metric of all rows is the combination of the metrics of the parts, if the counter fits. */
  lemma MetricOfBoth(a: seq<Row>, b: seq<Row>, p: RowFilter, m: MetricName)
    requires NonNegative(a + b) && !IsDerived(m)
    requires IsInt(m) ==> ScanMetric(a + b, p, m).i <= I64_MAX
    ensures ScanMetric(a + b, p, m) == Combine(ScanMetric(a, p, m), ScanMetric(b, p, m), m.MaxLatency?)
    ensures IsInt(m) ==> 0 <= ScanMetric(a, p, m).i <= I64_MAX && 0 <= ScanMetric(b, p, m).i <= I64_MAX
  {
    if IsInt(m) {
      hide ScanMetric;
      IntMetricOfBoth(a, b, p, m);
    } else if m.MaxLatency? {
      MaxOfBoth(a, b, p);
    } else {
      RealSumOfBoth(a, b, p, m);
    }
  }

  /** Rows outside the group do not count. */
  lemma {:induction false} NothingScanned(rows: seq<Row>, p: RowFilter, m: MetricName)
    requires !IsDerived(m) && forall r :: r in rows ==> !p(r)
    ensures ScanMetric(rows, p, m) == (if IsReal(m) then Real(0.0) else Integer(0))
    ensures MaxReal(rows, p).None?
  {
    if rows != [] {
      var n := |rows| - 1;
      assert rows[n] in rows && forall r :: r in rows[..n] ==> r in rows;
      NothingScanned(rows[..n], p, m);
      NoMaximum(rows, p);
    }
  }

  lemma {:induction false} NoMaximum(rows: seq<Row>, p: RowFilter)
    requires forall r :: r in rows ==> !p(r)
    ensures MaxReal(rows, p).None?
  {
    if rows != [] {
      var n := |rows| - 1;
      assert rows[n] in rows && forall r :: r in rows[..n] ==> r in rows;
      NoMaximum(rows[..n], p);
    }
  }

  // ---------------------------------------------------------------- two shards

  lemma NamesOfBoth(a: seq<Row>, b: seq<Row>, dim: Dim, lo: int, hi: int)
    ensures GroupNames(a + b, dim, lo, hi) == GroupNames(a, dim, lo, hi) + GroupNames(b, dim, lo, hi)
  {
    hide GroupExpr;
    assert forall r :: r in a + b <==> r in a || r in b;
  }

  /** One group of all rows, merged from the group of each part or taken from the only part that has it. */
  lemma ScanOfBoth(a: seq<Row>, b: seq<Row>, p: RowFilter, metrics: set<MetricName>)
    requires NonNegative(a + b)
    requires forall m :: IsInt(m) ==> ScanMetric(a + b, p, m).i <= I64_MAX
    ensures MergeMetrics(ScanOf(a, p, metrics), ScanOf(b, p, metrics), metrics) == ScanOf(a + b, p, metrics)
    ensures (forall r :: r in a ==> !p(r)) ==> ScanOf(a + b, p, metrics) == ScanOf(b, p, metrics)
    ensures (forall r :: r in b ==> !p(r)) ==> ScanOf(a + b, p, metrics) == ScanOf(a, p, metrics)
  {
    hide ScanMetric, Combine, NonNegative;
    forall m | !IsDerived(m)
      ensures ScanMetric(a + b, p, m) == Combine(ScanMetric(a, p, m), ScanMetric(b, p, m), m.MaxLatency?)
      ensures (forall r :: r in a ==> !p(r)) ==> ScanMetric(a + b, p, m) == ScanMetric(b, p, m)
      ensures (forall r :: r in b ==> !p(r)) ==> ScanMetric(a + b, p, m) == ScanMetric(a, p, m)
    {
      MetricOfBoth(a, b, p, m);
      OneSideEmpty(a, b, p, m);
    }
  }

  lemma GroupOfBoth(a: seq<Row>, b: seq<Row>, dim: Dim, name: string, lo: int, hi: int, metrics: set<MetricName>)
    requires NonNegative(a + b) && CountersFit(a + b, dim, lo, hi) && name in GroupNames(a + b, dim, lo, hi)
    ensures MergeMetrics(MetricsOf(ScanGroups(a, dim, lo, hi, metrics), name),
                         MetricsOf(ScanGroups(b, dim, lo, hi, metrics), name), metrics) ==
      ScanOf(a + b, GroupFilter(dim, name, lo, hi), metrics)
  {
    hide GroupExpr, ScanMetric, Combine, GroupNames, NonNegative, GroupFilter, ScanOf, MergeMetrics;
    var p := GroupFilter(dim, name, lo, hi);
    NamesOfBoth(a, b, dim, lo, hi);
    NamesAreRows(a, dim, name, lo, hi);
    NamesAreRows(b, dim, name, lo, hi);
    ScanOfBoth(a, b, p, metrics);
    if name !in GroupNames(a, dim, lo, hi) {
      MergeIntoNothing(b, p, metrics);
    } else if name !in GroupNames(b, dim, lo, hi) {
      MergeNothing(ScanOf(a, p, metrics), metrics);
    }
  }

  lemma OneSideEmpty(a: seq<Row>, b: seq<Row>, p: RowFilter, m: MetricName)
    requires NonNegative(a + b) && !IsDerived(m)
    requires IsInt(m) ==> ScanMetric(a + b, p, m).i <= I64_MAX
    ensures (forall r :: r in a ==> !p(r)) ==> ScanMetric(a + b, p, m) == ScanMetric(b, p, m)
    ensures (forall r :: r in b ==> !p(r)) ==> ScanMetric(a + b, p, m) == ScanMetric(a, p, m)
  {
    MetricOfBoth(a, b, p, m);
    if m.MaxLatency? {
      MaxOfBoth(a, b, p);
    }
    hide NonNegative;
    if forall r :: r in a ==> !p(r) {
      NothingScanned(a, p, m);
    }
    if forall r :: r in b ==> !p(r) {
      NothingScanned(b, p, m);
    }
  }

  /** Scans of two shards, merged, are one scan of the rows of both. */
  lemma ShardScansMerge(a: seq<Row>, b: seq<Row>, dim: Dim, lo: int, hi: int, metrics: set<MetricName>)
    requires NonNegative(a + b) && CountersFit(a + b, dim, lo, hi)
    ensures MergeGroups(ScanGroups(a, dim, lo, hi, metrics), ScanGroups(b, dim, lo, hi, metrics), metrics) ==
      ScanGroups(a + b, dim, lo, hi, metrics)
  {
    hide GroupExpr, ScanMetric, Combine, ScanOf, MergeMetrics, GroupNames;
    var x, y := ScanGroups(a, dim, lo, hi, metrics), ScanGroups(b, dim, lo, hi, metrics);
    var u, c := MergeGroups(x, y, metrics), ScanGroups(a + b, dim, lo, hi, metrics);
    NamesOfBoth(a, b, dim, lo, hi);
    assert u.Keys == c.Keys;
    forall name | name in c ensures u[name] == c[name] {
      GroupOfBoth(a, b, dim, name, lo, hi, metrics);
    }
  }

  lemma PartsFit(a: seq<Row>, b: seq<Row>, dim: Dim, lo: int, hi: int)
    requires NonNegative(a + b) && CountersFit(a + b, dim, lo, hi)
    ensures NonNegative(a) && NonNegative(b) && CountersFit(a, dim, lo, hi) && CountersFit(b, dim, lo, hi)
  {
    NonNegativeParts(a, b);
    hide ScanMetric, NonNegative, GroupFilter;
    forall name, m | IsInt(m)
      ensures ScanMetric(a, GroupFilter(dim, name, lo, hi), m).i <= I64_MAX
      ensures ScanMetric(b, GroupFilter(dim, name, lo, hi), m).i <= I64_MAX
    {
      IntMetricOfBoth(a, b, GroupFilter(dim, name, lo, hi), m);
    }
  }

  // ---------------------------------------------------------------- all shards

  function Scans(shards: seq<seq<Row>>, dim: Dim, lo: int, hi: int, metrics: set<MetricName>): (r: seq<GroupRows>)
    ensures |r| == |shards|
  {
    seq(|shards|, i requires 0 <= i < |shards| => ScanGroups(shards[i], dim, lo, hi, metrics))
  }

  lemma {:induction false} MergedScansAreOneScan(shards: seq<seq<Row>>, dim: Dim, lo: int, hi: int,
                                                 metrics: set<MetricName>)
    requires NonNegative(AllRows(shards)) && CountersFit(AllRows(shards), dim, lo, hi)
    ensures MergeAll(Scans(shards, dim, lo, hi, metrics), metrics) == ScanGroups(AllRows(shards), dim, lo, hi, metrics)
    ensures AllGood(Scans(shards, dim, lo, hi, metrics), metrics)
  {
    hide NonNegative, CountersFit, MergeGroups, Good, ScanGroups, Scans, MergeAll, AllGood;
    if shards == [] {
      NoShards(dim, lo, hi, metrics);
    } else {
      var n := |shards| - 1;
      var front, last := AllRows(shards[..n]), shards[n];
      PartsFit(front, last, dim, lo, hi);
      MergedScansAreOneScan(shards[..n], dim, lo, hi, metrics);
      OneMoreScan(shards, dim, lo, hi, metrics);
      ShardScansMerge(front, last, dim, lo, hi, metrics);
      ScanGroupsAreGood(last, dim, lo, hi, metrics);
      OneMoreAnswer(Scans(shards[..n], dim, lo, hi, metrics), ScanGroups(last, dim, lo, hi, metrics), metrics);
    }
  }

  lemma NoShards(dim: Dim, lo: int, hi: int, metrics: set<MetricName>)
    ensures Scans([], dim, lo, hi, metrics) == [] && AllGood([], metrics)
    ensures MergeAll([], metrics) == map[] == ScanGroups([], dim, lo, hi, metrics)
  {
    hide ScanOf;
  }

  lemma OneMoreScan(shards: seq<seq<Row>>, dim: Dim, lo: int, hi: int, metrics: set<MetricName>)
    requires shards != []
    ensures Scans(shards, dim, lo, hi, metrics) ==
      Scans(shards[..|shards| - 1], dim, lo, hi, metrics) + [ScanGroups(shards[|shards| - 1], dim, lo, hi, metrics)]
  {
    hide ScanGroups;
  }

  lemma OneMoreAnswer(answers: seq<GroupRows>, g: GroupRows, metrics: set<MetricName>)
    ensures MergeAll(answers + [g], metrics) == MergeGroups(MergeAll(answers, metrics), g, metrics)
    ensures AllGood(answers, metrics) && Good(g, metrics) ==> AllGood(answers + [g], metrics)
  {
    hide MergeGroups, Good;
    assert (answers + [g])[..|answers|] == answers;
  }

  /** A shard's answer: the scan of its rows, or its totals of the whole days with the scans of the two ends. */
  ghost predicate IsAnswer(g: GroupRows, rows: seq<Row>, cal: Calendar, next: NextDay,
                           dim: Dim, from: int, to: int, metrics: set<MetricName>) {
    g == ScanGroups(rows, dim, from, to, metrics) ||
    (FullDayBounds(cal, next, from, to).Some? &&
     var (first, end) := FullDayBounds(cal, next, from, to).value;
     first < end &&
     exists slice, t, k: nat ::
       Covered(t, cal, rows, k, first, end) && IsSlice(slice, t, dim, first, end) &&
       g == WithWindows(SliceGroups(slice, metrics), rows, dim, CorrectionWindows(from, to, first, end), metrics))
  }

  lemma AnswerIsTheScan(g: GroupRows, rows: seq<Row>, cal: Calendar, next: NextDay,
                        dim: Dim, from: int, to: int, metrics: set<MetricName>)
    requires ValidCalendar(cal, next) && from <= to && IsAnswer(g, rows, cal, next, dim, from, to, metrics)
    requires NonNegative(rows) && CountersFit(rows, dim, from, to)
    ensures g == ScanGroups(rows, dim, from, to, metrics)
  {
    hide ValidCalendar, FullDayBounds, Covered, IsSlice, NonNegative, CountersFit, SliceGroups, ScanGroups;
    if g != ScanGroups(rows, dim, from, to, metrics) {
      var (first, end) := FullDayBounds(cal, next, from, to).value;
      var slice, t, k: nat :|
        Covered(t, cal, rows, k, first, end) && IsSlice(slice, t, dim, first, end) &&
        g == WithWindows(SliceGroups(slice, metrics), rows, dim, CorrectionWindows(from, to, first, end), metrics);
      RollupAnswerIsTheScan(slice, t, cal, next, rows, k, dim, from, to, metrics);
    }
  }

  lemma {:induction false} EachShardFits(shards: seq<seq<Row>>, dim: Dim, lo: int, hi: int, i: nat)
    requires NonNegative(AllRows(shards)) && CountersFit(AllRows(shards), dim, lo, hi) && i < |shards|
    ensures NonNegative(shards[i]) && CountersFit(shards[i], dim, lo, hi)
  {
    hide NonNegative, CountersFit;
    var n := |shards| - 1;
    PartsFit(AllRows(shards[..n]), shards[n], dim, lo, hi);
    if i < n {
      EachShardFits(shards[..n], dim, lo, hi, i);
    }
  }

  /**
   Main result: whichever shards answer from their totals and whichever by a scan, and in
   whatever order they are merged, the answer is one scan of the rows of all shards. Its groups are
   the names in the column asked for, each with the metrics of the rows that have it.
   */
  lemma ShardsAnswerAsOneScan(shards: seq<seq<Row>>, answers: seq<GroupRows>, merged: seq<GroupRows>,
                              cal: Calendar, next: NextDay, dim: Dim, from: int, to: int, metrics: set<MetricName>)
    requires ValidCalendar(cal, next) && from <= to
    requires NonNegative(AllRows(shards)) && CountersFit(AllRows(shards), dim, from, to)
    requires |answers| == |shards| && multiset(merged) == multiset(answers)
    requires forall i :: 0 <= i < |shards| ==> IsAnswer(answers[i], shards[i], cal, next, dim, from, to, metrics)
    ensures MergeAll(merged, metrics) == ScanGroups(AllRows(shards), dim, from, to, metrics)
    ensures forall name ::
      var p := ColumnFilter(dim, name, from, to);
      (name in MergeAll(merged, metrics) <==> exists r :: r in AllRows(shards) && p(r)) &&
      (name in MergeAll(merged, metrics) ==> MergeAll(merged, metrics)[name] == ScanOf(AllRows(shards), p, metrics))
  {
    hide ValidCalendar, NonNegative, CountersFit, IsAnswer, ScanGroups, MergeAll, AllGood, AllRows, ScanOf,
      ColumnFilter;
    var scans := Scans(shards, dim, from, to, metrics);
    forall i | 0 <= i < |shards| ensures answers[i] == scans[i] {
      EachShardFits(shards, dim, from, to, i);
      AnswerIsTheScan(answers[i], shards[i], cal, next, dim, from, to, metrics);
    }
    assert answers == scans;
    MergedScansAreOneScan(shards, dim, from, to, metrics);
    MergeOrderIsInvisible(scans, merged, metrics);
    forall name ensures var p := ColumnFilter(dim, name, from, to);
      (name in MergeAll(merged, metrics) <==> exists r :: r in AllRows(shards) && p(r)) &&
      (name in MergeAll(merged, metrics) ==> MergeAll(merged, metrics)[name] == ScanOf(AllRows(shards), p, metrics))
    {
      AnswerByColumn(AllRows(shards), dim, name, from, to, metrics);
    }
  }
}
