/** Totals of whole days and scans of the two ends, merged, against the direct scan of the range. */
module MetricsRollup {
  import opened Wrappers
  import opened Numbers
  import opened Aggregate
  import opened AggregateStore
  import opened MetricsMerge
  import opened MetricsEngine

  /** SQL's `NULLIF`. */
  function NullIf(column: Option<string>, text: string): Option<string> {
    if column == Some(text) then None else column
  }

  /** `dimension_expr`, column by column as the query has them: `COALESCE(NULLIF(..., ''), 'Unknown')`. */
  function GroupExpr(r: Row, dim: Dim): string {
    match dim
    case ApiKey => OrElse(NullIf(r.apiKey, ""), "Unknown")
    case Ip => OrElse(NullIf(r.ip, ""), "Unknown")
    case Type => OrElse(NullIf(r.kind, ""), "Unknown")
    case Backend => OrElse(NullIf(r.backend, ""), "Unknown")
    case Client => OrElse(NullIf(r.client, ""), "Unknown")
    case Status => if r.status.None? then "Unknown" else Decimal(r.status.value)
    case Model => OrElse(NullIf(r.model, ""), "Unknown")
  }

  /** The query groups by what the aggregation counts under. */
  lemma GroupExprIs(r: Row, dim: Dim)
    ensures GroupExpr(r, dim) == DimValue(r, dim)
  {
    match dim
    case _ =>
  }

  function GroupFilter(dim: Dim, name: string, lo: int, hi: int): RowFilter {
    (r: Row) => r.timeMs.Some? && lo <= r.timeMs.value <= hi && GroupExpr(r, dim) == name
  }

  function GroupNames(rows: seq<Row>, dim: Dim, lo: int, hi: int): set<string> {
    set r | r in rows && r.timeMs.Some? && lo <= r.timeMs.value <= hi :: GroupExpr(r, dim)
  }

  /** Which rows are in a group, by the column itself: its text, or `Unknown` where there is none. */
  lemma GroupsByColumn(r: Row, name: string, lo: int, hi: int)
    requires r.timeMs.Some? && lo <= r.timeMs.value <= hi
    ensures GroupFilter(Model, name, lo, hi)(r) <==> IsTextOf(r.model, name)
    ensures GroupFilter(ApiKey, name, lo, hi)(r) <==> IsTextOf(r.apiKey, name)
    ensures GroupFilter(Ip, name, lo, hi)(r) <==> IsTextOf(r.ip, name)
    ensures GroupFilter(Type, name, lo, hi)(r) <==> IsTextOf(r.kind, name)
    ensures GroupFilter(Backend, name, lo, hi)(r) <==> IsTextOf(r.backend, name)
    ensures GroupFilter(Client, name, lo, hi)(r) <==> IsTextOf(r.client, name)
    ensures GroupFilter(Status, name, lo, hi)(r) <==> IsNumberOf(r.status, name)
  {
  }

  function ScanOf(rows: seq<Row>, p: RowFilter, metrics: set<MetricName>): Metrics {
    map m | m in metrics && !IsDerived(m) :: ScanMetric(rows, p, m)
  }

  /** `SELECT <dim>, <metrics> ... WHERE TimeMs >= lo AND TimeMs <= hi GROUP BY 1`. */
  function ScanGroups(rows: seq<Row>, dim: Dim, lo: int, hi: int, metrics: set<MetricName>): GroupRows {
    map name | name in GroupNames(rows, dim, lo, hi) :: ScanOf(rows, GroupFilter(dim, name, lo, hi), metrics)
  }

  // ---------------------------------------------------------------- reading the tables

  predicate InSlice(c: Cell, dim: Dim, name: string, first: int, end: int) {
    c.DimCell? && c.dim == dim && c.value == name && first <= c.day < end
  }

  ghost predicate Enumerates(cells: seq<Cell>, t: Tables, dim: Dim, name: string, first: int, end: int) {
    (forall i, j :: 0 <= i < j < |cells| ==> cells[i] != cells[j]) &&
    forall c :: c in cells <==> c in t.sums && InSlice(c, dim, name, first, end)
  }

  function SumCells(t: Tables, cells: seq<Cell>): Acc
    requires forall c :: c in cells ==> c in t.sums
  {
    if cells == [] then ZERO else Add(SumCells(t, cells[..|cells| - 1]), t.sums[cells[|cells| - 1]])
  }

  /** `SELECT value, SUM(...) ... GROUP BY value` over the days in range, in any order of the rows. */
  ghost predicate IsSlice(slice: map<string, Acc>, t: Tables, dim: Dim, first: int, end: int) {
    (forall name :: name in slice <==> exists c :: c in t.sums && InSlice(c, dim, name, first, end)) &&
    forall name :: name in slice ==>
      exists cells :: Enumerates(cells, t, dim, name, first, end) && slice[name] == SumCells(t, cells)
  }

  function AccMetrics(a: Acc, metrics: set<MetricName>): Metrics {
    map m | m in metrics && AccMetric(a, m).Some? :: AccMetric(a, m).value
  }

  function SliceGroups(slice: map<string, Acc>, metrics: set<MetricName>): GroupRows {
    map name | name in slice :: AccMetrics(slice[name], metrics)
  }

  function WithWindows(groups: GroupRows, rows: seq<Row>, dim: Dim, ws: seq<(int, int)>,
                       metrics: set<MetricName>): GroupRows {
    if ws == [] then groups
    else
      var n := |ws| - 1;
      MergeGroups(WithWindows(groups, rows, dim, ws[..n], metrics), ScanGroups(rows, dim, ws[n].0, ws[n].1, metrics),
                  metrics)
  }

  // ---------------------------------------------------------------- whole days are a scan

  /** Disjoint predicates: the fold over either is the sum of the folds. */
  lemma {:induction false} SumOfDisjoint(rows: seq<Row>, p: RowFilter, q: RowFilter, pq: RowFilter)
    requires forall r :: r in rows ==> (pq(r) <==> p(r) || q(r)) && !(p(r) && q(r))
    ensures SumOf(rows, pq) == Add(SumOf(rows, p), SumOf(rows, q))
  {
    hide Add, Observe;
    if rows == [] {
      AddZeros();
    } else {
      var n := |rows| - 1;
      assert rows[n] in rows && forall r :: r in rows[..n] ==> r in rows;
      SumOfDisjoint(rows[..n], p, q, pq);
      ObserveEitherSide(SumOf(rows[..n], p), SumOf(rows[..n], q), rows[n]);
    }
  }

  lemma AddZeros()
    ensures Add(ZERO, ZERO) == ZERO
  {
  }

  lemma ObserveEitherSide(a: Acc, b: Acc, r: Row)
    ensures Observe(Add(a, b), r) == Add(Observe(a, r), b) == Add(a, Observe(b, r))
  {
  }

  function CellsFilter(cal: Calendar, cells: seq<Cell>): RowFilter {
    (r: Row) => exists c :: c in cells && InCell(cal, r, c)
  }

  /** Adding the cells of different days of one group folds over the rows of all those days. */
  lemma {:induction false} SumCellsIsTheFold(t: Tables, cal: Calendar, rows: seq<Row>, cells: seq<Cell>, dim: Dim,
                                             name: string)
    requires Describes(t, cal, rows)
    requires forall c :: c in cells ==> c in t.sums && c.DimCell? && c.dim == dim && c.value == name
    requires forall i, j :: 0 <= i < j < |cells| ==> cells[i] != cells[j]
    ensures SumCells(t, cells) == SumOf(rows, CellsFilter(cal, cells))
  {
    hide Add, DimValue, HasMeasure, IsDistinct, BucketCount;
    if cells == [] {
      SumOfFacts(rows, CellsFilter(cal, cells));
    } else {
      var n := |cells| - 1;
      var front, last := cells[..n], cells[n];
      assert last in cells && forall c :: c in cells <==> c in front || c == last;
      SumCellsIsTheFold(t, cal, rows, front, dim, name);
      forall r | r in rows
        ensures CellsFilter(cal, cells)(r) <==> CellsFilter(cal, front)(r) || CellFilter(cal, last)(r)
        ensures !(CellsFilter(cal, front)(r) && CellFilter(cal, last)(r))
      {
      }
      SumOfDisjoint(rows, CellsFilter(cal, front), CellFilter(cal, last), CellsFilter(cal, cells));
    }
  }

  /** The rows the answer is about: what the tables cover, and later rows that fall in no whole day. */
  ghost predicate Covered(t: Tables, cal: Calendar, rows: seq<Row>, k: nat, first: int, end: int) {
    k <= |rows| && Describes(t, cal, rows[..k]) &&
    forall r :: r in rows[k..] && r.timeMs.Some? ==> !(first <= r.timeMs.value < end)
  }

  lemma SliceIsTheFold(slice: map<string, Acc>, t: Tables, cal: Calendar, next: NextDay, rows: seq<Row>, k: nat,
                       dim: Dim, first: int, end: int, name: string)
    requires ValidCalendar(cal, next) && cal(first) == Some(first) && cal(end) == Some(end)
    requires Covered(t, cal, rows, k, first, end) && IsSlice(slice, t, dim, first, end)
    ensures name in slice <==> name in GroupNames(rows, dim, first, end - 1)
    ensures name in slice ==> slice[name] == SumOf(rows, GroupFilter(dim, name, first, end - 1))
  {
    hide ValidCalendar, GroupExpr, DimValue, SumOf, SumCells, Describes, InSlice;
    var p := GroupFilter(dim, name, first, end - 1);
    forall r | r in rows[..k]
      ensures p(r) <==> exists c :: InSlice(c, dim, name, first, end) && InCell(cal, r, c)
    {
      RowInSlice(cal, next, dim, name, first, end, r);
    }
    RestIsOutside(rows, k, p);
    SliceNames(t, cal, rows[..k], dim, name, first, end, p);
    NamesAreRows(rows, dim, name, first, end - 1);
    if name in slice {
      var cells :| Enumerates(cells, t, dim, name, first, end) && slice[name] == SumCells(t, cells);
      EnumeratedCells(cells, t, dim, name, first, end);
      SumCellsIsTheFold(t, cal, rows[..k], cells, dim, name);
      CellsAreTheGroup(t, cal, rows[..k], cells, dim, name, first, end, p);
    }
  }

  lemma EnumeratedCells(cells: seq<Cell>, t: Tables, dim: Dim, name: string, first: int, end: int)
    requires Enumerates(cells, t, dim, name, first, end)
    ensures forall c :: c in cells ==> c in t.sums && c.DimCell? && c.dim == dim && c.value == name
    ensures forall i, j :: 0 <= i < j < |cells| ==> cells[i] != cells[j]
  {
  }

  lemma NamesAreRows(rows: seq<Row>, dim: Dim, name: string, lo: int, hi: int)
    ensures name in GroupNames(rows, dim, lo, hi) <==> exists r :: r in rows && GroupFilter(dim, name, lo, hi)(r)
  {
    hide GroupExpr;
  }

  /** Rows that all fail a predicate add nothing to its fold. */
  lemma RestIsOutside(rows: seq<Row>, k: nat, p: RowFilter)
    requires k <= |rows| && forall r :: r in rows[k..] ==> !p(r)
    ensures SumOf(rows, p) == SumOf(rows[..k], p)
    ensures (exists r :: r in rows && p(r)) <==> exists r :: r in rows[..k] && p(r)
  {
    hide SumOf, Add;
    assert rows == rows[..k] + rows[k..];
    SumOfSplits(rows[..k], rows[k..], p);
    NoneSummed(rows[k..], p);
    SumOfFacts(rows[..k], p);
    AddZeroRight(SumOf(rows[..k], p));
  }

  lemma AddZeroRight(a: Acc)
    requires a.latencyMax >= 0.0
    ensures Add(a, ZERO) == a
  {
  }

  lemma NoneSummed(rows: seq<Row>, p: RowFilter)
    requires forall r :: r in rows ==> !p(r)
    ensures SumOf(rows, p) == ZERO
  {
    SumOfFacts(rows, p);
  }

  lemma RowInSlice(cal: Calendar, next: NextDay, dim: Dim, name: string, first: int, end: int, r: Row)
    requires ValidCalendar(cal, next) && cal(first) == Some(first) && cal(end) == Some(end)
    ensures GroupFilter(dim, name, first, end - 1)(r) <==>
      exists c :: InSlice(c, dim, name, first, end) && InCell(cal, r, c)
  {
    hide ValidCalendar, GroupExpr, DimValue;
    GroupExprIs(r, dim);
    if r.timeMs.Some? {
      DaysAreWhole(cal, next, first, end, r.timeMs.value);
      var c := DimCell(cal(r.timeMs.value).value, dim, name);
      assert GroupFilter(dim, name, first, end - 1)(r) <==> InSlice(c, dim, name, first, end) && InCell(cal, r, c);
    }
  }

  lemma SliceNames(t: Tables, cal: Calendar, rows: seq<Row>, dim: Dim, name: string, first: int, end: int, p: RowFilter)
    requires Describes(t, cal, rows)
    requires forall r :: r in rows ==> (p(r) <==> exists c :: InSlice(c, dim, name, first, end) && InCell(cal, r, c))
    ensures (exists c :: c in t.sums && InSlice(c, dim, name, first, end)) <==> exists r :: r in rows && p(r)
  {
    hide InCell, InSlice, HasMeasure, IsDistinct, BucketCount, SumOf;
    if c :| c in t.sums && InSlice(c, dim, name, first, end) {
      var r :| r in rows && InCell(cal, r, c);
      assert p(r);
    }
    if r :| r in rows && p(r) {
      var c :| InSlice(c, dim, name, first, end) && InCell(cal, r, c);
      assert c in t.sums;
    }
  }

  lemma CellsAreTheGroup(t: Tables, cal: Calendar, rows: seq<Row>, cells: seq<Cell>, dim: Dim, name: string,
                         first: int, end: int, p: RowFilter)
    requires Describes(t, cal, rows) && Enumerates(cells, t, dim, name, first, end)
    requires forall r :: r in rows ==> (p(r) <==> exists c :: InSlice(c, dim, name, first, end) && InCell(cal, r, c))
    ensures SumOf(rows, CellsFilter(cal, cells)) == SumOf(rows, p)
  {
    hide InCell, InSlice, HasMeasure, IsDistinct, BucketCount, SumOf;
    forall r | r in rows ensures CellsFilter(cal, cells)(r) == p(r) {
      if p(r) {
        var c :| InSlice(c, dim, name, first, end) && InCell(cal, r, c);
        assert c in t.sums && c in cells;
      }
    }
    SumOfSame(rows, CellsFilter(cal, cells), p);
  }

  // ---------------------------------------------------------------- scans of adjacent ranges merge

  /** Latencies and token counts as the writer stores them. */
  ghost predicate NonNegative(rows: seq<Row>) {
    forall r :: r in rows ==>
      (r.latency.Some? ==> r.latency.value >= 0.0) &&
      OrElse(r.prompt, 0) >= 0 && OrElse(r.completion, 0) >= 0 && OrElse(r.total, 0) >= 0
  }

  predicate IsInt(m: MetricName) {
    !IsDerived(m) && !IsReal(m)
  }

  lemma {:induction false} IntMetricSplits(rows: seq<Row>, p: RowFilter, q: RowFilter, pq: RowFilter, m: MetricName)
    requires NonNegative(rows) && IsInt(m)
    requires forall r :: r in rows ==> (pq(r) <==> p(r) || q(r)) && !(p(r) && q(r))
    ensures ScanMetric(rows, pq, m).i == ScanMetric(rows, p, m).i + ScanMetric(rows, q, m).i
    ensures 0 <= ScanMetric(rows, p, m).i && 0 <= ScanMetric(rows, q, m).i
  {
    if rows != [] {
      var n := |rows| - 1;
      assert rows[n] in rows && forall r :: r in rows[..n] ==> r in rows;
      IntMetricSplits(rows[..n], p, q, pq, m);
    }
  }

  lemma {:induction false} RealMetricSplits(rows: seq<Row>, p: RowFilter, q: RowFilter, pq: RowFilter, m: MetricName)
    requires NonNegative(rows) && IsReal(m)
    requires forall r :: r in rows ==> (pq(r) <==> p(r) || q(r)) && !(p(r) && q(r))
    ensures ScanMetric(rows, pq, m) == Combine(ScanMetric(rows, p, m), ScanMetric(rows, q, m), m.MaxLatency?)
    ensures MaxReal(rows, pq).None? <==> MaxReal(rows, p).None? && MaxReal(rows, q).None?
    ensures Coalesce(MaxReal(rows, p)) >= 0.0 && Coalesce(MaxReal(rows, q)) >= 0.0
  {
    if rows != [] {
      var n := |rows| - 1;
      assert rows[n] in rows && forall r :: r in rows[..n] ==> r in rows;
      RealMetricSplits(rows[..n], p, q, pq, m);
      MaxSplits(rows, p, q, pq);
    }
  }

  lemma {:induction false} MaxSplits(rows: seq<Row>, p: RowFilter, q: RowFilter, pq: RowFilter)
    requires NonNegative(rows)
    requires forall r :: r in rows ==> (pq(r) <==> p(r) || q(r)) && !(p(r) && q(r))
    ensures Coalesce(MaxReal(rows, pq)) == Max(Coalesce(MaxReal(rows, p)), Coalesce(MaxReal(rows, q)))
    ensures MaxReal(rows, pq).None? <==> MaxReal(rows, p).None? && MaxReal(rows, q).None?
    ensures Coalesce(MaxReal(rows, p)) >= 0.0 && Coalesce(MaxReal(rows, q)) >= 0.0
  {
    if rows != [] {
      var n := |rows| - 1;
      assert rows[n] in rows && forall r :: r in rows[..n] ==> r in rows;
      MaxSplits(rows[..n], p, q, pq);
    }
  }

  /** Every counter of every group of the range fits the saturating 64-bit addition. */
  ghost predicate CountersFit(rows: seq<Row>, dim: Dim, lo: int, hi: int) {
    forall name, m :: IsInt(m) ==> ScanMetric(rows, GroupFilter(dim, name, lo, hi), m).i <= I64_MAX
  }

  lemma AdjacentMetrics(rows: seq<Row>, dim: Dim, name: string, lo: int, mid: int, hi: int, m: MetricName)
    requires NonNegative(rows) && lo <= mid <= hi + 1 && !IsDerived(m)
    ensures IsInt(m) ==>
      0 <= ScanMetric(rows, GroupFilter(dim, name, lo, mid - 1), m).i &&
      ScanMetric(rows, GroupFilter(dim, name, lo, mid - 1), m).i <=
        ScanMetric(rows, GroupFilter(dim, name, lo, hi), m).i &&
      0 <= ScanMetric(rows, GroupFilter(dim, name, mid, hi), m).i
    ensures (IsInt(m) ==> ScanMetric(rows, GroupFilter(dim, name, lo, hi), m).i <= I64_MAX) ==>
      ScanMetric(rows, GroupFilter(dim, name, lo, hi), m) ==
        Combine(ScanMetric(rows, GroupFilter(dim, name, lo, mid - 1), m),
                ScanMetric(rows, GroupFilter(dim, name, mid, hi), m), m.MaxLatency?)
  {
    hide GroupExpr;
    var p, q := GroupFilter(dim, name, lo, mid - 1), GroupFilter(dim, name, mid, hi);
    var pq := GroupFilter(dim, name, lo, hi);
    if IsInt(m) {
      IntMetricSplits(rows, p, q, pq, m);
    } else {
      RealMetricSplits(rows, p, q, pq, m);
    }
  }

  lemma {:induction false} SameScan(rows: seq<Row>, p: RowFilter, q: RowFilter, m: MetricName)
    requires !IsDerived(m) && forall r :: r in rows ==> p(r) == q(r)
    ensures ScanMetric(rows, p, m) == ScanMetric(rows, q, m)
    ensures MaxReal(rows, p) == MaxReal(rows, q)
  {
    if rows != [] {
      var n := |rows| - 1;
      assert rows[n] in rows && forall r :: r in rows[..n] ==> r in rows;
      SameScan(rows[..n], p, q, m);
      SameScanMax(rows, p, q);
    }
  }

  lemma {:induction false} SameScanMax(rows: seq<Row>, p: RowFilter, q: RowFilter)
    requires forall r :: r in rows ==> p(r) == q(r)
    ensures MaxReal(rows, p) == MaxReal(rows, q)
  {
    if rows != [] {
      var n := |rows| - 1;
      assert rows[n] in rows && forall r :: r in rows[..n] ==> r in rows;
      SameScanMax(rows[..n], p, q);
    }
  }

  lemma SameScanOf(rows: seq<Row>, p: RowFilter, q: RowFilter, metrics: set<MetricName>)
    requires forall r :: r in rows ==> p(r) == q(r)
    ensures ScanOf(rows, p, metrics) == ScanOf(rows, q, metrics)
  {
    hide ScanMetric;
    forall m | m in metrics && !IsDerived(m) ensures ScanMetric(rows, p, m) == ScanMetric(rows, q, m) {
      SameScan(rows, p, q, m);
    }
  }

  /** Two scans of adjacent ranges, merged, are one scan of both. */
  lemma AdjacentScansMerge(rows: seq<Row>, dim: Dim, lo: int, mid: int, hi: int, metrics: set<MetricName>)
    requires NonNegative(rows) && CountersFit(rows, dim, lo, hi) && lo <= mid <= hi + 1
    ensures MergeGroups(ScanGroups(rows, dim, lo, mid - 1, metrics), ScanGroups(rows, dim, mid, hi, metrics),
                        metrics) ==
      ScanGroups(rows, dim, lo, hi, metrics)
  {
    hide GroupExpr, ScanMetric, Combine, ScanOf, MergeMetrics, GroupNames;
    var a, b := ScanGroups(rows, dim, lo, mid - 1, metrics), ScanGroups(rows, dim, mid, hi, metrics);
    var c := ScanGroups(rows, dim, lo, hi, metrics);
    var u := MergeGroups(a, b, metrics);
    forall name ensures name in u <==> name in c {
      AdjacentNames(rows, dim, name, lo, mid, hi);
    }
    assert u.Keys == c.Keys;
    forall name | name in c ensures u[name] == c[name] {
      AdjacentGroup(rows, dim, name, lo, mid, hi, metrics);
    }
  }

  lemma AdjacentNames(rows: seq<Row>, dim: Dim, name: string, lo: int, mid: int, hi: int)
    requires lo <= mid <= hi + 1
    ensures name in GroupNames(rows, dim, lo, hi) <==>
      name in GroupNames(rows, dim, lo, mid - 1) || name in GroupNames(rows, dim, mid, hi)
  {
    hide GroupExpr;
  }

  lemma AdjacentGroup(rows: seq<Row>, dim: Dim, name: string, lo: int, mid: int, hi: int, metrics: set<MetricName>)
    requires NonNegative(rows) && CountersFit(rows, dim, lo, hi) && lo <= mid <= hi + 1
    requires name in GroupNames(rows, dim, lo, hi)
    ensures MergeMetrics(MetricsOf(ScanGroups(rows, dim, lo, mid - 1, metrics), name),
                         MetricsOf(ScanGroups(rows, dim, mid, hi, metrics), name), metrics) ==
      ScanOf(rows, GroupFilter(dim, name, lo, hi), metrics)
  {
    hide GroupExpr, ScanMetric, Combine, GroupNames, ScanOf, MergeMetrics, CountersFit, NonNegative;
    var p, q := GroupFilter(dim, name, lo, mid - 1), GroupFilter(dim, name, mid, hi);
    var pq := GroupFilter(dim, name, lo, hi);
    NamesAreRows(rows, dim, name, lo, mid - 1);
    NamesAreRows(rows, dim, name, mid, hi);
    NamesAreRows(rows, dim, name, lo, hi);
    if name !in GroupNames(rows, dim, lo, mid - 1) {
      SameScanOf(rows, q, pq, metrics);
      MergeIntoNothing(rows, q, metrics);
    } else if name !in GroupNames(rows, dim, mid, hi) {
      SameScanOf(rows, p, pq, metrics);
      MergeNothing(ScanOf(rows, p, metrics), metrics);
    } else {
      forall m | m in metrics && !IsDerived(m)
        ensures ScanMetric(rows, pq, m) == Combine(ScanMetric(rows, p, m), ScanMetric(rows, q, m), m.MaxLatency?)
      {
        AdjacentMetrics(rows, dim, name, lo, mid, hi, m);
        if IsInt(m) {
          GroupFits(rows, dim, name, lo, hi, m);
        }
      }
      BothSides(rows, p, q, pq, metrics);
    }
  }

  lemma GroupFits(rows: seq<Row>, dim: Dim, name: string, lo: int, hi: int, m: MetricName)
    requires CountersFit(rows, dim, lo, hi) && IsInt(m)
    ensures ScanMetric(rows, GroupFilter(dim, name, lo, hi), m).i <= I64_MAX
  {
  }

  lemma MergeIntoNothing(rows: seq<Row>, p: RowFilter, metrics: set<MetricName>)
    ensures MergeMetrics(map[], ScanOf(rows, p, metrics), metrics) == ScanOf(rows, p, metrics)
  {
    hide ScanMetric, Combine;
  }

  lemma BothSides(rows: seq<Row>, p: RowFilter, q: RowFilter, pq: RowFilter, metrics: set<MetricName>)
    requires forall m :: m in metrics && !IsDerived(m) ==>
      ScanMetric(rows, pq, m) == Combine(ScanMetric(rows, p, m), ScanMetric(rows, q, m), m.MaxLatency?)
    ensures MergeMetrics(ScanOf(rows, p, metrics), ScanOf(rows, q, metrics), metrics) == ScanOf(rows, pq, metrics)
  {
    hide ScanMetric, Combine;
  }

  // ---------------------------------------------------------------- the groups, by their columns

  function ColumnFilter(dim: Dim, name: string, lo: int, hi: int): RowFilter {
    (r: Row) => r.timeMs.Some? && lo <= r.timeMs.value <= hi && HasName(r, dim, name)
  }

  /**
   The answer has a group exactly if a row of the range has its name in the column asked for, and
   its metrics are those of all such rows.
   */
  lemma AnswerByColumn(rows: seq<Row>, dim: Dim, name: string, lo: int, hi: int, metrics: set<MetricName>)
    ensures name in ScanGroups(rows, dim, lo, hi, metrics) <==>
      exists r :: r in rows && ColumnFilter(dim, name, lo, hi)(r)
    ensures name in ScanGroups(rows, dim, lo, hi, metrics) ==>
      ScanGroups(rows, dim, lo, hi, metrics)[name] == ScanOf(rows, ColumnFilter(dim, name, lo, hi), metrics)
  {
    hide GroupExpr, HasName, ScanOf, GroupNames, DimValue;
    var p, q := GroupFilter(dim, name, lo, hi), ColumnFilter(dim, name, lo, hi);
    forall r: Row ensures p(r) == q(r) {
      GroupExprIs(r, dim);
      HasNameIff(r, dim, name);
    }
    NamesAreRows(rows, dim, name, lo, hi);
    SameScanOf(rows, p, q, metrics);
  }

  // ---------------------------------------------------------------- the answer

  /** The totals of the whole days are the scan of the whole days. */
  lemma SliceGroupsAreTheScan(slice: map<string, Acc>, t: Tables, cal: Calendar, next: NextDay, rows: seq<Row>, k: nat,
                              dim: Dim, first: int, end: int, metrics: set<MetricName>)
    requires ValidCalendar(cal, next) && cal(first) == Some(first) && cal(end) == Some(end)
    requires Covered(t, cal, rows, k, first, end) && IsSlice(slice, t, dim, first, end) && NonNegative(rows)
    ensures SliceGroups(slice, metrics) == ScanGroups(rows, dim, first, end - 1, metrics)
  {
    hide ValidCalendar, GroupExpr, Covered, IsSlice, SumOf, ScanMetric, AccMetric, GroupNames, NonNegative;
    var a, b := SliceGroups(slice, metrics), ScanGroups(rows, dim, first, end - 1, metrics);
    forall name ensures (name in a <==> name in b) && (name in a ==> a[name] == b[name]) {
      SliceIsTheFold(slice, t, cal, next, rows, k, dim, first, end, name);
      if name in a {
        AccMetricsAreTheScan(rows, GroupFilter(dim, name, first, end - 1), metrics);
      }
    }
    assert a.Keys == b.Keys;
  }

  lemma AccMetricsAreTheScan(rows: seq<Row>, p: RowFilter, metrics: set<MetricName>)
    requires NonNegative(rows)
    ensures AccMetrics(SumOf(rows, p), metrics) == ScanOf(rows, p, metrics)
  {
    hide SumOf;
    forall m ensures AccMetric(SumOf(rows, p), m) == if IsDerived(m) then None else Some(ScanMetric(rows, p, m)) {
      if !IsDerived(m) {
        AccIsTheScan(rows, p, m);
        MaxSplits(rows, p, Nothing, p);
      }
    }
  }

  function Nothing(r: Row): bool { false }

  lemma SubrangeFits(rows: seq<Row>, dim: Dim, lo: int, mid: int, hi: int)
    requires NonNegative(rows) && CountersFit(rows, dim, lo, hi) && lo <= mid <= hi + 1
    ensures CountersFit(rows, dim, lo, mid - 1)
  {
    hide ScanMetric, GroupExpr;
    var last := mid - 1;
    forall name, m | IsInt(m) ensures ScanMetric(rows, GroupFilter(dim, name, lo, last), m).i <= I64_MAX {
      AdjacentMetrics(rows, dim, name, lo, mid, hi, m);
    }
  }

  lemma ScanGroupsAreGood(rows: seq<Row>, dim: Dim, lo: int, hi: int, metrics: set<MetricName>)
    requires NonNegative(rows) && CountersFit(rows, dim, lo, hi)
    ensures Good(ScanGroups(rows, dim, lo, hi, metrics), metrics)
  {
    hide ScanMetric, GroupExpr, GroupNames, ScanOf, Typed, NonNegative, CountersFit;
    var g := ScanGroups(rows, dim, lo, hi, metrics);
    forall name | name in g ensures Typed(g[name], metrics) {
      ScanIsTyped(rows, dim, name, lo, hi, metrics);
    }
  }

  lemma ScanIsTyped(rows: seq<Row>, dim: Dim, name: string, lo: int, hi: int, metrics: set<MetricName>)
    requires NonNegative(rows) && CountersFit(rows, dim, lo, hi)
    ensures Typed(ScanOf(rows, GroupFilter(dim, name, lo, hi), metrics), metrics)
  {
    hide ScanMetric, GroupExpr, NonNegative, CountersFit;
    var p := GroupFilter(dim, name, lo, hi);
    forall m | m in metrics && IsInt(m) ensures 0 <= ScanMetric(rows, p, m).i <= I64_MAX {
      IntMetricSplits(rows, p, Nothing, p, m);
      GroupFits(rows, dim, name, lo, hi, m);
    }
  }

  /**
   Main result: with at least one whole day in the range, the answer from the totals plus the
   window scans is the answer of one scan over the range, group by group and metric by metric.
   */
  lemma RollupAnswerIsTheScan(slice: map<string, Acc>, t: Tables, cal: Calendar, next: NextDay, rows: seq<Row>, k: nat,
                              dim: Dim, from: int, to: int, metrics: set<MetricName>)
    requires ValidCalendar(cal, next) && from <= to && FullDayBounds(cal, next, from, to).Some?
    requires var (first, end) := FullDayBounds(cal, next, from, to).value;
      first < end && Covered(t, cal, rows, k, first, end) && IsSlice(slice, t, dim, first, end)
    requires NonNegative(rows) && CountersFit(rows, dim, from, to)
    ensures var (first, end) := FullDayBounds(cal, next, from, to).value;
      WithWindows(SliceGroups(slice, metrics), rows, dim, CorrectionWindows(from, to, first, end), metrics) ==
        ScanGroups(rows, dim, from, to, metrics)
  {
    hide ValidCalendar, FullDayBounds, Covered, IsSlice, NonNegative, CountersFit, SliceGroups, ScanGroups,
      MergeGroups, Good;
    BoundsAreDayStarts(cal, next, from, to);
    var (first, end) := FullDayBounds(cal, next, from, to).value;
    SliceGroupsAreTheScan(slice, t, cal, next, rows, k, dim, first, end, metrics);
    SubrangeFits(rows, dim, from, end, to);
    SuffixFits(rows, dim, from, first, end - 1);
    WindowsMerge(rows, dim, from, to, first, end, metrics);
  }

  lemma SuffixFits(rows: seq<Row>, dim: Dim, lo: int, mid: int, hi: int)
    requires NonNegative(rows) && CountersFit(rows, dim, lo, hi) && lo <= mid <= hi + 1
    ensures CountersFit(rows, dim, mid, hi) && CountersFit(rows, dim, lo, mid - 1)
  {
    SubrangeFits(rows, dim, lo, mid, hi);
    hide ScanMetric, GroupExpr;
    forall name, m | IsInt(m) ensures ScanMetric(rows, GroupFilter(dim, name, mid, hi), m).i <= I64_MAX {
      AdjacentMetrics(rows, dim, name, lo, mid, hi, m);
      IntMetricSplits(rows, GroupFilter(dim, name, lo, mid - 1), GroupFilter(dim, name, mid, hi),
                      GroupFilter(dim, name, lo, hi), m);
    }
  }

  lemma WindowsMerge(rows: seq<Row>, dim: Dim, from: int, to: int, first: int, end: int, metrics: set<MetricName>)
    requires NonNegative(rows) && CountersFit(rows, dim, from, to) && CountersFit(rows, dim, from, end - 1)
    requires CountersFit(rows, dim, from, first - 1) && CountersFit(rows, dim, first, end - 1)
    requires from <= first < end <= to + 1
    ensures WithWindows(ScanGroups(rows, dim, first, end - 1, metrics), rows, dim,
                        CorrectionWindows(from, to, first, end), metrics) ==
      ScanGroups(rows, dim, from, to, metrics)
  {
    hide NonNegative, CountersFit, ScanGroups, MergeGroups, Good;
    var days := ScanGroups(rows, dim, first, end - 1, metrics);
    var early := if from < first then [(from, first - 1)] else [];
    var late := if end <= to then [(end, to)] else [];
    var ws := CorrectionWindows(from, to, first, end);
    assert ws == early + late;
    assert WithWindows(days, rows, dim, early, metrics) == ScanGroups(rows, dim, from, end - 1, metrics) by {
      if from < first {
        assert early[..0] == [];
        ScanGroupsAreGood(rows, dim, from, first - 1, metrics);
        ScanGroupsAreGood(rows, dim, first, end - 1, metrics);
        MergeCommutes(days, ScanGroups(rows, dim, from, first - 1, metrics), metrics);
        AdjacentScansMerge(rows, dim, from, first, end - 1, metrics);
      }
    }
    if end <= to {
      assert ws[..|ws| - 1] == early && ws[|ws| - 1] == (end, to);
      AdjacentScansMerge(rows, dim, from, end, to, metrics);
    } else {
      assert ws == early;
    }
  }

  /**
   Without the assumption on latencies: a group's maximum agrees with SQL exactly when SQL's is
   not negative, because a counter record starts at zero.
   */
  lemma MaximumAgreesUnlessNegative(rows: seq<Row>, p: RowFilter)
    ensures AccMetric(SumOf(rows, p), MaxLatency) == Some(ScanMetric(rows, p, MaxLatency)) <==>
      Coalesce(MaxReal(rows, p)) >= 0.0
  {
    AccIsTheScan(rows, p, MaxLatency);
  }
}
