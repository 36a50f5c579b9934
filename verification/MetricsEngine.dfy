/**
 Answering a range query from the daily totals: whole days come from the tables, the two ends
 from scans of the rows, and the pieces are merged. The result is compared with the SQL scan
 of the whole range.
 */
module MetricsEngine {
  import opened Wrappers
  import opened Numbers
  import opened Aggregate
  import opened AggregateStore
  import opened MetricsMerge

  // ---------------------------------------------------------------- whole days and the two ends

  /** `next_local_day`, on day starts. */
  type NextDay = int -> Option<int>

  /** Local days partition time: what the calendar library provides where it is unambiguous. */
  ghost predicate ValidCalendar(cal: Calendar, next: NextDay) {
    (forall t :: LiesInADay(cal, next, t)) && forall t, u :: ShareADay(cal, next, t, u)
  }

  /** The instant lies between the start of its day and that of the next, which starts its own. */
  ghost predicate LiesInADay(cal: Calendar, next: NextDay, t: int) {
    cal(t).Some? && next(cal(t).value).Some? && cal(t).value <= t < next(cal(t).value).value &&
    cal(cal(t).value) == cal(t) && cal(next(cal(t).value).value) == next(cal(t).value)
  }

  /** Two instants between the same bounds are on the same day. */
  ghost predicate ShareADay(cal: Calendar, next: NextDay, t: int, u: int) {
    cal(t).Some? && next(cal(t).value).Some? && cal(t).value <= u < next(cal(t).value).value ==> cal(u) == cal(t)
  }

  const DAY_MS: int := 86_400_000

  function UtcDay(): Calendar {
    (t: int) => Some(t - t % DAY_MS)
  }

  function UtcNextDay(): NextDay {
    (day: int) => Some(day + DAY_MS)
  }

  /** Such calendars exist: days of 24 hours make one. */
  lemma UtcIsACalendar()
    ensures ValidCalendar(UtcDay(), UtcNextDay())
  {
    var cal, next := UtcDay(), UtcNextDay();
    forall t ensures LiesInADay(cal, next, t) {
      DayStart(t);
    }
    forall t, u ensures ShareADay(cal, next, t, u) {
      var d := t - t % DAY_MS;
      if d <= u < d + DAY_MS {
        DayStart(t);
        SameQuotient(d, u);
      }
    }
  }

  lemma DayStart(t: int)
    ensures var d := t - t % DAY_MS; d % DAY_MS == 0 && (d + DAY_MS) % DAY_MS == 0 && d <= t < d + DAY_MS
  {
  }

  lemma SameQuotient(d: int, u: int)
    requires d % DAY_MS == 0 && d <= u < d + DAY_MS
    ensures u - u % DAY_MS == d
  {
  }

  function FullDayBounds(cal: Calendar, next: NextDay, from: int, to: int): Option<(int, int)> {
    var fromDay, toDay := cal(from), cal(to);
    if fromDay.None? then None
    else
      var firstFull := if from == fromDay.value then fromDay else next(fromDay.value);
      if firstFull.None? || toDay.None? then None
      else
        var toDayEnd := next(toDay.value);
        if toDayEnd.None? then None
        else Some((firstFull.value, if to + 1 >= toDayEnd.value then toDayEnd.value else toDay.value))
  }

  function CorrectionWindows(from: int, to: int, firstFull: int, fullEnd: int): seq<(int, int)> {
    (if from < firstFull then [(from, firstFull - 1)] else []) +
    (if fullEnd <= to then [(fullEnd, to)] else [])
  }

  predicate Within(t: int, w: (int, int)) {
    w.0 <= t <= w.1
  }

  lemma CalendarAt(cal: Calendar, next: NextDay, t: int)
    requires ValidCalendar(cal, next)
    ensures cal(t).Some? && next(cal(t).value).Some?
    ensures cal(t).value <= t < next(cal(t).value).value
    ensures cal(cal(t).value) == cal(t) && cal(next(cal(t).value).value) == next(cal(t).value)
  {
    assert LiesInADay(cal, next, t);
  }

  lemma SameDay(cal: Calendar, next: NextDay, t: int, u: int)
    requires ValidCalendar(cal, next) && cal(t).Some? && next(cal(t).value).Some?
    requires cal(t).value <= u < next(cal(t).value).value
    ensures cal(u) == cal(t)
  {
    assert ShareADay(cal, next, t, u);
  }

  /** The bounds are day starts, and the whole days lie inside the range. */
  lemma BoundsAreDayStarts(cal: Calendar, next: NextDay, from: int, to: int)
    requires ValidCalendar(cal, next) && from <= to
    ensures FullDayBounds(cal, next, from, to).Some?
    ensures var (first, end) := FullDayBounds(cal, next, from, to).value;
      from <= first && end <= to + 1 && cal(first) == Some(first) && cal(end) == Some(end)
  {
    hide ValidCalendar;
    CalendarAt(cal, next, from);
    CalendarAt(cal, next, to);
  }

  /** No whole day is left to the scans: the bounds are the first and the last day start of the range. */
  lemma BoundsAreWidest(cal: Calendar, next: NextDay, from: int, to: int, day: int)
    requires ValidCalendar(cal, next) && from <= to && cal(day) == Some(day) && from <= day <= to + 1
    ensures FullDayBounds(cal, next, from, to).Some?
    ensures var (first, end) := FullDayBounds(cal, next, from, to).value; first <= day <= end
  {
    hide ValidCalendar;
    CalendarAt(cal, next, from);
    CalendarAt(cal, next, to);
    if cal(from).value < day < next(cal(from).value).value {
      SameDay(cal, next, from, day);
    }
    if cal(to).value < day < next(cal(to).value).value {
      SameDay(cal, next, to, day);
    }
  }

  /** Between two day starts an instant and the day it belongs to are on the same side. */
  lemma DaysAreWhole(cal: Calendar, next: NextDay, first: int, end: int, t: int)
    requires ValidCalendar(cal, next) && cal(first) == Some(first) && cal(end) == Some(end)
    ensures cal(t).Some? && (first <= t < end <==> first <= cal(t).value < end)
  {
    hide ValidCalendar;
    CalendarAt(cal, next, t);
    CalendarAt(cal, next, first);
    if cal(t).value < first <= t {
      SameDay(cal, next, t, first);
    }
    if cal(t).value < end <= t {
      SameDay(cal, next, t, end);
    }
  }

  /** Every instant of the range lies in exactly one piece, and no piece reaches outside it. */
  lemma PiecesPartitionTheRange(cal: Calendar, next: NextDay, from: int, to: int, t: int)
    requires ValidCalendar(cal, next) && from <= to
    requires FullDayBounds(cal, next, from, to).Some?
    requires var (first, end) := FullDayBounds(cal, next, from, to).value; first < end
    ensures var (first, end) := FullDayBounds(cal, next, from, to).value;
      var ws := CorrectionWindows(from, to, first, end);
      cal(t).Some? &&
      (from <= t <= to <==> first <= cal(t).value < end || exists i :: 0 <= i < |ws| && Within(t, ws[i])) &&
      (forall i :: 0 <= i < |ws| && Within(t, ws[i]) ==> !(first <= cal(t).value < end)) &&
      (forall i, j :: 0 <= i < j < |ws| ==> !(Within(t, ws[i]) && Within(t, ws[j])))
  {
    hide ValidCalendar, FullDayBounds;
    BoundsAreDayStarts(cal, next, from, to);
    var (first, end) := FullDayBounds(cal, next, from, to).value;
    DaysAreWhole(cal, next, first, end, t);
    var ws := CorrectionWindows(from, to, first, end);
    assert from <= t < first ==> Within(t, ws[0]);
    assert end <= t <= to ==> Within(t, ws[|ws| - 1]);
  }

  // ---------------------------------------------------------------- the SQL side

  type RowFilter = Row -> bool

  function Count(rows: seq<Row>, p: RowFilter): int {
    if rows == [] then 0 else Count(rows[..|rows| - 1], p) + (if p(rows[|rows| - 1]) then 1 else 0)
  }

  function SumInt(rows: seq<Row>, p: RowFilter, f: Row -> Option<int>): int {
    if rows == [] then 0
    else SumInt(rows[..|rows| - 1], p, f) + (if p(rows[|rows| - 1]) then OrElse(f(rows[|rows| - 1]), 0) else 0)
  }

  function SumReal(rows: seq<Row>, p: RowFilter, f: Row -> Option<real>): real {
    if rows == [] then 0.0
    else
      var r := rows[|rows| - 1];
      SumReal(rows[..|rows| - 1], p, f) + (if p(r) && f(r).Some? then f(r).value else 0.0)
  }

  /** `MAX(LatencyMs)`: null without a value. */
  function MaxReal(rows: seq<Row>, p: RowFilter): Option<real> {
    if rows == [] then None
    else
      var r, m := rows[|rows| - 1], MaxReal(rows[..|rows| - 1], p);
      if !p(r) || r.latency.None? then m
      else if m.None? then r.latency
      else Some(Max(m.value, r.latency.value))
  }

  function Coalesce(m: Option<real>): real {
    if m.Some? then m.value else 0.0
  }

  function And(p: RowFilter, q: RowFilter): RowFilter {
    (r: Row) => p(r) && q(r)
  }

  function StatusIn(lo: int, hi: Option<int>): RowFilter {
    (r: Row) => r.status.Some? && r.status.value >= lo && (hi.Some? ==> r.status.value < hi.value)
  }

  function HasLatency(r: Row): bool { r.latency.Some? }
  function HasTtft(r: Row): bool { r.ttft.Some? }
  function PromptOf(r: Row): Option<int> { r.prompt }
  function CompletionOf(r: Row): Option<int> { r.completion }
  function TotalOf(r: Row): Option<int> { r.total }
  function LatencyOf(r: Row): Option<real> { r.latency }
  function TtftOf(r: Row): Option<real> { r.ttft }

  predicate IsDerived(m: MetricName) {
    m.AvgLatency? || m.AvgTtft? || m.SuccessRate? || m.ErrorRate?
  }

  /** The SQL expression of each stored metric over the rows of one group. */
  function ScanMetric(rows: seq<Row>, p: RowFilter, m: MetricName): (v: MetricValue)
    ensures !IsDerived(m) ==> v.Real? == IsReal(m)
  {
    match m
    case Requests => Integer(Count(rows, And(p, StatusIn(200, None))))
    case Success => Integer(Count(rows, And(p, StatusIn(200, Some(400)))))
    case Errors => Integer(Count(rows, And(p, StatusIn(400, None))))
    case PromptTokens => Integer(SumInt(rows, p, PromptOf))
    case CompletionTokens => Integer(SumInt(rows, p, CompletionOf))
    case TotalTokens => Integer(SumInt(rows, p, TotalOf))
    case LatencySum => Real(SumReal(rows, p, LatencyOf))
    case LatencyCount => Integer(Count(rows, And(p, HasLatency)))
    case MaxLatency => Real(Coalesce(MaxReal(rows, p)))
    case TtftSum => Real(SumReal(rows, p, TtftOf))
    case TtftCount => Integer(Count(rows, And(p, HasTtft)))
    case _ => Real(0.0)
  }

  /** `acc_metric`: the same metric read from a counter record. */
  function AccMetric(a: Acc, m: MetricName): Option<MetricValue> {
    match m
    case Requests => Some(Integer(a.counted))
    case Success => Some(Integer(a.success))
    case Errors => Some(Integer(a.errors))
    case PromptTokens => Some(Integer(a.promptTokens))
    case CompletionTokens => Some(Integer(a.completionTokens))
    case TotalTokens => Some(Integer(a.totalTokens))
    case LatencySum => Some(Real(a.latencySum))
    case LatencyCount => Some(Integer(a.latencyCount))
    case MaxLatency => Some(Real(a.latencyMax))
    case TtftSum => Some(Real(a.ttftSum))
    case TtftCount => Some(Integer(a.ttftCount))
    case _ => None
  }

  /** A counter record holds the SQL metrics of its rows, except that its maximum never falls below zero. */
  lemma {:induction false} AccIsTheScan(rows: seq<Row>, p: RowFilter, m: MetricName)
    requires !IsDerived(m)
    ensures AccMetric(SumOf(rows, p), m) ==
      if m.MaxLatency? then Some(Real(Max(0.0, Coalesce(MaxReal(rows, p))))) else Some(ScanMetric(rows, p, m))
  {
    if rows != [] {
      AccIsTheScan(rows[..|rows| - 1], p, m);
    }
  }
}
