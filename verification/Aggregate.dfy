/**
 The derived daily totals of one audit store: what they are (`Describe`), and the scan that
 computes them. Every stored number is a fold over the rows that fall into its cell.
 Sums of latencies are reals; see README.md for what that leaves out.
 */
module Aggregate {
  import opened Wrappers
  import opened Numbers

  const HIST_BUCKET_MS: real := 50.0
  const HIST_CAP_MS: real := 60_000.0
  const HIST_BUCKETS: nat := 1201

  /** The columns of `records` that the aggregation reads. */
  datatype Row = Row(
    id: int,
    timeMs: Option<int>,
    model: Option<string>, apiKey: Option<string>, ip: Option<string>,
    kind: Option<string>, backend: Option<string>, client: Option<string>,
    status: Option<int>,
    prompt: Option<int>, completion: Option<int>, total: Option<int>,
    latency: Option<real>, ttft: Option<real>)

  /** `local_day_ms`: the start of the local day a timestamp falls in, if the calendar has one. */
  type Calendar = int -> Option<int>

  datatype Dim = Model | ApiKey | Ip | Type | Backend | Client | Status

  const DIMS: seq<Dim> := [Model, ApiKey, Ip, Type, Backend, Client, Status]

  // ---------------------------------------------------------------- counters

  datatype Acc = Acc(
    rowsAll: int, counted: int, success: int, errors: int,
    promptTokens: int, completionTokens: int, totalTokens: int,
    latencySum: real, latencyCount: int, latencyMax: real,
    ttftSum: real, ttftCount: int)

  const ZERO := Acc(0, 0, 0, 0, 0, 0, 0, 0.0, 0, 0.0, 0.0, 0)

  function Max(a: real, b: real): real {
    if a < b then b else a
  }

  function Add(a: Acc, b: Acc): Acc {
    Acc(a.rowsAll + b.rowsAll, a.counted + b.counted, a.success + b.success, a.errors + b.errors,
        a.promptTokens + b.promptTokens, a.completionTokens + b.completionTokens, a.totalTokens + b.totalTokens,
        a.latencySum + b.latencySum, a.latencyCount + b.latencyCount, Max(a.latencyMax, b.latencyMax),
        a.ttftSum + b.ttftSum, a.ttftCount + b.ttftCount)
  }

  function Observe(a: Acc, r: Row): Acc {
    var st := r.status;
    Acc(a.rowsAll + 1,
        if st.Some? && st.value >= 200 then a.counted + 1 else a.counted,
        if st.Some? && 200 <= st.value < 400 then a.success + 1 else a.success,
        if st.Some? && st.value >= 400 then a.errors + 1 else a.errors,
        a.promptTokens + OrElse(r.prompt, 0), a.completionTokens + OrElse(r.completion, 0),
        a.totalTokens + OrElse(r.total, 0),
        if r.latency.Some? then a.latencySum + r.latency.value else a.latencySum,
        if r.latency.Some? then a.latencyCount + 1 else a.latencyCount,
        if r.latency.Some? then Max(a.latencyMax, r.latency.value) else a.latencyMax,
        if r.ttft.Some? then a.ttftSum + r.ttft.value else a.ttftSum,
        if r.ttft.Some? then a.ttftCount + 1 else a.ttftCount)
  }

  /** The fold over the rows that satisfy `p`. */
  function SumOf(rows: seq<Row>, p: Row -> bool): Acc {
    if rows == [] then ZERO
    else
      var n := |rows| - 1;
      var a := SumOf(rows[..n], p);
      if p(rows[n]) then Observe(a, rows[n]) else a
  }

  lemma {:induction false} SumOfSplits(a: seq<Row>, b: seq<Row>, p: Row -> bool)
    ensures SumOf(a + b, p) == Add(SumOf(a, p), SumOf(b, p))
    decreases |b|
  {
    if b == [] {
      assert a + b == a;
      SumOfFacts(a, p);
    } else {
      var n := |b| - 1;
      SumOfSplits(a, b[..n], p);
      assert (a + b)[..|a| + n] == a + b[..n];
    }
  }

  /** A fold counts its rows, and its maximum starts at zero. */
  lemma {:induction false} SumOfFacts(rows: seq<Row>, p: Row -> bool)
    ensures SumOf(rows, p).latencyMax >= 0.0
    ensures SumOf(rows, p).rowsAll >= 0
    ensures SumOf(rows, p).rowsAll == 0 <==> SumOf(rows, p) == ZERO
    ensures SumOf(rows, p).rowsAll > 0 <==> exists r :: r in rows && p(r)
  {
    if rows != [] {
      SumOfFacts(rows[..|rows| - 1], p);
      assert forall r :: r in rows <==> r in rows[..|rows| - 1] || r == rows[|rows| - 1];
    }
  }

  /** The fold depends on the predicate only through the rows. */
  lemma {:induction false} SumOfSame(rows: seq<Row>, p: Row -> bool, q: Row -> bool)
    requires forall r :: r in rows ==> p(r) == q(r)
    ensures SumOf(rows, p) == SumOf(rows, q)
  {
    if rows != [] {
      assert rows[|rows| - 1] in rows && forall r :: r in rows[..|rows| - 1] ==> r in rows;
      SumOfSame(rows[..|rows| - 1], p, q);
    }
  }

  // ---------------------------------------------------------------- cells

  /** A row of `day_agg` or of `day_dim`. */
  datatype Cell = DayCell(day: int) | DimCell(day: int, dim: Dim, value: string)

  /** Which latency histogram. */
  datatype Kind = Latency | Ttft

  datatype HistCell = HistCell(day: int, kind: Kind)

  /** A row of `day_distinct`. */
  datatype DistinctCell = DistinctCell(day: int, dim: Dim, value: string)

  function RawDim(r: Row, d: Dim): Option<string> {
    match d
    case Model => r.model
    case ApiKey => r.apiKey
    case Ip => r.ip
    case Type => r.kind
    case Backend => r.backend
    case Client => r.client
    case Status => if r.status.Some? then Some(Decimal(r.status.value)) else None
  }

  function NormalizeDim(v: Option<string>): string {
    if v.Some? && v.value != "" then v.value else "Unknown"
  }

  function DimValue(r: Row, d: Dim): string {
    if d.Status? then (if r.status.Some? then Decimal(r.status.value) else "Unknown") else NormalizeDim(RawDim(r, d))
  }

  /** What a text column is grouped under: its text, or `Unknown` where it is null or empty. */
  predicate IsTextOf(column: Option<string>, name: string) {
    (column.Some? && column.value != "" ==> name == column.value) &&
    (column.None? || column.value == "" ==> name == "Unknown")
  }

  predicate IsNumberOf(column: Option<int>, name: string) {
    (column.Some? ==> name == Decimal(column.value)) && (column.None? ==> name == "Unknown")
  }

  /** The column a dimension stands for has this name. */
  predicate HasName(r: Row, d: Dim, name: string) {
    match d
    case Model => IsTextOf(r.model, name)
    case ApiKey => IsTextOf(r.apiKey, name)
    case Ip => IsTextOf(r.ip, name)
    case Type => IsTextOf(r.kind, name)
    case Backend => IsTextOf(r.backend, name)
    case Client => IsTextOf(r.client, name)
    case Status => IsNumberOf(r.status, name)
  }

  lemma HasNameIff(r: Row, d: Dim, name: string)
    ensures HasName(r, d, name) <==> DimValue(r, d) == name
  {
    match d
    case _ =>
  }

  function RowDay(cal: Calendar, r: Row): Option<int> {
    if r.timeMs.Some? then cal(r.timeMs.value) else None
  }

  predicate InCell(cal: Calendar, r: Row, c: Cell) {
    RowDay(cal, r) == Some(c.day) && (c.DimCell? ==> DimValue(r, c.dim) == c.value)
  }

  function CellFilter(cal: Calendar, c: Cell): Row -> bool {
    (r: Row) => InCell(cal, r, c)
  }

  function CellsOnDay(day: int, r: Row): set<Cell> {
    {DayCell(day)} + set d | d in DIMS :: DimCell(day, d, DimValue(r, d))
  }

  function RowCells(cal: Calendar, r: Row): set<Cell> {
    match RowDay(cal, r)
    case None => {}
    case Some(day) => CellsOnDay(day, r)
  }

  lemma RowCellsAreItsCells(cal: Calendar, r: Row, c: Cell)
    ensures c in RowCells(cal, r) <==> InCell(cal, r, c)
  {
    hide DimValue;
    if c.DimCell? {
      var i := match c.dim case Model => 0 case ApiKey => 1 case Ip => 2 case Type => 3
                           case Backend => 4 case Client => 5 case Status => 6;
      assert DIMS[i] == c.dim;
    }
  }

  function Measure(r: Row, k: Kind): Option<real> {
    if k.Latency? then r.latency else r.ttft
  }

  /** `histogram_bucket`: clamp to the cap, divide by the width, truncate. Buckets are 50 ms wide, the last is open. */
  function Bucket(v: real): (b: nat)
    ensures b < HIST_BUCKETS
    ensures v < 0.0 ==> b == 0
    ensures 0.0 <= v < 60_000.0 ==> b as real * 50.0 <= v < (b + 1) as real * 50.0
    ensures v >= 60_000.0 ==> b == 1200
  {
    var clamped := if v < 0.0 then 0.0 else if HIST_CAP_MS < v then HIST_CAP_MS else v;
    (clamped / HIST_BUCKET_MS).Floor
  }

  predicate InBucket(cal: Calendar, r: Row, c: HistCell, i: nat) {
    RowDay(cal, r) == Some(c.day) && Measure(r, c.kind).Some? && Bucket(Measure(r, c.kind).value) == i
  }

  function BucketCount(cal: Calendar, rows: seq<Row>, c: HistCell, i: nat): nat {
    if rows == [] then 0
    else BucketCount(cal, rows[..|rows| - 1], c, i) + (if InBucket(cal, rows[|rows| - 1], c, i) then 1 else 0)
  }

  lemma {:induction false} BucketCountSplits(cal: Calendar, a: seq<Row>, b: seq<Row>, c: HistCell, i: nat)
    ensures BucketCount(cal, a + b, c, i) == BucketCount(cal, a, c, i) + BucketCount(cal, b, c, i)
    decreases |b|
  {
    if b == [] {
      assert a + b == a;
    } else {
      BucketCountSplits(cal, a, b[..|b| - 1], c, i);
      assert (a + b)[..|a + b| - 1] == a + b[..|b| - 1];
    }
  }

  predicate HasMeasure(cal: Calendar, r: Row, c: HistCell) {
    RowDay(cal, r) == Some(c.day) && Measure(r, c.kind).Some?
  }

  function HistFilter(cal: Calendar, c: HistCell): Row -> bool {
    (r: Row) => HasMeasure(cal, r, c)
  }

  lemma {:induction false} BucketCountPositive(cal: Calendar, rows: seq<Row>, c: HistCell, i: nat)
    ensures BucketCount(cal, rows, c, i) > 0 <==> exists r :: r in rows && InBucket(cal, r, c, i)
  {
    if rows != [] {
      BucketCountPositive(cal, rows[..|rows| - 1], c, i);
      assert forall r :: r in rows <==> r in rows[..|rows| - 1] || r == rows[|rows| - 1];
    }
  }

  /** `scan_after` and `build` list the raw model and IP of a row, normalised or not. */
  predicate IsDistinct(cal: Calendar, r: Row, c: DistinctCell) {
    RowDay(cal, r) == Some(c.day) && (c.dim.Model? || c.dim.Ip?) && RawDim(r, c.dim) == Some(c.value)
  }

  function DistinctFilter(cal: Calendar, c: DistinctCell): Row -> bool {
    (r: Row) => IsDistinct(cal, r, c)
  }

  // ---------------------------------------------------------------- the meaning of the tables

  type Hist = seq<nat>

  datatype Tables = Tables(sums: map<Cell, Acc>, hists: map<HistCell, Hist>, distinct: set<DistinctCell>)

  const EMPTY := Tables(map[], map[], {})

  /** Pointwise: the tables hold a cell exactly when a row falls in it, with the fold over those rows. */
  ghost predicate Describes(t: Tables, cal: Calendar, rows: seq<Row>) {
    (forall c :: c in t.sums <==> exists r :: r in rows && InCell(cal, r, c)) &&
    (forall c :: c in t.sums ==> t.sums[c] == SumOf(rows, CellFilter(cal, c))) &&
    (forall c :: c in t.hists <==> exists r :: r in rows && HasMeasure(cal, r, c)) &&
    (forall c :: c in t.hists ==> |t.hists[c]| == HIST_BUCKETS) &&
    (forall c, i :: c in t.hists && 0 <= i < HIST_BUCKETS ==> t.hists[c][i] == BucketCount(cal, rows, c, i)) &&
    (forall c :: c in t.distinct <==> exists r :: r in rows && IsDistinct(cal, r, c))
  }

  /** Rows determine their tables. */
  lemma TablesAreDetermined(t: Tables, u: Tables, cal: Calendar, rows: seq<Row>)
    requires Describes(t, cal, rows) && Describes(u, cal, rows)
    ensures t == u
  {
    hide InCell, HasMeasure, IsDistinct, SumOf, BucketCount;
    assert t.sums.Keys == u.sums.Keys;
    assert t.hists.Keys == u.hists.Keys;
    forall c | c in t.hists ensures t.hists[c] == u.hists[c] {
      assert forall i :: 0 <= i < HIST_BUCKETS ==> t.hists[c][i] == BucketCount(cal, rows, c, i) == u.hists[c][i];
    }
    assert t.sums == u.sums && t.hists == u.hists && t.distinct == u.distinct;
  }

  /**
   What the tables say of the columns: a cell of a dimension is there exactly if a row of the day
   has its name in that column, the lists of distinct values are those of model and IP as they
   stand in the rows, and a histogram is that of its own column.
   */
  lemma TablesByColumn(t: Tables, cal: Calendar, rows: seq<Row>, day: int, dim: Dim, name: string)
    requires Describes(t, cal, rows)
    ensures DimCell(day, dim, name) in t.sums <==>
      exists r :: r in rows && RowDay(cal, r) == Some(day) && HasName(r, dim, name)
    ensures DistinctCell(day, Model, name) in t.distinct <==>
      exists r :: r in rows && RowDay(cal, r) == Some(day) && r.model == Some(name)
    ensures DistinctCell(day, Ip, name) in t.distinct <==>
      exists r :: r in rows && RowDay(cal, r) == Some(day) && r.ip == Some(name)
    ensures DistinctCell(day, dim, name) in t.distinct ==> dim == Model || dim == Ip
    ensures HistCell(day, Latency) in t.hists <==>
      exists r :: r in rows && RowDay(cal, r) == Some(day) && r.latency.Some?
    ensures HistCell(day, Ttft) in t.hists <==>
      exists r :: r in rows && RowDay(cal, r) == Some(day) && r.ttft.Some?
  {
    hide SumOf, BucketCount, RowDay, HasName, DimValue;
    forall r: Row ensures DimValue(r, dim) == name <==> HasName(r, dim, name) {
      HasNameIff(r, dim, name);
    }
    CellIff(t, cal, rows, DimCell(day, dim, name));
    DistinctIff(t, cal, rows, DistinctCell(day, Model, name));
    DistinctIff(t, cal, rows, DistinctCell(day, Ip, name));
    DistinctIff(t, cal, rows, DistinctCell(day, dim, name));
    HistIff(t, cal, rows, HistCell(day, Latency));
    HistIff(t, cal, rows, HistCell(day, Ttft));
  }

  lemma CellIff(t: Tables, cal: Calendar, rows: seq<Row>, c: Cell)
    requires Describes(t, cal, rows)
    ensures c in t.sums <==> exists r :: r in rows && InCell(cal, r, c)
  {
  }

  lemma DistinctIff(t: Tables, cal: Calendar, rows: seq<Row>, c: DistinctCell)
    requires Describes(t, cal, rows)
    ensures c in t.distinct <==> exists r :: r in rows && IsDistinct(cal, r, c)
  {
  }

  lemma HistIff(t: Tables, cal: Calendar, rows: seq<Row>, c: HistCell)
    requires Describes(t, cal, rows)
    ensures c in t.hists <==> exists r :: r in rows && HasMeasure(cal, r, c)
  {
  }

  /** A measure counts in the bucket of 50 ms it falls into; below zero in the first, from a minute on in the last. */
  lemma BucketsByColumn(cal: Calendar, r: Row, day: int, i: nat)
    ensures InBucket(cal, r, HistCell(day, Latency), i) <==>
      RowDay(cal, r) == Some(day) && r.latency.Some? && FallsInto(r.latency.value, i)
    ensures InBucket(cal, r, HistCell(day, Ttft), i) <==>
      RowDay(cal, r) == Some(day) && r.ttft.Some? && FallsInto(r.ttft.value, i)
  {
    hide Bucket, RowDay;
  }

  predicate FallsInto(v: real, i: nat) {
    if v < 0.0 then i == 0
    else if v >= 60_000.0 then i == 1200
    else i as real * 50.0 <= v < (i + 1) as real * 50.0
  }
}
