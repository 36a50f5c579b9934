/** The scan shared by the full rebuild and the incremental update: batches, rows, columns. */
module AggregateScan {
  import opened Wrappers
  import opened Aggregate

  /** `records` in id order; the ids are primary keys. */
  ghost predicate Ascending(table: seq<Row>) {
    forall i, j :: 0 <= i < j < |table| ==> table[i].id < table[j].id
  }

  /** `WHERE id > ? ORDER BY id` on a table in id order. */
  function After(table: seq<Row>, id: int): seq<Row> {
    if table == [] || table[0].id > id then table else After(table[1..], id)
  }

  lemma {:induction false} AfterIsSuffix(table: seq<Row>, id: int) returns (k: nat)
    requires Ascending(table)
    ensures k <= |table| && After(table, id) == table[k..]
    ensures forall i :: 0 <= i < k ==> table[i].id <= id
    ensures forall i :: k <= i < |table| ==> table[i].id > id
  {
    if table == [] || table[0].id > id {
      k := 0;
    } else {
      var m := AfterIsSuffix(table[1..], id);
      k := m + 1;
      assert table[1..][m..] == table[m + 1..];
      forall i | 0 <= i < k ensures table[i].id <= id {
        assert i > 0 ==> table[i] == table[1..][i - 1];
      }
      forall i | k <= i < |table| ensures table[i].id > id {
        assert table[i] == table[1..][i - 1];
      }
    }
  }

  lemma AfterPosition(table: seq<Row>, k: nat)
    requires Ascending(table) && k < |table|
    ensures After(table, table[k].id) == table[k + 1..]
  {
    var m := AfterIsSuffix(table, table[k].id);
    assert k + 1 < |table| ==> table[k].id < table[k + 1].id;
  }

  // ---------------------------------------------------------------- one row

  function Bump(sums: map<Cell, Acc>, c: Cell, r: Row): map<Cell, Acc> {
    sums[c := Observe(if c in sums then sums[c] else ZERO, r)]
  }

  function BumpAll(sums: map<Cell, Acc>, cells: set<Cell>, r: Row): map<Cell, Acc> {
    map c | c in sums.Keys + cells ::
      if c in cells then Observe(if c in sums then sums[c] else ZERO, r) else sums[c]
  }

  function FirstCells(day: int, r: Row, n: nat): set<Cell>
    requires n <= |DIMS|
  {
    {DayCell(day)} + set k | 0 <= k < n :: DimCell(day, DIMS[k], DimValue(r, DIMS[k]))
  }

  function RowDistinct(day: int, r: Row, n: nat): set<DistinctCell>
    requires n <= |DIMS|
  {
    set k | 0 <= k < n && (DIMS[k].Model? || DIMS[k].Ip?) && RawDim(r, DIMS[k]).Some? ::
      DistinctCell(day, DIMS[k], RawDim(r, DIMS[k]).value)
  }

  function CountIn(hists: map<HistCell, Hist>, c: HistCell, v: Option<real>): map<HistCell, Hist>
    requires forall d :: d in hists ==> |hists[d]| == HIST_BUCKETS
  {
    if v.None? then hists
    else
      var was := if c in hists then hists[c] else seq(HIST_BUCKETS, i => 0);
      hists[c := was[Bucket(v.value) := was[Bucket(v.value)] + 1]]
  }

  lemma DimsAreDistinct()
    ensures |DIMS| == 7
    ensures forall i, j :: 0 <= i < j < 7 ==> DIMS[i] != DIMS[j]
  {
  }

  /** Fold one row into the tables, column by column. */
  method ObserveRow(t: Tables, cal: Calendar, r: Row, day: int, ghost rows: seq<Row>) returns (u: Tables)
    requires RowDay(cal, r) == Some(day)
    requires Describes(t, cal, rows)
    ensures Describes(u, cal, rows + [r])
  {
    hide Describes, DimValue, RawDim, Observe, Bucket, FirstCells, RowDistinct, BumpAll, Bump, CountIn;
    HistsAreFull(t, cal, rows);
    DimsAreDistinct();
    FirstCellsStart(t.sums, day, r);
    var sums := Bump(t.sums, DayCell(day), r);
    var distinct := t.distinct;
    for k := 0 to |DIMS|
      invariant sums == BumpAll(t.sums, FirstCells(day, r, k), r)
      invariant distinct == t.distinct + RowDistinct(day, r, k)
    {
      FirstCellsStep(t.sums, day, r, k);
      RowDistinctStep(day, r, k);
      sums := Bump(sums, DimCell(day, DIMS[k], DimValue(r, DIMS[k])), r);
      if (DIMS[k].Model? || DIMS[k].Ip?) && RawDim(r, DIMS[k]).Some? {
        distinct := distinct + {DistinctCell(day, DIMS[k], RawDim(r, DIMS[k]).value)};
      }
    }
    CountInEffect(t.hists, HistCell(day, Latency), r.latency);
    var hists := CountIn(t.hists, HistCell(day, Latency), r.latency);
    hists := CountIn(hists, HistCell(day, Ttft), r.ttft);
    u := Tables(sums, hists, distinct);
    FirstCellsAreAll(cal, day, r);
    RowDistinctIsAll(cal, day, r);
    SumsObserved(t, u, cal, r, rows, FirstCells(day, r, |DIMS|));
    HistsObserved(t, u, cal, r, rows, day);
    DescribesObserved(t, u, cal, r, rows, RowDistinct(day, r, |DIMS|));
  }

  lemma FirstCellsStart(sums: map<Cell, Acc>, day: int, r: Row)
    ensures Bump(sums, DayCell(day), r) == BumpAll(sums, FirstCells(day, r, 0), r)
    ensures RowDistinct(day, r, 0) == {}
  {
    hide Observe, DimValue;
    assert FirstCells(day, r, 0) == {DayCell(day)};
  }

  lemma FirstCellsStep(sums: map<Cell, Acc>, day: int, r: Row, k: nat)
    requires k < |DIMS|
    ensures var c := DimCell(day, DIMS[k], DimValue(r, DIMS[k]));
      Bump(BumpAll(sums, FirstCells(day, r, k), r), c, r) == BumpAll(sums, FirstCells(day, r, k + 1), r)
  {
    hide Observe, DimValue, Bump, BumpAll;
    DimsAreDistinct();
    var c := DimCell(day, DIMS[k], DimValue(r, DIMS[k]));
    assert FirstCells(day, r, k + 1) == FirstCells(day, r, k) + {c};
    BumpOne(sums, FirstCells(day, r, k), c, r);
  }

  lemma RowDistinctStep(day: int, r: Row, k: nat)
    requires k < |DIMS|
    ensures RowDistinct(day, r, k + 1) == RowDistinct(day, r, k) +
      if (DIMS[k].Model? || DIMS[k].Ip?) && RawDim(r, DIMS[k]).Some?
      then {DistinctCell(day, DIMS[k], RawDim(r, DIMS[k]).value)} else {}
  {
    hide RawDim;
  }

  /** The count a set of histograms holds for a bucket, zero without a histogram. */
  function At(hists: map<HistCell, Hist>, c: HistCell, i: nat): nat
    requires i < HIST_BUCKETS && forall d :: d in hists ==> |hists[d]| == HIST_BUCKETS
  {
    if c in hists then hists[c][i] else 0
  }

  lemma CountInEffect(hists: map<HistCell, Hist>, c: HistCell, v: Option<real>)
    requires forall d :: d in hists ==> |hists[d]| == HIST_BUCKETS
    ensures var u := CountIn(hists, c, v);
      (forall d :: d in u ==> |u[d]| == HIST_BUCKETS) &&
      (forall d :: d in u <==> d in hists || (d == c && v.Some?)) &&
      forall d, i: nat :: i < HIST_BUCKETS ==>
        At(u, d, i) == At(hists, d, i) + (if d == c && v.Some? && Bucket(v.value) == i then 1 else 0)
  {
    hide Bucket;
  }

  lemma BumpOne(sums: map<Cell, Acc>, cells: set<Cell>, c: Cell, r: Row)
    requires c !in cells
    ensures Bump(BumpAll(sums, cells, r), c, r) == BumpAll(sums, cells + {c}, r)
  {
  }

  lemma HistsAreFull(t: Tables, cal: Calendar, rows: seq<Row>)
    requires Describes(t, cal, rows)
    ensures forall d :: d in t.hists ==> |t.hists[d]| == HIST_BUCKETS
  {
  }

  lemma FirstCellsAreAll(cal: Calendar, day: int, r: Row)
    requires RowDay(cal, r) == Some(day)
    ensures forall c :: c in FirstCells(day, r, |DIMS|) <==> InCell(cal, r, c)
  {
    hide DimValue;
    forall c ensures c in FirstCells(day, r, |DIMS|) <==> InCell(cal, r, c) {
      RowCellsAreItsCells(cal, r, c);
      assert c in CellsOnDay(day, r) <==> c in FirstCells(day, r, |DIMS|) by {
        if c in CellsOnDay(day, r) && c.DimCell? {
          var d :| d in DIMS && c == DimCell(day, d, DimValue(r, d));
          var k :| 0 <= k < |DIMS| && DIMS[k] == d;
        }
      }
    }
  }

  lemma RowDistinctIsAll(cal: Calendar, day: int, r: Row)
    requires RowDay(cal, r) == Some(day)
    ensures forall c :: c in RowDistinct(day, r, |DIMS|) <==> IsDistinct(cal, r, c)
  {
    forall c ensures c in RowDistinct(day, r, |DIMS|) <==> IsDistinct(cal, r, c) {
      if IsDistinct(cal, r, c) {
        var k := if c.dim.Model? then 0 else 2;
        assert DIMS[k] == c.dim;
      }
    }
  }

  lemma ExistsInSnoc<T>(rows: seq<T>, r: T, p: T -> bool)
    ensures (exists x :: x in rows + [r] && p(x)) <==> (exists x :: x in rows && p(x)) || p(r)
  {
    assert forall x :: x in rows + [r] <==> x in rows || x == r;
  }

  lemma SumsObserved(t: Tables, u: Tables, cal: Calendar, r: Row, rows: seq<Row>, cells: set<Cell>)
    requires Describes(t, cal, rows)
    requires (forall c :: c in cells <==> InCell(cal, r, c)) && u.sums == BumpAll(t.sums, cells, r)
    ensures forall c :: c in u.sums <==> exists x :: x in rows + [r] && InCell(cal, x, c)
    ensures forall c :: c in u.sums ==> u.sums[c] == SumOf(rows + [r], CellFilter(cal, c))
  {
    hide InCell, Observe, HasMeasure, IsDistinct, BucketCount;
    forall c ensures c in u.sums <==> exists x :: x in rows + [r] && InCell(cal, x, c) {
      ExistsInSnoc(rows, r, CellFilter(cal, c));
    }
    forall c | c in u.sums ensures u.sums[c] == SumOf(rows + [r], CellFilter(cal, c)) {
      assert (rows + [r])[..|rows|] == rows;
      if c !in t.sums {
        SumOfFacts(rows, CellFilter(cal, c));
      }
    }
  }

  lemma HistsObserved(t: Tables, u: Tables, cal: Calendar, r: Row, rows: seq<Row>, day: int)
    requires Describes(t, cal, rows) && RowDay(cal, r) == Some(day)
    requires u.hists == CountIn(CountIn(t.hists, HistCell(day, Latency), r.latency), HistCell(day, Ttft), r.ttft)
    ensures forall c :: c in u.hists <==> exists x :: x in rows + [r] && HasMeasure(cal, x, c)
    ensures forall c :: c in u.hists ==> |u.hists[c]| == HIST_BUCKETS
    ensures forall c, i :: c in u.hists && 0 <= i < HIST_BUCKETS ==> u.hists[c][i] == BucketCount(cal, rows + [r], c, i)
  {
    hide InCell, Observe, IsDistinct, SumOf, Bucket, CountIn, BucketCount;
    CountInEffect(t.hists, HistCell(day, Latency), r.latency);
    CountInEffect(CountIn(t.hists, HistCell(day, Latency), r.latency), HistCell(day, Ttft), r.ttft);
    forall c ensures c in u.hists <==> exists x :: x in rows + [r] && HasMeasure(cal, x, c) {
      ExistsInSnoc(rows, r, HistFilter(cal, c));
    }
    forall c, i | c in u.hists && 0 <= i < HIST_BUCKETS ensures u.hists[c][i] == BucketCount(cal, rows + [r], c, i) {
      assert u.hists[c][i] == At(u.hists, c, i);
      AtIsCount(t, cal, rows, c, i);
      BucketCountSnoc(cal, rows, r, c, i);
    }
  }

  lemma BucketCountSnoc(cal: Calendar, rows: seq<Row>, r: Row, c: HistCell, i: nat)
    ensures BucketCount(cal, rows + [r], c, i) ==
      BucketCount(cal, rows, c, i) + (if InBucket(cal, r, c, i) then 1 else 0)
  {
    assert (rows + [r])[..|rows|] == rows;
  }

  lemma AtIsCount(t: Tables, cal: Calendar, rows: seq<Row>, c: HistCell, i: nat)
    requires Describes(t, cal, rows) && i < HIST_BUCKETS
    ensures At(t.hists, c, i) == BucketCount(cal, rows, c, i)
  {
    hide InCell, IsDistinct, SumOf, Bucket, BucketCount;
    BucketCountPositive(cal, rows, c, i);
  }

  lemma DescribesObserved(t: Tables, u: Tables, cal: Calendar, r: Row, rows: seq<Row>, cells: set<DistinctCell>)
    requires Describes(t, cal, rows)
    requires (forall c :: c in cells <==> IsDistinct(cal, r, c)) && u.distinct == t.distinct + cells
    requires forall c :: c in u.sums <==> exists x :: x in rows + [r] && InCell(cal, x, c)
    requires forall c :: c in u.sums ==> u.sums[c] == SumOf(rows + [r], CellFilter(cal, c))
    requires forall c :: c in u.hists <==> exists x :: x in rows + [r] && HasMeasure(cal, x, c)
    requires forall c :: c in u.hists ==> |u.hists[c]| == HIST_BUCKETS
    requires forall c, i :: c in u.hists && 0 <= i < HIST_BUCKETS ==>
      u.hists[c][i] == BucketCount(cal, rows + [r], c, i)
    ensures Describes(u, cal, rows + [r])
  {
    hide InCell, HasMeasure, SumOf, BucketCount, IsDistinct;
    forall c ensures c in u.distinct <==> exists x :: x in rows + [r] && IsDistinct(cal, x, c) {
      ExistsInSnoc(rows, r, DistinctFilter(cal, c));
    }
  }
}
