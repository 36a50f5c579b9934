/**
 Why one incremental update can be trusted: merging a delta is appending rows, a watermark
 that belongs to the file leads to the rebuild, a reset that is noticed is rebuilt, and one
 that is not is harmless exactly when the kept totals could come from the present rows.
 */
module AggregateLaws {
  import opened Wrappers
  import opened Aggregate
  import opened AggregateScan
  import opened AggregateStore

  /** No histogram bucket overflows its 32-bit counter. */
  ghost predicate Fits(cal: Calendar, rows: seq<Row>) {
    forall c: HistCell, i: nat :: BucketCount(cal, rows, c, i) <= U32_MAX
  }

  // ---------------------------------------------------------------- merge is append

  lemma ExistsInConcat<T>(a: seq<T>, b: seq<T>, p: T -> bool)
    ensures (exists x :: x in a + b && p(x)) <==> (exists x :: x in a && p(x)) || (exists x :: x in b && p(x))
  {
    assert forall x :: x in a + b <==> x in a || x in b;
  }

  lemma MergedSums(t: Tables, delta: Tables, cal: Calendar, a: seq<Row>, b: seq<Row>)
    requires Describes(t, cal, a) && Describes(delta, cal, b) && FullHists(t) && FullHists(delta)
    ensures var u := Merge(t, delta);
      (forall c :: c in u.sums <==> exists r :: r in a + b && InCell(cal, r, c)) &&
      (forall c :: c in u.sums ==> u.sums[c] == SumOf(a + b, CellFilter(cal, c)))
  {
    hide InCell, Add, SumOf, HasMeasure, IsDistinct, BucketCount, MergedHist, IsZeroHist;
    var u := Merge(t, delta);
    forall c: Cell
      ensures c in u.sums <==> exists r :: r in a + b && InCell(cal, r, c)
      ensures c in u.sums ==> u.sums[c] == SumOf(a + b, CellFilter(cal, c))
    {
      var p := CellFilter(cal, c);
      ExistsInConcat(a, b, p);
      SumOfSplits(a, b, p);
      SumOfFacts(a, p);
      SumOfFacts(b, p);
      SumOfFacts(a + b, p);
      AddZero(SumOf(a, p));
      assert c in delta.sums ==> c.day in DaysOf(delta);
      assert c !in t.sums ==> SumOf(a, p) == ZERO;
      assert c !in delta.sums ==> SumOf(b, p) == ZERO;
    }
  }

  lemma AddZero(a: Acc)
    requires a.latencyMax >= 0.0
    ensures Add(a, ZERO) == a && Add(ZERO, a) == a
  {
  }

  lemma MergedHists(t: Tables, delta: Tables, cal: Calendar, a: seq<Row>, b: seq<Row>)
    requires Describes(t, cal, a) && Describes(delta, cal, b) && FullHists(t) && FullHists(delta)
    requires Fits(cal, a + b)
    ensures var u := Merge(t, delta);
      (forall c :: c in u.hists <==> exists r :: r in a + b && HasMeasure(cal, r, c)) &&
      (forall c, i :: c in u.hists && 0 <= i < HIST_BUCKETS ==> u.hists[c][i] == BucketCount(cal, a + b, c, i))
  {
    hide InCell, Add, SumOf, HasMeasure, IsDistinct, BucketCount, MergedAcc;
    var u := Merge(t, delta);
    forall c: HistCell
      ensures c in u.hists <==> exists r :: r in a + b && HasMeasure(cal, r, c)
      ensures c in u.hists ==> forall i :: 0 <= i < HIST_BUCKETS ==> u.hists[c][i] == BucketCount(cal, a + b, c, i)
    {
      ExistsInConcat(a, b, HistFilter(cal, c));
      assert c in delta.hists ==> c.day in DaysOf(delta);
      forall i: nat | i < HIST_BUCKETS
        ensures MergedHist(t, delta, c)[i] == BucketCount(cal, a + b, c, i)
      {
        BucketCountSplits(cal, a, b, c, i);
        AtIsCount(t, cal, a, c, i);
        AtIsCount(delta, cal, b, c, i);
        assert BucketCount(cal, a + b, c, i) <= U32_MAX;
      }
      MeasuredMeansCounted(cal, a + b, c);
    }
  }

  /** A histogram exists exactly when one of its buckets is not zero. */
  lemma MeasuredMeansCounted(cal: Calendar, rows: seq<Row>, c: HistCell)
    ensures (exists r :: r in rows && HasMeasure(cal, r, c)) <==>
      exists i: nat :: i < HIST_BUCKETS && BucketCount(cal, rows, c, i) > 0
  {
    hide Bucket, BucketCount;
    if r :| r in rows && HasMeasure(cal, r, c) {
      var i := Bucket(Measure(r, c.kind).value);
      BucketCountPositive(cal, rows, c, i);
      assert InBucket(cal, r, c, i);
    }
    if i: nat :| i < HIST_BUCKETS && BucketCount(cal, rows, c, i) > 0 {
      BucketCountPositive(cal, rows, c, i);
      var r :| r in rows && InBucket(cal, r, c, i);
      assert HasMeasure(cal, r, c);
    }
  }

  lemma MergedDistinct(t: Tables, delta: Tables, cal: Calendar, a: seq<Row>, b: seq<Row>)
    requires Describes(t, cal, a) && Describes(delta, cal, b) && FullHists(t) && FullHists(delta)
    ensures forall c :: c in Merge(t, delta).distinct <==> exists r :: r in a + b && IsDistinct(cal, r, c)
  {
    hide InCell, SumOf, HasMeasure, IsDistinct, BucketCount, MergedAcc, MergedHist, IsZeroHist;
    var u := Merge(t, delta);
    forall c ensures c in u.distinct <==> exists r :: r in a + b && IsDistinct(cal, r, c) {
      ExistsInConcat(a, b, DistinctFilter(cal, c));
      assert c in delta.distinct ==> c.day in DaysOf(delta);
    }
  }

  lemma DescribesByParts(u: Tables, cal: Calendar, rows: seq<Row>)
    requires FullHists(u)
    requires forall c :: c in u.sums <==> exists r :: r in rows && InCell(cal, r, c)
    requires forall c :: c in u.sums ==> u.sums[c] == SumOf(rows, CellFilter(cal, c))
    requires forall c :: c in u.hists <==> exists r :: r in rows && HasMeasure(cal, r, c)
    requires forall c, i :: c in u.hists && 0 <= i < HIST_BUCKETS ==> u.hists[c][i] == BucketCount(cal, rows, c, i)
    requires forall c :: c in u.distinct <==> exists r :: r in rows && IsDistinct(cal, r, c)
    ensures Describes(u, cal, rows)
  {
    hide InCell, CellFilter, SumOf, HasMeasure, IsDistinct, BucketCount;
  }

  /** Merging the totals of later rows into those of earlier rows gives the totals of all. */
  lemma MergeIsAppend(t: Tables, delta: Tables, cal: Calendar, a: seq<Row>, b: seq<Row>)
    requires Describes(t, cal, a) && Describes(delta, cal, b) && FullHists(t) && FullHists(delta)
    requires Fits(cal, a + b)
    ensures Describes(Merge(t, delta), cal, a + b)
  {
    hide Merge, Fits, InCell, CellFilter, SumOf, HasMeasure, IsDistinct, BucketCount, Describes;
    MergedSums(t, delta, cal, a, b);
    MergedHists(t, delta, cal, a, b);
    MergedDistinct(t, delta, cal, a, b);
    DescribesByParts(Merge(t, delta), cal, a + b);
  }

  // ---------------------------------------------------------------- one update

  /** The totals cover the first `k` rows of the present file, and the watermark says so. */
  ghost predicate SyncedAt(k: nat, cal: Calendar, table: seq<Row>, identity: int, t: Tables, s: ActiveState) {
    1 <= k <= |table| && Describes(t, cal, table[..k]) &&
    s == ActiveState(table[k - 1].id, MaxTime(table[..k]), OrElse(table[k - 1].timeMs, 0), identity)
  }

  lemma SyncedNeedsNoClear(k: nat, cal: Calendar, table: seq<Row>, identity: int, t: Tables, s: ActiveState)
    requires Ascending(table) && SyncedAt(k, cal, table, identity, t, s)
    ensures !LooksRotated(s, table, identity)
  {
    hide Describes, MaxTime;
    TimeOfRow(table, k - 1);
  }

  lemma {:induction false} TimeOfRow(table: seq<Row>, k: nat)
    requires Ascending(table) && k < |table|
    ensures TimeOfId(table, table[k].id) == OrElse(table[k].timeMs, 0)
  {
    if k > 0 {
      assert table[0].id < table[k].id;
      TimeOfRow(table[1..], k - 1);
    }
  }

  lemma {:induction false} MaxTimeSplits(a: seq<Row>, b: seq<Row>)
    ensures MaxTime(a + b) == if MaxTime(b) > MaxTime(a) then MaxTime(b) else MaxTime(a)
    ensures MaxTime(a) >= 0
    decreases |a| + |b|
  {
    if b == [] {
      assert a + b == a;
      if a != [] {
        MaxTimeSplits(a[..|a| - 1], []);
      }
    } else {
      MaxTimeSplits(a, b[..|b| - 1]);
      assert (a + b)[..|a + b| - 1] == a + b[..|b| - 1];
    }
  }

  lemma AllAfterZero(table: seq<Row>)
    requires Ascending(table) && forall i :: 0 <= i < |table| ==> table[i].id >= 1
    ensures After(table, 0) == table
  {
  }

  lemma LastIsMax(table: seq<Row>, k: nat)
    requires Ascending(table) && 1 <= k <= |table|
    ensures MaxId(table) == table[k - 1].id <==> k == |table|
    ensures k < |table| ==>
      MaxId(table) == MaxId(table[k..]) && LastTime(table[k..]) == OrElse(table[|table| - 1].timeMs, 0)
  {
  }

  /** Only the rows behind the watermark are scanned, and the result covers the whole file. */
  lemma IncrementalUpdate(k: nat, cal: Calendar, table: seq<Row>, identity: int, t0: Tables, s0: ActiveState,
                          t1: Tables, s1: Option<ActiveState>, ok: bool, delta: Tables)
    requires FullHists(t0) && FullHists(delta) && Ascending(table) && Fits(cal, table)
    requires SyncedAt(k, cal, table, identity, t0, s0)
    requires Ensured(cal, table, table, identity, true, t0, Some(s0), t1, s1, ok, delta)
    ensures s1.Some? && SyncedAt(|table|, cal, table, identity, t1, s1.value)
  {
    hide Describes, FullHists, Merge, Fits, LooksRotated, MaxTime, Ascending, After;
    SyncedNeedsNoClear(k, cal, table, identity, t0, s0);
    assert table[..|table|] == table;
    AfterPosition(table, k - 1);
    LastIsMax(table, k);
    if k < |table| {
      assert table[..k] + table[k..] == table;
      MergeIsAppend(t0, delta, cal, table[..k], table[k..]);
      MaxTimeSplits(table[..k], table[k..]);
    }
  }

  /** The update starts over: nothing was recorded, or the store is taken for a new one. */
  predicate StartsOver(state: Option<ActiveState>, table: seq<Row>, identity: int) {
    state.None? || LooksRotated(state.value, table, identity)
  }

  /** Whatever the tables held: an update that starts over leaves the rebuild and a new watermark. */
  lemma NoticedResetIsRebuilt(cal: Calendar, table: seq<Row>, identity: int, t0: Tables, s0: Option<ActiveState>,
                              t1: Tables, s1: Option<ActiveState>, ok: bool, delta: Tables)
    requires FullHists(t0) && FullHists(delta) && Ascending(table) && Fits(cal, table)
    requires table != [] && forall i :: 0 <= i < |table| ==> table[i].id >= 1
    requires StartsOver(s0, table, identity) && (s0.None? ==> t0 == EMPTY)
    requires Ensured(cal, table, table, identity, true, t0, s0, t1, s1, ok, delta)
    ensures s1.Some? && SyncedAt(|table|, cal, table, identity, t1, s1.value)
    ensures Describes(t1, cal, table)
  {
    hide Describes, Merge, Fits, LooksRotated, MaxTime, Ascending;
    EmptyDescribesNothing(cal);
    assert [] + table == table == table[..|table|];
    AllAfterZero(table);
    MergeIsAppend(EMPTY, delta, cal, [], table);
    MaxTimeSplits(table, []);
  }

  // ---------------------------------------------------------------- a reset that is not noticed

  ghost predicate Listed(cal: Calendar, rows: seq<Row>, c: DistinctCell) {
    exists r :: r in rows && IsDistinct(cal, r, c)
  }

  /** The two lists of rows have the same daily totals. */
  ghost predicate SameCells(cal: Calendar, x: seq<Row>, y: seq<Row>) {
    (forall c: Cell :: SumOf(x, CellFilter(cal, c)) == SumOf(y, CellFilter(cal, c))) &&
    (forall c: HistCell, i: nat :: BucketCount(cal, x, c, i) == BucketCount(cal, y, c, i)) &&
    (forall c: DistinctCell :: Listed(cal, x, c) <==> Listed(cal, y, c))
  }

  lemma CellsDecide(t: Tables, cal: Calendar, x: seq<Row>, y: seq<Row>)
    requires Describes(t, cal, x)
    ensures Describes(t, cal, y) <==> SameCells(cal, x, y)
  {
    hide SumOf, BucketCount, InCell, HasMeasure, IsDistinct, Bucket, Describes;
    if Describes(t, cal, y) {
      forall c: Cell ensures SumOf(x, CellFilter(cal, c)) == SumOf(y, CellFilter(cal, c)) {
        StoredSum(t, cal, x, c);
        StoredSum(t, cal, y, c);
      }
      forall c: HistCell, i: nat ensures BucketCount(cal, x, c, i) == BucketCount(cal, y, c, i) {
        StoredCount(t, cal, x, c, i);
        StoredCount(t, cal, y, c, i);
      }
      forall c ensures Listed(cal, x, c) <==> Listed(cal, y, c) {
        StoredDistinct(t, cal, x, c);
        StoredDistinct(t, cal, y, c);
      }
    }
    if SameCells(cal, x, y) {
      SameCellsDescribe(t, cal, x, y);
    }
  }

  lemma StoredSum(t: Tables, cal: Calendar, rows: seq<Row>, c: Cell)
    requires Describes(t, cal, rows)
    ensures SumOf(rows, CellFilter(cal, c)) == if c in t.sums then t.sums[c] else ZERO
  {
    hide SumOf, InCell;
    SumOfFacts(rows, CellFilter(cal, c));
  }

  lemma StoredCount(t: Tables, cal: Calendar, rows: seq<Row>, c: HistCell, i: nat)
    requires Describes(t, cal, rows)
    ensures BucketCount(cal, rows, c, i) == if c in t.hists && i < |t.hists[c]| then t.hists[c][i] else 0
  {
    hide SumOf, BucketCount, InCell, IsDistinct, Bucket;
    BucketCountPositive(cal, rows, c, i);
  }

  lemma StoredDistinct(t: Tables, cal: Calendar, rows: seq<Row>, c: DistinctCell)
    requires Describes(t, cal, rows)
    ensures Listed(cal, rows, c) <==> c in t.distinct
  {
    hide SumOf, BucketCount, InCell, HasMeasure, IsDistinct;
  }

  lemma SameCellsMeasure(cal: Calendar, x: seq<Row>, y: seq<Row>, c: HistCell)
    requires SameCells(cal, x, y) && exists r :: r in x && HasMeasure(cal, r, c)
    ensures exists r :: r in y && HasMeasure(cal, r, c)
  {
    hide SumOf, BucketCount, IsDistinct, Bucket;
    var r :| r in x && HasMeasure(cal, r, c);
    var i := Bucket(Measure(r, c.kind).value);
    BucketCountPositive(cal, x, c, i);
    BucketCountPositive(cal, y, c, i);
    assert InBucket(cal, r, c, i) && BucketCount(cal, x, c, i) == BucketCount(cal, y, c, i);
    var q :| q in y && InBucket(cal, q, c, i);
    assert HasMeasure(cal, q, c);
  }

  lemma SameCellsDescribe(t: Tables, cal: Calendar, x: seq<Row>, y: seq<Row>)
    requires Describes(t, cal, x) && SameCells(cal, x, y)
    ensures Describes(t, cal, y)
  {
    hide SumOf, BucketCount, InCell, HasMeasure, IsDistinct, Bucket;
    forall c: Cell ensures c in t.sums <==> exists r :: r in y && InCell(cal, r, c) {
      SumOfFacts(x, CellFilter(cal, c));
      SumOfFacts(y, CellFilter(cal, c));
    }
    forall c: HistCell ensures c in t.hists <==> exists r :: r in y && HasMeasure(cal, r, c) {
      if r :| r in x && HasMeasure(cal, r, c) {
        SameCellsMeasure(cal, x, y, c);
      }
      if r :| r in y && HasMeasure(cal, r, c) {
        SameCellsMeasure(cal, y, x, c);
      }
    }
    forall c ensures c in t.distinct <==> exists r :: r in y && IsDistinct(cal, r, c) {
      assert Listed(cal, x, c) <==> Listed(cal, y, c);
    }
  }

  /** Equal counters, and maxima that agree or are both covered by a later one. */
  predicate SameSums(x: Acc, y: Acc, later: real) {
    x.(latencyMax := 0.0) == y.(latencyMax := 0.0) &&
    (x.latencyMax == y.latencyMax || (x.latencyMax <= later && y.latencyMax <= later))
  }

  /**
   The rows `kept` that the totals were made of pass for the rows `upTo`: cell by cell the
   same counters and histograms, and the same maxima and values as far as `later` leaves them open.
   */
  ghost predicate PassesFor(cal: Calendar, kept: seq<Row>, upTo: seq<Row>, later: seq<Row>) {
    (forall c: Cell ::
       SameSums(SumOf(kept, CellFilter(cal, c)), SumOf(upTo, CellFilter(cal, c)),
                SumOf(later, CellFilter(cal, c)).latencyMax)) &&
    (forall c: HistCell, i: nat :: BucketCount(cal, kept, c, i) == BucketCount(cal, upTo, c, i)) &&
    (forall c: DistinctCell :: (Listed(cal, kept, c) <==> Listed(cal, upTo, c)) || Listed(cal, later, c))
  }

  lemma PassesForIsSameCells(cal: Calendar, kept: seq<Row>, upTo: seq<Row>, later: seq<Row>)
    ensures SameCells(cal, kept + later, upTo + later) <==> PassesFor(cal, kept, upTo, later)
  {
    hide SumOf, BucketCount, IsDistinct, CellFilter;
    forall c: Cell
      ensures SumOf(kept + later, CellFilter(cal, c)) == SumOf(upTo + later, CellFilter(cal, c)) <==>
        SameSums(SumOf(kept, CellFilter(cal, c)), SumOf(upTo, CellFilter(cal, c)),
                 SumOf(later, CellFilter(cal, c)).latencyMax)
    {
      SumOfSplits(kept, later, CellFilter(cal, c));
      SumOfSplits(upTo, later, CellFilter(cal, c));
    }
    forall c: HistCell, i: nat
      ensures BucketCount(cal, kept + later, c, i) == BucketCount(cal, upTo + later, c, i) <==>
        BucketCount(cal, kept, c, i) == BucketCount(cal, upTo, c, i)
    {
      BucketCountSplits(cal, kept, later, c, i);
      BucketCountSplits(cal, upTo, later, c, i);
    }
    forall c: DistinctCell
      ensures (Listed(cal, kept + later, c) <==> Listed(cal, upTo + later, c)) <==>
        (Listed(cal, kept, c) <==> Listed(cal, upTo, c)) || Listed(cal, later, c)
    {
      ExistsInConcat(kept, later, DistinctFilter(cal, c));
      ExistsInConcat(upTo, later, DistinctFilter(cal, c));
    }
  }

  /** The rows a watermark stands for. */
  function UpTo(table: seq<Row>, id: int): seq<Row> {
    if table == [] || table[0].id > id then [] else [table[0]] + UpTo(table[1..], id)
  }

  lemma {:induction false} UpToAndAfter(table: seq<Row>, id: int)
    ensures UpTo(table, id) + After(table, id) == table
  {
    if table != [] && table[0].id <= id {
      UpToAndAfter(table[1..], id);
    }
  }

  lemma {:induction false} NothingAfterTheLast(table: seq<Row>, id: int)
    requires Ascending(table) && MaxId(table) == id
    ensures After(table, id) == []
  {
    if table != [] {
      AfterPosition(table, |table| - 1);
    }
  }

  /**
   Where nothing looks rotated the rows behind the watermark are added to what the tables
   hold, and the result is right exactly when the kept rows pass for those up to the watermark.
   */
  lemma KeptTotalsAreRightIff(cal: Calendar, table: seq<Row>, identity: int, kept: seq<Row>,
                              t0: Tables, s0: ActiveState, t1: Tables, s1: Option<ActiveState>, ok: bool, delta: Tables)
    requires FullHists(t0) && FullHists(delta) && Ascending(table) && Describes(t0, cal, kept)
    requires !LooksRotated(s0, table, identity) && Fits(cal, kept + After(table, s0.lastId))
    requires Ensured(cal, table, table, identity, true, t0, Some(s0), t1, s1, ok, delta)
    ensures Describes(t1, cal, kept + After(table, s0.lastId))
    ensures Describes(t1, cal, table) <==> PassesFor(cal, kept, UpTo(table, s0.lastId), After(table, s0.lastId))
  {
    hide Describes, Merge, Fits, LooksRotated, MaxTime, Ascending, SameCells, PassesFor;
    var later := After(table, s0.lastId);
    if MaxId(table) == s0.lastId {
      NothingAfterTheLast(table, s0.lastId);
      assert kept + later == kept;
    } else {
      MergeIsAppend(t0, delta, cal, kept, later);
    }
    UpToAndAfter(table, s0.lastId);
    PassesForIsSameCells(cal, kept, UpTo(table, s0.lastId), later);
    CellsDecide(t1, cal, kept + later, table);
  }
}
