/**
 The incremental update of the active store's totals: a watermark, a scan of the rows past
 it, and a day-by-day merge in one transaction.
 */
module AggregateStore {
  import opened Wrappers
  import opened Aggregate
  import opened AggregateScan

  const U32_MAX: nat := 0xFFFF_FFFF

  // ---------------------------------------------------------------- scanning in batches

  function MaxTime(rows: seq<Row>): int {
    if rows == [] then 0
    else
      var before := MaxTime(rows[..|rows| - 1]);
      var t := rows[|rows| - 1].timeMs;
      if t.Some? && t.value > before then t.value else before
  }

  function LastTime(rows: seq<Row>): int {
    if rows == [] then 0 else OrElse(rows[|rows| - 1].timeMs, 0)
  }

  function MaxId(rows: seq<Row>): int {
    if rows == [] then 0 else rows[|rows| - 1].id
  }

  function FirstRows(rows: seq<Row>, n: nat): seq<Row> {
    if n <= |rows| then rows[..n] else rows
  }

  /** `WHERE id > ? ORDER BY id LIMIT ?` until a short batch; `build` is the scan from the lowest id. */
  method ScanAfter(table: seq<Row>, cal: Calendar, lastId: int, batch: nat)
    returns (delta: Tables, maxTimeMs: int, lastTimeMs: int)
    requires Ascending(table) && batch >= 1
    ensures Describes(delta, cal, After(table, lastId))
    ensures maxTimeMs == MaxTime(After(table, lastId)) && lastTimeMs == LastTime(After(table, lastId))
  {
    hide Describes, Ascending, After;
    ghost var start := AfterIsSuffix(table, lastId);
    ghost var rest := After(table, lastId);
    ghost var done := 0;
    delta, maxTimeMs, lastTimeMs := EMPTY, 0, 0;
    EmptyDescribesNothing(cal);
    var cursor := lastId;
    var more := true;
    while more
      invariant done <= |rest| && After(table, cursor) == rest[done..]
      invariant Describes(delta, cal, rest[..done])
      invariant maxTimeMs == MaxTime(rest[..done]) && lastTimeMs == LastTime(rest[..done])
      invariant !more ==> done == |rest|
      decreases more, |rest| - done
    {
      var rows := FirstRows(After(table, cursor), batch);
      ghost var base := done;
      for i := 0 to |rows|
        invariant done == base + i && i <= |rows|
        invariant After(table, cursor) == rest[done..]
        invariant Describes(delta, cal, rest[..done])
        invariant maxTimeMs == MaxTime(rest[..done]) && lastTimeMs == LastTime(rest[..done])
      {
        var row := rows[i];
        assert row == rest[done] == table[start + done];
        assert rest[..done + 1][..done] == rest[..done] && rest[..done + 1] == rest[..done] + [row];
        cursor := row.id;
        AfterPosition(table, start + done);
        lastTimeMs := OrElse(row.timeMs, 0);
        if row.timeMs.Some? && row.timeMs.value > maxTimeMs {
          maxTimeMs := row.timeMs.value;
        }
        var day := RowDay(cal, row);
        if day.Some? {
          delta := ObserveRow(delta, cal, row, day.value, rest[..done]);
        } else {
          SkippedRow(delta, cal, row, rest[..done]);
        }
        done := done + 1;
      }
      more := |rows| == batch;
    }
    assert rest[..done] == rest;
  }

  /** The full rebuild of `build`: every table from every row. */
  method Build(table: seq<Row>, cal: Calendar, batch: nat) returns (t: Tables)
    requires Ascending(table) && batch >= 1
    requires forall i :: 0 <= i < |table| ==> table[i].id > -0x8000_0000_0000_0000
    ensures Describes(t, cal, table)
  {
    hide Describes;
    ghost var k := AfterIsSuffix(table, -0x8000_0000_0000_0000);
    var delta, _, _ := ScanAfter(table, cal, -0x8000_0000_0000_0000, batch);
    t := delta;
    assert table[0..] == table;
  }

  lemma EmptyDescribesNothing(cal: Calendar)
    ensures Describes(EMPTY, cal, [])
  {
  }

  /** A row without a local day changes nothing. */
  lemma SkippedRow(t: Tables, cal: Calendar, r: Row, rows: seq<Row>)
    requires Describes(t, cal, rows) && RowDay(cal, r).None?
    ensures Describes(t, cal, rows + [r])
  {
    hide SumOf, BucketCount;
    var all := rows + [r];
    assert all[..|rows|] == rows;
    assert forall c: Cell :: !InCell(cal, r, c);
    forall c: Cell ensures SumOf(all, CellFilter(cal, c)) == SumOf(rows, CellFilter(cal, c)) {
      SumOfSnoc(rows, r, CellFilter(cal, c));
    }
    forall c, i: nat ensures BucketCount(cal, all, c, i) == BucketCount(cal, rows, c, i) {
      BucketCountSnoc(cal, rows, r, c, i);
    }
    assert forall x :: x in all <==> x in rows || x == r;
  }

  lemma SumOfSnoc(rows: seq<Row>, r: Row, p: Row -> bool)
    ensures SumOf(rows + [r], p) == if p(r) then Observe(SumOf(rows, p), r) else SumOf(rows, p)
  {
    hide Observe;
    assert (rows + [r])[..|rows|] == rows;
  }

  // ---------------------------------------------------------------- merging a delta, day by day

  function SaturatingCount(a: nat, b: nat): nat {
    if a + b > U32_MAX then U32_MAX else a + b
  }

  function MergedAcc(t: Tables, delta: Tables, c: Cell): Acc {
    var stored := if c in t.sums then t.sums[c] else ZERO;
    if c in delta.sums then Add(stored, delta.sums[c]) else stored
  }

  ghost predicate FullHists(t: Tables) {
    forall c :: c in t.hists ==> |t.hists[c]| == HIST_BUCKETS
  }

  function MergedHist(t: Tables, delta: Tables, c: HistCell): Hist
    requires FullHists(t) && FullHists(delta)
  {
    var stored := if c in t.hists then t.hists[c] else seq(HIST_BUCKETS, i => 0);
    if c in delta.hists then
      seq(HIST_BUCKETS, i requires 0 <= i < HIST_BUCKETS => SaturatingCount(stored[i], delta.hists[c][i]))
    else stored
  }

  predicate IsZeroHist(h: Hist) {
    forall i :: 0 <= i < |h| ==> h[i] == 0
  }

  /** The tables once the days in `days` have been rewritten: read, add, drop what is empty, insert. */
  function MergeDays(t: Tables, delta: Tables, days: set<int>): (u: Tables)
    requires FullHists(t) && FullHists(delta)
    ensures FullHists(u)
  {
    Tables(
      map c | c in t.sums.Keys + delta.sums.Keys &&
        (if c.day in days then MergedAcc(t, delta, c).rowsAll > 0 else c in t.sums) ::
        if c.day in days then MergedAcc(t, delta, c) else t.sums[c],
      map c | c in t.hists.Keys + delta.hists.Keys &&
        (if c.day in days then !IsZeroHist(MergedHist(t, delta, c)) else c in t.hists) ::
        if c.day in days then MergedHist(t, delta, c) else t.hists[c],
      t.distinct + set c | c in delta.distinct && c.day in days)
  }

  function DaysOf(delta: Tables): set<int> {
    (set c | c in delta.sums :: c.day) + (set c | c in delta.hists :: c.day) + (set c | c in delta.distinct :: c.day)
  }

  function Merge(t: Tables, delta: Tables): (u: Tables)
    requires FullHists(t) && FullHists(delta)
    ensures FullHists(u)
  {
    MergeDays(t, delta, DaysOf(delta))
  }

  lemma MergeOneMoreDay(t: Tables, delta: Tables, done: set<int>, day: int)
    requires FullHists(t) && FullHists(delta) && day !in done
    ensures MergeDays(MergeDays(t, delta, done), delta, {day}) == MergeDays(t, delta, done + {day})
  {
    hide Add, SaturatingCount;
    var u := MergeDays(t, delta, done);
    var v, w := MergeDays(u, delta, {day}), MergeDays(t, delta, done + {day});
    assert v.sums == w.sums by { MergeOneMoreDaySums(t, delta, done, day); }
    assert v.hists == w.hists by { MergeOneMoreDayHists(t, delta, done, day); }
    assert v.distinct == w.distinct;
  }

  lemma MergeOneMoreDaySums(t: Tables, delta: Tables, done: set<int>, day: int)
    requires FullHists(t) && FullHists(delta) && day !in done
    ensures MergeDays(MergeDays(t, delta, done), delta, {day}).sums == MergeDays(t, delta, done + {day}).sums
  {
    hide Add, MergedHist, IsZeroHist;
    var u := MergeDays(t, delta, done);
    forall c: Cell | c.day == day ensures MergedAcc(u, delta, c) == MergedAcc(t, delta, c) {
      assert c in u.sums <==> c in t.sums;
    }
  }

  lemma MergeOneMoreDayHists(t: Tables, delta: Tables, done: set<int>, day: int)
    requires FullHists(t) && FullHists(delta) && day !in done
    ensures MergeDays(MergeDays(t, delta, done), delta, {day}).hists == MergeDays(t, delta, done + {day}).hists
  {
    hide MergedAcc, IsZeroHist, SaturatingCount;
    var u := MergeDays(t, delta, done);
    forall c: HistCell | c.day == day ensures MergedHist(u, delta, c) == MergedHist(t, delta, c) {
      assert c in u.hists <==> c in t.hists;
    }
    hide MergedHist;
  }

  // ---------------------------------------------------------------- the watermark

  datatype ActiveState = ActiveState(lastId: int, maxTimeMs: int, lastTimeMs: int, identity: int)

  function TimeOfId(table: seq<Row>, id: int): int {
    if table == [] then 0
    else if table[0].id == id then OrElse(table[0].timeMs, 0)
    else TimeOfId(table[1..], id)
  }

  /** The store is taken for a new one: another file, another cursor row, or fewer rows. */
  predicate LooksRotated(state: ActiveState, table: seq<Row>, identity: int) {
    state.identity != identity ||
    (state.lastId > 0 && state.lastTimeMs != 0 && TimeOfId(table, state.lastId) != state.lastTimeMs) ||
    MaxId(table) < state.lastId
  }

  predicate MustClear(t: Tables, state: Option<ActiveState>, table: seq<Row>, identity: int) {
    match state
    case Some(s) => LooksRotated(s, table, identity)
    case None => (exists c :: c in t.sums && c.DayCell?) || MaxId(table) < 0
  }

  class Rollup {
    var tables: Tables
    var state: Option<ActiveState>

    constructor ()
      ensures tables == EMPTY && state == None
    {
      tables, state := EMPTY, None;
    }

    /** One transaction: all days and the watermark, or nothing. */
    method ApplyDeltas(delta: Tables, watermark: ActiveState, commits: bool) returns (ok: bool)
      requires FullHists(tables) && FullHists(delta)
      modifies this
      ensures ok == commits
      ensures commits ==> tables == Merge(old(tables), delta) && state == Some(watermark)
      ensures !commits ==> tables == old(tables) && state == old(state)
    {
      hide MergeDays;
      var before := tables;
      var done: set<int> := {};
      var todo := DaysOf(delta);
      MergeNoDays(tables, delta);
      while todo != {}
        invariant FullHists(tables) && tables == MergeDays(before, delta, done)
        invariant done + todo == DaysOf(delta) && done !! todo
        invariant state == old(state)
        decreases todo
      {
        var day :| day in todo;
        MergeOneMoreDay(before, delta, done, day);
        tables := MergeDays(tables, delta, {day});
        todo := todo - {day};
        done := done + {day};
      }
      assert done == DaysOf(delta);
      if !commits {
        tables := before;
        return false;
      }
      state := Some(watermark);
      return true;
    }

    /**
     Bring the totals up to date. `table` is the store when the highest id is read, `atScan`
     when the rows are read: inserts may fall between the two.
     */
    method EnsureActive(cal: Calendar, table: seq<Row>, atScan: seq<Row>, identity: int, batch: nat, commits: bool)
      returns (ok: bool, ghost delta: Tables)
      requires Ascending(table) && Ascending(atScan) && table <= atScan && batch >= 1
      requires forall i :: 0 <= i < |table| ==> table[i].id >= 1
      requires FullHists(tables)
      modifies this
      ensures FullHists(old(tables)) && FullHists(delta)
      ensures Ensured(cal, table, atScan, identity, commits, old(tables), old(state), tables, state, ok, delta)
    {
      hide Describes, MergeDays, Ascending, LooksRotated;
      delta := EMPTY;
      var maxId := MaxId(table);
      var lastId := if state.Some? then state.value.lastId else 0;
      var maxTimeMs := if state.Some? then state.value.maxTimeMs else 0;
      if MustClear(tables, state, table, identity) {
        tables := EMPTY;
        lastId, maxTimeMs := 0, 0;
      }
      if maxId == lastId {
        return true, delta;
      }
      var scanned, scannedMax, lastTimeMs := ScanAfter(atScan, cal, lastId, batch);
      delta := scanned;
      DescribedHistsAreFull(cal, scanned, After(atScan, lastId));
      maxTimeMs := if scannedMax > maxTimeMs then scannedMax else maxTimeMs;
      ok := ApplyDeltas(scanned, ActiveState(maxId, maxTimeMs, lastTimeMs, identity), commits);
    }
  }

  lemma MergeNoDays(t: Tables, delta: Tables)
    requires FullHists(t) && FullHists(delta)
    ensures MergeDays(t, delta, {}) == t
  {
    assert MergeDays(t, delta, {}).sums == t.sums;
    assert MergeDays(t, delta, {}).hists == t.hists;
  }

  lemma DescribedHistsAreFull(cal: Calendar, t: Tables, rows: seq<Row>)
    requires Describes(t, cal, rows)
    ensures FullHists(t)
  {
  }

  /** The complete effect of one `ensure_active` on the tables and the watermark. */
  ghost predicate Ensured(cal: Calendar, table: seq<Row>, atScan: seq<Row>, identity: int, commits: bool,
                          t0: Tables, s0: Option<ActiveState>, t1: Tables, s1: Option<ActiveState>,
                          ok: bool, delta: Tables)
    requires FullHists(t0) && FullHists(delta)
  {
    var clear := MustClear(t0, s0, table, identity);
    var start := if clear then EMPTY else t0;
    var from := if clear || s0.None? then 0 else s0.value.lastId;
    var maxBefore := if clear || s0.None? then 0 else s0.value.maxTimeMs;
    if MaxId(table) == from then ok && t1 == start && s1 == s0
    else
      Describes(delta, cal, After(atScan, from)) && ok == commits &&
      if !commits then t1 == start && s1 == s0
      else
        var m := MaxTime(After(atScan, from));
        t1 == Merge(start, delta) &&
        s1 == Some(ActiveState(MaxId(table), if m > maxBefore then m else maxBefore,
                               LastTime(After(atScan, from)), identity))
  }
}
