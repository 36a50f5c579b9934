/**
 Where the watermark can mislead: an insert between the two reads of an update, and a
 rotation into a store that is still empty. Each is stated with the exact condition.
 */
module AggregateHazards {
  import opened Wrappers
  import opened Aggregate
  import opened AggregateScan
  import opened AggregateStore
  import opened AggregateLaws
  import opened AggregateRuns

  // ---------------------------------------------------------------- rows inserted during an update

  /** The update that is raced still counts every row it sees, under the older watermark. */
  lemma RacedUpdateCountsAll(cal: Calendar, table: seq<Row>, inserted: seq<Row>, identity: int,
                             t0: Tables, s0: ActiveState, k: nat, t1: Tables, s1: Option<ActiveState>, ok: bool,
                             delta: Tables)
    requires Ascending(table + inserted) && FullHists(t0) && FullHists(delta) && Fits(cal, table + inserted)
    requires SyncedAt(k, cal, table, identity, t0, s0) && k < |table|
    requires Ensured(cal, table, table + inserted, identity, true, t0, Some(s0), t1, s1, ok, delta)
    ensures Describes(t1, cal, table + inserted)
    ensures s1.Some? && s1.value.lastId == MaxId(table) && s1.value.lastTimeMs == LastTime(table + inserted) &&
      s1.value.identity == identity
  {
    hide Describes, Merge, Fits, MaxTime, Ascending, After, LastTime, MustClear, MaxId;
    var all := table + inserted;
    assert all[..k] == table[..k] && all[..k] + all[k..] == all;
    RacedStart(table, inserted, identity, t0, s0, k);
    MergeIsAppend(t0, delta, cal, all[..k], all[k..]);
  }

  lemma RacedStart(table: seq<Row>, inserted: seq<Row>, identity: int, t0: Tables, s0: ActiveState, k: nat)
    requires Ascending(table + inserted) && 1 <= k < |table|
    requires s0 == ActiveState(table[k - 1].id, MaxTime(table[..k]), OrElse(table[k - 1].timeMs, 0), identity)
    ensures !MustClear(t0, Some(s0), table, identity) && MaxId(table) != s0.lastId
    ensures After(table + inserted, s0.lastId) == (table + inserted)[k..]
    ensures LastTime((table + inserted)[k..]) == LastTime(table + inserted)
  {
    hide MaxTime;
    var all := table + inserted;
    PrefixAscends(table, inserted);
    TimeOfRow(table, k - 1);
    AfterPosition(all, k - 1);
  }

  lemma PrefixAscends(a: seq<Row>, b: seq<Row>)
    requires Ascending(a + b)
    ensures Ascending(a)
  {
    forall i, j | 0 <= i < j < |a| ensures a[i].id < a[j].id {
      assert (a + b)[i].id < (a + b)[j].id;
    }
  }

  /** The next update notices that the cursor row's time is not the recorded one. */
  predicate RaceIsNoticed(table: seq<Row>, inserted: seq<Row>) {
    LastTime(table + inserted) != 0 && LastTime(table) != LastTime(table + inserted)
  }

  /**
   After a raced update the next one is right exactly when it notices, and rebuilds, or the
   rows that slipped in belong to no day; otherwise it counts them twice.
   */
  lemma RacedRowsAreCountedTwice(cal: Calendar, table: seq<Row>, inserted: seq<Row>, identity: int,
                                 t1: Tables, s1: ActiveState, t2: Tables, s2: Option<ActiveState>, ok: bool,
                                 delta: Tables)
    requires table != [] && inserted != []
    requires Ascending(table + inserted) && forall r :: r in table + inserted ==> r.id >= 1
    requires FullHists(t1) && FullHists(delta) && Fits(cal, table + inserted)
    requires Describes(t1, cal, table + inserted)
    requires s1.lastId == MaxId(table) && s1.lastTimeMs == LastTime(table + inserted) && s1.identity == identity
    requires Ensured(cal, table + inserted, table + inserted, identity, true, t1, Some(s1), t2, s2, ok, delta)
    ensures Describes(t2, cal, table + inserted) <==>
      RaceIsNoticed(table, inserted) || forall r :: r in inserted ==> RowDay(cal, r).None?
  {
    hide Describes, Merge, Fits, Ascending, Ensured, SumOf;
    RacedEffect(cal, table, inserted, identity, t1, s1, t2, s2, ok, delta);
    if !RaceIsNoticed(table, inserted) {
      if r :| r in inserted && RowDay(cal, r).Some? {
        CountedTwice(t1, delta, cal, table + inserted, inserted, r);
      } else {
        NoDayMergesNothing(t1, delta, cal, inserted);
      }
    }
  }

  lemma RacedEffect(cal: Calendar, table: seq<Row>, inserted: seq<Row>, identity: int,
                    t1: Tables, s1: ActiveState, t2: Tables, s2: Option<ActiveState>, ok: bool, delta: Tables)
    requires table != [] && inserted != []
    requires Ascending(table + inserted) && forall r :: r in table + inserted ==> r.id >= 1
    requires FullHists(t1) && FullHists(delta) && Fits(cal, table + inserted)
    requires s1.lastId == MaxId(table) && s1.lastTimeMs == LastTime(table + inserted) && s1.identity == identity
    requires Ensured(cal, table + inserted, table + inserted, identity, true, t1, Some(s1), t2, s2, ok, delta)
    ensures RaceIsNoticed(table, inserted) ==> Describes(t2, cal, table + inserted)
    ensures !RaceIsNoticed(table, inserted) ==> Describes(delta, cal, inserted) && t2 == Merge(t1, delta)
  {
    hide Describes, Merge, Fits, MaxTime, Ascending, After, LastTime;
    var all := table + inserted;
    RacedClear(table, inserted, identity, t1, s1);
    if RaceIsNoticed(table, inserted) {
      AllAfterZero(all);
      EmptyDescribesNothing(cal);
      assert [] + all == all && all[|all| - 1] in all;
      MergeIsAppend(EMPTY, delta, cal, [], all);
    }
  }

  lemma RacedClear(table: seq<Row>, inserted: seq<Row>, identity: int, t1: Tables, s1: ActiveState)
    requires table != [] && inserted != []
    requires Ascending(table + inserted) && forall r :: r in table + inserted ==> r.id >= 1
    requires s1.lastId == MaxId(table) && s1.lastTimeMs == LastTime(table + inserted) && s1.identity == identity
    ensures MustClear(t1, Some(s1), table + inserted, identity) <==> RaceIsNoticed(table, inserted)
    ensures After(table + inserted, s1.lastId) == inserted && MaxId(table + inserted) > s1.lastId
  {
    hide After, TimeOfId;
    var all, n := table + inserted, |table|;
    TimeOfRow(all, n - 1);
    AfterPosition(all, n - 1);
    assert all[n - 1] in all && all[n - 1] == table[n - 1];
    assert all[n..] == inserted && all[n - 1].id < all[|all| - 1].id;
    assert s1.lastId == all[n - 1].id && s1.lastTimeMs == LastTime(all) && MaxId(all) == all[|all| - 1].id;
  }

  lemma CountedTwice(t: Tables, delta: Tables, cal: Calendar, all: seq<Row>, inserted: seq<Row>, r: Row)
    requires Describes(t, cal, all) && Describes(delta, cal, inserted) && FullHists(t) && FullHists(delta)
    requires r in inserted && RowDay(cal, r).Some?
    ensures !Describes(Merge(t, delta), cal, all)
  {
    hide SumOf, HasMeasure, IsDistinct, BucketCount, MergedHist, IsZeroHist;
    var c := DayCell(RowDay(cal, r).value);
    var p := CellFilter(cal, c);
    assert InCell(cal, r, c) && c in delta.sums && c.day in DaysOf(delta);
    SumOfFacts(all, p);
    SumOfFacts(inserted, p);
    assert MergedAcc(t, delta, c).rowsAll > SumOf(all, p).rowsAll;
    assert c in Merge(t, delta).sums;
  }

  lemma NoDayMergesNothing(t: Tables, delta: Tables, cal: Calendar, rows: seq<Row>)
    requires Describes(delta, cal, rows) && FullHists(t) && FullHists(delta)
    requires forall r :: r in rows ==> RowDay(cal, r).None?
    ensures Merge(t, delta) == t
  {
    hide SumOf, BucketCount;
    assert delta.sums == map[] && delta.hists == map[] && delta.distinct == {};
    assert DaysOf(delta) == {};
    MergeNoDays(t, delta);
  }

  // ---------------------------------------------------------------- reading through the watermark

  /** `active_caught_up`: may the totals answer for everything up to `neededMs`? */
  predicate ActiveCaughtUp(state: Option<ActiveState>, table: seq<Row>, neededMs: int) {
    state.Some? &&
    (state.value.maxTimeMs >= neededMs ||
     !exists r :: r in table && r.id > state.value.lastId && r.timeMs.Some? && r.timeMs.value <= neededMs)
  }

  /** For a synchronised store the answer is sound exactly when no row past the watermark is that old. */
  lemma CaughtUpIsSound(cal: Calendar, table: seq<Row>, identity: int, t: Tables, s: ActiveState, k: nat, neededMs: int)
    requires Ascending(table) && SyncedAt(k, cal, table, identity, t, s)
    ensures ActiveCaughtUp(Some(s), table, neededMs) && s.maxTimeMs < neededMs ==>
      forall i :: k <= i < |table| && table[i].timeMs.Some? ==> table[i].timeMs.value > neededMs
    ensures (forall i :: k <= i < |table| && table[i].timeMs.Some? ==> table[i].timeMs.value > neededMs) ==>
      ActiveCaughtUp(Some(s), table, neededMs)
  {
    forall i | k <= i < |table| ensures table[i] in table && table[i].id > s.lastId {
      assert table[k - 1].id < table[i].id;
    }
    forall i | 0 <= i < k ensures table[i].id <= s.lastId {
      assert i < k - 1 ==> table[i].id < table[k - 1].id;
    }
  }

  // ---------------------------------------------------------------- replaced stores

  lemma FirstRowIsCounted(cal: Calendar, row: Row, identity: int, counts: Tables)
    requires row.id == 1 && Describes(counts, cal, [row])
    ensures FullHists(counts) && Describes(Merge(EMPTY, counts), cal, [row])
    ensures Ensured(cal, [row], [row], identity, true, EMPTY, None, Merge(EMPTY, counts),
                    Some(ActiveState(1, MaxTime([row]), OrElse(row.timeMs, 0), identity)), true, counts)
  {
    hide Describes, Merge, MaxTime, BucketCount, Fits;
    DescribedHistsAreFull(cal, counts, [row]);
    OneRowFits(cal, row);
    EmptyDescribesNothing(cal);
    assert [] + [row] == [row];
    MergeIsAppend(EMPTY, counts, cal, [], [row]);
    MaxTimeSplits([row], []);
  }

  lemma OneRowFits(cal: Calendar, row: Row)
    ensures Fits(cal, [row])
  {
    forall c: HistCell, i: nat ensures BucketCount(cal, [row], c, i) <= U32_MAX {
      assert [row][..0] == [];
    }
  }

  lemma OtherStatusOtherTotals(t: Tables, cal: Calendar, before: Row, after: Row)
    requires before.timeMs == after.timeMs && RowDay(cal, before).Some?
    requires before.status == Some(200) && after.status == Some(500)
    requires Describes(t, cal, [before])
    ensures !Describes(t, cal, [after])
  {
    hide BucketCount, IsDistinct, HasMeasure;
    var c := DayCell(RowDay(cal, before).value);
    var p := CellFilter(cal, c);
    assert InCell(cal, before, c) && InCell(cal, after, c) && before in [before];
    assert [before][..0] == [] && [after][..0] == [] && SumOf([], p) == ZERO;
    assert SumOf([before], p) == Observe(ZERO, before) && SumOf([after], p) == Observe(ZERO, after);
  }

  /** An update of a store that is empty after a replacement drops the totals but keeps the old watermark. */
  lemma EmptyStoreKeepsTheOldWatermark(cal: Calendar, w: World, commits: bool, w': World)
    requires Next(cal, w, Ensure(commits), w')
    requires w.table == [] && w.state.Some? && w.state.value.lastId >= 1
    ensures w'.tables == EMPTY && w'.state == w.state
  {
    hide Describes, Merge;
  }

  lemma FirstUpdate(cal: Calendar, row: Row, identity: int, counts: Tables)
    requires row.id == 1 && Describes(counts, cal, [row])
    ensures FullHists(counts)
    ensures Next(cal, World([row], identity, EMPTY, None), Ensure(true),
                 World([row], identity, Merge(EMPTY, counts),
                       Some(ActiveState(1, MaxTime([row]), OrElse(row.timeMs, 0), identity))))
  {
    FirstRowIsCounted(cal, row, identity, counts);
    hide Describes, Merge, MaxTime, Ensured;
  }

  /** A new first row with the old time looks like the row already counted. */
  lemma SecondUpdateIsIdle(cal: Calendar, before: Row, after: Row, identity: int, t: Tables)
    requires before.id == after.id == 1 && before.timeMs == after.timeMs && FullHists(t)
    ensures var w := World([after], identity, t,
                           Some(ActiveState(1, MaxTime([before]), OrElse(before.timeMs, 0), identity)));
      Next(cal, w, Ensure(true), w)
  {
    hide Describes, Merge, MaxTime;
    var state := Some(ActiveState(1, MaxTime([before]), OrElse(before.timeMs, 0), identity));
    assert Ensured(cal, [after], [after], identity, true, t, state, t, state, true, EMPTY);
  }

  lemma ResetsAndAppends(cal: Calendar, w: World, row: Row)
    requires row.id == 1
    ensures Next(cal, w, Replace(w.identity), w.(table := []))
    ensures Next(cal, w.(table := []), Append(row), w.(table := [row]))
  {
    assert [] + [row] == [row];
  }

  lemma FiveSteps(cal: Calendar, w0: World, w1: World, w2: World, w3: World, w4: World, w5: World,
                  a0: Action, a1: Action, a2: Action, a3: Action, a4: Action)
    requires w0.table == [] && w0.tables == EMPTY && w0.state.None?
    requires Next(cal, w0, a0, w1) && Next(cal, w1, a1, w2) && Next(cal, w2, a2, w3)
    requires Next(cal, w3, a3, w4) && Next(cal, w4, a4, w5)
    ensures IsRun(cal, [w0, w1, w2, w3, w4, w5], [a0, a1, a2, a3, a4])
  {
    hide Next;
  }

  function ResetActions(before: Row, after: Row, identity: int): (actions: seq<Action>)
    ensures |actions| == 5
  {
    [Append(before), Ensure(true), Replace(identity), Append(after), Ensure(true)]
  }

  /** The file keeps its identity; from the first update on the totals and the watermark stay. */
  function ResetWorlds(before: Row, after: Row, identity: int, tables: Tables): (worlds: seq<World>)
    ensures |worlds| == 6 && worlds[2].table == [before] && worlds[3].table == []
    ensures worlds[5] == World([after], identity, tables, worlds[2].state)
  {
    var counted := World([before], identity, tables,
                         Some(ActiveState(1, MaxTime([before]), OrElse(before.timeMs, 0), identity)));
    [World([], identity, EMPTY, None), World([before], identity, EMPTY, None), counted,
     counted.(table := []), counted.(table := [after]), counted.(table := [after])]
  }

  /**
   A run in which a reset is never noticed: the store is emptied in place, and its first new
   row carries the time of the old one. The totals still say that the request succeeded.
   */
  lemma ResetCanGoUnnoticed(cal: Calendar, before: Row, after: Row, identity: int, counts: Tables)
    requires before.id == after.id == 1 && before.timeMs == after.timeMs && RowDay(cal, before).Some?
    requires before.status == Some(200) && after.status == Some(500)
    requires Describes(counts, cal, [before]) && FullHists(counts)
    ensures var worlds := ResetWorlds(before, after, identity, Merge(EMPTY, counts));
      IsRun(cal, worlds, ResetActions(before, after, identity)) &&
      Describes(worlds[5].tables, cal, [before]) && !Describes(worlds[5].tables, cal, [after])
  {
    hide Merge, Describes, RowDay;
    FirstUpdate(cal, before, identity, counts);
    FirstRowIsCounted(cal, before, identity, counts);
    var tables := Merge(EMPTY, counts);
    OtherStatusOtherTotals(tables, cal, before, after);
    hide FullHists, Next, IsRun, MaxTime, Ensured;
    var w1 := World([before], identity, EMPTY, None);
    var state := Some(ActiveState(1, MaxTime([before]), OrElse(before.timeMs, 0), identity));
    var w2, w4 := World([before], identity, tables, state), World([after], identity, tables, state);
    ResetsAndAppends(cal, w1, before);
    ResetsAndAppends(cal, w2, after);
    SecondUpdateIsIdle(cal, before, after, identity, tables);
    FiveSteps(cal, w1.(table := []), w1, w2, w2.(table := []), w4, w4,
              Append(before), Ensure(true), Replace(identity), Append(after), Ensure(true));
  }

  /**
   Until the ids of the new store pass that watermark, or an update runs, every range counts
   as caught up although no row is in the totals.
   */
  lemma StaleWatermarkHidesRows(cal: Calendar, table: seq<Row>, s: ActiveState, neededMs: int)
    requires forall r :: r in table ==> r.id <= s.lastId
    ensures ActiveCaughtUp(Some(s), table, neededMs)
    ensures Describes(EMPTY, cal, table) <==> forall r :: r in table ==> RowDay(cal, r).None?
  {
    if r :| r in table && RowDay(cal, r).Some? {
      var c := DayCell(RowDay(cal, r).value);
      assert InCell(cal, r, c) && c !in EMPTY.sums;
    } else {
      assert forall r, c :: r in table ==> !InCell(cal, r, c);
      assert forall r, c :: r in table ==> !HasMeasure(cal, r, c);
      assert forall r, c :: r in table ==> !IsDistinct(cal, r, c);
    }
  }
}
