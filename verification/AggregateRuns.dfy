/**
 Runs of one store and its totals: rows are appended, the store is replaced by an empty one
 (a rotation, or the writer's reset, which keeps the file), and the totals are brought up to
 date. Every run is followed by the list of rows that its tables were made of.
 */
module AggregateRuns {
  import opened Wrappers
  import opened Aggregate
  import opened AggregateScan
  import opened AggregateStore
  import opened AggregateLaws

  datatype World = World(table: seq<Row>, identity: int, tables: Tables, state: Option<ActiveState>)

  datatype Action =
    | Append(row: Row)
    | Replace(identity: int)
    | Ensure(commits: bool)

  /**
   One step of the world. The empty store may have any identity, the present and the recorded
   one included; an update runs with no insert between its two reads.
   */
  ghost predicate Next(cal: Calendar, w: World, a: Action, w': World) {
    match a
    case Append(row) =>
      row.id >= 1 && row.id > MaxId(w.table) && w' == w.(table := w.table + [row])
    case Replace(identity) =>
      w' == w.(table := [], identity := identity)
    case Ensure(commits) =>
      w'.table == w.table && w'.identity == w.identity && FullHists(w.tables) &&
      exists ok, delta :: FullHists(delta) &&
        Ensured(cal, w.table, w.table, w.identity, commits, w.tables, w.state, w'.tables, w'.state, ok, delta)
  }

  /** A run from an empty store without totals: the worlds it visits and the actions between them. */
  ghost predicate IsRun(cal: Calendar, worlds: seq<World>, actions: seq<Action>) {
    |worlds| == |actions| + 1 &&
    worlds[0].table == [] && worlds[0].tables == EMPTY && worlds[0].state.None? &&
    forall i :: 0 <= i < |actions| ==> Next(cal, worlds[i], actions[i], worlds[i + 1])
  }

  // ---------------------------------------------------------------- what the tables were made of

  function CountedNext(w: World, a: Action, counted: seq<Row>): seq<Row> {
    if !a.Ensure? then counted
    else
      var clear := MustClear(w.tables, w.state, w.table, w.identity);
      var from := if clear || w.state.None? then 0 else w.state.value.lastId;
      (if clear then [] else counted) + (if a.commits then After(w.table, from) else [])
  }

  /** The rows behind the tables after `n` steps, rows of replaced stores included. */
  function Counted(worlds: seq<World>, actions: seq<Action>, n: nat): seq<Row>
    requires n <= |actions| < |worlds|
  {
    if n == 0 then [] else CountedNext(worlds[n - 1], actions[n - 1], Counted(worlds, actions, n - 1))
  }

  predicate StaleNext(w: World, a: Action, stale: bool) {
    a.Replace? || (stale && !(a == Ensure(true) && w.table != [] && StartsOver(w.state, w.table, w.identity)))
  }

  /** Since the last replacement no committed update of a non-empty store has started over. */
  predicate Stale(worlds: seq<World>, actions: seq<Action>, n: nat)
    requires n <= |actions| < |worlds|
  {
    n > 0 && StaleNext(worlds[n - 1], actions[n - 1], Stale(worlds, actions, n - 1))
  }

  /** No histogram bucket overflows anywhere in the run. */
  ghost predicate RunFits(cal: Calendar, worlds: seq<World>, actions: seq<Action>)
    requires |worlds| == |actions| + 1
  {
    forall i :: 0 <= i < |worlds| ==> Fits(cal, worlds[i].table) && Fits(cal, Counted(worlds, actions, i))
  }

  // ---------------------------------------------------------------- the invariant

  /**
   The tables are exactly those of the counted rows; unless a replacement is still unnoticed,
   these are the rows of the present file up to the watermark.
   */
  ghost predicate Inv(cal: Calendar, w: World, counted: seq<Row>, stale: bool) {
    Ascending(w.table) && (forall i :: 0 <= i < |w.table| ==> w.table[i].id >= 1) &&
    FullHists(w.tables) && Describes(w.tables, cal, counted) &&
    (w.state.None? ==> counted == [] && w.tables == EMPTY) &&
    (w.state.Some? ==> w.state.value.lastId >= 1) &&
    (w.state.Some? && !stale ==> IsPresent(cal, w, counted))
  }

  ghost predicate IsPresent(cal: Calendar, w: World, counted: seq<Row>)
    requires w.state.Some?
  {
    |counted| <= |w.table| && counted == w.table[..|counted|] &&
    SyncedAt(|counted|, cal, w.table, w.identity, w.tables, w.state.value)
  }

  lemma StepKeepsInv(cal: Calendar, w: World, a: Action, w': World, counted: seq<Row>, stale: bool)
    requires Inv(cal, w, counted, stale) && Next(cal, w, a, w')
    requires Fits(cal, w.table) && Fits(cal, CountedNext(w, a, counted))
    ensures Inv(cal, w', CountedNext(w, a, counted), StaleNext(w, a, stale))
  {
    hide Describes, Merge, Fits, LooksRotated, MaxTime;
    match a
    case Append(row) =>
      assert |counted| <= |w.table| ==> w'.table[..|counted|] == w.table[..|counted|];
    case Replace(identity) =>
    case Ensure(commits) =>
      hide FullHists, Ascending, Ensured;
      var ok, delta :| FullHists(delta) &&
        Ensured(cal, w.table, w.table, w.identity, commits, w.tables, w.state, w'.tables, w'.state, ok, delta);
      if w.table == [] || !commits {
        IdleUpdate(cal, w, commits, w', counted, stale, ok, delta);
      } else if StartsOver(w.state, w.table, w.identity) {
        UpdateFromScratch(cal, w, w', counted, stale, ok, delta);
      } else {
        UpdateOnTop(cal, w, w', counted, stale, ok, delta);
      }
  }

  lemma CountedOfUpdate(w: World, commits: bool, counted: seq<Row>)
    requires Ascending(w.table) && forall i :: 0 <= i < |w.table| ==> w.table[i].id >= 1
    requires w.state.None? ==> counted == [] && w.tables == EMPTY
    ensures StartsOver(w.state, w.table, w.identity) ==>
      CountedNext(w, Ensure(commits), counted) == if commits then w.table else []
    ensures !StartsOver(w.state, w.table, w.identity) ==>
      CountedNext(w, Ensure(commits), counted) == counted + if commits then After(w.table, w.state.value.lastId) else []
  {
    hide LooksRotated;
    AllAfterZero(w.table);
  }

  /** Nothing is added: the totals stay, or are dropped together with the rows they count. */
  lemma IdleUpdate(cal: Calendar, w: World, commits: bool, w': World, counted: seq<Row>, stale: bool, ok: bool,
                   delta: Tables)
    requires Inv(cal, w, counted, stale) && (w.table == [] || !commits)
    requires w'.table == w.table && w'.identity == w.identity && FullHists(w.tables) && FullHists(delta)
    requires Ensured(cal, w.table, w.table, w.identity, commits, w.tables, w.state, w'.tables, w'.state, ok, delta)
    ensures Inv(cal, w', CountedNext(w, Ensure(commits), counted), StaleNext(w, Ensure(commits), stale))
  {
    EmptyDescribesNothing(cal);
    hide Describes, Merge, MaxTime, TimeOfId, CountedNext, After;
    CountedOfUpdate(w, commits, counted);
    assert counted + [] == counted;
    if w.state.Some? && !stale {
      SyncedNeedsNoClear(|counted|, cal, w.table, w.identity, w.tables, w.state.value);
    }
  }

  lemma UpdateFromScratch(cal: Calendar, w: World, w': World, counted: seq<Row>, stale: bool, ok: bool, delta: Tables)
    requires Inv(cal, w, counted, stale) && w.table != [] && StartsOver(w.state, w.table, w.identity) &&
      Fits(cal, w.table)
    requires w'.table == w.table && w'.identity == w.identity && FullHists(w.tables) && FullHists(delta)
    requires Ensured(cal, w.table, w.table, w.identity, true, w.tables, w.state, w'.tables, w'.state, ok, delta)
    ensures CountedNext(w, Ensure(true), counted) == w.table
    ensures Inv(cal, w', CountedNext(w, Ensure(true), counted), StaleNext(w, Ensure(true), stale))
    ensures Describes(w'.tables, cal, w.table)
  {
    hide Describes, Merge, LooksRotated, MaxTime, Ensured, CountedNext, FullHists, Ascending, Fits, StartsOver;
    NoticedResetIsRebuilt(cal, w.table, w.identity, w.tables, w.state, w'.tables, w'.state, ok, delta);
    CountedOfUpdate(w, true, counted);
    DescribedHistsAreFull(cal, w'.tables, w.table);
    assert w.table == w.table[..|w.table|];
  }

  lemma UpdateOnTop(cal: Calendar, w: World, w': World, counted: seq<Row>, stale: bool, ok: bool, delta: Tables)
    requires Inv(cal, w, counted, stale) && w.table != [] && !StartsOver(w.state, w.table, w.identity)
    requires Fits(cal, w.table) && Fits(cal, CountedNext(w, Ensure(true), counted))
    requires w'.table == w.table && w'.identity == w.identity && FullHists(w.tables) && FullHists(delta)
    requires Ensured(cal, w.table, w.table, w.identity, true, w.tables, w.state, w'.tables, w'.state, ok, delta)
    ensures CountedNext(w, Ensure(true), counted) == counted + After(w.table, w.state.value.lastId)
    ensures Inv(cal, w', CountedNext(w, Ensure(true), counted), StaleNext(w, Ensure(true), stale))
  {
    hide Describes, Merge, LooksRotated, MaxTime, Ensured, CountedNext, FullHists, Ascending, Fits, After;
    CountedOfUpdate(w, true, counted);
    WatermarkAfterUpdate(cal, w, w', ok, delta);
    KeptTotalsAreRightIff(cal, w.table, w.identity, counted, w.tables, w.state.value, w'.tables, w'.state, ok, delta);
    DescribedHistsAreFull(cal, w'.tables, counted + After(w.table, w.state.value.lastId));
    if !stale {
      PresentRowsStay(cal, w, w', counted, ok, delta);
    }
  }

  lemma PresentRowsStay(cal: Calendar, w: World, w': World, counted: seq<Row>, ok: bool, delta: Tables)
    requires w.state.Some? && IsPresent(cal, w, counted) && Ascending(w.table) && Fits(cal, w.table)
    requires w'.table == w.table && w'.identity == w.identity && FullHists(w.tables) && FullHists(delta)
    requires Ensured(cal, w.table, w.table, w.identity, true, w.tables, w.state, w'.tables, w'.state, ok, delta)
    ensures w'.state.Some? && IsPresent(cal, w', counted + After(w.table, w.state.value.lastId))
  {
    hide Describes, Merge, MaxTime, Ensured, FullHists, Ascending, Fits, After;
    var k := |counted|;
    IncrementalUpdate(k, cal, w.table, w.identity, w.tables, w.state.value, w'.tables, w'.state, ok, delta);
    AfterPosition(w.table, k - 1);
    assert w.table[..k] + w.table[k..] == w.table == w.table[..|w.table|];
  }

  lemma WatermarkAfterUpdate(cal: Calendar, w: World, w': World, ok: bool, delta: Tables)
    requires w.table != [] && w.table[|w.table| - 1].id >= 1 && !StartsOver(w.state, w.table, w.identity)
    requires w.state.value.lastId >= 1 && FullHists(w.tables) && FullHists(delta)
    requires Ensured(cal, w.table, w.table, w.identity, true, w.tables, w.state, w'.tables, w'.state, ok, delta)
    ensures w'.state.Some? && w'.state.value.lastId >= 1
  {
    hide Describes, Merge, LooksRotated, MaxTime, After;
  }

  /** In every run the tables hold exactly the totals of the rows that were counted. */
  lemma RunsKeepInv(cal: Calendar, worlds: seq<World>, actions: seq<Action>, n: nat)
    requires IsRun(cal, worlds, actions) && RunFits(cal, worlds, actions) && n <= |actions|
    ensures Inv(cal, worlds[n], Counted(worlds, actions, n), Stale(worlds, actions, n))
    ensures Describes(worlds[n].tables, cal, Counted(worlds, actions, n))
  {
    hide Describes, Fits, Next, CountedNext, StaleNext;
    EmptyDescribesNothing(cal);
    for i := 0 to n
      invariant Inv(cal, worlds[i], Counted(worlds, actions, i), Stale(worlds, actions, i))
    {
      assert Counted(worlds, actions, i + 1) == CountedNext(worlds[i], actions[i], Counted(worlds, actions, i));
      StepKeepsInv(cal, worlds[i], actions[i], worlds[i + 1], Counted(worlds, actions, i), Stale(worlds, actions, i));
    }
  }

  // ---------------------------------------------------------------- when a run agrees with the rebuild

  /**
   Main result: after any run of appends, replacements and updates, a committed update of a
   non-empty store leaves the tables of the full rebuild exactly when it starts over, or the
   rows counted so far pass for the rows up to its watermark.
   */
  lemma RunsAgreeWithTheRebuildIff(cal: Calendar, worlds: seq<World>, actions: seq<Action>, n: nat, rebuilt: Tables)
    requires IsRun(cal, worlds, actions) && RunFits(cal, worlds, actions)
    requires n < |actions| && actions[n] == Ensure(true) && worlds[n].table != []
    requires Describes(rebuilt, cal, worlds[n].table)
    ensures var w := worlds[n];
      worlds[n + 1].tables == rebuilt <==>
      StartsOver(w.state, w.table, w.identity) ||
      PassesFor(cal, Counted(worlds, actions, n), UpTo(w.table, w.state.value.lastId),
                After(w.table, w.state.value.lastId))
  {
    hide Describes, Fits, PassesFor, After, UpTo, MustClear, LooksRotated;
    var w, w' := worlds[n], worlds[n + 1];
    RunsKeepInv(cal, worlds, actions, n);
    assert Next(cal, w, actions[n], w');
    assert Describes(w'.tables, cal, w.table) <==> w'.tables == rebuilt by {
      if Describes(w'.tables, cal, w.table) {
        TablesAreDetermined(w'.tables, rebuilt, cal, w.table);
      }
    }
    hide Ensured, FullHists;
    var ok, delta :| FullHists(delta) &&
      Ensured(cal, w.table, w.table, w.identity, true, w.tables, w.state, w'.tables, w'.state, ok, delta);
    var counted := Counted(worlds, actions, n);
    if StartsOver(w.state, w.table, w.identity) {
      UpdateFromScratch(cal, w, w', counted, Stale(worlds, actions, n), ok, delta);
    } else {
      CountedOfUpdate(w, true, counted);
      assert Fits(cal, Counted(worlds, actions, n + 1));
      KeptTotalsAreRightIff(cal, w.table, w.identity, counted, w.tables, w.state.value, w'.tables, w'.state, ok, delta);
    }
  }

  /** Where every replacement has been noticed, the run agrees with the rebuild. */
  lemma RunsAgreeWithTheRebuild(cal: Calendar, worlds: seq<World>, actions: seq<Action>, n: nat, rebuilt: Tables)
    requires IsRun(cal, worlds, actions) && RunFits(cal, worlds, actions)
    requires n < |actions| && actions[n] == Ensure(true) && worlds[n].table != []
    requires !Stale(worlds, actions, n + 1)
    requires Describes(rebuilt, cal, worlds[n].table)
    ensures worlds[n + 1].tables == rebuilt
  {
    hide Describes, Fits, PassesFor, After, UpTo, Next, LooksRotated;
    var w := worlds[n];
    RunsAgreeWithTheRebuildIff(cal, worlds, actions, n, rebuilt);
    if !StartsOver(w.state, w.table, w.identity) {
      RunsKeepInv(cal, worlds, actions, n);
      var counted := Counted(worlds, actions, n);
      PresentRowsPass(cal, w.table, counted, w.state.value.lastId, |counted|);
    }
  }

  lemma EqualRowsPass(cal: Calendar, rows: seq<Row>, later: seq<Row>)
    ensures PassesFor(cal, rows, rows, later)
  {
    hide SumOf, BucketCount, Listed;
  }

  lemma PresentRowsPass(cal: Calendar, table: seq<Row>, counted: seq<Row>, id: int, k: nat)
    requires Ascending(table) && 1 <= k <= |table| && counted == table[..k] && id == table[k - 1].id
    ensures PassesFor(cal, counted, UpTo(table, id), After(table, id))
  {
    hide SumOf, BucketCount, Listed, UpTo, After, PassesFor;
    AfterPosition(table, k - 1);
    UpToAndAfter(table, id);
    assert UpTo(table, id) == counted by {
      assert |UpTo(table, id)| == k;
      assert UpTo(table, id) == (UpTo(table, id) + table[k..])[..k];
    }
    EqualRowsPass(cal, counted, After(table, id));
  }

  /** Every replacement brings an identity other than the recorded one. */
  predicate IdentitiesChange(worlds: seq<World>, actions: seq<Action>)
    requires |actions| < |worlds|
  {
    forall i :: 0 <= i < |actions| && actions[i].Replace? && worlds[i].state.Some? ==>
      actions[i].identity != worlds[i].state.value.identity
  }

  /** Then every committed update of a non-empty store notices it, whatever the rows are. */
  lemma ChangedIdentitiesAreNoticed(cal: Calendar, worlds: seq<World>, actions: seq<Action>, n: nat)
    requires IsRun(cal, worlds, actions) && IdentitiesChange(worlds, actions)
    requires n < |actions| && actions[n] == Ensure(true) && worlds[n].table != []
    ensures !Stale(worlds, actions, n + 1)
  {
    for i := 0 to n
      invariant Stale(worlds, actions, i) && worlds[i].state.Some? ==>
        worlds[i].state.value.identity != worlds[i].identity
    {
      hide Next, StaleNext;
      assert Next(cal, worlds[i], actions[i], worlds[i + 1]);
      IdentityStaysForeign(cal, worlds[i], actions[i], worlds[i + 1], Stale(worlds, actions, i));
    }
  }

  lemma IdentityStaysForeign(cal: Calendar, w: World, a: Action, w': World, stale: bool)
    requires Next(cal, w, a, w')
    requires stale && w.state.Some? ==> w.state.value.identity != w.identity
    requires a.Replace? && w.state.Some? ==> a.identity != w.state.value.identity
    ensures StaleNext(w, a, stale) && w'.state.Some? ==> w'.state.value.identity != w'.identity
  {
    hide Describes, Merge, MaxTime, After, TimeOfId;
  }
}
