/**
 The writer over whole runs: senders, the timer and the control commands interleave with the
 rounds of a drain. Nothing is lost or written twice, ids leave no gap, and a sealed store
 stays as it is.
 */
module WriterRuns {
  import opened Wrappers
  import opened AuditWriter

  datatype Command = FlushCmd | SealCmd | ShutdownCmd

  /** Where the writer is: in its select, inside a drain, or gone. */
  datatype Pc = Selecting | Draining(cmd: Command) | Stopped

  /**
   The writer, the senders waiting for room, and what only the proof keeps: how many items resets
   threw away, the items in the order the queue took them, and those committed, in order.
   */
  datatype World = World(
    s: State, pc: Pc, blocked: seq<Item>, cleared: nat, accepted: seq<Item>, consumed: seq<Item>, committed: seq<Item>)

  datatype Action =
    | Create(file: StoreId)
    | Enqueue(item: Item)
    | Admit
    | TimeOut(i: nat)
    | Recv(db: nat -> Attempt)
    | Timer(db: nat -> Attempt)
    | Begin(cmd: Command)
    | Round(db: nat -> Attempt, checkpoints: bool)
    | Resume(store: StoreId, answers: bool)
    | Reset(commits: bool)

  ghost predicate Valid(w: World) {
    w.s.store.Some? ==> w.s.store.value in w.s.files
  }

  /** The bookkeeping of a flush: what leaves the batch is consumed, and committed if it got through. */
  function AfterFlush(w: World, s': State, ok: bool, flushed: seq<Item>): World {
    w.(s := s', consumed := w.consumed + flushed, committed := if ok then w.committed + flushed else w.committed)
  }

  function Counted(s: State, dropped: nat): State {
    s.(stats := s.stats.(enqueued := s.stats.enqueued + 1, dropped := s.stats.dropped + dropped))
  }

  /** One atomic step. `select!` only looks at the data channel and the timer while a store is open. */
  ghost predicate Next(cfg: Config, w: World, a: Action, w': World)
    requires Valid(w)
  {
    match a
    case Create(file) =>
      file !in w.s.files && w' == w.(s := w.s.(files := w.s.files[file := NO_ROWS]))
    case Enqueue(item) =>
      if w.pc.Stopped? then w' == w.(s := Counted(w.s, 1))
      else if |w.s.queue| < cfg.capacity && w.blocked == [] then
        w' == w.(s := Counted(w.s, 0).(queue := w.s.queue + [item]), accepted := w.accepted + [item])
      else w' == w.(s := Counted(w.s, 0), blocked := w.blocked + [item])
    case Admit =>
      w.blocked != [] && !w.pc.Stopped? && |w.s.queue| < cfg.capacity &&
      w' == w.(s := w.s.(queue := w.s.queue + [w.blocked[0]]), blocked := w.blocked[1..],
               accepted := w.accepted + [w.blocked[0]])
    case TimeOut(i) =>
      i < |w.blocked| &&
      w' == w.(blocked := w.blocked[..i] + w.blocked[i + 1..],
               s := w.s.(stats := w.s.stats.(dropped := w.s.stats.dropped + 1)))
    case Recv(db) =>
      w.pc.Selecting? && w.s.store.Some? && w.s.queue != [] &&
      var batch := w.s.batch + [w.s.queue[0]];
      if |batch| >= cfg.batchSize then
        w' == AfterFlush(w, Received(w.s, cfg, db), Outcome(db, 0).0, batch)
      else w' == w.(s := Received(w.s, cfg, db))
    case Timer(db) =>
      w.pc.Selecting? && w.s.store.Some? &&
      w' == AfterFlush(w, Flushed(w.s, db).0, Flushed(w.s, db).1, w.s.batch)
    case Begin(cmd) =>
      w.pc.Selecting? &&
      w' == w.(pc := if w.s.store.Some? then Draining(cmd) else if cmd.ShutdownCmd? then Stopped else Selecting)
    case Round(db, checkpoints) =>
      w.pc.Draining? && w.s.store.Some? &&
      var f := Filled(w.s, cfg.batchSize);
      var (s', r) := DrainRound(w.s, cfg, db);
      var sealed := r == Done(true) && w.pc.cmd.SealCmd? && checkpoints;
      var after := AfterFlush(w, s', r.Again? || r == Done(true), f.batch);
      w' == after.(pc := if r.Again? then w.pc else if w.pc.cmd.ShutdownCmd? then Stopped else Selecting,
                   s := if sealed then s'.(store := None) else s')
    case Resume(store, answers) =>
      w.pc.Selecting? && store in w.s.files &&
      w' == if answers then w.(s := Resumed(w.s, store)) else w
    case Reset(commits) =>
      w.pc.Selecting? &&
      if w.s.store.None? then w' == w
      else w' == w.(s := ResetTo(w.s, commits), cleared := w.cleared + |w.s.queue| + |w.s.batch|,
                    consumed := w.consumed + w.s.batch + w.s.queue)
  }

  // ---------------------------------------------------------------- nothing is lost, nothing twice

  ghost predicate IsSubsequence(a: seq<Item>, b: seq<Item>) {
    a == [] ||
    (b != [] &&
     (IsSubsequence(a, b[..|b| - 1]) ||
      (a[|a| - 1] == b[|b| - 1] && IsSubsequence(a[..|a| - 1], b[..|b| - 1]))))
  }

  lemma {:induction false} SubsequenceGrows(a: seq<Item>, b: seq<Item>, c: seq<Item>)
    requires IsSubsequence(a, b)
    ensures IsSubsequence(a, b + c) && IsSubsequence(a + c, b + c)
    decreases |c|
  {
    if c == [] {
      assert a + c == a && b + c == b;
    } else {
      var n := |c| - 1;
      SubsequenceGrows(a, b, c[..n]);
      assert (b + c)[..|b + c| - 1] == b + c[..n] && (a + c)[..|a + c| - 1] == a + c[..n];
    }
  }

  /** Every item that was offered is flushed, dropped, queued, batched, still waiting, or was cleared. */
  ghost predicate Conserved(w: World) {
    var st := w.s.stats;
    st.enqueued == st.flushedRows + st.dropped + |w.s.queue| + |w.s.batch| + |w.blocked| + w.cleared
  }

  /** Items leave in the order the queue took them, and each is committed at most once. */
  ghost predicate InOrder(w: World) {
    w.accepted == w.consumed + w.s.batch + w.s.queue && IsSubsequence(w.committed, w.consumed) &&
    w.s.stats.flushedRows == |w.committed|
  }

  lemma FlushKeeps(w: World, s: State, db: nat -> Attempt)
    requires s.store.Some? && s.store.value in s.files
    requires w.accepted == w.consumed + s.batch + s.queue && IsSubsequence(w.committed, w.consumed)
    requires s.stats.flushedRows == |w.committed|
    ensures var (s', ok) := Flushed(s, db);
      InOrder(AfterFlush(w, s', ok, s.batch)) &&
      s'.stats.flushedRows + s'.stats.dropped == s.stats.flushedRows + s.stats.dropped + |s.batch| &&
      s'.batch == [] && s'.queue == s.queue && s'.stats.enqueued == s.stats.enqueued &&
      (s.batch != [] ==> ok == Outcome(db, 0).0)
  {
    SubsequenceGrows(w.committed, w.consumed, s.batch);
    assert w.consumed + s.batch + s.queue == (w.consumed + s.batch) + [] + s.queue;
  }

  lemma FilledKeeps(s: State, batchSize: nat)
    ensures var f := Filled(s, batchSize);
      f.batch + f.queue == s.batch + s.queue && f == s.(batch := f.batch, queue := f.queue)
  {
  }

  lemma StepKeepsItems(cfg: Config, w: World, a: Action, w': World)
    requires Valid(w) && Conserved(w) && InOrder(w) && Next(cfg, w, a, w')
    ensures Conserved(w') && InOrder(w')
  {
    hide Flushed, Filled, Outcome, IsSubsequence, DrainRound;
    match a
    case Create(file) =>
    case Enqueue(item) =>
      assert w.consumed + w.s.batch + (w.s.queue + [item]) == (w.consumed + w.s.batch + w.s.queue) + [item];
    case Admit =>
      assert w.consumed + w.s.batch + (w.s.queue + [w.blocked[0]]) ==
        (w.consumed + w.s.batch + w.s.queue) + [w.blocked[0]];
    case TimeOut(i) =>
    case Recv(db) =>
      RecvKeepsItems(cfg, w, db, w');
    case Timer(db) =>
      FlushKeeps(w, w.s, db);
    case Begin(cmd) =>
    case Round(db, checkpoints) =>
      RoundKeepsItems(cfg, w, db);
    case Resume(store, answers) =>
    case Reset(commits) =>
      if w.s.store.Some? {
        SubsequenceKeeps(w.committed, w.consumed, w.s.batch + w.s.queue);
        assert w.consumed + (w.s.batch + w.s.queue) == w.consumed + w.s.batch + w.s.queue;
        assert w'.consumed + [] + [] == w'.consumed;
      }
  }

  lemma RecvKeepsItems(cfg: Config, w: World, db: nat -> Attempt, w': World)
    requires Valid(w) && Conserved(w) && InOrder(w) && Next(cfg, w, Recv(db), w')
    ensures Conserved(w') && InOrder(w')
  {
    hide Flushed, Outcome, IsSubsequence;
    var t := w.s.(batch := w.s.batch + [w.s.queue[0]], queue := w.s.queue[1..]);
    assert w.accepted == w.consumed + t.batch + t.queue;
    FlushKeeps(w, t, db);
  }

  lemma SubsequenceKeeps(a: seq<Item>, b: seq<Item>, c: seq<Item>)
    requires IsSubsequence(a, b)
    ensures IsSubsequence(a, b + c)
  {
    SubsequenceGrows(a, b, c);
  }

  lemma RoundKeepsItems(cfg: Config, w: World, db: nat -> Attempt)
    requires Valid(w) && Conserved(w) && InOrder(w) && w.s.store.Some?
    ensures var f := Filled(w.s, cfg.batchSize);
      var (s', r) := DrainRound(w.s, cfg, db);
      var after := AfterFlush(w, s', r.Again? || r == Done(true), f.batch);
      Conserved(after) && InOrder(after)
  {
    hide Flushed, Filled, Outcome, IsSubsequence;
    var f := Filled(w.s, cfg.batchSize);
    FilledKeeps(w.s, cfg.batchSize);
    assert w.consumed + f.batch + f.queue == w.consumed + (f.batch + f.queue);
    assert w.consumed + w.s.batch + w.s.queue == w.consumed + (w.s.batch + w.s.queue);
    assert |f.batch| + |f.queue| == |f.batch + f.queue| == |w.s.batch| + |w.s.queue|;
    if f.batch == [] {
      assert w.consumed + f.batch == w.consumed && w.committed + f.batch == w.committed;
    } else {
      FlushKeeps(w, f, db);
    }
  }

  // ---------------------------------------------------------------- what gets through

  /** The batch a step hands to the database, if it hands one. */
  function HandedOver(cfg: Config, w: World, a: Action): seq<Item> {
    match a
    case Recv(_) => if w.s.queue != [] && |w.s.batch| + 1 >= cfg.batchSize then w.s.batch + [w.s.queue[0]] else []
    case Timer(_) => w.s.batch
    case Round(_, _) =>
      var items := w.s.batch + w.s.queue;
      if |w.s.batch| >= cfg.batchSize then w.s.batch else items[..Min(cfg.batchSize, |items|)]
    case _ => []
  }

  ghost predicate IsWritten(a: Action) {
    (a.Recv? || a.Timer? || a.Round?) && GetsThrough(a.db)
  }

  /** What a step loses: a batch that does not get through, an item that waited too long or came after the end. */
  ghost function Lost(cfg: Config, w: World, a: Action): nat {
    match a
    case TimeOut(_) => 1
    case Enqueue(_) => if w.pc.Stopped? then 1 else 0
    case _ => if IsWritten(a) then 0 else |HandedOver(cfg, w, a)|
  }

  /**
   A step that hands a batch over writes all of it or drops all of it: it is dropped exactly if an
   attempt fails behind busy ones only or four are busy. No other step writes anything.
   */
  lemma StepWritesOrDrops(cfg: Config, w: World, a: Action, w': World)
    requires Valid(w) && Next(cfg, w, a, w')
    ensures WritesOrDrops(cfg, w, a, w')
  {
    match a
    case Recv(db) => RecvWritesOrDrops(cfg, w, db, w');
    case Timer(db) => TimerWritesOrDrops(cfg, w, db, w');
    case Round(db, checkpoints) => RoundWritesOrDrops(cfg, w, db, checkpoints, w');
    case _ =>
      hide Inserted, Continues;
      assert w.committed + [] == w.committed;
  }

  ghost predicate WritesOrDrops(cfg: Config, w: World, a: Action, w': World)
    requires Valid(w)
  {
    var items := if IsWritten(a) then HandedOver(cfg, w, a) else [];
    w'.committed == w.committed + items &&
    w'.s.stats.flushedRows == w.s.stats.flushedRows + |items| &&
    w'.s.stats.dropped == w.s.stats.dropped + Lost(cfg, w, a) &&
    (items != [] ==>
      w.s.store.Some? && w'.s.nextId == w.s.nextId + |items| && w'.s.files.Keys == w.s.files.Keys &&
      Continues(w.s.files[w.s.store.value], w'.s.files[w.s.store.value], items, w.s.nextId))
  }

  lemma RecvWritesOrDrops(cfg: Config, w: World, db: nat -> Attempt, w': World)
    requires Valid(w) && Next(cfg, w, Recv(db), w')
    ensures WritesOrDrops(cfg, w, Recv(db), w')
  {
    hide Outcome, GetsThrough, Continues, Flushed;
    var t := w.s.(batch := w.s.batch + [w.s.queue[0]], queue := w.s.queue[1..]);
    assert w.committed + [] == w.committed;
    OutcomeIff(db);
    FlushWritesOrDrops(t, db);
  }

  lemma TimerWritesOrDrops(cfg: Config, w: World, db: nat -> Attempt, w': World)
    requires Valid(w) && Next(cfg, w, Timer(db), w')
    ensures WritesOrDrops(cfg, w, Timer(db), w')
  {
    hide Outcome, GetsThrough, Continues, Flushed;
    assert w.committed + [] == w.committed;
    FlushWritesOrDrops(w.s, db);
  }

  lemma RoundWritesOrDrops(cfg: Config, w: World, db: nat -> Attempt, checkpoints: bool, w': World)
    requires Valid(w) && Next(cfg, w, Round(db, checkpoints), w')
    ensures WritesOrDrops(cfg, w, Round(db, checkpoints), w')
  {
    hide Outcome, GetsThrough, Continues, Flushed, Filled;
    assert w.committed + [] == w.committed;
    FilledIs(w.s, cfg.batchSize);
    FlushWritesOrDrops(Filled(w.s, cfg.batchSize), db);
  }

  lemma FilledIs(s: State, batchSize: nat)
    ensures var f, items := Filled(s, batchSize), s.batch + s.queue;
      f == s.(batch := f.batch, queue := f.queue) &&
      f.batch == if |s.batch| >= batchSize then s.batch else items[..Min(batchSize, |items|)]
  {
  }

  lemma FlushWritesOrDrops(s: State, db: nat -> Attempt)
    requires s.store.Some? && s.store.value in s.files
    ensures var (s', ok) := Flushed(s, db);
      var items := if GetsThrough(db) then s.batch else [];
      (s.batch != [] ==> ok == GetsThrough(db)) &&
      s'.stats.flushedRows == s.stats.flushedRows + |items| &&
      s'.stats.dropped == s.stats.dropped + |s.batch| - |items| && s'.store == s.store &&
      s'.files.Keys == s.files.Keys && s'.nextId == s.nextId + |items| &&
      (s.batch == [] ==> ok && s' == s) &&
      Continues(s.files[s.store.value], s'.files[s.store.value], items, s.nextId)
  {
    hide Inserted, Outcome, GetsThrough, Continues;
    OutcomeIff(db);
    var t := s.files[s.store.value];
    NothingInsertedFrom(t, s.nextId);
    InsertedContinues(t, Inserted(t, s.batch, s.nextId), s.batch, s.nextId);
    InsertedContinues(t, t, [], s.nextId);
  }

  lemma NothingInsertedFrom(t: Table, id: int)
    ensures Inserted(t, [], id) == t
  {
  }

  /** The batches that got through in the first `n` steps, one after the other. */
  ghost function Through(cfg: Config, worlds: seq<World>, actions: seq<Action>, n: nat): seq<Item>
    requires n <= |actions| <= |worlds|
  {
    if n == 0 then []
    else
      Through(cfg, worlds, actions, n - 1) +
      if IsWritten(actions[n - 1]) then HandedOver(cfg, worlds[n - 1], actions[n - 1]) else []
  }

  ghost function AllLost(cfg: Config, worlds: seq<World>, actions: seq<Action>, n: nat): nat
    requires n <= |actions| <= |worlds|
  {
    if n == 0 then 0 else AllLost(cfg, worlds, actions, n - 1) + Lost(cfg, worlds[n - 1], actions[n - 1])
  }

  /** In every run the committed items are those of the batches that got through, and the dropped ones those lost. */
  lemma {:induction false} RunsWriteWhatGetsThrough(
      cfg: Config, worlds: seq<World>, actions: seq<Action>, base: map<StoreId, Table>, n: nat)
    requires IsRun(cfg, worlds, actions) && Fresh(worlds[0], base) && n < |worlds|
    ensures worlds[n].committed == Through(cfg, worlds, actions, n)
    ensures worlds[n].s.stats.dropped == AllLost(cfg, worlds, actions, n)
  {
    hide Next, HandedOver, IsWritten;
    if n > 0 {
      hide Fresh;
      RunsWriteWhatGetsThrough(cfg, worlds, actions, base, n - 1);
      StepWritesOrDrops(cfg, worlds[n - 1], actions[n - 1], worlds[n]);
    }
  }

  // ---------------------------------------------------------------- ids

  /** What the stores were told to do: to hold one more item, or to start over. */
  datatype Entry = Wrote(file: StoreId, item: Item) | Emptied(file: StoreId)

  /** All items that were written, to whatever store, in order. */
  function Written(journal: seq<Entry>): seq<Item> {
    if journal == [] then []
    else
      var front, last := Written(journal[..|journal| - 1]), journal[|journal| - 1];
      if last.Wrote? then front + [last.item] else front
  }

  /** The items one store was given since it last started over. */
  function Log(journal: seq<Entry>, f: StoreId): seq<Item> {
    if journal == [] then []
    else
      var front, last := Log(journal[..|journal| - 1], f), journal[|journal| - 1];
      if last.file != f then front else if last.Wrote? then front + [last.item] else []
  }

  predicate IsKnown(base: map<StoreId, Table>, journal: seq<Entry>, f: StoreId) {
    f in base || Emptied(f) in journal
  }

  /** The rows a store had before its log: those at the start, or none after it started over. */
  function Base(base: map<StoreId, Table>, journal: seq<Entry>, f: StoreId): Table
    requires IsKnown(base, journal, f)
  {
    if Emptied(f) in journal then NO_ROWS else base[f]
  }

  function Wrotes(f: StoreId, items: seq<Item>): seq<Entry> {
    seq(|items|, i requires 0 <= i < |items| => Wrote(f, items[i]))
  }

  /**
   Every store holds exactly the rows before its log and then its log, numbered without a gap from
   the next free id on, record and payload alike; and the id to come is the next free one.
   */
  ghost predicate GapFree(s: State, base: map<StoreId, Table>, journal: seq<Entry>) {
    (forall f :: f in s.files ==>
      IsKnown(base, journal, f) &&
      s.files[f] == Inserted(Base(base, journal, f), Log(journal, f), NextId(Base(base, journal, f)))) &&
    (s.store.Some? ==> s.store.value in s.files && s.nextId == NextId(s.files[s.store.value]))
  }

  /** Row by row: a store goes on behind its base with one record and one payload for each item of its log. */
  lemma StoresContinue(s: State, base: map<StoreId, Table>, journal: seq<Entry>)
    requires GapFree(s, base, journal)
    ensures forall f :: f in s.files ==>
      IsKnown(base, journal, f) &&
      Continues(Base(base, journal, f), s.files[f], Log(journal, f), NextId(Base(base, journal, f)))
  {
    hide Inserted, Continues, NextId, Log;
    forall f | f in s.files
      ensures var t := Base(base, journal, f); Continues(t, s.files[f], Log(journal, f), NextId(t))
    {
      var t := Base(base, journal, f);
      InsertedContinues(t, s.files[f], Log(journal, f), NextId(t));
    }
  }

  lemma {:induction false} WrotesGrow(journal: seq<Entry>, f: StoreId, items: seq<Item>, g: StoreId)
    ensures Log(journal + Wrotes(f, items), g) == if g == f then Log(journal, g) + items else Log(journal, g)
    ensures Written(journal + Wrotes(f, items)) == Written(journal) + items
    ensures Emptied(g) in journal + Wrotes(f, items) <==> Emptied(g) in journal
    decreases |items|
  {
    hide Log, Written;
    if items == [] {
      assert journal + Wrotes(f, items) == journal && Log(journal, g) + items == Log(journal, g);
      assert Written(journal) + items == Written(journal);
    } else {
      var n := |items| - 1;
      WrotesGrow(journal, f, items[..n], g);
      OneMoreWritten(journal + Wrotes(f, items[..n]), f, items[n], g);
      LastWrote(journal, f, items);
      hide Wrotes;
      assert Log(journal, g) + items == Log(journal, g) + items[..n] + [items[n]];
      assert Written(journal) + items == Written(journal) + items[..n] + [items[n]];
    }
  }

  lemma LastWrote(journal: seq<Entry>, f: StoreId, items: seq<Item>)
    requires items != []
    ensures var n := |items| - 1;
      journal + Wrotes(f, items) == journal + Wrotes(f, items[..n]) + [Wrote(f, items[n])]
  {
  }

  lemma OneMoreWritten(journal: seq<Entry>, f: StoreId, item: Item, g: StoreId)
    ensures var all := journal + [Wrote(f, item)];
      Log(all, g) == (if g == f then Log(journal, g) + [item] else Log(journal, g)) &&
      Written(all) == Written(journal) + [item] && (Emptied(g) in all <==> Emptied(g) in journal)
  {
    var all := journal + [Wrote(f, item)];
    assert all[..|all| - 1] == journal;
  }

  lemma EmptiedStartsOver(journal: seq<Entry>, f: StoreId, g: StoreId)
    ensures Log(journal + [Emptied(f)], g) == if g == f then [] else Log(journal, g)
    ensures Written(journal + [Emptied(f)]) == Written(journal)
    ensures Emptied(g) in journal + [Emptied(f)] <==> g == f || Emptied(g) in journal
  {
    var all := journal + [Emptied(f)];
    assert all[..|all| - 1] == journal;
  }

  lemma InsertedTwice(t: Table, a: seq<Item>, b: seq<Item>, k: int)
    ensures Inserted(Inserted(t, a, k), b, k + |a|) == Inserted(t, a + b, k)
  {
    assert RecordRows(a + b, k) == RecordRows(a, k) + RecordRows(b, k + |a|);
    assert PayloadRows(a + b, k) == PayloadRows(a, k) + PayloadRows(b, k + |a|);
    assert (t.records + RecordRows(a, k)) + RecordRows(b, k + |a|) == t.records + RecordRows(a + b, k);
    assert (t.payloads + PayloadRows(a, k)) + PayloadRows(b, k + |a|) == t.payloads + PayloadRows(a + b, k);
  }

  /** Inserting `n` items from the next id on moves the next id by `n`. */
  lemma {:induction false} NextIdAfterInsert(t: Table, items: seq<Item>)
    ensures NextId(Inserted(t, items, NextId(t))) == NextId(t) + |items|
    decreases |items|
  {
    var rows := Inserted(t, items, NextId(t)).records;
    if items == [] {
      assert rows == t.records;
    } else {
      var n := |items| - 1;
      NextIdAfterInsert(t, items[..n]);
      assert rows[..|rows| - 1] == Inserted(t, items[..n], NextId(t)).records;
    }
  }

  lemma FlushKeepsIds(s: State, db: nat -> Attempt, base: map<StoreId, Table>, journal: seq<Entry>)
    requires GapFree(s, base, journal) && s.store.Some?
    ensures GapFree(Flushed(s, db).0, base, journal + Wrotes(s.store.value, if Flushed(s, db).1 then s.batch else []))
    ensures Flushed(s, db).0.store == s.store
  {
    hide Inserted, NextId, Outcome, Log;
    var f := s.store.value;
    var items := if Flushed(s, db).1 then s.batch else [];
    var after := journal + Wrotes(f, items);
    forall g ensures Log(after, g) == if g == f then Log(journal, g) + items else Log(journal, g)
             ensures Emptied(g) in after <==> Emptied(g) in journal {
      WrotesGrow(journal, f, items, g);
    }
    if items == [] {
      assert Log(journal, f) + [] == Log(journal, f);
    } else {
      var t := Base(base, journal, f);
      InsertedTwice(t, Log(journal, f), s.batch, NextId(t));
      NextIdAfterInsert(t, Log(journal, f));
      NextIdAfterInsert(t, Log(journal, f) + s.batch);
    }
  }

  lemma NothingInserted(t: Table)
    ensures Inserted(t, [], NextId(t)) == t
    ensures NextId(NO_ROWS) == 1
  {
  }

  /** A store that starts over, or is made, has no rows and an empty log. */
  lemma StartingOverKeepsIds(s: State, base: map<StoreId, Table>, journal: seq<Entry>, f: StoreId, nextId: int)
    requires GapFree(s, base, journal) && (if s.store == Some(f) then nextId == 1 else nextId == s.nextId)
    ensures GapFree(s.(files := s.files[f := NO_ROWS], nextId := nextId), base, journal + [Emptied(f)])
  {
    hide Inserted, NextId, Log;
    NothingInserted(NO_ROWS);
    forall g ensures Log(journal + [Emptied(f)], g) == if g == f then [] else Log(journal, g)
             ensures Emptied(g) in journal + [Emptied(f)] <==> g == f || Emptied(g) in journal {
      EmptiedStartsOver(journal, f, g);
    }
  }

  /** What a step adds to the journal: the items that became committed, for the store that was open. */
  function Entries(w: World, a: Action, w': World): seq<Entry> {
    if a.Create? then [Emptied(a.file)]
    else if w.s.store.None? then []
    else if a.Reset? then if a.commits then [Emptied(w.s.store.value)] else []
    else if |w.committed| <= |w'.committed| then Wrotes(w.s.store.value, w'.committed[|w.committed|..])
    else []
  }

  lemma Appended(committed: seq<Item>, items: seq<Item>)
    ensures (committed + items)[|committed|..] == items && committed + [] == committed
  {
  }

  lemma StepKeepsCommitted(cfg: Config, w: World, a: Action, w': World, journal: seq<Entry>)
    requires Valid(w) && Next(cfg, w, a, w') && Written(journal) == w.committed
    ensures w.committed <= w'.committed && Written(journal + Entries(w, a, w')) == w'.committed
  {
    hide Flushed, Filled, Outcome, Written, DrainRound;
    var more := if w.committed <= w'.committed then w'.committed[|w.committed|..] else [];
    if a.Create? {
      EmptiedStartsOver(journal, a.file, a.file);
    } else if w.s.store.Some? {
      EmptiedStartsOver(journal, w.s.store.value, w.s.store.value);
      WrotesGrow(journal, w.s.store.value, more, w.s.store.value);
    }
    assert journal + [] == journal;
  }

  /** Ids stay gap-free across failed batches, retries, seals, resumes and resets. */
  lemma StepKeepsIds(cfg: Config, w: World, a: Action, w': World, base: map<StoreId, Table>, journal: seq<Entry>)
    requires GapFree(w.s, base, journal) && Next(cfg, w, a, w')
    ensures GapFree(w'.s, base, journal + Entries(w, a, w'))
  {
    hide Flushed, Inserted, NextId, Outcome, Log, Written, Filled;
    assert journal + [] == journal;
    match a
    case Create(file) =>
      StartingOverKeepsIds(w.s, base, journal, file, w.s.nextId);
    case Recv(db) =>
      RecvKeepsIds(cfg, w, db, w', base, journal);
    case Timer(db) =>
      FlushKeepsIds(w.s, db, base, journal);
      Appended(w.committed, w.s.batch);
    case Round(db, checkpoints) =>
      RoundKeepsIds(cfg, w, db, checkpoints, w', base, journal);
    case Reset(commits) =>
      if w.s.store.Some? && commits {
        StartingOverKeepsIds(w.s, base, journal, w.s.store.value, 1);
      }
    case _ =>
      assert w'.committed[|w.committed|..] == [];
  }

  lemma RecvKeepsIds(cfg: Config, w: World, db: nat -> Attempt, w': World, base: map<StoreId, Table>,
                     journal: seq<Entry>)
    requires GapFree(w.s, base, journal) && Next(cfg, w, Recv(db), w')
    ensures GapFree(w'.s, base, journal + Entries(w, Recv(db), w'))
  {
    hide Inserted, NextId, Outcome, Log, GapFree;
    var t := w.s.(batch := w.s.batch + [w.s.queue[0]], queue := w.s.queue[1..]);
    SameStores(w.s, t, base, journal);
    FlushKeepsIds(t, db, base, journal);
    Appended(w.committed, t.batch);
    assert journal + Wrotes(w.s.store.value, []) == journal;
    assert w.committed[|w.committed|..] == [];
  }

  lemma RoundKeepsIds(cfg: Config, w: World, db: nat -> Attempt, checkpoints: bool, w': World,
                      base: map<StoreId, Table>, journal: seq<Entry>)
    requires GapFree(w.s, base, journal) && Next(cfg, w, Round(db, checkpoints), w')
    ensures GapFree(w'.s, base, journal + Entries(w, Round(db, checkpoints), w'))
  {
    hide Inserted, NextId, Outcome, Log, Filled, Flushed, GapFree;
    var f := Filled(w.s, cfg.batchSize);
    FilledKeeps(w.s, cfg.batchSize);
    SameStores(w.s, f, base, journal);
    FlushKeepsIds(f, db, base, journal);
    Appended(w.committed, f.batch);
    var (s', r) := DrainRound(w.s, cfg, db);
    assert journal + Wrotes(w.s.store.value, []) == journal;
    assert w.committed[|w.committed|..] == [];
    LettingGo(s', base, journal + Entries(w, Round(db, checkpoints), w'));
  }

  lemma SameStores(s: State, t: State, base: map<StoreId, Table>, journal: seq<Entry>)
    requires GapFree(s, base, journal) && t.files == s.files && t.store == s.store && t.nextId == s.nextId
    ensures GapFree(t, base, journal)
  {
  }

  lemma LettingGo(s: State, base: map<StoreId, Table>, journal: seq<Entry>)
    ensures GapFree(s, base, journal) ==> GapFree(s.(store := None), base, journal)
  {
  }

  // ---------------------------------------------------------------- seal and resume

  ghost predicate SealedIsEmpty(w: World) {
    w.s.store.None? ==> w.s.batch == []
  }

  /** Success of a seal is only reported with the batch empty, and it stays empty until a resume. */
  lemma StepKeepsSealedEmpty(cfg: Config, w: World, a: Action, w': World)
    requires Valid(w) && SealedIsEmpty(w) && Next(cfg, w, a, w')
    ensures SealedIsEmpty(w')
  {
    hide Outcome, Inserted;
  }

  /** While sealed nothing is written or taken from the queue; new items wait behind the old. */
  lemma SealedTaskWaits(cfg: Config, w: World, a: Action, w': World)
    requires Valid(w) && SealedIsEmpty(w) && w.s.store.None? && Next(cfg, w, a, w') && !a.Resume?
    ensures w'.s.store.None? && w'.consumed == w.consumed && w'.committed == w.committed
    ensures w.s.queue <= w'.s.queue
    ensures forall f :: f in w.s.files ==> f in w'.s.files && w'.s.files[f] == w.s.files[f]
  {
    hide Outcome, Inserted;
  }

  /** A step opens a store only by resuming with it. */
  lemma OnlyResumeOpens(cfg: Config, w: World, a: Action, w': World)
    requires Valid(w) && Next(cfg, w, a, w')
    ensures w'.s.store.Some? ==> w'.s.store == w.s.store || (a.Resume? && w'.s.store == Some(a.store))
  {
    hide Outcome, Inserted;
  }

  lemma StepKeepsFiles(cfg: Config, w: World, a: Action, w': World)
    requires Valid(w) && Next(cfg, w, a, w')
    ensures Valid(w') && w.s.files.Keys <= w'.s.files.Keys
    ensures !a.Create? ==> w.s.files.Keys == w'.s.files.Keys
    ensures w.pc.Draining? ==> w'.pc == w.pc || w'.pc.Stopped? || w'.pc.Selecting?
    ensures w.pc.Draining? && w.pc.cmd.SealCmd? ==> !w'.pc.Stopped?
  {
    hide Outcome, Inserted;
  }

  ghost predicate IsRun(cfg: Config, worlds: seq<World>, actions: seq<Action>) {
    |worlds| == |actions| + 1 &&
    forall i :: 0 <= i < |actions| ==> Valid(worlds[i]) && Next(cfg, worlds[i], actions[i], worlds[i + 1])
  }

  /** The writer as `start` leaves it. */
  ghost predicate Fresh(w: World, base: map<StoreId, Table>) {
    w.s.files == base && w.s.store.Some? && w.s.store.value in base && w.s.nextId == NextId(base[w.s.store.value]) &&
    w.s.batch == [] && w.s.queue == [] && w.s.stats == Stats(0, 0, 0, 0, 0) && w.pc.Selecting? &&
    w.blocked == [] && w.cleared == 0 && w.accepted == [] && w.consumed == [] && w.committed == []
  }

  /** What the first `n` steps told the stores. */
  function Journal(worlds: seq<World>, actions: seq<Action>, n: nat): seq<Entry>
    requires |worlds| == |actions| + 1 && n < |worlds|
  {
    if n == 0 then [] else Journal(worlds, actions, n - 1) + Entries(worlds[n - 1], actions[n - 1], worlds[n])
  }

  /**
   Main result, in every world of every run: items are conserved, leave in queue order and are
   committed at most once. The committed items are, in this order, those the journal of the run
   gave to the stores; and each store holds its starting rows -- none, if it was made or reset in
   between -- and then exactly its part of the journal, under ids without a gap.
   */
  lemma {:induction false} RunsKeepEverything(
      cfg: Config, worlds: seq<World>, actions: seq<Action>, base: map<StoreId, Table>, n: nat)
    requires IsRun(cfg, worlds, actions) && Fresh(worlds[0], base) && n < |worlds|
    ensures Conserved(worlds[n]) && InOrder(worlds[n]) && SealedIsEmpty(worlds[n])
    ensures Written(Journal(worlds, actions, n)) == worlds[n].committed
    ensures GapFree(worlds[n].s, base, Journal(worlds, actions, n))
    ensures var journal := Journal(worlds, actions, n);
      forall f :: f in worlds[n].s.files ==>
        IsKnown(base, journal, f) &&
        Continues(Base(base, journal, f), worlds[n].s.files[f], Log(journal, f), NextId(Base(base, journal, f)))
  {
    hide Next, Conserved, InOrder, GapFree, Written, Entries, SealedIsEmpty, Continues, IsKnown, Base;
    if n == 0 {
      FreshKeepsEverything(worlds[0], base);
    } else {
      var i := n - 1;
      RunsKeepEverything(cfg, worlds, actions, base, i);
      StepKeepsItems(cfg, worlds[i], actions[i], worlds[n]);
      StepKeepsSealedEmpty(cfg, worlds[i], actions[i], worlds[n]);
      StepKeepsCommitted(cfg, worlds[i], actions[i], worlds[n], Journal(worlds, actions, i));
      StepKeepsIds(cfg, worlds[i], actions[i], worlds[n], base, Journal(worlds, actions, i));
    }
    StoresContinue(worlds[n].s, base, Journal(worlds, actions, n));
  }

  lemma FreshKeepsEverything(w: World, base: map<StoreId, Table>)
    requires Fresh(w, base)
    ensures Conserved(w) && InOrder(w) && SealedIsEmpty(w) && Written([]) == w.committed && GapFree(w.s, base, [])
  {
    hide Inserted;
    forall f | f in base ensures base[f] == Inserted(base[f], [], NextId(base[f])) {
      NothingInserted(base[f]);
    }
  }

  /** Each store's log lists committed items, in the order in which they were committed. */
  lemma {:induction false} LogsAreInOrder(journal: seq<Entry>, f: StoreId)
    ensures IsSubsequence(Log(journal, f), Written(journal))
  {
    if journal != [] {
      var front, last := journal[..|journal| - 1], journal[|journal| - 1];
      LogsAreInOrder(front, f);
      if last.Wrote? {
        SubsequenceGrows(Log(front, f), Written(front), [last.item]);
      }
    }
  }

  /** From its seal on a store keeps its rows, until the writer is resumed with that very store. */
  lemma SealedStoreStays(cfg: Config, worlds: seq<World>, actions: seq<Action>, f: StoreId, i: nat, j: nat)
    requires IsRun(cfg, worlds, actions) && i <= j < |worlds|
    requires f in worlds[i].s.files && worlds[i].s.store != Some(f)
    requires forall k :: i <= k < j ==> !(actions[k].Resume? && actions[k].store == f)
    requires forall k :: i <= k < j ==> !(actions[k].Create? && actions[k].file == f)
    ensures f in worlds[j].s.files && worlds[j].s.files[f] == worlds[i].s.files[f]
  {
    hide Next;
    for k := i to j
      invariant f in worlds[k].s.files && worlds[k].s.files[f] == worlds[i].s.files[f]
      invariant worlds[k].s.store != Some(f)
    {
      OnlyResumeOpens(cfg, worlds[k], actions[k], worlds[k + 1]);
      OnlyTheOpenStoreChanges(cfg, worlds[k], actions[k], worlds[k + 1], f);
    }
  }

  lemma OnlyTheOpenStoreChanges(cfg: Config, w: World, a: Action, w': World, f: StoreId)
    requires Valid(w) && Next(cfg, w, a, w') && f in w.s.files && w.s.store != Some(f)
    ensures f in w'.s.files && w'.s.files[f] == w.s.files[f]
  {
    hide Outcome, Inserted;
  }
}
