/**
 The audit writer task: a bounded queue, a batch, one store at a time. Every transition is a
 function of its state; the class performs them step by step.
 */
module AuditWriter {
  import opened Wrappers

  /** One audited call: the indexed record and its compressed payload. */
  datatype Item = Item(record: string, payload: string)

  datatype RecordRow = RecordRow(id: int, record: string)

  datatype PayloadRow = PayloadRow(recordId: int, payload: string)

  /** The two tables of one store. */
  datatype Table = Table(records: seq<RecordRow>, payloads: seq<PayloadRow>)

  const NO_ROWS := Table([], [])

  /** A database file, whatever its name is at the moment. */
  type StoreId = nat

  datatype Stats = Stats(enqueued: nat, flushedRows: nat, batches: nat, dropped: nat, failedBatches: nat)

  datatype State = State(
    store: Option<StoreId>, nextId: int, batch: seq<Item>, queue: seq<Item>, files: map<StoreId, Table>, stats: Stats)

  datatype Config = Config(batchSize: nat, capacity: nat)

  /** What one attempt to execute a batch in a transaction ends with. */
  datatype Attempt = Commits | Busy | Fails

  const MAX_RETRIES: nat := 3

  // ---------------------------------------------------------------- building and executing a batch

  function RecordRows(batch: seq<Item>, startId: int): seq<RecordRow> {
    seq(|batch|, i requires 0 <= i < |batch| => RecordRow(startId + i, batch[i].record))
  }

  function PayloadRows(batch: seq<Item>, startId: int): seq<PayloadRow> {
    seq(|batch|, i requires 0 <= i < |batch| => PayloadRow(startId + i, batch[i].payload))
  }

  function Inserted(t: Table, batch: seq<Item>, startId: int): Table {
    Table(t.records + RecordRows(batch, startId), t.payloads + PayloadRows(batch, startId))
  }

  /** `t'` holds the rows of `t` and then one record and one payload for each item, under consecutive ids. */
  ghost predicate Continues(t: Table, t': Table, items: seq<Item>, startId: int) {
    var n, m := |t.records|, |t.payloads|;
    |t'.records| == n + |items| && t'.records[..n] == t.records &&
    |t'.payloads| == m + |items| && t'.payloads[..m] == t.payloads &&
    (forall i :: 0 <= i < |items| ==> t'.records[n + i] == RecordRow(startId + i, items[i].record)) &&
    (forall i :: 0 <= i < |items| ==> t'.payloads[m + i] == PayloadRow(startId + i, items[i].payload))
  }

  lemma InsertedContinues(t: Table, t': Table, items: seq<Item>, startId: int)
    ensures Continues(t, t', items, startId) <==> t' == Inserted(t, items, startId)
  {
    hide RecordRows, PayloadRows;
    RecordsFollow(t.records, t'.records, items, startId);
    PayloadsFollow(t.payloads, t'.payloads, items, startId);
  }

  lemma RecordsFollow(a: seq<RecordRow>, c: seq<RecordRow>, items: seq<Item>, startId: int)
    ensures c == a + RecordRows(items, startId) <==>
      |c| == |a| + |items| && c[..|a|] == a &&
      forall i :: 0 <= i < |items| ==> c[|a| + i] == RecordRow(startId + i, items[i].record)
  {
    AppendedIff(a, RecordRows(items, startId), c);
  }

  lemma PayloadsFollow(a: seq<PayloadRow>, c: seq<PayloadRow>, items: seq<Item>, startId: int)
    ensures c == a + PayloadRows(items, startId) <==>
      |c| == |a| + |items| && c[..|a|] == a &&
      forall i :: 0 <= i < |items| ==> c[|a| + i] == PayloadRow(startId + i, items[i].payload)
  {
    AppendedIff(a, PayloadRows(items, startId), c);
  }

  lemma AppendedIff<T>(a: seq<T>, b: seq<T>, c: seq<T>)
    ensures c == a + b <==>
      |c| == |a| + |b| && c[..|a|] == a && forall i :: 0 <= i < |b| ==> c[|a| + i] == b[i]
  {
    if |c| == |a| + |b| && c[..|a|] == a && forall i :: 0 <= i < |b| ==> c[|a| + i] == b[i] {
      forall k | 0 <= k < |c| ensures c[k] == (a + b)[k] {
        assert k < |a| ==> c[k] == c[..|a|][k];
        assert k >= |a| ==> c[|a| + (k - |a|)] == b[k - |a|];
      }
    }
  }

  lemma InsertedIs(t: Table, items: seq<Item>, startId: int)
    ensures Inserted(t, items, startId) ==
      Table(t.records + RecordRows(items, startId), t.payloads + PayloadRows(items, startId))
  {
  }

  method BuildBatch(batch: seq<Item>, startId: int) returns (records: seq<RecordRow>, payloads: seq<PayloadRow>)
    ensures records == RecordRows(batch, startId) && payloads == PayloadRows(batch, startId)
    ensures |records| == |payloads| == |batch|
    ensures forall i :: 0 <= i < |batch| ==>
      records[i] == RecordRow(startId + i, batch[i].record) && payloads[i] == PayloadRow(startId + i, batch[i].payload)
  {
    records, payloads := [], [];
    for index := 0 to |batch|
      invariant records == RecordRows(batch[..index], startId) && payloads == PayloadRows(batch[..index], startId)
    {
      var id := startId + index;
      records := records + [RecordRow(id, batch[index].record)];
      payloads := payloads + [PayloadRow(id, batch[index].payload)];
    }
    assert batch[..|batch|] == batch;
  }

  /** Whether the batch gets through, and how many busy attempts were counted on the way. */
  function Outcome(db: nat -> Attempt, attempt: nat): (bool, nat)
    decreases MAX_RETRIES + 1 - attempt
  {
    match db(attempt)
    case Commits => (true, 0)
    case Fails => (false, 0)
    case Busy =>
      if attempt < MAX_RETRIES then
        var (ok, retries) := Outcome(db, attempt + 1);
        (ok, retries + 1)
      else (false, 0)
  }

  /** An attempt commits behind at most three busy ones. */
  ghost predicate GetsThrough(db: nat -> Attempt) {
    exists k: nat :: k <= 3 && IsFirstCommit(db, k)
  }

  ghost predicate IsFirstCommit(db: nat -> Attempt, k: nat) {
    db(k).Commits? && forall j: nat :: j < k ==> db(j).Busy?
  }

  /** How many busy attempts are retried: the leading ones, at most three. */
  ghost predicate AreRetried(db: nat -> Attempt, n: nat) {
    n <= 3 && (forall j: nat :: j < n ==> db(j).Busy?) && (n < 3 ==> !db(n).Busy?)
  }

  lemma {:induction false} OutcomeFrom(db: nat -> Attempt, attempt: nat)
    requires attempt <= 3 && forall j: nat :: j < attempt ==> db(j).Busy?
    ensures Outcome(db, attempt).0 <==> GetsThrough(db)
    ensures AreRetried(db, attempt + Outcome(db, attempt).1)
    decreases 3 - attempt
  {
    match db(attempt)
    case Commits =>
      assert IsFirstCommit(db, attempt);
    case Fails =>
      assert forall k: nat :: IsFirstCommit(db, k) ==> attempt >= k;
    case Busy =>
      if attempt < 3 {
        OutcomeFrom(db, attempt + 1);
      } else {
        assert forall k: nat :: k <= 3 ==> !db(k).Commits?;
      }
  }

  lemma OutcomeIff(db: nat -> Attempt)
    ensures Outcome(db, 0).0 <==> GetsThrough(db)
    ensures AreRetried(db, Outcome(db, 0).1)
  {
    OutcomeFrom(db, 0);
  }

  /** A batch is lost exactly if an attempt fails behind busy ones only, or if four are busy. */
  lemma LostIff(db: nat -> Attempt)
    ensures !GetsThrough(db) <==>
      (exists k: nat :: k <= 3 && db(k).Fails? && forall j: nat :: j < k ==> db(j).Busy?) ||
      (forall j: nat :: j <= 3 ==> db(j).Busy?)
  {
    if !GetsThrough(db) {
      var n: nat := 0;
      while n <= 3 && db(n).Busy?
        invariant n <= 4 && forall j: nat :: j < n ==> db(j).Busy?
        decreases 4 - n
      {
        n := n + 1;
      }
      assert n <= 3 ==> !IsFirstCommit(db, n);
    }
  }

  lemma GetsThroughMeans(db: nat -> Attempt)
    ensures GetsThrough(db) <==> exists k: nat :: k <= 3 && db(k).Commits? && forall j: nat :: j < k ==> db(j).Busy?
  {
    assert forall k: nat :: IsFirstCommit(db, k) <==> db(k).Commits? && forall j: nat :: j < k ==> db(j).Busy?;
  }

  // ---------------------------------------------------------------- transitions

  /** `flush_and_reset`; the flag is the result. */
  function Flushed(s: State, db: nat -> Attempt): (State, bool)
    requires s.store.Some? ==> s.store.value in s.files
  {
    if s.batch == [] then (s, true)
    else if s.store.None? then (s, false)
    else
      var (ok, retries) := Outcome(db, 0);
      var n := |s.batch|;
      if ok then
        (s.(files := s.files[s.store.value := Inserted(s.files[s.store.value], s.batch, s.nextId)],
            nextId := s.nextId + n, batch := [],
            stats := s.stats.(flushedRows := s.stats.flushedRows + n, batches := s.stats.batches + 1,
                              failedBatches := s.stats.failedBatches + retries)), true)
      else
        (s.(batch := [],
            stats := s.stats.(dropped := s.stats.dropped + n,
                              failedBatches := s.stats.failedBatches + retries + 1)), false)
  }

  /** Take from the queue until the batch is full or the queue empty. */
  function Filled(s: State, batchSize: nat): State {
    var n := if |s.batch| < batchSize then Min(batchSize - |s.batch|, |s.queue|) else 0;
    s.(batch := s.batch + s.queue[..n], queue := s.queue[n..])
  }

  /** How one round of a drain leaves the loop: not yet, or with a result. */
  datatype Round = Again | Done(ok: bool)

  function DrainRound(s: State, cfg: Config, db: nat -> Attempt): (State, Round)
    requires s.store.Some? ==> s.store.value in s.files
  {
    var f := Filled(s, cfg.batchSize);
    if f.batch == [] then (f, Done(true))
    else
      var full := |f.batch| >= cfg.batchSize;
      var (s', ok) := Flushed(f, db);
      (s', if !ok then Done(false) else if full then Again else Done(true))
  }

  /** A drain during which nothing else happens; `dbs` answers the attempts of each round. */
  function Drained(s: State, cfg: Config, dbs: nat -> (nat -> Attempt), round: nat): (State, bool)
    requires s.store.Some? && s.store.value in s.files && cfg.batchSize >= 1
    decreases |s.queue| + |s.batch|
  {
    var (s', r) := DrainRound(s, cfg, dbs(round));
    match r
    case Done(ok) => (s', ok)
    case Again => Drained(s', cfg, dbs, round + 1)
  }

  /** The store is kept if the drain or the checkpoint fails. */
  function Sealed(s: State, cfg: Config, dbs: nat -> (nat -> Attempt), checkpoints: bool): (State, bool)
    requires s.store.Some? ==> s.store.value in s.files
    requires cfg.batchSize >= 1
  {
    if s.store.None? then (s, true)
    else
      var (t, drained) := Drained(s, cfg, dbs, 0);
      if drained && checkpoints then (t.(store := None), true) else (t, false)
  }

  function MaxId(rows: seq<RecordRow>): int {
    if rows == [] then 0
    else
      var m := MaxId(rows[..|rows| - 1]);
      if rows[|rows| - 1].id > m then rows[|rows| - 1].id else m
  }

  /** `next_id`: COALESCE(MAX(id), 0) + 1 -- with ids from 1 on. */
  function NextId(t: Table): int {
    MaxId(t.records) + 1
  }

  /** The next id is free, as is every greater one, and leaves no gap. */
  lemma {:induction false} NextIdIsFree(t: Table)
    ensures NextId(t) >= 1 && forall row :: row in t.records ==> row.id < NextId(t)
    ensures NextId(t) == 1 || exists row :: row in t.records && row.id == NextId(t) - 1
    decreases |t.records|
  {
    if t.records != [] {
      var rest, last := t.records[..|t.records| - 1], t.records[|t.records| - 1];
      NextIdIsFree(Table(rest, t.payloads));
      assert t.records == rest + [last];
      assert forall row :: row in t.records <==> row in rest || row == last;
    }
  }

  function Resumed(s: State, store: StoreId): State
    requires store in s.files
  {
    s.(store := Some(store), nextId := NextId(s.files[store]))
  }

  function Received(s: State, cfg: Config, db: nat -> Attempt): State
    requires s.queue != [] && (s.store.Some? ==> s.store.value in s.files)
  {
    var t := s.(batch := s.batch + [s.queue[0]], queue := s.queue[1..]);
    if |t.batch| >= cfg.batchSize then Flushed(t, db).0 else t
  }

  /** Reset: queue and batch are emptied even if the database then refuses. */
  function ResetTo(s: State, commits: bool): State {
    var t := s.(queue := [], batch := []);
    if commits && s.store.Some? then t.(files := s.files[s.store.value := NO_ROWS], nextId := 1) else t
  }

  class WriterTask {
    const cfg: Config
    var store: Option<StoreId>
    var nextId: int
    var batch: seq<Item>
    var queue: seq<Item>
    var files: map<StoreId, Table>
    var stats: Stats

    function View(): State
      reads this
    {
      State(store, nextId, batch, queue, files, stats)
    }

    /** `start` on an opened store. */
    constructor (cfg: Config, store: StoreId, files: map<StoreId, Table>)
      requires store in files
      ensures this.cfg == cfg
      ensures View() == State(Some(store), NextId(files[store]), [], [], files, Stats(0, 0, 0, 0, 0))
    {
      this.cfg := cfg;
      this.store, this.files := Some(store), files;
      nextId := NextId(files[store]);
      batch, queue := [], [];
      stats := Stats(0, 0, 0, 0, 0);
    }

    /** Retry busy attempts, at most three times; on success the rows are in the store. */
    method FlushWithRetry(db: nat -> Attempt, startId: int) returns (ok: bool)
      requires store.Some? && store.value in files
      modifies this`files, this`stats
      ensures ok == Outcome(db, 0).0
      ensures files == if ok then old(files)[store.value := Inserted(old(files)[store.value], batch, startId)]
        else old(files)
      ensures stats == old(stats).(failedBatches := old(stats).failedBatches + Outcome(db, 0).1)
      ensures ok <==> exists k: nat :: k <= 3 && db(k).Commits? && forall j: nat :: j < k ==> db(j).Busy?
      ensures AreRetried(db, stats.failedBatches - old(stats).failedBatches)
      ensures ok ==> Continues(old(files)[store.value], files[store.value], batch, startId)
    {
      OutcomeIff(db);
      GetsThroughMeans(db);
      hide GetsThrough, AreRetried, Continues, Inserted;
      var attempt: nat := 0;
      while true
        invariant attempt <= MAX_RETRIES && files == old(files)
        invariant Outcome(db, 0).0 == Outcome(db, attempt).0
        invariant stats == old(stats).(failedBatches := old(stats).failedBatches + attempt)
        invariant Outcome(db, 0).1 == attempt + Outcome(db, attempt).1
        decreases MAX_RETRIES - attempt
      {
        var records, payloads := BuildBatch(batch, startId);
        match db(attempt) {
          case Commits =>
            var t := files[store.value];
            files := files[store.value := Table(t.records + records, t.payloads + payloads)];
            InsertedIs(t, batch, startId);
            InsertedContinues(t, files[store.value], batch, startId);
            return true;
          case Busy =>
            if attempt < MAX_RETRIES {
              attempt := attempt + 1;
              stats := stats.(failedBatches := stats.failedBatches + 1);
            } else {
              return false;
            }
          case Fails =>
            return false;
        }
      }
    }

    method FlushAndReset(db: nat -> Attempt) returns (ok: bool)
      requires store.Some? ==> store.value in files
      modifies this
      ensures (View(), ok) == Flushed(old(View()), db)
      ensures old(batch) != [] && old(store).Some? ==>
        (ok <==> GetsThrough(db)) &&
        AreRetried(db, stats.failedBatches - old(stats).failedBatches - if ok then 0 else 1) &&
        stats.batches == old(stats).batches + (if ok then 1 else 0) && stats.enqueued == old(stats).enqueued &&
        stats.flushedRows == old(stats).flushedRows + (if ok then |old(batch)| else 0) &&
        stats.dropped == old(stats).dropped + if ok then 0 else |old(batch)|
    {
      OutcomeIff(db);
      hide GetsThrough, AreRetried, Continues, Outcome, Inserted;
      if batch == [] {
        return true;
      }
      if store.None? {
        return false;
      }
      var startId := nextId;
      var n := |batch|;
      ok := FlushWithRetry(db, startId);
      if ok {
        nextId := startId + n;
        stats := stats.(flushedRows := stats.flushedRows + n, batches := stats.batches + 1);
      } else {
        stats := stats.(failedBatches := stats.failedBatches + 1, dropped := stats.dropped + n);
      }
      batch := [];
    }

    method Fill()
      modifies this`batch, this`queue
      ensures View() == Filled(old(View()), cfg.batchSize)
      ensures batch + queue == old(batch + queue) && old(batch) <= batch
      ensures |batch| < cfg.batchSize ==> queue == []
      ensures |batch| > cfg.batchSize ==> batch == old(batch)
    {
      ghost var s := View();
      ghost var taken := 0;
      while |batch| < cfg.batchSize && queue != []
        invariant taken <= |s.queue| && batch == s.batch + s.queue[..taken] && queue == s.queue[taken..]
        invariant taken > 0 ==> |batch| <= cfg.batchSize
        decreases |queue|
      {
        assert s.queue[..taken + 1] == s.queue[..taken] + [queue[0]];
        batch, queue := batch + [queue[0]], queue[1..];
        taken := taken + 1;
      }
    }

    /** `drain_and_flush` when no sender interferes. */
    method DrainAndFlush(dbs: nat -> (nat -> Attempt)) returns (ok: bool)
      requires store.Some? && store.value in files && cfg.batchSize >= 1
      modifies this
      ensures (View(), ok) == Drained(old(View()), cfg, dbs, 0)
    {
      hide Flushed, Filled;
      ghost var s := View();
      var round: nat := 0;
      while true
        invariant store.Some? && store.value in files
        invariant Drained(View(), cfg, dbs, round) == Drained(s, cfg, dbs, 0)
        decreases |queue| + |batch|
      {
        RoundShrinks(View(), cfg, dbs(round));
        Fill();
        if batch == [] {
          return true;
        }
        var full := |batch| >= cfg.batchSize;
        ok := FlushAndReset(dbs(round));
        if !ok {
          return false;
        }
        if !full {
          return true;
        }
        round := round + 1;
      }
    }

    /** The data branch of the select. */
    method Receive(db: nat -> Attempt)
      requires queue != [] && (store.Some? ==> store.value in files)
      modifies this
      ensures View() == Received(old(View()), cfg, db)
      ensures |old(batch)| + 1 < cfg.batchSize ==>
        View() == old(View()).(batch := old(batch) + [old(queue)[0]], queue := old(queue)[1..])
    {
      batch, queue := batch + [queue[0]], queue[1..];
      if |batch| >= cfg.batchSize {
        var _ := FlushAndReset(db);
      }
    }

    /** Seal: drain, checkpoint, let go of the store. A task without a store has nothing to do. */
    method Seal(dbs: nat -> (nat -> Attempt), checkpoints: bool) returns (ok: bool)
      requires store.Some? ==> store.value in files
      requires cfg.batchSize >= 1
      modifies this
      ensures (View(), ok) == Sealed(old(View()), cfg, dbs, checkpoints)
      ensures old(store).Some? && |old(batch)| <= cfg.batchSize ==>
        (ok <==> checkpoints && AllGetThrough(|old(batch)| + |old(queue)|, cfg.batchSize, dbs, 0))
    {
      SealSucceedsIff(View(), cfg, dbs, checkpoints);
      hide Drained, AllGetThrough;
      if store.None? {
        return true;
      }
      ok := DrainAndFlush(dbs);
      ok := ok && checkpoints;
      if ok {
        store := None;
      }
    }

    method Resume(newStore: StoreId, answers: bool) returns (ok: bool)
      requires newStore in files
      modifies this`store, this`nextId
      ensures ok == answers
      ensures View() == if ok then Resumed(old(View()), newStore) else old(View())
    {
      if !answers {
        return false;
      }
      store := Some(newStore);
      nextId := NextId(files[newStore]);
      return true;
    }

    method Reset(commits: bool) returns (ok: bool)
      requires store.Some? && store.value in files
      modifies this
      ensures ok == commits && View() == ResetTo(old(View()), commits)
      ensures queue == [] && batch == [] && store == old(store) && stats == old(stats)
      ensures if commits then files == old(files)[store.value := Table([], [])] && nextId == 1
        else files == old(files) && nextId == old(nextId)
    {
      while queue != []
        invariant View() == old(View()).(queue := queue)
        decreases |queue|
      {
        queue := queue[1..];
      }
      batch := [];
      if commits {
        files := files[store.value := NO_ROWS];
        nextId := 1;
      }
      return commits;
    }
  }

  /** Every `size` items make a round; all rounds from the given one on get their batch through. */
  ghost predicate AllGetThrough(items: nat, size: nat, dbs: nat -> (nat -> Attempt), round: nat) {
    forall r: nat :: IsDue(items, size, r) ==> GetsThrough(dbs(round + r))
  }

  predicate IsDue(items: nat, size: nat, r: nat) {
    r * size < items
  }

  /** A drain succeeds exactly if every round gets its batch through: one for each full batch and one for the rest. */
  lemma {:induction false} DrainSucceedsIff(s: State, cfg: Config, dbs: nat -> (nat -> Attempt), round: nat)
    requires s.store.Some? && s.store.value in s.files && cfg.batchSize >= 1 && |s.batch| <= cfg.batchSize
    ensures Drained(s, cfg, dbs, round).1 <==> AllGetThrough(|s.batch| + |s.queue|, cfg.batchSize, dbs, round)
    decreases |s.queue| + |s.batch|
  {
    hide Inserted, GetsThrough, Outcome, AllGetThrough, RecordRows, PayloadRows;
    RoundEnds(s, cfg, dbs(round));
    RoundShrinks(s, cfg, dbs(round));
    FirstRound(|s.batch| + |s.queue|, cfg.batchSize, dbs, round);
    var (s', r) := DrainRound(s, cfg, dbs(round));
    hide DrainRound;
    if r.Again? {
      DrainSucceedsIff(s', cfg, dbs, round + 1);
    }
  }

  lemma RoundEnds(s: State, cfg: Config, db: nat -> Attempt)
    requires s.store.Some? && s.store.value in s.files && cfg.batchSize >= 1 && |s.batch| <= cfg.batchSize
    ensures var (s', r) := DrainRound(s, cfg, db);
      var total := |s.batch| + |s.queue|;
      (r == Done(false) <==> total > 0 && !GetsThrough(db)) &&
      (r.Again? <==> total >= cfg.batchSize && GetsThrough(db)) &&
      (r.Again? ==> |s'.batch| + |s'.queue| == total - cfg.batchSize && |s'.batch| <= cfg.batchSize)
  {
    hide Inserted, GetsThrough, Outcome;
    OutcomeIff(db);
  }

  lemma FirstRound(items: nat, size: nat, dbs: nat -> (nat -> Attempt), round: nat)
    requires size >= 1
    ensures AllGetThrough(items, size, dbs, round) <==>
      (items == 0 || GetsThrough(dbs(round))) && (items >= size ==> AllGetThrough(items - size, size, dbs, round + 1))
  {
    hide GetsThrough, IsDue;
    if AllGetThrough(items, size, dbs, round) {
      DueRounds(items, size, 0);
      assert items > 0 ==> GetsThrough(dbs(round + 0));
      if items >= size {
        var rest: nat := items - size;
        forall r: nat | IsDue(rest, size, r) ensures GetsThrough(dbs(round + 1 + r)) {
          DueRounds(items, size, r + 1);
          assert round + (r + 1) == round + 1 + r;
        }
      }
    } else {
      var r: nat :| IsDue(items, size, r) && !GetsThrough(dbs(round + r));
      DueRounds(items, size, r);
      if r > 0 {
        assert round + 1 + (r - 1) == round + r;
      } else {
        assert round + r == round;
      }
    }
  }

  lemma DueRounds(items: nat, size: nat, r: nat)
    requires size >= 1
    ensures IsDue(items, size, r) <==> if r == 0 then items > 0 else items >= size && IsDue(items - size, size, r - 1)
  {
    if r > 0 {
      assert r * size == (r - 1) * size + size;
    }
  }

  lemma SealSucceedsIff(s: State, cfg: Config, dbs: nat -> (nat -> Attempt), checkpoints: bool)
    requires (s.store.Some? ==> s.store.value in s.files) && cfg.batchSize >= 1
    ensures s.store.Some? && |s.batch| <= cfg.batchSize ==>
      (Sealed(s, cfg, dbs, checkpoints).1 <==>
       checkpoints && AllGetThrough(|s.batch| + |s.queue|, cfg.batchSize, dbs, 0))
  {
    hide Drained, AllGetThrough;
    if s.store.Some? && |s.batch| <= cfg.batchSize {
      DrainSucceedsIff(s, cfg, dbs, 0);
    }
  }

  /** A round that goes on has taken at least one item away and kept the store. */
  lemma RoundShrinks(s: State, cfg: Config, db: nat -> Attempt)
    requires s.store.Some? && s.store.value in s.files && cfg.batchSize >= 1
    ensures var (s', r) := DrainRound(s, cfg, db);
      s'.store == s.store && s.files.Keys == s'.files.Keys &&
      (r.Again? ==> |s'.queue| + |s'.batch| < |s.queue| + |s.batch|)
  {
  }
}
