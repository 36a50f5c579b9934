/** The batched copy of an audit database into the v8 layout. */
module MigrationCopy {
  import opened Wrappers
  import opened MigrationTables

  /** A source record; `rest` stands for the columns that are copied as they are. */
  datatype SrcRecord = SrcRecord(
    timeMs: Option<int>, prompt: Option<string>, requestTail: Option<string>, answer: Option<string>,
    tool: Option<int>, multimodal: Option<int>, rest: string)

  /** A v8 record: null flags became 0 and the search text is stored. */
  datatype DstRecord = DstRecord(
    timeMs: Option<int>, prompt: Option<string>, requestTail: Option<string>, answer: Option<string>,
    tool: int, multimodal: int, rest: string, searchText: Option<string>)

  datatype Payload = Payload(
    codec: Option<string>, dictId: Option<string>, request: Option<string>, response: Option<string>,
    headers: Option<string>, requestRawLen: Option<int>, responseRawLen: Option<int>, headersRawLen: Option<int>)

  datatype Source = Source(records: seq<Row<SrcRecord>>, payloads: seq<Row<Payload>>)

  datatype Target = Target(records: seq<Row<DstRecord>>, payloads: seq<Row<Payload>>)

  datatype Options = Options(batch: nat, limit: int, resume: bool)

  ghost predicate Valid(src: Source) {
    Sorted(src.records) && Sorted(src.payloads)
  }

  function Converted(r: Row<SrcRecord>): Row<DstRecord> {
    var v := r.value;
    Row(r.id, DstRecord(v.timeMs, v.prompt, v.requestTail, v.answer, OrElse(v.tool, 0), OrElse(v.multimodal, 0), v.rest,
      Some(OrElse(v.prompt, "") + "\n" + OrElse(v.requestTail, "") + "\n" + OrElse(v.answer, ""))))
  }

  function AllConverted(rs: seq<Row<SrcRecord>>): seq<Row<DstRecord>> {
    seq(|rs|, i requires 0 <= i < |rs| => Converted(rs[i]))
  }

  /** The next records after `last`, at most a batch of them. */
  function NextRecords(src: Source, last: Option<int>, batch: nat): seq<Row<SrcRecord>> {
    var k := Rank(src.records, last);
    src.records[k..k + Min(batch, |src.records| - k)]
  }

  /** The payloads after `last` up to `upTo`. */
  function NextPayloads(src: Source, last: Option<int>, upTo: int): seq<Row<Payload>> {
    var i, j := Rank(src.payloads, last), Rank(src.payloads, Some(upTo));
    if i <= j then src.payloads[i..j] else []
  }

  /** One transaction: both inserts, or nothing. */
  function InsertBatch(t: Target, rows: seq<Row<SrcRecord>>, payloads: seq<Row<Payload>>): Option<Target> {
    match (InsertAll(t.records, AllConverted(rows)), InsertAll(t.payloads, payloads))
    case (Some(rs), Some(ps)) => Some(Target(rs, ps))
    case _ => None
  }

  datatype Copy = Copy(target: Target, last: Option<int>, migrated: nat, ok: bool)

  /** The batches from `last` on; `fails(i)` tells whether the i-th transaction fails for outside reasons. */
  function Copied(src: Source, t: Target, last: Option<int>, migrated: nat, o: Options, fails: nat -> bool,
                  i: nat): Copy
    requires Valid(src) && o.batch >= 1
    decreases |src.records| - Rank(src.records, last)
  {
    var rows := NextRecords(src, last, o.batch);
    if rows == [] then Copy(t, last, migrated, true)
    else
      var maxId := rows[|rows| - 1].id;
      BatchAdvances(src, last, o.batch);
      var inserted := if fails(i) then None else InsertBatch(t, rows, NextPayloads(src, last, maxId));
      if inserted.None? then Copy(t, last, migrated, false)
      else if migrated + |rows| >= o.limit then Copy(inserted.value, Some(maxId), migrated + |rows|, true)
      else Copied(src, inserted.value, Some(maxId), migrated + |rows|, o, fails, i + 1)
  }

  lemma BatchAdvances(src: Source, last: Option<int>, batch: nat)
    requires Valid(src) && NextRecords(src, last, batch) != []
    ensures var rows := NextRecords(src, last, batch);
      var maxId := rows[|rows| - 1].id;
      Rank(src.records, Some(maxId)) == Rank(src.records, last) + |rows| &&
      Rank(src.payloads, last) <= Rank(src.payloads, Some(maxId))
  {
    hide Rank;
    var rows := NextRecords(src, last, batch);
    var top := Rank(src.records, last) + |rows| - 1;
    assert src.records[top] == rows[|rows| - 1];
    RankIs(src.records, Some(src.records[top].id), top + 1);
    assert !Reaches(src.records[top].id, last);
    RankGrows(src.payloads, last, Some(src.records[top].id));
  }

  function Start(t: Target, o: Options): Option<int> {
    if o.resume then MaxKey(t.records) else None
  }

  /** The copy loop: from a target cut at a batch boundary it leaves one that is cut at a later boundary. */
  method RunCopy(src: Source, target: Target, o: Options, fails: nat -> bool) returns (r: Copy)
    requires Valid(src) && o.batch >= 1
    ensures r == Copied(src, target, Start(target, o), 0, o, fails, 0)
    ensures MovesTheBoundary(src, target, o, r)
  {
    hide Rank, InsertBatch, NextRecords, NextPayloads, MovesTheBoundary;
    ghost var end := Copied(src, target, Start(target, o), 0, o, fails, 0);
    CopyMovesTheBoundary(src, target, o, fails);
    var t := target;
    var last := if o.resume then MaxKey(t.records) else None;
    var migrated: nat := 0;
    var attempt: nat := 0;
    while true
      invariant Copied(src, t, last, migrated, o, fails, attempt) == end
      decreases |src.records| - Rank(src.records, last)
    {
      var rows := NextRecords(src, last, o.batch);
      if rows == [] {
        return Copy(t, last, migrated, true);
      }
      var maxId := rows[|rows| - 1].id;
      BatchAdvances(src, last, o.batch);
      var inserted := if fails(attempt) then None else InsertBatch(t, rows, NextPayloads(src, last, maxId));
      if inserted.None? {
        return Copy(t, last, migrated, false);
      }
      t, migrated, last, attempt := inserted.value, migrated + |rows|, Some(maxId), attempt + 1;
      if migrated >= o.limit {
        return Copy(t, last, migrated, true);
      }
    }
  }

  // ---------------------------------------------------------------- what every run leaves

  ghost predicate HasKeys(t: Target) {
    Sorted(t.records) && Sorted(t.payloads)
  }

  lemma {:induction false} CopyKeepsKeys(
      src: Source, t: Target, last: Option<int>, migrated: nat, o: Options, fails: nat -> bool, i: nat)
    requires Valid(src) && o.batch >= 1 && HasKeys(t)
    ensures HasKeys(Copied(src, t, last, migrated, o, fails, i).target)
    decreases |src.records| - Rank(src.records, last)
  {
    hide Rank, NextRecords, NextPayloads, InsertAll, Sorted;
    var rows := NextRecords(src, last, o.batch);
    if rows != [] {
      var maxId := rows[|rows| - 1].id;
      BatchAdvances(src, last, o.batch);
      var payloads := NextPayloads(src, last, maxId);
      var inserted := InsertBatch(t, rows, payloads);
      if inserted.Some? && !fails(i) {
        InsertAllKeepsSorted(t.records, AllConverted(rows));
        InsertAllKeepsSorted(t.payloads, payloads);
        if migrated + |rows| < o.limit {
          CopyKeepsKeys(src, inserted.value, Some(maxId), migrated + |rows|, o, fails, i + 1);
        }
      }
    }
  }

  /** The target a complete copy up to `last` leaves. */
  function Part(src: Source, last: Option<int>): Target {
    Target(AllConverted(UpTo(src.records, last)), UpTo(src.payloads, last))
  }

  /** `last` is none or a record's id. */
  ghost predicate AtBoundary(src: Source, last: Option<int>) {
    last.Some? ==> exists i :: 0 <= i < |src.records| && src.records[i].id == last.value
  }

  lemma BatchExtendsPart(src: Source, last: Option<int>, batch: nat)
    requires Valid(src) && NextRecords(src, last, batch) != []
    ensures var rows := NextRecords(src, last, batch);
      var maxId := rows[|rows| - 1].id;
      InsertBatch(Part(src, last), rows, NextPayloads(src, last, maxId)) == Some(Part(src, Some(maxId))) &&
      AtBoundary(src, Some(maxId))
  {
    hide Rank;
    BatchAdvances(src, last, batch);
    var rows := NextRecords(src, last, batch);
    var maxId := rows[|rows| - 1].id;
    var k := Rank(src.records, last);
    var n := k + |rows|;
    assert src.records[n - 1] == rows[|rows| - 1];
    assert src.records[..n] == src.records[..k] + rows;
    assert AllConverted(src.records[..n]) == AllConverted(src.records[..k]) + AllConverted(rows);
    InsertAllAtEnd(AllConverted(src.records[..k]), AllConverted(rows));
    var i, j := Rank(src.payloads, last), Rank(src.payloads, Some(maxId));
    assert src.payloads[..j] == src.payloads[..i] + src.payloads[i..j];
    InsertAllAtEnd(src.payloads[..i], src.payloads[i..j]);
  }

  lemma NothingLeft(src: Source, last: Option<int>, batch: nat)
    requires batch >= 1
    ensures NextRecords(src, last, batch) == [] <==> Rank(src.records, last) == |src.records|
  {
  }

  /**
   Main result: a run that starts at a batch boundary, fresh or resumed, ends at one, however its
   batches are cut and wherever it stops; without a failure or a limit it has copied all records.
   */
  lemma {:induction false} CopyStaysAtBoundary(
      src: Source, last: Option<int>, migrated: nat, o: Options, fails: nat -> bool, i: nat)
    requires Valid(src) && o.batch >= 1 && AtBoundary(src, last)
    ensures var r := Copied(src, Part(src, last), last, migrated, o, fails, i);
      r.target == Part(src, r.last) && AtBoundary(src, r.last) &&
      r.migrated == migrated + Rank(src.records, r.last) - Rank(src.records, last) &&
      (r.ok ==> Rank(src.records, r.last) == |src.records| || r.migrated >= o.limit) &&
      (!r.ok ==> exists k :: k >= i && fails(k))
    decreases |src.records| - Rank(src.records, last)
  {
    hide Rank, InsertBatch, Part, NextRecords, NextPayloads, AtBoundary;
    NothingLeft(src, last, o.batch);
    var rows := NextRecords(src, last, o.batch);
    if rows != [] {
      var maxId := rows[|rows| - 1].id;
      BatchAdvances(src, last, o.batch);
      BatchExtendsPart(src, last, o.batch);
      if !fails(i) && migrated + |rows| < o.limit {
        CopyStaysAtBoundary(src, Some(maxId), migrated + |rows|, o, fails, i + 1);
      }
    }
  }

  /** A column that must hold text: null counts as none. */
  function TextOf(column: Option<string>): string {
    match column
    case None => ""
    case Some(text) => text
  }

  /** Column by column: what a copied record takes over, and what it derives. */
  predicate SameColumns(r: Row<SrcRecord>, d: Row<DstRecord>) {
    d.id == r.id && d.value.timeMs == r.value.timeMs && d.value.prompt == r.value.prompt &&
    d.value.requestTail == r.value.requestTail && d.value.answer == r.value.answer && d.value.rest == r.value.rest &&
    (r.value.tool.Some? ==> d.value.tool == r.value.tool.value) && (r.value.tool.None? ==> d.value.tool == 0) &&
    (r.value.multimodal.Some? ==> d.value.multimodal == r.value.multimodal.value) &&
    (r.value.multimodal.None? ==> d.value.multimodal == 0) &&
    d.value.searchText ==
      Some(TextOf(r.value.prompt) + "\n" + TextOf(r.value.requestTail) + "\n" + TextOf(r.value.answer))
  }

  /** The first rows of both tables are there, unchanged: those with an id up to `last`, and no others. */
  ghost predicate HoldsUpTo(src: Source, t: Target, last: Option<int>) {
    |t.records| <= |src.records| && |t.payloads| <= |src.payloads| &&
    (forall i :: 0 <= i < |t.records| ==> SameColumns(src.records[i], t.records[i])) &&
    (forall i :: 0 <= i < |t.payloads| ==> t.payloads[i] == src.payloads[i]) &&
    EndsAt(src.records, |t.records|, last) && EndsAt(src.payloads, |t.payloads|, last)
  }

  /** The first `n` rows are those with an id up to `last`. */
  ghost predicate EndsAt<T>(rows: seq<Row<T>>, n: nat, last: Option<int>) {
    forall i :: 0 <= i < |rows| ==> (i < n <==> Reaches(rows[i].id, last))
  }

  /** What a run makes of a target cut at a boundary: one that holds `migrated` records more. */
  ghost predicate MovesTheBoundary(src: Source, t: Target, o: Options, r: Copy) {
    forall last :: AtBoundary(src, last) && HoldsUpTo(src, t, last) && (last.Some? ==> o.resume) ==>
      HoldsUpTo(src, r.target, r.last) && AtBoundary(src, r.last) && |t.records| + r.migrated == |r.target.records| &&
      (r.ok ==> |r.target.records| == |src.records| || r.migrated >= o.limit)
  }

  lemma ConvertedIff(r: Row<SrcRecord>, d: Row<DstRecord>)
    ensures SameColumns(r, d) <==> d == Converted(r)
  {
  }

  lemma ConvertedColumns(rs: seq<Row<SrcRecord>>, ds: seq<Row<DstRecord>>)
    requires |ds| <= |rs|
    ensures (forall i :: 0 <= i < |ds| ==> SameColumns(rs[i], ds[i])) <==> ds == AllConverted(rs[..|ds|])
  {
    hide SameColumns, Converted;
    forall i | 0 <= i < |ds| ensures SameColumns(rs[i], ds[i]) <==> ds[i] == Converted(rs[i]) {
      ConvertedIff(rs[i], ds[i]);
    }
    var cs := AllConverted(rs[..|ds|]);
    assert forall i :: 0 <= i < |ds| ==> cs[i] == Converted(rs[i]);
  }

  lemma RankIff<T>(t: seq<Row<T>>, last: Option<int>, n: nat)
    requires Sorted(t) && n <= |t|
    ensures n == Rank(t, last) <==> EndsAt(t, n, last)
  {
    hide Rank;
    var k := Rank(t, last);
    assert (n < k ==> Reaches(t[n].id, last)) && (k < n ==> !Reaches(t[k].id, last));
  }

  /** Only one target holds the source up to an id. */
  lemma HoldsUpToIff(src: Source, t: Target, last: Option<int>)
    requires Valid(src)
    ensures HoldsUpTo(src, t, last) <==> t == Part(src, last)
  {
    hide Rank, SameColumns, Converted, AllConverted, EndsAt;
    if |t.records| <= |src.records| && |t.payloads| <= |src.payloads| {
      RankIff(src.records, last, |t.records|);
      RankIff(src.payloads, last, |t.payloads|);
      ConvertedColumns(src.records, t.records);
    }
    var p := Part(src, last);
    PartCounts(src, last);
    if HoldsUpTo(src, t, last) {
      assert t.records == p.records;
      assert t.payloads == p.payloads;
    }
  }

  /**
   The same without naming the conversion: column by column the target holds the source's rows
   up to the last copied id, after every run from a target that does.
   */
  lemma CopyMovesTheBoundary(src: Source, t: Target, o: Options, fails: nat -> bool)
    requires Valid(src) && o.batch >= 1
    ensures MovesTheBoundary(src, t, o, Copied(src, t, Start(t, o), 0, o, fails, 0))
  {
    hide HoldsUpTo, AtBoundary, Rank, Copied, Part;
    forall last | AtBoundary(src, last) && HoldsUpTo(src, t, last) && (last.Some? ==> o.resume)
      ensures var r := Copied(src, t, Start(t, o), 0, o, fails, 0);
        HoldsUpTo(src, r.target, r.last) && AtBoundary(src, r.last) &&
        |t.records| + r.migrated == |r.target.records| &&
        (r.ok ==> |r.target.records| == |src.records| || r.migrated >= o.limit)
    {
      HoldsUpToIff(src, t, last);
      if o.resume {
        ResumeFindsTheBoundary(src, last, o);
      }
      CopyStaysAtBoundary(src, last, 0, o, fails, 0);
      var r := Copied(src, t, last, 0, o, fails, 0);
      HoldsUpToIff(src, r.target, r.last);
      PartCounts(src, last);
      PartCounts(src, r.last);
    }
  }

  lemma PartCounts(src: Source, last: Option<int>)
    ensures |Part(src, last).records| == Rank(src.records, last)
  {
    hide Rank;
  }

  /** A target cut at a boundary is what a resumed run takes it for. */
  lemma ResumeFindsTheBoundary(src: Source, last: Option<int>, o: Options)
    requires Valid(src) && AtBoundary(src, last) && o.resume
    ensures Start(Part(src, last), o) == last
  {
    hide Rank;
    var k := Rank(src.records, last);
    if last.Some? {
      var i := BoundaryIndex(src, last);
      assert UpTo(src.records, last) == src.records[..i + 1];
    } else {
      RankIs(src.records, last, 0);
    }
  }

  lemma BoundaryIndex(src: Source, last: Option<int>) returns (i: nat)
    requires Valid(src) && AtBoundary(src, last) && last.Some?
    ensures i < |src.records| && src.records[i].id == last.value && Rank(src.records, last) == i + 1
  {
    hide Rank;
    i :| 0 <= i < |src.records| && src.records[i].id == last.value;
    RankIs(src.records, last, i + 1);
  }

  /** Every payload belongs to a record or lies before the last one. */
  ghost predicate NoTrailingPayload(src: Source) {
    forall p :: p in src.payloads ==> src.records != [] && p.id <= src.records[|src.records| - 1].id
  }

  /** A copy of all records is a copy of everything exactly when no payload lies behind the last record. */
  lemma CompleteIff(src: Source, last: Option<int>)
    requires Valid(src) && AtBoundary(src, last) && Rank(src.records, last) == |src.records|
    ensures Part(src, last).records == AllConverted(src.records)
    ensures Part(src, last).payloads == src.payloads <==> NoTrailingPayload(src)
  {
    hide Rank;
    assert src.records[..|src.records|] == src.records;
    if src.records == [] {
      assert last.None? by {
        assert AtBoundary(src, last);
      }
      RankIs(src.payloads, last, 0);
      assert src.payloads == [] || src.payloads[0] in src.payloads;
    } else {
      assert Reaches(src.records[|src.records| - 1].id, last);
      var i := BoundaryIndex(src, last);
      PayloadsReached(src, last.value);
    }
  }

  lemma PayloadsReached(src: Source, last: int)
    requires Valid(src) && src.records != [] && last == src.records[|src.records| - 1].id
    ensures UpTo(src.payloads, Some(last)) == src.payloads <==> NoTrailingPayload(src)
  {
    hide Rank;
    var j := Rank(src.payloads, Some(last));
    if j == |src.payloads| {
      assert src.payloads[..j] == src.payloads;
      forall p | p in src.payloads ensures p.id <= last {
        var k :| 0 <= k < |src.payloads| && src.payloads[k] == p;
        assert Reaches(src.payloads[k].id, Some(last));
      }
    } else {
      assert src.payloads[j] in src.payloads && !Reaches(src.payloads[j].id, Some(last));
      assert |src.payloads[..j]| < |src.payloads|;
    }
  }
}
