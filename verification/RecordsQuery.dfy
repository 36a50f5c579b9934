/**
 Keyset pagination across the active store and its archives. Each shard hands over its top
 `limit + 1` rows; the gateway merges, truncates and prints a cursor. The laws say that
 following the cursors reads one globally ordered list.
 */
module RecordsQuery {
  import opened Wrappers
  import opened Text
  import opened Numbers
  import opened RecordsCursor
  import opened RowOrder

  const COUNT_CAP: int := 10_000

  /** One database file: its name and its rows, tagged with that name. */
  datatype Shard = Shard(id: string, rows: seq<Entry>)

  /** The caller's filters, compiled to SQL elsewhere: any predicate on a row. */
  type Filter = Entry -> bool

  /** What the schema and the directory scan guarantee: ids are primary keys, file names differ. */
  ghost predicate WellKeyed(shards: seq<Shard>) {
    (forall i, j :: 0 <= i < j < |shards| ==> shards[i].id != shards[j].id) &&
    forall i :: 0 <= i < |shards| ==>
      DistinctKeys(shards[i].rows) && forall e :: e in shards[i].rows ==> e.shard == shards[i].id
  }

  // ---------------------------------------------------------------- one shard

  predicate KeyBelow(timeMs: int, id: int, c: CursorKey) {
    timeMs < c.timeMs || (timeMs == c.timeMs && id < c.id)
  }

  /** The cursor predicate in the shard's WHERE clause. A null time satisfies no comparison. */
  predicate SqlBelow(e: Entry, cursor: Option<CursorKey>, shardId: string) {
    cursor.None? ||
    (e.timeMs.Some? &&
     var c := cursor.value;
     (KeyBelow(e.timeMs.value, e.id, c) ||
      (c.shard.Some? && e.timeMs.value == c.timeMs && e.id == c.id && Less(shardId, c.shard.value))))
  }

  function Select(rows: seq<Entry>, p: Filter): seq<Entry> {
    if rows == [] then [] else (if p(rows[0]) then [rows[0]] else []) + Select(rows[1..], p)
  }

  /** `SELECT ... WHERE ... ORDER BY TimeMs DESC, id DESC LIMIT n`, as the engine defines it. */
  function SqlQuery(rows: seq<Entry>, p: Filter, n: nat): seq<Entry> {
    Take(Sort(Select(rows, p)), n)
  }

  function ShardFilter(where: Filter, cursor: Option<CursorKey>, shardId: string): Filter {
    (e: Entry) => where(e) && SqlBelow(e, cursor, shardId)
  }

  predicate HasTime(e: Entry) {
    e.timeMs.Some?
  }

  /** Rows without a time are skipped when a shard's answer is read. */
  function Timed(rows: seq<Entry>): seq<Entry> {
    Select(rows, HasTime)
  }

  function ShardTop(shard: Shard, where: Filter, cursor: Option<CursorKey>, limit: nat): seq<Entry> {
    Timed(SqlQuery(shard.rows, ShardFilter(where, cursor, shard.id), limit + 1))
  }

  method QueryShard(shard: Shard, where: Filter, cursor: Option<CursorKey>, limit: nat) returns (out: seq<Entry>)
    ensures out == ShardTop(shard, where, cursor, limit)
  {
    hide SqlQuery, Timed;
    var rows := SqlQuery(shard.rows, ShardFilter(where, cursor, shard.id), limit + 1);
    out := [];
    for i := 0 to |rows|
      invariant out + Timed(rows[i..]) == Timed(rows)
    {
      TimedFrom(rows, i);
      if rows[i].timeMs.Some? {
        out := out + [rows[i]];
      }
    }
    TimedFrom(rows, |rows|);
  }

  lemma TimedFrom(rows: seq<Entry>, i: nat)
    requires i <= |rows|
    ensures Timed(rows[i..]) ==
      if i == |rows| then [] else (if HasTime(rows[i]) then [rows[i]] else []) + Timed(rows[i + 1..])
  {
    if i < |rows| {
      assert rows[i..][0] == rows[i] && rows[i..][1..] == rows[i + 1..];
    }
  }

  // ---------------------------------------------------------------- all shards

  /** The tuple comparison with the cursor that the merge applies to every row. */
  predicate Below(e: Entry, cursor: Option<CursorKey>) {
    e.timeMs.Some? &&
    (cursor.None? ||
     var c := cursor.value;
     KeyBelow(e.timeMs.value, e.id, c) ||
     (c.shard.Some? && e.timeMs.value == c.timeMs && e.id == c.id && Less(e.shard, c.shard.value)))
  }

  function Flatten(parts: seq<seq<Entry>>): seq<Entry> {
    if parts == [] then [] else Flatten(parts[..|parts| - 1]) + parts[|parts| - 1]
  }

  function Tops(shards: seq<Shard>, where: Filter, cursor: Option<CursorKey>, limit: nat): seq<seq<Entry>> {
    seq(|shards|, i requires 0 <= i < |shards| => ShardTop(shards[i], where, cursor, limit))
  }

  function BelowFilter(where: Filter, cursor: Option<CursorKey>): Filter {
    (e: Entry) => where(e) && Below(e, cursor)
  }

  function ShardMatching(shard: Shard, where: Filter, cursor: Option<CursorKey>): seq<Entry> {
    Select(shard.rows, BelowFilter(where, cursor))
  }

  /** Every row of every shard that the filters accept and the cursor has not passed. */
  function Matching(shards: seq<Shard>, where: Filter, cursor: Option<CursorKey>): seq<Entry> {
    Flatten(seq(|shards|, i requires 0 <= i < |shards| => ShardMatching(shards[i], where, cursor)))
  }

  function MatchCount(shards: seq<Shard>, where: Filter): nat {
    if shards == [] then 0 else |Select(shards[0].rows, where)| + MatchCount(shards[1..], where)
  }

  /** The page size is the caller's, 50 if not given, and at least 1 and at most 500. */
  function Limit(limit: Option<int>): (r: nat)
    ensures 1 <= r <= 500
    ensures limit.None? ==> r == 50
    ensures limit.Some? && 1 <= limit.value <= 500 ==> r == limit.value
    ensures limit.Some? && limit.value < 1 ==> r == 1
    ensures limit.Some? && limit.value > 500 ==> r == 500
  {
    Clamp(if limit.Some? then limit.value else 50, 1, 500)
  }

  function Cursor(text: Option<string>): Option<CursorKey> {
    if text.Some? then ParseCursor(text.value) else None
  }

  /** The page a cursor selects: the first rows of the ordered list, and where to go on. */
  function Page(sorted: seq<Entry>, limit: nat): (seq<Entry>, Option<string>)
    requires limit >= 1
    requires forall e :: e in sorted ==> e.timeMs.Some?
  {
    if |sorted| <= limit then (sorted, None)
    else
      var last := sorted[limit - 1];
      assert last in sorted;
      (sorted[..limit], Some(FormatCursor(last.timeMs.value, last.id, Some(last.shard))))
  }

  method QueryRecordsMulti(shards: seq<Shard>, where: Filter, cursorText: Option<string>, limitParam: Option<int>)
    returns (items: seq<Entry>, next: Option<string>, total: int, totalExact: bool)
    requires WellKeyed(shards)
    ensures forall e :: e in Sort(Matching(shards, where, Cursor(cursorText))) ==> e.timeMs.Some?
    ensures (items, next) == Page(Sort(Matching(shards, where, Cursor(cursorText))), Limit(limitParam))
    ensures totalExact <==> MatchCount(shards, where) < 10000
    ensures total == if totalExact then MatchCount(shards, where) else 10000
  {
    hide Sort, Matching, ShardTop, Below, WellKeyed, ParseCursor, FormatCursor, Take;
    var limit := Limit(limitParam);
    var cursor := Cursor(cursorText);
    total, totalExact := CountAll(shards, where);
    ghost var tops := Tops(shards, where, cursor, limit);
    var rows: seq<Entry> := [];
    for i := 0 to |shards|
      invariant rows == Flatten(tops[..i])
    {
      var result := QueryShard(shards[i], where, cursor, limit);
      assert tops[..i + 1][..i] == tops[..i];
      rows := rows + result;
    }
    assert tops[..|shards|] == tops;
    if cursor.Some? {
      rows := Select(rows, (e: Entry) => Below(e, cursor));
    }
    RetainKeepsAll(shards, where, cursor, limit);
    MergeIsTheGlobalTop(shards, where, cursor, limit);
    ghost var all := Sort(Matching(shards, where, cursor));
    rows := Sort(rows);
    TakeTells(rows, all, limit);
    var hasMore := |rows| > limit;
    if hasMore {
      rows := rows[..limit];
    }
    next := None;
    if hasMore {
      var last := rows[|rows| - 1];
      assert last == all[limit - 1] && last in all;
      next := Some(FormatCursor(last.timeMs.value, last.id, Some(last.shard)));
    }
    items := rows;
  }

  method CountAll(shards: seq<Shard>, where: Filter) returns (total: int, totalExact: bool)
    ensures totalExact <==> MatchCount(shards, where) < 10000
    ensures total == if totalExact then MatchCount(shards, where) else 10000
  {
    var sum := 0;
    for i := 0 to |shards|
      invariant 0 <= sum
      invariant MatchCount(shards, where) - MatchCount(shards[i..], where) < COUNT_CAP ==>
        sum == MatchCount(shards, where) - MatchCount(shards[i..], where)
      invariant MatchCount(shards, where) - MatchCount(shards[i..], where) >= COUNT_CAP ==> sum >= COUNT_CAP
    {
      assert shards[i..][0] == shards[i] && shards[i..][1..] == shards[i + 1..];
      var hits: int := |Select(shards[i].rows, where)|;
      sum := SaturatingAdd(sum, if hits < COUNT_CAP then hits else COUNT_CAP);
    }
    assert shards[|shards|..] == [];
    total := if sum < COUNT_CAP then sum else COUNT_CAP;
    totalExact := sum < COUNT_CAP;
  }

  // ---------------------------------------------------------------- the merge is the global top

  lemma {:induction false} SelectIn(rows: seq<Entry>, p: Filter)
    ensures forall e :: e in Select(rows, p) <==> e in rows && p(e)
    ensures |Select(rows, p)| <= |rows|
    ensures DistinctKeys(rows) ==> DistinctKeys(Select(rows, p))
  {
    if rows != [] {
      SelectIn(rows[1..], p);
      assert forall e :: e in rows <==> e == rows[0] || e in rows[1..];
      if DistinctKeys(rows) {
        var rest := Select(rows[1..], p);
        forall j | 0 <= j < |rest| ensures rows[0].id != rest[j].id || rows[0].shard != rest[j].shard {
          assert rest[j] in rest;
        }
      }
    }
  }

  /** In descending order the rows without a time come last. */
  lemma {:induction false} TimedTake(s: seq<Entry>, n: nat)
    requires Descending(s)
    ensures Timed(Take(s, n)) == Take(Timed(s), n)
    decreases |s|
  {
    if s != [] && n > 0 {
      if s[0].timeMs.None? {
        assert forall e :: e in Take(s, n) ==> e in s;
        forall i | 0 <= i < |s| ensures s[i].timeMs.None? {
          assert i > 0 ==> Before(s[0], s[i]);
        }
        NothingSelected(Take(s, n));
        NothingSelected(s);
      } else {
        TimedTake(s[1..], n - 1);
        assert Take(s, n)[1..] == Take(s[1..], n - 1);
        assert Take(s, n)[0] == s[0];
        assert Timed(s) == [s[0]] + Timed(s[1..]);
      }
    }
  }

  lemma {:induction false} NothingSelected(s: seq<Entry>)
    requires forall e :: e in s ==> e.timeMs.None?
    ensures Timed(s) == []
  {
    if s != [] {
      assert s[0] in s;
      NothingSelected(s[1..]);
    }
  }

  lemma {:induction false} FlattenIn(parts: seq<seq<Entry>>)
    ensures forall e :: e in Flatten(parts) <==> exists i :: 0 <= i < |parts| && e in parts[i]
  {
    if parts != [] {
      FlattenIn(parts[..|parts| - 1]);
    }
  }

  /** Parts that each belong to a shard of their own have no key in common. */
  lemma {:induction false} FlattenDistinct(parts: seq<seq<Entry>>, shards: seq<Shard>)
    requires WellKeyed(shards) && |parts| == |shards|
    requires forall i :: 0 <= i < |parts| ==> DistinctKeys(parts[i])
    requires forall i, e :: 0 <= i < |parts| && e in parts[i] ==> e.shard == shards[i].id
    ensures DistinctKeys(Flatten(parts))
  {
    if parts != [] {
      var n := |parts| - 1;
      FlattenDistinct(parts[..n], shards[..n]);
      FlattenIn(parts[..n]);
      var front, back := Flatten(parts[..n]), parts[n];
      forall i, j | 0 <= i < |front| && 0 <= j < |back| ensures front[i].shard != back[j].shard {
        assert front[i] in front && back[j] in back;
      }
    }
  }

  /** `top` is the start of the ordered rows in `matching`: anything left out comes after `n` others. */
  ghost predicate IsTop(top: seq<Entry>, matching: seq<Entry>, n: nat) {
    Descending(top) && (forall e :: e in top ==> e in matching) &&
    forall e :: e in matching && e !in top ==> |top| == n && forall t :: t in top ==> Before(t, e)
  }

  lemma ShardTopIsTop(shards: seq<Shard>, i: nat, where: Filter, cursor: Option<CursorKey>, limit: nat)
    requires WellKeyed(shards) && i < |shards|
    ensures IsTop(ShardTop(shards[i], where, cursor, limit), ShardMatching(shards[i], where, cursor), limit + 1)
    ensures DistinctKeys(ShardMatching(shards[i], where, cursor))
    ensures forall e :: e in ShardMatching(shards[i], where, cursor) ==> e.shard == shards[i].id && e.timeMs.Some?
  {
    hide Before, Below, SqlBelow, Less, Sort, Descending, Select, IsTop;
    var shard := shards[i];
    var p := ShardFilter(where, cursor, shard.id);
    SelectIn(shard.rows, p);
    SelectIn(shard.rows, BelowFilter(where, cursor));
    var sorted := Sort(Select(shard.rows, p));
    SortOrders(Select(shard.rows, p));
    SelectIn(sorted, HasTime);
    TimedDescends(sorted);
    TimedTake(sorted, limit + 1);
    var timed := Timed(sorted);
    forall e ensures e in timed <==> e in ShardMatching(shard, where, cursor) {
      if e in shard.rows {
        BelowIsSqlBelow(e, cursor);
      }
    }
    PrefixIsTop(timed, ShardMatching(shard, where, cursor), limit + 1);
    forall e | e in ShardMatching(shard, where, cursor) ensures e.timeMs.Some? {
      TimedWhenBelow(e, cursor);
    }
  }

  lemma PrefixIsTop(s: seq<Entry>, matching: seq<Entry>, n: nat)
    requires Descending(s) && forall e :: e in s <==> e in matching
    ensures IsTop(Take(s, n), matching, n)
  {
    hide Before;
    var top := Take(s, n);
    assert forall j :: 0 <= j < |top| ==> top[j] == s[j] && top[j] in top;
    forall e | e in s && e !in top ensures |top| == n && forall t :: t in top ==> Before(t, e) {
      var k :| 0 <= k < |s| && s[k] == e;
    }
  }

  lemma BelowIsSqlBelow(e: Entry, cursor: Option<CursorKey>)
    ensures Below(e, cursor) <==> e.timeMs.Some? && SqlBelow(e, cursor, e.shard)
  {
  }

  lemma TimedWhenBelow(e: Entry, cursor: Option<CursorKey>)
    ensures Below(e, cursor) ==> e.timeMs.Some?
  {
  }

  lemma {:induction false} TimedDescends(s: seq<Entry>)
    requires Descending(s)
    ensures Descending(Timed(s))
  {
    hide Before;
    if s != [] {
      TimedDescends(s[1..]);
      SelectIn(s[1..], HasTime);
      var rest := Timed(s[1..]);
      forall j | 0 <= j < |rest| ensures Before(s[0], rest[j]) {
        assert rest[j] in rest;
      }
    }
  }

  /** The defensive filter after the merge never drops a row: the SQL predicate said the same. */
  lemma RetainKeepsAll(shards: seq<Shard>, where: Filter, cursor: Option<CursorKey>, limit: nat)
    requires WellKeyed(shards)
    ensures var rows := Flatten(Tops(shards, where, cursor, limit));
      Select(rows, (e: Entry) => Below(e, cursor)) == rows
  {
    hide ShardTop, Below;
    var tops := Tops(shards, where, cursor, limit);
    FlattenIn(tops);
    forall e | e in Flatten(tops) ensures Below(e, cursor) {
      var i :| 0 <= i < |tops| && e in tops[i];
      ShardTopIsTop(shards, i, where, cursor, limit);
      SelectIn(shards[i].rows, BelowFilter(where, cursor));
    }
    SelectAll(Flatten(tops), (e: Entry) => Below(e, cursor));
  }

  lemma {:induction false} SelectAll(rows: seq<Entry>, p: Filter)
    requires forall e :: e in rows ==> p(e)
    ensures Select(rows, p) == rows
  {
    if rows != [] {
      SelectAll(rows[1..], p);
    }
  }

  lemma MatchingRows(shards: seq<Shard>, where: Filter, cursor: Option<CursorKey>)
    requires WellKeyed(shards)
    ensures DistinctKeys(Matching(shards, where, cursor))
    ensures forall e :: e in Matching(shards, where, cursor) <==>
      exists i :: 0 <= i < |shards| && e in ShardMatching(shards[i], where, cursor)
    ensures forall e :: e in Matching(shards, where, cursor) ==> e.timeMs.Some?
    ensures Descending(Sort(Matching(shards, where, cursor)))
    ensures |Sort(Matching(shards, where, cursor))| == |Matching(shards, where, cursor)|
    ensures forall e :: e in Sort(Matching(shards, where, cursor)) <==> e in Matching(shards, where, cursor)
  {
    hide ShardMatching, Sort, Descending;
    var parts := seq(|shards|, i requires 0 <= i < |shards| => ShardMatching(shards[i], where, cursor));
    forall i | 0 <= i < |shards|
      ensures DistinctKeys(parts[i]) && forall e: Entry :: e in parts[i] ==> e.shard == shards[i].id && e.timeMs.Some?
    {
      ShardTopIsTop(shards, i, where, cursor, 0);
    }
    FlattenDistinct(parts, shards);
    FlattenIn(parts);
    SortOrders(Matching(shards, where, cursor));
  }

  /** A row among the first `limit + 1` of all is handed over by its shard. */
  lemma HandedOver(shards: seq<Shard>, where: Filter, cursor: Option<CursorKey>, limit: nat,
                   tops: seq<seq<Entry>>, all: seq<Entry>, k: nat)
    requires k <= limit && k < |all| && Descending(all) && |tops| == |shards|
    requires forall e :: e in all <==> exists i :: 0 <= i < |shards| && e in ShardMatching(shards[i], where, cursor)
    requires forall i :: 0 <= i < |shards| ==> IsTop(tops[i], ShardMatching(shards[i], where, cursor), limit + 1)
    ensures exists i :: 0 <= i < |tops| && all[k] in tops[i]
  {
    hide ShardMatching, Before, Descending;
    var e := all[k];
    assert e in all;
    var i :| 0 <= i < |shards| && e in ShardMatching(shards[i], where, cursor);
    if e !in tops[i] {
      assert forall t :: t in tops[i] ==> t in all;
      RankBound(all, k, tops[i]);
      assert false;
    }
  }

  /** Main merge result: the merged tops start with the first `limit + 1` of all matching rows. */
  lemma MergeIsTheGlobalTop(shards: seq<Shard>, where: Filter, cursor: Option<CursorKey>, limit: nat)
    requires WellKeyed(shards)
    ensures var all := Sort(Matching(shards, where, cursor));
      Take(Sort(Flatten(Tops(shards, where, cursor, limit))), limit + 1) == Take(all, limit + 1) &&
      forall e :: e in all ==> e.timeMs.Some?
  {
    hide ShardTop, ShardMatching, Sort, Before, Matching, Less, Flatten;
    var tops := Tops(shards, where, cursor, limit);
    var all := Sort(Matching(shards, where, cursor));
    MatchingRows(shards, where, cursor);
    forall i | 0 <= i < |shards|
      ensures IsTop(tops[i], ShardMatching(shards[i], where, cursor), limit + 1)
      ensures DistinctKeys(tops[i]) && forall e: Entry :: e in tops[i] ==> e.shard == shards[i].id
    {
      ShardTopIsTop(shards, i, where, cursor, limit);
      DescendingIsDistinct(tops[i], ShardMatching(shards[i], where, cursor));
    }
    FlattenDistinct(tops, shards);
    FlattenIn(tops);
    SortOrders(Flatten(tops));
    var merged := Sort(Flatten(tops));
    forall k | 0 <= k < limit + 1 && k < |all| ensures all[k] in merged {
      HandedOver(shards, where, cursor, limit, tops, all, k);
    }
    SameTake(all, merged, limit + 1);
  }

  /** A descending list of rows with distinct keys has distinct keys. */
  lemma DescendingIsDistinct(top: seq<Entry>, matching: seq<Entry>)
    requires Descending(top) && DistinctKeys(matching)
    requires forall e :: e in top ==> e in matching
    ensures DistinctKeys(top)
  {
    hide Before;
    forall i, j | 0 <= i < j < |top| ensures top[i].id != top[j].id || top[i].shard != top[j].shard {
      assert top[i] in top && top[j] in top;
      var p :| 0 <= p < |matching| && matching[p] == top[i];
      var q :| 0 <= q < |matching| && matching[q] == top[j];
      BeforeIsStrict(top[i], top[j]);
      assert p != q;
    }
  }

  lemma TakeTells(rows: seq<Entry>, all: seq<Entry>, limit: nat)
    requires Take(rows, limit + 1) == Take(all, limit + 1)
    ensures |rows| > limit <==> |all| > limit
    ensures |rows| > limit ==> rows[..limit] == all[..limit]
    ensures |rows| <= limit ==> rows == all
  {
    if |rows| > limit {
      assert Take(rows, limit + 1)[..limit] == rows[..limit];
      assert Take(all, limit + 1)[..limit] == all[..limit];
    }
  }
}
