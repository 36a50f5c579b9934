/** Following `nextCursor` to the end: what a client that pages through the records reads. */
module RecordsPaging {
  import opened Wrappers
  import opened Text
  import opened Numbers
  import opened RecordsCursor
  import opened RowOrder
  import opened RecordsQuery

  /** Names the cursor format can carry (`active`, `record_YYYYMM[_n]`) and 64-bit keys. */
  ghost predicate Printable(shards: seq<Shard>) {
    forall i, e: Entry :: 0 <= i < |shards| && e in shards[i].rows ==>
      e.shard != "" && ':' !in e.shard && IsI64(e.id) && (e.timeMs.Some? ==> IsI64(e.timeMs.value))
  }

  ghost function Listing(shards: seq<Shard>, where: Filter, cursor: Option<CursorKey>): seq<Entry> {
    Sort(Matching(shards, where, cursor))
  }

  function KeyOf(e: Entry): CursorKey
    requires e.timeMs.Some?
  {
    CursorKey(e.timeMs.value, e.id, Some(e.shard))
  }

  /** The printed cursor of a listed row reads back as that row's key. */
  lemma CursorOfRow(shards: seq<Shard>, where: Filter, cursor: Option<CursorKey>, e: Entry)
    requires WellKeyed(shards) && Printable(shards) && e in Listing(shards, where, cursor)
    ensures e.timeMs.Some?
    ensures Cursor(Some(FormatCursor(e.timeMs.value, e.id, Some(e.shard)))) == Some(KeyOf(e))
  {
    hide ParseCursor, FormatCursor, Sort, Matching, Below, DistinctKeys;
    MatchingRows(shards, where, cursor);
    var i :| 0 <= i < |shards| && e in ShardMatching(shards[i], where, cursor);
    SelectIn(shards[i].rows, BelowFilter(where, cursor));
    CursorRoundTrip(KeyOf(e));
  }

  /** Below the key of a listed row lie exactly the rows listed after it. */
  lemma ListingAfter(shards: seq<Shard>, where: Filter, cursor: Option<CursorKey>, n: nat)
    requires WellKeyed(shards) && n < |Listing(shards, where, cursor)|
    requires Listing(shards, where, cursor)[n].timeMs.Some?
    ensures Listing(shards, where, Some(KeyOf(Listing(shards, where, cursor)[n]))) ==
      Listing(shards, where, cursor)[n + 1..]
  {
    hide Sort, Matching, DistinctKeys, Less;
    var all := Listing(shards, where, cursor);
    var key := Some(KeyOf(all[n]));
    var later := Listing(shards, where, key);
    MatchingRows(shards, where, cursor);
    MatchingRows(shards, where, key);
    forall e ensures e in later <==> e in all[n + 1..] {
      LaterMeansAfter(shards, where, cursor, n, e);
    }
    SameTake(all[n + 1..], later, |later| + |all|);
  }

  lemma LaterMeansAfter(shards: seq<Shard>, where: Filter, cursor: Option<CursorKey>, n: nat, e: Entry)
    requires WellKeyed(shards) && n < |Listing(shards, where, cursor)|
    requires Listing(shards, where, cursor)[n].timeMs.Some?
    ensures var all := Listing(shards, where, cursor);
      e in Matching(shards, where, Some(KeyOf(all[n]))) <==> e in all[n + 1..]
  {
    hide Sort, Matching, DistinctKeys, Less, Below, Before, WellKeyed;
    var all := Listing(shards, where, cursor);
    MatchingRows(shards, where, cursor);
    MatchingRows(shards, where, Some(KeyOf(all[n])));
    var last := all[n];
    assert last in all;
    var i :| 0 <= i < |shards| && last in ShardMatching(shards[i], where, cursor);
    SelectIn(shards[i].rows, BelowFilter(where, cursor));
    InListing(shards, where, cursor, e);
    InListing(shards, where, Some(KeyOf(last)), e);
    BelowMeansBefore(e, last);
    if Before(last, e) && e.timeMs.Some? {
      BelowIsDownwardClosed(e, last, cursor);
    }
    RowsAfter(all, n, e);
  }

  lemma InListing(shards: seq<Shard>, where: Filter, cursor: Option<CursorKey>, e: Entry)
    requires WellKeyed(shards)
    ensures e in Matching(shards, where, cursor) <==>
      (exists i :: 0 <= i < |shards| && e in shards[i].rows) && where(e) && Below(e, cursor)
  {
    hide Matching, Below, WellKeyed;
    MatchingRows(shards, where, cursor);
    if e in Matching(shards, where, cursor) {
      var i :| 0 <= i < |shards| && e in ShardMatching(shards[i], where, cursor);
      SelectIn(shards[i].rows, BelowFilter(where, cursor));
    }
    if i :| 0 <= i < |shards| && e in shards[i].rows {
      SelectIn(shards[i].rows, BelowFilter(where, cursor));
    }
  }

  lemma BelowMeansBefore(e: Entry, last: Entry)
    requires last.timeMs.Some?
    ensures Below(e, Some(KeyOf(last))) <==> e.timeMs.Some? && Before(last, e)
  {
  }

  lemma BelowIsDownwardClosed(e: Entry, last: Entry, cursor: Option<CursorKey>)
    requires Below(last, cursor) && Before(last, e) && e.timeMs.Some?
    ensures Below(e, cursor)
  {
    if cursor.Some? && cursor.value.shard.Some? && Less(e.shard, last.shard) &&
      Less(last.shard, cursor.value.shard.value) {
      LessTransitive(e.shard, last.shard, cursor.value.shard.value);
    }
  }

  /** All rows a client reads by following `nextCursor` from `cursorText` on. */
  ghost function Crawl(shards: seq<Shard>, where: Filter, cursorText: Option<string>, limit: nat): seq<Entry>
    requires WellKeyed(shards) && Printable(shards) && limit >= 1
    decreases |Listing(shards, where, Cursor(cursorText))|
  {
    var all := Listing(shards, where, Cursor(cursorText));
    assert forall e :: e in all ==> e.timeMs.Some? by { MatchingRows(shards, where, Cursor(cursorText)); }
    var (items, next) := Page(all, limit);
    if next.None? then items
    else
      assert |Listing(shards, where, Cursor(next))| < |all| by { NextPage(shards, where, cursorText, limit); }
      items + Crawl(shards, where, next, limit)
  }

  /** The next page's listing is the rest of this page's. */
  lemma NextPage(shards: seq<Shard>, where: Filter, cursorText: Option<string>, limit: nat)
    requires WellKeyed(shards) && Printable(shards) && limit >= 1
    requires |Listing(shards, where, Cursor(cursorText))| > limit
    ensures var all := Listing(shards, where, Cursor(cursorText));
      (forall e :: e in all ==> e.timeMs.Some?) &&
      Listing(shards, where, Cursor(Page(all, limit).1)) == all[limit..]
  {
    hide Listing, WellKeyed, FormatCursor, ParseCursor;
    var all := Listing(shards, where, Cursor(cursorText));
    assert forall e :: e in all ==> e.timeMs.Some? by { TimedListing(shards, where, Cursor(cursorText)); }
    var last := all[limit - 1];
    assert last in all;
    CursorOfRow(shards, where, Cursor(cursorText), last);
    ListingAfter(shards, where, Cursor(cursorText), limit - 1);
  }

  lemma TimedListing(shards: seq<Shard>, where: Filter, cursor: Option<CursorKey>)
    requires WellKeyed(shards)
    ensures forall e :: e in Listing(shards, where, cursor) ==> e.timeMs.Some?
  {
    hide Sort, Matching;
    MatchingRows(shards, where, cursor);
  }

  /**
   Main paging result: for any number of shards and any page size the pages put together are
   the ordered list of all matching rows with a time, each once, from the starting cursor on.
   */
  lemma {:induction false} CrawlReadsTheListing(shards: seq<Shard>, where: Filter, cursorText: Option<string>,
                                                limit: nat)
    requires WellKeyed(shards) && Printable(shards) && limit >= 1
    ensures Crawl(shards, where, cursorText, limit) == Listing(shards, where, Cursor(cursorText))
    decreases |Listing(shards, where, Cursor(cursorText))|
  {
    hide Listing, WellKeyed, Printable, ParseCursor, FormatCursor;
    var all := Listing(shards, where, Cursor(cursorText));
    TimedListing(shards, where, Cursor(cursorText));
    if |all| > limit {
      NextPage(shards, where, cursorText, limit);
      var next := Page(all, limit).1;
      CrawlReadsTheListing(shards, where, next, limit);
      assert all[..limit] + all[limit..] == all;
    }
  }

  /** Without a cursor that is every row of every shard the filters accept, nulls aside. */
  lemma FullListing(shards: seq<Shard>, where: Filter)
    requires WellKeyed(shards)
    ensures Descending(Listing(shards, where, None))
    ensures forall e :: e in Listing(shards, where, None) <==>
      (exists i :: 0 <= i < |shards| && e in shards[i].rows) && where(e) && e.timeMs.Some?
    ensures var l := Listing(shards, where, None);
      forall i, j :: 0 <= i < j < |l| ==>
        l[i].timeMs.Some? && l[j].timeMs.Some? && l[i].timeMs.value >= l[j].timeMs.value &&
        (l[i].timeMs == l[j].timeMs ==>
          l[i].id > l[j].id || (l[i].id == l[j].id && Less(l[j].shard, l[i].shard)))
  {
    hide Sort, Matching, Before, DistinctKeys;
    MatchingRows(shards, where, None);
    forall e ensures e in Matching(shards, where, None) <==>
      (exists i :: 0 <= i < |shards| && e in shards[i].rows) && where(e) && e.timeMs.Some? {
      InListing(shards, where, None, e);
    }
    DescendingByColumns(Listing(shards, where, None));
  }

  lemma DescendingByColumns(l: seq<Entry>)
    requires Descending(l) && forall e :: e in l ==> e.timeMs.Some?
    ensures forall i, j :: 0 <= i < j < |l| ==>
      l[i].timeMs.Some? && l[j].timeMs.Some? && l[i].timeMs.value >= l[j].timeMs.value &&
      (l[i].timeMs == l[j].timeMs ==>
        l[i].id > l[j].id || (l[i].id == l[j].id && Less(l[j].shard, l[i].shard)))
  {
    hide Less;
    forall i, j | 0 <= i < j < |l| ensures l[i].timeMs.Some? && l[j].timeMs.Some? && Before(l[i], l[j]) {
      assert l[i] in l && l[j] in l;
    }
  }

  /** A shard name the format cannot carry sends the client back to the first page, for ever. */
  lemma UnprintableNameRestarts(timeMs: int, id: int, shard: string)
    requires IsI64(timeMs) && IsI64(id) && (shard == "" || ':' in shard)
    ensures Cursor(Some(FormatCursor(timeMs, id, Some(shard)))) == Cursor(None)
  {
    CursorRoundTrip(CursorKey(timeMs, id, Some(shard)));
  }

  // ---------------------------------------------------------------- the active store alone

  /** The single-store form compares time and id only and ignores a shard in the cursor. */
  function ActiveFilter(where: Filter, cursor: Option<CursorKey>): Filter {
    (e: Entry) => where(e) && (cursor.None? || (e.timeMs.Some? && KeyBelow(e.timeMs.value, e.id, cursor.value)))
  }

  function ActivePage(sorted: seq<Entry>, limit: nat): (seq<Entry>, Option<string>)
    requires limit >= 1
  {
    if |sorted| <= limit then (sorted, None)
    else
      var last := sorted[limit - 1];
      (sorted[..limit], if last.timeMs.Some? then Some(FormatCursor(last.timeMs.value, last.id, None)) else None)
  }

  function ActiveListing(rows: seq<Entry>, where: Filter, cursor: Option<CursorKey>): seq<Entry> {
    Sort(Select(rows, ActiveFilter(where, cursor)))
  }

  method QueryRecordsActive(rows: seq<Entry>, where: Filter, cursorText: Option<string>, limitParam: Option<int>)
    returns (items: seq<Entry>, next: Option<string>, total: int, totalExact: bool)
    ensures (items, next) == ActivePage(ActiveListing(rows, where, Cursor(cursorText)), Limit(limitParam))
    ensures totalExact <==> |Select(rows, where)| < COUNT_CAP
    ensures total == if totalExact then |Select(rows, where)| else COUNT_CAP
  {
    hide Sort, Select, FormatCursor, ParseCursor;
    var limit := Limit(limitParam);
    total := |Take(Select(rows, where), COUNT_CAP)|;
    totalExact := total < COUNT_CAP;
    ghost var all := ActiveListing(rows, where, Cursor(cursorText));
    items := SqlQuery(rows, ActiveFilter(where, Cursor(cursorText)), limit + 1);
    var hasMore := |items| > limit;
    if hasMore {
      items := items[..|items| - 1];
      assert items == all[..limit];
    }
    next := None;
    if hasMore {
      var last := items[|items| - 1];
      assert last == all[limit - 1];
      if last.timeMs.Some? {
        next := Some(FormatCursor(last.timeMs.value, last.id, None));
      }
    }
  }

  ghost predicate ActiveRows(rows: seq<Entry>) {
    DistinctKeys(rows) &&
    forall e :: e in rows ==>
      e.shard == "active" && IsI64(e.id) && (e.timeMs.Some? ==> IsI64(e.timeMs.value))
  }

  lemma ActiveListingFacts(rows: seq<Entry>, where: Filter, cursor: Option<CursorKey>)
    requires ActiveRows(rows)
    ensures Descending(ActiveListing(rows, where, cursor))
    ensures |ActiveListing(rows, where, cursor)| <= |rows|
    ensures forall e :: e in ActiveListing(rows, where, cursor) <==> e in rows && ActiveFilter(where, cursor)(e)
  {
    hide Sort, Before;
    SelectIn(rows, ActiveFilter(where, cursor));
    SortOrders(Select(rows, ActiveFilter(where, cursor)));
  }

  lemma NextActivePage(rows: seq<Entry>, where: Filter, cursorText: Option<string>, limit: nat)
    requires ActiveRows(rows) && limit >= 1
    requires |ActiveListing(rows, where, Cursor(cursorText))| > limit
    requires ActiveListing(rows, where, Cursor(cursorText))[limit - 1].timeMs.Some?
    ensures var all := ActiveListing(rows, where, Cursor(cursorText));
      ActiveListing(rows, where, Cursor(ActivePage(all, limit).1)) == Timed(all[limit..])
  {
    hide Sort, ParseCursor, FormatCursor, DistinctKeys, Select, ActiveListing, Descending;
    var all := ActiveListing(rows, where, Cursor(cursorText));
    var last := all[limit - 1];
    ActiveListingFacts(rows, where, Cursor(cursorText));
    assert last in all;
    var key := CursorKey(last.timeMs.value, last.id, None);
    CursorRoundTrip(key);
    var later := ActiveListing(rows, where, Some(key));
    ActiveListingFacts(rows, where, Some(key));
    SelectIn(all[limit..], HasTime);
    TailDescends(all, limit);
    TimedDescends(all[limit..]);
    forall e ensures e in later <==> e in Timed(all[limit..]) {
      RowsAfter(all, limit - 1, e);
      if e in rows {
        ActiveBelowMeansBefore(e, last);
      }
    }
    SameTake(Timed(all[limit..]), later, |later| + |all|);
  }

  lemma TailDescends(all: seq<Entry>, n: nat)
    requires Descending(all) && n <= |all|
    ensures Descending(all[n..])
  {
    hide Before;
  }

  lemma ActiveBelowMeansBefore(e: Entry, last: Entry)
    requires last.timeMs.Some? && e.shard == last.shard
    ensures Before(last, e) && e.timeMs.Some? <==>
      e.timeMs.Some? && KeyBelow(e.timeMs.value, e.id, CursorKey(last.timeMs.value, last.id, None))
  {
    LessIsStrictTotal(e.shard, e.shard);
  }

  ghost function CrawlActive(rows: seq<Entry>, where: Filter, cursorText: Option<string>, limit: nat): seq<Entry>
    requires ActiveRows(rows) && limit >= 1
    decreases |ActiveListing(rows, where, Cursor(cursorText))|
  {
    var all := ActiveListing(rows, where, Cursor(cursorText));
    var (items, next) := ActivePage(all, limit);
    if next.None? then items
    else
      assert |ActiveListing(rows, where, Cursor(next))| < |all| by {
        NextActivePage(rows, where, cursorText, limit);
        SelectIn(all[limit..], HasTime);
      }
      items + CrawlActive(rows, where, next, limit)
  }

  /** What the crawl returns: the first page, and after it only rows with a time. */
  lemma {:induction false} CrawlActiveReads(rows: seq<Entry>, where: Filter, cursorText: Option<string>, limit: nat)
    requires ActiveRows(rows) && limit >= 1
    ensures var all := ActiveListing(rows, where, Cursor(cursorText));
      CrawlActive(rows, where, cursorText, limit) ==
        if |all| <= limit then all
        else if all[limit - 1].timeMs.None? then all[..limit]
        else all[..limit] + Timed(all[limit..])
    decreases |ActiveListing(rows, where, Cursor(cursorText))|
  {
    hide ActiveListing, ActiveRows, FormatCursor, ParseCursor, Timed, Select;
    var all := ActiveListing(rows, where, Cursor(cursorText));
    if |all| > limit && all[limit - 1].timeMs.Some? {
      NextActivePage(rows, where, cursorText, limit);
      TimedIn(all[limit..]);
      var next := ActivePage(all, limit).1;
      CrawlActiveReads(rows, where, next, limit);
      var rest := ActiveListing(rows, where, Cursor(next));
      assert forall e :: e in rest ==> e.timeMs.Some?;
      TimedRestIsWhole(rest, limit);
    }
  }

  lemma TimedIn(s: seq<Entry>)
    ensures |Timed(s)| <= |s| && forall e :: e in Timed(s) ==> e.timeMs.Some?
  {
    SelectIn(s, HasTime);
  }

  lemma TimedRestIsWhole(rest: seq<Entry>, n: nat)
    requires n >= 1 && forall e :: e in rest ==> e.timeMs.Some?
    ensures |rest| > n ==> rest[n - 1].timeMs.Some? && rest[..n] + Timed(rest[n..]) == rest
  {
    if |rest| > n {
      assert rest[n - 1] in rest;
      assert forall e :: e in rest[n..] ==> e in rest;
      SelectAll(rest[n..], HasTime);
    }
  }

  /**
   Paging the active store alone is complete exactly when the first page holds everything or
   no row lacks a time: rows without one are never reachable through a cursor.
   */
  lemma ActiveCrawlIsComplete(rows: seq<Entry>, where: Filter, limit: nat)
    requires ActiveRows(rows) && limit >= 1
    ensures var all := ActiveListing(rows, where, None);
      CrawlActive(rows, where, None, limit) == all <==> |all| <= limit || forall e :: e in all ==> e.timeMs.Some?
  {
    hide ActiveRows, ActiveListing, Timed, Select, Before;
    var all := ActiveListing(rows, where, None);
    CrawlActiveReads(rows, where, None, limit);
    ActiveListingFacts(rows, where, None);
    if |all| > limit {
      if forall e :: e in all ==> e.timeMs.Some? {
        TimedRestIsWhole(all, limit);
      } else if all[limit - 1].timeMs.Some? {
        UntimedComeLast(all, limit);
        SelectDropsRows(all[limit..]);
        assert |all[..limit] + Timed(all[limit..])| < |all|;
      }
    }
  }

  lemma UntimedComeLast(all: seq<Entry>, n: nat)
    requires Descending(all) && 0 < n < |all| && all[n - 1].timeMs.Some?
    requires exists e :: e in all && e.timeMs.None?
    ensures exists e :: e in all[n..] && e.timeMs.None?
  {
    var k :| 0 <= k < |all| && all[k].timeMs.None?;
    forall j | 0 <= j < n ensures all[j].timeMs.Some? {
      assert j < n - 1 ==> Before(all[j], all[n - 1]);
    }
    assert all[n..][k - n] == all[k];
  }

  lemma {:induction false} SelectDropsRows(rest: seq<Entry>)
    requires exists e :: e in rest && e.timeMs.None?
    ensures |Timed(rest)| < |rest|
  {
    SelectIn(rest[1..], HasTime);
    if rest[0].timeMs.Some? {
      SelectDropsRows(rest[1..]);
    }
  }
}
