/** Following the pages of a log back to its start, and what an append leaves of a page. */
module LogPagerLaws {
  import opened Bytes
  import opened Wrappers
  import opened LogPager

  /** The offset handed out is the start of a line before the page's end, and a page taken there ends there. */
  lemma NextIsABoundary(f: seq<Byte>, before: Option<nat>, limit: nat)
    requires Page(f, before, limit).1.Some?
    ensures var n := Page(f, before, limit).1.value;
      n < PageEnd(f, before) && PageEnd(f, Some(n)) == n && Closed(f[..n])
    ensures var all := Lines(f[..PageEnd(f, before)], 0);
      Lines(f[..Page(f, before, limit).1.value], 0) == all[..|all| - Min(limit, |all|)]
  {
    hide Lines, PageEnd;
    var e := PageEnd(f, before);
    var all := Lines(f[..e], 0);
    var k := |all| - Min(limit, |all|);
    var a, b := LineStarts(f[..e], 0, k);
    assert f[..e][..|a|] == a == f[..|a|];
    ClosedPageEnd(f, |a|);
  }

  lemma ClosedPageEnd(f: seq<Byte>, n: nat)
    requires n <= |f| && Closed(f[..n])
    ensures PageEnd(f, Some(n)) == n
  {
  }

  /** The lines of the page at `before` and of all pages reached from it, in the order they are served. */
  function Crawl(f: seq<Byte>, before: Option<nat>, limit: nat): seq<seq<Byte>>
    requires limit >= 1
    decreases PageEnd(f, before)
  {
    var (lines, next) := Page(f, before, limit);
    if next.None? then lines
    else
      NextIsABoundary(f, before, limit);
      lines + Crawl(f, next, limit)
  }

  /** Main result: the pages from the end are all lines of the file, each once, newest first. */
  lemma {:induction false} CrawlServesEveryLine(f: seq<Byte>, before: Option<nat>, limit: nat)
    requires limit >= 1
    ensures Crawl(f, before, limit) == Reverse(Texts(Lines(f[..PageEnd(f, before)], 0)))
    ensures before.None? ==> PageEnd(f, before) == |f| && f[..PageEnd(f, before)] == f
    decreases PageEnd(f, before)
  {
    hide Lines, PageEnd, Reverse, Texts;
    var all := Lines(f[..PageEnd(f, before)], 0);
    var k := |all| - Min(limit, |all|);
    var (lines, next) := Page(f, before, limit);
    assert lines == Reverse(Texts(all[k..]));
    SplitReversed(all, k);
    if next.Some? {
      NextIsABoundary(f, before, limit);
      CrawlServesEveryLine(f, next, limit);
    } else {
      if k > 0 {
        var a, b := LineStarts(f[..PageEnd(f, before)], 0, k);
      }
      assert all[..k] == [] && Reverse(Texts([])) == [] by {
        NothingReversed();
      }
    }
    if before.None? {
      WholeFile(f);
    }
  }

  lemma SplitReversed(lines: seq<Line>, k: nat)
    requires k <= |lines|
    ensures Reverse(Texts(lines)) == Reverse(Texts(lines[k..])) + Reverse(Texts(lines[..k]))
  {
  }

  lemma NothingReversed()
    ensures Reverse(Texts([])) == []
  {
  }

  lemma WholeFile(f: seq<Byte>)
    ensures PageEnd(f, None) == |f| && f[..PageEnd(f, None)] == f
  {
  }

  lemma SamePrefixSamePage(f: seq<Byte>, g: seq<Byte>, b: nat, limit: nat)
    requires b <= |f| && (b < |f| || Closed(f))
    ensures Page(f, Some(b), limit) == Page(f + g, Some(b), limit)
  {
    hide Lines, LastStart;
    assert (f + g)[..b] == f[..b];
    if b == |f| {
      assert f[..b] == f;
      ClosedPageEnd(f, b);
      ClosedPageEnd(f + g, b);
    }
    assert (f + g)[..PageEnd(f, Some(b))] == f[..PageEnd(f, Some(b))];
  }

  /**
   A page is unchanged by whatever is appended later exactly when it was taken before the end of
   the file or at a line boundary.
   */
  lemma AppendLeavesThePage(f: seq<Byte>, g: seq<Byte>, b: nat, limit: nat)
    requires b <= |f| && g != [] && limit >= 1
    ensures Page(f, Some(b), limit) == Page(f + g, Some(b), limit) <==> b < |f| || b == 0 || f[b - 1] == NEWLINE
  {
    hide Lines, LastStart, Page;
    if b < |f| || Closed(f) {
      SamePrefixSamePage(f, g, b, limit);
    } else {
      UnfinishedLineShows(f, g, limit);
    }
  }

  lemma UnfinishedLineShows(f: seq<Byte>, g: seq<Byte>, limit: nat)
    requires !Closed(f) && g != [] && limit >= 1
    ensures Page(f, Some(|f|), limit) != Page(f + g, Some(|f|), limit)
  {
    hide Lines, LastStart;
    var e := LastStart(f);
    var u := f[e..];
    assert (f + g)[..|f|] == f && f[..|f|] == f && (f + g)[..e] == f[..e];
    assert f == f[..e] + u && f[|f| - 1] == u[|u| - 1];
    LinesSplit(f[..e], u, 0);
    LinesOfUnfinished(u, e);
    assert PageEnd(f, Some(|f|)) == |f| && PageEnd(f + g, Some(|f|)) == e;
    var all, closed := Lines(f, 0), Lines(f[..e], 0);
    var mine, theirs := PageLines(f, Some(|f|), limit), PageLines(f + g, Some(|f|), limit);
    assert mine == TakeLast(all, limit) && theirs == TakeLast(closed, limit);
    assert |Page(f, Some(|f|), limit).0| == |mine| && |Page(f + g, Some(|f|), limit).0| == |theirs|;
    assert all == closed + [Line(e, u)];
    if limit <= |closed| {
      var i := |all| - limit;
      var a, b := LineStarts(f, 0, i);
      assert all[..i][i - 1] == Lines(a, 0)[i - 1];
      var c, d := LineStarts(a, 0, i - 1);
      assert closed[|closed| - limit] == all[i - 1];
    }
  }
}
