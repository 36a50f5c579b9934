/** Reading a log file backwards, one page of lines at a time. */
module LogPager {
  import opened Bytes
  import opened Wrappers

  const NEWLINE: Byte := 10

  /** A line: where it starts in the file, and its bytes without the newline. */
  datatype Line = Line(at: nat, text: seq<Byte>)

  // ---------------------------------------------------------------- lines of a text

  function FirstNewline(p: seq<Byte>): (n: nat)
    ensures n <= |p| && NEWLINE !in p[..n] && (n < |p| ==> p[n] == NEWLINE)
  {
    if p == [] || p[0] == NEWLINE then 0
    else
      var n := 1 + FirstNewline(p[1..]);
      assert p[..n] == [p[0]] + p[1..][..n - 1];
      n
  }

  /** The lines of `p`, which stands at offset `at`; the last one may lack its newline. */
  function Lines(p: seq<Byte>, at: nat): seq<Line> {
    if p == [] then []
    else
      var n := FirstNewline(p);
      [Line(at, p[..n])] + if n < |p| then Lines(p[n + 1..], at + n + 1) else []
  }

  predicate Closed(p: seq<Byte>) {
    p == [] || p[|p| - 1] == NEWLINE
  }

  function Newlines(p: seq<Byte>): nat {
    if p == [] then 0 else Newlines(p[1..]) + if p[0] == NEWLINE then 1 else 0
  }

  /** The start of the line that is unfinished at the end of `p`. */
  function LastStart(p: seq<Byte>): (e: nat)
    ensures e <= |p| && Closed(p[..e]) && NEWLINE !in p[e..]
  {
    if Closed(p) then |p|
    else
      var q := p[..|p| - 1];
      var e := LastStart(q);
      assert p[..e] == q[..e] && p[e..] == q[e..] + [p[|p| - 1]];
      e
  }

  lemma FirstNewlineIs(p: seq<Byte>, n: nat)
    requires n <= |p| && NEWLINE !in p[..n] && (n < |p| ==> p[n] == NEWLINE)
    ensures FirstNewline(p) == n
  {
    hide FirstNewline;
    var k := FirstNewline(p);
    assert forall i :: 0 <= i < n ==> p[i] in p[..n];
    assert forall i :: 0 <= i < k ==> p[i] in p[..k];
  }

  /** A text is empty, a finished line and a rest, or one unfinished line. */
  lemma FirstLine(p: seq<Byte>) returns (t: seq<Byte>, r: seq<Byte>, finished: bool)
    requires p != []
    ensures NEWLINE !in t
    ensures finished ==> p == t + [NEWLINE] + r && (Closed(p) <==> Closed(r))
    ensures !finished ==> p == t && !Closed(p)
  {
    hide FirstNewline;
    var n := FirstNewline(p);
    t, finished := p[..n], n < |p|;
    r := if finished then p[n + 1..] else [];
    if finished {
      assert p == t + [NEWLINE] + p[n + 1..];
      assert r != [] ==> r[|r| - 1] == p[|p| - 1];
    } else {
      assert p == t && p[|p| - 1] in t;
    }
  }

  lemma LinesOfNothing(at: nat)
    ensures Lines([], at) == []
  {
  }

  lemma LinesOfFinished(t: seq<Byte>, r: seq<Byte>, at: nat)
    requires NEWLINE !in t
    ensures Lines(t + [NEWLINE] + r, at) == [Line(at, t)] + Lines(r, at + |t| + 1)
  {
    hide FirstNewline;
    var p := t + [NEWLINE] + r;
    assert p[..|t|] == t && p[|t| + 1..] == r;
    FirstNewlineIs(p, |t|);
  }

  lemma LinesOfUnfinished(t: seq<Byte>, at: nat)
    requires NEWLINE !in t && t != []
    ensures Lines(t, at) == [Line(at, t)]
  {
    hide FirstNewline;
    assert t[..|t|] == t;
    FirstNewlineIs(t, |t|);
  }

  /** Lines can be counted piece by piece wherever a piece ends with a newline. */
  lemma {:induction false} LinesSplit(a: seq<Byte>, b: seq<Byte>, at: nat)
    requires Closed(a)
    ensures Lines(a + b, at) == Lines(a, at) + Lines(b, at + |a|)
    decreases |a|
  {
    hide Lines;
    LinesOfNothing(at);
    if a == [] {
      assert a + b == b;
    } else {
      var t, r, finished := FirstLine(a);
      LinesOfFinished(t, r, at);
      LinesOfFinished(t, r + b, at);
      assert a + b == t + [NEWLINE] + (r + b);
      LinesSplit(r, b, at + |t| + 1);
    }
  }

  lemma {:induction false} NewlinesSplit(a: seq<Byte>, b: seq<Byte>)
    ensures Newlines(a + b) == Newlines(a) + Newlines(b)
  {
    if a == [] {
      assert a + b == b;
    } else {
      assert (a + b)[1..] == a[1..] + b;
      NewlinesSplit(a[1..], b);
    }
  }

  lemma {:induction false} NoNewlines(p: seq<Byte>)
    ensures Newlines(p) == 0 <==> NEWLINE !in p
  {
    if p != [] {
      NoNewlines(p[1..]);
      assert p == [p[0]] + p[1..];
    }
  }

  lemma NewlinesOfOne()
    ensures Newlines([]) == 0 && Newlines([NEWLINE]) == 1
  {
  }

  lemma {:induction false} LinesCount(p: seq<Byte>, at: nat)
    ensures |Lines(p, at)| == Newlines(p) + if Closed(p) then 0 else 1
    decreases |p|
  {
    hide Lines, Newlines;
    LinesOfNothing(at);
    NewlinesOfOne();
    if p != [] {
      var t, r, finished := FirstLine(p);
      NoNewlines(t);
      if finished {
        LinesOfFinished(t, r, at);
        LinesCount(r, at + |t| + 1);
        NewlinesSplit(t + [NEWLINE], r);
        NewlinesSplit(t, [NEWLINE]);
      } else {
        LinesOfUnfinished(t, at);
      }
    }
  }

  /** Every line starts at `at` or right behind a newline, and cuts the list of lines in two. */
  lemma {:induction false} LineStarts(p: seq<Byte>, at: nat, k: nat) returns (a: seq<Byte>, b: seq<Byte>)
    requires k < |Lines(p, at)|
    ensures p == a + b && Closed(a) && b != []
    ensures Lines(p, at)[k].at == at + |a| && (k == 0 <==> a == [])
    ensures Lines(p, at)[..k] == Lines(a, at) && Lines(p, at)[k..] == Lines(b, at + |a|)
    decreases |p|
  {
    hide Lines;
    LinesOfNothing(at);
    var t, r, finished := FirstLine(p);
    if finished {
      LinesOfFinished(t, r, at);
    } else {
      LinesOfUnfinished(t, at);
    }
    if k == 0 {
      a, b := [], p;
      assert p == a + b;
    } else {
      var at' := at + |t| + 1;
      var c, d := LineStarts(r, at', k - 1);
      a, b := t + [NEWLINE] + c, d;
      assert p == a + b;
      LinesOfFinished(t, c, at);
      assert Lines(p, at)[..k] == [Line(at, t)] + Lines(r, at')[..k - 1];
      assert Lines(p, at)[k..] == Lines(r, at')[k - 1..];
    }
  }

  // ---------------------------------------------------------------- one page

  function TakeLast<T>(xs: seq<T>, n: nat): seq<T> {
    xs[|xs| - Min(n, |xs|)..]
  }

  function Reverse<T>(xs: seq<T>): seq<T> {
    seq(|xs|, i requires 0 <= i < |xs| => xs[|xs| - 1 - i])
  }

  function Texts(lines: seq<Line>): seq<seq<Byte>> {
    seq(|lines|, i requires 0 <= i < |lines| => lines[i].text)
  }

  /** Where the page's newest line ends: a line cut by `before` is left out, one cut by the end of the file is not. */
  function PageEnd(f: seq<Byte>, before: Option<nat>): (e: nat)
    ensures e <= |f|
  {
    var end := if before.Some? then Min(before.value, |f|) else |f|;
    if end < |f| then LastStart(f[..end]) else end
  }

  function PageLines(f: seq<Byte>, before: Option<nat>, limit: nat): seq<Line> {
    TakeLast(Lines(f[..PageEnd(f, before)], 0), limit)
  }

  function NextBefore(chosen: seq<Line>): Option<nat> {
    if chosen == [] || chosen[0].at == 0 then None else Some(chosen[0].at)
  }

  /** The page: the last `limit` lines up to `before`, newest first, and where to go on. */
  function Page(f: seq<Byte>, before: Option<nat>, limit: nat): (seq<seq<Byte>>, Option<nat>) {
    var chosen := PageLines(f, before, limit);
    (Reverse(Texts(chosen)), NextBefore(chosen))
  }

  datatype Seg = Seg(from: nat, to: nat)

  ghost predicate SegsIn(segs: seq<Seg>, buf: seq<Byte>) {
    forall k :: 0 <= k < |segs| ==> segs[k].from <= segs[k].to <= |buf|
  }

  /** The lines that segments of the buffer stand for. */
  ghost function Meant(segs: seq<Seg>, buf: seq<Byte>, start: nat): (r: seq<Line>)
    requires SegsIn(segs, buf)
    ensures |r| == |segs|
  {
    seq(|segs|, k requires 0 <= k < |segs| => Line(start + segs[k].from, buf[segs[k].from..segs[k].to]))
  }

  lemma MeantGrows(segs: seq<Seg>, seg: Seg, buf: seq<Byte>, start: nat)
    requires SegsIn(segs + [seg], buf) && SegsIn(segs, buf) && seg.from <= seg.to <= |buf|
    ensures Meant(segs + [seg], buf, start) == Meant(segs, buf, start) + [Line(start + seg.from, buf[seg.from..seg.to])]
  {
  }

  method Segments(buf: seq<Byte>, ghost start: nat) returns (segs: seq<Seg>, trailing: bool)
    ensures SegsIn(segs, buf) && Meant(segs, buf, start) == Lines(buf, start)
    ensures trailing == !Closed(buf)
  {
    hide Lines, Meant;
    segs := [];
    var segStart := 0;
    assert Meant(segs, buf, start) == [] && buf[0..] == buf;
    for i := 0 to |buf|
      invariant segStart <= i && NEWLINE !in buf[segStart..i] && SegsIn(segs, buf)
      invariant segStart == 0 || buf[segStart - 1] == NEWLINE
      invariant Meant(segs, buf, start) + Lines(buf[segStart..], start + segStart) == Lines(buf, start)
    {
      if buf[i] == NEWLINE {
        var t := buf[segStart..i];
        assert buf[segStart..] == t + [NEWLINE] + buf[i + 1..];
        LinesOfFinished(t, buf[i + 1..], start + segStart);
        MeantGrows(segs, Seg(segStart, i), buf, start);
        segs := segs + [Seg(segStart, i)];
        segStart := i + 1;
      }
    }
    trailing := segStart < |buf|;
    if trailing {
      var t := buf[segStart..];
      assert t == buf[segStart..|buf|] && buf[|buf| - 1] in t;
      LinesOfUnfinished(t, start + segStart);
      MeantGrows(segs, Seg(segStart, |buf|), buf, start);
      segs := segs + [Seg(segStart, |buf|)];
    } else {
      assert buf[segStart..] == [];
      LinesOfNothing(start + segStart);
    }
  }

  method CountNewlines(buf: seq<Byte>) returns (n: nat)
    ensures n == Newlines(buf)
  {
    n := 0;
    for i := 0 to |buf|
      invariant n + Newlines(buf[i..]) == Newlines(buf)
    {
      assert buf[i..][1..] == buf[i + 1..];
      if buf[i] == NEWLINE {
        n := n + 1;
      }
    }
  }

  /** The code's two corrections: a cut line at the front goes, and one cut by `before` at the back. */
  function Corrected<T>(segs: seq<T>, boundary: bool, cutOff: bool): seq<T> {
    var s := if !boundary && segs != [] then segs[1..] else segs;
    if cutOff && s != [] then s[..|s| - 1] else s
  }

  lemma CorrectedIs<T>(segs: seq<T>, boundary: bool, cutOff: bool)
    ensures Corrected(segs, boundary, cutOff) ==
      var s := if !boundary && segs != [] then segs[1..] else segs;
      if cutOff && s != [] then s[..|s| - 1] else s
  {
  }

  lemma CorrectedTwice<T>(segs: seq<T>, boundary: bool, cutOff: bool)
    ensures Corrected(Corrected(segs, boundary, false), true, cutOff) == Corrected(segs, boundary, cutOff)
  {
  }

  lemma MeantSlice(segs: seq<Seg>, buf: seq<Byte>, start: nat, lo: nat, hi: nat)
    requires SegsIn(segs, buf) && lo <= hi <= |segs|
    ensures SegsIn(segs[lo..hi], buf) && Meant(segs[lo..hi], buf, start) == Meant(segs, buf, start)[lo..hi]
  {
  }

  lemma CorrectedMeans(segs: seq<Seg>, buf: seq<Byte>, start: nat, boundary: bool, cutOff: bool)
    requires SegsIn(segs, buf)
    ensures var s := Corrected(segs, boundary, cutOff);
      SegsIn(s, buf) && Meant(s, buf, start) == Corrected(Meant(segs, buf, start), boundary, cutOff)
  {
    hide Meant, SegsIn;
    var n := |segs|;
    var lo := if !boundary && n > 0 then 1 else 0;
    var hi := if cutOff && n > lo then n - 1 else n;
    MeantSlice(segs, buf, start, lo, hi);
    var all := Meant(segs, buf, start);
    assert Corrected(segs, boundary, cutOff) == segs[lo..hi];
    assert Corrected(all, boundary, cutOff) == all[lo..hi];
  }

  /** The front correction leaves the lines from a boundary on. */
  lemma FrontCorrected(f: seq<Byte>, start: nat, end: nat) returns (b: nat)
    requires start <= end <= |f| && (start > 0 ==> NEWLINE in f[start..end])
    ensures start <= b <= end && Closed(f[..b]) && (start == 0 ==> b == 0)
    ensures Lines(f[b..end], b) == Corrected(Lines(f[start..end], start), Closed(f[..start]), false)
    ensures Newlines(f[start..end]) <= Newlines(f[b..end]) + 1
  {
    hide Lines, Newlines;
    var buf := f[start..end];
    b := start;
    if !Closed(f[..start]) {
      var t, r, finished := FirstLine(buf);
      LinesOfFinished(t, r, start);
      b := start + |t| + 1;
      assert f[b..end] == r;
      assert f[b - 1] == buf[|t|] == NEWLINE;
      NewlinesSplit(t + [NEWLINE], r);
      NewlinesSplit(t, [NEWLINE]);
      NoNewlines(t);
      NewlinesOfOne();
    }
  }

  lemma UnfinishedTail(c: seq<Byte>, u: seq<Byte>, at: nat)
    requires Closed(c) && NEWLINE !in u
    ensures Lines(c, at) == Corrected(Lines(c + u, at), true, !Closed(c + u)) && Newlines(c) == Newlines(c + u)
  {
    hide Lines, Newlines;
    NewlinesSplit(c, u);
    NoNewlines(u);
    if u == [] {
      assert c + u == c;
    } else {
      LinesSplit(c, u, at);
      LinesOfUnfinished(u, at + |c|);
      assert (c + u)[|c + u| - 1] == u[|u| - 1] && u[|u| - 1] in u;
    }
  }

  /** The back correction leaves the lines up to where the page ends. */
  lemma BackCorrected(f: seq<Byte>, b: nat, end: nat)
    requires b <= end <= |f| && Closed(f[..b])
    ensures var e := if end < |f| then LastStart(f[..end]) else end;
      b <= e <= end && Newlines(f[b..e]) == Newlines(f[b..end]) &&
      Lines(f[b..e], b) == Corrected(Lines(f[b..end], b), true, end < |f| && !Closed(f[b..end]))
  {
    hide Lines, Newlines, LastStart;
    if end < |f| {
      var e := LastStart(f[..end]);
      TailHasNoStart(f[..end], b, e);
      assert f[..end][..e] == f[..e] && f[..end][e..] == f[e..end] && f[..end][..b] == f[..b];
      assert f[b..end] == f[b..e] + f[e..end];
      assert e > b ==> f[b..e][|f[b..e]| - 1] == f[..e][e - 1];
      hide Closed, Corrected;
      UnfinishedTail(f[b..e], f[e..end], b);
    }
  }

  lemma TailHasNoStart(p: seq<Byte>, b: nat, e: nat)
    requires b <= |p| && e <= |p| && Closed(p[..b]) && NEWLINE !in p[e..]
    ensures b <= e
  {
    assert forall i :: e <= i < |p| ==> p[i] in p[e..];
  }

  lemma ClosedTails(f: seq<Byte>, start: nat, b: nat, end: nat)
    requires start <= b <= end <= |f| && Closed(f[..b])
    ensures Closed(f[b..end]) <==> Closed(f[start..end])
  {
  }

  /** A buffer that reaches the start of the file or holds more than `limit` newlines is enough. */
  lemma BufferIsEnough(f: seq<Byte>, before: Option<nat>, limit: nat, start: nat, end: nat)
    requires end == (if before.Some? then Min(before.value, |f|) else |f|)
    requires start <= end && (start == 0 || Newlines(f[start..end]) > limit)
    ensures var buf := f[start..end];
      TakeLast(Corrected(Lines(buf, start), Closed(f[..start]), end < |f| && !Closed(buf)), limit) ==
        PageLines(f, before, limit)
  {
    hide Lines, Newlines, Corrected, TakeLast, Closed, LastStart;
    var buf := f[start..end];
    NoNewlines(buf);
    var b := FrontCorrected(f, start, end);
    BackCorrected(f, b, end);
    ClosedTails(f, start, b, end);
    CorrectedTwice(Lines(buf, start), Closed(f[..start]), end < |f| && !Closed(buf));
    EnoughLines(f, b, PageEnd(f, before), limit);
  }

  /** From a boundary on with at least `limit` newlines, or from the start, the last lines are all there. */
  lemma EnoughLines(f: seq<Byte>, b: nat, e: nat, limit: nat)
    requires b <= e <= |f| && Closed(f[..b]) && (b == 0 || Newlines(f[b..e]) >= limit)
    ensures TakeLast(Lines(f[b..e], b), limit) == TakeLast(Lines(f[..e], 0), limit)
  {
    hide Lines, Newlines;
    LinesSplit(f[..b], f[b..e], 0);
    assert f[..e] == f[..b] + f[b..e];
    LinesCount(f[b..e], b);
    LinesOfNothing(0);
    if b == 0 {
      assert f[..b] == [];
    }
  }

  /** The segments that are kept stand for the page. */
  lemma SegsArePage(f: seq<Byte>, before: Option<nat>, limit: nat, start: nat, end: nat, segs: seq<Seg>, kept: seq<Seg>)
    requires end == (if before.Some? then Min(before.value, |f|) else |f|)
    requires start <= end && (start == 0 || Newlines(f[start..end]) > limit)
    requires SegsIn(segs, f[start..end]) && Meant(segs, f[start..end], start) == Lines(f[start..end], start)
    requires kept == Corrected(segs, Closed(f[..start]), end < |f| && !Closed(f[start..end]))
    ensures var chosen := kept[|kept| - Min(limit, |kept|)..];
      SegsIn(chosen, f[start..end]) && Meant(chosen, f[start..end], start) == PageLines(f, before, limit)
  {
    hide Lines, Newlines, Corrected, PageLines, Meant, Closed, SegsIn;
    var buf := f[start..end];
    var boundary, cutOff := Closed(f[..start]), end < |f| && !Closed(buf);
    BufferIsEnough(f, before, limit, start, end);
    CorrectedMeans(segs, buf, start, boundary, cutOff);
    var take := Min(limit, |kept|);
    MeantSlice(kept, buf, start, |kept| - take, |kept|);
    assert kept[|kept| - take..] == kept[|kept| - take..|kept|];
    var means := Meant(kept, buf, start);
    assert means[|kept| - take..] == means[|kept| - take..|kept|];
    assert TakeLast(means, limit) == means[|kept| - take..];
  }

  /** Walk back in chunks until the file starts or more than `limit` newlines are in the buffer. */
  method ReadBack(f: seq<Byte>, end: nat, limit: nat, chunkBytes: nat) returns (start: nat, buf: seq<Byte>)
    requires chunkBytes >= 1 && end <= |f|
    ensures start <= end && buf == f[start..end] && (start == 0 || Newlines(buf) > limit)
  {
    hide Newlines;
    start, buf := end, [];
    while start > 0
      invariant start <= end && buf == f[start..end]
    {
      var from := start - Min(chunkBytes, start);
      assert f[from..end] == f[from..start] + f[start..end];
      buf := f[from..start] + buf;
      start := from;
      var n := CountNewlines(buf);
      if n > limit {
        break;
      }
    }
  }

  /** Any chunk size gives the page. */
  method ReadTailLines(f: seq<Byte>, before: Option<nat>, limit: nat, chunkBytes: nat)
    returns (lines: seq<seq<Byte>>, next: Option<nat>)
    requires chunkBytes >= 1
    ensures (lines, next) == Page(f, before, limit)
  {
    hide Lines, Newlines, Corrected, PageLines, Texts, Reverse, SegsIn, Meant;
    var end: nat := if before.Some? then Min(before.value, |f|) else |f|;
    var start, buf := ReadBack(f, end, limit, chunkBytes);
    var boundary := start == 0 || f[start - 1] == NEWLINE;
    assert boundary == Closed(f[..start]);
    var segs, trailing := Segments(buf, start);
    ghost var all := segs;
    if !boundary && segs != [] {
      segs := segs[1..];
    }
    if trailing && end < |f| && segs != [] {
      segs := segs[..|segs| - 1];
    }
    CorrectedIs(all, boundary, trailing && end < |f|);
    SegsArePage(f, before, limit, start, end, all, segs);
    var take := Min(limit, |segs|);
    var chosen := segs[|segs| - take..];
    lines := LineTexts(buf, chosen, start);
    next := if chosen == [] || start + chosen[0].from == 0 then None else Some(start + chosen[0].from);
    NextIs(chosen, buf, start);
  }

  lemma NextIs(chosen: seq<Seg>, buf: seq<Byte>, start: nat)
    requires SegsIn(chosen, buf)
    ensures NextBefore(Meant(chosen, buf, start)) ==
      if chosen == [] || start + chosen[0].from == 0 then None else Some(start + chosen[0].from)
  {
  }

  method LineTexts(buf: seq<Byte>, segs: seq<Seg>, ghost start: nat) returns (lines: seq<seq<Byte>>)
    requires SegsIn(segs, buf)
    ensures lines == Reverse(Texts(Meant(segs, buf, start)))
  {
    lines := [];
    for i := 0 to |segs|
      invariant |lines| == i && forall k :: 0 <= k < i ==> lines[k] == buf[segs[i - 1 - k].from..segs[i - 1 - k].to]
    {
      lines := [buf[segs[i].from..segs[i].to]] + lines;
    }
  }
}
