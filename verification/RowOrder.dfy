/**
 The order in which records are listed, and what taking a prefix of an ordered list means.
 SQL's `ORDER BY TimeMs DESC, id DESC` (nulls last) and the gateway's own sort are one order.
 */
module RowOrder {
  import opened Wrappers
  import opened Text
  import Sorting

  /** A record row together with the shard it was read from. `body` is every other column. */
  datatype Entry = Entry(timeMs: Option<int>, id: int, shard: string, body: string)

  /** `a` is listed before `b`: later time first, then higher id, then higher shard name. */
  predicate Before(a: Entry, b: Entry) {
    if a.timeMs != b.timeMs then
      a.timeMs.Some? && (b.timeMs.None? || a.timeMs.value > b.timeMs.value)
    else a.id > b.id || (a.id == b.id && Less(b.shard, a.shard))
  }

  ghost predicate Descending(s: seq<Entry>) {
    forall i, j :: 0 <= i < j < |s| ==> Before(s[i], s[j])
  }

  /** No two rows share id and shard. */
  ghost predicate DistinctKeys(s: seq<Entry>) {
    forall i, j :: 0 <= i < j < |s| ==> s[i].id != s[j].id || s[i].shard != s[j].shard
  }

  lemma BeforeIsStrict(a: Entry, b: Entry)
    ensures !(Before(a, b) && Before(b, a))
    ensures a.id != b.id || a.shard != b.shard ==> Before(a, b) || Before(b, a)
  {
    LessIsStrictTotal(a.shard, b.shard);
    LessIsStrictTotal(b.shard, a.shard);
  }

  lemma BeforeTransitive(a: Entry, b: Entry, c: Entry)
    requires Before(a, b) && Before(b, c)
    ensures Before(a, c)
  {
    if Less(b.shard, a.shard) && Less(c.shard, b.shard) {
      LessTransitive(c.shard, b.shard, a.shard);
    }
  }

  function Listing(): (Entry, Entry) -> bool {
    (a, b) => Before(a, b)
  }

  function Sort(s: seq<Entry>): seq<Entry> {
    Sorting.Sort(s, Listing())
  }

  lemma SortKeepsRows(s: seq<Entry>)
    ensures multiset(Sort(s)) == multiset(s)
  {
    Sorting.SortKeeps(s, Listing());
  }

  lemma SameRows(s: seq<Entry>, t: seq<Entry>)
    requires multiset(s) == multiset(t)
    ensures |s| == |t| && forall e :: e in s <==> e in t
  {
    assert |s| == |multiset(s)| == |t|;
    forall e ensures e in s <==> e in t {
      assert e in s <==> e in multiset(s);
      assert e in t <==> e in multiset(t);
    }
  }

  lemma {:induction false} InsertOrders(x: Entry, s: seq<Entry>)
    requires Descending(s)
    requires forall e :: e in s ==> e.id != x.id || e.shard != x.shard
    ensures Descending(Sorting.Insert(x, s, Listing()))
  {
    if s == [] {
    } else if Before(x, s[0]) {
      forall j | 0 <= j < |s| ensures Before(x, s[j]) {
        if j > 0 {
          BeforeTransitive(x, s[0], s[j]);
        }
      }
    } else {
      BeforeIsStrict(x, s[0]);
      assert s[0] in s;
      InsertOrders(x, s[1..]);
      var t := Sorting.Insert(x, s[1..], Listing());
      Sorting.InsertKeeps(x, s[1..], Listing());
      forall j | 0 <= j < |t| ensures Before(s[0], t[j]) {
        assert t[j] in multiset(t);
        if t[j] != x {
          assert t[j] in s[1..];
        }
      }
    }
  }

  /** Rows with distinct keys come out in strictly descending order. */
  lemma {:induction false} SortOrders(s: seq<Entry>)
    requires DistinctKeys(s)
    ensures Descending(Sort(s))
    ensures |Sort(s)| == |s| && forall e :: e in Sort(s) <==> e in s
  {
    if s != [] {
      SortOrders(s[1..]);
      InsertOrders(s[0], Sort(s[1..]));
    }
    SortKeepsRows(s);
    SameRows(Sort(s), s);
  }

  function Take<T>(s: seq<T>, n: nat): seq<T> {
    if n <= |s| then s[..n] else s
  }

  /** Only so many rows can come before a row. */
  lemma {:induction false} RankBound(xs: seq<Entry>, idx: nat, earlier: seq<Entry>)
    requires idx < |xs| && Descending(xs) && Descending(earlier)
    requires forall e :: e in earlier ==> e in xs && Before(e, xs[idx])
    ensures |earlier| <= idx
    decreases idx
  {
    if earlier != [] {
      var last := earlier[|earlier| - 1];
      var front := earlier[..|earlier| - 1];
      assert last in earlier;
      var p :| 0 <= p < |xs| && xs[p] == last;
      BeforeIsStrict(last, xs[idx]);
      assert p < idx;
      forall e | e in front ensures e in xs && Before(e, xs[p]) {
        assert e in earlier;
      }
      RankBound(xs, p, front);
    }
  }

  /** A descending list that holds the first rows of a larger one starts with them. */
  lemma {:induction false} SamePrefix(xs: seq<Entry>, ys: seq<Entry>, n: nat)
    requires Descending(xs) && Descending(ys) && n <= |xs|
    requires forall e :: e in ys ==> e in xs
    requires forall k :: 0 <= k < n ==> xs[k] in ys
    ensures n <= |ys| && ys[..n] == xs[..n]
  {
    if n > 0 {
      SamePrefix(xs, ys, n - 1);
      var m :| 0 <= m < |ys| && ys[m] == xs[n - 1];
      assert ys[..n - 1] == xs[..n - 1];
      if m < n - 1 {
        assert ys[m] == ys[..n - 1][m] == xs[m];
        BeforeIsStrict(xs[m], xs[n - 1]);
        assert false;
      }
      if n - 1 < m {
        var e := ys[n - 1];
        assert e in ys;
        var p :| 0 <= p < |xs| && xs[p] == e;
        BeforeIsStrict(e, xs[n - 1]);
        assert p < n - 1;
        assert ys[p] == xs[..n - 1][p] == e;
        BeforeIsStrict(ys[p], ys[n - 1]);
        assert false;
      }
    }
  }

  /** If a list holds only rows of `xs`, and the first `n` of those, their first `n` agree. */
  lemma SameTake(xs: seq<Entry>, ys: seq<Entry>, n: nat)
    requires Descending(xs) && Descending(ys)
    requires forall e :: e in ys ==> e in xs
    requires forall k :: 0 <= k < n && k < |xs| ==> xs[k] in ys
    ensures Take(ys, n) == Take(xs, n)
  {
    var m := if n < |xs| then n else |xs|;
    SamePrefix(xs, ys, m);
    if n > |xs| && |ys| > |xs| {
      assert ys[|xs|] in ys;
      var p :| 0 <= p < |xs| && xs[p] == ys[|xs|];
      assert ys[p] == ys[..m][p] == xs[p];
      BeforeIsStrict(ys[p], ys[|xs|]);
      assert false;
    }
  }

  /** The rows after position `n` are the rows that `xs[n]` comes before. */
  lemma RowsAfter(xs: seq<Entry>, n: nat, e: Entry)
    requires Descending(xs) && n < |xs|
    ensures e in xs[n + 1..] <==> e in xs && Before(xs[n], e)
  {
    BeforeIsStrict(xs[n], e);
    BeforeIsStrict(xs[n], xs[n]);
    if e in xs && Before(xs[n], e) {
      var k :| 0 <= k < |xs| && xs[k] == e;
      assert xs[n + 1..][k - n - 1] == e;
    }
  }
}
