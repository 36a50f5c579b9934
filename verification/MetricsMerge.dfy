/** Merging the per-shard group results: saturating sums and maxima, in whatever order shards answer. */
module MetricsMerge {
  import opened Numbers

  datatype MetricName =
    | Requests | Success | Errors | PromptTokens | CompletionTokens | TotalTokens
    | LatencySum | LatencyCount | MaxLatency | TtftSum | TtftCount
    | AvgLatency | AvgTtft | SuccessRate | ErrorRate

  datatype MetricValue = Integer(i: int) | Real(r: real)

  type Metrics = map<MetricName, MetricValue>

  type GroupRows = map<string, Metrics>

  /** `combine`; the metric whitelist fixes each metric's type, so mixed arguments do not occur. */
  function Combine(a: MetricValue, b: MetricValue, maximum: bool): MetricValue {
    match (a, b)
    case (Integer(x), Integer(y)) => Integer(if maximum then (if x < y then y else x) else SaturatingAdd(x, y))
    case (Real(x), Real(y)) => Real(if maximum then (if x < y then y else x) else x + y)
    case _ => a
  }

  function MergeMetrics(a: Metrics, b: Metrics, metrics: set<MetricName>): Metrics {
    map m | m in a.Keys + (b.Keys * metrics) ::
      if m in b && m in metrics then (if m in a then Combine(a[m], b[m], m.MaxLatency?) else b[m]) else a[m]
  }

  function MetricsOf(g: GroupRows, name: string): Metrics {
    if name in g then g[name] else map[]
  }

  function MergeGroups(merged: GroupRows, groups: GroupRows, metrics: set<MetricName>): GroupRows {
    map name | name in merged.Keys + groups.Keys ::
      MergeMetrics(MetricsOf(merged, name), MetricsOf(groups, name), metrics)
  }

  /** One group's metrics folded into its entry, metric by metric. */
  method MergeEntry(before: Metrics, values: Metrics, metrics: set<MetricName>) returns (entry: Metrics)
    ensures entry == MergeMetrics(before, values, metrics)
  {
    hide Combine;
    entry := before;
    var todo := metrics;
    ghost var done: set<MetricName> := {};
    MergeNoMetrics(before, values);
    while todo != {}
      invariant done + todo == metrics && done !! todo
      invariant entry == MergeMetrics(before, values, done)
      decreases todo
    {
      var m :| m in todo;
      MergeOneMetric(before, values, done, m);
      if m in values {
        entry := entry[m := if m in entry then Combine(entry[m], values[m], m.MaxLatency?) else values[m]];
      }
      todo := todo - {m};
      done := done + {m};
    }
    assert done == metrics;
  }

  lemma MergeNoMetrics(before: Metrics, values: Metrics)
    ensures MergeMetrics(before, values, {}) == before
  {
  }

  lemma MergeOneMetric(before: Metrics, values: Metrics, done: set<MetricName>, m: MetricName)
    requires m !in done
    ensures var e := MergeMetrics(before, values, done);
      MergeMetrics(before, values, done + {m}) ==
        if m in values then e[m := if m in e then Combine(e[m], values[m], m.MaxLatency?) else values[m]] else e
  {
    hide Combine;
  }

  /** The loop over groups that updates the merged map in place. */
  method MergeInto(merged: GroupRows, groups: GroupRows, metrics: set<MetricName>) returns (r: GroupRows)
    ensures r == MergeGroups(merged, groups, metrics)
  {
    hide MergeMetrics;
    r := merged;
    var names := groups.Keys;
    ghost var done: set<string> := {};
    while names != {}
      invariant names + done == groups.Keys && names !! done
      invariant r == map name | name in merged.Keys + done ::
        if name in done then MergeMetrics(MetricsOf(merged, name), groups[name], metrics) else merged[name]
      decreases names
    {
      var name :| name in names;
      var entry := MergeEntry(MetricsOf(r, name), groups[name], metrics);
      r := r[name := entry];
      names := names - {name};
      done := done + {name};
    }
    assert done == groups.Keys;
    forall name ensures MergeMetrics(MetricsOf(merged, name), map[], metrics) == MetricsOf(merged, name) {
      MergeNothing(MetricsOf(merged, name), metrics);
    }
  }

  lemma MergeNothing(entry: Metrics, metrics: set<MetricName>)
    ensures MergeMetrics(entry, map[], metrics) == entry
  {
  }

  // ---------------------------------------------------------------- the order of shards

  predicate IsReal(m: MetricName) {
    m.LatencySum? || m.MaxLatency? || m.TtftSum?
  }

  /** Values of the type their metric has, counters non-negative and in range. */
  ghost predicate Typed(v: Metrics, metrics: set<MetricName>) {
    v.Keys <= metrics &&
    forall m :: m in v ==> if IsReal(m) then v[m].Real? else v[m].Integer? && 0 <= v[m].i <= I64_MAX
  }

  ghost predicate Good(g: GroupRows, metrics: set<MetricName>) {
    forall name :: name in g ==> Typed(g[name], metrics)
  }

  lemma CombineCommutes(a: MetricValue, b: MetricValue, maximum: bool)
    requires a.Real? == b.Real?
    ensures Combine(a, b, maximum) == Combine(b, a, maximum)
  {
  }

  lemma CombineAssociates(a: MetricValue, b: MetricValue, c: MetricValue, maximum: bool)
    requires a.Real? == b.Real? == c.Real?
    requires a.Integer? ==> 0 <= a.i && 0 <= b.i && 0 <= c.i
    ensures Combine(Combine(a, b, maximum), c, maximum) == Combine(a, Combine(b, c, maximum), maximum)
  {
  }

  lemma CombineKeepsType(a: MetricValue, b: MetricValue, maximum: bool)
    requires a.Real? == b.Real?
    requires a.Integer? ==> 0 <= a.i <= I64_MAX && 0 <= b.i <= I64_MAX
    ensures Combine(a, b, maximum).Real? == a.Real?
    ensures a.Integer? ==> 0 <= Combine(a, b, maximum).i <= I64_MAX
  {
  }

  lemma MetricsCommute(x: Metrics, y: Metrics, metrics: set<MetricName>)
    requires Typed(x, metrics) && Typed(y, metrics)
    ensures MergeMetrics(x, y, metrics) == MergeMetrics(y, x, metrics)
    ensures Typed(MergeMetrics(x, y, metrics), metrics)
  {
    hide Combine;
    forall m | m in x && m in y
      ensures Combine(x[m], y[m], m.MaxLatency?) == Combine(y[m], x[m], m.MaxLatency?)
      ensures if IsReal(m) then Combine(x[m], y[m], m.MaxLatency?).Real?
        else Combine(x[m], y[m], m.MaxLatency?).Integer? && 0 <= Combine(x[m], y[m], m.MaxLatency?).i <= I64_MAX
    {
      CombineCommutes(x[m], y[m], m.MaxLatency?);
      CombineKeepsType(x[m], y[m], m.MaxLatency?);
    }
  }

  lemma MetricsAssociate(x: Metrics, y: Metrics, z: Metrics, metrics: set<MetricName>)
    requires Typed(x, metrics) && Typed(y, metrics) && Typed(z, metrics)
    ensures MergeMetrics(MergeMetrics(x, y, metrics), z, metrics) ==
      MergeMetrics(x, MergeMetrics(y, z, metrics), metrics)
  {
    hide Combine;
    forall m | m in x && m in y && m in z {
      CombineAssociates(x[m], y[m], z[m], m.MaxLatency?);
    }
  }

  lemma GroupOfMerge(a: GroupRows, b: GroupRows, metrics: set<MetricName>, name: string)
    ensures MetricsOf(MergeGroups(a, b, metrics), name) == MergeMetrics(MetricsOf(a, name), MetricsOf(b, name), metrics)
  {
    MergeNothing(map[], metrics);
    hide MergeMetrics;
  }

  lemma MergeCommutes(a: GroupRows, b: GroupRows, metrics: set<MetricName>)
    requires Good(a, metrics) && Good(b, metrics)
    ensures MergeGroups(a, b, metrics) == MergeGroups(b, a, metrics)
    ensures Good(MergeGroups(a, b, metrics), metrics)
  {
    hide MergeMetrics, Typed;
    NothingIsTyped(metrics);
    forall name {
      MetricsCommute(MetricsOf(a, name), MetricsOf(b, name), metrics);
    }
  }

  lemma NothingIsTyped(metrics: set<MetricName>)
    ensures Typed(map[], metrics)
  {
  }

  lemma GroupsOfThree(a: GroupRows, b: GroupRows, c: GroupRows, metrics: set<MetricName>)
    ensures MergeGroups(MergeGroups(a, b, metrics), c, metrics).Keys ==
      MergeGroups(a, MergeGroups(b, c, metrics), metrics).Keys
  {
    hide MergeMetrics;
  }

  lemma MergeAssociates(a: GroupRows, b: GroupRows, c: GroupRows, metrics: set<MetricName>)
    requires Good(a, metrics) && Good(b, metrics) && Good(c, metrics)
    ensures MergeGroups(MergeGroups(a, b, metrics), c, metrics) == MergeGroups(a, MergeGroups(b, c, metrics), metrics)
  {
    hide MergeMetrics, Typed, MergeGroups;
    var ab, bc := MergeGroups(a, b, metrics), MergeGroups(b, c, metrics);
    var x, y := MergeGroups(ab, c, metrics), MergeGroups(a, bc, metrics);
    NothingIsTyped(metrics);
    GroupsOfThree(a, b, c, metrics);
    forall name | name in x ensures x[name] == y[name] {
      assert name in y.Keys;
      GroupOfMerge(a, b, metrics, name);
      GroupOfMerge(b, c, metrics, name);
      GroupOfMerge(ab, c, metrics, name);
      GroupOfMerge(a, bc, metrics, name);
      MetricsAssociate(MetricsOf(a, name), MetricsOf(b, name), MetricsOf(c, name), metrics);
    }
  }

  /** What the engine returns after merging the shards' answers one after another. */
  function MergeAll(shards: seq<GroupRows>, metrics: set<MetricName>): GroupRows {
    if shards == [] then map[]
    else MergeGroups(MergeAll(shards[..|shards| - 1], metrics), shards[|shards| - 1], metrics)
  }

  ghost predicate AllGood(shards: seq<GroupRows>, metrics: set<MetricName>) {
    forall g :: g in shards ==> Good(g, metrics)
  }

  lemma {:induction false} MergeAllIsGood(shards: seq<GroupRows>, metrics: set<MetricName>)
    requires AllGood(shards, metrics)
    ensures Good(MergeAll(shards, metrics), metrics)
  {
    hide MergeGroups, Typed;
    if shards != [] {
      MergeAllIsGood(shards[..|shards| - 1], metrics);
      MergeCommutes(MergeAll(shards[..|shards| - 1], metrics), shards[|shards| - 1], metrics);
    }
  }

  /** Any one answer may be merged last. */
  lemma {:induction false} MergeLast(shards: seq<GroupRows>, i: nat, metrics: set<MetricName>)
    requires AllGood(shards, metrics) && i < |shards|
    ensures MergeAll(shards, metrics) ==
      MergeGroups(MergeAll(shards[..i] + shards[i + 1..], metrics), shards[i], metrics)
    decreases |shards|
  {
    hide MergeGroups, Good;
    var n := |shards| - 1;
    if i == n {
      assert shards[..i] + shards[i + 1..] == shards[..n];
    } else {
      var front := shards[..n];
      var others := shards[..i] + shards[i + 1..];
      var rest := front[..i] + front[i + 1..];
      MergeLast(front, i, metrics);
      assert others[..|others| - 1] == rest && others[|others| - 1] == shards[n];
      MergeAllIsGood(rest, metrics);
      MergeAssociates(MergeAll(rest, metrics), shards[i], shards[n], metrics);
      MergeAssociates(MergeAll(rest, metrics), shards[n], shards[i], metrics);
      MergeCommutes(shards[i], shards[n], metrics);
    }
  }

  lemma SameWithoutOne<T>(front: seq<T>, pre: seq<T>, post: seq<T>, x: T)
    requires multiset(front + [x]) == multiset(pre + [x] + post)
    ensures multiset(front) == multiset(pre + post)
  {
    var m, p, q := multiset(front), multiset(pre), multiset(post);
    assert multiset(front + [x]) == m + multiset{x};
    assert multiset(pre + [x] + post) == p + multiset{x} + q;
    forall e ensures m[e] == p[e] + q[e] {
      assert (m + multiset{x})[e] == (p + multiset{x} + q)[e];
    }
    assert multiset(pre + post) == p + q == m;
  }

  /** The merged answer does not depend on the order in which the shards are merged. */
  lemma {:induction false} MergeOrderIsInvisible(a: seq<GroupRows>, b: seq<GroupRows>, metrics: set<MetricName>)
    requires AllGood(a, metrics) && multiset(a) == multiset(b)
    ensures MergeAll(a, metrics) == MergeAll(b, metrics)
    decreases |a|
  {
    hide MergeGroups, Good;
    if a == [] {
      assert |b| == |multiset(b)| == 0;
    } else {
      var n := |a| - 1;
      var last := a[n];
      assert a == a[..n] + [last];
      assert last in multiset(b);
      var i :| 0 <= i < |b| && b[i] == last;
      var rest := b[..i] + b[i + 1..];
      assert b == b[..i] + [last] + b[i + 1..];
      SameWithoutOne(a[..n], b[..i], b[i + 1..], last);
      forall g | g in b ensures Good(g, metrics) {
        assert g in multiset(b);
        assert g in multiset(a);
      }
      MergeLast(b, i, metrics);
      MergeOrderIsInvisible(a[..n], rest, metrics);
    }
  }
}
