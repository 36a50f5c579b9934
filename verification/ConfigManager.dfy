/**
 Hot reload of the configuration: any number of reload tasks (inotify events and poll ticks)
 race through stat, check, load and commit while other processes rewrite the file.
 */
module ConfigManager {
  import opened Wrappers

  type Fingerprint = int

  /** A parsed and validated configuration; its content does not matter here. */
  type Config = string

  /** One state of the file: its (mtime, size) and what loading it gives, `None` if it is rejected. */
  datatype Version = Version(fingerprint: Fingerprint, content: Option<Config>)

  const GENERATIONS: int := 0x1_0000_0000_0000_0000

  /** The two locks' contents. */
  datatype Shared = Shared(config: Config, generation: int, applied: Fingerprint)

  /** The section under both write locks. */
  function Committed(s: Shared, fingerprint: Fingerprint, config: Config): Shared {
    if s.applied == fingerprint then s
    else Shared(config, (s.generation + 1) % GENERATIONS, fingerprint)
  }

  /** A whole reload with nothing in between. */
  function Reloaded(s: Shared, stat: Option<Fingerprint>, load: Option<Config>): Shared {
    if stat.None? || s.applied == stat.value || load.None? then s else Committed(s, stat.value, load.value)
  }

  class ConfigManager {
    var config: Config
    var generation: int
    var lastApplied: Fingerprint

    function View(): Shared
      reads this
    {
      Shared(config, generation, lastApplied)
    }

    /** `new`: the configuration is loaded first, the fingerprint taken afterwards. */
    constructor (loaded: Config, stat: Option<Fingerprint>, epoch: Fingerprint)
      ensures View() == Shared(loaded, 1, if stat.Some? then stat.value else epoch)
    {
      config, generation := loaded, 1;
      lastApplied := if stat.Some? then stat.value else epoch;
    }

    method Commit(fingerprint: Fingerprint, newConfig: Config)
      modifies this
      ensures View() == Committed(old(View()), fingerprint, newConfig)
    {
      if lastApplied == fingerprint {
        return;
      }
      generation := (generation + 1) % GENERATIONS;
      config := newConfig;
      lastApplied := fingerprint;
    }

    /**
     `reload_if_changed` when no other task runs: `stat` and `load` are what the file system
     answers. A failing one changes nothing; and whatever they answer, the effect is that of the
     task's own steps, run alone.
     */
    method ReloadIfChanged(stat: Option<Fingerprint>, load: Option<Config>)
      modifies this
      ensures View() == Reloaded(old(View()), stat, load)
      ensures stat.None? || load.None? ==>
        config == old(config) && generation == old(generation) && lastApplied == old(lastApplied)
      ensures forall w: World, t: nat :: Answers(w, t, stat, load) && w.shared == old(View()) ==>
        RunsAlone(w, t, stat, load, View())
    {
      ghost var s := View();
      forall w: World, t: nat | Answers(w, t, stat, load) && w.shared == s
        ensures RunsAlone(w, t, stat, load, Reloaded(s, stat, load))
      {
        var worlds := ReloadIsARun(w, t, stat, load);
      }
      hide Answers, RunsAlone;
      if stat.None? {
        return;
      }
      if lastApplied == stat.value {
        return;
      }
      if load.Some? {
        Commit(stat.value, load.value);
      }
    }
  }

  // ---------------------------------------------------------------- interleavings

  /** Where a reload task stands, with what it remembers. */
  datatype Task =
    | Idle
    | Statted(fingerprint: Fingerprint)
    | Passed(fingerprint: Fingerprint)
    | Loaded(fingerprint: Fingerprint, config: Config)

  /** `history` is every state of the file so far, the present one last. */
  datatype World = World(history: seq<Version>, shared: Shared, tasks: map<nat, Task>, swaps: nat)

  function Disk(w: World): Version
    requires w.history != []
  {
    w.history[|w.history| - 1]
  }

  function TaskOf(w: World, t: nat): Task {
    if t in w.tasks then w.tasks[t] else Idle
  }

  datatype Action =
    | Write(version: Version)
    | Stat(task: nat)
    | Check(task: nat)
    | Load(task: nat)
    | Abandon(task: nat)
    | Commit(task: nat)

  /** One atomic step. A task may abandon at any point: stat or load can fail, whatever the file holds. */
  ghost predicate Next(w: World, a: Action, w': World)
    requires w.history != []
  {
    match a
    case Write(v) => w' == w.(history := w.history + [v])
    case Stat(t) => TaskOf(w, t).Idle? && w' == w.(tasks := w.tasks[t := Statted(Disk(w).fingerprint)])
    case Check(t) =>
      TaskOf(w, t).Statted? &&
      var f := TaskOf(w, t).fingerprint;
      w' == w.(tasks := w.tasks[t := if w.shared.applied == f then Idle else Passed(f)])
    case Load(t) =>
      TaskOf(w, t).Passed? &&
      w' == w.(tasks := w.tasks[t := match Disk(w).content
                                     case Some(c) => Loaded(TaskOf(w, t).fingerprint, c)
                                     case None => Idle])
    case Abandon(t) => w' == w.(tasks := w.tasks[t := Idle])
    case Commit(t) =>
      TaskOf(w, t).Loaded? &&
      var l := TaskOf(w, t);
      w' == w.(tasks := w.tasks[t := Idle], shared := Committed(w.shared, l.fingerprint, l.config),
               swaps := if w.shared.applied == l.fingerprint then w.swaps else w.swaps + 1)
  }

  /** Every version has a fingerprint of its own, and none has the start-up placeholder. */
  ghost predicate Distinct(history: seq<Version>, epoch: Fingerprint) {
    (forall i, j :: 0 <= i < j < |history| ==> history[i].fingerprint != history[j].fingerprint) &&
    forall i :: 0 <= i < |history| ==> history[i].fingerprint != epoch
  }

  /** The configuration is at least as new as the version the fingerprint names. */
  ghost predicate NoOlder(history: seq<Version>, fingerprint: Fingerprint, config: Config) {
    exists v, u ::
      0 <= v <= u < |history| && history[v].fingerprint == fingerprint && history[u].content == Some(config)
  }

  ghost predicate Inv(w: World, epoch: Fingerprint) {
    w.history != [] && Distinct(w.history, epoch) &&
    (w.shared.applied == epoch || NoOlder(w.history, w.shared.applied, w.shared.config)) &&
    w.shared.generation == (1 + w.swaps) % GENERATIONS &&
    forall t :: t in w.tasks ==>
      match w.tasks[t]
      case Idle => true
      case Statted(f) => exists v :: 0 <= v < |w.history| && w.history[v].fingerprint == f
      case Passed(f) => exists v :: 0 <= v < |w.history| && w.history[v].fingerprint == f
      case Loaded(f, c) => NoOlder(w.history, f, c)
  }

  lemma HistoryGrows(history: seq<Version>, v: Version, f: Fingerprint, c: Config)
    requires NoOlder(history, f, c)
    ensures NoOlder(history + [v], f, c)
  {
    var i, j :| 0 <= i <= j < |history| && history[i].fingerprint == f && history[j].content == Some(c);
    var h := history + [v];
    assert h[i].fingerprint == f && h[j].content == Some(c);
  }

  /** Every step of every interleaving keeps the invariant, as long as fingerprints stay distinct. */
  lemma StepKeepsInv(w: World, a: Action, w': World, epoch: Fingerprint)
    requires Inv(w, epoch) && Next(w, a, w') && Distinct(w'.history, epoch)
    ensures Inv(w', epoch)
  {
    match a
    case Write(v) =>
      forall f, c | NoOlder(w.history, f, c) ensures NoOlder(w'.history, f, c) {
        HistoryGrows(w.history, v, f, c);
      }
      assert forall i :: 0 <= i < |w.history| ==> w'.history[i] == w.history[i];
    case Stat(t) =>
      assert w'.history[|w.history| - 1].fingerprint == Disk(w).fingerprint;
    case Check(t) =>
    case Load(t) =>
      if Disk(w).content.Some? {
        var f := TaskOf(w, t).fingerprint;
        var v :| 0 <= v < |w.history| && w.history[v].fingerprint == f;
        var u := |w.history| - 1;
        assert w.history[u].content == Some(Disk(w).content.value);
        assert NoOlder(w'.history, f, Disk(w).content.value);
      }
    case Abandon(t) =>
    case Commit(t) =>
  }

  /** A run: the worlds it visits, and the actions between them. */
  ghost predicate IsRun(worlds: seq<World>, actions: seq<Action>) {
    |worlds| == |actions| + 1 &&
    forall i :: 0 <= i < |actions| ==>
      worlds[i].history != [] && Next(worlds[i], actions[i], worlds[i + 1])
  }

  /** What the watcher starts from when the file did not change between the load and the stat. */
  ghost predicate CleanStart(w: World, epoch: Fingerprint) {
    w.history != [] && Distinct(w.history, epoch) && w.tasks == map[] && w.swaps == 0 &&
    Disk(w).content == Some(w.shared.config) && w.shared.generation == 1 &&
    (w.shared.applied == Disk(w).fingerprint || w.shared.applied == epoch)
  }

  lemma RunKeepsInv(worlds: seq<World>, actions: seq<Action>, epoch: Fingerprint)
    requires IsRun(worlds, actions) && CleanStart(worlds[0], epoch)
    requires forall i :: 0 <= i < |worlds| ==> Distinct(worlds[i].history, epoch)
    ensures forall i :: 0 <= i < |worlds| ==> Inv(worlds[i], epoch)
  {
    hide Next, Distinct, Inv;
    CleanStartHolds(worlds[0], epoch);
    for n := 0 to |actions|
      invariant forall i :: 0 <= i <= n ==> Inv(worlds[i], epoch)
    {
      StepKeepsInv(worlds[n], actions[n], worlds[n + 1], epoch);
    }
  }

  lemma CleanStartHolds(w: World, epoch: Fingerprint)
    requires CleanStart(w, epoch)
    ensures Inv(w, epoch)
  {
    var n := |w.history| - 1;
    assert w.shared.applied != epoch ==>
      w.history[n].fingerprint == w.shared.applied && w.history[n].content == Some(w.shared.config);
  }

  /**
   Main result, in every reachable world: if the applied fingerprint is the file's, the live
   configuration is the file's, so the fast path never hides a change; and the generation
   counts the swaps.
   */
  lemma FastPathHidesNothing(worlds: seq<World>, actions: seq<Action>, epoch: Fingerprint, i: nat)
    requires IsRun(worlds, actions) && CleanStart(worlds[0], epoch) && i < |worlds|
    requires forall j :: 0 <= j < |worlds| ==> Distinct(worlds[j].history, epoch)
    ensures worlds[i].history != []
    ensures worlds[i].shared.applied == Disk(worlds[i]).fingerprint ==>
      Disk(worlds[i]).content == Some(worlds[i].shared.config)
    ensures worlds[i].shared.generation == (1 + worlds[i].swaps) % GENERATIONS
  {
    hide Next;
    RunKeepsInv(worlds, actions, epoch);
    assert Inv(worlds[i], epoch);
  }

  /** The task is idle, and `stat` and `load` show the file as it is where they do not fail. */
  ghost predicate Answers(w: World, t: nat, stat: Option<Fingerprint>, load: Option<Config>) {
    w.history != [] && TaskOf(w, t).Idle? && (stat.Some? ==> stat.value == Disk(w).fingerprint) &&
    (load.Some? ==> load == Disk(w).content)
  }

  /** What a task does from its stat on: it gives up where one of the two fails, or finds nothing new. */
  function StepsAlone(w: World, t: nat, stat: Option<Fingerprint>, load: Option<Config>): seq<Action> {
    if stat.None? then [Abandon(t)]
    else if w.shared.applied == stat.value then [Stat(t), Check(t)]
    else if load.None? then [Stat(t), Check(t), Abandon(t)]
    else [Stat(t), Check(t), Load(t), Action.Commit(t)]
  }

  /** These steps, one after the other, lead to `shared`; the file and the other tasks stay as they are. */
  ghost predicate IsAlone(worlds: seq<World>, w: World, t: nat, stat: Option<Fingerprint>, load: Option<Config>,
                          shared: Shared) {
    var steps := StepsAlone(w, t, stat, load);
    IsRun(worlds, steps) && worlds[0] == w && worlds[|steps|].shared == shared &&
    worlds[|steps|].history == w.history && worlds[|steps|].tasks == w.tasks[t := Idle]
  }

  ghost predicate RunsAlone(w: World, t: nat, stat: Option<Fingerprint>, load: Option<Config>, shared: Shared) {
    exists worlds :: IsAlone(worlds, w, t, stat, load, shared)
  }

  /** A reload with nothing in between is the run of one idle task under `Next`. */
  lemma ReloadIsARun(w: World, t: nat, stat: Option<Fingerprint>, load: Option<Config>) returns (worlds: seq<World>)
    requires Answers(w, t, stat, load)
    ensures IsAlone(worlds, w, t, stat, load, Reloaded(w.shared, stat, load))
  {
    hide Next;
    var f := Disk(w).fingerprint;
    var statted, passed := w.(tasks := w.tasks[t := Statted(f)]), w.(tasks := w.tasks[t := Passed(f)]);
    var idle := w.(tasks := w.tasks[t := Idle]);
    StepsOfATask(w, t, statted, passed, idle);
    if stat.None? {
      worlds := [w, idle];
    } else if w.shared.applied == f {
      worlds := [w, statted, idle];
    } else if load.None? {
      worlds := [w, statted, passed, idle];
    } else {
      var loaded := w.(tasks := w.tasks[t := Loaded(f, load.value)]);
      var done := idle.(shared := Committed(w.shared, f, load.value), swaps := w.swaps + 1);
      LoadAndCommit(w, t, passed, loaded, done);
      worlds := [w, statted, passed, loaded, done];
    }
  }

  lemma StepsOfATask(w: World, t: nat, statted: World, passed: World, idle: World)
    requires w.history != [] && TaskOf(w, t).Idle?
    requires var f := Disk(w).fingerprint;
      statted == w.(tasks := w.tasks[t := Statted(f)]) && passed == w.(tasks := w.tasks[t := Passed(f)])
    requires idle == w.(tasks := w.tasks[t := Idle])
    ensures Next(w, Stat(t), statted) && Next(w, Abandon(t), idle) && Next(passed, Abandon(t), idle)
    ensures Next(statted, Check(t), if w.shared.applied == Disk(w).fingerprint then idle else passed)
  {
    assert statted.tasks[t := Idle] == idle.tasks && passed.tasks[t := Idle] == idle.tasks;
    assert statted.tasks[t := Passed(Disk(w).fingerprint)] == passed.tasks;
  }

  lemma LoadAndCommit(w: World, t: nat, passed: World, loaded: World, done: World)
    requires w.history != [] && Disk(w).content.Some? && w.shared.applied != Disk(w).fingerprint
    requires var f, c := Disk(w).fingerprint, Disk(w).content.value;
      passed == w.(tasks := w.tasks[t := Passed(f)]) && loaded == w.(tasks := w.tasks[t := Loaded(f, c)]) &&
      done == w.(tasks := w.tasks[t := Idle], shared := Committed(w.shared, f, c), swaps := w.swaps + 1)
    ensures Next(passed, Load(t), loaded) && Next(loaded, Action.Commit(t), done)
  {
    assert passed.tasks[t := Loaded(Disk(w).fingerprint, Disk(w).content.value)] == loaded.tasks;
    assert loaded.tasks[t := Idle] == done.tasks;
  }

  /**
   The invariant survives a reload, whether stat and load succeed or fail: the fingerprint is
   replaced exactly when the configuration is, and counted once.
   */
  lemma ReloadKeepsInv(w: World, t: nat, stat: Option<Fingerprint>, load: Option<Config>, epoch: Fingerprint)
    requires Inv(w, epoch) && Answers(w, t, stat, load)
    ensures var s := Reloaded(w.shared, stat, load);
      Inv(w.(shared := s, swaps := if s.applied == w.shared.applied then w.swaps else w.swaps + 1), epoch) &&
      (s.applied == w.shared.applied ==> s == w.shared) &&
      (stat.None? || load.None? ==> s == w.shared) &&
      (stat.Some? && load.Some? ==> s.applied == Disk(w).fingerprint)
  {
    if stat.Some? && load.Some? {
      var u := |w.history| - 1;
      assert w.history[u].fingerprint == stat.value && w.history[u].content == load;
    }
  }

  /** A reload that runs alone, on a file that loads, always leaves the file's configuration live. */
  lemma QuietReloadConverges(w: World, epoch: Fingerprint)
    requires Inv(w, epoch) && Disk(w).content.Some?
    ensures var s := Reloaded(w.shared, Some(Disk(w).fingerprint), Disk(w).content);
      s.applied == Disk(w).fingerprint && Disk(w).content == Some(s.config)
  {
    if w.shared.applied == Disk(w).fingerprint {
      var v, u :| 0 <= v <= u < |w.history| && w.history[v].fingerprint == w.shared.applied &&
        w.history[u].content == Some(w.shared.config);
    }
  }

  /**
   Start-up: with a write between the load and the stat, the running configuration is that of
   an older version. The reloads that follow correct it exactly when the two versions load
   alike or the stat failed; otherwise every one of them takes the fast path.
   */
  lemma StartupRace(older: Version, newer: Version, stat: Option<Fingerprint>, epoch: Fingerprint)
    requires older.content.Some? && newer.content.Some? && newer.fingerprint != epoch
    requires stat.Some? ==> stat.value == newer.fingerprint
    ensures var start := Shared(older.content.value, 1, if stat.Some? then stat.value else epoch);
      var later := Reloaded(start, Some(newer.fingerprint), newer.content);
      newer.content == Some(later.config) <==> stat.None? || older.content == newer.content
    ensures stat.Some? ==>
      var start := Shared(older.content.value, 1, stat.value);
      Reloaded(start, Some(newer.fingerprint), newer.content) == start
  {
  }

  lemma Extend(worlds: seq<World>, actions: seq<Action>, a: Action, w: World)
    requires IsRun(worlds, actions) && worlds[|actions|].history != [] && Next(worlds[|actions|], a, w)
    ensures IsRun(worlds + [w], actions + [a])
  {
    hide Next;
  }

  /** A task that is idle sees the file as it is, passes the check and loads it. */
  lemma TaskLoads(worlds: seq<World>, actions: seq<Action>, t: nat) returns (more: seq<World>, acts: seq<Action>)
    requires IsRun(worlds, actions) && worlds[|actions|].history != []
    requires var w := worlds[|actions|];
      TaskOf(w, t).Idle? && Disk(w).content.Some? && w.shared.applied != Disk(w).fingerprint
    ensures IsRun(more, acts) && worlds <= more && |more| == |worlds| + 3
    ensures var w := worlds[|actions|];
      more[|acts|] == w.(tasks := w.tasks[t := Loaded(Disk(w).fingerprint, Disk(w).content.value)])
  {
    RunLength(worlds, actions);
    hide IsRun;
    var w := worlds[|actions|];
    var f, c := Disk(w).fingerprint, Disk(w).content.value;
    var w1 := w.(tasks := w.tasks[t := Statted(f)]);
    var w2 := w.(tasks := w1.tasks[t := Passed(f)]);
    var w3 := w.(tasks := w2.tasks[t := Loaded(f, c)]);
    Extend(worlds, actions, Stat(t), w1);
    Extend(worlds + [w1], actions + [Stat(t)], Check(t), w2);
    Extend(worlds + [w1] + [w2], actions + [Stat(t)] + [Check(t)], Load(t), w3);
    more := worlds + [w1] + [w2] + [w3];
    acts := actions + [Stat(t)] + [Check(t)] + [Load(t)];
    assert w2.tasks == w.tasks[t := Passed(f)] && w3.tasks == w.tasks[t := Loaded(f, c)];
  }

  lemma RunLength(worlds: seq<World>, actions: seq<Action>)
    requires IsRun(worlds, actions)
    ensures |worlds| == |actions| + 1
  {
    hide Next;
  }

  /** A loaded task swaps its configuration in if its fingerprint is not the applied one. */
  lemma TaskCommits(worlds: seq<World>, actions: seq<Action>, t: nat) returns (more: seq<World>, acts: seq<Action>)
    requires IsRun(worlds, actions) && worlds[|actions|].history != []
    requires TaskOf(worlds[|actions|], t).Loaded?
    ensures IsRun(more, acts) && worlds <= more && |more| == |worlds| + 1
    ensures var w := worlds[|actions|];
      var l := TaskOf(w, t);
      more[|acts|].shared == Committed(w.shared, l.fingerprint, l.config) &&
      more[|acts|].history == w.history && more[|acts|].tasks == w.tasks[t := Idle]
  {
    RunLength(worlds, actions);
    hide IsRun;
    var w := worlds[|actions|];
    var l := TaskOf(w, t);
    var w' := w.(tasks := w.tasks[t := Idle], shared := Committed(w.shared, l.fingerprint, l.config),
                 swaps := if w.shared.applied == l.fingerprint then w.swaps else w.swaps + 1);
    Extend(worlds, actions, Action.Commit(t), w');
    more, acts := worlds + [w'], actions + [Action.Commit(t)];
  }

  /**
   The live configuration can go back to an older version, and a version can be applied twice:
   a slow task commits what it loaded before a faster one applied the newer file.
   */
  lemma OlderVersionCanReturn(v0: Version, v1: Version, v2: Version)
    returns (worlds: seq<World>, actions: seq<Action>, i: nat, j: nat)
    requires Distinct([v0, v1, v2], 0) && v0.content.Some? && v1.content.Some? && v2.content.Some?
    ensures IsRun(worlds, actions) && CleanStart(worlds[0], 0)
    ensures i < j < |actions|
    ensures worlds[i].shared == Shared(v2.content.value, 2, v2.fingerprint)
    ensures worlds[j].shared == Shared(v1.content.value, 3, v1.fingerprint)
    ensures worlds[|actions|].shared == Shared(v2.content.value, 4, v2.fingerprint)
    ensures worlds[i].history == worlds[j].history == worlds[|actions|].history == [v0, v1, v2]
  {
    ThreeVersions(v0, v1, v2);
    hide IsRun, Next, Distinct;
    var w0 := World([v0], Shared(v0.content.value, 1, v0.fingerprint), map[], 0);
    var w1 := w0.(history := [v0] + [v1]);
    assert IsRun([w0], []) by { StartsRun(w0); }
    assert Next(w0, Write(v1), w1) by { Writes(w0, v1); }
    Extend([w0], [], Write(v1), w1);
    worlds, actions := [w0] + [w1], [] + [Write(v1)];
    worlds, actions := TaskLoads(worlds, actions, 0);
    var w4 := worlds[|actions|];
    var w5 := w4.(history := w4.history + [v2]);
    assert Next(w4, Write(v2), w5) by { Writes(w4, v2); }
    RunLength(worlds, actions);
    Extend(worlds, actions, Write(v2), w5);
    worlds, actions := worlds + [w5], actions + [Write(v2)];
    assert w5.history == [v0, v1, v2];
    worlds, actions := TaskLoads(worlds, actions, 1);
    worlds, actions := TaskCommits(worlds, actions, 1);
    i := |actions|;
    RunLength(worlds, actions);
    ghost var first := worlds;
    worlds, actions := TaskCommits(worlds, actions, 0);
    j := |actions|;
    RunLength(worlds, actions);
    ghost var second := worlds;
    worlds, actions := TaskLoads(worlds, actions, 1);
    worlds, actions := TaskCommits(worlds, actions, 1);
    RunLength(worlds, actions);
    assert worlds[i] == first[i] && worlds[j] == second[j] && worlds[0] == w0;
  }

  lemma StartsRun(w: World)
    ensures IsRun([w], [])
  {
  }

  lemma Writes(w: World, v: Version)
    requires w.history != []
    ensures Next(w, Write(v), w.(history := w.history + [v]))
  {
  }

  lemma ThreeVersions(v0: Version, v1: Version, v2: Version)
    requires Distinct([v0, v1, v2], 0)
    ensures v0.fingerprint != v1.fingerprint && v0.fingerprint != v2.fingerprint && v1.fingerprint != v2.fingerprint
    ensures Distinct([v0], 0)
  {
    var h := [v0, v1, v2];
    assert h[0].fingerprint != h[1].fingerprint && h[0].fingerprint != h[2].fingerprint &&
      h[1].fingerprint != h[2].fingerprint;
  }
}
