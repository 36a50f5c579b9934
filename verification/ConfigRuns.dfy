/**
 Which version of the file is applied, over whole runs of reload tasks: when a swap goes back
 to an older version, and where every version is applied at most once.
 */
module ConfigRuns {
  import opened Wrappers
  import opened ConfigManager

  /** The position of the version with this fingerprint, -1 for the start-up placeholder. */
  function VersionOf(history: seq<Version>, f: Fingerprint): (v: int)
    ensures -1 <= v < |history|
  {
    if history == [] then -1
    else if history[|history| - 1].fingerprint == f then |history| - 1
    else VersionOf(history[..|history| - 1], f)
  }

  function Applied(w: World): int {
    VersionOf(w.history, w.shared.applied)
  }

  lemma {:induction false} VersionIsUnique(history: seq<Version>, epoch: Fingerprint, v: nat)
    requires Distinct(history, epoch) && v < |history|
    ensures VersionOf(history, history[v].fingerprint) == v
  {
    var n := |history| - 1;
    if v < n {
      VersionIsUnique(history[..n], epoch, v);
    }
  }

  /** A version once written keeps its position. */
  lemma {:induction false} PositionsStay(history: seq<Version>, later: seq<Version>, epoch: Fingerprint, f: Fingerprint)
    requires history <= later && Distinct(later, epoch) && (f == epoch || VersionOf(history, f) >= 0)
    ensures VersionOf(later, f) == VersionOf(history, f)
  {
    if f == epoch {
      NoPlaceholder(history, later, epoch);
    } else {
      var v := VersionOf(history, f);
      FoundThere(history, f);
      VersionIsUnique(later, epoch, v);
    }
  }

  lemma {:induction false} FoundThere(history: seq<Version>, f: Fingerprint)
    requires VersionOf(history, f) >= 0
    ensures history[VersionOf(history, f)].fingerprint == f
  {
    if history[|history| - 1].fingerprint != f {
      FoundThere(history[..|history| - 1], f);
    }
  }

  lemma NoPlaceholder(history: seq<Version>, later: seq<Version>, epoch: Fingerprint)
    requires history <= later && Distinct(later, epoch)
    ensures VersionOf(history, epoch) == VersionOf(later, epoch) == -1
  {
    forall v | 0 <= v < |history| ensures history[v].fingerprint != epoch {
      assert later[v] == history[v];
    }
    if VersionOf(history, epoch) >= 0 {
      FoundThere(history, epoch);
    }
    if VersionOf(later, epoch) >= 0 {
      FoundThere(later, epoch);
    }
  }

  // ---------------------------------------------------------------- runs

  /** A run from a clean start in which every version has a fingerprint of its own. */
  ghost predicate CleanRun(worlds: seq<World>, actions: seq<Action>, epoch: Fingerprint) {
    IsRun(worlds, actions) && CleanStart(worlds[0], epoch) &&
    forall i :: 0 <= i < |worlds| ==> Distinct(worlds[i].history, epoch)
  }

  predicate IsSwap(worlds: seq<World>, k: nat)
    requires k + 1 < |worlds|
  {
    worlds[k + 1].swaps != worlds[k].swaps
  }

  /** The step at which a task last looked at the file, before step `n`. */
  function LastStat(actions: seq<Action>, n: nat, t: nat): (i: int)
    requires n <= |actions|
    ensures -1 <= i < n && (i >= 0 ==> actions[i] == Stat(t))
  {
    if n == 0 then -1 else if actions[n - 1] == Stat(t) then n - 1 else LastStat(actions, n - 1, t)
  }

  lemma OneStep(worlds: seq<World>, actions: seq<Action>, epoch: Fingerprint, i: nat)
    requires CleanRun(worlds, actions, epoch) && i < |actions|
    ensures |worlds| == |actions| + 1 && worlds[i].history != [] && Next(worlds[i], actions[i], worlds[i + 1])
    ensures Distinct(worlds[i].history, epoch) && Distinct(worlds[i + 1].history, epoch)
  {
    hide Next, Distinct;
  }

  lemma RunShape(worlds: seq<World>, actions: seq<Action>, epoch: Fingerprint)
    requires CleanRun(worlds, actions, epoch)
    ensures |worlds| == |actions| + 1 && worlds[0].tasks == map[] && worlds[0].history != []
    ensures forall i :: 0 <= i < |worlds| ==> Distinct(worlds[i].history, epoch)
  {
    hide Next, Distinct;
  }

  lemma {:induction false} HistoriesGrow(worlds: seq<World>, actions: seq<Action>, epoch: Fingerprint, i: nat, j: nat)
    requires CleanRun(worlds, actions, epoch) && i <= j <= |actions|
    ensures |worlds| == |actions| + 1 && worlds[i].history <= worlds[j].history && worlds[i].history != []
    decreases j - i
  {
    hide CleanRun, Distinct;
    RunShape(worlds, actions, epoch);
    if i < j {
      OneStep(worlds, actions, epoch, i);
      HistoriesGrow(worlds, actions, epoch, i + 1, j);
    } else if i > 0 {
      OneStep(worlds, actions, epoch, i - 1);
    }
  }

  /** What a task carries is the fingerprint that the file had when it last looked. */
  ghost predicate Remembers(worlds: seq<World>, actions: seq<Action>, n: nat, t: nat)
    requires n <= |actions| < |worlds|
  {
    TaskOf(worlds[n], t).Idle? ||
    var i := LastStat(actions, n, t);
    i >= 0 && worlds[i].history != [] && TaskOf(worlds[n], t).fingerprint == Disk(worlds[i]).fingerprint
  }

  lemma {:induction false} TasksRemember(worlds: seq<World>, actions: seq<Action>, epoch: Fingerprint, n: nat, t: nat)
    requires CleanRun(worlds, actions, epoch) && n <= |actions|
    ensures |worlds| == |actions| + 1 && Remembers(worlds, actions, n, t)
  {
    hide CleanRun, Distinct;
    RunShape(worlds, actions, epoch);
    if n > 0 {
      TasksRemember(worlds, actions, epoch, n - 1, t);
      OneStep(worlds, actions, epoch, n - 1);
    }
  }

  /** Nothing is swapped in: configuration, generation and fingerprint stay. */
  lemma {:induction false} QuietStretch(worlds: seq<World>, actions: seq<Action>, epoch: Fingerprint, i: nat, j: nat)
    requires CleanRun(worlds, actions, epoch) && i <= j <= |actions| < |worlds|
    requires forall k :: i <= k < j ==> !IsSwap(worlds, k)
    ensures worlds[i].shared == worlds[j].shared
    decreases j - i
  {
    hide CleanRun, Distinct;
    if i < j {
      OneStep(worlds, actions, epoch, i);
      assert !IsSwap(worlds, i);
      QuietStretch(worlds, actions, epoch, i + 1, j);
    }
  }

  /** The applied fingerprint is the placeholder, or that of a version that exists. */
  lemma AppliedIsKnown(worlds: seq<World>, actions: seq<Action>, epoch: Fingerprint, i: nat)
    requires CleanRun(worlds, actions, epoch) && i < |worlds|
    ensures worlds[i].shared.applied == epoch || Applied(worlds[i]) >= 0
  {
    hide Next, Distinct;
    RunKeepsInv(worlds, actions, epoch);
    assert Inv(worlds[i], epoch);
    var w := worlds[i];
    if w.shared.applied != epoch {
      var v, u :| 0 <= v <= u < |w.history| && w.history[v].fingerprint == w.shared.applied &&
        w.history[u].content == Some(w.shared.config);
      VersionIsUnique(w.history, epoch, v);
    }
  }

  lemma AppliedStays(worlds: seq<World>, actions: seq<Action>, epoch: Fingerprint, i: nat, j: nat)
    requires CleanRun(worlds, actions, epoch) && i <= j < |worlds| && worlds[i].shared == worlds[j].shared
    ensures Applied(worlds[i]) == Applied(worlds[j])
  {
    hide CleanRun, Distinct;
    RunShape(worlds, actions, epoch);
    AppliedIsKnown(worlds, actions, epoch, i);
    HistoriesGrow(worlds, actions, epoch, i, j);
    PositionsStay(worlds[i].history, worlds[j].history, epoch, worlds[i].shared.applied);
  }

  // ---------------------------------------------------------------- going back

  /** The version a committing task took when it last looked at the file. */
  function Taken(worlds: seq<World>, actions: seq<Action>, j: nat, t: nat): int
    requires j <= |actions| < |worlds|
  {
    var i := LastStat(actions, j, t);
    if i < 0 then -1 else |worlds[i].history| - 1
  }

  /** A commit leaves the version applied that its task took, whatever was applied in between. */
  lemma CommitAppliesTheTaken(worlds: seq<World>, actions: seq<Action>, epoch: Fingerprint, j: nat, t: nat)
    requires CleanRun(worlds, actions, epoch) && j < |actions| && actions[j] == Action.Commit(t)
    ensures |worlds| == |actions| + 1 && 0 <= Taken(worlds, actions, j, t) < |worlds[j].history|
    ensures Applied(worlds[j + 1]) == Taken(worlds, actions, j, t)
    ensures IsSwap(worlds, j) <==> Applied(worlds[j]) != Taken(worlds, actions, j, t)
  {
    hide CleanRun, Distinct;
    RunShape(worlds, actions, epoch);
    TasksRemember(worlds, actions, epoch, j, t);
    OneStep(worlds, actions, epoch, j);
    var i := LastStat(actions, j, t);
    HistoriesGrow(worlds, actions, epoch, i, j);
    var v := |worlds[i].history| - 1;
    assert worlds[j].history[v] == Disk(worlds[i]) && worlds[j + 1].history == worlds[j].history;
    VersionIsUnique(worlds[j].history, epoch, v);
    AppliedIsKnown(worlds, actions, epoch, j);
    if Applied(worlds[j]) >= 0 {
      FoundThere(worlds[j].history, worlds[j].shared.applied);
    }
  }

  /**
   A swap goes back to an older version exactly when the applied version was written after the
   task looked at the file; and then another task has swapped it in between.
   */
  lemma SwapGoesBackIff(worlds: seq<World>, actions: seq<Action>, epoch: Fingerprint, j: nat, t: nat)
    requires CleanRun(worlds, actions, epoch) && j < |actions| && actions[j] == Action.Commit(t)
    ensures |worlds| == |actions| + 1 && 0 <= LastStat(actions, j, t)
    ensures Applied(worlds[j + 1]) < Applied(worlds[j]) <==>
      Applied(worlds[j]) >= |worlds[LastStat(actions, j, t)].history|
    ensures Applied(worlds[j + 1]) < Applied(worlds[j]) ==>
      exists k :: LastStat(actions, j, t) < k < j && IsSwap(worlds, k) &&
        Applied(worlds[k + 1]) >= |worlds[LastStat(actions, j, t)].history|
  {
    hide CleanRun;
    CommitAppliesTheTaken(worlds, actions, epoch, j, t);
    var i := LastStat(actions, j, t);
    if Applied(worlds[j]) >= |worlds[i].history| {
      var k := LastCrossing(worlds, actions, epoch, i, j, |worlds[i].history|);
    }
  }

  /** To get past a position the applied version must be swapped past it. */
  lemma {:induction false} LastCrossing(worlds: seq<World>, actions: seq<Action>, epoch: Fingerprint, i: nat,
                                        j: nat, v: nat)
    returns (k: nat)
    requires CleanRun(worlds, actions, epoch) && i < j < |worlds| == |actions| + 1
    requires actions[i].Stat? && Applied(worlds[i]) < v <= Applied(worlds[j])
    ensures i < k < j && IsSwap(worlds, k) && Applied(worlds[k + 1]) >= v
    decreases j
  {
    hide CleanRun;
    k := j - 1;
    if !IsSwap(worlds, k) {
      QuietStretch(worlds, actions, epoch, k, j);
      AppliedStays(worlds, actions, epoch, k, j);
      k := LastCrossing(worlds, actions, epoch, i, j - 1, v);
    } else {
      OneStep(worlds, actions, epoch, k);
    }
  }

  // ---------------------------------------------------------------- at most once

  /** Between a task's look at the file and its swap no version written after that look is swapped in. */
  ghost predicate NobodyOvertakes(worlds: seq<World>, actions: seq<Action>)
    requires |worlds| == |actions| + 1
  {
    forall j, k, t ::
      0 <= k < j < |actions| && actions[j] == Action.Commit(t) && IsSwap(worlds, j) && IsSwap(worlds, k) &&
      0 <= LastStat(actions, j, t) < k ==>
        Applied(worlds[k + 1]) < |worlds[LastStat(actions, j, t)].history|
  }

  /** Each swap applies a newer version than the one before it. */
  ghost predicate AlwaysForward(worlds: seq<World>, actions: seq<Action>)
    requires |worlds| == |actions| + 1
  {
    forall j :: 0 <= j < |actions| && IsSwap(worlds, j) ==> Applied(worlds[j]) < Applied(worlds[j + 1])
  }

  lemma OnlyCommitsSwap(worlds: seq<World>, actions: seq<Action>, epoch: Fingerprint, j: nat)
    requires CleanRun(worlds, actions, epoch) && j < |actions| && j + 1 < |worlds| && IsSwap(worlds, j)
    ensures actions[j].Commit?
  {
    OneStep(worlds, actions, epoch, j);
  }

  lemma SwapGoesForward(worlds: seq<World>, actions: seq<Action>, epoch: Fingerprint, j: nat)
    requires CleanRun(worlds, actions, epoch) && |worlds| == |actions| + 1 && NobodyOvertakes(worlds, actions)
    requires j < |actions| && IsSwap(worlds, j)
    ensures Applied(worlds[j]) < Applied(worlds[j + 1])
  {
    hide CleanRun;
    OnlyCommitsSwap(worlds, actions, epoch, j);
    var t := actions[j].task;
    SwapGoesBackIff(worlds, actions, epoch, j, t);
    CommitAppliesTheTaken(worlds, actions, epoch, j, t);
  }

  lemma {:induction false} AppliedNeverFalls(worlds: seq<World>, actions: seq<Action>, epoch: Fingerprint,
                                             i: nat, j: nat)
    requires CleanRun(worlds, actions, epoch) && |worlds| == |actions| + 1 && AlwaysForward(worlds, actions)
    requires i <= j <= |actions|
    ensures Applied(worlds[i]) <= Applied(worlds[j])
    decreases j - i
  {
    hide CleanRun;
    if i < j {
      if !IsSwap(worlds, i) {
        QuietStretch(worlds, actions, epoch, i, i + 1);
        AppliedStays(worlds, actions, epoch, i, i + 1);
      }
      AppliedNeverFalls(worlds, actions, epoch, i + 1, j);
    }
  }

  /** Main result: the applied version only ever moves forward exactly where nobody overtakes. */
  lemma AlwaysForwardIff(worlds: seq<World>, actions: seq<Action>, epoch: Fingerprint)
    requires CleanRun(worlds, actions, epoch) && |worlds| == |actions| + 1
    ensures AlwaysForward(worlds, actions) <==> NobodyOvertakes(worlds, actions)
  {
    hide CleanRun, Applied, LastStat;
    if NobodyOvertakes(worlds, actions) {
      forall j | 0 <= j < |actions| && IsSwap(worlds, j) ensures Applied(worlds[j]) < Applied(worlds[j + 1]) {
        SwapGoesForward(worlds, actions, epoch, j);
      }
    }
    if AlwaysForward(worlds, actions) {
      forall j, k, t |
        0 <= k < j < |actions| && actions[j] == Action.Commit(t) && IsSwap(worlds, j) && IsSwap(worlds, k) &&
        0 <= LastStat(actions, j, t) < k
        ensures Applied(worlds[k + 1]) < |worlds[LastStat(actions, j, t)].history|
      {
        AppliedNeverFalls(worlds, actions, epoch, k + 1, j);
        CommitAppliesTheTaken(worlds, actions, epoch, j, t);
      }
    }
  }

  /** Then the versions strictly increase from swap to swap, so each is applied at most once. */
  lemma EachVersionAtMostOnce(worlds: seq<World>, actions: seq<Action>, epoch: Fingerprint, i: nat, j: nat)
    requires CleanRun(worlds, actions, epoch) && |worlds| == |actions| + 1 && NobodyOvertakes(worlds, actions)
    requires i < j < |actions| && IsSwap(worlds, i) && IsSwap(worlds, j)
    ensures Applied(worlds[i]) < Applied(worlds[i + 1]) < Applied(worlds[j + 1])
  {
    hide CleanRun, NobodyOvertakes;
    AlwaysForwardIff(worlds, actions, epoch);
    AppliedNeverFalls(worlds, actions, epoch, i + 1, j);
  }

  /** A task whose reload no swap interrupts overtakes nobody and is overtaken by nobody. */
  lemma UninterruptedReloadsGoForward(worlds: seq<World>, actions: seq<Action>, epoch: Fingerprint)
    requires CleanRun(worlds, actions, epoch) && |worlds| == |actions| + 1
    requires forall j, k, t ::
      0 <= k < j < |actions| && actions[j] == Action.Commit(t) && IsSwap(worlds, j) &&
      0 <= LastStat(actions, j, t) < k ==>
        !IsSwap(worlds, k)
    ensures AlwaysForward(worlds, actions)
  {
    hide CleanRun;
    AlwaysForwardIff(worlds, actions, epoch);
  }

  /** In every run whatsoever two consecutive swaps apply different fingerprints. */
  lemma ConsecutiveSwapsDiffer(worlds: seq<World>, actions: seq<Action>, epoch: Fingerprint, i: nat, j: nat)
    requires CleanRun(worlds, actions, epoch) && |worlds| == |actions| + 1
    requires i < j < |actions| && IsSwap(worlds, i) && IsSwap(worlds, j)
    requires forall k :: i < k < j ==> !IsSwap(worlds, k)
    ensures worlds[i + 1].shared.applied != worlds[j + 1].shared.applied
  {
    hide CleanRun;
    QuietStretch(worlds, actions, epoch, i + 1, j);
    OneStep(worlds, actions, epoch, j);
  }
}
