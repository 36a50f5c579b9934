/**
 Replacing the active database by its migrated copy. The disk records every state it goes
 through, so that what holds after a crash can be said of each of them.
 */
module Cutover {
  import opened Wrappers
  import BackupPath

  type Files = map<string, string>

  const TARGET_SUFFIX := ".v8-target"

  /** The sidecars in the order in which the active ones are checked and moved. */
  const SIDECARS: seq<string> := ["-wal", "-shm", "-journal"]

  /** Everything outside the program that can fail, once per run. */
  datatype Op =
    | InspectTarget(s: string) | RemoveTarget(s: string) | SetPermissions | SyncTarget | InspectActive(s: string)
    | HardLink | CopyBackup | MoveSidecar(s: string) | RestoreSidecar(s: string) | Replace | SyncDirectory

  type Oracle = Op -> bool

  /** Every undoing rename works. */
  ghost predicate Restores(ok: Oracle) {
    forall s :: s in SIDECARS ==> ok(RestoreSidecar(s))
  }

  // ---------------------------------------------------------------- the disk

  function Renamed(f: Files, from: string, to: string): Files
    requires from in f
  {
    (f - {from})[to := f[from]]
  }

  predicate Holds(f: Files, name: string, content: string) {
    name in f && f[name] == content
  }

  /** From the `from`-th recorded state on the name stood for the content. */
  ghost predicate HeldSince(trace: seq<Files>, from: nat, name: string, content: string) {
    forall i :: from <= i < |trace| ==> Holds(trace[i], name, content)
  }

  class Disk {
    var files: Files
    ghost var trace: seq<Files>

    /** `rename(2)`: atomic; it fails if there is nothing to rename. */
    method Rename(from: string, to: string, allowed: bool) returns (done: bool)
      modifies this
      ensures done == (allowed && from in old(files))
      ensures files == if done then Renamed(old(files), from, to) else old(files)
      ensures trace == old(trace) + [files]
    {
      done := allowed && from in files;
      if done {
        files := (files - {from})[to := files[from]];
      }
      trace := trace + [files];
    }

    method Remove(name: string, allowed: bool) returns (done: bool)
      modifies this
      ensures done == allowed
      ensures files == if done then old(files) - {name} else old(files)
      ensures trace == old(trace) + [files]
    {
      done := allowed;
      if done {
        files := files - {name};
      }
      trace := trace + [files];
    }

    /** `hard_link`: the file under a second name, at once. */
    method Link(from: string, to: string, allowed: bool) returns (done: bool)
      modifies this
      ensures done == (allowed && from in old(files) && to !in old(files))
      ensures files == if done then old(files)[to := old(files)[from]] else old(files)
      ensures trace == old(trace) + [files]
    {
      done := allowed && from in files && to !in files;
      if done {
        files := files[to := files[from]];
      }
      trace := trace + [files];
    }

    /** `copy`: a part of the content can be seen before the whole, or be all that is left. */
    method Copy(from: string, to: string, allowed: bool, part: string) returns (done: bool)
      modifies this
      ensures done == (allowed && from in old(files))
      ensures from !in old(files) ==> files == old(files)
      ensures from in old(files) ==> files == old(files)[to := if done then old(files)[from] else part]
      ensures trace == old(trace) + (if from in old(files) then [old(files)[to := part], files] else [files])
    {
      if from !in files {
        trace := trace + [files];
        return false;
      }
      var content := files[from];
      files := files[to := part];
      trace := trace + [files];
      if allowed {
        files := files[to := content];
      }
      trace := trace + [files];
      return allowed;
    }
  }

  // ---------------------------------------------------------------- moving the sidecars

  /** The disk after moving the sidecars in the list. */
  function MoveAll(f: Files, active: string, backup: string, list: seq<string>): Files {
    if list == [] then f
    else
      var g := MoveAll(f, active, backup, list[..|list| - 1]);
      var s := list[|list| - 1];
      if active + s in g then Renamed(g, active + s, backup + s) else g
  }

  /** The sidecars of two databases never share a name with each other or the databases. */
  ghost predicate Apart(a: string, b: string) {
    a != b && forall s, t :: s in SIDECARS && t in SIDECARS ==> a + s != b + t && a + s != b && a != b + t
  }

  ghost predicate Distinct(list: seq<string>) {
    (forall s :: s in list ==> s in SIDECARS) && forall i, j :: 0 <= i < j < |list| ==> list[i] != list[j]
  }

  /** Moving touches nothing but the moved sidecars under their old and new names. */
  lemma {:induction false} MoveAllKeeps(f: Files, active: string, backup: string, list: seq<string>, n: string)
    requires forall s :: s in list ==> n != active + s && n != backup + s
    ensures n in MoveAll(f, active, backup, list) <==> n in f
    ensures n in f ==> MoveAll(f, active, backup, list)[n] == f[n]
    decreases |list|
  {
    if list != [] {
      MoveAllKeeps(f, active, backup, list[..|list| - 1], n);
      assert list[|list| - 1] in list;
    }
  }

  /** One step of undoing: the last moved sidecar goes back to where it was. */
  lemma UndoOne(f: Files, active: string, backup: string, list: seq<string>)
    requires list != [] && Distinct(list) && Apart(active, backup)
    requires forall s :: s in list ==> active + s in f && backup + s !in f
    ensures var g := MoveAll(f, active, backup, list);
      var s := list[|list| - 1];
      backup + s in g && Renamed(g, backup + s, active + s) == MoveAll(f, active, backup, list[..|list| - 1])
  {
    var s := list[|list| - 1];
    var rest := list[..|list| - 1];
    var h := MoveAll(f, active, backup, rest);
    assert s in list;
    forall t | t in rest ensures active + s != active + t && backup + s != backup + t {
      var k :| 0 <= k < |rest| && rest[k] == t;
      assert list[k] != list[|list| - 1];
      SameSuffix(active, s, t);
      SameSuffix(backup, s, t);
    }
    MoveAllKeeps(f, active, backup, rest, active + s);
    MoveAllKeeps(f, active, backup, rest, backup + s);
    assert MoveAll(f, active, backup, list) == Renamed(h, active + s, backup + s);
    assert Renamed(Renamed(h, active + s, backup + s), backup + s, active + s) == h;
  }

  lemma SameSuffix(base: string, s: string, t: string)
    ensures base + s == base + t ==> s == t
  {
    if base + s == base + t {
      assert (base + s)[|base|..] == s && (base + t)[|base|..] == t;
    }
  }

  // ---------------------------------------------------------------- frames

  function Around(name: string): set<string> {
    {name + "-wal", name + "-shm", name + "-journal"}
  }

  /** Outside `except` the two disks are alike. */
  ghost predicate Same(f: Files, g: Files, except: set<string>) {
    forall n :: n !in except ==> (n in f <==> n in g) && (n in f ==> f[n] == g[n])
  }

  ghost predicate SameSince(trace: seq<Files>, from: nat, f: Files, except: set<string>) {
    forall i :: from <= i < |trace| ==> Same(f, trace[i], except)
  }

  /** The two names and their sidecars do not clash; every sidecar's name is around its database's. */
  lemma SidecarsAreAround(a: string)
    ensures forall s :: s in SIDECARS ==> a + s in Around(a) && a + s != a
  {
  }

  // ---------------------------------------------------------------- the steps

  datatype Problem =
    | TargetUnreadable(s: string) | TargetNotDrained(s: string) | TargetNotCleaned(s: string)
    | NoPermissions | NotSynced
    | ActiveUnreadable(s: string) | ActiveNotDrained(s: string) | NoBackup | SidecarStuck(s: string) | NotReplaced
    | DirectoryNotSynced

  /** Nothing waits in the named sidecars to be written into the database. */
  ghost predicate Drained(f: Files, name: string, suffixes: seq<string>) {
    forall s :: s in suffixes && name + s in f ==> f[name + s] == ""
  }

  const TARGET_CHECKED: seq<string> := ["-wal", "-journal"]

  /** The problems that come up before a backup is tried. */
  predicate IsEarly(p: Problem) {
    !p.NoBackup? && !p.SidecarStuck? && !p.NotReplaced? && !p.DirectoryNotSynced?
  }

  /** The target's sidecars can be inspected, are drained and can be removed. */
  predicate TargetReady(f: Files, target: string, ok: Oracle) {
    (forall s :: s in TARGET_CHECKED ==> ok(InspectTarget(s)) && (target + s in f ==> f[target + s] == "")) &&
    forall s :: s in SIDECARS ==> ok(RemoveTarget(s))
  }

  /** The active sidecars that exist can be inspected and are drained. */
  predicate ActiveReady(f: Files, active: string, ok: Oracle) {
    forall s :: s in SIDECARS && active + s in f ==> ok(InspectActive(s)) && f[active + s] == ""
  }

  /** Everything before the backup succeeds. */
  predicate Ready(f: Files, active: string, target: string, ok: Oracle) {
    TargetReady(f, target, ok) && target in f && ok(SetPermissions) && ok(SyncTarget) && ActiveReady(f, active, ok)
  }

  predicate BacksUp(ok: Oracle) {
    ok(HardLink) || ok(CopyBackup)
  }

  /** Every active sidecar that exists can be moved. */
  predicate Moves(f: Files, active: string, ok: Oracle) {
    forall s :: s in SIDECARS && active + s in f ==> ok(MoveSidecar(s))
  }

  /** The replacing rename is reached and works. */
  predicate Cuts(f: Files, active: string, target: string, ok: Oracle) {
    Ready(f, active, target, ok) && BacksUp(ok) && Moves(f, active, ok) && ok(Replace)
  }

  /** An early problem names an operation that failed or a sidecar that was not drained. */
  predicate IsBlamed(p: Problem, f: Files, active: string, target: string, ok: Oracle) {
    match p
    case TargetUnreadable(s) => s in TARGET_CHECKED && !ok(InspectTarget(s))
    case TargetNotDrained(s) => s in TARGET_CHECKED && target + s in f && f[target + s] != ""
    case TargetNotCleaned(s) => s in SIDECARS && !ok(RemoveTarget(s))
    case NoPermissions => target !in f || !ok(SetPermissions)
    case NotSynced => !ok(SyncTarget)
    case ActiveUnreadable(s) => s in SIDECARS && active + s in f && !ok(InspectActive(s))
    case ActiveNotDrained(s) => s in SIDECARS && active + s in f && f[active + s] != ""
    case _ => false
  }

  method PrepareTarget(d: Disk, target: string, ok: Oracle) returns (r: Option<Problem>)
    modifies d
    ensures old(d.trace) <= d.trace && SameSince(d.trace, |old(d.trace)|, old(d.files), Around(target))
    ensures Same(old(d.files), d.files, Around(target)) && d.files.Keys <= old(d.files).Keys
    ensures r.None? <==> TargetReady(old(d.files), target, ok)
    ensures r.Some? ==> forall active :: IsBlamed(r.value, old(d.files), active, target, ok)
  {
    hide Around;
    for i := 0 to |TARGET_CHECKED|
      invariant d.files == old(d.files) && d.trace == old(d.trace)
      invariant forall s :: s in TARGET_CHECKED[..i] ==>
        ok(InspectTarget(s)) && (target + s in d.files ==> d.files[target + s] == "")
    {
      var s := TARGET_CHECKED[i];
      assert s in TARGET_CHECKED;
      if !ok(InspectTarget(s)) {
        return Some(TargetUnreadable(s));
      }
      if target + s in d.files && |d.files[target + s]| > 0 {
        return Some(TargetNotDrained(s));
      }
    }
    assert TARGET_CHECKED[..|TARGET_CHECKED|] == TARGET_CHECKED;
    for i := 0 to |SIDECARS|
      invariant old(d.trace) <= d.trace && SameSince(d.trace, |old(d.trace)|, old(d.files), Around(target))
      invariant Same(old(d.files), d.files, Around(target)) && d.files.Keys <= old(d.files).Keys
      invariant forall s :: s in SIDECARS[..i] ==> ok(RemoveTarget(s))
    {
      SidecarsAreAround(target);
      var s := SIDECARS[i];
      assert s in SIDECARS;
      var done := d.Remove(target + s, ok(RemoveTarget(s)));
      if !done {
        return Some(TargetNotCleaned(s));
      }
    }
    assert SIDECARS[..|SIDECARS|] == SIDECARS;
    return None;
  }

  method CheckActive(d: Disk, active: string, ok: Oracle) returns (r: Option<Problem>)
    ensures r.None? <==> ActiveReady(d.files, active, ok)
    ensures r.Some? ==> r.value.ActiveUnreadable? || r.value.ActiveNotDrained?
    ensures r.Some? ==> forall target :: IsBlamed(r.value, d.files, active, target, ok)
  {
    assert SIDECARS[..|SIDECARS|] == SIDECARS;
    for i := 0 to |SIDECARS|
      invariant forall s :: s in SIDECARS[..i] && active + s in d.files ==>
        ok(InspectActive(s)) && d.files[active + s] == ""
    {
      var s := SIDECARS[i];
      assert s in SIDECARS;
      if active + s in d.files {
        if !ok(InspectActive(s)) {
          return Some(ActiveUnreadable(s));
        }
        if |d.files[active + s]| > 0 {
          return Some(ActiveNotDrained(s));
        }
      }
    }
    return None;
  }

  /** A link if possible, else a copy. */
  method MakeBackup(d: Disk, active: string, backup: string, ok: Oracle, part: string) returns (done: bool)
    requires active in d.files && backup !in d.files
    modifies d
    ensures old(d.trace) <= d.trace && SameSince(d.trace, |old(d.trace)|, old(d.files), {backup})
    ensures Same(old(d.files), d.files, {backup})
    ensures done == BacksUp(ok)
    ensures done ==> d.files == old(d.files)[backup := old(d.files)[active]]
    ensures |old(d.trace)| < |d.trace| && d.trace[|d.trace| - 1] == d.files
  {
    done := d.Link(active, backup, ok(HardLink));
    if !done {
      done := d.Copy(active, backup, ok(CopyBackup), part);
    }
  }

  lemma SameAsItself(f: Files, except: set<string>)
    ensures Same(f, f, except)
  {
  }

  lemma NoneSince(trace: seq<Files>, f: Files, except: set<string>)
    ensures SameSince(trace, |trace|, f, except)
  {
  }

  /** A rename among the names of `except` keeps the frame. */
  method RenameWithin(d: Disk, from: string, to: string, allowed: bool, ghost f: Files, ghost start: nat,
                      ghost except: set<string>)
    returns (done: bool)
    requires from in except && to in except && start <= |d.trace|
    requires SameSince(d.trace, start, f, except) && Same(f, d.files, except)
    modifies d
    ensures SameSince(d.trace, start, f, except) && Same(f, d.files, except)
    ensures done == (allowed && from in old(d.files))
    ensures d.files == if done then Renamed(old(d.files), from, to) else old(d.files)
    ensures old(d.trace) <= d.trace
  {
    done := d.Rename(from, to, allowed);
  }

  /** Move the sidecars that exist until one refuses. */
  method MoveSidecars(d: Disk, active: string, backup: string, ok: Oracle)
    returns (moved: seq<string>, stuck: Option<string>)
    requires Apart(active, backup) && forall s :: s in SIDECARS ==> backup + s !in d.files
    modifies d
    ensures old(d.trace) <= d.trace && SameSince(d.trace, |old(d.trace)|, old(d.files), Around(active) + Around(backup))
    ensures Same(old(d.files), d.files, Around(active) + Around(backup))
    ensures Distinct(moved) && forall s :: s in moved ==> active + s in old(d.files)
    ensures d.files == MoveAll(old(d.files), active, backup, moved)
    ensures stuck.None? <==> Moves(old(d.files), active, ok)
    ensures stuck.Some? ==>
      stuck.value in SIDECARS && active + stuck.value in old(d.files) && !ok(MoveSidecar(stuck.value))
    ensures stuck.None? ==> forall s :: s in SIDECARS && active + s in old(d.files) ==> s in moved
  {
    hide Renamed, Same, SameSince, Around, Apart;
    SameAsItself(d.files, Around(active) + Around(backup));
    NoneSince(d.trace, d.files, Around(active) + Around(backup));
    moved := [];
    for i := 0 to |SIDECARS|
      invariant old(d.trace) <= d.trace &&
        SameSince(d.trace, |old(d.trace)|, old(d.files), Around(active) + Around(backup))
      invariant Same(old(d.files), d.files, Around(active) + Around(backup))
      invariant Distinct(moved) && forall s :: s in moved ==> s in SIDECARS[..i] && active + s in old(d.files)
      invariant d.files == MoveAll(old(d.files), active, backup, moved)
      invariant forall k :: 0 <= k < i && active + SIDECARS[k] in old(d.files) ==>
        SIDECARS[k] in moved && ok(MoveSidecar(SIDECARS[k]))
    {
      var s := SIDECARS[i];
      assert s in SIDECARS && s !in SIDECARS[..i];
      StillThere(old(d.files), active, backup, moved, s);
      if active + s in d.files {
        SidecarsAreAround(active);
        SidecarsAreAround(backup);
        var done := RenameWithin(d, active + s, backup + s, ok(MoveSidecar(s)), old(d.files), |old(d.trace)|,
                                 Around(active) + Around(backup));
        if !done {
          return moved, Some(s);
        }
        assert (moved + [s])[..|moved|] == moved;
        moved := moved + [s];
      }
    }
    return moved, None;
  }

  /** A sidecar not yet moved is where it was. */
  lemma StillThere(f: Files, active: string, backup: string, moved: seq<string>, s: string)
    requires Distinct(moved) && s in SIDECARS && s !in moved && Apart(active, backup)
    ensures active + s in MoveAll(f, active, backup, moved) <==> active + s in f
  {
    forall t | t in moved ensures active + s != active + t && active + s != backup + t {
      SameSuffix(active, s, t);
    }
    MoveAllKeeps(f, active, backup, moved, active + s);
  }

  /** Undo the moves, last first; a move that cannot be undone is only reported. */
  method Undo(d: Disk, ghost f: Files, active: string, backup: string, moved: seq<string>, ok: Oracle)
    requires d.files == MoveAll(f, active, backup, moved) && Distinct(moved) && Apart(active, backup)
    requires forall s :: s in moved ==> active + s in f && backup + s !in f
    modifies d
    ensures old(d.trace) <= d.trace && SameSince(d.trace, |old(d.trace)|, old(d.files), Around(active) + Around(backup))
    ensures Same(old(d.files), d.files, Around(active) + Around(backup))
    ensures (forall s :: s in moved ==> ok(RestoreSidecar(s))) ==> d.files == f
  {
    hide Renamed, Same, SameSince, MoveAll, Around, Apart;
    SameAsItself(d.files, Around(active) + Around(backup));
    NoneSince(d.trace, d.files, Around(active) + Around(backup));
    ghost var all := forall s :: s in moved ==> ok(RestoreSidecar(s));
    assert moved[..|moved|] == moved;
    MoveNone(f, active, backup);
    for i := |moved| downto 0
      invariant old(d.trace) <= d.trace &&
        SameSince(d.trace, |old(d.trace)|, old(d.files), Around(active) + Around(backup))
      invariant Same(old(d.files), d.files, Around(active) + Around(backup))
      invariant all ==> d.files == MoveAll(f, active, backup, moved[..i])
    {
      var s := moved[i];
      assert s in moved && s in SIDECARS;
      SidecarsAreAround(active);
      SidecarsAreAround(backup);
      if all {
        UndoStep(f, active, backup, moved, i);
      }
      var _ := RenameWithin(d, backup + s, active + s, ok(RestoreSidecar(s)), old(d.files), |old(d.trace)|,
                            Around(active) + Around(backup));
    }
  }

  lemma MoveNone(f: Files, active: string, backup: string)
    ensures MoveAll(f, active, backup, []) == f
  {
  }

  lemma UndoStep(f: Files, active: string, backup: string, moved: seq<string>, i: nat)
    requires i < |moved| && Distinct(moved) && Apart(active, backup)
    requires forall s :: s in moved ==> active + s in f && backup + s !in f
    ensures var g := MoveAll(f, active, backup, moved[..i + 1]);
      var s := moved[i];
      backup + s in g && Renamed(g, backup + s, active + s) == MoveAll(f, active, backup, moved[..i])
  {
    var list := moved[..i + 1];
    assert list[..|list| - 1] == moved[..i];
    UndoOne(f, active, backup, list);
  }

  // ---------------------------------------------------------------- the whole cutover

  /** Up to the backup: clean and check the target, then the active sidecars. */
  method Prepare(d: Disk, active: string, target: string, ok: Oracle) returns (r: Option<Problem>)
    modifies d
    ensures old(d.trace) <= d.trace && SameSince(d.trace, |old(d.trace)|, old(d.files), Around(target))
    ensures Same(old(d.files), d.files, Around(target)) && d.files.Keys <= old(d.files).Keys
    requires Apart(active, target)
    ensures r.None? <==> Ready(old(d.files), active, target, ok)
    ensures r.Some? ==> IsBlamed(r.value, old(d.files), active, target, ok)
  {
    hide Same, SameSince, Around, TargetReady, ActiveReady, Apart;
    ghost var f := d.files;
    r := PrepareTarget(d, target, ok);
    if r.Some? {
      return;
    }
    ReadyBefore(f, d.files, active, target, ok);
    if target !in d.files || !ok(SetPermissions) {
      return Some(NoPermissions);
    }
    if !ok(SyncTarget) {
      return Some(NotSynced);
    }
    r := CheckActive(d, active, ok);
  }

  /** Removing the target's sidecars changes nothing that the later checks look at. */
  lemma ReadyBefore(f: Files, g: Files, active: string, target: string, ok: Oracle)
    requires Same(f, g, Around(target)) && Apart(active, target)
    ensures target in f <==> target in g
    ensures ActiveReady(f, active, ok) <==> ActiveReady(g, active, ok)
    ensures forall p: Problem :: p.ActiveUnreadable? || p.ActiveNotDrained? ==>
      (IsBlamed(p, f, active, target, ok) <==> IsBlamed(p, g, active, target, ok))
  {
    assert "-wal" in SIDECARS && "-shm" in SIDECARS && "-journal" in SIDECARS;
    BackupIsOutside(active, target);
    forall s | s in SIDECARS ensures active + s !in Around(target) {
      assert active + s != target + "-wal" && active + s != target + "-shm" && active + s != target + "-journal";
    }
  }

  lemma Continue(f: Files, start: nat, t1: seq<Files>, g: Files, t2: seq<Files>, h: Files, a: set<string>,
                 b: set<string>)
    requires start <= |t1| && t1 <= t2 && SameSince(t1, start, f, a) && Same(f, g, a)
    requires SameSince(t2, |t1|, g, b) && Same(g, h, b)
    ensures SameSince(t2, start, f, a + b) && Same(f, h, a + b)
  {
    forall i | start <= i < |t2| ensures Same(f, t2[i], a + b) {
      if i < |t1| {
        assert t1[i] == t2[i] && Same(f, t1[i], a);
      } else {
        assert Same(g, t2[i], b);
      }
    }
  }

  lemma HeldWhileSame(trace: seq<Files>, start: nat, f: Files, except: set<string>, name: string)
    requires name in f && name !in except && SameSince(trace, start, f, except)
    ensures HeldSince(trace, start, name, f[name])
  {
    forall i | start <= i < |trace| ensures Holds(trace[i], name, f[name]) {
      assert Same(f, trace[i], except);
    }
  }

  /** Until the `until`-th recorded state only the names in `except` have changed. */
  ghost predicate SameUntil(trace: seq<Files>, from: nat, until: nat, f: Files, except: set<string>) {
    forall i :: from <= i < until && i < |trace| ==> Same(f, trace[i], except)
  }

  lemma UntilStays(t: seq<Files>, u: seq<Files>, from: nat, until: nat, f: Files, except: set<string>)
    requires t <= u && until <= |t| && SameSince(t, from, f, except)
    ensures SameUntil(u, from, until, f, except)
  {
    forall i | from <= i < until ensures Same(f, u[i], except) {
      assert u[i] == t[i];
    }
  }

  lemma UntilKept(t: seq<Files>, u: seq<Files>, from: nat, until: nat, f: Files, except: set<string>)
    requires t <= u && until <= |t| && SameUntil(t, from, until, f, except)
    ensures SameUntil(u, from, until, f, except)
  {
    forall i | from <= i < until ensures Same(f, u[i], except) {
      assert u[i] == t[i];
    }
  }

  lemma SinceItsLast(t: seq<Files>, u: seq<Files>, f: Files, except: set<string>)
    requires t <= u && t != [] && t[|t| - 1] == f && SameSince(u, |t|, f, except)
    ensures SameSince(u, |t| - 1, f, except)
  {
    SameAsItself(f, except);
    forall i | |t| - 1 <= i < |u| ensures Same(f, u[i], except) {
      assert u[|t| - 1] == t[|t| - 1];
    }
  }

  /** Backup and sidecars, up to but without the replacing rename. `saved`: from when on the backup is complete. */
  method Preserve(d: Disk, active: string, backup: string, ok: Oracle, part: string)
    returns (moved: seq<string>, r: Option<Problem>, ghost saved: nat)
    requires active in d.files && Apart(active, backup)
    requires backup !in d.files && forall s :: s in SIDECARS ==> backup + s !in d.files
    modifies d
    ensures old(d.trace) <= d.trace && |old(d.trace)| <= saved
    ensures r == Some(NoBackup) <==> !BacksUp(ok)
    ensures (r.Some? && r.value.SidecarStuck?) <==> BacksUp(ok) && !Moves(old(d.files), active, ok)
    ensures r.None? <==> BacksUp(ok) && Moves(old(d.files), active, ok)
    ensures SameSince(d.trace, |old(d.trace)|, old(d.files), {backup} + (Around(active) + Around(backup)))
    ensures Same(old(d.files), d.files, {backup} + (Around(active) + Around(backup)))
    ensures HeldSince(d.trace, saved, backup, old(d.files)[active])
    ensures SameUntil(d.trace, |old(d.trace)|, saved, old(d.files), {backup})
    ensures r == Some(NoBackup) || saved < |d.trace|
    ensures r.None? ==> saved <= |d.trace| && Distinct(moved) && Holds(d.files, backup, old(d.files)[active])
    ensures r.None? ==> forall s :: s in moved ==> active + s in old(d.files)
    ensures r.None? ==> d.files == MoveAll(old(d.files)[backup := old(d.files)[active]], active, backup, moved)
    ensures r.None? ==> forall s :: s in SIDECARS && active + s in old(d.files) ==> s in moved
    ensures r.Some? && Restores(ok) ==> Same(old(d.files), d.files, {backup})
  {
    hide MoveAll, Same, SameSince, HeldSince, SameUntil, Around, BacksUp;
    ghost var f, start := d.files, |d.trace|;
    ghost var sidecars := Around(active) + Around(backup);
    moved := [];
    var done := MakeBackup(d, active, backup, ok, part);
    ghost var t1, g := d.trace, d.files;
    SameAsItself(g, sidecars);
    NoneSince(t1, g, sidecars);
    Continue(f, start, t1, g, t1, g, {backup}, sidecars);
    if !done {
      HeldSinceNow(t1, backup, f[active]);
      UntilStays(t1, t1, start, |t1|, f, {backup});
      return moved, Some(NoBackup), |t1|;
    }
    saved := |t1| - 1;
    ApartSidecars(active, backup);
    assert Moves(g, active, ok) <==> Moves(f, active, ok);
    var stuck;
    moved, stuck := MoveSidecars(d, active, backup, ok);
    ghost var t2 := d.trace;
    Continue(f, start, t1, g, t2, d.files, {backup}, sidecars);
    SinceItsLast(t1, t2, g, sidecars);
    UntilStays(t1, t2, start, saved, f, {backup});
    BackupIsOutside(active, backup);
    HeldWhileSame(t2, saved, g, sidecars, backup);
    HoldsWhileSame(g, d.files, sidecars, backup);
    if stuck.Some? {
      ghost var h := d.files;
      Undo(d, g, active, backup, moved, ok);
      Continue(f, start, t2, h, d.trace, d.files, {backup} + sidecars, sidecars);
      Continue(g, saved, t2, h, d.trace, d.files, sidecars, sidecars);
      HeldWhileSame(d.trace, saved, g, sidecars + sidecars, backup);
      Overlap({backup}, sidecars);
      assert t1 <= d.trace;
      UntilStays(t1, d.trace, start, saved, f, {backup});
      return moved, Some(SidecarStuck(stuck.value)), saved;
    }
    return moved, None, saved;
  }

  lemma Overlap(a: set<string>, b: set<string>)
    ensures (a + b) + b == a + b
  {
  }

  lemma HeldSinceNow(trace: seq<Files>, name: string, content: string)
    ensures HeldSince(trace, |trace|, name, content)
  {
  }

  lemma HoldsWhileSame(f: Files, g: Files, except: set<string>, name: string)
    requires name in f && name !in except && Same(f, g, except)
    ensures Holds(g, name, f[name])
  {
  }

  lemma ApartSidecars(active: string, backup: string)
    requires Apart(active, backup)
    ensures forall s :: s in SIDECARS ==> active + s != backup && backup + s != backup
  {
  }

  lemma BackupIsOutside(active: string, backup: string)
    requires Apart(active, backup)
    ensures active !in Around(active) + Around(backup) && backup !in Around(active) + Around(backup) && active != backup
  {
    assert "-wal" in SIDECARS && "-shm" in SIDECARS && "-journal" in SIDECARS;
    assert active != backup + "-wal" && active != backup + "-shm" && active != backup + "-journal";
    assert backup != active + "-wal" && backup != active + "-shm" && backup != active + "-journal";
  }

  /** The candidates of `unique_backup_path` and the target's name stay clear of each other's sidecars. */
  lemma BackupIsApart(active: string, k: nat)
    ensures var backup := BackupPath.Candidate(active, k);
      Apart(active, backup) && Apart(active, active + TARGET_SUFFIX) && Apart(active + TARGET_SUFFIX, backup)
  {
    var backup := BackupPath.Candidate(active, k);
    var u := BackupPath.Tail(k);
    hide BackupPath.Tail;
    BackupPath.CandidateIs(active, k, "");
    assert backup + "" == backup && u + "" == u;
    assert backup == active + (".bak" + u);
    ApartBy(active, "", ".bak" + u);
    assert active + "" == active;
    ApartBy(active, "", TARGET_SUFFIX);
    ApartBy(active, TARGET_SUFFIX, ".bak" + u);
  }

  lemma ApartBy(base: string, x: string, y: string)
    requires y != "" && y[0] == '.' && |y| > 1
    requires x == "" || (|x| > 1 && x[0] == '.' && x[1] != y[1])
    ensures Apart(base + x, base + y)
  {
    forall s, t | s in SIDECARS + [""] && t in SIDECARS + [""] ensures (base + x) + s != (base + y) + t {
      var a, b := (base + x) + s, (base + y) + t;
      assert |b| > |base| + 1 && b[|base|] == '.' && b[|base| + 1] == y[1];
      if x == "" {
        assert s != "" ==> a[|base|] == s[0] == '-';
      } else {
        assert a[|base| + 1] == x[1];
      }
    }
    assert (base + x) + "" == base + x && (base + y) + "" == base + y;
    assert "" in SIDECARS + [""];
    forall s, t | s in SIDECARS && t in SIDECARS
      ensures (base + x) + s != (base + y) + t && (base + x) + s != base + y && base + x != (base + y) + t
    {
      assert s in SIDECARS + [""] && t in SIDECARS + [""];
    }
  }

  /** From when the backup is complete, and from when the replacement is active. */
  datatype Marks = Marks(backup: Option<string>, saved: nat, cut: nat)

  /**
   Every state: the whole original up to the cut, the whole replacement from there on; the
   original also in the backup.
   */
  ghost predicate CrashSafe(trace: seq<Files>, start: nat, m: Marks, active: string, original: string,
                            replacement: string) {
    start <= m.cut <= |trace| && HeldSince(trace[..m.cut], start, active, original) &&
    HeldSince(trace, m.cut, active, replacement) &&
    (m.backup.Some? ==> HeldSince(trace, m.saved, m.backup.value, original)) &&
    (m.cut < |trace| ==> m.backup.Some? && m.saved <= m.cut)
  }

  /** Before the backup is complete nothing has changed but the target's sidecars and the backup's name. */
  ghost predicate BackupComesFirst(trace: seq<Files>, start: nat, m: Marks, f: Files, active: string, target: string) {
    match m.backup
    case Some(backup) => SameUntil(trace, start, m.saved, f, Around(target) + {backup})
    case None => SameSince(trace, start, f, Around(target))
  }

  /** From the backup on. */
  method Swap(d: Disk, active: string, target: string, backup: string, ok: Oracle, part: string)
    returns (r: Result<string, Problem>, ghost m: Marks)
    requires active in d.files && target in d.files && Apart(active, target) && Apart(active, backup) &&
      Apart(target, backup)
    requires backup !in d.files && forall s :: s in SIDECARS ==> backup + s !in d.files
    modifies d
    ensures old(d.trace) <= d.trace && m.backup == Some(backup)
    ensures r == Err(NoBackup) <==> !BacksUp(ok)
    ensures (r.Err? && r.error.SidecarStuck?) <==> BacksUp(ok) && !Moves(old(d.files), active, ok)
    ensures r == Err(NotReplaced) <==> BacksUp(ok) && Moves(old(d.files), active, ok) && !ok(Replace)
    ensures m.cut < |d.trace| <==> BacksUp(ok) && Moves(old(d.files), active, ok) && ok(Replace)
    ensures r.Ok? <==> m.cut < |d.trace| && ok(SyncDirectory)
    ensures r == Err(DirectoryNotSynced) <==> m.cut < |d.trace| && !ok(SyncDirectory)
    ensures CrashSafe(d.trace, |old(d.trace)|, m, active, old(d.files)[active], old(d.files)[target])
    ensures SameUntil(d.trace, |old(d.trace)|, m.saved, old(d.files), {backup})
    ensures r == Err(NoBackup) || m.saved < |d.trace|
    ensures r.Ok? ==> r.value == backup && target !in d.files
    ensures r.Ok? || r.error == DirectoryNotSynced ==>
      Holds(d.files, active, old(d.files)[target]) && Holds(d.files, backup, old(d.files)[active])
    ensures r.Err? && r.error != DirectoryNotSynced ==>
      m.cut == |d.trace| && Holds(d.files, active, old(d.files)[active])
    ensures r.Err? && r.error != DirectoryNotSynced && Restores(ok) ==>
      Same(old(d.files), d.files, {backup})
  {
    hide MoveAll, Same, SameSince, HeldSince, SameUntil, Around, Renamed, BacksUp, Moves;
    ghost var g, start := d.files, |d.trace|;
    BackupIsOutside(active, backup);
    TargetOutside(target, active, backup);
    ghost var sidecars := Around(active) + Around(backup);
    ghost var swap := {backup} + sidecars;
    var moved, problem;
    ghost var saved;
    moved, problem, saved := Preserve(d, active, backup, ok, part);
    ghost var t2, h := d.trace, d.files;
    HoldsWhileSame(g, h, swap, active);
    HoldsWhileSame(g, h, swap, target);
    if problem.Some? {
      StillOriginal(t2, start, g, swap, active, g[target]);
      return Err(problem.value), Marks(Some(backup), saved, |t2|);
    }
    var done := d.Rename(target, active, ok(Replace));
    UntilKept(t2, d.trace, start, saved, g, {backup});
    if !done {
      Undo(d, g[backup := g[active]], active, backup, moved, ok);
      ghost var t4 := d.trace;
      PrefixOfPrefix(t2, [h], t4);
      UntilKept(t2, t4, start, saved, g, {backup});
      StayedOut(g, start, t2, h, t4, d.files, swap, sidecars);
      StillOriginal(t4, start, g, swap, active, g[target]);
      HoldsWhileSame(g, d.files, swap, active);
      BackupStayed(saved, t2, h, t4, d.files, sidecars, backup, g[active]);
      if Restores(ok) {
        assert forall s :: s in moved ==> ok(RestoreSidecar(s));
        AddedIsSame(g, backup, g[active]);
      }
      return Err(NotReplaced), Marks(Some(backup), saved, |t4|);
    }
    StillOriginal(t2, start, g, swap, active, g[target]);
    Replaced(t2, h, saved, active, target, backup, g[active], g[target]);
    assert d.trace == t2 + [Renamed(h, target, active)] && t2[..|t2|] == t2;
    if !ok(SyncDirectory) {
      return Err(DirectoryNotSynced), Marks(Some(backup), saved, |t2|);
    }
    return Ok(backup), Marks(Some(backup), saved, |t2|);
  }

  lemma PrefixOfPrefix(a: seq<Files>, b: seq<Files>, c: seq<Files>)
    requires a + b <= c
    ensures a <= c
  {
    assert a == (a + b)[..|a|] == c[..|a|];
  }

  lemma TargetOutside(target: string, active: string, backup: string)
    requires Apart(active, target) && Apart(target, backup)
    ensures target !in {backup} + (Around(active) + Around(backup)) && target != active
  {
    BackupIsOutside(active, target);
    BackupIsOutside(target, backup);
    assert "-wal" in SIDECARS && "-shm" in SIDECARS && "-journal" in SIDECARS;
    assert target != backup + "-wal" && target != backup + "-shm" && target != backup + "-journal";
    assert target != active + "-wal" && target != active + "-shm" && target != active + "-journal";
  }

  /** A rename that fails is recorded as one more unchanged state, and the undoing stays among the sidecars. */
  lemma StayedOut(g: Files, start: nat, t2: seq<Files>, h: Files, t4: seq<Files>, f: Files, swap: set<string>,
                  sidecars: set<string>)
    requires start <= |t2| && SameSince(t2, start, g, swap) && Same(g, h, swap) && sidecars <= swap
    requires t2 + [h] <= t4 && SameSince(t4, |t2| + 1, h, sidecars) && Same(h, f, sidecars)
    ensures SameSince(t4, start, g, swap) && Same(g, f, swap)
  {
    forall i | start <= i < |t4| ensures Same(g, t4[i], swap) {
      if i < |t2| {
        assert t4[i] == t2[i] && Same(g, t2[i], swap);
      } else if i == |t2| {
        assert t4[i] == (t2 + [h])[i] == h;
      } else {
        assert Same(h, t4[i], sidecars);
      }
    }
  }

  lemma BackupStayed(saved: nat, t2: seq<Files>, h: Files, t4: seq<Files>, f: Files, sidecars: set<string>,
                     backup: string, original: string)
    requires HeldSince(t2, saved, backup, original) && Holds(h, backup, original) && backup !in sidecars
    requires t2 + [h] <= t4 && SameSince(t4, |t2| + 1, h, sidecars)
    ensures HeldSince(t4, saved, backup, original)
  {
    forall i | saved <= i < |t4| ensures Holds(t4[i], backup, original) {
      if i < |t2| {
        assert t4[i] == t2[i];
      } else if i == |t2| {
        assert t4[i] == (t2 + [h])[i] == h;
      } else {
        assert Same(h, t4[i], sidecars);
      }
    }
  }

  lemma AddedIsSame(f: Files, name: string, content: string)
    ensures Same(f, f[name := content], {name})
  {
  }

  lemma Replaced(t: seq<Files>, h: Files, saved: nat, active: string, target: string, backup: string, original: string,
                 replacement: string)
    requires Holds(h, target, replacement) && Holds(h, backup, original) && HeldSince(t, saved, backup, original)
    requires target != active && backup != active && backup != target
    ensures var u := t + [Renamed(h, target, active)];
      HeldSince(u, |t|, active, replacement) && HeldSince(u, saved, backup, original) && u[..|t|] == t
    ensures var f := Renamed(h, target, active);
      target !in f && Holds(f, active, replacement) && Holds(f, backup, original)
  {
  }

  /** What was kept before and what is kept after make one crash-safe run. */
  lemma CrashSafeFrom(
      t1: seq<Files>, start: nat, trace: seq<Files>, m: Marks, active: string, original: string, replacement: string)
    requires start <= |t1| && t1 <= trace && HeldSince(t1, start, active, original)
    requires CrashSafe(trace, |t1|, m, active, original, replacement)
    ensures CrashSafe(trace, start, m, active, original, replacement)
  {
    forall i | start <= i < m.cut ensures Holds(trace[..m.cut][i], active, original) {
      if i < |t1| {
        assert trace[i] == t1[i];
      }
    }
  }

  /**
   Main result. At every crash point the active name stands for the complete original or the
   complete replacement, and from the state that completes the backup on -- before anything but the
   target's sidecars and the backup's own name has changed -- the original also stands under a name
   that was free before. Files and operations decide the result: the replacement happens exactly if
   both databases are ready, the backup, the moves and the rename work, and then only the sync of
   the directory can fail. Every other error leaves the original active, and with the undoing
   renames working every name but the target's sidecars and the backup as it was.
   */
  method ReplaceActive(d: Disk, active: string, ok: Oracle, part: string)
    returns (r: Result<string, Problem>, ghost m: Marks)
    requires active in d.files && BackupPath.HasFreeName(d.files.Keys, active)
    modifies d
    ensures old(d.trace) <= d.trace
    ensures var target := active + TARGET_SUFFIX;
      CrashSafe(d.trace, |old(d.trace)|, m, active, old(d.files)[active],
                if target in old(d.files) then old(d.files)[target] else "")
    ensures BackupComesFirst(d.trace, |old(d.trace)|, m, old(d.files), active, active + TARGET_SUFFIX)
    ensures m.backup.Some? ==> r == Err(NoBackup) || m.saved < |d.trace|
    ensures m.backup.Some? <==> r.Ok? || !IsEarly(r.error)
    ensures m.backup.Some? <==> Ready(old(d.files), active, active + TARGET_SUFFIX, ok)
    ensures m.backup.None? ==> IsBlamed(r.error, old(d.files), active, active + TARGET_SUFFIX, ok)
    ensures r == Err(NoBackup) <==> Ready(old(d.files), active, active + TARGET_SUFFIX, ok) && !BacksUp(ok)
    ensures (r.Err? && r.error.SidecarStuck?) <==>
      Ready(old(d.files), active, active + TARGET_SUFFIX, ok) && BacksUp(ok) && !Moves(old(d.files), active, ok)
    ensures r == Err(NotReplaced) <==>
      Ready(old(d.files), active, active + TARGET_SUFFIX, ok) && BacksUp(ok) && Moves(old(d.files), active, ok) &&
      !ok(Replace)
    ensures m.cut < |d.trace| <==> Cuts(old(d.files), active, active + TARGET_SUFFIX, ok)
    ensures r.Ok? <==> Cuts(old(d.files), active, active + TARGET_SUFFIX, ok) && ok(SyncDirectory)
    ensures r == Err(DirectoryNotSynced) <==>
      Cuts(old(d.files), active, active + TARGET_SUFFIX, ok) && !ok(SyncDirectory)
    ensures m.backup.Some? ==>
      !BackupPath.Taken(old(d.files).Keys, m.backup.value) &&
      Drained(old(d.files), active, SIDECARS) && Drained(old(d.files), active + TARGET_SUFFIX, TARGET_CHECKED)
    ensures r.Ok? ==>
      var target := active + TARGET_SUFFIX;
      m.backup == Some(r.value) && target in old(d.files) && target !in d.files &&
      Holds(d.files, active, old(d.files)[target]) && Holds(d.files, r.value, old(d.files)[active])
    ensures r.Err? && r.error != DirectoryNotSynced ==>
      m.cut == |d.trace| && Holds(d.files, active, old(d.files)[active])
    ensures r == Err(DirectoryNotSynced) ==>
      var target := active + TARGET_SUFFIX;
      target in old(d.files) && Holds(d.files, active, old(d.files)[target])
    ensures r.Err? && r.error != DirectoryNotSynced && Restores(ok) ==>
      Same(old(d.files), d.files, Around(active + TARGET_SUFFIX) + if m.backup.Some? then {m.backup.value} else {})
  {
    hide MoveAll, Same, SameSince, HeldSince, SameUntil, Around, BackupPath.Taken, CrashSafe, Apart, Drained,
      Ready, BacksUp, Moves;
    ghost var f, start := d.files, |d.trace|;
    var target := active + TARGET_SUFFIX;
    ghost var replacement := if target in f then f[target] else "";
    TargetIsOutside(active);
    BackupIsApart(active, 0);
    var problem := Prepare(d, active, target, ok);
    ghost var t1, g := d.trace, d.files;
    HoldsWhileSame(f, g, Around(target), active);
    StillOriginal(t1, start, f, Around(target), active, replacement);
    HeldWhileSame(t1, start, f, Around(target), active);
    if problem.Some? {
      assert Around(target) + {} == Around(target);
      NotCutYet(t1, start, active, f[active], replacement);
      return Err(problem.value), Marks(None, 0, |t1|);
    }
    ReadyIsDrained(f, active, target, ok);
    HoldsWhileSame(f, g, Around(target), target);
    StillFree(g, f, active);
    var backup := BackupPath.UniqueBackupPath(d.files.Keys, active);
    ghost var k: nat :| backup == BackupPath.Candidate(active, k);
    BackupIsApart(active, k);
    FreeNames(g, backup);
    FreeBefore(f, g, target, backup);
    MovesBefore(f, g, active, target, ok);
    r, m := Swap(d, active, target, backup, ok, part);
    CrashSafeFrom(t1, start, d.trace, m, active, f[active], f[target]);
    UntilFrom(t1, start, d.trace, m.saved, f, g, Around(target), {backup});
    if r.Err? && r.error != DirectoryNotSynced && Restores(ok) {
      SameTwice(f, g, d.files, Around(target), {backup});
    }
  }

  lemma UntilFrom(t1: seq<Files>, start: nat, trace: seq<Files>, until: nat, f: Files, g: Files, a: set<string>,
                  b: set<string>)
    requires start <= |t1| && t1 <= trace && SameSince(t1, start, f, a) && Same(f, g, a) &&
      SameUntil(trace, |t1|, until, g, b)
    ensures SameUntil(trace, start, until, f, a + b)
  {
    forall i | start <= i < until && i < |trace| ensures Same(f, trace[i], a + b) {
      if i < |t1| {
        assert trace[i] == t1[i] && Same(f, t1[i], a);
      } else {
        SameTwice(f, g, trace[i], a, b);
      }
    }
  }

  lemma StillFree(g: Files, f: Files, active: string)
    requires g.Keys <= f.Keys && BackupPath.HasFreeName(f.Keys, active)
    ensures BackupPath.HasFreeName(g.Keys, active)
  {
    hide BackupPath.Candidate;
    var k: nat :| k <= BackupPath.U32_MAX && !BackupPath.Taken(f.Keys, BackupPath.Candidate(active, k));
    assert !BackupPath.Taken(g.Keys, BackupPath.Candidate(active, k));
  }

  lemma ReadyIsDrained(f: Files, active: string, target: string, ok: Oracle)
    requires Ready(f, active, target, ok)
    ensures target in f && Drained(f, active, SIDECARS) && Drained(f, target, TARGET_CHECKED)
  {
  }

  lemma MovesBefore(f: Files, g: Files, active: string, target: string, ok: Oracle)
    requires Same(f, g, Around(target)) && Apart(active, target)
    ensures Moves(f, active, ok) <==> Moves(g, active, ok)
  {
    assert "-wal" in SIDECARS && "-shm" in SIDECARS && "-journal" in SIDECARS;
    forall s | s in SIDECARS ensures active + s in f <==> active + s in g {
      assert active + s != target + "-wal" && active + s != target + "-shm" && active + s != target + "-journal";
    }
  }

  lemma NotCutYet(trace: seq<Files>, start: nat, active: string, original: string, replacement: string)
    requires start <= |trace| && HeldSince(trace[..|trace|], start, active, original)
    ensures CrashSafe(trace, start, Marks(None, 0, |trace|), active, original, replacement)
  {
    HeldSinceNow(trace, active, replacement);
  }

  lemma StillOriginal(trace: seq<Files>, start: nat, f: Files, except: set<string>, active: string, replacement: string)
    requires start <= |trace| && active in f && active !in except && SameSince(trace, start, f, except)
    ensures HeldSince(trace[..|trace|], start, active, f[active]) && HeldSince(trace, |trace|, active, replacement)
  {
    HeldWhileSame(trace, start, f, except, active);
    HeldSinceNow(trace, active, replacement);
    assert trace[..|trace|] == trace;
  }

  lemma SameTwice(f: Files, g: Files, h: Files, a: set<string>, b: set<string>)
    requires Same(f, g, a) && Same(g, h, b)
    ensures Same(f, h, a + b)
  {
  }

  lemma FreeNames(f: Files, backup: string)
    requires !BackupPath.Taken(f.Keys, backup)
    ensures backup !in f && forall s :: s in SIDECARS ==> backup + s !in f
  {
  }

  /** A name that is free after the target's sidecars went was free before. */
  lemma FreeBefore(f: Files, g: Files, target: string, backup: string)
    requires Same(f, g, Around(target)) && Apart(target, backup) && !BackupPath.Taken(g.Keys, backup)
    ensures !BackupPath.Taken(f.Keys, backup)
  {
    assert "-wal" in SIDECARS && "-shm" in SIDECARS && "-journal" in SIDECARS;
    forall s, t | s in SIDECARS && t in SIDECARS ensures target + s != backup + t && target + s != backup {
    }
  }

  lemma TargetIsOutside(active: string)
    ensures var target := active + TARGET_SUFFIX;
      target !in Around(target) && active !in Around(target) && target !in Around(active) && active != target
  {
    BackupIsApart(active, 0);
    BackupIsOutside(active, active + TARGET_SUFFIX);
  }

  // ---------------------------------------------------------------- the error after the replacement

  function OnlyTheSyncFails(): Oracle {
    (op: Op) => !op.SyncDirectory?
  }

  /** Two databases without sidecars, and no operation fails but the last one. */
  lemma CleanFilesCut(active: string, original: string, replacement: string)
    ensures var target := active + TARGET_SUFFIX;
      var f := map[active := original, target := replacement];
      Cuts(f, active, target, OnlyTheSyncFails()) && !OnlyTheSyncFails()(SyncDirectory)
  {
    var target := active + TARGET_SUFFIX;
    BackupIsApart(active, 0);
    SidecarsAreAround(active);
    SidecarsAreAround(target);
    var f := map[active := original, target := replacement];
    forall s | s in SIDECARS ensures active + s !in f && target + s !in f {
    }
    assert forall s :: s in TARGET_CHECKED ==> s in SIDECARS;
  }

  /** There the caller is told that the cutover failed, and the replacement is active. */
  method FailedButReplaced(active: string, original: string, replacement: string, part: string)
    returns (d: Disk, r: Result<string, Problem>)
    ensures fresh(d) && r == Err(DirectoryNotSynced) && Holds(d.files, active, replacement)
  {
    d := new Disk;
    d.files := map[active := original, active + TARGET_SUFFIX := replacement];
    CleanFilesCut(active, original, replacement);
    assert d.files.Keys == {active, active + TARGET_SUFFIX};
    BackupPath.FewFilesLeaveAName(d.files.Keys, active);
    TargetIsOutside(active);
    hide Cuts, Ready, BacksUp, Moves, CrashSafe, BackupComesFirst, Same, Drained, IsBlamed, BackupPath.Taken;
    ghost var m;
    r, m := ReplaceActive(d, active, OnlyTheSyncFails(), part);
  }
}
