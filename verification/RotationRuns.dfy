/**
 Rotation over whole runs: its steps interleave with those of the writer task and its senders,
 and callers that crossed the month boundary queue up for the rotation lock.
 */
module RotationRuns {
  import opened Wrappers
  import opened AuditWriter
  import opened Rotation
  import WriterRuns

  // ---------------------------------------------------------------- calls at the boundary

  /** A record about to be written, or the background check. */
  datatype Call = Record(timeMs: int, seen: int, env: Env) | Check(env: Env)

  function AfterCall(s: RotationState, db: string, cal: Calendar, cfg: Config, call: Call): RotationState
    requires Rotation.Valid(s) && cfg.batchSize >= 1
  {
    match call
    case Record(timeMs, seen, env) => IfNeeded(s, db, cal, cfg, timeMs, seen, env)
    case Check(env) => Checked(s, db, cal, cfg, env)
  }

  ghost predicate IsCall(cal: Calendar, call: Call) {
    TellsMonths(call.env) && (call.Record? ==> Names(cal, call.timeMs))
  }

  /** The record is from a month after the active one, or the newest row from a month before the clock's. */
  predicate Crosses(s: RotationState, cal: Calendar, call: Call) {
    match call
    case Record(timeMs, seen, env) => timeMs >= seen && cal.monthOf(timeMs) > s.month
    case Check(env) => env.dataMonth.Some? && env.dataMonth.value < env.clockMonth
  }

  /** The callers get the lock one after the other. */
  function AfterCalls(s: RotationState, db: string, cal: Calendar, cfg: Config, calls: seq<Call>): (r: RotationState)
    requires Rotation.Valid(s) && cfg.batchSize >= 1
    ensures Rotation.Valid(r)
  {
    if calls == [] then s
    else AfterCall(AfterCalls(s, db, cal, cfg, calls[..|calls| - 1]), db, cal, cfg, calls[|calls| - 1])
  }

  /** What a waiting call may bring if nothing is to happen after a rotation in the given month. */
  ghost predicate IsServed(cal: Calendar, month: int, call: Call) {
    match call
    case Record(timeMs, seen, env) => cal.firstOf(1) <= timeMs && cal.monthOf(timeMs) <= month
    case Check(env) => env.dataMonth.Some? ==> env.clockMonth <= env.dataMonth.value == month
  }

  /**
   After a successful rotation every caller that waited finds nothing left to do, if its record
   is not from a month later than the clock showed; nor does a check of the new store.
   */
  lemma {:induction false} OneRotationServesAll(
      s: RotationState, db: string, cal: Calendar, cfg: Config, month: int, env: Env, calls: seq<Call>)
    requires Rotation.Valid(s) && cfg.batchSize >= 1 && Succeeded(s, db, cfg, env)
    requires Agrees(cal) && IsMonth(env.clockMonth)
    requires forall i :: 0 <= i < |calls| ==> IsServed(cal, env.clockMonth, calls[i])
    ensures var r := Rotated(s, db, cal, cfg, month, env);
      AfterCalls(r, db, cal, cfg, calls) == r
    decreases |calls|
  {
    hide Sealed, Boundary, ArchiveName, NextId;
    if calls != [] {
      var last := |calls| - 1;
      OneRotationServesAll(s, db, cal, cfg, month, env, calls[..last]);
      if calls[last].Record? {
        BoundarySplitsMonths(cal, env.clockMonth, calls[last].timeMs);
      }
    }
  }

  /** A record from a later month than the clock's crosses the new boundary too: it rotates again. */
  lemma ClockBehindRotatesAgain(s: RotationState, db: string, cal: Calendar, cfg: Config, month: int, env: Env,
                                call: Call)
    requires Rotation.Valid(s) && cfg.batchSize >= 1 && Succeeded(s, db, cfg, env)
    requires Agrees(cal) && IsMonth(env.clockMonth) && call.Record? && call.timeMs >= call.seen &&
      cal.firstOf(1) <= call.timeMs
    ensures var r := Rotated(s, db, cal, cfg, month, env);
      (call.timeMs >= r.boundary <==> cal.monthOf(call.timeMs) > env.clockMonth) &&
      (cal.monthOf(call.timeMs) > env.clockMonth && Succeeded(r, db, cfg, call.env) ==>
        var t := IfNeeded(r, db, cal, cfg, call.timeMs, call.seen, call.env);
        t.active == call.env.init.file && ArchiveName(r.names, SealMonth(r, call.env), call.env.seconds) in t.names)
  {
    hide Sealed, Boundary, ArchiveName, NextId;
    BoundarySplitsMonths(cal, env.clockMonth, call.timeMs);
  }

  // ---------------------------------------------------------------- when a call rotates

  lemma {:induction false} CallsStayInStep(s: RotationState, db: string, cal: Calendar, cfg: Config, calls: seq<Call>)
    requires Rotation.Valid(s) && cfg.batchSize >= 1 && InStep(s, cal)
    requires forall i :: 0 <= i < |calls| ==> IsCall(cal, calls[i])
    ensures InStep(AfterCalls(s, db, cal, cfg, calls), cal)
    decreases |calls|
  {
    hide InStep, IfNeeded, Checked;
    if calls != [] {
      var last := |calls| - 1;
      var r := AfterCalls(s, db, cal, cfg, calls[..last]);
      CallsStayInStep(s, db, cal, cfg, calls[..last]);
      match calls[last]
      case Record(timeMs, seen, env) => IfNeededStaysInStep(r, db, cal, cfg, timeMs, seen, env);
      case Check(env) => CheckedStaysInStep(r, db, cal, cfg, env);
    }
  }

  lemma CallRotatesIff(s: RotationState, db: string, cal: Calendar, cfg: Config, call: Call)
    requires Rotation.Valid(s) && cfg.batchSize >= 1 && InStep(s, cal) && IsCall(cal, call) && Plausible(s, call.env)
    ensures var r := AfterCall(s, db, cal, cfg, call);
      (!Crosses(s, cal, call) ==> r.names == s.names && r.active == s.active && r.w == s.w) &&
      (Crosses(s, cal, call) && Succeeded(s, db, cfg, call.env) ==>
        r.active == call.env.init.file != s.active && r.month == call.env.clockMonth)
  {
    hide Sealed, NextId, ArchiveName, Boundary, Names;
    if call.Record? {
      BoundarySplitsMonths(cal, s.month, call.timeMs);
    }
  }

  /**
   Main result about when stores are replaced: after any calls in any order, a call that can
   rotate does so exactly if its record is from a month after the active one, or the check finds
   the newest row in a month that is over; every other call leaves files and writer alone.
   */
  lemma RunsRotateIff(s: RotationState, db: string, cal: Calendar, cfg: Config, calls: seq<Call>, next: Call)
    requires Rotation.Valid(s) && cfg.batchSize >= 1 && InStep(s, cal) && IsCall(cal, next)
    requires forall i :: 0 <= i < |calls| ==> IsCall(cal, calls[i])
    requires Plausible(AfterCalls(s, db, cal, cfg, calls), next.env)
    ensures var r := AfterCalls(s, db, cal, cfg, calls);
      var r' := AfterCall(r, db, cal, cfg, next);
      (!Crosses(r, cal, next) ==> r'.names == r.names && r'.active == r.active && r'.w == r.w) &&
      (Succeeded(r, db, cfg, next.env) ==> (r'.active != r.active <==> Crosses(r, cal, next)))
  {
    hide AfterCall, AfterCalls, Crosses, InStep, Succeeded;
    CallsStayInStep(s, db, cal, cfg, calls);
    CallRotatesIff(AfterCalls(s, db, cal, cfg, calls), db, cal, cfg, next);
  }

  /**
   Main result about names: after any calls in any order, a call that replaces the store leaves
   the file it archives under the name of the newest row's month if that is over, else under the
   name of the active month, which is the clock's at the last replacement if nothing adopted another.
   */
  lemma RunsNameTheMonth(s: RotationState, db: string, cal: Calendar, cfg: Config, calls: seq<Call>, next: Call)
    requires Rotation.Valid(s) && cfg.batchSize >= 1 && InStep(s, cal) && IsCall(cal, next)
    requires forall i :: 0 <= i < |calls| ==> IsCall(cal, calls[i])
    ensures var r := AfterCalls(s, db, cal, cfg, calls);
      var r' := AfterCall(r, db, cal, cfg, next);
      var env := next.env;
      var m := if env.dataMonth.Some? && env.dataMonth.value < env.clockMonth then env.dataMonth.value else r.month;
      Crosses(r, cal, next) && Succeeded(r, db, cfg, env) && db != StampedName(m, env.seconds) ==>
        ArchivedAs(r.names, r'.names, db, m, env.seconds) && r'.month == env.clockMonth
  {
    hide AfterCalls, InStep, Succeeded, Names, ArchivedAs, Rotated, StampedName;
    var r := AfterCalls(s, db, cal, cfg, calls);
    var env := next.env;
    CallsStayInStep(s, db, cal, cfg, calls);
    match next
    case Record(timeMs, seen, _) =>
      CallsArchive(r, db, cal, cfg, timeMs, seen, env);
      RecordCrosses(r, cal, timeMs);
      RotatedStaysInStep(r, db, cal, cfg, SealMonth(r, env), env);
    case Check(_) =>
      CallsArchive(r, db, cal, cfg, 0, 0, env);
      if env.dataMonth.Some? {
        RotatedStaysInStep(r, db, cal, cfg, env.dataMonth.value, env);
      }
  }

  lemma RecordCrosses(s: RotationState, cal: Calendar, timeMs: int)
    requires InStep(s, cal) && Names(cal, timeMs)
    ensures timeMs >= s.boundary <==> cal.monthOf(timeMs) > s.month
  {
    BoundarySplitsMonths(cal, s.month, timeMs);
  }

  // ---------------------------------------------------------------- interleaved steps

  /** Where the one rotation that may hold the lock stands. */
  datatype Stage =
    | Idle
    | Asking(archive: string)
    | Sealing(archive: string)
    | SealedFor(archive: string)
    | Opening
    | Reopening(store: StoreId)

  /** `archived` remembers the files that were renamed away. */
  datatype House = House(w: WriterRuns.World, names: Directory, active: StoreId, stage: Stage, archived: set<StoreId>)

  datatype Step =
    | Task(action: WriterRuns.Action)
    | Start(month: int, seconds: nat)
    | Ask
    | Rename(ok: bool)
    | Open(init: Init)
    | Reopen(answers: bool)

  /** Sealing and resuming are the rotation's alone, and so is making a new file. */
  predicate IsTaskStep(a: WriterRuns.Action) {
    !a.Create? && !a.Resume? && !(a.Begin? && a.cmd.SealCmd?)
  }

  ghost predicate Next(cfg: Config, db: string, h: House, step: Step, h': House)
    requires WriterRuns.Valid(h.w)
  {
    match step
    case Task(a) =>
      IsTaskStep(a) && WriterRuns.Next(cfg, h.w, a, h'.w) &&
      h' == h.(w := h'.w,
               stage := if h.stage.Sealing? && h'.w.pc.Selecting? then
                          if h'.w.s.store.None? then SealedFor(h.stage.archive) else Idle
                        else h.stage)
    case Start(month, seconds) =>
      h.stage.Idle? && db in h.names && h' == h.(stage := Asking(ArchiveName(h.names, month, seconds)))
    case Ask =>
      h.stage.Asking? &&
      if h.w.pc.Stopped? then h' == h.(stage := Idle)
      else
        WriterRuns.Next(cfg, h.w, WriterRuns.Begin(WriterRuns.SealCmd), h'.w) &&
        h' == h.(w := h'.w, stage := if h.w.s.store.Some? then Sealing(h.stage.archive) else SealedFor(h.stage.archive))
    case Rename(ok) =>
      h.stage.SealedFor? && db in h.names &&
      h' == if ok then h.(names := Moved(h.names, db, h.stage.archive), archived := h.archived + {h.names[db]},
                          stage := Opening)
            else h.(stage := Reopening(h.active))
    case Open(init) =>
      h.stage.Opening? && (!init.LeavesNothing? ==> init.file !in h.w.s.files) &&
      h' == (match init
             case LeavesNothing => h.(stage := Idle)
             case LeavesAFile(f) => h.(names := h.names[db := f], w := h.w.(s := Created(h.w.s, f)), stage := Idle)
             case Opens(f) =>
               h.(names := h.names[db := f], w := h.w.(s := Created(h.w.s, f)), active := f, stage := Reopening(f)))
    case Reopen(answers) =>
      h.stage.Reopening? &&
      if h.w.pc.Stopped? then h' == h.(stage := Idle)
      else
        WriterRuns.Next(cfg, h.w, WriterRuns.Resume(h.stage.store, answers), h'.w) &&
        h' == h.(w := h'.w, stage := Idle)
  }

  /** The stages in which the writer must not touch a store. */
  predicate InWindow(h: House) {
    h.stage.SealedFor? || h.stage.Opening? || h.stage.Reopening?
  }

  ghost predicate Inv(db: string, h: House) {
    WriterRuns.Valid(h.w) && WriterRuns.SealedIsEmpty(h.w) &&
    h.names.Values <= h.w.s.files.Keys && h.archived <= h.w.s.files.Keys && h.active in h.w.s.files &&
    (InWindow(h) ==> h.w.s.store.None?) &&
    (h.stage.Sealing? ==> h.w.pc == WriterRuns.Draining(WriterRuns.SealCmd)) &&
    (h.stage.Asking? || h.stage.Sealing? || h.stage.SealedFor? ==> db in h.names && h.stage.archive != db) &&
    (h.stage.Opening? ==> db !in h.names && h.active in h.archived) &&
    (h.w.s.store.Some? ==> h.w.s.store.value == h.active && db in h.names) &&
    (h.stage.Reopening? ==> h.stage.store == h.active && db in h.names) &&
    (db in h.names ==> h.names[db] !in h.archived && (h.names[db] == h.active || h.active in h.archived))
  }

  ghost predicate IsRun(cfg: Config, db: string, run: seq<House>, steps: seq<Step>) {
    |run| == |steps| + 1 &&
    forall i :: 0 <= i < |steps| ==> WriterRuns.Valid(run[i].w) && Next(cfg, db, run[i], steps[i], run[i + 1])
  }

  /** The database is not itself named like a stamped archive. */
  ghost predicate NamesDiffer(db: string) {
    forall month, seconds :: db != StampedName(month, seconds)
  }

  // ---------------------------------------------------------------- safety

  lemma TaskKeepsInv(cfg: Config, db: string, h: House, a: WriterRuns.Action, h': House)
    requires Inv(db, h) && Next(cfg, db, h, Task(a), h')
    ensures Inv(db, h')
  {
    hide WriterRuns.Next, WriterRuns.SealedIsEmpty;
    WriterRuns.StepKeepsFiles(cfg, h.w, a, h'.w);
    WriterRuns.StepKeepsSealedEmpty(cfg, h.w, a, h'.w);
    WriterRuns.OnlyResumeOpens(cfg, h.w, a, h'.w);
  }

  lemma StepKeepsInv(cfg: Config, db: string, h: House, step: Step, h': House)
    requires NamesDiffer(db) && Inv(db, h) && Next(cfg, db, h, step, h')
    ensures Inv(db, h')
  {
    hide StampedName, PlainName, NextId;
    match step
    case Task(a) =>
      TaskKeepsInv(cfg, db, h, a, h');
    case _ =>
  }

  /** The house at startup: the writer runs on the file called `record.db`. */
  ghost predicate Fresh(db: string, h: House) {
    WriterRuns.Valid(h.w) && h.stage.Idle? && h.archived == {} && db in h.names && h.names[db] == h.active &&
    h.w.s.store == Some(h.active) && h.names.Values <= h.w.s.files.Keys
  }

  lemma {:induction false} RunsKeepInv(cfg: Config, db: string, run: seq<House>, steps: seq<Step>, n: nat)
    requires NamesDiffer(db) && IsRun(cfg, db, run, steps) && Fresh(db, run[0]) && n < |run|
    ensures Inv(db, run[n])
  {
    hide Next, NamesDiffer;
    if n > 0 {
      hide Inv;
      RunsKeepInv(cfg, db, run, steps, n - 1);
      StepKeepsInv(cfg, db, run[n - 1], steps[n - 1], run[n]);
    }
  }

  /**
   In every world of every run: the open store is the file called `record.db` exactly when the
   store the process regards as active has not been archived.
   */
  lemma OpenStoreIsTheNamedFile(cfg: Config, db: string, run: seq<House>, steps: seq<Step>, n: nat)
    requires NamesDiffer(db) && IsRun(cfg, db, run, steps) && Fresh(db, run[0]) && n < |run|
    ensures var h := run[n];
      h.w.s.store.Some? ==>
        db in h.names && (h.w.s.store == Some(h.names[db]) <==> h.w.s.store.value !in h.archived)
  {
    hide Next, NamesDiffer;
    RunsKeepInv(cfg, db, run, steps, n);
  }

  /** Only a database opening that fails and leaves a file lets an archive stay the active store beside a named file. */
  lemma {:induction false} ActiveIsNotAnArchive(cfg: Config, db: string, run: seq<House>, steps: seq<Step>, n: nat)
    requires NamesDiffer(db) && IsRun(cfg, db, run, steps) && Fresh(db, run[0]) && n < |run|
    requires forall i :: 0 <= i < n ==> !(steps[i].Open? && steps[i].init.LeavesAFile?)
    ensures db in run[n].names ==> run[n].active !in run[n].archived
  {
    hide Next, NamesDiffer;
    RunsKeepInv(cfg, db, run, steps, n);
    if n > 0 {
      ActiveIsNotAnArchive(cfg, db, run, steps, n - 1);
      RunsKeepInv(cfg, db, run, steps, n - 1);
      StepKeepsActive(cfg, db, run[n - 1], steps[n - 1], run[n]);
    }
  }

  lemma StepKeepsActive(cfg: Config, db: string, h: House, step: Step, h': House)
    requires Inv(db, h) && Next(cfg, db, h, step, h') && !(step.Open? && step.init.LeavesAFile?)
    requires db in h.names ==> h.active !in h.archived
    ensures db in h'.names ==> h'.active !in h'.archived
  {
    hide WriterRuns.Next, WriterRuns.Valid, WriterRuns.SealedIsEmpty, NextId;
  }

  /** A rename that fails while the file under the database's name is not the active store. */
  ghost predicate Relapses(db: string, h: House, step: Step) {
    step == Rename(false) && db in h.names && h.names[db] != h.active
  }

  /** Without such a rename the open store, and the one to be resumed with, is no archive. */
  lemma {:induction false} OpenStoreIsNotAnArchive(cfg: Config, db: string, run: seq<House>, steps: seq<Step>, n: nat)
    requires NamesDiffer(db) && IsRun(cfg, db, run, steps) && Fresh(db, run[0]) && n < |run|
    requires forall i :: 0 <= i < n ==> !Relapses(db, run[i], steps[i])
    ensures run[n].w.s.store.Some? || run[n].stage.Reopening? ==> run[n].active !in run[n].archived
    ensures run[n].w.s.store.Some? ==> run[n].w.s.store.value == run[n].active
  {
    hide Next, NamesDiffer, Relapses;
    RunsKeepInv(cfg, db, run, steps, n);
    if n > 0 {
      OpenStoreIsNotAnArchive(cfg, db, run, steps, n - 1);
      RunsKeepInv(cfg, db, run, steps, n - 1);
      StepKeepsOpenStore(cfg, db, run[n - 1], steps[n - 1], run[n]);
    }
  }

  lemma StepKeepsOpenStore(cfg: Config, db: string, h: House, step: Step, h': House)
    requires Inv(db, h) && Next(cfg, db, h, step, h') && !Relapses(db, h, step)
    requires h.w.s.store.Some? || h.stage.Reopening? ==> h.active !in h.archived
    ensures h'.w.s.store.Some? || h'.stage.Reopening? ==> h'.active !in h'.archived
  {
    hide WriterRuns.Next, NextId;
    match step
    case Task(a) => WriterRuns.OnlyResumeOpens(cfg, h.w, a, h'.w);
    case Ask =>
      if !h.w.pc.Stopped? {
        WriterRuns.OnlyResumeOpens(cfg, h.w, WriterRuns.Begin(WriterRuns.SealCmd), h'.w);
      }
    case _ =>
  }

  lemma {:induction false} TasksKeepTheHouse(cfg: Config, db: string, run: seq<House>, steps: seq<Step>, i: nat, j: nat)
    requires IsRun(cfg, db, run, steps) && i <= j < |run| && run[i].stage.Reopening?
    requires forall k :: i <= k < j ==> steps[k].Task?
    ensures run[j] == run[i].(w := run[j].w)
    decreases j
  {
    hide WriterRuns.Next;
    if i < j {
      TasksKeepTheHouse(cfg, db, run, steps, i, j - 1);
    }
  }

  /**
   In every run, a resume opens an archive exactly when the rotation came to it through such a
   rename: `i` is the last step of the rotation before the resume at `j`.
   */
  lemma ResumeOpensAnArchiveIff(cfg: Config, db: string, run: seq<House>, steps: seq<Step>, i: nat, j: nat)
    requires NamesDiffer(db) && IsRun(cfg, db, run, steps) && Fresh(db, run[0]) && i < j < |steps|
    requires steps[j] == Reopen(true) && !run[j].w.pc.Stopped?
    requires !steps[i].Task? && forall k :: i < k < j ==> steps[k].Task?
    ensures run[j + 1].w.s.store == Some(run[j + 1].active)
    ensures run[j + 1].active in run[j + 1].archived <==> Relapses(db, run[i], steps[i])
  {
    hide NamesDiffer, WriterRuns.Next, Next;
    RunsKeepInv(cfg, db, run, steps, i);
    ReopensFromReopening(cfg, db, run[j], run[j + 1]);
    LastStepDecides(cfg, db, run, steps, i, j);
    TasksKeepTheHouse(cfg, db, run, steps, i + 1, j);
    RunsKeepInv(cfg, db, run, steps, j);
    ReopenOpens(cfg, db, run[j], run[j + 1]);
    ToReopening(cfg, db, run[i], steps[i], run[i + 1]);
  }

  /** Going backwards over writer steps, the stage in front of a resume is that of the resume. */
  lemma {:induction false} LastStepDecides(cfg: Config, db: string, run: seq<House>, steps: seq<Step>, i: nat, j: nat)
    requires NamesDiffer(db) && IsRun(cfg, db, run, steps) && Fresh(db, run[0]) && i < j < |run|
    requires run[j].stage.Reopening?
    requires forall k :: i < k < j ==> steps[k].Task?
    ensures run[i + 1].stage.Reopening?
    decreases j
  {
    hide NamesDiffer, WriterRuns.Next;
    if i + 1 < j {
      var k := j - 1;
      assert Next(cfg, db, run[k], steps[k], run[k + 1]);
      LastStepDecides(cfg, db, run, steps, i, k);
    }
  }

  lemma ReopensFromReopening(cfg: Config, db: string, h: House, h': House)
    requires WriterRuns.Valid(h.w) && Next(cfg, db, h, Reopen(true), h')
    ensures h.stage.Reopening?
  {
  }

  lemma ReopenOpens(cfg: Config, db: string, h: House, h': House)
    requires Inv(db, h) && Next(cfg, db, h, Reopen(true), h') && !h.w.pc.Stopped?
    ensures h'.w.s.store == Some(h.active) && h'.active == h.active && h'.archived == h.archived
  {
    hide NextId;
  }

  lemma ToReopening(cfg: Config, db: string, h: House, step: Step, h': House)
    requires Inv(db, h) && Next(cfg, db, h, step, h') && !step.Task? && h'.stage.Reopening?
    ensures h'.active in h'.archived <==> Relapses(db, h, step)
  {
    hide WriterRuns.Next;
  }

  /**
   From its rename on, an archived file keeps its rows through every run without a rename that
   fails while the named file is not the active store.
   */
  lemma {:induction false} ArchivesNeverChange(
      cfg: Config, db: string, run: seq<House>, steps: seq<Step>, f: StoreId, i: nat, j: nat)
    requires NamesDiffer(db) && IsRun(cfg, db, run, steps) && Fresh(db, run[0]) && i <= j < |run|
    requires forall k :: 0 <= k < j ==> !Relapses(db, run[k], steps[k])
    requires f in run[i].archived
    ensures f in run[j].archived && f in run[i].w.s.files && f in run[j].w.s.files
    ensures run[j].w.s.files[f] == run[i].w.s.files[f]
    decreases j
  {
    hide Next, NamesDiffer, Relapses;
    RunsKeepInv(cfg, db, run, steps, i);
    if i < j {
      hide Inv;
      ArchivesNeverChange(cfg, db, run, steps, f, i, j - 1);
      OpenStoreIsNotAnArchive(cfg, db, run, steps, j - 1);
      ClosedFilesStay(cfg, db, run[j - 1], steps[j - 1], run[j], f);
    }
  }

  lemma ClosedFilesStay(cfg: Config, db: string, h: House, step: Step, h': House, f: StoreId)
    requires WriterRuns.Valid(h.w) && Next(cfg, db, h, step, h') && f in h.w.s.files && h.w.s.store != Some(f)
    ensures f in h'.w.s.files && h'.w.s.files[f] == h.w.s.files[f] && h.archived <= h'.archived
  {
    hide WriterRuns.Next, NextId;
    match step
    case Task(a) => WriterRuns.OnlyTheOpenStoreChanges(cfg, h.w, a, h'.w, f);
    case Ask =>
      if !h.w.pc.Stopped? {
        WriterRuns.OnlyTheOpenStoreChanges(cfg, h.w, WriterRuns.Begin(WriterRuns.SealCmd), h'.w, f);
      }
    case Reopen(answers) =>
      if !h.w.pc.Stopped? {
        WriterRuns.OnlyTheOpenStoreChanges(cfg, h.w, WriterRuns.Resume(h.stage.store, answers), h'.w, f);
      }
    case _ =>
  }

  /** Between the seal's success and the resume nothing is written anywhere; what is queued stays queued. */
  lemma {:induction false} TheWindowIsQuiet(cfg: Config, db: string, run: seq<House>, steps: seq<Step>, i: nat, j: nat)
    requires NamesDiffer(db) && IsRun(cfg, db, run, steps) && Fresh(db, run[0]) && i <= j < |run|
    requires forall k :: i <= k < j ==> InWindow(run[k]) && !steps[k].Reopen?
    ensures run[i].w.s.queue <= run[j].w.s.queue && run[i].w.consumed == run[j].w.consumed
    ensures forall f :: f in run[i].w.s.files ==> f in run[j].w.s.files && run[i].w.s.files[f] == run[j].w.s.files[f]
    decreases j
  {
    hide Next, NamesDiffer;
    if i < j {
      TheWindowIsQuiet(cfg, db, run, steps, i, j - 1);
      RunsKeepInv(cfg, db, run, steps, j - 1);
      QuietStep(cfg, db, run[j - 1], steps[j - 1], run[j]);
    }
  }

  lemma QuietStep(cfg: Config, db: string, h: House, step: Step, h': House)
    requires Inv(db, h) && Next(cfg, db, h, step, h') && InWindow(h) && !step.Reopen?
    ensures h.w.s.queue <= h'.w.s.queue && h.w.consumed == h'.w.consumed
    ensures forall f :: f in h.w.s.files ==> f in h'.w.s.files && h.w.s.files[f] == h'.w.s.files[f]
  {
    hide WriterRuns.Next;
    if step.Task? {
      WriterRuns.SealedTaskWaits(cfg, h.w, step.action, h'.w);
    }
  }

  /** A database that could not be opened at all stays closed: every later rotation finds no file and gives up. */
  lemma {:induction false} FailedOpenIsForever(cfg: Config, db: string, run: seq<House>, steps: seq<Step>,
                                               i: nat, j: nat)
    requires NamesDiffer(db) && IsRun(cfg, db, run, steps) && Fresh(db, run[0]) && i < j < |run|
    requires steps[i] == Open(LeavesNothing)
    ensures run[j].stage.Idle? && db !in run[j].names && run[j].w.s.store.None?
    ensures run[i].w.s.queue <= run[j].w.s.queue && run[j].w.consumed == run[i].w.consumed
    decreases j
  {
    hide NamesDiffer, Next;
    var k := j - 1;
    RunsKeepInv(cfg, db, run, steps, k);
    if i < k {
      FailedOpenIsForever(cfg, db, run, steps, i, k);
    }
    ClosedStep(cfg, db, run[k], steps[k], run[j]);
  }

  lemma ClosedStep(cfg: Config, db: string, h: House, step: Step, h': House)
    requires Inv(db, h) && Next(cfg, db, h, step, h')
    requires step == Open(LeavesNothing) || (h.stage.Idle? && db !in h.names && h.w.s.store.None?)
    ensures h'.stage.Idle? && db !in h'.names && h'.w.s.store.None?
    ensures h.w.s.queue <= h'.w.s.queue && h'.w.consumed == h.w.consumed
  {
    hide WriterRuns.Next;
    if step.Task? {
      WriterRuns.SealedTaskWaits(cfg, h.w, step.action, h'.w);
    }
  }

  /**
   The failing family: an archive is still the active store, a leftover file carries the
   database's name, and the next rename fails. The writer then appends to the archive.
   */
  lemma FailedRenameReopensTheArchive(cfg: Config, db: string, h: House, month: int, seconds: nat)
    returns (run: seq<House>)
    requires Inv(db, h) && h.stage.Idle? && h.w.pc.Selecting? && h.w.s.store.None? && db in h.names
    ensures IsRun(cfg, db, run, [Start(month, seconds), Ask, Rename(false), Reopen(true)]) && run[0] == h
    ensures run[4].w.s.store == Some(h.active)
    ensures run[4].w.s.store.value in run[4].archived <==> h.names[db] != h.active
  {
    hide NextId, ArchiveName;
    var a := ArchiveName(h.names, month, seconds);
    var h1 := h.(stage := Asking(a));
    var h2 := h.(stage := SealedFor(a));
    var h3 := h.(stage := Reopening(h.active));
    var h4 := h.(stage := Idle, w := h.w.(s := Resumed(h.w.s, h.active)));
    run := [h, h1, h2, h3, h4];
  }

  /** That state is reached from any idle start-up state by one rotation whose opening fails and leaves a file. */
  lemma ArchiveCanBecomeActive(cfg: Config, db: string, h: House, month: int, seconds: nat, attempts: nat -> Attempt,
                               f: StoreId)
    returns (run: seq<House>)
    requires NamesDiffer(db) && Fresh(db, h) && h.w.pc.Selecting? && h.w.s.batch == [] && h.w.s.queue == []
    requires f !in h.w.s.files
    ensures IsRun(cfg, db, run,
                  [Start(month, seconds), Ask, Task(WriterRuns.Round(attempts, true)), Rename(true),
                   Open(LeavesAFile(f))])
    ensures run[0] == h && Inv(db, run[5]) && run[5].stage.Idle? && run[5].w.pc.Selecting? && run[5].w.s.store.None?
    ensures db in run[5].names && run[5].names[db] != run[5].active
  {
    hide ArchiveName, WriterRuns.Next, NamesDiffer;
    var a := ArchiveName(h.names, month, seconds);
    var h1 := h.(stage := Asking(a));
    SealBegins(cfg, h.w);
    var h2 := h.(stage := Sealing(a), w := h.w.(pc := WriterRuns.Draining(WriterRuns.SealCmd)));
    EmptyRound(cfg, h2.w, attempts);
    var h3 := h.(stage := SealedFor(a), w := h.w.(s := h.w.s.(store := None)));
    var h4 := h3.(names := Moved(h3.names, db, a), archived := {h.active}, stage := Opening);
    var h5 := h4.(names := h4.names[db := f], w := h4.w.(s := Created(h4.w.s, f)), stage := Idle);
    assert h.archived + {h.names[db]} == {h.active};
    run := [h, h1, h2, h3, h4, h5];
    var steps := [Start(month, seconds), Ask, Task(WriterRuns.Round(attempts, true)), Rename(true),
                  Open(LeavesAFile(f))];
    assert Next(cfg, db, h2, steps[2], h3);
    assert Next(cfg, db, h1, steps[1], h2);
    hide Next;
    RunsKeepInv(cfg, db, run, steps, 5);
  }

  lemma SealBegins(cfg: Config, w: WriterRuns.World)
    requires WriterRuns.Valid(w) && w.pc.Selecting? && w.s.store.Some?
    ensures WriterRuns.Next(cfg, w, WriterRuns.Begin(WriterRuns.SealCmd),
                            w.(pc := WriterRuns.Draining(WriterRuns.SealCmd)))
  {
  }

  /** A drain with nothing to write ends at once, and the seal takes effect. */
  lemma EmptyRound(cfg: Config, w: WriterRuns.World, attempts: nat -> Attempt)
    requires WriterRuns.Valid(w) && w.pc == WriterRuns.Draining(WriterRuns.SealCmd) && w.s.store.Some?
    requires w.s.batch == [] && w.s.queue == []
    ensures WriterRuns.Next(cfg, w, WriterRuns.Round(attempts, true),
                            w.(pc := WriterRuns.Selecting, s := w.s.(store := None)))
  {
    hide Flushed, Inserted, Outcome;
    NothingToDrain(w.s, cfg, attempts);
    hide Filled, DrainRound;
    assert w.consumed + [] == w.consumed && w.committed + [] == w.committed;
  }

  lemma NothingToDrain(s: AuditWriter.State, cfg: Config, attempts: nat -> Attempt)
    requires s.batch == [] && s.queue == [] && (s.store.Some? ==> s.store.value in s.files)
    ensures Filled(s, cfg.batchSize) == s && DrainRound(s, cfg, attempts) == (s, Done(true))
  {
    hide Flushed, Inserted, Outcome;
    assert Filled(s, cfg.batchSize) == s;
  }

  // ---------------------------------------------------------------- the writer inside a rotation

  /** The step the writer takes in a step of the whole, if it takes one. */
  function WriterStep(h: House, step: Step): Option<WriterRuns.Action> {
    match step
    case Task(a) => Some(a)
    case Ask => if h.w.pc.Stopped? then None else Some(WriterRuns.Begin(WriterRuns.SealCmd))
    case Open(init) => if init.LeavesNothing? then None else Some(WriterRuns.Create(init.file))
    case Reopen(answers) =>
      if h.stage.Reopening? && !h.w.pc.Stopped? then Some(WriterRuns.Resume(h.stage.store, answers)) else None
    case _ => None
  }

  /** Every step of rotation, task and senders is a step of the writer or none. */
  lemma StepsAreWriterSteps(cfg: Config, db: string, h: House, step: Step, h': House)
    requires WriterRuns.Valid(h.w) && Next(cfg, db, h, step, h')
    ensures match WriterStep(h, step)
      case Some(a) => WriterRuns.Next(cfg, h.w, a, h'.w)
      case None => h'.w == h.w
  {
  }

  /** What the first `n` steps told the stores. */
  function Journal(run: seq<House>, steps: seq<Step>, n: nat): seq<WriterRuns.Entry>
    requires |run| == |steps| + 1 && n < |run|
  {
    if n == 0 then []
    else
      match WriterStep(run[n - 1], steps[n - 1])
      case None => Journal(run, steps, n - 1)
      case Some(a) => Journal(run, steps, n - 1) + WriterRuns.Entries(run[n - 1].w, a, run[n].w)
  }

  /** So through every run of rotations, too, no item is lost, doubled or reordered, and no id left out. */
  lemma {:induction false} RotationsKeepEverything(
      cfg: Config, db: string, run: seq<House>, steps: seq<Step>, base: map<StoreId, Table>, n: nat)
    requires IsRun(cfg, db, run, steps) && WriterRuns.Fresh(run[0].w, base) && n < |run|
    ensures WriterRuns.Conserved(run[n].w) && WriterRuns.InOrder(run[n].w) && WriterRuns.SealedIsEmpty(run[n].w)
    ensures WriterRuns.Written(Journal(run, steps, n)) == run[n].w.committed
    ensures WriterRuns.GapFree(run[n].w.s, base, Journal(run, steps, n))
  {
    hide Next, WriterStep, WriterRuns.Next, WriterRuns.Conserved, WriterRuns.InOrder, WriterRuns.GapFree,
      WriterRuns.Written, WriterRuns.Entries, WriterRuns.SealedIsEmpty;
    if n == 0 {
      WriterRuns.FreshKeepsEverything(run[0].w, base);
    } else {
      var i := n - 1;
      var h, h' := run[i], run[n];
      RotationsKeepEverything(cfg, db, run, steps, base, i);
      StepsAreWriterSteps(cfg, db, h, steps[i], h');
      match WriterStep(h, steps[i])
      case None =>
      case Some(a) =>
        var journal := Journal(run, steps, i);
        WriterRuns.StepKeepsItems(cfg, h.w, a, h'.w);
        WriterRuns.StepKeepsSealedEmpty(cfg, h.w, a, h'.w);
        WriterRuns.StepKeepsCommitted(cfg, h.w, a, h'.w, journal);
        WriterRuns.StepKeepsIds(cfg, h.w, a, h'.w, base, journal);
    }
  }
}
