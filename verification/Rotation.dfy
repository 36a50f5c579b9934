/**
 Monthly rotation: seal the writer, rename `record.db` to an archive name, open a new database
 and resume with it. The month tests decide when that happens.
 */
module Rotation {
  import opened Wrappers
  import opened Numbers
  import opened AuditWriter
  import WriterRuns

  /** The names in the database directory and the files they stand for. */
  type Directory = map<string, StoreId>

  // ---------------------------------------------------------------- names

  function Zeros(n: nat): (s: string)
    ensures |s| == n && forall c :: c in s ==> c == '0'
  {
    if n == 0 then "" else "0" + Zeros(n - 1)
  }

  /** `{:06}`: the sign counts towards the width. */
  function Padded(n: int): string {
    var m: nat := if n < 0 then -n else n;
    var width := if n < 0 then 5 else 6;
    var digits := Digits(m, 10);
    (if n < 0 then "-" else "") + Zeros(if |digits| < width then width - |digits| else 0) + digits
  }

  function PlainName(month: int): string {
    "record_" + Padded(month) + ".db"
  }

  function StampedName(month: int, seconds: nat): string {
    "record_" + Padded(month) + "_" + Digits(seconds, 10) + ".db"
  }

  function ArchiveName(names: Directory, month: int, seconds: nat): string {
    if PlainName(month) in names then StampedName(month, seconds) else PlainName(month)
  }

  lemma {:induction false} ZerosParse(n: nat, digits: string)
    ensures ParseDigits(Zeros(n) + digits, 10) == ParseDigits(digits, 10)
    decreases n, |digits|
  {
    hide DigitValue;
    var s := Zeros(n) + digits;
    if digits == "" {
      assert s == Zeros(n);
      if n > 0 {
        ZerosParse(n - 1, "");
        ZerosShift(n - 1);
        assert s[..|s| - 1] == Zeros(n - 1) + "";
        DigitRoundTrip(0, 10);
      }
    } else {
      ZerosParse(n, digits[..|digits| - 1]);
      assert s[..|s| - 1] == Zeros(n) + digits[..|digits| - 1];
    }
  }

  lemma {:induction false} ZerosShift(n: nat)
    ensures Zeros(n + 1) == Zeros(n) + "0"
  {
    if n > 0 {
      ZerosShift(n - 1);
    }
  }

  /** Padding never runs two months together, and never holds the characters that follow it. */
  lemma PaddedIsInjective(a: int, b: int)
    ensures '.' !in Padded(a) && '_' !in Padded(a)
    ensures Padded(a) == Padded(b) ==> a == b
  {
    hide Padded, ParseDigits;
    var p := PaddedParses(a);
    var q := PaddedParses(b);
    assert p[0] in p && q[0] in q && "" + p == p && "" + q == q;
    assert a < 0 ==> Padded(a)[0] == '-' && Padded(a)[1..] == p;
    assert b < 0 ==> Padded(b)[0] == '-' && Padded(b)[1..] == q;
  }

  lemma PaddedParses(a: int) returns (p: string)
    ensures Padded(a) == (if a < 0 then "-" else "") + p
    ensures p != "" && '-' !in p && '.' !in p && '_' !in p
    ensures ParseDigits(p, 10) == Some(if a < 0 then -a else a)
  {
    hide Digits, ParseDigits, DigitValue;
    var m: nat := if a < 0 then -a else a;
    var digits := Digits(m, 10);
    DigitsParse(m, 10);
    MarksAreNoDigits();
    assert '.' !in digits && '_' !in digits && '-' !in digits;
    var zeros := |Padded(a)| - |digits| - if a < 0 then 1 else 0;
    p := Zeros(zeros) + digits;
    ZerosParse(zeros, digits);
    assert Padded(a) == (if a < 0 then "-" else "") + p;
  }

  lemma MarksAreNoDigits()
    ensures DigitValue('.', 10).None? && DigitValue('_', 10).None? && DigitValue('-', 10).None?
  {
  }

  /** An archive's name tells its month: archives of different months never take each other's name. */
  lemma ArchiveNamesTellMonths(names: Directory, names': Directory, a: int, b: int, s: nat, t: nat)
    requires ArchiveName(names, a, s) == ArchiveName(names', b, t)
    ensures a == b
  {
    hide Padded, Digits;
    var x, y := ArchiveName(names, a, s), ArchiveName(names', b, t);
    var p, q := Padded(a), Padded(b);
    PaddedIsInjective(a, b);
    PaddedIsInjective(b, a);
    assert x[7..7 + |p|] == p && (x[7 + |p|] == '.' || x[7 + |p|] == '_');
    assert y[7..7 + |q|] == q && (y[7 + |q|] == '.' || y[7 + |q|] == '_');
    assert |p| == |q|;
  }

  function Padding(n: nat, width: nat): string {
    Zeros(if |Digits(n, 10)| < width then width - |Digits(n, 10)| else 0) + Digits(n, 10)
  }

  lemma {:induction false} PaddingEnds(n: nat, d: nat, width: nat)
    requires width >= 1 && d < 10
    ensures Padding(n * 10 + d, width + 1) == Padding(n, width) + ['0' + d as char]
  {
    if n == 0 {
      ZerosShift(width - 1);
    }
  }

  /** The archives of a month in letters: `record_202609.db` and `record_202609_1700000000.db`. */
  lemma NamesInLetters(year: nat, month: nat, a: nat, b: nat, c: nat, d: nat, e: nat, f: nat, seconds: nat)
    requires a < 10 && b < 10 && c < 10 && d < 10 && e < 10 && f < 10
    requires year == ((a * 10 + b) * 10 + c) * 10 + d && month == e * 10 + f
    ensures var yyyymm := ['0' + a as char, '0' + b as char, '0' + c as char, '0' + d as char,
                           '0' + e as char, '0' + f as char];
      PlainName(year * 100 + month) == "record_" + yyyymm + ".db" &&
      StampedName(year * 100 + month, seconds) == "record_" + yyyymm + "_" + Digits(seconds, 10) + ".db"
  {
    hide *;
    var m := year * 100 + month;
    PaddingEnds(year * 10 + e, f, 5);
    PaddingEnds(year, e, 4);
    PaddingEnds((a * 10 + b) * 10 + c, d, 3);
    PaddingEnds(a * 10 + b, c, 2);
    PaddingEnds(a, b, 1);
    OneDigit(a);
    PaddedIsPadding(m);
    assert Padded(m) == ['0' + a as char, '0' + b as char, '0' + c as char, '0' + d as char,
                         '0' + e as char, '0' + f as char];
    NamesArePadded(m, seconds);
  }

  lemma OneDigit(a: nat)
    requires a < 10
    ensures Padding(a, 1) == ['0' + a as char]
  {
  }

  lemma NamesArePadded(m: int, seconds: nat)
    ensures PlainName(m) == "record_" + Padded(m) + ".db"
    ensures StampedName(m, seconds) == "record_" + Padded(m) + "_" + Digits(seconds, 10) + ".db"
  {
    hide Padded, Digits;
  }

  lemma PaddedIsPadding(m: nat)
    ensures Padded(m) == Padding(m, 6)
  {
  }

  // ---------------------------------------------------------------- months

  /** Months are encoded as year * 100 + month. */
  predicate IsMonth(m: int) {
    m >= 0 && 1 <= m % 100 <= 12
  }

  function NextMonth(m: int): int {
    if m % 100 == 12 then (m / 100 + 1) * 100 + 1 else m / 100 * 100 + (m % 100 + 1)
  }

  /** Local time: the month of an instant, and the first instant of a month. */
  datatype Calendar = Calendar(monthOf: int -> int, firstOf: int -> int)

  /**
   An instant the calendar can name: its month is encoded, and it is not before the months its
   month is not before.
   */
  ghost predicate Names(cal: Calendar, t: int) {
    IsMonth(cal.monthOf(t)) && forall m :: IsMonth(m) ==> (cal.firstOf(m) <= t <==> m <= cal.monthOf(t))
  }

  /** From the year 0 on every instant can be named. */
  ghost predicate Agrees(cal: Calendar) {
    forall t :: cal.firstOf(1) <= t ==> Names(cal, t)
  }

  /** Such calendars exist: one instant for each month makes one. */
  lemma MonthsMakeACalendar()
    ensures Agrees(Calendar((t: int) => t / 12 * 100 + t % 12 + 1, (m: int) => m / 100 * 12 + m % 100 - 1))
  {
    var cal := Calendar((t: int) => t / 12 * 100 + t % 12 + 1, (m: int) => m / 100 * 12 + m % 100 - 1);
    forall t | cal.firstOf(1) <= t ensures Names(cal, t) {
      YearAndMonth(t / 12, t % 12 + 1);
      forall m | IsMonth(m) ensures cal.firstOf(m) <= t <==> m <= cal.monthOf(t) {
        MonthsCompare(m / 100, m % 100 - 1, t / 12, t % 12);
      }
    }
  }

  lemma MonthsCompare(y: nat, k: nat, z: nat, l: nat)
    requires k < 12 && l < 12
    ensures y * 12 + k <= z * 12 + l <==> y * 100 + k + 1 <= z * 100 + l + 1
  {
  }

  function Boundary(cal: Calendar, month: int): int {
    cal.firstOf(NextMonth(month))
  }

  lemma YearAndMonth(y: nat, k: nat)
    requires k < 100
    ensures (y * 100 + k) / 100 == y && (y * 100 + k) % 100 == k
  {
  }

  lemma NextMonthIsNext(m: int, k: int)
    requires IsMonth(m) && IsMonth(k)
    ensures IsMonth(NextMonth(m))
    ensures NextMonth(m) <= k <==> m < k
  {
    YearAndMonth(m / 100 + 1, 1);
    if m % 100 < 12 {
      YearAndMonth(m / 100, m % 100 + 1);
    }
  }

  /** The stored boundary separates exactly the month and its past from the future. */
  lemma BoundarySplitsMonths(cal: Calendar, month: int, t: int)
    requires Names(cal, t) && IsMonth(month)
    ensures t < Boundary(cal, month) <==> cal.monthOf(t) <= month
  {
    var n := NextMonth(month);
    NextMonthIsNext(month, cal.monthOf(t));
    assert cal.firstOf(n) <= t <==> n <= cal.monthOf(t);
  }

  // ---------------------------------------------------------------- one rotation

  /** What opening a new database under the freed name does. */
  datatype Init = Opens(file: StoreId) | LeavesAFile(file: StoreId) | LeavesNothing

  /** How the outside world answers one rotation. */
  datatype Env = Env(
    seconds: nat, dbs: nat -> (nat -> Attempt), checkpoints: bool, renames: bool, init: Init, resumes: bool,
    clockMonth: int, dataMonth: Option<int>)

  datatype RotationState = RotationState(names: Directory, active: StoreId, month: int, boundary: int,
                                         w: AuditWriter.State)

  ghost predicate Valid(s: RotationState) {
    s.active in s.w.files && (s.w.store.Some? ==> s.w.store.value in s.w.files)
  }

  /** A new file is new. */
  ghost predicate Plausible(s: RotationState, env: Env) {
    match env.init
    case Opens(f) => f !in s.w.files
    case LeavesAFile(f) => f !in s.w.files
    case LeavesNothing => true
  }

  /** `rename` replaces whatever stood under the new name. */
  function Moved(names: Directory, from: string, to: string): Directory
    requires from in names
  {
    (names - {from})[to := names[from]]
  }

  function Created(w: AuditWriter.State, file: StoreId): AuditWriter.State {
    w.(files := w.files[file := NO_ROWS])
  }

  function Rotated(s: RotationState, db: string, cal: Calendar, cfg: Config, month: int, env: Env): (r: RotationState)
    requires Valid(s) && cfg.batchSize >= 1
    ensures Valid(r) && s.w.files.Keys <= r.w.files.Keys
  {
    if db !in s.names then s
    else
      var archive := ArchiveName(s.names, month, env.seconds);
      var (w, sealed) := Sealed(s.w, cfg, env.dbs, env.checkpoints);
      SealKeepsFiles(s.w, cfg, env.dbs, env.checkpoints);
      if !sealed then s.(w := w)
      else if !env.renames then s.(w := if env.resumes then Resumed(w, s.active) else w)
      else
        var names := Moved(s.names, db, archive);
        match env.init
        case LeavesNothing => s.(names := names, w := w)
        case LeavesAFile(f) => s.(names := names[db := f], w := Created(w, f))
        case Opens(f) =>
          var t := s.(names := names[db := f], active := f);
          if env.resumes then
            t.(w := Resumed(Created(w, f), f), month := env.clockMonth, boundary := Boundary(cal, env.clockMonth))
          else t.(w := Created(w, f))
  }

  /** A rotation that replaced the store. */
  ghost predicate Succeeded(s: RotationState, db: string, cfg: Config, env: Env)
    requires Valid(s) && cfg.batchSize >= 1
  {
    db in s.names && Sealed(s.w, cfg, env.dbs, env.checkpoints).1 && env.renames && env.init.Opens? && env.resumes
  }

  /**
   The file that stood under `db` stands under the month's plain name, or under the name stamped
   with the seconds where the plain one was taken.
   */
  predicate ArchivedAs(before: Directory, after: Directory, db: string, month: int, seconds: nat) {
    var plain, stamped := PlainName(month), StampedName(month, seconds);
    db in before &&
    if plain in before then stamped in after && after[stamped] == before[db]
    else plain in after && after[plain] == before[db]
  }

  /**
   How a rotation ends that does not succeed: before the rename everything keeps its name, and the
   writer its store unless it could not be resumed; after it the writer has none, and the
   database's name stands for whatever file the opening left, without rows.
   */
  lemma FailedRotation(s: RotationState, db: string, cal: Calendar, cfg: Config, month: int, env: Env)
    requires Valid(s) && cfg.batchSize >= 1 && Plausible(s, env) && db in s.names
    ensures var r, sealed := Rotated(s, db, cal, cfg, month, env), Sealed(s.w, cfg, env.dbs, env.checkpoints).1;
      (!sealed ==> r.names == s.names && r.active == s.active && r.w.store == s.w.store) &&
      (sealed && !env.renames ==>
        r.names == s.names && r.active == s.active && r.w.store == if env.resumes then Some(s.active) else None) &&
      (sealed && env.renames && env.init.LeavesNothing? ==>
        db !in r.names - {ArchiveName(s.names, month, env.seconds)} && r.active == s.active && r.w.store.None?) &&
      (sealed && env.renames && env.init.LeavesAFile? ==>
        db in r.names && r.names[db] == env.init.file && env.init.file in r.w.files &&
        r.w.files[env.init.file] == NO_ROWS && r.active == s.active && r.w.store.None?) &&
      (sealed && env.renames && env.init.Opens? && !env.resumes ==>
        db in r.names && r.names[db] == env.init.file && env.init.file in r.w.files &&
        r.w.files[env.init.file] == NO_ROWS && r.active == env.init.file && r.w.store.None?)
  {
    hide Sealed, NextId, ArchiveName;
    SealKeepsFiles(s.w, cfg, env.dbs, env.checkpoints);
  }

  /** A rotation that succeeds names the archive after the month it was given. */
  lemma RotatedArchives(s: RotationState, db: string, cal: Calendar, cfg: Config, month: int, env: Env)
    requires Valid(s) && cfg.batchSize >= 1 && Succeeded(s, db, cfg, env) && db != StampedName(month, env.seconds)
    ensures ArchivedAs(s.names, Rotated(s, db, cal, cfg, month, env).names, db, month, env.seconds)
  {
    hide Sealed, NextId, PlainName, StampedName;
  }

  /** The stored boundary is that of the stored month. */
  ghost predicate InStep(s: RotationState, cal: Calendar) {
    IsMonth(s.month) && s.boundary == Boundary(cal, s.month)
  }

  ghost predicate TellsMonths(env: Env) {
    IsMonth(env.clockMonth) && (env.dataMonth.Some? ==> IsMonth(env.dataMonth.value))
  }

  /** A rotation moves month and boundary together, to the clock's month if it succeeds and else not at all. */
  lemma RotatedStaysInStep(s: RotationState, db: string, cal: Calendar, cfg: Config, month: int, env: Env)
    requires Valid(s) && cfg.batchSize >= 1
    ensures var r := Rotated(s, db, cal, cfg, month, env);
      (Succeeded(s, db, cfg, env) ==> r.month == env.clockMonth && r.boundary == Boundary(cal, env.clockMonth)) &&
      (!Succeeded(s, db, cfg, env) ==> r.month == s.month && r.boundary == s.boundary) &&
      (InStep(s, cal) && TellsMonths(env) ==> InStep(r, cal))
  {
    hide Sealed, NextId, ArchiveName, Boundary;
  }

  lemma {:induction false} DrainKeepsFiles(s: AuditWriter.State, cfg: Config, dbs: nat -> (nat -> Attempt), round: nat)
    requires s.store.Some? && s.store.value in s.files && cfg.batchSize >= 1
    ensures var d := Drained(s, cfg, dbs, round).0;
      d.files.Keys == s.files.Keys && d.store == s.store &&
      forall f :: f in s.files && f != s.store.value ==> d.files[f] == s.files[f]
    decreases |s.queue| + |s.batch|
  {
    hide Outcome, Inserted;
    RoundShrinks(s, cfg, dbs(round));
    var (s', r) := DrainRound(s, cfg, dbs(round));
    if r.Again? {
      DrainKeepsFiles(s', cfg, dbs, round + 1);
    }
  }

  lemma SealKeepsFiles(s: AuditWriter.State, cfg: Config, dbs: nat -> (nat -> Attempt), checkpoints: bool)
    requires s.store.Some? ==> s.store.value in s.files
    requires cfg.batchSize >= 1
    ensures var (w, sealed) := Sealed(s, cfg, dbs, checkpoints);
      w.files.Keys == s.files.Keys && (sealed ==> w.store.None?) && (!sealed ==> w.store == s.store) &&
      forall f :: f in s.files && s.store != Some(f) ==> w.files[f] == s.files[f]
  {
    if s.store.Some? {
      DrainKeepsFiles(s, cfg, dbs, 0);
    }
  }

  class Rotator {
    const db: string
    const cal: Calendar
    const writer: WriterTask
    var names: Directory
    var active: StoreId
    var month: int
    var boundary: int

    function View(): RotationState
      reads this, writer
    {
      RotationState(names, active, month, boundary, writer.View())
    }

    /** `init_rotation_state`: the month of the newest row, or of the clock. */
    constructor (db: string, cal: Calendar, writer: WriterTask, names: Directory, active: StoreId, env: Env)
      ensures this.db == db && this.cal == cal && this.writer == writer
      ensures var m := if env.dataMonth.Some? then env.dataMonth.value else env.clockMonth;
        View() == RotationState(names, active, m, Boundary(cal, m), writer.View())
    {
      this.db, this.cal, this.writer, this.names, this.active := db, cal, writer, names, active;
      var m := if env.dataMonth.Some? then env.dataMonth.value else env.clockMonth;
      month := m;
      boundary := Boundary(cal, m);
    }

    method RotateLocked(sealMonth: int, env: Env)
      requires Valid(View()) && writer.cfg.batchSize >= 1 && Plausible(View(), env)
      modifies this, writer
      ensures View() == Rotated(old(View()), db, cal, writer.cfg, sealMonth, env)
    {
      if db !in names {
        return;
      }
      var archive := PlainName(sealMonth);
      if archive in names {
        archive := StampedName(sealMonth, env.seconds);
      }
      var oldStore := active;
      SealKeepsFiles(writer.View(), writer.cfg, env.dbs, env.checkpoints);
      var sealed := writer.Seal(env.dbs, env.checkpoints);
      if !sealed {
        return;
      }
      if !env.renames {
        var _ := writer.Resume(oldStore, env.resumes);
        return;
      }
      names := Moved(names, db, archive);
      match env.init {
        case Opens(file) =>
          names, writer.files := names[db := file], writer.files[file := NO_ROWS];
          active := file;
          var resumed := writer.Resume(file, env.resumes);
          if resumed {
            month := env.clockMonth;
            boundary := Boundary(cal, env.clockMonth);
          }
        case LeavesAFile(file) =>
          names, writer.files := names[db := file], writer.files[file := NO_ROWS];
        case LeavesNothing =>
      }
    }

    /** The write path: `seen` is the boundary as it was read before waiting for the lock. */
    method RotateIfNeeded(timeMs: int, seen: int, env: Env)
      requires Valid(View()) && writer.cfg.batchSize >= 1 && Plausible(View(), env)
      modifies this, writer
      ensures View() == IfNeeded(old(View()), db, cal, writer.cfg, timeMs, seen, env)
      ensures old(InStep(View(), cal)) && TellsMonths(env) ==> InStep(View(), cal)
      ensures old(InStep(View(), cal)) && Names(cal, timeMs) && cal.monthOf(timeMs) <= old(month) ==>
        View() == old(View())
      ensures old(Succeeded(View(), db, writer.cfg, env)) && timeMs >= seen && timeMs >= old(boundary) ==>
        var m :=
          if env.dataMonth.Some? && env.dataMonth.value < env.clockMonth then env.dataMonth.value else old(month);
        db != StampedName(m, env.seconds) ==> ArchivedAs(old(names), names, db, m, env.seconds)
    {
      IfNeededStaysInStep(View(), db, cal, writer.cfg, timeMs, seen, env);
      CallsArchive(View(), db, cal, writer.cfg, timeMs, seen, env);
      hide ArchivedAs, Names, Succeeded, Boundary, StampedName, PlainName;
      if timeMs < seen {
        return;
      }
      if timeMs < boundary {
        return;
      }
      var sealMonth := month;
      if env.dataMonth.Some? && env.dataMonth.value < env.clockMonth {
        sealMonth := env.dataMonth.value;
      }
      RotateLocked(sealMonth, env);
    }

    /** The background check. */
    method CheckAndRotate(env: Env)
      requires Valid(View()) && writer.cfg.batchSize >= 1 && Plausible(View(), env)
      modifies this, writer
      ensures View() == Checked(old(View()), db, cal, writer.cfg, env)
      ensures old(InStep(View(), cal)) && TellsMonths(env) ==> InStep(View(), cal)
      ensures env.dataMonth.None? ==> View() == old(View())
      ensures env.dataMonth.Some? && env.dataMonth.value >= env.clockMonth ==>
        month == env.dataMonth.value && names == old(names) && active == old(active) &&
        writer.View() == old(writer.View())
      ensures env.dataMonth.Some? && env.dataMonth.value < env.clockMonth ==>
        if old(Succeeded(View(), db, writer.cfg, env)) then month == env.clockMonth && active == env.init.file
        else month == old(month) && boundary == old(boundary)
      ensures old(Succeeded(View(), db, writer.cfg, env)) ==>
        env.dataMonth.Some? && env.dataMonth.value < env.clockMonth ==>
        db != StampedName(env.dataMonth.value, env.seconds) ==>
        ArchivedAs(old(names), names, db, env.dataMonth.value, env.seconds)
    {
      CallsArchive(View(), db, cal, writer.cfg, 0, 0, env);
      RotatedStaysInStep(View(), db, cal, writer.cfg, if env.dataMonth.Some? then env.dataMonth.value else month, env);
      hide Sealed, NextId, ArchiveName, Boundary, ArchivedAs, StampedName, PlainName;
      if env.dataMonth.Some? {
        var dataMonth := env.dataMonth.value;
        if dataMonth < env.clockMonth {
          RotateLocked(dataMonth, env);
          return;
        }
        if dataMonth != month {
          month := dataMonth;
          boundary := Boundary(cal, dataMonth);
        }
      }
    }
  }

  /** The month to archive: that of the newest row if it is over, else the active one. */
  function SealMonth(s: RotationState, env: Env): int {
    if env.dataMonth.Some? && env.dataMonth.value < env.clockMonth then env.dataMonth.value else s.month
  }

  function IfNeeded(s: RotationState, db: string, cal: Calendar, cfg: Config, timeMs: int, seen: int,
                    env: Env): RotationState
    requires Valid(s) && cfg.batchSize >= 1
  {
    if timeMs < seen || timeMs < s.boundary then s
    else Rotated(s, db, cal, cfg, SealMonth(s, env), env)
  }

  function Checked(s: RotationState, db: string, cal: Calendar, cfg: Config, env: Env): RotationState
    requires Valid(s) && cfg.batchSize >= 1
  {
    match env.dataMonth
    case None => s
    case Some(m) =>
      if m < env.clockMonth then Rotated(s, db, cal, cfg, m, env)
      else s.(month := m, boundary := if m == s.month then s.boundary else Boundary(cal, m))
  }

  // ---------------------------------------------------------------- month and boundary

  /**
   A call that rotates names the archive after the newest row's month if that is over, and else
   after the active month; the background check rotates in the first case only.
   */
  lemma CallsArchive(s: RotationState, db: string, cal: Calendar, cfg: Config, timeMs: int, seen: int, env: Env)
    requires Valid(s) && cfg.batchSize >= 1
    ensures var over := env.dataMonth.Some? && env.dataMonth.value < env.clockMonth;
      var m := if over then env.dataMonth.value else s.month;
      Succeeded(s, db, cfg, env) && db != StampedName(m, env.seconds) ==>
        (timeMs >= seen && timeMs >= s.boundary ==>
          ArchivedAs(s.names, IfNeeded(s, db, cal, cfg, timeMs, seen, env).names, db, m, env.seconds)) &&
        (over ==> ArchivedAs(s.names, Checked(s, db, cal, cfg, env).names, db, m, env.seconds))
  {
    hide Rotated, Succeeded, ArchivedAs, StampedName;
    var m := if env.dataMonth.Some? && env.dataMonth.value < env.clockMonth then env.dataMonth.value else s.month;
    if Succeeded(s, db, cfg, env) && db != StampedName(m, env.seconds) {
      RotatedArchives(s, db, cal, cfg, m, env);
    }
  }

  /** A record that is not from a later month changes nothing, whatever boundary its caller has seen. */
  lemma IfNeededStaysInStep(
      s: RotationState, db: string, cal: Calendar, cfg: Config, timeMs: int, seen: int, env: Env)
    requires Valid(s) && cfg.batchSize >= 1
    ensures var r := IfNeeded(s, db, cal, cfg, timeMs, seen, env);
      Valid(r) && (InStep(s, cal) && TellsMonths(env) ==> InStep(r, cal)) &&
      (InStep(s, cal) && Names(cal, timeMs) && cal.monthOf(timeMs) <= s.month ==> r == s)
  {
    hide Rotated, Names, Boundary, NextMonth;
    RotatedStaysInStep(s, db, cal, cfg, SealMonth(s, env), env);
    if InStep(s, cal) && Names(cal, timeMs) {
      BoundarySplitsMonths(cal, s.month, timeMs);
    }
  }

  /** The background check keeps month and boundary together; it adopts the month of the data unless that is over. */
  lemma CheckedStaysInStep(s: RotationState, db: string, cal: Calendar, cfg: Config, env: Env)
    requires Valid(s) && cfg.batchSize >= 1 && InStep(s, cal) && TellsMonths(env)
    ensures var r := Checked(s, db, cal, cfg, env);
      Valid(r) && InStep(r, cal) &&
      (env.dataMonth.Some? && env.dataMonth.value >= env.clockMonth ==>
        r == s.(month := env.dataMonth.value, boundary := Boundary(cal, env.dataMonth.value)))
  {
    hide Rotated, Boundary;
    if env.dataMonth.Some? {
      RotatedStaysInStep(s, db, cal, cfg, env.dataMonth.value, env);
    }
  }

  // ---------------------------------------------------------------- what one rotation keeps

  /** Whatever happens, every file but the one being written keeps its rows. */
  lemma OtherFilesAreKept(s: RotationState, db: string, cal: Calendar, cfg: Config, month: int, env: Env, f: StoreId)
    requires Valid(s) && cfg.batchSize >= 1 && Plausible(s, env) && f in s.w.files && s.w.store != Some(f)
    ensures Rotated(s, db, cal, cfg, month, env).w.files[f] == s.w.files[f]
  {
    hide Sealed, NextId;
    SealKeepsFiles(s.w, cfg, env.dbs, env.checkpoints);
  }

  /**
   The archive is under its new name, and every other archive still under its own exactly when
   the plain and the stamped name are not both taken: the stamped name is never checked.
   */
  lemma ArchivesKeepTheirNames(s: RotationState, db: string, cal: Calendar, cfg: Config, month: int, env: Env)
    requires Valid(s) && cfg.batchSize >= 1 && Plausible(s, env) && Succeeded(s, db, cfg, env)
    requires forall a, b :: a in s.names && b in s.names && a != b ==> s.names[a] != s.names[b]
    requires db != StampedName(month, env.seconds)
    ensures var s' := Rotated(s, db, cal, cfg, month, env);
      var archive := ArchiveName(s.names, month, env.seconds);
      archive in s'.names && s'.names[archive] == s.names[db] && archive != db &&
      ((forall n :: n in s.names && n != db ==> n in s'.names && s'.names[n] == s.names[n]) <==>
       !(PlainName(month) in s.names && StampedName(month, env.seconds) in s.names))
  {
    hide Sealed, NextId, PlainName, StampedName;
    var stamped := StampedName(month, env.seconds);
    if PlainName(month) in s.names && stamped in s.names {
      assert Rotated(s, db, cal, cfg, month, env).names[stamped] == s.names[db] != s.names[stamped];
    }
  }

  /** A drain that reports success has written batch and queue, in order, under consecutive ids. */
  lemma {:induction false} DrainWritesAll(s: AuditWriter.State, cfg: Config, dbs: nat -> (nat -> Attempt), round: nat)
    requires s.store.Some? && s.store.value in s.files && cfg.batchSize >= 1
    requires Drained(s, cfg, dbs, round).1
    ensures var d := Drained(s, cfg, dbs, round).0;
      d.batch == [] && d.queue == [] && d.store == s.store && d.nextId == s.nextId + |s.batch| + |s.queue| &&
      d.files == s.files[s.store.value := Inserted(s.files[s.store.value], s.batch + s.queue, s.nextId)]
    decreases |s.queue| + |s.batch|
  {
    hide Inserted, Flushed;
    RoundShrinks(s, cfg, dbs(round));
    RoundWrites(s, cfg, dbs(round));
    var (s', r) := DrainRound(s, cfg, dbs(round));
    if r.Again? {
      var f := Filled(s, cfg.batchSize);
      DrainWritesAll(s', cfg, dbs, round + 1);
      WriterRuns.FilledKeeps(s, cfg.batchSize);
      WriterRuns.InsertedTwice(s.files[s.store.value], f.batch, f.queue, s.nextId);
      assert s'.batch + s'.queue == f.queue;
    }
  }

  lemma RoundWrites(s: AuditWriter.State, cfg: Config, db: nat -> Attempt)
    requires s.store.Some? && s.store.value in s.files && cfg.batchSize >= 1
    ensures var (s', r) := DrainRound(s, cfg, db);
      var f := Filled(s, cfg.batchSize);
      r != Done(false) ==>
        s'.batch == [] && s'.queue == f.queue && s'.store == s.store && s'.nextId == s.nextId + |f.batch| &&
        s'.files == s.files[s.store.value := Inserted(s.files[s.store.value], f.batch, s.nextId)] &&
        |f.batch| + |f.queue| == |s.batch| + |s.queue| &&
        (r.Done? ==> f.queue == [] && f.batch == s.batch + s.queue)
  {
    hide Inserted;
    var t := s.files[s.store.value];
    var f := Filled(s, cfg.batchSize);
    WriterRuns.FilledKeeps(s, cfg.batchSize);
    assert |f.batch + f.queue| == |s.batch + s.queue|;
    if f.batch == [] {
      NothingToInsert(t, s.nextId);
    }
  }

  lemma NothingToInsert(t: Table, k: int)
    ensures Inserted(t, [], k) == t
  {
  }

  /**
   What a rotation does to rows and queue. Success: the archive is the old store after the drain,
   and the writer starts on an empty one. A failed rename: the old store again, and nothing lost.
   */
  lemma RotationLosesNothing(s: RotationState, db: string, cal: Calendar, cfg: Config, month: int, env: Env)
    requires Valid(s) && cfg.batchSize >= 1 && Plausible(s, env) && db in s.names
    requires s.w.store == Some(s.active) && s.names[db] == s.active
    requires s.w.nextId == NextId(s.w.files[s.active])
    requires Sealed(s.w, cfg, env.dbs, env.checkpoints).1
    ensures var s' := Rotated(s, db, cal, cfg, month, env);
      s'.w.batch == [] && s'.w.queue == [] &&
      s'.w.files[s.active] == Inserted(s.w.files[s.active], s.w.batch + s.w.queue, s.w.nextId) &&
      (Succeeded(s, db, cfg, env) ==>
        s'.w.store == Some(env.init.file) && env.init.file in s'.w.files && s'.w.nextId == 1 &&
        s'.w.files[env.init.file] == NO_ROWS) &&
      (!env.renames && env.resumes ==>
        s'.w.store == s.w.store && s'.names == s.names && s'.w.nextId == s.w.nextId + |s.w.batch| + |s.w.queue|)
  {
    hide Drained, NextId, Inserted;
    SealKeepsFiles(s.w, cfg, env.dbs, env.checkpoints);
    DrainWritesAll(s.w, cfg, env.dbs, 0);
    WriterRuns.NextIdAfterInsert(s.w.files[s.active], s.w.batch + s.w.queue);
    WriterRuns.NothingInserted(NO_ROWS);
  }
}
