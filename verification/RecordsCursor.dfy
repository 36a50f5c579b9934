/** The paging cursor `time:id[:shard]`. */
module RecordsCursor {
  import opened Wrappers
  import opened Numbers

  datatype CursorKey = CursorKey(timeMs: int, id: int, shard: Option<string>)

  /** `str::split` on one character: at least one part. */
  function Split(s: string, sep: char): (parts: seq<string>)
    ensures parts != []
  {
    if s == "" then [""]
    else
      var rest := Split(s[1..], sep);
      if s[0] == sep then [""] + rest else [[s[0]] + rest[0]] + rest[1..]
  }

  lemma {:induction false} SplitAtFirst(a: string, b: string, sep: char)
    requires sep !in a
    ensures Split(a + [sep] + b, sep) == [a] + Split(b, sep)
  {
    var s := a + [sep] + b;
    if a == "" {
      assert s[1..] == b;
    } else {
      SplitAtFirst(a[1..], b, sep);
      assert s[1..] == a[1..] + [sep] + b;
      assert [a[0]] + a[1..] == a;
    }
  }

  /** A text is one part exactly when it does not hold the separator. */
  lemma {:induction false} SplitCount(s: string, sep: char)
    ensures sep !in s ==> Split(s, sep) == [s]
    ensures sep in s ==> |Split(s, sep)| > 1
  {
    if s != "" {
      SplitCount(s[1..], sep);
      assert s == [s[0]] + s[1..];
    }
  }

  lemma SplitOfEmpty(s: string, sep: char)
    ensures Split(s, sep)[0] == "" && |Split(s, sep)| == 1 ==> s == ""
  {
  }

  function ParseCursor(s: string): Option<CursorKey> {
    var parts := Split(s, ':');
    if |parts| < 2 then None
    else
      match (ParseI64(parts[0]), ParseI64(parts[1]))
      case (Some(t), Some(id)) =>
        if |parts| == 2 then Some(CursorKey(t, id, None))
        else if parts[2] == "" || |parts| > 3 then None
        else Some(CursorKey(t, id, Some(parts[2])))
      case _ => None
  }

  function FormatCursor(timeMs: int, id: int, shard: Option<string>): string {
    match shard
    case Some(s) => Decimal(timeMs) + ":" + Decimal(id) + ":" + s
    case None => Decimal(timeMs) + ":" + Decimal(id)
  }

  /**
   A cursor survives printing and parsing exactly when its shard name, if it has one, is
   non-empty and free of colons (`active` and `record_...` are); any other is read as no cursor.
   */
  lemma CursorRoundTrip(key: CursorKey)
    requires IsI64(key.timeMs) && IsI64(key.id)
    ensures ParseCursor(FormatCursor(key.timeMs, key.id, key.shard)) ==
      if key.shard.None? || (key.shard.value != "" && ':' !in key.shard.value) then Some(key) else None
  {
    hide Decimal, ParseI64;
    var t, i := Decimal(key.timeMs), Decimal(key.id);
    DecimalParses(key.timeMs);
    DecimalParses(key.id);
    if key.shard.Some? {
      var s := key.shard.value;
      assert t + ":" + i + ":" + s == t + [':'] + (i + [':'] + s);
      SplitAtFirst(t, i + [':'] + s, ':');
      SplitAtFirst(i, s, ':');
      SplitCount(s, ':');
      SplitOfEmpty(s, ':');
    } else {
      assert t + ":" + i == t + [':'] + i;
      SplitAtFirst(t, i, ':');
      SplitCount(i, ':');
    }
  }
}
