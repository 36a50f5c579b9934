/** A whole `STREAM_INTERRUPTED` line, from the printer to the entry the page shows. */
module LogEntries {
  import opened Wrappers
  import opened Numbers
  import opened LogLines

  // ---------------------------------------------------------------- key=value fields

  type Field = (string, string)

  datatype Fields = Fields(list: seq<Field>) | FieldsPanic

  function Cons(f: Field, rest: Fields): Fields {
    if rest.Fields? then Fields([f] + rest.list) else rest
  }

  function Prefixed(fs: seq<Field>, rest: Fields): Fields {
    if rest.Fields? then Fields(fs + rest.list) else rest
  }

  function Trim(s: string): string {
    TrimStart(TrimEnd(s))
  }

  lemma {:induction false} TrimStartShrinks(s: string)
    ensures |TrimStart(s)| <= |s|
    ensures TrimStart(s) == "" || !IsWhitespace(TrimStart(s)[0])
    ensures s == "" || !IsWhitespace(s[0]) ==> TrimStart(s) == s
  {
    if s != "" && IsWhitespace(s[0]) {
      TrimStartShrinks(s[1..]);
    }
  }

  /** The fields of a text that starts with a key. */
  function KvFrom(rest: string): Fields
    decreases |rest|
  {
    var eq := IndexWhere(rest, c => IsChar(c, '='));
    if eq == |rest| then Fields([])
    else
      var key, after := Trim(rest[..eq]), rest[eq + 1..];
      if after != "" && after[0] == '"' then
        match QuotedString(after)
        case Malformed => Fields([])
        case Panics => FieldsPanic
        case Parsed(value, n) =>
          TrimStartShrinks(after[n..]);
          Cons((key, value), KvFrom(TrimStart(after[n..])))
      else
        var end := IndexWhere(after, IsWhitespace);
        TrimStartShrinks(after[end..]);
        Cons((key, after[..end]), KvFrom(TrimStart(after[end..])))
  }

  method ParseKvFields(input: string) returns (r: Fields)
    ensures r == KvFrom(Trim(input))
  {
    hide TrimStart, TrimEnd, QuotedString;
    var out: seq<Field> := [];
    var rest := Trim(input);
    assert Prefixed([], KvFrom(rest)) == KvFrom(rest);
    while rest != ""
      invariant Prefixed(out, KvFrom(rest)) == KvFrom(Trim(input))
      decreases |rest|
    {
      var eq := IndexWhere(rest, c => IsChar(c, '='));
      if eq == |rest| {
        break;
      }
      var key, after := Trim(rest[..eq]), rest[eq + 1..];
      var value, consumed;
      if after != "" && after[0] == '"' {
        var parsed := ParseDebugString(after);
        if parsed.Malformed? {
          break;
        }
        if parsed.Panics? {
          return FieldsPanic;
        }
        value, consumed := parsed.value, parsed.consumed;
      } else {
        consumed := IndexWhere(after, IsWhitespace);
        value := after[..consumed];
      }
      TrimStartShrinks(after[consumed..]);
      PrefixedCons(out, (key, value), KvFrom(TrimStart(after[consumed..])));
      out := out + [(key, value)];
      rest := TrimStart(after[consumed..]);
    }
    return Fields(out);
  }

  lemma PrefixedCons(out: seq<Field>, f: Field, rest: Fields)
    ensures Prefixed(out, Cons(f, rest)) == Prefixed(out + [f], rest)
  {
    if rest.Fields? {
      assert out + ([f] + rest.list) == (out + [f]) + rest.list;
    }
  }

  // ---------------------------------------------------------------- the size cap

  const MAX_ERROR_BYTES: nat := 16 * 1024

  /** One byte carries 7 bits of a code point, two carry 11, three 16 and four 21. */
  function Utf8Len(c: char): (n: nat)
    ensures 1 <= n <= 4
    ensures c as int < [0x80, 0x800, 0x1_0000, 0x20_0000][n - 1]
    ensures n > 1 ==> c as int >= [0x80, 0x800, 0x1_0000][n - 2]
  {
    var n := c as int;
    if n < 0x80 then 1 else if n < 0x800 then 2 else if n < 0x1_0000 then 3 else 4
  }

  function Utf8Size(s: string): nat {
    if s == "" then 0 else Utf8Len(s[0]) + Utf8Size(s[1..])
  }

  /** `is_char_boundary`: the number of characters in the first `end` bytes, if they end one. */
  function CharsIn(s: string, end: nat): (k: Option<nat>)
    ensures k.Some? ==> k.value <= |s|
  {
    if end == 0 then Some(0)
    else if s == "" || Utf8Len(s[0]) > end then None
    else
      match CharsIn(s[1..], end - Utf8Len(s[0]))
      case None => None
      case Some(k) => Some(k + 1)
  }

  /** The longest prefix of at most `budget` bytes, in characters. */
  function LongestFit(s: string, budget: nat): (k: nat)
    ensures k <= |s|
  {
    if s == "" || Utf8Len(s[0]) > budget then 0 else 1 + LongestFit(s[1..], budget - Utf8Len(s[0]))
  }

  function Notice(total: nat): string {
    "\n\U{2026}[\U{5DF2}\U{622A}\U{65AD}\U{FF1A}\U{539F}\U{59CB} " + Decimal(total) +
    " \U{5B57}\U{8282}\U{FF0C}\U{5B8C}\U{6574}\U{5185}\U{5BB9}\U{89C1}\U{300C}\U{539F}\U{59CB}\U{884C}\U{300D}]"
  }

  function Capped(msg: string): (string, bool, nat) {
    var total := Utf8Size(msg);
    if total <= MAX_ERROR_BYTES then (msg, false, total)
    else (msg[..LongestFit(msg, MAX_ERROR_BYTES)] + Notice(total), true, total)
  }

  /** A boundary at or below `end` that no boundary up to `end` exceeds is the longest fit. */
  lemma {:induction false} BoundaryIsFit(s: string, end: nat, budget: nat)
    requires end <= budget && CharsIn(s, end).Some?
    requires forall e :: end < e <= budget ==> CharsIn(s, e).None?
    ensures CharsIn(s, end) == Some(LongestFit(s, budget))
    decreases |s|
  {
    if s != "" && Utf8Len(s[0]) <= budget {
      var n := Utf8Len(s[0]);
      assert CharsIn(s[1..], 0) == Some(0);
      assert CharsIn(s, n) == Some(1);
      assert end >= n;
      forall e | end - n < e <= budget - n ensures CharsIn(s[1..], e).None? {
        assert CharsIn(s, e + n).None?;
      }
      BoundaryIsFit(s[1..], end - n, budget - n);
    }
  }

  method TruncateError(msg: string) returns (capped: string, truncated: bool, total: nat)
    ensures (capped, truncated, total) == Capped(msg)
  {
    hide Utf8Size, Notice, CharsIn;
    total := Utf8Size(msg);
    if total <= MAX_ERROR_BYTES {
      return msg, false, total;
    }
    var end: nat := MAX_ERROR_BYTES;
    NoBytesNoChars(msg);
    while CharsIn(msg, end).None?
      invariant end <= MAX_ERROR_BYTES && forall e :: end < e <= MAX_ERROR_BYTES ==> CharsIn(msg, e).None?
      decreases end
    {
      end := end - 1;
    }
    BoundaryIsFit(msg, end, MAX_ERROR_BYTES);
    capped, truncated := msg[..CharsIn(msg, end).value] + Notice(total), true;
  }

  lemma NoBytesNoChars(s: string)
    ensures CharsIn(s, 0) == Some(0)
  {
  }

  /** What is shown of a long error is the longest beginning that stays within the cap. */
  lemma {:induction false} LongestFitIsLongest(s: string, budget: nat)
    ensures var k := LongestFit(s, budget);
      Utf8Size(s[..k]) <= budget && (k < |s| ==> Utf8Size(s[..k + 1]) > budget)
  {
    if s != "" && Utf8Len(s[0]) <= budget {
      var k := LongestFit(s, budget);
      LongestFitIsLongest(s[1..], budget - Utf8Len(s[0]));
      assert s[..k][1..] == s[1..][..k - 1];
      if k < |s| {
        assert s[..k + 1][1..] == s[1..][..k];
      }
    } else if s != "" {
      assert s[..1][1..] == "";
    }
  }

  // ---------------------------------------------------------------- the entry

  /** The members of `LogEntry` an interruption fills; the others stay empty. */
  datatype LogEntry = LogEntry(
    kind: string, raw: string, time: Option<string>, ip: Option<string>, path: Option<string>, model: Option<string>,
    backend: Option<string>, error: Option<string>, errorTruncated: bool, errorBytes: Option<nat>)

  function SetField(entry: LogEntry, f: Field): LogEntry {
    if f.0 == "client" then entry.(ip := Some(f.1))
    else if f.0 == "endpoint" then entry.(path := Some(f.1))
    else if f.0 == "model" then entry.(model := Some(f.1))
    else if f.0 == "backend" then entry.(backend := Some(f.1))
    else if f.0 == "error" then entry.(error := Some(f.1))
    else entry
  }

  function SetAll(entry: LogEntry, fields: seq<Field>): LogEntry
    decreases |fields|
  {
    if fields == [] then entry else SetAll(SetField(entry, fields[0]), fields[1..])
  }

  function WithCap(entry: LogEntry): LogEntry {
    match entry.error
    case None => entry
    case Some(msg) =>
      var (capped, truncated, total) := Capped(msg);
      entry.(error := Some(capped), errorTruncated := truncated, errorBytes := if truncated then Some(total) else None)
  }

  const TAG := "STREAM_INTERRUPTED"

  function FieldsInput(line: string): string {
    if TAG <= TrimStart(line) then TrimStart(line)[|TAG|..] else line
  }

  function BareEntry(line: string, time: string): LogEntry {
    LogEntry("stream_interrupted", line, Some(time), None, None, None, None, None, false, None)
  }

  datatype Outcome = Entry(entry: LogEntry) | OtherLine | LinePanics

  function Interrupted(line: string, time: string): Outcome {
    match KvFrom(Trim(FieldsInput(line)))
    case FieldsPanic => LinePanics
    case Fields(list) => Entry(WithCap(SetAll(BareEntry(line, time), list)))
  }

  method ParseStreamInterrupted(line: string, time: string) returns (r: Outcome)
    ensures r == Interrupted(line, time)
  {
    hide KvFrom, TrimStart, Capped;
    var entry := BareEntry(line, time);
    var fields := ParseKvFields(FieldsInput(line));
    if fields.FieldsPanic? {
      return LinePanics;
    }
    var list := fields.list;
    assert list[0..] == list;
    for i := 0 to |list|
      invariant SetAll(entry, list[i..]) == SetAll(BareEntry(line, time), list)
    {
      assert list[i..][1..] == list[i + 1..];
      var (key, value) := list[i];
      match key {
        case "client" => entry := entry.(ip := Some(value));
        case "endpoint" => entry := entry.(path := Some(value));
        case "model" => entry := entry.(model := Some(value));
        case "backend" => entry := entry.(backend := Some(value));
        case "error" => entry := entry.(error := Some(value));
        case _ =>
      }
    }
    if entry.error.Some? {
      var capped, truncated, total := TruncateError(entry.error.value);
      entry := entry.(error := Some(capped), errorTruncated := truncated,
                      errorBytes := if truncated then Some(total) else None);
    }
    return Entry(entry);
  }

  /** `parse_line`; lines of other kinds are only recognised as such. */
  function ParseLine(raw: string): Outcome {
    var line := TrimEnd(raw);
    if line == "" || line[0] != '[' then OtherLine
    else
      var close := IndexWhere(line[1..], c => IsChar(c, ']'));
      if close == |line[1..]| then OtherLine
      else
        var rest := TrimStart(line[1..][close + 1..]);
        if TAG <= rest then Interrupted(rest, line[1..][..close]) else OtherLine
  }
}
