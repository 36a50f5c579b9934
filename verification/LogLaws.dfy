/** What is printed for an interrupted stream is what the error-log page shows. */
module LogLaws {
  import opened Wrappers
  import opened Numbers
  import opened LogLines
  import opened LogEntries

  datatype Interruption = Interruption(client: string, endpoint: string, model: string, backend: string, error: string)

  /** A plain field and what follows it. */
  function Field(key: string, v: string, tail: string): string {
    key + "=" + v + " " + tail
  }

  function FieldsText(x: Interruption, hidden: char -> bool): string {
    Field("client", x.client, Field("endpoint", x.endpoint, Field("model", x.model, Field("backend", x.backend,
      "error" + "=" + Debug(x.error, hidden)))))
  }

  /** The line `log_stream_interruption` writes. */
  function Line(time: string, x: Interruption, hidden: char -> bool): string {
    "[" + time + "] " + TAG + " " + FieldsText(x, hidden)
  }

  predicate NoSpace(v: string) {
    forall c :: c in v ==> !IsWhitespace(c)
  }

  predicate Plain(v: string) {
    NoSpace(v) && (v == "" || v[0] != '"')
  }

  /** A field's name: not empty, without `=` and without whitespace at either end. */
  predicate IsKey(key: string) {
    key != "" && '=' !in key && !IsWhitespace(key[0]) && !IsWhitespace(key[|key| - 1])
  }

  lemma TrimmedStays(s: string)
    requires s == "" || (!IsWhitespace(s[0]) && !IsWhitespace(s[|s| - 1]))
    ensures TrimEnd(s) == s && TrimStart(s) == s && Trim(s) == s
  {
  }

  /** One step of the field loop on an unquoted value. */
  lemma UnquotedField(key: string, after: string)
    requires IsKey(key) && (after == "" || after[0] != '"')
    ensures var end := IndexWhere(after, IsWhitespace);
      KvFrom(key + "=" + after) == Cons((key, after[..end]), KvFrom(TrimStart(after[end..])))
  {
    hide TrimStart, TrimEnd, IsKey;
    var rest := key + "=" + after;
    KeyIsFound(key, after);
    assert rest[..|key|] == key && rest[|key| + 1..] == after;
  }

  lemma KeyIsFound(key: string, after: string)
    requires IsKey(key)
    ensures IndexWhere(key + "=" + after, c => IsChar(c, '=')) == |key| && Trim(key) == key
  {
    hide TrimStart, TrimEnd, IndexWhere, Trim;
    TrimmedStays(key);
    assert key + ("=" + after) == key + "=" + after;
    IndexWhereIs(key, "=" + after, c => IsChar(c, '='));
  }

  /** A quoted value that does not parse ends the fields, one on which the parser panics ends everything. */
  lemma BadQuotedField(key: string, after: string)
    requires IsKey(key) && after != "" && after[0] == '"'
    ensures QuotedString(after).Malformed? ==> KvFrom(key + "=" + after) == Fields([])
    ensures QuotedString(after).Panics? ==> KvFrom(key + "=" + after) == FieldsPanic
  {
    hide TrimStart, TrimEnd, IsKey, QuotedString;
    var rest := key + "=" + after;
    KeyIsFound(key, after);
    assert rest[..|key|] == key && rest[|key| + 1..] == after;
  }

  /** One step of the field loop on a quoted value. */
  lemma QuotedField(key: string, value: string, hidden: char -> bool)
    requires IsKey(key)
    ensures KvFrom(key + "=" + Debug(value, hidden)) == Fields([(key, value)])
  {
    hide TrimStart, TrimEnd, IsKey, EscapedAll, QuotedString;
    var after := Debug(value, hidden);
    var rest := key + "=" + after;
    KeyIsFound(key, after);
    assert rest[..|key|] == key && rest[|key| + 1..] == after;
    DebugRoundTrip(value, "", hidden);
    assert after + "" == after && after[|after|..] == "";
    NothingToTrim();
  }

  lemma NothingToTrim()
    ensures TrimStart("") == "" && KvFrom("") == Fields([])
  {
  }

  lemma SpaceIsSkipped(tail: string)
    requires tail != "" && !IsWhitespace(tail[0])
    ensures TrimStart(" " + tail) == tail
  {
    assert (" " + tail)[1..] == tail;
  }

  /**
   A value that does not start with a quote is read back, with the parser at the next field,
   exactly when it holds no whitespace.
   */
  lemma FieldIsReadBack(key: string, v: string, tail: string)
    requires IsKey(key) && (v == "" || v[0] != '"') && tail != "" && !IsWhitespace(tail[0])
    ensures NoSpace(v) ==> KvFrom(Field(key, v, tail)) == Cons((key, v), KvFrom(tail))
    ensures !NoSpace(v) ==> KvFrom(Field(key, v, tail)).Fields? ==>
      var list := KvFrom(Field(key, v, tail)).list;
      list != [] && list[0].0 == key && |list[0].1| < |v|
  {
    hide KvFrom, TrimStart, IsWhitespace, IsKey;
    var after := v + " " + tail;
    assert Field(key, v, tail) == key + "=" + after;
    assert after == v + (" " + tail);
    UnquotedField(key, after);
    if NoSpace(v) {
      SpaceIsWhite();
      IndexWhereIs(v, " " + tail, IsWhitespace);
      assert after[..|v|] == v && after[|v|..] == " " + tail;
      SpaceIsSkipped(tail);
    } else {
      var k :| 0 <= k < |v| && IsWhitespace(v[k]);
      assert after[k] == v[k];
    }
  }

  lemma SpaceIsWhite()
    ensures IsWhitespace(' ') && !IsWhitespace('"') && !IsWhitespace('S') && !IsWhitespace('c')
  {
  }

  lemma KeysAreKeys()
    ensures IsKey("client") && IsKey("endpoint") && IsKey("model") && IsKey("backend") && IsKey("error")
  {
  }

  /** All five fields come back, whatever the error text is. */
  lemma FieldsRoundTrip(x: Interruption, hidden: char -> bool)
    requires Plain(x.client) && Plain(x.endpoint) && Plain(x.model) && Plain(x.backend)
    ensures KvFrom(FieldsText(x, hidden)) ==
      Fields([("client", x.client), ("endpoint", x.endpoint), ("model", x.model), ("backend", x.backend),
              ("error", x.error)])
  {
    hide KvFrom, IsKey, NoSpace, Debug, Field;
    KeysAreKeys();
    FieldStarts();
    var t4 := "error" + "=" + Debug(x.error, hidden);
    var t3 := Field("backend", x.backend, t4);
    var t2 := Field("model", x.model, t3);
    var t1 := Field("endpoint", x.endpoint, t2);
    QuotedField("error", x.error, hidden);
    FieldIsReadBack("backend", x.backend, t4);
    FieldIsReadBack("model", x.model, t3);
    FieldIsReadBack("endpoint", x.endpoint, t2);
    FieldIsReadBack("client", x.client, t1);
  }

  lemma FieldStarts()
    ensures forall key, v, tail {:trigger Field(key, v, tail)} :: key != "" ==>
      Field(key, v, tail) != "" && Field(key, v, tail)[0] == key[0]
    ensures forall key, v, tail {:trigger Field(key, v, tail)} :: tail != "" ==>
      Field(key, v, tail)[|Field(key, v, tail)| - 1] == tail[|tail| - 1]
  {
  }

  lemma TextEnds(x: Interruption, hidden: char -> bool)
    ensures var t := FieldsText(x, hidden);
      t != "" && t[0] == 'c' && t[|t| - 1] == '"'
  {
    hide EscapedAll, Field;
    FieldStarts();
    var q := Debug(x.error, hidden);
    assert q[|q| - 1] == '"';
    var t4 := "error" + "=" + q;
    assert t4[|t4| - 1] == '"';
    var t3 := Field("backend", x.backend, t4);
    var t2 := Field("model", x.model, t3);
    var t1 := Field("endpoint", x.endpoint, t2);
    assert t3[|t3| - 1] == t2[|t2| - 1] == t1[|t1| - 1] == '"';
  }

  /**
   Main result: the entry of a printed line holds the time and the four fields as they were, and
   the error cut to the cap -- unchanged and unmarked exactly when it fits.
   */
  lemma LineRoundTrip(time: string, x: Interruption, hidden: char -> bool)
    requires ']' !in time && Plain(x.client) && Plain(x.endpoint) && Plain(x.model) && Plain(x.backend)
    ensures ParseLine(Line(time, x, hidden)).Entry?
    ensures var e := ParseLine(Line(time, x, hidden)).entry;
      e.time == Some(time) && e.ip == Some(x.client) && e.path == Some(x.endpoint) && e.model == Some(x.model) &&
      e.backend == Some(x.backend) && e.raw == TAG + " " + FieldsText(x, hidden) &&
      e.kind == "stream_interrupted" && (Utf8Size(x.error) <= 16384 <==> !e.errorTruncated) &&
      (!e.errorTruncated ==> e.error == Some(x.error)) &&
      (e.errorTruncated ==>
        e.errorBytes == Some(Utf8Size(x.error)) &&
        e.error == Some(x.error[..LongestFit(x.error, 16384)] + Notice(Utf8Size(x.error))))
  {
    hide KvFrom, TrimStart, TrimEnd, IndexWhere, FieldsText, NoSpace, LongestFit, Notice, Utf8Size;
    var text := FieldsText(x, hidden);
    var body := TAG + " " + text;
    LineIsRecognised(time, text, x, hidden);
    FieldsRoundTrip(x, hidden);
    var fields := [("client", x.client), ("endpoint", x.endpoint), ("model", x.model), ("backend", x.backend),
                   ("error", x.error)];
    FiveFields(BareEntry(body, time), x);
  }

  lemma SetAllCons(e: LogEntry, f: LogEntries.Field, rest: seq<LogEntries.Field>)
    ensures SetAll(e, [f] + rest) == SetAll(SetField(e, f), rest)
  {
    assert ([f] + rest)[1..] == rest;
  }

  lemma FiveFields(e: LogEntry, x: Interruption)
    ensures SetAll(e, [("client", x.client), ("endpoint", x.endpoint), ("model", x.model), ("backend", x.backend),
                       ("error", x.error)]) ==
      e.(ip := Some(x.client), path := Some(x.endpoint), model := Some(x.model), backend := Some(x.backend),
         error := Some(x.error))
  {
    var f := [("client", x.client), ("endpoint", x.endpoint), ("model", x.model), ("backend", x.backend),
              ("error", x.error)];
    var e1 := SetField(e, f[0]);
    var e2 := SetField(e1, f[1]);
    var e3 := SetField(e2, f[2]);
    var e4 := SetField(e3, f[3]);
    hide SetAll;
    assert f == [f[0]] + ([f[1]] + ([f[2]] + ([f[3]] + ([f[4]] + []))));
    SetAllCons(e, f[0], [f[1]] + ([f[2]] + ([f[3]] + ([f[4]] + []))));
    SetAllCons(e1, f[1], [f[2]] + ([f[3]] + ([f[4]] + [])));
    SetAllCons(e2, f[2], [f[3]] + ([f[4]] + []));
    SetAllCons(e3, f[3], [f[4]] + []);
    SetAllCons(e4, f[4], []);
    SetAllNone(SetField(e4, f[4]));
  }

  lemma SetAllNone(e: LogEntry)
    ensures SetAll(e, []) == e
  {
  }

  lemma LineIsRecognised(time: string, text: string, x: Interruption, hidden: char -> bool)
    requires ']' !in time && text == FieldsText(x, hidden)
    ensures ParseLine(Line(time, x, hidden)) == Interrupted(TAG + " " + text, time)
    ensures Trim(FieldsInput(TAG + " " + text)) == text
  {
    hide KvFrom, TrimStart, TrimEnd, IndexWhere, FieldsText, Interrupted, Trim, FieldsInput;
    TextEnds(x, hidden);
    SpaceIsWhite();
    TextIsInput(text);
    hide IsWhitespace;
    var body := TAG + " " + text;
    assert body[0] == 'S' && body[|body| - 1] == text[|text| - 1];
    TaggedLine(time, body);
    assert Line(time, x, hidden) == "[" + time + "] " + body;
  }

  /** What stands behind the tag is what the fields are read from. */
  lemma TextIsInput(text: string)
    requires text != "" && !IsWhitespace(text[0]) && !IsWhitespace(text[|text| - 1])
    ensures Trim(FieldsInput(TAG + " " + text)) == text
  {
    hide TrimStart, TrimEnd, Trim;
    var body := TAG + " " + text;
    assert body[0] == 'S' && body[|body| - 1] == text[|text| - 1];
    hide IsWhitespace;
    TagIsNoSpace();
    TrimmedStays(body);
    assert TAG <= body && body[|TAG|..] == " " + text;
    TrimSpace(text);
  }

  lemma TagIsNoSpace()
    ensures !IsWhitespace('S') && !IsWhitespace('[')
  {
  }

  lemma TaggedLine(time: string, body: string)
    requires ']' !in time && TAG <= body && !IsWhitespace(body[0]) && !IsWhitespace(body[|body| - 1])
    ensures ParseLine("[" + time + "] " + body) == Interrupted(body, time)
  {
    hide TrimStart, TrimEnd, IndexWhere, Interrupted, Trim, IsWhitespace, ParseLine;
    var line := "[" + time + "] " + body;
    LineParts(time, body, line);
    TagIsNoSpace();
    TrimmedStays(line);
    TrimmedStays(body);
    BracketIsFound(time, body);
    SpaceIsSkipped(body);
    ParsedAt(line, time, body);
  }

  lemma LineParts(time: string, body: string, line: string)
    requires body != "" && line == "[" + time + "] " + body
    ensures line != "" && line[0] == '[' && line[|line| - 1] == body[|body| - 1]
    ensures line[1..] == time + ("] " + body)
    ensures line[1..][..|time|] == time && line[1..][|time| + 1..] == " " + body
  {
  }

  lemma BracketIsFound(time: string, body: string)
    requires ']' !in time
    ensures IndexWhere(time + ("] " + body), c => IsChar(c, ']')) == |time|
  {
    hide IndexWhere;
    IndexWhereIs(time, "] " + body, c => IsChar(c, ']'));
  }

  lemma ParsedAt(line: string, time: string, body: string)
    requires line != "" && line[0] == '[' && TrimEnd(line) == line && |time| < |line[1..]|
    requires IndexWhere(line[1..], c => IsChar(c, ']')) == |time|
    requires line[1..][..|time|] == time && TrimStart(line[1..][|time| + 1..]) == body && TAG <= body
    ensures ParseLine(line) == Interrupted(body, time)
  {
    hide TrimStart, TrimEnd, IndexWhere, Interrupted;
  }

  lemma TrimSpace(text: string)
    requires text != "" && !IsWhitespace(text[0]) && !IsWhitespace(text[|text| - 1])
    ensures Trim(" " + text) == text
  {
    SpaceIsSkipped(text);
  }

  /** A printed line is one line of the file, so the pager serves it whole. */
  lemma LineIsOneLine(time: string, x: Interruption, hidden: char -> bool)
    requires '\n' !in time && NoSpace(x.client) && NoSpace(x.endpoint) && NoSpace(x.model) && NoSpace(x.backend)
    ensures '\n' !in Line(time, x, hidden)
  {
    hide EscapedAll, IsWhitespace;
    EscapedHasNoNewline(x.error, hidden);
    NewlineIsWhite();
    var t4 := "error" + "=" + Debug(x.error, hidden);
    assert '\n' !in t4;
    NoNewlineInField("backend", x.backend, t4);
    var t3 := Field("backend", x.backend, t4);
    NoNewlineInField("model", x.model, t3);
    var t2 := Field("model", x.model, t3);
    NoNewlineInField("endpoint", x.endpoint, t2);
    var t1 := Field("endpoint", x.endpoint, t2);
    NoNewlineInField("client", x.client, t1);
    hide Field, Debug;
    assert '\n' !in FieldsText(x, hidden);
  }

  lemma NoNewlineInField(key: string, v: string, tail: string)
    requires '\n' !in key && '\n' !in v && '\n' !in tail
    ensures '\n' !in Field(key, v, tail)
  {
  }

  lemma NewlineIsWhite()
    ensures IsWhitespace('\n')
  {
  }
}
