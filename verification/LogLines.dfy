/**
 The `STREAM_INTERRUPTED` line of error.log: its printer, with Rust's `{:?}` quoting, and the
 parser of the error-log page.
 */
module LogLines {
  import opened Wrappers
  import opened Numbers

  // ---------------------------------------------------------------- characters

  /** `char::is_whitespace`: the White_Space property. */
  predicate IsWhitespace(c: char) {
    var n := c as int;
    9 <= n <= 13 || n == 0x20 || n == 0x85 || n == 0xA0 || n == 0x1680 || 0x2000 <= n <= 0x200A ||
    n == 0x2028 || n == 0x2029 || n == 0x202F || n == 0x205F || n == 0x3000
  }

  predicate IsScalar(n: int) {
    0 <= n < 0xD800 || 0xE000 <= n < 0x11_0000
  }

  /** `char::from_u32`. */
  function FromU32(n: nat): Option<char> {
    if IsScalar(n) then Some(n as char) else None
  }

  /** `u32::from_str_radix(_, 16)`. */
  function ParseHex(s: string): Option<nat> {
    var digits := if s != "" && s[0] == '+' then s[1..] else s;
    if digits == "" then None
    else
      match ParseDigits(digits, 16)
      case None => None
      case Some(n) => if n < 0x1_0000_0000 then Some(n) else None
  }

  predicate IsChar(c: char, d: char) {
    c == d
  }

  /** The first position whose character satisfies `p`, or the length. */
  function IndexWhere(s: string, p: char -> bool): (i: nat)
    ensures i <= |s| && (i < |s| ==> p(s[i])) && forall j :: 0 <= j < i ==> !p(s[j])
  {
    if s == "" || p(s[0]) then 0 else 1 + IndexWhere(s[1..], p)
  }

  lemma IndexWhereIs(a: string, b: string, p: char -> bool)
    requires (forall c :: c in a ==> !p(c)) && (b == "" || p(b[0]))
    ensures IndexWhere(a + b, p) == |a|
  {
    var s := a + b;
    var i := IndexWhere(s, p);
    assert forall j :: 0 <= j < |a| ==> s[j] == a[j] && a[j] in a;
    assert b != "" ==> s[|a|] == b[0];
  }

  // ---------------------------------------------------------------- quoting

  /** How `{:?}` prints one character of a string; `hidden` marks what it prints as a code point. */
  function Escaped(c: char, hidden: char -> bool): string {
    if c == '\0' then "\\0"
    else if c == '\t' then "\\t"
    else if c == '\r' then "\\r"
    else if c == '\n' then "\\n"
    else if c == '"' then "\\\""
    else if c == '\\' then "\\\\"
    else if hidden(c) then "\\u{" + Digits(c as int, 16) + "}"
    else [c]
  }

  function EscapedAll(s: string, hidden: char -> bool): string {
    if s == "" then "" else Escaped(s[0], hidden) + EscapedAll(s[1..], hidden)
  }

  function Debug(s: string, hidden: char -> bool): string {
    "\"" + EscapedAll(s, hidden) + "\""
  }

  // ---------------------------------------------------------------- unquoting

  /** `Panics`: a backslash before a character of several bytes leaves the scan inside it. */
  datatype Parse = Parsed(value: string, consumed: nat) | Malformed | Panics

  function Before(c: string, n: nat, p: Parse): Parse {
    if p.Parsed? then Parsed(c + p.value, n + p.consumed) else p
  }

  /** What an escape stands for, and how many characters it takes with its backslash. `t` is behind the backslash. */
  function Escape(t: string): (string, nat)
    requires t != ""
  {
    match t[0]
    case 'n' => ("\n", 2)
    case 'r' => ("\r", 2)
    case 't' => ("\t", 2)
    case '0' => ("\0", 2)
    case 'u' =>
      if |t| > 1 && t[1] == '{' then
        var close := IndexWhere(t[2..], c => IsChar(c, '}'));
        if close == |t[2..]| then ("", 2)
        else
          var cp := ParseHex(t[2..][..close]);
          var ch := if cp.Some? then FromU32(cp.value) else None;
          (if ch.Some? then [ch.value] else "", close + 4)
      else ("", 2)
    case c => ([c], 2)
  }

  lemma EscapeFits(t: string)
    requires t != ""
    ensures 2 <= Escape(t).1 <= |t| + 1
  {
  }

  /** The text up to the closing quote; `t` is behind the opening one. */
  function Unquoted(t: string): (p: Parse)
    ensures p.Parsed? ==> 1 <= p.consumed <= |t|
    decreases |t|
  {
    if t == "" then Malformed
    else if t[0] == '"' then Parsed("", 1)
    else if t[0] == '\\' then
      if |t| == 1 then Malformed
      else if t[1] as int >= 128 then Panics
      else
        var (out, n) := Escape(t[1..]);
        EscapeFits(t[1..]);
        Before(out, n, Unquoted(t[n..]))
    else Before([t[0]], 1, Unquoted(t[1..]))
  }

  function TrimStart(s: string): string {
    if s != "" && IsWhitespace(s[0]) then TrimStart(s[1..]) else s
  }

  function TrimEnd(s: string): string {
    if s != "" && IsWhitespace(s[|s| - 1]) then TrimEnd(s[..|s| - 1]) else s
  }

  function QuotedString(input: string): (p: Parse)
    ensures p.Parsed? && input != "" && input[0] == '"' ==> 1 < p.consumed <= |input|
  {
    var s := TrimStart(input);
    if s == "" || s[0] != '"' then Malformed else Before("", 1, Unquoted(s[1..]))
  }

  lemma BeforeTwice(a: string, b: string, m: nat, n: nat, p: Parse)
    ensures Before(a, m, Before(b, n, p)) == Before(a + b, m + n, p)
  {
    if p.Parsed? {
      assert a + (b + p.value) == (a + b) + p.value;
    }
  }

  method ParseDebugString(input: string) returns (r: Parse)
    ensures r == QuotedString(input)
  {
    hide Unquoted, Escape, TrimStart;
    var s := TrimStart(input);
    if s == "" || s[0] != '"' {
      return Malformed;
    }
    var out := "";
    var i := 1;
    while i < |s|
      invariant 1 <= i <= |s|
      invariant Before("", 1, Unquoted(s[1..])) == Before(out, i, Unquoted(s[i..]))
    {
      UnquotedStep(s[i..]);
      if s[i] == '"' {
        return Parsed(out, i + 1);
      } else if s[i] == '\\' {
        if i + 1 >= |s| {
          return Malformed;
        }
        if s[i + 1] as int >= 128 {
          return Panics;
        }
        assert s[i..][1..] == s[i + 1..];
        EscapeFits(s[i + 1..]);
        var (c, n) := Escape(s[i + 1..]);
        BeforeTwice(out, c, i, n, Unquoted(s[i..][n..]));
        assert s[i..][n..] == s[i + n..];
        out, i := out + c, i + n;
      } else {
        BeforeTwice(out, [s[i]], i, 1, Unquoted(s[i..][1..]));
        assert s[i..][1..] == s[i + 1..];
        out, i := out + [s[i]], i + 1;
      }
    }
    UnquotedStep(s[i..]);
    return Malformed;
  }

  lemma UnquotedStep(t: string)
    ensures t == "" ==> Unquoted(t) == Malformed
    ensures t != "" && t[0] == '"' ==> Unquoted(t) == Parsed("", 1)
    ensures t == "\\" ==> Unquoted(t) == Malformed
    ensures |t| > 1 && t[0] == '\\' && t[1] as int >= 128 ==> Unquoted(t) == Panics
    ensures |t| > 1 && t[0] == '\\' && t[1] as int < 128 ==>
      Escape(t[1..]).1 <= |t| &&
      Unquoted(t) == Before(Escape(t[1..]).0, Escape(t[1..]).1, Unquoted(t[Escape(t[1..]).1..]))
    ensures t != "" && t[0] != '"' && t[0] != '\\' ==> Unquoted(t) == Before([t[0]], 1, Unquoted(t[1..]))
  {
    if |t| > 1 {
      EscapeFits(t[1..]);
    }
  }

  // ---------------------------------------------------------------- when the parser panics

  /** The scan of `t` stands at position `k` at some point, with no closing quote before it. */
  predicate Arrives(t: string, k: nat)
    decreases |t|
  {
    k == 0 ||
    (t != "" && t[0] != '"' && !(t[0] == '\\' && (|t| == 1 || t[1] as int >= 128)) &&
     var n := if t[0] == '\\' then Escape(t[1..]).1 else 1;
     1 <= n <= k && n <= |t| && Arrives(t[n..], k - n))
  }

  /** An escape begins at `k`, and what it escapes takes several bytes. */
  predicate EscapesWide(t: string, k: nat) {
    k + 1 < |t| && t[k] == '\\' && t[k + 1] as int >= 128
  }

  lemma StopsHere(t: string)
    requires t == "" || t[0] == '"' || (t[0] == '\\' && (|t| == 1 || t[1] as int >= 128))
    ensures (exists k: nat :: Arrives(t, k) && EscapesWide(t, k)) <==> |t| > 1 && t[0] == '\\' && t[1] as int >= 128
  {
    hide Escape;
    forall k: nat | Arrives(t, k) ensures k == 0 {
    }
    if |t| > 1 && t[0] == '\\' && t[1] as int >= 128 {
      assert Arrives(t, 0) && EscapesWide(t, 0);
    }
  }

  lemma {:induction false} UnquotedPanicsIff(t: string)
    ensures Unquoted(t).Panics? <==> exists k: nat :: Arrives(t, k) && EscapesWide(t, k)
    decreases |t|
  {
    hide Unquoted, Escape;
    UnquotedStep(t);
    if t == "" || t[0] == '"' || (t[0] == '\\' && (|t| == 1 || t[1] as int >= 128)) {
      StopsHere(t);
    } else {
      var n := if t[0] == '\\' then Escape(t[1..]).1 else 1;
      if t[0] == '\\' {
        EscapeFits(t[1..]);
      }
      UnquotedPanicsIff(t[n..]);
      if k: nat :| Arrives(t, k) && EscapesWide(t, k) {
        assert Arrives(t[n..], k - n) && EscapesWide(t[n..], k - n);
      }
      if k: nat :| Arrives(t[n..], k) && EscapesWide(t[n..], k) {
        assert t[n..][k] == t[n + k] && t[n..][k + 1] == t[n + k + 1];
        assert Arrives(t, n + k) && EscapesWide(t, n + k);
      }
    }
  }

  /**
   The parser panics exactly when a backslash that begins an escape, with no closing quote
   before it, stands directly in front of a character of several bytes.
   */
  lemma PanicsIff(input: string)
    ensures QuotedString(input).Panics? <==>
      var s := TrimStart(input);
      s != "" && s[0] == '"' && exists k: nat :: Arrives(s[1..], k) && EscapesWide(s[1..], k)
  {
    var s := TrimStart(input);
    if s != "" && s[0] == '"' {
      UnquotedPanicsIff(s[1..]);
    }
  }

  lemma {:induction false} TrimStartIsASuffix(s: string) returns (n: nat)
    ensures n <= |s| && TrimStart(s) == s[n..]
  {
    if s != "" && IsWhitespace(s[0]) {
      n := TrimStartIsASuffix(s[1..]);
      n := n + 1;
    } else {
      n := 0;
    }
  }

  /** So a text in which no backslash stands in front of such a character is safe. */
  lemma NoWideEscapeNoPanic(input: string)
    requires forall k: nat :: !EscapesWide(input, k)
    ensures !QuotedString(input).Panics?
  {
    hide QuotedString, Arrives;
    PanicsIff(input);
    var n := TrimStartIsASuffix(input);
    var s := TrimStart(input);
    if s != "" {
      forall k: nat ensures !EscapesWide(s[1..], k) {
        assert !EscapesWide(input, n + 1 + k);
      }
    }
  }

  /** And a single such pair behind the opening quote is enough. */
  lemma WideEscapePanics(c: char, rest: string)
    requires c as int >= 128
    ensures QuotedString("\"\\" + [c] + rest) == Panics
  {
    var s := "\"\\" + [c] + rest;
    assert s[0] == '"' && s[1..] == "\\" + [c] + rest;
  }

  // ---------------------------------------------------------------- quoting undone

  lemma HexParses(c: char)
    ensures var d := Digits(c as int, 16);
      '}' !in d && ParseHex(d) == Some(c as int) && FromU32(c as int) == Some(c)
  {
    hide Digits, ParseDigits, DigitValue;
    var d := Digits(c as int, 16);
    DigitsParse(c as int, 16);
    BraceIsNoDigit();
    assert d[0] in d;
  }

  lemma BraceIsNoDigit()
    ensures DigitValue('}', 16).None? && DigitValue('+', 16).None?
  {
  }

  lemma HexEscape(c: char, rest: string)
    ensures var d := Digits(c as int, 16);
      Escape("u{" + d + "}" + rest) == ([c], |d| + 4)
  {
    hide Digits, ParseHex, FromU32, IndexWhere;
    var d := Digits(c as int, 16);
    var u := "u{" + d + "}" + rest;
    HexParses(c);
    assert u[2..] == d + ("}" + rest) && u[0] == 'u' && u[1] == '{';
    IndexWhereIs(d, "}" + rest, x => IsChar(x, '}'));
    assert u[2..][..|d|] == d;
  }

  lemma ShortEscape(c: char, rest: string)
    requires c == 'n' || c == 'r' || c == 't' || c == '0' || c == '\\' || c == '"'
    ensures Escape([c] + rest) ==
      ([match c case 'n' => '\n' case 'r' => '\r' case 't' => '\t' case '0' => '\0' case _ => c], 2)
  {
  }

  lemma EscapedForms(c: char, hidden: char -> bool)
    ensures var e := Escaped(c, hidden);
      (|e| == 1 && e == [c] && c != '"' && c != '\\') ||
      (|e| == 2 && e[0] == '\\' && (forall rest :: Escape([e[1]] + rest) == ([c], 2)) && (e[1] as int) < 128) ||
      e == "\\u{" + Digits(c as int, 16) + "}"
  {
    hide Escape, Digits;
    forall rest | |Escaped(c, hidden)| == 2 && Escaped(c, hidden)[1] != 'u'
      ensures Escape([Escaped(c, hidden)[1]] + rest) == ([c], 2)
    {
      ShortEscape(Escaped(c, hidden)[1], rest);
    }
  }

  /** Each printed character is read back as itself, at its printed length. */
  lemma CharRoundTrip(c: char, rest: string, hidden: char -> bool)
    ensures Unquoted(Escaped(c, hidden) + rest) == Before([c], |Escaped(c, hidden)|, Unquoted(rest))
  {
    hide Unquoted, Digits, Escape, Escaped;
    var e := Escaped(c, hidden);
    var t := e + rest;
    UnquotedStep(t);
    EscapedForms(c, hidden);
    assert t[|e|..] == rest;
    if |e| == 2 && e[0] == '\\' {
      assert t[1..] == [e[1]] + rest;
    } else if |e| > 2 {
      var u := "u{" + Digits(c as int, 16) + "}" + rest;
      HexEscape(c, rest);
      assert t[1..] == u;
    }
  }

  /** Parsing a quoted text gives the text back and consumes exactly what was printed. */
  lemma {:induction false} UnquoteUndoesEscape(s: string, rest: string, hidden: char -> bool)
    ensures Unquoted(EscapedAll(s, hidden) + "\"" + rest) == Parsed(s, |EscapedAll(s, hidden)| + 1)
  {
    hide Unquoted, Escaped;
    var t := EscapedAll(s, hidden) + "\"" + rest;
    if s == "" {
      assert t == "\"" + rest;
      UnquotedStep(t);
    } else {
      var e := Escaped(s[0], hidden);
      var u := EscapedAll(s[1..], hidden) + "\"" + rest;
      assert t == e + u;
      CharRoundTrip(s[0], u, hidden);
      UnquoteUndoesEscape(s[1..], rest, hidden);
      assert [s[0]] + s[1..] == s;
    }
  }

  lemma DebugRoundTrip(s: string, rest: string, hidden: char -> bool)
    ensures QuotedString(Debug(s, hidden) + rest) == Parsed(s, |Debug(s, hidden)|)
  {
    hide Unquoted, EscapedAll;
    var t := Debug(s, hidden) + rest;
    assert t[1..] == EscapedAll(s, hidden) + "\"" + rest;
    UnquoteUndoesEscape(s, rest, hidden);
  }

  /** Escaped text never holds a newline, so a printed line is one line of the log. */
  lemma {:induction false} EscapedHasNoNewline(s: string, hidden: char -> bool)
    ensures '\n' !in EscapedAll(s, hidden)
  {
    if s != "" {
      EscapedHasNoNewline(s[1..], hidden);
      if hidden(s[0]) {
        HexHasNoNewline(s[0]);
      }
    }
  }

  lemma HexHasNoNewline(c: char)
    ensures '\n' !in Digits(c as int, 16)
  {
    hide Digits, ParseDigits;
    DigitsParse(c as int, 16);
  }
}
