/**
 What the text filters of a record search mean: the LIKE pattern built by escaping matches
 exactly the texts that contain the value, and the half-open range built for an index seek
 holds exactly the texts that start with it. SQLite compares both without ASCII case; the
 laws hold for any character folding.
 */
module SearchFilters {
  import opened Wrappers
  import opened Text

  const LAST_CHAR: char := '\U{10FFFF}'

  type Fold = char -> char

  /** `NOCASE` and the default LIKE: ASCII letters compare without case. */
  function AsciiLower(c: char): char {
    if 'A' <= c <= 'Z' then c + ' ' else c
  }

  function Folded(f: Fold, s: string): (r: string)
    ensures |r| == |s| && forall i :: 0 <= i < |s| ==> r[i] == f(s[i])
  {
    seq(|s|, i requires 0 <= i < |s| => f(s[i]))
  }

  // ---------------------------------------------------------------- LIKE ... ESCAPE '\'

  /** SQLite's LIKE with backslash as the escape character. */
  predicate Like(f: Fold, pattern: string, s: string)
    decreases |pattern|, |s|
  {
    if pattern == "" then s == ""
    else if pattern[0] == '%' then Like(f, pattern[1..], s) || (s != "" && Like(f, pattern, s[1..]))
    else if pattern[0] == '_' then s != "" && Like(f, pattern[1..], s[1..])
    else if pattern[0] == '\\' then
      |pattern| > 1 && s != "" && f(s[0]) == f(pattern[1]) && Like(f, pattern[2..], s[1..])
    else s != "" && f(s[0]) == f(pattern[0]) && Like(f, pattern[1..], s[1..])
  }

  predicate IsSpecial(c: char) {
    c == '%' || c == '_' || c == '\\'
  }

  function EscapedChar(c: char): string {
    if IsSpecial(c) then ['\\', c] else [c]
  }

  function Escaped(value: string): string {
    if value == "" then "" else Escaped(value[..|value| - 1]) + EscapedChar(value[|value| - 1])
  }

  method LikeContains(value: string) returns (out: string)
    ensures out == "%" + Escaped(value) + "%"
  {
    out := "%";
    for i := 0 to |value|
      invariant out == "%" + Escaped(value[..i])
    {
      assert value[..i + 1][..i] == value[..i];
      var ch := value[i];
      if ch == '%' || ch == '_' || ch == '\\' {
        out := out + ['\\'];
      }
      out := out + [ch];
    }
    assert value[..|value|] == value;
    out := out + "%";
  }

  lemma {:induction false} EscapedFromFront(value: string)
    requires value != ""
    ensures Escaped(value) == EscapedChar(value[0]) + Escaped(value[1..])
  {
    var n := |value| - 1;
    if n > 0 {
      EscapedFromFront(value[..n]);
      assert value[..n][1..] == value[1..][..n - 1];
      assert value[1..][n - 1] == value[n];
    } else {
      assert value[..0] == "" && value[1..] == "";
    }
  }

  /** An escaped value matches itself, folded, and nothing else. */
  lemma {:induction false} EscapedMatchesLiterally(f: Fold, value: string, rest: string, s: string)
    ensures Like(f, Escaped(value) + rest, s) <==>
      |value| <= |s| && Folded(f, s[..|value|]) == Folded(f, value) && Like(f, rest, s[|value|..])
    decreases |value|
  {
    if value == "" {
      assert Escaped(value) + rest == rest && s[0..] == s;
    } else {
      EscapedFromFront(value);
      var later := Escaped(value[1..]) + rest;
      var pattern := Escaped(value) + rest;
      assert pattern == EscapedChar(value[0]) + later;
      hide Folded;
      EscapedCharMatches(f, value[0], later, s);
      hide Like;
      if s != "" {
        EscapedMatchesLiterally(f, value[1..], rest, s[1..]);
        if |value| <= |s| {
          FoldedHeadTail(f, s[..|value|], value);
          assert s[..|value|][1..] == s[1..][..|value| - 1];
          assert s[1..][|value| - 1..] == s[|value|..];
        }
      }
    }
  }

  /** An escaped character matches itself, folded. */
  lemma EscapedCharMatches(f: Fold, c: char, later: string, s: string)
    ensures Like(f, EscapedChar(c) + later, s) <==> s != "" && f(s[0]) == f(c) && Like(f, later, s[1..])
  {
    var pattern := EscapedChar(c) + later;
    assert pattern[|EscapedChar(c)|..] == later;
  }

  lemma FoldedHeadTail(f: Fold, a: string, b: string)
    requires |a| == |b| > 0
    ensures Folded(f, a) == Folded(f, b) <==> f(a[0]) == f(b[0]) && Folded(f, a[1..]) == Folded(f, b[1..])
  {
    if f(a[0]) == f(b[0]) && Folded(f, a[1..]) == Folded(f, b[1..]) {
      forall i | 0 <= i < |a| ensures f(a[i]) == f(b[i]) {
        if i > 0 {
          assert Folded(f, a[1..])[i - 1] == Folded(f, b[1..])[i - 1];
        }
      }
    }
  }

  lemma {:induction false} PercentSkipsAnywhere(f: Fold, pattern: string, s: string)
    ensures Like(f, "%" + pattern, s) <==> exists i :: 0 <= i <= |s| && Like(f, pattern, s[i..])
    decreases |s|
  {
    assert ("%" + pattern)[1..] == pattern && s[0..] == s;
    if s != "" {
      PercentSkipsAnywhere(f, pattern, s[1..]);
      assert forall i :: 0 <= i < |s| ==> s[1..][i..] == s[i + 1..];
      if i :| 0 <= i <= |s| && Like(f, pattern, s[i..]) {
        assert i > 0 ==> s[1..][i - 1..] == s[i..];
      }
    }
  }

  lemma PercentMatchesAll(f: Fold, s: string)
    ensures Like(f, "%", s)
  {
    PercentSkipsAnywhere(f, "", s);
    assert "%" + "" == "%" && s[|s|..] == "";
  }

  /** The escaped pattern accepts exactly the texts that contain the value. */
  lemma LikeContainsMeansContains(f: Fold, value: string, s: string)
    ensures Like(f, "%" + Escaped(value) + "%", s) <==> Contains(Folded(f, s), Folded(f, value))
  {
    var tail := Escaped(value) + "%";
    assert "%" + Escaped(value) + "%" == "%" + tail;
    PercentSkipsAnywhere(f, tail, s);
    forall i | 0 <= i <= |s|
      ensures Like(f, tail, s[i..]) <==> OccursAt(Folded(f, s), Folded(f, value), i)
    {
      EscapedMatchesLiterally(f, value, "%", s[i..]);
      if i + |value| <= |s| {
        PercentMatchesAll(f, s[i..][|value|..]);
        FoldedSlice(f, s, i, |value|);
      }
    }
  }

  lemma FoldedSlice(f: Fold, s: string, i: nat, n: nat)
    requires i + n <= |s|
    ensures Folded(f, s)[i..i + n] == Folded(f, s[i..][..n])
  {
  }

  // ---------------------------------------------------------------- prefix ranges

  function PrefixUpper(value: string): string {
    value + [LAST_CHAR]
  }

  lemma {:induction false} PrefixRange(value: string, s: string)
    ensures !Less(s, value) && Less(s, value + [LAST_CHAR]) <==>
      value <= s && (|s| > |value| ==> s[|value|] != LAST_CHAR)
    decreases |value|
  {
    var upper := value + [LAST_CHAR];
    if value == "" {
      assert upper == [LAST_CHAR] && upper[1..] == "";
      assert s != "" ==> !Less(s[1..], "");
    } else if s != "" {
      assert upper[1..] == value[1..] + [LAST_CHAR];
      if s[0] == value[0] {
        PrefixRange(value[1..], s[1..]);
        assert value <= s <==> value[1..] <= s[1..] by {
          if value[1..] <= s[1..] {
            assert value == [value[0]] + value[1..] && s == [s[0]] + s[1..];
          }
        }
      }
    }
  }

  /**
   The NOCASE range filter keeps exactly the columns that start with the value, without ASCII
   case, and do not go on with U+10FFFF.
   */
  lemma RangeMeansPrefix(value: string, column: string)
    ensures var f := AsciiLower;
      !Less(Folded(f, column), Folded(f, value)) && Less(Folded(f, column), Folded(f, PrefixUpper(value))) <==>
        Folded(f, value) <= Folded(f, column) && (|column| > |value| ==> column[|value|] != LAST_CHAR)
  {
    var f := AsciiLower;
    assert Folded(f, PrefixUpper(value)) == Folded(f, value) + [LAST_CHAR];
    PrefixRange(Folded(f, value), Folded(f, column));
  }
}
