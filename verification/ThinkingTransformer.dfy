/**
 The streaming `<think>` normaliser: a two-phase scanner with a carry buffer.

 `Scan` is the scanner over a whole text. The class below runs it fragment by fragment,
 and the lemmas show that the fragments do not matter and what the output means:
 the unique way of writing the text as tag-free segments joined by alternating tags.
 */
module ThinkingTransformer {
  import opened Wrappers
  import opened Text

  const OPEN_TAG: string := "<think>"
  const CLOSE_TAG: string := "</think>"

  datatype ThinkingFormat = Passthrough | ThinkTag | Reasoning | ReasoningContent

  datatype Phase = Content | InThink

  /** The tag that ends a phase. */
  function Tag(p: Phase): string {
    if p.Content? then OPEN_TAG else CLOSE_TAG
  }

  function Other(p: Phase): Phase {
    if p.Content? then InThink else Content
  }

  // ---------------------------------------------------------------- carry

  /** `s` ends with the first `k` characters of `tag`, and those are not the whole tag. */
  predicate IsPartial(s: string, tag: string, k: nat) {
    k == 0 || (k < |tag| && k <= |s| && s[|s| - k..] == tag[..k])
  }

  ghost predicate IsLongestPartial(s: string, tag: string, k: nat) {
    IsPartial(s, tag, k) && forall j: nat :: k < j ==> !IsPartial(s, tag, j)
  }

  function CarryLenBelow(s: string, tag: string, bound: nat): (k: nat)
    requires forall j: nat :: bound < j ==> !IsPartial(s, tag, j)
    ensures IsLongestPartial(s, tag, k)
  {
    if IsPartial(s, tag, bound) then bound else CarryLenBelow(s, tag, bound - 1)
  }

  /** Length of the longest suffix of `s` that is a proper prefix of `tag`. */
  function CarryLen(s: string, tag: string): (k: nat)
    ensures IsLongestPartial(s, tag, k)
    ensures k <= |s|
  {
    CarryLenBelow(s, tag, |s|)
  }

  method PartialMarkerLen(s: string, marker: string) returns (k: nat)
    ensures k == CarryLen(s, marker)
  {
    var markerMax := if |marker| == 0 then 0 else |marker| - 1;
    var maxk := if |s| < markerMax then |s| else markerMax;
    k := maxk;
    while 1 <= k
      invariant k <= maxk
      invariant forall j: nat :: k < j ==> !IsPartial(s, marker, j)
    {
      if s[|s| - k..] == marker[..k] {
        assert IsPartial(s, marker, k);
        LongestPartialIsUnique(s, marker, k, CarryLen(s, marker));
        return;
      }
      k := k - 1;
    }
    LongestPartialIsUnique(s, marker, k, CarryLen(s, marker));
  }

  lemma LongestPartialIsUnique(s: string, tag: string, k: nat, l: nat)
    requires IsLongestPartial(s, tag, k) && IsLongestPartial(s, tag, l)
    ensures k == l
  {
    assert IsPartial(s, tag, l) && IsPartial(s, tag, k);
  }

  // ---------------------------------------------------------------- scanning a whole text

  datatype Parsed = Parsed(content: string, reasoning: string, phase: Phase, carry: string)

  function Emit(p: Phase, text: string, rest: Parsed): Parsed {
    if p.Content? then rest.(content := text + rest.content) else rest.(reasoning := text + rest.reasoning)
  }

  /** What the scanner has produced, and where it stands, after reading `s` from phase `p`. */
  function Scan(p: Phase, s: string): Parsed
    decreases |s|
  {
    match Find(s, Tag(p))
    case Some(i) => Emit(p, s[..i], Scan(Other(p), s[i + |Tag(p)|..]))
    case None =>
      var cut := |s| - CarryLen(s, Tag(p));
      Emit(p, s[..cut], Parsed("", "", p, s[cut..]))
  }

  /** One iteration of the scanner that finds a tag. */
  lemma ScanFound(p: Phase, s: string, i: nat)
    requires Find(s, Tag(p)) == Some(i)
    ensures i + |Tag(p)| <= |s|
    ensures Scan(p, s) == Emit(p, s[..i], Scan(Other(p), s[i + |Tag(p)|..]))
  {
    hide IsFirst, Contains, Tag, Other, Emit;
  }

  /** The last iteration of the scanner. */
  lemma ScanNotFound(p: Phase, s: string)
    requires Find(s, Tag(p)) == None
    ensures var cut := |s| - CarryLen(s, Tag(p));
      Scan(p, s) == Emit(p, s[..cut], Parsed("", "", p, s[cut..]))
  {
    hide IsFirst, Contains, Tag, Other, Emit, CarryLen, IsLongestPartial;
  }

  /** Output of `x` followed by output of `y`, standing where `y` stands. */
  function Then(x: Parsed, y: Parsed): Parsed {
    Parsed(x.content + y.content, x.reasoning + y.reasoning, y.phase, y.carry)
  }

  /** No occurrence of the tag starts before the carry, whatever text follows. */
  lemma NoTagBeforeCarry(a: string, b: string, tag: string, j: nat)
    requires tag != "" && !Contains(a, tag)
    requires j < |a| - CarryLen(a, tag)
    ensures !OccursAt(a + b, tag, j)
  {
    if OccursAt(a + b, tag, j) {
      if j + |tag| <= |a| {
        OccursInConcat(a, b, tag, j);
      } else {
        var k := |a| - j;
        assert a[|a| - k..] == (a + b)[j..j + |tag|][..k];
        assert IsPartial(a, tag, k);
      }
    }
  }

  /** With the tag absent from `a`, scanning can restart from the carry. */
  lemma ScanRestartsAtCarry(p: Phase, a: string, b: string, cut: nat)
    requires !Contains(a, Tag(p)) && cut == |a| - CarryLen(a, Tag(p))
    ensures Scan(p, a + b) == Emit(p, a[..cut], Scan(p, a[cut..] + b))
  {
    hide Scan, Emit, Tag, Other, IsFirst, Contains, OccursAt, CarryLen, IsLongestPartial;
    var tag := Tag(p);
    var u, t := a[..cut], a[cut..] + b;
    assert a + b == u + t;
    assert tag != "" by { TagIsLong(p); }
    forall j: nat | j < |u| ensures !OccursAt(u + t, tag, j) {
      NoTagBeforeCarry(a, b, tag, j);
    }
    FindSkips(u, t, tag);
    match Find(t, tag)
    case Some(i) =>
      ScanFound(p, t, i);
      ScanFound(p, u + t, cut + i);
      assert (u + t)[..cut + i] == u + t[..i];
      assert (u + t)[cut + i + |tag|..] == t[i + |tag|..];
      EmitTwice(p, u, t[..i], Scan(Other(p), t[i + |tag|..]));
    case None =>
      ScanNotFound(p, t);
      ScanNotFound(p, u + t);
      SameCarry(a, b, tag);
      var k := CarryLen(t, tag);
      assert (u + t)[..|u + t| - k] == u + t[..|t| - k];
      assert (u + t)[|u + t| - k..] == t[|t| - k..];
      EmitTwice(p, u, t[..|t| - k], Parsed("", "", p, t[|t| - k..]));
  }

  lemma TagIsLong(p: Phase)
    ensures |Tag(p)| >= 7
  {
  }

  lemma EmitTwice(p: Phase, t: string, u: string, rest: Parsed)
    ensures Emit(p, t, Emit(p, u, rest)) == Emit(p, t + u, rest)
  {
    assert t + (u + rest.content) == (t + u) + rest.content;
    assert t + (u + rest.reasoning) == (t + u) + rest.reasoning;
  }

  lemma EmitThen(p: Phase, t: string, x: Parsed, y: Parsed)
    ensures Emit(p, t, Then(x, y)) == Then(Emit(p, t, x), y)
  {
    assert t + (x.content + y.content) == (t + x.content) + y.content;
    assert t + (x.reasoning + y.reasoning) == (t + x.reasoning) + y.reasoning;
  }

  /** The text before the carry never contributes to a later carry. */
  lemma SameCarry(a: string, b: string, tag: string)
    ensures var cut := |a| - CarryLen(a, tag);
      CarryLen(a + b, tag) == CarryLen(a[cut..] + b, tag)
  {
    var cut := |a| - CarryLen(a, tag);
    var s, t := a + b, a[cut..] + b;
    assert s == a[..cut] + t;
    forall k: nat ensures IsPartial(s, tag, k) <==> IsPartial(t, tag, k) {
      if 0 < k <= |t| {
        assert s[|s| - k..] == t[|t| - k..];
      } else if |t| < k && IsPartial(s, tag, k) {
        var m := k - |b|;
        assert a[|a| - m..] == s[|s| - k..][..m];
        assert IsPartial(a, tag, m);
      }
    }
  }

  /** Reading `a` and then `b` is reading `a + b`. */
  lemma {:induction false} ScanSplits(p: Phase, a: string, b: string)
    ensures var x := Scan(p, a); Scan(p, a + b) == Then(x, Scan(x.phase, x.carry + b))
    decreases |a|
  {
    hide Scan, Tag, Other, IsFirst, Contains, OccursAt, CarryLen, IsLongestPartial;
    TagIsLong(p);
    match Find(a, Tag(p))
    case Some(i) =>
      var n := i + |Tag(p)|;
      ScanFound(p, a, i);
      FindIgnoresTail(a, b, Tag(p));
      ScanFound(p, a + b, i);
      assert (a + b)[..i] == a[..i];
      assert (a + b)[n..] == a[n..] + b;
      ScanSplits(Other(p), a[n..], b);
      var x := Scan(Other(p), a[n..]);
      EmitThen(p, a[..i], x, Scan(x.phase, x.carry + b));
    case None =>
      ScanNotFound(p, a);
      ScanRestartsAtCarry(p, a, b, |a| - CarryLen(a, Tag(p)));
  }

  /** The carry is tag-free, so a scan that stands on it alone emits nothing. */
  lemma CarryIsStable(p: Phase, s: string)
    ensures var x := Scan(p, s); Scan(x.phase, x.carry) == Parsed("", "", x.phase, x.carry)
  {
    hide Scan;
    ScanSplits(p, s, "");
    var x := Scan(p, s);
    assert s + "" == s && x.carry + "" == x.carry;
    var y := Scan(x.phase, x.carry);
    assert x == Then(x, y);
    assert |x.content| == |x.content| + |y.content|;
    assert |x.reasoning| == |x.reasoning| + |y.reasoning|;
  }

  // ---------------------------------------------------------------- what the output means

  /** Segments joined by alternating tags, starting in phase `p`. */
  ghost function Join(p: Phase, segs: seq<string>): string
    requires segs != []
    decreases |segs|
  {
    if |segs| == 1 then segs[0] else segs[0] + (Tag(p) + Join(Other(p), segs[1..]))
  }

  ghost predicate TagFree(p: Phase, segs: seq<string>)
    requires segs != []
    decreases |segs|
  {
    !Contains(segs[0], Tag(p)) && (|segs| > 1 ==> TagFree(Other(p), segs[1..]))
  }

  /** The text of the segments that lie in phase `q`. */
  ghost function TextIn(q: Phase, p: Phase, segs: seq<string>): string
    decreases |segs|
  {
    if segs == [] then "" else (if p == q then segs[0] else "") + TextIn(q, Other(p), segs[1..])
  }

  ghost function EndPhase(p: Phase, segs: seq<string>): Phase
    decreases |segs|
  {
    if |segs| <= 1 then p else EndPhase(Other(p), segs[1..])
  }

  /** Content and reasoning once `finalize` has flushed the carry. */
  function Flushed(x: Parsed): (string, string) {
    if x.phase.Content? then (x.content + x.carry, x.reasoning) else (x.content, x.reasoning + x.carry)
  }

  /** A tag has one `<`, at its front, so two occurrences cannot overlap. */
  lemma TagDoesNotOverlapItself(p: Phase, s: string, i: nat, j: nat)
    requires OccursAt(s, Tag(p), j) && i < j < i + |Tag(p)|
    ensures !OccursAt(s, Tag(p), i)
  {
    var tag := Tag(p);
    assert forall m :: 0 < m < |tag| ==> tag[m] != '<';
    assert s[j] == s[j..j + |tag|][0] == '<';
    if i + |tag| <= |s| {
      assert s[i..i + |tag|][j - i] == s[j];
    }
  }

  lemma TagIsFoundAfterTagFreeText(p: Phase, seg: string, rest: string)
    requires !Contains(seg, Tag(p))
    ensures Find(seg + (Tag(p) + rest), Tag(p)) == Some(|seg|)
  {
    var tag := Tag(p);
    var s := seg + (tag + rest);
    forall j: nat | j < |seg| ensures !OccursAt(s, tag, j) {
      OccursInConcat(seg, tag + rest, tag, j);
      if |seg| < j + |tag| {
        TagDoesNotOverlapItself(p, s, j, |seg|);
      }
    }
    FindIs(s, tag, |seg|);
  }

  /** Main meaning result: the output is the segments of the tag-free decomposition. */
  lemma {:induction false} OutputIsTheDecomposition(p: Phase, segs: seq<string>)
    requires segs != [] && TagFree(p, segs)
    ensures Flushed(Scan(p, Join(p, segs))) == (TextIn(Content, p, segs), TextIn(InThink, p, segs))
    ensures Scan(p, Join(p, segs)).phase == EndPhase(p, segs)
    decreases |segs|
  {
    hide Scan, Tag, Other, IsFirst, Contains, OccursAt, CarryLen, IsLongestPartial;
    if |segs| == 1 {
      var s := segs[0];
      ScanNotFound(p, s);
      var cut := |s| - CarryLen(s, Tag(p));
      assert s[..cut] + s[cut..] == s;
      assert segs[1..] == [] && s + "" == s && "" + s[cut..] == s[cut..];
      FlushedEmit(p, s[..cut], Parsed("", "", p, s[cut..]));
    } else {
      var rest := Join(Other(p), segs[1..]);
      var s := Join(p, segs);
      TagIsFoundAfterTagFreeText(p, segs[0], rest);
      ScanFound(p, s, |segs[0]|);
      assert s[..|segs[0]|] == segs[0];
      assert s[|segs[0]| + |Tag(p)|..] == rest;
      OutputIsTheDecomposition(Other(p), segs[1..]);
      FlushedEmit(p, segs[0], Scan(Other(p), rest));
      forall q ensures "" + TextIn(q, Other(p), segs[1..]) == TextIn(q, Other(p), segs[1..]) {
      }
    }
  }

  lemma FlushedEmit(p: Phase, t: string, x: Parsed)
    ensures var (c, r) := Flushed(x);
      Flushed(Emit(p, t, x)) == if p.Content? then (t + c, r) else (c, t + r)
  {
    assert (t + x.content) + x.carry == t + (x.content + x.carry);
    assert (t + x.reasoning) + x.carry == t + (x.reasoning + x.carry);
  }

  lemma NoTagBeforeTheFirst(s: string, tag: string, i: nat)
    requires tag != "" && i <= |s| && IsFirst(s, tag, 0, Some(i))
    ensures !Contains(s[..i], tag)
  {
    hide Find;
    assert s == s[..i] + s[i..];
    forall j ensures !OccursAt(s[..i], tag, j) {
      OccursInConcat(s[..i], s[i..], tag, j);
    }
  }

  ghost function Segments(p: Phase, s: string): (segs: seq<string>)
    ensures segs != []
    decreases |s|
  {
    match Find(s, Tag(p))
    case None => [s]
    case Some(i) => [s[..i]] + Segments(Other(p), s[i + |Tag(p)|..])
  }

  lemma SegmentsFound(p: Phase, s: string, i: nat)
    requires Find(s, Tag(p)) == Some(i)
    ensures i + |Tag(p)| <= |s|
    ensures Segments(p, s) == [s[..i]] + Segments(Other(p), s[i + |Tag(p)|..])
  {
    hide Tag, Other, OccursAt, IsFirst, Contains;
  }

  lemma SegmentsNotFound(p: Phase, s: string)
    requires Find(s, Tag(p)) == None
    ensures Segments(p, s) == [s]
  {
    hide Tag, Other, OccursAt, IsFirst, Contains;
  }

  /** Every text has a tag-free decomposition ... */
  lemma {:induction false} SegmentsDecompose(p: Phase, s: string)
    ensures TagFree(p, Segments(p, s)) && Join(p, Segments(p, s)) == s
    decreases |s|
  {
    hide Tag, Other, OccursAt, IsFirst, Contains, Segments;
    TagIsLong(p);
    match Find(s, Tag(p))
    case None =>
      SegmentsNotFound(p, s);
    case Some(i) =>
      SegmentsFound(p, s, i);
      var rest := s[i + |Tag(p)|..];
      SegmentsDecompose(Other(p), rest);
      assert Segments(p, s)[1..] == Segments(Other(p), rest);
      assert s == s[..i] + (Tag(p) + rest);
      NoTagBeforeTheFirst(s, Tag(p), i);
  }

  /** ... and only one: removing the tags loses nothing that could be put back differently. */
  lemma {:induction false} DecompositionIsUnique(p: Phase, a: seq<string>, b: seq<string>)
    requires a != [] && b != [] && TagFree(p, a) && TagFree(p, b)
    requires Join(p, a) == Join(p, b)
    ensures a == b
    decreases |a|
  {
    hide Tag, Other, OccursAt, IsFirst, Contains;
    var s := Join(p, a);
    if |a| > 1 {
      TagIsFoundAfterTagFreeText(p, a[0], Join(Other(p), a[1..]));
    }
    if |b| > 1 {
      TagIsFoundAfterTagFreeText(p, b[0], Join(Other(p), b[1..]));
    }
    if |a| > 1 && |b| > 1 {
      assert a[0] == s[..|a[0]|] == b[0];
      assert Join(Other(p), a[1..]) == s[|a[0]| + |Tag(p)|..] == Join(Other(p), b[1..]);
      DecompositionIsUnique(Other(p), a[1..], b[1..]);
      assert a == [a[0]] + a[1..] && b == [b[0]] + b[1..];
    }
  }
}
