/**
 The `think_tag` printer: what it writes for every stream of deltas, and when the field
 parsers read the reasoning and the content back from it.
 */
module ThinkingPrinter {
  import opened Text
  import opened ThinkingTransformer
  import opened ThinkingStream

  // ---------------------------------------------------------------- the parts of a stream

  function ReasoningOf(d: Delta): string {
    if FieldReasoning(d).Some? then FieldReasoning(d).value else ""
  }

  function AllReasoning(ds: seq<Delta>): string {
    if ds == [] then "" else ReasoningOf(ds[0]) + AllReasoning(ds[1..])
  }

  function AllContent(ds: seq<Delta>): string {
    if ds == [] then "" else TextOf(ds[0].content) + AllContent(ds[1..])
  }

  /** The content in front of the first reasoning. */
  function Lead(ds: seq<Delta>): string {
    if ds == [] || ReasoningOf(ds[0]) != "" then "" else TextOf(ds[0].content) + Lead(ds[1..])
  }

  /** The deltas from the first reasoning on. */
  function FromThought(ds: seq<Delta>): seq<Delta> {
    if ds == [] || ReasoningOf(ds[0]) != "" then ds else FromThought(ds[1..])
  }

  /** With the block open: the reasoning up to the first content, which closes it. */
  function Thought(ds: seq<Delta>): string {
    if ds == [] then ""
    else ReasoningOf(ds[0]) + if TextOf(ds[0].content) != "" then "" else Thought(ds[1..])
  }

  /** All text in arrival order, reasoning before content within one delta. */
  function Mixed(ds: seq<Delta>): string {
    if ds == [] then "" else ReasoningOf(ds[0]) + TextOf(ds[0].content) + Mixed(ds[1..])
  }

  /** With the block open: everything from the first content on. */
  function Rest(ds: seq<Delta>): string {
    if ds == [] then ""
    else if TextOf(ds[0].content) != "" then TextOf(ds[0].content) + Mixed(ds[1..])
    else Rest(ds[1..])
  }

  /** No reasoning after content. */
  predicate ReasoningFirst(ds: seq<Delta>) {
    ds == [] ||
    (if TextOf(ds[0].content) != "" then AllReasoning(ds[1..]) == "" else ReasoningFirst(ds[1..]))
  }

  function Printed(reasoning: string, content: string): string {
    if reasoning == "" then content else OPEN_TAG + (reasoning + (CLOSE_TAG + content))
  }

  /** The content in front, one block, and the rest as it came. */
  function PrintedText(ds: seq<Delta>): string {
    Lead(ds) + Printed(Thought(FromThought(ds)), Rest(FromThought(ds)))
  }

  // ---------------------------------------------------------------- what the printer writes

  /** The text one delta prints, and where the printer then stands. */
  lemma PrinterStep(st: State, d: Delta)
    requires st.target.ThinkTag? && (st.thinkClosed ==> st.thinkOpen)
    ensures var (st1, d1) := Step(st, d);
      var r, c := ReasoningOf(d), TextOf(d.content);
      TextOf(d1.content) ==
        (if r != "" && !st.thinkOpen then OPEN_TAG + r else r) +
        (if c != "" && st1.thinkOpen && !st.thinkClosed then CLOSE_TAG + c else c)
    ensures var (st1, d1) := Step(st, d);
      TextOf(d1.reasoning) == TextOf(d1.reasoningContent) == "" &&
      st1 == st.(thinkOpen := st.thinkOpen || ReasoningOf(d) != "",
                 thinkClosed := st.thinkClosed || (TextOf(d.content) != "" && st1.thinkOpen))
  {
    var r, c := ReasoningOf(d), TextOf(d.content);
    assert "" + r == r && "" + c == c && "" + "" == "";
  }

  /** What a stream accumulates from its first delta and the rest. */
  lemma PrinterCons(st: State, ds: seq<Delta>)
    requires st.target.ThinkTag? && (st.thinkClosed ==> st.thinkOpen) && ds != []
    ensures var (st1, d) := Step(st, ds[0]);
      var later := Accumulate(StreamFrom(st1, ds[1..]));
      Accumulate(StreamFrom(st, ds)) ==
        Received(TextOf(d.content) + later.content, later.reasoning, later.reasoningContent)
  {
    PrinterStep(st, ds[0]);
    var (st1, d) := Step(st, ds[0]);
    hide Step;
    AccumulateCons(d, StreamFrom(st1, ds[1..]));
    var later := Accumulate(StreamFrom(st1, ds[1..]));
    assert "" + later.reasoning == later.reasoning && "" + later.reasoningContent == later.reasoningContent;
  }

  /**
   Why the order matters: once its block is closed the printer never opens another, so any
   later reasoning is printed as plain content.
   */
  lemma {:induction false} ClosedPrinterLeaksReasoning(st: State, ds: seq<Delta>)
    requires st.target.ThinkTag? && st.thinkOpen && st.thinkClosed
    ensures Accumulate(StreamFrom(st, ds)) == Received(Mixed(ds), "", "")
    decreases |ds|
  {
    if ds != [] {
      PrinterStep(st, ds[0]);
      PrinterCons(st, ds);
      hide Step, StreamFrom, Accumulate;
      ClosedPrinterLeaksReasoning(Step(st, ds[0]).0, ds[1..]);
    }
  }

  lemma {:induction false} OpenPrinter(st: State, ds: seq<Delta>)
    requires st.target.ThinkTag? && st.thinkOpen && !st.thinkClosed
    ensures Accumulate(StreamFrom(st, ds)) == Received(Thought(ds) + (CLOSE_TAG + Rest(ds)), "", "")
    decreases |ds|
  {
    if ds == [] {
      OpenPrinterCloses(st);
      assert "" + (CLOSE_TAG + "") == CLOSE_TAG;
    } else {
      hide Step, StreamFrom, Accumulate;
      var r, c, later := ReasoningOf(ds[0]), TextOf(ds[0].content), ds[1..];
      var st1 := Step(st, ds[0]).0;
      PrinterStep(st, ds[0]);
      PrinterCons(st, ds);
      if c != "" {
        ClosedPrinterLeaksReasoning(st1, later);
        Regroup(r, CLOSE_TAG, c, Mixed(later));
      } else {
        OpenPrinter(st1, later);
        Regroup(r, Thought(later), CLOSE_TAG, Rest(later));
      }
    }
  }

  lemma OpenPrinterCloses(st: State)
    requires st.target.ThinkTag? && st.thinkOpen && !st.thinkClosed
    ensures Accumulate(StreamFrom(st, [])) == Received(CLOSE_TAG, "", "")
  {
    var out := StreamFrom(st, []);
    AccumulateCons(out[0], []);
    assert out == [out[0]] + [] && CLOSE_TAG + "" == CLOSE_TAG;
  }

  lemma Regroup(a: string, b: string, c: string, d: string)
    ensures (a + (b + c)) + d == (a + "") + (b + (c + d))
    ensures (a + "") + (b + (c + d)) == (a + b) + (c + d) == a + (b + (c + d))
  {
  }

  lemma PrintedTextCons(ds: seq<Delta>)
    requires ds != []
    ensures var r, c, later := ReasoningOf(ds[0]), TextOf(ds[0].content), ds[1..];
      PrintedText(ds) ==
        if r == "" then c + PrintedText(later)
        else if c != "" then OPEN_TAG + (r + (CLOSE_TAG + (c + Mixed(later))))
        else OPEN_TAG + ((r + Thought(later)) + (CLOSE_TAG + Rest(later)))
  {
    hide Mixed, ReasoningOf, TextOf;
    var r, c, later := ReasoningOf(ds[0]), TextOf(ds[0].content), ds[1..];
    if r == "" {
      hide Thought, Rest, Printed;
      var block := Printed(Thought(FromThought(later)), Rest(FromThought(later)));
      assert c + (Lead(later) + block) == (c + Lead(later)) + block;
    } else {
      assert FromThought(ds) == ds && Lead(ds) == "";
      hide FromThought, Lead;
      BlockCons(ds);
      assert PrintedText(ds) == Printed(Thought(ds), Rest(ds));
    }
  }

  lemma BlockCons(ds: seq<Delta>)
    requires ds != [] && ReasoningOf(ds[0]) != ""
    ensures var r, c, later := ReasoningOf(ds[0]), TextOf(ds[0].content), ds[1..];
      Thought(ds) != "" &&
      Thought(ds) == (if c != "" then r else r + Thought(later)) &&
      Rest(ds) == if c != "" then c + Mixed(later) else Rest(later)
  {
    hide Mixed, ReasoningOf, TextOf;
    assert ReasoningOf(ds[0]) + "" == ReasoningOf(ds[0]);
  }

  /** Main result, for every stream: content, one block, and behind it whatever comes, tags or not. */
  lemma {:induction false} PrinterWrites(ds: seq<Delta>)
    ensures Accumulate(StreamFrom(Initial(ThinkTag), ds)) == Received(PrintedText(ds), "", "")
    decreases |ds|
  {
    var st := Initial(ThinkTag);
    if ds != [] {
      hide Step, StreamFrom, Accumulate, PrintedText, Mixed, Thought, Rest;
      var r, c, later := ReasoningOf(ds[0]), TextOf(ds[0].content), ds[1..];
      var st1 := Step(st, ds[0]).0;
      PrinterStep(st, ds[0]);
      PrinterCons(st, ds);
      PrintedTextCons(ds);
      if r == "" {
        PrinterWrites(later);
        assert "" + c == c;
      } else if c != "" {
        ClosedPrinterLeaksReasoning(st1, later);
        FirstBlock(r, c, "", Mixed(later));
      } else {
        OpenPrinter(st1, later);
        FirstBlock(r, "", Thought(later), Rest(later));
      }
    }
  }

  lemma FirstBlock(r: string, c: string, thought: string, rest: string)
    ensures ((OPEN_TAG + r) + (CLOSE_TAG + c)) + rest == OPEN_TAG + (r + (CLOSE_TAG + (c + rest)))
    ensures ((OPEN_TAG + r) + "") + (thought + (CLOSE_TAG + rest)) == OPEN_TAG + ((r + thought) + (CLOSE_TAG + rest))
  {
  }

  /** What the parts leave out and put together. */
  lemma {:induction false} MixedLength(ds: seq<Delta>)
    ensures |Mixed(ds)| == |AllReasoning(ds)| + |AllContent(ds)|
    ensures AllReasoning(ds) == "" ==> Mixed(ds) == AllContent(ds)
  {
    if ds != [] {
      MixedLength(ds[1..]);
      if AllReasoning(ds) == "" {
        assert |ReasoningOf(ds[0])| + |AllReasoning(ds[1..])| == 0;
        assert ("" + TextOf(ds[0].content)) + Mixed(ds[1..]) == TextOf(ds[0].content) + Mixed(ds[1..]);
      }
    }
  }

  lemma {:induction false} BlockParts(ds: seq<Delta>)
    ensures |Thought(ds)| + |Rest(ds)| == |AllReasoning(ds)| + |AllContent(ds)|
    ensures Thought(ds) <= AllReasoning(ds)
    ensures ReasoningFirst(ds) <==> Thought(ds) == AllReasoning(ds)
    ensures ReasoningFirst(ds) ==> Rest(ds) == AllContent(ds)
  {
    if ds != [] {
      var r, c, later := ReasoningOf(ds[0]), TextOf(ds[0].content), ds[1..];
      MixedLength(later);
      if c == "" {
        BlockParts(later);
        assert "" + AllContent(later) == AllContent(later);
        assert r + Thought(later) == r + AllReasoning(later) ==> Thought(later) == AllReasoning(later) by {
          assert (r + Thought(later))[|r|..] == Thought(later) &&
            (r + AllReasoning(later))[|r|..] == AllReasoning(later);
        }
      } else {
        assert r + "" == r && (r + AllReasoning(later))[..|r|] == r;
        assert r == r + AllReasoning(later) ==> AllReasoning(later) == "" by {
          assert |r + AllReasoning(later)| == |r| + |AllReasoning(later)|;
        }
      }
    }
  }

  lemma {:induction false} LeadParts(ds: seq<Delta>)
    ensures AllContent(ds) == Lead(ds) + AllContent(FromThought(ds))
    ensures AllReasoning(ds) == AllReasoning(FromThought(ds))
    ensures Thought(FromThought(ds)) == "" <==> AllReasoning(ds) == ""
    ensures FromThought(ds) == [] <==> AllReasoning(ds) == ""
  {
    hide TextOf, ReasoningOf;
    if ds != [] && ReasoningOf(ds[0]) == "" {
      var c, later := TextOf(ds[0].content), ds[1..];
      LeadParts(later);
      assert c + (Lead(later) + AllContent(FromThought(later))) == (c + Lead(later)) + AllContent(FromThought(later));
      assert "" + AllReasoning(later) == AllReasoning(later);
    } else {
      assert "" + AllContent(ds) == AllContent(ds);
    }
  }

  /** Without reasoning behind the block all of it is in the block, and all content is around it. */
  lemma PrinterWritesOneBlock(ds: seq<Delta>)
    ensures ReasoningFirst(FromThought(ds)) ==>
      Accumulate(StreamFrom(Initial(ThinkTag), ds)) ==
        Received(Lead(ds) + Printed(AllReasoning(ds), AllContent(FromThought(ds))), "", "")
    ensures AllContent(ds) == Lead(ds) + AllContent(FromThought(ds))
  {
    PrinterWrites(ds);
    LeadParts(ds);
    BlockParts(FromThought(ds));
  }

  // ---------------------------------------------------------------- printing, then parsing

  /** Characters taken by the first `n` tags, starting in phase `p`. */
  ghost function TagLengths(p: Phase, n: nat): nat
    decreases n
  {
    if n == 0 then 0 else |Tag(p)| + TagLengths(Other(p), n - 1)
  }

  lemma {:induction false} JoinLength(p: Phase, segs: seq<string>)
    requires segs != []
    ensures |Join(p, segs)| ==
      |TextIn(Content, p, segs)| + |TextIn(InThink, p, segs)| + TagLengths(p, |segs| - 1)
    decreases |segs|
  {
    if |segs| > 1 {
      JoinLength(Other(p), segs[1..]);
    } else {
      assert segs[1..] == [];
    }
  }

  /** From the content phase `n` tags take 15 characters only if they are one pair. */
  lemma {:induction false} TagLengthsFromContent(n: nat)
    ensures TagLengths(Content, n) == (if n % 2 == 0 then 15 * (n / 2) else 15 * (n / 2) + 7)
  {
    if n >= 2 {
      TagLengthsFromContent(n - 2);
      assert TagLengths(Content, n) == 7 + TagLengths(InThink, n - 1);
      assert TagLengths(InThink, n - 1) == 8 + TagLengths(Content, n - 2);
    } else if n == 1 {
      assert TagLengths(InThink, 0) == 0;
    }
  }

  /** Three tag-free parts around one pair of tags are their own decomposition. */
  lemma PrintedDecomposes(lead: string, thought: string, rest: string)
    requires !Contains(lead, OPEN_TAG) && !Contains(thought, CLOSE_TAG) && !Contains(rest, OPEN_TAG)
    ensures var segs := [lead, thought, rest];
      TagFree(Content, segs) && Join(Content, segs) == lead + (OPEN_TAG + (thought + (CLOSE_TAG + rest))) &&
      TextIn(Content, Content, segs) == lead + rest && TextIn(InThink, Content, segs) == thought
  {
    var segs := [lead, thought, rest];
    assert segs[1..] == [thought, rest] && segs[1..][1..] == [rest];
    assert Join(InThink, segs[1..]) == thought + (CLOSE_TAG + rest);
    ThreeSegments(segs);
  }

  lemma OneSegment(s: string)
    ensures TextIn(Content, Content, [s]) == s && TextIn(InThink, Content, [s]) == ""
    ensures TagFree(Content, [s]) <==> !Contains(s, OPEN_TAG)
    ensures Join(Content, [s]) == s
  {
    hide Contains;
    assert [s][1..] == [] && s + "" == s && "" + "" == "";
  }

  lemma EmptyHasNoTag(tag: string)
    requires tag != ""
    ensures !Contains("", tag)
  {
  }

  lemma ThreeSegments(segs: seq<string>)
    requires |segs| == 3
    ensures TextIn(Content, Content, segs) == segs[0] + segs[2] && TextIn(InThink, Content, segs) == segs[1]
    ensures TagFree(Content, segs) <==>
      !Contains(segs[0], OPEN_TAG) && !Contains(segs[1], CLOSE_TAG) && !Contains(segs[2], OPEN_TAG)
  {
    hide Contains;
    var tail, last := segs[1..], segs[2..];
    assert tail[0] == segs[1] && tail[1..] == last && last[0] == segs[2] && last[1..] == [];
    assert TextIn(Content, Content, last) == segs[2] by { assert segs[2] + "" == segs[2]; }
    assert TextIn(InThink, Content, last) == "";
    assert TextIn(Content, InThink, tail) == segs[2] by { assert "" + segs[2] == segs[2]; }
    assert TextIn(InThink, InThink, tail) == segs[1] by { assert segs[1] + "" == segs[1]; }
    assert "" + segs[1] == segs[1];
    assert TagFree(Content, last) <==> !Contains(segs[2], OPEN_TAG);
    assert TagFree(InThink, tail) <==> !Contains(segs[1], CLOSE_TAG) && !Contains(segs[2], OPEN_TAG);
  }

  /** A tag within tag-free text and one more tag: it is that one, and the text ends in front of it. */
  lemma FirstTagPosition(p: Phase, s: string, first: string, tail: string, text: string, more: string)
    requires s == first + (Tag(p) + tail) == text + (Tag(p) + more) && !Contains(first, Tag(p))
    ensures |first| <= |text|
    ensures |first| == |text| ==> first == text && tail == more
    ensures |first| < |text| ==> exists y :: text == first + (Tag(p) + y)
  {
    var tag := Tag(p);
    TagIsFoundAfterTagFreeText(p, first, tail);
    assert s[|text|..|text| + |tag|] == tag;
    assert OccursAt(s, tag, |text|);
    if |first| == |text| {
      assert first == s[..|first|] == text && tail == s[|first| + |tag|..] == more;
    } else {
      if |text| < |first| + |tag| {
        TagDoesNotOverlapItself(p, s, |first|, |text|);
      }
      assert text == s[..|text|] && first == s[..|first|];
      assert text == first + (tag + text[|first| + |tag|..]);
    }
  }

  /**
   If the scanner finds `content` and `reasoning` in a printed text, it found the printer's own
   tags: the block is all of the reasoning, and none of the parts holds the tag that would end it.
   */
  lemma OnlyPlainPartsComeBack(lead: string, thought: string, rest: string, reasoning: string, content: string,
                               segs: seq<string>)
    requires segs != [] && TagFree(Content, segs)
    requires Join(Content, segs) == lead + (OPEN_TAG + (thought + (CLOSE_TAG + rest)))
    requires TextIn(Content, Content, segs) == lead + content && TextIn(InThink, Content, segs) == reasoning
    requires |thought| + |rest| == |reasoning| + |content| && |thought| <= |reasoning|
    ensures thought == reasoning
    ensures !Contains(lead, OPEN_TAG) && !Contains(reasoning, CLOSE_TAG) && !Contains(content, OPEN_TAG)
  {
    hide Contains, OccursAt, IsFirst;
    JoinLength(Content, segs);
    TagLengthsFromContent(|segs| - 1);
    assert |segs| == 3;
    ThreeSegments(segs);
    var tail := segs[1..];
    assert tail[1..] == [segs[2]];
    var s := Join(Content, segs);
    var t := Join(InThink, tail);
    assert Join(Content, tail[1..]) == segs[2];
    assert t == segs[1] + (CLOSE_TAG + segs[2]);
    FirstTagPosition(Content, s, segs[0], t, lead, thought + (CLOSE_TAG + rest));
    if |segs[0]| < |lead| {
      var y :| lead == segs[0] + (OPEN_TAG + y);
      LastSegmentOpens(segs[0], segs[2], y, content);
      assert false;
    }
    FirstTagPosition(InThink, t, segs[1], segs[2], thought, rest);
    assert (lead + content)[|lead|..] == content && (segs[0] + segs[2])[|lead|..] == segs[2];
  }

  lemma LastSegmentOpens(first: string, last: string, y: string, content: string)
    requires first + last == (first + (OPEN_TAG + y)) + content
    ensures Contains(last, OPEN_TAG)
  {
    assert last == (first + last)[|first|..] == OPEN_TAG + (y + content);
    assert last[0..7] == OPEN_TAG;
    assert OccursAt(last, OPEN_TAG, 0);
  }

  /** No reasoning arrives behind the block, and no part holds the tag that would end it. */
  ghost predicate ComesBack(ds: seq<Delta>) {
    if AllReasoning(ds) == "" then !Contains(AllContent(ds), OPEN_TAG)
    else
      ReasoningFirst(FromThought(ds)) && !Contains(AllReasoning(ds), CLOSE_TAG) &&
      !Contains(Lead(ds), OPEN_TAG) && !Contains(AllContent(FromThought(ds)), OPEN_TAG)
  }

  /**
   Main result, for every stream: print with one target, cut anywhere, parse with the other, and
   the reasoning and the content come back exactly under that condition.
   */
  lemma PrintThenParse(t: ThinkingFormat, ds: seq<Delta>, fragments: seq<string>)
    requires ToField(t)
    requires Concat(fragments) == Accumulate(StreamFrom(Initial(ThinkTag), ds)).content
    ensures Accumulate(StreamFrom(Initial(t), ContentDeltas(fragments))) == InField(t, AllContent(ds), AllReasoning(ds))
      <==> ComesBack(ds)
  {
    hide Contains, StreamFrom, Accumulate, TagFree, Join, TextIn, Segments;
    var s, r, c := PrintedText(ds), AllReasoning(ds), AllContent(ds);
    PrinterWrites(ds);
    LeadParts(ds);
    BlockParts(FromThought(ds));
    var segs := Segments(Content, s);
    SegmentsDecompose(Content, s);
    StreamedOutputIsTheDecomposition(t, fragments, segs);
    if r == "" {
      assert s == c;
      PlainTextComesBack(t, fragments, c);
    } else {
      var lead, thought, rest := Lead(ds), Thought(FromThought(ds)), Rest(FromThought(ds));
      if TextIn(Content, Content, segs) == c && TextIn(InThink, Content, segs) == r {
        OnlyPlainPartsComeBack(lead, thought, rest, r, AllContent(FromThought(ds)), segs);
      }
      if ComesBack(ds) {
        PrintedDecomposes(lead, thought, rest);
        StreamedOutputIsTheDecomposition(t, fragments, [lead, thought, rest]);
      }
    }
  }

  /** Reasoning that resumes after an answer has begun is printed as part of the answer. */
  lemma ResumedReasoningIsLost(r: string, c: string, again: string)
    requires r != "" && c != "" && again != ""
    ensures var ds := [NO_DELTA.(reasoning := Text(r)), ContentDelta(c), NO_DELTA.(reasoning := Text(again))];
      PrintedText(ds) == OPEN_TAG + (r + (CLOSE_TAG + (c + again))) && !ComesBack(ds)
  {
    var first, second, third := NO_DELTA.(reasoning := Text(r)), ContentDelta(c), NO_DELTA.(reasoning := Text(again));
    var ds := [first, second, third];
    assert ds[1..] == [second, third] && ds[1..][1..] == [third] && [third][1..] == [];
    assert again + "" == again && c + "" == c && "" + again == again && r + "" == r && "" + c == c;
    assert ReasoningOf(second) == "" && ReasoningOf(third) == again;
    assert Mixed([third]) == again;
    assert Rest(ds[1..]) == c + again && Thought(ds[1..]) == "";
    assert Lead(ds) == "" && Thought(ds) == r && Rest(ds) == c + again;
    assert "" + Printed(r, c + again) == Printed(r, c + again);
    assert AllReasoning([third]) == again;
    assert !ReasoningFirst(ds[1..]) && !ReasoningFirst(ds);
    LeadParts(ds);
  }

  lemma PlainTextComesBack(t: ThinkingFormat, fragments: seq<string>, c: string)
    requires ToField(t) && Concat(fragments) == c
    ensures Accumulate(StreamFrom(Initial(t), ContentDeltas(fragments))) == InField(t, c, "") <==>
      !Contains(c, OPEN_TAG)
  {
    hide Contains, StreamFrom, Accumulate;
    var segs := Segments(Content, c);
    SegmentsDecompose(Content, c);
    StreamedOutputIsTheDecomposition(t, fragments, segs);
    OneSegment(c);
    if !Contains(c, OPEN_TAG) {
      StreamedOutputIsTheDecomposition(t, fragments, [c]);
    }
    if TextIn(Content, Content, segs) == c && TextIn(InThink, Content, segs) == "" {
      JoinLength(Content, segs);
      TagLengthsFromContent(|segs| - 1);
      assert |segs| == 1 && segs == [segs[0]];
      OneSegment(segs[0]);
    }
  }
}
