/**
 The transformer as it sits in a stream: one JSON delta in, one delta out, and a flush
 at the end. `Step` and `Flush` specify the class; the lemmas are about whole streams.
 */
module ThinkingStream {
  import opened Wrappers
  import opened Text
  import opened ThinkingTransformer

  /** A JSON member: missing, `null`, a string, or something else. */
  datatype Field = Absent | Null | Text(text: string) | NotText

  /** The three members of a delta or message that the transformer looks at. */
  datatype Delta = Delta(content: Field, reasoning: Field, reasoningContent: Field)

  datatype State = State(target: ThinkingFormat, phase: Phase, carry: string, thinkOpen: bool, thinkClosed: bool)

  function Initial(target: ThinkingFormat): State {
    State(target, Content, "", false, false)
  }

  function NonEmpty(f: Field): Option<string> {
    if f.Text? && f.text != "" then Some(f.text) else None
  }

  /** The reasoning a delta carries: `reasoning` first, then `reasoning_content`. */
  function FieldReasoning(d: Delta): (r: Option<string>)
    ensures d.reasoning.Text? && d.reasoning.text != "" ==> r == Some(d.reasoning.text)
    ensures !(d.reasoning.Text? && d.reasoning.text != "") ==>
      if d.reasoningContent.Text? && d.reasoningContent.text != "" then r == Some(d.reasoningContent.text) else r.None?
  {
    if NonEmpty(d.reasoning).Some? then NonEmpty(d.reasoning) else NonEmpty(d.reasoningContent)
  }

  predicate ToField(t: ThinkingFormat) {
    t.Reasoning? || t.ReasoningContent?
  }

  function InsertReasoning(t: ThinkingFormat, d: Delta, s: string): Delta {
    if t.Reasoning? then d.(reasoning := Text(s)) else d.(reasoningContent := Text(s))
  }

  function WithoutReasoning(d: Delta): Delta {
    d.(reasoning := Absent, reasoningContent := Absent)
  }

  function StepToField(st: State, d: Delta): (State, Delta) {
    match FieldReasoning(d)
    case Some(r) => (st, InsertReasoning(st.target, WithoutReasoning(d), r))
    case None =>
      if d.content.Text? then
        var x := Scan(st.phase, st.carry + d.content.text);
        var d' := d.(content := Text(x.content));
        (st.(phase := x.phase, carry := x.carry),
         if x.reasoning != "" then InsertReasoning(st.target, d', x.reasoning) else d')
      else (st, d)
  }

  function StepToTag(st: State, d: Delta): (State, Delta) {
    var r := FieldReasoning(d);
    var begun := if r.Some? && !st.thinkOpen then st.(thinkOpen := true) else st;
    var thought := if r.None? then "" else (if st.thinkOpen then "" else OPEN_TAG) + r.value;
    var closes := NonEmpty(d.content).Some? && begun.thinkOpen && !begun.thinkClosed;
    var answer := if NonEmpty(d.content).None? then "" else (if closes then CLOSE_TAG else "") + d.content.text;
    (if closes then begun.(thinkClosed := true) else begun,
     if r.Some? || d.content.Text? then WithoutReasoning(d).(content := Text(thought + answer))
     else WithoutReasoning(d))
  }

  function Step(st: State, d: Delta): (State, Delta) {
    match st.target
    case Passthrough => (st, d)
    case ThinkTag => StepToTag(st, d)
    case _ => StepToField(st, d)
  }

  const NO_DELTA := Delta(Absent, Absent, Absent)

  function Flush(st: State): (State, Option<Delta>) {
    match st.target
    case Passthrough => (st, None)
    case ThinkTag =>
      if st.thinkOpen && !st.thinkClosed then
        (st.(thinkClosed := true), Some(NO_DELTA.(content := Text(CLOSE_TAG))))
      else (st, None)
    case _ =>
      if st.carry == "" then (st, None)
      else
        (st.(carry := ""),
         Some(if st.phase.Content? then NO_DELTA.(content := Text(st.carry))
              else InsertReasoning(st.target, NO_DELTA, st.carry)))
  }

  class ThinkingStreamTransformer {
    const target: ThinkingFormat
    var phase: Phase
    var carry: string
    var thinkOpen: bool
    var thinkClosed: bool

    function Snapshot(): State
      reads this
    {
      State(target, phase, carry, thinkOpen, thinkClosed)
    }

    constructor (target: ThinkingFormat)
      ensures Snapshot() == Initial(target)
    {
      this.target := target;
      phase, carry := Content, "";
      thinkOpen, thinkClosed := false, false;
    }

    method ParseContentSource(fragment: string) returns (contentOut: string, reasoningOut: string)
      modifies this`phase, this`carry
      ensures Parsed(contentOut, reasoningOut, phase, carry) == Scan(old(phase), old(carry) + fragment)
    {
      hide IsFirst, Contains, OccursAt, IsLongestPartial, CarryLen, Scan;
      var combined := carry + fragment;
      carry := "";
      contentOut, reasoningOut := "", "";
      var rest := combined;
      ghost var whole := Scan(phase, combined);
      while true
        invariant whole == Then(Parsed(contentOut, reasoningOut, phase, ""), Scan(phase, rest))
        decreases |rest|
      {
        var tag := Tag(phase);
        TagIsLong(phase);
        var found := Find(rest, tag);
        if found.Some? {
          var i := found.value;
          ScanFound(phase, rest, i);
          EmitAppends(phase, contentOut, reasoningOut, rest[..i], Scan(Other(phase), rest[i + |tag|..]));
          if phase.Content? {
            contentOut := contentOut + rest[..i];
          } else {
            reasoningOut := reasoningOut + rest[..i];
          }
          rest := rest[i + |tag|..];
          phase := Other(phase);
        } else {
          ScanNotFound(phase, rest);
          var k := PartialMarkerLen(rest, tag);
          var cut := |rest| - k;
          EmitAppends(phase, contentOut, reasoningOut, rest[..cut], Parsed("", "", phase, rest[cut..]));
          if phase.Content? {
            contentOut := contentOut + rest[..cut];
          } else {
            reasoningOut := reasoningOut + rest[..cut];
          }
          carry := rest[cut..];
          return;
        }
      }
    }

    method TransformDelta(d: Delta) returns (d': Delta)
      modifies this
      ensures (Snapshot(), d') == Step(old(Snapshot()), d)
      ensures target.Passthrough? ==> d' == d && Snapshot() == old(Snapshot())
    {
      hide Scan;
      if target.Passthrough? {
        return d;
      }
      var dr := FieldReasoning(d);
      if ToField(target) {
        if dr.Some? {
          return InsertReasoning(target, WithoutReasoning(d), dr.value);
        }
        d' := d;
        if d.content.Text? {
          var cOut, rOut := ParseContentSource(d.content.text);
          d' := d.(content := Text(cOut));
          if rOut != "" {
            d' := InsertReasoning(target, d', rOut);
          }
        }
      } else {
        var out := "";
        if dr.Some? {
          if !thinkOpen {
            assert "" + OPEN_TAG == OPEN_TAG;
            out := out + OPEN_TAG;
            thinkOpen := true;
          }
          out := out + dr.value;
        }
        if NonEmpty(d.content).Some? {
          assert (out + CLOSE_TAG) + d.content.text == out + (CLOSE_TAG + d.content.text);
          assert "" + d.content.text == d.content.text;
          if thinkOpen && !thinkClosed {
            out := out + CLOSE_TAG;
            thinkClosed := true;
          }
          out := out + d.content.text;
        } else {
          assert out + "" == out;
        }
        d' := WithoutReasoning(d);
        if dr.Some? || d.content.Text? {
          d' := d'.(content := Text(out));
        }
      }
    }

    method Finalize() returns (flush: Option<Delta>)
      modifies this
      ensures (Snapshot(), flush) == Flush(old(Snapshot()))
      ensures target.Passthrough? ==> flush == None && Snapshot() == old(Snapshot())
    {
      flush := None;
      if target.ThinkTag? {
        if thinkOpen && !thinkClosed {
          thinkClosed := true;
          flush := Some(NO_DELTA.(content := Text(CLOSE_TAG)));
        }
      } else if ToField(target) && carry != "" {
        var leftover := carry;
        carry := "";
        flush := Some(if phase.Content? then NO_DELTA.(content := Text(leftover))
                      else InsertReasoning(target, NO_DELTA, leftover));
      }
    }
  }

  /** Appending what one loop round emits to the two output buffers. */
  lemma EmitAppends(p: Phase, c: string, r: string, t: string, rest: Parsed)
    ensures Then(Parsed(c, r, p, ""), Emit(p, t, rest)) ==
      Then(if p.Content? then Parsed(c + t, r, Other(p), "") else Parsed(c, r + t, Other(p), ""), rest)
  {
    assert c + (t + rest.content) == (c + t) + rest.content;
    assert r + (t + rest.reasoning) == (r + t) + rest.reasoning;
  }

  // ---------------------------------------------------------------- whole streams

  /** Everything a client receives: the transformed deltas, then the flush if there is one. */
  function StreamFrom(st: State, ds: seq<Delta>): seq<Delta>
    decreases |ds|
  {
    if ds == [] then
      match Flush(st).1
      case None => []
      case Some(d) => [d]
    else
      var (st1, d) := Step(st, ds[0]);
      [d] + StreamFrom(st1, ds[1..])
  }

  /** The text a client accumulates per field. */
  datatype Received = Received(content: string, reasoning: string, reasoningContent: string)

  function TextOf(f: Field): string {
    if f.Text? then f.text else ""
  }

  function Accumulate(ds: seq<Delta>): Received {
    if ds == [] then Received("", "", "")
    else
      var d, rest := ds[0], Accumulate(ds[1..]);
      Received(TextOf(d.content) + rest.content, TextOf(d.reasoning) + rest.reasoning,
               TextOf(d.reasoningContent) + rest.reasoningContent)
  }

  function InField(t: ThinkingFormat, content: string, reasoning: string): Received {
    if t.Reasoning? then Received(content, reasoning, "") else Received(content, "", reasoning)
  }

  lemma AccumulateCons(d: Delta, ds: seq<Delta>)
    ensures var rest := Accumulate(ds);
      Accumulate([d] + ds) == Received(TextOf(d.content) + rest.content, TextOf(d.reasoning) + rest.reasoning,
                                       TextOf(d.reasoningContent) + rest.reasoningContent)
  {
    assert ([d] + ds)[1..] == ds;
  }

  function ContentDelta(fragment: string): Delta {
    NO_DELTA.(content := Text(fragment))
  }

  function ContentDeltas(fragments: seq<string>): seq<Delta> {
    if fragments == [] then [] else [ContentDelta(fragments[0])] + ContentDeltas(fragments[1..])
  }

  /** One content fragment hands on exactly what the scan of it emits. */
  lemma StepScans(st: State, fragment: string)
    requires ToField(st.target)
    ensures var x := Scan(st.phase, st.carry + fragment);
      var (st1, d) := Step(st, ContentDelta(fragment));
      st1 == st.(phase := x.phase, carry := x.carry) &&
      Received(TextOf(d.content), TextOf(d.reasoning), TextOf(d.reasoningContent)) ==
        InField(st.target, x.content, x.reasoning)
  {
    hide Scan;
  }

  lemma FlushAccumulates(st: State)
    requires ToField(st.target)
    ensures var (c, r) := Flushed(Parsed("", "", st.phase, st.carry));
      Accumulate(StreamFrom(st, [])) == InField(st.target, c, r)
  {
    if st.carry != "" {
      AccumulateCons(Flush(st).1.value, []);
      assert [Flush(st).1.value] + [] == [Flush(st).1.value];
    }
  }

  /** A stream of content fragments is the scan of their concatenation. */
  lemma {:induction false} StreamIsScan(st: State, fragments: seq<string>)
    requires ToField(st.target)
    requires Scan(st.phase, st.carry) == Parsed("", "", st.phase, st.carry)
    ensures var (c, r) := Flushed(Scan(st.phase, st.carry + Concat(fragments)));
      Accumulate(StreamFrom(st, ContentDeltas(fragments))) == InField(st.target, c, r)
    decreases |fragments|
  {
    hide Scan, Flush, Step, Flushed, Accumulate, TextOf;
    if fragments == [] {
      assert st.carry + Concat(fragments) == st.carry;
      FlushAccumulates(st);
    } else {
      var f, rest := fragments[0], Concat(fragments[1..]);
      var x := Scan(st.phase, st.carry + f);
      var ds := ContentDeltas(fragments);
      var (st1, d) := Step(st, ds[0]);
      StepScans(st, f);
      assert st.carry + Concat(fragments) == (st.carry + f) + rest;
      ScanSplits(st.phase, st.carry + f, rest);
      CarryIsStable(st.phase, st.carry + f);
      StreamIsScan(st1, fragments[1..]);
      assert ds[1..] == ContentDeltas(fragments[1..]);
      AccumulateCons(d, StreamFrom(st1, ds[1..]));
      assert "" + "" == "";
      FlushedThen(x, Scan(x.phase, x.carry + rest));
    }
  }

  lemma FlushedThen(x: Parsed, y: Parsed)
    ensures var (c, r) := Flushed(y); Flushed(Then(x, y)) == (x.content + c, x.reasoning + r)
  {
    assert x.content + (y.content + y.carry) == (x.content + y.content) + y.carry;
    assert x.reasoning + (y.reasoning + y.carry) == (x.reasoning + y.reasoning) + y.carry;
  }

  /**
   What a client of the field formats receives depends on the text alone, not on how it
   was cut: the segments outside and inside `<think>`, tags removed.
   */
  lemma StreamedOutputIsTheDecomposition(t: ThinkingFormat, fragments: seq<string>, segs: seq<string>)
    requires ToField(t)
    requires segs != [] && TagFree(Content, segs) && Join(Content, segs) == Concat(fragments)
    ensures Accumulate(StreamFrom(Initial(t), ContentDeltas(fragments))) ==
      InField(t, TextIn(Content, Content, segs), TextIn(InThink, Content, segs))
  {
    CarryIsStable(Content, "");
    StreamIsScan(Initial(t), fragments);
    assert "" + Concat(fragments) == Concat(fragments);
    OutputIsTheDecomposition(Content, segs);
  }

  lemma FragmentationIsInvisible(t: ThinkingFormat, fragments: seq<string>, others: seq<string>)
    requires ToField(t) && Concat(fragments) == Concat(others)
    ensures Accumulate(StreamFrom(Initial(t), ContentDeltas(fragments))) ==
      Accumulate(StreamFrom(Initial(t), ContentDeltas(others)))
  {
    var segs := Segments(Content, Concat(fragments));
    SegmentsDecompose(Content, Concat(fragments));
    StreamedOutputIsTheDecomposition(t, fragments, segs);
    StreamedOutputIsTheDecomposition(t, others, segs);
  }
}
