/**
 The think-tag transformer inside the client stream: it sees every upstream event, but its
 flush is sent only in front of an upstream `[DONE]`. What a client then receives, for each
 way in which the upstream can end.
 */
module StreamThinking {
  import opened Wrappers
  import opened Text
  import opened ThinkingTransformer
  import opened ThinkingStream
  import opened ThinkingPrinter
  import opened StreamResponse

  /** How events carry deltas: a text that is not such an event decodes to nothing. */
  datatype Codec = Codec(encode: Delta -> string, decode: string -> Option<Delta>)

  ghost predicate IsCodec(k: Codec) {
    forall d :: k.decode(k.encode(d)) == Some(d) && k.encode(d) != DONE
  }

  /** Every character marked, and an end mark. */
  function PrintText(t: string): string {
    if t == "" then "." else ":" + [t[0]] + PrintText(t[1..])
  }

  function PrintField(f: Field): string {
    match f
    case Absent => "A"
    case Null => "N"
    case NotText => "X"
    case Text(t) => "T" + PrintText(t)
  }

  function PrintDelta(d: Delta): string {
    PrintField(d.content) + (PrintField(d.reasoning) + PrintField(d.reasoningContent))
  }

  lemma {:induction false} TextEndsItself(a: string, x: string, b: string, y: string)
    requires PrintText(a) + x == PrintText(b) + y
    ensures a == b && x == y
    decreases |a|
  {
    var s, t := PrintText(a) + x, PrintText(b) + y;
    assert s[0] == t[0];
    if a == "" {
      assert s[1..] == x && t[1..] == y;
    } else {
      assert s[1] == a[0] && t[1] == b[0];
      assert s[2..] == PrintText(a[1..]) + x && t[2..] == PrintText(b[1..]) + y;
      TextEndsItself(a[1..], x, b[1..], y);
      assert a == [a[0]] + a[1..] && b == [b[0]] + b[1..];
    }
  }

  lemma FieldEndsItself(f: Field, x: string, g: Field, y: string)
    requires PrintField(f) + x == PrintField(g) + y
    ensures f == g && x == y
  {
    hide PrintText;
    var s, t := PrintField(f) + x, PrintField(g) + y;
    assert s[0] == t[0];
    if f.Text? {
      assert s[1..] == PrintText(f.text) + x && t[1..] == PrintText(g.text) + y;
      TextEndsItself(f.text, x, g.text, y);
    } else {
      assert s[1..] == x && t[1..] == y;
    }
  }

  lemma PrintIsInjective(d: Delta, e: Delta)
    requires PrintDelta(d) == PrintDelta(e)
    ensures d == e
  {
    hide PrintField;
    FieldEndsItself(d.content, PrintField(d.reasoning) + PrintField(d.reasoningContent),
                    e.content, PrintField(e.reasoning) + PrintField(e.reasoningContent));
    FieldEndsItself(d.reasoning, PrintField(d.reasoningContent), e.reasoning, PrintField(e.reasoningContent));
    assert PrintField(d.reasoningContent) + "" == PrintField(e.reasoningContent) + "";
    FieldEndsItself(d.reasoningContent, "", e.reasoningContent, "");
  }

  ghost function ParseDelta(s: string): Option<Delta> {
    if d: Delta :| PrintDelta(d) == s then Some(d) else None
  }

  /** Such codecs exist. */
  lemma CodecsExist() returns (k: Codec)
    ensures IsCodec(k)
  {
    k := Codec(d => PrintDelta(d), s => ParseDelta(s));
    forall d ensures k.decode(k.encode(d)) == Some(d) && k.encode(d) != DONE {
      var e := ParseDelta(PrintDelta(d));
      assert PrintDelta(d)[0] != '[';
      assert e.Some?;
      PrintIsInjective(e.value, d);
    }
  }

  /** The state of the transformer once the upstream items have passed. */
  function After(k: Codec, t: ThinkingFormat, items: seq<Item>): State {
    if items == [] then Initial(t)
    else
      var st, item := After(k, t, items[..|items| - 1]), items[|items| - 1];
      match item
      case Failure(_) => st
      case Data(text) =>
        if text == DONE then Flush(st).0
        else if k.decode(text).Some? then Step(st, k.decode(text).value).0
        else st
  }

  function Transforming(k: Codec, t: ThinkingFormat): Mapping {
    Mapping(
      (before, text) =>
        if k.decode(text).Some? then Chunk(k.encode(Step(After(k, t, before), k.decode(text).value).1))
        else Chunk(text),
      before =>
        var flush := Flush(After(k, t, before)).1;
        if flush.Some? then Some(k.encode(flush.value)) else None)
  }

  /** The deltas a client finds in what it receives. */
  function DeltaOf(k: Codec, o: Out): seq<Delta> {
    if (o.Chunk? || o.Leftover?) && k.decode(o.text).Some? then [k.decode(o.text).value] else []
  }

  function ClientDeltas(k: Codec, outs: seq<Out>): seq<Delta> {
    if outs == [] then [] else ClientDeltas(k, outs[..|outs| - 1]) + DeltaOf(k, outs[|outs| - 1])
  }

  /** The three ways an upstream ends. */
  datatype Ending = DoneEvent | Silence | Broken(message: string)

  function Encoded(k: Codec, ds: seq<Delta>): (items: seq<Item>)
    ensures |items| == |ds|
  {
    seq(|ds|, i requires 0 <= i < |ds| => Data(k.encode(ds[i])))
  }

  function Last(e: Ending): seq<Item> {
    match e
    case DoneEvent => [Data(DONE)]
    case Silence => []
    case Broken(message) => [Item.Failure(message)]
  }

  function Script(k: Codec, ds: seq<Delta>, e: Ending): seq<Item> {
    Encoded(k, ds) + Last(e)
  }

  // ---------------------------------------------------------------- the transformer without its flush

  function Run(st: State, ds: seq<Delta>): State {
    if ds == [] then st else Step(Run(st, ds[..|ds| - 1]), ds[|ds| - 1]).0
  }

  function Handed(st: State, ds: seq<Delta>): seq<Delta> {
    if ds == [] then []
    else Handed(st, ds[..|ds| - 1]) + [Step(Run(st, ds[..|ds| - 1]), ds[|ds| - 1]).1]
  }

  function FlushOf(st: State): seq<Delta> {
    if Flush(st).1.Some? then [Flush(st).1.value] else []
  }

  lemma {:induction false} RunCons(st: State, d: Delta, ds: seq<Delta>)
    ensures Run(st, [d] + ds) == Run(Step(st, d).0, ds)
    ensures Handed(st, [d] + ds) == [Step(st, d).1] + Handed(Step(st, d).0, ds)
    decreases |ds|
  {
    hide Step;
    var all := [d] + ds;
    if ds == [] {
      assert all == [d] && all[..0] == [];
    } else {
      var n := |ds| - 1;
      assert all[..n + 1] == [d] + ds[..n] && all[n + 1] == ds[n];
      RunCons(st, d, ds[..n]);
    }
  }

  /** A whole stream is what is handed on, and the flush. */
  lemma {:induction false} StreamIsHandedAndFlushed(st: State, ds: seq<Delta>)
    ensures StreamFrom(st, ds) == Handed(st, ds) + FlushOf(Run(st, ds))
    decreases |ds|
  {
    hide Step, Flush;
    if ds != [] {
      assert ds == [ds[0]] + ds[1..];
      RunCons(st, ds[0], ds[1..]);
      StreamIsHandedAndFlushed(Step(st, ds[0]).0, ds[1..]);
    }
  }

  // ---------------------------------------------------------------- what a client receives

  lemma {:induction false} ClientDeltasSplit(k: Codec, a: seq<Out>, b: seq<Out>)
    ensures ClientDeltas(k, a + b) == ClientDeltas(k, a) + ClientDeltas(k, b)
    decreases |b|
  {
    hide DeltaOf;
    if b == [] {
      assert a + b == a;
    } else {
      var n := |b| - 1;
      ClientDeltasSplit(k, a, b[..n]);
      assert (a + b)[..|a| + n] == a + b[..n];
    }
  }

  lemma OneOut(k: Codec, o: Out)
    ensures ClientDeltas(k, [o]) == DeltaOf(k, o)
  {
    assert [o][..0] == [];
  }

  lemma OneChunk(k: Codec, t: ThinkingFormat, before: seq<Item>, d: Delta)
    requires IsCodec(k)
    ensures var (st1, d1) := Step(After(k, t, before), d);
      After(k, t, before + [Data(k.encode(d))]) == st1 &&
      ClientDeltas(k, Mapped(Transforming(k, t), before, Data(k.encode(d)))) == [d1]
  {
    hide Step, ClientDeltas;
    var all := before + [Data(k.encode(d))];
    assert all[..|before|] == before;
    assert k.decode(k.encode(d)) == Some(d) && k.encode(d) != DONE;
    var d1 := Step(After(k, t, before), d).1;
    assert k.decode(k.encode(d1)) == Some(d1);
    OneOut(k, Chunk(k.encode(d1)));
  }

  /** The chunks of the deltas decode to what the transformer hands on. */
  lemma {:induction false} ChunksAreHanded(k: Codec, t: ThinkingFormat, ds: seq<Delta>)
    requires IsCodec(k)
    ensures After(k, t, Encoded(k, ds)) == Run(Initial(t), ds)
    ensures ClientDeltas(k, AllMapped(Transforming(k, t), Encoded(k, ds))) == Handed(Initial(t), ds)
    decreases |ds|
  {
    if ds == [] {
      assert Encoded(k, ds) == [];
    } else {
      hide Step, IsCodec, Mapped, Transforming, AllMapped, After, ClientDeltas;
      var n := |ds| - 1;
      var items, m := Encoded(k, ds[..n]), Transforming(k, t);
      var item := Data(k.encode(ds[n]));
      ChunksAreHanded(k, t, ds[..n]);
      OneChunk(k, t, items, ds[n]);
      EncodedSnoc(k, ds);
      ReadMore(m, items, item);
      ClientDeltasSplit(k, AllMapped(m, items), Mapped(m, items, item));
    }
  }

  lemma EncodedSnoc(k: Codec, ds: seq<Delta>)
    requires ds != []
    ensures Encoded(k, ds) == Encoded(k, ds[..|ds| - 1]) + [Data(k.encode(ds[|ds| - 1]))]
  {
  }

  lemma {:induction false} NothingIsCut(items: seq<Item>, last: seq<Item>)
    requires |last| <= 1 && forall i :: 0 <= i < |items| ==> !items[i].Failure?
    ensures UpToFailure(items + last) == items + last
  {
    if items == [] {
      assert items + last == last;
      if last != [] {
        assert last == [last[0]] && last[1..] == [];
      }
    } else {
      NothingIsCut(items[1..], last);
      assert (items + last)[1..] == items[1..] + last;
    }
  }

  /**
   Main result, for every stream of deltas, target and ending: a client receives what the
   transformer hands on, and its flush only if the upstream ends with `[DONE]`.
   */
  lemma ClientReceives(k: Codec, t: ThinkingFormat, ds: seq<Delta>, e: Ending)
    requires IsCodec(k)
    ensures ClientDeltas(k, Response(Transforming(k, t), Script(k, ds, e))) ==
      Handed(Initial(t), ds) + if e.DoneEvent? then FlushOf(Run(Initial(t), ds)) else []
  {
    hide Step, Flush, Handed, Run, AllMapped, After, UpToFailure, ClientDeltas, Encoded, Marked;
    var items, m, script := Encoded(k, ds), Transforming(k, t), Script(k, ds, e);
    EncodedNeverFails(k, ds);
    NothingIsCut(items, Last(e));
    ChunksAreHanded(k, t, ds);
    var chunks := AllMapped(m, items);
    var closing: seq<Out> := if Marked(script) then [] else [Done];
    ClosingHasNoDelta(k, closing);
    if e.Silence? {
      assert script == items;
      ClientDeltasSplit(k, chunks, closing);
    } else {
      assert script == items + [Last(e)[0]];
      ReadMore(m, items, Last(e)[0]);
      var last := Mapped(m, items, Last(e)[0]);
      ClientDeltasSplit(k, chunks + last, closing);
      ClientDeltasSplit(k, chunks, last);
      LastEvents(k, t, ds, e, last);
    }
  }

  lemma EncodedNeverFails(k: Codec, ds: seq<Delta>)
    ensures forall i :: 0 <= i < |Encoded(k, ds)| ==> !Encoded(k, ds)[i].Failure?
  {
  }

  lemma ClosingHasNoDelta(k: Codec, closing: seq<Out>)
    requires closing == [] || closing == [Done]
    ensures ClientDeltas(k, closing) == []
  {
    if closing != [] {
      OneOut(k, Done);
    }
  }

  lemma LastEvents(k: Codec, t: ThinkingFormat, ds: seq<Delta>, e: Ending, last: seq<Out>)
    requires IsCodec(k) && !e.Silence?
    requires last == Mapped(Transforming(k, t), Encoded(k, ds), Last(e)[0])
    ensures ClientDeltas(k, last) == if e.DoneEvent? then FlushOf(Run(Initial(t), ds)) else []
  {
    hide Step, Flush, Encoded, Run, ClientDeltas, AllMapped;
    ChunksAreHanded(k, t, ds);
    hide After;
    OneOut(k, last[0]);
    if |last| == 1 {
      assert last == [last[0]];
    } else {
      OneOut(k, last[1]);
      ClientDeltasSplit(k, [last[0]], [last[1]]);
      assert last == [last[0]] + [last[1]];
    }
  }

  // ---------------------------------------------------------------- the field formats

  lemma {:induction false} AccumulateSplits(a: seq<Delta>, b: seq<Delta>)
    ensures var x, y := Accumulate(a), Accumulate(b);
      Accumulate(a + b) ==
        Received(x.content + y.content, x.reasoning + y.reasoning, x.reasoningContent + y.reasoningContent)
  {
    hide TextOf;
    if a == [] {
      var y := Accumulate(b);
      assert a + b == b && "" + y.content == y.content && "" + y.reasoning == y.reasoning &&
        "" + y.reasoningContent == y.reasoningContent;
    } else {
      var d, x, y := a[0], Accumulate(a[1..]), Accumulate(b);
      AccumulateSplits(a[1..], b);
      assert (a + b)[1..] == a[1..] + b;
      Assoc(TextOf(d.content), x.content, y.content);
      Assoc(TextOf(d.reasoning), x.reasoning, y.reasoning);
      Assoc(TextOf(d.reasoningContent), x.reasoningContent, y.reasoningContent);
    }
  }

  lemma Assoc(a: string, b: string, c: string)
    ensures a + (b + c) == (a + b) + c
  {
  }

  /** Reading content fragments leaves the transformer where the scan of their concatenation stands. */
  lemma {:induction false} RunScans(st: State, fragments: seq<string>)
    requires ToField(st.target)
    requires Scan(st.phase, st.carry) == Parsed("", "", st.phase, st.carry)
    ensures var x := Scan(st.phase, st.carry + Concat(fragments));
      Run(st, ContentDeltas(fragments)) == st.(phase := x.phase, carry := x.carry)
    decreases |fragments|
  {
    hide Scan, Step;
    if fragments == [] {
      assert st.carry + Concat(fragments) == st.carry;
    } else {
      var f, rest := fragments[0], Concat(fragments[1..]);
      StepScans(st, f);
      assert st.carry + Concat(fragments) == (st.carry + f) + rest;
      ScanSplits(st.phase, st.carry + f, rest);
      CarryIsStable(st.phase, st.carry + f);
      RunCons(st, ContentDelta(f), ContentDeltas(fragments[1..]));
      RunScans(Step(st, ContentDelta(f)).0, fragments[1..]);
    }
  }

  function Client(k: Codec, t: ThinkingFormat, ds: seq<Delta>, e: Ending): Received {
    Accumulate(ClientDeltas(k, Response(Transforming(k, t), Script(k, ds, e))))
  }

  /**
   Content fragments into a field format: what arrives is the output of the scanner on the whole
   text, and what the scanner holds back is added only in front of a `[DONE]`.
   */
  lemma ClientReceivesTheScan(k: Codec, t: ThinkingFormat, fragments: seq<string>, e: Ending)
    requires IsCodec(k) && ToField(t)
    ensures var x := Scan(Content, Concat(fragments));
      var (c, r) := if e.DoneEvent? then Flushed(x) else (x.content, x.reasoning);
      Client(k, t, ContentDeltas(fragments), e) == InField(t, c, r)
  {
    hide Scan, Step, Accumulate, Handed, Run, StreamFrom, Response, ClientDeltas, Flushed;
    var ds, st := ContentDeltas(fragments), Initial(t);
    ClientReceives(k, t, ds, e);
    NothingToScan();
    assert "" + Concat(fragments) == Concat(fragments);
    RunScans(st, fragments);
    StreamIsScan(st, fragments);
    StreamIsHandedAndFlushed(st, ds);
    AccumulateSplits(Handed(st, ds), FlushOf(Run(st, ds)));
    FlushHandsOutTheCarry(Run(st, ds));
    WithoutTheCarry(t, Scan(Content, Concat(fragments)), Accumulate(Handed(st, ds)), Accumulate(FlushOf(Run(st, ds))));
    assert Handed(st, ds) + [] == Handed(st, ds);
  }

  lemma NothingToScan()
    ensures Scan(Content, "") == Parsed("", "", Content, "")
  {
    CarryIsStable(Content, "");
  }

  lemma FlushHandsOutTheCarry(st: State)
    requires ToField(st.target)
    ensures Accumulate(FlushOf(st)) ==
      InField(st.target, if st.phase.Content? then st.carry else "", if st.phase.Content? then "" else st.carry)
  {
    FlushAccumulates(st);
    assert FlushOf(st) == StreamFrom(st, []);
    assert "" + st.carry == st.carry && "" + "" == "";
  }

  /** Taking the carry off the flushed output leaves the output of the scanner. */
  lemma WithoutTheCarry(t: ThinkingFormat, x: Parsed, front: Received, back: Received)
    requires ToField(t)
    requires var (c, r) := Flushed(x);
      Received(front.content + back.content, front.reasoning + back.reasoning,
               front.reasoningContent + back.reasoningContent) ==
        InField(t, c, r)
    requires back == InField(t, if x.phase.Content? then x.carry else "", if x.phase.Content? then "" else x.carry)
    ensures front == InField(t, x.content, x.reasoning)
  {
    SameFront(front.content, back.content, x.content);
    SameFront(front.reasoning, back.reasoning, x.reasoning);
    SameFront(front.reasoningContent, back.reasoningContent, x.reasoning);
    SameFront(front.reasoning, back.reasoning, "");
    SameFront(front.reasoningContent, back.reasoningContent, "");
  }

  lemma SameFront(a: string, b: string, c: string)
    ensures a + b == c + b ==> a == c
    ensures b == "" ==> a + b == a && c + b == c
  {
    if a + b == c + b {
      assert |a| == |c| && a == (a + b)[..|a|] == c;
    }
  }

  /** How the text was cut into fragments makes no difference to the client, however the upstream ends. */
  lemma CutsAreInvisible(k: Codec, t: ThinkingFormat, fragments: seq<string>, others: seq<string>, e: Ending)
    requires IsCodec(k) && ToField(t) && Concat(fragments) == Concat(others)
    ensures Client(k, t, ContentDeltas(fragments), e) == Client(k, t, ContentDeltas(others), e)
  {
    hide Client, Scan;
    ClientReceivesTheScan(k, t, fragments, e);
    ClientReceivesTheScan(k, t, others, e);
  }

  /**
   So the client receives the decomposition of the text exactly when the upstream ends with
   `[DONE]` or the text does not end inside something that could become a tag.
   */
  lemma ClientReceivesTheDecompositionIff(k: Codec, t: ThinkingFormat, fragments: seq<string>, e: Ending,
                                          segs: seq<string>)
    requires IsCodec(k) && ToField(t)
    requires segs != [] && TagFree(Content, segs) && Join(Content, segs) == Concat(fragments)
    ensures Client(k, t, ContentDeltas(fragments), e) ==
      InField(t, TextIn(Content, Content, segs), TextIn(InThink, Content, segs))
      <==> e.DoneEvent? || Scan(Content, Concat(fragments)).carry == ""
  {
    hide Scan, Client, TextIn, Join, TagFree;
    var x := Scan(Content, Concat(fragments));
    ClientReceivesTheScan(k, t, fragments, e);
    OutputIsTheDecomposition(Content, segs);
    if x.carry != "" {
      assert |x.content + x.carry| > |x.content| && |x.reasoning + x.carry| > |x.reasoning|;
    } else {
      assert x.content + x.carry == x.content && x.reasoning + x.carry == x.reasoning;
    }
  }

  /** A text that ends in its only `<` loses that character when the upstream ends without `[DONE]`. */
  lemma SilentEndLosesText(k: Codec, t: ThinkingFormat, u: string, e: Ending)
    requires IsCodec(k) && ToField(t) && '<' !in u
    ensures Client(k, t, ContentDeltas([u + ['<']]), e) == InField(t, if e.DoneEvent? then u + ['<'] else u, "")
  {
    hide Client, Scan;
    var s := u + ['<'];
    assert Concat([s]) == s by {
      assert [s][1..] == [] && s + "" == s;
    }
    ScanOfHalfATag(u);
    ClientReceivesTheScan(k, t, [s], e);
  }

  lemma StartsLikeTheTag(s: string, tag: string, i: int, k: nat)
    requires tag != ""
    ensures OccursAt(s, tag, i) ==> 0 <= i && i + |tag| <= |s| && s[i] == tag[0]
    ensures IsPartial(s, tag, k) && k > 0 ==> k <= |s| && s[|s| - k] == tag[0]
  {
    assert OccursAt(s, tag, i) ==> s[i..i + |tag|][0] == s[i];
    assert IsPartial(s, tag, k) && k > 0 ==> s[|s| - k..][0] == s[|s| - k] && tag[..k][0] == tag[0];
  }

  lemma ScanOfHalfATag(u: string)
    requires '<' !in u
    ensures Scan(Content, u + ['<']) == Parsed(u, "", Content, ['<'])
  {
    hide Scan;
    var s, n := u + ['<'], |u|;
    var tag := Tag(Content);
    assert tag[0] == '<' && |tag| == 7;
    assert forall i :: 0 <= i < n ==> s[i] == u[i] && u[i] in u;
    forall i ensures !OccursAt(s, tag, i) {
      StartsLikeTheTag(s, tag, i, 0);
    }
    assert s[n..] == ['<'] == tag[..1];
    forall j: nat | 1 < j ensures !IsPartial(s, tag, j) {
      StartsLikeTheTag(s, tag, 0, j);
    }
    LongestPartialIsUnique(s, tag, 1, CarryLen(s, tag));
    ScanNotFound(Content, s);
    assert s[..n] == u && u + "" == u;
  }

  // ---------------------------------------------------------------- the think-tag printer

  /** The stream ends with its block open: it has reasoning, and no content came with it or behind it. */
  predicate EndsInBlock(ds: seq<Delta>) {
    AllReasoning(ds) != "" && AllContent(FromThought(ds)) == ""
  }

  lemma {:induction false} PrinterStands(st: State, ds: seq<Delta>)
    requires st.target.ThinkTag? && (st.thinkClosed ==> st.thinkOpen)
    ensures Run(st, ds).target.ThinkTag?
    ensures Run(st, ds).thinkOpen <==> st.thinkOpen || AllReasoning(ds) != ""
    ensures st.thinkOpen ==> (Run(st, ds).thinkClosed <==> st.thinkClosed || AllContent(ds) != "")
    ensures !st.thinkOpen ==> (Run(st, ds).thinkClosed <==> AllReasoning(ds) != "" && AllContent(FromThought(ds)) != "")
    decreases |ds|
  {
    if ds != [] {
      hide Step;
      assert ds == [ds[0]] + ds[1..];
      RunCons(st, ds[0], ds[1..]);
      PrinterStep(st, ds[0]);
      PrinterStands(Step(st, ds[0]).0, ds[1..]);
      LeadParts(ds);
    }
  }

  /**
   The client of the think-tag target receives the printed text exactly when the upstream ends
   with `[DONE]` or the block is closed already; otherwise precisely the closing tag is missing.
   */
  lemma ClientReceivesThePrintedTextIff(k: Codec, ds: seq<Delta>, e: Ending)
    requires IsCodec(k)
    ensures Client(k, ThinkTag, ds, e) == Received(PrintedText(ds), "", "") <==> e.DoneEvent? || !EndsInBlock(ds)
    ensures !e.DoneEvent? && EndsInBlock(ds) ==>
      Client(k, ThinkTag, ds, e).content + CLOSE_TAG == PrintedText(ds)
  {
    hide Step, Accumulate, Handed, Run, StreamFrom, Response, ClientDeltas, PrintedText;
    var st := Initial(ThinkTag);
    ClientReceives(k, ThinkTag, ds, e);
    PrinterWrites(ds);
    PrinterStands(st, ds);
    StreamIsHandedAndFlushed(st, ds);
    var flush := FlushOf(Run(st, ds));
    AccumulateSplits(Handed(st, ds), flush);
    assert Handed(st, ds) + [] == Handed(st, ds);
    if EndsInBlock(ds) {
      OneDelta(flush[0]);
      assert flush == [flush[0]];
    }
  }

  lemma OneDelta(d: Delta)
    ensures Accumulate([d]) == Received(TextOf(d.content), TextOf(d.reasoning), TextOf(d.reasoningContent))
  {
    AccumulateCons(d, []);
    assert [d] + [] == [d];
    assert TextOf(d.content) + "" == TextOf(d.content) && TextOf(d.reasoning) + "" == TextOf(d.reasoning);
    assert TextOf(d.reasoningContent) + "" == TextOf(d.reasoningContent);
  }
}
