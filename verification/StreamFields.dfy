/**
 The field formats on streams that mix deltas with a reasoning field of their own and deltas
 whose content is scanned: what each delta hands over, and when text overtakes other text.
 */
module StreamFields {
  import opened Wrappers
  import opened Text
  import opened ThinkingTransformer
  import opened ThinkingStream
  import opened StreamThinking

  /** The delta brings reasoning in a field, so its content is passed on as it is. */
  predicate IsOwn(d: Delta) {
    FieldReasoning(d).Some?
  }

  /** The content of the other deltas, which is what the scanner reads. */
  function Scanned(ds: seq<Delta>): string {
    if ds == [] then ""
    else
      var last := ds[|ds| - 1];
      Scanned(ds[..|ds| - 1]) + if IsOwn(last) then "" else TextOf(last.content)
  }

  function OwnContent(ds: seq<Delta>): string {
    if ds == [] then ""
    else
      var last := ds[|ds| - 1];
      OwnContent(ds[..|ds| - 1]) + if IsOwn(last) then TextOf(last.content) else ""
  }

  function OwnReasoning(ds: seq<Delta>): string {
    if ds == [] then ""
    else
      var last := ds[|ds| - 1];
      OwnReasoning(ds[..|ds| - 1]) + if IsOwn(last) then FieldReasoning(last).value else ""
  }

  // ---------------------------------------------------------------- what each delta hands over

  function Texts(d: Delta): Received {
    Received(TextOf(d.content), TextOf(d.reasoning), TextOf(d.reasoningContent))
  }

  /** One step: an own delta hands over its texts and leaves the scanner alone, any other what the scan of it emits. */
  lemma StepHandsOver(st: State, d: Delta)
    requires ToField(st.target) && Scan(st.phase, st.carry) == Parsed("", "", st.phase, st.carry)
    ensures var (st1, d1) := Step(st, d);
      var x := Scan(st.phase, st.carry + TextOf(d.content));
      if IsOwn(d) then st1 == st && Texts(d1) == InField(st.target, TextOf(d.content), FieldReasoning(d).value)
      else st1 == st.(phase := x.phase, carry := x.carry) && Texts(d1) == InField(st.target, x.content, x.reasoning)
  {
    hide Scan;
    assert st.carry + "" == st.carry;
  }

  /** Where the transformer stands depends on the scanned text alone. */
  lemma {:induction false} StandsAtTheScan(t: ThinkingFormat, ds: seq<Delta>)
    requires ToField(t)
    ensures var x := Scan(Content, Scanned(ds));
      Run(Initial(t), ds) == Initial(t).(phase := x.phase, carry := x.carry) &&
      Scan(x.phase, x.carry) == Parsed("", "", x.phase, x.carry)
    decreases |ds|
  {
    hide Scan, Step, IsOwn;
    CarryIsStable(Content, Scanned(ds));
    if ds == [] {
      NothingToScan();
    } else {
      var n := |ds| - 1;
      var before, last := ds[..n], ds[n];
      StandsAtTheScan(t, before);
      StepHandsOver(Run(Initial(t), before), last);
      ScanSplits(Content, Scanned(before), TextOf(last.content));
      assert Scanned(before) + "" == Scanned(before);
    }
  }

  /**
   Main result, for every stream: a delta with a reasoning field hands over its own texts, any
   other exactly what the scan of all scanned text so far has more than the scan before it.
   */
  lemma DeltaHandsOver(t: ThinkingFormat, ds: seq<Delta>, d: Delta)
    requires ToField(t)
    ensures var out := Texts(Step(Run(Initial(t), ds), d).1);
      var before, after := Scan(Content, Scanned(ds)), Scan(Content, Scanned(ds + [d]));
      if IsOwn(d) then after == before && out == InField(t, TextOf(d.content), FieldReasoning(d).value)
      else
        exists content, reasoning ::
          out == InField(t, content, reasoning) &&
          after == Then(before, Parsed(content, reasoning, after.phase, after.carry))
  {
    hide Scan, Step;
    StandsAtTheScan(t, ds);
    StepHandsOver(Run(Initial(t), ds), d);
    assert (ds + [d])[..|ds|] == ds && (ds + [d])[|ds|] == d;
    var before := Scan(Content, Scanned(ds));
    if IsOwn(d) {
      assert Scanned(ds) + "" == Scanned(ds);
    } else {
      ScanSplits(Content, Scanned(ds), TextOf(d.content));
      var x := Scan(before.phase, before.carry + TextOf(d.content));
      assert x == Parsed(x.content, x.reasoning, x.phase, x.carry);
    }
  }

  /** The texts written so far are in the client's two fields, and in no other. */
  predicate InItsFields(t: ThinkingFormat, r: Received) {
    r == InField(t, r.content, r.reasoning + r.reasoningContent)
  }

  /** The client's content is made of the one part and its reasoning of the other, in whatever order. */
  ghost predicate MadeOf(r: Received, x: Parsed, content: string, reasoning: string) {
    multiset(r.content) == multiset(x.content) + multiset(content) &&
    multiset(r.reasoning + r.reasoningContent) == multiset(x.reasoning) + multiset(reasoning)
  }

  /** Nothing is lost or doubled: the client's texts are made of the scan's output and the own texts. */
  lemma {:induction false} NothingIsLost(t: ThinkingFormat, ds: seq<Delta>)
    requires ToField(t)
    ensures var r := Accumulate(Handed(Initial(t), ds));
      InItsFields(t, r) && MadeOf(r, Scan(Content, Scanned(ds)), OwnContent(ds), OwnReasoning(ds))
    decreases |ds|
  {
    hide Scan, Step, Accumulate, InItsFields, MadeOf, FieldReasoning;
    if ds == [] {
      NothingYet(t);
    } else {
      var n := |ds| - 1;
      var before, last := ds[..n], ds[n];
      var out := Step(Run(Initial(t), before), last).1;
      var r := Accumulate(Handed(Initial(t), before));
      NothingIsLost(t, before);
      assert before + [last] == ds;
      DeltaHandsOver(t, before, last);
      AccumulateSplits(Handed(Initial(t), before), [out]);
      OneDelta(out);
      var x := Scan(Content, Scanned(before));
      if IsOwn(last) {
        OneMore(t, r, x, OwnContent(before), OwnReasoning(before), "", "", TextOf(last.content),
                FieldReasoning(last).value);
        EmptyThen(x);
      } else {
        var content, reasoning :| Texts(out) == InField(t, content, reasoning) &&
          Scan(Content, Scanned(ds)) ==
            Then(x, Parsed(content, reasoning, Scan(Content, Scanned(ds)).phase, Scan(Content, Scanned(ds)).carry));
        OneMore(t, r, x, OwnContent(before), OwnReasoning(before), content, reasoning, "", "");
        assert OwnContent(before) + "" == OwnContent(before) && OwnReasoning(before) + "" == OwnReasoning(before);
      }
    }
  }

  lemma EmptyThen(x: Parsed)
    ensures x.content + "" == x.content && x.reasoning + "" == x.reasoning
  {
  }

  lemma NothingYet(t: ThinkingFormat)
    requires ToField(t)
    ensures var r := Accumulate(Handed(Initial(t), []));
      InItsFields(t, r) && MadeOf(r, Scan(Content, Scanned([])), OwnContent([]), OwnReasoning([]))
  {
    NothingToScan();
    hide Scan;
    assert "" + "" == "";
  }

  /** One more delta, which hands over something of the scan or something of its own. */
  lemma OneMore(t: ThinkingFormat, r: Received, x: Parsed, content: string, reasoning: string,
                c: string, h: string, oc: string, oh: string)
    requires ToField(t) && InItsFields(t, r) && MadeOf(r, x, content, reasoning)
    ensures var s := InField(t, c + oc, h + oh);
      var u := Received(r.content + s.content, r.reasoning + s.reasoning, r.reasoningContent + s.reasoningContent);
      c + "" == c && h + "" == h && "" + oc == oc && "" + oh == oh && InItsFields(t, u) &&
      forall p, k :: MadeOf(u, Parsed(x.content + c, x.reasoning + h, p, k), content + oc, reasoning + oh)
  {
    var h0 := r.reasoning + r.reasoningContent;
    FieldsGrow(t, r, c + oc, h + oh);
    hide InField, InItsFields;
    CountsAdd(r.content, x.content, content, c, oc);
    CountsAdd(h0, x.reasoning, reasoning, h, oh);
  }

  lemma FieldsGrow(t: ThinkingFormat, r: Received, content: string, reasoning: string)
    requires ToField(t) && InItsFields(t, r)
    ensures var s := InField(t, content, reasoning);
      var u := Received(r.content + s.content, r.reasoning + s.reasoning, r.reasoningContent + s.reasoningContent);
      InItsFields(t, u) && u.content == r.content + content &&
      u.reasoning + u.reasoningContent == (r.reasoning + r.reasoningContent) + reasoning
  {
    var h := r.reasoning + r.reasoningContent;
    assert "" + h == h && h + "" == h && "" + (h + reasoning) == h + reasoning && (h + reasoning) + "" == h + reasoning;
    assert "" + "" == "";
  }

  lemma CountsAdd(whole: string, a: string, b: string, c: string, d: string)
    requires multiset(whole) == multiset(a) + multiset(b)
    ensures multiset(whole + (c + d)) == multiset(a + c) + multiset(b + d)
  {
    assert multiset(whole + (c + d)) == multiset(whole) + (multiset(c) + multiset(d));
    assert multiset(a + c) == multiset(a) + multiset(c) && multiset(b + d) == multiset(b) + multiset(d);
  }

  // ---------------------------------------------------------------- overtaking

  /** Text of the delta is handed over although earlier text for the same field is still held back. */
  predicate Overtakes(st: State, d: Delta) {
    IsOwn(d) && st.carry != "" && (st.phase.Content? ==> TextOf(d.content) != "")
  }

  /** The same transformer, except that held-back text is put in front of what would overtake it. */
  function StepInOrder(st: State, d: Delta): (State, Delta) {
    if Overtakes(st, d) then
      (st.(carry := ""),
       if st.phase.Content? then Step(st, d).1.(content := Text(st.carry + TextOf(d.content)))
       else InsertReasoning(st.target, Step(st, d).1, st.carry + FieldReasoning(d).value))
    else Step(st, d)
  }

  function RunInOrder(st: State, ds: seq<Delta>): State {
    if ds == [] then st else StepInOrder(RunInOrder(st, ds[..|ds| - 1]), ds[|ds| - 1]).0
  }

  function HandedInOrder(st: State, ds: seq<Delta>): seq<Delta> {
    if ds == [] then []
    else HandedInOrder(st, ds[..|ds| - 1]) + [StepInOrder(RunInOrder(st, ds[..|ds| - 1]), ds[|ds| - 1]).1]
  }

  /** No delta with reasoning of its own meets held-back text of a field that it writes. */
  ghost predicate NothingOvertakes(t: ThinkingFormat, ds: seq<Delta>) {
    forall n :: 0 <= n < |ds| ==>
      var x := Scan(Content, Scanned(ds[..n]));
      IsOwn(ds[n]) && x.carry != "" ==> x.phase.Content? && TextOf(ds[n].content) == ""
  }

  /** Every delta hands over its texts in order exactly if nothing overtakes. */
  lemma {:induction false} InOrderIff(t: ThinkingFormat, ds: seq<Delta>)
    requires ToField(t)
    ensures Handed(Initial(t), ds) == HandedInOrder(Initial(t), ds) <==> NothingOvertakes(t, ds)
    ensures NothingOvertakes(t, ds) ==> RunInOrder(Initial(t), ds) == Run(Initial(t), ds)
    decreases |ds|
  {
    hide Scan, Step;
    if ds != [] {
      hide StepInOrder, Overtakes, Scanned, IsOwn;
      var n := |ds| - 1;
      var before, last := ds[..n], ds[n];
      var st := Initial(t);
      InOrderIff(t, before);
      StandsAtTheScan(t, before);
      OvertakingShows(Run(st, before), last);
      SameHanded(st, ds);
      NothingOvertakesSnoc(t, ds);
    }
  }

  lemma NothingOvertakesSnoc(t: ThinkingFormat, ds: seq<Delta>)
    requires ToField(t) && ds != []
    ensures NothingOvertakes(t, ds) <==>
      NothingOvertakes(t, ds[..|ds| - 1]) && !Overtakes(Run(Initial(t), ds[..|ds| - 1]), ds[|ds| - 1])
  {
    hide Scan, Step, Scanned, IsOwn;
    var n := |ds| - 1;
    StandsAtTheScan(t, ds[..n]);
    assert forall i :: 0 <= i < n ==> ds[..n][..i] == ds[..i] && ds[..n][i] == ds[i];
  }

  lemma SameHanded(st: State, ds: seq<Delta>)
    requires ds != []
    ensures var before, last := ds[..|ds| - 1], ds[|ds| - 1];
      Handed(st, ds) == HandedInOrder(st, ds) <==>
      Handed(st, before) == HandedInOrder(st, before) &&
      Step(Run(st, before), last).1 == StepInOrder(RunInOrder(st, before), last).1
  {
    hide Step, StepInOrder;
    var before := ds[..|ds| - 1];
    SameLength(st, before);
    var a, b := Handed(st, ds), HandedInOrder(st, ds);
    assert a[..|before|] == Handed(st, before) && b[..|before|] == HandedInOrder(st, before);
  }

  lemma {:induction false} SameLength(st: State, ds: seq<Delta>)
    ensures |Handed(st, ds)| == |HandedInOrder(st, ds)| == |ds|
    decreases |ds|
  {
    hide Step, StepInOrder;
    if ds != [] {
      SameLength(st, ds[..|ds| - 1]);
    }
  }

  lemma OvertakingShows(st: State, d: Delta)
    requires ToField(st.target)
    ensures Step(st, d).1 == StepInOrder(st, d).1 <==> !Overtakes(st, d)
    ensures !Overtakes(st, d) ==> StepInOrder(st, d) == Step(st, d)
  {
    hide Scan;
    if Overtakes(st, d) {
      var r := FieldReasoning(d).value;
      assert |st.carry + TextOf(d.content)| > |TextOf(d.content)| && |st.carry + r| > |r|;
    }
  }

  /** A half tag is overtaken by the content of a delta that also brings reasoning. */
  lemma ContentOvertakesTheCarry(t: ThinkingFormat, u: string, c: string, r: string)
    requires ToField(t) && '<' !in u && c != "" && r != ""
    ensures var ds := [ContentDelta(u + ['<']), Delta(Text(c), Text(r), Absent)];
      Accumulate(Handed(Initial(t), ds) + FlushOf(Run(Initial(t), ds))) == InField(t, (u + c) + ['<'], r) &&
      !NothingOvertakes(t, ds)
  {
    hide Scan, Step, Flush, Accumulate, TextOf;
    var first, second := ContentDelta(u + ['<']), Delta(Text(c), Text(r), Absent);
    var ds, st := [first, second], Initial(t);
    ScanOfHalfATag(u);
    NothingToScan();
    CarryIsStable(Content, u + ['<']);
    TextsOfText(u + ['<'], c, r);
    assert "" + (u + ['<']) == u + ['<'];
    StepHandsOver(st, first);
    var st1, d1 := Step(st, first).0, Step(st, first).1;
    StepHandsOver(st1, second);
    var d2 := Step(st1, second).1;
    TwoSteps(st, first, second);
    AccumulateSplits([d1] + [d2], FlushOf(st1));
    AccumulateSplits([d1], [d2]);
    OneDelta(d1);
    OneDelta(d2);
    FlushHandsOutTheCarry(st1);
    assert "" + r == r && r + "" == r && "" + "" == "";
    assert ds[..1] == [first] && [first][..0] == [] && Scanned([]) == "";
    assert Scanned(ds[..1]) == u + ['<'] && IsOwn(ds[1]);
  }

  lemma TextsOfText(a: string, c: string, r: string)
    requires r != ""
    ensures TextOf(ContentDelta(a).content) == a && !IsOwn(ContentDelta(a))
    ensures var d := Delta(Text(c), Text(r), Absent); TextOf(d.content) == c && FieldReasoning(d) == Some(r)
  {
  }

  lemma TwoSteps(st: State, a: Delta, b: Delta)
    ensures var st1 := Step(st, a).0;
      Handed(st, [a, b]) == [Step(st, a).1] + [Step(st1, b).1] && Run(st, [a, b]) == Step(st1, b).0
  {
    hide Step;
    assert [a, b][..1] == [a] && [a][..0] == [] && Run(st, []) == st && Handed(st, []) == [];
    assert Run(st, [a]) == Step(st, a).0 && Handed(st, [a]) == [Step(st, a).1];
  }
}
