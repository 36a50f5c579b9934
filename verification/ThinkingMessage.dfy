/**
 The non-streaming transform of a whole assistant message, and when it can be undone or
 repeated.
 */
module ThinkingMessage {
  import opened Wrappers
  import opened Text
  import opened ThinkingTransformer
  import opened ThinkingStream
  import opened ThinkingLaws
  import opened ThinkingPrinter

  /** The text left in `content`; a missing or null content counts as empty, other JSON as untouchable. */
  function Answer(m: Delta): Option<string> {
    match m.content
    case Text(s) => Some(Blocks(s).1)
    case NotText => None
    case _ => Some("")
  }

  function Extracted(m: Delta): string {
    if m.content.Text? then JoinLines("", Blocks(m.content.text).0) else ""
  }

  /** A reasoning field wins over the blocks in the content. */
  function SourceReasoning(m: Delta): string {
    if FieldReasoning(m).Some? then FieldReasoning(m).value else Extracted(m)
  }

  function TransformMessage(m: Delta, target: ThinkingFormat): Delta {
    var sr, answer, bare := SourceReasoning(m), Answer(m), WithoutReasoning(m);
    match target
    case Passthrough => m
    case ThinkTag =>
      if answer.Some? then bare.(content := Text(Printed(sr, answer.value))) else bare
    case _ =>
      var named := if sr == "" then bare else InsertReasoning(target, bare, sr);
      if answer.Some? then named.(content := Text(answer.value)) else named
  }

  // ---------------------------------------------------------------- one-shot extraction, measured

  lemma {:induction false} BlocksLength(s: string)
    ensures var (blocks, rest) := Blocks(s); |s| == |rest| + |Concat(blocks)| + 15 * |blocks|
    decreases |s|
  {
    hide IsFirst, Contains, OccursAt;
    match Find(s, OPEN_TAG)
    case None =>
    case Some(i) =>
      var inner := s[i + 7..];
      match Find(inner, CLOSE_TAG)
      case None =>
      case Some(j) =>
        BlocksLength(inner[j + 8..]);
        var later := Blocks(inner[j + 8..]).0;
        assert ([inner[..j]] + later)[1..] == later;
  }

  lemma {:induction false} CountAtMostAll(blocks: seq<string>)
    ensures NonEmptyCount(blocks) <= |blocks|
  {
    if blocks != [] {
      CountAtMostAll(blocks[1..]);
    }
  }

  /** Extraction leaves a text alone exactly when it holds no complete block. */
  lemma UntouchedWithoutBlocks(s: string)
    ensures Blocks(s).1 == s <==> Blocks(s).0 == []
  {
    BlocksLength(s);
    hide Contains, IsFirst, OccursAt;
  }

  /** Extraction undoes printing exactly when the reasoning cannot end early and the answer has no block. */
  lemma ExtractUndoesPrint(r: string, answer: string)
    ensures var (blocks, rest) := Blocks(Printed(r, answer));
      JoinLines("", blocks) == r && rest == answer <==> !Contains(r, CLOSE_TAG) && Blocks(answer).0 == []
  {
    hide Contains, IsFirst, OccursAt;
    var s := Printed(r, answer);
    var (blocks, rest) := Blocks(s);
    if r == "" {
      EmptyHasNoTag(CLOSE_TAG);
      UntouchedWithoutBlocks(answer);
    } else {
      PrintedBlocks(r, answer);
      if !Contains(r, CLOSE_TAG) {
        UntouchedWithoutBlocks(answer);
        BlocksLength(s);
        JoinLinesLength("", blocks);
        CountAtMostAll(blocks);
        assert Blocks(answer).0 == [] ==> JoinLines("", [r]) == r by { assert [r][1..] == []; }
        if rest == answer {
          assert Blocks(answer).1 == rest;
        }
      } else {
        BlocksLength(s);
        JoinLinesLength("", blocks);
        CountAtMostAll(blocks);
        assert |blocks| == 1 ==> blocks[1..] == [] && Concat(blocks) == blocks[0] + "";
      }
    }
  }

  /** The first block of a printed text ends at the first close tag. */
  lemma PrintedBlocks(r: string, answer: string)
    requires r != ""
    ensures !Contains(r, CLOSE_TAG) ==>
      Blocks(Printed(r, answer)) == ([r] + Blocks(answer).0, Blocks(answer).1)
    ensures Contains(r, CLOSE_TAG) ==>
      Blocks(Printed(r, answer)).0 != [] && |Blocks(Printed(r, answer)).0[0]| < |r|
  {
    hide Contains, OccursAt, IsFirst, Blocks, Printed;
    var s := Printed(r, answer);
    var inner := r + (CLOSE_TAG + answer);
    PrintedOpens(r, answer);
    if !Contains(r, CLOSE_TAG) {
      TagIsFoundAfterTagFreeText(InThink, r, answer);
      BlocksFound(s, 0, |r|);
      assert inner[..|r|] == r && inner[|r| + 8..] == answer;
      assert "" + Blocks(answer).1 == Blocks(answer).1;
    } else {
      FindIgnoresTail(r, CLOSE_TAG + answer, CLOSE_TAG);
      BlocksFound(s, 0, Find(r, CLOSE_TAG).value);
    }
  }

  lemma PrintedOpens(r: string, answer: string)
    requires r != ""
    ensures var s := Printed(r, answer);
      Find(s, OPEN_TAG) == Some(0) && |s| >= 7 && s[..0] == "" && s[0 + 7..] == r + (CLOSE_TAG + answer)
  {
    hide Contains, OccursAt, IsFirst;
    var inner := r + (CLOSE_TAG + answer);
    EmptyHasNoTag(OPEN_TAG);
    assert "" + (OPEN_TAG + inner) == Printed(r, answer);
    TagIsFoundAfterTagFreeText(Content, "", inner);
  }

  /**
   Converting to `think_tag` and on to a field format gives the direct conversion exactly
   when the reasoning holds no close tag and the answer no complete block.
   */
  lemma TagFormLosesNothing(m: Delta, t: ThinkingFormat)
    requires ToField(t) && Answer(m).Some?
    ensures TransformMessage(TransformMessage(m, ThinkTag), t) == TransformMessage(m, t) <==>
      !Contains(SourceReasoning(m), CLOSE_TAG) && Blocks(Answer(m).value).0 == []
  {
    hide Contains, Blocks, JoinLines, Printed;
    ExtractUndoesPrint(SourceReasoning(m), Answer(m).value);
  }

  /** A second run changes nothing exactly when the first one left no complete block behind. */
  lemma SecondRunIsIdle(m: Delta, t: ThinkingFormat)
    requires ToField(t) && Answer(m).Some?
    ensures TransformMessage(TransformMessage(m, t), t) == TransformMessage(m, t) <==> Blocks(Answer(m).value).0 == []
  {
    hide Contains, Blocks;
    UntouchedWithoutBlocks(Answer(m).value);
  }

  /** A block between two halves of a tag. */
  function Halves(front: string, inside: string, back: string): string {
    front + (OPEN_TAG + (inside + (CLOSE_TAG + back)))
  }

  lemma RemovalJoinsTheHalves(front: string, inside: string, back: string)
    requires !Contains(front, OPEN_TAG) && !Contains(inside, CLOSE_TAG) && !Contains(back, OPEN_TAG)
    ensures Blocks(Halves(front, inside, back)).1 == front + back
  {
    hide Contains, IsFirst, OccursAt;
    var s, inner := Halves(front, inside, back), inside + (CLOSE_TAG + back);
    assert Blocks(back) == ([], back);
    hide Blocks;
    TagIsFoundAfterTagFreeText(Content, front, inner);
    assert s[|front| + 7..] == inner && s[..|front|] == front;
    TagIsFoundAfterTagFreeText(InThink, inside, back);
    assert inner[|inside| + 8..] == back;
    BlocksFound(s, |front|, |inside|);
  }

  /** Removing a block can close the gap around it into a new tag: the transform is not idempotent. */
  lemma RemovalCanExposeATag()
    ensures var m := Delta(Text("<thi<think>x</think>nk>y</think>"), Absent, Absent);
      TransformMessage(TransformMessage(m, Reasoning), Reasoning) != TransformMessage(m, Reasoning)
  {
    hide Contains, IsFirst, OccursAt, Blocks, TransformMessage;
    var front, back := "<thi", "nk>y</think>";
    ShortHasNoTag(front, OPEN_TAG);
    ShortHasNoTag("x", CLOSE_TAG);
    ShortHasNoTag("y", CLOSE_TAG);
    BackHasNoOpenTag(back);
    RemovalJoinsTheHalves(front, "x", back);
    PrintedBlocks("y", "");
    assert Halves(front, "x", back) == "<thi<think>x</think>nk>y</think>";
    assert front + back == Printed("y", "");
    SecondRunIsIdle(Delta(Text(Halves(front, "x", back)), Absent, Absent), Reasoning);
  }

  lemma ShortHasNoTag(s: string, tag: string)
    requires |s| < |tag|
    ensures !Contains(s, tag)
  {
  }

  lemma BackHasNoOpenTag(back: string)
    requires back == "nk>y</think>"
    ensures !Contains(back, OPEN_TAG)
  {
    forall j ensures !OccursAt(back, OPEN_TAG, j) {
      if 0 <= j && j + 7 <= |back| {
        assert back[j..j + 7][0] == back[j] && back[j..j + 7][1] == back[j + 1];
      }
    }
  }
}
