/** How streaming think-tag text into fields compares with extracting its blocks in one go. */
module ThinkingLaws {
  import opened Wrappers
  import opened Text
  import opened ThinkingTransformer
  import opened ThinkingStream

  // ---------------------------------------------------------------- streaming and one-shot extraction

  /** The matches of `<think>(.*?)</think>`, left to right, and the text around them. */
  function Blocks(s: string): (seq<string>, string)
    decreases |s|
  {
    match Find(s, OPEN_TAG)
    case None => ([], s)
    case Some(i) =>
      var inner := s[i + 7..];
      match Find(inner, CLOSE_TAG)
      case None => ([], s)
      case Some(j) =>
        var (blocks, rest) := Blocks(inner[j + 8..]);
        ([inner[..j]] + blocks, s[..i] + rest)
  }

  /** One match of the pattern. */
  lemma BlocksFound(s: string, i: nat, j: nat)
    requires Find(s, OPEN_TAG) == Some(i) && Find(s[i + 7..], CLOSE_TAG) == Some(j)
    ensures var inner := s[i + 7..];
      j + 8 <= |inner| &&
      Blocks(s) == ([inner[..j]] + Blocks(inner[j + 8..]).0, s[..i] + Blocks(inner[j + 8..]).1)
  {
    hide Contains, OccursAt, IsFirst;
  }

  lemma NoMoreBlocks(s: string)
    requires match Find(s, OPEN_TAG) case None => true case Some(i) => Find(s[i + 7..], CLOSE_TAG) == None
    ensures Blocks(s) == ([], s)
  {
    hide Contains, OccursAt, IsFirst;
  }

  function AddLine(text: string, piece: string): string {
    if piece == "" then text else if text == "" then piece else text + "\n" + piece
  }

  function JoinLines(text: string, blocks: seq<string>): string
    decreases |blocks|
  {
    if blocks == [] then text else JoinLines(AddLine(text, blocks[0]), blocks[1..])
  }

  /** Non-streaming extraction: the non-empty blocks, one per line, and the text without blocks. */
  method ExtractThinkBlocks(content: string) returns (reasoning: string, remainder: string)
    ensures reasoning == JoinLines("", Blocks(content).0)
    ensures remainder == Blocks(content).1
  {
    hide Blocks, Find;
    var (blocks, rest) := Blocks(content);
    reasoning := "";
    remainder := rest;
    for k := 0 to |blocks|
      invariant JoinLines(reasoning, blocks[k..]) == JoinLines("", blocks)
    {
      assert blocks[k..][0] == blocks[k] && blocks[k..][1..] == blocks[k + 1..];
      var piece := blocks[k];
      assert "" + piece == piece;
      if piece != "" {
        if reasoning != "" {
          reasoning := reasoning + "\n";
        }
        reasoning := reasoning + piece;
      }
    }
    assert blocks[|blocks|..] == [];
  }

  /** Streamed content and reasoning of a whole text. */
  function Streamed(s: string): (string, string) {
    Flushed(Scan(Content, s))
  }

  /** The streamed form ends outside a block. */
  predicate AllClosed(s: string) {
    Scan(Content, s).phase.Content?
  }

  function NonEmptyCount(blocks: seq<string>): nat {
    if blocks == [] then 0 else (if blocks[0] == "" then 0 else 1) + NonEmptyCount(blocks[1..])
  }

  lemma {:induction false} JoinLinesLength(text: string, blocks: seq<string>)
    ensures |JoinLines(text, blocks)| == |text| + |Concat(blocks)| +
      (if text != "" then NonEmptyCount(blocks)
       else if NonEmptyCount(blocks) == 0 then 0
       else NonEmptyCount(blocks) - 1)
    ensures NonEmptyCount(blocks) == 0 ==> Concat(blocks) == "" && JoinLines(text, blocks) == text
    ensures NonEmptyCount(blocks) == 1 && text == "" ==> JoinLines(text, blocks) == Concat(blocks)
    decreases |blocks|
  {
    if blocks != [] {
      JoinLinesLength(AddLine(text, blocks[0]), blocks[1..]);
      if NonEmptyCount(blocks) == 1 && text == "" && blocks[0] != "" {
        assert blocks[0] + "" == blocks[0];
      }
    }
  }

  /** Where every block is closed the two forms see the same blocks; otherwise the remainders differ. */
  lemma {:induction false} StreamedVersusBlocks(s: string)
    ensures var (blocks, rest) := Blocks(s);
      if AllClosed(s) then Streamed(s) == (rest, Concat(blocks)) else |Streamed(s).0| + 7 <= |rest|
    decreases |s|
  {
    hide IsFirst, Contains, OccursAt, IsLongestPartial, CarryLen, Scan, Blocks;
    match Find(s, OPEN_TAG)
    case None =>
      NoMoreBlocks(s);
      ScanNotFound(Content, s);
      var cut := |s| - CarryLen(s, OPEN_TAG);
      assert (s[..cut] + "") + s[cut..] == s;
    case Some(i) =>
      var inner := s[i + 7..];
      ScanFound(Content, s, i);
      FlushedEmit(Content, s[..i], Scan(InThink, inner));
      match Find(inner, CLOSE_TAG)
      case None =>
        NoMoreBlocks(s);
        ScanNotFound(InThink, inner);
      case Some(j) =>
        BlocksFound(s, i, j);
        ScanFound(InThink, inner, j);
        FlushedEmit(InThink, inner[..j], Scan(Content, inner[j + 8..]));
        StreamedVersusBlocks(inner[j + 8..]);
        assert ([inner[..j]] + Blocks(inner[j + 8..]).0)[1..] == Blocks(inner[j + 8..]).0;
  }

  /** The streamed content is the one-shot remainder exactly when every opened block is closed. */
  lemma StreamedContentIsTheRemainder(s: string)
    ensures Streamed(s).0 == Blocks(s).1 <==> AllClosed(s)
  {
    StreamedVersusBlocks(s);
  }

  /** The reasoning texts then agree exactly when at most one block is non-empty. */
  lemma StreamedReasoningIsTheJoinedBlocks(s: string)
    requires AllClosed(s)
    ensures Streamed(s).1 == Concat(Blocks(s).0)
    ensures Streamed(s).1 == JoinLines("", Blocks(s).0) <==> NonEmptyCount(Blocks(s).0) <= 1
  {
    StreamedVersusBlocks(s);
    JoinLinesLength("", Blocks(s).0);
  }
}
