/** Verification of a finished copy, and what a whole migration run guarantees. */
module MigrationVerify {
  import opened Wrappers
  import opened MigrationTables
  import opened MigrationCopy

  // ---------------------------------------------------------------- totals

  /** MIN and MAX of a nullable column. */
  function Bounds(column: seq<Option<int>>): Option<(int, int)> {
    if column == [] then None
    else
      var last := column[|column| - 1];
      match (Bounds(column[..|column| - 1]), last)
      case (b, None) => b
      case (None, Some(v)) => Some((v, v))
      case (Some(b), Some(v)) => Some((if v < b.0 then v else b.0, if v > b.1 then v else b.1))
  }

  /** They are the least and the greatest value, and missing only where every value is. */
  lemma {:induction false} BoundsAreTight(column: seq<Option<int>>)
    ensures Bounds(column).None? <==> forall c :: c in column ==> c.None?
    ensures Bounds(column).Some? ==>
      Some(Bounds(column).value.0) in column && Some(Bounds(column).value.1) in column &&
      forall c :: c in column && c.Some? ==> Bounds(column).value.0 <= c.value <= Bounds(column).value.1
  {
    if column != [] {
      var rest, last := column[..|column| - 1], column[|column| - 1];
      BoundsAreTight(rest);
      assert column == rest + [last];
      assert forall c :: c in column <==> c in rest || c == last;
    }
  }

  function SrcTimes(rows: seq<Row<SrcRecord>>): seq<Option<int>> {
    seq(|rows|, i requires 0 <= i < |rows| => rows[i].value.timeMs)
  }

  function DstTimes(rows: seq<Row<DstRecord>>): seq<Option<int>> {
    seq(|rows|, i requires 0 <= i < |rows| => rows[i].value.timeMs)
  }

  function Len(s: Option<string>): nat {
    if s.Some? then |s.value| else 0
  }

  /** SUM(length(...)) of request, response and headers; nulls do not count. */
  function Sizes(rows: seq<Row<Payload>>): (nat, nat, nat) {
    if rows == [] then (0, 0, 0)
    else
      var s := Sizes(rows[..|rows| - 1]);
      var p := rows[|rows| - 1].value;
      (s.0 + Len(p.request), s.1 + Len(p.response), s.2 + Len(p.headers))
  }

  lemma SizesOfOne(id: int, p: Payload)
    ensures var s := Sizes([Row(id, p)]);
      (p.request.Some? ==> s.0 == |p.request.value|) && (p.request.None? ==> s.0 == 0) &&
      (p.response.Some? ==> s.1 == |p.response.value|) && (p.response.None? ==> s.1 == 0) &&
      (p.headers.Some? ==> s.2 == |p.headers.value|) && (p.headers.None? ==> s.2 == 0)
  {
    var rows := [Row(id, p)];
    assert rows[..0] == [] && Sizes(rows[..0]) == (0, 0, 0);
  }

  /** The compared sizes are sums over the rows. */
  lemma {:induction false} SizesAdd(a: seq<Row<Payload>>, b: seq<Row<Payload>>)
    ensures var s, t := Sizes(a), Sizes(b);
      Sizes(a + b) == (s.0 + t.0, s.1 + t.1, s.2 + t.2)
    decreases |b|
  {
    if b == [] {
      assert a + b == a;
    } else {
      var rest := b[..|b| - 1];
      SizesAdd(a, rest);
      assert (a + b)[..|a + b| - 1] == a + rest;
    }
  }

  predicate TotalsAgree(src: Source, dst: Target) {
    |src.records| == |dst.records| && |src.payloads| == |dst.payloads| &&
    Bounds(SrcTimes(src.records)) == Bounds(DstTimes(dst.records)) && Sizes(src.payloads) == Sizes(dst.payloads)
  }

  predicate SearchTextIsValid(r: DstRecord) {
    r.searchText == Some(OrElse(r.prompt, "") + "\n" + OrElse(r.requestTail, "") + "\n" + OrElse(r.answer, ""))
  }

  ghost predicate SearchTextsAreValid(dst: Target) {
    forall r :: r in dst.records ==> SearchTextIsValid(r.value)
  }

  // ---------------------------------------------------------------- verify

  datatype Verdict =
    | Passed | TotalsDiffer | PayloadMissing(id: int) | PayloadMismatch(id: int) | SearchTextInvalid | IndexDiffers

  /** `ftsAgrees`: the full-text index and the scan count the same for every probe word. */
  method Verify(src: Source, dst: Target, ftsAgrees: bool) returns (v: Verdict)
    requires Valid(src) && Sorted(dst.payloads)
    ensures v.Passed? <==>
      |src.records| == |dst.records| && Bounds(SrcTimes(src.records)) == Bounds(DstTimes(dst.records)) &&
      src.payloads == dst.payloads && SearchTextsAreValid(dst) && ftsAgrees
    ensures v.PayloadMissing? ==>
      TotalsAgree(src, dst) && (exists p :: p in src.payloads && p.id == v.id) && Lookup(dst.payloads, v.id).None?
    ensures v.PayloadMismatch? ==>
      TotalsAgree(src, dst) && exists p, q :: p in src.payloads && q in dst.payloads && p.id == q.id == v.id && p != q
    ensures v.TotalsDiffer? <==> !TotalsAgree(src, dst)
    ensures v.SearchTextInvalid? ==> src.payloads == dst.payloads && !SearchTextsAreValid(dst)
    ensures v.IndexDiffers? ==> src.payloads == dst.payloads && SearchTextsAreValid(dst) && !ftsAgrees
  {
    hide Bounds, Sizes;
    if !TotalsAgree(src, dst) {
      return TotalsDiffer;
    }
    for i := 0 to |src.payloads|
      invariant forall k :: 0 <= k < i ==> src.payloads[k] in dst.payloads
    {
      var id, p := src.payloads[i].id, src.payloads[i].value;
      var found := Lookup(dst.payloads, id);
      if found.None? {
        RowIsMissing(src, dst, i);
        assert src.payloads[i] in src.payloads;
        return PayloadMissing(id);
      }
      var q := found.value;
      if p.codec != q.codec || p.dictId != q.dictId || p.request != q.request || p.response != q.response ||
         p.headers != q.headers || p.requestRawLen != q.requestRawLen || p.responseRawLen != q.responseRawLen ||
         p.headersRawLen != q.headersRawLen {
        RowDiffers(src, dst, i, q);
        assert src.payloads[i] in src.payloads && Row(id, q) in dst.payloads && src.payloads[i] != Row(id, q);
        return PayloadMismatch(id);
      }
      assert p == q && src.payloads[i] == Row(id, q);
    }
    SameRows(src.payloads, dst.payloads);
    var invalid := 0;
    for i := 0 to |dst.records|
      invariant invalid == 0 <==> forall k :: 0 <= k < i ==> SearchTextIsValid(dst.records[k].value)
      invariant invalid >= 0
    {
      if !SearchTextIsValid(dst.records[i].value) {
        invalid := invalid + 1;
      }
    }
    if invalid != 0 {
      return SearchTextInvalid;
    }
    if !ftsAgrees {
      return IndexDiffers;
    }
    return Passed;
  }

  lemma RowIsMissing(src: Source, dst: Target, i: nat)
    requires i < |src.payloads| && Lookup(dst.payloads, src.payloads[i].id).None?
    ensures src.payloads != dst.payloads
  {
    hide Lookup;
    assert i < |dst.payloads| ==> dst.payloads[i].id != src.payloads[i].id;
  }

  lemma RowDiffers(src: Source, dst: Target, i: nat, q: Payload)
    requires i < |src.payloads| && Row(src.payloads[i].id, q) in dst.payloads && q != src.payloads[i].value
    requires Valid(src) && Sorted(dst.payloads)
    ensures src.payloads != dst.payloads
  {
    var j :| 0 <= j < |dst.payloads| && dst.payloads[j] == Row(src.payloads[i].id, q);
    assert i < |dst.payloads| && j != i ==> dst.payloads[i].id != dst.payloads[j].id;
  }

  // ---------------------------------------------------------------- a whole run

  datatype Outcome = Failed | Verified(verdict: Verdict) | Unverified

  /** How a run was asked for, and whether the two last calls on the target succeed. */
  datatype Steps = Steps(verifyOnly: bool, deferIndex: bool, indexBuilt: bool, checkpointed: bool)

  /**
   A whole run: the copy, the deferred index, the checkpoint, and verification if as many rows
   were copied as the source holds. What a failing step has copied before it stays in the target.
   */
  method Run(src: Source, target: Target, o: Options, fails: nat -> bool, steps: Steps, ftsAgrees: bool)
    returns (t: Target, r: Outcome)
    requires Valid(src) && o.batch >= 1 && HasKeys(target)
    ensures steps.verifyOnly ==> t == target && r.Verified?
    ensures !steps.verifyOnly ==>
      var copy := Copied(src, target, Start(target, o), 0, o, fails, 0);
      t == copy.target &&
      (r.Failed? <==> !copy.ok || (steps.deferIndex && !steps.indexBuilt) || !steps.checkpointed) &&
      (r.Verified? ==> copy.migrated == |src.records|) && (r.Unverified? ==> copy.migrated != |src.records|)
    ensures r.Verified? ==> (r.verdict.Passed? <==>
      |src.records| == |t.records| && Bounds(SrcTimes(src.records)) == Bounds(DstTimes(t.records)) &&
      src.payloads == t.payloads && SearchTextsAreValid(t) && ftsAgrees)
  {
    hide Copied, Bounds, SearchTextsAreValid;
    if steps.verifyOnly {
      var v := Verify(src, target, ftsAgrees);
      return target, Verified(v);
    }
    var copy := RunCopy(src, target, o, fails);
    t := copy.target;
    if !copy.ok || (steps.deferIndex && !steps.indexBuilt) || !steps.checkpointed {
      return t, Failed;
    }
    CopyKeepsKeys(src, target, Start(target, o), 0, o, fails, 0);
    if copy.migrated == |src.records| {
      var v := Verify(src, t, ftsAgrees);
      return t, Verified(v);
    }
    return t, Unverified;
  }

  lemma ConvertedIsValid(src: Source, last: Option<int>)
    ensures SearchTextsAreValid(Part(src, last))
    ensures Rank(src.records, last) == |src.records| ==>
      Bounds(SrcTimes(src.records)) == Bounds(DstTimes(Part(src, last).records)) &&
      |Part(src, last).records| == |src.records|
  {
    hide Bounds;
    if Rank(src.records, last) == |src.records| {
      assert src.records[..|src.records|] == src.records;
      assert SrcTimes(src.records) == DstTimes(Part(src, last).records);
    }
  }

  /**
   Main result: a fresh run that is neither interrupted nor limited is verified, and passes exactly
   when no payload lies behind the last record (and the index agrees); then the target is the source,
   column by column.
   */
  lemma FreshRun(src: Source, o: Options, fails: nat -> bool)
    requires Valid(src) && o.batch >= 1 && o.limit >= |src.records| && forall k :: !fails(k)
    ensures var r := Copied(src, Target([], []), None, 0, o, fails, 0);
      r.ok && r.migrated == |src.records| == |r.target.records| && r.target.records == AllConverted(src.records) &&
      (forall i :: 0 <= i < |src.records| ==> SameColumns(src.records[i], r.target.records[i])) &&
      (r.target.payloads == src.payloads <==> NoTrailingPayload(src)) &&
      SearchTextsAreValid(r.target) && Bounds(SrcTimes(src.records)) == Bounds(DstTimes(r.target.records))
  {
    hide Copied, Bounds, SearchTextsAreValid, NoTrailingPayload, SameColumns, Converted;
    assert Part(src, None) == Target([], []);
    CopyStaysAtBoundary(src, None, 0, o, fails, 0);
    var r := Copied(src, Target([], []), None, 0, o, fails, 0);
    CompleteIff(src, r.last);
    ConvertedIsValid(src, r.last);
    HoldsUpToIff(src, r.target, r.last);
    PartCounts(src, r.last);
  }

  /**
   A run resumed after at least one batch counts only its own rows, so it never verifies; its
   target is complete exactly under the same condition, which then nobody checks.
   */
  lemma ResumedRun(src: Source, start: Target, last: Option<int>, o: Options, fails: nat -> bool)
    requires Valid(src) && o.batch >= 1 && o.limit >= |src.records| && forall k :: !fails(k)
    requires o.resume && last.Some? && AtBoundary(src, last) && HoldsUpTo(src, start, last)
    ensures var r := Copied(src, start, Start(start, o), 0, o, fails, 0);
      r.ok && r.migrated < |src.records| == |r.target.records| && r.target.records == AllConverted(src.records) &&
      (forall i :: 0 <= i < |src.records| ==> SameColumns(src.records[i], r.target.records[i])) &&
      (r.target.payloads == src.payloads <==> NoTrailingPayload(src))
  {
    hide Copied, NoTrailingPayload, SameColumns, Converted;
    HoldsUpToIff(src, start, last);
    ResumeFindsTheBoundary(src, last, o);
    CopyStaysAtBoundary(src, last, 0, o, fails, 0);
    var i := BoundaryIndex(src, last);
    var r := Copied(src, start, last, 0, o, fails, 0);
    CompleteIff(src, r.last);
    HoldsUpToIff(src, r.target, r.last);
    PartCounts(src, r.last);
  }

  /** Records are checked by number, time bounds and search text only: any other column may differ unnoticed. */
  lemma RecordsAreOnlyCounted(src: Source, dst: Target, rest: string)
    requires Valid(src) && src.records != [] && rest != src.records[0].value.rest
    requires dst == Target(AllConverted(src.records), src.payloads)
    ensures var r0 := dst.records[0];
      var bad := Target(dst.records[0 := Row(r0.id, r0.value.(rest := rest))], dst.payloads);
      bad != dst && |src.records| == |bad.records| && Bounds(SrcTimes(src.records)) == Bounds(DstTimes(bad.records)) &&
      src.payloads == bad.payloads && SearchTextsAreValid(bad)
  {
    hide Bounds;
    var r0 := dst.records[0];
    var bad := Target(dst.records[0 := Row(r0.id, r0.value.(rest := rest))], dst.payloads);
    assert SrcTimes(src.records) == DstTimes(bad.records);
    assert bad.records[0].value.rest == rest;
  }
}
