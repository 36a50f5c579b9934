/**
 The stream a client of a streaming chat request reads: the upstream events behind the
 terminator, the outcome marker, the mapping to client events and the closing sentinel.
 */
module StreamResponse {
  import opened Wrappers

  /** What polling the parsed upstream body yields before its end. */
  datatype Item = Data(text: string) | Failure(message: string)

  /** What the client receives; `Done` is the event `[DONE]`. */
  datatype Out = Chunk(text: string) | Keepalive | Leftover(text: string) | Done | ErrorChunk(message: string)

  const DONE := "[DONE]"

  /**
   How an event that is not `[DONE]` is passed on -- it may depend on all events before it -- and
   what the thinking transformer still holds back when `[DONE]` arrives.
   */
  datatype Mapping = Mapping(chunk: (seq<Item>, string) -> Out, flush: seq<Item> -> Option<string>)

  /** An event is passed on as a chunk or answered as a ping, never as a terminal event. */
  ghost predicate IsMapping(m: Mapping) {
    forall before, text :: m.chunk(before, text).Chunk? || m.chunk(before, text).Keepalive?
  }

  predicate IsDone(item: Item) {
    item == Data(DONE)
  }

  predicate IsTerminal(item: Item) {
    IsDone(item) || item.Failure?
  }

  /** The client events of one upstream item; `before` are the items in front of it. */
  function Mapped(m: Mapping, before: seq<Item>, item: Item): (r: seq<Out>)
    ensures r != []
  {
    match item
    case Failure(message) => [ErrorChunk(message)]
    case Data(text) =>
      if text != DONE then [m.chunk(before, text)]
      else if m.flush(before).Some? then [Leftover(m.flush(before).value), Done]
      else [Done]
  }

  function AllMapped(m: Mapping, items: seq<Item>): seq<Out> {
    if items == [] then []
    else
      var last := |items| - 1;
      AllMapped(m, items[..last]) + Mapped(m, items[..last], items[last])
  }

  /** The upstream items up to and with the first failure. */
  function UpToFailure(script: seq<Item>): (r: seq<Item>)
    ensures r <= script
  {
    if script == [] then []
    else if script[0].Failure? then [script[0]]
    else
      var rest := UpToFailure(script[1..]);
      assert script == [script[0]] + script[1..];
      [script[0]] + rest
  }

  predicate Marked(items: seq<Item>) {
    exists i :: 0 <= i < |items| && IsTerminal(items[i])
  }

  /** Everything a client receives that reads to the end. */
  function Response(m: Mapping, script: seq<Item>): seq<Out> {
    var items := UpToFailure(script);
    AllMapped(m, items) + if Marked(items) then [] else [Done]
  }

  // ---------------------------------------------------------------- outcomes

  datatype Outcome = Running | Completed | UpstreamError

  /** The first terminal event decides; the end of the upstream is one. */
  function OutcomeOf(items: seq<Item>, ended: bool): Outcome {
    if items == [] then if ended then Completed else Running
    else if IsDone(items[0]) then Completed
    else if items[0].Failure? then UpstreamError
    else OutcomeOf(items[1..], ended)
  }

  class StreamOutcome {
    var value: Outcome

    constructor ()
      ensures value == Running
    {
      value := Running;
    }

    /** The first mark wins. */
    method Mark(outcome: Outcome)
      modifies this
      ensures value == if old(value).Running? then outcome else old(value)
    {
      if value == Running {
        value := outcome;
      }
    }
  }

  function OutcomeToStatus(outcome: Outcome, sawTerminalEvent: bool): (int, Option<string>) {
    if outcome == UpstreamError then (502, Some("upstream stream interrupted"))
    else if outcome == Completed || sawTerminalEvent then (200, None)
    else (499, Some("client disconnected before stream completed"))
  }

  // ---------------------------------------------------------------- the layers

  /** The parsed upstream body. After a failure it may go on with anything, the same failure included. */
  class Upstream {
    const script: seq<Item>
    var pos: nat

    ghost predicate Valid()
      reads this
    {
      pos <= |script|
    }

    constructor (script: seq<Item>)
      ensures Valid() && this.script == script && pos == 0
    {
      this.script, pos := script, 0;
    }

    method PollNext() returns (r: Option<Item>)
      requires Valid()
      modifies this
      ensures Valid()
      ensures r == if old(pos) < |script| then Some(script[old(pos)]) else None
      ensures pos == if r.Some? then old(pos) + 1 else old(pos)
    {
      if pos < |script| {
        r := Some(script[pos]);
        pos := pos + 1;
      } else {
        r := None;
      }
    }
  }

  class TerminateOnError {
    const inner: Upstream
    var terminated: bool

    /** Nothing behind the first failure has been read; `terminated` tells that nothing more will be. */
    ghost predicate Valid()
      reads this, inner
    {
      inner.Valid() && inner.script[..inner.pos] <= UpToFailure(inner.script) &&
      (terminated ==> AtEnd()) && (Failed() ==> terminated)
    }

    ghost predicate Failed()
      requires inner.Valid()
      reads this, inner
    {
      inner.pos > 0 && inner.script[inner.pos - 1].Failure?
    }

    ghost predicate AtEnd()
      requires inner.Valid()
      reads this, inner
    {
      inner.script[..inner.pos] == UpToFailure(inner.script)
    }

    constructor (inner: Upstream)
      requires inner.Valid() && inner.pos == 0
      ensures this.inner == inner && !terminated && Valid()
    {
      this.inner, terminated := inner, false;
    }

    method PollNext() returns (r: Option<Item>)
      requires Valid()
      modifies this, inner
      ensures Valid()
      ensures r.None? ==> terminated && inner.pos == old(inner.pos)
      ensures r.Some? ==> !old(terminated) && inner.pos == old(inner.pos) + 1 && inner.script[old(inner.pos)] == r.value
      ensures r.Some? ==> (terminated <==> r.value.Failure?)
    {
      if terminated {
        return None;
      }
      EndOrMore(inner.script, inner.pos);
      r := inner.PollNext();
      if r.None? || r.value.Failure? {
        terminated := true;
      }
    }
  }

  /** As long as nothing failed the next item, if there is one, belongs to what is delivered. */
  lemma {:induction false} EndOrMore(script: seq<Item>, p: nat)
    requires p <= |script| && script[..p] <= UpToFailure(script) && (p > 0 ==> !script[p - 1].Failure?)
    ensures p == |script| ==> script[..p] == UpToFailure(script)
    ensures p < |script| ==>
      script[..p + 1] <= UpToFailure(script) && (script[p].Failure? ==> script[..p + 1] == UpToFailure(script))
  {
    if p == 0 {
      if script != [] {
        assert script[..1] == [script[0]];
      }
    } else {
      var rest := script[1..];
      assert script[..p][0] == script[0];
      FirstIsNoFailure(script, p);
      assert rest[..p - 1] == script[..p][1..] <= UpToFailure(script)[1..];
      EndOrMore(rest, p - 1);
      assert p < |script| ==> script[..p + 1] == [script[0]] + rest[..p];
      assert script[..p] == [script[0]] + rest[..p - 1];
    }
  }

  lemma FirstIsNoFailure(script: seq<Item>, p: nat)
    requires 0 < p <= |script| && script[..p] <= UpToFailure(script) && !script[p - 1].Failure?
    ensures !script[0].Failure?
  {
    assert script[0].Failure? ==> |UpToFailure(script)| == 1;
    assert |script[..p]| == p;
  }

  class OutcomeSignal {
    const inner: TerminateOnError
    const outcome: StreamOutcome

    ghost predicate Valid()
      reads this, inner, inner.inner
    {
      inner.Valid()
    }

    constructor (inner: TerminateOnError, outcome: StreamOutcome)
      requires inner.Valid()
      ensures this.inner == inner && this.outcome == outcome && Valid()
    {
      this.inner, this.outcome := inner, outcome;
    }

    method PollNext() returns (r: Option<Item>)
      requires Valid()
      modifies inner, inner.inner, outcome
      ensures Valid()
      ensures r.None? ==> inner.terminated && inner.inner.pos == old(inner.inner.pos)
      ensures r.Some? ==> !old(inner.terminated) && inner.inner.pos == old(inner.inner.pos) + 1
      ensures r.Some? ==>
        inner.inner.script[old(inner.inner.pos)] == r.value && (inner.terminated <==> r.value.Failure?)
      ensures outcome.value ==
        if !old(outcome.value).Running? then old(outcome.value)
        else if r.None? then Completed
        else if r.value.Failure? then UpstreamError
        else Running
    {
      r := inner.PollNext();
      if r.None? {
        outcome.Mark(Completed);
      } else if r.value.Failure? {
        outcome.Mark(UpstreamError);
      }
    }
  }

  /** `flat_map` over the upstream, then the sentinel. */
  class ClientStream {
    const upstream: OutcomeSignal
    const m: Mapping
    var doneFlag: bool
    /** What the mapping has seen: the state of the prefix and of the thinking transformer. */
    var seen: seq<Item>
    var buffer: seq<Out>
    var upstreamOver: bool
    var emitted: bool
    ghost var taken: seq<Out>

    ghost function Script(): seq<Item>
      reads this, upstream, upstream.inner, upstream.inner.inner
    {
      upstream.inner.inner.script
    }

    /** The upstream items that were read. */
    ghost function Read(): seq<Item>
      requires upstream.Valid()
      reads this, upstream, upstream.inner, upstream.inner.inner
    {
      Script()[..upstream.inner.inner.pos]
    }

    ghost predicate Valid()
      reads this, upstream, upstream.inner, upstream.inner.inner, upstream.outcome
    {
      upstream.Valid() && seen == Read() && (doneFlag <==> Marked(Read())) &&
      upstream.outcome.value == OutcomeOf(Read(), upstreamOver) &&
      (upstreamOver ==> emitted && upstream.inner.terminated && buffer == [] && taken == Response(m, Script())) &&
      (!upstreamOver ==> !emitted && taken + buffer == AllMapped(m, Read()))
    }

    constructor (script: seq<Item>, m: Mapping)
      ensures Valid() && fresh(upstream) && fresh(upstream.inner) && fresh(upstream.inner.inner) &&
        fresh(upstream.outcome)
      ensures Script() == script && this.m == m && taken == [] && !upstreamOver && Read() == []
    {
      var body := new Upstream(script);
      var terminator := new TerminateOnError(body);
      var outcome := new StreamOutcome();
      upstream := new OutcomeSignal(terminator, outcome);
      this.m, doneFlag, seen, buffer, upstreamOver, emitted, taken := m, false, [], [], false, false, [];
    }

    /** The closure of the `flat_map` on the next upstream item. */
    method ReadItem() returns (over: bool)
      requires Valid() && buffer == [] && !upstreamOver
      modifies this, upstream.inner, upstream.inner.inner, upstream.outcome
      ensures taken == old(taken) && emitted == old(emitted) && upstreamOver == old(upstreamOver)
      ensures !over ==> Valid() && buffer != []
      ensures over ==> upstream.Valid() && seen == Read() && Read() == UpToFailure(Script())
      ensures over ==> buffer == [] && upstream.inner.terminated && taken == AllMapped(m, Read())
      ensures over ==> (doneFlag <==> Marked(Read())) && upstream.outcome.value == OutcomeOf(Read(), true)
    {
      hide AllMapped, Response, UpToFailure, OutcomeOf, Marked, Mapped;
      var item := upstream.PollNext();
      assert taken + [] == taken;
      if item.None? {
        EndCompletes(seen);
        return true;
      }
      ReadMore(m, seen, item.value);
      assert Read() == seen + [item.value];
      if IsDone(item.value) {
        doneFlag := true;
        upstream.outcome.Mark(Completed);
      } else if item.value.Failure? {
        doneFlag := true;
      }
      buffer := Mapped(m, seen, item.value);
      seen := seen + [item.value];
      return false;
    }

    /** `DoneSentinel`: `[DONE]` once, unless an item before was terminal. */
    method PollSentinel() returns (r: Option<Out>)
      modifies this`emitted
      ensures emitted && r == if old(emitted) || doneFlag then None else Some(Done)
    {
      if emitted {
        return None;
      }
      emitted := true;
      if doneFlag {
        return None;
      }
      return Some(Done);
    }

    /**
     The k-th poll yields the k-th event of the response, and from the end on nothing. A new
     upstream item is only read when all events of the one before were taken.
     */
    method PollNext() returns (r: Option<Out>)
      requires Valid()
      modifies this, upstream.inner, upstream.inner.inner, upstream.outcome
      ensures Valid()
      ensures r == (if |old(taken)| < |Response(m, Script())| then Some(Response(m, Script())[|old(taken)|]) else None)
      ensures taken == old(taken) + if r.Some? then [r.value] else []
      ensures old(buffer) != [] ==> Read() == old(Read()) && upstreamOver == old(upstreamOver)
      ensures r.None? ==> upstreamOver
    {
      hide AllMapped, UpToFailure, OutcomeOf, Marked, Mapped;
      if buffer == [] && !upstreamOver {
        var over := ReadItem();
        if over {
          upstreamOver := true;
        }
      }
      if upstreamOver {
        r := PollSentinel();
        if r.Some? {
          taken := taken + [r.value];
        }
        return r;
      }
      ResponseStarts(m, Script(), Read());
      r := Some(buffer[0]);
      TakeOne(taken, buffer, AllMapped(m, Read()), Response(m, Script()));
      taken := taken + [buffer[0]];
      buffer := buffer[1..];
    }
  }

  lemma TakeOne(taken: seq<Out>, buffer: seq<Out>, mapped: seq<Out>, response: seq<Out>)
    requires buffer != [] && taken + buffer == mapped && mapped <= response
    ensures |taken| < |response| && response[|taken|] == buffer[0] && (taken + [buffer[0]]) + buffer[1..] == mapped
  {
    assert (taken + buffer)[|taken|] == buffer[0];
  }

  lemma {:induction false} AllMappedGrows(m: Mapping, a: seq<Item>, b: seq<Item>)
    requires a <= b
    ensures AllMapped(m, a) <= AllMapped(m, b)
    decreases |b|
  {
    if |a| < |b| {
      var last := |b| - 1;
      assert a <= b[..last];
      AllMappedGrows(m, a, b[..last]);
    } else {
      assert a == b;
    }
  }

  lemma ResponseStarts(m: Mapping, script: seq<Item>, read: seq<Item>)
    requires read <= UpToFailure(script)
    ensures AllMapped(m, read) <= Response(m, script)
  {
    hide AllMapped, UpToFailure, Marked;
    AllMappedGrows(m, read, UpToFailure(script));
  }

  lemma ReadMore(m: Mapping, before: seq<Item>, item: Item)
    ensures AllMapped(m, before + [item]) == AllMapped(m, before) + Mapped(m, before, item)
    ensures Marked(before + [item]) <==> Marked(before) || IsTerminal(item)
    ensures OutcomeOf(before + [item], false) ==
      if !OutcomeOf(before, false).Running? then OutcomeOf(before, false)
      else if IsDone(item) then Completed else if item.Failure? then UpstreamError else Running
  {
    var all := before + [item];
    assert all[..|before|] == before && all[|before|] == item;
    assert forall i :: 0 <= i < |before| ==> all[i] == before[i];
    OutcomeOfMore(before, item);
  }

  lemma {:induction false} OutcomeOfMore(before: seq<Item>, item: Item)
    ensures OutcomeOf(before + [item], false) ==
      if !OutcomeOf(before, false).Running? then OutcomeOf(before, false)
      else if IsDone(item) then Completed else if item.Failure? then UpstreamError else Running
  {
    var all := before + [item];
    if before == [] {
      assert all[1..] == [];
    } else {
      assert all[1..] == before[1..] + [item];
      OutcomeOfMore(before[1..], item);
    }
  }

  lemma {:induction false} EndCompletes(read: seq<Item>)
    ensures OutcomeOf(read, true) == if OutcomeOf(read, false).Running? then Completed else OutcomeOf(read, false)
  {
    if read != [] {
      EndCompletes(read[1..]);
    }
  }

  // ---------------------------------------------------------------- what a response looks like

  ghost predicate Fails(script: seq<Item>) {
    exists i :: 0 <= i < |script| && script[i].Failure?
  }

  lemma FailsLater(script: seq<Item>)
    requires script != []
    ensures Fails(script) <==> script[0].Failure? || Fails(script[1..])
  {
    var rest := script[1..];
    assert forall i :: 0 <= i < |rest| ==> rest[i] == script[i + 1];
    if k :| 0 <= k < |script| && script[k].Failure? {
      assert k > 0 ==> rest[k - 1].Failure?;
    }
  }

  lemma UpToFailureStep(script: seq<Item>)
    requires script != []
    ensures UpToFailure(script) == if script[0].Failure? then [script[0]] else [script[0]] + UpToFailure(script[1..])
  {
  }

  lemma {:induction false} FailureHides(script: seq<Item>, more: seq<Item>)
    requires Fails(script)
    ensures UpToFailure(script + more) == UpToFailure(script)
  {
    assert script != [];
    hide UpToFailure, Fails;
    FailsLater(script);
    UpToFailureStep(script);
    UpToFailureStep(script + more);
    if !script[0].Failure? {
      FailureHides(script[1..], more);
      assert (script + more)[1..] == script[1..] + more;
    }
  }

  lemma {:induction false} FailureEnds(script: seq<Item>)
    ensures Fails(script) ==> UpToFailure(script) != [] && UpToFailure(script)[|UpToFailure(script)| - 1].Failure?
    ensures !Fails(script) ==> UpToFailure(script) == script
    ensures forall i :: 0 <= i < |UpToFailure(script)| - 1 ==> !UpToFailure(script)[i].Failure?
  {
    if script != [] {
      hide UpToFailure, Fails;
      FailureEnds(script[1..]);
      FailsLater(script);
      UpToFailureStep(script);
      assert script == [script[0]] + script[1..];
    }
  }

  function Dones(items: seq<Item>): nat {
    if items == [] then 0 else Dones(items[..|items| - 1]) + if IsDone(items[|items| - 1]) then 1 else 0
  }

  function DoneEvents(outs: seq<Out>): nat {
    if outs == [] then 0 else DoneEvents(outs[..|outs| - 1]) + if outs[|outs| - 1].Done? then 1 else 0
  }

  lemma {:induction false} DoneEventsSplit(a: seq<Out>, b: seq<Out>)
    ensures DoneEvents(a + b) == DoneEvents(a) + DoneEvents(b)
    decreases |b|
  {
    if b == [] {
      assert a + b == a;
    } else {
      DoneEventsSplit(a, b[..|b| - 1]);
      assert (a + b)[..|a + b| - 1] == a + b[..|b| - 1];
    }
  }

  lemma {:induction false} DonesExist(items: seq<Item>)
    ensures Dones(items) > 0 <==> exists i :: 0 <= i < |items| && IsDone(items[i])
  {
    if items != [] {
      var last := |items| - 1;
      DonesExist(items[..last]);
      assert forall i :: 0 <= i < last ==> items[i] == items[..last][i];
    }
  }

  lemma {:induction false} MappedShape(m: Mapping, items: seq<Item>)
    requires IsMapping(m)
    ensures DoneEvents(AllMapped(m, items)) == Dones(items)
    ensures !Fails(items) ==> forall o :: o in AllMapped(m, items) ==> !o.ErrorChunk?
  {
    hide Mapped, DoneEvents, IsMapping;
    if items == [] {
      NoEvents();
    } else {
      var last := |items| - 1;
      var front := items[..last];
      MappedShape(m, front);
      DoneEventsSplit(AllMapped(m, front), Mapped(m, front, items[last]));
      OneMapped(m, front, items[last]);
      if !Fails(items) {
        assert !items[last].Failure?;
        assert forall i :: 0 <= i < last ==> front[i] == items[i];
      }
    }
  }

  lemma NoEvents()
    ensures DoneEvents([]) == 0
  {
  }

  lemma OneMapped(m: Mapping, before: seq<Item>, item: Item)
    requires IsMapping(m)
    ensures DoneEvents(Mapped(m, before, item)) == if IsDone(item) then 1 else 0
    ensures !item.Failure? ==> forall o :: o in Mapped(m, before, item) ==> !o.ErrorChunk?
  {
    hide DoneEvents;
    var r := Mapped(m, before, item);
    OneEvent(r[0]);
    if |r| == 1 {
      assert r == [r[0]];
    } else {
      OneEvent(r[1]);
      DoneEventsSplit([r[0]], [r[1]]);
      assert r == [r[0]] + [r[1]];
    }
  }

  /**
   Main result. With a failure the error chunk is the last event and the only one of its kind, and
   nothing behind the failure is ever visible; the closing `[DONE]` is added exactly when upstream
   sent neither it nor a failure.
   */
  lemma ResponseShape(m: Mapping, script: seq<Item>, more: seq<Item>)
    requires IsMapping(m)
    ensures var r := Response(m, script);
      (Fails(script) ==>
        Response(m, script + more) == r && r != [] && r[|r| - 1].ErrorChunk? &&
        forall i :: 0 <= i < |r| - 1 ==> !r[i].ErrorChunk?) &&
      (!Fails(script) ==> r == AllMapped(m, script) + if Dones(script) == 0 then [Done] else []) &&
      (!Fails(script) ==> forall o :: o in r ==> !o.ErrorChunk?) &&
      DoneEvents(r) == Dones(UpToFailure(script)) + if Fails(script) || Dones(script) > 0 then 0 else 1
  {
    hide UpToFailure, AllMapped, Mapped;
    var items := UpToFailure(script);
    FailureEnds(script);
    MappedShape(m, items);
    DonesExist(items);
    if Fails(script) {
      FailureHides(script, more);
      var last := |items| - 1;
      MappedShape(m, items[..last]);
      LastMapped(m, items);
      assert Marked(items) by {
        assert IsTerminal(items[last]);
      }
      assert Response(m, script) == AllMapped(m, items) + [] == AllMapped(m, items);
    } else {
      DoneEventsSplit(AllMapped(m, items), [Done]);
      OneEvent(Done);
      assert Marked(items) <==> Dones(items) > 0;
      assert AllMapped(m, items) + [] == AllMapped(m, items);
    }
  }

  lemma OneEvent(o: Out)
    ensures DoneEvents([o]) == if o.Done? then 1 else 0
  {
    assert [o][..0] == [];
  }

  lemma LastMapped(m: Mapping, items: seq<Item>)
    requires items != [] && items[|items| - 1].Failure?
    ensures AllMapped(m, items) == AllMapped(m, items[..|items| - 1]) + [ErrorChunk(items[|items| - 1].message)]
  {
  }

  /** A client sees exactly one `[DONE]` iff upstream sent one at most, or one and then failed. */
  lemma OneDoneIff(m: Mapping, script: seq<Item>)
    requires IsMapping(m)
    ensures DoneEvents(Response(m, script)) == 1 <==>
      if Fails(script) then Dones(UpToFailure(script)) == 1 else Dones(script) <= 1
  {
    hide Response, UpToFailure, Dones, DoneEvents;
    ResponseShape(m, script, []);
    FailureEnds(script);
  }

  /** The item that decides: terminal, with none before. */
  ghost predicate Decides(items: seq<Item>, i: int) {
    0 <= i < |items| && IsTerminal(items[i]) && forall j :: 0 <= j < i ==> !IsTerminal(items[j])
  }

  lemma {:induction false} OutcomeIsDecided(items: seq<Item>, ended: bool)
    ensures OutcomeOf(items, ended) == UpstreamError <==> exists i :: Decides(items, i) && items[i].Failure?
    ensures OutcomeOf(items, ended) == Completed <==>
      (exists i :: Decides(items, i) && IsDone(items[i])) || (ended && !Marked(items))
  {
    if items != [] {
      var rest := items[1..];
      if IsTerminal(items[0]) {
        assert Decides(items, 0);
        assert forall i :: Decides(items, i) ==> i == 0;
      } else {
        OutcomeIsDecided(rest, ended);
        DecidesLater(items);
        assert Marked(items) <==> Marked(rest) by {
          assert forall i :: 0 <= i < |rest| ==> rest[i] == items[i + 1];
          if k :| 0 <= k < |items| && IsTerminal(items[k]) {
            assert rest[k - 1] == items[k];
          }
        }
      }
    }
  }

  lemma DecidesLater(items: seq<Item>)
    requires items != [] && !IsTerminal(items[0])
    ensures forall i :: Decides(items, i) ==> i > 0 && Decides(items[1..], i - 1) && items[1..][i - 1] == items[i]
    ensures forall i {:trigger Decides(items[1..], i)} :: Decides(items[1..], i) ==>
      (var k := i + 1; Decides(items, k) && items[1..][i] == items[k])
  {
    var rest := items[1..];
    assert forall j :: 0 <= j < |rest| ==> rest[j] == items[j + 1];
    forall i | Decides(items, i) ensures i > 0 && Decides(rest, i - 1) {
      assert forall j :: 0 <= j < i - 1 ==> rest[j] == items[j + 1];
    }
    forall i | Decides(rest, i) ensures var k := i + 1; Decides(items, k) {
      forall j | 0 <= j < i + 1 ensures !IsTerminal(items[j]) {
        if j > 0 {
          assert rest[j - 1] == items[j];
        }
      }
    }
  }

  /**
   The audited status of a chat stream whose client took some events and then left or went on to
   the end: decided by the first terminal item it made the gateway read, and by nothing after it.
   */
  lemma StatusIsDecidedOnce(items: seq<Item>, ended: bool, sawTerminalEvent: bool)
    ensures var (status, _) := OutcomeToStatus(OutcomeOf(items, ended), sawTerminalEvent);
      (status == 502 <==> exists i :: Decides(items, i) && items[i].Failure?) &&
      (status == 200 <==>
        (exists i :: Decides(items, i) && IsDone(items[i])) || (!Marked(items) && (ended || sawTerminalEvent))) &&
      (status == 499 <==> !Marked(items) && !ended && !sawTerminalEvent)
  {
    hide OutcomeOf;
    OutcomeIsDecided(items, ended);
    SomeDecides(items);
  }

  lemma {:induction false} SomeDecides(items: seq<Item>)
    ensures Marked(items) <==> exists i :: Decides(items, i)
    ensures forall i, j :: Decides(items, i) && Decides(items, j) ==> i == j
  {
    if items != [] {
      if IsTerminal(items[0]) {
        assert Decides(items, 0);
      } else {
        SomeDecides(items[1..]);
        DecidesLater(items);
        if k :| 0 <= k < |items| && IsTerminal(items[k]) {
          assert items[1..][k - 1] == items[k];
        }
      }
    }
  }
}
