/** The echo sample application (sample_apps/echo_app/src/main.rs): an
    endless exchange in which each `finish` carries the verdict on the previous
    request, the next request is dispatched on its type, and the handler's
    verdict becomes the next `finish`'s. `Echo` states what the host observes
    for a given script of replies; `EchoMain` is the loop, proved to produce it. */
module EchoApp {
  import opened Prelude
  import opened CmtLib
  import opened RollupValues
  import opened RollupHost

  /** `handle_advance`: read the advance request and accept it. */
  method HandleAdvance(rollup: Rollup) returns (r: IoResult<bool>)
    requires rollup.Valid() && rollup.current.Some?
    modifies rollup`rounds
    ensures rollup.Valid()
    ensures rollup.rounds == AddRead(old(rollup.rounds), AdvanceRead)
    ensures ToIoResult(rollup.current.value.readRc).Err? ==> r == Err(ToIoResult(rollup.current.value.readRc).error)
    ensures ToIoResult(rollup.current.value.readRc).Ok? ==> r == Ok(true)
  {
    var advance :- rollup.ReadAdvanceState();
    return Ok(true);
  }

  /** `handle_inspect`: read the inspect request and accept it. */
  method HandleInspect(rollup: Rollup) returns (r: IoResult<bool>)
    requires rollup.Valid() && rollup.current.Some?
    modifies rollup`rounds
    ensures rollup.Valid()
    ensures rollup.rounds == AddRead(old(rollup.rounds), InspectRead)
    ensures ToIoResult(rollup.current.value.readRc).Err? ==> r == Err(ToIoResult(rollup.current.value.readRc).error)
    ensures ToIoResult(rollup.current.value.readRc).Ok? ==> r == Ok(true)
  {
    var inspect :- rollup.ReadInspectState();
    return Ok(true);
  }

  datatype RequestType = AdvanceState | InspectState | UnknownType

  /** The match on `next_request_type`: 0 is an advance, 1 an inspect, anything else unknown. */
  function Classify(t: int32): (k: RequestType)
    ensures k == AdvanceState <==> t == 0
    ensures k == InspectState <==> t == 1
  {
    if t == 0 then AdvanceState else if t == 1 then InspectState else UnknownType
  }

  /** The reads the dispatched handler makes. */
  function HandlerReads(t: int32): (r: seq<RequestRead>)
    ensures r == [AdvanceRead] <==> t == 0
    ensures r == [InspectRead] <==> t == 1
    ensures r == [] <==> Classify(t) == UnknownType
  {
    match Classify(t)
    case AdvanceState => [AdvanceRead]
    case InspectState => [InspectRead]
    case UnknownType => []
  }

  /** The dispatched handler's result: accept once the request is read, the
      read's error otherwise; an unknown type is rejected without a read. */
  function HandlerResult(reply: HostReply): (r: IoResult<bool>)
    ensures Classify(reply.nextRequestType) == UnknownType ==> r == Ok(false)
    ensures Classify(reply.nextRequestType) != UnknownType ==>
      (r.Ok? <==> reply.readRc == 0) && (r.Ok? ==> r.value)
    ensures Classify(reply.nextRequestType) != UnknownType && r.Err? ==> r.error == ToIoResult(reply.readRc).error
  {
    match Classify(reply.nextRequestType)
    case UnknownType => Ok(false)
    case _ =>
      match ToIoResult(reply.readRc)
      case Ok(_) => Ok(true)
      case Err(e) => Err(e)
  }

  /** How one exchange ends: the next verdict, or the error that ends `main`.
      It goes on exactly when `finish` succeeds and either the type is unknown
      or the request is read, and then the verdict is whether the type was known. */
  function RoundOutcome(reply: HostReply): (r: IoResult<bool>)
    ensures r.Ok? <==> reply.finishRc == 0 && (Classify(reply.nextRequestType) == UnknownType || reply.readRc == 0)
    ensures r.Ok? ==> (r.value <==> Classify(reply.nextRequestType) != UnknownType)
    ensures ToIoResult(reply.finishRc).Err? ==> r == Err(ToIoResult(reply.finishRc).error)
    ensures reply.finishRc == 0 ==> r == HandlerResult(reply)
  {
    match ToIoResult(reply.finishRc)
    case Err(e) => Err(e)
    case Ok(_) => HandlerResult(reply)
  }

  /** What the host observes of a run, and how `main` ends: `None` when the
      host stops sending replies, `Some(e)` when `main` returns the error `e`. */
  datatype EchoRun = EchoRun(rounds: seq<Round>, stop: Option<IoError>)

  /** The exchange the host sees when the verdict is `accept`: the finish
      record, and the read the handler makes if `finish` succeeded. */
  function RoundOf(reply: HostReply, accept: bool): (r: Round)
    ensures r.finish.acceptPreviousRequest == accept
    ensures |r.fetched| <= 1
    ensures r.fetched == [] <==> reply.finishRc != 0 || Classify(reply.nextRequestType) == UnknownType
  {
    Round(FinishArgs(accept, 0, 0), if reply.finishRc == 0 then HandlerReads(reply.nextRequestType) else [])
  }

  /** The run of the loop from verdict `accept`, given the host's replies: at
      most one round per reply, and at least one when there is a reply. */
  function Echo(script: seq<HostReply>, accept: bool): (run: EchoRun)
    ensures |run.rounds| <= |script|
    ensures run.rounds == [] <==> script == []
    decreases |script|
  {
    if script == [] then EchoRun([], None)
    else
      match RoundOutcome(script[0])
      case Err(e) => EchoRun([RoundOf(script[0], accept)], Some(e))
      case Ok(next) =>
        var rest := Echo(script[1..], next);
        EchoRun([RoundOf(script[0], accept)] + rest.rounds, rest.stop)
  }

  /** One pass of `main`'s loop body: `finish` with the verdict `accept` and a
      zeroed request, then dispatch on the request type. The result is the next
      verdict, or the error with which `main` returns. */
  method Exchange(rollup: Rollup, accept: bool) returns (outcome: IoResult<bool>)
    requires rollup.Valid() && rollup.script != []
    modifies rollup
    ensures rollup.Valid()
    ensures rollup.script == old(rollup.script)[1..] && rollup.current == Some(old(rollup.script)[0])
    ensures rollup.rounds == old(rollup.rounds) + [RoundOf(old(rollup.script)[0], accept)]
    ensures outcome == RoundOutcome(old(rollup.script)[0])
  {
    ghost var before := rollup.rounds;
    var finish := new FinishRecord(accept, 0, 0);
    var finished := rollup.Finish(finish);
    if finished.Err? {
      return Err(finished.error);
    }
    match Classify(finish.nextRequestType)
    case AdvanceState =>
      AddFirstRead(before, FinishArgs(accept, 0, 0), AdvanceRead);
      outcome := HandleAdvance(rollup);
    case InspectState =>
      AddFirstRead(before, FinishArgs(accept, 0, 0), InspectRead);
      outcome := HandleInspect(rollup);
    case UnknownType =>
      outcome := Ok(false);
  }

  /** `main`: start by accepting and repeat the exchange, each verdict feeding
      the next `finish`, until an error ends it. The source loops forever; here
      the loop ends when the host has no more replies. */
  method EchoMain(script: seq<HostReply>) returns (rollup: Rollup, stop: Option<IoError>)
    requires forall i :: 0 <= i < |script| ==> ValidReply(script[i])
    ensures rollup.rounds == Echo(script, true).rounds
    ensures stop == Echo(script, true).stop
  {
    var acceptPreviousRequest := true;
    rollup := new Rollup(script);
    while rollup.script != []
      invariant rollup.Valid()
      invariant rollup.rounds + Echo(rollup.script, acceptPreviousRequest).rounds == Echo(script, true).rounds
      invariant Echo(rollup.script, acceptPreviousRequest).stop == Echo(script, true).stop
      decreases |rollup.script|
    {
      ghost var remaining := rollup.script;
      ghost var before := rollup.rounds;
      var outcome := Exchange(rollup, acceptPreviousRequest);
      ghost var round := RoundOf(remaining[0], acceptPreviousRequest);
      if outcome.Err? {
        assert Echo(remaining, acceptPreviousRequest) == EchoRun([round], Some(outcome.error));
        return rollup, Some(outcome.error);
      }
      ghost var rest := Echo(rollup.script, outcome.value);
      assert Echo(remaining, acceptPreviousRequest) == EchoRun([round] + rest.rounds, rest.stop);
      assert rollup.rounds + rest.rounds == before + ([round] + rest.rounds);
      acceptPreviousRequest := outcome.value;
    }
    stop := None;
  }

  /** Every `finish` carries the current verdict with a zeroed request type and
      length: the initial verdict first, and afterwards exactly the previous
      handler's verdict, which is to accept after an advance or inspect and to
      reject after an unknown type. Each round reads exactly the request of its
      kind, and nothing after a failed `finish`. */
  lemma {:induction false} EchoRoundAt(script: seq<HostReply>, accept: bool, k: nat)
    requires k < |Echo(script, accept).rounds|
    ensures k < |script|
    ensures Echo(script, accept).rounds[k].finish ==
      FinishArgs(if k == 0 then accept else Classify(script[k - 1].nextRequestType) != UnknownType, 0, 0)
    ensures k > 0 ==>
      && HandlerResult(script[k - 1]).Ok?
      && Echo(script, accept).rounds[k].finish.acceptPreviousRequest == HandlerResult(script[k - 1]).value
    ensures Echo(script, accept).rounds[k].fetched ==
      if script[k].finishRc == 0 then HandlerReads(script[k].nextRequestType) else []
    decreases k
  {
    if k > 0 {
      var reply := script[0];
      var next := HandlerResult(reply).value;
      assert Echo(script, accept).rounds[k] == Echo(script[1..], next).rounds[k - 1];
      EchoRoundAt(script[1..], next, k - 1);
      if k > 1 {
        assert script[1..][k - 2] == script[k - 1];
      }
    }
  }

  /** The run stops at the first exchange whose `finish` or handler fails, with
      that error; every earlier exchange went through; and a run without an
      error consumes the whole script. */
  lemma {:induction false} EchoStops(script: seq<HostReply>, accept: bool)
    ensures var run := Echo(script, accept);
      && |run.rounds| <= |script|
      && (run.stop.None? ==> |run.rounds| == |script|)
      && (run.stop.Some? ==> |run.rounds| >= 1 && RoundOutcome(script[|run.rounds| - 1]) == Err(run.stop.value))
      && (forall k :: 0 <= k < |run.rounds| && (run.stop.None? || k < |run.rounds| - 1) ==> RoundOutcome(script[k]).Ok?)
    decreases |script|
  {
    if script != [] && RoundOutcome(script[0]).Ok? {
      var next := RoundOutcome(script[0]).value;
      EchoStops(script[1..], next);
      var run := Echo(script, accept);
      var rest := Echo(script[1..], next);
      assert run.rounds == [run.rounds[0]] + rest.rounds;
      forall k | 1 <= k < |run.rounds| ensures script[k] == script[1..][k - 1] { }
    }
  }
}
