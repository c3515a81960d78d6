/** The `Rollup` handle of src/rollup.rs seen from the application: `finish`
    hands the verdict on the previous request to the host and learns the next
    request; `read_advance_state` and `read_inspect_state` fetch it. The host
    runtime behind libcmt is replaced by a script of its replies, and the
    handle records every call the host receives. */
module RollupHost {
  import opened Prelude
  import opened CmtLib
  import opened RollupValues

  /** The contents of a `cmt_rollup_finish_t` at one moment. */
  datatype FinishArgs = FinishArgs(acceptPreviousRequest: bool, nextRequestType: int32, nextRequestPayloadLength: uint32)

  /** `cmt_rollup_finish_t`: the application writes its verdict, `finish` writes the next request's type and length. */
  class FinishRecord {
    var acceptPreviousRequest: bool
    var nextRequestType: int32
    var nextRequestPayloadLength: uint32

    constructor (accept: bool, requestType: int32, payloadLength: uint32)
      ensures Fields() == FinishArgs(accept, requestType, payloadLength)
    {
      acceptPreviousRequest := accept;
      nextRequestType := requestType;
      nextRequestPayloadLength := payloadLength;
    }

    function Fields(): FinishArgs
      reads this
    {
      FinishArgs(acceptPreviousRequest, nextRequestType, nextRequestPayloadLength)
    }
  }

  datatype RequestRead = AdvanceRead | InspectRead

  /** One exchange as the host saw it: the finish record it received, then the reads of the request that followed. */
  datatype Round = Round(finish: FinishArgs, fetched: seq<RequestRead>)

  /** The host's side of one exchange: the return code of `cmt_rollup_finish`,
      the next request's type and payload length, the return code of a read of
      that request, and the request record a read would fill in. */
  datatype HostReply = HostReply(
    finishRc: int32, nextRequestType: int32, nextRequestPayloadLength: uint32,
    readRc: int32, advance: CAdvance, inspect: CInspect)

  predicate ValidReply(r: HostReply) {
    Readable(r.advance.payload) && Readable(r.inspect.payload)
  }

  /** The rounds with one more read recorded in the latest round. */
  function AddRead(rounds: seq<Round>, read: RequestRead): (r: seq<Round>)
    requires rounds != []
    ensures |r| == |rounds| && r[..|r| - 1] == rounds[..|rounds| - 1]
    ensures r[|r| - 1].finish == rounds[|rounds| - 1].finish
    ensures r[|r| - 1].fetched == rounds[|rounds| - 1].fetched + [read]
  {
    var last := rounds[|rounds| - 1];
    rounds[..|rounds| - 1] + [Round(last.finish, last.fetched + [read])]
  }

  /** A read recorded right after a `finish` becomes that round's only read. */
  lemma AddFirstRead(before: seq<Round>, args: FinishArgs, read: RequestRead)
    ensures AddRead(before + [Round(args, [])], read) == before + [Round(args, [read])]
  {
    var rounds := before + [Round(args, [])];
    assert rounds[..|rounds| - 1] == before;
    assert rounds[|rounds| - 1].fetched + [read] == [read];
  }

  class Rollup {
    /** Replies the host has yet to give, one per `finish`. */
    var script: seq<HostReply>
    /** The reply to the latest `finish`, which reads of the request consult. */
    var current: Option<HostReply>
    /** Every exchange so far, oldest first. */
    var rounds: seq<Round>

    ghost predicate Valid()
      reads this
    {
      && (forall i :: 0 <= i < |script| ==> ValidReply(script[i]))
      && (current.Some? ==> ValidReply(current.value) && rounds != [])
    }

    constructor (script: seq<HostReply>)
      requires forall i :: 0 <= i < |script| ==> ValidReply(script[i])
      ensures Valid() && this.script == script && current == None && rounds == []
    {
      this.script := script;
      current := None;
      rounds := [];
    }

    /** `finish`: the host records the finish record it receives and answers
        with its next reply; on success the record then names the next request. */
    method Finish(finish: FinishRecord) returns (r: IoResult<()>)
      requires Valid() && script != []
      modifies this, finish
      ensures Valid()
      ensures script == old(script)[1..] && current == Some(old(script)[0])
      ensures rounds == old(rounds) + [Round(old(finish.Fields()), [])]
      ensures r == ToIoResult(old(script)[0].finishRc)
      ensures r.Ok? ==> finish.Fields() == FinishArgs(
        old(finish.acceptPreviousRequest), old(script)[0].nextRequestType, old(script)[0].nextRequestPayloadLength)
      ensures r.Err? ==> finish.Fields() == old(finish.Fields())
    {
      var reply := script[0];
      rounds := rounds + [Round(finish.Fields(), [])];
      script := script[1..];
      current := Some(reply);
      r := ToIoResult(reply.finishRc);
      if r.Ok? {
        finish.nextRequestType := reply.nextRequestType;
        finish.nextRequestPayloadLength := reply.nextRequestPayloadLength;
      }
    }

    /** `read_advance_state`: fails with the host's error code, or converts the advance record. */
    method ReadAdvanceState() returns (r: IoResult<Advance>)
      requires Valid() && current.Some?
      modifies this`rounds
      ensures Valid()
      ensures rounds == AddRead(old(rounds), AdvanceRead)
      ensures ToIoResult(current.value.readRc).Err? ==> r == Err(ToIoResult(current.value.readRc).error)
      ensures ToIoResult(current.value.readRc).Ok? ==> r == Ok(ConvertAdvance(current.value.advance))
    {
      rounds := AddRead(rounds, AdvanceRead);
      var rc := ToIoResult(current.value.readRc);
      if rc.Err? {
        return Err(rc.error);
      }
      r := Ok(ConvertAdvance(current.value.advance));
    }

    /** `read_inspect_state`: fails with the host's error code, or converts the inspect payload. */
    method ReadInspectState() returns (r: IoResult<Inspect>)
      requires Valid() && current.Some?
      modifies this`rounds
      ensures Valid()
      ensures rounds == AddRead(old(rounds), InspectRead)
      ensures ToIoResult(current.value.readRc).Err? ==> r == Err(ToIoResult(current.value.readRc).error)
      ensures ToIoResult(current.value.readRc).Ok? ==> r == Ok(InspectFromC(current.value.inspect))
    {
      rounds := AddRead(rounds, InspectRead);
      var rc := ToIoResult(current.value.readRc);
      if rc.Err? {
        return Err(rc.error);
      }
      r := Ok(InspectFromC(current.value.inspect));
    }
  }
}
