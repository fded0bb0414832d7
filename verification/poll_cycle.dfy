/**
 One pass of a device task's polling loop: perform the request, and when it
 succeeded with a captured body, drive the relay to whether the buffer's C
 string (the last accepted chunk's) is "1"; in every case lower the flag and
 zero the buffer afterwards. The fan, humidifier and freshener tasks run the
 same body up to their URL, log tag and relay function.
 */
module PollCycle {
  import opened CString
  import opened Options
  import opened HttpCapture

  /** What `esp_http_client_perform` returns: ESP_OK or any other (error)
      code. The loop only tests for ESP_OK, so which error it was is not kept. */
  datatype Transport = Ok | Error

  /** The payload literal "1". */
  const One: seq<byte> := [AsciiOne]

  /**
   The relay decision: a relay call only when the request succeeded and a
   body was captured, and then the relay is switched on exactly when the
   buffer's first byte is '1' and its second is the terminator.
   */
  function Decide(err: Transport, c: Capture): (call: Option<bool>)
    ensures call.Some? <==> err.Ok? && c.received
    ensures call.Some? ==>
              (call.value <==>
                 |c.buffer| >= 1 && c.buffer[0] == AsciiOne && (|c.buffer| == 1 || c.buffer[1] == Nul))
  {
    CStrIsOne(c.buffer);
    if err.Ok? && c.received then Some(CStr(c.buffer) == One) else None
  }

  /** The outcome of one cycle: the relay call made (if any), the relay's
      level afterwards, and the capture state left for the next cycle. */
  datatype CycleResult = CycleResult(relayCall: Option<bool>, relay: bool, capture: Capture)

  /**
   One loop iteration. The request delivers `evs` to the callback and then
   returns `err`. At most one relay call is made; without one the relay keeps
   its level. Whatever happened, the flag ends down and the buffer all zero.
   */
  function Cycle(c: Capture, evs: seq<HttpEvent>, err: Transport, relay: bool): (r: CycleResult)
    requires |c.buffer| == BufSize
    ensures r.capture == Cleared
    ensures r.relayCall.None? ==> r.relay == relay
    ensures r.relayCall.Some? ==> r.relay == r.relayCall.value
    ensures r.relayCall.Some? <==> err.Ok? && (c.received || LastAccepted(evs).Some?)
    ensures r.relayCall.Some? && LastAccepted(evs).Some? ==>
              (r.relayCall.value <==> CStr(LastAccepted(evs).value) == One)
    ensures r.relayCall.Some? && LastAccepted(evs).None? ==>
              (r.relayCall.value <==> CStr(c.buffer) == One)
  {
    DeliverKeepsLastChunk(c, evs);
    var call := Decide(err, Deliver(c, evs));
    var relay' := match call case Some(v) => v case None => relay;
    CycleResult(call, relay', Cleared)
  }

  /** One request as the server and transport resolve it. */
  datatype Request = Request(events: seq<HttpEvent>, result: Transport)

  /** What a request asks of the relay, read off the response itself. */
  function RequestDecision(req: Request): Option<bool>
  {
    match LastAccepted(req.events)
    case Some(ch) => if req.result.Ok? then Some(CStr(ch) == One) else None
    case None => None
  }

  /** The decision of the last request that made one, if any. */
  function LastDecision(reqs: seq<Request>): Option<bool>
    decreases |reqs|
  {
    if |reqs| == 0 then None
    else match LastDecision(reqs[1..])
      case Some(v) => Some(v)
      case None => RequestDecision(reqs[0])
  }

  /**
   The relay level after a run of cycles of the `while (1)` loop. Each pass
   starts from the capture state the previous pass left, which is the cleared
   state: only the first pass can see a capture other than `Cleared`, so every
   later pass is decided by its own response alone. The relay ends at the
   last such decision, or where the first pass left it if there is none.
   */
  function Poll(c: Capture, relay: bool, reqs: seq<Request>): (r: bool)
    requires |c.buffer| == BufSize
    ensures |reqs| == 0 ==> r == relay
    ensures |reqs| > 0 ==>
              r == (match LastDecision(reqs[1..])
                    case Some(v) => v
                    case None => Cycle(c, reqs[0].events, reqs[0].result, relay).relay)
    decreases |reqs|
  {
    if |reqs| == 0 then relay
    else
      var r := Cycle(c, reqs[0].events, reqs[0].result, relay);
      Poll(r.capture, r.relay, reqs[1..])
  }

  /**
   Because every cycle clears the capture, no body leaks from one cycle into
   the next: from the cleared state, the relay ends at the decision of the
   last request that made one, and keeps its initial level if none did.
   */
  lemma PollFollowsLastDecision(relay: bool, reqs: seq<Request>)
    ensures Poll(Cleared, relay, reqs) ==
              (match LastDecision(reqs) case Some(v) => v case None => relay)
  {
  }

  /** Not fail-safe on transport errors: while every request fails, the
      relay holds the level it had. */
  lemma TransportFailureHoldsRelay(relay: bool, reqs: seq<Request>)
    requires forall i :: 0 <= i < |reqs| ==> !reqs[i].result.Ok?
    ensures Poll(Cleared, relay, reqs) == relay
  {
    NoDecisionOnFailures(reqs);
    PollFollowsLastDecision(relay, reqs);
  }

  /** Requests that all failed in transport make no decision. */
  lemma {:induction false} NoDecisionOnFailures(reqs: seq<Request>)
    requires forall i :: 0 <= i < |reqs| ==> !reqs[i].result.Ok?
    ensures LastDecision(reqs).None?
    decreases |reqs|
  {
    if |reqs| > 0 {
      assert forall i :: 0 <= i < |reqs[1..]| ==> reqs[1..][i] == reqs[i + 1];
      NoDecisionOnFailures(reqs[1..]);
    }
  }

  /**
   A successful request whose body arrives as one accepted chunk sets the
   relay exactly once, to whether the body's string is "1".
   */
  lemma SingleChunk(p: seq<byte>, relay: bool)
    requires Accepted(p)
    ensures Cycle(Cleared, [OnData(p)], Ok, relay).relayCall == Some(CStr(p) == One)
  {
    assert LastAccepted([OnData(p)]) == Some(p);
  }

  /** For a body sent as one accepted ON_DATA chunk (fewer than 1023 bytes)
      with no NUL bytes, the relay goes on exactly when the chunk is "1". */
  lemma SingleTextChunk(p: seq<byte>, relay: bool)
    requires Accepted(p) && Nul !in p
    ensures Cycle(Cleared, [OnData(p)], Ok, relay).relayCall == Some(p == One)
  {
    SingleChunk(p, relay);
    UpToNoStop(p, Nul);
  }

  /**
   A body split over two accepted ON_DATA chunks is decided by the second
   chunk alone: it overwrites the first in the buffer.
   */
  lemma SplitBodyLastChunkDecides(a: seq<byte>, b: seq<byte>, relay: bool)
    requires Accepted(a) && Accepted(b)
    ensures Cycle(Cleared, [OnData(a), OnData(b)], Ok, relay).relayCall == Some(CStr(b) == One)
  {
    assert [OnData(a), OnData(b)][1..] == [OnData(b)];
    assert LastAccepted([OnData(b)]) == Some(b);
  }

  /** A single ON_DATA chunk that fails the length test is no update: no
      relay call, relay unchanged. */
  lemma OversizedBody(p: seq<byte>, relay: bool)
    requires !Accepted(p)
    ensures Cycle(Cleared, [OnData(p)], Ok, relay).relayCall == None
    ensures Cycle(Cleared, [OnData(p)], Ok, relay).relay == relay
  {
    assert LastAccepted([OnData(p)]) == None;
  }

  /**
   Concrete bodies: "1" switches on; "0", "", "1\n" and " 1" switch off;
   "1" followed by a NUL and more bytes switches on, since the comparison
   stops at the terminator.
   */
  lemma PayloadExamples(relay: bool)
    ensures Cycle(Cleared, [OnData([0x31])], Ok, relay).relay
    ensures !Cycle(Cleared, [OnData([0x30])], Ok, relay).relay
    ensures !Cycle(Cleared, [OnData([])], Ok, relay).relay
    ensures !Cycle(Cleared, [OnData([0x31, 0x0A])], Ok, relay).relay
    ensures !Cycle(Cleared, [OnData([0x20, 0x31])], Ok, relay).relay
    ensures Cycle(Cleared, [OnData([0x31, 0x00, 0x37])], Ok, relay).relay
  {
    SingleChunk([0x31], relay);
    UpToNoStop<byte>([0x31], Nul);
    SingleChunk([0x30], relay);
    UpToNoStop<byte>([0x30], Nul);
    SingleChunk([], relay);
    SingleChunk([0x31, 0x0A], relay);
    UpToNoStop<byte>([0x31, 0x0A], Nul);
    SingleChunk([0x20, 0x31], relay);
    UpToNoStop<byte>([0x20, 0x31], Nul);
    SingleChunk([0x31, 0x00, 0x37], relay);
    UpToTerminated<byte>([0x31], Nul, [0x37]);
  }
}
