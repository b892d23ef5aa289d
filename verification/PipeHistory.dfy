/**
 What each call of the pipe dispatcher does, told from what it had pending and what it was given
 (restricted-pipe-dispatch.ts).
 */
module PipeHistory {
  import opened Common
  import opened PipeDispatch

  /** The request may be sent: its text names this session and its own operation id, the id is well formed and
      not in flight, there is room for one more, and the frame is within the limit. */
  predicate Sendable(d: Dispatch, operationId: string, parsed: Option<Envelope>, byteLength: nat) {
    && parsed == Some(Envelope(true, Some(operationId)))
    && |operationId| == 36 && (forall c :: c in operationId ==> c in "0123456789abcdef-")
    && (forall p :: p in d.pending ==> p.operationId != operationId)
    && |d.pending| < d.bounds.maximumConcurrentRequests
    && byteLength <= d.bounds.maximumFrameBytes
  }

  lemma IdCharacter(c: char)
    ensures HexOrDash(c) <==> c in "0123456789abcdef-"
  {
    if '0' <= c <= '9' { assert "0123456789abcdef-"[c as int - '0' as int] == c; }
    if 'a' <= c <= 'f' { assert "0123456789abcdef-"[10 + (c as int - 'a' as int)] == c; }
    assert "0123456789abcdef-"[16] == '-';
  }

  lemma SendableIs(d: Dispatch, r: Request)
    ensures Admissible(d, r) <==> Sendable(d, r.operationId, r.parsed, r.byteLength)
  {
    hide HexOrDash;
    forall c ensures HexOrDash(c) <==> c in "0123456789abcdef-" { IdCharacter(c); }
    assert forall i :: 0 <= i < |r.operationId| ==> r.operationId[i] in r.operationId;
    FoundIsPending(d.pending, r.operationId);
  }

  lemma FoundIsPending(pending: seq<Request>, operationId: string)
    ensures Find(pending, operationId) == |pending| <==> forall p :: p in pending ==> p.operationId != operationId
  {
    var k := Find(pending, operationId);
    if k < |pending| { assert pending[k] in pending; }
  }

  /** The dispatcher gives up: everything in flight fails, and nothing is accepted any more. */
  predicate GaveUp(d: Dispatch, t: Dispatch, invalid: nat) {
    && !t.accepting && |t.pending| == 0 && t.invalid == d.invalid + invalid && t.bounds == d.bounds
    && t.settlements == d.settlements + FailAll(d.pending)
  }

  /**
   A submitted request fails at once when the dispatcher has stopped. Otherwise a sendable one is in flight
   from then on, unless writing it throws; every other one fails and takes everything in flight with it.
   */
  lemma SubmitIsExact(d: Dispatch, operationId: string, parsed: Option<Envelope>, byteLength: nat, writeThrew: bool)
    ensures var t := Step(d, Submit(operationId, parsed, byteLength, writeThrew));
            var r := Request(d.submitted, operationId, parsed, byteLength);
            var sendable := Sendable(d, operationId, parsed, byteLength);
            && t.submitted == d.submitted + 1 && t.broken == d.broken
            && if !d.accepting then
                 t == d.(submitted := d.submitted + 1, settlements := d.settlements + [Settlement(r, Failed)])
               else if sendable && !writeThrew then
                 t == d.(submitted := d.submitted + 1, pending := d.pending + [r])
               else if sendable then GaveUp(d.(pending := d.pending + [r]), t, 1)
               else GaveUp(d.(settlements := d.settlements + [Settlement(r, Failed)]), t, 1)
  {
    hide Sendable, Admissible;
    SendableIs(d, Request(d.submitted, operationId, parsed, byteLength));
    SameAdmission(d, Request(d.submitted, operationId, parsed, byteLength));
  }

  lemma SameAdmission(d: Dispatch, r: Request)
    ensures Admissible(d.(submitted := d.submitted + 1), r) <==> Admissible(d, r)
  {
  }

  /** The response answers request `k` of those in flight. */
  predicate AnswersRequest(d: Dispatch, v: Response, k: nat) {
    && k < |d.pending|
    && v.envelope == Envelope(true, Some(d.pending[k].operationId)) && v.byteLength <= d.bounds.maximumFrameBytes
  }

  /** A response that answers nothing in flight, or is too large, makes the dispatcher give up. */
  lemma ForeignResponseStops(d: Dispatch, v: Response, intact: bool)
    requires d.accepting && forall k: nat :: !AnswersRequest(d, v, k)
    ensures GaveUp(d, Step(d, Receive(v, intact)), 1) && Step(d, Receive(v, intact)).submitted == d.submitted
  {
    if v.envelope.matchesSession && v.envelope.operationId.Some? {
      var k := Find(d.pending, v.envelope.operationId.value);
      if k < |d.pending| { assert !AnswersRequest(d, v, k); }
    }
  }

  /** After a stop responses are ignored, and closing or failing again does nothing; before, both fail what is in
      flight, and only a failure is reported as invalid. */
  lemma StopIsExact(d: Dispatch, v: Response, intact: bool)
    ensures !d.accepting ==> Step(d, Receive(v, intact)) == d && Step(d, Close) == d && Step(d, Fail) == d
    ensures d.accepting ==> GaveUp(d, Step(d, Close), 0) && GaveUp(d, Step(d, Fail), 1)
  {
  }

  /** A new dispatcher with room for a request sends it and hands its response to it, and is then as new. */
  lemma FirstExchange(bounds: Bounds, operationId: string, byteLength: nat, v: Response)
    requires bounds.maximumConcurrentRequests > 0 && byteLength <= bounds.maximumFrameBytes
    requires |operationId| == 36 && forall c :: c in operationId ==> c in "0123456789abcdef-"
    requires v.envelope == Envelope(true, Some(operationId)) && v.byteLength <= bounds.maximumFrameBytes
    ensures var parsed := Some(Envelope(true, Some(operationId)));
            var t := Step(Step(Init(bounds), Submit(operationId, parsed, byteLength, false)), Receive(v, true));
            && t.accepting && |t.pending| == 0 && t.invalid == 0
            && t.settlements == [Settlement(Request(0, operationId, parsed, byteLength), Completed(v))]
  {
    hide Step, Sendable, Inv;
    var parsed := Some(Envelope(true, Some(operationId)));
    var d := Init(bounds);
    InitFacts(bounds, operationId, byteLength);
    SubmitIsExact(d, operationId, parsed, byteLength, false);
    StepKeeps(d, Submit(operationId, parsed, byteLength, false));
    ResponseCompletesItsRequest(Step(d, Submit(operationId, parsed, byteLength, false)), 0, v);
  }

  lemma InitFacts(bounds: Bounds, operationId: string, byteLength: nat)
    requires bounds.maximumConcurrentRequests > 0 && byteLength <= bounds.maximumFrameBytes
    requires |operationId| == 36 && forall c :: c in operationId ==> c in "0123456789abcdef-"
    ensures Sendable(Init(bounds), operationId, Some(Envelope(true, Some(operationId))), byteLength)
    ensures Inv(Init(bounds))
  {
    RunKeepsInvariant(bounds, []);
    assert After(Init(bounds), []) == Init(bounds);
  }
}
