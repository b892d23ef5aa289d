/**
 Bounded in-flight routing on the host side of the pipe (restricted-pipe-dispatch.ts).

 Requests are numbered in the order they are submitted; the number is the identity of the
 request object. `complete` may throw, or invalidate the dispatcher that is calling it, as the
 worker does when a reply exceeds its body (restricted-process-worker.ts, lines 201-204); `fail`
 does neither.
 */
module PipeDispatch {
  import opened Common

  /** What JSON.parse makes of a text: whether it names this session, and its operation id. */
  datatype Envelope = Envelope(matchesSession: bool, operationId: Option<string>)

  datatype Request = Request(id: nat, operationId: string, parsed: Option<Envelope>, byteLength: nat)

  datatype Response = Response(envelope: Envelope, byteLength: nat, content: nat)

  datatype Outcome = Completed(response: Response) | Failed

  /** One call of `complete` or `fail`. */
  datatype Settlement = Settlement(request: Request, outcome: Outcome)

  datatype Bounds = Bounds(maximumFrameBytes: nat, maximumConcurrentRequests: nat)

  datatype Dispatch = Dispatch(
    bounds: Bounds,
    pending: seq<Request>,        // the map, in insertion order
    accepting: bool,
    settlements: seq<Settlement>,
    submitted: nat,
    invalid: nat,                 // calls of onInvalid
    broken: Option<nat>)          // the request whose `complete` threw or invalidated

  datatype Event =
    | Submit(operationId: string, parsed: Option<Envelope>, byteLength: nat, writeThrew: bool)
    | Receive(response: Response, intact: bool)  // whether `complete` returns normally, without invalidating
    | Close
    | Fail

  function Init(bounds: Bounds): Dispatch {
    Dispatch(bounds, [], true, [], 0, 0, None)
  }

  predicate HexOrDash(c: char) {
    '0' <= c <= '9' || 'a' <= c <= 'f' || c == '-'
  }

  predicate ValidOperationId(s: string) {
    |s| == 36 && forall i :: 0 <= i < |s| ==> HexOrDash(s[i])
  }

  /** Position of the pending request with this operation id, or |pending|. */
  function Find(pending: seq<Request>, operationId: string): (k: nat)
    ensures k <= |pending|
    ensures k < |pending| ==> pending[k].operationId == operationId
    ensures forall i :: 0 <= i < k ==> pending[i].operationId != operationId
  {
    if pending == [] then 0
    else if pending[0].operationId == operationId then 0
    else 1 + Find(pending[1..], operationId)
  }

  function FailAll(requests: seq<Request>): (r: seq<Settlement>)
    ensures |r| == |requests|
    ensures forall i :: 0 <= i < |r| ==> r[i] == Settlement(requests[i], Failed)
  {
    if requests == [] then [] else [Settlement(requests[0], Failed)] + FailAll(requests[1..])
  }

  function Stop(d: Dispatch): Dispatch {
    if !d.accepting then d
    else d.(accepting := false, pending := [], settlements := d.settlements + FailAll(d.pending))
  }

  function Invalidate(d: Dispatch): Dispatch {
    if !d.accepting then d else Stop(d).(invalid := d.invalid + 1)
  }

  function Settle(d: Dispatch, r: Request, outcome: Outcome): Dispatch {
    d.(settlements := d.settlements + [Settlement(r, outcome)])
  }

  /** Lines 71-78. */
  predicate Admissible(d: Dispatch, r: Request) {
    && r.parsed.Some? && r.parsed.value.matchesSession
    && r.parsed.value.operationId == Some(r.operationId)
    && ValidOperationId(r.operationId)
    && Find(d.pending, r.operationId) == |d.pending|
    && |d.pending| < d.bounds.maximumConcurrentRequests
    && r.byteLength <= d.bounds.maximumFrameBytes
  }

  function SubmitRequest(d: Dispatch, r: Request, writeThrew: bool): Dispatch {
    if !d.accepting then Settle(d, r, Failed)
    else if !Admissible(d, r) then Invalidate(Settle(d, r, Failed))
    else
      var t := d.(pending := d.pending + [r]);
      if writeThrew then Invalidate(t) else t
  }

  /** `complete` throws, or invalidates the dispatcher itself: the request is still in the map when
      everything in it is failed. */
  function Break(d: Dispatch, r: Request, v: Response): Dispatch {
    Invalidate(Settle(d, r, Completed(v))).(broken := Some(r.id))
  }

  function ReceiveResponse(d: Dispatch, v: Response, intact: bool): Dispatch {
    if !d.accepting then d
    else if !v.envelope.matchesSession || v.envelope.operationId.None? then Invalidate(d)
    else
      var k := Find(d.pending, v.envelope.operationId.value);
      if k == |d.pending| || v.byteLength > d.bounds.maximumFrameBytes then Invalidate(d)
      else if !intact then Break(d, d.pending[k], v)
      else Settle(d, d.pending[k], Completed(v)).(pending := d.pending[..k] + d.pending[k + 1..])
  }

  function Step(d: Dispatch, e: Event): Dispatch {
    match e
    case Submit(operationId, parsed, byteLength, writeThrew) =>
      SubmitRequest(d.(submitted := d.submitted + 1), Request(d.submitted, operationId, parsed, byteLength), writeThrew)
    case Receive(response, intact) => ReceiveResponse(d, response, intact)
    case Close => Stop(d)
    case Fail => Invalidate(d)
  }

  // ---------- invariant ----------

  /** How many pending requests, and how many settlements, have this request number. */
  function PendingCount(requests: seq<Request>, id: nat): nat {
    if requests == [] then 0
    else (if requests[0].id == id then 1 else 0) + PendingCount(requests[1..], id)
  }

  function SettledCount(settlements: seq<Settlement>, id: nat): nat {
    if settlements == [] then 0
    else (if settlements[0].request.id == id then 1 else 0) + SettledCount(settlements[1..], id)
  }

  /** A submitted request is in exactly one place, and nothing else is anywhere; only a request whose
      `complete` was broken off is settled once more. */
  predicate Accounted(d: Dispatch, id: nat) {
    PendingCount(d.pending, id) + SettledCount(d.settlements, id) ==
    (if id < d.submitted then 1 else 0) + if d.broken == Some(id) then 1 else 0
  }

  /** A completion carries the response of this session with the operation id of its request. */
  predicate SettlementOk(bounds: Bounds, s: Settlement) {
    s.outcome.Completed? ==>
      && s.outcome.response.envelope == Envelope(true, Some(s.request.operationId))
      && s.outcome.response.byteLength <= bounds.maximumFrameBytes
  }

  ghost predicate Inv(d: Dispatch) {
    && (forall id: nat :: Accounted(d, id))
    && |d.pending| <= d.bounds.maximumConcurrentRequests
    && (!d.accepting ==> d.pending == [])
    && (d.broken.Some? ==> !d.accepting && d.broken.value < d.submitted)
    && (forall i, j :: 0 <= i < j < |d.pending| ==> d.pending[i].operationId != d.pending[j].operationId)
    && (forall i :: 0 <= i < |d.settlements| ==> SettlementOk(d.bounds, d.settlements[i]))
  }

  lemma {:induction false} PendingAppend(a: seq<Request>, b: seq<Request>, id: nat)
    ensures PendingCount(a + b, id) == PendingCount(a, id) + PendingCount(b, id)
  {
    if a == [] {
      assert a + b == b;
    } else {
      PendingAppend(a[1..], b, id);
      assert (a + b)[1..] == a[1..] + b;
    }
  }

  lemma {:induction false} SettledAppend(a: seq<Settlement>, b: seq<Settlement>, id: nat)
    ensures SettledCount(a + b, id) == SettledCount(a, id) + SettledCount(b, id)
  {
    if a == [] {
      assert a + b == b;
    } else {
      SettledAppend(a[1..], b, id);
      assert (a + b)[1..] == a[1..] + b;
    }
  }

  lemma {:induction false} FailAllCount(requests: seq<Request>, id: nat)
    ensures SettledCount(FailAll(requests), id) == PendingCount(requests, id)
  {
    if requests != [] {
      FailAllCount(requests[1..], id);
      assert FailAll(requests)[1..] == FailAll(requests[1..]);
    }
  }

  lemma SettleCount(d: Dispatch, r: Request, outcome: Outcome, id: nat)
    ensures SettledCount(Settle(d, r, outcome).settlements, id) ==
            SettledCount(d.settlements, id) + if r.id == id then 1 else 0
  {
    SettledAppend(d.settlements, [Settlement(r, outcome)], id);
  }

  /** Stopping moves every pending request to the settlements. */
  lemma StopKeeps(d: Dispatch)
    requires forall id: nat :: Accounted(d, id)
    requires forall i :: 0 <= i < |d.settlements| ==> SettlementOk(d.bounds, d.settlements[i])
    requires d.accepting && d.broken.None?
    ensures Inv(Stop(d)) && Inv(Invalidate(d))
  {
    forall id: nat ensures Accounted(Stop(d), id) && Accounted(Invalidate(d), id) {
      assert Accounted(d, id);
      SettledAppend(d.settlements, FailAll(d.pending), id);
      FailAllCount(d.pending, id);
    }
  }

  lemma RefuseKeeps(d: Dispatch, r: Request)
    requires Inv(d) && r.id == d.submitted
    ensures var t := Settle(d.(submitted := d.submitted + 1), r, Failed); forall id: nat :: Accounted(t, id)
  {
    var t := Settle(d.(submitted := d.submitted + 1), r, Failed);
    forall id: nat ensures Accounted(t, id) {
      assert Accounted(d, id);
      SettleCount(d, r, Failed, id);
    }
  }

  lemma AdmitKeeps(d: Dispatch, r: Request)
    requires Inv(d) && r.id == d.submitted && d.accepting && Admissible(d, r)
    ensures Inv(d.(submitted := d.submitted + 1, pending := d.pending + [r]))
  {
    var t := d.(submitted := d.submitted + 1, pending := d.pending + [r]);
    forall id: nat ensures Accounted(t, id) {
      assert Accounted(d, id);
      PendingAppend(d.pending, [r], id);
    }
  }

  lemma SubmitKeeps(d: Dispatch, r: Request, writeThrew: bool)
    requires Inv(d) && r.id == d.submitted
    ensures Inv(SubmitRequest(d.(submitted := d.submitted + 1), r, writeThrew))
  {
    var d1 := d.(submitted := d.submitted + 1);
    RefuseKeeps(d, r);
    if d.accepting {
      if !Admissible(d1, r) {
        hide Accounted, Invalidate;
        StopKeeps(Settle(d1, r, Failed));
      } else {
        hide Accounted, Invalidate;
        AdmitKeeps(d, r);
        if writeThrew { StopKeeps(d1.(pending := d.pending + [r])); }
      }
    }
  }

  lemma CompleteKeeps(d: Dispatch, k: nat, v: Response)
    requires Inv(d) && d.accepting && k < |d.pending|
    requires v.envelope == Envelope(true, Some(d.pending[k].operationId))
    requires v.byteLength <= d.bounds.maximumFrameBytes
    ensures Inv(Settle(d, d.pending[k], Completed(v)).(pending := d.pending[..k] + d.pending[k + 1..]))
  {
    var t := Settle(d, d.pending[k], Completed(v)).(pending := d.pending[..k] + d.pending[k + 1..]);
    forall id: nat ensures Accounted(t, id) {
      assert Accounted(d, id);
      SettleCount(d, d.pending[k], Completed(v), id);
      var rest := [d.pending[k]] + d.pending[k + 1..];
      assert d.pending == d.pending[..k] + rest && rest[1..] == d.pending[k + 1..];
      PendingAppend(d.pending[..k], rest, id);
      PendingAppend(d.pending[..k], d.pending[k + 1..], id);
    }
  }

  lemma BreakKeeps(d: Dispatch, k: nat, v: Response)
    requires Inv(d) && d.accepting && k < |d.pending|
    requires v.envelope == Envelope(true, Some(d.pending[k].operationId))
    requires v.byteLength <= d.bounds.maximumFrameBytes
    ensures Inv(Break(d, d.pending[k], v))
    ensures SettledCount(Break(d, d.pending[k], v).settlements, d.pending[k].id) == 2
  {
    var r := d.pending[k];
    var completed := Settle(d, r, Completed(v));
    var t := Break(d, r, v);
    IsPending(d.pending, k);
    assert Accounted(d, r.id);
    forall id: nat ensures Accounted(t, id) {
      assert Accounted(d, id);
      SettleCount(d, r, Completed(v), id);
      SettledAppend(completed.settlements, FailAll(d.pending), id);
      FailAllCount(d.pending, id);
    }
    assert Accounted(t, r.id) && PendingCount([], r.id) == 0;
  }

  lemma {:induction false} IsPending(requests: seq<Request>, k: nat)
    requires k < |requests|
    ensures PendingCount(requests, requests[k].id) > 0
  {
    if k > 0 { IsPending(requests[1..], k - 1); }
  }

  lemma ReceiveKeeps(d: Dispatch, v: Response, intact: bool)
    requires Inv(d)
    ensures Inv(ReceiveResponse(d, v, intact))
  {
    hide Inv, Invalidate, Break;
    StoppingKeeps(d);
    if d.accepting && v.envelope.matchesSession && v.envelope.operationId.Some? {
      var k := Find(d.pending, v.envelope.operationId.value);
      if k < |d.pending| && v.byteLength <= d.bounds.maximumFrameBytes {
        if intact { CompleteKeeps(d, k, v); } else { BreakKeeps(d, k, v); }
      }
    }
  }

  lemma StoppingKeeps(d: Dispatch)
    requires Inv(d)
    ensures Inv(Stop(d)) && Inv(Invalidate(d))
  {
    if d.accepting { StopKeeps(d); }
  }

  /** Every step keeps the invariant. */
  lemma StepKeeps(d: Dispatch, e: Event)
    requires Inv(d)
    ensures Inv(Step(d, e))
  {
    hide Inv, SubmitRequest, ReceiveResponse, Stop, Invalidate;
    match e
    case Submit(operationId, parsed, byteLength, writeThrew) =>
      SubmitKeeps(d, Request(d.submitted, operationId, parsed, byteLength), writeThrew);
    case Receive(response, intact) => ReceiveKeeps(d, response, intact);
    case _ => StoppingKeeps(d);
  }

  // ---------- whole runs ----------

  function After(d: Dispatch, events: seq<Event>): Dispatch
    decreases |events|
  {
    if events == [] then d else Step(After(d, events[..|events| - 1]), events[|events| - 1])
  }

  lemma {:induction false} RunKeepsInvariant(bounds: Bounds, events: seq<Event>)
    ensures Inv(After(Init(bounds), events))
    decreases |events|
  {
    if events != [] {
      RunKeepsInvariant(bounds, events[..|events| - 1]);
      StepKeeps(After(Init(bounds), events[..|events| - 1]), events[|events| - 1]);
    }
  }

  lemma {:induction false} BoundsAreFixed(bounds: Bounds, events: seq<Event>)
    ensures After(Init(bounds), events).bounds == bounds
    decreases |events|
  {
    if events != [] { BoundsAreFixed(bounds, events[..|events| - 1]); }
  }

  /** In every run a submitted request is pending or settled, never both, and after a stop it is
      settled; it is settled twice exactly when its own `complete` was broken off, which happens to
      at most one request; a completed request got the response to its own id. */
  lemma EveryRequestSettlesOnce(bounds: Bounds, events: seq<Event>, id: nat)
    requires id < After(Init(bounds), events).submitted
    ensures var d := After(Init(bounds), events);
            && PendingCount(d.pending, id) + SettledCount(d.settlements, id) == (if d.broken == Some(id) then 2 else 1)
            && (!d.accepting ==> SettledCount(d.settlements, id) == if d.broken == Some(id) then 2 else 1)
            && |d.pending| <= bounds.maximumConcurrentRequests
            && forall i :: 0 <= i < |d.settlements| ==> SettlementOk(bounds, d.settlements[i])
  {
    RunKeepsInvariant(bounds, events);
    BoundsAreFixed(bounds, events);
    assert Accounted(After(Init(bounds), events), id);
  }

  /** While every `complete` returns and leaves the dispatcher alone, nothing is ever settled twice. */
  lemma {:induction false} NothingBroken(bounds: Bounds, events: seq<Event>)
    requires forall e :: e in events && e.Receive? ==> e.intact
    ensures After(Init(bounds), events).broken.None?
    decreases |events|
  {
    hide Admissible;
    if events != [] {
      NothingBroken(bounds, events[..|events| - 1]);
      assert events[|events| - 1] in events;
    }
  }

  /** A response whose `complete` is broken off settles its request twice, first as completed, and stops. */
  lemma BrokenIsSettledTwice(d: Dispatch, k: nat, v: Response)
    requires Inv(d) && k < |d.pending|
    requires v.envelope == Envelope(true, Some(d.pending[k].operationId))
    requires v.byteLength <= d.bounds.maximumFrameBytes
    ensures var t := Step(d, Receive(v, false));
            && !t.accepting && t.pending == [] && t.broken == Some(d.pending[k].id) && t.invalid == d.invalid + 1
            && t.settlements == d.settlements + [Settlement(d.pending[k], Completed(v))] + FailAll(d.pending)
            && SettledCount(t.settlements, d.pending[k].id) == 2
  {
    assert Find(d.pending, d.pending[k].operationId) == k;
    BreakKeeps(d, k, v);
  }

  ghost predicate Extends(d: Dispatch, t: Dispatch) {
    && d.settlements <= t.settlements
    && (!d.accepting ==> !t.accepting && t.invalid == d.invalid && t.pending == d.pending && t.broken == d.broken)
  }

  lemma StopExtends(d: Dispatch)
    ensures Extends(d, Stop(d)) && Extends(d, Invalidate(d))
  {
  }

  lemma StepExtends(d: Dispatch, e: Event)
    ensures Extends(d, Step(d, e))
  {
    hide Stop, Invalidate, Admissible;
    StopExtends(d);
    if e.Submit? {
      var d1 := d.(submitted := d.submitted + 1);
      var r := Request(d.submitted, e.operationId, e.parsed, e.byteLength);
      StopExtends(Settle(d1, r, Failed));
      StopExtends(d1.(pending := d.pending + [r]));
    } else if e.Receive? && e.response.envelope.operationId.Some? {
      var k := Find(d.pending, e.response.envelope.operationId.value);
      if k < |d.pending| { StopExtends(Settle(d, d.pending[k], Completed(e.response))); }
    }
  }

  /** Stopping is final: no later event makes the dispatcher accept or hold a request again,
      and the settlements made so far stay as they are. */
  lemma {:induction false} StopIsFinal(d: Dispatch, events: seq<Event>)
    ensures Extends(d, After(d, events))
    decreases |events|
  {
    hide Step;
    if events != [] {
      StopIsFinal(d, events[..|events| - 1]);
      StepExtends(After(d, events[..|events| - 1]), events[|events| - 1]);
    }
  }

  /** A response in bounds completes exactly the pending request with its operation id and
      leaves the other pending requests in place. */
  lemma ResponseCompletesItsRequest(d: Dispatch, k: nat, v: Response)
    requires Inv(d) && k < |d.pending|
    requires v.envelope == Envelope(true, Some(d.pending[k].operationId))
    requires v.byteLength <= d.bounds.maximumFrameBytes
    ensures var t := Step(d, Receive(v, true));
            && t.accepting && t.submitted == d.submitted && t.invalid == d.invalid && t.broken == d.broken
            && t.settlements == d.settlements + [Settlement(d.pending[k], Completed(v))]
            && t.pending == d.pending[..k] + d.pending[k + 1..]
  {
    assert Find(d.pending, d.pending[k].operationId) == k;
  }

  /** Submitting an admissible request and then receiving its response completes it once and
      leaves everything else as it was. */
  lemma ExchangeRoundTrip(d: Dispatch, r: Request, v: Response)
    requires Inv(d) && d.accepting && Admissible(d, r) && r.id == d.submitted
    requires v.envelope == Envelope(true, Some(r.operationId)) && v.byteLength <= d.bounds.maximumFrameBytes
    ensures var t := Step(Step(d, Submit(r.operationId, r.parsed, r.byteLength, false)), Receive(v, true));
            t == Settle(d, r, Completed(v)).(submitted := d.submitted + 1)
  {
    var t := Step(d, Submit(r.operationId, r.parsed, r.byteLength, false));
    AdmitKeeps(d, r);
    var k := |d.pending|;
    ResponseCompletesItsRequest(t, k, v);
    assert t.pending[..k] + t.pending[k + 1..] == d.pending;
  }

  // ---------- the dispatcher object ----------

  class RestrictedPipeDispatch {
    const bounds: Bounds
    var pending: seq<Request>
    var accepting: bool
    var settlements: seq<Settlement>
    var submitted: nat
    var invalid: nat
    var broken: Option<nat>

    function State(): Dispatch
      reads this
    {
      Dispatch(bounds, pending, accepting, settlements, submitted, invalid, broken)
    }

    constructor (limits: Bounds)
      requires 1 <= limits.maximumFrameBytes <= 32 * 1024 * 1024
      requires 1 <= limits.maximumConcurrentRequests <= 16
      ensures State() == Init(limits) && Inv(State())
    {
      bounds := limits;
      pending, accepting, settlements, submitted, invalid, broken := [], true, [], 0, 0, None;
    }

    method StopAll()
      modifies this
      ensures State() == Stop(old(State()))
    {
      hide FailAll;
      if !accepting { return; }
      accepting := false;
      var requests := pending;
      pending := [];
      var n := 0;
      while n < |requests|
        invariant 0 <= n <= |requests|
        invariant settlements == old(settlements) + FailAll(requests)[..n]
        invariant !accepting && pending == [] && submitted == old(submitted) && invalid == old(invalid)
        invariant broken == old(broken)
      {
        assert FailAll(requests)[..n + 1] == FailAll(requests)[..n] + [Settlement(requests[n], Failed)];
        settlements := settlements + [Settlement(requests[n], Failed)];
        n := n + 1;
      }
      assert FailAll(requests)[..n] == FailAll(requests);
    }

    method InvalidateAll()
      modifies this
      ensures State() == Invalidate(old(State()))
    {
      if !accepting { return; }
      StopAll();
      invalid := invalid + 1;
    }

    method Submit(operationId: string, parsed: Option<Envelope>, byteLength: nat, writeThrew: bool)
      requires Inv(State())
      modifies this
      ensures Inv(State()) && State() == Step(old(State()), Event.Submit(operationId, parsed, byteLength, writeThrew))
    {
      StepKeeps(State(), Event.Submit(operationId, parsed, byteLength, writeThrew));
      hide Stop, Invalidate, Inv, Admissible;
      var request := Request(submitted, operationId, parsed, byteLength);
      submitted := submitted + 1;
      if !accepting {
        settlements := settlements + [Settlement(request, Failed)];
        return;
      }
      if !Admissible(State(), request) {
        settlements := settlements + [Settlement(request, Failed)];
        InvalidateAll();
        return;
      }
      pending := pending + [request];
      if writeThrew { InvalidateAll(); }
    }

    method Receive(response: Response, intact: bool)
      requires Inv(State())
      modifies this
      ensures Inv(State()) && State() == Step(old(State()), Event.Receive(response, intact))
    {
      StepKeeps(State(), Event.Receive(response, intact));
      hide Stop, Invalidate, Inv;
      if !accepting { return; }
      if !response.envelope.matchesSession || response.envelope.operationId.None? {
        InvalidateAll();
        return;
      }
      var k := Find(pending, response.envelope.operationId.value);
      if k == |pending| || response.byteLength > bounds.maximumFrameBytes {
        InvalidateAll();
        return;
      }
      settlements := settlements + [Settlement(pending[k], Completed(response))];
      if !intact {
        broken := Some(pending[k].id);
        InvalidateAll();
        return;
      }
      pending := pending[..k] + pending[k + 1..];
    }

    method Close()
      requires Inv(State())
      modifies this
      ensures Inv(State()) && State() == Step(old(State()), Event.Close)
    {
      StoppingKeeps(State());
      StopAll();
    }

    method Fail()
      requires Inv(State())
      modifies this
      ensures Inv(State()) && State() == Step(old(State()), Event.Fail)
    {
      StoppingKeeps(State());
      InvalidateAll();
    }

    /** Whatever happens next, the object takes the step of the run lemmas. */
    method Perform(e: Event)
      requires Inv(State())
      modifies this
      ensures Inv(State()) && State() == Step(old(State()), e)
    {
      hide Inv, Step;
      match e
      case Submit(operationId, parsed, byteLength, writeThrew) => Submit(operationId, parsed, byteLength, writeThrew);
      case Receive(response, intact) => Receive(response, intact);
      case Close => Close();
      case Fail => Fail();
    }
  }
}
