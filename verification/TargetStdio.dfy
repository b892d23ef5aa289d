/**
 The stdio service loop inside the target (restricted-target-stdio.ts, runRestrictedTargetStdio).

 Every frame the service may write has a writer: writer 0 is the ready frame, writer n > 0 the
 n-th admitted request. Timers, streams and the operation handler appear as events; an event
 is one synchronous run of the code.
 */
module TargetStdio {
  datatype Reason = Shutdown | Eof | Deadline | Idle | Invalid

  /** What a writer does when its continuation runs. */
  datatype Next = Retry | Conclude | Abort

  datatype Phase =
    | Handling                 // the handler's promise is pending
    | Waiting(retry: bool)     // its resolver is in drainWaiters
    | Released(next: Next)     // resolved, its continuation has not run
    | Done

  datatype Write = Accepted | Full | Threw

  datatype Handled =
    | Pending
    | HandlerThrew
    | Responded(fits: bool, write: Write)

  datatype Event =
    | ShutdownFrame(serviceThrew: bool)
    | RequestFrame(handled: Handled, serviceThrew: bool)
    | HandlerResolved(i: nat, fits: bool, write: Write, serviceThrew: bool)
    | HandlerRejected(i: nat, serviceThrew: bool)
    | Drain
    | Continue(i: nat, write: Write, serviceThrew: bool)
    | CloseFor(reason: Reason, serviceThrew: bool)

  datatype Service = Service(
    maximum: nat,
    closed: bool,
    pending: nat,
    writeBlocked: bool,
    paused: bool,
    drainWaiters: set<nat>,
    reason: Reason,
    resolved: seq<Reason>,  // every resolution of the returned promise
    writers: seq<Phase>,
    written: seq<nat>)      // the writers whose frame was given to stdout, in order

  /** State after start-up; `accepted` is the result of writing the ready frame. */
  function Init(maximum: nat, accepted: bool): Service {
    if accepted then Service(maximum, false, 0, false, false, {}, Invalid, [], [Done], [0])
    else Service(maximum, false, 0, true, true, {0}, Invalid, [], [Waiting(false)], [0])
  }

  // ---------- the closures of the source ----------

  /** Resolving every waiter: each one keeps what it was waiting to do. */
  function ReleaseAll(writers: seq<Phase>): (r: seq<Phase>)
    ensures |r| == |writers|
    ensures forall i :: 0 <= i < |r| ==>
              r[i] == if writers[i].Waiting? then Released(if writers[i].retry then Retry else Conclude) else writers[i]
  {
    seq(|writers|, i requires 0 <= i < |writers| =>
      if writers[i].Waiting? then Released(if writers[i].retry then Retry else Conclude) else writers[i])
  }

  function CloseWith(s: Service, reason: Reason, serviceThrew: bool): Service {
    if s.closed then s
    else
      var final := if serviceThrew then Invalid else reason;
      s.(closed := true, reason := final, drainWaiters := {}, writers := ReleaseAll(s.writers), paused := true,
         resolved := if s.pending == 0 then s.resolved + [final] else s.resolved)
  }

  function Complete(s: Service, i: nat): Service
    requires i < |s.writers| && s.pending > 0
  {
    var t := s.(pending := s.pending - 1, writers := s.writers[i := Done]);
    if t.closed && t.pending == 0 then t.(resolved := t.resolved + [t.reason])
    else if !t.closed && !t.writeBlocked && t.pending < t.maximum then t.(paused := false)
    else t
  }

  function Wait(s: Service, i: nat, retry: bool): Service
    requires i < |s.writers|
  {
    s.(drainWaiters := s.drainWaiters + {i}, writers := s.writers[i := Waiting(retry)])
  }

  function WriteFull(s: Service, i: nat): Service
    requires i < |s.writers|
  {
    Wait(s.(written := s.written + [i], writeBlocked := true, paused := true), i, false)
  }

  function Finish(s: Service, i: nat, fits: bool, write: Write, serviceThrew: bool): Service
    requires i < |s.writers| && s.pending > 0
  {
    if s.closed then Complete(s, i)
    else if !fits then Complete(CloseWith(s, Invalid, serviceThrew), i)
    else if s.writeBlocked then Wait(s, i, true)
    else match write
      case Accepted => Complete(s.(written := s.written + [i]), i)
      case Full => WriteFull(s, i)
      case Threw => Complete(CloseWith(s, Invalid, serviceThrew), i)
  }

  function Receive(s: Service, handled: Handled, serviceThrew: bool): Service {
    if s.closed then s
    else if s.pending >= s.maximum then CloseWith(s, Invalid, serviceThrew)
    else
      var i := |s.writers|;
      var t := s.(pending := s.pending + 1, writers := s.writers + [Handling]);
      match handled
      case Pending => t
      case HandlerThrew => CloseWith(Complete(t, i), Invalid, serviceThrew)
      case Responded(fits, write) => Finish(t, i, fits, write, serviceThrew)
  }

  function Resume(s: Service, i: nat, write: Write, serviceThrew: bool): Service
    requires i < |s.writers| && s.writers[i].Released? && (i > 0 ==> s.pending > 0)
  {
    match s.writers[i].next
    case Retry =>
      if s.closed then s.(writers := s.writers[i := Released(Conclude)])
      else if s.writeBlocked then Wait(s, i, true)
      else (match write
        case Accepted => s.(written := s.written + [i], writers := s.writers[i := Released(Conclude)])
        case Full => WriteFull(s, i)
        case Threw => s.(writers := s.writers[i := Released(Abort)]))
    case Conclude =>
      if i > 0 then Complete(s, i)
      else
        var t := s.(writers := s.writers[i := Done]);
        if !t.closed && t.pending == 0 && !t.writeBlocked then t.(paused := false) else t
    case Abort =>
      if i > 0 then Complete(CloseWith(s, Invalid, serviceThrew), i) else s
  }

  predicate Enabled(s: Service, e: Event) {
    match e
    case ShutdownFrame(_) => true
    case RequestFrame(_, _) => true
    case HandlerResolved(i, _, _, _) => i < |s.writers| && s.writers[i].Handling? && s.pending > 0
    case HandlerRejected(i, _) => i < |s.writers| && s.writers[i].Handling? && s.pending > 0
    case Drain => s.writeBlocked && !s.closed
    case Continue(i, _, _) => i < |s.writers| && s.writers[i].Released? && (i > 0 ==> s.pending > 0)
    case CloseFor(_, _) => true
  }

  function Step(s: Service, e: Event): Service
    requires Enabled(s, e)
  {
    match e
    case ShutdownFrame(serviceThrew) => CloseWith(s, Shutdown, serviceThrew)
    case RequestFrame(handled, serviceThrew) => Receive(s, handled, serviceThrew)
    case HandlerResolved(i, fits, write, serviceThrew) => Finish(s, i, fits, write, serviceThrew)
    case HandlerRejected(i, serviceThrew) => Complete(CloseWith(s, Invalid, serviceThrew), i)
    case Drain => s.(writeBlocked := false, drainWaiters := {}, writers := ReleaseAll(s.writers))
    case Continue(i, write, serviceThrew) => Resume(s, i, write, serviceThrew)
    case CloseFor(reason, serviceThrew) => CloseWith(s, reason, serviceThrew)
  }

  // ---------- invariant ----------

  /** Requests whose count has not been released: every writer but the ready frame and the finished ones. */
  function Outstanding(writers: seq<Phase>): nat {
    if |writers| <= 1 then 0
    else Outstanding(writers[..|writers| - 1]) + if writers[|writers| - 1].Done? then 0 else 1
  }

  /** Which frames were handed to stdout follows from the phase of their writer. */
  predicate WriterOk(s: Service, i: nat)
    requires i < |s.writers|
  {
    && (i in s.drainWaiters <==> s.writers[i].Waiting?)
    && (s.writers[i].Handling? || s.writers[i] in {Waiting(true), Released(Retry), Released(Abort)} ==> i !in s.written)
    && (i == 0 ==> s.writers[0] in {Waiting(false), Released(Conclude), Done})
  }

  predicate WritersOk(s: Service) {
    && |s.writers| > 0
    && (forall i :: 0 <= i < |s.writers| ==> WriterOk(s, i))
    && (forall i :: i in s.drainWaiters ==> i < |s.writers|)
    && (forall k :: 0 <= k < |s.written| ==> s.written[k] < |s.writers|)
    && (forall k, m :: 0 <= k < m < |s.written| ==> s.written[k] != s.written[m])
  }

  /** Waiters exist exactly while stdout owes a drain, and input is never left paused with
      nothing outstanding that will resume it. */
  predicate FlowOk(s: Service)
    requires s.writers != []
  {
    && (s.drainWaiters != {} ==> s.writeBlocked && !s.closed)
    && (s.writeBlocked && !s.closed ==> s.drainWaiters != {})
    && (s.paused && !s.closed ==> s.writeBlocked || s.pending > 0 || s.writers[0].Released?)
  }

  predicate Inv(s: Service) {
    && WritersOk(s)
    && s.pending == Outstanding(s.writers) <= s.maximum
    && FlowOk(s)
    && s.resolved == if s.closed && s.pending == 0 then [s.reason] else []
  }

  lemma {:induction false} OutstandingUpdate(writers: seq<Phase>, i: nat, p: Phase)
    requires 0 < i < |writers|
    ensures Outstanding(writers[i := p]) ==
            Outstanding(writers) + (if p.Done? then 0 else 1) - (if writers[i].Done? then 0 else 1)
  {
    var n := |writers| - 1;
    if i == n {
      assert writers[i := p][..n] == writers[..n];
    } else {
      OutstandingUpdate(writers[..n], i, p);
      assert writers[i := p][..n] == writers[..n][i := p];
    }
  }

  lemma {:induction false} OutstandingReady(writers: seq<Phase>, p: Phase)
    requires writers != []
    ensures Outstanding(writers[0 := p]) == Outstanding(writers)
  {
    var n := |writers| - 1;
    if n > 0 {
      OutstandingReady(writers[..n], p);
      assert writers[0 := p][..n] == writers[..n][0 := p];
    }
  }

  lemma {:induction false} OutstandingSame(a: seq<Phase>, b: seq<Phase>)
    requires |a| == |b| && forall i :: 0 <= i < |a| ==> a[i].Done? == b[i].Done?
    ensures Outstanding(a) == Outstanding(b)
  {
    if |a| > 1 { OutstandingSame(a[..|a| - 1], b[..|b| - 1]); }
  }

  lemma CloseKeeps(s: Service, reason: Reason, serviceThrew: bool)
    requires Inv(s)
    ensures Inv(CloseWith(s, reason, serviceThrew)) && CloseWith(s, reason, serviceThrew).closed
    ensures CloseWith(s, reason, serviceThrew).pending == s.pending
  {
    hide Outstanding;
    if !s.closed {
      var t := CloseWith(s, reason, serviceThrew);
      OutstandingSame(s.writers, t.writers);
      forall i | 0 <= i < |t.writers| ensures WriterOk(t, i) { assert WriterOk(s, i); }
    }
  }

  lemma CompleteKeeps(s: Service, i: nat)
    requires Inv(s) && 0 < i < |s.writers| && !s.writers[i].Waiting? && !s.writers[i].Done? && s.pending > 0
    ensures Inv(Complete(s, i))
  {
    hide Outstanding;
    var t := Complete(s, i);
    OutstandingUpdate(s.writers, i, Done);
    forall j | 0 <= j < |t.writers| ensures WriterOk(t, j) { assert WriterOk(s, j); }
  }

  lemma WaitKeeps(s: Service, i: nat)
    requires Inv(s) && 0 < i < |s.writers| && s.writers[i] in {Handling, Released(Retry)}
    requires s.writeBlocked && !s.closed
    ensures Inv(Wait(s, i, true))
  {
    hide Outstanding;
    var t := Wait(s, i, true);
    OutstandingUpdate(s.writers, i, Waiting(true));
    forall j | 0 <= j < |t.writers| ensures WriterOk(t, j) { assert WriterOk(s, j); }
  }

  /** Handing over a frame, whatever phase its writer goes to next. */
  lemma WriteKeeps(s: Service, i: nat)
    requires Inv(s) && 0 < i < |s.writers| && s.writers[i] in {Handling, Released(Retry)}
    requires !s.writeBlocked && !s.closed
    ensures Inv(WriteFull(s, i))
    ensures Inv(s.(written := s.written + [i], writers := s.writers[i := Released(Conclude)]))
  {
    hide Outstanding;
    OutstandingUpdate(s.writers, i, Waiting(false));
    OutstandingUpdate(s.writers, i, Released(Conclude));
    assert WriterOk(s, i);
    assert i !in s.written;
    var t := WriteFull(s, i);
    forall j | 0 <= j < |t.writers| ensures WriterOk(t, j) { assert WriterOk(s, j); }
    var u := s.(written := s.written + [i], writers := s.writers[i := Released(Conclude)]);
    forall j | 0 <= j < |u.writers| ensures WriterOk(u, j) { assert WriterOk(s, j); }
  }

  lemma FinishKeeps(s: Service, i: nat, fits: bool, write: Write, serviceThrew: bool)
    requires Inv(s) && 0 < i < |s.writers| && s.writers[i].Handling? && s.pending > 0
    ensures Inv(Finish(s, i, fits, write, serviceThrew))
  {
    hide Inv, Outstanding;
    CloseKeeps(s, Invalid, serviceThrew);
    if s.closed {
      CompleteKeeps(s, i);
    } else if !fits || (!s.writeBlocked && write.Threw?) {
      CompleteKeeps(CloseWith(s, Invalid, serviceThrew), i);
    } else if s.writeBlocked {
      WaitKeeps(s, i);
    } else {
      WriteKeeps(s, i);
      if write.Accepted? {
        var t := s.(written := s.written + [i], writers := s.writers[i := Released(Conclude)]);
        CompleteKeeps(t, i);
        assert t.writers[i := Done] == s.writers[i := Done];
      }
    }
  }

  lemma AdmitKeeps(s: Service)
    requires Inv(s) && !s.closed && s.pending < s.maximum
    ensures Inv(s.(pending := s.pending + 1, writers := s.writers + [Handling]))
  {
    hide Outstanding;
    var t := s.(pending := s.pending + 1, writers := s.writers + [Handling]);
    OutstandingAppend(s.writers);
    forall j | 0 <= j < |t.writers| ensures WriterOk(t, j) {
      if j < |s.writers| { assert WriterOk(s, j); }
    }
  }

  lemma OutstandingAppend(writers: seq<Phase>)
    requires writers != []
    ensures Outstanding(writers + [Handling]) == Outstanding(writers) + 1
  {
    assert (writers + [Handling])[..|writers|] == writers;
  }

  lemma ReceiveKeeps(s: Service, handled: Handled, serviceThrew: bool)
    requires Inv(s)
    ensures Inv(Receive(s, handled, serviceThrew))
  {
    hide Inv, Complete, CloseWith, Finish, Outstanding;
    CloseKeeps(s, Invalid, serviceThrew);
    if !s.closed && s.pending < s.maximum {
      var i := |s.writers|;
      var t := s.(pending := s.pending + 1, writers := s.writers + [Handling]);
      HasReady(s);
      AdmitKeeps(s);
      match handled
      case Pending =>
      case HandlerThrew =>
        CompleteKeeps(t, i);
        CloseKeeps(Complete(t, i), Invalid, serviceThrew);
      case Responded(fits, write) => FinishKeeps(t, i, fits, write, serviceThrew);
    }
  }

  lemma HasReady(s: Service)
    requires Inv(s)
    ensures s.writers != [] && WriterOk(s, 0)
  {
  }

  lemma PhaseKeeps(s: Service, i: nat, next: Next)
    requires Inv(s) && 0 < i < |s.writers| && s.writers[i] == Released(Retry)
    ensures Inv(s.(writers := s.writers[i := Released(next)]))
  {
    hide Outstanding;
    var t := s.(writers := s.writers[i := Released(next)]);
    OutstandingUpdate(s.writers, i, Released(next));
    forall j | 0 <= j < |t.writers| ensures WriterOk(t, j) { assert WriterOk(s, j); }
  }

  lemma ReadyKeeps(s: Service, write: Write, serviceThrew: bool)
    requires Inv(s) && s.writers[0].Released?
    ensures Inv(Resume(s, 0, write, serviceThrew))
  {
    hide Outstanding;
    var t := Resume(s, 0, write, serviceThrew);
    assert WriterOk(s, 0);
    OutstandingReady(s.writers, Done);
    forall j | 0 <= j < |t.writers| ensures WriterOk(t, j) { assert WriterOk(s, j); }
  }

  lemma ResumeKeeps(s: Service, i: nat, write: Write, serviceThrew: bool)
    requires Inv(s) && Enabled(s, Continue(i, write, serviceThrew))
    ensures Inv(Resume(s, i, write, serviceThrew))
  {
    hide Inv, Outstanding, Complete;
    if i == 0 {
      HasReady(s);
      ReadyKeeps(s, write, serviceThrew);
      return;
    }
    match s.writers[i].next
    case Retry =>
      if s.closed {
        PhaseKeeps(s, i, Conclude);
      } else if s.writeBlocked {
        WaitKeeps(s, i);
      } else {
        WriteKeeps(s, i);
        PhaseKeeps(s, i, Abort);
      }
    case Conclude => CompleteKeeps(s, i);
    case Abort =>
      CloseKeeps(s, Invalid, serviceThrew);
      CompleteKeeps(CloseWith(s, Invalid, serviceThrew), i);
  }

  lemma DrainKeeps(s: Service)
    requires Inv(s) && Enabled(s, Drain)
    ensures Inv(Step(s, Drain))
  {
    hide Outstanding;
    var t := Step(s, Drain);
    OutstandingSame(s.writers, t.writers);
    forall j | 0 <= j < |t.writers| ensures WriterOk(t, j) { assert WriterOk(s, j); }
    if s.pending == 0 {
      BlockedReady(s);
    }
  }

  /** With no request outstanding only the ready frame can be waiting for the drain. */
  lemma BlockedReady(s: Service)
    requires Inv(s) && s.pending == 0 && s.writeBlocked && !s.closed
    ensures s.writers[0] == Waiting(false)
  {
    var i :| i in s.drainWaiters;
    assert WriterOk(s, i) && WriterOk(s, 0);
    if i > 0 { OutstandingPositive(s.writers, i); }
  }

  lemma {:induction false} OutstandingPositive(writers: seq<Phase>, i: nat)
    requires 0 < i < |writers| && !writers[i].Done?
    ensures Outstanding(writers) > 0
  {
    if i < |writers| - 1 { OutstandingPositive(writers[..|writers| - 1], i); }
  }

  /** Every step keeps the invariant. */
  lemma StepKeeps(s: Service, e: Event)
    requires Inv(s) && Enabled(s, e)
    ensures Inv(Step(s, e))
  {
    hide Inv, Outstanding, Complete, CloseWith, Finish, Receive, Resume;
    HasReady(s);
    match e
    case ShutdownFrame(serviceThrew) => CloseKeeps(s, Shutdown, serviceThrew);
    case RequestFrame(handled, serviceThrew) => ReceiveKeeps(s, handled, serviceThrew);
    case HandlerResolved(i, fits, write, serviceThrew) => FinishKeeps(s, i, fits, write, serviceThrew);
    case HandlerRejected(i, serviceThrew) => RejectedKeeps(s, i, serviceThrew);
    case Drain => DrainKeeps(s);
    case Continue(i, write, serviceThrew) => ResumeKeeps(s, i, write, serviceThrew);
    case CloseFor(reason, serviceThrew) => CloseKeeps(s, reason, serviceThrew);
  }

  lemma RejectedKeeps(s: Service, i: nat, serviceThrew: bool)
    requires Inv(s) && Enabled(s, HandlerRejected(i, serviceThrew))
    ensures Inv(Complete(CloseWith(s, Invalid, serviceThrew), i))
  {
    hide Inv, Outstanding, Complete;
    HasReady(s);
    CloseKeeps(s, Invalid, serviceThrew);
    CompleteKeeps(CloseWith(s, Invalid, serviceThrew), i);
  }

  // ---------- whole runs ----------

  /** What every step, and hence every run, preserves between an earlier and a later state. */
  ghost predicate Later(s: Service, t: Service) {
    && s.written <= t.written
    && s.resolved <= t.resolved
    && |s.writers| <= |t.writers|
    && (forall i :: 0 <= i < |s.writers| && s.writers[i].Done? ==> t.writers[i].Done?)
    && (s.closed ==> t.closed && t.reason == s.reason && t.written == s.written && |t.writers| == |s.writers|)
  }

  lemma LaterTransitive(s: Service, t: Service, u: Service)
    requires Later(s, t) && Later(t, u)
    ensures Later(s, u)
  {
  }

  lemma CloseIsLater(s: Service, reason: Reason, serviceThrew: bool)
    ensures Later(s, CloseWith(s, reason, serviceThrew))
    ensures |CloseWith(s, reason, serviceThrew).writers| == |s.writers|
    ensures CloseWith(s, reason, serviceThrew).pending == s.pending
  {
  }

  lemma CompleteIsLater(s: Service, i: nat)
    requires i < |s.writers| && s.pending > 0
    ensures Later(s, Complete(s, i))
  {
  }

  lemma AbortIsLater(s: Service, i: nat, serviceThrew: bool)
    requires i < |s.writers| && s.pending > 0
    ensures CloseWith(s, Invalid, serviceThrew).pending == s.pending
    ensures i < |CloseWith(s, Invalid, serviceThrew).writers|
    ensures Later(s, Complete(CloseWith(s, Invalid, serviceThrew), i))
  {
    CloseIsLater(s, Invalid, serviceThrew);
    var t := CloseWith(s, Invalid, serviceThrew);
    CompleteIsLater(t, i);
    hide *;
    LaterTransitive(s, t, Complete(t, i));
  }

  lemma FinishIsLater(s: Service, i: nat, fits: bool, write: Write, serviceThrew: bool)
    requires i < |s.writers| && s.pending > 0 && !s.writers[i].Done?
    ensures Later(s, Finish(s, i, fits, write, serviceThrew))
  {
    hide Later, CloseWith, Complete;
    CompleteIsLater(s, i);
    AbortIsLater(s, i, serviceThrew);
    WriteIsLater(s, i);
    WaitIsLater(s, i, true);
    if !s.closed && fits && !s.writeBlocked && write.Accepted? {
      var t := s.(written := s.written + [i]);
      CompleteIsLater(t, i);
      LaterTransitive(s, t, Complete(t, i));
    }
  }

  lemma WaitIsLater(s: Service, i: nat, retry: bool)
    requires i < |s.writers| && !s.writers[i].Done?
    ensures Later(s, Wait(s, i, retry))
  {
  }

  lemma WriteIsLater(s: Service, i: nat)
    requires i < |s.writers| && !s.writers[i].Done?
    ensures !s.closed ==> Later(s, WriteFull(s, i)) && Later(s, s.(written := s.written + [i]))
  {
  }

  lemma SameIsLater(s: Service)
    ensures Later(s, s)
  {
  }

  lemma AdmitIsLater(s: Service)
    requires !s.closed
    ensures Later(s, s.(pending := s.pending + 1, writers := s.writers + [Handling]))
  {
  }

  lemma ReceiveIsLater(s: Service, handled: Handled, serviceThrew: bool)
    ensures Later(s, Receive(s, handled, serviceThrew))
  {
    hide Later, CloseWith, Complete, Finish;
    CloseIsLater(s, Invalid, serviceThrew);
    SameIsLater(s);
    if !s.closed && s.pending < s.maximum {
      var t := s.(pending := s.pending + 1, writers := s.writers + [Handling]);
      AdmitIsLater(s);
      if handled.HandlerThrew? {
        var u := Complete(t, |s.writers|);
        CompleteIsLater(t, |s.writers|);
        CloseIsLater(u, Invalid, serviceThrew);
        LaterTransitive(t, u, CloseWith(u, Invalid, serviceThrew));
        LaterTransitive(s, t, CloseWith(u, Invalid, serviceThrew));
      } else if handled.Responded? {
        FinishIsLater(t, |s.writers|, handled.fits, handled.write, serviceThrew);
        LaterTransitive(s, t, Finish(t, |s.writers|, handled.fits, handled.write, serviceThrew));
      }
    }
  }

  lemma ResumeIsLater(s: Service, i: nat, write: Write, serviceThrew: bool)
    requires Enabled(s, Continue(i, write, serviceThrew))
    ensures Later(s, Resume(s, i, write, serviceThrew))
  {
    hide CloseWith, Complete;
    if i > 0 && s.writers[i].next.Conclude? {
      CompleteIsLater(s, i);
    } else if i > 0 && s.writers[i].next.Abort? {
      AbortIsLater(s, i, serviceThrew);
    }
  }

  lemma StepIsLater(s: Service, e: Event)
    requires Enabled(s, e)
    ensures Later(s, Step(s, e))
  {
    hide CloseWith, Complete, Finish, Receive, Resume;
    match e
    case ShutdownFrame(serviceThrew) => CloseIsLater(s, Shutdown, serviceThrew);
    case RequestFrame(handled, serviceThrew) => ReceiveIsLater(s, handled, serviceThrew);
    case HandlerResolved(i, fits, write, serviceThrew) => FinishIsLater(s, i, fits, write, serviceThrew);
    case HandlerRejected(i, serviceThrew) => AbortIsLater(s, i, serviceThrew);
    case Drain =>
    case Continue(i, write, serviceThrew) => ResumeIsLater(s, i, write, serviceThrew);
    case CloseFor(reason, serviceThrew) => CloseIsLater(s, reason, serviceThrew);
  }

  ghost predicate Run(trace: seq<Service>, events: seq<Event>, accepted: bool) {
    && |trace| == |events| + 1
    && trace[0] == Init(trace[0].maximum, accepted)
    && forall i :: 0 <= i < |events| ==> Enabled(trace[i], events[i]) && trace[i + 1] == Step(trace[i], events[i])
  }

  lemma {:induction false} RunKeepsInvariant(trace: seq<Service>, events: seq<Event>, accepted: bool, i: nat)
    requires Run(trace, events, accepted) && i < |trace|
    ensures Inv(trace[i])
  {
    hide Step, Enabled;
    if i > 0 {
      RunKeepsInvariant(trace, events, accepted, i - 1);
      assert Enabled(trace[i - 1], events[i - 1]);
      StepKeeps(trace[i - 1], events[i - 1]);
    }
  }

  lemma {:induction false} RunIsLater(trace: seq<Service>, events: seq<Event>, accepted: bool, i: nat, j: nat)
    requires Run(trace, events, accepted) && i <= j < |trace|
    ensures Later(trace[i], trace[j])
    decreases j
  {
    hide Step, Enabled;
    if i < j {
      RunIsLater(trace, events, accepted, i, j - 1);
      assert Enabled(trace[j - 1], events[j - 1]) && trace[j] == Step(trace[j - 1], events[j - 1]);
      StepIsLater(trace[j - 1], events[j - 1]);
    }
  }

  /** In every run the pending count is the number of unfinished requests and within the bound,
      no frame is written twice, and the promise is resolved once, with the reason of the first
      close, exactly when the service is closed and nothing is pending. */
  lemma ServiceAccounts(trace: seq<Service>, events: seq<Event>, accepted: bool, i: nat)
    requires Run(trace, events, accepted) && i < |trace|
    ensures trace[i].pending == Outstanding(trace[i].writers) <= trace[i].maximum
    ensures forall k, m :: 0 <= k < m < |trace[i].written| ==> trace[i].written[k] != trace[i].written[m]
    ensures trace[i].resolved == if trace[i].closed && trace[i].pending == 0 then [trace[i].reason] else []
    ensures trace[i].drainWaiters != {} <==> trace[i].writeBlocked && !trace[i].closed
  {
    hide Step, Enabled;
    RunKeepsInvariant(trace, events, accepted, i);
  }

  /** After a close nothing is written and no request is admitted; once resolved, nothing changes
      the result and no request is outstanding. */
  lemma NothingAfterClose(trace: seq<Service>, events: seq<Event>, accepted: bool, i: nat, j: nat)
    requires Run(trace, events, accepted) && i <= j < |trace| && trace[i].closed
    ensures trace[j].written == trace[i].written && |trace[j].writers| == |trace[i].writers|
    ensures trace[i].pending == 0 ==> trace[j].resolved == trace[i].resolved && trace[j].pending == 0
  {
    hide Step, Enabled, Outstanding;
    RunIsLater(trace, events, accepted, i, j);
    RunKeepsInvariant(trace, events, accepted, i);
    RunKeepsInvariant(trace, events, accepted, j);
  }

  /** Whatever finishes first: releasing a request of an open service that owes no drain resumes the input. */
  lemma ReleasingResumes(s: Service, e: Event)
    requires Inv(s) && !s.closed && Enabled(s, e)
    ensures var t := Step(s, e); !t.closed && !t.writeBlocked && t.pending < s.pending ==> !t.paused
  {
    hide Outstanding, ReleaseAll, WritersOk, WriterOk;
    if e.RequestFrame? { ReceiveNeverReleases(s, e.handled, e.serviceThrew); }
  }

  lemma ReceiveNeverReleases(s: Service, handled: Handled, serviceThrew: bool)
    ensures Receive(s, handled, serviceThrew).pending >= s.pending
  {
    hide ReleaseAll;
  }

  /** A drain, a handler answering with a frame that fits, or a continuation whose write is accepted. */
  predicate Cooperative(e: Event) {
    || e.Drain?
    || (e.HandlerResolved? && e.fits && e.write.Accepted?)
    || (e.Continue? && e.write.Accepted?)
  }

  /** `events` lead from `s` to `t`, and each of them cooperates. */
  predicate Reaches(s: Service, events: seq<Event>, t: Service)
    decreases |events|
  {
    if events == [] then t == s
    else Enabled(s, events[0]) && Cooperative(events[0]) && Reaches(Step(s, events[0]), events[1..], t)
  }

  ghost predicate Resumable(s: Service, steps: nat) {
    exists events, t :: |events| <= steps && Reaches(s, events, t) && !t.closed && !t.paused
  }

  lemma ResumableBefore(s: Service, e: Event, steps: nat)
    requires Enabled(s, e) && Cooperative(e)
    requires (!Step(s, e).closed && !Step(s, e).paused) || Resumable(Step(s, e), steps)
    ensures Resumable(s, steps + 1)
  {
    hide Enabled, Step, Cooperative;
    var next := Step(s, e);
    if !next.closed && !next.paused {
      assert Reaches(next, [], next);
      assert [e][1..] == [];
      assert Reaches(s, [e], next);
    } else {
      var events, t :| |events| <= steps && Reaches(next, events, t) && !t.closed && !t.paused;
      assert ([e] + events)[1..] == events;
      assert Reaches(s, [e] + events, t);
    }
  }

  /** One writer that is neither waiting nor aborting resumes the input when it finishes. */
  lemma WriterResumes(s: Service, w: nat)
    requires Inv(s) && !s.closed && !s.writeBlocked && w < |s.writers|
    requires s.writers[w] in {Handling, Released(Retry), Released(Conclude)}
    requires if w == 0 then s.pending == 0 else s.pending > 0
    ensures Resumable(s, 2)
  {
    hide Outstanding, ReleaseAll, Reaches, Resumable;
    assert WriterOk(s, w);
    match s.writers[w]
    case Handling => ResumableBefore(s, HandlerResolved(w, true, Accepted, false), 1);
    case Released(Conclude) => ResumableBefore(s, Continue(w, Accepted, false), 1);
    case Released(Retry) =>
      var t := Step(s, Continue(w, Accepted, false));
      ResumableBefore(t, Continue(w, Accepted, false), 0);
      ResumableBefore(s, Continue(w, Accepted, false), 1);
    case _ =>
  }

  lemma NotWaiting(p: Phase)
    requires !p.Waiting? && !p.Done? && p != Released(Abort)
    ensures p in {Handling, Released(Retry), Released(Conclude)}
  {
    if p.Released? {
      var next := p.next;
      assert p == Released(next);
      assert next == Retry || next == Conclude || next == Abort;
    }
  }

  lemma UnblockedResumes(s: Service)
    requires Inv(s) && s.paused && !s.closed && !s.writeBlocked
    requires Released(Abort) !in s.writers
    ensures Resumable(s, 2)
  {
    hide Outstanding, Resumable;
    if s.pending > 0 {
      SomeOutstanding(s.writers);
      var w :| 0 < w < |s.writers| && !s.writers[w].Done?;
      assert WriterOk(s, w) && w !in s.drainWaiters;
      assert s.writers[w] in s.writers;
      NotWaiting(s.writers[w]);
      WriterResumes(s, w);
    } else {
      assert WriterOk(s, 0);
      WriterResumes(s, 0);
    }
  }

  /**
   Paused input comes back: from every state of every run in which an open service is paused, at
   most three cooperating events resume it, or a writer whose write threw is about to close the
   service.
   */
  lemma PausedInputIsResumed(trace: seq<Service>, events: seq<Event>, accepted: bool, i: nat)
    requires Run(trace, events, accepted) && i < |trace| && trace[i].paused && !trace[i].closed
    ensures Released(Abort) in trace[i].writers || Resumable(trace[i], 3)
    ensures forall w :: 0 < w < |trace[i].writers| && trace[i].writers[w] == Released(Abort) ==>
              Enabled(trace[i], Continue(w, Accepted, false)) && Step(trace[i], Continue(w, Accepted, false)).closed
  {
    hide Outstanding, Step, Enabled, Resumable, ReleaseAll;
    var s := trace[i];
    RunKeepsInvariant(trace, events, accepted, i);
    forall w | 0 < w < |s.writers| && s.writers[w] == Released(Abort)
      ensures Enabled(s, Continue(w, Accepted, false)) && Step(s, Continue(w, Accepted, false)).closed
    {
      AbortCloses(s, w);
    }
    if Released(Abort) !in s.writers {
      if s.writeBlocked {
        DrainUnblocks(s);
        StepKeeps(s, Drain);
        UnblockedResumes(Step(s, Drain));
        ResumableBefore(s, Drain, 2);
      } else {
        UnblockedResumes(s);
        ResumableLonger(s);
      }
    }
  }

  lemma AbortCloses(s: Service, w: nat)
    requires Inv(s) && 0 < w < |s.writers| && s.writers[w] == Released(Abort)
    ensures Enabled(s, Continue(w, Accepted, false)) && Step(s, Continue(w, Accepted, false)).closed
  {
    hide ReleaseAll;
    OutstandingUpdate(s.writers, w, Done);
  }

  lemma DrainUnblocks(s: Service)
    requires Inv(s) && s.writeBlocked && !s.closed
    ensures Enabled(s, Drain) && Step(s, Drain).(drainWaiters := s.drainWaiters, writers := s.writers) == s.(writeBlocked := false)
    ensures Released(Abort) in Step(s, Drain).writers ==> Released(Abort) in s.writers
  {
    hide Outstanding;
  }

  lemma ResumableLonger(s: Service)
    requires Resumable(s, 2)
    ensures Resumable(s, 3)
  {
    hide Reaches;
    var events, t :| |events| <= 2 && Reaches(s, events, t) && !t.closed && !t.paused;
    assert |events| <= 3;
  }

  lemma {:induction false} SomeOutstanding(writers: seq<Phase>)
    requires Outstanding(writers) > 0
    ensures exists w :: 0 < w < |writers| && !writers[w].Done?
  {
    var n := |writers| - 1;
    if writers[n].Done? {
      SomeOutstanding(writers[..n]);
      var w :| 0 < w < n && !writers[..n][w].Done?;
      assert !writers[w].Done?;
    }
  }

  // ---------- the service object ----------

  class RestrictedTargetStdio {
    const maximum: nat
    var closed: bool
    var pending: nat
    var writeBlocked: bool
    var paused: bool
    var drainWaiters: set<nat>
    var terminalReason: Reason
    var resolved: seq<Reason>
    var writers: seq<Phase>
    var written: seq<nat>

    function State(): Service
      reads this
    {
      Service(maximum, closed, pending, writeBlocked, paused, drainWaiters, terminalReason, resolved, writers, written)
    }

    constructor (maximumConcurrentRequests: nat, accepted: bool)
      requires 1 <= maximumConcurrentRequests <= 16
      ensures State() == Init(maximumConcurrentRequests, accepted) && Inv(State())
    {
      maximum := maximumConcurrentRequests;
      closed, pending, terminalReason, resolved := false, 0, Invalid, [];
      written := [0];
      writeBlocked, paused := !accepted, !accepted;
      drainWaiters := if accepted then {} else {0};
      writers := [if accepted then Done else Waiting(false)];
    }

    method Close(reason: Reason, serviceThrew: bool)
      modifies this
      ensures State() == CloseWith(old(State()), reason, serviceThrew)
    {
      if closed { return; }
      closed, terminalReason := true, reason;
      if serviceThrew { terminalReason := Invalid; }
      writers := ReleaseAll(writers);
      drainWaiters := {};
      paused := true;
      if pending == 0 { resolved := resolved + [terminalReason]; }
    }

    method CompleteRequest(i: nat)
      requires i < |writers| && pending > 0
      modifies this
      ensures State() == Complete(old(State()), i)
    {
      pending := pending - 1;
      writers := writers[i := Done];
      if closed && pending == 0 {
        resolved := resolved + [terminalReason];
      } else if !closed && !writeBlocked && pending < maximum {
        paused := false;
      }
    }

    method WaitForDrain(i: nat, retry: bool)
      requires i < |writers|
      modifies this`drainWaiters, this`writers
      ensures State() == Wait(old(State()), i, retry)
    {
      drainWaiters := drainWaiters + {i};
      writers := writers[i := Waiting(retry)];
    }

    method WriteBlocking(i: nat)
      requires i < |writers|
      modifies this
      ensures State() == WriteFull(old(State()), i)
    {
      written := written + [i];
      writeBlocked := true;
      paused := true;
      WaitForDrain(i, false);
    }

    method FinishRequest(i: nat, fits: bool, write: Write, serviceThrew: bool)
      requires i < |writers| && pending > 0
      modifies this
      ensures State() == Finish(old(State()), i, fits, write, serviceThrew)
    {
      hide CloseWith, Complete;
      if closed {
        CompleteRequest(i);
      } else if !fits || (!writeBlocked && write.Threw?) {
        CloseIsLater(State(), Invalid, serviceThrew);
        Close(Invalid, serviceThrew);
        CompleteRequest(i);
      } else if writeBlocked {
        WaitForDrain(i, true);
      } else if write.Full? {
        WriteBlocking(i);
      } else {
        written := written + [i];
        CompleteRequest(i);
      }
    }

    method ReceiveRequest(handled: Handled, serviceThrew: bool)
      modifies this
      ensures State() == Receive(old(State()), handled, serviceThrew)
    {
      hide CloseWith, Complete, Finish;
      if closed { return; }
      if pending >= maximum {
        Close(Invalid, serviceThrew);
        return;
      }
      var i := |writers|;
      pending := pending + 1;
      writers := writers + [Handling];
      match handled
      case Pending =>
      case HandlerThrew =>
        CompleteRequest(i);
        Close(Invalid, serviceThrew);
      case Responded(fits, write) => FinishRequest(i, fits, write, serviceThrew);
    }

    method ResumeWriter(i: nat, write: Write, serviceThrew: bool)
      requires Enabled(State(), Continue(i, write, serviceThrew))
      modifies this
      ensures State() == Resume(old(State()), i, write, serviceThrew)
    {
      hide CloseWith, Complete;
      match writers[i].next
      case Retry =>
        if closed {
          writers := writers[i := Released(Conclude)];
        } else if writeBlocked {
          WaitForDrain(i, true);
        } else if write.Accepted? {
          written := written + [i];
          writers := writers[i := Released(Conclude)];
        } else if write.Full? {
          WriteBlocking(i);
        } else {
          writers := writers[i := Released(Abort)];
        }
      case Conclude =>
        if i > 0 {
          CompleteRequest(i);
        } else {
          writers := writers[i := Done];
          if !closed && pending == 0 && !writeBlocked { paused := false; }
        }
      case Abort =>
        if i > 0 {
          CloseIsLater(State(), Invalid, serviceThrew);
          Close(Invalid, serviceThrew);
          CompleteRequest(i);
        }
    }

    /** One event of the loop. */
    method Handle(e: Event)
      requires Inv(State()) && Enabled(State(), e)
      modifies this
      ensures Inv(State()) && State() == Step(old(State()), e)
    {
      hide Inv, CloseWith, Complete, Finish, Receive, Resume;
      StepKeeps(State(), e);
      match e
      case ShutdownFrame(serviceThrew) => Close(Shutdown, serviceThrew);
      case RequestFrame(handled, serviceThrew) => ReceiveRequest(handled, serviceThrew);
      case HandlerResolved(i, fits, write, serviceThrew) => FinishRequest(i, fits, write, serviceThrew);
      case HandlerRejected(i, serviceThrew) =>
        CloseIsLater(State(), Invalid, serviceThrew);
        Close(Invalid, serviceThrew);
        CompleteRequest(i);
      case Drain =>
        writeBlocked := false;
        writers := ReleaseAll(writers);
        drainWaiters := {};
      case Continue(i, write, serviceThrew) => ResumeWriter(i, write, serviceThrew);
      case CloseFor(reason, serviceThrew) => Close(reason, serviceThrew);
    }
  }
}
