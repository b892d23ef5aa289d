/**
 What a run of the stdio service makes of its events (restricted-target-stdio.ts), told from the
 events and from what a peer observes: which frames reach stdout, when the service ends and why,
 and what becomes of every request.
 */
module StdioHistory {
  import opened Common
  import opened TargetStdio

  // ---------- which frames are written ----------

  /** The step is the moment at which the answer of writer `i` is ready to be written. */
  predicate Answers(s: Service, e: Event, i: nat) {
    || (e.HandlerResolved? && e.i == i && e.fits)
    || (e.RequestFrame? && i == |s.writers| && s.pending < s.maximum && e.handled.Responded? && e.handled.fits)
    || (e.Continue? && e.i == i && i < |s.writers| && s.writers[i] == Released(Retry))
  }

  /** What stdout says to a frame given to it during the step. */
  function Outcome(e: Event): (w: Write) {
    match e
    case RequestFrame(Responded(_, write), _) => write
    case HandlerResolved(_, _, write, _) => write
    case Continue(_, write, _) => write
    case _ => Threw
  }

  predicate Writes(s: Service, e: Event, i: nat) {
    Answers(s, e, i) && !s.closed && !s.writeBlocked && Outcome(e) in {Accepted, Full}
  }

  // ---------- what the closures do to the streams ----------

  /** A step of an open service that ends it: it stops reading, and nobody is left waiting. */
  predicate JustEnded(s: Service, t: Service, reason: Reason) {
    t.closed && t.reason == reason && t.paused && t.drainWaiters == {} && t.written == s.written
    && t.writeBlocked == s.writeBlocked
  }

  lemma CloseFlow(s: Service, reason: Reason, serviceThrew: bool)
    ensures s.closed ==> CloseWith(s, reason, serviceThrew) == s
    ensures !s.closed ==>
              JustEnded(s, CloseWith(s, reason, serviceThrew), if serviceThrew then Invalid else reason)
    ensures CloseWith(s, reason, serviceThrew).pending == s.pending
    ensures |CloseWith(s, reason, serviceThrew).writers| == |s.writers|
  {
  }

  lemma CompleteFlow(s: Service, i: nat)
    requires i < |s.writers| && s.pending > 0
    ensures var t := Complete(s, i);
            && t.closed == s.closed && t.reason == s.reason && t.written == s.written
            && t.writeBlocked == s.writeBlocked && t.drainWaiters == s.drainWaiters && t.maximum == s.maximum
            && t.paused == (s.paused && !(!s.closed && !s.writeBlocked && s.pending <= s.maximum))
  {
  }

  /** How an attempt to write the frame of writer `i` shows on the streams of an open service. */
  ghost predicate WroteAt(s: Service, t: Service, i: nat, fits: bool, write: Write, completes: bool)
  {
    if !fits || (!s.writeBlocked && write.Threw? && completes) then JustEnded(s, t, Invalid)
    else
      && !t.closed
      && t.written == s.written + (if s.writeBlocked || write.Threw? then [] else [i])
      && t.writeBlocked == (s.writeBlocked || write.Full?)
      && t.paused == if s.writeBlocked || write.Threw? then s.paused else write.Full? || (s.paused && !completes)
  }

  lemma FinishFlow(s: Service, i: nat, fits: bool, write: Write, serviceThrew: bool)
    requires i < |s.writers| && 0 < s.pending <= s.maximum
    ensures var t := Finish(s, i, fits, write, serviceThrew);
            if s.closed then t.closed && t.written == s.written && t.writeBlocked == s.writeBlocked
            else WroteAt(s, t, i, fits, write, true)
  {
    hide Complete, CloseWith;
    CloseFlow(s, Invalid, serviceThrew);
    CompleteFlow(CloseWith(s, Invalid, serviceThrew), i);
    CompleteFlow(s, i);
    CompleteFlow(s.(written := s.written + [i]), i);
  }

  lemma ReceiveFlow(s: Service, handled: Handled, serviceThrew: bool)
    ensures var t := Receive(s, handled, serviceThrew);
            if s.closed then t == s
            else if s.pending >= s.maximum || handled.HandlerThrew? then JustEnded(s, t, Invalid)
            else if handled.Pending? then
              !t.closed && t.written == s.written && t.writeBlocked == s.writeBlocked && t.paused == s.paused
            else WroteAt(s, t, |s.writers|, handled.fits, handled.write, true)
  {
    hide Complete, CloseWith, Finish;
    CloseFlow(s, Invalid, serviceThrew);
    if !s.closed && s.pending < s.maximum {
      var i := |s.writers|;
      var t := s.(pending := s.pending + 1, writers := s.writers + [Handling]);
      CompleteFlow(t, i);
      CloseFlow(Complete(t, i), Invalid, serviceThrew);
      if handled.Responded? { FinishFlow(t, i, handled.fits, handled.write, serviceThrew); }
    }
  }

  lemma ResumeFlow(s: Service, i: nat, write: Write, serviceThrew: bool)
    requires i < |s.writers| && s.writers[i].Released? && (i > 0 ==> 0 < s.pending <= s.maximum)
    requires i == 0 ==> s.writers[i].next.Conclude?
    ensures i == 0 ==> Resume(s, i, write, serviceThrew).pending == s.pending
    ensures var t := Resume(s, i, write, serviceThrew);
            if s.closed then t.closed && t.written == s.written && t.writeBlocked == s.writeBlocked
            else match s.writers[i].next
              case Retry => WroteAt(s, t, i, true, write, false)
              case Abort => JustEnded(s, t, Invalid)
              case Conclude =>
                && !t.closed && t.written == s.written && t.writeBlocked == s.writeBlocked
                && t.paused == (s.paused && (s.writeBlocked || (i == 0 && s.pending > 0)))
  {
    hide Complete, CloseWith;
    CloseFlow(s, Invalid, serviceThrew);
    if i > 0 {
      CompleteFlow(CloseWith(s, Invalid, serviceThrew), i);
      CompleteFlow(s, i);
    }
  }

  lemma StreamFacts(s: Service)
    requires Inv(s)
    ensures s.pending <= s.maximum && s.writers != [] && !s.writers[0].Handling?
    ensures s.writers[0].Released? ==> s.writers[0].next.Conclude?
  {
    hide Outstanding;
    assert WriterOk(s, 0);
  }

  /** The same for every event. */
  lemma StepFlow(s: Service, e: Event)
    requires Inv(s) && Enabled(s, e)
    ensures var t := Step(s, e);
            if s.closed then t.closed && t.written == s.written && t.writeBlocked == s.writeBlocked
            else match e
              case ShutdownFrame(serviceThrew) => JustEnded(s, t, if serviceThrew then Invalid else Shutdown)
              case CloseFor(reason, serviceThrew) => JustEnded(s, t, if serviceThrew then Invalid else reason)
              case HandlerRejected(_, _) => JustEnded(s, t, Invalid)
              case Drain => !t.closed && t.written == s.written && !t.writeBlocked && t.paused == s.paused
              case HandlerResolved(i, fits, write, _) => WroteAt(s, t, i, fits, write, true)
              case RequestFrame(handled, _) =>
                if s.pending >= s.maximum || handled.HandlerThrew? then JustEnded(s, t, Invalid)
                else if handled.Pending? then
                  !t.closed && t.written == s.written && t.writeBlocked == s.writeBlocked && t.paused == s.paused
                else WroteAt(s, t, |s.writers|, handled.fits, handled.write, true)
              case Continue(i, write, _) => match s.writers[i].next
                case Retry => WroteAt(s, t, i, true, write, false)
                case Abort => JustEnded(s, t, Invalid)
                case Conclude =>
                  && !t.closed && t.written == s.written && t.writeBlocked == s.writeBlocked
                  && t.paused == (s.paused && (s.writeBlocked || (i == 0 && s.pending > 0)))
  {
    hide Inv, Finish, Receive, Resume, CloseWith, Complete, JustEnded, WroteAt;
    StreamFacts(s);
    match e
    case ShutdownFrame(serviceThrew) => CloseFlow(s, Shutdown, serviceThrew);
    case CloseFor(reason, serviceThrew) => CloseFlow(s, reason, serviceThrew);
    case HandlerRejected(i, serviceThrew) =>
      CloseFlow(s, Invalid, serviceThrew);
      CompleteFlow(CloseWith(s, Invalid, serviceThrew), i);
      EndedStays(s, CloseWith(s, Invalid, serviceThrew), i);
    case Drain =>
    case HandlerResolved(i, fits, write, serviceThrew) => FinishFlow(s, i, fits, write, serviceThrew);
    case RequestFrame(handled, serviceThrew) => ReceiveFlow(s, handled, serviceThrew);
    case Continue(i, write, serviceThrew) => ResumeFlow(s, i, write, serviceThrew);
  }

  lemma EndedStays(s: Service, t: Service, i: nat)
    requires i < |t.writers| && t.pending > 0
    ensures JustEnded(s, t, Invalid) ==> JustEnded(s, Complete(t, i), Invalid)
    ensures t.closed ==> Complete(t, i).closed
  {
  }

  /** The writer that the event belongs to. */
  function Writer(s: Service, e: Event): (i: nat) {
    match e
    case RequestFrame(_, _) => |s.writers|
    case HandlerResolved(i, _, _, _) => i
    case HandlerRejected(i, _) => i
    case Continue(i, _, _) => i
    case _ => 0
  }

  lemma WritesOwn(s: Service, e: Event)
    requires Inv(s) && Enabled(s, e)
    ensures forall i :: Writes(s, e, i) ==> i == Writer(s, e)
    ensures var t := Step(s, e);
            && t.written == (if Writes(s, e, Writer(s, e)) then s.written + [Writer(s, e)] else s.written)
            && (t.writeBlocked <==>
                  (s.writeBlocked && (s.closed || !e.Drain?)) || (Outcome(e).Full? && Writes(s, e, Writer(s, e))))
  {
    hide Inv, Step;
    StepFlow(s, e);
    assert s.written + [] == s.written;
    var outcome := Outcome(e);
    assert outcome == Accepted || outcome == Full || outcome == Threw;
    if e.Continue? {
      var next := s.writers[e.i].next;
      assert next == Retry || next == Conclude || next == Abort;
    }
  }

  /** While the service is open and owes no drain, an answer that fits and that stdout accepts or queues
      goes to the end of what was written; nothing else is ever written. */
  lemma WriteIsExact(s: Service, e: Event)
    requires Inv(s) && Enabled(s, e)
    ensures forall i :: Step(s, e).written == s.written + [i] <==> Writes(s, e, i)
    ensures (forall i :: !Writes(s, e, i)) ==> Step(s, e).written == s.written
  {
    hide Inv, Step, Enabled, Writes, Writer;
    WritesOwn(s, e);
    var i := Writer(s, e);
    assert (s.written + [i])[|s.written|] == i;
    forall j ensures s.written + [i] == s.written + [j] <==> i == j {
      assert (s.written + [j])[|s.written|] == j;
    }
    assert forall j :: |s.written + [j]| != |s.written|;
  }

  /** stdout owes a drain from the frame it queued until the drain. */
  lemma BlockedIsExact(s: Service, e: Event)
    requires Inv(s) && Enabled(s, e)
    ensures Step(s, e).writeBlocked <==>
              (s.writeBlocked && !e.Drain?) || (Outcome(e).Full? && exists i :: Writes(s, e, i))
  {
    hide Inv, Step, Writes, Writer;
    WritesOwn(s, e);
  }

  // ---------- when the service ends ----------

  /** Why the step would end an open service, if it does. */
  predicate Fails(s: Service, e: Event) {
    match e
    case RequestFrame(handled, _) =>
      || s.pending >= s.maximum
      || handled.HandlerThrew?
      || (handled.Responded? && (!handled.fits || (!s.writeBlocked && handled.write.Threw?)))
    case HandlerResolved(_, fits, write, _) => !fits || (!s.writeBlocked && write.Threw?)
    case HandlerRejected(_, _) => true
    case Continue(i, _, _) => i < |s.writers| && s.writers[i] == Released(Abort)
    case _ => false
  }

  predicate ServiceThrows(e: Event) {
    match e
    case Drain => false
    case ShutdownFrame(serviceThrew) => serviceThrew
    case RequestFrame(_, serviceThrew) => serviceThrew
    case HandlerResolved(_, _, _, serviceThrew) => serviceThrew
    case HandlerRejected(_, serviceThrew) => serviceThrew
    case Continue(_, _, serviceThrew) => serviceThrew
    case CloseFor(_, serviceThrew) => serviceThrew
  }

  /** An open service ends exactly by a shutdown frame, a stream's or timer's end, or a failure, for the
      reason named, unless closing the service itself throws; it then stops reading. */
  lemma CloseIsExact(s: Service, e: Event)
    requires Inv(s) && Enabled(s, e) && !s.closed
    ensures var t := Step(s, e);
            && (t.closed <==> e.ShutdownFrame? || e.CloseFor? || Fails(s, e))
            && (t.closed ==> t.paused && t.drainWaiters == {})
            && (t.closed && ServiceThrows(e) ==> t.reason == Invalid)
            && (t.closed && !ServiceThrows(e) ==>
                  t.reason == if e.ShutdownFrame? then Shutdown else if e.CloseFor? then e.reason else Invalid)
  {
    hide Inv, Step;
    StepFlow(s, e);
    StreamFacts(s);
  }

  // ---------- what becomes of a request ----------

  /** What a writer that waits does once the wait is over. */
  function Stopped(p: Phase): Phase {
    if p.Waiting? then Released(if p.retry then Retry else Conclude) else p
  }

  ghost predicate NobodyWaits(s: Service) {
    forall j :: 0 <= j < |s.writers| ==> !s.writers[j].Waiting?
  }

  /** Every writer but `i` is as before, or stopped waiting because the service ended. */
  ghost predicate OthersStop(s: Service, t: Service, i: nat) {
    && |t.writers| == |s.writers|
    && forall j :: 0 <= j < |s.writers| && j != i ==>
         t.writers[j] == if t.closed then Stopped(s.writers[j]) else s.writers[j]
  }

  lemma CloseStops(s: Service, reason: Reason, serviceThrew: bool)
    requires s.closed ==> NobodyWaits(s)
    ensures var t := CloseWith(s, reason, serviceThrew);
            && t.closed && t.pending == s.pending && |t.writers| == |s.writers|
            && forall j :: 0 <= j < |s.writers| ==> t.writers[j] == Stopped(s.writers[j])
  {
  }

  lemma CompleteFinishes(s: Service, i: nat)
    requires i < |s.writers| && s.pending > 0
    ensures Complete(s, i).writers == s.writers[i := Done] && Complete(s, i).closed == s.closed
  {
  }

  lemma FinishStops(s: Service, i: nat, fits: bool, write: Write, serviceThrew: bool)
    requires i < |s.writers| && s.pending > 0 && (s.closed ==> NobodyWaits(s))
    ensures var t := Finish(s, i, fits, write, serviceThrew);
            && OthersStop(s, t, i)
            && (t.closed <==> s.closed || !fits || (!s.writeBlocked && write.Threw?))
            && t.writers[i] ==
               if t.closed then Done
               else if s.writeBlocked then Waiting(true)
               else if write.Full? then Waiting(false)
               else Done
  {
    hide Complete, CloseWith;
    CloseStops(s, Invalid, serviceThrew);
    CompleteFinishes(CloseWith(s, Invalid, serviceThrew), i);
    CompleteFinishes(s, i);
    CompleteFinishes(s.(written := s.written + [i]), i);
  }

  lemma ResumeStops(s: Service, i: nat, write: Write, serviceThrew: bool)
    requires i < |s.writers| && s.writers[i].Released? && (i > 0 ==> s.pending > 0) && (s.closed ==> NobodyWaits(s))
    requires i == 0 ==> s.writers[i].next.Conclude?
    ensures var t := Resume(s, i, write, serviceThrew);
            && OthersStop(s, t, i)
            && (t.closed <==> s.closed || s.writers[i].next.Abort?)
            && t.writers[i] ==
               if !s.writers[i].next.Retry? then Done
               else if s.closed then Released(Conclude)
               else if s.writeBlocked then Waiting(true)
               else match write
                 case Accepted => Released(Conclude)
                 case Full => Waiting(false)
                 case Threw => Released(Abort)
  {
    hide Complete, CloseWith;
    CloseStops(s, Invalid, serviceThrew);
    if i > 0 {
      CompleteFinishes(CloseWith(s, Invalid, serviceThrew), i);
      CompleteFinishes(s, i);
    }
  }

  lemma ReceiveStops(s: Service, handled: Handled, serviceThrew: bool)
    requires s.closed ==> NobodyWaits(s)
    ensures var t := Receive(s, handled, serviceThrew);
            if s.closed || s.pending >= s.maximum then OthersStop(s, t, |s.writers|) && t.closed
            else
              && OthersStop(s.(writers := s.writers + [Handling]), t, |s.writers|)
              && (t.closed <==>
                    || handled.HandlerThrew?
                    || (handled.Responded? && (!handled.fits || (!s.writeBlocked && handled.write.Threw?))))
              && t.writers[|s.writers|] ==
                 if handled.Pending? then Handling
                 else if t.closed then Done
                 else if s.writeBlocked then Waiting(true)
                 else if handled.write.Full? then Waiting(false)
                 else Done
  {
    hide Complete, CloseWith, Finish;
    CloseStops(s, Invalid, serviceThrew);
    if !s.closed && s.pending < s.maximum {
      var i := |s.writers|;
      var t := s.(pending := s.pending + 1, writers := s.writers + [Handling]);
      match handled
      case Pending =>
      case HandlerThrew =>
        CompleteFinishes(t, i);
        CloseStops(Complete(t, i), Invalid, serviceThrew);
      case Responded(fits, write) => FinishStops(t, i, fits, write, serviceThrew);
    }
  }

  lemma ClosedNobodyWaits(s: Service)
    requires Inv(s)
    ensures s.closed ==> NobodyWaits(s)
    ensures s.writers != [] && WriterOk(s, 0)
  {
    if s.closed {
      forall j | 0 <= j < |s.writers| ensures !s.writers[j].Waiting? { assert WriterOk(s, j); }
    }
  }

  /** Only an open service with room admits a request. */
  lemma AdmissionIsExact(s: Service, e: Event)
    requires Inv(s) && Enabled(s, e)
    ensures |Step(s, e).writers| ==
            |s.writers| + if e.RequestFrame? && !s.closed && s.pending < s.maximum then 1 else 0
  {
    hide Inv, Finish, Receive, Resume, CloseWith, Complete;
    StepStops(s, e);
  }

  lemma StepStops(s: Service, e: Event)
    requires Inv(s) && Enabled(s, e)
    ensures var t := Step(s, e);
            match e
            case ShutdownFrame(_) => OthersStop(s, t, |s.writers|) && t.closed
            case CloseFor(_, _) => OthersStop(s, t, |s.writers|) && t.closed
            case RequestFrame(_, _) =>
              OthersStop(if s.closed || s.pending >= s.maximum then s else s.(writers := s.writers + [Handling]), t, |s.writers|)
            case Drain =>
              |t.writers| == |s.writers| && forall j :: 0 <= j < |s.writers| ==> t.writers[j] == Stopped(s.writers[j])
            case HandlerResolved(i, _, _, _) => OthersStop(s, t, i)
            case HandlerRejected(i, _) => OthersStop(s, t, i) && t.closed && t.writers[i].Done?
            case Continue(i, _, _) => OthersStop(s, t, i)
  {
    hide Inv, Finish, Receive, Resume, CloseWith, Complete;
    ClosedNobodyWaits(s);
    match e
    case ShutdownFrame(serviceThrew) => CloseStops(s, Shutdown, serviceThrew);
    case CloseFor(reason, serviceThrew) => CloseStops(s, reason, serviceThrew);
    case RequestFrame(handled, serviceThrew) => ReceiveStops(s, handled, serviceThrew);
    case Drain =>
    case HandlerResolved(i, fits, write, serviceThrew) => FinishStops(s, i, fits, write, serviceThrew);
    case HandlerRejected(i, serviceThrew) =>
      CloseStops(s, Invalid, serviceThrew);
      CompleteFinishes(CloseWith(s, Invalid, serviceThrew), i);
    case Continue(i, write, serviceThrew) => ResumeStops(s, i, write, serviceThrew);
  }

  /** The event belongs to writer `j`: it settles its handler, continues it, or admits it. */
  predicate Concerns(s: Service, e: Event, j: nat) {
    match e
    case HandlerResolved(i, _, _, _) => i == j
    case HandlerRejected(i, _) => i == j
    case Continue(i, _, _) => i == j
    case RequestFrame(_, _) => j == |s.writers|
    case _ => false
  }

  /** A writer that the event does not belong to only stops waiting: when stdout drained or the service
      ended. It keeps what it waited for. */
  lemma OthersOnlyStopWaiting(s: Service, e: Event, j: nat)
    requires Inv(s) && Enabled(s, e) && j < |s.writers| && !Concerns(s, e, j)
    ensures var t := Step(s, e);
            && j < |t.writers|
            && t.writers[j] ==
               if s.writers[j].Waiting? && (e.Drain? || t.closed)
               then Released(if s.writers[j].retry then Retry else Conclude)
               else s.writers[j]
  {
    hide Inv, Enabled, Step;
    StepStops(s, e);
    ClosedNobodyWaits(s);
  }

  /** The writer that the event belongs to is finished unless its handler is still at work, its frame
      waits for the drain, or its continuation has yet to run. */
  lemma OwnPhaseIsExact(s: Service, e: Event, j: nat)
    requires Inv(s) && Enabled(s, e) && j < |Step(s, e).writers| && Concerns(s, e, j)
    ensures var p := Step(s, e).writers[j];
            && (p.Handling? <==> e.RequestFrame? && e.handled.Pending?)
            && (p == Waiting(true) <==> Answers(s, e, j) && !s.closed && s.writeBlocked)
            && (p == Waiting(false) <==> Writes(s, e, j) && Outcome(e).Full?)
            && (p == Released(Conclude) <==>
                  e.Continue? && Answers(s, e, j) && (s.closed || (!s.writeBlocked && e.write.Accepted?)))
            && (p == Released(Abort) <==>
                  e.Continue? && Answers(s, e, j) && !s.closed && !s.writeBlocked && e.write.Threw?)
            && p != Released(Retry)
  {
    hide Inv, Finish, Receive, Resume, CloseWith, Complete;
    ClosedNobodyWaits(s);
    AdmissionIsExact(s, e);
    match e
    case RequestFrame(handled, serviceThrew) => ReceiveStops(s, handled, serviceThrew);
    case HandlerResolved(i, fits, write, serviceThrew) => FinishStops(s, i, fits, write, serviceThrew);
    case HandlerRejected(i, serviceThrew) => StepStops(s, e);
    case Continue(i, write, serviceThrew) => ResumeStops(s, i, write, serviceThrew);
    case _ =>
  }

  predicate Finishes(s: Service, e: Event, j: nat)
    requires Enabled(s, e)
  {
    Concerns(s, e, j) && j < |Step(s, e).writers| && Step(s, e).writers[j].Done?
  }

  lemma OnlyOwnFinishes(s: Service, e: Event)
    requires Enabled(s, e)
    ensures forall j :: Finishes(s, e, j) ==> j == Writer(s, e)
  {
    hide Step, Enabled;
  }

  lemma ReadingOwn(s: Service, e: Event)
    requires Inv(s) && Enabled(s, e) && !Step(s, e).closed
    ensures var t := Step(s, e);
            var w := Writer(s, e);
            t.paused <==>
              || (Outcome(e).Full? && Writes(s, e, w))
              || (s.paused && !(Finishes(s, e, w) && !t.writeBlocked && (w == 0 ==> t.pending == 0)))
  {
    hide Inv, Finish, Receive, Resume, CloseWith, Complete;
    StepFlow(s, e);
    StreamFacts(s);
    ClosedNobodyWaits(s);
    if Concerns(s, e, Writer(s, e)) {
      AdmissionIsExact(s, e);
      if e.RequestFrame? {
        ReceiveStops(s, e.handled, e.serviceThrew);
      } else if e.HandlerResolved? {
        FinishStops(s, e.i, e.fits, e.write, e.serviceThrew);
      } else if e.Continue? {
        ResumeStops(s, e.i, e.write, e.serviceThrew);
        ResumeFlow(s, e.i, e.write, e.serviceThrew);
      }
    }
  }

  /** Reading stops with a frame that stdout queues and with the end of the service, and resumes with
      every request that finishes while no drain is owed, or with the ready frame when nothing is pending. */
  lemma ReadingIsExact(s: Service, e: Event)
    requires Inv(s) && Enabled(s, e) && !Step(s, e).closed
    ensures var t := Step(s, e);
            t.paused <==>
              || (Outcome(e).Full? && exists i :: Writes(s, e, i))
              || (s.paused && !exists j :: Finishes(s, e, j) && !t.writeBlocked && (j == 0 ==> t.pending == 0))
  {
    hide Inv, Step, Writes, Finishes, Enabled, Writer;
    WritesOwn(s, e);
    ReadingOwn(s, e);
    OnlyOwnFinishes(s, e);
  }

  /** In every run: while stdout owes a drain an open service does not read. */
  lemma {:induction false} BlockedIsPaused(trace: seq<Service>, events: seq<Event>, accepted: bool, i: nat)
    requires Run(trace, events, accepted) && i < |trace|
    ensures trace[i].writeBlocked && !trace[i].closed ==> trace[i].paused
  {
    hide Step, Enabled, Inv, Writes, Finishes, Outcome;
    if i > 0 {
      var s, e := trace[i - 1], events[i - 1];
      BlockedIsPaused(trace, events, accepted, i - 1);
      RunKeepsInvariant(trace, events, accepted, i - 1);
      assert Enabled(s, e) && trace[i] == Step(s, e);
      if !trace[i].closed {
        StepIsLater(s, e);
        ReadingIsExact(s, e);
        BlockedIsExact(s, e);
      }
    }
  }

  // ---------- every answer is written ----------

  /** In an open service a writer that is finished, or has only to conclude, has written its frame. */
  predicate Answered(s: Service) {
    !s.closed ==> forall i :: 0 <= i < |s.writers| && s.writers[i] in {Waiting(false), Released(Conclude), Done} ==>
      i in s.written
  }

  lemma StepAnswers(s: Service, e: Event)
    requires Inv(s) && Answered(s) && Enabled(s, e)
    ensures Answered(Step(s, e))
  {
    hide Outstanding, FlowOk, Step, Inv, ReleaseAll;
    var t := Step(s, e);
    if !t.closed {
      StepIsLater(s, e);
      AdmissionIsExact(s, e);
      forall j | 0 <= j < |t.writers| && t.writers[j] in {Waiting(false), Released(Conclude), Done}
        ensures j in t.written
      {
        if Concerns(s, e, j) {
          OwnFrameIsWritten(s, e, j);
        } else {
          OthersOnlyStopWaiting(s, e, j);
          assert j in s.written;
        }
      }
    }
  }

  lemma OwnFrameIsWritten(s: Service, e: Event, j: nat)
    requires Inv(s) && Answered(s) && Enabled(s, e) && !Step(s, e).closed
    requires j < |Step(s, e).writers| && Concerns(s, e, j)
    ensures Step(s, e).writers[j] in {Waiting(false), Released(Conclude), Done} ==> j in Step(s, e).written
  {
    hide Inv, Enabled, Step;
    ClosedNobodyWaits(s);
    OwnPhaseIsExact(s, e, j);
    WriteIsExact(s, e);
    StepIsLater(s, e);
    CloseIsExact(s, e);
    assert Writes(s, e, j) ==> Step(s, e).written == s.written + [j];
    AdmissionIsExact(s, e);
    var outcome := Outcome(e);
    assert outcome == Accepted || outcome == Full || outcome == Threw;
    if e.Continue? { ReleasedIsConcluding(s, e, j); }
  }

  lemma ReleasedIsConcluding(s: Service, e: Event, j: nat)
    requires Inv(s) && Answered(s) && Enabled(s, e) && !s.closed && e.Continue? && e.i == j
    ensures s.writers[j] == Released(Retry) || s.writers[j] == Released(Abort) || j in s.written
  {
    var next := s.writers[j].next;
    assert next == Retry || next == Conclude || next == Abort;
  }

  /** In every run: while the service is open, every request that is finished was answered on stdout. */
  lemma {:induction false} EveryAnswerIsWritten(trace: seq<Service>, events: seq<Event>, accepted: bool, i: nat)
    requires Run(trace, events, accepted) && i < |trace|
    ensures !trace[i].closed ==>
              forall w :: 0 <= w < |trace[i].writers| && trace[i].writers[w] in {Waiting(false), Released(Conclude), Done} ==>
                w in trace[i].written
  {
    hide Step, Enabled;
    if i > 0 {
      EveryAnswerIsWritten(trace, events, accepted, i - 1);
      RunKeepsInvariant(trace, events, accepted, i - 1);
      assert Enabled(trace[i - 1], events[i - 1]) && trace[i] == Step(trace[i - 1], events[i - 1]);
      StepAnswers(trace[i - 1], events[i - 1]);
    }
  }

  // ---------- every request can be answered ----------

  lemma NothingLost(s: Service, w: nat)
    requires Inv(s) && !s.closed && !s.writeBlocked && w < |s.writers| && s.writers[w] != Released(Abort)
    ensures s.writers[w] in {Handling, Released(Retry), Released(Conclude), Done}
    ensures w > 0 && !s.writers[w].Done? ==> s.pending > 0
    ensures w == 0 ==> s.writers[w] in {Released(Conclude), Done}
  {
    hide Outstanding;
    assert WriterOk(s, w) && w !in s.drainWaiters;
    if !s.writers[w].Done? {
      NotWaiting(s.writers[w]);
      if w > 0 { OutstandingPositive(s.writers, w); }
    }
  }

  /** The moves that take writer `w` to its end, while no drain is owed. */
  function Moves(p: Phase, w: nat): seq<Event> {
    match p
    case Handling => [HandlerResolved(w, true, Accepted, false)]
    case Released(Retry) => [Continue(w, Accepted, false), Continue(w, Accepted, false)]
    case Released(_) => [Continue(w, Accepted, false)]
    case _ => []
  }

  lemma OneMove(s: Service, w: nat, e: Event)
    requires Inv(s) && Answered(s) && !s.closed && !s.writeBlocked && w < |s.writers|
    requires Moves(s.writers[w], w) != [] && e == Moves(s.writers[w], w)[0] && s.writers[w] != Released(Abort)
    ensures Enabled(s, e) && Cooperative(e)
    ensures var t := Step(s, e);
            && !t.closed && !t.writeBlocked && w < |t.writers|
            && Moves(t.writers[w], w) == Moves(s.writers[w], w)[1..] && t.writers[w] in {Released(Conclude), Done}
  {
    hide Outstanding, FlowOk, Finish, Resume, CloseWith, Complete, Answered;
    NothingLost(s, w);
    HasReady(s);
    AdmissionIsExact(s, e);
    CloseIsExact(s, e);
    OwnPhaseIsExact(s, e, w);
    BlockedIsExact(s, e);
    if e.HandlerResolved? {
      FinishStops(s, w, true, Accepted, false);
    } else {
      ResumeStops(s, w, Accepted, false);
    }
  }

  lemma {:induction false} UnblockedAnswers(s: Service, w: nat) returns (path: seq<Event>, t: Service)
    requires Inv(s) && Answered(s) && !s.closed && !s.writeBlocked && w < |s.writers| && s.writers[w] != Released(Abort)
    ensures path == Moves(s.writers[w], w) && Reaches(s, path, t) && !t.closed && w in t.written
    decreases |Moves(s.writers[w], w)|
  {
    hide Inv, Step, Enabled, Cooperative;
    path := Moves(s.writers[w], w);
    if path == [] {
      NothingLost(s, w);
      t := s;
    } else {
      var e := path[0];
      OneMove(s, w, e);
      StepKeeps(s, e);
      StepAnswers(s, e);
      var rest;
      rest, t := UnblockedAnswers(Step(s, e), w);
      assert rest == path[1..];
    }
  }

  /** No request is ever out of reach: from every state of every run in which the service is open, at most
      three cooperating events put the answer of any writer, whose write has not thrown, on stdout. */
  lemma AnswerIsInReach(trace: seq<Service>, events: seq<Event>, accepted: bool, i: nat, w: nat)
      returns (path: seq<Event>, t: Service)
    requires Run(trace, events, accepted) && i < |trace| && !trace[i].closed
    requires w < |trace[i].writers| && trace[i].writers[w] != Released(Abort)
    ensures |path| <= 3 && Reaches(trace[i], path, t) && !t.closed && w in t.written
  {
    hide Inv, Step, Enabled;
    var s := trace[i];
    RunKeepsInvariant(trace, events, accepted, i);
    EveryAnswerIsWritten(trace, events, accepted, i);
    if s.writeBlocked {
      DrainUnblocks(s);
      StepKeeps(s, Drain);
      StepAnswers(s, Drain);
      DrainReleases(s, w);
      var rest;
      rest, t := UnblockedAnswers(Step(s, Drain), w);
      path := [Drain] + rest;
      assert path[1..] == rest;
    } else {
      path, t := UnblockedAnswers(s, w);
    }
  }

  lemma DrainReleases(s: Service, w: nat)
    requires Enabled(s, Drain) && w < |s.writers| && s.writers[w] != Released(Abort)
    ensures |Step(s, Drain).writers| == |s.writers| && Step(s, Drain).writers[w] != Released(Abort)
    ensures !Step(s, Drain).closed && !Step(s, Drain).writeBlocked
  {
  }

  // ---------- from start-up to the end ----------

  /** The events of a service that answers one request and is then shut down. */
  function OneRequest(accepted: bool, serviceThrew: bool): seq<Event> {
    (if accepted then [] else [Drain, Continue(0, Accepted, false)])
    + [RequestFrame(Pending, false), HandlerResolved(1, true, Accepted, false), ShutdownFrame(serviceThrew)]
  }

  function After(s: Service, events: seq<Event>): Option<Service>
    decreases |events|
  {
    if events == [] then Some(s)
    else if !Enabled(s, events[0]) then None
    else After(Step(s, events[0]), events[1..])
  }

  lemma AfterStep(s: Service, e: Event, events: seq<Event>)
    requires Enabled(s, e)
    ensures After(s, [e] + events) == After(Step(s, e), events)
  {
    assert ([e] + events)[1..] == events;
  }

  /** From start-up, whether or not stdout took the ready frame at once: the ready frame and the answer are
      written in this order, and the promise is resolved once with the reason of the end. */
  lemma OneRequestLife(maximum: nat, accepted: bool, serviceThrew: bool)
    requires maximum > 0
    ensures var t := After(Init(maximum, accepted), OneRequest(accepted, serviceThrew));
            && t.Some? && t.value.closed && t.value.pending == 0 && t.value.written == [0, 1]
            && t.value.resolved == [if serviceThrew then Invalid else Shutdown]
            && t.value.writers == [Done, Done]
  {
    hide After, Step, Enabled;
    var s := Init(maximum, accepted);
    var tail := [RequestFrame(Pending, false), HandlerResolved(1, true, Accepted, false), ShutdownFrame(serviceThrew)];
    if !accepted {
      ReadyResumes(maximum);
      AfterStep(s, Drain, [Continue(0, Accepted, false)] + tail);
      AfterStep(Step(s, Drain), Continue(0, Accepted, false), tail);
      assert OneRequest(accepted, serviceThrew) == [Drain] + ([Continue(0, Accepted, false)] + tail);
    } else {
      assert OneRequest(accepted, serviceThrew) == tail;
    }
    AnswerThenShutdown(maximum, serviceThrew);
  }

  /** The ready frame that stdout only queued leaves nothing behind once it is drained. */
  lemma ReadyResumes(maximum: nat)
    ensures var s := Init(maximum, false);
            && Enabled(s, Drain) && Enabled(Step(s, Drain), Continue(0, Accepted, false))
            && Step(Step(s, Drain), Continue(0, Accepted, false)) == Init(maximum, true)
  {
  }

  lemma AnswerThenShutdown(maximum: nat, serviceThrew: bool)
    requires maximum > 0
    ensures var s := Init(maximum, true);
            var tail := [RequestFrame(Pending, false), HandlerResolved(1, true, Accepted, false), ShutdownFrame(serviceThrew)];
            var t := After(s, tail);
            && t.Some? && t.value.closed && t.value.pending == 0 && t.value.written == [0, 1]
            && t.value.resolved == [if serviceThrew then Invalid else Shutdown]
            && t.value.writers == [Done, Done]
  {
    hide After, ReleaseAll;
    var e, f, g := RequestFrame(Pending, false), HandlerResolved(1, true, Accepted, false), ShutdownFrame(serviceThrew);
    var s := Init(maximum, true);
    AfterStep(s, e, [f, g]);
    AfterStep(Step(s, e), f, [g]);
    AfterStep(Step(Step(s, e), f), g, []);
    AfterNothing(Step(Step(Step(s, e), f), g));
    assert [e] + [f, g] == [e, f, g] && [f] + [g] == [f, g] && [g] + [] == [g];
  }

  lemma AfterNothing(s: Service)
    ensures After(s, []) == Some(s)
  {
  }
}
