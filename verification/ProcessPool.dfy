/**
 Bounded reuse of restricted processes (restricted-process-pool.ts).

 One step is one run of the event loop up to the next `await`. Every launch appends one
 record to `table`; the position in `table` is the identity of the launched entry, so
 replaced and failed launches stay visible to the proofs.
 */
module ProcessPool {
  import opened Common

  /** State of the promise of one entry. `peer` is set exactly in phase Ready. */
  datatype Phase =
    | Launched               // the entry is stored, its start has not run yet
    | Starting               // start(configuration) was called
    | Ready(available: bool) // the promise is fulfilled with a peer
    | Refused                // rejected; cleanup is confirmed
    | Uncertain              // rejected; a process may be left alive

  datatype Entry = Entry(key: string, phase: Phase, started: bool, released: bool)
  {
    /** A process was started for this entry and nothing confirms that it is gone. */
    predicate PossiblyAlive() {
      started && !released
    }

    predicate Inactive() {
      phase == Ready(false)
    }
  }

  /** Where the running admission job is suspended. */
  datatype Admission =
    | Idle
    | ClosingPrevious(id: nat)
    | ClosingInactive(id: nat)

  datatype Task = AwaitingStart | AwaitingClose | Done | Broken

  datatype Shutdown =
    | Open
    | AwaitingAdmission(ticket: nat)
    | Draining(tasks: map<nat, Task>)
    | Released
    | Failed

  datatype Pool = Pool(
    maximum: nat,
    table: seq<Entry>,
    entries: map<string, nat>,
    closing: bool,
    waiting: seq<string>, // keys of the admission jobs that have not settled, oldest first
    admission: Admission,
    settled: nat,         // number of admission jobs that have settled
    shutdown: Shutdown)

  datatype StartOutcome =
    | Started(available: bool)
    | CleanupConfirmed
    | CleanupUnknown

  datatype Event =
    | Acquire(key: string)
    | Admit
    | CloseReturned(ok: bool)
    | BeginStart(id: nat, configured: bool)
    | StartReturned(id: nat, outcome: StartOutcome)
    | ForgetRefused(id: nat)
    | PeerDied(id: nat)
    | Close
    | AdmissionDrained
    | OwnedSettled(id: nat)
    | OwnedClosed(id: nat, ok: bool)
    | ShutdownSettled

  function Init(maximum: nat): Pool {
    Pool(maximum, [], map[], false, [], Idle, 0, Open)
  }

  predicate ValidKey(key: string) {
    0 < |key| <= 512 && '\0' !in key
  }

  predicate Owned(s: Pool, id: nat) {
    id < |s.table| && s.table[id].key in s.entries && s.entries[s.table[id].key] == id
  }

  /** The first stored entry, in insertion order, whose peer is no longer available. */
  function FirstInactive(s: Pool, from: nat): (r: Option<nat>)
    ensures r.Some? ==> Owned(s, r.value) && s.table[r.value].Inactive()
    ensures r.None? ==> forall i :: from <= i < |s.table| && Owned(s, i) ==> !s.table[i].Inactive()
    decreases |s.table| - from
  {
    if from >= |s.table| then None
    else if Owned(s, from) && s.table[from].Inactive() then Some(from)
    else FirstInactive(s, from + 1)
  }

  /** The running admission job is over, whatever its outcome. */
  function SettleJob(s: Pool): Pool
    requires s.waiting != []
  {
    s.(waiting := s.waiting[1..], admission := Idle, settled := s.settled + 1)
  }

  /** Lines 70-71: refuse during shutdown, otherwise store a new entry. */
  function LaunchOrRefuse(s: Pool): Pool
    requires s.waiting != []
  {
    if s.closing then SettleJob(s)
    else SettleJob(s.(table := s.table + [Entry(s.waiting[0], Launched, false, false)],
                      entries := s.entries[s.waiting[0] := |s.table|]))
  }

  /** Lines 64-71: make room for one more entry. */
  function CheckCapacity(s: Pool): Pool
    requires s.waiting != []
  {
    if |s.entries| >= s.maximum then
      match FirstInactive(s, 0)
      case None => SettleJob(s)
      case Some(id) => s.(admission := ClosingInactive(id))
    else LaunchOrRefuse(s)
  }

  /** Lines 56-71, up to the first await. */
  function RunAdmission(s: Pool): Pool
    requires s.waiting != []
    requires forall k :: k in s.entries ==> s.entries[k] < |s.table|
  {
    var key := s.waiting[0];
    if s.closing || !ValidKey(key) then SettleJob(s)
    else if key in s.entries then
      if s.table[s.entries[key]].Inactive() then s.(admission := ClosingPrevious(s.entries[key]))
      else SettleJob(s)
    else CheckCapacity(s)
  }

  function Confirm(s: Pool, id: nat): Pool
    requires id < |s.table|
  {
    s.(table := s.table[id := s.table[id].(released := true)],
       entries := s.entries - {s.table[id].key})
  }

  predicate Enabled(s: Pool, e: Event) {
    match e
    case Acquire(_) => true
    case Admit => s.admission.Idle? && s.waiting != [] && forall k :: k in s.entries ==> s.entries[k] < |s.table|
    case CloseReturned(_) => !s.admission.Idle? && s.waiting != [] && s.admission.id < |s.table|
    case BeginStart(id, _) => id < |s.table| && s.table[id].phase.Launched?
    case StartReturned(id, _) => id < |s.table| && s.table[id].phase.Starting?
    case ForgetRefused(id) => id < |s.table| && s.table[id].phase.Refused?
    case PeerDied(id) => id < |s.table| && s.table[id].phase == Ready(true)
    case Close => true
    case AdmissionDrained => s.shutdown.AwaitingAdmission? && s.shutdown.ticket <= s.settled
    case OwnedSettled(id) =>
      && s.shutdown.Draining? && id in s.shutdown.tasks && s.shutdown.tasks[id].AwaitingStart?
      && id < |s.table| && !s.table[id].phase.Launched? && !s.table[id].phase.Starting?
    case OwnedClosed(id, _) =>
      && s.shutdown.Draining? && id in s.shutdown.tasks && s.shutdown.tasks[id].AwaitingClose?
      && id < |s.table|
    case ShutdownSettled =>
      s.shutdown.Draining? && forall id :: id in s.shutdown.tasks ==> s.shutdown.tasks[id] in {Done, Broken}
  }

  function Step(s: Pool, e: Event): Pool
    requires Enabled(s, e)
  {
    match e
    case Acquire(key) => s.(waiting := s.waiting + [key])
    case Admit => RunAdmission(s)
    case CloseReturned(ok) =>
      if !ok then SettleJob(s)
      else if s.admission.ClosingPrevious? then CheckCapacity(Confirm(s, s.admission.id))
      else LaunchOrRefuse(Confirm(s, s.admission.id))
    case BeginStart(id, configured) =>
      var entry := s.table[id];
      if s.closing || !configured then s.(table := s.table[id := entry.(phase := Refused)])
      else s.(table := s.table[id := entry.(phase := Starting, started := true)])
    case StartReturned(id, outcome) =>
      var entry := s.table[id];
      s.(table := s.table[id :=
        match outcome
        case Started(available) => entry.(phase := Ready(available))
        case CleanupConfirmed => entry.(phase := Refused, released := true)
        case CleanupUnknown => entry.(phase := Uncertain)])
    case ForgetRefused(id) =>
      if Owned(s, id) then s.(entries := s.entries - {s.table[id].key}) else s
    case PeerDied(id) => s.(table := s.table[id := s.table[id].(phase := Ready(false))])
    case Close =>
      if s.shutdown.Open? then s.(closing := true, shutdown := AwaitingAdmission(s.settled + |s.waiting|)) else s
    case AdmissionDrained =>
      s.(shutdown := Draining(map id | id in s.entries.Values :: AwaitingStart))
    case OwnedSettled(id) =>
      var task := match s.table[id].phase
        case Ready(_) => AwaitingClose
        case Refused => Done
        case _ => Broken;
      s.(shutdown := Draining(s.shutdown.tasks[id := task]))
    case OwnedClosed(id, ok) =>
      if ok then s.(shutdown := Draining(s.shutdown.tasks[id := Done]),
                    table := s.table[id := s.table[id].(released := true)])
      else s.(shutdown := Draining(s.shutdown.tasks[id := Broken]))
    case ShutdownSettled =>
      if exists id :: id in s.shutdown.tasks && s.shutdown.tasks[id].Broken? then s.(shutdown := Failed)
      else s.(shutdown := Released, entries := map[])
  }

  // ---------- invariant ----------

  predicate EntryOk(e: Entry) {
    match e.phase
    case Launched => !e.started && !e.released
    case Starting => e.started && !e.released
    case Ready(_) => e.started
    case Refused => !e.PossiblyAlive()
    case Uncertain => e.started && !e.released
  }

  /** The entry has started, or may still start, a process that nobody confirmed released. */
  predicate Unsettled(e: Entry) {
    e.PossiblyAlive() || e.phase.Launched?
  }

  predicate TableOk(s: Pool) {
    && (forall id :: 0 <= id < |s.table| ==> EntryOk(s.table[id]))
    && (forall id :: 0 <= id < |s.table| && Unsettled(s.table[id]) ==> Owned(s, id))
    && (forall k :: k in s.entries ==>
          && s.entries[k] < |s.table| && s.table[s.entries[k]].key == k
          && (s.shutdown.Open? || s.shutdown.AwaitingAdmission? ==>
                s.table[s.entries[k]].phase.Ready? ==> !s.table[s.entries[k]].released))
  }

  predicate AdmissionOk(s: Pool) {
    match s.admission
    case Idle => true
    case ClosingPrevious(id) =>
      s.waiting != [] && Owned(s, id) && s.table[id].Inactive() && s.table[id].key == s.waiting[0]
    case ClosingInactive(id) =>
      s.waiting != [] && Owned(s, id) && s.table[id].Inactive() && s.waiting[0] !in s.entries
  }

  predicate TaskOk(e: Entry, t: Task) {
    match t
    case AwaitingStart => e.phase.Ready? ==> !e.released
    case AwaitingClose => e.phase.Ready? && !e.released
    case Done => !Unsettled(e)
    case Broken => e.PossiblyAlive() && !e.phase.Starting?
  }

  predicate ShutdownOk(s: Pool) {
    && (s.closing <==> !s.shutdown.Open?)
    && match s.shutdown
       case Open => true
       case AwaitingAdmission(ticket) => s.admission.Idle? || s.settled < ticket
       case Draining(tasks) =>
         && s.admission.Idle?
         && (forall id :: id in tasks ==> id < |s.table| && TaskOk(s.table[id], tasks[id]))
         && (forall id :: 0 <= id < |s.table| && Unsettled(s.table[id]) ==> id in tasks)
       case Released =>
         && s.admission.Idle?
         && s.entries == map[]
       case Failed => s.admission.Idle?
  }

  predicate Inv(s: Pool) {
    && 1 <= s.maximum
    && |s.entries| <= s.maximum
    && TableOk(s)
    && AdmissionOk(s)
    && ShutdownOk(s)
  }

  /** The table's conditions look at the table, the entries and whether draining has begun. */
  lemma TableIgnores(s: Pool, t: Pool)
    requires TableOk(s) && t.table == s.table && t.entries == s.entries
    requires t.shutdown.Open? || t.shutdown.AwaitingAdmission? ==> s.shutdown.Open? || s.shutdown.AwaitingAdmission?
    ensures TableOk(t)
  {
    forall id | 0 <= id < |t.table| && Unsettled(t.table[id]) ensures Owned(t, id) { assert Owned(s, id); }
  }

  lemma SettleKeeps(s: Pool)
    requires Inv(s) && s.waiting != []
    ensures Inv(SettleJob(s))
  {
  }

  lemma EntryAt(s: Pool, id: nat)
    requires Inv(s) && id < |s.table|
    ensures EntryOk(s.table[id])
  {
  }

  lemma LaunchedTableOk(s: Pool, key: string)
    requires TableOk(s) && key !in s.entries
    ensures TableOk(s.(table := s.table + [Entry(key, Launched, false, false)], entries := s.entries[key := |s.table|]))
  {
    var t := s.(table := s.table + [Entry(key, Launched, false, false)], entries := s.entries[key := |s.table|]);
    forall id | 0 <= id < |t.table| && Unsettled(t.table[id]) ensures Owned(t, id) {
      if id < |s.table| { assert Owned(s, id); }
    }
  }

  lemma LaunchKeeps(s: Pool)
    requires Inv(s.(admission := Idle)) && s.waiting != [] && s.waiting[0] !in s.entries
    requires |s.entries| < s.maximum
    requires s.shutdown.Open? || s.shutdown.AwaitingAdmission?
    ensures Inv(LaunchOrRefuse(s))
  {
    hide Inv, TableOk, AdmissionOk, ShutdownOk;
    var idle := s.(admission := Idle);
    if s.closing {
      SettleKeeps(idle);
    } else {
      var stored := idle.(table := s.table + [Entry(s.waiting[0], Launched, false, false)],
                          entries := s.entries[s.waiting[0] := |s.table|]);
      StoringKeeps(idle, s.waiting[0]);
      SettleKeeps(stored);
    }
  }

  lemma StoringKeeps(s: Pool, key: string)
    requires Inv(s) && s.admission.Idle? && key !in s.entries && |s.entries| < s.maximum
    requires s.shutdown.Open? || s.shutdown.AwaitingAdmission?
    ensures Inv(s.(table := s.table + [Entry(key, Launched, false, false)], entries := s.entries[key := |s.table|]))
  {
    hide TableOk;
    LaunchedTableOk(s, key);
    AddKeyGrows(s.entries, key, |s.table|);
  }

  lemma CapacityKeeps(s: Pool)
    requires Inv(s.(admission := Idle)) && s.waiting != [] && s.waiting[0] !in s.entries
    requires s.shutdown.Open? || (s.shutdown.AwaitingAdmission? && s.settled < s.shutdown.ticket)
    ensures Inv(CheckCapacity(s))
  {
    hide Inv, LaunchOrRefuse, FirstInactive, Owned;
    if |s.entries| >= s.maximum {
      var inactive := FirstInactive(s, 0);
      if inactive.None? { SettleKeeps(s.(admission := Idle)); } else { InactiveKeeps(s, inactive.value); }
    } else {
      LaunchKeeps(s);
    }
  }

  lemma InactiveKeeps(s: Pool, id: nat)
    requires Inv(s.(admission := Idle)) && s.waiting != [] && s.waiting[0] !in s.entries
    requires s.shutdown.Open? || (s.shutdown.AwaitingAdmission? && s.settled < s.shutdown.ticket)
    requires Owned(s, id) && s.table[id].Inactive()
    ensures Inv(s.(admission := ClosingInactive(id)))
  {
    hide TableOk;
    TableIgnores(s.(admission := Idle), s.(admission := ClosingInactive(id)));
  }

  lemma ConfirmKeeps(s: Pool, id: nat)
    requires Inv(s) && Owned(s, id) && s.table[id].Inactive() && !s.admission.Idle?
    ensures var t := Confirm(s, id).(admission := Idle);
            Inv(t) && s.table[id].key !in t.entries && |t.entries| < s.maximum
  {
    var t := Confirm(s, id).(admission := Idle);
    RemoveKeyShrinks(s.entries, s.table[id].key);
    forall i | 0 <= i < |t.table| && Unsettled(t.table[i]) ensures Owned(t, i) {
      assert i != id && Owned(s, i);
    }
  }

  lemma UpdatedTableOk(s: Pool, id: nat, e: Entry)
    requires Inv(s) && id < |s.table| && EntryOk(e) && e.key == s.table[id].key
    requires Unsettled(e) ==> Unsettled(s.table[id])
    requires s.table[id].Inactive() ==> e.Inactive()
    requires s.table[id].phase in {Launched, Starting} || (s.table[id].phase.Ready? && e.phase.Ready?)
    requires e.phase.Ready? ==> s.table[id].released == e.released
    ensures TableOk(s.(table := s.table[id := e]))
  {
    hide AdmissionOk, ShutdownOk;
    var t := s.(table := s.table[id := e]);
    forall i | 0 <= i < |t.table| && Unsettled(t.table[i]) ensures Owned(t, i) {
      assert Owned(s, i);
    }
  }

  lemma UpdatedShutdownOk(s: Pool, id: nat, e: Entry)
    requires Inv(s) && id < |s.table| && EntryOk(e) && e.key == s.table[id].key
    requires Unsettled(e) ==> Unsettled(s.table[id])
    requires s.table[id].Inactive() ==> e.Inactive()
    requires s.table[id].phase in {Launched, Starting} || (s.table[id].phase.Ready? && e.phase.Ready?)
    requires e.phase.Ready? ==> s.table[id].released == e.released
    ensures ShutdownOk(s.(table := s.table[id := e]))
  {
    hide TableOk, AdmissionOk;
    EntryAt(s, id);
  }

  lemma TableUpdateKeeps(s: Pool, id: nat, e: Entry)
    requires Inv(s) && id < |s.table| && EntryOk(e) && e.key == s.table[id].key
    requires Unsettled(e) ==> Unsettled(s.table[id])
    requires s.table[id].Inactive() ==> e.Inactive()
    requires s.table[id].phase in {Launched, Starting} || (s.table[id].phase.Ready? && e.phase.Ready?)
    requires e.phase.Ready? ==> s.table[id].released == e.released
    ensures Inv(s.(table := s.table[id := e]))
  {
    hide TableOk, ShutdownOk;
    UpdatedTableOk(s, id, e);
    UpdatedShutdownOk(s, id, e);
  }

  lemma DrainStartKeeps(s: Pool)
    requires Inv(s) && Enabled(s, AdmissionDrained)
    ensures Inv(Step(s, AdmissionDrained))
  {
    forall id | 0 <= id < |s.table| && Unsettled(s.table[id]) ensures id in s.entries.Values {
      assert Owned(s, id);
      assert s.entries[s.table[id].key] in s.entries.Values;
    }
  }

  lemma OwnedSettledKeeps(s: Pool, id: nat)
    requires Inv(s) && Enabled(s, OwnedSettled(id))
    ensures Inv(Step(s, OwnedSettled(id)))
  {
  }

  lemma ReleasedTableOk(s: Pool, id: nat)
    requires Inv(s) && Enabled(s, OwnedClosed(id, true))
    ensures TableOk(Step(s, OwnedClosed(id, true)))
  {
    hide AdmissionOk;
    var t := Step(s, OwnedClosed(id, true));
    forall i | 0 <= i < |t.table| && Unsettled(t.table[i]) ensures Owned(t, i) { assert Owned(s, i); }
  }

  lemma OwnedClosedKeeps(s: Pool, id: nat, ok: bool)
    requires Inv(s) && Enabled(s, OwnedClosed(id, ok))
    ensures Inv(Step(s, OwnedClosed(id, ok)))
  {
    hide TableOk;
    EntryAt(s, id);
    var t := Step(s, OwnedClosed(id, ok));
    if ok { ReleasedTableOk(s, id); } else { TableIgnores(s, t); }
    forall i | 0 <= i < |t.table| && Unsettled(t.table[i]) ensures i in t.shutdown.tasks {
      assert Unsettled(s.table[i]);
    }
  }

  lemma ShutdownSettledKeeps(s: Pool)
    requires Inv(s) && Enabled(s, ShutdownSettled)
    ensures Inv(Step(s, ShutdownSettled))
  {
    var tasks := s.shutdown.tasks;
    if !exists id :: id in tasks && tasks[id].Broken? {
      forall id | 0 <= id < |s.table| ensures !Unsettled(s.table[id]) {
        assert Unsettled(s.table[id]) ==> id in tasks;
      }
    }
  }

  lemma ForgetKeeps(s: Pool, id: nat)
    requires Inv(s) && Enabled(s, ForgetRefused(id))
    ensures Inv(Step(s, ForgetRefused(id)))
  {
    var t := Step(s, ForgetRefused(id));
    if Owned(s, id) {
      RemoveKeyShrinks(s.entries, s.table[id].key);
      forall i | 0 <= i < |t.table| && Unsettled(t.table[i]) ensures Owned(t, i) {
        assert i != id && Owned(s, i);
      }
    }
  }

  lemma WaitKeeps(s: Pool, key: string)
    requires Inv(s)
    ensures Inv(Step(s, Acquire(key))) && Inv(Step(s, Close))
  {
    hide TableOk;
    TableIgnores(s, Step(s, Acquire(key)));
    TableIgnores(s, Step(s, Close));
  }

  lemma AdmitKeeps(s: Pool)
    requires Inv(s) && Enabled(s, Admit)
    ensures Inv(Step(s, Admit))
  {
    hide CheckCapacity, Unsettled, EntryOk;
    SettleKeeps(s);
    if s.waiting[0] !in s.entries && !s.closing { CapacityKeeps(s); }
  }

  lemma CloseReturnedKeeps(s: Pool, ok: bool)
    requires Inv(s) && Enabled(s, CloseReturned(ok))
    ensures Inv(Step(s, CloseReturned(ok)))
  {
    hide CheckCapacity, LaunchOrRefuse, TableOk;
    SettleKeeps(s);
    if ok {
      ConfirmKeeps(s, s.admission.id);
      if s.admission.ClosingPrevious? {
        CapacityKeeps(Confirm(s, s.admission.id));
      } else {
        LaunchKeeps(Confirm(s, s.admission.id));
      }
    }
  }

  lemma BeginStartKeeps(s: Pool, id: nat, configured: bool)
    requires Inv(s) && Enabled(s, BeginStart(id, configured))
    ensures Inv(Step(s, BeginStart(id, configured)))
  {
    hide Inv;
    EntryAt(s, id);
    TableUpdateKeeps(s, id, Step(s, BeginStart(id, configured)).table[id]);
  }

  lemma StartReturnedKeeps(s: Pool, id: nat, outcome: StartOutcome)
    requires Inv(s) && Enabled(s, StartReturned(id, outcome))
    ensures Inv(Step(s, StartReturned(id, outcome)))
  {
    hide Inv;
    EntryAt(s, id);
    TableUpdateKeeps(s, id, Step(s, StartReturned(id, outcome)).table[id]);
  }

  lemma PeerDiedKeeps(s: Pool, id: nat)
    requires Inv(s) && Enabled(s, PeerDied(id))
    ensures Inv(Step(s, PeerDied(id)))
  {
    hide Inv;
    EntryAt(s, id);
    TableUpdateKeeps(s, id, Step(s, PeerDied(id)).table[id]);
  }

  /** Every step keeps the invariant. */
  lemma StepKeeps(s: Pool, e: Event)
    requires Inv(s) && Enabled(s, e)
    ensures Inv(Step(s, e))
  {
    hide Inv, Step, Enabled;
    match e
    case Acquire(key) => WaitKeeps(s, key);
    case Admit => AdmitKeeps(s);
    case CloseReturned(ok) => CloseReturnedKeeps(s, ok);
    case BeginStart(id, configured) => BeginStartKeeps(s, id, configured);
    case StartReturned(id, outcome) => StartReturnedKeeps(s, id, outcome);
    case ForgetRefused(id) => ForgetKeeps(s, id);
    case PeerDied(id) => PeerDiedKeeps(s, id);
    case Close => WaitKeeps(s, "");
    case AdmissionDrained => DrainStartKeeps(s);
    case OwnedSettled(id) => OwnedSettledKeeps(s, id);
    case OwnedClosed(id, ok) => OwnedClosedKeeps(s, id, ok);
    case ShutdownSettled => ShutdownSettledKeeps(s);
  }

  // ---------- whole runs ----------

  ghost predicate Run(trace: seq<Pool>, events: seq<Event>) {
    && |trace| == |events| + 1
    && 1 <= trace[0].maximum && trace[0] == Init(trace[0].maximum)
    && forall i :: 0 <= i < |events| ==> Enabled(trace[i], events[i]) && trace[i + 1] == Step(trace[i], events[i])
  }

  lemma {:induction false} RunKeepsInvariant(trace: seq<Pool>, events: seq<Event>, i: nat)
    requires Run(trace, events) && i < |trace|
    ensures Inv(trace[i])
  {
    hide Step, Enabled;
    if i > 0 {
      RunKeepsInvariant(trace, events, i - 1);
      assert Enabled(trace[i - 1], events[i - 1]);
      StepKeeps(trace[i - 1], events[i - 1]);
    }
  }

  function AliveProcesses(s: Pool): set<nat> {
    set id | 0 <= id < |s.table| && s.table[id].PossiblyAlive()
  }

  /** In every run at most `maximum` processes are possibly alive, each is owned by the entry
      stored under its key, and no key has two of them. */
  lemma OwnershipIsBounded(trace: seq<Pool>, events: seq<Event>, i: nat)
    requires Run(trace, events) && i < |trace|
    ensures |AliveProcesses(trace[i])| <= trace[i].maximum
    ensures forall p, q :: p in AliveProcesses(trace[i]) && q in AliveProcesses(trace[i]) ==>
              && Owned(trace[i], p)
              && (trace[i].table[p].key == trace[i].table[q].key ==> p == q)
  {
    RunKeepsInvariant(trace, events, i);
    var s := trace[i];
    forall id | id in AliveProcesses(s) ensures exists k :: k in s.entries && s.entries[k] == id {
      assert Owned(s, id);
    }
    ValuesBound(s.entries, AliveProcesses(s));
  }

  /** The verdict of close() is exact: it rejects if and only if some process is possibly alive. */
  lemma CloseVerdictIsExact(trace: seq<Pool>, events: seq<Event>, i: nat)
    requires Run(trace, events) && i < |events| && events[i].ShutdownSettled?
    ensures trace[i + 1].shutdown == if AliveProcesses(trace[i]) == {} then Released else Failed
    ensures AliveProcesses(trace[i + 1]) == AliveProcesses(trace[i])
    ensures trace[i + 1].shutdown.Failed? ==> trace[i + 1].entries == trace[i].entries
  {
    RunKeepsInvariant(trace, events, i);
    var s := trace[i];
    assert Enabled(s, events[i]) && trace[i + 1] == Step(s, events[i]);
    var tasks := s.shutdown.tasks;
    if id :| id in tasks && tasks[id].Broken? {
      assert TaskOk(s.table[id], tasks[id]);
      assert id in AliveProcesses(s);
    } else {
      forall id | 0 <= id < |s.table| ensures !s.table[id].PossiblyAlive() {
        assert Unsettled(s.table[id]) ==> id in tasks;
      }
    }
  }

  predicate Quiet(s: Pool) {
    forall id :: 0 <= id < |s.table| ==> !Unsettled(s.table[id]) && !s.table[id].phase.Starting?
  }

  lemma ReleasedIsQuiet(s: Pool)
    requires Inv(s) && s.shutdown.Released?
    ensures Quiet(s)
  {
    assert forall id :: 0 <= id < |s.table| ==> !Owned(s, id);
    assert forall id :: 0 <= id < |s.table| ==> EntryOk(s.table[id]);
  }

  predicate SameStarts(s: Pool, t: Pool) {
    && |s.table| == |t.table|
    && forall id :: 0 <= id < |s.table| ==> s.table[id].started == t.table[id].started
  }

  lemma ReleasedIsFinal(s: Pool, e: Event)
    requires Inv(s) && s.shutdown.Released? && Enabled(s, e)
    ensures Step(s, e).shutdown.Released? && SameStarts(s, Step(s, e))
  {
    ReleasedIsQuiet(s);
  }

  /** Once close() has fulfilled, every process ever started is released, and from then on
      the pool launches and starts nothing. */
  lemma {:induction false} CloseReleasesEverything(trace: seq<Pool>, events: seq<Event>, i: nat, j: nat)
    requires Run(trace, events) && i <= j < |trace| && trace[i].shutdown.Released?
    ensures trace[j].shutdown.Released? && SameStarts(trace[i], trace[j])
    ensures Quiet(trace[j])
    decreases j
  {
    hide Step, Enabled, Inv, Quiet, Init;
    if i < j {
      CloseReleasesEverything(trace, events, i, j - 1);
      RunKeepsInvariant(trace, events, j - 1);
      assert Enabled(trace[j - 1], events[j - 1]) && trace[j] == Step(trace[j - 1], events[j - 1]);
      ReleasedIsFinal(trace[j - 1], events[j - 1]);
    }
    RunKeepsInvariant(trace, events, j);
    ReleasedIsQuiet(trace[j]);
  }

  /** Admission leaves a key without an entry only when it must. */
  lemma RefusalIsJustified(s: Pool)
    requires Inv(s) && Enabled(s, Admit) && s.waiting[0] !in Step(s, Admit).entries
    ensures
      || s.closing
      || !ValidKey(s.waiting[0])
      || (Step(s, Admit).admission.ClosingInactive? && |s.entries| == s.maximum)
      || (|s.entries| == s.maximum
          && forall k :: k in s.entries ==> !s.table[s.entries[k]].Inactive())
  {
    if FirstInactive(s, 0).None? {
      forall k | k in s.entries ensures !s.table[s.entries[k]].Inactive() {
        assert Owned(s, s.entries[k]);
      }
    }
  }

  // ---------- the pool object ----------

  class RestrictedProcessPool {
    const maximum: nat
    var table: seq<Entry>
    var entries: map<string, nat>
    var closing: bool
    var waiting: seq<string>
    var admission: Admission
    var settled: nat
    var shutdown: Shutdown

    function State(): Pool
      reads this
    {
      Pool(maximum, table, entries, closing, waiting, admission, settled, shutdown)
    }

    constructor (maximumProcesses: nat)
      requires 1 <= maximumProcesses <= 16
      ensures State() == Init(maximumProcesses) && Inv(State())
    {
      maximum := maximumProcesses;
      table, entries, closing := [], map[], false;
      waiting, admission, settled := [], Idle, 0;
      shutdown := Open;
    }

    method Acquire(key: string)
      requires Inv(State())
      modifies this
      ensures Inv(State()) && State() == Step(old(State()), Event.Acquire(key))
    {
      waiting := waiting + [key];
    }

    method Settle()
      requires waiting != []
      modifies this`waiting, this`admission, this`settled
      ensures State() == SettleJob(old(State()))
    {
      waiting, admission, settled := waiting[1..], Idle, settled + 1;
    }

    method Launch()
      requires waiting != []
      modifies this`waiting, this`admission, this`settled, this`table, this`entries
      ensures State() == LaunchOrRefuse(old(State()))
    {
      if !closing {
        entries := entries[waiting[0] := |table|];
        table := table + [Entry(waiting[0], Launched, false, false)];
      }
      Settle();
    }

    method FindInactive() returns (id: Option<nat>)
      ensures id == FirstInactive(State(), 0)
    {
      var i := 0;
      while i < |table|
        invariant 0 <= i <= |table|
        invariant FirstInactive(State(), 0) == FirstInactive(State(), i)
      {
        if Owned(State(), i) && table[i].Inactive() { return Some(i); }
        i := i + 1;
      }
      return None;
    }

    method MakeRoom()
      requires waiting != []
      modifies this`waiting, this`admission, this`settled, this`table, this`entries
      ensures State() == CheckCapacity(old(State()))
    {
      if |entries| >= maximum {
        var inactive := FindInactive();
        if inactive.None? {
          Settle();
        } else {
          admission := ClosingInactive(inactive.value);
        }
      } else {
        Launch();
      }
    }

    method Admit()
      requires Inv(State()) && Enabled(State(), Event.Admit)
      modifies this
      ensures Inv(State()) && State() == Step(old(State()), Event.Admit)
    {
      hide Inv, CheckCapacity, LaunchOrRefuse, SettleJob;
      StepKeeps(State(), Event.Admit);
      var key := waiting[0];
      if closing || !ValidKey(key) {
        Settle();
      } else if key in entries {
        var previous := table[entries[key]];
        if previous.Inactive() {
          admission := ClosingPrevious(entries[key]);
        } else {
          Settle();
        }
      } else {
        MakeRoom();
      }
    }

    method CloseReturned(ok: bool)
      requires Inv(State()) && Enabled(State(), Event.CloseReturned(ok))
      modifies this
      ensures Inv(State()) && State() == Step(old(State()), Event.CloseReturned(ok))
    {
      hide Inv, CheckCapacity, LaunchOrRefuse, SettleJob;
      StepKeeps(State(), Event.CloseReturned(ok));
      if !ok {
        Settle();
        return;
      }
      var id := admission.id;
      entries := entries - {table[id].key};
      table := table[id := table[id].(released := true)];
      if admission.ClosingPrevious? {
        MakeRoom();
      } else {
        Launch();
      }
    }

    method BeginStart(id: nat, configured: bool)
      requires Inv(State()) && Enabled(State(), Event.BeginStart(id, configured))
      modifies this
      ensures Inv(State()) && State() == Step(old(State()), Event.BeginStart(id, configured))
    {
      StepKeeps(State(), Event.BeginStart(id, configured));
      if closing || !configured {
        table := table[id := table[id].(phase := Refused)];
      } else {
        table := table[id := table[id].(phase := Starting, started := true)];
      }
    }

    method StartReturned(id: nat, outcome: StartOutcome)
      requires Inv(State()) && Enabled(State(), Event.StartReturned(id, outcome))
      modifies this
      ensures Inv(State()) && State() == Step(old(State()), Event.StartReturned(id, outcome))
    {
      StepKeeps(State(), Event.StartReturned(id, outcome));
      match outcome
      case Started(available) => table := table[id := table[id].(phase := Ready(available))];
      case CleanupConfirmed => table := table[id := table[id].(phase := Refused, released := true)];
      case CleanupUnknown => table := table[id := table[id].(phase := Uncertain)];
    }

    method ForgetRefused(id: nat)
      requires Inv(State()) && Enabled(State(), Event.ForgetRefused(id))
      modifies this
      ensures Inv(State()) && State() == Step(old(State()), Event.ForgetRefused(id))
    {
      StepKeeps(State(), Event.ForgetRefused(id));
      var key := table[id].key;
      if key in entries && entries[key] == id {
        entries := entries - {key};
      }
    }

    method PeerDied(id: nat)
      requires Inv(State()) && Enabled(State(), Event.PeerDied(id))
      modifies this
      ensures Inv(State()) && State() == Step(old(State()), Event.PeerDied(id))
    {
      StepKeeps(State(), Event.PeerDied(id));
      table := table[id := table[id].(phase := Ready(false))];
    }

    method Close()
      requires Inv(State())
      modifies this
      ensures Inv(State()) && State() == Step(old(State()), Event.Close)
    {
      if shutdown.Open? {
        closing := true;
        shutdown := AwaitingAdmission(settled + |waiting|);
      }
    }

    method AdmissionDrained()
      requires Inv(State()) && Enabled(State(), Event.AdmissionDrained)
      modifies this
      ensures Inv(State()) && State() == Step(old(State()), Event.AdmissionDrained)
    {
      StepKeeps(State(), Event.AdmissionDrained);
      shutdown := Draining(map id | id in entries.Values :: AwaitingStart);
    }

    method OwnedSettled(id: nat)
      requires Inv(State()) && Enabled(State(), Event.OwnedSettled(id))
      modifies this
      ensures Inv(State()) && State() == Step(old(State()), Event.OwnedSettled(id))
    {
      StepKeeps(State(), Event.OwnedSettled(id));
      var task := Broken;
      if table[id].phase.Ready? {
        task := AwaitingClose;
      } else if table[id].phase.Refused? {
        task := Done;
      }
      shutdown := Draining(shutdown.tasks[id := task]);
    }

    method OwnedClosed(id: nat, ok: bool)
      requires Inv(State()) && Enabled(State(), Event.OwnedClosed(id, ok))
      modifies this
      ensures Inv(State()) && State() == Step(old(State()), Event.OwnedClosed(id, ok))
    {
      StepKeeps(State(), Event.OwnedClosed(id, ok));
      if ok {
        table := table[id := table[id].(released := true)];
      }
      shutdown := Draining(shutdown.tasks[id := if ok then Done else Broken]);
    }

    method ShutdownSettled()
      requires Inv(State()) && Enabled(State(), Event.ShutdownSettled)
      modifies this
      ensures Inv(State()) && State() == Step(old(State()), Event.ShutdownSettled)
    {
      StepKeeps(State(), Event.ShutdownSettled);
      if exists id :: id in shutdown.tasks && shutdown.tasks[id].Broken? {
        shutdown := Failed;
      } else {
        shutdown, entries := Released, map[];
      }
    }

    /** Whatever happens next, the object takes the step of the run lemmas. */
    method Perform(e: Event)
      requires Inv(State()) && Enabled(State(), e)
      modifies this
      ensures Inv(State()) && State() == Step(old(State()), e)
    {
      hide Inv, Step;
      match e
      case Acquire(key) => Acquire(key);
      case Admit => Admit();
      case CloseReturned(ok) => CloseReturned(ok);
      case BeginStart(id, configured) => BeginStart(id, configured);
      case StartReturned(id, outcome) => StartReturned(id, outcome);
      case ForgetRefused(id) => ForgetRefused(id);
      case PeerDied(id) => PeerDied(id);
      case Close => Close();
      case AdmissionDrained => AdmissionDrained();
      case OwnedSettled(id) => OwnedSettled(id);
      case OwnedClosed(id, ok) => OwnedClosed(id, ok);
      case ShutdownSettled => ShutdownSettled();
    }
  }
}
