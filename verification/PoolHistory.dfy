/**
 What a run of the process pool makes of its events (restricted-process-pool.ts), told from the
 events alone, and what each step does seen from its effects.
 */
module PoolHistory {
  import opened Common
  import opened ProcessPool

  // ---------- the admission queue ----------

  /** The keys asked for, in order. */
  function Asked(events: seq<Event>): seq<string> {
    if events == [] then []
    else
      var front, last := events[..|events| - 1], events[|events| - 1];
      Asked(front) + if last.Acquire? then [last.key] else []
  }

  /** At most the job at the head of the queue is settled, and nothing is closed. */
  predicate AtMostOne(s: Pool, t: Pool) {
    && t.closing == s.closing && t.shutdown == s.shutdown
    && ((t.waiting == s.waiting && t.settled == s.settled)
        || (s.waiting != [] && t.waiting == s.waiting[1..] && t.settled == s.settled + 1))
  }

  lemma ConfirmKeepsQueue(s: Pool, id: nat)
    requires id < |s.table|
    ensures var t := Confirm(s, id);
            t.waiting == s.waiting && t.settled == s.settled && t.closing == s.closing && t.shutdown == s.shutdown
  {
  }

  lemma LaunchAsks(s: Pool)
    requires s.waiting != []
    ensures AtMostOne(s, LaunchOrRefuse(s))
  {
  }

  lemma CapacityAsks(s: Pool)
    requires s.waiting != []
    ensures AtMostOne(s, CheckCapacity(s))
  {
    hide LaunchOrRefuse, FirstInactive;
    LaunchAsks(s);
  }

  lemma AdmissionAsks(s: Pool)
    requires s.waiting != [] && forall k :: k in s.entries ==> s.entries[k] < |s.table|
    ensures AtMostOne(s, RunAdmission(s))
  {
    hide CheckCapacity, LaunchOrRefuse;
    CapacityAsks(s);
  }

  lemma OneSettlesAtATime(s: Pool, e: Event)
    requires Enabled(s, e)
    ensures var t := Step(s, e);
            if e.Acquire? then t.waiting == s.waiting + [e.key] && t.settled == s.settled
            else
              || (t.waiting == s.waiting && t.settled == s.settled)
              || (s.waiting != [] && t.waiting == s.waiting[1..] && t.settled == s.settled + 1)
  {
    hide Confirm, RunAdmission, CheckCapacity, LaunchOrRefuse, FirstInactive, Owned;
    if e.Admit? {
      AdmissionAsks(s);
    } else if e.CloseReturned? && e.ok {
      ConfirmKeepsQueue(s, s.admission.id);
      CapacityAsks(Confirm(s, s.admission.id));
      LaunchAsks(Confirm(s, s.admission.id));
    }
  }

  /** Admissions settle one by one in the order in which they were asked for. */
  lemma {:induction false} QueueIsInOrder(trace: seq<Pool>, events: seq<Event>, i: nat)
    requires Run(trace, events) && i < |trace|
    ensures trace[i].settled <= |Asked(events[..i])| && trace[i].waiting == Asked(events[..i])[trace[i].settled..]
  {
    hide Step, Enabled;
    if i > 0 {
      QueueIsInOrder(trace, events, i - 1);
      assert Enabled(trace[i - 1], events[i - 1]) && trace[i] == Step(trace[i - 1], events[i - 1]);
      OneSettlesAtATime(trace[i - 1], events[i - 1]);
      assert events[..i][..i - 1] == events[..i - 1];
    }
  }

  // ---------- launches ----------

  /** A key of 1 to 512 units without NUL. */
  predicate Admissible(key: string) {
    1 <= |key| <= 512 && forall i :: 0 <= i < |key| ==> key[i] != 0 as char
  }

  predicate Launches(s: Pool, e: Event) {
    && !s.closing && s.waiting != []
    && (|| (e.Admit? && Admissible(s.waiting[0]) && s.waiting[0] !in s.entries && |s.entries| < s.maximum)
        || e == CloseReturned(true))
  }

  /** A step launches an entry, for the admission that is running, exactly then, and otherwise no step adds one. */
  lemma LaunchIsExact(s: Pool, e: Event)
    requires Inv(s) && Enabled(s, e)
    ensures var t := Step(s, e);
            if Launches(s, e) then
              && |t.table| == |s.table| + 1 && t.table[|s.table|] == Entry(s.waiting[0], Launched, false, false)
              && s.waiting[0] in t.entries && t.entries[s.waiting[0]] == |s.table|
              && t.settled == s.settled + 1 && t.admission.Idle?
            else |t.table| == |s.table|
    ensures forall id :: 0 <= id < |s.table| ==> Step(s, e).table[id].key == s.table[id].key
  {
    hide TableOk, ShutdownOk;
    if e == CloseReturned(true) { ClosedKeyIsOwned(s); }
  }

  lemma ClosedKeyIsOwned(s: Pool)
    requires Inv(s) && !s.admission.Idle?
    ensures Owned(s, s.admission.id) && s.table[s.admission.id].phase == Ready(false) && s.waiting != []
    ensures |s.entries - {s.table[s.admission.id].key}| < |s.entries| <= s.maximum
  {
    RemoveKeyShrinks(s.entries, s.table[s.admission.id].key);
  }

  /** An admission first has a peer closed exactly when its own one, or in a full pool some one, is no
      longer available; the first such peer in the order of launch is taken. */
  lemma ClosingIsExact(s: Pool)
    requires Inv(s) && Enabled(s, Admit)
    ensures var t, key := Step(s, Admit), s.waiting[0];
            var admitted := !s.closing && Admissible(key);
            && (t.admission.ClosingPrevious? <==>
                  admitted && key in s.entries && s.table[s.entries[key]].phase == Ready(false))
            && (t.admission.ClosingPrevious? ==> t.admission.id == s.entries[key])
            && (t.admission.ClosingInactive? <==>
                  && admitted && key !in s.entries && |s.entries| >= s.maximum
                  && exists id: nat :: Owned(s, id) && s.table[id].phase == Ready(false))
            && (t.admission.ClosingInactive? ==>
                  && Owned(s, t.admission.id) && s.table[t.admission.id].phase == Ready(false)
                  && forall id :: 0 <= id < t.admission.id && Owned(s, id) ==> s.table[id].phase != Ready(false))
            && t.settled == s.settled + if t.admission.Idle? then 1 else 0
  {
    hide Inv;
    EntriesInRange(s);
    FirstIsFirst(s, 0);
  }

  lemma EntriesInRange(s: Pool)
    requires Inv(s)
    ensures forall k :: k in s.entries ==> s.entries[k] < |s.table|
  {
  }

  lemma {:induction false} FirstIsFirst(s: Pool, from: nat)
    ensures FirstInactive(s, from).Some? ==>
              from <= FirstInactive(s, from).value
              && forall id :: from <= id < FirstInactive(s, from).value && Owned(s, id) ==> !s.table[id].Inactive()
    decreases |s.table| - from
  {
    if from < |s.table| { FirstIsFirst(s, from + 1); }
  }

  /** Whatever a close came to, its admission settles; a failed one changes nothing else. */
  lemma CloseSettles(s: Pool, ok: bool)
    requires Inv(s) && Enabled(s, CloseReturned(ok))
    ensures Step(s, CloseReturned(ok)).settled == s.settled + 1 && Step(s, CloseReturned(ok)).admission.Idle?
    ensures !ok ==> Step(s, CloseReturned(ok)).table == s.table && Step(s, CloseReturned(ok)).entries == s.entries
  {
    hide TableOk, ShutdownOk;
    ClosedKeyIsOwned(s);
  }

  // ---------- what becomes of a launch ----------

  predicate ClosedBefore(events: seq<Event>, i: nat)
    requires i <= |events|
  {
    exists j :: 0 <= j < i && events[j].Close?
  }

  lemma ClosingStep(s: Pool, e: Event)
    requires Enabled(s, e)
    ensures Step(s, e).closing <==> s.closing || (e.Close? && s.shutdown.Open?)
    ensures Step(s, e).shutdown.Open? <==> s.shutdown.Open? && !e.Close?
  {
    hide Confirm, RunAdmission, CheckCapacity, LaunchOrRefuse, FirstInactive, Owned;
    if e.Admit? {
      AdmissionAsks(s);
    } else if e.CloseReturned? && e.ok {
      ConfirmKeepsQueue(s, s.admission.id);
      CapacityAsks(Confirm(s, s.admission.id));
      LaunchAsks(Confirm(s, s.admission.id));
    }
  }

  lemma {:induction false} ClosingFromClose(trace: seq<Pool>, events: seq<Event>, i: nat)
    requires Run(trace, events) && i < |trace|
    ensures trace[i].closing <==> ClosedBefore(events, i)
    ensures trace[i].shutdown.Open? <==> !trace[i].closing
  {
    hide Step, Enabled;
    if i > 0 {
      ClosingFromClose(trace, events, i - 1);
      assert Enabled(trace[i - 1], events[i - 1]) && trace[i] == Step(trace[i - 1], events[i - 1]);
      ClosingStep(trace[i - 1], events[i - 1]);
    }
  }

  /** What one event tells about the launch `id`. */
  function PhaseTold(before: Phase, e: Event, id: nat, closing: bool): Phase {
    match e
    case BeginStart(about, configured) =>
      if about != id then before else if configured && !closing then Starting else Refused
    case StartReturned(about, outcome) =>
      if about != id then before
      else if outcome == CleanupConfirmed then Refused
      else if outcome == CleanupUnknown then Uncertain
      else Ready(outcome.available)
    case PeerDied(about) => if about != id then before else Ready(false)
    case _ => before
  }

  /** The phase of a launch is told by the last event about it. */
  function Told(events: seq<Event>, i: nat, id: nat): Phase
    requires i <= |events|
  {
    if i == 0 then Launched else PhaseTold(Told(events, i - 1, id), events[i - 1], id, ClosedBefore(events, i - 1))
  }

  /** The start of `id` was run, with a configuration, before close() was called. */
  predicate StartRan(events: seq<Event>, i: nat, id: nat)
    requires i <= |events|
  {
    exists j :: 0 <= j < i && events[j] == BeginStart(id, true) && !ClosedBefore(events, j)
  }

  /** Something confirmed that the process of `id` is gone. */
  predicate Confirms(s: Pool, e: Event, id: nat) {
    || e == StartReturned(id, CleanupConfirmed)
    || (e == CloseReturned(true) && !s.admission.Idle? && s.admission.id == id)
    || e == OwnedClosed(id, true)
  }

  lemma StepOnLaunch(s: Pool, e: Event, id: nat)
    requires Inv(s) && Enabled(s, e) && id < |Step(s, e).table|
    ensures id >= |s.table| ==>
              && s.waiting != [] && (e.Admit? || e.CloseReturned?)
              && Step(s, e).table[id] == Entry(s.waiting[0], Launched, false, false)
    ensures id < |s.table| ==>
              var before, after := s.table[id], Step(s, e).table[id];
              && (after.started <==> before.started || (e == BeginStart(id, true) && !s.closing))
              && (after.released <==> before.released || Confirms(s, e, id))
              && after.phase == PhaseTold(before.phase, e, id, s.closing)
  {
    hide Inv, RunAdmission, CheckCapacity, LaunchOrRefuse, Confirm;
    if e.Admit? { AdmitTable(s); } else if e.CloseReturned? { CloseTable(s, e.ok); }
  }

  function NewEntry(key: string): seq<Entry> {
    [Entry(key, Launched, false, false)]
  }

  /** Nothing is stored, or one new entry for the key at the head of the queue. */
  predicate StoredOne(s: Pool, t: Pool)
    requires s.waiting != []
  {
    || (t.table == s.table && t.entries == s.entries)
    || (t.table == s.table + NewEntry(s.waiting[0]) && t.entries == s.entries[s.waiting[0] := |s.table|])
  }

  lemma CapacityStores(s: Pool)
    requires s.waiting != []
    ensures StoredOne(s, CheckCapacity(s)) && StoredOne(s, LaunchOrRefuse(s))
  {
    hide FirstInactive;
  }

  lemma AdmissionStores(s: Pool)
    requires s.waiting != [] && forall k :: k in s.entries ==> s.entries[k] < |s.table|
    ensures StoredOne(s, RunAdmission(s)) && (s.waiting[0] in s.entries ==> RunAdmission(s).entries == s.entries)
  {
    hide CheckCapacity;
    CapacityStores(s);
  }

  lemma AdmitTable(s: Pool)
    requires Inv(s) && Enabled(s, Admit)
    ensures Step(s, Admit).table == s.table || Step(s, Admit).table == s.table + NewEntry(s.waiting[0])
  {
    hide Inv, RunAdmission;
    AdmissionStores(s);
  }

  lemma CloseTable(s: Pool, ok: bool)
    requires Inv(s) && Enabled(s, CloseReturned(ok))
    ensures var t, id := Step(s, CloseReturned(ok)), s.admission.id;
            var confirmed := if ok then s.table[id := s.table[id].(released := true)] else s.table;
            t.table == confirmed || t.table == confirmed + NewEntry(s.waiting[0])
  {
    hide Inv, CheckCapacity, LaunchOrRefuse;
    if ok { CapacityStores(Confirm(s, s.admission.id)); }
  }

  /** Only launches are told about. */
  lemma {:induction false} NothingToldYet(trace: seq<Pool>, events: seq<Event>, i: nat, id: nat)
    requires Run(trace, events) && i < |trace| && id >= |trace[i].table|
    ensures Told(events, i, id) == Launched && !StartRan(events, i, id)
  {
    hide Step, Enabled;
    if i > 0 {
      RunKeepsInvariant(trace, events, i - 1);
      var s, e := trace[i - 1], events[i - 1];
      assert Enabled(s, e) && trace[i] == Step(s, e);
      LaunchIsExact(s, e);
      NamesALaunch(s, e);
      NothingToldYet(trace, events, i - 1, id);
    }
  }

  lemma NamesALaunch(s: Pool, e: Event)
    requires Enabled(s, e)
    ensures e.BeginStart? || e.StartReturned? || e.PeerDied? || e.ForgetRefused? || e.OwnedSettled? || e.OwnedClosed? ==>
              e.id < |s.table|
  {
  }

  /**
   For every run and every launch: its phase is what the last event about it tells, and its process was
   started if and only if its start ran with a configuration before close().
   */
  lemma {:induction false} LaunchesAsTold(trace: seq<Pool>, events: seq<Event>, i: nat, id: nat)
    requires Run(trace, events) && i < |trace| && id < |trace[i].table|
    ensures trace[i].table[id].phase == Told(events, i, id)
    ensures trace[i].table[id].started <==> StartRan(events, i, id)
  {
    hide Step, Enabled;
    if i > 0 {
      RunKeepsInvariant(trace, events, i - 1);
      var s, e := trace[i - 1], events[i - 1];
      assert Enabled(s, e) && trace[i] == Step(s, e);
      StepOnLaunch(s, e, id);
      ClosingFromClose(trace, events, i - 1);
      if id < |s.table| {
        LaunchesAsTold(trace, events, i - 1, id);
      } else {
        NothingToldYet(trace, events, i - 1, id);
      }
    }
  }

  /** In every run a process is released if and only if some event confirmed that it is gone. */
  lemma {:induction false} ReleasedWhenConfirmed(trace: seq<Pool>, events: seq<Event>, i: nat, id: nat)
    requires Run(trace, events) && i < |trace| && id < |trace[i].table|
    ensures trace[i].table[id].released <==>
              exists j :: 0 <= j < i && id < |trace[j].table| && Confirms(trace[j], events[j], id)
  {
    hide Step, Enabled, Confirms;
    if i > 0 {
      RunKeepsInvariant(trace, events, i - 1);
      var s, e := trace[i - 1], events[i - 1];
      assert Enabled(s, e) && trace[i] == Step(s, e);
      StepOnLaunch(s, e, id);
      if id < |s.table| {
        ReleasedWhenConfirmed(trace, events, i - 1, id);
      } else {
        TablesGrow(trace, events, i - 1, id);
      }
    }
  }

  lemma {:induction false} TablesGrow(trace: seq<Pool>, events: seq<Event>, i: nat, id: nat)
    requires Run(trace, events) && i < |trace| && id >= |trace[i].table|
    ensures forall j :: 0 <= j <= i ==> id >= |trace[j].table|
  {
    hide Step, Enabled;
    if i > 0 {
      RunKeepsInvariant(trace, events, i - 1);
      assert Enabled(trace[i - 1], events[i - 1]) && trace[i] == Step(trace[i - 1], events[i - 1]);
      LaunchIsExact(trace[i - 1], events[i - 1]);
      TablesGrow(trace, events, i - 1, id);
    }
  }

  // ---------- who owns a key ----------

  /** A key loses its owner exactly when that owner's close is confirmed for an admission, when its start
      was refused, or when close() fulfils. */
  lemma OwnershipLossIsExact(s: Pool, e: Event, key: string)
    requires Inv(s) && Enabled(s, e) && key in s.entries
    ensures var t := Step(s, e);
            (key in t.entries && t.entries[key] == s.entries[key]) <==>
            !(|| (e == CloseReturned(true) && s.admission.id == s.entries[key])
              || e == ForgetRefused(s.entries[key])
              || (e.ShutdownSettled? && forall id :: id in s.shutdown.tasks ==> !s.shutdown.tasks[id].Broken?))
  {
    hide Inv, RunAdmission, CheckCapacity, LaunchOrRefuse;
    OwnersOk(s);
    if e.Admit? {
      AdmissionStores(s);
    } else if e == CloseReturned(true) {
      ClosedKeyIsOwned(s);
      MissingKeyWaits(s);
      CapacityStores(Confirm(s, s.admission.id));
    }
  }

  lemma OwnersOk(s: Pool)
    requires Inv(s)
    ensures forall k :: k in s.entries ==> s.entries[k] < |s.table| && s.table[s.entries[k]].key == k
  {
    hide EntryOk, Unsettled, ShutdownOk, AdmissionOk;
  }

  /** The peer that is closed for an admission is that of its own key, or the key has no owner. */
  lemma MissingKeyWaits(s: Pool)
    requires Inv(s) && !s.admission.Idle? && s.waiting != [] && s.admission.id < |s.table|
    ensures if s.admission.ClosingPrevious? then s.table[s.admission.id].key == s.waiting[0] else s.waiting[0] !in s.entries
  {
    hide EntryOk, Unsettled, ShutdownOk;
  }

  /** A key with an available peer keeps it over every step but its death, close() or the end of one. */
  lemma AvailablePeerIsKept(s: Pool, e: Event, key: string)
    requires Inv(s) && Enabled(s, e) && key in s.entries && s.table[s.entries[key]].phase == Ready(true) && s.shutdown.Open?
    requires !e.Close? && e != PeerDied(s.entries[key])
    ensures var t := Step(s, e);
            && key in t.entries && t.entries[key] == s.entries[key] && t.shutdown.Open?
            && t.table[t.entries[key]] == s.table[s.entries[key]]
  {
    hide Step, Enabled, Inv;
    OwnersOk(s);
    OwnershipLossIsExact(s, e, key);
    NotItsTurn(s, e, s.entries[key]);
    LaunchIsExact(s, e);
    StepOnLaunch(s, e, s.entries[key]);
  }

  /** An available peer is in no event but its own death while the pool is open. */
  lemma NotItsTurn(s: Pool, e: Event, id: nat)
    requires Inv(s) && Enabled(s, e) && id < |s.table| && s.table[id].phase == Ready(true) && s.shutdown.Open?
    ensures e.BeginStart? || e.StartReturned? || e.ForgetRefused? ==> e.id != id
    ensures e.CloseReturned? ==> s.admission.id != id
    ensures !e.OwnedSettled? && !e.OwnedClosed? && !e.ShutdownSettled? && !e.AdmissionDrained?
    ensures !e.Close? ==> Step(s, e).shutdown.Open?
  {
    hide TableOk;
  }

  /** Once a key has an available peer it keeps it, over any events, until the peer dies or close() is called. */
  lemma {:induction false} AvailableWhileAlive(trace: seq<Pool>, events: seq<Event>, i: nat, j: nat, key: string)
    requires Run(trace, events) && i <= j < |trace|
    requires key in trace[i].entries && trace[i].entries[key] < |trace[i].table|
    requires trace[i].table[trace[i].entries[key]].phase == Ready(true) && trace[i].shutdown.Open?
    requires forall n :: i <= n < j ==> !events[n].Close? && events[n] != PeerDied(trace[i].entries[key])
    ensures key in trace[j].entries && trace[j].entries[key] == trace[i].entries[key] && trace[j].shutdown.Open?
    ensures trace[i].entries[key] < |trace[j].table|
    ensures trace[j].table[trace[i].entries[key]] == trace[i].table[trace[i].entries[key]]
    decreases j
  {
    hide Step, Enabled, Inv;
    if i < j {
      AvailableWhileAlive(trace, events, i, j - 1, key);
      RunKeepsInvariant(trace, events, j - 1);
      assert Enabled(trace[j - 1], events[j - 1]) && trace[j] == Step(trace[j - 1], events[j - 1]);
      AvailablePeerIsKept(trace[j - 1], events[j - 1], key);
      RunKeepsInvariant(trace, events, j);
      OwnersOk(trace[j]);
    }
  }

  /** An admission whose key is owned by a launch that is not known to be unavailable settles with it. */
  lemma OwnedKeyIsReused(s: Pool)
    requires Inv(s) && Enabled(s, Admit) && s.waiting[0] in s.entries
    requires s.table[s.entries[s.waiting[0]]].phase != Ready(false)
    ensures Step(s, Admit) == s.(waiting := s.waiting[1..], settled := s.settled + 1)
  {
    hide TableOk, ShutdownOk, AdmissionOk;
  }

  /** While the pool is open, an admissible key with room gets an available peer from a start that succeeds. */
  lemma AdmittedKeyGetsPeer(s: Pool)
    requires Inv(s) && Enabled(s, Admit) && s.shutdown.Open?
    requires Admissible(s.waiting[0]) && s.waiting[0] !in s.entries && |s.entries| < s.maximum
    ensures var key, id := s.waiting[0], |s.table|;
            var launched := Step(s, Admit);
            && Enabled(launched, BeginStart(id, true))
            && var starting := Step(launched, BeginStart(id, true));
               && Enabled(starting, StartReturned(id, Started(true)))
               && var ready := Step(starting, StartReturned(id, Started(true)));
                  && key in ready.entries && ready.entries[key] == id && id < |ready.table|
                  && ready.table[id] == Entry(key, Ready(true), true, false)
                  && ready.shutdown.Open? && ready.waiting == s.waiting[1..]
  {
    hide TableOk, AdmissionOk;
    LaunchIsExact(s, Admit);
  }

  // ---------- close() comes to an end ----------

  function Tasks(tasks: map<nat, Task>, t: Task): set<nat> {
    set id | id in tasks && tasks[id] == t
  }

  /** Awaits still ahead of the owned entries. */
  function Ahead(s: Pool): nat {
    if s.shutdown.Draining? then 2 * |Tasks(s.shutdown.tasks, AwaitingStart)| + |Tasks(s.shutdown.tasks, AwaitingClose)| else 0
  }

  /** Draining takes every owned entry, and nothing else, and awaits the start of each. */
  lemma DrainTakesTheOwned(s: Pool)
    requires Inv(s) && Enabled(s, AdmissionDrained)
    ensures var t := Step(s, AdmissionDrained);
            && t.shutdown.Draining?
            && (forall id :: id in t.shutdown.tasks <==> Owned(s, id))
            && (forall id :: id in t.shutdown.tasks ==> t.shutdown.tasks[id].AwaitingStart?)
  {
    hide AdmissionOk, ShutdownOk, EntryOk, Unsettled;
    forall id ensures id in s.entries.Values <==> Owned(s, id) {
      if id in s.entries.Values {
        var k :| k in s.entries && s.entries[k] == id;
        OwnersOk(s);
      }
    }
  }

  lemma OneTaskLess(tasks: map<nat, Task>, id: nat, t: Task)
    requires id in tasks && t != tasks[id]
    ensures Tasks(tasks[id := t], t) == Tasks(tasks, t) + {id} && id !in Tasks(tasks, t)
    ensures Tasks(tasks[id := t], tasks[id]) == Tasks(tasks, tasks[id]) - {id} && id in Tasks(tasks, tasks[id])
    ensures forall u :: u != t && u != tasks[id] ==> Tasks(tasks[id := t], u) == Tasks(tasks, u)
  {
  }

  /** Every await of an owned entry that returns is done with. */
  lemma DrainingAdvances(s: Pool, e: Event)
    requires Enabled(s, e) && (e.OwnedSettled? || e.OwnedClosed?)
    ensures Step(s, e).shutdown.Draining? && Ahead(Step(s, e)) < Ahead(s)
    ensures Step(s, e).shutdown.tasks.Keys == s.shutdown.tasks.Keys
    ensures forall id :: 0 <= id < |s.table| ==>
              id < |Step(s, e).table| && Step(s, e).table[id].phase == s.table[id].phase
    ensures |Step(s, e).table| == |s.table|
  {
    hide Tasks;
    OneTaskLess(s.shutdown.tasks, e.id, Step(s, e).shutdown.tasks[e.id]);
  }

  predicate StartsReturned(s: Pool) {
    forall id :: 0 <= id < |s.table| ==> !s.table[id].phase.Launched? && !s.table[id].phase.Starting?
  }

  /** `events` lead from `s` to `t`. */
  predicate Reaches(s: Pool, events: seq<Event>, t: Pool)
    decreases |events|
  {
    if events == [] then t == s else Enabled(s, events[0]) && Reaches(Step(s, events[0]), events[1..], t)
  }

  /** A close that drains comes to its verdict after at most so many returning awaits. */
  lemma {:induction false} CloseComesToAnEnd(s: Pool) returns (events: seq<Event>, t: Pool)
    requires Inv(s) && s.shutdown.Draining? && StartsReturned(s)
    ensures Reaches(s, events, t) && |events| <= Ahead(s) + 1
    ensures t.shutdown.Released? || t.shutdown.Failed?
    ensures forall e :: e in events ==> e.OwnedSettled? || (e.OwnedClosed? && e.ok) || e.ShutdownSettled?
    decreases Ahead(s)
  {
    hide Inv, Tasks;
    var tasks := s.shutdown.tasks;
    TasksInRange(s);
    if id :| id in tasks && tasks[id] in {AwaitingStart, AwaitingClose} {
      var e := if tasks[id].AwaitingStart? then OwnedSettled(id) else OwnedClosed(id, true);
      StepKeeps(s, e);
      DrainingAdvances(s, e);
      var rest, u := CloseComesToAnEnd(Step(s, e));
      events, t := [e] + rest, u;
      assert events[1..] == rest;
    } else {
      assert forall id :: id in tasks ==> tasks[id] == Done || tasks[id] == Broken;
      events, t := [ShutdownSettled], Step(s, ShutdownSettled);
      assert events[1..] == [];
    }
  }

  lemma TasksInRange(s: Pool)
    requires Inv(s) && s.shutdown.Draining?
    ensures forall id :: id in s.shutdown.tasks ==> id < |s.table|
  {
  }
}
