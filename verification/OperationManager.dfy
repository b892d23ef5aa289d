/**
 Long operations of the host (operation-manager.ts, HostOperationManager): admission count,
 idle waiters, retention of completed operations and the event log of each operation.

 The protocol parsers accept what they are given here; a rejected progress or outcome is the
 exception the caller sees before this class is reached.
 */
module OperationManager {
  import opened Common
  import opened Text

  const MAXIMUM_ID_ATTEMPTS := 4

  datatype State = Reserved | Running | Completed

  datatype Progress = Progress(stage: string, completedUnits: int, totalUnits: int)

  datatype Event =
    | ProgressEvent(sequence: nat, progress: Progress)
    | TerminalEvent(sequence: nat, outcome: nat)

  datatype Operation = Operation(
    events: seq<Event>,
    countedActive: bool,
    cancellable: bool,
    cancellationRequested: bool,
    state: State)

  datatype Waiter = Waiter(id: nat, excluded: Option<string>)

  type Operations = map<string, Operation>

  // ---------- the event log of one operation ----------

  predicate SameStage(a: Event, b: Event) {
    a.ProgressEvent? && b.ProgressEvent? && a.progress.stage == b.progress.stage
  }

  /** Numbered from 1, at most one terminal event and that one last, and monotone per stage. */
  predicate LogOk(events: seq<Event>) {
    && (forall i :: 0 <= i < |events| ==> events[i].sequence == i + 1)
    && (forall i :: 0 <= i < |events| - 1 ==> events[i].ProgressEvent?)
    && (forall i :: 0 <= i < |events| && events[i].ProgressEvent? ==>
          events[i].progress.completedUnits <= events[i].progress.totalUnits)
    && (forall i, j :: 0 <= i < j < |events| && SameStage(events[i], events[j]) ==>
          && events[i].progress.totalUnits == events[j].progress.totalUnits
          && events[i].progress.completedUnits <= events[j].progress.completedUnits)
  }

  predicate OperationOk(op: Operation) {
    && LogOk(op.events)
    && (op.state.Reserved? ==> op.events == [])
    && (op.state.Completed? <==> op.events != [] && op.events[|op.events| - 1].TerminalEvent?)
  }

  /** Events above a client's last sequence. */
  function Newer(events: seq<Event>, afterSequence: int): seq<Event> {
    if events == [] then []
    else (if events[0].sequence > afterSequence then [events[0]] else []) + Newer(events[1..], afterSequence)
  }

  lemma NewerStep(events: seq<Event>, n: nat, k: int)
    requires n <= |events|
    ensures Newer(events[n..], k) ==
            if n == |events| then []
            else (if events[n].sequence > k then [events[n]] else []) + Newer(events[n + 1..], k)
  {
    if n < |events| { assert events[n..][1..] == events[n + 1..]; }
  }

  lemma {:induction false} NewerThan(events: seq<Event>, base: nat, k: nat)
    requires forall i :: 0 <= i < |events| ==> events[i].sequence == base + i + 1
    ensures Newer(events, k) == events[if k <= base then 0 else if k - base <= |events| then k - base else |events|..]
  {
    if events != [] {
      NewerThan(events[1..], base + 1, k);
    }
  }

  /** A client that holds the first k events receives exactly the rest, without gap or repeat. */
  lemma PollCompletes(events: seq<Event>, have: seq<Event>)
    requires LogOk(events) && have <= events
    ensures have + Newer(events, LastSequence(have)) == events
  {
    NewerThan(events, 0, |have|);
  }

  /** What a client sends with its next poll. */
  function LastSequence(have: seq<Event>): nat {
    if have == [] then 0 else have[|have| - 1].sequence
  }

  /** Comparing with the latest event of the stage is enough. */
  lemma AppendProgress(events: seq<Event>, p: Progress, latest: Option<nat>)
    requires LogOk(events) && forall i :: 0 <= i < |events| ==> events[i].ProgressEvent?
    requires p.completedUnits <= p.totalUnits
    requires match latest
             case None => forall i :: 0 <= i < |events| ==> events[i].progress.stage != p.stage
             case Some(k) =>
               && k < |events| && events[k].progress.stage == p.stage
               && (forall i :: k < i < |events| ==> events[i].progress.stage != p.stage)
               && events[k].progress.totalUnits == p.totalUnits
               && events[k].progress.completedUnits <= p.completedUnits
    ensures LogOk(events + [ProgressEvent(|events| + 1, p)])
  {
    var log := events + [ProgressEvent(|events| + 1, p)];
    forall i, j | 0 <= i < j < |log| && SameStage(log[i], log[j])
      ensures log[i].progress.totalUnits == log[j].progress.totalUnits
      ensures log[i].progress.completedUnits <= log[j].progress.completedUnits
    {
      if j == |events| {
        assert i == latest.value || SameStage(events[i], events[latest.value]);
      }
    }
  }

  function Finished(op: Operation, outcome: nat): Operation {
    op.(state := Completed, events := op.events + [TerminalEvent(|op.events| + 1, outcome)])
  }

  lemma FinishedLog(op: Operation, outcome: nat)
    requires OperationOk(op) && op.state.Running?
    ensures OperationOk(Finished(op, outcome))
  {
  }

  function Advanced(op: Operation, p: Progress): Operation {
    op.(events := op.events + [ProgressEvent(|op.events| + 1, p)])
  }

  lemma RunningLog(op: Operation)
    requires OperationOk(op) && op.state.Running?
    ensures LogOk(op.events) && forall i :: 0 <= i < |op.events| ==> op.events[i].ProgressEvent?
  {
  }

  lemma AdvancedLog(op: Operation, p: Progress)
    requires OperationOk(op) && op.state.Running? && LogOk(Advanced(op, p).events)
    ensures OperationOk(Advanced(op, p))
  {
  }

  /** Lines 202-221: the latest event of the stage, searched from the end. */
  method LatestOfStage(events: seq<Event>, stage: string) returns (latest: Option<nat>)
    requires forall i :: 0 <= i < |events| ==> events[i].ProgressEvent?
    ensures match latest
            case None => forall i :: 0 <= i < |events| ==> events[i].progress.stage != stage
            case Some(k) => k < |events| && events[k].progress.stage == stage
                            && forall i :: k < i < |events| ==> events[i].progress.stage != stage
  {
    var index := |events|;
    while index > 0
      invariant 0 <= index <= |events|
      invariant forall i :: index <= i < |events| ==> events[i].progress.stage != stage
    {
      index := index - 1;
      if events[index].progress.stage == stage { return Some(index); }
    }
    latest := None;
  }

  /** Progress is accepted exactly when the extended log is still a good one. */
  method AssertMonotonicProgress(events: seq<Event>, p: Progress) returns (ok: bool)
    requires LogOk(events) && forall i :: 0 <= i < |events| ==> events[i].ProgressEvent?
    ensures ok <==> LogOk(events + [ProgressEvent(|events| + 1, p)])
  {
    ghost var log := events + [ProgressEvent(|events| + 1, p)];
    assert log[|events|] == ProgressEvent(|events| + 1, p);
    if p.completedUnits > p.totalUnits { return false; }
    var latest := LatestOfStage(events, p.stage);
    if latest.Some? {
      var previous := events[latest.value].progress;
      assert log[latest.value] == events[latest.value] && SameStage(log[latest.value], log[|events|]);
      if p.totalUnits != previous.totalUnits { return false; }
      if p.completedUnits < previous.completedUnits { return false; }
    }
    AppendProgress(events, p, latest);
    ok := true;
  }

  // ---------- counting ----------

  predicate IsActive(op: Operation) {
    op.countedActive && !op.state.Completed?
  }

  function Active(ops: Operations): set<string> {
    set id | id in ops && IsActive(ops[id])
  }

  function Excluding(ops: Operations, excluded: Option<string>): set<string> {
    if excluded.None? then Active(ops) else Active(ops) - {excluded.value}
  }

  lemma ActiveUpdate(ops: Operations, id: string, op: Operation)
    ensures Active(ops[id := op]) == if IsActive(op) then Active(ops) + {id} else Active(ops) - {id}
  {
  }

  lemma ActiveRemove(ops: Operations, id: string)
    ensures Active(ops - {id}) == Active(ops) - {id}
  {
  }

  lemma ActiveIsOne(ops: Operations, id: string)
    requires id in ops && IsActive(ops[id])
    ensures id in Active(ops) && |Active(ops) - {id}| == |Active(ops)| - 1
  {
  }

  /** The active operations among some ids, without one. */
  function Counted(ops: Operations, excluded: Option<string>, ids: set<string>): set<string> {
    set id | id in ids && id in ops && IsActive(ops[id]) && Some(id) != excluded
  }

  lemma NothingCounted(ops: Operations, excluded: Option<string>)
    ensures |Counted(ops, excluded, ops.Keys - ops.Keys)| == 0
  {
    assert Counted(ops, excluded, ops.Keys - ops.Keys) == {};
  }

  lemma CountedMore(ops: Operations, excluded: Option<string>, ids: set<string>, id: string)
    requires id in ops && id !in ids
    ensures |Counted(ops, excluded, ids + {id})| ==
            |Counted(ops, excluded, ids)| + if IsActive(ops[id]) && Some(id) != excluded then 1 else 0
  {
    hide IsActive;
    assert Counted(ops, excluded, ids + {id}) ==
           Counted(ops, excluded, ids) + if IsActive(ops[id]) && Some(id) != excluded then {id} else {};
  }

  lemma AllCounted(ops: Operations, excluded: Option<string>)
    ensures Counted(ops, excluded, ops.Keys) == Excluding(ops, excluded)
  {
    hide IsActive;
  }

  // ---------- invariants ----------

  ghost predicate OperationsOk(ops: Operations) {
    forall id :: id in ops ==> OperationOk(ops[id])
  }

  /** completedOrder lists exactly the retained completed operations. */
  ghost predicate OrderOk(ops: Operations, order: seq<string>) {
    && NoRepeats(order)
    && (forall id :: id in order <==> id in ops && ops[id].state.Completed?)
  }

  /** A waiter number below `registered` is still waiting or was resolved, never both, never twice. */
  ghost predicate WaitersOk(waiters: seq<Waiter>, registered: nat, resolved: seq<nat>) {
    && (forall i, j :: 0 <= i < j < |waiters| ==> waiters[i].id != waiters[j].id)
    && NoRepeats(resolved)
    && (forall i :: 0 <= i < |waiters| ==> waiters[i].id !in resolved && waiters[i].id < registered)
    && (forall n :: n in resolved ==> n < registered)
    && |waiters| + |resolved| == registered
  }

  /** No lost wake-up: whoever still waits has something to wait for. */
  ghost predicate NobodyForgotten(ops: Operations, waiters: seq<Waiter>) {
    forall i :: 0 <= i < |waiters| ==> Excluding(ops, waiters[i].excluded) != {}
  }

  /** Each of these waiters was resolved if it has nothing to wait for, and is kept otherwise. */
  ghost predicate AllServed(ops: Operations, waiters: seq<Waiter>, kept: seq<Waiter>, resolved: seq<nat>) {
    forall i :: 0 <= i < |waiters| ==>
      if Excluding(ops, waiters[i].excluded) == {} then waiters[i].id in resolved else waiters[i] in kept
  }

  lemma NoneServed(ops: Operations, waiters: seq<Waiter>, resolved: seq<nat>)
    ensures AllServed(ops, waiters[..0], [], resolved) && NobodyForgotten(ops, [])
  {
  }

  lemma CountDecides(ops: Operations, excluded: Option<string>)
    ensures |Excluding(ops, excluded)| == 0 <==> Excluding(ops, excluded) == {}
    ensures excluded.None? ==> Excluding(ops, excluded) == Active(ops)
  {
    hide Active;
  }

  lemma KeepServes(ops: Operations, done: seq<Waiter>, kept: seq<Waiter>, resolved: seq<nat>, w: Waiter)
    requires AllServed(ops, done, kept, resolved) && NobodyForgotten(ops, kept) && Excluding(ops, w.excluded) != {}
    ensures AllServed(ops, done + [w], kept + [w], resolved) && NobodyForgotten(ops, kept + [w])
  {
    hide Excluding;
  }

  lemma ResolveServes(ops: Operations, done: seq<Waiter>, kept: seq<Waiter>, resolved: seq<nat>, w: Waiter)
    requires AllServed(ops, done, kept, resolved) && Excluding(ops, w.excluded) == {}
    ensures AllServed(ops, done + [w], kept, resolved + [w.id])
  {
    hide Excluding;
  }

  lemma EveryoneServed(ops: Operations, waiters: seq<Waiter>, kept: seq<Waiter>, resolved: seq<nat>)
    requires AllServed(ops, waiters, kept, resolved)
    ensures forall i :: 0 <= i < |waiters| ==>
              if Excluding(ops, waiters[i].excluded) == {} then waiters[i].id in resolved else waiters[i] in kept
  {
  }

  /** Waiters cannot be forgotten when the active operations only grow. */
  lemma StillSomethingToWaitFor(ops: Operations, next: Operations, waiters: seq<Waiter>)
    requires NobodyForgotten(ops, waiters) && Active(ops) <= Active(next)
    ensures NobodyForgotten(next, waiters)
  {
    forall i | 0 <= i < |waiters| ensures Excluding(next, waiters[i].excluded) != {} {
      var x :| x in Excluding(ops, waiters[i].excluded);
      assert x in Excluding(next, waiters[i].excluded);
    }
  }

  lemma OperationAt(ops: Operations, id: string)
    requires OperationsOk(ops) && id in ops
    ensures OperationOk(ops[id])
    ensures ops[id].state.Reserved? ==> OperationOk(ops[id].(state := Running))
    ensures OperationOk(ops[id].(cancellationRequested := true))
  {
  }

  lemma FreshOperation(op: Operation)
    requires op.events == [] && op.state.Reserved?
    ensures OperationOk(op)
  {
  }

  lemma ReserveKeeps(ops: Operations, order: seq<string>, waiters: seq<Waiter>, id: string, op: Operation)
    requires OperationsOk(ops) && OrderOk(ops, order) && NobodyForgotten(ops, waiters)
    requires id !in ops && op.events == [] && op.state.Reserved?
    ensures OperationsOk(ops[id := op]) && OrderOk(ops[id := op], order) && NobodyForgotten(ops[id := op], waiters)
    ensures |Active(ops[id := op])| == |Active(ops)| + if op.countedActive then 1 else 0
  {
    hide OperationOk, NobodyForgotten;
    FreshOperation(op);
    ActiveUpdate(ops, id, op);
    assert id !in Active(ops) && Active(ops) - {id} == Active(ops);
    StillSomethingToWaitFor(ops, ops[id := op], waiters);
  }

  /** Changing an operation without activating or completing it. */
  lemma UpdateKeeps(ops: Operations, order: seq<string>, waiters: seq<Waiter>, id: string, op: Operation)
    requires OperationsOk(ops) && OrderOk(ops, order) && NobodyForgotten(ops, waiters)
    requires id in ops && OperationOk(op) && op.countedActive == ops[id].countedActive
    requires op.state.Completed? == ops[id].state.Completed?
    ensures OperationsOk(ops[id := op]) && OrderOk(ops[id := op], order) && NobodyForgotten(ops[id := op], waiters)
    ensures Active(ops[id := op]) == Active(ops)
  {
    hide OperationOk;
    ActiveUpdate(ops, id, op);
    StillSomethingToWaitFor(ops, ops[id := op], waiters);
  }

  lemma CompleteKeeps(ops: Operations, order: seq<string>, id: string, op: Operation)
    requires OperationsOk(ops) && OrderOk(ops, order)
    requires id in ops && !ops[id].state.Completed? && OperationOk(op) && op.state.Completed?
    requires op.countedActive == ops[id].countedActive
    ensures OperationsOk(ops[id := op]) && OrderOk(ops[id := op], order + [id])
    ensures Active(ops[id := op]) == Active(ops) - {id}
    ensures |Active(ops[id := op])| == |Active(ops)| - if op.countedActive then 1 else 0
  {
    hide OperationOk;
    ActiveUpdate(ops, id, op);
    if op.countedActive { ActiveIsOne(ops, id); } else { assert Active(ops) - {id} == Active(ops); }
    forall x ensures x in order + [id] <==> x in ops[id := op] && ops[id := op][x].state.Completed? {
      assert x in order <==> x in ops && ops[x].state.Completed?;
    }
  }

  lemma AbandonKeeps(ops: Operations, order: seq<string>, id: string)
    requires OperationsOk(ops) && OrderOk(ops, order) && id in ops && ops[id].state.Reserved?
    ensures OperationsOk(ops - {id}) && OrderOk(ops - {id}, order)
    ensures |Active(ops - {id})| == |Active(ops)| - if ops[id].countedActive then 1 else 0
    ensures Active(ops - {id}) == Active(ops) - {id}
  {
    ActiveRemove(ops, id);
    if ops[id].countedActive { ActiveIsOne(ops, id); } else { assert Active(ops) - {id} == Active(ops); }
  }

  lemma EvictKeeps(ops: Operations, order: seq<string>, waiters: seq<Waiter>)
    requires OperationsOk(ops) && OrderOk(ops, order) && NobodyForgotten(ops, waiters) && order != []
    ensures OperationsOk(ops - {order[0]}) && OrderOk(ops - {order[0]}, order[1..])
    ensures NobodyForgotten(ops - {order[0]}, waiters)
    ensures Active(ops - {order[0]}) == Active(ops)
    ensures order[0] in ops && ops[order[0]].state.Completed?
  {
    assert order[0] in order;
    ActiveRemove(ops, order[0]);
    StillSomethingToWaitFor(ops, ops - {order[0]}, waiters);
    forall x ensures x in order[1..] <==> x in ops - {order[0]} && (ops - {order[0]})[x].state.Completed? {
      assert x in order <==> x in ops && ops[x].state.Completed?;
      assert order == [order[0]] + order[1..];
      assert order[0] !in order[1..];
    }
  }

  /** How many completed operations are too many. */
  function Excess(order: seq<string>, maximum: nat): (n: nat)
    ensures n <= |order|
  {
    if |order| > maximum then |order| - maximum else 0
  }

  function Forget(ops: Operations, ids: seq<string>): Operations {
    ops - set x | x in ids
  }

  // ---------- the operations over time ----------

  /** What a call of the manager does to its operations. */
  datatype Change =
    | Added(id: string, counted: bool, cancellable: bool)
    | Dropped(id: string)
    | Started(id: string)
    | Progressed(id: string, progress: Progress)
    | Ended(id: string, outcome: nat, forgotten: seq<string>)
    | CancelRequested(id: string)

  predicate Enabled(ops: Operations, c: Change) {
    match c
    case Added(id, _, _) => id !in ops
    case Dropped(id) => id in ops && ops[id].state.Reserved?
    case Started(id) => id in ops && ops[id].state.Reserved?
    case Progressed(id, p) => id in ops && ops[id].state.Running? && LogOk(Advanced(ops[id], p).events)
    case Ended(id, _, _) => id in ops && ops[id].state.Running?
    case CancelRequested(id) => id in ops && ops[id].cancellable && !ops[id].state.Completed?
  }

  function Changed(ops: Operations, c: Change): Operations
    requires Enabled(ops, c)
  {
    match c
    case Added(id, counted, cancellable) => ops[id := Operation([], counted, cancellable, false, Reserved)]
    case Dropped(id) => ops - {id}
    case Started(id) => ops[id := ops[id].(state := Running)]
    case Progressed(id, p) => ops[id := Advanced(ops[id], p)]
    case Ended(id, outcome, forgotten) => Forget(ops[id := Finished(ops[id], outcome)], forgotten)
    case CancelRequested(id) => ops[id := ops[id].(cancellationRequested := true)]
  }

  /** Whatever is called, the log of an operation that is kept only grows. */
  lemma LogsOnlyGrow(ops: Operations, c: Change, id: string)
    requires OperationsOk(ops) && Enabled(ops, c)
    ensures OperationsOk(Changed(ops, c))
    ensures id in ops && id in Changed(ops, c) ==> ops[id].events <= Changed(ops, c)[id].events
  {
    hide OperationOk, LogOk;
    if c.id in ops {
      OperationAt(ops, c.id);
      match c {
        case Progressed(_, p) => AdvancedLog(ops[c.id], p);
        case Ended(_, outcome, _) => FinishedLog(ops[c.id], outcome);
        case _ =>
      }
    } else if c.Added? {
      FreshOperation(Operation([], c.counted, c.cancellable, false, Reserved));
    }
  }

  /** The operations of one manager after each of its calls. */
  ghost predicate History(trace: seq<Operations>, changes: seq<Change>) {
    && |trace| == |changes| + 1 && trace[0] == map[]
    && forall i :: 0 <= i < |changes| ==> Enabled(trace[i], changes[i]) && trace[i + 1] == Changed(trace[i], changes[i])
  }

  lemma {:induction false} HistoryKeeps(trace: seq<Operations>, changes: seq<Change>, i: nat)
    requires History(trace, changes) && i < |trace|
    ensures OperationsOk(trace[i])
  {
    hide Enabled, Changed, OperationOk;
    if i > 0 {
      HistoryKeeps(trace, changes, i - 1);
      assert Enabled(trace[i - 1], changes[i - 1]);
      LogsOnlyGrow(trace[i - 1], changes[i - 1], "");
    }
  }

  lemma {:induction false} RetainedLogGrows(trace: seq<Operations>, changes: seq<Change>, id: string, i: nat, j: nat)
    requires History(trace, changes) && i <= j < |trace| && forall k :: i <= k <= j ==> id in trace[k]
    ensures trace[i][id].events <= trace[j][id].events
    decreases j
  {
    hide Enabled, Changed, OperationOk, OperationsOk;
    if i < j {
      RetainedLogGrows(trace, changes, id, i, j - 1);
      HistoryKeeps(trace, changes, j - 1);
      assert Enabled(trace[j - 1], changes[j - 1]) && id in trace[j - 1];
      LogsOnlyGrow(trace[j - 1], changes[j - 1], id);
    }
  }

  /** The operation is kept from the first poll to the last, and the polls are in order of time. */
  predicate PolledWhileKept(trace: seq<Operations>, times: seq<nat>, id: string) {
    && (forall n :: 0 <= n < |times| ==> times[n] < |trace|)
    && (forall n, m :: 0 <= n < m < |times| ==> times[n] <= times[m])
    && (times != [] ==> forall k :: times[0] <= k <= times[|times| - 1] ==> id in trace[k])
  }

  /** What a client holds that appends each answer and polls with the last sequence number it has. */
  function Held(trace: seq<Operations>, times: seq<nat>, id: string): seq<Event>
    requires PolledWhileKept(trace, times, id)
  {
    if times == [] then []
    else
      var have := Held(trace, times[..|times| - 1], id);
      have + Newer(trace[times[|times| - 1]][id].events, LastSequence(have))
  }

  /**
   However often and whenever a client polls a kept operation while its log grows, the answers
   put together are the log as of the last poll.
   */
  lemma {:induction false} PollingRebuildsTheLog(trace: seq<Operations>, changes: seq<Change>, times: seq<nat>, id: string)
    requires History(trace, changes) && PolledWhileKept(trace, times, id) && times != []
    ensures Held(trace, times, id) == trace[times[|times| - 1]][id].events
    decreases |times|
  {
    hide OperationOk, LogOk, Newer, LastSequence;
    var front, last := times[..|times| - 1], times[|times| - 1];
    var log := trace[last][id].events;
    HistoryKeeps(trace, changes, last);
    KeptLogIsOk(trace[last], id);
    if front == [] {
      PollCompletes(log, []);
      assert [] + Newer(log, LastSequence([])) == Newer(log, LastSequence([]));
    } else {
      var earlier := front[|front| - 1];
      PollingRebuildsTheLog(trace, changes, front, id);
      RetainedLogGrows(trace, changes, id, earlier, last);
      PollCompletes(log, trace[earlier][id].events);
    }
  }

  lemma KeptLogIsOk(ops: Operations, id: string)
    requires OperationsOk(ops) && id in ops
    ensures LogOk(ops[id].events)
  {
  }

  // ---------- the manager ----------

  class HostOperationManager {
    const maximumActive: nat
    const maximumCompleted: nat
    var operations: Operations
    var completedOrder: seq<string>
    var idleWaiters: seq<Waiter>
    var activeCount: int
    var registered: nat     // waiters ever registered; their numbers
    var resolved: seq<nat>  // waiters resolved, in order

    ghost predicate Valid()
      reads this
    {
      && 1 <= maximumActive && 1 <= maximumCompleted
      && OperationsOk(operations)
      && OrderOk(operations, completedOrder)
      && WaitersOk(idleWaiters, registered, resolved)
      && NobodyForgotten(operations, idleWaiters)
      && activeCount == |Active(operations)| <= maximumActive
      && |completedOrder| <= maximumCompleted
    }

    constructor (active: nat, completed: nat)
      requires 1 <= active && 1 <= completed
      ensures Valid() && operations == map[] && maximumActive == active && maximumCompleted == completed
    {
      maximumActive, maximumCompleted := active, completed;
      operations, completedOrder, idleWaiters, activeCount, registered, resolved := map[], [], [], 0, 0, [];
    }

    method NextOperationId(candidates: seq<string>) returns (r: Option<string>)
      requires |candidates| >= MAXIMUM_ID_ATTEMPTS
      ensures r.Some? ==> exists i :: 0 <= i < MAXIMUM_ID_ATTEMPTS && candidates[i] == r.value
                            && TrimmedText(r.value) && r.value !in operations
                            && forall j :: 0 <= j < i ==> !TrimmedText(candidates[j]) || candidates[j] in operations
      ensures r.None? ==> forall i :: 0 <= i < MAXIMUM_ID_ATTEMPTS ==>
                            !TrimmedText(candidates[i]) || candidates[i] in operations
    {
      var attempt := 0;
      while attempt < MAXIMUM_ID_ATTEMPTS
        invariant 0 <= attempt <= MAXIMUM_ID_ATTEMPTS
        invariant forall i :: 0 <= i < attempt ==> !TrimmedText(candidates[i]) || candidates[i] in operations
      {
        if TrimmedText(candidates[attempt]) && candidates[attempt] !in operations { return Some(candidates[attempt]); }
        attempt := attempt + 1;
      }
      r := None;
    }

    /** None when no unused id was offered; otherwise the operation is stored, counted if there is room. */
    method Reserve(cancellable: bool, candidates: seq<string>) returns (r: Option<string>)
      requires Valid() && |candidates| >= MAXIMUM_ID_ATTEMPTS
      modifies this`operations, this`activeCount
      ensures Valid()
      ensures r.None? ==> operations == old(operations)
                          && forall i :: 0 <= i < 4 ==> !TrimmedText(candidates[i]) || candidates[i] in operations
      ensures r.Some? ==> exists i :: 0 <= i < 4 && candidates[i] == r.value && TrimmedText(r.value)
                            && forall j :: 0 <= j < i ==> !TrimmedText(candidates[j]) || candidates[j] in old(operations)
      ensures r.Some? ==>
        var added := Added(r.value, |Active(old(operations))| < maximumActive, cancellable);
        Enabled(old(operations), added) && operations == Changed(old(operations), added)
    {
      hide OperationsOk, OrderOk, WaitersOk, NobodyForgotten, Active, TrimmedText;
      r := NextOperationId(candidates);
      if r.None? { return; }
      var counted := activeCount < maximumActive;
      if counted { activeCount := activeCount + 1; }
      var op := Operation([], counted, cancellable, false, Reserved);
      ReserveKeeps(operations, completedOrder, idleWaiters, r.value, op);
      operations := operations[r.value := op];
    }

    /** Lines 260-269: the count kept in the field, or a recount without one operation. */
    method ActiveCountExcluding(excluded: Option<string>) returns (n: int)
      ensures n == if excluded.None? then activeCount else |Excluding(operations, excluded)|
    {
      hide Excluding, Counted;
      if excluded.None? { return activeCount; }
      n := 0;
      var todo := operations.Keys;
      NothingCounted(operations, excluded);
      while todo != {}
        invariant todo <= operations.Keys
        invariant n == |Counted(operations, excluded, operations.Keys - todo)|
        decreases |todo|
      {
        var id :| id in todo;
        CountedMore(operations, excluded, operations.Keys - todo, id);
        assert operations.Keys - (todo - {id}) == operations.Keys - todo + {id};
        todo := todo - {id};
        if IsActive(operations[id]) && id != excluded.value {
          n := n + 1;
        }
      }
      assert operations.Keys - todo == operations.Keys;
      AllCounted(operations, excluded);
    }

    /** Resolves every waiter whose count has reached zero, and no other. */
    method ResolveIdleWaiters()
      requires activeCount == |Active(operations)|
      requires WaitersOk(idleWaiters, registered, resolved)
      modifies this`idleWaiters, this`resolved
      ensures WaitersOk(idleWaiters, registered, resolved)
      ensures NobodyForgotten(operations, idleWaiters)
      ensures old(resolved) <= resolved
      ensures forall i :: 0 <= i < |old(idleWaiters)| ==>
                var w := old(idleWaiters)[i];
                if Excluding(operations, w.excluded) == {} then w.id in resolved else w in idleWaiters
    {
      hide Active, WaitersOk, Excluding, NobodyForgotten, AllServed;
      var waiters := idleWaiters;
      var kept: seq<Waiter> := [];
      var n := 0;
      assert waiters[0..] == waiters && kept + waiters[n..] == waiters;
      NoneServed(operations, waiters, resolved);
      while n < |waiters|
        invariant 0 <= n <= |waiters|
        invariant WaitersOk(kept + waiters[n..], registered, resolved)
        invariant NobodyForgotten(operations, kept)
        invariant old(resolved) <= resolved
        invariant AllServed(operations, waiters[..n], kept, resolved)
        invariant activeCount == old(activeCount) && operations == old(operations) && idleWaiters == waiters
      {
        var w := waiters[n];
        var count := ActiveCountExcluding(w.excluded);
        CountDecides(operations, w.excluded);
        assert waiters[n..] == [w] + waiters[n + 1..];
        assert waiters[..n + 1] == waiters[..n] + [w];
        if count != 0 {
          assert kept + waiters[n..] == kept + [w] + waiters[n + 1..];
          KeepServes(operations, waiters[..n], kept, resolved, w);
          kept := kept + [w];
        } else {
          ResolveOne(kept, w, waiters[n + 1..], registered, resolved);
          ResolveServes(operations, waiters[..n], kept, resolved, w);
          resolved := resolved + [w.id];
        }
        n := n + 1;
      }
      assert kept + waiters[n..] == kept && waiters[..n] == waiters;
      EveryoneServed(operations, waiters, kept, resolved);
      idleWaiters := kept;
    }

    /** One counted operation less; whoever waited for it last is resolved. */
    method ReleaseActive()
      requires activeCount - 1 == |Active(operations)|
      requires WaitersOk(idleWaiters, registered, resolved)
      modifies this`activeCount, this`idleWaiters, this`resolved
      ensures activeCount == old(activeCount) - 1
      ensures WaitersOk(idleWaiters, registered, resolved) && NobodyForgotten(operations, idleWaiters)
      ensures old(resolved) <= resolved
    {
      activeCount := activeCount - 1;
      ResolveIdleWaiters();
    }

    method Abandon(id: string)
      requires Valid()
      modifies this`operations, this`activeCount, this`idleWaiters, this`resolved
      ensures Valid()
      ensures operations == if Enabled(old(operations), Dropped(id)) then Changed(old(operations), Dropped(id))
                            else old(operations)
      ensures old(resolved) <= resolved
    {
      hide OperationsOk, OrderOk, WaitersOk, NobodyForgotten, Active;
      if id !in operations || !operations[id].state.Reserved? { return; }
      var counted := operations[id].countedActive;
      AbandonKeeps(operations, completedOrder, id);
      Uncounted(operations, operations - {id}, id, idleWaiters);
      operations := operations - {id};
      if counted { ReleaseActive(); }
    }

    /** False when the reservation is unavailable; otherwise the operation runs. */
    method Start(id: string) returns (ok: bool)
      requires Valid()
      modifies this`operations
      ensures Valid()
      ensures ok <==> Enabled(old(operations), Started(id))
      ensures operations == if ok then Changed(old(operations), Started(id)) else old(operations)
    {
      hide OperationsOk, OrderOk, WaitersOk, NobodyForgotten, Active, OperationOk;
      if id !in operations || !operations[id].state.Reserved? { return false; }
      OperationAt(operations, id);
      var op := operations[id].(state := Running);
      UpdateKeeps(operations, completedOrder, idleWaiters, id, op);
      operations := operations[id := op];
      ok := true;
    }

    /** Accepts progress of a running operation exactly when it does not regress within its stage. */
    method ReportProgress(id: string, p: Progress) returns (ok: bool)
      requires Valid() && id in operations
      modifies this`operations
      ensures Valid()
      ensures ok <==> Enabled(old(operations), Progressed(id, p))
      ensures operations == if ok then Changed(old(operations), Progressed(id, p)) else old(operations)
    {
      hide OperationsOk, OrderOk, WaitersOk, NobodyForgotten, Active, OperationOk, LogOk;
      OperationAt(operations, id);
      var op := operations[id];
      if !op.state.Running? { return false; }
      RunningLog(op);
      ok := AssertMonotonicProgress(op.events, p);
      if !ok { return; }
      AdvancedLog(op, p);
      UpdateKeeps(operations, completedOrder, idleWaiters, id, Advanced(op, p));
      operations := operations[id := Advanced(op, p)];
    }

    /** Records the only terminal event, releases the count, wakes waiters, forgets the oldest
        completed operations. */
    method Complete(id: string, outcome: nat)
      requires Valid() && id in operations && operations[id].state.Running?
      modifies this`operations, this`completedOrder, this`activeCount, this`idleWaiters, this`resolved
      ensures Valid()
      ensures var order := old(completedOrder) + [id];
              && completedOrder == order[Excess(order, maximumCompleted)..]
              && id in completedOrder
              && operations == Changed(old(operations), Ended(id, outcome, order[..Excess(order, maximumCompleted)]))
      ensures old(resolved) <= resolved
    {
      hide OperationsOk, OrderOk, WaitersOk, NobodyForgotten, Active, OperationOk, Forget;
      OperationAt(operations, id);
      var op := operations[id];
      FinishedLog(op, outcome);
      var done := Finished(op, outcome);
      CompleteKeeps(operations, completedOrder, id, done);
      Uncounted(operations, operations[id := done], id, idleWaiters);
      operations := operations[id := done];
      completedOrder := completedOrder + [id];
      if op.countedActive { ReleaseActive(); }
      EvictCompleted();
      assert completedOrder[|completedOrder| - 1] == id;
    }

    method EvictCompleted()
      requires OperationsOk(operations) && OrderOk(operations, completedOrder)
      requires NobodyForgotten(operations, idleWaiters)
      modifies this`operations, this`completedOrder
      ensures OperationsOk(operations) && OrderOk(operations, completedOrder)
      ensures NobodyForgotten(operations, idleWaiters)
      ensures Active(operations) == Active(old(operations))
      ensures var order := old(completedOrder);
              && completedOrder == order[Excess(order, maximumCompleted)..]
              && operations == Forget(old(operations), order[..Excess(order, maximumCompleted)])
    {
      hide OperationsOk, OrderOk, NobodyForgotten, Active;
      ghost var order, ops, n := completedOrder, operations, 0;
      assert order[..0] == [] && Forget(ops, order[..0]) == ops;
      while |completedOrder| > maximumCompleted
        invariant 0 <= n <= Excess(order, maximumCompleted) && completedOrder == order[n..]
        invariant OperationsOk(operations) && OrderOk(operations, completedOrder)
        invariant NobodyForgotten(operations, idleWaiters)
        invariant Active(operations) == Active(ops)
        invariant operations == Forget(ops, order[..n])
        decreases |completedOrder|
      {
        EvictKeeps(operations, completedOrder, idleWaiters);
        assert order[..n + 1] == order[..n] + [order[n]];
        operations := operations - {completedOrder[0]};
        completedOrder := completedOrder[1..];
        n := n + 1;
      }
    }

    /** A counted operation was started; an uncounted one completes with a capacity failure. */
    method BeginRun(id: string, capacityFailure: nat) returns (started: bool)
      requires Valid() && id in operations && operations[id].state.Running?
      modifies this`operations, this`completedOrder, this`activeCount, this`idleWaiters, this`resolved
      ensures Valid()
      ensures started == old(operations)[id].countedActive
      ensures started ==> operations == old(operations) && completedOrder == old(completedOrder)
      ensures !started ==>
                var order := old(completedOrder) + [id];
                && completedOrder == order[Excess(order, maximumCompleted)..] && id in completedOrder
                && operations == Changed(old(operations),
                                         Ended(id, capacityFailure, order[..Excess(order, maximumCompleted)]))
    {
      started := operations[id].countedActive;
      if !started { Complete(id, capacityFailure); }
    }

    /** None when the operation is unavailable, otherwise its events above `afterSequence`. */
    method Observe(id: string, afterSequence: int) returns (r: Option<seq<Event>>)
      ensures r == if id in operations then Some(Newer(operations[id].events, afterSequence)) else None
    {
      hide Newer;
      if id !in operations { return None; }
      var events := operations[id].events;
      var kept: seq<Event> := [];
      var n := 0;
      assert events[0..] == events;
      while n < |events|
        invariant 0 <= n <= |events|
        invariant Newer(events, afterSequence) == kept + Newer(events[n..], afterSequence)
      {
        NewerStep(events, n, afterSequence);
        if events[n].sequence > afterSequence { kept := kept + [events[n]]; }
        n := n + 1;
      }
      NewerStep(events, n, afterSequence);
      assert kept + [] == kept;
      r := Some(kept);
    }

    /** None when unavailable, Some(false) when not cancellable. */
    method RequestCancellation(id: string) returns (r: Option<bool>)
      requires Valid()
      modifies this`operations
      ensures Valid()
      ensures r == if id !in old(operations) then None
                   else Some(old(operations)[id].cancellable && !old(operations)[id].state.Completed?)
      ensures r == Some(true) <==> Enabled(old(operations), CancelRequested(id))
      ensures operations == if r == Some(true) then Changed(old(operations), CancelRequested(id)) else old(operations)
    {
      hide OperationsOk, OrderOk, WaitersOk, NobodyForgotten, Active, OperationOk;
      if id !in operations { return None; }
      if !operations[id].cancellable || operations[id].state.Completed? { return Some(false); }
      OperationAt(operations, id);
      var op := operations[id].(cancellationRequested := true);
      UpdateKeeps(operations, completedOrder, idleWaiters, id, op);
      operations := operations[id := op];
      r := Some(true);
    }

    /** Some(n) when the caller has to wait, as waiter n; None when nothing is active already. */
    method WaitForIdle(excluded: Option<string>) returns (r: Option<nat>)
      requires Valid()
      modifies this`idleWaiters, this`registered
      ensures Valid()
      ensures r.None? <==> Excluding(operations, excluded) == {}
      ensures r.Some? ==> idleWaiters == old(idleWaiters) + [Waiter(r.value, excluded)] && r.value == old(registered)
      ensures r.None? ==> idleWaiters == old(idleWaiters)
    {
      hide OperationsOk, OrderOk, Active;
      var count := ActiveCountExcluding(excluded);
      assert count == |Excluding(operations, excluded)|;
      if count == 0 { return None; }
      r := Some(registered);
      idleWaiters := idleWaiters + [Waiter(registered, excluded)];
      registered := registered + 1;
    }
  }

  /** Releasing an uncounted operation changes nobody's count. */
  lemma Uncounted(ops: Operations, next: Operations, id: string, waiters: seq<Waiter>)
    requires NobodyForgotten(ops, waiters) && id in ops && Active(next) == Active(ops) - {id}
    ensures !ops[id].countedActive ==> NobodyForgotten(next, waiters)
  {
    if !ops[id].countedActive {
      assert Active(ops) - {id} == Active(ops);
      StillSomethingToWaitFor(ops, next, waiters);
    }
  }

  lemma ResolveOne(kept: seq<Waiter>, w: Waiter, rest: seq<Waiter>, registered: nat, resolved: seq<nat>)
    requires WaitersOk(kept + ([w] + rest), registered, resolved)
    ensures WaitersOk(kept + rest, registered, resolved + [w.id])
  {
    var before, after := kept + ([w] + rest), kept + rest;
    assert before[|kept|] == w;
    forall i | 0 <= i < |after|
      ensures after[i].id != w.id && after[i].id !in resolved && after[i].id < registered
      ensures forall j :: i < j < |after| ==> after[i].id != after[j].id
    {
      var bi := if i < |kept| then i else i + 1;
      assert before[bi] == after[i];
      forall j | i < j < |after| ensures after[i].id != after[j].id {
        var bj := if j < |kept| then j else j + 1;
        assert before[bj] == after[j];
      }
    }
  }
}
