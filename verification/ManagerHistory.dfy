/**
 What the operation manager keeps of one operation, told from the calls that named it
 (operation-manager.ts).
 */
module ManagerHistory {
  import opened Common
  import opened OperationManager

  /** The calls that concern the operation `id` since it was last reserved, oldest first; `None` when it was dropped,
      forgotten or never reserved. */
  function Since(changes: seq<Change>, i: nat, id: string): Option<seq<Change>>
    requires i <= |changes|
  {
    if i == 0 then None
    else
      var c, before := changes[i - 1], Since(changes, i - 1, id);
      match c
      case Added(added, _, _) => if added == id then Some([c]) else before
      case Dropped(dropped) => if dropped == id then None else before
      case Ended(ended, _, forgotten) =>
        if id in forgotten then None else if ended == id then Told(before, c) else before
      case _ => if c.id == id then Told(before, c) else before
  }

  function Told(before: Option<seq<Change>>, c: Change): Option<seq<Change>> {
    match before
    case None => None
    case Some(calls) => Some(calls + [c])
  }

  /** Every accepted progress and the one outcome, numbered from 1 in the order of the calls. */
  function LogOf(calls: seq<Change>): seq<Event> {
    if calls == [] then []
    else
      var earlier := LogOf(calls[..|calls| - 1]);
      match calls[|calls| - 1]
      case Progressed(_, p) => earlier + [ProgressEvent(|earlier| + 1, p)]
      case Ended(_, outcome, _) => earlier + [TerminalEvent(|earlier| + 1, outcome)]
      case _ => earlier
  }

  predicate SomeStarted(calls: seq<Change>) {
    exists c :: c in calls && c.Started?
  }

  predicate SomeEnded(calls: seq<Change>) {
    exists c :: c in calls && c.Ended?
  }

  predicate SomeCancelled(calls: seq<Change>) {
    exists c :: c in calls && c.CancelRequested?
  }

  /** The operation is what its calls make of it. */
  predicate AsTold(op: Operation, calls: seq<Change>) {
    && calls != [] && calls[0].Added?
    && op.countedActive == calls[0].counted && op.cancellable == calls[0].cancellable
    && op.events == LogOf(calls)
    && (op.cancellationRequested <==> SomeCancelled(calls))
    && op.state == if SomeEnded(calls) then Completed else if SomeStarted(calls) then Running else Reserved
  }

  lemma LogAfter(calls: seq<Change>, c: Change)
    ensures LogOf(calls + [c]) ==
            match c
            case Progressed(_, p) => LogOf(calls) + [ProgressEvent(|LogOf(calls)| + 1, p)]
            case Ended(_, outcome, _) => LogOf(calls) + [TerminalEvent(|LogOf(calls)| + 1, outcome)]
            case _ => LogOf(calls)
  {
    assert (calls + [c])[..|calls|] == calls;
  }

  lemma SomeAfter(calls: seq<Change>, c: Change)
    ensures SomeStarted(calls + [c]) <==> SomeStarted(calls) || c.Started?
    ensures SomeEnded(calls + [c]) <==> SomeEnded(calls) || c.Ended?
    ensures SomeCancelled(calls + [c]) <==> SomeCancelled(calls) || c.CancelRequested?
  {
    assert forall x :: x in calls + [c] <==> x in calls || x == c;
  }

  /** A call that names the operation takes it from what was told to what is told then. */
  lemma OwnCall(ops: Operations, c: Change, calls: seq<Change>)
    requires Enabled(ops, c) && c.id in ops && AsTold(ops[c.id], calls) && !c.Added? && !c.Dropped?
    requires c.Ended? ==> c.id !in c.forgotten
    ensures c.id in Changed(ops, c) && AsTold(Changed(ops, c)[c.id], calls + [c])
  {
    hide LogOk, LogOf, SomeStarted, SomeEnded, SomeCancelled;
    LogAfter(calls, c);
    SomeAfter(calls, c);
    assert (calls + [c])[0] == calls[0];
  }

  lemma NewOperation(ops: Operations, c: Change)
    requires Enabled(ops, c) && c.Added?
    ensures c.id in Changed(ops, c) && AsTold(Changed(ops, c)[c.id], [c])
  {
    assert LogOf([c][..0]) == [];
    assert forall x :: x in [c] <==> x == c;
  }

  /** A call leaves the operations that it neither names nor forgets as they are. */
  lemma OtherCall(ops: Operations, c: Change, id: string)
    requires Enabled(ops, c) && c.id != id && (c.Ended? ==> id !in c.forgotten)
    ensures (id in Changed(ops, c) <==> id in ops) && (id in ops ==> Changed(ops, c)[id] == ops[id])
  {
    hide LogOk;
  }

  lemma GoneCall(ops: Operations, c: Change, id: string)
    requires Enabled(ops, c) && ((c.Dropped? && c.id == id) || (c.Ended? && id in c.forgotten))
    ensures id !in Changed(ops, c)
  {
    hide LogOk;
  }

  lemma NamesLive(ops: Operations, c: Change)
    requires Enabled(ops, c)
    ensures c.Added? <==> c.id !in ops
  {
    hide LogOk;
  }

  /**
   In every history the manager keeps exactly the operations that were reserved and neither abandoned nor
   forgotten, each as the calls that named it say: its log, its state, its share of the count, and whether
   cancellation was requested.
   */
  lemma {:induction false} OperationsAsTold(trace: seq<Operations>, changes: seq<Change>, i: nat, id: string)
    requires History(trace, changes) && i < |trace|
    ensures id in trace[i] <==> Since(changes, i, id).Some?
    ensures id in trace[i] ==> AsTold(trace[i][id], Since(changes, i, id).value)
  {
    hide Enabled, Changed, AsTold;
    if i > 0 {
      OperationsAsTold(trace, changes, i - 1, id);
      var ops, c := trace[i - 1], changes[i - 1];
      assert Enabled(ops, c) && trace[i] == Changed(ops, c);
      NamesLive(ops, c);
      if (c.Dropped? && c.id == id) || (c.Ended? && id in c.forgotten) {
        GoneCall(ops, c, id);
      } else if c.id != id {
        OtherCall(ops, c, id);
      } else if c.Added? {
        NewOperation(ops, c);
      } else {
        OwnCall(ops, c, Since(changes, i - 1, id).value);
      }
    }
  }

  // ---------- what is accepted ----------

  /** Progress is accepted when it is within its total and agrees with everything its stage reported before. */
  lemma AcceptedProgressIs(events: seq<Event>, p: Progress)
    requires LogOk(events) && forall i :: 0 <= i < |events| ==> events[i].ProgressEvent?
    ensures LogOk(events + [ProgressEvent(|events| + 1, p)]) <==>
              && p.completedUnits <= p.totalUnits
              && forall i :: 0 <= i < |events| && events[i].progress.stage == p.stage ==>
                   events[i].progress.totalUnits == p.totalUnits && events[i].progress.completedUnits <= p.completedUnits
  {
    var log := events + [ProgressEvent(|events| + 1, p)];
    if LogOk(log) {
      assert log[|events|] == ProgressEvent(|events| + 1, p);
      forall i | 0 <= i < |events| && events[i].progress.stage == p.stage
        ensures events[i].progress.totalUnits == p.totalUnits && events[i].progress.completedUnits <= p.completedUnits
      {
        assert SameStage(log[i], log[|events|]);
      }
    }
  }

  /** The life of one operation: whoever reserved an id may start it, report on it and complete it, once each. */
  lemma OneOperationLife(ops: Operations, id: string, counted: bool, cancellable: bool, p: Progress, outcome: nat)
    requires id !in ops && p.completedUnits <= p.totalUnits
    ensures var c := Added(id, counted, cancellable); Enabled(ops, c)
    ensures var a := Changed(ops, Added(id, counted, cancellable));
            && Enabled(a, Dropped(id)) && Enabled(a, Started(id)) && !Enabled(a, Ended(id, outcome, []))
            && !Enabled(a, Progressed(id, p)) && Changed(a, Dropped(id)) == ops
            && (Enabled(a, CancelRequested(id)) <==> cancellable)
            && var b := Changed(a, Started(id));
               && !Enabled(b, Started(id)) && !Enabled(b, Dropped(id)) && Enabled(b, Progressed(id, p))
               && var d := Changed(b, Progressed(id, p));
                  && Enabled(d, Ended(id, outcome, []))
                  && var e := Changed(d, Ended(id, outcome, []));
                     && e[id] == Operation([ProgressEvent(1, p), TerminalEvent(2, outcome)], counted, cancellable, false,
                                           Completed)
                     && !Enabled(e, Progressed(id, p)) && !Enabled(e, Ended(id, outcome, [])) && !Enabled(e, CancelRequested(id))
                     && !Enabled(e, Added(id, counted, cancellable))
  {
    var a := Changed(ops, Added(id, counted, cancellable));
    assert a - {id} == ops;
  }

  /** A poll keeps an event exactly when it is above the client's number, and keeps the order of the log. */
  lemma NewerOfOne(e: Event, after: int)
    ensures Newer([e], after) == if e.sequence > after then [e] else []
  {
    assert [e][1..] == [];
  }

  lemma {:induction false} NewerJoins(a: seq<Event>, b: seq<Event>, after: int)
    ensures Newer(a + b, after) == Newer(a, after) + Newer(b, after)
  {
    if a == [] {
      assert a + b == b;
    } else {
      assert (a + b)[1..] == a[1..] + b;
      NewerJoins(a[1..], b, after);
    }
  }
}
