/**
 When a dispatch of materialization succeeds (coordinateMaterialization in target-coordinator.ts), in
 terms of the units selected and the answers given.
 */
module MaterializationKept {
  import opened Common
  import opened Text
  import opened TargetMaterialization

  /** The handler closes what it was asked for: it claims completion and names each fingerprint once and nothing else. */
  ghost predicate Closes(expected: set<string>, a: Answer) {
    && a.complete
    && (forall i, j :: 0 <= i < j < |a.units| ==> a.units[i] != a.units[j])
    && forall f :: f in a.units <==> f in expected
  }

  lemma ClosesIsExact(expected: set<string>, a: Answer)
    ensures Exact(expected, a) <==> Closes(expected, a)
  {
    hide Sort, SortedKeys;
    if Exact(expected, a) {
      SortMembers(a.units);
      StrictlySortedNoRepeats(SortedKeys(expected));
      SameMembersNoRepeats(Sort(a.units), a.units);
    }
    if Closes(expected, a) {
      assert NoRepeats(a.units);
      SortDistinct(a.units, expected);
    }
  }

  lemma {:induction false} AllGroupsClose(handlers: Handlers, units: seq<OutputUnit>, contracts: seq<string>)
    requires forall c :: c in contracts ==> c in handlers
    ensures MaterializeGroups(handlers, units, contracts).Some? <==>
              forall c :: c in contracts ==> Closes(Selected(units, c), handlers[c](Selected(units, c)))
    decreases |contracts|
  {
    hide Selected, Exact, Closes;
    if contracts != [] {
      var front, last := contracts[..|contracts| - 1], contracts[|contracts| - 1];
      assert contracts == front + [last];
      AllGroupsClose(handlers, units, front);
      ClosesIsExact(Selected(units, last), handlers[last](Selected(units, last)));
    }
  }

  /** What is asked of the handler of a unit's contract: every fingerprint selected under it. */
  function AskedFor(units: seq<OutputUnit>, contract: string): set<string> {
    set u | u in units && u.contract == contract :: u.fingerprint
  }

  /** Materialization succeeds exactly when there is a handler for every selected unit and each handler that is asked
      closes what it is asked for. */
  lemma SuccessIsExact(handlers: Handlers, units: seq<OutputUnit>)
    ensures Materialize(handlers, units).Some? <==>
              && |handlers| > 0
              && forall u :: u in units ==>
                   && u.contract in handlers
                   && Closes(AskedFor(units, u.contract), handlers[u.contract](AskedFor(units, u.contract)))
  {
    hide Closes, SortedKeys, Sort, MaterializeGroups;
    forall c ensures AskedFor(units, c) == Selected(units, c) {
    }
    var contracts := SortedKeys(Contracts(units));
    if |handlers| > 0 && forall u :: u in units ==> u.contract in handlers {
      forall c | c in contracts ensures c in handlers { ContractHandled(handlers, units, c); }
      AllGroupsClose(handlers, units, contracts);
      forall u | u in units ensures u.contract in contracts {
      }
    }
  }

  /** The same of handlers that may reject: the dispatch succeeds exactly when every handler it needs is there, answers,
      and closes what it is asked for. */
  lemma DispatchSucceeds(handlers: Untrusted, units: seq<OutputUnit>)
    ensures Dispatch(handlers, units).Settled? && Dispatch(handlers, units).units.Some? <==>
              && |handlers| > 0
              && forall u :: u in units ==>
                   && u.contract in handlers
                   && handlers[u.contract](AskedFor(units, u.contract)).Answered?
                   && Closes(AskedFor(units, u.contract), handlers[u.contract](AskedFor(units, u.contract)).answer)
  {
    hide Closes, Materialize, Less;
    SuccessIsExact(Answers(handlers), units);
    NothingIsIncomplete();
    forall c ensures AskedFor(units, c) == Selected(units, c) {
    }
    forall c
      ensures Dispatch(handlers, units) == RejectedBy(c) <==> Handled(handlers, units) && RejectsFirst(handlers, units, c)
    {
      RejectionIsExact(handlers, units, c);
    }
    assert forall c :: c in Contracts(units) <==> exists u :: u in units && u.contract == c;
    RejectionIsExact(handlers, units, "");
  }

  lemma NothingIsIncomplete()
    ensures forall expected :: !Closes(expected, Answer(false, []))
  {
  }
}
