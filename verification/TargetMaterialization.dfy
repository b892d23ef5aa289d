/**
 Dispatch of materialization to untrusted handlers (coordinateMaterialization in
 target-coordinator.ts). A materialized unit stands for its fingerprint; diagnostics are not modelled.
 */
module TargetMaterialization {
  import opened Common
  import opened Text

  datatype OutputUnit = OutputUnit(fingerprint: string, contract: string)

  /** What a handler returned: whether it claims completion, and the units it materialized. */
  datatype Answer = Answer(complete: bool, units: seq<string>)

  /** One handler per output contract; a handler is any function of the fingerprints it is given. */
  type Handlers = map<string, set<string> -> Answer>

  function Selected(units: seq<OutputUnit>, contract: string): set<string> {
    set u | u in units && u.contract == contract :: u.fingerprint
  }

  function Contracts(units: seq<OutputUnit>): set<string> {
    set u | u in units :: u.contract
  }

  ghost predicate Exact(expected: set<string>, a: Answer) {
    a.complete && SortedKeys(expected) == Sort(a.units)
  }

  ghost function MaterializeGroups(handlers: Handlers, units: seq<OutputUnit>, contracts: seq<string>): Option<seq<string>>
    requires forall c :: c in contracts ==> c in handlers
  {
    if contracts == [] then Some([])
    else
      var front, last := contracts[..|contracts| - 1], contracts[|contracts| - 1];
      var answer := handlers[last](Selected(units, last));
      match MaterializeGroups(handlers, units, front)
      case None => None
      case Some(before) => if Exact(Selected(units, last), answer) then Some(before + answer.units) else None
  }

  /** `None` is the blocked result. */
  ghost function Materialize(handlers: Handlers, units: seq<OutputUnit>): Option<seq<string>> {
    if |handlers| == 0 || (exists u :: u in units && u.contract !in handlers) then None
    else
      match MaterializeGroups(handlers, units, SortedKeys(Contracts(units)))
      case None => None
      case Some(all) => Some(Sort(all))
  }

  /** Under how many of the listed contracts a fingerprint is selected. */
  function SelectedUnder(units: seq<OutputUnit>, contracts: seq<string>, f: string): nat {
    if contracts == [] then 0
    else
      SelectedUnder(units, contracts[..|contracts| - 1], f) +
      if f in Selected(units, contracts[|contracts| - 1]) then 1 else 0
  }

  lemma ExactCounts(expected: set<string>, a: Answer, f: string)
    requires Exact(expected, a)
    ensures multiset(a.units)[f] == if f in expected then 1 else 0
  {
    hide Sort, SortedKeys;
    SortMembers(a.units);
    StrictlySortedNoRepeats(SortedKeys(expected));
    OccursOnce(SortedKeys(expected), f);
  }

  lemma {:induction false} GroupsCount(handlers: Handlers, units: seq<OutputUnit>, contracts: seq<string>, f: string)
    requires forall c :: c in contracts ==> c in handlers
    ensures MaterializeGroups(handlers, units, contracts).Some? ==>
              multiset(MaterializeGroups(handlers, units, contracts).value)[f] == SelectedUnder(units, contracts, f)
    decreases |contracts|
  {
    hide Selected, Exact;
    if contracts != [] && MaterializeGroups(handlers, units, contracts).Some? {
      var front, last := contracts[..|contracts| - 1], contracts[|contracts| - 1];
      GroupsCount(handlers, units, front, f);
      ExactCounts(Selected(units, last), handlers[last](Selected(units, last)), f);
    }
  }

  predicate TwoContracts(units: seq<OutputUnit>, f: string) {
    exists u, v :: u in units && v in units && u.fingerprint == f && v.fingerprint == f && u.contract != v.contract
  }

  lemma {:induction false} SelectedSomewhere(units: seq<OutputUnit>, contracts: seq<string>, f: string)
    ensures SelectedUnder(units, contracts, f) > 0 <==> exists c :: c in contracts && f in Selected(units, c)
    decreases |contracts|
  {
    hide Selected;
    if contracts != [] {
      var front, last := contracts[..|contracts| - 1], contracts[|contracts| - 1];
      assert contracts == front + [last];
      SelectedSomewhere(units, front, f);
    }
  }

  lemma {:induction false} SelectedTwice(units: seq<OutputUnit>, contracts: seq<string>, f: string)
    requires NoRepeats(contracts)
    ensures SelectedUnder(units, contracts, f) > 1
            <==> exists c, d :: c in contracts && d in contracts && c != d && f in Selected(units, c) && f in Selected(units, d)
    decreases |contracts|
  {
    hide Selected;
    if contracts != [] {
      var front, last := contracts[..|contracts| - 1], contracts[|contracts| - 1];
      assert contracts == front + [last];
      assert last !in front;
      SelectedTwice(units, front, f);
      SelectedSomewhere(units, front, f);
    }
  }

  lemma SelectedContract(units: seq<OutputUnit>, c: string, f: string)
    requires f in Selected(units, c)
    ensures c in Contracts(units)
  {
  }

  /**
   A materialization that succeeds holds exactly the selected fingerprints, and holds each of them
   once exactly when none was selected under two output contracts.
   */
  lemma MaterializedUnits(handlers: Handlers, units: seq<OutputUnit>)
    requires Materialize(handlers, units).Some?
    ensures var m := Materialize(handlers, units).value;
            && (forall f :: f in m <==> exists u :: u in units && u.fingerprint == f)
            && (NoRepeats(m) <==> forall f :: !TwoContracts(units, f))
  {
    hide Selected, Contracts, Sort, SortedKeys, MaterializeGroups, SelectedUnder, TwoContracts, NoRepeats;
    var contracts := SortedKeys(Contracts(units));
    forall c | c in contracts ensures c in handlers { ContractHandled(handlers, units, c); }
    var all := MaterializeGroups(handlers, units, contracts).value;
    var m := Sort(all);
    SortMembers(all);
    StrictlySortedNoRepeats(contracts);
    forall f ensures f in m <==> exists u :: u in units && u.fingerprint == f {
      GroupsCount(handlers, units, contracts, f);
      SelectedSomewhere(units, contracts, f);
      SelectedByUnit(units, contracts, f);
    }
    forall f ensures multiset(m)[f] > 1 <==> TwoContracts(units, f) {
      GroupsCount(handlers, units, contracts, f);
      SelectedTwice(units, contracts, f);
      TwoListed(units, contracts, f);
    }
    if NoRepeats(m) {
      forall f ensures !TwoContracts(units, f) { OccursOnce(m, f); }
    }
    if forall f :: !TwoContracts(units, f) {
      forall f | f in m ensures multiset(m)[f] == 1 {
        assert f in multiset(m);
        assert !TwoContracts(units, f);
      }
      OccurOnceMeansNoRepeats(m);
    }
  }

  /** No fingerprint is selected twice: what the registry checks before it dispatches. */
  predicate DistinctUnits(units: seq<OutputUnit>) {
    forall i, j :: 0 <= i < j < |units| ==> units[i].fingerprint != units[j].fingerprint
  }

  /** Distinct selected fingerprints are each materialized exactly once, in order, and nothing else is. */
  lemma DistinctUnitsOnce(handlers: Handlers, units: seq<OutputUnit>)
    requires DistinctUnits(units) && Materialize(handlers, units).Some?
    ensures Materialize(handlers, units).value == SortedKeys(set u | u in units :: u.fingerprint)
  {
    hide Materialize, Sort, SortedKeys, NoRepeats;
    var m, all := Materialize(handlers, units).value, set u | u in units :: u.fingerprint;
    MaterializedUnits(handlers, units);
    forall f ensures !TwoContracts(units, f) { OneUnitOneContract(units, f); }
    SortedOnce(handlers, units, m, all);
  }

  lemma OneUnitOneContract(units: seq<OutputUnit>, f: string)
    requires DistinctUnits(units)
    ensures !TwoContracts(units, f)
  {
  }

  lemma SortedOnce(handlers: Handlers, units: seq<OutputUnit>, m: seq<string>, all: set<string>)
    requires Materialize(handlers, units) == Some(m) && NoRepeats(m) && forall f :: f in m <==> f in all
    ensures m == SortedKeys(all)
  {
    hide SortedKeys, NoRepeats, Sort, MaterializeGroups;
    var gathered := MaterializeGroups(handlers, units, SortedKeys(Contracts(units))).value;
    SortMembers(gathered);
    SameMembersNoRepeats(m, gathered);
    SortDistinct(gathered, all);
  }

  /** Answers with the one unit it is asked for. */
  function Returning(f: string): set<string> -> Answer {
    (expected: set<string>) => Answer(true, [f])
  }

  lemma ExactOne(f: string)
    ensures Exact({f}, Answer(true, [f])) && Sort([f, f]) == [f, f]
  {
    hide SortedKeys;
    assert NoRepeats([f]);
    SortDistinct([f], {f});
    SortMembers([f, f]);
    var twice := Sort([f, f]);
    assert twice[0] in twice && twice[1] in twice;
  }

  /** Both handlers answer exactly, and a fingerprint selected under two contracts is materialized twice. */
  lemma TwoContractsWitness(f: string, c: string, d: string)
    requires c != d
    ensures Materialize(map[c := Returning(f), d := Returning(f)], [OutputUnit(f, c), OutputUnit(f, d)]) == Some([f, f])
  {
    hide Contracts, Selected, SortedKeys, Sort, MaterializeGroups, Exact;
    var handlers, units := map[c := Returning(f), d := Returning(f)], [OutputUnit(f, c), OutputUnit(f, d)];
    var contracts := SortedKeys(Contracts(units));
    ContractsAre(f, c, d);
    ExactOne(f);
    assert |contracts| == 2 && contracts[0] in contracts && contracts[1] in contracts;
    assert contracts == [contracts[0], contracts[1]];
    TwoGroups(handlers, units, contracts[0], contracts[1], f);
  }

  lemma TwoGroups(handlers: Handlers, units: seq<OutputUnit>, k: string, l: string, f: string)
    requires k in handlers && handlers[k] == Returning(f) && Selected(units, k) == {f}
    requires l in handlers && handlers[l] == Returning(f) && Selected(units, l) == {f}
    ensures MaterializeGroups(handlers, units, [k, l]) == Some([f, f])
  {
    hide Selected, MaterializeGroups, Exact;
    ExactOne(f);
    NoGroups(handlers, units);
    GroupsNext(handlers, units, [], k);
    GroupsNext(handlers, units, [k], l);
    assert [] + [k] == [k] && [k] + [l] == [k, l] && [] + [f] == [f] && [f] + [f] == [f, f];
  }

  lemma ContractsAre(f: string, c: string, d: string)
    ensures var units := [OutputUnit(f, c), OutputUnit(f, d)];
            && Contracts(units) == {c, d} && Selected(units, c) == {f} && Selected(units, d) == {f}
            && forall u :: u in units ==> u.contract in {c, d}
  {
    var units := [OutputUnit(f, c), OutputUnit(f, d)];
    assert units[0] in units && units[1] in units;
  }

  lemma ContractHandled(handlers: Handlers, units: seq<OutputUnit>, c: string)
    requires !(exists u :: u in units && u.contract !in handlers) && c in SortedKeys(Contracts(units))
    ensures c in handlers
  {
    hide SortedKeys;
    assert c in Contracts(units);
  }

  lemma SelectedByUnit(units: seq<OutputUnit>, contracts: seq<string>, f: string)
    requires forall c :: c in contracts <==> c in Contracts(units)
    ensures (exists c :: c in contracts && f in Selected(units, c)) <==> exists u :: u in units && u.fingerprint == f
  {
    if u :| u in units && u.fingerprint == f {
      assert u.contract in contracts && f in Selected(units, u.contract);
    }
  }

  lemma TwoListed(units: seq<OutputUnit>, contracts: seq<string>, f: string)
    requires forall c :: c in contracts <==> c in Contracts(units)
    ensures TwoContracts(units, f)
            <==> exists c, d :: c in contracts && d in contracts && c != d && f in Selected(units, c) && f in Selected(units, d)
  {
    hide Contracts;
    if TwoContracts(units, f) {
      var u, v :| u in units && v in units && u.fingerprint == f && v.fingerprint == f && u.contract != v.contract;
      SelectedContract(units, u.contract, f);
      SelectedContract(units, v.contract, f);
    }
  }

  // ---------- handlers that reject ----------

  /** What becomes of the promise of a handler. */
  datatype Reply = Answered(answer: Answer) | Rejected

  type Untrusted = map<string, set<string> -> Reply>

  /** What becomes of the promise of the dispatch; `None` is the blocked result. */
  datatype Outcome = Settled(units: Option<seq<string>>) | RejectedBy(contract: string)

  function AnswerOf(reply: Reply): Answer {
    if reply.Answered? then reply.answer else Answer(false, [])
  }

  function AnsweringHandler(handler: set<string> -> Reply): set<string> -> Answer {
    (expected: set<string>) => AnswerOf(handler(expected))
  }

  /** The handlers as far as they answer. */
  function Answers(handlers: Untrusted): (h: Handlers)
    ensures h.Keys == handlers.Keys && |h| == |handlers|
  {
    var h := map c | c in handlers :: AnsweringHandler(handlers[c]);
    assert h.Keys == handlers.Keys && |h| == |h.Keys| == |handlers.Keys|;
    h
  }

  predicate Rejects(handlers: Untrusted, units: seq<OutputUnit>, contract: string) {
    contract in handlers && handlers[contract](Selected(units, contract)).Rejected?
  }

  ghost predicate AnswersExactly(handlers: Untrusted, units: seq<OutputUnit>, contract: string) {
    && contract in handlers
    && handlers[contract](Selected(units, contract)).Answered?
    && Exact(Selected(units, contract), handlers[contract](Selected(units, contract)).answer)
  }

  /** This handler rejects, and all before it in order were asked and answered exactly. */
  ghost predicate RejectsFirst(handlers: Untrusted, units: seq<OutputUnit>, contract: string) {
    && contract in Contracts(units) && Rejects(handlers, units, contract)
    && forall c :: c in Contracts(units) && Less(c, contract) ==> AnswersExactly(handlers, units, c)
  }

  predicate Handled(handlers: Untrusted, units: seq<OutputUnit>) {
    |handlers| != 0 && forall u :: u in units ==> u.contract in handlers
  }

  /** coordinateMaterialization with handlers that may reject. */
  ghost function Dispatch(handlers: Untrusted, units: seq<OutputUnit>): Outcome {
    if c :| Handled(handlers, units) && RejectsFirst(handlers, units, c) then RejectedBy(c)
    else Settled(Materialize(Answers(handlers), units))
  }

  lemma OnlyOneRejectsFirst(handlers: Untrusted, units: seq<OutputUnit>, c: string, d: string)
    requires RejectsFirst(handlers, units, c) && RejectsFirst(handlers, units, d)
    ensures c == d
  {
    LessTotal(c, d);
  }

  /**
   The dispatch rejects exactly when some handler rejects and every handler before it in order
   answered exactly, and then with that rejection: an earlier inexact answer blocks without asking on.
   */
  lemma RejectionIsExact(handlers: Untrusted, units: seq<OutputUnit>, c: string)
    ensures Dispatch(handlers, units) == RejectedBy(c) <==> Handled(handlers, units) && RejectsFirst(handlers, units, c)
    ensures Dispatch(handlers, units).Settled? ==> Dispatch(handlers, units).units == Materialize(Answers(handlers), units)
  {
    hide RejectsFirst, Materialize, Handled;
    forall d | RejectsFirst(handlers, units, c) && RejectsFirst(handlers, units, d) ensures c == d {
      OnlyOneRejectsFirst(handlers, units, c, d);
    }
  }

  // ---------- the dispatch itself ----------

  ghost predicate GroupsUpTo(units: seq<OutputUnit>, groups: map<string, set<string>>, order: seq<string>) {
    && NoRepeats(order)
    && (forall c :: c in order <==> c in groups)
    && (forall c :: c in groups <==> c in Contracts(units))
    && (forall c :: c in groups ==> groups[c] == Selected(units, c))
  }

  lemma GroupOneMore(units: seq<OutputUnit>, u: OutputUnit, before: map<string, set<string>>, known: seq<string>)
    requires GroupsUpTo(units, before, known)
    ensures GroupsUpTo(units + [u],
                       before[u.contract := (if u.contract in before then before[u.contract] else {}) + {u.fingerprint}],
                       if u.contract in before then known else known + [u.contract])
  {
    var all := units + [u];
    assert forall x :: x in all <==> x in units || x == u;
    assert Contracts(all) == Contracts(units) + {u.contract};
    forall c ensures Selected(all, c) == Selected(units, c) + if c == u.contract then {u.fingerprint} else {} {
      assert forall f :: f in Selected(all, c) <==> f in Selected(units, c) || (c == u.contract && f == u.fingerprint);
    }
    if u.contract !in before { assert Selected(units, u.contract) == {}; }
  }

  /** coordinateMaterialization. */
  method CoordinateMaterialization(units: seq<OutputUnit>, handlers: Untrusted) returns (r: Outcome)
    ensures r == Dispatch(handlers, units)
  {
    hide Selected, Contracts, Sort, SortedKeys, GroupsUpTo, MaterializeGroups, Materialize, Exact, AnswersExactly, Rejects,
         RejectsFirst, Handled, Dispatch, Answers, Less, NoRepeats;
    if |handlers| == 0 {
      Unhandled(handlers, units);
      return Settled(None);
    }
    var groups: map<string, set<string>>, order: seq<string> := map[], [];
    var i := 0;
    NoContracts();
    while i < |units|
      invariant 0 <= i <= |units|
      invariant forall j :: 0 <= j < i ==> units[j].contract in handlers
      invariant GroupsUpTo(units[..i], groups, order)
    {
      var unit := units[i];
      if unit.contract !in handlers {
        assert unit in units;
        Unhandled(handlers, units);
        return Settled(None);
      }
      GroupOneMore(units[..i], unit, groups, order);
      var group := if unit.contract in groups then groups[unit.contract] else {};
      order := if unit.contract in groups then order else order + [unit.contract];
      groups := groups[unit.contract := group + {unit.fingerprint}];
      assert units[..i] + [unit] == units[..i + 1];
      i := i + 1;
    }
    assert units[..i] == units;
    AllHandled(handlers, units);
    GroupsComplete(units, groups, order, "");
    SortDistinct(order, Contracts(units));
    var contracts := Sort(order);
    NoGroups(Answers(handlers), units);
    var materialized: seq<string> := [];
    i := 0;
    while i < |contracts|
      invariant 0 <= i <= |contracts|
      invariant forall j :: 0 <= j < i ==> AnswersExactly(handlers, units, contracts[j])
      invariant MaterializeGroups(Answers(handlers), units, contracts[..i]) == Some(materialized)
    {
      var contract := contracts[i];
      assert contract in contracts;
      GroupsComplete(units, groups, order, contract);
      NextGroup(handlers, units, contracts, i);
      AnswerDecides(handlers, units, contract);
      var reply := handlers[contract](groups[contract]);
      if reply.Rejected? {
        RejectionStands(handlers, units, contracts, i);
        return RejectedBy(contract);
      }
      var answer := reply.answer;
      var expected := SortSet(groups[contract]);
      if !answer.complete || expected != Sort(answer.units) {
        BlockedStaysBlocked(Answers(handlers), units, contracts, i + 1);
        BlockStands(handlers, units, contracts, i);
        return Settled(None);
      }
      materialized := materialized + answer.units;
      i := i + 1;
    }
    assert contracts[..i] == contracts;
    BlockStands(handlers, units, contracts, i);
    return Settled(Some(Sort(materialized)));
  }

  lemma Unhandled(handlers: Untrusted, units: seq<OutputUnit>)
    requires |handlers| == 0 || exists u :: u in units && u.contract !in handlers
    ensures Dispatch(handlers, units) == Settled(None)
  {
  }

  lemma AllHandled(handlers: Untrusted, units: seq<OutputUnit>)
    requires |handlers| != 0 && forall j :: 0 <= j < |units| ==> units[j].contract in handlers
    ensures Handled(handlers, units)
    ensures forall c :: c in SortedKeys(Contracts(units)) ==> c in handlers && c in Answers(handlers)
    ensures Materialize(Answers(handlers), units) ==
            match MaterializeGroups(Answers(handlers), units, SortedKeys(Contracts(units)))
            case None => None
            case Some(all) => Some(Sort(all))
  {
    hide SortedKeys, Sort, MaterializeGroups;
    forall c | c in SortedKeys(Contracts(units)) ensures c in handlers { assert c in Contracts(units); }
  }

  /** Asking one handler decides how its contract counts. */
  lemma AnswerDecides(handlers: Untrusted, units: seq<OutputUnit>, contract: string)
    requires contract in handlers
    ensures var selected, reply := Selected(units, contract), handlers[contract](Selected(units, contract));
            && (Rejects(handlers, units, contract) <==> reply.Rejected?)
            && (AnswersExactly(handlers, units, contract) <==>
                  reply.Answered? && reply.answer.complete && SortedKeys(selected) == Sort(reply.answer.units))
  {
    hide Selected, SortedKeys, Sort;
  }

  lemma NextGroup(handlers: Untrusted, units: seq<OutputUnit>, contracts: seq<string>, i: nat)
    requires i < |contracts| && forall c :: c in contracts ==> c in handlers
    ensures var before, contract := MaterializeGroups(Answers(handlers), units, contracts[..i]), contracts[i];
            MaterializeGroups(Answers(handlers), units, contracts[..i + 1]) ==
            if before.Some? && AnswersExactly(handlers, units, contract)
            then Some(before.value + handlers[contract](Selected(units, contract)).answer.units) else None
  {
    hide MaterializeGroups, Selected, SortedKeys, Sort;
    assert contracts[..i + 1] == contracts[..i] + [contracts[i]];
    GroupsNext(Answers(handlers), units, contracts[..i], contracts[i]);
  }

  lemma RejectionStands(handlers: Untrusted, units: seq<OutputUnit>, contracts: seq<string>, i: nat)
    requires Handled(handlers, units) && contracts == SortedKeys(Contracts(units)) && i < |contracts|
    requires forall j :: 0 <= j < i ==> AnswersExactly(handlers, units, contracts[j])
    requires Rejects(handlers, units, contracts[i])
    ensures Dispatch(handlers, units) == RejectedBy(contracts[i])
  {
    hide Dispatch, Selected, Contracts, SortedKeys, AnswersExactly, Less, Rejects, Handled;
    assert contracts[i] in contracts;
    forall c | c in Contracts(units) && Less(c, contracts[i]) ensures AnswersExactly(handlers, units, c) {
      var j :| 0 <= j < |contracts| && contracts[j] == c;
      LessTotal(c, contracts[i]);
    }
    RejectionIsExact(handlers, units, contracts[i]);
  }

  /** Nothing rejects first when the first contract not answered exactly, if any, was answered. */
  lemma BlockStands(handlers: Untrusted, units: seq<OutputUnit>, contracts: seq<string>, i: nat)
    requires contracts == SortedKeys(Contracts(units)) && i <= |contracts|
    requires forall j :: 0 <= j < i ==> AnswersExactly(handlers, units, contracts[j])
    requires i < |contracts| ==> !Rejects(handlers, units, contracts[i]) && !AnswersExactly(handlers, units, contracts[i])
    ensures Dispatch(handlers, units) == Settled(Materialize(Answers(handlers), units))
  {
    hide Selected, Contracts, SortedKeys, Less, Handled, Materialize, Exact;
    forall c ensures !RejectsFirst(handlers, units, c) { RejectingPosition(handlers, units, contracts, c); }
  }

  lemma RejectingPosition(handlers: Untrusted, units: seq<OutputUnit>, contracts: seq<string>, c: string)
    requires contracts == SortedKeys(Contracts(units))
    ensures RejectsFirst(handlers, units, c) ==>
              exists j :: 0 <= j < |contracts| && contracts[j] == c
                          && forall k :: 0 <= k < j ==> AnswersExactly(handlers, units, contracts[k])
  {
    hide Selected, Contracts, SortedKeys, Less, AnswersExactly, Rejects;
    if RejectsFirst(handlers, units, c) {
      var j :| 0 <= j < |contracts| && contracts[j] == c;
      forall k | 0 <= k < j ensures AnswersExactly(handlers, units, contracts[k]) {
        assert Less(contracts[k], contracts[j]) && contracts[k] in contracts;
      }
    }
  }

  /** What is known of the groups once every unit is placed. */
  lemma GroupsComplete(units: seq<OutputUnit>, groups: map<string, set<string>>, order: seq<string>, c: string)
    requires GroupsUpTo(units, groups, order)
    ensures NoRepeats(order) && forall x :: x in order <==> x in Contracts(units)
    ensures c in Contracts(units) ==> c in groups && groups[c] == Selected(units, c)
  {
    hide Selected, Contracts;
  }

  lemma GroupsNext(handlers: Handlers, units: seq<OutputUnit>, contracts: seq<string>, contract: string)
    requires forall c :: c in contracts + [contract] ==> c in handlers
    ensures forall c :: c in contracts ==> c in handlers
    ensures var before := MaterializeGroups(handlers, units, contracts);
            var selected := Selected(units, contract);
            MaterializeGroups(handlers, units, contracts + [contract]) ==
            if before.Some? && Exact(selected, handlers[contract](selected))
            then Some(before.value + handlers[contract](selected).units) else None
  {
    hide Exact, Selected;
    assert (contracts + [contract])[..|contracts|] == contracts;
    assert forall c :: c in contracts ==> c in contracts + [contract];
  }

  lemma NoGroups(handlers: Handlers, units: seq<OutputUnit>)
    ensures MaterializeGroups(handlers, units, []) == Some([])
  {
  }

  lemma NoContracts()
    ensures GroupsUpTo([], map[], [])
  {
  }

  lemma {:induction false} BlockedStaysBlocked(handlers: Handlers, units: seq<OutputUnit>, contracts: seq<string>, n: nat)
    requires n <= |contracts| && forall c :: c in contracts ==> c in handlers
    requires MaterializeGroups(handlers, units, contracts[..n]).None?
    ensures MaterializeGroups(handlers, units, contracts).None?
    decreases |contracts|
  {
    hide Exact, Selected;
    if n == |contracts| {
      assert contracts[..n] == contracts;
    } else {
      assert contracts[..|contracts| - 1][..n] == contracts[..n];
      BlockedStaysBlocked(handlers, units, contracts[..|contracts| - 1], n);
    }
  }
}
