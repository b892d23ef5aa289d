/**
 Which answers of target handlers the dispatch of render analysis keeps (target-coordinator.ts), in
 terms of the rows, units and status of the answer alone.
 */
module AnalysisKept {
  import opened Common
  import opened Text
  import opened TargetCoordinator

  // ---------- proper answers ----------

  function OptionsNaming(rows: seq<OptionRow>, f: string): nat {
    if rows == [] then 0 else OptionsNaming(rows[1..], f) + if rows[0].semantic == f then 1 else 0
  }

  function BlockedNaming(rows: seq<BlockedRow>, f: string): nat {
    if rows == [] then 0 else BlockedNaming(rows[1..], f) + if rows[0].semantic == f then 1 else 0
  }

  ghost predicate Asked(group: seq<Semantic>, f: string) {
    exists s :: s in group && s.fingerprint == f
  }

  /** The rows name each fingerprint of the group once and nothing else. */
  ghost predicate NamesEachOnce(group: seq<Semantic>, r: Analysis) {
    forall f :: OptionsNaming(r.options, f) + BlockedNaming(r.blocked, f) == if Asked(group, f) then 1 else 0
  }

  /** The status tells which kinds of rows there are. */
  predicate HonestStatus(r: Analysis) {
    match r.status
    case Complete => |r.blocked| == 0
    case Partial => |r.blocked| > 0 && |r.options| > 0
    case Failed => |r.blocked| > 0 && |r.options| == 0
  }

  ghost predicate Proper(group: seq<Semantic>, r: Analysis) {
    && NamesEachOnce(group, r)
    && (forall i, j :: 0 <= i < j < |r.units| ==> r.units[i] != r.units[j])
    && HonestStatus(r)
  }

  lemma {:induction false} OptionsCount(rows: seq<OptionRow>, f: string)
    ensures multiset(OptionSemantics(rows))[f] == OptionsNaming(rows, f)
  {
    if rows != [] {
      OptionsCount(rows[1..], f);
      assert OptionSemantics(rows) == [rows[0].semantic] + OptionSemantics(rows[1..]);
    }
  }

  lemma {:induction false} BlockedCount(rows: seq<BlockedRow>, f: string)
    ensures multiset(BlockedSemantics(rows))[f] == BlockedNaming(rows, f)
  {
    if rows != [] {
      BlockedCount(rows[1..], f);
      assert BlockedSemantics(rows) == [rows[0].semantic] + BlockedSemantics(rows[1..]);
    }
  }

  lemma ClassifiedCount(r: Analysis, f: string)
    ensures multiset(Classified(r))[f] == OptionsNaming(r.options, f) + BlockedNaming(r.blocked, f)
  {
    OptionsCount(r.options, f);
    BlockedCount(r.blocked, f);
  }

  lemma AskedIsListed(group: seq<Semantic>, f: string)
    ensures Asked(group, f) <==> f in Fingerprints(group)
  {
    ProjectMembers(group, (s: Semantic) => s.fingerprint, f);
  }

  lemma {:induction false} AtMostOnce(a: seq<string>, f: string)
    requires NoRepeats(a)
    ensures multiset(a)[f] == if f in a then 1 else 0
  {
    if a != [] {
      var front, last := a[..|a| - 1], a[|a| - 1];
      AtMostOnce(front, f);
      assert a == front + [last];
      assert last !in front;
    }
  }

  lemma OnceEach(a: seq<string>)
    requires forall f :: multiset(a)[f] <= 1
    ensures NoRepeats(a)
  {
    forall i, j | 0 <= i < j < |a| ensures a[i] != a[j] {
      assert a == a[..j] + a[j..];
      assert a[i] in multiset(a[..j]) && a[j] in multiset(a[j..]);
      assert multiset(a)[a[i]] <= 1;
    }
  }

  ghost predicate DistinctGroup(group: seq<Semantic>) {
    forall i, j :: 0 <= i < j < |group| ==> group[i].fingerprint != group[j].fingerprint
  }

  lemma DistinctIsNoRepeats(group: seq<Semantic>)
    ensures NoRepeats(Fingerprints(group)) <==> DistinctGroup(group)
  {
    hide Project;
    var field := (s: Semantic) => s.fingerprint;
    var f := Fingerprints(group);
    FingerprintsLength(group);
    forall i: nat | i < |group| ensures f[i] == group[i].fingerprint { ProjectAt(group, field, i); }
    if NoRepeats(f) {
      forall i, j | 0 <= i < j < |group| ensures group[i].fingerprint != group[j].fingerprint { assert f[i] != f[j]; }
    }
  }

  /** The test of the dispatch accepts exactly the proper answers of groups without a repeated fingerprint. */
  lemma ProperIsExact(group: seq<Semantic>, r: Analysis)
    ensures IsExact(group, r) <==> DistinctGroup(group) && Proper(group, r)
  {
    hide Fingerprints, Classified, OptionsNaming, BlockedNaming, Asked, NoRepeats, Sort, DistinctGroup;
    var wanted, named := Fingerprints(group), Classified(r);
    SortDecides(wanted, named);
    DistinctIsNoRepeats(group);
    UnitsDiffer(r.units);
    SortMembers(named);
    if IsExact(group, r) {
      SameMembersNoRepeats(Sort(named), wanted);
    }
    if NoRepeats(wanted) {
      if multiset(wanted) == multiset(named) { SameMembersNoRepeats(wanted, Sort(named)); }
      SameCounts(group, r);
    }
  }

  lemma SameCounts(group: seq<Semantic>, r: Analysis)
    requires NoRepeats(Fingerprints(group))
    ensures NamesEachOnce(group, r) <==> multiset(Fingerprints(group)) == multiset(Classified(r))
  {
    hide Fingerprints, Classified, OptionsNaming, BlockedNaming, Asked, NoRepeats;
    var wanted, named := multiset(Fingerprints(group)), multiset(Classified(r));
    forall f
      ensures named[f] == OptionsNaming(r.options, f) + BlockedNaming(r.blocked, f)
      ensures wanted[f] == if Asked(group, f) then 1 else 0
    {
      ClassifiedCount(r, f);
      AskedIsListed(group, f);
      AtMostOnce(Fingerprints(group), f);
    }
    if NamesEachOnce(group, r) {
      forall f ensures wanted[f] == named[f] {
      }
    }
  }

  lemma UnitsDiffer(units: seq<string>)
    ensures NoRepeats(units) <==> forall i, j :: 0 <= i < j < |units| ==> units[i] != units[j]
  {
  }

  // ---------- what becomes of an answer ----------

  lemma {:induction false} GroupCounts(assets: seq<Asset>, semantics: seq<Semantic>, key: string, f: string)
    ensures multiset(Fingerprints(Group(assets, semantics, key)))[f] <= multiset(Fingerprints(semantics))[f]
    decreases |semantics|
  {
    hide CellOf, Fingerprints;
    if semantics != [] {
      var front, last := semantics[..|semantics| - 1], semantics[|semantics| - 1];
      GroupCounts(assets, front, key, f);
      assert semantics == front + [last];
      FingerprintsAppend(front, [last]);
      FingerprintsAppend(Group(assets, front, key), [last]);
      assert Group(assets, front, key) + [] == Group(assets, front, key);
    }
  }

  /** With distinct fingerprints every cell's group is distinct, and it is not empty. */
  lemma GroupsAreDistinct(input: Input, key: string)
    requires DistinctSemantics(input) && key in Cells(input.assets, input.semantics)
    ensures DistinctGroup(Group(input.assets, input.semantics, key)) && Group(input.assets, input.semantics, key) != []
  {
    hide CellOf, Group, Fingerprints, NoRepeats, DistinctGroup;
    var group := Group(input.assets, input.semantics, key);
    forall f ensures multiset(Fingerprints(group))[f] <= 1 {
      GroupCounts(input.assets, input.semantics, key, f);
      AtMostOnce(Fingerprints(input.semantics), f);
    }
    OnceEach(Fingerprints(group));
    DistinctIsNoRepeats(group);
    var s :| s in input.semantics && key in CellSet(input.assets, s);
    GroupMember(input.assets, input.semantics, key, s);
  }

  lemma BlockAllIsProper(group: seq<Semantic>, reason: string)
    requires group != [] && DistinctGroup(group)
    ensures Proper(group, BlockAll(group, reason))
  {
    hide Fingerprints, Classified, Sort, DistinctGroup, Proper, NoRepeats;
    var r := BlockAll(group, reason);
    BlockAllClassifies(group, reason);
    DistinctIsNoRepeats(group);
    SortMembers(Fingerprints(group));
    SameMembersNoRepeats(Fingerprints(group), Sort(Fingerprints(group)));
    UnitsDiffer([]);
    assert BlockRows(group, reason) != [];
    ProperIsExact(group, r);
  }

  /** What the dispatch keeps for a cell is the handler's answer exactly when that answer is proper. */
  lemma ProperIsKept(capabilities: seq<Capability>, handlers: Handlers, input: Input, key: string)
    requires DistinctSemantics(input) && key in Cells(input.assets, input.semantics) && key in handlers
    ensures var group := Group(input.assets, input.semantics, key);
            ResultOf(capabilities, handlers, input, key) == handlers[key](group) <==> Proper(group, handlers[key](group))
  {
    hide Group, IsExact, Proper, BlockAll, DistinctGroup, Cells, DistinctSemantics;
    var group := Group(input.assets, input.semantics, key);
    GroupsAreDistinct(input, key);
    ProperIsExact(group, handlers[key](group));
    BlockAllIsProper(group, HANDLER_UNAVAILABLE);
  }

  /** Every row and unit kept for a cell reaches the result, and the result names a semantic of the cell only there. */
  ghost predicate Reaches(group: seq<Semantic>, answer: Analysis, r: Analysis) {
    && (forall row :: row in answer.options ==> row in r.options)
    && (forall row :: row in answer.blocked ==> row in r.blocked)
    && (forall u :: u in answer.units ==> u in r.units)
    && (forall s, row :: s in group && row in r.options && row.semantic == s.fingerprint ==> row in answer.options)
    && (forall s, row :: s in group && row in r.blocked && row.semantic == s.fingerprint ==> row in answer.blocked)
  }

  lemma KeptReaches(capabilities: seq<Capability>, handlers: Handlers, input: Input, key: string)
    requires |handlers| != 0 && AllPlaced(input) && DistinctSemantics(input)
    requires !SharedUnit(CellResults(capabilities, handlers, input)) && key in Cells(input.assets, input.semantics)
    ensures Reaches(Group(input.assets, input.semantics, key), ResultOf(capabilities, handlers, input, key),
                    Coordinate(capabilities, handlers, input))
  {
    hide CellOf, ResultOf, Results, CellKeys, DistinctSemantics, SharedUnit, Coordinate, AllOptions, AllBlocked, AllUnits,
         Sort, SortBy, StatusOf, AllPlaced, Group;
    var group := Group(input.assets, input.semantics, key);
    var own, r := ResultOf(capabilities, handlers, input, key), Coordinate(capabilities, handlers, input);
    var results, keys := CellResults(capabilities, handlers, input), CellKeys(input);
    var s0 :| s0 in input.semantics && key in CellSet(input.assets, s0);
    MergeFailsOnlyBySharedUnits(capabilities, handlers, input);
    CellsAreSorted(input);
    ResultsLength(capabilities, handlers, input, keys);
    var k :| 0 <= k < |keys| && keys[k] == key;
    assert results[k] == own;
    forall row | row in own.options ensures row in r.options {
      SortByKeeps(AllOptions(results), OptionKey, row);
      OptionsFrom(results, row);
    }
    forall row | row in own.blocked ensures row in r.blocked {
      SortByKeeps(AllBlocked(results), BlockedKey, row);
      BlockedFrom(results, row);
    }
    forall u | u in own.units ensures u in r.units {
      UnitsFrom(results, u);
      SortMembers(AllUnits(results));
      assert u in multiset(AllUnits(results));
    }
    forall s | s in group
      ensures forall row :: row in r.options && row.semantic == s.fingerprint ==> row in own.options
      ensures forall row :: row in r.blocked && row.semantic == s.fingerprint ==> row in own.blocked
    {
      GroupMember(input.assets, input.semantics, key, s);
      OwnHandlerDecides(capabilities, handlers, input, s, key);
    }
  }

  /** The one row of each semantic of the group says that its handler gave no usable answer. */
  ghost predicate Refused(group: seq<Semantic>, r: Analysis, reason: string) {
    forall s :: s in group ==>
      && BlockedRow(s.fingerprint, reason) in r.blocked
      && (forall row :: row in r.blocked && row.semantic == s.fingerprint ==> row.reason == reason)
      && (forall row :: row in r.options ==> row.semantic != s.fingerprint)
  }

  /** No unit is put out by the proper answers of two cells. */
  ghost predicate UnitsApart(handlers: Handlers, input: Input) {
    var cells := Cells(input.assets, input.semantics);
    forall k, l, u :: k in cells && l in cells && k != l && Offers(handlers, input, k, u) ==> !Offers(handlers, input, l, u)
  }

  ghost predicate Offers(handlers: Handlers, input: Input, key: string, u: string) {
    && key in handlers
    && var group := Group(input.assets, input.semantics, key);
       Proper(group, handlers[key](group)) && u in handlers[key](group).units
  }

  lemma KeptUnits(capabilities: seq<Capability>, handlers: Handlers, input: Input, key: string, u: string)
    requires DistinctSemantics(input) && key in Cells(input.assets, input.semantics)
    ensures u in ResultOf(capabilities, handlers, input, key).units <==> Offers(handlers, input, key, u)
  {
    hide Group, IsExact, Proper, Cells, DistinctSemantics;
    GroupsAreDistinct(input, key);
    if key in handlers {
      var group := Group(input.assets, input.semantics, key);
      ProperIsExact(group, handlers[key](group));
    }
  }

  /** The merge of the kept results is refused exactly when two proper answers put out one unit. */
  lemma SharingIsExact(capabilities: seq<Capability>, handlers: Handlers, input: Input)
    requires DistinctSemantics(input) && AllPlaced(input)
    ensures SharedUnit(CellResults(capabilities, handlers, input)) <==> !UnitsApart(handlers, input)
  {
    hide CellKeys, ResultOf, Results, Offers, Cells, AllPlaced, DistinctSemantics, StrictlySorted;
    var results, keys := CellResults(capabilities, handlers, input), CellKeys(input);
    CellsAreSorted(input);
    CellsListed(input);
    ResultsLength(capabilities, handlers, input, keys);
    forall i, u | 0 <= i < |keys| ensures u in results[i].units <==> Offers(handlers, input, keys[i], u) {
      KeptUnits(capabilities, handlers, input, keys[i], u);
    }
    if !UnitsApart(handlers, input) {
      var k, l, u :| k in keys && l in keys && k != l && Offers(handlers, input, k, u) && Offers(handlers, input, l, u);
      var i :| 0 <= i < |keys| && keys[i] == k;
      var j :| 0 <= j < |keys| && keys[j] == l;
      assert u in results[i].units && u in results[j].units;
      if i < j { } else { assert j < i; }
    }
  }

  /** The same before anything is said of rejections. */
  lemma ProperAnswerIsMerged(capabilities: seq<Capability>, handlers: Handlers, input: Input, key: string)
    requires AllPlaced(input) && DistinctSemantics(input) && UnitsApart(handlers, input)
    requires key in Cells(input.assets, input.semantics) && key in handlers
    ensures var group := Group(input.assets, input.semantics, key);
            var r, answer := Coordinate(capabilities, handlers, input), handlers[key](group);
            && (Proper(group, answer) ==> Reaches(group, answer, r))
            && (!Proper(group, answer) ==> Refused(group, r, HANDLER_UNAVAILABLE))
  {
    hide Coordinate, Cells, DistinctSemantics, AllPlaced, CellOf, ResultOf, SharedUnit, CellResults, IsExact, Proper,
         Reaches, UnitsApart;
    var group := Group(input.assets, input.semantics, key);
    assert |handlers| != 0;
    SharingIsExact(capabilities, handlers, input);
    GroupsAreDistinct(input, key);
    ProperIsExact(group, handlers[key](group));
    ProperIsKept(capabilities, handlers, input, key);
    KeptReaches(capabilities, handlers, input, key);
    if !Proper(group, handlers[key](group)) {
      forall s | s in group
        ensures var r := Coordinate(capabilities, handlers, input);
                && (forall row :: row in r.options ==> row.semantic != s.fingerprint)
                && (forall row :: row in r.blocked && row.semantic == s.fingerprint ==> row.reason == HANDLER_UNAVAILABLE)
                && BlockedRow(s.fingerprint, HANDLER_UNAVAILABLE) in r.blocked
      {
        GroupMember(input.assets, input.semantics, key, s);
        InexactAnswerBlocksItsGroup(capabilities, handlers, input, s, key);
      }
    }
  }

  lemma {:induction false} OptionCounted(rows: seq<OptionRow>, row: OptionRow)
    ensures row in rows ==> OptionsNaming(rows, row.semantic) > 0
  {
    if rows != [] && row in rows[1..] { OptionCounted(rows[1..], row); }
  }

  /** An answer with an option cannot have reached a result that blocks its whole group. */
  lemma OptionsAreNotRefused(group: seq<Semantic>, answer: Analysis, r: Analysis, reason: string)
    requires Proper(group, answer) && Reaches(group, answer, r) && |answer.options| > 0
    ensures !Refused(group, r, reason)
  {
    var row := answer.options[0];
    OptionCounted(answer.options, row);
    assert Asked(group, row.semantic);
  }

  /**
   An answer is kept whole exactly when its rows name each fingerprint of the group once and nothing
   else, no unit repeats, and its status is complete without a blocked row, partial with both kinds, or
   failed with blocked rows only: then its rows and units reach the result unchanged. Otherwise each
   semantic of its group is blocked.
   */
  lemma ProperAnswerReachesResult(capabilities: seq<Capability>, handlers: Untrusted, input: Input, key: string)
    requires AllPlaced(input) && DistinctSemantics(input) && UnitsApart(Settled(handlers), input)
    requires key in Cells(input.assets, input.semantics) && key in handlers
    requires Dispatch(capabilities, handlers, input).Analysed?
    ensures var group := Group(input.assets, input.semantics, key);
            var r := Dispatch(capabilities, handlers, input).analysis;
            && handlers[key](group).Answered?
            && var answer := handlers[key](group).analysis;
               && (Proper(group, answer) ==> Reaches(group, answer, r))
               && (!Proper(group, answer) ==> Refused(group, r, "adapter_framework.target_handler_unavailable"))
               && (Proper(group, answer) && |answer.options| > 0 ==>
                     !Refused(group, r, "adapter_framework.target_handler_unavailable"))
  {
    hide Dispatch, Coordinate, Cells, DistinctSemantics, AllPlaced, Group, Proper, Reaches, Refused, UnitsApart;
    var group := Group(input.assets, input.semantics, key);
    RejectionIsExact(capabilities, handlers, input);
    assert !Rejects(handlers, input, key);
    ProperAnswerIsMerged(capabilities, Settled(handlers), input, key);
    var answer, r := handlers[key](group).analysis, Dispatch(capabilities, handlers, input).analysis;
    assert Settled(handlers)[key](group) == answer;
    if Proper(group, answer) && |answer.options| > 0 {
      OptionsAreNotRefused(group, answer, r, "adapter_framework.target_handler_unavailable");
    }
  }

  /** When two proper answers put out one unit nothing of any answer is kept. */
  lemma SharingBlocksEverything(capabilities: seq<Capability>, handlers: Handlers, input: Input)
    requires |handlers| != 0 && AllPlaced(input) && DistinctSemantics(input) && !UnitsApart(handlers, input)
    ensures var r := Coordinate(capabilities, handlers, input);
            && r.status == Failed && |r.units| == 0 && |r.options| == 0
            && Refused(input.semantics, r, "adapter_framework.target_handler_unavailable")
  {
    hide Coordinate, Cells, DistinctSemantics, AllPlaced, SharedUnit, CellResults, Proper, Group, Fingerprints;
    SharingIsExact(capabilities, handlers, input);
    var k, l, u :| k in Cells(input.assets, input.semantics) && Offers(handlers, input, k, u) && k != l;
    HasSemantics(input, k);
    MergeFailsOnlyBySharedUnits(capabilities, handlers, input);
    EverythingBlocked(input.semantics, HANDLER_UNAVAILABLE);
  }

  lemma HasSemantics(input: Input, key: string)
    requires key in Cells(input.assets, input.semantics)
    ensures input.semantics != []
  {
  }

  lemma EverythingBlocked(semantics: seq<Semantic>, reason: string)
    ensures Refused(semantics, BlockAll(semantics, reason), reason)
  {
    forall row ensures row in BlockRows(semantics, reason)
                       <==> row.reason == reason && exists t :: t in semantics && t.fingerprint == row.semantic
    {
      BlockRowsMembers(semantics, reason, row);
    }
  }

  // ---------- cells without a handler ----------

  /** No capability before position `i` is for the consumer and kind. */
  predicate NoneBefore(capabilities: seq<Capability>, i: nat, consumer: string, kind: string)
    requires i <= |capabilities|
  {
    forall j :: 0 <= j < i ==> capabilities[j].consumer != consumer || capabilities[j].kind != kind
  }

  /** The reason given for a cell without a handler is the first diagnostic of the first capability for the
      consumer and kind, where there is one. */
  lemma {:induction false} ReasonIsOfFirstCapability(capabilities: seq<Capability>, consumer: string, kind: string)
    ensures var reason := UnavailableReason(FindCapability(capabilities, consumer, kind));
            && (NoneBefore(capabilities, |capabilities|, consumer, kind) ==>
                  reason == "adapter_framework.target_handler_unavailable")
            && (forall i :: 0 <= i < |capabilities| && NoneBefore(capabilities, i, consumer, kind)
                            && capabilities[i].consumer == consumer && capabilities[i].kind == kind ==>
                  reason == if |capabilities[i].diagnostics| > 0 then capabilities[i].diagnostics[0]
                            else "adapter_framework.target_handler_unavailable")
  {
    if capabilities != [] {
      var rest := capabilities[1..];
      ReasonIsOfFirstCapability(rest, consumer, kind);
      if capabilities[0].consumer != consumer || capabilities[0].kind != kind {
        forall i | 0 < i <= |capabilities| && NoneBefore(capabilities, i, consumer, kind)
          ensures NoneBefore(rest, i - 1, consumer, kind)
        {
          forall j | 0 <= j < i - 1 ensures rest[j].consumer != consumer || rest[j].kind != kind {
            assert rest[j] == capabilities[j + 1];
          }
        }
        assert forall i :: 0 < i < |capabilities| ==> capabilities[i] == rest[i - 1];
      }
    }
  }

  /** The kind of a semantic is that of the first asset with its reference, if there is one. */
  lemma {:induction false} PlacedByFirstAsset(capabilities: seq<Capability>, assets: seq<Asset>, s: Semantic, i: nat)
    requires i <= |assets| && forall j :: 0 <= j < i ==> assets[j].ref != s.subject
    requires i < |assets| ==> assets[i].ref == s.subject
    ensures i == |assets| ==> CellOf(assets, s).None? && CapabilityOf(capabilities, assets, s).None?
    ensures i < |assets| ==>
              && CellOf(assets, s) == Some(s.consumer + "\0" + assets[i].kind)
              && CapabilityOf(capabilities, assets, s) == FindCapability(capabilities, s.consumer, assets[i].kind)
  {
    hide FindCapability;
    if i > 0 { PlacedByFirstAsset(capabilities, assets[1..], s, i - 1); }
  }

  /** Without a handler for their cell the semantics of a group are blocked for the reason of the capability found
      for the first of them; without any handler, or with a semantic that has no asset, all are blocked. */
  lemma MissingHandlerBlocks(capabilities: seq<Capability>, handlers: Handlers, input: Input, key: string)
    requires DistinctSemantics(input)
    ensures |handlers| == 0 || !AllPlaced(input) ==>
              Refused(input.semantics, Coordinate(capabilities, handlers, input), "adapter_framework.target_handler_unavailable")
    ensures |handlers| != 0 && AllPlaced(input) && UnitsApart(handlers, input)
            && key in Cells(input.assets, input.semantics) && key !in handlers ==>
              var group := Group(input.assets, input.semantics, key);
              && group != []
              && Refused(group, Coordinate(capabilities, handlers, input),
                         UnavailableReason(CapabilityOf(capabilities, input.assets, group[0])))
  {
    hide Cells, DistinctSemantics, AllPlaced, Group, Reaches, UnitsApart, Merge, CapabilityOf, CellResults, Refused, SharedUnit,
         DistinctGroup;
    EverythingBlocked(input.semantics, HANDLER_UNAVAILABLE);
    if |handlers| != 0 && AllPlaced(input) && UnitsApart(handlers, input)
       && key in Cells(input.assets, input.semantics) && key !in handlers
    {
      var group := Group(input.assets, input.semantics, key);
      GroupsAreDistinct(input, key);
      SharingIsExact(capabilities, handlers, input);
      KeptReaches(capabilities, handlers, input, key);
      var reason := UnavailableReason(CapabilityOf(capabilities, input.assets, group[0]));
      EverythingBlocked(group, reason);
      BlockedReaches(group, Coordinate(capabilities, handlers, input), reason);
    }
  }

  lemma BlockedReaches(group: seq<Semantic>, r: Analysis, reason: string)
    requires Reaches(group, BlockAll(group, reason), r) && Refused(group, BlockAll(group, reason), reason)
    ensures Refused(group, r, reason)
  {
  }

  // ---------- the status of the result ----------

  /** The status of the result is honest about its rows as well, unless nothing was asked of a host without handlers. */
  lemma ResultStatusIsHonest(capabilities: seq<Capability>, handlers: Handlers, input: Input)
    requires |handlers| != 0 || input.semantics != []
    ensures HonestStatus(Coordinate(capabilities, handlers, input))
  {
    hide Coordinate, Classified, Fingerprints;
    EverySemanticClassified(capabilities, handlers, input);
  }

  /** The rows of a merged result come in the order of their texts. */
  lemma ResultIsInOrder(capabilities: seq<Capability>, handlers: Handlers, input: Input)
    requires |handlers| != 0 && AllPlaced(input) && DistinctSemantics(input) && UnitsApart(handlers, input)
    ensures var r := Coordinate(capabilities, handlers, input);
            && (forall i, j :: 0 <= i < j < |r.units| ==> AtMost(r.units[i], r.units[j]))
            && (forall i, j :: 0 <= i < j < |r.options| ==>
                  AtMost(r.options[i].semantic + "\0" + r.options[i].option, r.options[j].semantic + "\0" + r.options[j].option))
            && (forall i, j :: 0 <= i < j < |r.blocked| ==> AtMost(r.blocked[i].semantic, r.blocked[j].semantic))
  {
    hide Coordinate, Cells, DistinctSemantics, AllPlaced, SharedUnit, CellResults, AtMost, SortBy, UnitsApart, AllUnits,
         AllOptions, AllBlocked;
    var results := CellResults(capabilities, handlers, input);
    SharingIsExact(capabilities, handlers, input);
    if input.semantics != [] {
      MergeFailsOnlyBySharedUnits(capabilities, handlers, input);
      SortMembers(AllUnits(results));
      SortByOrders(AllOptions(results), OptionKey);
      SortByOrders(AllBlocked(results), BlockedKey);
    } else {
      NothingToMerge(capabilities, handlers, input);
    }
  }

  lemma NothingToMerge(capabilities: seq<Capability>, handlers: Handlers, input: Input)
    requires |handlers| != 0 && AllPlaced(input) && input.semantics == []
    ensures Coordinate(capabilities, handlers, input) == Analysis(Complete, [], [], [])
  {
    hide CellKeys, Results;
    CellsListed(input);
    ResultsLength(capabilities, handlers, input, CellKeys(input));
  }
}
