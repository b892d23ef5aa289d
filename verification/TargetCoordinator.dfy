/**
 Dispatch of render analysis to untrusted target handlers (target-coordinator.ts).

 Fingerprints and reason codes are text. What a handler answers is a parameter: nothing is
 assumed about it. Diagnostics other than the reason code of a blocked row are not modelled.
 Analysis is stated before option fingerprints are rebound.
 */
module TargetCoordinator {
  import opened Common
  import opened Text

  datatype Reference = Reference(assetId: string, versionId: string)

  datatype Semantic = Semantic(fingerprint: string, consumer: string, subject: Reference)

  datatype Asset = Asset(ref: Reference, kind: string)

  datatype Capability = Capability(consumer: string, kind: string, diagnostics: seq<string>)

  datatype OptionRow = OptionRow(semantic: string, option: string)

  datatype BlockedRow = BlockedRow(semantic: string, reason: string)

  datatype Status = Complete | Partial | Failed

  datatype Analysis = Analysis(status: Status, units: seq<string>, options: seq<OptionRow>, blocked: seq<BlockedRow>)

  datatype Input = Input(semantics: seq<Semantic>, assets: seq<Asset>)

  const HANDLER_UNAVAILABLE := "adapter_framework.target_handler_unavailable"

  // ---------- projections ----------

  function Project<T>(rows: seq<T>, field: T -> string): seq<string> {
    if rows == [] then [] else [field(rows[0])] + Project(rows[1..], field)
  }

  function Fingerprints(semantics: seq<Semantic>): seq<string> {
    Project(semantics, (s: Semantic) => s.fingerprint)
  }

  function OptionSemantics(rows: seq<OptionRow>): seq<string> {
    Project(rows, (row: OptionRow) => row.semantic)
  }

  function BlockedSemantics(rows: seq<BlockedRow>): seq<string> {
    Project(rows, BlockedKey)
  }

  /** Every semantic an analysis classifies, with repetition. */
  function Classified(r: Analysis): seq<string> {
    OptionSemantics(r.options) + BlockedSemantics(r.blocked)
  }

  function StatusOf(options: seq<OptionRow>, blocked: seq<BlockedRow>): Status {
    if blocked == [] then Complete else if options == [] then Failed else Partial
  }

  function BlockRows(semantics: seq<Semantic>, reason: string): seq<BlockedRow> {
    if semantics == [] then [] else [BlockedRow(semantics[0].fingerprint, reason)] + BlockRows(semantics[1..], reason)
  }

  /** blockedAnalysisForSemantics: status "failed" even when there is nothing to block. */
  function BlockAll(semantics: seq<Semantic>, reason: string): Analysis {
    Analysis(Failed, [], [], BlockRows(semantics, reason))
  }

  /** isExactHandlerAnalysis. */
  predicate IsExact(semantics: seq<Semantic>, r: Analysis) {
    && Sort(Fingerprints(semantics)) == Sort(Classified(r))
    && NoRepeats(Sort(Classified(r)))
    && NoRepeats(r.units)
    && r.status == StatusOf(r.options, r.blocked)
  }

  // ---------- grouping ----------

  function FindAsset(assets: seq<Asset>, ref: Reference): Option<Asset> {
    if assets == [] then None
    else if assets[0].ref == ref then Some(assets[0])
    else FindAsset(assets[1..], ref)
  }

  function CellKey(consumer: string, kind: string): string {
    consumer + "\0" + kind
  }

  function CellOf(assets: seq<Asset>, s: Semantic): Option<string> {
    match FindAsset(assets, s.subject)
    case None => None
    case Some(asset) => Some(CellKey(s.consumer, asset.kind))
  }

  predicate AllPlaced(input: Input) {
    forall i :: 0 <= i < |input.semantics| ==> CellOf(input.assets, input.semantics[i]).Some?
  }

  /** The semantics of one cell, in input order. */
  function Group(assets: seq<Asset>, semantics: seq<Semantic>, key: string): seq<Semantic> {
    if semantics == [] then []
    else
      var front, last := semantics[..|semantics| - 1], semantics[|semantics| - 1];
      Group(assets, front, key) + if CellOf(assets, last) == Some(key) then [last] else []
  }

  function Cells(assets: seq<Asset>, semantics: seq<Semantic>): set<string> {
    set s, k | s in semantics && k in CellSet(assets, s) :: k
  }

  function CellSet(assets: seq<Asset>, s: Semantic): set<string> {
    match CellOf(assets, s)
    case None => {}
    case Some(k) => {k}
  }

  /** An untrusted handler: any function of the semantics projected to it. */
  type Handlers = map<string, seq<Semantic> -> Analysis>

  /** `capabilities.find` for the cell of a semantic. */
  function CapabilityOf(capabilities: seq<Capability>, assets: seq<Asset>, s: Semantic): Option<Capability> {
    match FindAsset(assets, s.subject)
    case None => None
    case Some(asset) => FindCapability(capabilities, s.consumer, asset.kind)
  }

  function FindCapability(capabilities: seq<Capability>, consumer: string, kind: string): Option<Capability> {
    if capabilities == [] then None
    else if capabilities[0].consumer == consumer && capabilities[0].kind == kind then Some(capabilities[0])
    else FindCapability(capabilities[1..], consumer, kind)
  }

  /** unavailableDiagnostic, as far as its code. */
  function UnavailableReason(capability: Option<Capability>): string {
    if capability.Some? && capability.value.diagnostics != [] then capability.value.diagnostics[0] else HANDLER_UNAVAILABLE
  }

  /** The capability remembered with a group is the one found for its first semantic. */
  function GroupCapability(capabilities: seq<Capability>, assets: seq<Asset>, group: seq<Semantic>): Option<Capability> {
    if group == [] then None else CapabilityOf(capabilities, assets, group[0])
  }

  /** The result kept for one cell. */
  function CellResult(capability: Option<Capability>, handlers: Handlers, key: string, group: seq<Semantic>): Analysis {
    if key !in handlers then BlockAll(group, UnavailableReason(capability))
    else
      var r := handlers[key](group);
      if IsExact(group, r) then r else BlockAll(group, HANDLER_UNAVAILABLE)
  }

  function ResultOf(capabilities: seq<Capability>, handlers: Handlers, input: Input, key: string): Analysis {
    var group := Group(input.assets, input.semantics, key);
    CellResult(GroupCapability(capabilities, input.assets, group), handlers, key, group)
  }

  function Results(capabilities: seq<Capability>, handlers: Handlers, input: Input, keys: seq<string>): seq<Analysis> {
    if keys == [] then []
    else
      Results(capabilities, handlers, input, keys[..|keys| - 1]) +
      [ResultOf(capabilities, handlers, input, keys[|keys| - 1])]
  }

  // ---------- merging ----------

  function AllUnits(results: seq<Analysis>): seq<string> {
    if results == [] then [] else AllUnits(results[..|results| - 1]) + results[|results| - 1].units
  }

  function AllOptions(results: seq<Analysis>): seq<OptionRow> {
    if results == [] then [] else AllOptions(results[..|results| - 1]) + results[|results| - 1].options
  }

  function AllBlocked(results: seq<Analysis>): seq<BlockedRow> {
    if results == [] then [] else AllBlocked(results[..|results| - 1]) + results[|results| - 1].blocked
  }

  function Elements(s: seq<string>): set<string> {
    set x | x in s
  }

  function OptionKey(row: OptionRow): string {
    row.semantic + "\0" + row.option
  }

  function BlockedKey(row: BlockedRow): string {
    row.semantic
  }

  function Merge(semantics: seq<Semantic>, results: seq<Analysis>): Analysis {
    if results == [] then Analysis(Complete, [], [], [])
    else
      var units, options, blocked := AllUnits(results), AllOptions(results), AllBlocked(results);
      var actual := OptionSemantics(options) + BlockedSemantics(blocked);
      if |Elements(actual)| != |semantics| || Sort(Fingerprints(semantics)) != Sort(actual) || !NoRepeats(units) then
        BlockAll(semantics, HANDLER_UNAVAILABLE)
      else
        Analysis(StatusOf(options, blocked), Sort(units), SortBy(options, OptionKey), SortBy(blocked, BlockedKey))
  }

  /** coordinateAnalysis up to the rebinding of option fingerprints. */
  ghost function Coordinate(capabilities: seq<Capability>, handlers: Handlers, input: Input): Analysis {
    if |handlers| == 0 || !AllPlaced(input) then BlockAll(input.semantics, HANDLER_UNAVAILABLE)
    else Merge(input.semantics, CellResults(capabilities, handlers, input))
  }

  ghost function CellKeys(input: Input): seq<string> {
    SortedKeys(Cells(input.assets, input.semantics))
  }

  ghost function CellResults(capabilities: seq<Capability>, handlers: Handlers, input: Input): seq<Analysis> {
    Results(capabilities, handlers, input, CellKeys(input))
  }

  // ---------- what is classified ----------

  lemma {:induction false} BlockRowsSemantics(semantics: seq<Semantic>, reason: string)
    ensures BlockedSemantics(BlockRows(semantics, reason)) == Fingerprints(semantics)
  {
    if semantics != [] {
      BlockRowsSemantics(semantics[1..], reason);
      assert BlockRows(semantics, reason)[1..] == BlockRows(semantics[1..], reason);
    }
  }

  lemma BlockAllClassifies(semantics: seq<Semantic>, reason: string)
    ensures Classified(BlockAll(semantics, reason)) == Fingerprints(semantics)
  {
    BlockRowsSemantics(semantics, reason);
    assert OptionSemantics([]) == [];
    assert [] + Fingerprints(semantics) == Fingerprints(semantics);
  }

  /** Whatever a handler answers, the result kept for its cell classifies exactly the cell's semantics. */
  lemma CellResultClassifies(capability: Option<Capability>, handlers: Handlers, key: string, group: seq<Semantic>)
    ensures var r := CellResult(capability, handlers, key, group);
            multiset(Classified(r)) == multiset(Fingerprints(group)) && NoRepeats(r.units)
  {
    hide Classified, Fingerprints, Sort, BlockRows;
    var r := CellResult(capability, handlers, key, group);
    if key in handlers && IsExact(group, handlers[key](group)) {
      SortDecides(Fingerprints(group), Classified(r));
    } else if key in handlers {
      BlockAllClassifies(group, HANDLER_UNAVAILABLE);
    } else {
      BlockAllClassifies(group, UnavailableReason(capability));
    }
  }

  lemma {:induction false} ProjectAppend<T>(a: seq<T>, b: seq<T>, field: T -> string)
    ensures Project(a + b, field) == Project(a, field) + Project(b, field)
  {
    if a == [] {
      assert a + b == b;
    } else {
      var rest := a[1..];
      ProjectAppend(rest, b, field);
      assert (a + b)[1..] == rest + b && (a + b)[0] == a[0];
      assert [field(a[0])] + (Project(rest, field) + Project(b, field)) == Project(a, field) + Project(b, field);
    }
  }

  lemma FingerprintsAppend(a: seq<Semantic>, b: seq<Semantic>)
    ensures Fingerprints(a + b) == Fingerprints(a) + Fingerprints(b)
  {
    ProjectAppend(a, b, (s: Semantic) => s.fingerprint);
  }

  lemma FingerprintsOne(s: Semantic)
    ensures Fingerprints([s]) == [s.fingerprint]
  {
    assert Project([s][1..], (s: Semantic) => s.fingerprint) == [];
  }

  lemma OptionsAppend(a: seq<OptionRow>, b: seq<OptionRow>)
    ensures OptionSemantics(a + b) == OptionSemantics(a) + OptionSemantics(b)
  {
    ProjectAppend(a, b, (row: OptionRow) => row.semantic);
  }

  lemma BlockedAppend(a: seq<BlockedRow>, b: seq<BlockedRow>)
    ensures BlockedSemantics(a + b) == BlockedSemantics(a) + BlockedSemantics(b)
  {
    ProjectAppend(a, b, BlockedKey);
  }

  /** Sorting rows keeps what they name, with multiplicity. */
  lemma {:induction false} ProjectInsert<T>(x: T, a: seq<T>, key: T -> string, field: T -> string)
    ensures multiset(Project(Insert(x, a, key), field)) == multiset(Project(a, field)) + multiset{field(x)}
  {
    if a != [] && !AtMost(key(x), key(a[0])) {
      ProjectInsert(x, a[1..], key, field);
    } else {
      assert ([x] + a)[1..] == a;
    }
  }

  lemma {:induction false} ProjectSort<T>(a: seq<T>, key: T -> string, field: T -> string)
    ensures multiset(Project(SortBy(a, key), field)) == multiset(Project(a, field))
  {
    if a != [] {
      ProjectSort(a[1..], key, field);
      ProjectInsert(a[0], SortBy(a[1..], key), key, field);
    }
  }

  lemma {:induction false} ProjectMembers<T>(rows: seq<T>, field: T -> string, x: string)
    ensures x in Project(rows, field) <==> exists row :: row in rows && field(row) == x
  {
    if rows != [] {
      ProjectMembers(rows[1..], field, x);
      assert forall row :: row in rows <==> row == rows[0] || row in rows[1..];
    }
  }

  /** How often a fingerprint is required in the listed cells together. */
  function Required(assets: seq<Asset>, semantics: seq<Semantic>, keys: seq<string>, f: string): nat {
    if keys == [] then 0
    else
      Required(assets, semantics, keys[..|keys| - 1], f) + RequiredIn(assets, semantics, keys[|keys| - 1], f)
  }

  /** The merged rows of the listed cells classify what these cells require. */
  lemma {:induction false} ResultsClassify(capabilities: seq<Capability>, handlers: Handlers, input: Input,
                                           keys: seq<string>, f: string)
    ensures var results := Results(capabilities, handlers, input, keys);
            multiset(OptionSemantics(AllOptions(results)) + BlockedSemantics(AllBlocked(results)))[f]
            == Required(input.assets, input.semantics, keys, f)
    decreases |keys|
  {
    hide CellResult, Group, Fingerprints, OptionSemantics, BlockedSemantics, GroupCapability;
    if keys != [] {
      var front, key := keys[..|keys| - 1], keys[|keys| - 1];
      var group := Group(input.assets, input.semantics, key);
      var r := ResultOf(capabilities, handlers, input, key);
      var before, results := Results(capabilities, handlers, input, front), Results(capabilities, handlers, input, keys);
      assert results == before + [r] && results[..|results| - 1] == before;
      ResultsClassify(capabilities, handlers, input, front, f);
      CellResultClassifies(GroupCapability(capabilities, input.assets, group), handlers, key, group);
      OptionsAppend(AllOptions(before), r.options);
      BlockedAppend(AllBlocked(before), r.blocked);
    } else {
      NoRows();
    }
  }

  lemma NoRows()
    ensures OptionSemantics([]) == [] && BlockedSemantics([]) == []
  {
  }

  lemma GroupAppend(assets: seq<Asset>, semantics: seq<Semantic>, s: Semantic, key: string)
    ensures Group(assets, semantics + [s], key) ==
            Group(assets, semantics, key) + if CellOf(assets, s) == Some(key) then [s] else []
  {
    assert (semantics + [s])[..|semantics|] == semantics;
  }

  function RequiredIn(assets: seq<Asset>, semantics: seq<Semantic>, key: string, f: string): nat {
    multiset(Fingerprints(Group(assets, semantics, key)))[f]
  }

  lemma RequiredInAppend(assets: seq<Asset>, semantics: seq<Semantic>, s: Semantic, key: string, f: string)
    ensures RequiredIn(assets, semantics + [s], key, f) == RequiredIn(assets, semantics, key, f) +
            if CellOf(assets, s) == Some(key) && s.fingerprint == f then 1 else 0
  {
    hide CellOf, Group;
    GroupAppend(assets, semantics, s, key);
    FingerprintsAppend(Group(assets, semantics, key), [s]);
    FingerprintsOne(s);
    assert Group(assets, semantics, key) + [] == Group(assets, semantics, key);
  }

  /** Adding one semantic raises the requirement of exactly its own cell. */
  lemma {:induction false} RequiredAppend(assets: seq<Asset>, semantics: seq<Semantic>, s: Semantic,
                                          keys: seq<string>, f: string)
    requires NoRepeats(keys)
    ensures Required(assets, semantics + [s], keys, f) == Required(assets, semantics, keys, f) +
            if CellOf(assets, s).Some? && CellOf(assets, s).value in keys && s.fingerprint == f then 1 else 0
    decreases |keys|
  {
    hide CellOf, RequiredIn;
    if keys != [] {
      var front, key := keys[..|keys| - 1], keys[|keys| - 1];
      RequiredAppend(assets, semantics, s, front, f);
      RequiredInAppend(assets, semantics, s, key, f);
      assert key !in front;
      assert keys == front + [key];
    }
  }

  lemma {:induction false} NothingRequired(assets: seq<Asset>, keys: seq<string>, f: string)
    ensures Required(assets, [], keys, f) == 0
    decreases |keys|
  {
    if keys != [] { NothingRequired(assets, keys[..|keys| - 1], f); }
  }

  /** The cells partition the semantics. */
  lemma {:induction false} CellsPartition(assets: seq<Asset>, semantics: seq<Semantic>, keys: seq<string>, f: string)
    requires NoRepeats(keys)
    requires forall i :: 0 <= i < |semantics| ==>
               CellOf(assets, semantics[i]).Some? && CellOf(assets, semantics[i]).value in keys
    ensures Required(assets, semantics, keys, f) == multiset(Fingerprints(semantics))[f]
    decreases |semantics|
  {
    hide CellOf, Required;
    if semantics == [] {
      NothingRequired(assets, keys, f);
    } else {
      var front, last := semantics[..|semantics| - 1], semantics[|semantics| - 1];
      assert semantics == front + [last];
      CellsPartition(assets, front, keys, f);
      RequiredAppend(assets, front, last, keys, f);
      FingerprintsAppend(front, [last]);
      FingerprintsOne(last);
    }
  }

  // ---------- the merged result ----------

  lemma CellsListed(input: Input)
    requires AllPlaced(input)
    ensures NoRepeats(CellKeys(input)) && StrictlySorted(CellKeys(input))
    ensures forall i :: 0 <= i < |input.semantics| ==>
              CellOf(input.assets, input.semantics[i]).Some? && CellOf(input.assets, input.semantics[i]).value in CellKeys(input)
    ensures CellKeys(input) == [] <==> input.semantics == []
  {
    hide CellOf, SortedKeys;
    var cells, keys := Cells(input.assets, input.semantics), CellKeys(input);
    StrictlySortedNoRepeats(keys);
    forall i | 0 <= i < |input.semantics|
      ensures CellOf(input.assets, input.semantics[i]).Some? && CellOf(input.assets, input.semantics[i]).value in keys
    {
      var s := input.semantics[i];
      assert CellOf(input.assets, s).value in CellSet(input.assets, s);
      assert CellOf(input.assets, s).value in cells;
    }
    if keys != [] { assert keys[0] in cells; }
    if input.semantics != [] { assert CellOf(input.assets, input.semantics[0]).value in keys; }
  }

  lemma ResultsLength(capabilities: seq<Capability>, handlers: Handlers, input: Input, keys: seq<string>)
    ensures |Results(capabilities, handlers, input, keys)| == |keys|
    ensures forall i :: 0 <= i < |keys| ==>
              Results(capabilities, handlers, input, keys)[i] == ResultOf(capabilities, handlers, input, keys[i])
    decreases |keys|
  {
    hide ResultOf;
    if keys != [] { ResultsLength(capabilities, handlers, input, keys[..|keys| - 1]); }
  }

  /** All rows of all cells together classify every required semantic exactly as often as it is required. */
  lemma CellsClassify(capabilities: seq<Capability>, handlers: Handlers, input: Input)
    requires AllPlaced(input)
    ensures var results := CellResults(capabilities, handlers, input);
            multiset(OptionSemantics(AllOptions(results)) + BlockedSemantics(AllBlocked(results)))
            == multiset(Fingerprints(input.semantics))
  {
    hide CellOf, Required, Results, AllOptions, AllBlocked, OptionSemantics, BlockedSemantics, Fingerprints, CellKeys;
    var keys := CellKeys(input);
    CellsListed(input);
    var all := multiset(OptionSemantics(AllOptions(CellResults(capabilities, handlers, input))) +
                        BlockedSemantics(AllBlocked(CellResults(capabilities, handlers, input))));
    forall f ensures all[f] == multiset(Fingerprints(input.semantics))[f] {
      ResultsClassify(capabilities, handlers, input, keys, f);
      CellsPartition(input.assets, input.semantics, keys, f);
    }
  }

  predicate DistinctSemantics(input: Input) {
    NoRepeats(Fingerprints(input.semantics))
  }

  lemma MergeClassifies(semantics: seq<Semantic>, results: seq<Analysis>)
    requires results != []
    ensures var r := Merge(semantics, results);
            multiset(Classified(r)) == multiset(Fingerprints(semantics)) && NoRepeats(r.units)
  {
    hide Sort, SortBy, Fingerprints, AllUnits, AllOptions, AllBlocked, Elements;
    var options, blocked, units := AllOptions(results), AllBlocked(results), AllUnits(results);
    var r := Merge(semantics, results);
    BlockAllClassifies(semantics, HANDLER_UNAVAILABLE);
    SortDecides(Fingerprints(semantics), OptionSemantics(options) + BlockedSemantics(blocked));
    ProjectSort(options, OptionKey, (row: OptionRow) => row.semantic);
    ProjectSort(blocked, BlockedKey, BlockedKey);
    if NoRepeats(units) {
      SortMembers(units);
      SameMembersNoRepeats(units, Sort(units));
    }
  }

  lemma SortByEmpty<T>(a: seq<T>, key: T -> string)
    ensures SortBy(a, key) == [] <==> a == []
  {
  }

  lemma MergeStatus(semantics: seq<Semantic>, results: seq<Analysis>)
    requires results != [] && semantics != []
    ensures var r := Merge(semantics, results); r.status == StatusOf(r.options, r.blocked)
  {
    hide Sort, SortBy, Fingerprints, AllUnits, AllOptions, AllBlocked, Elements;
    SortByEmpty(AllOptions(results), OptionKey);
    SortByEmpty(AllBlocked(results), BlockedKey);
  }

  lemma MergeNothing(semantics: seq<Semantic>)
    ensures Merge(semantics, []) == Analysis(Complete, [], [], [])
  {
  }

  lemma NothingAsked()
    ensures Classified(Analysis(Complete, [], [], [])) == Fingerprints([])
    ensures Classified(BlockAll([], HANDLER_UNAVAILABLE)) == Fingerprints([])
  {
  }

  /**
   Whatever the handlers answer, the result classifies every required semantic as often as it is
   required, names no output unit twice, and its status tells which rows it has; the only exception
   is "failed" for a host without handlers that was asked for nothing.
   */
  lemma EverySemanticClassified(capabilities: seq<Capability>, handlers: Handlers, input: Input)
    ensures var r := Coordinate(capabilities, handlers, input);
            && multiset(Classified(r)) == multiset(Fingerprints(input.semantics))
            && NoRepeats(r.units)
            && (r.status == StatusOf(r.options, r.blocked) <==> |handlers| != 0 || input.semantics != [])
  {
    hide Merge, Results, CellOf, Classified, Fingerprints, CellKeys;
    var results := CellResults(capabilities, handlers, input);
    BlockAllClassifies(input.semantics, HANDLER_UNAVAILABLE);
    if |handlers| != 0 && AllPlaced(input) {
      CellsListed(input);
      ResultsLength(capabilities, handlers, input, CellKeys(input));
      if results != [] {
        MergeClassifies(input.semantics, results);
        MergeStatus(input.semantics, results);
      } else {
        NothingAsked();
        MergeNothing(input.semantics);
      }
    }
  }

  // ---------- when merging succeeds ----------

  lemma {:induction false} ElementsOfDistinct(s: seq<string>)
    requires NoRepeats(s)
    ensures |Elements(s)| == |s|
  {
    if s != [] {
      var front, last := s[..|s| - 1], s[|s| - 1];
      ElementsOfDistinct(front);
      assert Elements(s) == Elements(front) + {last};
    }
  }

  lemma SameElements(a: seq<string>, b: seq<string>)
    requires multiset(a) == multiset(b)
    ensures Elements(a) == Elements(b) && |a| == |b|
  {
    assert |a| == |multiset(a)| == |b|;
    forall x ensures x in a <==> x in b { assert x in a <==> x in multiset(a); }
  }

  lemma {:induction false} ProjectLength<T>(rows: seq<T>, field: T -> string)
    ensures |Project(rows, field)| == |rows|
  {
    if rows != [] { ProjectLength(rows[1..], field); }
  }

  function Gathered(results: seq<Analysis>): Analysis {
    var options, blocked := AllOptions(results), AllBlocked(results);
    Analysis(StatusOf(options, blocked), Sort(AllUnits(results)), SortBy(options, OptionKey), SortBy(blocked, BlockedKey))
  }

  predicate SharedUnit(results: seq<Analysis>) {
    exists i, j, u :: 0 <= i < j < |results| && u in results[i].units && u in results[j].units
  }

  /** For distinct semantics the merge fails exactly when two cells put out one unit. */
  lemma MergeFailsOnlyBySharedUnits(capabilities: seq<Capability>, handlers: Handlers, input: Input)
    requires |handlers| != 0 && AllPlaced(input) && DistinctSemantics(input) && input.semantics != []
    ensures var results := CellResults(capabilities, handlers, input);
            Coordinate(capabilities, handlers, input) ==
            if SharedUnit(results) then BlockAll(input.semantics, HANDLER_UNAVAILABLE) else Gathered(results)
  {
    hide CellOf, Fingerprints, CellKeys, Results, Sort, SortBy, OptionSemantics, BlockedSemantics, Elements, AllOptions,
         AllBlocked, AllUnits, SharedUnit;
    var results := CellResults(capabilities, handlers, input);
    var actual := OptionSemantics(AllOptions(results)) + BlockedSemantics(AllBlocked(results));
    CellsListed(input);
    ResultsLength(capabilities, handlers, input, CellKeys(input));
    CellsClassify(capabilities, handlers, input);
    SameElements(Fingerprints(input.semantics), actual);
    ElementsOfDistinct(Fingerprints(input.semantics));
    FingerprintsLength(input.semantics);
    SortDecides(Fingerprints(input.semantics), actual);
    ResultUnitsDistinct(capabilities, handlers, input);
    UnitsRepeatAcross(results);
  }

  lemma FingerprintsLength(semantics: seq<Semantic>)
    ensures |Fingerprints(semantics)| == |semantics|
  {
    ProjectLength(semantics, (s: Semantic) => s.fingerprint);
  }

  lemma ResultUnitsDistinct(capabilities: seq<Capability>, handlers: Handlers, input: Input)
    ensures forall r :: r in CellResults(capabilities, handlers, input) ==> NoRepeats(r.units)
  {
    hide CellResult, GroupCapability, Results, CellKeys, NoRepeats, Group;
    ResultsLength(capabilities, handlers, input, CellKeys(input));
    forall r | r in CellResults(capabilities, handlers, input) ensures NoRepeats(r.units) {
      var i :| 0 <= i < |CellKeys(input)| && CellResults(capabilities, handlers, input)[i] == r;
      var group := Group(input.assets, input.semantics, CellKeys(input)[i]);
      CellResultClassifies(GroupCapability(capabilities, input.assets, group), handlers, CellKeys(input)[i], group);
    }
  }

  lemma {:induction false} UnitsFrom(results: seq<Analysis>, u: string)
    ensures u in AllUnits(results) <==> exists i :: 0 <= i < |results| && u in results[i].units
    decreases |results|
  {
    if results != [] {
      var front := results[..|results| - 1];
      UnitsFrom(front, u);
      forall i | 0 <= i < |front| ensures front[i] == results[i] {}
    }
  }

  lemma AppendNoRepeats(a: seq<string>, b: seq<string>)
    requires NoRepeats(b)
    ensures NoRepeats(a + b) <==> NoRepeats(a) && forall x :: x in a ==> x !in b
  {
    if NoRepeats(a + b) {
      forall i, j | 0 <= i < j < |a| ensures a[i] != a[j] { assert (a + b)[i] != (a + b)[j]; }
      forall x | x in a ensures x !in b {
        var i :| 0 <= i < |a| && a[i] == x;
        forall j | 0 <= j < |b| ensures b[j] != x { assert (a + b)[i] != (a + b)[|a| + j]; }
      }
    }
    if NoRepeats(a) && forall x :: x in a ==> x !in b {
      forall i, j | 0 <= i < j < |a + b| ensures (a + b)[i] != (a + b)[j] {
        if i < |a| <= j { assert a[i] in a && b[j - |a|] in b; }
      }
    }
  }

  /** Units repeat only across results when each result's own units are distinct. */
  lemma {:induction false} UnitsRepeatAcross(results: seq<Analysis>)
    requires forall r :: r in results ==> NoRepeats(r.units)
    ensures NoRepeats(AllUnits(results)) <==> !SharedUnit(results)
    decreases |results|
  {
    if results != [] {
      hide NoRepeats;
      var front, last := results[..|results| - 1], results[|results| - 1];
      UnitsRepeatAcross(front);
      AppendNoRepeats(AllUnits(front), last.units);
      forall u ensures u in AllUnits(front) <==> exists i :: 0 <= i < |front| && u in front[i].units { UnitsFrom(front, u); }
      SharedUnitLast(results);
    } else {
      assert AllUnits(results) == [];
    }
  }

  lemma SharedUnitLast(results: seq<Analysis>)
    requires results != []
    ensures var front, last := results[..|results| - 1], results[|results| - 1];
            SharedUnit(results) <==>
            SharedUnit(front) || exists i, u :: 0 <= i < |front| && u in front[i].units && u in last.units
  {
    var front, last := results[..|results| - 1], results[|results| - 1];
    if SharedUnit(results) {
      var i, j, u :| 0 <= i < j < |results| && u in results[i].units && u in results[j].units;
      assert u in front[i].units;
      if j < |front| { assert u in front[j].units; }
    }
    if SharedUnit(front) {
      var i, j, u :| 0 <= i < j < |front| && u in front[i].units && u in front[j].units;
      assert u in results[i].units && u in results[j].units;
    }
    if i, u :| 0 <= i < |front| && u in front[i].units && u in last.units {
      assert u in results[i].units && u in results[|results| - 1].units;
    }
  }

  // ---------- each row comes from its own handler ----------

  lemma {:induction false} OptionsFrom(results: seq<Analysis>, row: OptionRow)
    ensures row in AllOptions(results) <==> exists i :: 0 <= i < |results| && row in results[i].options
    decreases |results|
  {
    if results != [] {
      var front := results[..|results| - 1];
      OptionsFrom(front, row);
      forall i | 0 <= i < |front| ensures front[i] == results[i] {}
    }
  }

  lemma {:induction false} BlockedFrom(results: seq<Analysis>, row: BlockedRow)
    ensures row in AllBlocked(results) <==> exists i :: 0 <= i < |results| && row in results[i].blocked
    decreases |results|
  {
    if results != [] {
      var front := results[..|results| - 1];
      BlockedFrom(front, row);
      forall i | 0 <= i < |front| ensures front[i] == results[i] {}
    }
  }

  lemma SortByKeeps<T>(a: seq<T>, key: T -> string, x: T)
    ensures x in SortBy(a, key) <==> x in a
  {
    SortByMembers(a, key);
    assert x in SortBy(a, key) <==> x in multiset(SortBy(a, key));
  }

  lemma {:induction false} GroupMember(assets: seq<Asset>, semantics: seq<Semantic>, key: string, s: Semantic)
    ensures s in Group(assets, semantics, key) <==> s in semantics && CellOf(assets, s) == Some(key)
    decreases |semantics|
  {
    hide CellOf;
    if semantics != [] {
      var front, last := semantics[..|semantics| - 1], semantics[|semantics| - 1];
      GroupMember(assets, front, key, s);
      assert semantics == front + [last];
    }
  }

  /** A row kept for a cell names a semantic of that cell. */
  lemma RowsStayInCell(capabilities: seq<Capability>, handlers: Handlers, input: Input, key: string, f: string)
    requires f in Classified(ResultOf(capabilities, handlers, input, key))
    ensures exists s :: s in input.semantics && CellOf(input.assets, s) == Some(key) && s.fingerprint == f
  {
    hide CellOf, CellResult, Classified, GroupCapability, Group;
    var group := Group(input.assets, input.semantics, key);
    var r := ResultOf(capabilities, handlers, input, key);
    CellResultClassifies(GroupCapability(capabilities, input.assets, group), handlers, key, group);
    assert f in multiset(Classified(r));
    assert f in Fingerprints(group);
    ProjectMembers(group, (s: Semantic) => s.fingerprint, f);
    var s :| s in group && s.fingerprint == f;
    GroupMember(input.assets, input.semantics, key, s);
  }

  lemma SameFingerprint(input: Input, s: Semantic, t: Semantic)
    requires DistinctSemantics(input) && s in input.semantics && t in input.semantics && s.fingerprint == t.fingerprint
    ensures s == t
  {
    var i :| 0 <= i < |input.semantics| && input.semantics[i] == s;
    var j :| 0 <= j < |input.semantics| && input.semantics[j] == t;
    FingerprintsLength(input.semantics);
    ProjectAt(input.semantics, (x: Semantic) => x.fingerprint, i);
    ProjectAt(input.semantics, (x: Semantic) => x.fingerprint, j);
  }

  lemma {:induction false} ProjectAt<T>(rows: seq<T>, field: T -> string, i: nat)
    requires i < |rows|
    ensures |Project(rows, field)| == |rows| && Project(rows, field)[i] == field(rows[i])
  {
    ProjectLength(rows, field);
    if i > 0 { ProjectAt(rows[1..], field, i - 1); }
  }

  lemma RowsAreClassified(r: Analysis)
    ensures forall row :: row in r.options ==> row.semantic in Classified(r)
    ensures forall row :: row in r.blocked ==> row.semantic in Classified(r)
  {
    forall row | row in r.options ensures row.semantic in Classified(r) {
      ProjectMembers(r.options, (x: OptionRow) => x.semantic, row.semantic);
    }
    forall row | row in r.blocked ensures row.semantic in Classified(r) {
      ProjectMembers(r.blocked, BlockedKey, row.semantic);
    }
  }

  /** Only the cell of a semantic can hold rows for it. */
  lemma OtherCellsHaveNoRow(capabilities: seq<Capability>, handlers: Handlers, input: Input, s: Semantic, key: string)
    requires DistinctSemantics(input) && s in input.semantics && CellOf(input.assets, s) != Some(key)
    ensures var r := ResultOf(capabilities, handlers, input, key);
            && (forall row :: row in r.options ==> row.semantic != s.fingerprint)
            && (forall row :: row in r.blocked ==> row.semantic != s.fingerprint)
  {
    hide CellOf, ResultOf, Classified, DistinctSemantics;
    var r := ResultOf(capabilities, handlers, input, key);
    RowsAreClassified(r);
    if s.fingerprint in Classified(r) {
      RowsStayInCell(capabilities, handlers, input, key, s.fingerprint);
      var t :| t in input.semantics && CellOf(input.assets, t) == Some(key) && t.fingerprint == s.fingerprint;
      SameFingerprint(input, s, t);
      assert false;
    }
  }

  /**
   Each semantic is classified by the answer of its own cell and by nothing else: the rows that
   name it in the merged result are those in the result kept for its cell. A foreign or incomplete
   answer of another handler therefore cannot touch it.
   */
  lemma OwnHandlerDecides(capabilities: seq<Capability>, handlers: Handlers, input: Input, s: Semantic, key: string)
    requires |handlers| != 0 && AllPlaced(input) && DistinctSemantics(input)
    requires !SharedUnit(CellResults(capabilities, handlers, input))
    requires s in input.semantics && CellOf(input.assets, s) == Some(key)
    ensures var r, own := Coordinate(capabilities, handlers, input), ResultOf(capabilities, handlers, input, key);
            && (forall row: OptionRow :: row.semantic == s.fingerprint ==> (row in r.options <==> row in own.options))
            && (forall row: BlockedRow :: row.semantic == s.fingerprint ==> (row in r.blocked <==> row in own.blocked))
  {
    hide CellOf, ResultOf, Results, CellKeys, DistinctSemantics, SharedUnit, Coordinate, AllOptions, AllBlocked, Sort, SortBy,
         StatusOf;
    var results, keys := CellResults(capabilities, handlers, input), CellKeys(input);
    var own := ResultOf(capabilities, handlers, input, key);
    MergeFailsOnlyBySharedUnits(capabilities, handlers, input);
    CellsListed(input);
    ResultsLength(capabilities, handlers, input, keys);
    assert key in keys;
    var k :| 0 <= k < |keys| && keys[k] == key;
    forall i | 0 <= i < |results| && i != k
      ensures forall row :: row in results[i].options ==> row.semantic != s.fingerprint
      ensures forall row :: row in results[i].blocked ==> row.semantic != s.fingerprint
    {
      OtherCellsHaveNoRow(capabilities, handlers, input, s, keys[i]);
    }
    forall row: OptionRow | row.semantic == s.fingerprint
      ensures row in Gathered(results).options <==> row in own.options
    {
      SortByKeeps(AllOptions(results), OptionKey, row);
      OptionsFrom(results, row);
    }
    forall row: BlockedRow | row.semantic == s.fingerprint
      ensures row in Gathered(results).blocked <==> row in own.blocked
    {
      SortByKeeps(AllBlocked(results), BlockedKey, row);
      BlockedFrom(results, row);
    }
  }

  /** Replacing one handler changes no row of a semantic outside its cell. */
  lemma HandlersAreIsolated(capabilities: seq<Capability>, handlers: Handlers, input: Input, s: Semantic, key: string,
                            other: string, replacement: seq<Semantic> -> Analysis)
    requires |handlers| != 0 && AllPlaced(input) && DistinctSemantics(input)
    requires s in input.semantics && CellOf(input.assets, s) == Some(key) && key != other
    requires !SharedUnit(CellResults(capabilities, handlers, input))
    requires !SharedUnit(CellResults(capabilities, handlers[other := replacement], input))
    ensures var r, t := Coordinate(capabilities, handlers, input),
                        Coordinate(capabilities, handlers[other := replacement], input);
            && (forall row: OptionRow :: row.semantic == s.fingerprint ==> (row in r.options <==> row in t.options))
            && (forall row: BlockedRow :: row.semantic == s.fingerprint ==> (row in r.blocked <==> row in t.blocked))
  {
    hide CellOf, Coordinate, DistinctSemantics, SharedUnit, CellResults, AllPlaced;
    var changed := handlers[other := replacement];
    assert other in changed && |changed| != 0;
    OwnHandlerDecides(capabilities, handlers, input, s, key);
    OwnHandlerDecides(capabilities, changed, input, s, key);
    SameResult(capabilities, handlers, changed, input, key);
  }

  lemma SameResult(capabilities: seq<Capability>, a: Handlers, b: Handlers, input: Input, key: string)
    requires (key in a <==> key in b) && (key in a ==> a[key] == b[key])
    ensures ResultOf(capabilities, a, input, key) == ResultOf(capabilities, b, input, key)
  {
  }

  /** A foreign or incomplete answer blocks its own group: each of its semantics has the blocked row and no option. */
  lemma InexactAnswerBlocksItsGroup(capabilities: seq<Capability>, handlers: Handlers, input: Input, s: Semantic, key: string)
    requires AllPlaced(input) && DistinctSemantics(input)
    requires !SharedUnit(CellResults(capabilities, handlers, input))
    requires s in input.semantics && CellOf(input.assets, s) == Some(key)
    requires key in handlers
    requires var group := Group(input.assets, input.semantics, key); !IsExact(group, handlers[key](group))
    ensures var r := Coordinate(capabilities, handlers, input);
            && (forall row :: row in r.options ==> row.semantic != s.fingerprint)
            && (forall row :: row in r.blocked && row.semantic == s.fingerprint ==> row.reason == HANDLER_UNAVAILABLE)
            && BlockedRow(s.fingerprint, HANDLER_UNAVAILABLE) in r.blocked
  {
    hide CellOf, Coordinate, DistinctSemantics, SharedUnit, CellResults, AllPlaced, IsExact;
    assert |handlers| != 0;
    OwnHandlerDecides(capabilities, handlers, input, s, key);
    var group := Group(input.assets, input.semantics, key);
    GroupMember(input.assets, input.semantics, key, s);
    forall row: BlockedRow
      ensures row in BlockRows(group, HANDLER_UNAVAILABLE)
              <==> row.reason == HANDLER_UNAVAILABLE && exists t :: t in group && t.fingerprint == row.semantic
    {
      BlockRowsMembers(group, HANDLER_UNAVAILABLE, row);
    }
  }

  lemma {:induction false} BlockRowsMembers(semantics: seq<Semantic>, reason: string, row: BlockedRow)
    ensures row in BlockRows(semantics, reason)
            <==> row.reason == reason && exists t :: t in semantics && t.fingerprint == row.semantic
  {
    if semantics != [] {
      BlockRowsMembers(semantics[1..], reason, row);
      assert forall t :: t in semantics <==> t == semantics[0] || t in semantics[1..];
    }
  }

  // ---------- handlers that reject ----------

  /** What becomes of the promise of a handler. */
  datatype Answer = Answered(analysis: Analysis) | Rejected

  type Untrusted = map<string, seq<Semantic> -> Answer>

  /** What becomes of the promise of the dispatch; a rejection is passed on from the handler of a cell. */
  datatype Outcome = Analysed(analysis: Analysis) | RejectedBy(cell: string)

  const NO_ANSWER := Analysis(Failed, [], [], [])

  function SettledAs(a: Answer): Analysis {
    if a.Answered? then a.analysis else NO_ANSWER
  }

  function SettledHandler(handler: seq<Semantic> -> Answer): seq<Semantic> -> Analysis {
    (group: seq<Semantic>) => SettledAs(handler(group))
  }

  /** The handlers as far as they answer. */
  function Settled(handlers: Untrusted): (h: Handlers)
    ensures h.Keys == handlers.Keys && |h| == |handlers|
  {
    var h := map key | key in handlers :: SettledHandler(handlers[key]);
    assert h.Keys == handlers.Keys && |h| == |h.Keys| == |handlers.Keys|;
    h
  }

  /** The handler of the cell rejects the group it is given. */
  predicate Rejects(handlers: Untrusted, input: Input, key: string) {
    key in handlers && handlers[key](Group(input.assets, input.semantics, key)).Rejected?
  }

  function FirstRejecting(handlers: Untrusted, input: Input, keys: seq<string>): Option<string> {
    if keys == [] then None
    else
      var front, last := keys[..|keys| - 1], keys[|keys| - 1];
      var earlier := FirstRejecting(handlers, input, front);
      if earlier.Some? then earlier else if Rejects(handlers, input, last) then Some(last) else None
  }

  /** coordinateAnalysis with handlers that may reject, up to the rebinding of option fingerprints. */
  ghost function Dispatch(capabilities: seq<Capability>, handlers: Untrusted, input: Input): Outcome {
    if |handlers| == 0 || !AllPlaced(input) then Analysed(BlockAll(input.semantics, HANDLER_UNAVAILABLE))
    else
      match FirstRejecting(handlers, input, CellKeys(input))
      case Some(key) => RejectedBy(key)
      case None => Analysed(Coordinate(capabilities, Settled(handlers), input))
  }

  /** The first rejection in order, if any. */
  lemma {:induction false} FirstRejectingIsFirst(handlers: Untrusted, input: Input, keys: seq<string>)
    requires StrictlySorted(keys)
    ensures match FirstRejecting(handlers, input, keys)
            case None => forall k :: k in keys ==> !Rejects(handlers, input, k)
            case Some(key) =>
              key in keys && Rejects(handlers, input, key)
              && forall k :: k in keys && Rejects(handlers, input, k) ==> AtMost(key, k)
    decreases |keys|
  {
    hide Rejects;
    if keys != [] {
      var front, last := keys[..|keys| - 1], keys[|keys| - 1];
      assert keys == front + [last];
      FrontSorted(front, last);
      FirstRejectingIsFirst(handlers, input, front);
    }
  }

  lemma FrontSorted(front: seq<string>, last: string)
    requires StrictlySorted(front + [last])
    ensures StrictlySorted(front) && forall k :: k in front ==> Less(k, last)
  {
    hide Less;
    forall i, j | 0 <= i < j < |front| ensures Less(front[i], front[j]) {
      assert (front + [last])[i] == front[i] && (front + [last])[j] == front[j];
    }
    forall k | k in front ensures Less(k, last) {
      var i :| 0 <= i < |front| && front[i] == k;
      assert (front + [last])[i] == k && (front + [last])[|front|] == last;
    }
  }

  lemma CellsAreSorted(input: Input)
    ensures StrictlySorted(CellKeys(input)) && forall k :: k in CellKeys(input) <==> k in Cells(input.assets, input.semantics)
  {
    hide Cells;
  }

  /**
   The dispatch rejects exactly when some handler it calls rejects, and then with the rejection of
   the least such cell; an answer of any other cell is lost. Otherwise it is the dispatch of the answers.
   */
  lemma RejectionIsExact(capabilities: seq<Capability>, handlers: Untrusted, input: Input)
    ensures var r, cells := Dispatch(capabilities, handlers, input), Cells(input.assets, input.semantics);
            && (r.RejectedBy? <==> AllPlaced(input) && exists key :: key in cells && Rejects(handlers, input, key))
            && (r.RejectedBy? ==>
                  && r.cell in cells && Rejects(handlers, input, r.cell)
                  && forall key :: key in cells && Rejects(handlers, input, key) ==> AtMost(r.cell, key))
            && (r.Analysed? ==> r.analysis == Coordinate(capabilities, Settled(handlers), input))
  {
    hide Cells, CellKeys, Coordinate, AllPlaced, FirstRejecting, AtMost;
    CellsAreSorted(input);
    FirstRejectingIsFirst(handlers, input, CellKeys(input));
    NothingDispatched(capabilities, handlers, input);
  }

  lemma NothingDispatched(capabilities: seq<Capability>, handlers: Untrusted, input: Input)
    ensures |handlers| == 0 || !AllPlaced(input) ==>
              Coordinate(capabilities, Settled(handlers), input) == BlockAll(input.semantics, HANDLER_UNAVAILABLE)
    ensures |handlers| == 0 ==> forall key :: !Rejects(handlers, input, key)
  {
  }

  /** Nothing that a later cell answers can undo or change a rejection. */
  lemma LaterHandlersDoNotMatter(capabilities: seq<Capability>, handlers: Untrusted, input: Input, other: string,
                                 replacement: seq<Semantic> -> Answer)
    requires Dispatch(capabilities, handlers, input).RejectedBy?
    requires Less(Dispatch(capabilities, handlers, input).cell, other)
    ensures Dispatch(capabilities, handlers[other := replacement], input) == Dispatch(capabilities, handlers, input)
  {
    hide Dispatch, Cells, AllPlaced, Rejects;
    var changed, cell := handlers[other := replacement], Dispatch(capabilities, handlers, input).cell;
    RejectionIsExact(capabilities, handlers, input);
    RejectionIsExact(capabilities, changed, input);
    forall key | key != other ensures Rejects(changed, input, key) <==> Rejects(handlers, input, key) {
      RejectsByItself(handlers, changed, input, key);
    }
    LessTotal(cell, other);
    var now := Dispatch(capabilities, changed, input).cell;
    LessTotal(cell, now);
  }

  lemma RejectsByItself(a: Untrusted, b: Untrusted, input: Input, key: string)
    requires (key in a <==> key in b) && (key in a ==> a[key] == b[key])
    ensures Rejects(a, input, key) <==> Rejects(b, input, key)
  {
  }

  function Always(answer: Answer): seq<Semantic> -> Answer {
    (group: seq<Semantic>) => answer
  }

  lemma OneOptionIsExact(s: Semantic, option: string)
    ensures IsExact([s], Analysis(Complete, [], [OptionRow(s.fingerprint, option)], []))
  {
    hide Sort;
    var r := Analysis(Complete, [], [OptionRow(s.fingerprint, option)], []);
    FingerprintsOne(s);
    assert Project(r.options[1..], (row: OptionRow) => row.semantic) == [];
    assert Classified(r) == [s.fingerprint];
    SortDistinct([s.fingerprint], {s.fingerprint});
    StrictlySortedNoRepeats(SortedKeys({s.fingerprint}));
  }

  lemma OneAsset(s: Semantic, kind: string)
    ensures CellOf([Asset(s.subject, kind)], s) == Some(CellKey(s.consumer, kind))
  {
  }

  lemma TwoCells(assets: seq<Asset>, s: Semantic, t: Semantic, k: string, l: string)
    requires CellOf(assets, s) == Some(k) && CellOf(assets, t) == Some(l) && k != l
    ensures Group(assets, [s, t], k) == [s] && Cells(assets, [s, t]) == {k, l}
  {
    hide CellOf, Cells;
    GroupAppend(assets, [], s, k);
    GroupAppend(assets, [s], t, k);
    assert [] + [s] == [s] && [s] + [t] == [s, t] && [s] + [] == [s];
    CellsAppend(assets, [], s, k);
    CellsAppend(assets, [s], t, l);
    NoCellsYet(assets);
  }

  lemma NoCellsYet(assets: seq<Asset>)
    ensures Cells(assets, []) == {}
  {
  }

  /** The smallest such input: two cells, of which one is answered exactly and the other rejected. */
  lemma RejectionWitness(a: string, b: string, f: string, g: string, option: string, kind: string, subject: Reference)
    requires CellKey(a, kind) != CellKey(b, kind)
    ensures var s, t := Semantic(f, a, subject), Semantic(g, b, subject);
            var input := Input([s, t], [Asset(subject, kind)]);
            var exact := Analysis(Complete, [], [OptionRow(f, option)], []);
            var handlers := map[CellKey(a, kind) := Always(Answered(exact)), CellKey(b, kind) := Always(Rejected)];
            && Group(input.assets, input.semantics, CellKey(a, kind)) == [s] && IsExact([s], exact)
            && Dispatch([], handlers, input) == RejectedBy(CellKey(b, kind))
  {
    hide CellKey, CellOf, Group, Cells, IsExact, Dispatch, Less, AtMost;
    var s, t := Semantic(f, a, subject), Semantic(g, b, subject);
    var input := Input([s, t], [Asset(subject, kind)]);
    var exact := Analysis(Complete, [], [OptionRow(f, option)], []);
    var handlers := map[CellKey(a, kind) := Always(Answered(exact)), CellKey(b, kind) := Always(Rejected)];
    OneOptionIsExact(s, option);
    OneAsset(s, kind);
    OneAsset(t, kind);
    TwoCells(input.assets, s, t, CellKey(a, kind), CellKey(b, kind));
    RejectionIsExact([], handlers, input);
  }

  /** An analysis that is not rejected still classifies every required semantic, as if all had answered. */
  lemma AnalysedClassifies(capabilities: seq<Capability>, handlers: Untrusted, input: Input)
    requires Dispatch(capabilities, handlers, input).Analysed?
    ensures var r := Dispatch(capabilities, handlers, input).analysis;
            && multiset(Classified(r)) == multiset(Fingerprints(input.semantics))
            && NoRepeats(r.units)
            && (r.status == StatusOf(r.options, r.blocked) <==> |handlers| != 0 || input.semantics != [])
  {
    hide Dispatch, Coordinate, Classified, Fingerprints;
    RejectionIsExact(capabilities, handlers, input);
    EverySemanticClassified(capabilities, Settled(handlers), input);
  }

  // ---------- the dispatch itself ----------

  datatype Grouped = Grouped(semantics: seq<Semantic>, capability: Option<Capability>)

  ghost predicate GroupsUpTo(capabilities: seq<Capability>, assets: seq<Asset>, semantics: seq<Semantic>,
                             groups: map<string, Grouped>, order: seq<string>)
  {
    && NoRepeats(order)
    && (forall k :: k in order <==> k in groups)
    && (forall k :: k in groups <==> k in Cells(assets, semantics))
    && (forall k :: k in groups ==> GroupKept(capabilities, assets, semantics, k, groups[k]))
  }

  ghost predicate GroupKept(capabilities: seq<Capability>, assets: seq<Asset>, semantics: seq<Semantic>, key: string,
                            group: Grouped)
  {
    group.semantics == Group(assets, semantics, key) && group.capability == GroupCapability(capabilities, assets, group.semantics)
  }

  /** coordinateAnalysis: groups in insertion order, then one handler call per group in key order. */
  method CoordinateAnalysis(input: Input, capabilities: seq<Capability>, handlers: Untrusted)
    returns (r: Outcome, asked: seq<string>)
    ensures r == Dispatch(capabilities, handlers, input)
    ensures StrictlySorted(asked)
    ensures forall key :: key in asked <==>
              AllPlaced(input) && key in Cells(input.assets, input.semantics) && key in handlers
              && (r.RejectedBy? ==> AtMost(key, r.cell))
  {
    hide AtMost, Less, StrictlySorted, FirstRejecting, Settled, IsExact, CellOf, Cells, GroupCapability, CapabilityOf,
         Merge, CellResult, Group, SortedKeys, Sort, Rejects, GroupsUpTo, GroupKept, Results, AskedOf, BlockAll;
    asked := [];
    NothingAskedYet(handlers, input);
    if |handlers| == 0 {
      return Analysed(BlockAll(input.semantics, HANDLER_UNAVAILABLE)), asked;
    }
    var groups: map<string, Grouped>, order: seq<string> := map[], [];
    var i := 0;
    NoCells(capabilities, input.assets);
    while i < |input.semantics|
      invariant 0 <= i <= |input.semantics|
      invariant forall j :: 0 <= j < i ==> CellOf(input.assets, input.semantics[j]).Some?
      invariant GroupsUpTo(capabilities, input.assets, input.semantics[..i], groups, order)
    {
      var semantic := input.semantics[i];
      var cell := CellOf(input.assets, semantic);
      if cell.None? {
        return Analysed(BlockAll(input.semantics, HANDLER_UNAVAILABLE)), asked;
      }
      var key := cell.value;
      ghost var before, known := groups, order;
      if key in groups {
        groups := groups[key := groups[key].(semantics := groups[key].semantics + [semantic])];
      } else {
        groups := groups[key := Grouped([semantic], CapabilityOf(capabilities, input.assets, semantic))];
        order := order + [key];
      }
      GroupOneMore(capabilities, input.assets, input.semantics[..i], semantic, key, before, known, groups, order);
      assert input.semantics[..i] + [semantic] == input.semantics[..i + 1];
      i := i + 1;
    }
    assert input.semantics[..i] == input.semantics;
    GroupsComplete(capabilities, input, groups, order);
    SortDistinct(order, Cells(input.assets, input.semantics));
    var keys := Sort(order);
    var results: seq<Analysis> := [];
    i := 0;
    assert keys[..i] == [];
    NoResults(capabilities, Settled(handlers), input);
    while i < |keys|
      invariant 0 <= i <= |keys|
      invariant results == Results(capabilities, Settled(handlers), input, keys[..i])
      invariant FirstRejecting(handlers, input, keys[..i]).None?
      invariant AskedOf(handlers, keys[..i], asked)
    {
      var key := keys[i];
      assert key in Cells(input.assets, input.semantics);
      ResultsNext(capabilities, Settled(handlers), input, keys, i);
      AskedNext(handlers, keys, i, asked);
      NextRejecting(handlers, input, keys, i);
      var group := groups[key];
      SettledCell(group.capability, handlers, input, key, group.semantics);
      if key !in handlers {
        results := results + [BlockAll(group.semantics, UnavailableReason(group.capability))];
      } else {
        asked := asked + [key];
        var answer := handlers[key](group.semantics);
        if answer.Rejected? {
          RejectionStands(handlers, input, keys, i);
          AskedUpTo(handlers, keys, i, asked);
          return RejectedBy(key), asked;
        }
        results := results + [if IsExact(group.semantics, answer.analysis) then answer.analysis
                              else BlockAll(group.semantics, HANDLER_UNAVAILABLE)];
      }
      i := i + 1;
    }
    assert keys[..i] == keys;
    AskedAll(handlers, keys, asked);
    r := Analysed(Merge(input.semantics, results));
  }

  /** What is known of the groups once every semantic is placed. */
  lemma GroupsComplete(capabilities: seq<Capability>, input: Input, groups: map<string, Grouped>, order: seq<string>)
    requires GroupsUpTo(capabilities, input.assets, input.semantics, groups, order)
    ensures NoRepeats(order) && forall k :: k in order <==> k in Cells(input.assets, input.semantics)
    ensures forall k :: k in Cells(input.assets, input.semantics) ==>
              && k in groups
              && groups[k].semantics == Group(input.assets, input.semantics, k)
              && groups[k].capability == GroupCapability(capabilities, input.assets, groups[k].semantics)
  {
    hide Cells, Group, GroupCapability, NoRepeats;
  }

  lemma NoResults(capabilities: seq<Capability>, handlers: Handlers, input: Input)
    ensures Results(capabilities, handlers, input, []) == []
  {
  }

  lemma ResultsNext(capabilities: seq<Capability>, handlers: Handlers, input: Input, keys: seq<string>, i: nat)
    requires i < |keys|
    ensures Results(capabilities, handlers, input, keys[..i + 1]) ==
            Results(capabilities, handlers, input, keys[..i]) + [ResultOf(capabilities, handlers, input, keys[i])]
  {
    hide ResultOf;
    assert keys[..i + 1][..i] == keys[..i];
  }

  lemma SettledCell(capability: Option<Capability>, handlers: Untrusted, input: Input, key: string, group: seq<Semantic>)
    ensures CellResult(capability, Settled(handlers), key, group) ==
            if key !in handlers then BlockAll(group, UnavailableReason(capability))
            else
              var r := SettledAs(handlers[key](group));
              if IsExact(group, r) then r else BlockAll(group, HANDLER_UNAVAILABLE)
    ensures group == Group(input.assets, input.semantics, key) ==>
              (Rejects(handlers, input, key) <==> key in handlers && handlers[key](group).Rejected?)
  {
    hide IsExact;
  }

  /** The handlers called for these cells, in order. */
  ghost predicate AskedOf(handlers: Untrusted, keys: seq<string>, asked: seq<string>) {
    StrictlySorted(asked) && forall key :: key in asked <==> key in keys && key in handlers
  }

  lemma NothingAskedYet(handlers: Untrusted, input: Input)
    ensures StrictlySorted([]) && AskedOf(handlers, [], []) && FirstRejecting(handlers, input, []).None?
  {
  }

  lemma PrefixByOrder(keys: seq<string>, i: nat)
    requires StrictlySorted(keys) && i < |keys|
    ensures forall k :: k in keys[..i] ==> Less(k, keys[i])
    ensures forall k :: k in keys[..i + 1] <==> k in keys && AtMost(k, keys[i])
  {
    hide Less;
    forall k | k in keys && AtMost(k, keys[i]) ensures k in keys[..i + 1] {
      var j :| 0 <= j < |keys| && keys[j] == k;
      LessTotal(keys[i], k);
      assert j > i ==> Less(keys[i], keys[j]);
    }
  }

  lemma AskedNext(handlers: Untrusted, keys: seq<string>, i: nat, asked: seq<string>)
    requires StrictlySorted(keys) && i < |keys| && AskedOf(handlers, keys[..i], asked)
    ensures AskedOf(handlers, keys[..i + 1], if keys[i] in handlers then asked + [keys[i]] else asked)
  {
    hide Less;
    PrefixByOrder(keys, i);
    assert keys[..i + 1] == keys[..i] + [keys[i]];
  }

  lemma AskedUpTo(handlers: Untrusted, keys: seq<string>, i: nat, asked: seq<string>)
    requires StrictlySorted(keys) && i < |keys| && AskedOf(handlers, keys[..i + 1], asked)
    ensures StrictlySorted(asked)
    ensures forall key :: key in asked <==> key in keys && key in handlers && AtMost(key, keys[i])
  {
    hide Less, AtMost;
    PrefixByOrder(keys, i);
  }

  lemma AskedAll(handlers: Untrusted, keys: seq<string>, asked: seq<string>)
    requires AskedOf(handlers, keys, asked)
    ensures StrictlySorted(asked) && forall key :: key in asked <==> key in keys && key in handlers
  {
  }

  lemma NextRejecting(handlers: Untrusted, input: Input, keys: seq<string>, i: nat)
    requires i < |keys| && FirstRejecting(handlers, input, keys[..i]).None?
    ensures FirstRejecting(handlers, input, keys[..i + 1]) == if Rejects(handlers, input, keys[i]) then Some(keys[i]) else None
  {
    hide Rejects;
    assert keys[..i + 1][..i] == keys[..i];
  }

  lemma {:induction false} RejectionStands(handlers: Untrusted, input: Input, keys: seq<string>, i: nat)
    requires i < |keys| && FirstRejecting(handlers, input, keys[..i]).None? && Rejects(handlers, input, keys[i])
    ensures FirstRejecting(handlers, input, keys) == Some(keys[i])
    decreases |keys|
  {
    hide Rejects;
    var front := keys[..|keys| - 1];
    if i < |front| {
      assert front[..i] == keys[..i];
      RejectionStands(handlers, input, front, i);
    } else {
      assert front == keys[..i];
    }
  }

  lemma NoCells(capabilities: seq<Capability>, assets: seq<Asset>)
    ensures GroupsUpTo(capabilities, assets, [], map[], [])
  {
  }

  lemma CellsAppend(assets: seq<Asset>, semantics: seq<Semantic>, s: Semantic, key: string)
    requires CellOf(assets, s) == Some(key)
    ensures Cells(assets, semantics + [s]) == Cells(assets, semantics) + {key}
  {
    hide CellOf;
    forall k ensures k in Cells(assets, semantics + [s]) <==> k in Cells(assets, semantics) || k == key {
      if k in Cells(assets, semantics) {
        var t :| t in semantics && k in CellSet(assets, t);
        assert t in semantics + [s];
      }
      assert s in semantics + [s] && key in CellSet(assets, s);
    }
  }

  lemma GroupNonempty(assets: seq<Asset>, semantics: seq<Semantic>, key: string)
    ensures Group(assets, semantics, key) != [] <==> key in Cells(assets, semantics)
  {
    hide CellOf, Group;
    if Group(assets, semantics, key) != [] {
      var s := Group(assets, semantics, key)[0];
      GroupMember(assets, semantics, key, s);
      assert key in CellSet(assets, s);
    }
    if key in Cells(assets, semantics) {
      var s :| s in semantics && key in CellSet(assets, s);
      GroupMember(assets, semantics, key, s);
    }
  }

  lemma CapabilityKept(capabilities: seq<Capability>, assets: seq<Asset>, group: seq<Semantic>, s: Semantic)
    ensures GroupCapability(capabilities, assets, group + [s]) ==
            if group == [] then CapabilityOf(capabilities, assets, s) else GroupCapability(capabilities, assets, group)
  {
  }

  lemma GroupOneMore(capabilities: seq<Capability>, assets: seq<Asset>, semantics: seq<Semantic>, s: Semantic, key: string,
                     before: map<string, Grouped>, known: seq<string>, groups: map<string, Grouped>, order: seq<string>)
    requires GroupsUpTo(capabilities, assets, semantics, before, known) && CellOf(assets, s) == Some(key)
    requires groups == before[key := if key in before then before[key].(semantics := before[key].semantics + [s])
                                     else Grouped([s], CapabilityOf(capabilities, assets, s))]
    requires order == if key in before then known else known + [key]
    ensures GroupsUpTo(capabilities, assets, semantics + [s], groups, order)
  {
    hide CellOf, Cells, GroupCapability, CapabilityOf, Group;
    CellsAppend(assets, semantics, s, key);
    forall k | k in groups ensures GroupKept(capabilities, assets, semantics + [s], k, groups[k]) {
      GroupAppend(assets, semantics, s, k);
      GroupNonempty(assets, semantics, k);
      if k == key {
        CapabilityKept(capabilities, assets, Group(assets, semantics, key), s);
        assert [] + [s] == [s];
      } else {
        assert k in before && GroupKept(capabilities, assets, semantics, k, before[k]);
        assert Group(assets, semantics, k) + [] == Group(assets, semantics, k);
      }
    }
  }
}
