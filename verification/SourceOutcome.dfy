/**
 What a traversal of a source root reports (source-traversal.ts), told from the tree the port answers
 and from the provider's callbacks: which entries are read, which are left out and why.
 */
module SourceOutcome {
  import opened Common
  import opened Text
  import opened ManagedEntry
  import opened SourceTraversal

  // ---------- what should happen to an entry ----------

  /** The provider wants the entry: directories and files are asked about separately. */
  predicate Wanted(policy: Policy, x: Entry) {
    match x
    case DirectoryEntry(h, _) => policy.enterDirectory(h.relativePath)
    case FileEntry(h, _) => policy.readFile(h.relativePath)
  }

  predicate LeftAsManaged(policy: Policy, x: Entry, enclosing: seq<Handle>) {
    CanIgnore(policy.guards, x.handle) && policy.independent(x.handle, enclosing)
  }

  /** Entries of a listing are visited when wanted and not left out as managed; the root always is. */
  predicate Goes(policy: Policy, x: Entry, enclosing: seq<Handle>, listed: bool) {
    listed ==> Wanted(policy, x) && !LeftAsManaged(policy, x, enclosing)
  }

  predicate Outcome(policy: Policy, x: Entry, enclosing: seq<Handle>, listed: bool, kind: Kind) {
    match kind
    case Parsed => Goes(policy, x, enclosing, listed) && x.FileEntry? && x.observed.Some?
    case Traversed => Goes(policy, x, enclosing, listed) && x.DirectoryEntry? && x.listing.Some?
    case Ignored(reason) =>
      || (reason == "outside_source_pattern" && listed && !Wanted(policy, x))
      || (reason == "oaam_managed_source_entry" && listed && Wanted(policy, x) && LeftAsManaged(policy, x, enclosing))
      || (reason == "file_unreadable" && Goes(policy, x, enclosing, listed) && x.FileEntry? && x.observed.None?)
      || (reason == "directory_unreadable" && Goes(policy, x, enclosing, listed) && x.DirectoryEntry? && x.listing.None?)
  }

  /** What the result may report: a row, a file that was read, a directory that was listed. */
  datatype Fact =
    | RowFact(row: Row)
    | FileFact(record: FileRecord)
    | DirectoryFact(record: FileRecord)
    | ObservedFact(observed: string)

  predicate Holds(s: Scan, fact: Fact) {
    match fact
    case RowFact(row) => row in s.rows
    case FileFact(record) => record in s.files
    case DirectoryFact(record) => record in s.directories
    case ObservedFact(observed) => observed in s.observed
  }

  /** What the entry `x` earns by itself. */
  predicate Earns(policy: Policy, x: Entry, enclosing: seq<Handle>, listed: bool, fact: Fact) {
    match fact
    case RowFact(row) => row.id == x.handle.id && row.candidates == [] && Outcome(policy, x, enclosing, listed, row.kind)
    case FileFact(record) => Goes(policy, x, enclosing, listed) && x == FileEntry(record.handle, Some(record.observed))
    case DirectoryFact(record) =>
      && Goes(policy, x, enclosing, listed) && x.DirectoryEntry? && x.listing.Some?
      && x.handle == record.handle && x.listing.value.observed == record.observed
    case ObservedFact(observed) =>
      && Goes(policy, x, enclosing, listed)
      && match x
         case FileEntry(_, read) => read == Some(observed)
         case DirectoryEntry(_, listing) => listing.Some? && listing.value.observed == observed
  }

  // ---------- the entries a traversal meets ----------

  function Below(e: Entry): seq<Entry> {
    if e.DirectoryEntry? && e.listing.Some? then e.listing.value.children else []
  }

  /** Every entry of the path is listed by the one before it, and all but the last are visited. */
  ghost predicate Meets(policy: Policy, path: seq<Entry>, ancestors: seq<Handle>)
    decreases |path|
  {
    && |path| > 0
    && (|path| > 1 ==>
          var enclosing := ancestors + FileHandles(Below(path[0]));
          && path[1] in Below(path[0])
          && (|path| > 2 ==> Goes(policy, path[1], enclosing, true))
          && Meets(policy, path[1..], enclosing))
  }

  /** The files listed by the directories on the way, outermost first. */
  function FilesAlong(path: seq<Entry>, ancestors: seq<Handle>): seq<Handle>
    decreases |path|
  {
    if |path| <= 1 then ancestors else FilesAlong(path[1..], ancestors + FileHandles(Below(path[0])))
  }

  ghost predicate EarnedOn(policy: Policy, path: seq<Entry>, ancestors: seq<Handle>, fact: Fact) {
    && Meets(policy, path, ancestors)
    && Earns(policy, path[|path| - 1], FilesAlong(path, ancestors), |path| > 1, fact)
  }

  /** Some entry met from `e` on earns the fact. */
  ghost predicate Earned(policy: Policy, e: Entry, ancestors: seq<Handle>, fact: Fact) {
    exists path :: |path| > 0 && path[0] == e && EarnedOn(policy, path, ancestors, fact)
  }

  ghost predicate EarnedBelow(policy: Policy, c: Entry, enclosing: seq<Handle>, fact: Fact) {
    if Goes(policy, c, enclosing, true) then Earned(policy, c, enclosing, fact) else Earns(policy, c, enclosing, true, fact)
  }

  lemma LongerPath(policy: Policy, e: Entry, ancestors: seq<Handle>, path: seq<Entry>, fact: Fact)
    requires |path| > 0 && path[0] in Below(e)
    requires var enclosing := ancestors + FileHandles(Below(e));
             && Goes(policy, path[0], enclosing, true) && EarnedOn(policy, path, enclosing, fact)
    ensures EarnedOn(policy, [e] + path, ancestors, fact)
  {
    hide Goes, Outcome;
    assert ([e] + path)[1..] == path;
    if |path| == 1 { WantedEarns(policy, path[0], ancestors + FileHandles(Below(e)), fact); }
  }

  /** An entry that is visited earns the same as one that was not listed. */
  lemma WantedEarns(policy: Policy, x: Entry, enclosing: seq<Handle>, fact: Fact)
    requires Goes(policy, x, enclosing, true)
    ensures Earns(policy, x, enclosing, true, fact) <==> Earns(policy, x, enclosing, false, fact)
  {
  }

  lemma EarnedFromBelow(policy: Policy, e: Entry, ancestors: seq<Handle>, c: Entry, fact: Fact)
    requires c in Below(e) && EarnedBelow(policy, c, ancestors + FileHandles(Below(e)), fact)
    ensures Earned(policy, e, ancestors, fact)
  {
    hide Goes, Outcome, Earns, Meets, FilesAlong;
    var enclosing := ancestors + FileHandles(Below(e));
    if Goes(policy, c, enclosing, true) {
      var path :| |path| > 0 && path[0] == c && EarnedOn(policy, path, enclosing, fact);
      LongerPath(policy, e, ancestors, path, fact);
      assert ([e] + path)[0] == e;
    } else {
      TwoEntries(policy, e, ancestors, c, fact);
      assert [e, c][0] == e;
    }
  }

  lemma TwoEntries(policy: Policy, e: Entry, ancestors: seq<Handle>, c: Entry, fact: Fact)
    requires c in Below(e) && Earns(policy, c, ancestors + FileHandles(Below(e)), true, fact)
    ensures EarnedOn(policy, [e, c], ancestors, fact)
  {
    hide Goes, Outcome, Earns;
    var enclosing := ancestors + FileHandles(Below(e));
    assert [e, c][1..] == [c];
    assert Meets(policy, [c], enclosing) && FilesAlong([c], enclosing) == enclosing;
    assert FilesAlong([e, c], ancestors) == enclosing;
  }

  lemma SingleEntry(policy: Policy, e: Entry, ancestors: seq<Handle>, fact: Fact)
    requires Earns(policy, e, ancestors, false, fact)
    ensures Earned(policy, e, ancestors, fact)
  {
    hide Goes, Outcome, Earns;
    assert EarnedOn(policy, [e], ancestors, fact);
    assert [e][0] == e;
  }

  /** What is earned from `e` on is earned by `e` itself or below it. */
  lemma EarnedUnrolls(policy: Policy, e: Entry, ancestors: seq<Handle>, fact: Fact)
    ensures Earned(policy, e, ancestors, fact) <==>
              || Earns(policy, e, ancestors, false, fact)
              || exists c :: c in Below(e) && EarnedBelow(policy, c, ancestors + FileHandles(Below(e)), fact)
  {
    hide Goes, Outcome, Earns, FileHandles;
    var enclosing := ancestors + FileHandles(Below(e));
    if Earned(policy, e, ancestors, fact) {
      var path :| |path| > 0 && path[0] == e && EarnedOn(policy, path, ancestors, fact);
      if |path| > 1 {
        var c, rest := path[1], path[1..];
        assert rest[|rest| - 1] == path[|path| - 1];
        if |path| == 2 {
          assert path == [e, c] && rest == [c];
          assert FilesAlong([c], enclosing) == enclosing;
          assert Earns(policy, c, enclosing, true, fact);
          if Goes(policy, c, enclosing, true) {
            WantedEarns(policy, c, enclosing, fact);
            SingleEntry(policy, c, enclosing, fact);
          }
        } else {
          assert rest[0] == c && EarnedOn(policy, rest, enclosing, fact);
        }
        assert EarnedBelow(policy, c, enclosing, fact);
      }
    }
    if Earns(policy, e, ancestors, false, fact) { SingleEntry(policy, e, ancestors, fact); }
    forall c | c in Below(e) && EarnedBelow(policy, c, enclosing, fact) ensures Earned(policy, e, ancestors, fact) {
      EarnedFromBelow(policy, e, ancestors, c, fact);
    }
  }

  // ---------- the traversal reports exactly what is earned ----------

  /** A row for an id that has none yet is added at the end. */
  lemma DisposeAddsRow(s: Scan, row: Row)
    requires row.id !in Ids(s.rows)
    ensures Dispose(s, row).rows == s.rows + [row]
  {
    IndexedIsPresent(s.rows, row.id);
  }

  /** What an entry reports by itself. */
  function OwnScan(s: Scan, e: Entry): Scan {
    match e
    case FileEntry(h, observed) => ReadFile(s, h, observed)
    case DirectoryEntry(h, None) => Dispose(s, IgnoredRow(h, DIRECTORY_UNREADABLE))
    case DirectoryEntry(h, Some(listing)) =>
      Dispose(s.(directories := s.directories + [FileRecord(h, listing.observed)], observed := s.observed + [listing.observed]),
              Row(h.id, Traversed, []))
  }

  lemma VisitIsOwnThenBelow(s: Scan, policy: Policy, e: Entry, ancestors: seq<Handle>)
    ensures Visit(s, policy, e, ancestors) ==
            if e.DirectoryEntry? && e.listing.Some?
            then VisitAll(OwnScan(s, e), policy, e, Ordered(Below(e)), ancestors + FileHandles(Below(e)))
            else OwnScan(s, e)
  {
    hide Dispose, Ordered;
  }

  /** The rows given so far are of other handles. */
  ghost predicate Fresh(s: Scan, fact: Fact, handles: seq<Handle>) {
    fact.RowFact? ==> NoRepeats(Ids(s.rows) + IdsOf(handles))
  }

  lemma OwnIsEarned(s: Scan, policy: Policy, e: Entry, enclosing: seq<Handle>, fact: Fact)
    requires fact.RowFact? ==> e.handle.id !in Ids(s.rows)
    ensures Holds(OwnScan(s, e), fact) <==> Holds(s, fact) || Earns(policy, e, enclosing, false, fact)
  {
    hide Dispose, CanIgnore;
    var row :=
      match e
      case FileEntry(h, Some(_)) => Row(h.id, Parsed, [])
      case FileEntry(h, None) => IgnoredRow(h, FILE_UNREADABLE)
      case DirectoryEntry(h, None) => IgnoredRow(h, DIRECTORY_UNREADABLE)
      case DirectoryEntry(h, Some(_)) => Row(h.id, Traversed, []);
    DisposeKeepsRecords(s, row);
    match e {
      case FileEntry(h, Some(id)) =>
        var read := s.(files := s.files + [FileRecord(h, id)], observed := s.observed + [id]);
        DisposeKeepsRecords(read, row);
        if fact.RowFact? { DisposeAddsRow(read, row); }
      case DirectoryEntry(h, Some(listing)) =>
        var listed := s.(directories := s.directories + [FileRecord(h, listing.observed)],
                         observed := s.observed + [listing.observed]);
        DisposeKeepsRecords(listed, row);
        if fact.RowFact? { DisposeAddsRow(listed, row); }
      case _ =>
        if fact.RowFact? { DisposeAddsRow(s, row); }
    }
    if fact.RowFact? && fact.row.kind.Ignored? { ReasonsDiffer(fact.row.kind.reason); }
  }

  lemma DisposeKeepsRecords(s: Scan, row: Row)
    ensures Dispose(s, row).files == s.files && Dispose(s, row).directories == s.directories
    ensures Dispose(s, row).observed == s.observed
  {
  }

  lemma ReasonsDiffer(reason: string)
    ensures DIRECTORY_UNREADABLE != FILE_UNREADABLE
  {
    assert DIRECTORY_UNREADABLE[0] == 'd' && FILE_UNREADABLE[0] == 'f';
  }

  /** An entry that is not visited gets the row it earns and nothing else. */
  lemma RefusedIsEarned(s: Scan, policy: Policy, c: Entry, enclosing: seq<Handle>, fact: Fact)
    requires !Choose(policy, c, enclosing).Selected? && (fact.RowFact? ==> c.handle.id !in Ids(s.rows))
    ensures !Goes(policy, c, enclosing, true)
    ensures var reason := if Choose(policy, c, enclosing).Outside? then OUTSIDE_PATTERN else MANAGED;
            Holds(Dispose(s, IgnoredRow(c.handle, reason)), fact) <==> Holds(s, fact) || Earns(policy, c, enclosing, true, fact)
  {
    hide Dispose, CanIgnore;
    var row := IgnoredRow(c.handle, if Choose(policy, c, enclosing).Outside? then OUTSIDE_PATTERN else MANAGED);
    DisposeKeepsRecords(s, row);
    if fact.RowFact? { DisposeAddsRow(s, row); }
    RefusalsDiffer();
  }

  lemma RefusalsDiffer()
    ensures OUTSIDE_PATTERN != MANAGED && OUTSIDE_PATTERN == "outside_source_pattern" && MANAGED == "oaam_managed_source_entry"
  {
    assert OUTSIDE_PATTERN[1] == 'u' && MANAGED[1] == 'a';
  }

  lemma SelectedGoes(policy: Policy, c: Entry, enclosing: seq<Handle>)
    ensures Choose(policy, c, enclosing).Selected? <==> Goes(policy, c, enclosing, true)
  {
    hide CanIgnore;
  }

  lemma OwnIds(s: Scan, e: Entry)
    requires e.handle.id !in Ids(s.rows)
    ensures Ids(OwnScan(s, e).rows) == Ids(s.rows) + [e.handle.id]
  {
    hide Dispose;
    match e
    case FileEntry(h, Some(id)) =>
      DisposeAppends(s.(files := s.files + [FileRecord(h, id)], observed := s.observed + [id]), Row(h.id, Parsed, []));
    case FileEntry(h, None) => DisposeAppends(s, IgnoredRow(h, FILE_UNREADABLE));
    case DirectoryEntry(h, None) => DisposeAppends(s, IgnoredRow(h, DIRECTORY_UNREADABLE));
    case DirectoryEntry(h, Some(listing)) =>
      DisposeAppends(s.(directories := s.directories + [FileRecord(h, listing.observed)],
                        observed := s.observed + [listing.observed]), Row(h.id, Traversed, []));
  }

  lemma FreshHead(s: Scan, policy: Policy, e: Entry, ancestors: seq<Handle>, fact: Fact)
    requires Fresh(s, fact, Issued(policy, e, ancestors))
    ensures fact.RowFact? ==> e.handle.id !in Ids(s.rows)
    ensures e.DirectoryEntry? && e.listing.Some? ==>
              Fresh(OwnScan(s, e), fact, IssuedBelow(policy, e, Ordered(Below(e)), ancestors + FileHandles(Below(e))))
  {
    hide Dispose, Ordered, Choose, NoRepeats, IdsOf, OwnScan;
    if fact.RowFact? {
      var rest := Issued(policy, e, ancestors)[1..];
      assert Issued(policy, e, ancestors) == [e.handle] + rest;
      IdsOfCons(e.handle, rest);
      FrontIsDistinct(Ids(s.rows), [e.handle.id], IdsOf(rest));
      LastIsNew(Ids(s.rows), e.handle.id);
      OwnIds(s, e);
    }
  }

  /** Visiting an entry reports exactly what the entries met from it on earn; rows when ids are distinct. */
  lemma {:induction false} VisitReports(s: Scan, policy: Policy, e: Entry, ancestors: seq<Handle>, fact: Fact)
    requires Fresh(s, fact, Issued(policy, e, ancestors))
    ensures Holds(Visit(s, policy, e, ancestors), fact) <==> Holds(s, fact) || Earned(policy, e, ancestors, fact)
    decreases e, 1, 0
  {
    hide Dispose, Ordered, Choose, OwnScan, Earns, Earned, EarnedBelow, Fresh, Holds, Issued, IssuedBelow, VisitAll, FileHandles;
    FreshHead(s, policy, e, ancestors, fact);
    OwnIsEarned(s, policy, e, ancestors, fact);
    EarnedUnrolls(policy, e, ancestors, fact);
    VisitIsOwnThenBelow(s, policy, e, ancestors);
    if e.DirectoryEntry? && e.listing.Some? {
      VisitAllReports(OwnScan(s, e), policy, e, Ordered(Below(e)), ancestors + FileHandles(Below(e)), fact);
    }
  }

  lemma FreshFront(s: Scan, policy: Policy, parent: Entry, list: seq<Entry>, enclosing: seq<Handle>, fact: Fact)
    requires list != [] && forall child :: child in list ==> ChildOf(child, parent)
    requires Fresh(s, fact, IssuedBelow(policy, parent, list, enclosing))
    ensures var front, c := list[..|list| - 1], list[|list| - 1];
            var before := VisitAll(s, policy, parent, front, enclosing);
            && Fresh(s, fact, IssuedBelow(policy, parent, front, enclosing))
            && (Choose(policy, c, enclosing).Selected? ==> Fresh(before, fact, Issued(policy, c, enclosing)))
            && (!Choose(policy, c, enclosing).Selected? && fact.RowFact? ==> c.handle.id !in Ids(before.rows))
  {
    hide Dispose, Choose, Visit, Issued, NoRepeats;
    if fact.RowFact? {
      var front, child := list[..|list| - 1], list[|list| - 1];
      assert ChildOf(child, parent);
      var earlier := IssuedBelow(policy, parent, front, enclosing);
      var here := if Choose(policy, child, enclosing).Selected? then Issued(policy, child, enclosing) else [child.handle];
      assert IdsOf(earlier + here) == IdsOf(earlier) + IdsOf(here);
      FrontIsDistinct(Ids(s.rows), IdsOf(earlier), IdsOf(here));
      AllRowsInOrder(s, policy, parent, front, enclosing);
      if !Choose(policy, child, enclosing).Selected? {
        assert IdsOf(here) == [child.handle.id];
        LastIsNew(Ids(VisitAll(s, policy, parent, front, enclosing).rows), child.handle.id);
      }
    }
  }

  lemma {:induction false} VisitAllReports(s: Scan, policy: Policy, parent: Entry, list: seq<Entry>, enclosing: seq<Handle>,
                                           fact: Fact)
    requires forall child :: child in list ==> ChildOf(child, parent)
    requires Fresh(s, fact, IssuedBelow(policy, parent, list, enclosing))
    ensures Holds(VisitAll(s, policy, parent, list, enclosing), fact) <==>
              Holds(s, fact) || exists c :: c in list && EarnedBelow(policy, c, enclosing, fact)
    decreases parent, 0, |list|
  {
    hide Dispose, Choose, Visit, Issued, Earns, Earned, Fresh, Holds, Goes, IssuedBelow;
    if list != [] {
      var front, c := list[..|list| - 1], list[|list| - 1];
      assert ChildOf(c, parent);
      var before := VisitAll(s, policy, parent, front, enclosing);
      FreshFront(s, policy, parent, list, enclosing, fact);
      VisitAllReports(s, policy, parent, front, enclosing, fact);
      SelectedGoes(policy, c, enclosing);
      if Choose(policy, c, enclosing).Selected? {
        VisitReports(before, policy, c, enclosing, fact);
      } else {
        RefusedIsEarned(before, policy, c, enclosing, fact);
      }
      assert forall x :: x in list <==> x in front || x == c;
    }
  }

  // ---------- the lists keep the order of the rows ----------

  function KeptIds(rows: seq<Row>, kind: Kind): seq<string> {
    if rows == [] then []
    else
      var last := rows[|rows| - 1];
      KeptIds(rows[..|rows| - 1], kind) + if last.kind == kind then [last.id] else []
  }

  function RecordIds(records: seq<FileRecord>): seq<string> {
    seq(|records|, i requires 0 <= i < |records| => records[i].handle.id)
  }

  /** The files read are those of the parsed rows, the directories listed those of the traversed rows, each in
      the order of the rows; an ignored row is what the result reports as ignored. */
  ghost predicate Ledger(s: Scan) {
    && RecordIds(s.files) == KeptIds(s.rows, Parsed)
    && RecordIds(s.directories) == KeptIds(s.rows, Traversed)
    && |s.observed| == |s.files| + |s.directories|
    && (s.hadIgnored <==> exists row :: row in s.rows && row.kind.Ignored?)
  }

  lemma KeptAppend(rows: seq<Row>, row: Row, kind: Kind)
    ensures KeptIds(rows + [row], kind) == KeptIds(rows, kind) + if row.kind == kind then [row.id] else []
  {
    assert (rows + [row])[..|rows|] == rows;
  }

  lemma IgnoredLedger(s: Scan, h: Handle, reason: string)
    requires Ledger(s) && h.id !in Ids(s.rows)
    ensures Ledger(Dispose(s, IgnoredRow(h, reason)))
  {
    hide Dispose, KeptIds;
    var row := IgnoredRow(h, reason);
    var t := Dispose(s, row);
    DisposeAddsRow(s, row);
    DisposeKeepsRecords(s, row);
    DisposeFlags(s, row);
    KeptAppend(s.rows, row, Parsed);
    KeptAppend(s.rows, row, Traversed);
    assert KeptIds(s.rows, Parsed) + [] == KeptIds(s.rows, Parsed);
    assert KeptIds(s.rows, Traversed) + [] == KeptIds(s.rows, Traversed);
    assert row in t.rows;
  }

  lemma DisposeFlags(s: Scan, row: Row)
    ensures Dispose(s, row).hadIgnored <==> s.hadIgnored || row.kind.Ignored?
  {
  }

  lemma OwnLedger(s: Scan, e: Entry)
    requires Ledger(s) && e.handle.id !in Ids(s.rows)
    ensures Ledger(OwnScan(s, e))
  {
    hide Dispose, KeptIds;
    match e
    case FileEntry(h, None) => IgnoredLedger(s, h, FILE_UNREADABLE);
    case DirectoryEntry(h, None) => IgnoredLedger(s, h, DIRECTORY_UNREADABLE);
    case FileEntry(h, Some(id)) =>
      var record := FileRecord(h, id);
      KeptLedger(s, s.(files := s.files + [record], observed := s.observed + [id]), Row(h.id, Parsed, []));
      assert RecordIds(s.files + [record]) == RecordIds(s.files) + [h.id];
      assert KeptIds(s.rows, Traversed) + [] == KeptIds(s.rows, Traversed);
    case DirectoryEntry(h, Some(listing)) =>
      var record := FileRecord(h, listing.observed);
      KeptLedger(s, s.(directories := s.directories + [record], observed := s.observed + [listing.observed]),
                 Row(h.id, Traversed, []));
      assert RecordIds(s.directories + [record]) == RecordIds(s.directories) + [h.id];
      assert KeptIds(s.rows, Parsed) + [] == KeptIds(s.rows, Parsed);
  }

  lemma KeptLedger(s: Scan, read: Scan, row: Row)
    requires read.rows == s.rows && read.hadIgnored == s.hadIgnored && row.id !in Ids(s.rows) && !row.kind.Ignored?
    requires s.hadIgnored <==> exists r :: r in s.rows && r.kind.Ignored?
    ensures var t := Dispose(read, row);
            && t.files == read.files && t.directories == read.directories && t.observed == read.observed
            && (forall kind :: KeptIds(t.rows, kind) == KeptIds(s.rows, kind) + if row.kind == kind then [row.id] else [])
            && (t.hadIgnored <==> exists r :: r in t.rows && r.kind.Ignored?)
  {
    hide Dispose, KeptIds;
    DisposeAddsRow(read, row);
    DisposeKeepsRecords(read, row);
    DisposeFlags(read, row);
    forall kind ensures KeptIds(s.rows + [row], kind) == KeptIds(s.rows, kind) + if row.kind == kind then [row.id] else [] {
      KeptAppend(s.rows, row, kind);
    }
  }

  const ANY_ROW := RowFact(Row("", Parsed, []))

  lemma {:induction false} VisitLedger(s: Scan, policy: Policy, e: Entry, ancestors: seq<Handle>)
    requires Ledger(s) && Fresh(s, ANY_ROW, Issued(policy, e, ancestors))
    ensures Ledger(Visit(s, policy, e, ancestors))
    decreases e, 1, 0
  {
    hide Dispose, Ordered, Choose, OwnScan, Fresh, Issued, IssuedBelow, VisitAll, FileHandles, Ledger;
    FreshHead(s, policy, e, ancestors, ANY_ROW);
    OwnLedger(s, e);
    VisitIsOwnThenBelow(s, policy, e, ancestors);
    if e.DirectoryEntry? && e.listing.Some? {
      VisitAllLedger(OwnScan(s, e), policy, e, Ordered(Below(e)), ancestors + FileHandles(Below(e)));
    }
  }

  lemma {:induction false} VisitAllLedger(s: Scan, policy: Policy, parent: Entry, list: seq<Entry>, enclosing: seq<Handle>)
    requires forall child :: child in list ==> ChildOf(child, parent)
    requires Ledger(s) && Fresh(s, ANY_ROW, IssuedBelow(policy, parent, list, enclosing))
    ensures Ledger(VisitAll(s, policy, parent, list, enclosing))
    decreases parent, 0, |list|
  {
    hide Dispose, Choose, Visit, Issued, Fresh, IssuedBelow, Ledger;
    if list != [] {
      var front, c := list[..|list| - 1], list[|list| - 1];
      assert ChildOf(c, parent);
      var before := VisitAll(s, policy, parent, front, enclosing);
      FreshFront(s, policy, parent, list, enclosing, ANY_ROW);
      VisitAllLedger(s, policy, parent, front, enclosing);
      match Choose(policy, c, enclosing)
      case Selected => VisitLedger(before, policy, c, enclosing);
      case Outside => IgnoredLedger(before, c.handle, OUTSIDE_PATTERN);
      case Managed => IgnoredLedger(before, c.handle, MANAGED);
    }
  }

  // ---------- the whole read ----------

  /** The mechanism may be called and the port resolved a root of the kind it asks for. */
  predicate Starts(c: Capability, userSelectedRoot: bool, resolved: Option<Entry>) {
    && c.supported && !c.readPolicy.ReportOnly? && (c.readPolicy.UserSelectedRootOnly? ==> userSelectedRoot)
    && resolved.Some?
    && match resolved.value
       case FileEntry(_, _) => c.mechanism.FixedFile? || c.mechanism.ManifestDeclared?
       case DirectoryEntry(_, _) => c.mechanism.DirectoryEntries? || c.mechanism.RecursiveEntries?
  }

  predicate MayBeCalled(c: Capability, userSelectedRoot: bool) {
    && c.supported && !c.readPolicy.ReportOnly? && (c.readPolicy.UserSelectedRootOnly? ==> userSelectedRoot)
    && !c.mechanism.UnknownMechanism?
  }

  /** A read that does not start reports nothing but why: that sources were ignored when the mechanism may not be
      called, and the row of a root of the wrong kind. */
  lemma NotStartedIsExact(c: Capability, userSelectedRoot: bool, policy: Policy, resolved: Option<Entry>)
    requires !Starts(c, userSelectedRoot, resolved)
    ensures var s := Traverse(c, userSelectedRoot, policy, resolved);
            && |s.files| == 0 && |s.directories| == 0 && |s.observed| == 0
            && (s.hadIgnored <==> !MayBeCalled(c, userSelectedRoot) || resolved.Some?)
            && s.rows == if MayBeCalled(c, userSelectedRoot) && resolved.Some?
                         then [Row(resolved.value.handle.id,
                                   Ignored(if resolved.value.FileEntry? then "source_root_not_directory"
                                           else "source_root_not_file"),
                                   [])]
                         else []
  {
    hide Visit;
  }

  lemma StartsVisits(c: Capability, userSelectedRoot: bool, policy: Policy, resolved: Option<Entry>)
    requires Starts(c, userSelectedRoot, resolved)
    ensures Traverse(c, userSelectedRoot, policy, resolved) == Visit(NOTHING, policy, resolved.value, [])
    ensures IssuedIn(c, userSelectedRoot, policy, resolved) == Issued(policy, resolved.value, [])
  {
    hide Visit, Issued;
  }

  /** The entries of the source tree that the traversal visits: those met, but for the ones left out. */
  ghost predicate Visits(policy: Policy, root: Entry, x: Entry) {
    exists path :: |path| > 0 && path[0] == root && path[|path| - 1] == x && Meets(policy, path, [])
                   && Goes(policy, x, FilesAlong(path, []), |path| > 1)
  }

  /** The result holds exactly the files read and the directories listed on the way, with the ids observed. */
  lemma RecordsAreExact(c: Capability, userSelectedRoot: bool, policy: Policy, resolved: Option<Entry>, record: FileRecord)
    requires Starts(c, userSelectedRoot, resolved)
    ensures var s := Traverse(c, userSelectedRoot, policy, resolved);
            && (record in s.files <==> Visits(policy, resolved.value, FileEntry(record.handle, Some(record.observed))))
            && (record in s.directories <==>
                  exists children :: Visits(policy, resolved.value,
                                            DirectoryEntry(record.handle, Some(Listing(record.observed, children)))))
  {
    hide Visit, Issued, Goes, Meets, FilesAlong;
    StartsVisits(c, userSelectedRoot, policy, resolved);
    var root := resolved.value;
    VisitReports(NOTHING, policy, root, [], FileFact(record));
    VisitReports(NOTHING, policy, root, [], DirectoryFact(record));
    if Earned(policy, root, [], FileFact(record)) {
      var path :| |path| > 0 && path[0] == root && EarnedOn(policy, path, [], FileFact(record));
      assert Visits(policy, root, path[|path| - 1]);
    }
    if Visits(policy, root, FileEntry(record.handle, Some(record.observed))) {
      var x := FileEntry(record.handle, Some(record.observed));
      var path :| |path| > 0 && path[0] == root && path[|path| - 1] == x && Meets(policy, path, [])
                  && Goes(policy, x, FilesAlong(path, []), |path| > 1);
      assert EarnedOn(policy, path, [], FileFact(record));
    }
    if Earned(policy, root, [], DirectoryFact(record)) {
      var path :| |path| > 0 && path[0] == root && EarnedOn(policy, path, [], DirectoryFact(record));
      var x := path[|path| - 1];
      assert Visits(policy, root, x);
      assert x == DirectoryEntry(record.handle, Some(Listing(record.observed, x.listing.value.children)));
    }
    if children :| Visits(policy, root, DirectoryEntry(record.handle, Some(Listing(record.observed, children)))) {
      var x := DirectoryEntry(record.handle, Some(Listing(record.observed, children)));
      var path :| |path| > 0 && path[0] == root && path[|path| - 1] == x && Meets(policy, path, [])
                  && Goes(policy, x, FilesAlong(path, []), |path| > 1);
      assert EarnedOn(policy, path, [], DirectoryFact(record));
    }
  }

  lemma DistinctStart(policy: Policy, root: Entry)
    requires NoRepeats(IdsOf(Issued(policy, root, [])))
    ensures forall fact :: Fresh(NOTHING, fact, Issued(policy, root, []))
    ensures Ledger(NOTHING)
  {
    hide Issued;
    assert Ids(NOTHING.rows) + IdsOf(Issued(policy, root, [])) == IdsOf(Issued(policy, root, []));
    assert KeptIds([], Parsed) == [] && KeptIds([], Traversed) == [];
  }

  lemma SomeOutcome(policy: Policy, x: Entry, enclosing: seq<Handle>, listed: bool) returns (kind: Kind)
    ensures Outcome(policy, x, enclosing, listed, kind)
  {
    hide CanIgnore;
    if listed && !Wanted(policy, x) {
      kind := Ignored("outside_source_pattern");
    } else if listed && LeftAsManaged(policy, x, enclosing) {
      kind := Ignored("oaam_managed_source_entry");
    } else {
      match x
      case FileEntry(_, observed) => kind := if observed.Some? then Parsed else Ignored("file_unreadable");
      case DirectoryEntry(_, listing) => kind := if listing.Some? then Traversed else Ignored("directory_unreadable");
    }
  }

  /** The kind is decided by the callbacks, the guards and the answer of the port, and by them alone. */
  ghost predicate KindIsExact(policy: Policy, x: Entry, enclosing: seq<Handle>, listed: bool, kind: Kind) {
    && (kind == Ignored("outside_source_pattern") <==> listed && !Wanted(policy, x))
    && (kind == Ignored("oaam_managed_source_entry") <==> listed && Wanted(policy, x) && LeftAsManaged(policy, x, enclosing))
    && var visited := !listed || (Wanted(policy, x) && !LeftAsManaged(policy, x, enclosing));
       && (kind == Ignored("file_unreadable") <==> visited && x.FileEntry? && x.observed.None?)
       && (kind == Ignored("directory_unreadable") <==> visited && x.DirectoryEntry? && x.listing.None?)
       && (kind == Parsed <==> visited && x.FileEntry? && x.observed.Some?)
       && (kind == Traversed <==> visited && x.DirectoryEntry? && x.listing.Some?)
  }

  lemma OutcomeIsExact(policy: Policy, x: Entry, enclosing: seq<Handle>, listed: bool, kind: Kind)
    requires Outcome(policy, x, enclosing, listed, kind)
    ensures KindIsExact(policy, x, enclosing, listed, kind)
  {
    hide CanIgnore;
    ReasonsApart();
  }

  lemma ReasonsApart()
    ensures "outside_source_pattern" != "oaam_managed_source_entry" && "outside_source_pattern" != "file_unreadable"
    ensures "outside_source_pattern" != "directory_unreadable" && "oaam_managed_source_entry" != "file_unreadable"
    ensures "oaam_managed_source_entry" != "directory_unreadable" && "file_unreadable" != "directory_unreadable"
  {
    assert "outside_source_pattern"[1] == 'u' && "oaam_managed_source_entry"[1] == 'a';
    assert "file_unreadable"[0] == 'f' && "directory_unreadable"[0] == 'd';
  }

  /** A row is reported exactly when an entry met on the way earns it. */
  lemma RowsAreExact(c: Capability, userSelectedRoot: bool, policy: Policy, resolved: Option<Entry>, row: Row)
    requires Starts(c, userSelectedRoot, resolved)
    requires NoRepeats(IdsOf(IssuedIn(c, userSelectedRoot, policy, resolved)))
    ensures row in Traverse(c, userSelectedRoot, policy, resolved).rows <==>
              exists path :: |path| > 0 && path[0] == resolved.value && EarnedOn(policy, path, [], RowFact(row))
  {
    hide Visit, Issued, EarnedOn, Fresh, NoRepeats;
    StartsVisits(c, userSelectedRoot, policy, resolved);
    DistinctStart(policy, resolved.value);
    VisitReports(NOTHING, policy, resolved.value, [], RowFact(row));
  }

  lemma RowsById(rows: seq<Row>, a: Row, b: Row)
    requires NoRepeats(Ids(rows)) && a in rows && b in rows && a.id == b.id
    ensures a == b
  {
    var i :| 0 <= i < |rows| && rows[i] == a;
    var j :| 0 <= j < |rows| && rows[j] == b;
    assert Ids(rows)[i] == Ids(rows)[j] == a.id;
  }

  /**
   With distinct handle ids every entry listed in a traversed directory, and the root, has one row, and
   its kind is decided by the provider's callbacks, the guards and the answer of the port.
   */
  lemma EveryEntryHasItsRow(c: Capability, userSelectedRoot: bool, policy: Policy, resolved: Option<Entry>, path: seq<Entry>)
    requires Starts(c, userSelectedRoot, resolved)
    requires NoRepeats(IdsOf(IssuedIn(c, userSelectedRoot, policy, resolved)))
    requires |path| > 0 && path[0] == resolved.value && Meets(policy, path, [])
    ensures var rows, x := Traverse(c, userSelectedRoot, policy, resolved).rows, path[|path| - 1];
            && (exists row :: row in rows && row.id == x.handle.id)
            && (forall row :: row in rows && row.id == x.handle.id ==>
                  KindIsExact(policy, x, FilesAlong(path, []), |path| > 1, row.kind))
  {
    hide Visit, Issued, Traverse, IssuedIn, Outcome, KindIsExact, NoRepeats, Meets, FilesAlong;
    var x, listed, enclosing := path[|path| - 1], |path| > 1, FilesAlong(path, []);
    var kind := SomeOutcome(policy, x, enclosing, listed);
    var own := Row(x.handle.id, kind, []);
    RowsAreExact(c, userSelectedRoot, policy, resolved, own);
    assert EarnedOn(policy, path, [], RowFact(own));
    OutcomeIsExact(policy, x, enclosing, listed, kind);
    TraverseAccounts(c, userSelectedRoot, policy, resolved);
    forall row | row in Traverse(c, userSelectedRoot, policy, resolved).rows && row.id == x.handle.id
      ensures KindIsExact(policy, x, enclosing, listed, row.kind)
    {
      RowsById(Traverse(c, userSelectedRoot, policy, resolved).rows, own, row);
    }
  }

  /** With distinct ids the files are those of the parsed rows and the directories those of the traversed rows, in
      the order of the rows, one observed id for each, and sources were ignored exactly when a row says so. */
  lemma ListsFollowRows(c: Capability, userSelectedRoot: bool, policy: Policy, resolved: Option<Entry>)
    requires Starts(c, userSelectedRoot, resolved)
    requires NoRepeats(IdsOf(IssuedIn(c, userSelectedRoot, policy, resolved)))
    ensures var s := Traverse(c, userSelectedRoot, policy, resolved);
            && RecordIds(s.files) == KeptIds(s.rows, Parsed)
            && RecordIds(s.directories) == KeptIds(s.rows, Traversed)
            && |s.observed| == |s.files| + |s.directories|
            && (s.hadIgnored <==> exists row :: row in s.rows && row.kind.Ignored?)
  {
    hide Visit, Issued, Fresh, NoRepeats;
    StartsVisits(c, userSelectedRoot, policy, resolved);
    DistinctStart(policy, resolved.value);
    VisitLedger(NOTHING, policy, resolved.value, []);
  }

  /** An id was observed exactly when a file read or a directory listed on the way has it. */
  lemma ObservedIsExact(c: Capability, userSelectedRoot: bool, policy: Policy, resolved: Option<Entry>, observed: string)
    requires Starts(c, userSelectedRoot, resolved)
    ensures observed in Traverse(c, userSelectedRoot, policy, resolved).observed <==>
              exists path :: |path| > 0 && path[0] == resolved.value && EarnedOn(policy, path, [], ObservedFact(observed))
  {
    hide Visit, Issued, EarnedOn;
    StartsVisits(c, userSelectedRoot, policy, resolved);
    VisitReports(NOTHING, policy, resolved.value, [], ObservedFact(observed));
  }

  // ---------- what the callbacks are given ----------

  /** A callback asked about an entry sees the file handles of each listing on the way, in the port's order: an
      entry gives its handle exactly when it is a file, and lists are joined. */
  lemma FileHandleOfOne(e: Entry)
    ensures FileHandles([e]) == match e case FileEntry(h, _) => [h] case DirectoryEntry(_, _) => []
  {
    assert [e][1..] == [] && FileHandles([]) == [];
  }

  lemma {:induction false} FileHandlesJoin(entries: seq<Entry>, rest: seq<Entry>)
    ensures FileHandles(entries + rest) == FileHandles(entries) + FileHandles(rest)
  {
    if entries == [] {
      assert entries + rest == rest;
    } else {
      var tail := entries[1..];
      FileHandlesJoin(tail, rest);
      FirstThenRest(entries, tail, rest);
      assert FileHandles(tail + rest) == FileHandles(tail) + FileHandles(rest);
    }
  }

  lemma FirstThenRest(entries: seq<Entry>, tail: seq<Entry>, rest: seq<Entry>)
    requires entries != [] && tail == entries[1..]
    ensures var own := if entries[0].FileEntry? then [entries[0].handle] else [];
            && FileHandles(entries) == own + FileHandles(tail)
            && FileHandles(entries + rest) == own + FileHandles(tail + rest)
  {
    assert (entries + rest)[1..] == tail + rest && (entries + rest)[0] == entries[0];
  }

  /** Children are taken in the order of their paths. */
  lemma ChildrenInOrder(children: seq<Entry>)
    ensures multiset(Ordered(children)) == multiset(children)
    ensures forall i, j :: 0 <= i < j < |Ordered(children)| ==>
              AtMost(Ordered(children)[i].handle.relativePath, Ordered(children)[j].handle.relativePath)
  {
    hide AtMost;
    SortByMembers(children, EntryPath);
    SortByOrders(children, EntryPath);
  }

  // ---------- referenced files ----------

  lemma {:induction false} FindFileIsExact(files: seq<FileRecord>, path: string)
    ensures FindFile(files, path).Some? <==> exists record :: record in files && record.handle.relativePath == path
    ensures FindFile(files, path).Some? ==>
              FindFile(files, path).value in files && FindFile(files, path).value.handle.relativePath == path
  {
    if files != [] {
      FindFileIsExact(files[1..], path);
      assert forall record :: record in files <==> record == files[0] || record in files[1..];
    }
  }

  /** A referenced file that was read already is not read again; one that resolves to a readable file is read
      into the result once, one that cannot be read gets an ignored row, and a directory is ignored unless it was. */
  lemma ReferencedIsExact(s: Scan, path: string, resolved: Option<Entry>)
    ensures var t := ReadReferenced(s, path, resolved);
            if (exists record :: record in s.files && record.handle.relativePath == path) || resolved.None? then t == s
            else
              var h := resolved.value.handle;
              && t.directories == s.directories
              && t.files == s.files + (match resolved.value
                                       case FileEntry(_, Some(id)) => [FileRecord(h, id)]
                                       case _ => [])
              && t.observed == s.observed + (match resolved.value
                                             case FileEntry(_, Some(id)) => [id]
                                             case _ => [])
              && (forall row: Row :: row.id != h.id ==> (row in t.rows <==> row in s.rows))
  {
    hide Dispose;
    FindFileIsExact(s.files, path);
    if FindFile(s.files, path).None? && resolved.Some? {
      var h := resolved.value.handle;
      match resolved.value {
        case FileEntry(_, Some(id)) =>
          var read := s.(files := s.files + [FileRecord(h, id)], observed := s.observed + [id]);
          DisposeKeepsRecords(read, Row(h.id, Parsed, []));
          DisposeIsLocal(read, Row(h.id, Parsed, []));
        case FileEntry(_, None) =>
          DisposeKeepsRecords(s, IgnoredRow(h, FILE_UNREADABLE));
          DisposeIsLocal(s, IgnoredRow(h, FILE_UNREADABLE));
        case DirectoryEntry(_, _) =>
          DisposeKeepsRecords(s, IgnoredRow(h, REFERENCED_NOT_FILE));
          DisposeIsLocal(s, IgnoredRow(h, REFERENCED_NOT_FILE));
      }
    }
  }

  lemma DisposeIsLocal(s: Scan, row: Row)
    ensures forall other: Row :: other.id != row.id ==> (other in Dispose(s, row).rows <==> other in s.rows)
    ensures row in Dispose(s, row).rows
  {
    var i := IndexOf(s.rows, row.id);
    var t := Dispose(s, row);
    if i.Some? {
      assert t.rows[i.value] == row;
      forall other: Row | other.id != row.id && other in s.rows ensures other in t.rows {
        var k :| 0 <= k < |s.rows| && s.rows[k] == other;
        assert t.rows[k] == other;
      }
    } else {
      assert t.rows[|s.rows|] == row;
    }
  }

  /** The row a referenced entry ends up with. */
  lemma ReferencedRow(s: Scan, path: string, resolved: Option<Entry>)
    requires Accounted(s) && resolved.Some?
    requires forall record :: record in s.files ==> record.handle.relativePath != path
    ensures var t, h := ReadReferenced(s, path, resolved), resolved.value.handle;
            exists row :: row in t.rows && row.id == h.id &&
              match resolved.value
              case FileEntry(_, Some(_)) => row.kind == Parsed
              case FileEntry(_, None) => row.kind == Ignored("file_unreadable")
              case DirectoryEntry(_, _) =>
                if exists earlier :: earlier in s.rows && earlier.id == h.id && earlier.kind.Ignored? then
                  row in s.rows && row.kind.Ignored?
                else row.kind == Ignored("referenced_entry_not_file")
  {
    hide Dispose;
    FindFileIsExact(s.files, path);
    var h := resolved.value.handle;
    match resolved.value {
      case FileEntry(_, Some(id)) =>
        DisposeIsLocal(s.(files := s.files + [FileRecord(h, id)], observed := s.observed + [id]), Row(h.id, Parsed, []));
      case FileEntry(_, None) => DisposeIsLocal(s, IgnoredRow(h, FILE_UNREADABLE));
      case DirectoryEntry(_, _) =>
        DisposeIsLocal(s, IgnoredRow(h, REFERENCED_NOT_FILE));
        FirstReasonStays(s, h);
    }
  }

  /** An ignored row is the one found under its id. */
  lemma FirstReasonStays(s: Scan, h: Handle)
    requires Accounted(s)
    ensures var i := IndexOf(s.rows, h.id);
            (exists row :: row in s.rows && row.id == h.id && row.kind.Ignored?) <==>
              i.Some? && s.rows[i.value] in s.rows && s.rows[i.value].kind.Ignored?
  {
    var i := IndexOf(s.rows, h.id);
    if row :| row in s.rows && row.id == h.id && row.kind.Ignored? {
      RowsById(s.rows, row, s.rows[i.value]);
    }
  }
}
