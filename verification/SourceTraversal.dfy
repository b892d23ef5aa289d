/**
 Traversal of one source root and its disposition rows (source-traversal.ts).

 The read-access port is a finite tree of handles in which any file read and any directory
 listing may fail. Provider policy callbacks are arbitrary functions. Handle ids need not be
 distinct. File contents, diagnostics and outcome ids are not modelled.
 */
module SourceTraversal {
  import opened Common
  import opened Text
  import opened ManagedEntry

  /** What the port answers about one entry; `None` is a failed read or listing. */
  datatype Entry =
    | FileEntry(handle: Handle, observed: Option<string>)
    | DirectoryEntry(handle: Handle, listing: Option<Listing>)

  datatype Listing = Listing(observed: string, children: seq<Entry>)

  datatype Policy = Policy(enterDirectory: string -> bool, readFile: string -> bool,
                           independent: (Handle, seq<Handle>) -> bool, guards: seq<Guard>)

  datatype Kind = Traversed | Parsed | Ignored(reason: string)

  datatype Row = Row(id: string, kind: Kind, candidates: seq<string>)

  datatype FileRecord = FileRecord(handle: Handle, observed: string)

  datatype Scan = Scan(rows: seq<Row>, files: seq<FileRecord>, directories: seq<FileRecord>, observed: seq<string>,
                       hadIgnored: bool)

  const NOTHING := Scan([], [], [], [], false)

  const DIRECTORY_UNREADABLE := "directory_unreadable"
  const FILE_UNREADABLE := "file_unreadable"
  const OUTSIDE_PATTERN := "outside_source_pattern"
  const MANAGED := "oaam_managed_source_entry"
  const REFERENCED_NOT_FILE := "referenced_entry_not_file"

  // ---------- rows ----------

  function IndexOf(rows: seq<Row>, id: string): (r: Option<nat>)
    ensures r.Some? ==> r.value < |rows| && rows[r.value].id == id
    ensures r.None? ==> forall i :: 0 <= i < |rows| ==> rows[i].id != id
  {
    if rows == [] then None
    else if rows[|rows| - 1].id == id then Some(|rows| - 1)
    else IndexOf(rows[..|rows| - 1], id)
  }

  /** setDisposition. */
  function Dispose(s: Scan, row: Row): Scan {
    var i := IndexOf(s.rows, row.id);
    s.(rows := if i.None? then s.rows + [row] else s.rows[i.value := row], hadIgnored := s.hadIgnored || row.kind.Ignored?)
  }

  function IgnoredRow(h: Handle, reason: string): Row {
    Row(h.id, Ignored(reason), [])
  }

  /** replaceWithIgnored: an ignored row keeps its first reason. */
  function Ignore(s: Scan, h: Handle, reason: string): Scan {
    var i := IndexOf(s.rows, h.id);
    if i.Some? && s.rows[i.value].kind.Ignored? then s else Dispose(s, IgnoredRow(h, reason))
  }

  // ---------- traversal ----------

  function ReadFile(s: Scan, h: Handle, observed: Option<string>): Scan {
    match observed
    case None => Dispose(s, IgnoredRow(h, FILE_UNREADABLE))
    case Some(id) =>
      Dispose(s.(files := s.files + [FileRecord(h, id)], observed := s.observed + [id]), Row(h.id, Parsed, []))
  }

  function FileHandles(entries: seq<Entry>): seq<Handle> {
    if entries == [] then []
    else (if entries[0].FileEntry? then [entries[0].handle] else []) + FileHandles(entries[1..])
  }

  function EntryPath(e: Entry): string { e.handle.relativePath }

  function Ordered(children: seq<Entry>): (r: seq<Entry>)
    ensures forall e :: e in r <==> e in children
  {
    OrderedMembers(children);
    SortBy(children, EntryPath)
  }

  lemma OrderedMembers(children: seq<Entry>)
    ensures forall e :: e in SortBy(children, EntryPath) <==> e in children
  {
    SortByMembers(children, EntryPath);
    forall e ensures e in SortBy(children, EntryPath) <==> e in children {
      assert e in SortBy(children, EntryPath) <==> e in multiset(SortBy(children, EntryPath));
    }
  }

  datatype Choice = Outside | Managed | Selected

  function Choose(policy: Policy, child: Entry, enclosing: seq<Handle>): Choice {
    var selected := if child.DirectoryEntry? then policy.enterDirectory(EntryPath(child)) else policy.readFile(EntryPath(child));
    if !selected then Outside
    else if CanIgnore(policy.guards, child.handle) && policy.independent(child.handle, enclosing) then Managed
    else Selected
  }

  /** visitDirectory or readFile, as the entry's kind asks. */
  function Visit(s: Scan, policy: Policy, e: Entry, ancestors: seq<Handle>): Scan
    decreases e, 1, 0
  {
    match e
    case FileEntry(h, observed) => ReadFile(s, h, observed)
    case DirectoryEntry(h, None) => Dispose(s, IgnoredRow(h, DIRECTORY_UNREADABLE))
    case DirectoryEntry(h, Some(listing)) =>
      var entered := Dispose(s.(directories := s.directories + [FileRecord(h, listing.observed)],
                                observed := s.observed + [listing.observed]),
                             Row(h.id, Traversed, []));
      VisitAll(entered, policy, e, Ordered(listing.children), ancestors + FileHandles(listing.children))
  }

  predicate ChildOf(child: Entry, parent: Entry) {
    parent.DirectoryEntry? && parent.listing.Some? && child in parent.listing.value.children
  }

  function VisitAll(s: Scan, policy: Policy, parent: Entry, list: seq<Entry>, enclosing: seq<Handle>): Scan
    requires forall child :: child in list ==> ChildOf(child, parent)
    decreases parent, 0, |list|
  {
    if list == [] then s
    else
      var before, child := VisitAll(s, policy, parent, list[..|list| - 1], enclosing), list[|list| - 1];
      assert ChildOf(child, parent);
      match Choose(policy, child, enclosing)
      case Outside => Dispose(before, IgnoredRow(child.handle, OUTSIDE_PATTERN))
      case Managed => Dispose(before, IgnoredRow(child.handle, MANAGED))
      case Selected => Visit(before, policy, child, enclosing)
  }

  // ---------- handles issued ----------

  /** The handles the port gives out while an entry is visited: its own, and those of every listing it answers. */
  function Issued(policy: Policy, e: Entry, ancestors: seq<Handle>): (handles: seq<Handle>)
    ensures handles != []
    decreases e, 1, 0
  {
    [e.handle] +
    match e
    case DirectoryEntry(h, Some(listing)) =>
      IssuedBelow(policy, e, Ordered(listing.children), ancestors + FileHandles(listing.children))
    case _ => []
  }

  function IssuedBelow(policy: Policy, parent: Entry, list: seq<Entry>, enclosing: seq<Handle>): seq<Handle>
    requires forall child :: child in list ==> ChildOf(child, parent)
    decreases parent, 0, |list|
  {
    if list == [] then []
    else
      var before, child := IssuedBelow(policy, parent, list[..|list| - 1], enclosing), list[|list| - 1];
      assert ChildOf(child, parent);
      before + if Choose(policy, child, enclosing).Selected? then Issued(policy, child, enclosing) else [child.handle]
  }

  function Ids(rows: seq<Row>): seq<string> {
    seq(|rows|, i requires 0 <= i < |rows| => rows[i].id)
  }

  function HandleIds(handles: seq<Handle>): set<string> {
    set h | h in handles :: h.id
  }

  /** One row per id, and an ignored row is reported as such. */
  ghost predicate Accounted(s: Scan) {
    NoRepeats(Ids(s.rows)) && forall i :: 0 <= i < |s.rows| && s.rows[i].kind.Ignored? ==> s.hadIgnored
  }

  function RowIds(s: Scan): set<string> {
    set row | row in s.rows :: row.id
  }

  /** Setting a disposition keeps one row per id and adds at most this id. */
  lemma DisposeAccounts(s: Scan, row: Row)
    requires Accounted(s)
    ensures Accounted(Dispose(s, row)) && RowIds(Dispose(s, row)) == RowIds(s) + {row.id}
  {
    var t := Dispose(s, row);
    var i := IndexOf(s.rows, row.id);
    forall j, k | 0 <= j < k < |t.rows| ensures Ids(t.rows)[j] != Ids(t.rows)[k] {
      assert k < |s.rows| ==> Ids(s.rows)[j] != Ids(s.rows)[k];
      if i.None? && k == |s.rows| { assert s.rows[j].id != row.id; }
    }
    forall id ensures id in RowIds(t) <==> id in RowIds(s) || id == row.id {
      if id in RowIds(s) && id != row.id {
        var j :| 0 <= j < |s.rows| && s.rows[j].id == id;
        assert t.rows[j].id == id;
        assert t.rows[j] in t.rows;
      }
      if id in RowIds(t) && id != row.id {
        var j :| 0 <= j < |t.rows| && t.rows[j].id == id;
        assert t.rows[j] == s.rows[j];
      }
      if id == row.id {
        assert row in t.rows by { if i.Some? { assert t.rows[i.value] == row; } else { assert t.rows[|s.rows|] == row; } }
      }
    }
  }

  /** Records other than rows do not matter to the accounting. */
  lemma SameRowsAccount(s: Scan, t: Scan)
    requires Accounted(s) && t.rows == s.rows && t.hadIgnored == s.hadIgnored
    ensures Accounted(t) && RowIds(t) == RowIds(s)
  {
  }

  /** Every handle issued while an entry is visited has exactly one row afterwards, and no other row is new. */
  lemma {:induction false} VisitAccounts(s: Scan, policy: Policy, e: Entry, ancestors: seq<Handle>)
    requires Accounted(s)
    ensures Accounted(Visit(s, policy, e, ancestors))
    ensures RowIds(Visit(s, policy, e, ancestors)) == RowIds(s) + HandleIds(Issued(policy, e, ancestors))
    decreases e, 1, 0
  {
    hide Accounted, RowIds, Dispose, Ordered, Choose;
    match e {
      case FileEntry(h, None) => DisposeAccounts(s, IgnoredRow(h, FILE_UNREADABLE));
      case FileEntry(h, Some(id)) =>
        var read := s.(files := s.files + [FileRecord(h, id)], observed := s.observed + [id]);
        SameRowsAccount(s, read);
        DisposeAccounts(read, Row(h.id, Parsed, []));
      case DirectoryEntry(h, None) => DisposeAccounts(s, IgnoredRow(h, DIRECTORY_UNREADABLE));
      case DirectoryEntry(h, Some(listing)) =>
        var listed := s.(directories := s.directories + [FileRecord(h, listing.observed)],
                         observed := s.observed + [listing.observed]);
        SameRowsAccount(s, listed);
        DisposeAccounts(listed, Row(h.id, Traversed, []));
        VisitAllAccounts(Dispose(listed, Row(h.id, Traversed, [])), policy, e, Ordered(listing.children),
                         ancestors + FileHandles(listing.children));
    }
  }

  lemma {:induction false} VisitAllAccounts(s: Scan, policy: Policy, parent: Entry, list: seq<Entry>, enclosing: seq<Handle>)
    requires Accounted(s)
    requires forall child :: child in list ==> ChildOf(child, parent)
    ensures Accounted(VisitAll(s, policy, parent, list, enclosing))
    ensures RowIds(VisitAll(s, policy, parent, list, enclosing)) ==
            RowIds(s) + HandleIds(IssuedBelow(policy, parent, list, enclosing))
    decreases parent, 0, |list|
  {
    hide Accounted, RowIds, Dispose, Choose, Visit, Issued;
    if list != [] {
      var child := list[|list| - 1];
      var before := VisitAll(s, policy, parent, list[..|list| - 1], enclosing);
      assert ChildOf(child, parent);
      VisitAllAccounts(s, policy, parent, list[..|list| - 1], enclosing);
      match Choose(policy, child, enclosing) {
        case Outside => DisposeAccounts(before, IgnoredRow(child.handle, OUTSIDE_PATTERN));
        case Managed => DisposeAccounts(before, IgnoredRow(child.handle, MANAGED));
        case Selected => VisitAccounts(before, policy, child, enclosing);
      }
    }
  }

  // ---------- rows in traversal order ----------

  function IdsOf(handles: seq<Handle>): seq<string> {
    seq(|handles|, i requires 0 <= i < |handles| => handles[i].id)
  }

  lemma DisposeAppends(s: Scan, row: Row)
    requires row.id !in Ids(s.rows)
    ensures Ids(Dispose(s, row).rows) == Ids(s.rows) + [row.id]
  {
    IndexedIsPresent(s.rows, row.id);
  }

  lemma IndexedIsPresent(rows: seq<Row>, id: string)
    ensures IndexOf(rows, id).Some? ==> id in Ids(rows)
  {
    var i := IndexOf(rows, id);
    if i.Some? { assert Ids(rows)[i.value] == id; }
  }

  lemma LastIsNew(front: seq<string>, x: string)
    requires NoRepeats(front + [x])
    ensures x !in front
  {
    forall i | 0 <= i < |front| ensures front[i] != x { assert (front + [x])[i] != (front + [x])[|front|]; }
  }

  lemma FrontIsDistinct(a: seq<string>, b: seq<string>, c: seq<string>)
    requires NoRepeats(a + (b + c))
    ensures NoRepeats(a + b) && NoRepeats((a + b) + c)
  {
    assert a + (b + c) == (a + b) + c;
    forall i, j | 0 <= i < j < |a + b| ensures (a + b)[i] != (a + b)[j] {
      assert ((a + b) + c)[i] == (a + b)[i] && ((a + b) + c)[j] == (a + b)[j];
    }
  }

  lemma IssuedAlone(policy: Policy, e: Entry, ancestors: seq<Handle>)
    requires e.DirectoryEntry? ==> e.listing.None?
    ensures Issued(policy, e, ancestors) == [e.handle] && IdsOf(Issued(policy, e, ancestors)) == [e.handle.id]
  {
    assert [e.handle] + [] == [e.handle];
  }

  lemma IdsOfCons(h: Handle, handles: seq<Handle>)
    ensures IdsOf([h] + handles) == [h.id] + IdsOf(handles)
  {
  }

  /** When the port's ids are distinct, the rows are the issued handles in the order of the traversal. */
  lemma {:induction false} RowsInOrder(s: Scan, policy: Policy, e: Entry, ancestors: seq<Handle>)
    requires NoRepeats(Ids(s.rows) + IdsOf(Issued(policy, e, ancestors)))
    ensures Ids(Visit(s, policy, e, ancestors).rows) == Ids(s.rows) + IdsOf(Issued(policy, e, ancestors))
    decreases e, 1, 0
  {
    hide Dispose, Ordered, Choose, NoRepeats, IdsOf;
    var id := e.handle.id;
    match e {
      case DirectoryEntry(h, Some(listing)) =>
        var enclosing := ancestors + FileHandles(listing.children);
        var below := IssuedBelow(policy, e, Ordered(listing.children), enclosing);
        IdsOfCons(h, below);
        FrontIsDistinct(Ids(s.rows), [id], IdsOf(below));
        LastIsNew(Ids(s.rows), id);
        var listed := s.(directories := s.directories + [FileRecord(h, listing.observed)],
                         observed := s.observed + [listing.observed]);
        DisposeAppends(listed, Row(h.id, Traversed, []));
        AllRowsInOrder(Dispose(listed, Row(h.id, Traversed, [])), policy, e, Ordered(listing.children), enclosing);
      case DirectoryEntry(h, None) =>
        IssuedAlone(policy, e, ancestors);
        LastIsNew(Ids(s.rows), id);
        DisposeAppends(s, IgnoredRow(h, DIRECTORY_UNREADABLE));
      case FileEntry(h, None) =>
        IssuedAlone(policy, e, ancestors);
        LastIsNew(Ids(s.rows), id);
        DisposeAppends(s, IgnoredRow(h, FILE_UNREADABLE));
      case FileEntry(h, Some(observed)) =>
        IssuedAlone(policy, e, ancestors);
        LastIsNew(Ids(s.rows), id);
        DisposeAppends(s.(files := s.files + [FileRecord(h, observed)], observed := s.observed + [observed]),
                       Row(h.id, Parsed, []));
    }
  }

  lemma {:induction false} AllRowsInOrder(s: Scan, policy: Policy, parent: Entry, list: seq<Entry>, enclosing: seq<Handle>)
    requires forall child :: child in list ==> ChildOf(child, parent)
    requires NoRepeats(Ids(s.rows) + IdsOf(IssuedBelow(policy, parent, list, enclosing)))
    ensures Ids(VisitAll(s, policy, parent, list, enclosing).rows) ==
            Ids(s.rows) + IdsOf(IssuedBelow(policy, parent, list, enclosing))
    decreases parent, 0, |list|
  {
    hide Dispose, Choose, Visit, Issued, NoRepeats;
    if list != [] {
      var front, child := list[..|list| - 1], list[|list| - 1];
      assert ChildOf(child, parent);
      var before, earlier := VisitAll(s, policy, parent, front, enclosing), IssuedBelow(policy, parent, front, enclosing);
      var here := if Choose(policy, child, enclosing).Selected? then Issued(policy, child, enclosing) else [child.handle];
      assert IdsOf(earlier + here) == IdsOf(earlier) + IdsOf(here);
      FrontIsDistinct(Ids(s.rows), IdsOf(earlier), IdsOf(here));
      AllRowsInOrder(s, policy, parent, front, enclosing);
      match Choose(policy, child, enclosing) {
        case Outside =>
          assert IdsOf(here) == [child.handle.id];
          LastIsNew(Ids(before.rows), child.handle.id);
          DisposeAppends(before, IgnoredRow(child.handle, OUTSIDE_PATTERN));
        case Managed =>
          assert IdsOf(here) == [child.handle.id];
          LastIsNew(Ids(before.rows), child.handle.id);
          DisposeAppends(before, IgnoredRow(child.handle, MANAGED));
        case Selected => RowsInOrder(before, policy, child, enclosing);
      }
    }
  }

  // ---------- managed entries ----------

  /** Every row skipped as managed belongs to a handle that the guards allow to skip. */
  ghost predicate SkipsJustified(rows: seq<Row>, guards: seq<Guard>, handles: set<Handle>) {
    forall row :: row in rows && row.kind == Ignored(MANAGED) ==> exists h :: h in handles && h.id == row.id && CanIgnore(guards, h)
  }

  lemma DisposeJustified(s: Scan, row: Row, guards: seq<Guard>, handles: set<Handle>, h: Handle)
    requires SkipsJustified(s.rows, guards, handles)
    requires h in handles && h.id == row.id && CanIgnore(guards, h)
    ensures SkipsJustified(Dispose(s, row).rows, guards, handles)
  {
    hide CanIgnore;
  }

  lemma OtherJustified(s: Scan, row: Row, guards: seq<Guard>, handles: set<Handle>)
    requires SkipsJustified(s.rows, guards, handles) && row.kind != Ignored(MANAGED)
    ensures SkipsJustified(Dispose(s, row).rows, guards, handles)
  {
    hide CanIgnore;
  }

  lemma MoreJustify(rows: seq<Row>, guards: seq<Guard>, few: set<Handle>, many: set<Handle>)
    requires SkipsJustified(rows, guards, few) && few <= many
    ensures SkipsJustified(rows, guards, many)
  {
    hide CanIgnore;
    forall row | row in rows && row.kind == Ignored(MANAGED)
      ensures exists h :: h in many && h.id == row.id && CanIgnore(guards, h)
    {
      var h :| h in few && h.id == row.id && CanIgnore(guards, h);
      assert h in many;
    }
  }

  function AsSet(handles: seq<Handle>): set<Handle> {
    set h | h in handles
  }

  /** Only entries of a listing are skipped as managed, never the entry visited first. */
  lemma {:induction false} VisitSkips(s: Scan, policy: Policy, e: Entry, ancestors: seq<Handle>, handles: set<Handle>)
    requires SkipsJustified(s.rows, policy.guards, handles)
    ensures SkipsJustified(Visit(s, policy, e, ancestors).rows, policy.guards,
                           handles + AsSet(Issued(policy, e, ancestors)[1..]))
    decreases e, 1, 0
  {
    hide SkipsJustified, Dispose, Ordered, Choose;
    var h := e.handle;
    match e {
      case DirectoryEntry(_, Some(listing)) =>
        var enclosing := ancestors + FileHandles(listing.children);
        var below := IssuedBelow(policy, e, Ordered(listing.children), enclosing);
        var listed := s.(directories := s.directories + [FileRecord(h, listing.observed)],
                         observed := s.observed + [listing.observed]);
        OtherJustified(listed, Row(h.id, Traversed, []), policy.guards, handles);
        VisitAllSkips(Dispose(listed, Row(h.id, Traversed, [])), policy, e, Ordered(listing.children), enclosing, handles);
        assert ([h] + below)[1..] == below;
      case DirectoryEntry(_, None) =>
        OtherJustified(s, IgnoredRow(h, DIRECTORY_UNREADABLE), policy.guards, handles);
        IssuedAlone(policy, e, ancestors);
        assert handles + AsSet([]) == handles;
      case FileEntry(_, None) =>
        OtherJustified(s, IgnoredRow(h, FILE_UNREADABLE), policy.guards, handles);
        IssuedAlone(policy, e, ancestors);
        assert handles + AsSet([]) == handles;
      case FileEntry(_, Some(observed)) =>
        var read := s.(files := s.files + [FileRecord(h, observed)], observed := s.observed + [observed]);
        OtherJustified(read, Row(h.id, Parsed, []), policy.guards, handles);
        IssuedAlone(policy, e, ancestors);
        assert handles + AsSet([]) == handles;
    }
  }

  lemma {:induction false} VisitAllSkips(s: Scan, policy: Policy, parent: Entry, list: seq<Entry>, enclosing: seq<Handle>,
                                         handles: set<Handle>)
    requires forall child :: child in list ==> ChildOf(child, parent)
    requires SkipsJustified(s.rows, policy.guards, handles)
    ensures SkipsJustified(VisitAll(s, policy, parent, list, enclosing).rows, policy.guards,
                           handles + AsSet(IssuedBelow(policy, parent, list, enclosing)))
    decreases parent, 0, |list|
  {
    hide SkipsJustified, Dispose, Choose, Visit, Issued, CanIgnore;
    if list == [] {
      assert handles + AsSet([]) == handles;
    } else {
      var front, child := list[..|list| - 1], list[|list| - 1];
      assert ChildOf(child, parent);
      var before, earlier := VisitAll(s, policy, parent, front, enclosing), IssuedBelow(policy, parent, front, enclosing);
      var here := if Choose(policy, child, enclosing).Selected? then Issued(policy, child, enclosing) else [child.handle];
      var known, all := handles + AsSet(earlier), handles + AsSet(earlier + here);
      VisitAllSkips(s, policy, parent, front, enclosing, handles);
      MoreJustify(before.rows, policy.guards, known, all);
      ManagedIsAllowed(policy, child, enclosing);
      match Choose(policy, child, enclosing) {
        case Outside => OtherJustified(before, IgnoredRow(child.handle, OUTSIDE_PATTERN), policy.guards, all);
        case Managed => DisposeJustified(before, IgnoredRow(child.handle, MANAGED), policy.guards, all, child.handle);
        case Selected =>
          VisitSkips(before, policy, child, enclosing, all);
          assert all + AsSet(here[1..]) == all;
      }
    }
  }

  lemma ManagedIsAllowed(policy: Policy, child: Entry, enclosing: seq<Handle>)
    ensures Choose(policy, child, enclosing).Managed? ==> CanIgnore(policy.guards, child.handle)
  {
  }

  // ---------- later calls on the result ----------

  /** attachCandidate for one record. */
  function AttachOne(s: Scan, candidate: string, id: string): Scan {
    var i := IndexOf(s.rows, id);
    if i.None? || s.rows[i.value].kind.Ignored? || candidate in s.rows[i.value].candidates then s
    else
      var row := s.rows[i.value];
      s.(rows := s.rows[i.value := row.(candidates := Sort(row.candidates + [candidate]))])
  }

  function Attach(s: Scan, candidate: string, records: seq<Handle>): Scan {
    if records == [] then s
    else AttachOne(Attach(s, candidate, records[..|records| - 1]), candidate, records[|records| - 1].id)
  }

  /** Rows agree in everything but the candidates, which differ by this one where it was attached. */
  predicate AttachedAt(before: Row, after: Row, candidate: string, attached: bool) {
    && after.id == before.id && after.kind == before.kind
    && (forall x :: x in after.candidates ==> x in before.candidates || (x == candidate && attached))
    && (forall x :: x in before.candidates ==> x in after.candidates)
    && (attached ==> candidate in after.candidates)
  }

  lemma AttachOneEffect(s: Scan, candidate: string, id: string)
    requires Accounted(s)
    ensures var t := AttachOne(s, candidate, id);
            && t.(rows := s.rows) == s && |t.rows| == |s.rows| && Ids(t.rows) == Ids(s.rows)
            && forall i :: 0 <= i < |s.rows| ==>
                 AttachedAt(s.rows[i], t.rows[i], candidate, s.rows[i].id == id && !s.rows[i].kind.Ignored?)
  {
    hide Sort;
    var t, at := AttachOne(s, candidate, id), IndexOf(s.rows, id);
    if at.Some? {
      SortMembers(s.rows[at.value].candidates + [candidate]);
      forall i | 0 <= i < |s.rows| && i != at.value ensures s.rows[i].id != id {
        assert Ids(s.rows)[i] != Ids(s.rows)[at.value];
      }
    }
  }

  /** attachCandidate reaches exactly the rows of the given records that are not ignored, and keeps all rows. */
  lemma {:induction false} AttachEffect(s: Scan, candidate: string, records: seq<Handle>)
    requires Accounted(s)
    ensures var t := Attach(s, candidate, records);
            && t.(rows := s.rows) == s && |t.rows| == |s.rows| && Ids(t.rows) == Ids(s.rows) && Accounted(t)
            && forall i :: 0 <= i < |s.rows| ==>
                 AttachedAt(s.rows[i], t.rows[i], candidate, s.rows[i].id in HandleIds(records) && !s.rows[i].kind.Ignored?)
    decreases |records|
  {
    hide AttachOne;
    if records != [] {
      var front, last := records[..|records| - 1], records[|records| - 1];
      var before := Attach(s, candidate, front);
      AttachEffect(s, candidate, front);
      AttachOneEffect(before, candidate, last.id);
      assert records == front + [last];
      assert HandleIds(records) == HandleIds(front) + {last.id};
    }
  }

  predicate CandidatesSorted(s: Scan) {
    forall row :: row in s.rows ==> StrictlySorted(row.candidates)
  }

  lemma AttachOneSorted(s: Scan, candidate: string, id: string)
    requires CandidatesSorted(s)
    ensures CandidatesSorted(AttachOne(s, candidate, id))
  {
    hide Sort;
    var at := IndexOf(s.rows, id);
    if at.Some? && candidate !in s.rows[at.value].candidates {
      var earlier := s.rows[at.value].candidates;
      assert s.rows[at.value] in s.rows;
      StrictlySortedNoRepeats(earlier);
      SortDistinct(earlier + [candidate], set x | x in earlier + [candidate]);
    }
  }

  /** Candidates of a row stay sorted and distinct. */
  lemma {:induction false} AttachSorted(s: Scan, candidate: string, records: seq<Handle>)
    requires CandidatesSorted(s)
    ensures CandidatesSorted(Attach(s, candidate, records))
    decreases |records|
  {
    if records != [] {
      AttachSorted(s, candidate, records[..|records| - 1]);
      AttachOneSorted(Attach(s, candidate, records[..|records| - 1]), candidate, records[|records| - 1].id);
    }
  }

  /** ignoreRecord and ignoreHandle keep one row per handle, now ignored. */
  lemma IgnoreAccounts(s: Scan, h: Handle, reason: string)
    requires Accounted(s)
    ensures var t := Ignore(s, h, reason);
            && Accounted(t) && RowIds(t) == RowIds(s) + {h.id} && t.hadIgnored
            && exists row :: row in t.rows && row.id == h.id && row.kind.Ignored?
  {
    var i := IndexOf(s.rows, h.id);
    var t := Ignore(s, h, reason);
    DisposeAccounts(s, IgnoredRow(h, reason));
    if i.Some? {
      assert s.rows[i.value] in s.rows;
      assert t.rows[i.value] in t.rows;
    } else {
      assert t.rows[|s.rows|] in t.rows;
    }
  }

  function FindFile(files: seq<FileRecord>, path: string): Option<FileRecord> {
    if files == [] then None
    else if files[0].handle.relativePath == path then Some(files[0])
    else FindFile(files[1..], path)
  }

  /** readReferencedFile; `resolved` is what resolveEntry answers, `None` a failure. */
  function ReadReferenced(s: Scan, path: string, resolved: Option<Entry>): Scan {
    if FindFile(s.files, path).Some? then s
    else
      match resolved
      case None => s
      case Some(DirectoryEntry(h, _)) => Ignore(s, h, REFERENCED_NOT_FILE)
      case Some(FileEntry(h, observed)) => ReadFile(s, h, observed)
  }

  /** A referenced entry that resolves gets its one row. */
  lemma ReferencedAccounts(s: Scan, path: string, resolved: Option<Entry>)
    requires Accounted(s)
    ensures var t := ReadReferenced(s, path, resolved);
            && Accounted(t)
            && RowIds(t) == RowIds(s) + if FindFile(s.files, path).None? && resolved.Some? then {resolved.value.handle.id} else {}
  {
    hide Dispose, Accounted, RowIds;
    if FindFile(s.files, path).None? && resolved.Some? {
      var h := resolved.value.handle;
      match resolved.value {
        case DirectoryEntry(_, _) => IgnoreAccounts(s, h, REFERENCED_NOT_FILE);
        case FileEntry(_, None) => DisposeAccounts(s, IgnoredRow(h, FILE_UNREADABLE));
        case FileEntry(_, Some(id)) =>
          var read := s.(files := s.files + [FileRecord(h, id)], observed := s.observed + [id]);
          SameRowsAccount(s, read);
          DisposeAccounts(read, Row(h.id, Parsed, []));
      }
    }
  }

  // ---------- the whole read ----------

  datatype ReadPolicy = ReportOnly | UserSelectedRootOnly | Unrestricted

  datatype Mechanism = FixedFile | ManifestDeclared | DirectoryEntries | RecursiveEntries | UnknownMechanism

  datatype Capability = Capability(supported: bool, readPolicy: ReadPolicy, mechanism: Mechanism)

  datatype RootKind = FileRoot | DirectoryRoot

  /** callableRootKind; `None` when the mechanism may not be called. */
  function CallableRootKind(c: Capability, userSelectedRoot: bool): Option<RootKind> {
    if !c.supported || c.readPolicy.ReportOnly? || (c.readPolicy.UserSelectedRootOnly? && !userSelectedRoot) then None
    else
      match c.mechanism
      case FixedFile => Some(FileRoot)
      case ManifestDeclared => Some(FileRoot)
      case DirectoryEntries => Some(DirectoryRoot)
      case RecursiveEntries => Some(DirectoryRoot)
      case UnknownMechanism => None
  }

  function KindOf(e: Entry): RootKind {
    if e.FileEntry? then FileRoot else DirectoryRoot
  }

  function WrongRoot(expected: RootKind): string {
    if expected.FileRoot? then "source_root_not_file" else "source_root_not_directory"
  }

  /** traverseSourceRead; `resolved` is what resolveRootEntry answers, `None` a failure. */
  function Traverse(c: Capability, userSelectedRoot: bool, policy: Policy, resolved: Option<Entry>): Scan {
    match CallableRootKind(c, userSelectedRoot)
    case None => NOTHING.(hadIgnored := true)
    case Some(expected) =>
      if resolved.None? then NOTHING
      else if KindOf(resolved.value) != expected then Dispose(NOTHING, IgnoredRow(resolved.value.handle, WrongRoot(expected)))
      else Visit(NOTHING, policy, resolved.value, [])
  }

  /** The handles issued during the whole read. */
  function IssuedIn(c: Capability, userSelectedRoot: bool, policy: Policy, resolved: Option<Entry>): seq<Handle> {
    var expected := CallableRootKind(c, userSelectedRoot);
    if expected.None? || resolved.None? then []
    else if KindOf(resolved.value) != expected.value then [resolved.value.handle]
    else Issued(policy, resolved.value, [])
  }

  /** The handles issued by listings: all but that of the source root. */
  function Listed(c: Capability, userSelectedRoot: bool, policy: Policy, resolved: Option<Entry>): set<Handle> {
    var handles := IssuedIn(c, userSelectedRoot, policy, resolved);
    if handles == [] then {} else AsSet(handles[1..])
  }

  /** Every handle issued has exactly one row, whatever fails, and rows skipped as managed are allowed by the guards. */
  lemma TraverseAccounts(c: Capability, userSelectedRoot: bool, policy: Policy, resolved: Option<Entry>)
    ensures var s := Traverse(c, userSelectedRoot, policy, resolved);
            && Accounted(s) && RowIds(s) == HandleIds(IssuedIn(c, userSelectedRoot, policy, resolved))
            && SkipsJustified(s.rows, policy.guards, Listed(c, userSelectedRoot, policy, resolved))
  {
    hide Visit, Dispose, Issued, CanIgnore, SkipsJustified;
    NothingAccounts(policy.guards);
    var expected := CallableRootKind(c, userSelectedRoot);
    if expected.Some? && resolved.Some? {
      var e := resolved.value;
      if KindOf(e) != expected.value {
        WrongRootIsNotManaged(expected.value);
        DisposeAccounts(NOTHING, IgnoredRow(e.handle, WrongRoot(expected.value)));
        OtherJustified(NOTHING, IgnoredRow(e.handle, WrongRoot(expected.value)), policy.guards, {});
        assert AsSet([e.handle][1..]) == {};
      } else {
        VisitAccounts(NOTHING, policy, e, []);
        VisitSkips(NOTHING, policy, e, [], {});
        assert {} + AsSet(Issued(policy, e, [])[1..]) == AsSet(Issued(policy, e, [])[1..]);
      }
    }
  }

  /**
   No path in flight is skipped: with decoded guards, and listings that name what they list,
   every row skipped as managed stands for a listed entry none of whose paths is in flight.
   */
  lemma NothingInFlightIsSkipped(c: Capability, userSelectedRoot: bool, policy: Policy, resolved: Option<Entry>)
    requires Decoded(policy.guards)
    requires forall h :: h in Listed(c, userSelectedRoot, policy, resolved) ==> h.relativePath != ""
    ensures forall row :: row in Traverse(c, userSelectedRoot, policy, resolved).rows && row.kind == Ignored(MANAGED) ==>
              exists h :: h in Listed(c, userSelectedRoot, policy, resolved) && h.id == row.id && AwayFromUse(policy.guards, h)
  {
    hide Traverse, Listed, CanIgnore, AwayFromUse;
    TraverseAccounts(c, userSelectedRoot, policy, resolved);
    forall row | row in Traverse(c, userSelectedRoot, policy, resolved).rows && row.kind == Ignored(MANAGED)
      ensures exists h :: h in Listed(c, userSelectedRoot, policy, resolved) && h.id == row.id && AwayFromUse(policy.guards, h)
    {
      var h :| h in Listed(c, userSelectedRoot, policy, resolved) && h.id == row.id && CanIgnore(policy.guards, h);
      SkippedIsNotInFlight(policy.guards, h);
    }
  }

  lemma NothingAccounts(guards: seq<Guard>)
    ensures Accounted(NOTHING) && RowIds(NOTHING) == {} && SkipsJustified([], guards, {})
  {
  }

  lemma WrongRootIsNotManaged(expected: RootKind)
    ensures WrongRoot(expected) != MANAGED
  {
    assert MANAGED[0] == 'o' && WrongRoot(expected)[0] == 's';
  }
}
