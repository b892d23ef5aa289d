/**
 The traversal as it runs (source-traversal.ts): disposition rows are objects held both by the
 result list and by a map from handle ids, so a candidate attached through the map shows in the list.
 */
module SourceScan {
  import opened Common
  import opened Text
  import opened ManagedEntry
  import opened SourceTraversal

  class Disposition {
    const id: string
    const kind: Kind
    var candidates: seq<string>

    constructor (id: string, kind: Kind)
      ensures this.id == id && this.kind == kind && candidates == []
    {
      this.id, this.kind, candidates := id, kind, [];
    }

    ghost function Value(): Row
      reads this
    {
      Row(id, kind, candidates)
    }
  }

  /** List and map hold the same objects, one per id. */
  ghost predicate Linked(list: seq<Disposition>, byHandle: map<string, Disposition>) {
    && (forall i :: 0 <= i < |list| ==> list[i].id in byHandle && byHandle[list[i].id] == list[i])
    && (forall id :: id in byHandle ==> byHandle[id] in list && byHandle[id].id == id)
    && (forall i, j :: 0 <= i < j < |list| ==> list[i].id != list[j].id)
  }

  lemma LinkedAppend(list: seq<Disposition>, byHandle: map<string, Disposition>, d: Disposition)
    requires Linked(list, byHandle) && d.id !in byHandle
    ensures Linked(list + [d], byHandle[d.id := d])
  {
  }

  lemma LinkedReplace(list: seq<Disposition>, byHandle: map<string, Disposition>, i: nat, d: Disposition)
    requires Linked(list, byHandle) && i < |list| && list[i].id == d.id
    ensures Linked(list[i := d], byHandle[d.id := d])
  {
    var next := list[i := d];
    forall id | id in byHandle && id != d.id ensures byHandle[id] in next {
      var j :| 0 <= j < |list| && list[j] == byHandle[id];
      assert next[j] == list[j];
    }
    assert next[i] == d;
  }

  class SourceScanResult {
    var dispositions: seq<Disposition>
    var dispositionByHandle: map<string, Disposition>
    var files: seq<FileRecord>
    var directories: seq<FileRecord>
    var observed: seq<string>
    var hadIgnored: bool

    ghost predicate Valid()
      reads this
    {
      Linked(dispositions, dispositionByHandle)
    }

    ghost function Rows(): (r: seq<Row>)
      reads this, dispositions
      ensures |r| == |dispositions| && forall i :: 0 <= i < |r| ==> r[i] == dispositions[i].Value()
    {
      seq(|dispositions|, i requires 0 <= i < |dispositions| reads this, dispositions => dispositions[i].Value())
    }

    ghost function State(): Scan
      reads this, dispositions
    {
      Scan(Rows(), files, directories, observed, hadIgnored)
    }

    constructor ()
      ensures Valid() && State() == NOTHING && dispositions == []
    {
      dispositions, dispositionByHandle := [], map[];
      files, directories, observed, hadIgnored := [], [], [], false;
    }

    /** The map finds exactly the row that the list holds under an id. */
    lemma Finds(id: string)
      requires Valid()
      ensures id in dispositionByHandle <==> IndexOf(Rows(), id).Some?
      ensures id in dispositionByHandle ==> dispositions[IndexOf(Rows(), id).value] == dispositionByHandle[id]
    {
      var i := IndexOf(Rows(), id);
      if i.Some? { assert dispositions[i.value].id == id; }
      if id in dispositionByHandle {
        var j :| 0 <= j < |dispositions| && dispositions[j] == dispositionByHandle[id];
        assert Rows()[j].id == id;
      }
    }

    /** `dispositions.indexOf(current)`. */
    method IndexOfObject(current: Disposition) returns (i: nat)
      requires current in dispositions
      ensures i < |dispositions| && dispositions[i] == current && current !in dispositions[..i]
    {
      i := 0;
      while dispositions[i] != current
        invariant i < |dispositions| && current !in dispositions[..i]
        decreases |dispositions| - i
      {
        i := i + 1;
      }
    }

    /** setDisposition. */
    method SetDisposition(id: string, kind: Kind)
      requires Valid()
      modifies this
      ensures Valid() && State() == Dispose(old(State()), Row(id, kind, []))
    {
      hide Linked, IndexOf;
      Finds(id);
      var disposition := new Disposition(id, kind);
      if id !in dispositionByHandle {
        LinkedAppend(dispositions, dispositionByHandle, disposition);
        dispositions := dispositions + [disposition];
      } else {
        var index := IndexOfObject(dispositionByHandle[id]);
        FoundAt(id, index);
        LinkedReplace(dispositions, dispositionByHandle, index, disposition);
        dispositions := dispositions[index := disposition];
      }
      dispositionByHandle := dispositionByHandle[id := disposition];
      if kind.Ignored? {
        hadIgnored := true;
      }
      assert Rows() == Dispose(old(State()), Row(id, kind, [])).rows;
    }

    lemma FoundAt(id: string, index: nat)
      requires Valid() && id in dispositionByHandle && index < |dispositions| && dispositions[index] == dispositionByHandle[id]
      ensures IndexOf(Rows(), id) == Some(index) && dispositions[index].id == id
    {
      Finds(id);
    }

    /** replaceWithIgnored. */
    method ReplaceWithIgnored(h: Handle, reason: string)
      requires Valid()
      modifies this
      ensures Valid() && State() == Ignore(old(State()), h, reason)
    {
      Finds(h.id);
      if h.id in dispositionByHandle && dispositionByHandle[h.id].kind.Ignored? {
        return;
      }
      SetDisposition(h.id, Ignored(reason));
    }

    /** readFile. */
    method Read(h: Handle, read: Option<string>)
      requires Valid()
      modifies this
      ensures Valid() && State() == ReadFile(old(State()), h, read)
    {
      if read.None? {
        SetDisposition(h.id, Ignored(FILE_UNREADABLE));
        return;
      }
      files := files + [FileRecord(h, read.value)];
      observed := observed + [read.value];
      assert Rows() == old(Rows());
      SetDisposition(h.id, Parsed);
    }

    /** visitDirectory, and readFile for a file. */
    method VisitEntry(policy: Policy, e: Entry, ancestors: seq<Handle>)
      requires Valid()
      modifies this
      ensures Valid() && State() == Visit(old(State()), policy, e, ancestors)
      decreases e
    {
      hide Dispose, Ordered, IndexOf, CanIgnore, Linked;
      if e.FileEntry? {
        Read(e.handle, e.observed);
        return;
      }
      if e.listing.None? {
        SetDisposition(e.handle.id, Ignored(DIRECTORY_UNREADABLE));
        return;
      }
      var listing := e.listing.value;
      directories := directories + [FileRecord(e.handle, listing.observed)];
      observed := observed + [listing.observed];
      assert Rows() == old(Rows());
      SetDisposition(e.handle.id, Traversed);
      ghost var entered := State();
      var enclosing := ancestors + FileHandles(listing.children);
      var children := Ordered(listing.children);
      var i := 0;
      while i < |children|
        invariant 0 <= i <= |children|
        invariant Valid()
        invariant forall child :: child in children[..i] ==> ChildOf(child, e)
        invariant State() == VisitAll(entered, policy, e, children[..i], enclosing)
      {
        var child := children[i];
        assert children[..i + 1][..i] == children[..i];
        assert child in listing.children;
        assert ChildOf(child, e);
        var selected :=
          if child.DirectoryEntry? then policy.enterDirectory(EntryPath(child)) else policy.readFile(EntryPath(child));
        if !selected {
          SetDisposition(child.handle.id, Ignored(OUTSIDE_PATTERN));
        } else if CanIgnore(policy.guards, child.handle) && policy.independent(child.handle, enclosing) {
          SetDisposition(child.handle.id, Ignored(MANAGED));
        } else {
          VisitEntry(policy, child, enclosing);
        }
        i := i + 1;
      }
      assert children[..i] == children;
    }

    /** One record of attachCandidate: the object found through the map is updated in place. */
    method AttachTo(id: string, candidate: string)
      requires Valid()
      modifies dispositions
      ensures Valid() && State() == AttachOne(old(State()), candidate, id)
    {
      hide Sort, IndexOf;
      Finds(id);
      if id in dispositionByHandle && !dispositionByHandle[id].kind.Ignored? {
        var disposition := dispositionByHandle[id];
        if candidate !in disposition.candidates {
          disposition.candidates := Sort(disposition.candidates + [candidate]);
        }
      }
      assert Rows() == AttachOne(old(State()), candidate, id).rows;
    }

    /** attachCandidate. */
    method AttachCandidate(candidate: string, records: seq<Handle>)
      requires Valid()
      modifies dispositions
      ensures Valid() && State() == Attach(old(State()), candidate, records)
    {
      hide AttachOne, Linked;
      var i := 0;
      while i < |records|
        invariant 0 <= i <= |records|
        invariant Valid() && State() == Attach(old(State()), candidate, records[..i])
      {
        assert records[..i + 1][..i] == records[..i];
        AttachTo(records[i].id, candidate);
        i := i + 1;
      }
      assert records[..i] == records;
    }

    /** readReferencedFile. */
    method ReadReferencedFile(path: string, resolved: Option<Entry>)
      requires Valid()
      modifies this
      ensures Valid() && State() == ReadReferenced(old(State()), path, resolved)
    {
      if FindFile(files, path).Some? {
        return;
      }
      if resolved.None? {
        return;
      }
      var e := resolved.value;
      if e.DirectoryEntry? {
        ReplaceWithIgnored(e.handle, REFERENCED_NOT_FILE);
        return;
      }
      Read(e.handle, e.observed);
    }
  }

  /** traverseSourceRead. */
  method TraverseSourceRead(c: Capability, userSelectedRoot: bool, policy: Policy, resolved: Option<Entry>)
    returns (result: SourceScanResult)
    ensures fresh(result) && result.Valid()
    ensures result.State() == Traverse(c, userSelectedRoot, policy, resolved)
  {
    hide Dispose, Visit, IndexOf;
    result := new SourceScanResult();
    var expected := CallableRootKind(c, userSelectedRoot);
    if expected.None? {
      result.hadIgnored := true;
      assert result.Rows() == [];
      return;
    }
    if resolved.None? {
      return;
    }
    var e := resolved.value;
    if KindOf(e) != expected.value {
      result.SetDisposition(e.handle.id, Ignored(WrongRoot(expected.value)));
      return;
    }
    result.VisitEntry(policy, e, []);
  }
}
