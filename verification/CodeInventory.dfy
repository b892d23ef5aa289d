/**
 The check of an unpacked code package against its manifest (verifyRestrictedCodeInventory in
 restricted-code-inventory.ts). Paths are sequences of segments, the empty one the root. The
 tree does not change while it is checked; SHA-256 is a parameter.
 */
module CodeInventory {
  import opened Common
  import opened Text
  import opened ArtifactManifest

  type Path = seq<string>
  type Hash = seq<byte> -> string

  datatype Node = FileNode(bytes: seq<byte>, executable: bool) | Directory(children: map<string, Node>) | Special

  datatype InventoryError = UnreadableDirectory | UnexpectedEntry | MetadataChanged | DigestMismatch | Incomplete

  const MAXIMUM_ENTRIES := 256

  function At(root: Node, p: Path): Option<Node> {
    if p == [] then Some(root)
    else
      match At(root, p[..|p| - 1])
      case Some(Directory(children)) => if p[|p| - 1] in children then Some(children[p[|p| - 1]]) else None
      case _ => None
  }

  predicate FileAt(root: Node, p: Path) { At(root, p).Some? && At(root, p).value.FileNode? }

  predicate DirectoryAt(root: Node, p: Path) { At(root, p).Some? && At(root, p).value.Directory? }

  /** Every entry a full recursive walk below `node` meets. */
  function Walk(node: Node): set<Path> {
    match node
    case Directory(children) =>
      (set k | k in children :: [k]) + (set k, p | k in children && p in Walk(children[k]) :: [k] + p)
    case _ => {}
  }

  lemma {:induction false} AtBelow(root: Node, k: string, p: Path)
    ensures At(root, [k] + p) ==
            if root.Directory? && k in root.children then At(root.children[k], p) else None
    decreases |p|
  {
    var whole := [k] + p;
    if p == [] {
      assert whole[..|whole| - 1] == [];
    } else {
      assert whole[..|whole| - 1] == [k] + p[..|p| - 1];
      AtBelow(root, k, p[..|p| - 1]);
    }
  }

  /** The walk meets exactly the paths that lead somewhere. */
  lemma {:induction false} WalkIsEverything(root: Node, p: Path)
    ensures p in Walk(root) <==> p != [] && At(root, p).Some?
    decreases |p|
  {
    if p != [] {
      var k, rest := p[0], p[1..];
      assert p == [k] + rest;
      AtBelow(root, k, rest);
      if root.Directory? && k in root.children {
        WalkIsEverything(root.children[k], rest);
        WalkStep(root, k, rest);
      } else if root.Directory? {
        WalkFirst(root, p);
      }
    } else {
      WalkNonempty(root);
    }
  }

  lemma WalkStep(root: Node, k: string, rest: Path)
    requires root.Directory? && k in root.children
    ensures [k] + rest in Walk(root) <==> rest == [] || rest in Walk(root.children[k])
  {
    var p := [k] + rest;
    assert p[0] == k && p[1..] == rest;
    if rest == [] { assert p == [k]; }
    if p in Walk(root) && rest != [] {
      assert p !in (set j | j in root.children :: [j]);
      var j, q :| j in root.children && q in Walk(root.children[j]) && p == [j] + q;
      assert p[0] == j && p[1..] == q;
    }
  }

  lemma WalkFirst(root: Node, p: Path)
    requires root.Directory?
    ensures p in Walk(root) ==> p != [] && p[0] in root.children
  {
  }

  lemma WalkNonempty(root: Node)
    ensures [] !in Walk(root)
  {
  }

  // ---------- what the manifest asks for ----------

  function PathOf(f: File): Path {
    Split(f.relativePath, '/')
  }

  predicate FilePath(files: seq<File>, p: Path) {
    exists f :: f in files && PathOf(f) == p
  }

  /** The root and every directory that encloses a file of the manifest. */
  predicate Ancestor(files: seq<File>, p: Path) {
    p == [] || exists f :: f in files && p < PathOf(f)
  }

  predicate ContentMatches(node: Node, f: File, sha256: Hash, requireExecutable: bool) {
    && node.FileNode?
    && |node.bytes| == f.bytes
    && (requireExecutable && f.executable ==> node.executable)
    && sha256(node.bytes) == f.sha256
  }

  predicate Verified(root: Node, files: seq<File>, p: Path, sha256: Hash, requireExecutable: bool) {
    FileAt(root, p) && exists f :: f in files && PathOf(f) == p && ContentMatches(At(root, p).value, f, sha256, requireExecutable)
  }

  predicate Small(root: Node, p: Path) {
    DirectoryAt(root, p) ==> |At(root, p).value.children| <= MAXIMUM_ENTRIES
  }

  /** A full walk finds the manifest's files, each as it is described, their directories, and nothing else. */
  ghost predicate ExactTree(root: Node, files: seq<File>, sha256: Hash, requireExecutable: bool) {
    && (forall p :: DirectoryAt(root, p) <==> Ancestor(files, p))
    && (forall p :: FileAt(root, p) <==> FilePath(files, p))
    && (forall p :: FileAt(root, p) ==> Verified(root, files, p, sha256, requireExecutable))
    && (forall p :: p in Walk(root) ==> FileAt(root, p) || DirectoryAt(root, p))
  }

  // ---------- one listed directory ----------

  predicate GoodChild(root: Node, files: seq<File>, d: Path, name: string, sha256: Hash, requireExecutable: bool) {
    || (DirectoryAt(root, d + [name]) && Ancestor(files, d + [name]))
    || Verified(root, files, d + [name], sha256, requireExecutable)
  }

  predicate GoodDirectory(root: Node, files: seq<File>, d: Path, sha256: Hash, requireExecutable: bool) {
    && DirectoryAt(root, d) && Small(root, d)
    && forall name :: name in At(root, d).value.children ==> GoodChild(root, files, d, name, sha256, requireExecutable)
  }

  lemma ChildAt(root: Node, d: Path, name: string)
    requires DirectoryAt(root, d)
    ensures At(root, d + [name]) ==
            if name in At(root, d).value.children then Some(At(root, d).value.children[name]) else None
  {
    assert (d + [name])[..|d + [name]| - 1] == d;
  }

  lemma NoChild(root: Node, d: Path, name: string)
    requires !DirectoryAt(root, d)
    ensures At(root, d + [name]).None?
  {
    assert (d + [name])[..|d + [name]| - 1] == d;
  }

  /** Listing only the ancestor directories is enough: whatever lies deeper would hang below an unlisted entry. */
  lemma {:induction false} NothingElse(root: Node, files: seq<File>, p: Path, sha256: Hash, requireExecutable: bool)
    requires forall d :: Ancestor(files, d) ==> GoodDirectory(root, files, d, sha256, requireExecutable)
    requires At(root, p).Some?
    ensures (DirectoryAt(root, p) && Ancestor(files, p)) || Verified(root, files, p, sha256, requireExecutable)
    decreases |p|
  {
    hide Ancestor, Verified;
    if p == [] {
      RootIsAncestor(files);
    } else {
      var d, name := p[..|p| - 1], p[|p| - 1];
      assert p == d + [name];
      if !DirectoryAt(root, d) {
        NoChild(root, d, name);
      }
      NothingElse(root, files, d, sha256, requireExecutable);
      ChildAt(root, d, name);
      if !Ancestor(files, d) { NotVerifiedDirectory(root, files, d, sha256, requireExecutable); }
      assert GoodDirectory(root, files, d, sha256, requireExecutable);
      assert GoodChild(root, files, d, name, sha256, requireExecutable);
    }
  }

  lemma RootIsAncestor(files: seq<File>)
    ensures Ancestor(files, [])
  {
  }

  lemma NotVerifiedDirectory(root: Node, files: seq<File>, p: Path, sha256: Hash, requireExecutable: bool)
    ensures !(DirectoryAt(root, p) && Verified(root, files, p, sha256, requireExecutable))
  {
  }

  lemma VerifiedIsFile(root: Node, files: seq<File>, p: Path, sha256: Hash, requireExecutable: bool)
    requires Verified(root, files, p, sha256, requireExecutable)
    ensures FileAt(root, p) && FilePath(files, p)
  {
  }

  /** The names that can stand directly below `d` in a tree that matches the manifest. */
  function NextSegments(files: seq<File>, d: Path): set<string> {
    if files == [] then {}
    else
      NextSegments(files[..|files| - 1], d) +
      var path := PathOf(files[|files| - 1]);
      if |path| > |d| then {path[|d|]} else {}
  }

  lemma {:induction false} NextSegmentsFew(files: seq<File>, d: Path)
    ensures |NextSegments(files, d)| <= |files|
  {
    if files != [] { NextSegmentsFew(files[..|files| - 1], d); }
  }

  lemma {:induction false} NextSegmentsHold(files: seq<File>, d: Path, f: File)
    requires f in files && |PathOf(f)| > |d|
    ensures PathOf(f)[|d|] in NextSegments(files, d)
    decreases |files|
  {
    hide PathOf;
    var front, last := files[..|files| - 1], files[|files| - 1];
    assert files == front + [last];
    if f != last { NextSegmentsHold(front, d, f); }
  }

  /** The limit on listed entries never turns away a tree that matches. */
  lemma ListingFits(root: Node, files: seq<File>, d: Path, sha256: Hash, requireExecutable: bool)
    requires ExactTree(root, files, sha256, requireExecutable) && |files| <= MAXIMUM_ENTRIES
    ensures Small(root, d)
  {
    hide At, PathOf, Verified, NextSegments, Walk;
    if DirectoryAt(root, d) {
      var names := At(root, d).value.children.Keys;
      forall name | name in names ensures name in NextSegments(files, d) {
        var p := d + [name];
        ChildAt(root, d, name);
        WalkIsEverything(root, p);
        var f :| f in files && p <= PathOf(f);
        assert PathOf(f)[|d|] == p[|d|] == name;
        NextSegmentsHold(files, d, f);
      }
      NextSegmentsFew(files, d);
      SubsetSize(names, NextSegments(files, d));
    }
  }

  lemma SubsetSize(a: set<string>, b: set<string>)
    requires a <= b
    ensures |a| <= |b|
  {
    assert b == a + (b - a);
  }

  /** All ancestors good and all files found: exactly then the full walk agrees. */
  lemma GoodIsExact(root: Node, files: seq<File>, sha256: Hash, requireExecutable: bool)
    requires |files| <= MAXIMUM_ENTRIES
    ensures ExactTree(root, files, sha256, requireExecutable)
            <==> (forall d :: Ancestor(files, d) ==> GoodDirectory(root, files, d, sha256, requireExecutable))
                 && (forall p :: FilePath(files, p) ==> FileAt(root, p))
  {
    hide Ancestor, Verified, FilePath, Walk, At;
    if ExactTree(root, files, sha256, requireExecutable) {
      forall d | Ancestor(files, d) ensures GoodDirectory(root, files, d, sha256, requireExecutable) {
        ListingFits(root, files, d, sha256, requireExecutable);
        forall name | name in At(root, d).value.children ensures GoodChild(root, files, d, name, sha256, requireExecutable) {
          ChildAt(root, d, name);
          WalkIsEverything(root, d + [name]);
        }
      }
    }
    if (forall d :: Ancestor(files, d) ==> GoodDirectory(root, files, d, sha256, requireExecutable))
       && (forall p :: FilePath(files, p) ==> FileAt(root, p))
    {
      forall p | At(root, p).Some?
        ensures (DirectoryAt(root, p) && Ancestor(files, p)) || (FileAt(root, p) && FilePath(files, p))
        ensures FileAt(root, p) ==> Verified(root, files, p, sha256, requireExecutable)
      {
        NothingElse(root, files, p, sha256, requireExecutable);
        if Verified(root, files, p, sha256, requireExecutable) {
          VerifiedIsFile(root, files, p, sha256, requireExecutable);
        }
      }
      forall p | p in Walk(root) ensures FileAt(root, p) || DirectoryAt(root, p) { WalkIsEverything(root, p); }
      forall p ensures DirectoryAt(root, p) <==> Ancestor(files, p) {}
      forall p ensures FileAt(root, p) <==> FilePath(files, p) {}
    }
  }

  // ---------- the check itself ----------

  function FindPath(files: seq<File>, p: Path): Option<File> {
    if files == [] then None else if PathOf(files[0]) == p then Some(files[0]) else FindPath(files[1..], p)
  }

  lemma SamePathOf(f: File, g: File)
    requires PathOf(f) == PathOf(g)
    ensures f.relativePath == g.relativePath
  {
    JoinSplit(f.relativePath, '/');
    JoinSplit(g.relativePath, '/');
  }

  lemma {:induction false} FindsPath(files: seq<File>, p: Path)
    ensures FindPath(files, p).None? <==> !FilePath(files, p)
    ensures FindPath(files, p).Some? ==> FindPath(files, p).value in files && PathOf(FindPath(files, p).value) == p
  {
    hide PathOf;
    if files != [] {
      FindsPath(files[1..], p);
      assert forall f :: f in files <==> f == files[0] || f in files[1..];
    }
  }

  lemma OnlyFileAtPath(files: seq<File>, f: File, g: File)
    requires DistinctPaths(files) && f in files && g in files && PathOf(f) == PathOf(g)
    ensures f == g
  {
    hide PathOf;
    SamePathOf(f, g);
  }

  /** Verification of a child needs only the one file of the manifest that has its path. */
  lemma VerifiedDecided(root: Node, files: seq<File>, p: Path, sha256: Hash, requireExecutable: bool)
    requires DistinctPaths(files)
    ensures Verified(root, files, p, sha256, requireExecutable)
            <==> FileAt(root, p) && FindPath(files, p).Some?
                 && ContentMatches(At(root, p).value, FindPath(files, p).value, sha256, requireExecutable)
  {
    hide PathOf, At, FindPath, ContentMatches, DistinctPaths;
    FindsPath(files, p);
    if Verified(root, files, p, sha256, requireExecutable) {
      var f :| f in files && PathOf(f) == p && ContentMatches(At(root, p).value, f, sha256, requireExecutable);
      OnlyFileAtPath(files, f, FindPath(files, p).value);
    }
  }

  function FilesIn(root: Node, d: Path): set<Path>
    requires DirectoryAt(root, d)
  {
    var children := At(root, d).value.children;
    set name | name in children && children[name].FileNode? :: d + [name]
  }

  predicate NoneIn(seen: set<Path>, d: Path) {
    forall p :: p in seen ==> p == [] || p[..|p| - 1] != d
  }

  /** The files among the first `j` listed names. */
  ghost predicate SeenNames(root: Node, d: Path, names: seq<string>, j: nat, before: set<Path>, now: set<Path>)
    requires j <= |names|
  {
    && (forall p :: p in now ==> p in before || exists m :: 0 <= m < j && p == d + [names[m]] && FileAt(root, p))
    && (forall p :: p in before ==> p in now)
    && (forall m :: 0 <= m < j && FileAt(root, d + [names[m]]) ==> d + [names[m]] in now)
  }

  lemma FreshName(root: Node, d: Path, names: seq<string>, j: nat, before: set<Path>, now: set<Path>)
    requires j < |names| && NoRepeats(names) && SeenNames(root, d, names, j, before, now) && NoneIn(before, d)
    ensures d + [names[j]] !in now
  {
    var p := d + [names[j]];
    assert p[..|p| - 1] == d && p[|p| - 1] == names[j];
    forall m | 0 <= m < j ensures p != d + [names[m]] { assert (d + [names[m]])[|p| - 1] == names[m]; }
  }

  lemma AllNamesSeen(root: Node, d: Path, names: seq<string>, before: set<Path>, now: set<Path>)
    requires DirectoryAt(root, d) && SeenNames(root, d, names, |names|, before, now)
    requires forall name :: name in names <==> name in At(root, d).value.children
    ensures now == before + FilesIn(root, d)
  {
    hide At;
    forall name ensures FileAt(root, d + [name]) <==>
                        name in At(root, d).value.children && At(root, d).value.children[name].FileNode?
    {
      ChildAt(root, d, name);
    }
    forall p | p in FilesIn(root, d) ensures p in now {
      var name :| name in At(root, d).value.children && At(root, d).value.children[name].FileNode? && p == d + [name];
      var m :| 0 <= m < |names| && names[m] == name;
    }
  }

  lemma SeenOneName(root: Node, d: Path, names: seq<string>, j: nat, before: set<Path>, now: set<Path>)
    requires DirectoryAt(root, d) && j < |names| && names[j] in At(root, d).value.children
    requires SeenNames(root, d, names, j, before, now)
    ensures At(root, d).value.children[names[j]].FileNode? ==> SeenNames(root, d, names, j + 1, before, now + {d + [names[j]]})
    ensures !At(root, d).value.children[names[j]].FileNode? ==> SeenNames(root, d, names, j + 1, before, now)
  {
    hide At;
    ChildAt(root, d, names[j]);
  }

  /** How the loop body decides one child. */
  lemma ChildDecided(root: Node, files: seq<File>, d: Path, name: string, sha256: Hash, requireExecutable: bool)
    requires DistinctPaths(files) && DirectoryAt(root, d) && name in At(root, d).value.children
    ensures var entry, expected := At(root, d).value.children[name], FindPath(files, d + [name]);
            GoodChild(root, files, d, name, sha256, requireExecutable)
            <==> if entry.Directory? then Ancestor(files, d + [name])
                 else expected.Some? && ContentMatches(entry, expected.value, sha256, requireExecutable)
  {
    hide At, FindPath, DistinctPaths, Verified, Ancestor;
    ChildAt(root, d, name);
    VerifiedDecided(root, files, d + [name], sha256, requireExecutable);
  }

  lemma GoodByNames(root: Node, files: seq<File>, d: Path, names: seq<string>, sha256: Hash, requireExecutable: bool)
    requires DirectoryAt(root, d) && |At(root, d).value.children| <= MAXIMUM_ENTRIES
    requires forall name :: name in names <==> name in At(root, d).value.children
    ensures GoodDirectory(root, files, d, sha256, requireExecutable)
            <==> forall m :: 0 <= m < |names| ==> GoodChild(root, files, d, names[m], sha256, requireExecutable)
  {
    hide At, GoodChild;
    if forall m :: 0 <= m < |names| ==> GoodChild(root, files, d, names[m], sha256, requireExecutable) {
      forall name | name in At(root, d).value.children ensures GoodChild(root, files, d, name, sha256, requireExecutable) {
        var m :| 0 <= m < |names| && names[m] == name;
      }
    }
  }

  lemma BadListing(root: Node, files: seq<File>, d: Path, sha256: Hash, requireExecutable: bool)
    requires !DirectoryAt(root, d) || |At(root, d).value.children| > MAXIMUM_ENTRIES
    ensures !GoodDirectory(root, files, d, sha256, requireExecutable)
    ensures Ancestor(files, d) ==> Explains(root, files, UnreadableDirectory, sha256, requireExecutable)
  {
    hide Ancestor, At;
    assert Unreadable(root, d);
  }

  lemma NothingSeenYet(root: Node, d: Path, names: seq<string>, before: set<Path>)
    ensures SeenNames(root, d, names, 0, before, before)
  {
  }

  /** One pass of the outer loop: the listing of one ancestor directory. */
  // ---------- what an error tells ----------

  /** The directory is not there, holds too much, or holds something that is neither a file nor a directory. */
  predicate Unreadable(root: Node, d: Path) {
    || !DirectoryAt(root, d) || |At(root, d).value.children| > MAXIMUM_ENTRIES
    || exists name :: name in At(root, d).value.children && At(root, d).value.children[name].Special?
  }

  /** Something that the manifest does not name, or names as the other kind. */
  predicate Unexpected(root: Node, files: seq<File>, p: Path) {
    || (FileAt(root, p) && !FilePath(files, p))
    || (DirectoryAt(root, p) && !Ancestor(files, p))
  }

  predicate WrongMetadata(root: Node, f: File, requireExecutable: bool) {
    && FileAt(root, PathOf(f))
    && (|At(root, PathOf(f)).value.bytes| != f.bytes
        || (requireExecutable && f.executable && !At(root, PathOf(f)).value.executable))
  }

  /** Of the right length and executable where it has to be, and yet not the content described. */
  predicate WrongContent(root: Node, f: File, sha256: Hash, requireExecutable: bool) {
    && FileAt(root, PathOf(f)) && !WrongMetadata(root, f, requireExecutable)
    && sha256(At(root, PathOf(f)).value.bytes) != f.sha256
  }

  ghost predicate Explains(root: Node, files: seq<File>, e: InventoryError, sha256: Hash, requireExecutable: bool) {
    match e
    case UnreadableDirectory => exists d :: Ancestor(files, d) && Unreadable(root, d)
    case UnexpectedEntry => exists p :: Unexpected(root, files, p)
    case MetadataChanged => exists f :: f in files && WrongMetadata(root, f, requireExecutable)
    case DigestMismatch => exists f :: f in files && WrongContent(root, f, sha256, requireExecutable)
    case Incomplete => exists f :: f in files && !FileAt(root, PathOf(f))
  }

  /** How the loop body answers a child that is not good. */
  function ChildError(entry: Node, expected: Option<File>, requireExecutable: bool): InventoryError {
    if !entry.FileNode? || expected.None? then UnexpectedEntry
    else if |entry.bytes| != expected.value.bytes || (requireExecutable && expected.value.executable && !entry.executable)
      then MetadataChanged
    else DigestMismatch
  }

  lemma ChildErrorExplains(root: Node, files: seq<File>, d: Path, name: string, sha256: Hash, requireExecutable: bool)
    requires DistinctPaths(files) && DirectoryAt(root, d) && name in At(root, d).value.children
    requires !At(root, d).value.children[name].Special?
    requires !GoodChild(root, files, d, name, sha256, requireExecutable)
    ensures Explains(root, files, ChildError(At(root, d).value.children[name], FindPath(files, d + [name]), requireExecutable),
                     sha256, requireExecutable)
  {
    hide At, FindPath, DistinctPaths, PathOf, FilePath, Ancestor, GoodChild;
    var p := d + [name];
    ChildAt(root, d, name);
    ChildDecided(root, files, d, name, sha256, requireExecutable);
    FindsPath(files, p);
    var expected := FindPath(files, p);
    if At(root, d).value.children[name].FileNode? && expected.Some? {
      assert expected.value in files;
      assert WrongMetadata(root, expected.value, requireExecutable)
             || WrongContent(root, expected.value, sha256, requireExecutable);
    } else {
      assert Unexpected(root, files, p);
    }
  }

  lemma IncompleteExplains(root: Node, files: seq<File>, sha256: Hash, requireExecutable: bool)
    requires |files| <= MAXIMUM_ENTRIES && !ExactTree(root, files, sha256, requireExecutable)
    requires forall d :: Ancestor(files, d) ==> GoodDirectory(root, files, d, sha256, requireExecutable)
    ensures Explains(root, files, Incomplete, sha256, requireExecutable)
  {
    hide ExactTree, GoodDirectory, At, PathOf, Ancestor;
    GoodIsExact(root, files, sha256, requireExecutable);
  }

  method CheckDirectory(root: Node, files: seq<File>, directories: set<Path>, d: Path, seen: set<Path>, sha256: Hash,
                        requireExecutable: bool)
    returns (r: Option<InventoryError>, now: set<Path>)
    requires DistinctPaths(files) && NoneIn(seen, d)
    requires forall p :: p in directories <==> Ancestor(files, p)
    ensures r.None? <==> GoodDirectory(root, files, d, sha256, requireExecutable)
    ensures r.None? ==> DirectoryAt(root, d) && now == seen + FilesIn(root, d)
    ensures r.Some? && Ancestor(files, d) ==> Explains(root, files, r.value, sha256, requireExecutable)
  {
    hide Explains, Unreadable, At, Ancestor, FindPath, DistinctPaths, NoneIn, SortedKeys, GoodDirectory, GoodChild,
         SeenNames, StrictlySorted, NoRepeats, FilesIn;
    now := seen;
    var listed := At(root, d);
    if listed.None? || !listed.value.Directory? || |listed.value.children| > MAXIMUM_ENTRIES {
      BadListing(root, files, d, sha256, requireExecutable);
      return Some(UnreadableDirectory), now;
    }
    var children := listed.value.children;
    if name :| name in children && children[name].Special? {
      SpecialIsBad(root, files, d, name, sha256, requireExecutable);
      return Some(UnreadableDirectory), now;
    }
    var names := SortSet(children.Keys);
    StrictlySortedNoRepeats(names);
    GoodByNames(root, files, d, names, sha256, requireExecutable);
    NothingSeenYet(root, d, names, seen);
    var j := 0;
    while j < |names|
      invariant 0 <= j <= |names|
      invariant forall m :: 0 <= m < j ==> GoodChild(root, files, d, names[m], sha256, requireExecutable)
      invariant SeenNames(root, d, names, j, seen, now)
    {
      var name := names[j];
      assert name in children;
      var relative, entry := d + [name], children[name];
      ChildDecided(root, files, d, name, sha256, requireExecutable);
      SeenOneName(root, d, names, j, seen, now);
      if entry.Directory? && relative in directories {
        j := j + 1;
        continue;
      }
      var expected := FindPath(files, relative);
      FreshName(root, d, names, j, seen, now);
      if !GoodChild(root, files, d, name, sha256, requireExecutable) {
        ChildErrorExplains(root, files, d, name, sha256, requireExecutable);
      }
      if !entry.FileNode? || expected.None? || relative in now {
        return Some(UnexpectedEntry), now;
      }
      if |entry.bytes| != expected.value.bytes || (requireExecutable && expected.value.executable && !entry.executable) {
        return Some(MetadataChanged), now;
      }
      if sha256(entry.bytes) != expected.value.sha256 {
        return Some(DigestMismatch), now;
      }
      now := now + {relative};
      j := j + 1;
    }
    AllNamesSeen(root, d, names, seen, now);
    return None, now;
  }

  lemma SpecialIsBad(root: Node, files: seq<File>, d: Path, name: string, sha256: Hash, requireExecutable: bool)
    requires DirectoryAt(root, d) && name in At(root, d).value.children && At(root, d).value.children[name].Special?
    ensures !GoodDirectory(root, files, d, sha256, requireExecutable)
    ensures Ancestor(files, d) ==> Explains(root, files, UnreadableDirectory, sha256, requireExecutable)
  {
    hide Ancestor, At;
    assert Unreadable(root, d);
    ChildAt(root, d, name);
    assert !GoodChild(root, files, d, name, sha256, requireExecutable);
  }

  predicate NoRepeatedPaths(order: seq<Path>) {
    forall i, j :: 0 <= i < j < |order| ==> order[i] != order[j]
  }

  /** The directories to list, in the order a JavaScript set keeps them: the root, then each file's ancestors. */
  method CollectDirectories(files: seq<File>) returns (order: seq<Path>)
    ensures forall p :: p in order <==> Ancestor(files, p)
    ensures NoRepeatedPaths(order)
  {
    hide PathOf;
    order := [[]];
    var i := 0;
    while i < |files|
      invariant 0 <= i <= |files|
      invariant forall p :: p in order <==> Ancestor(files[..i], p)
      invariant NoRepeatedPaths(order)
    {
      var path := PathOf(files[i]);
      PathNotEmpty(files[i]);
      var n := |path| - 1;
      while n > 0
        invariant 0 <= n < |path|
        invariant forall p :: p in order <==> Ancestor(files[..i], p) || exists m :: n < m < |path| && p == path[..m]
        invariant NoRepeatedPaths(order)
      {
        if path[..n] !in order {
          order := order + [path[..n]];
        }
        n := n - 1;
      }
      assert files[..i + 1] == files[..i] + [files[i]];
      forall p ensures p in order <==> Ancestor(files[..i + 1], p) {
        PrefixOf(p, path);
        AncestorOfMore(files[..i], files[i], p);
      }
      i := i + 1;
    }
    assert files[..i] == files;
  }

  lemma PathNotEmpty(f: File)
    ensures PathOf(f) != []
  {
  }

  lemma PrefixOf(p: Path, path: Path)
    ensures p != [] && p < path <==> exists m :: 0 < m < |path| && p == path[..m]
  {
    if p != [] && p < path { assert p == path[..|p|]; }
  }

  lemma AncestorOfMore(files: seq<File>, f: File, p: Path)
    ensures Ancestor(files + [f], p) <==> Ancestor(files, p) || p < PathOf(f)
  {
    hide PathOf;
    assert forall g :: g in files + [f] <==> g in files || g == f;
  }

  // ---------- files found against files expected ----------

  function FilePaths(files: seq<File>): set<Path> {
    set f | f in files :: PathOf(f)
  }

  lemma {:induction false} DistinctFilePaths(files: seq<File>)
    requires DistinctPaths(files)
    ensures |FilePaths(files)| == |files|
  {
    hide PathOf;
    if files != [] {
      var front, last := files[..|files| - 1], files[|files| - 1];
      assert files == front + [last];
      DistinctFilePaths(front);
      assert FilePaths(files) == FilePaths(front) + {PathOf(last)};
      if PathOf(last) in FilePaths(front) {
        var f :| f in front && PathOf(f) == PathOf(last);
        SamePathOf(f, last);
        assert false;
      }
    }
  }

  lemma SubsetOfSameSize(a: set<Path>, b: set<Path>)
    requires a <= b && |a| == |b|
    ensures a == b
  {
    assert |b - a| == |b| - |a|;
  }

  ghost predicate SeenIn(root: Node, files: seq<File>, order: seq<Path>, seen: set<Path>) {
    && (forall p :: p in seen ==> p != [] && p[..|p| - 1] in order && FileAt(root, p) && FilePath(files, p))
    && (forall p :: p != [] && p[..|p| - 1] in order && FileAt(root, p) ==> p in seen)
  }

  lemma SeenOneMore(root: Node, files: seq<File>, order: seq<Path>, d: Path, seen: set<Path>, sha256: Hash,
                    requireExecutable: bool)
    requires SeenIn(root, files, order, seen) && GoodDirectory(root, files, d, sha256, requireExecutable)
    ensures SeenIn(root, files, order + [d], seen + FilesIn(root, d))
  {
    hide At, FilePath, Ancestor, Verified;
    var now := seen + FilesIn(root, d);
    forall p | p in FilesIn(root, d)
      ensures p != [] && p[..|p| - 1] == d && FileAt(root, p) && FilePath(files, p)
    {
      var name :| name in At(root, d).value.children && At(root, d).value.children[name].FileNode? && p == d + [name];
      ChildAt(root, d, name);
      assert p[..|p| - 1] == d;
      assert GoodChild(root, files, d, name, sha256, requireExecutable);
      VerifiedIsFile(root, files, p, sha256, requireExecutable);
    }
    forall p | p != [] && p[..|p| - 1] in order + [d] && FileAt(root, p) ensures p in now {
      if p[..|p| - 1] == d {
        ChildAt(root, d, p[|p| - 1]);
        assert p == d + [p[|p| - 1]];
      }
    }
  }

  /** Every file below lies in a listed directory, so the count alone decides completeness. */
  lemma CompleteByCount(root: Node, files: seq<File>, order: seq<Path>, seen: set<Path>, sha256: Hash, requireExecutable: bool)
    requires DistinctPaths(files) && |files| <= MAXIMUM_ENTRIES && SeenIn(root, files, order, seen)
    requires forall p :: p in order <==> Ancestor(files, p)
    requires forall p :: p in order ==> GoodDirectory(root, files, p, sha256, requireExecutable)
    ensures |seen| == |files| <==> ExactTree(root, files, sha256, requireExecutable)
  {
    hide At, PathOf, Verified, GoodDirectory, ExactTree;
    GoodIsExact(root, files, sha256, requireExecutable);
    DistinctFilePaths(files);
    assert seen <= FilePaths(files);
    if |seen| == |files| {
      SubsetOfSameSize(seen, FilePaths(files));
      forall p | FilePath(files, p) ensures FileAt(root, p) { assert p in FilePaths(files); }
    }
    if forall p :: FilePath(files, p) ==> FileAt(root, p) {
      forall p | p in FilePaths(files) ensures p in seen {
        var f :| f in files && PathOf(f) == p;
        assert FilePath(files, p);
        PathNotEmpty(f);
        assert p[..|p| - 1] < p;
      }
      assert seen == FilePaths(files);
    }
  }

  lemma NoneListed(root: Node, files: seq<File>)
    ensures SeenIn(root, files, [], {})
  {
  }

  lemma NoneSeenIn(root: Node, files: seq<File>, order: seq<Path>, i: nat, seen: set<Path>)
    requires i < |order| && NoRepeatedPaths(order) && SeenIn(root, files, order[..i], seen)
    ensures NoneIn(seen, order[i])
  {
    hide FilePath, At;
    forall p | p in seen ensures p == [] || p[..|p| - 1] != order[i] {
      var k :| 0 <= k < i && order[k] == p[..|p| - 1];
    }
  }

  /** verifyRestrictedCodeInventory; the caller has checked the manifest first. */
  method VerifyRestrictedCodeInventory(root: Node, files: seq<File>, sha256: Hash, requireExecutable: bool)
    returns (r: Option<InventoryError>)
    requires ValidFiles(files) && |files| <= 128
    ensures r.None? <==> ExactTree(root, files, sha256, requireExecutable)
    ensures r.Some? ==> Explains(root, files, r.value, sha256, requireExecutable)
  {
    hide Explains, At, Ancestor, GoodDirectory, ExactTree, ValidFile, DistinctPaths, SeenIn, NoneIn, FilesIn;
    GoodIsExact(root, files, sha256, requireExecutable);
    var order := CollectDirectories(files);
    var directories := set p | p in order;
    var seen: set<Path>, i := {}, 0;
    NoneListed(root, files);
    while i < |order|
      invariant 0 <= i <= |order|
      invariant forall k :: 0 <= k < i ==> GoodDirectory(root, files, order[k], sha256, requireExecutable)
      invariant SeenIn(root, files, order[..i], seen)
    {
      NoneSeenIn(root, files, order, i, seen);
      assert order[..i + 1] == order[..i] + [order[i]];
      ghost var before := seen;
      r, seen := CheckDirectory(root, files, directories, order[i], seen, sha256, requireExecutable);
      if r.Some? {
        assert Ancestor(files, order[i]);
        return;
      }
      SeenOneMore(root, files, order[..i], order[i], before, sha256, requireExecutable);
      i := i + 1;
    }
    assert order[..i] == order;
    CompleteByCount(root, files, order, seen, sha256, requireExecutable);
    if |seen| != |files| {
      IncompleteExplains(root, files, sha256, requireExecutable);
      return Some(Incomplete);
    }
    return None;
  }
}
