/**
 What an accepted code package is, file by file (verifyRestrictedCodeInventory in
 restricted-code-inventory.ts).
 */
module InventoryMeaning {
  import opened Common
  import opened Text
  import opened ArtifactManifest
  import opened CodeInventory

  /** The file on disk is the one described: its length, its digest and, where it matters, its permission to run. */
  predicate AsDescribed(node: Node, f: File, sha256: Hash, requireExecutable: bool) {
    match node
    case FileNode(bytes, executable) =>
      |bytes| == f.bytes && sha256(bytes) == f.sha256 && (executable || !f.executable || !requireExecutable)
    case _ => false
  }

  lemma PathsDiffer(files: seq<File>, f: File, g: File)
    requires DistinctPaths(files) && f in files && g in files && PathOf(f) == PathOf(g)
    ensures f == g
  {
    hide Split, Join;
    JoinSplit(f.relativePath, '/');
    JoinSplit(g.relativePath, '/');
    var i :| 0 <= i < |files| && files[i] == f;
    var j :| 0 <= j < |files| && files[j] == g;
  }

  /** A path is verified exactly when it is that of a file of the manifest, and holds it as described. */
  lemma VerifiedIsExact(root: Node, files: seq<File>, f: File, sha256: Hash, requireExecutable: bool)
    requires DistinctPaths(files) && f in files
    ensures Verified(root, files, PathOf(f), sha256, requireExecutable) <==>
              At(root, PathOf(f)).Some? && AsDescribed(At(root, PathOf(f)).value, f, sha256, requireExecutable)
  {
    hide At, PathOf;
    forall g | g in files && PathOf(g) == PathOf(f) ensures g == f { PathsDiffer(files, g, f); }
  }

  /** The directories are those that enclose a file of the manifest, each file of the manifest is there as described,
      and there is nothing else. */
  ghost predicate Described(root: Node, files: seq<File>, sha256: Hash, requireExecutable: bool) {
    && (forall p :: DirectoryAt(root, p) <==> p == [] || exists f :: f in files && p < Split(f.relativePath, '/'))
    && (forall f :: f in files ==>
          var node := At(root, Split(f.relativePath, '/'));
          node.Some? && AsDescribed(node.value, f, sha256, requireExecutable))
    && (forall p :: At(root, p).Some? ==> DirectoryAt(root, p) || exists f :: f in files && Split(f.relativePath, '/') == p)
  }

  /** The tree that the check accepts is the one the manifest describes, file by file. */
  lemma TreeIsExact(root: Node, files: seq<File>, sha256: Hash, requireExecutable: bool)
    requires DistinctPaths(files)
    ensures ExactTree(root, files, sha256, requireExecutable) <==> Described(root, files, sha256, requireExecutable)
  {
    hide ExactTree, At, AsDescribed, DistinctPaths, Split;
    if ExactTree(root, files, sha256, requireExecutable) {
      ExactMeans(root, files, sha256, requireExecutable);
    }
    if Described(root, files, sha256, requireExecutable) {
      MeansExact(root, files, sha256, requireExecutable);
    }
  }

  lemma ExactMeans(root: Node, files: seq<File>, sha256: Hash, requireExecutable: bool)
    requires DistinctPaths(files) && ExactTree(root, files, sha256, requireExecutable)
    ensures Described(root, files, sha256, requireExecutable)
  {
    hide At, Walk, Verified, AsDescribed, DistinctPaths, Split;
    forall f | f in files
      ensures var node := At(root, Split(f.relativePath, '/'));
              node.Some? && AsDescribed(node.value, f, sha256, requireExecutable)
    {
      assert FilePath(files, PathOf(f));
      VerifiedIsExact(root, files, f, sha256, requireExecutable);
    }
    forall p | At(root, p).Some?
      ensures DirectoryAt(root, p) || exists f :: f in files && Split(f.relativePath, '/') == p
    {
      WalkIsEverything(root, p);
      assert p == [] ==> Ancestor(files, p);
      assert FileAt(root, p) ==> FilePath(files, p);
    }
    forall p ensures DirectoryAt(root, p) <==> p == [] || exists f :: f in files && p < Split(f.relativePath, '/') {
      assert DirectoryAt(root, p) <==> Ancestor(files, p);
    }
  }

  lemma MeansExact(root: Node, files: seq<File>, sha256: Hash, requireExecutable: bool)
    requires DistinctPaths(files) && Described(root, files, sha256, requireExecutable)
    ensures ExactTree(root, files, sha256, requireExecutable)
  {
    hide At, Walk, Verified, DistinctPaths, Split;
    forall p | FilePath(files, p)
      ensures FileAt(root, p) && Verified(root, files, p, sha256, requireExecutable)
    {
      var f :| f in files && PathOf(f) == p;
      VerifiedIsExact(root, files, f, sha256, requireExecutable);
    }
    forall p | FileAt(root, p) ensures FilePath(files, p) {
      assert At(root, p).Some? && !DirectoryAt(root, p);
    }
    forall p | p in Walk(root) ensures FileAt(root, p) || DirectoryAt(root, p) {
      WalkIsEverything(root, p);
      if !DirectoryAt(root, p) {
        var f :| f in files && Split(f.relativePath, '/') == p;
        assert FilePath(files, p);
      }
    }
    forall p ensures DirectoryAt(root, p) <==> Ancestor(files, p) {
    }
  }
}
