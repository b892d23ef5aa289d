/**
 Grammar of the restricted artifact manifest (requireRestrictedArtifactManifest in
 restricted-artifact-package.ts). The manifest is a parsed record with exactly its own keys;
 `bytes` is any integer that JSON can carry.
 */
module ArtifactManifest {
  import opened Common
  import opened Text

  const MAXIMUM_EXPANDED_BYTES := 256 * 1024 * 1024
  const MAXIMUM_FILE_BYTES := 128 * 1024 * 1024
  const NODE := "node"
  const RUNTIME := "restricted-wsl.cjs"

  datatype File = File(relativePath: string, bytes: int, sha256: string, executable: bool)

  datatype Manifest = Manifest(schemaVersion: int, platform: string, architecture: string, nodeVersion: string,
                               nodeModulesVersion: string, files: seq<File>)

  datatype ManifestError = InvalidTarget | InvalidPath | InvalidDigest | InvalidBounds | LacksRuntime

  predicate ThreeNumbers(s: string) {
    |Split(s, '.')| == 3 && forall p :: p in Split(s, '.') ==> Digits(p)
  }

  predicate PathCharacter(c: char) {
    'A' <= c <= 'Z' || 'a' <= c <= 'z' || Digit(c) || c == '_' || c == '.' || c == '/' || c == '-'
  }

  /** requireRelativePath. */
  predicate CanonicalPath(p: string) {
    && 1 <= |p| <= 100
    && (forall i :: 0 <= i < |p| ==> PathCharacter(p[i]))
    && (forall part :: part in Split(p, '/') ==> part != "" && part != "." && part != "..")
  }

  /** requireHash. */
  predicate Digest(s: string) {
    |s| == 64 && forall i :: 0 <= i < 64 ==> 'a' <= s[i] <= 'f' || Digit(s[i])
  }

  predicate ValidTarget(m: Manifest) {
    && m.schemaVersion == 1
    && m.platform == "linux"
    && (m.architecture == "x64" || m.architecture == "arm64")
    && ThreeNumbers(m.nodeVersion)
    && Digits(m.nodeModulesVersion) && m.nodeModulesVersion[0] != '0'
    && 2 <= |m.files| <= 128
  }

  predicate ValidFile(f: File) {
    CanonicalPath(f.relativePath) && Digest(f.sha256) && 0 <= f.bytes <= MAXIMUM_FILE_BYTES
  }

  predicate DistinctPaths(files: seq<File>) {
    forall i, j :: 0 <= i < j < |files| ==> files[i].relativePath != files[j].relativePath
  }

  predicate ValidFiles(files: seq<File>) {
    (forall f :: f in files ==> ValidFile(f)) && DistinctPaths(files)
  }

  function TotalBytes(files: seq<File>): int {
    if files == [] then 0 else TotalBytes(files[..|files| - 1]) + files[|files| - 1].bytes
  }

  predicate Named(files: seq<File>, path: string) {
    exists f :: f in files && f.relativePath == path
  }

  predicate HasRuntime(files: seq<File>) {
    && (exists f :: f in files && f.relativePath == NODE && f.executable)
    && Named(files, RUNTIME)
  }

  predicate ValidManifest(m: Manifest) {
    ValidTarget(m) && ValidFiles(m.files) && TotalBytes(m.files) <= MAXIMUM_EXPANDED_BYTES && HasRuntime(m.files)
  }

  function Find(files: seq<File>, path: string): Option<File> {
    if files == [] then None else if files[0].relativePath == path then Some(files[0]) else Find(files[1..], path)
  }

  lemma {:induction false} FindsTheFile(files: seq<File>, path: string)
    requires DistinctPaths(files)
    ensures Find(files, path).Some? <==> exists f :: f in files && f.relativePath == path
    ensures Find(files, path).Some? ==> Find(files, path).value in files && Find(files, path).value.relativePath == path
    ensures forall f :: f in files && f.relativePath == path ==> Find(files, path) == Some(f)
  {
    if files != [] {
      FindsTheFile(files[1..], path);
      assert forall f :: f in files <==> f == files[0] || f in files[1..];
      forall f | f in files[1..] ensures f.relativePath != files[0].relativePath {
        var i :| 0 <= i < |files[1..]| && files[1..][i] == f;
        assert files[0].relativePath != files[i + 1].relativePath;
      }
    }
  }

  predicate SeenUpTo(files: seq<File>, seen: set<string>, n: nat)
    requires n <= |files|
  {
    && (forall j :: 0 <= j < n ==> files[j].relativePath in seen)
    && (forall p :: p in seen ==> exists j :: 0 <= j < n && files[j].relativePath == p)
  }

  lemma NothingSeenYet(files: seq<File>)
    ensures SeenUpTo(files, {}, 0) && DistinctPaths(files[..0])
  {
  }

  /** A path seen before is a path given twice. */
  lemma SeenIsRepeated(files: seq<File>, seen: set<string>, i: nat)
    requires i < |files| && SeenUpTo(files, seen, i)
    ensures files[i].relativePath in seen ==> !DistinctPaths(files)
  {
  }

  lemma SeenDecides(files: seq<File>, seen: set<string>, i: nat)
    requires i < |files| && SeenUpTo(files, seen, i)
    ensures files[i].relativePath in seen <==> exists j :: 0 <= j < i && files[j].relativePath == files[i].relativePath
  {
  }

  lemma SeenOneMore(files: seq<File>, seen: set<string>, i: nat)
    requires i < |files| && SeenUpTo(files, seen, i) && DistinctPaths(files[..i]) && files[i].relativePath !in seen
    ensures SeenUpTo(files, seen + {files[i].relativePath}, i + 1) && DistinctPaths(files[..i + 1])
  {
  }

  lemma SeenIsNamed(files: seq<File>, seen: set<string>, path: string)
    requires SeenUpTo(files, seen, |files|)
    ensures path in seen <==> Named(files, path)
  {
    if path in seen {
      var j :| 0 <= j < |files| && files[j].relativePath == path;
      assert files[j] in files;
    }
  }

  lemma RuntimeDecided(files: seq<File>, seen: set<string>)
    requires DistinctPaths(files) && SeenUpTo(files, seen, |files|)
    ensures HasRuntime(files)
            <==> NODE in seen && RUNTIME in seen && Find(files, NODE).Some? && Find(files, NODE).value.executable
  {
    hide Find, DistinctPaths, SeenUpTo;
    FindsTheFile(files, NODE);
    SeenIsNamed(files, seen, NODE);
    SeenIsNamed(files, seen, RUNTIME);
  }

  /** What is wrong with a file of the list, its path before its digest before the rest. */
  function FileError(files: seq<File>, k: nat): Option<ManifestError>
    requires k < |files|
  {
    if !CanonicalPath(files[k].relativePath) then Some(InvalidPath)
    else if !Digest(files[k].sha256) then Some(InvalidDigest)
    else if !(0 <= files[k].bytes <= MAXIMUM_FILE_BYTES)
            || (exists j :: 0 <= j < k && files[j].relativePath == files[k].relativePath)
      then Some(InvalidBounds)
    else None
  }

  predicate FirstBadFile(files: seq<File>, k: nat) {
    k < |files| && FileError(files, k).Some? && forall j :: 0 <= j < k ==> FileError(files, j).None?
  }

  /** No file after a bad one can be the first bad one. */
  lemma FirstBadFileIs(files: seq<File>, i: nat)
    requires i < |files| && FileError(files, i).Some? && forall j :: 0 <= j < i ==> FileError(files, j).None?
    ensures forall k: nat :: FirstBadFile(files, k) ==> k == i
  {
    hide FileError;
  }

  /** requireRestrictedArtifactManifest. */
  method RequireManifest(m: Manifest) returns (r: Option<ManifestError>)
    ensures r.None? <==> ValidManifest(m)
    ensures r == Some(InvalidTarget) <==> !ValidTarget(m)
    ensures ValidTarget(m) ==> forall k: nat :: FirstBadFile(m.files, k) ==> r == FileError(m.files, k)
    ensures r == Some(LacksRuntime) <==> ValidTarget(m) && ValidFiles(m.files) && !ValidManifest(m)
  {
    hide CanonicalPath, Digest, ValidTarget, HasRuntime, Find, SeenUpTo, DistinctPaths;
    NothingSeenYet(m.files);
    if !ValidTarget(m) {
      return Some(InvalidTarget);
    }
    var seen: set<string>, bytes, i := {}, 0, 0;
    while i < |m.files|
      invariant 0 <= i <= |m.files|
      invariant SeenUpTo(m.files, seen, i)
      invariant forall j :: 0 <= j < i ==> ValidFile(m.files[j]) && FileError(m.files, j).None?
      invariant DistinctPaths(m.files[..i])
      invariant bytes == TotalBytes(m.files[..i])
    {
      var file := m.files[i];
      assert m.files[..i + 1][..i] == m.files[..i];
      assert file in m.files;
      if !CanonicalPath(file.relativePath) {
        assert !ValidFile(file);
        FirstBadFileIs(m.files, i);
        return Some(InvalidPath);
      }
      if !Digest(file.sha256) {
        FirstBadFileIs(m.files, i);
        return Some(InvalidDigest);
      }
      SeenIsRepeated(m.files, seen, i);
      SeenDecides(m.files, seen, i);
      if file.relativePath in seen || file.bytes < 0 || file.bytes > MAXIMUM_FILE_BYTES {
        FirstBadFileIs(m.files, i);
        return Some(InvalidBounds);
      }
      SeenOneMore(m.files, seen, i);
      seen := seen + {file.relativePath};
      bytes := bytes + file.bytes;
      i := i + 1;
    }
    assert m.files[..i] == m.files;
    var node := Find(m.files, NODE);
    RuntimeDecided(m.files, seen);
    if bytes > MAXIMUM_EXPANDED_BYTES || NODE !in seen || RUNTIME !in seen || !(node.Some? && node.value.executable) {
      return Some(LacksRuntime);
    }
    return None;
  }
}
