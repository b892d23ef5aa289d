/**
 The archive check of the restricted artifact (validateRegularTar in
 restricted-artifact-package.ts): one regular-file entry per manifest file, in any order, then
 1024 zero bytes. SHA-256 is a parameter and stands for any function of the bytes.
 */
module ArtifactTar {
  import opened Common
  import opened Ustar
  import opened ArtifactManifest

  type Hash = seq<byte> -> string

  datatype TarError =
    | InvalidTrailer | IncompleteInventory | InvalidName | InvalidPath | UnexpectedEntry | InvalidHeader | ForbiddenLink
    | DifferentFile | TruncatedEntry | DigestOrPadding | NoTrailer

  const REGULAR_FILE: byte := 48
  const MAGIC := "ustar\0"
  const VERSION := "00"
  const TRAILER := 1024

  function Mode(f: File): nat {
    if f.executable then 448 else 384 // 0o700, 0o600
  }

  function Padding(length: nat): nat {
    (BLOCK - length % BLOCK) % BLOCK
  }

  function EntrySize(f: File): nat
    requires f.bytes >= 0
  {
    BLOCK + f.bytes + Padding(f.bytes)
  }

  lemma EntrySizeIsWholeBlocks(f: File)
    requires f.bytes >= 0
    ensures EntrySize(f) % BLOCK == 0 && BLOCK + f.bytes <= EntrySize(f) < 2 * BLOCK + f.bytes
  {
  }

  // ---------- what a header says ----------

  predicate TypedHeader(h: seq<byte>)
    requires |h| == BLOCK
  {
    && Octal(h[148..156]) == Some(Checksum(h))
    && h[156] == REGULAR_FILE
    && Masked(h[257..263]) == AsciiBytes(MAGIC)
    && Masked(h[263..265]) == AsciiBytes(VERSION)
  }

  predicate Unlinked(h: seq<byte>)
    requires |h| == BLOCK
  {
    AllZero(h[157..257]) && AllZero(h[345..])
  }

  predicate DescribesFile(h: seq<byte>, f: File)
    requires |h| == BLOCK
  {
    && Octal(h[124..136]).Some? && Octal(h[124..136]).value == f.bytes
    && Octal(h[100..108]) == Some(Mode(f))
    && Octal(h[108..116]) == Some(0)
    && Octal(h[116..124]) == Some(0)
  }

  predicate HeaderFor(h: seq<byte>, f: File) {
    |h| == BLOCK && NameIs(h[..100], f.relativePath) && TypedHeader(h) && Unlinked(h) && DescribesFile(h, f)
  }

  predicate ContentFor(entry: seq<byte>, f: File, sha256: Hash)
    requires f.bytes >= 0 && |entry| == EntrySize(f)
  {
    sha256(entry[BLOCK..BLOCK + f.bytes]) == f.sha256 && AllZero(entry[BLOCK + f.bytes..])
  }

  predicate EntryFor(entry: seq<byte>, f: File, sha256: Hash) {
    f.bytes >= 0 && |entry| == EntrySize(f) && HeaderFor(entry[..BLOCK], f) && ContentFor(entry, f, sha256)
  }

  predicate StartsWithEntry(a: seq<byte>, f: File, sha256: Hash) {
    f.bytes >= 0 && EntrySize(f) <= |a| && EntryFor(a[..EntrySize(f)], f, sha256)
  }

  // ---------- what an archive is ----------

  predicate Trailer(a: seq<byte>) {
    |a| == TRAILER && AllZero(a)
  }

  /** The archive holds exactly these files in this order. */
  predicate Holds(a: seq<byte>, order: seq<File>, sha256: Hash) {
    if order == [] then Trailer(a)
    else StartsWithEntry(a, order[0], sha256) && Holds(a[EntrySize(order[0])..], order[1..], sha256)
  }

  ghost predicate Archive(a: seq<byte>, files: seq<File>, sha256: Hash) {
    exists order :: multiset(order) == multiset(files) && Holds(a, order, sha256)
  }

  // ---------- reading one step of an archive ----------

  lemma HeaderIsNotZero(h: seq<byte>, f: File)
    requires HeaderFor(h, f) && f.relativePath != ""
    ensures !AllZero(h)
  {
    hide TypedHeader, Unlinked, DescribesFile;
    assert h[..100][0] == h[0];
  }

  lemma OrderMember(order: seq<File>, files: seq<File>, f: File)
    requires multiset(order) == multiset(files)
    ensures f in order <==> f in files
    ensures |order| == |files|
  {
    assert f in order <==> f in multiset(order);
    assert |order| == |multiset(order)| && |files| == |multiset(files)|;
  }

  lemma HoldsTrailer(a: seq<byte>, order: seq<File>, sha256: Hash)
    requires forall f :: f in order ==> f.relativePath != ""
    requires |a| >= BLOCK && AllZero(a[..BLOCK]) && Holds(a, order, sha256)
    ensures order == [] && Trailer(a)
  {
    hide HeaderFor, ContentFor;
    if order != [] {
      var f := order[0];
      assert f in order;
      assert a[..EntrySize(f)][..BLOCK] == a[..BLOCK];
      HeaderIsNotZero(a[..BLOCK], f);
      assert false;
    }
  }

  /** At a zero block the archive must end. */
  lemma AtZeroBlock(a: seq<byte>, files: seq<File>, sha256: Hash)
    requires forall f :: f in files ==> f.relativePath != ""
    requires |a| >= BLOCK && AllZero(a[..BLOCK])
    ensures Archive(a, files, sha256) <==> files == [] && Trailer(a)
  {
    hide Holds, Trailer;
    if Archive(a, files, sha256) {
      var order: seq<File> :| multiset(order) == multiset(files) && Holds(a, order, sha256);
      forall f: File | f in order ensures f.relativePath != "" { OrderMember(order, files, f); }
      HoldsTrailer(a, order, sha256);
      OrderLength(order, files);
    }
    if files == [] && Trailer(a) {
      HoldsNothing(a, sha256);
    }
  }

  lemma OrderLength(order: seq<File>, files: seq<File>)
    requires multiset(order) == multiset(files)
    ensures |order| == |files|
  {
    assert |order| == |multiset(order)| && |files| == |multiset(files)|;
  }

  lemma HoldsNothing(a: seq<byte>, sha256: Hash)
    ensures Holds(a, [], sha256) == Trailer(a)
  {
  }

  /** Elsewhere the archive must go on with an entry of one of its files. */
  lemma AtNonzeroBlock(a: seq<byte>, files: seq<File>, sha256: Hash)
    requires Archive(a, files, sha256)
    requires |a| < BLOCK || !AllZero(a[..BLOCK])
    ensures exists f :: f in files && StartsWithEntry(a, f, sha256)
  {
    hide StartsWithEntry;
    var order: seq<File> :| multiset(order) == multiset(files) && Holds(a, order, sha256);
    if order == [] {
      assert false;
    }
    OrderMember(order, files, order[0]);
  }

  lemma StartIsUnique(a: seq<byte>, f: File, g: File, sha256: Hash)
    requires StartsWithEntry(a, f, sha256) && StartsWithEntry(a, g, sha256)
    ensures f.relativePath == g.relativePath
  {
    hide TypedHeader, Unlinked, DescribesFile, ContentFor, NameIs;
    assert a[..EntrySize(f)][..BLOCK] == a[..BLOCK] == a[..EntrySize(g)][..BLOCK];
    NameUnique(a[..BLOCK][..100], f.relativePath, g.relativePath);
  }

  lemma SamePath(files: seq<File>, f: File, g: File)
    requires DistinctPaths(files) && f in files && g in files && f.relativePath == g.relativePath
    ensures f == g
  {
  }

  lemma TailOfOrder(order: seq<File>, files: seq<File>, rest: seq<File>, f: File)
    requires order != [] && order[0] == f
    requires multiset(order) == multiset(files) && multiset(rest) == multiset(files) - multiset{f}
    ensures multiset(order[1..]) == multiset(rest)
  {
    assert order == [f] + order[1..];
    assert multiset(order) == multiset{f} + multiset(order[1..]);
  }

  lemma OrderWithHead(order: seq<File>, files: seq<File>, rest: seq<File>, f: File)
    requires f in files && multiset(order) == multiset(rest) && multiset(rest) == multiset(files) - multiset{f}
    ensures multiset([f] + order) == multiset(files)
  {
    assert f in multiset(files);
  }

  /** After one entry the rest of the archive must hold the rest of the files. */
  lemma AfterEntry(a: seq<byte>, files: seq<File>, f: File, rest: seq<File>, sha256: Hash)
    requires DistinctPaths(files) && f in files && multiset(rest) == multiset(files) - multiset{f}
    requires f.relativePath != "" && StartsWithEntry(a, f, sha256)
    requires f.bytes >= 0 && EntrySize(f) <= |a|
    ensures Archive(a, files, sha256) <==> Archive(a[EntrySize(f)..], rest, sha256)
  {
    hide StartsWithEntry, DistinctPaths, EntrySize, Trailer;
    var after := a[EntrySize(f)..];
    if Archive(a, files, sha256) {
      var order: seq<File> :| multiset(order) == multiset(files) && Holds(a, order, sha256);
      StartIsNotTrailer(a, f, sha256);
      OrderMember(order, files, order[0]);
      StartIsUnique(a, f, order[0], sha256);
      SamePath(files, f, order[0]);
      TailOfOrder(order, files, rest, f);
      assert Holds(after, order[1..], sha256);
    }
    if Archive(after, rest, sha256) {
      var order: seq<File> :| multiset(order) == multiset(rest) && Holds(after, order, sha256);
      var all := [f] + order;
      assert all[1..] == order;
      OrderWithHead(order, files, rest, f);
      assert Holds(a, all, sha256);
    }
  }

  lemma StartIsNotTrailer(a: seq<byte>, f: File, sha256: Hash)
    requires StartsWithEntry(a, f, sha256) && f.relativePath != ""
    ensures f.bytes >= 0 && EntrySize(f) <= |a| && !Trailer(a)
  {
    hide HeaderFor, ContentFor;
    assert a[..EntrySize(f)][..BLOCK] == a[..BLOCK];
    HeaderIsNotZero(a[..BLOCK], f);
  }

  // ---------- the files still expected ----------

  function Remaining(files: seq<File>, seen: set<string>): seq<File> {
    if files == [] then []
    else (if files[0].relativePath in seen then [] else [files[0]]) + Remaining(files[1..], seen)
  }

  lemma {:induction false} RemainingMember(files: seq<File>, seen: set<string>, f: File)
    ensures f in Remaining(files, seen) <==> f in files && f.relativePath !in seen
  {
    if files != [] {
      RemainingMember(files[1..], seen, f);
      assert f in files <==> f == files[0] || f in files[1..];
    }
  }

  lemma {:induction false} RemainingUnchanged(files: seq<File>, seen: set<string>, path: string)
    requires forall g :: g in files ==> g.relativePath != path
    ensures Remaining(files, seen + {path}) == Remaining(files, seen)
  {
    if files != [] { RemainingUnchanged(files[1..], seen, path); }
  }

  lemma TailHasOtherPaths(files: seq<File>)
    requires DistinctPaths(files) && files != []
    ensures forall g :: g in files[1..] ==> g.relativePath != files[0].relativePath
    ensures DistinctPaths(files[1..])
  {
    forall g | g in files[1..] ensures g.relativePath != files[0].relativePath {
      var i :| 0 <= i < |files[1..]| && files[1..][i] == g;
      assert files[0].relativePath != files[i + 1].relativePath;
    }
  }

  function HeadOf(files: seq<File>, seen: set<string>): seq<File>
    requires files != []
  {
    if files[0].relativePath in seen then [] else [files[0]]
  }

  lemma RemainingSplit(files: seq<File>, seen: set<string>)
    requires files != []
    ensures Remaining(files, seen) == HeadOf(files, seen) + Remaining(files[1..], seen)
  {
  }

  lemma WithoutAfter(head: seq<File>, more: seq<File>, less: seq<File>, f: File)
    requires f in more && multiset(less) == multiset(more) - multiset{f}
    ensures multiset(head + less) == multiset(head + more) - multiset{f}
  {
    assert f in multiset(more);
  }

  lemma {:induction false} RemainingLess(files: seq<File>, seen: set<string>, f: File)
    requires DistinctPaths(files) && f in files && f.relativePath !in seen
    ensures multiset(Remaining(files, seen + {f.relativePath})) == multiset(Remaining(files, seen)) - multiset{f}
  {
    hide DistinctPaths, Remaining;
    var without := seen + {f.relativePath};
    TailHasOtherPaths(files);
    RemainingSplit(files, seen);
    RemainingSplit(files, without);
    if files[0] == f {
      RemainingUnchanged(files[1..], seen, f.relativePath);
      assert HeadOf(files, without) + Remaining(files[1..], seen) == Remaining(files[1..], seen);
    } else {
      assert f in files[1..];
      RemainingLess(files[1..], seen, f);
      RemainingMember(files[1..], seen, f);
      WithoutAfter(HeadOf(files, seen), Remaining(files[1..], seen), Remaining(files[1..], without), f);
    }
  }

  lemma {:induction false} RemainingDistinct(files: seq<File>, seen: set<string>)
    requires DistinctPaths(files)
    ensures DistinctPaths(Remaining(files, seen))
  {
    if files != [] {
      RemainingDistinct(files[1..], seen);
      var rest := Remaining(files[1..], seen);
      forall i | 0 <= i < |rest| ensures rest[i].relativePath != files[0].relativePath {
        RemainingMember(files[1..], seen, rest[i]);
        var j :| 0 <= j < |files[1..]| && files[1..][j] == rest[i];
        assert files[0].relativePath != files[j + 1].relativePath;
      }
    }
  }

  lemma NothingSeen(files: seq<File>)
    ensures Remaining(files, {}) == files
  {
  }

  // ---------- the check itself ----------

  /** The entry under the header `h` names `file` and differs from it in nothing. */
  method CheckHeader(h: seq<byte>, file: File) returns (r: Option<TarError>)
    requires |h| == BLOCK && NameIs(h[..100], file.relativePath)
    ensures r.None? <==> HeaderFor(h, file)
  {
    hide Octal, Checksum, Masked, AllZero, NameIs, Mode;
    if Octal(h[148..156]) != Some(Checksum(h)) || h[156] != REGULAR_FILE || Masked(h[257..263]) != AsciiBytes(MAGIC)
       || Masked(h[263..265]) != AsciiBytes(VERSION)
    {
      return Some(InvalidHeader);
    }
    if !AllZero(h[157..257]) || !AllZero(h[345..]) {
      return Some(ForbiddenLink);
    }
    var length := Octal(h[124..136]);
    if length.None? || length.value != file.bytes || Octal(h[100..108]) != Some(Mode(file))
       || Octal(h[108..116]) != Some(0) || Octal(h[116..124]) != Some(0)
    {
      return Some(DifferentFile);
    }
    return None;
  }

  lemma EntryDecided(a: seq<byte>, offset: nat, f: File, sha256: Hash)
    requires f.bytes >= 0 && offset + BLOCK <= |a|
    ensures var end := offset + BLOCK + f.bytes; var paddedEnd := end + Padding(f.bytes);
            StartsWithEntry(a[offset..], f, sha256)
            <==> HeaderFor(a[offset..offset + BLOCK], f) && paddedEnd <= |a|
                 && sha256(a[offset + BLOCK..end]) == f.sha256 && AllZero(a[end..paddedEnd])
  {
    hide HeaderFor, AllZero;
    var end := offset + BLOCK + f.bytes;
    var paddedEnd := end + Padding(f.bytes);
    if paddedEnd <= |a| {
      var entry := a[offset..][..EntrySize(f)];
      assert entry == a[offset..paddedEnd];
      assert entry[..BLOCK] == a[offset..offset + BLOCK];
      assert entry[BLOCK..BLOCK + f.bytes] == a[offset + BLOCK..end];
      assert entry[BLOCK + f.bytes..] == a[end..paddedEnd];
    }
  }

  /** Away from a zero block, only the file the header names can be the next one. */
  lemma OnlyNamedFile(a: seq<byte>, files: seq<File>, seen: set<string>, sha256: Hash)
    requires ValidFiles(files) && Archive(a, Remaining(files, seen), sha256)
    requires |a| < BLOCK || !AllZero(a[..BLOCK])
    ensures |a| >= BLOCK
    ensures var name := DecodeName(a[..BLOCK][..100]);
            && name.Some? && CanonicalPath(name.value) && name.value !in seen && Find(files, name.value).Some?
            && StartsWithEntry(a, Find(files, name.value).value, sha256)
  {
    hide Archive, TypedHeader, Unlinked, DescribesFile, ContentFor, DistinctPaths, DecodeName, NameIs, Find, CanonicalPath;
    AtNonzeroBlock(a, Remaining(files, seen), sha256);
    var f: File :| f in Remaining(files, seen) && StartsWithEntry(a, f, sha256);
    RemainingMember(files, seen, f);
    assert a[..EntrySize(f)][..BLOCK] == a[..BLOCK];
    DecodeFinds(a[..BLOCK][..100], f.relativePath);
    FindsTheFile(files, f.relativePath);
  }

  lemma AtBlock(archive: seq<byte>, offset: nat, files: seq<File>, seen: set<string>, sha256: Hash)
    requires ValidFiles(files) && offset <= |archive|
    ensures offset + BLOCK <= |archive| && AllZero(archive[offset..offset + BLOCK]) ==>
              (Archive(archive[offset..], Remaining(files, seen), sha256)
               <==> Remaining(files, seen) == [] && Trailer(archive[offset..]))
    ensures offset + BLOCK > |archive| ==> !Archive(archive[offset..], Remaining(files, seen), sha256)
    ensures offset + BLOCK <= |archive| && !AllZero(archive[offset..offset + BLOCK]) ==>
              var name := DecodeName(archive[offset..offset + BLOCK][..100]);
              Archive(archive[offset..], Remaining(files, seen), sha256) ==>
                && name.Some? && CanonicalPath(name.value) && name.value !in seen && Find(files, name.value).Some?
                && StartsWithEntry(archive[offset..], Find(files, name.value).value, sha256)
  {
    hide Archive, StartsWithEntry, DistinctPaths, DecodeName, Find, AllZero, Trailer, Remaining;
    var a := archive[offset..];
    forall f | f in Remaining(files, seen) ensures f.relativePath != "" { RemainingMember(files, seen, f); }
    if offset + BLOCK <= |archive| {
      assert a[..BLOCK] == archive[offset..offset + BLOCK];
      if AllZero(a[..BLOCK]) {
        AtZeroBlock(a, Remaining(files, seen), sha256);
      } else if Archive(a, Remaining(files, seen), sha256) {
        OnlyNamedFile(a, files, seen, sha256);
      }
    } else {
      if Archive(a, Remaining(files, seen), sha256) { OnlyNamedFile(a, files, seen, sha256); }
    }
  }

  /** What is left of the archive must hold what is left of the files, before and after one entry. */
  lemma Advance(archive: seq<byte>, offset: nat, files: seq<File>, seen: set<string>, f: File, sha256: Hash)
    requires ValidFiles(files) && offset <= |archive|
    requires f in files && f.relativePath !in seen && StartsWithEntry(archive[offset..], f, sha256)
    ensures f.bytes >= 0 && offset + EntrySize(f) <= |archive|
    ensures Archive(archive[offset..], Remaining(files, seen), sha256)
            <==> Archive(archive[offset + EntrySize(f)..], Remaining(files, seen + {f.relativePath}), sha256)
    ensures |Remaining(files, seen + {f.relativePath})| == |Remaining(files, seen)| - 1
  {
    hide Archive, StartsWithEntry, DistinctPaths, EntrySize, Remaining;
    var a, rest := archive[offset..], Remaining(files, seen + {f.relativePath});
    RemainingLess(files, seen, f);
    RemainingDistinct(files, seen);
    RemainingMember(files, seen, f);
    StartIsNotTrailer(a, f, sha256);
    AfterEntry(a, Remaining(files, seen), f, rest, sha256);
    assert a[EntrySize(f)..] == archive[offset + EntrySize(f)..];
    OrderWithHead(rest, Remaining(files, seen), rest, f);
    OrderLength([f] + rest, Remaining(files, seen));
  }

  /** validateRegularTar; the caller has checked the manifest first. */
  method ValidateRegularTar(archive: seq<byte>, expected: seq<File>, sha256: Hash) returns (r: Option<TarError>)
    requires ValidFiles(expected)
    ensures r.None? <==> Archive(archive, expected, sha256)
  {
    hide Archive, StartsWithEntry, HeaderFor, Remaining, Find, DistinctPaths, AllZero, DecodeName, NameIs, CanonicalPath;
    var seen: set<string>, offset := {}, 0;
    NothingSeen(expected);
    assert archive[0..] == archive;
    while offset + BLOCK <= |archive|
      invariant 0 <= offset <= |archive|
      invariant Archive(archive, expected, sha256) <==> Archive(archive[offset..], Remaining(expected, seen), sha256)
      invariant |seen| + |Remaining(expected, seen)| == |expected|
    {
      var header := archive[offset..offset + BLOCK];
      AtBlock(archive, offset, expected, seen, sha256);
      if AllZero(header) {
        if |archive| - offset != TRAILER || !AllZero(archive[offset..]) {
          return Some(InvalidTrailer);
        }
        if |seen| != |expected| {
          return Some(IncompleteInventory);
        }
        return None;
      }
      var decoded := DecodeName(header[..100]);
      if decoded.None? {
        return Some(InvalidName);
      }
      var name := decoded.value;
      if !CanonicalPath(name) {
        return Some(TarError.InvalidPath);
      }
      var found := Find(expected, name);
      FindsTheFile(expected, name);
      if found.None? || name in seen {
        return Some(UnexpectedEntry);
      }
      var file := found.value;
      EntryDecided(archive, offset, file, sha256);
      r := CheckHeader(header, file);
      if r.Some? {
        return;
      }
      var end := offset + BLOCK + file.bytes;
      var paddedEnd := end + Padding(file.bytes);
      if paddedEnd > |archive| {
        return Some(TruncatedEntry);
      }
      if sha256(archive[offset + BLOCK..end]) != file.sha256 || !AllZero(archive[end..paddedEnd]) {
        return Some(DigestOrPadding);
      }
      Advance(archive, offset, expected, seen, file, sha256);
      seen := seen + {name};
      offset := paddedEnd;
    }
    AtBlock(archive, offset, expected, seen, sha256);
    return Some(NoTrailer);
  }
}
