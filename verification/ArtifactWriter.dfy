/**
 A canonical ustar writer (IEEE Std 1003.1-2017, `pax` utility, "ustar Interchange Format") as the
 reference partner of the archive check, and what acceptance says about an archive's length.
 The writer leaves open what the check ignores: modification time, owner names, device numbers.
 */
module ArtifactWriter {
  import opened Common
  import opened Ustar
  import opened ArtifactManifest
  import opened ArtifactTar

  datatype Unchecked = Unchecked(mtime: seq<byte>, owner: seq<byte>)

  predicate Sized(x: Unchecked) {
    |x.mtime| == 12 && |x.owner| == 80
  }

  predicate Writable(f: File) {
    PlainText(f.relativePath) && |f.relativePath| <= 100 && 0 <= f.bytes < Power8(11)
  }

  // ---------- one header ----------

  function NumberField(v: nat, width: nat): (r: seq<byte>)
    ensures |r| == width + 1
  {
    OctalDigits(v, width) + [0]
  }

  function NameField(f: File): (r: seq<byte>)
    requires Writable(f)
    ensures |r| == 100
  {
    AsciiBytes(f.relativePath) + Zeros(100 - |f.relativePath|)
  }

  function Identity(f: File): (r: seq<byte>)
    requires Writable(f)
    ensures |r| == 124
  {
    NameField(f) + (NumberField(Mode(f), 7) + (NumberField(0, 7) + NumberField(0, 7)))
  }

  function Head(f: File, x: Unchecked): (r: seq<byte>)
    requires Writable(f) && Sized(x)
    ensures |r| == 148
  {
    Identity(f) + (NumberField(f.bytes, 11) + x.mtime)
  }

  function Tail(x: Unchecked): (r: seq<byte>)
    requires Sized(x)
    ensures |r| == 356
  {
    [REGULAR_FILE] + (Zeros(100) + (AsciiBytes(MAGIC) + (AsciiBytes(VERSION) + (x.owner + Zeros(167)))))
  }

  function Total(f: File, x: Unchecked): nat
    requires Writable(f) && Sized(x)
  {
    Sum(Head(f, x) + seq(8, i => SPACE) + Tail(x))
  }

  function ChecksumField(v: nat): (r: seq<byte>)
    ensures |r| == 8
  {
    OctalDigits(v, 6) + [0, SPACE]
  }

  function Header(f: File, x: Unchecked): (r: seq<byte>)
    requires Writable(f) && Sized(x)
    ensures |r| == BLOCK
  {
    Head(f, x) + ChecksumField(Total(f, x)) + Tail(x)
  }

  lemma Middle(a: seq<byte>, b: seq<byte>, c: seq<byte>, i: nat, j: nat)
    requires i == |a| && j == |a| + |b|
    ensures (a + (b + c))[i..j] == b && (a + (b + c))[j..] == c && (a + (b + c))[..i] == a
  {
  }

  /** A slice of the front part, or of the part after `|a|`, is a slice of the whole. */
  lemma SliceOfParts(a: seq<byte>, b: seq<byte>, c: seq<byte>, i: nat, j: nat)
    requires i <= j
    ensures j <= |a| ==> (a + b + c)[i..j] == a[i..j]
    ensures j <= |c| ==> (a + b + c)[|a| + |b| + i..|a| + |b| + j] == c[i..j]
    ensures (a + b + c)[|a|..|a| + |b|] == b
    ensures (a + b + c)[|a| + |b|..] == c
  {
  }

  lemma IdentityFields(f: File)
    requires Writable(f)
    ensures Identity(f)[..100] == NameField(f)
    ensures Identity(f)[100..108] == NumberField(Mode(f), 7)
    ensures Identity(f)[108..116] == NumberField(0, 7) == Identity(f)[116..124]
  {
    hide NumberField, NameField;
    var rest := NumberField(0, 7) + NumberField(0, 7);
    Middle(NameField(f), NumberField(Mode(f), 7), rest, 100, 108);
    assert Identity(f)[108..116] == Identity(f)[108..][..8] == rest[..8];
    assert Identity(f)[116..124] == Identity(f)[108..][8..16] == rest[8..16];
  }

  lemma HeadFields(f: File, x: Unchecked)
    requires Writable(f) && Sized(x)
    ensures Head(f, x)[..100] == NameField(f)
    ensures Head(f, x)[100..108] == NumberField(Mode(f), 7)
    ensures Head(f, x)[108..116] == NumberField(0, 7) == Head(f, x)[116..124]
    ensures Head(f, x)[124..136] == NumberField(f.bytes, 11)
  {
    hide NumberField, NameField, Identity;
    IdentityFields(f);
    Middle(Identity(f), NumberField(f.bytes, 11), x.mtime, 124, 136);
    SliceOfParts(Identity(f), NumberField(f.bytes, 11), x.mtime, 0, 100);
    SliceOfParts(Identity(f), NumberField(f.bytes, 11), x.mtime, 100, 108);
    SliceOfParts(Identity(f), NumberField(f.bytes, 11), x.mtime, 108, 116);
    SliceOfParts(Identity(f), NumberField(f.bytes, 11), x.mtime, 116, 124);
    assert Identity(f) + NumberField(f.bytes, 11) + x.mtime == Head(f, x);
  }

  lemma TailFields(x: Unchecked)
    requires Sized(x)
    ensures Tail(x)[0] == REGULAR_FILE && AllZero(Tail(x)[1..101]) && AllZero(Tail(x)[189..])
    ensures Tail(x)[101..107] == AsciiBytes(MAGIC) && Tail(x)[107..109] == AsciiBytes(VERSION)
  {
    var owners := x.owner + Zeros(167);
    var version := AsciiBytes(VERSION) + owners;
    var magic := AsciiBytes(MAGIC) + version;
    var links := Zeros(100) + magic;
    assert Tail(x)[1..] == links;
    assert links[..100] == Zeros(100) && links[100..] == magic;
    assert magic[..6] == AsciiBytes(MAGIC) && magic[6..] == version;
    assert version[..2] == AsciiBytes(VERSION) && version[2..] == owners;
    assert owners[80..] == Zeros(167);
    assert Tail(x)[1..101] == Tail(x)[1..][..100];
    assert Tail(x)[101..107] == Tail(x)[1..][100..][..6];
    assert Tail(x)[107..109] == Tail(x)[1..][100..][6..][..2];
    assert Tail(x)[189..] == Tail(x)[1..][100..][6..][2..][80..];
  }

  /** Where the header keeps each field. */
  lemma HeaderFields(f: File, x: Unchecked)
    requires Writable(f) && Sized(x)
    ensures var h := Header(f, x);
            && h[..148] == Head(f, x) && h[156..] == Tail(x) && h[148..156] == ChecksumField(Total(f, x))
            && (forall i, j :: 0 <= i <= j <= 148 ==> h[i..j] == Head(f, x)[i..j])
            && (forall i, j :: 0 <= i <= j <= 356 ==> h[156 + i..156 + j] == Tail(x)[i..j])
  {
    hide Head, Tail, ChecksumField, Total;
    var h := Header(f, x);
    forall i, j | 0 <= i <= j <= 148 ensures h[i..j] == Head(f, x)[i..j] {
      SliceOfParts(Head(f, x), ChecksumField(Total(f, x)), Tail(x), i, j);
    }
    forall i, j | 0 <= i <= j <= 356 ensures h[156 + i..156 + j] == Tail(x)[i..j] {
      SliceOfParts(Head(f, x), ChecksumField(Total(f, x)), Tail(x), i, j);
    }
    SliceOfParts(Head(f, x), ChecksumField(Total(f, x)), Tail(x), 0, 148);
  }

  lemma NumberReads(v: nat, width: nat)
    requires width > 0 && v < Power8(width)
    ensures Octal(NumberField(v, width)) == Some(v)
  {
    OctalRoundTrip(v, width, [0]);
  }

  lemma TotalFits(f: File, x: Unchecked)
    requires Writable(f) && Sized(x)
    ensures Total(f, x) < Power8(6)
  {
    hide Head, Tail;
    SumBounded(Head(f, x) + seq(8, i => SPACE) + Tail(x));
    assert Power8(6) == 8 * (8 * (8 * (8 * (8 * (8 * 1))))) by { SmallPowers(); }
  }

  lemma SmallPowers()
    ensures Power8(3) == 512 && Power8(6) == 262144
  {
    assert Power8(0) == 1 && Power8(1) == 8 && Power8(2) == 64 && Power8(3) == 512;
    assert Power8(4) == 4096 && Power8(5) == 32768 && Power8(6) == 262144;
  }

  lemma PowerGrows(n: nat)
    ensures Power8(n + 4) >= 4096 && Power8(n + 4) > 448
  {
    if n == 0 { SmallPowers(); } else { PowerGrows(n - 1); }
  }

  lemma ChecksumReads(f: File, x: Unchecked)
    requires Writable(f) && Sized(x)
    ensures Octal(Header(f, x)[148..156]) == Some(Checksum(Header(f, x)))
  {
    hide Header, Head, Tail, Octal, Total;
    HeaderFields(f, x);
    TotalFits(f, x);
    OctalRoundTrip(Total(f, x), 6, [0, SPACE]);
    ChecksumIsTotal(f, x);
  }

  lemma ChecksumIsTotal(f: File, x: Unchecked)
    requires Writable(f) && Sized(x)
    ensures Checksum(Header(f, x)) == Total(f, x)
  {
    hide Header, Head, Tail;
    HeaderFields(f, x);
    assert Header(f, x)[..148] + seq(8, i => SPACE) + Header(f, x)[156..] == Head(f, x) + seq(8, i => SPACE) + Tail(x);
  }

  lemma MaskedAscii(s: string)
    requires forall i :: 0 <= i < |s| ==> s[i] < 128 as char
    ensures Masked(AsciiBytes(s)) == AsciiBytes(s)
  {
  }

  lemma WrittenTyped(f: File, x: Unchecked)
    requires Writable(f) && Sized(x)
    ensures TypedHeader(Header(f, x)) && Unlinked(Header(f, x))
  {
    hide Head, Tail, ChecksumField, Octal, Header, AllZero, Masked, AsciiBytes, Checksum;
    var h := Header(f, x);
    ChecksumReads(f, x);
    HeaderFields(f, x);
    TailFields(x);
    MaskedAscii(MAGIC);
    MaskedAscii(VERSION);
    assert h[156] == h[156..][0];
    assert h[157..257] == h[156 + 1..156 + 101];
    assert h[257..263] == h[156 + 101..156 + 107];
    assert h[263..265] == h[156 + 107..156 + 109];
    assert h[345..] == h[156..][189..];
  }

  lemma WrittenDescribes(f: File, x: Unchecked)
    requires Writable(f) && Sized(x)
    ensures DescribesFile(Header(f, x), f) && NameIs(Header(f, x)[..100], f.relativePath)
  {
    hide Head, Tail, ChecksumField, Octal, Header, NumberField, Total;
    var h := Header(f, x);
    HeaderFields(f, x);
    HeadFields(f, x);
    PowerGrows(3);
    NumberReads(Mode(f), 7);
    NumberReads(0, 7);
    NumberReads(f.bytes, 11);
    assert h[..100] == h[0..100];
    NameWritten(f);
  }

  lemma NameWritten(f: File)
    requires Writable(f)
    ensures NameIs(NameField(f), f.relativePath)
  {
    assert NameField(f)[|f.relativePath|..] == Zeros(100 - |f.relativePath|);
  }

  // ---------- whole archives ----------

  function Entry(f: File, content: seq<byte>, x: Unchecked): seq<byte>
    requires Writable(f) && Sized(x)
  {
    Header(f, x) + (content + Zeros(Padding(|content|)))
  }

  type Contents = File -> seq<byte>
  type Extras = File -> Unchecked

  ghost predicate Matches(f: File, contents: Contents, extras: Extras, sha256: Hash) {
    Writable(f) && Sized(extras(f)) && |contents(f)| == f.bytes && sha256(contents(f)) == f.sha256
  }

  lemma EntryIsAccepted(f: File, contents: Contents, extras: Extras, sha256: Hash)
    requires Matches(f, contents, extras, sha256)
    ensures EntryFor(Entry(f, contents(f), extras(f)), f, sha256)
  {
    hide Header, TypedHeader, Unlinked, DescribesFile, NameIs;
    var content, x := contents(f), extras(f);
    var entry := Entry(f, content, x);
    WrittenTyped(f, x);
    WrittenDescribes(f, x);
    Middle(Header(f, x), content, Zeros(Padding(|content|)), BLOCK, BLOCK + f.bytes);
  }

  ghost function WriteArchive(order: seq<File>, contents: Contents, extras: Extras): seq<byte>
    requires forall f :: f in order ==> Writable(f) && Sized(extras(f))
  {
    if order == [] then Zeros(TRAILER)
    else Entry(order[0], contents(order[0]), extras(order[0])) + WriteArchive(order[1..], contents, extras)
  }

  lemma {:induction false} WrittenHolds(order: seq<File>, contents: Contents, extras: Extras, sha256: Hash)
    requires forall f :: f in order ==> Writable(f) && Sized(extras(f))
    requires forall f :: f in order ==> Matches(f, contents, extras, sha256)
    ensures Holds(WriteArchive(order, contents, extras), order, sha256)
  {
    hide Entry, EntryFor;
    if order != [] {
      var f := order[0];
      assert f in order;
      var entry, rest := Entry(f, contents(f), extras(f)), WriteArchive(order[1..], contents, extras);
      EntryIsAccepted(f, contents, extras, sha256);
      EntryLength(entry, f, sha256);
      WrittenHolds(order[1..], contents, extras, sha256);
      assert (entry + rest)[..EntrySize(f)] == entry && (entry + rest)[EntrySize(f)..] == rest;
    }
  }

  lemma EntryLength(entry: seq<byte>, f: File, sha256: Hash)
    requires EntryFor(entry, f, sha256)
    ensures f.bytes >= 0 && |entry| == EntrySize(f)
  {
  }

  /** What a canonical writer produces for the manifest's files, in any order, is accepted. */
  lemma WriterIsAccepted(files: seq<File>, order: seq<File>, contents: Contents, extras: Extras, sha256: Hash)
    requires multiset(order) == multiset(files)
    requires forall f :: f in files ==>
               ValidFile(f) && Sized(extras(f)) && |contents(f)| == f.bytes && sha256(contents(f)) == f.sha256
    ensures forall f :: f in order ==> Writable(f) && Sized(extras(f))
    ensures Archive(WriteArchive(order, contents, extras), files, sha256)
  {
    hide Writable, ValidFile;
    forall f | f in order ensures Matches(f, contents, extras, sha256) {
      OrderMember(order, files, f);
      ValidFileIsWritable(f);
    }
    WrittenHolds(order, contents, extras, sha256);
  }

  lemma ValidFileIsWritable(f: File)
    requires ValidFile(f)
    ensures Writable(f)
  {
    assert Power8(11) > MAXIMUM_FILE_BYTES by {
      SmallPowers();
      assert Power8(7) == 2097152 && Power8(8) == 16777216 && Power8(9) == 134217728;
      assert Power8(10) == 1073741824 && Power8(11) == 8589934592;
    }
  }

  // ---------- the length of an accepted archive ----------

  function ArchiveSize(files: seq<File>): nat
    requires forall f :: f in files ==> f.bytes >= 0
  {
    if files == [] then TRAILER else EntrySize(files[0]) + ArchiveSize(files[1..])
  }

  lemma {:induction false} HeldSize(a: seq<byte>, order: seq<File>, sha256: Hash)
    requires Holds(a, order, sha256)
    ensures (forall f :: f in order ==> f.bytes >= 0) && |a| == ArchiveSize(order)
  {
    hide EntryFor;
    if order != [] { HeldSize(a[EntrySize(order[0])..], order[1..], sha256); }
  }

  lemma {:induction false} SizeWithout(files: seq<File>, i: nat)
    requires i < |files| && forall f :: f in files ==> f.bytes >= 0
    ensures ArchiveSize(files) == EntrySize(files[i]) + ArchiveSize(files[..i] + files[i + 1..])
  {
    hide EntrySize;
    if i == 0 {
      assert files[..0] + files[1..] == files[1..];
    } else {
      SizeWithout(files[1..], i - 1);
      var less := files[..i] + files[i + 1..];
      assert less[1..] == files[1..][..i - 1] + files[1..][i..];
      assert files[1..][i - 1] == files[i];
    }
  }

  lemma WithoutOne(files: seq<File>, i: nat)
    requires i < |files|
    ensures multiset(files[..i] + files[i + 1..]) == multiset(files) - multiset{files[i]}
    ensures forall f :: f in files[..i] + files[i + 1..] ==> f in files
  {
    assert files == files[..i] + [files[i]] + files[i + 1..];
    assert multiset(files) == multiset(files[..i]) + multiset{files[i]} + multiset(files[i + 1..]);
  }

  lemma WithoutFirst(files: seq<File>)
    requires files != []
    ensures multiset(files[1..]) == multiset(files) - multiset{files[0]}
  {
    assert files == [files[0]] + files[1..];
  }

  lemma WithoutSame(a: seq<File>, b: seq<File>, i: nat)
    requires a != [] && i < |b| && b[i] == a[0] && multiset(a) == multiset(b)
    ensures multiset(a[1..]) == multiset(b[..i] + b[i + 1..])
  {
    WithoutFirst(a);
    WithoutOne(b, i);
  }

  lemma {:induction false} SizeIgnoresOrder(a: seq<File>, b: seq<File>)
    requires multiset(a) == multiset(b) && (forall f :: f in a ==> f.bytes >= 0) && (forall f :: f in b ==> f.bytes >= 0)
    ensures ArchiveSize(a) == ArchiveSize(b)
    decreases |a|
  {
    hide EntrySize, ArchiveSize;
    OrderLength(a, b);
    if a == [] {
      assert a == b;
    } else {
      OrderMember(a, b, a[0]);
      var i :| 0 <= i < |b| && b[i] == a[0];
      var less := b[..i] + b[i + 1..];
      assert a[..0] + a[1..] == a[1..];
      SizeWithout(a, 0);
      SizeWithout(b, i);
      WithoutSame(a, b, i);
      SizeIgnoresOrder(a[1..], less);
    }
  }

  /** An accepted archive has exactly the length its manifest determines. */
  lemma AcceptedSize(a: seq<byte>, files: seq<File>, sha256: Hash)
    requires Archive(a, files, sha256) && forall f :: f in files ==> f.bytes >= 0
    ensures |a| == ArchiveSize(files)
  {
    hide Holds;
    var order: seq<File> :| multiset(order) == multiset(files) && Holds(a, order, sha256);
    HeldSize(a, order, sha256);
    SizeIgnoresOrder(order, files);
  }
}
