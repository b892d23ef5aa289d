/**
 What an accepted restricted artifact is, byte by byte and character by character
 (restricted-artifact-package.ts), without the field readers of the check.
 */
module ArchiveMeaning {
  import opened Common
  import opened Text
  import opened Ustar
  import opened ArtifactManifest
  import opened ArtifactTar
  import opened ArtifactWriter

  // ---------- numbers ----------

  /** With the high bits cleared the field is the number, printed in octal digits, and then NULs or spaces. */
  ghost predicate Prints(field: seq<byte>, v: nat) {
    exists width :: 0 < width <= |field| && v < Power8(width) && PrintsIn(field, v, width)
  }

  predicate PrintsIn(field: seq<byte>, v: nat, width: nat) {
    && width <= |field|
    && (forall i :: 0 <= i < width ==> '0' as int <= field[i] % 128 == OctalDigits(v, width)[i] <= '7' as int)
    && (forall i :: width <= i < |field| ==> field[i] % 128 == 0 || field[i] % 128 == ' ' as int)
  }

  lemma {:induction false} DigitsPrint(s: seq<byte>)
    requires forall i :: 0 <= i < |s| ==> OctalDigit(s[i])
    ensures DigitsValue(s) < Power8(|s|) && OctalDigits(DigitsValue(s), |s|) == s
  {
    if s != [] {
      var front, last := s[..|s| - 1], s[|s| - 1];
      DigitsPrint(front);
      assert OctalDigit(last);
      var v := DigitsValue(s);
      assert v == 8 * DigitsValue(front) + (last - ZERO_DIGIT);
      assert v / 8 == DigitsValue(front) && v % 8 == last - ZERO_DIGIT;
      assert s == front + [last];
    }
  }

  /** The number reader succeeds exactly on printed numbers, with that number. */
  lemma OctalIsExact(field: seq<byte>, v: nat)
    ensures Octal(field) == Some(v) <==> Prints(field, v)
  {
    hide DigitsValue, LeadingDigits, OctalDigits;
    var s := Masked(field);
    LeadingAreDigits(s);
    var n := LeadingDigits(s);
    if Octal(field) == Some(v) {
      DigitsPrint(s[..n]);
      assert OctalDigits(v, n) == s[..n];
      forall i | 0 <= i < n ensures '0' as int <= field[i] % 128 == OctalDigits(v, n)[i] <= '7' as int {
        assert s[i] == s[..n][i] && OctalDigit(s[i]);
      }
      forall i | n <= i < |field| ensures field[i] % 128 == 0 || field[i] % 128 == ' ' as int {
        assert s[i] == field[i] % 128;
      }
      assert PrintsIn(field, v, n);
    }
    if Prints(field, v) {
      var width :| 0 < width <= |field| && v < Power8(width) && PrintsIn(field, v, width);
      assert s == OctalDigits(v, width) + s[width..];
      OctalRoundTrip(v, width, s[width..]);
      MaskedTwice(field);
    }
  }

  lemma MaskedTwice(field: seq<byte>)
    ensures Octal(Masked(field)) == Octal(field)
  {
    assert Masked(Masked(field)) == Masked(field);
  }

  // ---------- one entry ----------

  /** The sum of the first `n` header bytes, with spaces in place of the checksum. */
  function SumAsSpaces(h: seq<byte>, n: nat): nat
    requires n <= |h|
  {
    if n == 0 then 0 else SumAsSpaces(h, n - 1) + if 148 <= n - 1 < 156 then 32 else h[n - 1]
  }

  lemma {:induction false} SumsAgree(h: seq<byte>, b: seq<byte>, n: nat)
    requires n <= |h| == |b| && forall i :: 0 <= i < |h| ==> b[i] == if 148 <= i < 156 then 32 else h[i]
    ensures Sum(b[..n]) == SumAsSpaces(h, n)
  {
    if n > 0 {
      SumsAgree(h, b, n - 1);
      assert b[..n][..n - 1] == b[..n - 1];
    }
  }

  predicate Spells(field: seq<byte>, text: string) {
    |field| == |text| && forall i :: 0 <= i < |text| ==> field[i] % 128 == text[i] as int
  }

  /** The header of a regular file with these attributes, permissions rwx or rw for the owner only. */
  ghost predicate HeaderSays(h: seq<byte>, f: File) {
    && |h| == 512
    && |f.relativePath| <= 100
    && (forall i :: 0 <= i < |f.relativePath| ==> '\0' < f.relativePath[i] && h[i] == f.relativePath[i] as int < 128)
    && (forall i :: |f.relativePath| <= i < 100 ==> h[i] == 0)
    && f.bytes >= 0
    && Prints(h[100..108], if f.executable then 7 * 8 * 8 else 6 * 8 * 8)
    && Prints(h[108..116], 0) && Prints(h[116..124], 0)
    && Prints(h[124..136], f.bytes)
    && Prints(h[148..156], SumAsSpaces(h, 512))
    && h[156] == '0' as int
    && (forall i :: 157 <= i < 257 ==> h[i] == 0)
    && Spells(h[257..265], "ustar\000")
    && (forall i :: 345 <= i < 512 ==> h[i] == 0)
  }

  lemma NameIsExact(h: seq<byte>, name: string)
    requires |h| == 512
    ensures NameIs(h[..100], name) <==>
              && |name| <= 100
              && (forall i :: 0 <= i < |name| ==> '\0' < name[i] && h[i] == name[i] as int < 128)
              && (forall i :: |name| <= i < 100 ==> h[i] == 0)
  {
    if |name| <= 100 {
      var rest := h[..100][|name|..];
      assert forall i :: |name| <= i < 100 ==> h[i] == rest[i - |name|];
      assert forall i :: 0 <= i < |rest| ==> rest[i] == h[i + |name|];
    }
  }

  lemma TypedIsExact(h: seq<byte>)
    requires |h| == 512
    ensures TypedHeader(h) <==>
              Prints(h[148..156], SumAsSpaces(h, 512)) && h[156] == '0' as int && Spells(h[257..265], "ustar\000")
    ensures Unlinked(h) <==> (forall i :: 157 <= i < 257 ==> h[i] == 0) && (forall i :: 345 <= i < 512 ==> h[i] == 0)
  {
    hide Octal, Prints;
    OctalIsExact(h[148..156], Checksum(h));
    var b := h[..148] + seq(8, i => SPACE) + h[156..];
    SumsAgree(h, b, 512);
    assert b[..512] == b;
    MagicIsExact(h);
    ZerosAt(h, 157, 257);
    ZerosAt(h, 345, 512);
    assert h[345..] == h[345..512];
  }

  lemma ZerosAt(h: seq<byte>, i: nat, j: nat)
    requires i <= j <= |h|
    ensures AllZero(h[i..j]) <==> forall k :: i <= k < j ==> h[k] == 0
  {
    assert forall k :: i <= k < j ==> h[k] == h[i..j][k - i];
  }

  lemma MagicIsExact(h: seq<byte>)
    requires |h| == 512
    ensures Spells(h[257..265], "ustar\000") <==>
              Masked(h[257..263]) == AsciiBytes(MAGIC) && Masked(h[263..265]) == AsciiBytes(VERSION)
  {
    var all, magic, version := h[257..265], h[257..263], h[263..265];
    assert forall i :: 0 <= i < 6 ==> magic[i] == all[i] && "ustar\000"[i] == MAGIC[i];
    assert forall i :: 0 <= i < 2 ==> version[i] == all[6 + i] && "ustar\000"[6 + i] == VERSION[i];
    if Masked(magic) == AsciiBytes(MAGIC) && Masked(version) == AsciiBytes(VERSION) {
      forall i | 0 <= i < 8 ensures all[i] % 128 == "ustar\000"[i] as int {
        if i < 6 {
          assert Masked(magic)[i] == AsciiBytes(MAGIC)[i];
        } else {
          assert Masked(version)[i - 6] == AsciiBytes(VERSION)[i - 6];
        }
      }
    }
    if Spells(all, "ustar\000") {
      forall i | 0 <= i < 6 ensures Masked(magic)[i] == AsciiBytes(MAGIC)[i] { assert all[i] % 128 == "ustar\000"[i] as int; }
      forall i | 0 <= i < 2 ensures Masked(version)[i] == AsciiBytes(VERSION)[i] {
        assert all[6 + i] % 128 == "ustar\000"[6 + i] as int;
      }
      assert Masked(magic) == AsciiBytes(MAGIC) && Masked(version) == AsciiBytes(VERSION);
    }
  }

  /** The check of a header accepts exactly the headers that say what the manifest says. */
  lemma HeaderIsExact(h: seq<byte>, f: File)
    requires f.bytes >= 0
    ensures HeaderFor(h, f) <==> HeaderSays(h, f)
  {
    hide Octal, Prints, TypedHeader, Unlinked, NameIs, Spells;
    if |h| == 512 {
      NameIsExact(h, f.relativePath);
      TypedIsExact(h);
      OctalIsExact(h[100..108], if f.executable then 7 * 8 * 8 else 6 * 8 * 8);
      OctalIsExact(h[108..116], 0);
      OctalIsExact(h[116..124], 0);
      OctalIsExact(h[124..136], f.bytes);
    }
  }

  /** An entry: its header, its content with the right digest, and zeros up to a whole number of blocks. */
  ghost predicate EntrySays(entry: seq<byte>, f: File, sha256: Hash) {
    && f.bytes >= 0
    && |entry| % 512 == 0 && 512 + f.bytes <= |entry| < 512 + f.bytes + 512
    && HeaderSays(entry[..512], f)
    && sha256(entry[512..512 + f.bytes]) == f.sha256
    && forall i :: 512 + f.bytes <= i < |entry| ==> entry[i] == 0
  }

  lemma EntryIsExact(entry: seq<byte>, f: File, sha256: Hash)
    ensures EntryFor(entry, f, sha256) <==> EntrySays(entry, f, sha256)
  {
    hide HeaderFor, HeaderSays;
    if f.bytes >= 0 {
      SizeIsExact(|entry|, f);
      if |entry| == EntrySize(f) {
        HeaderIsExact(entry[..512], f);
        ZerosAt(entry, 512 + f.bytes, |entry|);
        assert entry[512 + f.bytes..] == entry[512 + f.bytes..|entry|];
      }
    }
  }

  lemma SizeIsExact(n: nat, f: File)
    requires f.bytes >= 0
    ensures n == EntrySize(f) <==> n % 512 == 0 && 512 + f.bytes <= n < 512 + f.bytes + 512
  {
  }

  // ---------- the whole archive ----------

  function Joined(entries: seq<seq<byte>>): seq<byte> {
    if entries == [] then [] else entries[0] + Joined(entries[1..])
  }

  /** The archive is one entry for each of the files, in this order, end to end, and 1024 zero bytes. */
  ghost predicate LaidOut(a: seq<byte>, order: seq<File>, entries: seq<seq<byte>>, sha256: Hash) {
    && |entries| == |order|
    && (forall k :: 0 <= k < |order| ==> EntrySays(entries[k], order[k], sha256))
    && a == Joined(entries) + seq(1024, i => 0)
  }

  lemma TrailerIs(a: seq<byte>)
    ensures Trailer(a) <==> a == [] + seq(1024, i => 0)
  {
  }

  lemma {:induction false} HoldsIsLaidOut(a: seq<byte>, order: seq<File>, sha256: Hash) returns (entries: seq<seq<byte>>)
    requires Holds(a, order, sha256)
    ensures LaidOut(a, order, entries, sha256)
    decreases |order|
  {
    hide EntryFor, EntrySays, EntrySize, Trailer;
    if order == [] {
      TrailerIs(a);
      entries := [];
    } else {
      var size, f := EntrySize(order[0]), order[0];
      var rest := HoldsIsLaidOut(a[size..], order[1..], sha256);
      EntryIsExact(a[..size], f, sha256);
      entries := [a[..size]] + rest;
      assert entries[1..] == rest;
      assert a == a[..size] + a[size..];
      forall k | 0 <= k < |order| ensures EntrySays(entries[k], order[k], sha256) {
        if k > 0 { assert order[k] == order[1..][k - 1] && entries[k] == rest[k - 1]; }
      }
    }
  }

  lemma {:induction false} LaidOutHolds(a: seq<byte>, order: seq<File>, entries: seq<seq<byte>>, sha256: Hash)
    requires LaidOut(a, order, entries, sha256)
    ensures Holds(a, order, sha256)
    decreases |order|
  {
    hide EntryFor, EntrySays, EntrySize, Trailer;
    if order == [] {
      TrailerIs(a);
    } else {
      var f, first, rest := order[0], entries[0], Joined(entries[1..]) + seq(1024, i => 0);
      assert a == first + rest;
      EntryIsExact(first, f, sha256);
      EntryLength(first, f, sha256);
      assert a[..|first|] == first && a[|first|..] == rest;
      forall k | 0 <= k < |order[1..]| ensures EntrySays(entries[1..][k], order[1..][k], sha256) {
        assert entries[1..][k] == entries[k + 1] && order[1..][k] == order[k + 1];
      }
      LaidOutHolds(rest, order[1..], entries[1..], sha256);
    }
  }

  /** The archive check accepts exactly the archives that lay out the manifest's files, each once, end to end. */
  lemma ArchiveIsExact(a: seq<byte>, files: seq<File>, sha256: Hash)
    ensures Archive(a, files, sha256) <==>
              exists order, entries :: multiset(order) == multiset(files) && LaidOut(a, order, entries, sha256)
  {
    hide Holds, LaidOut;
    if Archive(a, files, sha256) {
      var order :| multiset(order) == multiset(files) && Holds(a, order, sha256);
      var entries := HoldsIsLaidOut(a, order, sha256);
    }
    forall order, entries | multiset(order) == multiset(files) && LaidOut(a, order, entries, sha256)
      ensures Archive(a, files, sha256)
    {
      LaidOutHolds(a, order, entries, sha256);
    }
  }

  // ---------- the manifest ----------

  const HEXADECIMAL := "0123456789abcdef"

  function Hex(b: seq<byte>): (s: string)
    ensures |s| == 2 * |b|
  {
    if b == [] then "" else [HEXADECIMAL[b[0] / 16], HEXADECIMAL[b[0] % 16]] + Hex(b[1..])
  }

  function HexValue(c: char): (n: nat)
    requires c in HEXADECIMAL
    ensures n < 16 && HEXADECIMAL[n] == c
  {
    var n :| 0 <= n < 16 && HEXADECIMAL[n] == c;
    n
  }

  lemma HexCharacter(c: char)
    ensures c in HEXADECIMAL <==> 'a' <= c <= 'f' || Digit(c)
  {
    if 'a' <= c <= 'f' { assert HEXADECIMAL[10 + (c as int - 'a' as int)] == c; }
    if Digit(c) { assert HEXADECIMAL[c as int - '0' as int] == c; }
  }

  lemma {:induction false} HexOfBytes(b: seq<byte>)
    ensures forall i :: 0 <= i < |Hex(b)| ==> Hex(b)[i] in HEXADECIMAL
  {
    if b != [] { HexOfBytes(b[1..]); }
  }

  lemma {:induction false} BytesOfHex(s: string) returns (b: seq<byte>)
    requires |s| % 2 == 0 && forall i :: 0 <= i < |s| ==> s[i] in HEXADECIMAL
    ensures Hex(b) == s
  {
    if s == "" {
      b := [];
    } else {
      var rest := BytesOfHex(s[2..]);
      var high, low := HexValue(s[0]), HexValue(s[1]);
      b := [16 * high + low] + rest;
      HexFirst(b[0], rest, high, low);
      assert s == [s[0], s[1]] + s[2..];
    }
  }

  lemma HexFirst(first: byte, rest: seq<byte>, high: nat, low: nat)
    requires high < 16 && low < 16 && first == 16 * high + low
    ensures Hex([first] + rest) == [HEXADECIMAL[high], HEXADECIMAL[low]] + Hex(rest)
  {
    assert first / 16 == high && first % 16 == low;
    assert ([first] + rest)[1..] == rest;
  }

  /** A digest is the lower-case hexadecimal of 32 bytes. */
  lemma DigestIsHex(s: string)
    ensures Digest(s) <==> exists b: seq<byte> :: |b| == 32 && Hex(b) == s
  {
    hide Hex;
    forall i | 0 <= i < |s| ensures s[i] in HEXADECIMAL <==> 'a' <= s[i] <= 'f' || Digit(s[i]) { HexCharacter(s[i]); }
    if Digest(s) {
      var b := BytesOfHex(s);
    }
    forall b: seq<byte> | |b| == 32 && Hex(b) == s ensures Digest(s) { HexOfBytes(b); }
  }

  /** Names of which none is empty or made to climb. */
  predicate Names(parts: seq<string>) {
    |parts| > 0 && forall k :: 0 <= k < |parts| ==> '/' !in parts[k] && parts[k] != "" && parts[k] != "." && parts[k] != ".."
  }

  lemma NamesJoined(p: string)
    ensures (forall part :: part in Split(p, '/') ==> part != "" && part != "." && part != "..") <==>
              exists parts: seq<string> :: Names(parts) && Join(parts, '/') == p
  {
    hide Split, Join;
    JoinSplit(p, '/');
    if forall part :: part in Split(p, '/') ==> part != "" && part != "." && part != ".." {
      var parts := Split(p, '/');
      forall k | 0 <= k < |parts| ensures '/' !in parts[k] && parts[k] != "" && parts[k] != "." && parts[k] != ".." {
        assert parts[k] in parts;
      }
      assert Names(parts);
    }
    forall parts: seq<string> | Names(parts) && Join(parts, '/') == p ensures Split(p, '/') == parts {
      SplitJoined(parts);
    }
  }

  /** A path is one to a hundred characters that need no quoting, and such names joined by slashes. */
  lemma CanonicalPathIs(p: string)
    ensures CanonicalPath(p) <==>
              && 1 <= |p| <= 100
              && (forall c :: c in p ==> 'A' <= c <= 'Z' || 'a' <= c <= 'z' || '0' <= c <= '9' || c in "_./-")
              && exists parts: seq<string> :: Names(parts) && Join(parts, '/') == p
  {
    hide Split, Join, PathCharacter;
    NamesJoined(p);
    PathCharacters(p);
    if CanonicalPath(p) {
      var parts: seq<string> :| Names(parts) && Join(parts, '/') == p;
    }
    if parts: seq<string> :| Names(parts) && Join(parts, '/') == p {
      assert forall part :: part in Split(p, '/') ==> part != "" && part != "." && part != "..";
    }
  }

  lemma PathCharacters(p: string)
    ensures (forall i :: 0 <= i < |p| ==> PathCharacter(p[i])) <==>
            (forall c :: c in p ==> 'A' <= c <= 'Z' || 'a' <= c <= 'z' || '0' <= c <= '9' || c in "_./-")
  {
    forall i | 0 <= i < |p|
      ensures p[i] in p
      ensures PathCharacter(p[i]) <==>
              'A' <= p[i] <= 'Z' || 'a' <= p[i] <= 'z' || '0' <= p[i] <= '9' || p[i] in "_./-"
    {
      FourMarks(p[i]);
    }
    forall c | c in p ensures exists i :: 0 <= i < |p| && p[i] == c {}
  }

  lemma FourMarks(c: char)
    ensures c in "_./-" <==> c == '_' || c == '.' || c == '/' || c == '-'
  {
    assert "_./-" == ['_', '.', '/', '-'];
  }

  lemma {:induction false} SplitJoined(parts: seq<string>)
    requires |parts| > 0 && forall k :: 0 <= k < |parts| ==> '/' !in parts[k]
    ensures Split(Join(parts, '/'), '/') == parts
  {
    if |parts| == 1 {
      SplitFirst(parts[0], "", '/');
    } else {
      SplitJoined(parts[1..]);
      SplitFirst(parts[0], Join(parts[1..], '/'), '/');
    }
  }

  /** The manifest check accepts exactly these manifests. */
  lemma ManifestIsExact(m: Manifest)
    ensures ValidManifest(m) <==>
              && m.schemaVersion == 1 && m.platform == "linux" && (m.architecture == "arm64" || m.architecture == "x64")
              && |Split(m.nodeVersion, '.')| == 3 && (forall p :: p in Split(m.nodeVersion, '.') ==> Digits(p))
              && Digits(m.nodeModulesVersion) && '1' <= m.nodeModulesVersion[0] <= '9'
              && 2 <= |m.files| <= 128
              && (forall f :: f in m.files ==>
                    CanonicalPath(f.relativePath) && Digest(f.sha256) && 0 <= f.bytes <= 128 * 1024 * 1024)
              && (forall j, k :: 0 <= j < k < |m.files| ==> m.files[j].relativePath != m.files[k].relativePath)
              && SumOfBytes(m.files) <= 256 * 1024 * 1024
              && (exists f :: f in m.files && f.relativePath == "node" && f.executable)
              && (exists f :: f in m.files && f.relativePath == "restricted-wsl.cjs")
  {
    hide CanonicalPath, Digest, TotalBytes, SumOfBytes;
    SumsMatch(m.files);
  }

  function SumOfBytes(files: seq<File>): int {
    if files == [] then 0 else files[0].bytes + SumOfBytes(files[1..])
  }

  lemma {:induction false} SumsMatch(files: seq<File>)
    ensures TotalBytes(files) == SumOfBytes(files)
    decreases |files|
  {
    if |files| > 1 {
      var middle := files[1..|files| - 1];
      SumsMatch(files[1..]);
      SumsMatch(files[..|files| - 1]);
      SumsMatch(middle);
      assert files[..|files| - 1][1..] == middle && files[1..][..|files| - 2] == middle;
    }
  }
}
