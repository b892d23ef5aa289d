/**
 Text as the sources see it, one `char` for each UTF-16 code unit. `char` has no surrogates, so a
 string here stands for a source string exactly when neither holds a character beyond U+FFFF; for
 these `<` on strings and `compareCodeUnitText` compare characters from the left.
 */
module Text {

  predicate Less(a: string, b: string) {
    b != [] && (a == [] || a[0] < b[0] || (a[0] == b[0] && Less(a[1..], b[1..])))
  }

  predicate AtMost(a: string, b: string) {
    a == b || Less(a, b)
  }

  lemma {:induction false} LessTotal(a: string, b: string)
    ensures Less(a, b) || a == b || Less(b, a)
    ensures !(Less(a, b) && Less(b, a)) && !Less(a, a)
  {
    if a != [] && b != [] && a[0] == b[0] {
      LessTotal(a[1..], b[1..]);
      assert a == [a[0]] + a[1..] && b == [b[0]] + b[1..];
    }
    if a != [] { LessIrreflexive(a); }
  }

  /** The order of compareCodeUnitText: at the first difference the smaller character, or the shorter text, comes first. */
  lemma {:induction false} LessIsFirstDifference(a: string, b: string)
    ensures Less(a, b) <==> exists n: nat :: LessAt(a, b, n)
  {
    if a != [] && b != [] && a[0] == b[0] {
      LessIsFirstDifference(a[1..], b[1..]);
      if n: nat :| LessAt(a[1..], b[1..], n) {
        assert forall i :: 0 < i <= n && i < |a| ==> a[i] == a[1..][i - 1] && b[i] == b[1..][i - 1];
        assert n < |a| - 1 ==> a[n + 1] == a[1..][n];
        assert b[n + 1] == b[1..][n];
        assert LessAt(a, b, n + 1);
      }
      if n: nat :| LessAt(a, b, n) {
        assert n > 0;
        assert LessAt(a[1..], b[1..], n - 1);
      }
    } else if Less(a, b) {
      assert LessAt(a, b, 0);
    }
  }

  /** The texts agree before position `n`, and there the first ends or is smaller. */
  predicate LessAt(a: string, b: string, n: nat) {
    && n <= |a| && n < |b| && (forall i :: 0 <= i < n ==> a[i] == b[i])
    && (n == |a| || a[n] < b[n])
  }

  lemma {:induction false} LessIrreflexive(a: string)
    ensures !Less(a, a)
  {
    if a != [] { LessIrreflexive(a[1..]); }
  }

  lemma {:induction false} LessTransitive(a: string, b: string, c: string)
    requires Less(a, b) && Less(b, c)
    ensures Less(a, c)
  {
    if a != [] && a[0] == b[0] && b[0] == c[0] { LessTransitive(a[1..], b[1..], c[1..]); }
  }

  lemma AtMostTransitive(a: string, b: string, c: string)
    requires AtMost(a, b) && AtMost(b, c)
    ensures AtMost(a, c)
  {
    if Less(a, b) && Less(b, c) { LessTransitive(a, b, c); }
  }

  predicate StartsWith(s: string, prefix: string) {
    prefix <= s
  }

  /** White space and line terminators of ECMAScript, as `trim` removes them. */
  predicate Blank(c: char) {
    || '\t' <= c <= '\r' || c == ' ' || c == '\U{00A0}' || c == '\U{1680}' || '\U{2000}' <= c <= '\U{200A}'
    || c == '\U{2028}' || c == '\U{2029}' || c == '\U{202F}' || c == '\U{205F}' || c == '\U{3000}' || c == '\U{FEFF}'
  }

  /** `s.length > 0 && s.trim() === s`. */
  predicate TrimmedText(s: string) {
    s != "" && !Blank(s[0]) && !Blank(s[|s| - 1])
  }

  // ---------- trimming ----------

  /** `s.trimStart()`. */
  function TrimStart(s: string): (r: string)
    ensures |r| <= |s| && r == s[|s| - |r|..] && (r != "" ==> !Blank(r[0]))
    ensures forall i :: 0 <= i < |s| - |r| ==> Blank(s[i])
  {
    if s != "" && Blank(s[0]) then TrimStart(s[1..]) else s
  }

  /** `s.trimEnd()`. */
  function TrimEnd(s: string): (r: string)
    ensures |r| <= |s| && r == s[..|r|] && (r != "" ==> !Blank(r[|r| - 1]))
    ensures forall i :: |r| <= i < |s| ==> Blank(s[i])
  {
    if s != "" && Blank(s[|s| - 1]) then TrimEnd(s[..|s| - 1]) else s
  }

  /** `s.trim()`. */
  function Trim(s: string): string {
    TrimEnd(TrimStart(s))
  }

  /** Trimming takes blanks off both ends. */
  lemma TrimCuts(s: string)
    ensures exists a, b :: 0 <= a <= b <= |s| && Trim(s) == s[a..b] && (forall i :: 0 <= i < a ==> Blank(s[i]))
                           && (forall i :: b <= i < |s| ==> Blank(s[i]))
  {
    hide Blank, TrimStart, TrimEnd;
    var t := TrimStart(s);
    var r := TrimEnd(t);
    var a := |s| - |t|;
    assert r == s[a..a + |r|];
    forall i | a + |r| <= i < |s| ensures Blank(s[i]) { assert s[i] == t[i - a]; }
  }

  lemma TrimmedIsFixed(t: string)
    requires t == "" || TrimmedText(t)
    ensures Trim(t) == t
  {
    hide Blank;
    assert TrimStart(t) == t;
  }

  /** What is left is empty or trimmed, so trimming again changes nothing. */
  lemma TrimLeaves(s: string)
    ensures Trim(s) == "" || TrimmedText(Trim(s))
    ensures Trim(Trim(s)) == Trim(s)
  {
    hide Blank, TrimStart, TrimEnd;
    TrimmedIsFixed(Trim(s));
  }

  // ---------- decimal numbers ----------

  predicate Digit(c: char) {
    '0' <= c <= '9'
  }

  predicate Digits(s: string) {
    s != "" && forall i :: 0 <= i < |s| ==> Digit(s[i])
  }

  /** `String(n)`. */
  function Decimal(n: nat): string {
    if n < 10 then [DigitOf(n)] else Decimal(n / 10) + [DigitOf(n % 10)]
  }

  function DigitOf(n: nat): (c: char)
    requires n < 10
    ensures Digit(c) && c as int == '0' as int + n
  {
    ('0' as int + n) as char
  }

  function DigitValue(c: char): nat
    requires Digit(c)
  {
    c as int - '0' as int
  }

  function DecimalValue(s: string): nat
    requires forall i :: 0 <= i < |s| ==> Digit(s[i])
  {
    if s == "" then 0
    else
      assert Digit(s[|s| - 1]);
      10 * DecimalValue(s[..|s| - 1]) + DigitValue(s[|s| - 1])
  }

  predicate CanonicalDecimal(s: string) {
    Digits(s) && (|s| == 1 || s[0] != '0')
  }

  lemma {:induction false} DecimalReads(n: nat)
    ensures CanonicalDecimal(Decimal(n)) && DecimalValue(Decimal(n)) == n
    ensures n > 0 ==> Decimal(n)[0] != '0'
  {
    if n < 10 {
      assert Decimal(n)[..0] == "";
    } else {
      DecimalReads(n / 10);
      assert Decimal(n)[..|Decimal(n)| - 1] == Decimal(n / 10);
    }
  }

  /** A number has one canonical decimal text. */
  lemma {:induction false} CanonicalIsDecimal(s: string)
    requires CanonicalDecimal(s)
    ensures Decimal(DecimalValue(s)) == s
    ensures s != "0" ==> DecimalValue(s) > 0
    decreases |s|
  {
    var front, last := s[..|s| - 1], s[|s| - 1];
    assert Digit(last);
    assert s == front + [last];
    if front == "" {
      assert DecimalValue(front) == 0;
    } else {
      CanonicalIsDecimal(front);
      assert front[0] == s[0];
      var v := DecimalValue(front);
      assert (10 * v + DigitValue(last)) / 10 == v && (10 * v + DigitValue(last)) % 10 == DigitValue(last);
    }
  }

  // ---------- splitting at a separator ----------

  /** `s.split(c)`. */
  function Split(s: string, c: char): (parts: seq<string>)
    ensures parts != []
  {
    if s == "" then [""]
    else if s[0] == c then [""] + Split(s[1..], c)
    else
      var rest := Split(s[1..], c);
      [[s[0]] + rest[0]] + rest[1..]
  }

  function Join(parts: seq<string>, c: char): string
    requires parts != []
  {
    if |parts| == 1 then parts[0] else parts[0] + [c] + Join(parts[1..], c)
  }

  lemma {:induction false} JoinSplit(s: string, c: char)
    ensures Join(Split(s, c), c) == s
    ensures forall p :: p in Split(s, c) ==> c !in p
  {
    if s != "" {
      JoinSplit(s[1..], c);
      var rest := Split(s[1..], c);
      assert s == [s[0]] + s[1..];
      if s[0] == c { JoinMore(rest, c); } else { JoinLonger(s[0], rest, c); }
    }
  }

  lemma JoinMore(rest: seq<string>, c: char)
    requires rest != []
    ensures Join([""] + rest, c) == [c] + Join(rest, c)
  {
    assert ([""] + rest)[1..] == rest;
    assert "" + [c] == [c];
  }

  lemma JoinLonger(first: char, rest: seq<string>, c: char)
    requires rest != []
    ensures Join([[first] + rest[0]] + rest[1..], c) == [first] + Join(rest, c)
  {
    var parts := [[first] + rest[0]] + rest[1..];
    assert parts[1..] == rest[1..];
    if |rest| > 1 {
      var tail := [c] + Join(rest[1..], c);
      assert rest[0] + [c] + Join(rest[1..], c) == rest[0] + tail;
      assert [first] + rest[0] + [c] + Join(rest[1..], c) == [first] + (rest[0] + tail);
    }
  }

  lemma {:induction false} SplitFirst(head: string, rest: string, c: char)
    requires c !in head
    ensures Split(head + [c] + rest, c) == [head] + Split(rest, c)
    ensures Split(head, c) == [head]
  {
    if head == "" {
      assert "" + [c] + rest == [c] + rest;
      assert ([c] + rest)[1..] == rest;
    } else {
      SplitFirst(head[1..], rest, c);
      assert (head + [c] + rest)[1..] == head[1..] + [c] + rest;
      assert [head[0]] + head[1..] == head;
    }
  }

  // ---------- sorting keys without repetition ----------

  predicate StrictlySorted(keys: seq<string>) {
    forall i, j :: 0 <= i < j < |keys| ==> Less(keys[i], keys[j])
  }

  predicate Least(s: set<string>, k: string) {
    k in s && forall j :: j in s ==> AtMost(k, j)
  }

  /** The lesser of one member and a least one of the others is least. */
  lemma LesserIsLeast(s: set<string>, x: string, y: string)
    requires x in s && Least(s - {x}, y)
    ensures Least(s, if Less(x, y) then x else y)
  {
    hide Less;
    LessTotal(x, y);
    forall j | j in s ensures AtMost(if Less(x, y) then x else y, j) {
      if j != x && Less(x, y) { AtMostTransitive(x, y, j); }
    }
  }

  lemma {:induction false} LeastExists(s: set<string>)
    requires s != {}
    ensures exists k :: Least(s, k)
    decreases |s|
  {
    hide AtMost, Less, Least;
    var x :| x in s;
    if s == {x} {
      OnlyIsLeast(x);
    } else {
      assert s - {x} != {};
      assert s == (s - {x}) + {x};
      LeastExists(s - {x});
      var y :| Least(s - {x}, y);
      LesserIsLeast(s, x, y);
    }
  }

  lemma OnlyIsLeast(x: string)
    ensures Least({x}, x)
  {
  }

  lemma LeastFirst(s: set<string>, k: string, rest: seq<string>)
    requires Least(s, k)
    requires StrictlySorted(rest) && forall j :: j in rest <==> j in s - {k}
    ensures StrictlySorted([k] + rest) && forall j :: j in [k] + rest <==> j in s
  {
    hide Less;
    forall j | 0 <= j < |rest| ensures Less(k, rest[j]) { assert rest[j] in s - {k}; }
    assert forall j :: j in [k] + rest <==> j == k || j in rest;
  }

  /** `Object.keys(value).sort()`: the members of the set, least first. */
  ghost function SortedKeys(s: set<string>): (r: seq<string>)
    ensures StrictlySorted(r) && |r| == |s|
    ensures forall k :: k in r <==> k in s
    decreases |s|
  {
    if s == {} then []
    else
      LeastExists(s);
      var k :| Least(s, k);
      var rest := SortedKeys(s - {k});
      LeastFirst(s, k, rest);
      [k] + rest
  }

  /** A strictly sorted sequence is determined by its members. */
  lemma {:induction false} StrictlySortedUnique(a: seq<string>, b: seq<string>)
    requires StrictlySorted(a) && StrictlySorted(b)
    requires forall k :: k in a <==> k in b
    ensures a == b
  {
    if a != [] { assert a[0] in b; }
    if b != [] { assert b[0] in a; }
    if a != [] {
      var i :| 0 <= i < |b| && b[i] == a[0];
      var j :| 0 <= j < |a| && a[j] == b[0];
      if i > 0 && j > 0 { LessTotal(a[0], b[0]); }
      assert a[0] == b[0];
      forall k ensures k in a[1..] <==> k in b[1..] {
        TailMembers(a, k);
        TailMembers(b, k);
      }
      StrictlySortedUnique(a[1..], b[1..]);
      assert a == [a[0]] + a[1..] && b == [b[0]] + b[1..];
    }
  }

  lemma TailMembers(a: seq<string>, k: string)
    requires StrictlySorted(a) && a != []
    ensures k in a[1..] <==> k in a && k != a[0]
  {
    if k in a[1..] {
      var i :| 0 <= i < |a[1..]| && a[1..][i] == k;
      assert Less(a[0], a[i + 1]);
      LessIrreflexive(a[0]);
    }
    if k in a && k != a[0] {
      var i :| 0 <= i < |a| && a[i] == k;
      assert a[1..][i - 1] == k;
    }
  }

  // ---------- stable sorting with repetition ----------

  predicate SortedBy<T>(a: seq<T>, key: T -> string) {
    forall i, j :: 0 <= i < j < |a| ==> AtMost(key(a[i]), key(a[j]))
  }

  function Insert<T>(x: T, a: seq<T>, key: T -> string): seq<T> {
    if a == [] then [x]
    else if AtMost(key(x), key(a[0])) then [x] + a
    else [a[0]] + Insert(x, a[1..], key)
  }

  /** `a.sort((left, right) => compareCodeUnitText(key(left), key(right)))`. */
  function SortBy<T>(a: seq<T>, key: T -> string): seq<T> {
    if a == [] then [] else Insert(a[0], SortBy(a[1..], key), key)
  }

  lemma {:induction false} InsertMembers<T>(x: T, a: seq<T>, key: T -> string)
    ensures multiset(Insert(x, a, key)) == multiset(a) + multiset{x}
  {
    if a != [] && !AtMost(key(x), key(a[0])) {
      InsertMembers(x, a[1..], key);
      assert a == [a[0]] + a[1..];
    }
  }

  lemma {:induction false} InsertSorted<T>(x: T, a: seq<T>, key: T -> string)
    requires SortedBy(a, key)
    ensures SortedBy(Insert(x, a, key), key)
  {
    if a != [] {
      LessTotal(key(x), key(a[0]));
      if AtMost(key(x), key(a[0])) {
        forall i | 0 <= i < |a| ensures AtMost(key(x), key(a[i])) {
          if i > 0 { AtMostTransitive(key(x), key(a[0]), key(a[i])); }
        }
      } else {
        var rest := Insert(x, a[1..], key);
        InsertSorted(x, a[1..], key);
        InsertMembers(x, a[1..], key);
        forall i | 0 <= i < |rest| ensures AtMost(key(a[0]), key(rest[i])) {
          assert rest[i] in multiset(rest);
          if rest[i] != x {
            assert rest[i] in a[1..];
          }
        }
      }
    }
  }

  lemma {:induction false} SortByMembers<T>(a: seq<T>, key: T -> string)
    ensures multiset(SortBy(a, key)) == multiset(a)
  {
    if a != [] {
      SortByMembers(a[1..], key);
      InsertMembers(a[0], SortBy(a[1..], key), key);
      assert a == [a[0]] + a[1..];
    }
  }

  lemma {:induction false} SortByOrders<T>(a: seq<T>, key: T -> string)
    ensures SortedBy(SortBy(a, key), key)
  {
    if a != [] {
      SortByOrders(a[1..], key);
      InsertSorted(a[0], SortBy(a[1..], key), key);
    }
  }

  /** `values.sort(compareCodeUnitText)`. */
  function Sort(a: seq<string>): seq<string> {
    SortBy(a, (x: string) => x)
  }

  predicate Sorted(a: seq<string>) {
    forall i, j :: 0 <= i < j < |a| ==> AtMost(a[i], a[j])
  }

  lemma SameHead(a: seq<string>, b: seq<string>)
    requires Sorted(a) && Sorted(b) && multiset(a) == multiset(b) && a != []
    ensures b != [] && a[0] == b[0]
  {
    assert a[0] in multiset(b);
    assert b[0] in multiset(a);
    var i :| 0 <= i < |b| && b[i] == a[0];
    var j :| 0 <= j < |a| && a[j] == b[0];
    LessTotal(a[0], b[0]);
    assert j == 0 || AtMost(a[0], a[j]);
    assert i == 0 || AtMost(b[0], b[i]);
  }

  lemma TailMultiset(a: seq<string>)
    requires a != []
    ensures multiset(a[1..]) == multiset(a) - multiset{a[0]}
  {
    assert a == [a[0]] + a[1..];
  }

  /** Two sorted sequences with the same members, counted, are equal. */
  lemma {:induction false} SortedUnique(a: seq<string>, b: seq<string>)
    requires Sorted(a) && Sorted(b) && multiset(a) == multiset(b)
    ensures a == b
  {
    assert |a| == |multiset(a)| == |multiset(b)| == |b|;
    if a != [] {
      SameHead(a, b);
      TailMultiset(a);
      TailMultiset(b);
      SortedUnique(a[1..], b[1..]);
      assert a == [a[0]] + a[1..] && b == [b[0]] + b[1..];
    }
  }

  lemma SortMembers(a: seq<string>)
    ensures multiset(Sort(a)) == multiset(a) && Sorted(Sort(a)) && |Sort(a)| == |a|
    ensures forall x :: x in Sort(a) <==> x in a
  {
    SortByMembers(a, (x: string) => x);
    SortByOrders(a, (x: string) => x);
    assert |Sort(a)| == |multiset(Sort(a))|;
    forall x ensures x in Sort(a) <==> x in a {
      assert x in Sort(a) <==> x in multiset(Sort(a));
    }
  }

  /** Comparing sorted copies, as the sources do, compares the members with their multiplicity. */
  lemma SortDecides(a: seq<string>, b: seq<string>)
    ensures Sort(a) == Sort(b) <==> multiset(a) == multiset(b)
  {
    SortMembers(a);
    SortMembers(b);
    if multiset(a) == multiset(b) { SortedUnique(Sort(a), Sort(b)); }
  }

  // ---------- values that occur once ----------

  predicate NoRepeats<T(==)>(s: seq<T>) {
    forall i, j :: 0 <= i < j < |s| ==> s[i] != s[j]
  }

  lemma {:induction false} OccursOnce(s: seq<string>, x: string)
    requires NoRepeats(s)
    ensures multiset(s)[x] == if x in s then 1 else 0
  {
    if s != [] {
      var front, last := s[..|s| - 1], s[|s| - 1];
      assert s == front + [last];
      OccursOnce(front, x);
    }
  }

  lemma {:induction false} OccurOnceMeansNoRepeats(s: seq<string>)
    requires forall x :: x in s ==> multiset(s)[x] == 1
    ensures NoRepeats(s)
  {
    forall i, j | 0 <= i < j < |s| ensures s[i] != s[j] {
      assert s == s[..j] + s[j..];
      assert multiset(s) == multiset(s[..j]) + multiset(s[j..]);
      assert s[..j][i] == s[i] && s[j..][0] == s[j];
      assert s[i] in multiset(s[..j]) && s[j] in multiset(s[j..]);
      assert s[j] in s;
      assert multiset(s)[s[j]] == 1;
    }
  }

  /** Having the same members, counted, keeps values distinct. */
  lemma SameMembersNoRepeats(a: seq<string>, b: seq<string>)
    requires multiset(a) == multiset(b) && NoRepeats(a)
    ensures NoRepeats(b)
  {
    forall x | x in b ensures multiset(b)[x] == 1 {
      assert x in multiset(b);
      OccursOnce(a, x);
    }
    OccurOnceMeansNoRepeats(b);
  }

  lemma StrictlySortedNoRepeats(a: seq<string>)
    requires StrictlySorted(a)
    ensures NoRepeats(a)
  {
    forall i, j | 0 <= i < j < |a| ensures a[i] != a[j] { LessIrreflexive(a[i]); }
  }

  /** Sorting the distinct entries of a collection gives its members in order. */
  lemma SortDistinct(a: seq<string>, s: set<string>)
    requires NoRepeats(a) && forall x :: x in a <==> x in s
    ensures Sort(a) == SortedKeys(s)
  {
    hide Sort, SortedKeys;
    var b := Sort(a);
    SortMembers(a);
    SameMembersNoRepeats(a, b);
    forall i, j | 0 <= i < j < |b| ensures Less(b[i], b[j]) { assert b[i] != b[j]; }
    StrictlySortedUnique(b, SortedKeys(s));
  }

  /** `[...set].sort(compareCodeUnitText)`. */
  method SortSet(s: set<string>) returns (r: seq<string>)
    ensures r == SortedKeys(s)
  {
    hide Sort, SortedKeys;
    var rest, listed: seq<string> := s, [];
    while rest != {}
      invariant rest <= s && NoRepeats(listed)
      invariant forall x :: x in listed <==> x in s && x !in rest
      decreases |rest|
    {
      var x :| x in rest;
      rest, listed := rest - {x}, listed + [x];
    }
    SortDistinct(listed, s);
    r := Sort(listed);
  }
}
