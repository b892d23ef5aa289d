/**
 Fields of the ustar header block (IEEE Std 1003.1-2017, `pax` utility, "ustar Interchange Format")
 as restricted-artifact-package.ts reads them.
 */
module Ustar {
  import opened Common

  const BLOCK := 512
  const SPACE: byte := 32
  const ZERO_DIGIT: byte := 48

  predicate AllZero(b: seq<byte>) {
    forall i :: 0 <= i < |b| ==> b[i] == 0
  }

  function Zeros(n: nat): (r: seq<byte>)
    ensures |r| == n && AllZero(r)
  {
    seq(n, i => 0)
  }

  /** Node's "ascii" decoding clears the high bit. */
  function Masked(b: seq<byte>): (r: seq<byte>)
    ensures |r| == |b|
  {
    seq(|b|, i requires 0 <= i < |b| => b[i] % 128)
  }

  function AsciiBytes(s: string): (r: seq<byte>)
    requires forall i :: 0 <= i < |s| ==> s[i] < 128 as char
    ensures |r| == |s|
  {
    seq(|s|, i requires 0 <= i < |s| => s[i] as byte)
  }

  // ---------- octal numbers ----------

  predicate OctalDigit(b: byte) {
    ZERO_DIGIT <= b < ZERO_DIGIT + 8
  }

  function LeadingDigits(s: seq<byte>): (n: nat)
    ensures n <= |s|
  {
    if s == [] || !OctalDigit(s[0]) then 0 else 1 + LeadingDigits(s[1..])
  }

  function DigitsValue(s: seq<byte>): nat
    requires forall i :: 0 <= i < |s| ==> OctalDigit(s[i])
  {
    if s == [] then 0
    else
      assert OctalDigit(s[|s| - 1]);
      8 * DigitsValue(s[..|s| - 1]) + (s[|s| - 1] - ZERO_DIGIT)
  }

  lemma {:induction false} LeadingAreDigits(s: seq<byte>)
    ensures forall i :: 0 <= i < LeadingDigits(s) ==> OctalDigit(s[i])
    ensures LeadingDigits(s) < |s| ==> !OctalDigit(s[LeadingDigits(s)])
  {
    if s != [] && OctalDigit(s[0]) { LeadingAreDigits(s[1..]); }
  }

  /** octal: at least one digit, then only NUL or space; `None` is the thrown error. */
  function Octal(field: seq<byte>): Option<nat> {
    var s := Masked(field);
    var n := LeadingDigits(s);
    LeadingAreDigits(s);
    if n > 0 && forall i :: n <= i < |s| ==> s[i] == 0 || s[i] == SPACE then Some(DigitsValue(s[..n])) else None
  }

  function Power8(n: nat): (p: nat)
    ensures p > 0
  {
    if n == 0 then 1 else 8 * Power8(n - 1)
  }

  /** The last `width` octal digits of `v`, as a writer prints them. */
  function OctalDigits(v: nat, width: nat): (r: seq<byte>)
    ensures |r| == width && forall i :: 0 <= i < width ==> OctalDigit(r[i])
  {
    if width == 0 then [] else OctalDigits(v / 8, width - 1) + [ZERO_DIGIT + v % 8]
  }

  lemma {:induction false} DigitsRead(v: nat, width: nat)
    requires v < Power8(width)
    ensures DigitsValue(OctalDigits(v, width)) == v
  {
    if width > 0 {
      var r := OctalDigits(v, width);
      assert r[..width - 1] == OctalDigits(v / 8, width - 1);
      DigitsRead(v / 8, width - 1);
    }
  }

  lemma {:induction false} LeadingOfDigits(digits: seq<byte>, rest: seq<byte>)
    requires forall i :: 0 <= i < |digits| ==> OctalDigit(digits[i])
    requires rest == [] || !OctalDigit(rest[0])
    ensures LeadingDigits(digits + rest) == |digits|
  {
    if digits != [] {
      assert (digits + rest)[1..] == digits[1..] + rest;
      LeadingOfDigits(digits[1..], rest);
    } else {
      assert digits + rest == rest;
    }
  }

  /** A number printed with leading zeros and ended by NUL or space reads back as itself. */
  lemma OctalRoundTrip(v: nat, width: nat, ending: seq<byte>)
    requires width > 0 && v < Power8(width)
    requires forall i :: 0 <= i < |ending| ==> ending[i] == 0 || ending[i] == SPACE
    ensures Octal(OctalDigits(v, width) + ending) == Some(v)
  {
    hide DigitsValue, LeadingDigits;
    var digits := OctalDigits(v, width);
    assert Masked(digits + ending) == digits + ending;
    LeadingOfDigits(digits, ending);
    DigitsRead(v, width);
    assert (digits + ending)[..width] == digits;
  }

  // ---------- checksum ----------

  function Sum(b: seq<byte>): nat {
    if b == [] then 0 else Sum(b[..|b| - 1]) + b[|b| - 1]
  }

  /** Sum of the raw header bytes with the checksum field taken as spaces. */
  function Checksum(header: seq<byte>): nat
    requires |header| == BLOCK
  {
    Sum(header[..148] + seq(8, i => SPACE) + header[156..])
  }

  lemma {:induction false} SumBounded(b: seq<byte>)
    ensures Sum(b) <= 255 * |b|
  {
    if b != [] { SumBounded(b[..|b| - 1]); }
  }

  // ---------- the name field ----------

  function FirstZero(b: seq<byte>): (n: nat)
    ensures n <= |b|
    ensures forall i :: 0 <= i < n ==> b[i] != 0
    ensures n < |b| ==> b[n] == 0
  {
    if b == [] || b[0] == 0 then 0 else 1 + FirstZero(b[1..])
  }

  predicate PlainText(s: string) {
    forall i :: 0 <= i < |s| ==> '\0' < s[i] < 128 as char
  }

  /** The field holds the name and nothing but zeros after it. */
  predicate NameIs(field: seq<byte>, name: string) {
    && PlainText(name)
    && |name| <= |field|
    && (forall i :: 0 <= i < |name| ==> field[i] == name[i] as int)
    && AllZero(field[|name|..])
  }

  /** `None` when the field is rejected as a name. */
  function DecodeName(field: seq<byte>): (r: Option<string>)
    ensures r.Some? ==> NameIs(field, r.value)
  {
    var n := FirstZero(field);
    if (forall i :: 0 <= i < n ==> field[i] <= 127) && AllZero(field[n..]) then
      Some(seq(n, i requires 0 <= i < n => field[i] as char))
    else None
  }

  lemma NameLength(field: seq<byte>, name: string)
    requires NameIs(field, name)
    ensures FirstZero(field) == |name|
  {
    FirstZeroIs(field, |name|);
  }

  lemma FirstZeroIs(field: seq<byte>, n: nat)
    requires n <= |field| && (forall i :: 0 <= i < n ==> field[i] != 0) && AllZero(field[n..])
    ensures FirstZero(field) == n
  {
    assert n < |field| ==> field[n..][0] == field[n];
  }

  lemma NameUnique(field: seq<byte>, a: string, b: string)
    requires NameIs(field, a) && NameIs(field, b)
    ensures a == b
  {
    NameLength(field, a);
    NameLength(field, b);
  }

  /** Decoding succeeds on every field that holds a name. */
  lemma DecodeFinds(field: seq<byte>, name: string)
    requires NameIs(field, name)
    ensures DecodeName(field) == Some(name)
  {
    NameLength(field, name);
    NameUnique(field, DecodeName(field).value, name);
  }
}
