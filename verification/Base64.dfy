/** Base64 with the alphabet and padding of section 4 of RFC 4648, as Node's Buffer writes and reads it. */
module Base64 {
  import opened Common

  type Sextet = x: int | 0 <= x < 64

  function Symbol(v: Sextet): char {
    if v < 26 then 'A' + v as char
    else if v < 52 then 'a' + (v - 26) as char
    else if v < 62 then '0' + (v - 52) as char
    else if v == 62 then '+' else '/'
  }

  // The 24 bits of three bytes x y z, cut into sextets, and back.

  function First(x: byte): Sextet { x / 4 }
  function Second(x: byte, y: byte): Sextet { x % 4 * 16 + y / 16 }
  function Third(y: byte, z: byte): Sextet { y % 16 * 4 + z / 64 }
  function Fourth(z: byte): Sextet { z % 64 }

  function ByteX(p: Sextet, q: Sextet): byte { p * 4 + q / 16 }
  function ByteY(q: Sextet, r: Sextet): byte { q % 16 * 16 + r / 4 }
  function ByteZ(r: Sextet, t: Sextet): byte { r % 4 * 64 + t }

  lemma BytesToSextetsToBytes(x: byte, y: byte, z: byte)
    ensures ByteX(First(x), Second(x, y)) == x
    ensures ByteY(Second(x, y), Third(y, z)) == y
    ensures ByteZ(Third(y, z), Fourth(z)) == z
  {
  }

  lemma SextetsToBytesToSextets(p: Sextet, q: Sextet, r: Sextet, t: Sextet)
    ensures First(ByteX(p, q)) == p
    ensures Second(ByteX(p, q), ByteY(q, r)) == q
    ensures Third(ByteY(q, r), ByteZ(r, t)) == r
    ensures Fourth(ByteZ(r, t)) == t
    ensures q % 16 == 0 ==> Second(ByteX(p, q), 0) == q
    ensures r % 4 == 0 ==> Third(ByteY(q, r), 0) == r
  {
  }

  lemma ZeroPadBits(x: byte)
    ensures Second(x, 0) % 16 == 0 && Third(x, 0) % 4 == 0
  {
  }

  /** `bytes.toString("base64")`. */
  function Encode(b: seq<byte>): string {
    if b == [] then ""
    else if |b| == 1 then [Symbol(First(b[0])), Symbol(Second(b[0], 0)), '=', '=']
    else if |b| == 2 then [Symbol(First(b[0])), Symbol(Second(b[0], b[1])), Symbol(Third(b[1], 0)), '=']
    else Quantum(First(b[0]), Second(b[0], b[1]), Third(b[1], b[2]), Fourth(b[2])) + Encode(b[3..])
  }

  function Quantum(p: Sextet, q: Sextet, r: Sextet, t: Sextet): string {
    [Symbol(p), Symbol(q), Symbol(r), Symbol(t)]
  }

  /** The standard alphabet, section 4 of RFC 4648. */
  function StandardValue(c: char): Option<Sextet> {
    if 'A' <= c <= 'Z' then Some((c - 'A') as int)
    else if 'a' <= c <= 'z' then Some((c - 'a') as int + 26)
    else if '0' <= c <= '9' then Some((c - '0') as int + 52)
    else if c == '+' then Some(62)
    else if c == '/' then Some(63)
    else None
  }

  /** Node also accepts the URL-safe alphabet when it reads. */
  function Value(c: char): Option<Sextet> {
    if c == '-' then Some(62) else if c == '_' then Some(63) else StandardValue(c)
  }

  /** Foreign characters are skipped; padding ends the input. */
  function Sextets(s: string): seq<Sextet> {
    if s == [] || s[0] == '=' then []
    else match Value(s[0])
      case Some(v) => [v] + Sextets(s[1..])
      case None => Sextets(s[1..])
  }

  function Bytes(v: seq<Sextet>): seq<byte> {
    if |v| < 2 then []
    else if |v| == 2 then [ByteX(v[0], v[1])]
    else if |v| == 3 then [ByteX(v[0], v[1]), ByteY(v[1], v[2])]
    else [ByteX(v[0], v[1]), ByteY(v[1], v[2]), ByteZ(v[2], v[3])] + Bytes(v[4..])
  }

  /** `Buffer.from(s, "base64")`, which never fails. */
  function Read(s: string): seq<byte> {
    Bytes(Sextets(s))
  }

  /** Whole quanta of the standard alphabet; padding only in the last one, with zero pad bits
      (sections 3.5 and 4 of RFC 4648). */
  predicate Canonical(s: string) {
    if s == "" then true
    else
      && |s| >= 4
      && StandardValue(s[0]).Some? && StandardValue(s[1]).Some?
      && if |s| == 4 && s[3] == '=' then
           if s[2] == '=' then StandardValue(s[1]).value % 16 == 0
           else StandardValue(s[2]).Some? && StandardValue(s[2]).value % 4 == 0
         else
           StandardValue(s[2]).Some? && StandardValue(s[3]).Some? && Canonical(s[4..])
  }

  lemma SymbolValue(v: Sextet)
    ensures StandardValue(Symbol(v)) == Value(Symbol(v)) == Some(v) && Symbol(v) != '='
  {
  }

  lemma ValueSymbol(c: char)
    requires StandardValue(c).Some?
    ensures Symbol(StandardValue(c).value) == c && c != '=' && Value(c) == StandardValue(c)
  {
  }

  lemma {:induction false} EncodeIsCanonical(b: seq<byte>)
    ensures Canonical(Encode(b))
  {
    hide Symbol, StandardValue, First, Second, Third, Fourth;
    forall v: Sextet ensures StandardValue(Symbol(v)) == Some(v) && Symbol(v) != '=' { SymbolValue(v); }
    if |b| == 1 {
      ZeroPadBits(b[0]);
    } else if |b| == 2 {
      ZeroPadBits(b[1]);
    } else if |b| >= 3 {
      EncodeIsCanonical(b[3..]);
      assert Encode(b)[4..] == Encode(b[3..]);
    }
  }

  lemma SextetsNext(s: string)
    requires s != [] && s[0] != '=' && Value(s[0]).Some?
    ensures Sextets(s) == [Value(s[0]).value] + Sextets(s[1..])
  {
  }

  lemma SextetsPair(s: string)
    requires |s| >= 2 && s[0] != '=' && s[1] != '=' && Value(s[0]).Some? && Value(s[1]).Some?
    ensures Sextets(s) == [Value(s[0]).value, Value(s[1]).value] + Sextets(s[2..])
  {
    hide Sextets, Value;
    assert s[1..][1..] == s[2..];
    SextetsNext(s);
    SextetsNext(s[1..]);
  }

  /** Reading one full quantum in front of more input. */
  lemma SextetsQuantum(s: string)
    requires |s| >= 4 && forall i :: 0 <= i < 4 ==> s[i] != '=' && Value(s[i]).Some?
    ensures Sextets(s) == [Value(s[0]).value, Value(s[1]).value, Value(s[2]).value, Value(s[3]).value] + Sextets(s[4..])
  {
    hide Sextets, Value;
    SextetsPair(s);
    SextetsPair(s[2..]);
    assert s[2..][2..] == s[4..];
  }

  lemma SextetsPadded(s: string)
    requires |s| == 4 && s[0] != '=' && s[1] != '=' && s[3] == '=' && Value(s[0]).Some? && Value(s[1]).Some?
    requires s[2] == '=' || Value(s[2]).Some?
    ensures Sextets(s) == if s[2] == '=' then [Value(s[0]).value, Value(s[1]).value]
                          else [Value(s[0]).value, Value(s[1]).value, Value(s[2]).value]
  {
    hide Value;
    assert s[1..][1..] == s[2..] && s[2..][1..] == s[3..];
    SextetsNext(s);
    SextetsNext(s[1..]);
    if s[2] != '=' { SextetsNext(s[2..]); }
  }

  lemma BytesQuantum(v: seq<Sextet>, p: Sextet, q: Sextet, r: Sextet, t: Sextet)
    ensures Bytes([p, q, r, t] + v) == [ByteX(p, q), ByteY(q, r), ByteZ(r, t)] + Bytes(v)
  {
    assert ([p, q, r, t] + v)[4..] == v;
  }

  /** Reading a full quantum reads its three bytes. */
  lemma ReadQuantum(p: Sextet, q: Sextet, r: Sextet, t: Sextet, rest: string)
    ensures Read(Quantum(p, q, r, t) + rest) == [ByteX(p, q), ByteY(q, r), ByteZ(r, t)] + Read(rest)
  {
    hide Symbol, Value, Sextets, Bytes;
    var s := Quantum(p, q, r, t) + rest;
    SymbolValue(p);
    SymbolValue(q);
    SymbolValue(r);
    SymbolValue(t);
    SextetsQuantum(s);
    assert s[4..] == rest;
    BytesQuantum(Sextets(rest), p, q, r, t);
  }

  /** What was written is read back. */
  lemma {:induction false} ReadEncode(b: seq<byte>)
    ensures Read(Encode(b)) == b
  {
    hide Symbol, Value, StandardValue, First, Second, Third, Fourth, ByteX, ByteY, ByteZ, Quantum;
    if |b| == 1 || |b| == 2 {
      var y := if |b| == 2 then b[1] else 0;
      SymbolValue(First(b[0]));
      SymbolValue(Second(b[0], y));
      SymbolValue(Third(y, 0));
      BytesToSextetsToBytes(b[0], y, 0);
      SextetsPadded(Encode(b));
    } else if |b| >= 3 {
      BytesToSextetsToBytes(b[0], b[1], b[2]);
      ReadEncode(b[3..]);
      hide Read, Sextets, Bytes;
      ReadQuantum(First(b[0]), Second(b[0], b[1]), Third(b[1], b[2]), Fourth(b[2]), Encode(b[3..]));
      assert b == [b[0], b[1], b[2]] + b[3..];
    }
  }

  lemma CanonicalPadded(s: string)
    requires Canonical(s) && |s| == 4 && s[3] == '='
    ensures Encode(Read(s)) == s
  {
    hide Symbol, Value, StandardValue, First, Second, Third, Fourth, ByteX, ByteY, ByteZ;
    ValueSymbol(s[0]);
    ValueSymbol(s[1]);
    if s[2] != '=' { ValueSymbol(s[2]); }
    SextetsPadded(s);
    SextetsToBytesToSextets(Value(s[0]).value, Value(s[1]).value,
                            if s[2] == '=' then 0 else Value(s[2]).value, 0);
    assert s == [s[0], s[1], s[2], s[3]];
  }

  /** A canonical text is the encoding of what it reads as. */
  lemma {:induction false} CanonicalIsEncode(s: string)
    requires Canonical(s)
    ensures Encode(Read(s)) == s
  {
    hide Symbol, Value, StandardValue, First, Second, Third, Fourth, ByteX, ByteY, ByteZ, Read;
    if s == "" {
      EmptyText();
    } else if |s| == 4 && s[3] == '=' {
      CanonicalPadded(s);
    } else {
      forall i | 0 <= i < 4 ensures Value(s[i]).Some? && Symbol(Value(s[i]).value) == s[i] { ValueSymbol(s[i]); }
      var p, q, r, t := Value(s[0]).value, Value(s[1]).value, Value(s[2]).value, Value(s[3]).value;
      assert s == Quantum(p, q, r, t) + s[4..];
      ReadQuantum(p, q, r, t, s[4..]);
      CanonicalIsEncode(s[4..]);
      SextetsToBytesToSextets(p, q, r, t);
      assert Read(s)[3..] == Read(s[4..]);
    }
  }

  lemma EmptyText()
    ensures Encode(Read("")) == ""
  {
  }

  /** Re-encoding what the lenient reader found gives the text back exactly for canonical texts. */
  lemma CanonicalDecides(s: string)
    ensures Encode(Read(s)) == s <==> Canonical(s)
  {
    EncodeIsCanonical(Read(s));
    if Canonical(s) { CanonicalIsEncode(s); }
  }
}
