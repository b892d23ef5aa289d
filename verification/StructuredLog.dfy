/**
 The line format of the ordinary log: what parseExistingSegment (operational-diagnostics.ts) asks
 of a segment and validateStructuredLog (support-bundle.ts) of a snapshot.

 `parses` stands for strict UTF-8 decoding, JSON parsing and the record schema applied to one line;
 it gives the record's time. Decoding drops a byte order mark only at the start of its input, and
 no JSON text begins with one.
 */
module StructuredLog {
  import opened Common

  type Parser = seq<byte> -> Option<nat>

  const NEWLINE: byte := 10
  const MARK: seq<byte> := [239, 187, 191]

  predicate Marked(b: seq<byte>) {
    MARK <= b
  }

  /** What the decoder keeps of a leading byte order mark: nothing. */
  function Unmarked(b: seq<byte>): seq<byte> {
    if Marked(b) then b[3..] else b
  }

  ghost predicate NoRecordIsMarked(parses: Parser) {
    forall line :: Marked(line) ==> parses(line).None?
  }

  function LineEnd(b: seq<byte>): (n: nat)
    ensures n <= |b| && (n < |b| ==> b[n] == NEWLINE)
    ensures forall i :: 0 <= i < n ==> b[i] != NEWLINE
  {
    if b == [] || b[0] == NEWLINE then 0 else 1 + LineEnd(b[1..])
  }

  predicate GoodLine(parses: Parser, line: seq<byte>) {
    line != [] && parses(line).Some?
  }

  /** Whole records, each ended by a newline. */
  predicate Records(parses: Parser, b: seq<byte>)
    decreases |b|
  {
    b == [] || (LineEnd(b) < |b| && GoodLine(parses, b[..LineEnd(b)]) && Records(parses, b[LineEnd(b) + 1..]))
  }

  /** validateStructuredLog returns normally. */
  predicate ValidLog(parses: Parser, b: seq<byte>) {
    b == [] || (Unmarked(b) != [] && Records(parses, Unmarked(b)))
  }

  /** parseExistingSegment returns normally. */
  predicate ValidSegment(parses: Parser, b: seq<byte>, occurredAt: nat) {
    var text := Unmarked(b);
    && text != []
    && Records(parses, text)
    && parses(text[..LineEnd(text)]) == Some(occurredAt)
  }

  lemma LineEndOfFirst(a: seq<byte>, b: seq<byte>)
    requires LineEnd(a) < |a|
    ensures LineEnd(a + b) == LineEnd(a)
  {
    LineEndIs(a + b, LineEnd(a));
  }

  lemma {:induction false} LineEndIs(b: seq<byte>, n: nat)
    requires n < |b| && b[n] == NEWLINE && forall i :: 0 <= i < n ==> b[i] != NEWLINE
    ensures LineEnd(b) == n
  {
    if n > 0 { LineEndIs(b[1..], n - 1); }
  }

  /** After whole records, more bytes are whole records exactly when they are so by themselves. */
  lemma {:induction false} RecordsAppend(parses: Parser, a: seq<byte>, b: seq<byte>)
    requires Records(parses, a)
    ensures Records(parses, a + b) <==> Records(parses, b)
    decreases |a|
  {
    if a == [] {
      assert a + b == b;
    } else {
      var n := LineEnd(a);
      LineEndOfFirst(a, b);
      RecordsAppend(parses, a[n + 1..], b);
      assert (a + b)[..n] == a[..n] && (a + b)[n + 1..] == a[n + 1..] + b;
    }
  }

  lemma {:induction false} RecordsEnd(parses: Parser, b: seq<byte>)
    requires Records(parses, b) && b != []
    ensures b[|b| - 1] == NEWLINE
    decreases |b|
  {
    var rest := b[LineEnd(b) + 1..];
    if rest != [] { RecordsEnd(parses, rest); }
  }

  lemma SegmentIsRecords(parses: Parser, b: seq<byte>, occurredAt: nat)
    requires ValidSegment(parses, b, occurredAt)
    ensures b != [] && Records(parses, Unmarked(b)) && b[|b| - 1] == NEWLINE
  {
    RecordsEnd(parses, Unmarked(b));
  }

  /** A segment can be read in the middle of a log exactly when it does not begin with a byte order mark. */
  lemma SegmentInside(parses: Parser, b: seq<byte>, occurredAt: nat)
    requires ValidSegment(parses, b, occurredAt) && NoRecordIsMarked(parses)
    ensures Records(parses, b) <==> !Marked(b)
  {
    if Marked(b) {
      SegmentIsRecords(parses, b, occurredAt);
      var n := LineEnd(b);
      assert b[0] == 239 && b[1] == 187 && b[2] == 191;
      assert Marked(b[..n]);
    }
  }

  lemma MarkOfConcatenation(a: seq<byte>, b: seq<byte>)
    requires a != [] && a[|a| - 1] == NEWLINE
    ensures Marked(a + b) == Marked(a) && Unmarked(a + b) == Unmarked(a) + b
  {
    if |a| < 3 { assert (a + b)[|a| - 1] == NEWLINE; }
    if Marked(a) { assert (a + b)[..3] == a[..3]; }
    if Marked(a + b) { assert (a + b)[..3] == MARK; }
  }

  function Concat(pieces: seq<seq<byte>>): seq<byte> {
    if pieces == [] then [] else pieces[0] + Concat(pieces[1..])
  }

  lemma {:induction false} InsideRecords(parses: Parser, pieces: seq<seq<byte>>, times: seq<nat>)
    requires |times| == |pieces| && NoRecordIsMarked(parses)
    requires forall i :: 0 <= i < |pieces| ==> ValidSegment(parses, pieces[i], times[i])
    ensures Records(parses, Concat(pieces)) <==> forall i :: 0 <= i < |pieces| ==> !Marked(pieces[i])
  {
    hide ValidSegment, Records, Marked;
    if pieces == [] {
      EmptyRecords(parses);
    } else {
      var rest := pieces[1..];
      InsideRecords(parses, rest, times[1..]);
      SegmentInside(parses, pieces[0], times[0]);
      if Marked(pieces[0]) {
        MarkedConcatFails(parses, pieces[0], Concat(rest), times[0]);
      } else {
        RecordsAppend(parses, pieces[0], Concat(rest));
      }
      assert forall i :: 0 < i < |pieces| ==> pieces[i] == rest[i - 1];
      assert forall i :: 0 <= i < |rest| ==> rest[i] == pieces[i + 1];
    }
  }

  lemma EmptyRecords(parses: Parser)
    ensures Records(parses, [])
  {
  }

  lemma MarkedConcatFails(parses: Parser, a: seq<byte>, b: seq<byte>, occurredAt: nat)
    requires ValidSegment(parses, a, occurredAt) && NoRecordIsMarked(parses) && Marked(a)
    ensures !Records(parses, a + b)
  {
    SegmentIsRecords(parses, a, occurredAt);
    MarkOfConcatenation(a, b);
    var n := LineEnd(a + b);
    assert (a + b)[0] == 239 && (a + b)[1] == 187 && (a + b)[2] == 191 by { assert (a + b)[..3] == MARK; }
    assert Marked((a + b)[..n]);
  }

  /**
   Segments put one after the other form a valid log exactly when none but the first begins with
   a byte order mark.
   */
  lemma ConcatenationIsValid(parses: Parser, pieces: seq<seq<byte>>, times: seq<nat>)
    requires |times| == |pieces| && NoRecordIsMarked(parses)
    requires forall i :: 0 <= i < |pieces| ==> ValidSegment(parses, pieces[i], times[i])
    ensures ValidLog(parses, Concat(pieces)) <==> forall i :: 0 < i < |pieces| ==> !Marked(pieces[i])
  {
    hide ValidSegment, Records, Marked, Unmarked;
    if pieces != [] {
      var rest := pieces[1..];
      SegmentIsRecords(parses, pieces[0], times[0]);
      SegmentNotBlank(parses, pieces[0], times[0]);
      MarkOfConcatenation(pieces[0], Concat(rest));
      RecordsAppend(parses, Unmarked(pieces[0]), Concat(rest));
      InsideRecords(parses, rest, times[1..]);
      assert forall i :: 0 < i < |pieces| ==> pieces[i] == rest[i - 1];
      assert forall i :: 0 <= i < |rest| ==> rest[i] == pieces[i + 1];
    }
  }

  lemma SegmentNotBlank(parses: Parser, b: seq<byte>, occurredAt: nat)
    requires ValidSegment(parses, b, occurredAt)
    ensures Unmarked(b) != []
  {
  }

  /** Two segments, each accepted on reload, whose concatenation the support bundle rejects. */
  lemma MarkedSegmentBreaksSnapshot(parses: Parser, line: seq<byte>)
    requires NoRecordIsMarked(parses) && parses(line) == Some(7) && line != [] && NEWLINE !in line
    ensures var first, second := line + [NEWLINE], MARK + line + [NEWLINE];
            && ValidSegment(parses, first, 7) && ValidSegment(parses, second, 7)
            && !ValidLog(parses, Concat([first, second]))
  {
    var first, second := line + [NEWLINE], MARK + line + [NEWLINE];
    LineEndIs(first, |line|);
    assert first[..|line|] == line && first[|line| + 1..] == [];
    assert second[3..] == first;
    assert second[..3] == MARK;
    if Marked(first) { UnmarkedLine(line); }
    assert Unmarked(first) == first;
    assert ValidSegment(parses, first, 7) && ValidSegment(parses, second, 7);
    var pieces, times := [first, second], [7, 7];
    assert forall i :: 0 <= i < 2 ==> ValidSegment(parses, pieces[i], times[i]);
    assert Marked(pieces[1]);
    ConcatenationIsValid(parses, pieces, times);
  }

  lemma UnmarkedLine(line: seq<byte>)
    ensures Marked(line + [NEWLINE]) ==> Marked(line)
  {
    if Marked(line + [NEWLINE]) {
      var b := line + [NEWLINE];
      assert b[0] == 239 && b[1] == 187 && b[2] == 191 by { assert b[..3] == MARK; }
      assert b[|line|] == NEWLINE;
      assert line[..3] == b[..3];
    }
  }
}
