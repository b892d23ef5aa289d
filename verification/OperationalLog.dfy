/**
 The rotating ordinary log as a transition system (operational-diagnostics.ts) and the support
 bundle's test of its snapshot (support-bundle.ts).

 What the filesystem answers, the clock, random ids and the encoded record are parameters of a
 call. File identities are not modelled; starts, settings changes, clearing and snapshots are calls
 of OperationalRuns.
 */
module OperationalLog {
  import opened Common
  import opened Text
  import opened SegmentNames
  import opened StructuredLog

  datatype Segment = Segment(name: string, occurredAt: nat, bytes: seq<byte>)

  datatype Reason = WriteFailed | CleanupFailed | UnsafeStorage

  datatype LogState = Active | Disabled | Suspended(reason: Reason)

  datatype Settings = Settings(enabled: bool, retentionDays: nat, maximumBytes: nat)

  datatype Log = Log(segments: seq<Segment>, retainedBytes: int, current: string, state: LogState, settings: Settings)

  /** The bounds given at construction. */
  datatype Bounds = Bounds(maximumBytes: Option<nat>, segmentBytes: nat)

  /** How the filesystem answers during one call. */
  datatype Disk = Disk(removes: string -> bool, creates: bool, updates: bool)

  /** One call of `record`; `line` is `None` when the record does not meet its schema. */
  datatype Attempt = Attempt(now: int, line: Option<seq<byte>>, id: string, disk: Disk)

  const MILLISECONDS_PER_DAY := 86400000
  const MAXIMUM_SEGMENTS := 1024

  // ---------- order and size ----------

  predicate Before(a: Segment, b: Segment) {
    a.occurredAt < b.occurredAt || (a.occurredAt == b.occurredAt && Less(a.name, b.name))
  }

  predicate Sorted(segments: seq<Segment>) {
    forall i, j :: 0 <= i < j < |segments| ==> Before(segments[i], segments[j])
  }

  predicate DistinctNames(segments: seq<Segment>) {
    forall i, j :: 0 <= i < j < |segments| ==> segments[i].name != segments[j].name
  }

  function Size(segments: seq<Segment>): nat {
    if segments == [] then 0 else |segments[0].bytes| + Size(segments[1..])
  }

  function Insert(x: Segment, segments: seq<Segment>): seq<Segment> {
    if segments == [] then [x]
    else if Before(x, segments[0]) then [x] + segments
    else [segments[0]] + Insert(x, segments[1..])
  }

  /** `segments.sort(compareSegments)`. */
  function SortSegments(segments: seq<Segment>): seq<Segment> {
    if segments == [] then []
    else Insert(segments[|segments| - 1], SortSegments(segments[..|segments| - 1]))
  }

  lemma BeforeTotal(a: Segment, b: Segment)
    requires a.name != b.name
    ensures Before(a, b) || Before(b, a)
  {
    LessTotal(a.name, b.name);
  }

  lemma BeforeTransitive(a: Segment, b: Segment, c: Segment)
    requires Before(a, b) && Before(b, c)
    ensures Before(a, c)
  {
    if Less(a.name, b.name) && Less(b.name, c.name) { LessTransitive(a.name, b.name, c.name); }
  }

  lemma {:induction false} InsertMembers(x: Segment, segments: seq<Segment>)
    ensures multiset(Insert(x, segments)) == multiset(segments) + multiset{x}
    ensures Size(Insert(x, segments)) == Size(segments) + |x.bytes|
    ensures forall s :: s in Insert(x, segments) <==> s == x || s in segments
  {
    if segments != [] && !Before(x, segments[0]) {
      InsertMembers(x, segments[1..]);
      assert segments == [segments[0]] + segments[1..];
    } else if segments != [] {
      assert ([x] + segments)[1..] == segments;
    }
  }

  lemma {:induction false} InsertSorted(x: Segment, segments: seq<Segment>)
    requires Sorted(segments) && forall s :: s in segments ==> s.name != x.name
    ensures Sorted(Insert(x, segments))
  {
    hide Before;
    if segments != [] {
      BeforeTotal(x, segments[0]);
      if Before(x, segments[0]) {
        forall i | 0 < i < |segments| ensures Before(x, segments[i]) { BeforeTransitive(x, segments[0], segments[i]); }
      } else {
        var rest := Insert(x, segments[1..]);
        InsertSorted(x, segments[1..]);
        InsertMembers(x, segments[1..]);
        forall i | 0 <= i < |rest| ensures Before(segments[0], rest[i]) {
          assert rest[i] == x || rest[i] in segments[1..];
        }
      }
    }
  }

  lemma {:induction false} SortSegmentsSorts(segments: seq<Segment>)
    requires DistinctNames(segments)
    ensures Sorted(SortSegments(segments))
    ensures multiset(SortSegments(segments)) == multiset(segments) && Size(SortSegments(segments)) == Size(segments)
    ensures forall s :: s in SortSegments(segments) <==> s in segments
    decreases |segments|
  {
    hide Insert, Before;
    if segments != [] {
      var front, last := segments[..|segments| - 1], segments[|segments| - 1];
      assert segments == front + [last];
      SortSegmentsSorts(front);
      InsertMembers(last, SortSegments(front));
      InsertSorted(last, SortSegments(front));
      SizeAppend(front, [last]);
    }
  }

  lemma {:induction false} SizeAppend(a: seq<Segment>, b: seq<Segment>)
    ensures Size(a + b) == Size(a) + Size(b)
  {
    if a == [] {
      assert a + b == b;
    } else {
      assert (a + b)[1..] == a[1..] + b;
      SizeAppend(a[1..], b);
    }
  }

  lemma BeforeAsymmetric(a: Segment, b: Segment)
    requires Before(a, b)
    ensures !Before(b, a)
  {
    LessTotal(a.name, b.name);
  }

  lemma {:induction false} InsertLast(x: Segment, segments: seq<Segment>)
    requires forall s :: s in segments ==> Before(s, x)
    ensures Insert(x, segments) == segments + [x]
  {
    hide Before;
    if segments != [] {
      BeforeAsymmetric(segments[0], x);
      InsertLast(x, segments[1..]);
    }
  }

  lemma {:induction false} SortedIsFixed(segments: seq<Segment>)
    requires Sorted(segments)
    ensures SortSegments(segments) == segments
    decreases |segments|
  {
    hide Before, Insert;
    if segments != [] {
      var front, last := segments[..|segments| - 1], segments[|segments| - 1];
      assert segments == front + [last];
      SortedIsFixed(front);
      InsertLast(last, front);
    }
  }

  lemma SortedDistinct(segments: seq<Segment>)
    requires Sorted(segments) && forall s :: s in segments ==> OwnedSegmentTime(s.name) == Some(s.occurredAt)
    ensures DistinctNames(segments)
  {
    hide OwnedSegmentTime, Less;
    forall i, j | 0 <= i < j < |segments| ensures segments[i].name != segments[j].name {
      assert Before(segments[i], segments[j]);
      assert segments[i] in segments && segments[j] in segments;
      LessIrreflexive(segments[i].name);
    }
  }

  /** Sorting forgets the order it was given. */
  lemma {:induction false} SortedUnique(a: seq<Segment>, b: seq<Segment>)
    requires Sorted(a) && Sorted(b) && forall s :: s in a <==> s in b
    ensures a == b
  {
    hide Before;
    if a != [] { assert a[0] in b; }
    if b != [] { assert b[0] in a; }
    if a != [] {
      SameFirst(a, b);
      forall s ensures s in a[1..] <==> s in b[1..] {
        TailOfSorted(a, s);
        TailOfSorted(b, s);
      }
      SortedUnique(a[1..], b[1..]);
      assert a == [a[0]] + a[1..] && b == [b[0]] + b[1..];
    }
  }

  lemma SameFirst(a: seq<Segment>, b: seq<Segment>)
    requires Sorted(a) && Sorted(b) && a != [] && b != [] && a[0] in b && b[0] in a
    ensures a[0] == b[0]
  {
    hide Before;
    var i :| 0 <= i < |b| && b[i] == a[0];
    var j :| 0 <= j < |a| && a[j] == b[0];
    if i > 0 && j > 0 { BeforeAsymmetric(a[0], b[0]); }
  }

  lemma TailOfSorted(a: seq<Segment>, s: Segment)
    requires Sorted(a) && a != []
    ensures s in a[1..] <==> s in a && s != a[0]
  {
    hide Before;
    if s in a[1..] {
      var i :| 0 <= i < |a[1..]| && a[1..][i] == s;
      assert Before(a[0], a[i + 1]);
      if s == a[0] { BeforeAsymmetric(s, s); }
    }
    if s in a && s != a[0] {
      var i :| 0 <= i < |a| && a[i] == s;
      assert a[1..][i - 1] == s;
    }
  }

  // ---------- removal ----------

  function Suspend(l: Log, reason: Reason): Log {
    l.(state := Suspended(reason), current := "")
  }

  /** removeOldestSegment when the file is removed. */
  function Removed(l: Log): Log
    requires l.segments != []
  {
    var oldest := l.segments[0];
    l.(segments := l.segments[1..], retainedBytes := l.retainedBytes - |oldest.bytes|,
       current := if l.current == oldest.name then "" else l.current)
  }

  /** A removal loop: oldest first, while the condition holds and removal succeeds. */
  function RemoveWhile(l: Log, condition: Log -> bool, removes: string -> bool): (Log, bool)
    decreases |l.segments|
  {
    if l.segments == [] || !condition(l) then (l, true)
    else if !removes(l.segments[0].name) then (Suspend(l, CleanupFailed), false)
    else RemoveWhile(Removed(l), condition, removes)
  }

  function RetentionCutoff(now: int, retentionDays: nat): int {
    var cutoff := now - retentionDays * MILLISECONDS_PER_DAY;
    if cutoff < 0 then 0 else cutoff
  }

  function EffectiveMaximum(l: Log, b: Bounds): nat {
    if b.maximumBytes.Some? then b.maximumBytes.value else l.settings.maximumBytes
  }

  predicate Expired(l: Log, cutoff: int) {
    l.segments != [] && l.segments[0].occurredAt < cutoff
  }

  function ApplyRetention(l: Log, b: Bounds, now: int, required: nat, removes: string -> bool): (Log, bool) {
    var cutoff, maximum := RetentionCutoff(now, l.settings.retentionDays), EffectiveMaximum(l, b);
    var (recent, ok) := RemoveWhile(l, (x: Log) => Expired(x, cutoff), removes);
    if !ok then (recent, false)
    else RemoveWhile(recent, (x: Log) => x.retainedBytes + required > maximum, removes)
  }

  // ---------- recording ----------

  function FindCurrent(segments: seq<Segment>, name: string): (r: Option<nat>)
    ensures r.Some? ==> r.value < |segments| && segments[r.value].name == name
    ensures r.None? ==> forall s :: s in segments ==> s.name != name
  {
    if segments == [] then None
    else if segments[0].name == name then Some(0)
    else
      var r := FindCurrent(segments[1..], name);
      if r.None? then None else Some(r.value + 1)
  }

  function Appended(l: Log, i: nat, line: seq<byte>): Log
    requires i < |l.segments|
  {
    l.(segments := l.segments[i := l.segments[i].(bytes := l.segments[i].bytes + line)],
       retainedBytes := l.retainedBytes + |line|)
  }

  function Created(l: Log, s: Segment): Log {
    l.(segments := SortSegments(l.segments + [s]), current := s.name, retainedBytes := l.retainedBytes + |s.bytes|)
  }

  function Write(l: Log, b: Bounds, now: nat, line: seq<byte>, id: string, disk: Disk): Log {
    var i := FindCurrent(l.segments, l.current);
    if i.None? || |l.segments[i.value].bytes| + |line| > b.segmentBytes then
      if !SafeSegmentId(id) || !disk.creates then Suspend(l, WriteFailed)
      else Created(l, Segment(SegmentName(now, id), now, line))
    else if !disk.updates then Suspend(l, WriteFailed)
    else Appended(l, i.value, line)
  }

  function Record(l: Log, b: Bounds, a: Attempt): Log {
    if !l.state.Active? then l
    else if a.now < 0 || a.now > MAXIMUM_SAFE_INTEGER || a.line.None? || |a.line.value| > b.segmentBytes then
      Suspend(l, WriteFailed)
    else
      var (kept, ok) := ApplyRetention(l, b, a.now, |a.line.value|, a.disk.removes);
      if !ok then kept else Write(kept, b, a.now, a.line.value, a.id, a.disk)
  }

  // ---------- what every call keeps ----------

  predicate GoodSegment(s: Segment, b: Bounds, parses: Parser) {
    && OwnedSegmentTime(s.name) == Some(s.occurredAt)
    && |s.bytes| <= b.segmentBytes
    && ValidSegment(parses, s.bytes, s.occurredAt)
  }

  predicate Inv(l: Log, b: Bounds, parses: Parser) {
    && l.retainedBytes == Size(l.segments)
    && Sorted(l.segments)
    && (forall s :: s in l.segments ==> GoodSegment(s, b, parses))
    && (l.state.Suspended? ==> l.current == "")
  }

  /** What the encoder produces for a record of that time: one unmarked line that parses back. */
  predicate EncodedLine(line: seq<byte>, now: int, parses: Parser) {
    line != [] && now >= 0 && !Marked(line) && LineEnd(line) == |line| - 1 && GoodLine(parses, line[..|line| - 1])
    && parses(line[..|line| - 1]) == Some(now)
  }

  /** Exclusive creation fails when the name is taken, and the encoder meets its schema. */
  predicate HonestAttempt(l: Log, a: Attempt, parses: Parser) {
    && (a.line.Some? && a.now >= 0 ==> EncodedLine(a.line.value, a.now, parses))
    && (a.disk.creates && a.now >= 0 ==> forall s :: s in l.segments ==> s.name != SegmentName(a.now, a.id))
  }

  /** `kept` is `l` without some of its oldest segments, its accounts adjusted. */
  ghost predicate Trimmed(l: Log, kept: Log) {
    && |kept.segments| <= |l.segments|
    && kept.segments == l.segments[|l.segments| - |kept.segments|..]
    && kept.retainedBytes == l.retainedBytes - (Size(l.segments) - Size(kept.segments))
    && kept.settings == l.settings
  }

  lemma {:induction false} RemoveWhileTrims(l: Log, condition: Log -> bool, removes: string -> bool)
    ensures var (kept, ok) := RemoveWhile(l, condition, removes);
            && Trimmed(l, kept)
            && (ok ==> kept.state == l.state && (kept.segments == [] || !condition(kept)))
            && (!ok ==> kept.state == Suspended(CleanupFailed) && kept.current == "")
    decreases |l.segments|
  {
    if l.segments != [] && condition(l) && removes(l.segments[0].name) {
      RemoveWhileTrims(Removed(l), condition, removes);
      var kept := RemoveWhile(l, condition, removes).0;
      assert l.segments[1..][|l.segments| - 1 - |kept.segments|..] == l.segments[|l.segments| - |kept.segments|..];
    }
  }

  lemma TrimmedTwice(l: Log, m: Log, n: Log)
    requires Trimmed(l, m) && Trimmed(m, n)
    ensures Trimmed(l, n)
  {
    assert l.segments[|l.segments| - |m.segments|..][|m.segments| - |n.segments|..] == l.segments[|l.segments| - |n.segments|..];
  }

  lemma TrimmedKeeps(l: Log, kept: Log, b: Bounds, parses: Parser)
    requires Inv(l, b, parses) && Trimmed(l, kept) && (kept.state.Suspended? ==> kept.current == "")
    ensures Inv(kept, b, parses) && kept.settings == l.settings
    ensures forall s :: s in kept.segments ==> s in l.segments
  {
    hide GoodSegment, Before;
  }

  /** Retention removes a run of oldest segments; when it succeeds nothing expired is left and the line fits. */
  lemma RetentionTrims(l: Log, b: Bounds, now: int, required: nat, removes: string -> bool)
    requires Sorted(l.segments)
    ensures var (kept, ok) := ApplyRetention(l, b, now, required, removes);
            && Trimmed(l, kept)
            && (!ok ==> kept.state == Suspended(CleanupFailed) && kept.current == "")
            && (ok ==> kept.state == l.state
                       && (kept.segments == [] || kept.retainedBytes + required <= EffectiveMaximum(l, b))
                       && forall s :: s in kept.segments ==> s.occurredAt >= RetentionCutoff(now, l.settings.retentionDays))
  {
    hide Trimmed, RemoveWhile, RetentionCutoff;
    var cutoff, maximum := RetentionCutoff(now, l.settings.retentionDays), EffectiveMaximum(l, b);
    var expired := (x: Log) => Expired(x, cutoff);
    var large := (x: Log) => x.retainedBytes + required > maximum;
    var (recent, ok) := RemoveWhile(l, expired, removes);
    RemoveWhileTrims(l, expired, removes);
    if ok {
      RemoveWhileTrims(recent, large, removes);
      var (kept, fits) := RemoveWhile(recent, large, removes);
      TrimmedTwice(l, recent, kept);
      TrimmedRecent(l, recent, cutoff);
      TrimmedMembers(recent, kept);
    }
  }

  lemma TrimmedMembers(l: Log, kept: Log)
    requires Trimmed(l, kept)
    ensures forall s :: s in kept.segments ==> s in l.segments
  {
  }

  lemma TrimmedRecent(l: Log, kept: Log, cutoff: int)
    requires Sorted(l.segments) && Trimmed(l, kept) && (kept.segments == [] || !Expired(kept, cutoff))
    ensures forall s :: s in kept.segments ==> s.occurredAt >= cutoff
  {
    hide Less;
    forall s | s in kept.segments ensures s.occurredAt >= cutoff {
      var i :| 0 <= i < |kept.segments| && kept.segments[i] == s;
      var d := |l.segments| - |kept.segments|;
      assert i > 0 ==> Before(l.segments[d], l.segments[d + i]);
      assert kept.segments[0] == l.segments[d];
    }
  }

  lemma EncodedIsSegment(line: seq<byte>, now: nat, parses: Parser)
    requires EncodedLine(line, now, parses)
    ensures Records(parses, line) && ValidSegment(parses, line, now)
  {
    assert line[|line|..] == [];
  }

  lemma AppendedIsSegment(bytes: seq<byte>, line: seq<byte>, now: int, at: nat, parses: Parser)
    requires ValidSegment(parses, bytes, at) && EncodedLine(line, now, parses)
    ensures ValidSegment(parses, bytes + line, at)
  {
    hide Records;
    EncodedIsSegment(line, now, parses);
    SegmentIsRecords(parses, bytes, at);
    MarkOfConcatenation(bytes, line);
    RecordsAppend(parses, Unmarked(bytes), line);
    FirstLineKept(parses, Unmarked(bytes), line);
  }

  lemma FirstLineKept(parses: Parser, a: seq<byte>, b: seq<byte>)
    requires Records(parses, a) && a != []
    ensures (a + b)[..LineEnd(a + b)] == a[..LineEnd(a)]
  {
    LineEndOfFirst(a, b);
  }

  lemma {:induction false} SizeOfUpdate(segments: seq<Segment>, i: nat, s: Segment)
    requires i < |segments|
    ensures Size(segments[i := s]) == Size(segments) - |segments[i].bytes| + |s.bytes|
  {
    if i == 0 {
      assert segments[0 := s][1..] == segments[1..];
    } else {
      assert segments[i := s][1..] == segments[1..][i - 1 := s];
      SizeOfUpdate(segments[1..], i - 1, s);
    }
  }

  lemma AppendedKeeps(l: Log, b: Bounds, i: nat, line: seq<byte>, now: int, parses: Parser)
    requires Inv(l, b, parses) && !l.state.Suspended? && i < |l.segments|
    requires EncodedLine(line, now, parses) && |l.segments[i].bytes| + |line| <= b.segmentBytes
    ensures Inv(Appended(l, i, line), b, parses)
  {
    hide ValidSegment, EncodedLine, OwnedSegmentTime, Size, Less;
    var s := l.segments[i];
    var longer := s.(bytes := s.bytes + line);
    var next := Appended(l, i, line).segments;
    assert s in l.segments;
    AppendedIsSegment(s.bytes, line, now, s.occurredAt, parses);
    SizeOfUpdate(l.segments, i, longer);
    forall j, k | 0 <= j < k < |next| ensures Before(next[j], next[k]) { assert Before(l.segments[j], l.segments[k]); }
    forall t | t in next ensures GoodSegment(t, b, parses) {
      assert t == longer || t in l.segments;
    }
  }

  lemma CreatedKeeps(l: Log, b: Bounds, s: Segment, parses: Parser)
    requires Inv(l, b, parses) && !l.state.Suspended? && GoodSegment(s, b, parses)
    requires forall t :: t in l.segments ==> t.name != s.name
    ensures Inv(Created(l, s), b, parses)
    ensures Created(l, s).segments == Insert(s, l.segments)
  {
    hide GoodSegment, Before, Insert;
    assert (l.segments + [s])[..|l.segments|] == l.segments;
    SortedIsFixed(l.segments);
    InsertMembers(s, l.segments);
    InsertSorted(s, l.segments);
  }

  lemma NewSegmentIsGood(now: nat, id: string, line: seq<byte>, b: Bounds, parses: Parser)
    requires now <= MAXIMUM_SAFE_INTEGER && SafeSegmentId(id) && EncodedLine(line, now, parses) && |line| <= b.segmentBytes
    ensures GoodSegment(Segment(SegmentName(now, id), now, line), b, parses)
  {
    hide OwnedSegmentTime, ValidSegment, EncodedLine;
    NameIsOwned(now, id);
    EncodedIsSegment(line, now, parses);
  }

  lemma WriteKeeps(l: Log, b: Bounds, a: Attempt, parses: Parser)
    requires Inv(l, b, parses) && l.state.Active? && HonestAttempt(l, a, parses)
    requires 0 <= a.now <= MAXIMUM_SAFE_INTEGER && a.line.Some? && |a.line.value| <= b.segmentBytes
    ensures var after := Write(l, b, a.now, a.line.value, a.id, a.disk);
            && Inv(after, b, parses) && after.settings == l.settings
            && (after.state.Active? ==> after.retainedBytes == l.retainedBytes + |a.line.value|
                                        && forall s :: s in after.segments ==>
                                             || s.occurredAt == a.now
                                             || exists t :: t in l.segments && t.occurredAt == s.occurredAt)
            && (!after.state.Active? ==> after == Suspend(l, WriteFailed))
  {
    hide GoodSegment, Before, EncodedLine, SegmentName, SortSegments, Sorted, Size, SafeSegmentId;
    var line := a.line.value;
    var i := FindCurrent(l.segments, l.current);
    if i.None? || |l.segments[i.value].bytes| + |line| > b.segmentBytes {
      if SafeSegmentId(a.id) && a.disk.creates {
        var s := Segment(SegmentName(a.now, a.id), a.now, line);
        NewSegmentIsGood(a.now, a.id, line, b, parses);
        CreatedKeeps(l, b, s, parses);
        InsertMembers(s, l.segments);
      }
    } else if a.disk.updates {
      AppendedKeeps(l, b, i.value, line, a.now, parses);
      forall s | s in Appended(l, i.value, line).segments
        ensures exists t :: t in l.segments && t.occurredAt == s.occurredAt
      {
        assert s in l.segments || (l.segments[i.value] in l.segments && l.segments[i.value].occurredAt == s.occurredAt);
      }
    }
  }

  /**
   Every `record` keeps the log's accounts. One that leaves the log active holds nothing past the
   retention cutoff, and is within the aggregate maximum whenever the line alone is.
   */
  lemma RecordKeeps(l: Log, b: Bounds, a: Attempt, parses: Parser)
    requires Inv(l, b, parses) && HonestAttempt(l, a, parses)
    ensures var after := Record(l, b, a);
            && Inv(after, b, parses) && after.settings == l.settings
            && (l.state.Active? && after.state.Active? ==>
                  && a.line.Some?
                  && (after.retainedBytes <= EffectiveMaximum(l, b) <==> |a.line.value| <= EffectiveMaximum(l, b))
                  && forall s :: s in after.segments ==> s.occurredAt >= RetentionCutoff(a.now, l.settings.retentionDays))
  {
    hide ApplyRetention, Write, GoodSegment, Before, EncodedLine, SegmentName, Sorted, Size, Trimmed;
    if l.state.Active? && 0 <= a.now <= MAXIMUM_SAFE_INTEGER && a.line.Some? && |a.line.value| <= b.segmentBytes {
      var (kept, ok) := ApplyRetention(l, b, a.now, |a.line.value|, a.disk.removes);
      RetentionTrims(l, b, a.now, |a.line.value|, a.disk.removes);
      TrimmedKeeps(l, kept, b, parses);
      if ok {
        WriteKeeps(kept, b, a, parses);
        EmptySize(kept.segments);
      }
    }
  }

  lemma EmptySize(segments: seq<Segment>)
    ensures segments == [] ==> Size(segments) == 0
  {
  }

  /** With the segment bound at most the maximum, as the constructor checks, an active log is always within it. */
  lemma ActiveLogIsBounded(l: Log, b: Bounds, a: Attempt, parses: Parser)
    requires Inv(l, b, parses) && HonestAttempt(l, a, parses) && b.segmentBytes <= EffectiveMaximum(l, b)
    requires l.state.Active? && Record(l, b, a).state.Active?
    ensures Record(l, b, a).retainedBytes == Size(Record(l, b, a).segments) <= EffectiveMaximum(l, b)
  {
    RecordKeeps(l, b, a, parses);
    LineWithinBound(l, b, a);
  }

  lemma LineWithinBound(l: Log, b: Bounds, a: Attempt)
    requires l.state.Active? && Record(l, b, a).state.Active?
    ensures a.line.Some? && |a.line.value| <= b.segmentBytes
  {
  }

  /** Only an active log is active after a record. */
  lemma ActiveStays(l: Log, b: Bounds, a: Attempt)
    requires Record(l, b, a).state.Active?
    ensures l.state.Active?
  {
    hide ApplyRetention, Write;
  }

  // ---------- contents in order ----------

  function Pieces(segments: seq<Segment>): seq<seq<byte>> {
    seq(|segments|, i requires 0 <= i < |segments| => segments[i].bytes)
  }

  function Times(segments: seq<Segment>): seq<nat> {
    seq(|segments|, i requires 0 <= i < |segments| => segments[i].occurredAt)
  }

  function Contents(segments: seq<Segment>): seq<byte> {
    Concat(Pieces(segments))
  }

  /** The segment being written is the newest one, or there is none. */
  predicate CurrentIsLast(l: Log) {
    l.current == "" || (l.segments != [] && l.segments[|l.segments| - 1].name == l.current) ||
    forall s :: s in l.segments ==> s.name != l.current
  }

  lemma {:induction false} ConcatAppend(a: seq<seq<byte>>, b: seq<seq<byte>>)
    ensures Concat(a + b) == Concat(a) + Concat(b)
  {
    if a == [] {
      assert a + b == b;
    } else {
      assert (a + b)[1..] == a[1..] + b;
      ConcatAppend(a[1..], b);
    }
  }

  lemma ContentsAppend(segments: seq<Segment>, s: Segment)
    ensures Contents(segments + [s]) == Contents(segments) + s.bytes
  {
    assert Pieces(segments + [s]) == Pieces(segments) + [s.bytes];
    ConcatAppend(Pieces(segments), [s.bytes]);
    assert Concat([s.bytes]) == s.bytes + Concat([s.bytes][1..]);
  }

  lemma CurrentAtEnd(l: Log, i: nat)
    requires CurrentIsLast(l) && DistinctNames(l.segments) && l.current != ""
    requires i < |l.segments| && l.segments[i].name == l.current
    ensures i == |l.segments| - 1
  {
    assert l.segments[i] in l.segments;
  }

  lemma NoEmptyName(l: Log, b: Bounds, parses: Parser, i: nat)
    requires Inv(l, b, parses) && i < |l.segments|
    ensures l.segments[i].name != ""
  {
    assert l.segments[i] in l.segments;
    assert OwnedSegmentTime("").None?;
  }

  lemma AppendedAtEnd(l: Log, b: Bounds, i: nat, line: seq<byte>, parses: Parser)
    requires Inv(l, b, parses) && CurrentIsLast(l) && i < |l.segments| && l.segments[i].name == l.current
    ensures Contents(Appended(l, i, line).segments) == Contents(l.segments) + line
    ensures CurrentIsLast(Appended(l, i, line))
  {
    hide Sorted, GoodSegment, Contents, Size;
    var n := |l.segments| - 1;
    GoodNames(l, b, parses);
    SortedDistinct(l.segments);
    NoEmptyName(l, b, parses, i);
    CurrentAtEnd(l, i);
    var front, last := l.segments[..n], l.segments[n];
    assert l.segments == front + [last];
    var longer := last.(bytes := last.bytes + line);
    assert l.segments[n := longer] == front + [longer];
    ContentsAppend(front, last);
    ContentsAppend(front, longer);
  }

  /** A new segment is the last one exactly when it comes after all others; then its bytes end the log. */
  lemma CreatedAtEnd(l: Log, s: Segment)
    requires Sorted(l.segments) && s.name != "" && forall t :: t in l.segments ==> t.name != s.name
    ensures CurrentIsLast(Created(l, s)) <==> ComesLast(l, s)
    ensures ComesLast(l, s) ==> Contents(Created(l, s).segments) == Contents(l.segments) + s.bytes
  {
    hide Sorted, Contents, Before, Insert;
    assert (l.segments + [s])[..|l.segments|] == l.segments;
    SortedIsFixed(l.segments);
    InsertMembers(s, l.segments);
    InsertSorted(s, l.segments);
    if ComesLast(l, s) {
      InsertLast(s, l.segments);
      ContentsAppend(l.segments, s);
    }
    if CurrentIsLast(Created(l, s)) {
      var all := Insert(s, l.segments);
      assert s in all && Created(l, s).segments == all;
      LastIsAfterAll(all, s);
    }
  }

  lemma LastIsAfterAll(segments: seq<Segment>, s: Segment)
    requires Sorted(segments) && segments != [] && segments[|segments| - 1].name == s.name
    requires forall t :: t in segments && t.name == s.name ==> t == s
    ensures forall t :: t in segments && t != s ==> Before(t, s)
  {
    hide Before;
  }

  /** Every segment there is comes before this one. */
  predicate ComesLast(l: Log, s: Segment) {
    forall t :: t in l.segments ==> Before(t, s)
  }

  /** The line does not go to the current segment. */
  predicate Opens(l: Log, b: Bounds, line: seq<byte>) {
    var i := FindCurrent(l.segments, l.current);
    i.None? || |l.segments[i.value].bytes| + |line| > b.segmentBytes
  }

  /** A segment opened for the line, if one is, comes after all others. */
  predicate InOrder(l: Log, b: Bounds, now: nat, line: seq<byte>, id: string) {
    Opens(l, b, line) ==> ComesLast(l, Segment(SegmentName(now, id), now, line))
  }

  lemma NameIsNotEmpty(now: nat, id: string)
    ensures SegmentName(now, id) != ""
  {
  }

  lemma WriteAppends(l: Log, b: Bounds, a: Attempt, parses: Parser)
    requires Inv(l, b, parses) && l.state.Active? && CurrentIsLast(l) && HonestAttempt(l, a, parses)
    requires 0 <= a.now <= MAXIMUM_SAFE_INTEGER && a.line.Some?
    requires Write(l, b, a.now, a.line.value, a.id, a.disk).state.Active?
    ensures var after, ordered := Write(l, b, a.now, a.line.value, a.id, a.disk), InOrder(l, b, a.now, a.line.value, a.id);
            && (CurrentIsLast(after) <==> ordered)
            && (ordered ==> Contents(after.segments) == Contents(l.segments) + a.line.value)
  {
    hide Sorted, SafeSegmentId, SegmentName, GoodSegment, Contents, CurrentIsLast, Created, Appended, Size, ComesLast,
         EncodedLine;
    var line, i := a.line.value, FindCurrent(l.segments, l.current);
    NameIsNotEmpty(a.now, a.id);
    if Opens(l, b, line) {
      CreatedAtEnd(l, Segment(SegmentName(a.now, a.id), a.now, line));
    } else {
      AppendedAtEnd(l, b, i.value, line, parses);
    }
  }

  lemma GoodNames(l: Log, b: Bounds, parses: Parser)
    requires Inv(l, b, parses)
    ensures Sorted(l.segments) && forall s :: s in l.segments ==> OwnedSegmentTime(s.name) == Some(s.occurredAt)
  {
  }

  // ---------- reading the directory again ----------

  /** One listed file: its name, and its bytes when the stable read succeeds. */
  datatype DiskEntry = DiskEntry(name: string, read: Option<seq<byte>>)

  predicate Loadable(e: DiskEntry, b: Bounds, parses: Parser) {
    && OwnedSegmentTime(e.name).Some? && e.read.Some? && |e.read.value| <= b.segmentBytes
    && ValidSegment(parses, e.read.value, OwnedSegmentTime(e.name).value)
  }

  function Loaded(entries: seq<DiskEntry>, b: Bounds, parses: Parser): seq<Segment>
    requires forall e :: e in entries ==> Loadable(e, b, parses)
  {
    seq(|entries|, i requires 0 <= i < |entries| =>
      assert Loadable(entries[i], b, parses);
      Segment(entries[i].name, OwnedSegmentTime(entries[i].name).value, entries[i].read.value))
  }

  predicate DistinctEntries(entries: seq<DiskEntry>) {
    forall i, j :: 0 <= i < j < |entries| ==> entries[i].name != entries[j].name
  }

  /** reloadSegments; `None` is the thrown error. The listing itself fails above its limit of entries. */
  function Reload(l: Log, entries: seq<DiskEntry>, b: Bounds, parses: Parser): Option<Log> {
    if |entries| > MAXIMUM_SEGMENTS then None
    else if forall e :: e in entries ==> Loadable(e, b, parses) then
      var segments := SortSegments(Loaded(entries, b, parses));
      Some(l.(segments := segments, retainedBytes := Size(segments), current := ""))
    else None
  }

  lemma ReloadKeeps(l: Log, entries: seq<DiskEntry>, b: Bounds, parses: Parser)
    requires DistinctEntries(entries) && Reload(l, entries, b, parses).Some?
    ensures Inv(Reload(l, entries, b, parses).value, b, parses)
  {
    hide ValidSegment, OwnedSegmentTime, Before, SortSegments, Size, Sorted;
    var loaded := Loaded(entries, b, parses);
    SortSegmentsSorts(loaded);
    forall s | s in loaded ensures GoodSegment(s, b, parses) {
      var i :| 0 <= i < |loaded| && loaded[i] == s;
      assert Loadable(entries[i], b, parses);
    }
  }

  /** The directory holds what the log believes it holds. */
  predicate OnDisk(l: Log, entries: seq<DiskEntry>) {
    && (forall e :: e in entries ==> e.read.Some? && exists s :: s in l.segments && s.name == e.name && s.bytes == e.read.value)
    && (forall s :: s in l.segments ==> DiskEntry(s.name, Some(s.bytes)) in entries)
  }

  /** What is on disk loads, and sorts to the segments the log holds. */
  lemma LoadedRestores(l: Log, entries: seq<DiskEntry>, b: Bounds, parses: Parser)
    requires Inv(l, b, parses) && DistinctEntries(entries) && OnDisk(l, entries)
    ensures forall e :: e in entries ==> Loadable(e, b, parses)
    ensures SortSegments(Loaded(entries, b, parses)) == l.segments && |entries| == |l.segments|
  {
    hide ValidSegment, OwnedSegmentTime, Before, SortSegments, Size;
    forall e | e in entries ensures Loadable(e, b, parses) {
      var s :| s in l.segments && s.name == e.name && s.bytes == e.read.value;
      assert GoodSegment(s, b, parses);
    }
    var loaded := Loaded(entries, b, parses);
    SortSegmentsSorts(loaded);
    forall s ensures s in SortSegments(loaded) <==> s in l.segments {
      if s in l.segments {
        var i :| 0 <= i < |entries| && entries[i] == DiskEntry(s.name, Some(s.bytes));
        assert GoodSegment(s, b, parses);
        assert loaded[i] == s;
      }
      if s in loaded {
        var i :| 0 <= i < |loaded| && loaded[i] == s;
        assert entries[i] in entries;
        var t :| t in l.segments && t.name == entries[i].name && t.bytes == entries[i].read.value;
        assert GoodSegment(t, b, parses);
      }
    }
    SortedUnique(SortSegments(loaded), l.segments);
    assert |SortSegments(loaded)| == |multiset(loaded)| == |loaded| by { SameCount(SortSegments(loaded), loaded); }
  }

  lemma SameCount(a: seq<Segment>, b: seq<Segment>)
    requires multiset(a) == multiset(b)
    ensures |a| == |b| == |multiset(b)|
  {
    assert |a| == |multiset(a)|;
  }

  /**
   Reading back what was written restores the same segments and the same accounts if and only if
   there are no more of them than the listing admits; otherwise the reload throws.
   */
  lemma ReloadRestores(l: Log, entries: seq<DiskEntry>, b: Bounds, parses: Parser)
    requires Inv(l, b, parses) && DistinctEntries(entries) && OnDisk(l, entries)
    ensures Reload(l, entries, b, parses) == Some(l.(current := "")) <==> |l.segments| <= MAXIMUM_SEGMENTS
    ensures Reload(l, entries, b, parses).None? <==> |l.segments| > MAXIMUM_SEGMENTS
  {
    hide Loadable, SortSegments, Size, GoodSegment, Sorted;
    LoadedRestores(l, entries, b, parses);
  }

  /** A record that succeeds right after a reload always opens a segment of its own. */
  lemma RecordAfterReloadOpensSegment(l: Log, entries: seq<DiskEntry>, b: Bounds, a: Attempt, parses: Parser)
    requires DistinctEntries(entries) && Reload(l, entries, b, parses).Some?
    requires var m := Reload(l, entries, b, parses).value; m.state.Active? && Record(m, b, a).state.Active?
    ensures var m := Reload(l, entries, b, parses).value;
            var after := Record(m, b, a);
            && a.now >= 0 && a.line.Some?
            && exists n :: 0 <= n <= |m.segments|
                 && after.segments == SortSegments(Newest(m.segments, n) + [Segment(SegmentName(a.now, a.id), a.now, a.line.value)])
  {
    hide Reload, ApplyRetention, GoodSegment, Sorted, SortSegments, Size, SegmentName, SafeSegmentId;
    var m := Reload(l, entries, b, parses).value;
    ReloadKeeps(l, entries, b, parses);
    ReloadForgetsCurrent(l, entries, b, parses);
    LineWithinBound(m, b, a);
    var (kept, ok) := ApplyRetention(m, b, a.now, |a.line.value|, a.disk.removes);
    RetentionTrims(m, b, a.now, |a.line.value|, a.disk.removes);
    RetentionCurrent(m, b, a.now, |a.line.value|, a.disk.removes);
    TrimmedKeeps(m, kept, b, parses);
    NothingIsUnnamed(kept, b, parses);
    assert kept.segments == Newest(m.segments, |kept.segments|);
  }

  lemma ReloadForgetsCurrent(l: Log, entries: seq<DiskEntry>, b: Bounds, parses: Parser)
    requires Reload(l, entries, b, parses).Some?
    ensures Reload(l, entries, b, parses).value.current == ""
  {
  }

  lemma NothingIsUnnamed(l: Log, b: Bounds, parses: Parser)
    requires Inv(l, b, parses)
    ensures FindCurrent(l.segments, "").None?
  {
    var i := FindCurrent(l.segments, "");
    if i.Some? { NoEmptyName(l, b, parses, i.value); }
  }

  // ---------- the support snapshot ----------

  datatype Snapshot = Snapshot(bytes: seq<byte>, retainedSegmentCount: nat, includedSegmentCount: nat, retainedBytes: int,
                               includedBytes: nat, truncated: bool, hasLocations: bool)

  function Newest(segments: seq<Segment>, n: nat): seq<Segment>
    requires n <= |segments|
  {
    segments[|segments| - n..]
  }

  /** The longest run of newest segments that fits. */
  predicate LongestFit(segments: seq<Segment>, n: nat, maximum: nat) {
    && n <= |segments|
    && Size(Newest(segments, n)) <= maximum
    && forall m :: n < m <= |segments| ==> Size(Newest(segments, m)) > maximum
  }

  function SnapshotOf(l: Log, n: nat): Snapshot
    requires n <= |l.segments|
  {
    var chosen := Newest(l.segments, n);
    Snapshot(Contents(chosen), |l.segments|, n, l.retainedBytes, Size(chosen), Size(chosen) < l.retainedBytes, true)
  }

  datatype Mode = Standard | Extended

  function MaximumBytes(mode: Mode): nat {
    if mode.Standard? then 1024 * 1024 else 8 * 1024 * 1024
  }

  /** validateBuildInput returns normally; it ends with validateStructuredLog. */
  predicate BundleAccepts(mode: Mode, createdAt: int, s: Snapshot, parses: Parser) {
    && 0 <= createdAt <= MAXIMUM_SAFE_INTEGER
    && !(mode.Extended? && !s.hasLocations)
    && |s.bytes| == s.includedBytes
    && s.includedBytes <= MaximumBytes(mode)
    && s.includedBytes <= s.retainedBytes
    && s.includedSegmentCount <= s.retainedSegmentCount
    && s.truncated == (s.includedBytes < s.retainedBytes)
    && ValidLog(parses, s.bytes)
  }

  lemma {:induction false} ContentsSize(segments: seq<Segment>)
    ensures |Contents(segments)| == Size(segments)
  {
    if segments != [] {
      ContentsSize(segments[1..]);
      assert Pieces(segments)[1..] == Pieces(segments[1..]);
    }
  }

  lemma NewestWithin(segments: seq<Segment>, n: nat)
    requires n <= |segments|
    ensures Size(Newest(segments, n)) <= Size(segments)
  {
    SizeAppend(segments[..|segments| - n], Newest(segments, n));
    assert segments == segments[..|segments| - n] + Newest(segments, n);
  }

  lemma {:induction false} RemoveWhileCurrent(l: Log, condition: Log -> bool, removes: string -> bool)
    ensures var kept := RemoveWhile(l, condition, removes).0; kept.current == "" || kept.current == l.current
    decreases |l.segments|
  {
    if l.segments != [] && condition(l) && removes(l.segments[0].name) { RemoveWhileCurrent(Removed(l), condition, removes); }
  }

  lemma TrimmedCurrent(l: Log, kept: Log)
    requires Trimmed(l, kept) && CurrentIsLast(l) && (kept.current == "" || kept.current == l.current)
    ensures CurrentIsLast(kept)
  {
  }

  lemma RetentionCurrent(l: Log, b: Bounds, now: int, required: nat, removes: string -> bool)
    ensures var kept := ApplyRetention(l, b, now, required, removes).0; kept.current == "" || kept.current == l.current
  {
    hide RemoveWhile, RetentionCutoff;
    var cutoff, maximum := RetentionCutoff(now, l.settings.retentionDays), EffectiveMaximum(l, b);
    var expired := (x: Log) => Expired(x, cutoff);
    RemoveWhileCurrent(l, expired, removes);
    RemoveWhileCurrent(RemoveWhile(l, expired, removes).0, (x: Log) => x.retainedBytes + required > maximum, removes);
  }

  /** What a record writes to, once retention has run. */
  function Retained(l: Log, b: Bounds, a: Attempt): Log
    requires a.line.Some?
  {
    ApplyRetention(l, b, a.now, |a.line.value|, a.disk.removes).0
  }

  /**
   A record leaves the current segment last exactly when it appends to it or the segment it opens
   comes after all others; then the log is a run of its newest segments with the line at the end.
   */
  lemma RecordAppends(l: Log, b: Bounds, a: Attempt, parses: Parser)
    requires Inv(l, b, parses) && l.state.Active? && CurrentIsLast(l) && HonestAttempt(l, a, parses)
    requires Record(l, b, a).state.Active?
    ensures a.line.Some? && a.now >= 0
    ensures var after, ordered := Record(l, b, a), InOrder(Retained(l, b, a), b, a.now, a.line.value, a.id);
            && (CurrentIsLast(after) <==> ordered)
            && (ordered ==> exists n :: 0 <= n <= |l.segments|
                              && Contents(after.segments) == Contents(Newest(l.segments, n)) + a.line.value)
  {
    hide ApplyRetention, Write, GoodSegment, Sorted, Size, Contents, CurrentIsLast, RetentionCutoff, EffectiveMaximum,
         InOrder, EncodedLine, SegmentName;
    LineWithinBound(l, b, a);
    var line := a.line.value;
    var (kept, ok) := ApplyRetention(l, b, a.now, |line|, a.disk.removes);
    RetentionTrims(l, b, a.now, |line|, a.disk.removes);
    RetentionCurrent(l, b, a.now, |line|, a.disk.removes);
    TrimmedCurrent(l, kept);
    TrimmedKeeps(l, kept, b, parses);
    WriteAppends(kept, b, a, parses);
    assert kept.segments == Newest(l.segments, |kept.segments|);
  }

  /** A clock past every segment keeps the order, and so does a record that fits the current segment. */
  lemma LaterClockInOrder(l: Log, b: Bounds, now: nat, line: seq<byte>, id: string)
    requires (forall s :: s in l.segments ==> s.occurredAt < now) || !Opens(l, b, line)
    ensures InOrder(l, b, now, line, id)
  {
    hide SegmentName, Opens;
  }

  /**
   The bundle accepts the snapshot of a well-kept log exactly when no included segment but the
   first begins with a byte order mark.
   */
  lemma SnapshotIsAccepted(l: Log, b: Bounds, n: nat, mode: Mode, createdAt: int, parses: Parser)
    requires Inv(l, b, parses) && NoRecordIsMarked(parses) && LongestFit(l.segments, n, MaximumBytes(mode))
    requires 0 <= createdAt <= MAXIMUM_SAFE_INTEGER
    ensures BundleAccepts(mode, createdAt, SnapshotOf(l, n), parses)
            <==> forall i :: |l.segments| - n < i < |l.segments| ==> !Marked(l.segments[i].bytes)
  {
    hide ValidLog, ValidSegment, OwnedSegmentTime, Sorted, Size, Marked, NoRecordIsMarked;
    var chosen := Newest(l.segments, n);
    var pieces, times := Pieces(chosen), Times(chosen);
    ContentsSize(chosen);
    NewestWithin(l.segments, n);
    forall i | 0 <= i < |pieces| ensures ValidSegment(parses, pieces[i], times[i]) {
      assert GoodSegment(chosen[i], b, parses);
    }
    ConcatenationIsValid(parses, pieces, times);
    assert forall i :: 0 <= i < |pieces| ==> pieces[i] == l.segments[|l.segments| - n + i].bytes;
    assert forall i :: |l.segments| - n <= i < |l.segments| ==> pieces[i - (|l.segments| - n)] == l.segments[i].bytes;
  }

  /** Segments written by `record` never begin with a mark. */
  predicate Unmarkable(l: Log) {
    forall s :: s in l.segments ==> !Marked(s.bytes)
  }

  lemma RecordKeepsUnmarked(l: Log, b: Bounds, a: Attempt, parses: Parser)
    requires Inv(l, b, parses) && HonestAttempt(l, a, parses) && Unmarkable(l)
    ensures Unmarkable(Record(l, b, a))
  {
    hide ApplyRetention, GoodSegment, Sorted, Size, Trimmed, SegmentName, ValidSegment, OwnedSegmentTime, Marked;
    if l.state.Active? && 0 <= a.now <= MAXIMUM_SAFE_INTEGER && a.line.Some? && |a.line.value| <= b.segmentBytes {
      var line := a.line.value;
      var (kept, ok) := ApplyRetention(l, b, a.now, |line|, a.disk.removes);
      RetentionTrims(l, b, a.now, |line|, a.disk.removes);
      TrimmedKeeps(l, kept, b, parses);
      if ok {
        WriteKeepsUnmarked(kept, b, a, parses);
      }
    }
  }

  lemma WriteKeepsUnmarked(l: Log, b: Bounds, a: Attempt, parses: Parser)
    requires Inv(l, b, parses) && HonestAttempt(l, a, parses) && Unmarkable(l)
    requires 0 <= a.now <= MAXIMUM_SAFE_INTEGER && a.line.Some?
    ensures Unmarkable(Write(l, b, a.now, a.line.value, a.id, a.disk))
  {
    hide Sorted, Size, SegmentName, OwnedSegmentTime, Marked, Insert, Before, SortSegments, SafeSegmentId, Records;
    var line, i := a.line.value, FindCurrent(l.segments, l.current);
    var s := Segment(SegmentName(a.now, a.id), a.now, line);
    SortedCreated(l.segments, s);
    if i.Some? {
      var bytes := l.segments[i.value].bytes;
      assert GoodSegment(l.segments[i.value], b, parses);
      SegmentIsRecords(parses, bytes, l.segments[i.value].occurredAt);
      MarkOfConcatenation(bytes, line);
    }
  }

  lemma SortedCreated(segments: seq<Segment>, s: Segment)
    requires Sorted(segments)
    ensures forall t :: t in SortSegments(segments + [s]) <==> t == s || t in segments
  {
    hide Before, Insert;
    assert (segments + [s])[..|segments|] == segments;
    SortedIsFixed(segments);
    InsertMembers(s, segments);
  }
}
