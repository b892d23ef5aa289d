/**
 What one call of `record` does to the ordinary log, told from the segments it had, the clock, the
 record and what the filesystem answers (operational-diagnostics.ts).
 */
module LogHistory {
  import opened Common
  import opened Text
  import opened SegmentNames
  import opened StructuredLog
  import opened OperationalLog
  import opened OperationalRuns

  // ---------- which segments retention removes ----------

  /** With segment `i` the oldest one left: it is past the retention time, or the line does not fit beside what is left. */
  predicate Due(l: Log, b: Bounds, now: int, required: nat, i: nat)
    requires i < |l.segments|
  {
    || l.segments[i].occurredAt < now - l.settings.retentionDays * 86400000
    || Size(l.segments[i..]) + required > (if b.maximumBytes.Some? then b.maximumBytes.value else l.settings.maximumBytes)
  }

  /** Exactly the first `n` segments go: each is due and can be removed, and the next one is not due or cannot be removed. */
  predicate Cut(l: Log, b: Bounds, now: int, required: nat, removes: string -> bool, n: nat) {
    && n <= |l.segments|
    && (forall i :: 0 <= i < n ==> Due(l, b, now, required, i) && removes(l.segments[i].name))
    && (n < |l.segments| ==> !Due(l, b, now, required, n) || !removes(l.segments[n].name))
  }

  lemma CutIsUnique(l: Log, b: Bounds, now: int, required: nat, removes: string -> bool, n: nat, m: nat)
    requires Cut(l, b, now, required, removes, n) && Cut(l, b, now, required, removes, m)
    ensures n == m
  {
    hide Due;
  }

  /** The log after its first `n` segments were removed. */
  function Without(l: Log, n: nat): (r: Log)
    requires n <= |l.segments|
    ensures r.segments == l.segments[n..] && r.state == l.state && r.settings == l.settings
    decreases n
  {
    if n == 0 then l else
      var rest := Without(Removed(l), n - 1);
      assert l.segments[1..][n - 1..] == l.segments[n..];
      rest
  }

  lemma {:induction false} WithoutAccounts(l: Log, n: nat)
    requires n <= |l.segments| && l.retainedBytes == Size(l.segments)
    ensures Without(l, n).retainedBytes == Size(l.segments[n..])
    ensures Without(l, n).current ==
            if exists i :: 0 <= i < n && l.segments[i].name == l.current then "" else l.current
    decreases n
  {
    if n > 0 {
      var r := Removed(l);
      WithoutAccounts(r, n - 1);
      assert l.segments[1..][n - 1..] == l.segments[n..];
      assert forall i :: 0 < i < n ==> l.segments[i] == r.segments[i - 1];
      assert forall i :: 0 <= i < n - 1 ==> r.segments[i] == l.segments[i + 1];
      if l.current == l.segments[0].name {
        assert r.current == "";
      }
    }
  }

  lemma {:induction false} WithoutAgain(l: Log, n: nat, m: nat)
    requires n <= |l.segments| && m <= |l.segments| - n
    ensures Without(Without(l, n), m) == Without(l, n + m)
    decreases n
  {
    if n > 0 { WithoutAgain(Removed(l), n - 1, m); }
  }

  /** A removal loop stops at the first segment that it need not or cannot remove. */
  lemma {:induction false} LoopCuts(l: Log, condition: Log -> bool, removes: string -> bool) returns (n: nat)
    ensures n <= |l.segments|
    ensures forall i :: 0 <= i < n ==> condition(Without(l, i)) && removes(l.segments[i].name)
    ensures n < |l.segments| ==> !condition(Without(l, n)) || !removes(l.segments[n].name)
    ensures RemoveWhile(l, condition, removes) ==
            if n < |l.segments| && condition(Without(l, n)) then (Suspend(Without(l, n), CleanupFailed), false)
            else (Without(l, n), true)
    decreases |l.segments|
  {
    if l.segments == [] || !condition(l) || !removes(l.segments[0].name) {
      n := 0;
    } else {
      var m := LoopCuts(Removed(l), condition, removes);
      n := m + 1;
      forall i | 0 <= i < n ensures condition(Without(l, i)) && removes(l.segments[i].name) {
        if i > 0 { assert Without(l, i) == Without(Removed(l), i - 1); }
      }
    }
  }

  lemma CutoffIs(now: int, days: nat, at: nat)
    ensures at < RetentionCutoff(now, days) <==> at < now - days * 86400000
  {
  }

  lemma NoneExpiredLater(segments: seq<Segment>, n: nat, m: nat, cutoff: int)
    requires OperationalLog.Sorted(segments) && n <= m < |segments| && segments[n].occurredAt >= cutoff
    ensures segments[m].occurredAt >= cutoff
  {
    hide Less;
    if n < m { assert Before(segments[n], segments[m]); }
  }

  /** The first loop removes segments past the retention time. */
  lemma ExpiredCuts(l: Log, cutoff: int, removes: string -> bool) returns (n: nat)
    ensures n <= |l.segments|
    ensures forall i :: 0 <= i < n ==> l.segments[i].occurredAt < cutoff && removes(l.segments[i].name)
    ensures n < |l.segments| ==> l.segments[n].occurredAt >= cutoff || !removes(l.segments[n].name)
    ensures RemoveWhile(l, (x: Log) => Expired(x, cutoff), removes) ==
            if n < |l.segments| && l.segments[n].occurredAt < cutoff then (Suspend(Without(l, n), CleanupFailed), false)
            else (Without(l, n), true)
  {
    hide RemoveWhile, Without;
    var expired := (x: Log) => Expired(x, cutoff);
    n := LoopCuts(l, expired, removes);
    forall i | 0 <= i < |l.segments| ensures expired(Without(l, i)) <==> l.segments[i].occurredAt < cutoff {
      assert l.segments[i..][0] == l.segments[i];
    }
  }

  /** The second loop removes segments while the line does not fit. */
  lemma LargeCuts(l: Log, start: nat, required: nat, maximum: nat, removes: string -> bool) returns (n: nat)
    requires start <= |l.segments| && l.retainedBytes == Size(l.segments)
    ensures start <= n <= |l.segments|
    ensures forall i :: start <= i < n ==> Size(l.segments[i..]) + required > maximum && removes(l.segments[i].name)
    ensures n < |l.segments| ==> Size(l.segments[n..]) + required <= maximum || !removes(l.segments[n].name)
    ensures RemoveWhile(Without(l, start), (x: Log) => x.retainedBytes + required > maximum, removes) ==
            if n < |l.segments| && Size(l.segments[n..]) + required > maximum then (Suspend(Without(l, n), CleanupFailed), false)
            else (Without(l, n), true)
  {
    hide RemoveWhile, Without, Size;
    var large := (x: Log) => x.retainedBytes + required > maximum;
    var recent := Without(l, start);
    var m := LoopCuts(recent, large, removes);
    n := start + m;
    forall i | start <= i < n ensures Size(l.segments[i..]) + required > maximum && removes(l.segments[i].name) {
      assert large(Without(recent, i - start)) && removes(recent.segments[i - start].name);
      WithoutAgain(l, start, i - start);
      WithoutAccounts(l, i);
    }
    WithoutAgain(l, start, m);
    WithoutAccounts(l, n);
  }

  /** Retention removes exactly the segments that are due, oldest first, up to the first that cannot be removed. */
  lemma RetentionIsExact(l: Log, b: Bounds, now: int, required: nat, removes: string -> bool) returns (n: nat)
    requires OperationalLog.Sorted(l.segments) && l.retainedBytes == Size(l.segments)
    ensures Cut(l, b, now, required, removes, n)
    ensures ApplyRetention(l, b, now, required, removes) ==
            if n < |l.segments| && Due(l, b, now, required, n) then (Suspend(Without(l, n), CleanupFailed), false)
            else (Without(l, n), true)
  {
    hide OperationalLog.Sorted, RemoveWhile, Size, Without, RetentionCutoff, Suspend;
    var cutoff := RetentionCutoff(now, l.settings.retentionDays);
    forall i | 0 <= i < |l.segments|
      ensures l.segments[i].occurredAt < cutoff <==> l.segments[i].occurredAt < now - l.settings.retentionDays * 86400000
    {
      CutoffIs(now, l.settings.retentionDays, l.segments[i].occurredAt);
    }
    n := ExpiredCuts(l, cutoff, removes);
    if n == |l.segments| || l.segments[n].occurredAt >= cutoff {
      var start := n;
      n := LargeCuts(l, start, required, EffectiveMaximum(l, b), removes);
      if n < |l.segments| { NoneExpiredLater(l.segments, start, n, cutoff); }
    }
  }

  // ---------- what a record does ----------

  /** No record comes of the attempt: the clock, the schema or the size is out of bounds. */
  predicate Unfit(b: Bounds, a: Attempt) {
    a.now < 0 || a.now > 9007199254740991 || a.line.None? || |a.line.value| > b.segmentBytes
  }

  /** An inactive log ignores the call; an unfit record suspends an active one and changes no segment. */
  lemma UnfitIsExact(l: Log, b: Bounds, a: Attempt)
    ensures !l.state.Active? ==> Record(l, b, a) == l
    ensures l.state.Active? && Unfit(b, a) ==>
              Record(l, b, a) == l.(state := Suspended(WriteFailed), current := "")
  {
  }

  /** The segment that still has room for the line: the current one, unless it was removed. */
  predicate Holds(kept: seq<Segment>, k: nat, current: string, b: Bounds, line: seq<byte>) {
    k < |kept| && kept[k].name == current && |kept[k].bytes| + |line| <= b.segmentBytes
  }

  lemma {:induction false} SortKeepsMembers(segments: seq<Segment>)
    ensures multiset(SortSegments(segments)) == multiset(segments)
    decreases |segments|
  {
    hide OperationalLog.Insert;
    if segments != [] {
      var front, last := segments[..|segments| - 1], segments[|segments| - 1];
      assert segments == front + [last];
      SortKeepsMembers(front);
      OperationalLog.InsertMembers(last, SortSegments(front));
    }
  }

  /** Writing the line when retention succeeded. */
  lemma WriteIsExact(l: Log, b: Bounds, now: nat, line: seq<byte>, id: string, disk: Disk)
    requires DistinctNames(l.segments)
    ensures var t := Write(l, b, now, line, id, disk);
            && t.settings == l.settings
            && (forall k: nat :: Holds(l.segments, k, l.current, b, line) ==>
                  if disk.updates then
                    && t.state == l.state && t.current == l.current
                    && t.segments == l.segments[k := l.segments[k].(bytes := l.segments[k].bytes + line)]
                  else t == l.(state := Suspended(WriteFailed), current := ""))
            && ((forall k: nat :: !Holds(l.segments, k, l.current, b, line)) ==>
                  if SafeSegmentId(id) && disk.creates then
                    && t.state == l.state && t.current == "ordinary-" + Decimal(now) + "-" + id + ".jsonl"
                    && multiset(t.segments) == multiset(l.segments) + multiset{Segment(t.current, now, line)}
                  else t == l.(state := Suspended(WriteFailed), current := ""))
  {
    hide SortSegments, Decimal, SafeSegmentId;
    var s := Segment(SegmentName(now, id), now, line);
    SortKeepsMembers(l.segments + [s]);
    var i := FindCurrent(l.segments, l.current);
    forall k: nat | Holds(l.segments, k, l.current, b, line) ensures i == Some(k) {
      assert l.segments[k] in l.segments;
    }
    if i.Some? && |l.segments[i.value].bytes| + |line| <= b.segmentBytes {
      assert Holds(l.segments, i.value, l.current, b, line);
    }
  }

  lemma CutNames(l: Log, n: nat, parses: Parser, b: Bounds)
    requires Inv(l, b, parses) && n <= |l.segments|
    ensures DistinctNames(l.segments[n..])
    ensures var current := Without(l, n).current;
            forall k :: 0 <= k < |l.segments[n..]| ==>
              (l.segments[n..][k].name == current <==> l.segments[n..][k].name == l.current)
  {
    hide GoodSegment, OwnedSegmentTime, Less, Without;
    GoodNames(l, b, parses);
    SortedDistinct(l.segments);
    WithoutAccounts(l, n);
    forall k | 0 <= k < |l.segments[n..]|
      ensures l.segments[n..][k].name == Without(l, n).current <==> l.segments[n..][k].name == l.current
    {
      NoEmptyName(l, b, parses, n + k);
      assert l.segments[n..][k] == l.segments[n + k];
    }
  }

  /**
   A fit record of an active log: retention removes the first `n` segments, and then the line goes to the
   end of the current segment when that was kept and has room, and else into a new segment named after the
   clock; every failure of the filesystem suspends the log and leaves its segments as they are.
   */
  lemma RecordIsExact(l: Log, b: Bounds, a: Attempt, parses: Parser) returns (n: nat)
    requires Inv(l, b, parses) && l.state.Active? && !Unfit(b, a)
    ensures Cut(l, b, a.now, |a.line.value|, a.disk.removes, n)
    ensures var t, kept, line := Record(l, b, a), l.segments[n..], a.line.value;
            && t.settings == l.settings
            && if n < |l.segments| && Due(l, b, a.now, |line|, n) then
                 t.segments == kept && t.state == Suspended(CleanupFailed) && t.current == ""
               else
                 && (forall k: nat :: Holds(kept, k, l.current, b, line) ==>
                       if a.disk.updates then
                         && t.state.Active? && t.current == l.current
                         && t.segments == kept[k := kept[k].(bytes := kept[k].bytes + line)]
                       else t.segments == kept && t.state == Suspended(WriteFailed) && t.current == "")
                 && ((forall k: nat :: !Holds(kept, k, l.current, b, line)) ==>
                       if SafeSegmentId(a.id) && a.disk.creates then
                         && t.state.Active? && t.current == "ordinary-" + Decimal(a.now) + "-" + a.id + ".jsonl"
                         && multiset(t.segments) == multiset(kept) + multiset{Segment(t.current, a.now, line)}
                       else t.segments == kept && t.state == Suspended(WriteFailed) && t.current == "")
  {
    hide GoodSegment, Before, ApplyRetention, Write, Due, Without, Decimal, SafeSegmentId, Size, Cut;
    var line := a.line.value;
    n := RetentionIsExact(l, b, a.now, |line|, a.disk.removes);
    CutIsShort(l, b, a.now, |line|, a.disk.removes, n);
    var recent := Without(l, n);
    CutNames(l, n, parses, b);
    WriteIsExact(recent, b, a.now, line, a.id, a.disk);
    forall k: nat | Holds(recent.segments, k, l.current, b, line) || Holds(recent.segments, k, recent.current, b, line)
      ensures Holds(recent.segments, k, l.current, b, line) && Holds(recent.segments, k, recent.current, b, line)
      ensures recent.current == l.current
    {
      assert k < |l.segments[n..]|;
    }
  }

  lemma CutIsShort(l: Log, b: Bounds, now: int, required: nat, removes: string -> bool, n: nat)
    requires Cut(l, b, now, required, removes, n)
    ensures n <= |l.segments|
  {
  }

  // ---------- the bundle's test ----------

  /** What the support bundle asks of a snapshot, in numbers. */
  lemma BundleIsExact(mode: Mode, createdAt: int, s: Snapshot, parses: Parser)
    ensures BundleAccepts(mode, createdAt, s, parses) <==>
              && 0 <= createdAt <= 9007199254740991
              && (mode == Extended ==> s.hasLocations)
              && |s.bytes| == s.includedBytes && s.includedBytes <= (match mode case Standard => 1048576 case Extended => 8388608)
              && s.includedBytes <= s.retainedBytes && s.includedSegmentCount <= s.retainedSegmentCount
              && (s.truncated <==> s.includedBytes < s.retainedBytes)
              && (|s.bytes| == 0 || (Unmarked(s.bytes) != [] && Records(parses, Unmarked(s.bytes))))
  {
    hide Records;
  }

  /** A segment id is sixteen bytes in lower-case hexadecimal. */
  lemma SegmentIdIs(id: string)
    ensures SafeSegmentId(id) <==> |id| == 32 && forall c :: c in id ==> c in "0123456789abcdef"
  {
    forall c: char ensures c in "0123456789abcdef" <==> Digit(c) || 'a' <= c <= 'f' { HexadecimalIs(c); }
    if |id| == 32 { assert forall i :: 0 <= i < 32 ==> id[i] in id; }
  }

  lemma HexadecimalIs(c: char)
    ensures c in "0123456789abcdef" <==> Digit(c) || 'a' <= c <= 'f'
  {
    if Digit(c) { assert "0123456789abcdef"[c as int - '0' as int] == c; }
    if 'a' <= c <= 'f' { assert "0123456789abcdef"[10 + (c as int - 'a' as int)] == c; }
  }

  // ---------- the calls that read the directory ----------

  /** The directory can be read: at most 1024 names, each an owned one of a regular file that holds a valid segment. */
  predicate Readable(inventory: Inventory, b: Bounds, parses: Parser) {
    inventory.Some? && |inventory.value| <= 1024 && forall e :: e in inventory.value ==> Loadable(e, b, parses)
  }

  /** Reading the directory gives one segment for each of its files, in order, and nothing of what the log held. */
  lemma ReadIsExact(l: Log, inventory: Inventory, b: Bounds, parses: Parser)
    requires inventory.Some? ==> DistinctEntries(inventory.value)
    ensures Read(l, inventory, b, parses).Some? <==> Readable(inventory, b, parses)
    ensures Readable(inventory, b, parses) ==>
              var m := Read(l, inventory, b, parses).value;
              && m.state == l.state && m.settings == l.settings && m.current == ""
              && Inv(m, b, parses) && |m.segments| == |inventory.value|
              && multiset(m.segments) == multiset(Loaded(inventory.value, b, parses))
  {
    hide Loadable, GoodSegment, OperationalLog.Sorted, SortSegments, Size, Loaded;
    if Readable(inventory, b, parses) {
      ReloadKeeps(l, inventory.value, b, parses);
      SortKeepsMembers(Loaded(inventory.value, b, parses));
      LoadedEach(inventory.value, b, parses);
      SameCount(SortSegments(Loaded(inventory.value, b, parses)), Loaded(inventory.value, b, parses));
    }
  }

  /** The segment read from a file has its name, its bytes and the time in its name. */
  lemma LoadedEach(entries: seq<DiskEntry>, b: Bounds, parses: Parser)
    requires forall e :: e in entries ==> Loadable(e, b, parses)
    ensures var loaded := Loaded(entries, b, parses);
            && |loaded| == |entries|
            && forall i :: 0 <= i < |entries| ==>
                 && loaded[i].name == entries[i].name && entries[i].read == Some(loaded[i].bytes)
                 && OwnedSegmentTime(entries[i].name) == Some(loaded[i].occurredAt)
  {
    hide OwnedSegmentTime, ValidSegment;
    forall i | 0 <= i < |entries| ensures Loadable(entries[i], b, parses) { assert entries[i] in entries; }
  }

  /** A start or a change of settings: the directory as it is, less what retention removes, in the state the settings
      ask for; a directory that cannot be read, or a file that cannot be removed, suspends the log. */
  lemma OpenIsExact(l: Log, settings: Settings, inventory: Inventory, now: nat, removes: string -> bool, b: Bounds,
                    parses: Parser) returns (n: nat)
    requires inventory.Some? ==> DistinctEntries(inventory.value)
    ensures var t := Open(l, settings, inventory, now, removes, b, parses);
            && t.settings == settings && t.current == ""
            && if !Readable(inventory, b, parses) then t.segments == l.segments && t.state == Suspended(UnsafeStorage)
               else
                 var m := Read(l.(settings := settings), inventory, b, parses).value;
                 && Cut(m, b, now, 0, removes, n) && t.segments == m.segments[n..]
                 && t.state == if n < |m.segments| && Due(m, b, now, 0, n) then Suspended(CleanupFailed)
                               else if settings.enabled then Active else Disabled
  {
    hide Read, Inv, Readable, ApplyRetention, Cut, Due, Size, DistinctEntries, Without;
    n := 0;
    var next := l.(settings := settings);
    ReadIsExact(next, inventory, b, parses);
    if Readable(inventory, b, parses) {
      var m := Read(next, inventory, b, parses).value;
      Accounts(m, b, parses);
      n := RetentionIsExact(m, b, now, 0, removes);
      CutIsShort(m, b, now, 0, removes, n);
      WithoutAccounts(m, n);
    }
  }

  lemma Accounts(m: Log, b: Bounds, parses: Parser)
    requires Inv(m, b, parses)
    ensures OperationalLog.Sorted(m.segments) && m.retainedBytes == Size(m.segments)
  {
  }

  /** Clearing removes the segments in order up to the first that cannot be removed; when none is left the log is as
      the settings ask for. */
  lemma ClearIsExact(l: Log, inventory: Inventory, removes: string -> bool, b: Bounds, parses: Parser) returns (n: nat)
    requires inventory.Some? ==> DistinctEntries(inventory.value)
    ensures var t := Clear(l, inventory, removes, b, parses);
            && t.settings == l.settings
            && if !Readable(inventory, b, parses) then t.segments == l.segments && t.state == Suspended(UnsafeStorage)
               else
                 var m := Read(l, inventory, b, parses).value;
                 && n <= |m.segments| && t.segments == m.segments[n..]
                 && (forall i :: 0 <= i < n ==> removes(m.segments[i].name))
                 && (n < |m.segments| ==> !removes(m.segments[n].name))
                 && t.state == if n < |m.segments| then Suspended(CleanupFailed)
                               else if l.settings.enabled then Active else Disabled
  {
    hide Read, Inv, Readable, RemoveWhile, DistinctEntries, Without;
    n := 0;
    ReadIsExact(l, inventory, b, parses);
    if Readable(inventory, b, parses) {
      var m := Read(l, inventory, b, parses).value;
      n := LoopCuts(m, (x: Log) => true, removes);
    }
  }

  /** A snapshot reads the directory and changes neither the settings nor, unless that fails, the state. */
  lemma CaptureIsExact(l: Log, inventory: Inventory, b: Bounds, parses: Parser)
    requires inventory.Some? ==> DistinctEntries(inventory.value)
    ensures var t := Capture(l, inventory, b, parses);
            if Readable(inventory, b, parses) then Some(t) == Read(l, inventory, b, parses) && t.state == l.state
            else t == l.(state := Suspended(UnsafeStorage), current := "")
  {
    hide Read, Inv, Readable, DistinctEntries;
    ReadIsExact(l, inventory, b, parses);
  }

  lemma AcceptedIs(s: Settings)
    ensures Accepted(s) <==> 0 < s.retentionDays < 15 && 65536 <= s.maximumBytes <= 52428800
  {
  }

  // ---------- what a segment holds ----------

  /** Each line with the line feed that ends it. */
  function EndedLines(lines: seq<seq<byte>>): seq<byte> {
    if lines == [] then [] else lines[0] + [10] + EndedLines(lines[1..])
  }

  predicate RecordLines(parses: Parser, lines: seq<seq<byte>>) {
    forall i :: 0 <= i < |lines| ==> |lines[i]| > 0 && 10 !in lines[i] && parses(lines[i]).Some?
  }

  lemma {:induction false} RecordsToLines(parses: Parser, b: seq<byte>) returns (lines: seq<seq<byte>>)
    requires Records(parses, b)
    ensures RecordLines(parses, lines) && EndedLines(lines) == b && (lines == [] <==> b == [])
    ensures b != [] ==> lines[0] == b[..LineEnd(b)]
    decreases |b|
  {
    if b == [] {
      lines := [];
    } else {
      var n := LineEnd(b);
      var rest := RecordsToLines(parses, b[n + 1..]);
      lines := [b[..n]] + rest;
      assert lines[1..] == rest;
      assert b == b[..n] + [b[n]] + b[n + 1..];
    }
  }

  lemma {:induction false} LinesToRecords(parses: Parser, lines: seq<seq<byte>>)
    requires RecordLines(parses, lines)
    ensures Records(parses, EndedLines(lines))
    ensures lines != [] ==> EndedLines(lines) != [] && EndedLines(lines)[..LineEnd(EndedLines(lines))] == lines[0]
  {
    if lines != [] {
      var first, rest := lines[0], EndedLines(lines[1..]);
      LinesToRecords(parses, lines[1..]);
      var all := first + [10] + rest;
      assert all[|first|] == 10 && forall i :: 0 <= i < |first| ==> all[i] == first[i];
      LineEndIs(all, |first|);
      assert all[|first| + 1..] == rest && all[..|first|] == first;
    }
  }

  /** A valid segment is, after at most one byte order mark, one or more lines that parse, each ended by a line feed,
      of which the first carries the time in the segment's name. */
  lemma SegmentIsLines(parses: Parser, b: seq<byte>, occurredAt: nat)
    ensures ValidSegment(parses, b, occurredAt) <==>
              exists lines :: |lines| > 0 && RecordLines(parses, lines) && EndedLines(lines) == Unmarked(b)
                              && parses(lines[0]) == Some(occurredAt)
  {
    hide Records, EndedLines, RecordLines, LineEnd;
    if ValidSegment(parses, b, occurredAt) {
      var lines := RecordsToLines(parses, Unmarked(b));
    }
    forall lines | |lines| > 0 && RecordLines(parses, lines) && EndedLines(lines) == Unmarked(b)
                   && parses(lines[0]) == Some(occurredAt)
      ensures ValidSegment(parses, b, occurredAt)
    {
      LinesToRecords(parses, lines);
    }
  }

  lemma UnmarkedIs(b: seq<byte>)
    ensures Unmarked(b) == if |b| >= 3 && b[0] == 0xEF && b[1] == 0xBB && b[2] == 0xBF then b[3..] else b
  {
  }
}
