/**
 Runs of the ordinary log through its calls (operational-diagnostics.ts): records, starts and
 changes of settings, clearing and capturing. Storing the settings is not modelled: a change of
 settings is one that was stored.
 */
module OperationalRuns {
  import opened Common
  import opened SegmentNames
  import opened StructuredLog
  import opened OperationalLog

  const MINIMUM_MAXIMUM_BYTES := 64 * 1024
  const DEFAULTS := Settings(true, 14, 50 * 1024 * 1024)

  /** What listing the directory and reading its files gives; `None` when the listing throws. */
  type Inventory = Option<seq<DiskEntry>>

  datatype Call =
    | Recording(a: Attempt)
    | Opening(settings: Settings, inventory: Inventory, now: nat, removes: string -> bool)
    | Clearing(inventory: Inventory, removes: string -> bool)
    | Capturing(inventory: Inventory)

  /** setConfiguredState. */
  function Configured(s: Settings): LogState {
    if s.enabled then Active else Disabled
  }

  /** reloadSegments; `None` is a thrown error. */
  function Read(l: Log, inventory: Inventory, b: Bounds, parses: Parser): Option<Log> {
    if inventory.None? then None else Reload(l, inventory.value, b, parses)
  }

  /** A start, or the end of replaceSettings: reading the directory, then retention. */
  function Open(l: Log, settings: Settings, inventory: Inventory, now: nat, removes: string -> bool, b: Bounds,
                parses: Parser): Log
  {
    match Read(l.(settings := settings), inventory, b, parses)
    case None => Suspend(l.(settings := settings), UnsafeStorage)
    case Some(m) =>
      var (kept, ok) := ApplyRetention(m, b, now, 0, removes);
      if ok then kept.(state := Configured(settings)) else kept
  }

  /** clearOrdinaryLog. */
  function Clear(l: Log, inventory: Inventory, removes: string -> bool, b: Bounds, parses: Parser): Log {
    match Read(l, inventory, b, parses)
    case None => Suspend(l, UnsafeStorage)
    case Some(m) =>
      var (kept, ok) := RemoveWhile(m, (x: Log) => true, removes);
      if ok then kept.(state := Configured(l.settings)) else kept
  }

  /** Clearing succeeds exactly when every file can be removed, and otherwise stops at the first that cannot. */
  lemma {:induction false} RemovesAll(l: Log, always: Log -> bool, removes: string -> bool)
    requires forall x :: always(x)
    ensures var (kept, ok) := RemoveWhile(l, always, removes);
            && (ok <==> forall s :: s in l.segments ==> removes(s.name))
            && (ok ==> kept.segments == [] && kept.retainedBytes == l.retainedBytes - Size(l.segments))
            && (!ok ==> kept.segments != [] && !removes(kept.segments[0].name))
    decreases |l.segments|
  {
    if l.segments != [] {
      assert l.segments == [l.segments[0]] + l.segments[1..];
      RemovesAll(Removed(l), always, removes);
    }
  }

  /** captureSupportLogSnapshot, as far as the log itself. */
  function Capture(l: Log, inventory: Inventory, b: Bounds, parses: Parser): Log {
    match Read(l, inventory, b, parses)
    case None => Suspend(l, UnsafeStorage)
    case Some(m) => m
  }

  function After(l: Log, b: Bounds, c: Call, parses: Parser): Log {
    match c
    case Recording(a) => Record(l, b, a)
    case Opening(settings, inventory, now, removes) => Open(l, settings, inventory, now, removes, b, parses)
    case Clearing(inventory, removes) => Clear(l, inventory, removes, b, parses)
    case Capturing(inventory) => Capture(l, inventory, b, parses)
  }

  function AfterAll(l: Log, b: Bounds, calls: seq<Call>, parses: Parser): Log
    decreases |calls|
  {
    if calls == [] then l else AfterAll(After(l, b, calls[0], parses), b, calls[1..], parses)
  }

  // ---------- what a run keeps ----------

  /** Settings the protocol accepts. */
  predicate Accepted(s: Settings) {
    1 <= s.retentionDays <= 14 && MINIMUM_MAXIMUM_BYTES <= s.maximumBytes <= DEFAULTS.maximumBytes
  }

  /**
   Names in a listing are distinct and settings are accepted ones. Nobody else writes to the
   directory: a snapshot of an active log finds the segments the log knows.
   */
  predicate Honest(l: Log, c: Call, parses: Parser) {
    match c
    case Recording(a) => HonestAttempt(l, a, parses)
    case Opening(settings, inventory, _, _) => Accepted(settings) && (inventory.Some? ==> DistinctEntries(inventory.value))
    case Clearing(inventory, _) => inventory.Some? ==> DistinctEntries(inventory.value)
    case Capturing(inventory) =>
      inventory.Some? ==> DistinctEntries(inventory.value) && (l.state.Active? ==> OnDisk(l, inventory.value))
  }

  predicate HonestRun(l: Log, b: Bounds, calls: seq<Call>, parses: Parser)
    decreases |calls|
  {
    calls == [] || (Honest(l, calls[0], parses) && HonestRun(After(l, b, calls[0], parses), b, calls[1..], parses))
  }

  /** The bound the constructor checks, against the settings it starts from. */
  predicate Constructible(b: Bounds) {
    0 < b.segmentBytes <= if b.maximumBytes.Some? then b.maximumBytes.value else DEFAULTS.maximumBytes
  }

  /** The segment bound is within the aggregate maximum whatever the settings. */
  predicate FitsAllSettings(b: Bounds) {
    b.segmentBytes <= if b.maximumBytes.Some? then b.maximumBytes.value else MINIMUM_MAXIMUM_BYTES
  }

  predicate WithinMaximum(l: Log, b: Bounds) {
    l.state.Active? ==> l.retainedBytes <= EffectiveMaximum(l, b)
  }

  lemma ReloadedAccounts(l: Log, entries: seq<DiskEntry>, b: Bounds, parses: Parser)
    requires Reload(l, entries, b, parses).Some?
    ensures var m := Reload(l, entries, b, parses).value;
            m.retainedBytes == Size(m.segments) && m.current == "" && m.settings == l.settings && m.state == l.state
  {
  }

  lemma OpenKeeps(l: Log, settings: Settings, inventory: Inventory, now: nat, removes: string -> bool, b: Bounds,
                  parses: Parser)
    requires Inv(l, b, parses) && (inventory.Some? ==> DistinctEntries(inventory.value))
    ensures var after := Open(l, settings, inventory, now, removes, b, parses);
            Inv(after, b, parses) && after.settings == settings && WithinMaximum(after, b)
  {
    hide GoodSegment, Sorted, Reload, ApplyRetention, RetentionCutoff, Trimmed, Size;
    var next := l.(settings := settings);
    if inventory.Some? && Reload(next, inventory.value, b, parses).Some? {
      var m := Reload(next, inventory.value, b, parses).value;
      ReloadKeeps(next, inventory.value, b, parses);
      ReloadedAccounts(next, inventory.value, b, parses);
      var kept := ApplyRetention(m, b, now, 0, removes).0;
      RetentionTrims(m, b, now, 0, removes);
      RetentionCurrent(m, b, now, 0, removes);
      TrimmedKeeps(m, kept, b, parses);
      EmptySize(kept.segments);
    }
  }

  lemma ClearKeeps(l: Log, inventory: Inventory, removes: string -> bool, b: Bounds, parses: Parser)
    requires Inv(l, b, parses) && (inventory.Some? ==> DistinctEntries(inventory.value))
    ensures var after := Clear(l, inventory, removes, b, parses);
            Inv(after, b, parses) && after.settings == l.settings && WithinMaximum(after, b)
  {
    hide GoodSegment, Sorted, Reload, RemoveWhile, Trimmed, Size;
    if inventory.Some? && Reload(l, inventory.value, b, parses).Some? {
      var m := Reload(l, inventory.value, b, parses).value;
      ReloadKeeps(l, inventory.value, b, parses);
      ReloadedAccounts(l, inventory.value, b, parses);
      var always := (x: Log) => true;
      var kept := RemoveWhile(m, always, removes).0;
      RemoveWhileTrims(m, always, removes);
      RemoveWhileCurrent(m, always, removes);
      TrimmedKeeps(m, kept, b, parses);
      EmptySize(kept.segments);
    }
  }

  lemma CaptureKeeps(l: Log, inventory: Inventory, b: Bounds, parses: Parser)
    requires Inv(l, b, parses) && Honest(l, Capturing(inventory), parses) && WithinMaximum(l, b)
    ensures var after := Capture(l, inventory, b, parses);
            Inv(after, b, parses) && after.settings == l.settings && WithinMaximum(after, b)
  {
    hide GoodSegment, Sorted, Reload, Size;
    if inventory.Some? && Reload(l, inventory.value, b, parses).Some? {
      ReloadKeeps(l, inventory.value, b, parses);
      ReloadedAccounts(l, inventory.value, b, parses);
      if l.state.Active? { ReloadRestores(l, inventory.value, b, parses); }
    }
  }

  /**
   Over any run of calls the accounts hold, and an active log is within its aggregate maximum,
   when the segment bound fits the settings the protocol accepts.
   */
  lemma {:induction false} RunKeeps(l: Log, b: Bounds, calls: seq<Call>, parses: Parser)
    requires Inv(l, b, parses) && HonestRun(l, b, calls, parses) && WithinMaximum(l, b)
    requires FitsAllSettings(b) && Accepted(l.settings)
    ensures var after := AfterAll(l, b, calls, parses);
            Inv(after, b, parses) && Accepted(after.settings) && WithinMaximum(after, b)
    decreases |calls|
  {
    hide Record, Inv, HonestAttempt, EffectiveMaximum, WithinMaximum, Open, Clear, Capture, DistinctEntries, OnDisk,
         FitsAllSettings;
    if calls != [] {
      match calls[0] {
        case Recording(a) => RecordingKeeps(l, b, a, parses);
        case Opening(settings, inventory, now, removes) => OpenKeeps(l, settings, inventory, now, removes, b, parses);
        case Clearing(inventory, removes) => ClearKeeps(l, inventory, removes, b, parses);
        case Capturing(inventory) => CaptureKeeps(l, inventory, b, parses);
      }
      RunKeeps(After(l, b, calls[0], parses), b, calls[1..], parses);
    }
  }

  lemma RecordingKeeps(l: Log, b: Bounds, a: Attempt, parses: Parser)
    requires Inv(l, b, parses) && HonestAttempt(l, a, parses) && FitsAllSettings(b) && Accepted(l.settings)
    ensures var after := Record(l, b, a); Inv(after, b, parses) && after.settings == l.settings && WithinMaximum(after, b)
  {
    hide Record, Inv, HonestAttempt;
    RecordKeeps(l, b, a, parses);
    if Record(l, b, a).state.Active? {
      ActiveStays(l, b, a);
      ActiveLogIsBounded(l, b, a, parses);
    }
  }

  const EVERYTHING: string -> bool := _ => true

  /** A record that nothing in the filesystem hinders. */
  function Unhindered(now: nat, line: seq<byte>, id: string): Attempt {
    Attempt(now, Some(line), id, Disk(EVERYTHING, true, true))
  }

  /**
   Otherwise some run breaks the maximum: on a new log whose constructor passed, the smallest
   accepted maximum followed by one record longer than it.
   */
  lemma SmallMaximumWitness(b: Bounds, line: seq<byte>, id: string, parses: Parser)
    requires Constructible(b) && !FitsAllSettings(b)
    requires MINIMUM_MAXIMUM_BYTES < |line| <= b.segmentBytes && SafeSegmentId(id) && EncodedLine(line, 0, parses)
    ensures var l := Log([], 0, "", Active, DEFAULTS);
            var calls := [Opening(Settings(true, 1, MINIMUM_MAXIMUM_BYTES), Some([]), 0, EVERYTHING),
                          Recording(Unhindered(0, line, id))];
            var after := AfterAll(l, b, calls, parses);
            && WithinMaximum(l, b) && Inv(l, b, parses) && HonestRun(l, b, calls, parses)
            && after.state.Active? && after.retainedBytes == |line| > EffectiveMaximum(after, b) && !WithinMaximum(after, b)
  {
    hide EncodedLine, SafeSegmentId, SegmentName;
    var settings := Settings(true, 1, MINIMUM_MAXIMUM_BYTES);
    var l, a := Log([], 0, "", Active, DEFAULTS), Unhindered(0, line, id);
    var first, second := Opening(settings, Some([]), 0, EVERYTHING), Recording(a);
    var calls := [first, second];
    var ready := l.(settings := settings);
    OpenNothing(l, settings, b, parses);
    FirstRecord(ready, b, line, id);
    assert calls[1..] == [second] && [second][1..] == [];
    assert After(l, b, first, parses) == ready && Honest(l, first, parses) && Honest(ready, second, parses);
    assert HonestRun(ready, b, [second], parses);
    assert AfterAll(ready, b, [second], parses) == AfterAll(Record(ready, b, a), b, [], parses);
  }

  lemma OpenNothing(l: Log, settings: Settings, b: Bounds, parses: Parser)
    requires l.segments == [] && l.retainedBytes == 0 && l.current == "" && settings.enabled && l.state.Active?
    ensures Open(l, settings, Some([]), 0, EVERYTHING, b, parses) == l.(settings := settings)
  {
  }

  lemma FirstRecord(l: Log, b: Bounds, line: seq<byte>, id: string)
    requires l.segments == [] && l.retainedBytes == 0 && l.state.Active? && |line| <= b.segmentBytes && SafeSegmentId(id)
    ensures var after := Record(l, b, Unhindered(0, line, id));
            after.state.Active? && after.retainedBytes == |line| && after.settings == l.settings
  {
  }

  // ---------- a directory with too many segments ----------

  function DiskOf(segments: seq<Segment>): seq<DiskEntry> {
    seq(|segments|, i requires 0 <= i < |segments| => DiskEntry(segments[i].name, Some(segments[i].bytes)))
  }

  lemma DiskHolds(l: Log, b: Bounds, parses: Parser)
    requires Inv(l, b, parses)
    ensures DistinctEntries(DiskOf(l.segments)) && OnDisk(l, DiskOf(l.segments))
  {
    hide GoodSegment, Before, Size;
    var entries := DiskOf(l.segments);
    GoodNames(l, b, parses);
    SortedDistinct(l.segments);
    forall e | e in entries ensures e.read.Some? && exists s :: s in l.segments && s.name == e.name && s.bytes == e.read.value {
      var i :| 0 <= i < |entries| && entries[i] == e;
      assert l.segments[i] in l.segments;
    }
    forall s | s in l.segments ensures DiskEntry(s.name, Some(s.bytes)) in entries {
      var i :| 0 <= i < |l.segments| && l.segments[i] == s;
      assert entries[i] == DiskEntry(s.name, Some(s.bytes));
    }
  }

  /** The starts of a host: when each reads the directory, and the id, time and line of its one record. */
  datatype Starts = Starts(started: nat -> nat, id: nat -> string, recorded: nat -> nat, line: nat -> seq<byte>)

  /** A start of the host, which reads the directory, followed by one record. */
  function Restart(l: Log, now: nat, a: Attempt, b: Bounds, parses: Parser): Log {
    AfterAll(l, b, [Opening(l.settings, Some(DiskOf(l.segments)), now, EVERYTHING), Recording(a)], parses)
  }

  function RecordOf(starts: Starts, n: nat): Attempt {
    Unhindered(starts.recorded(n), starts.line(n), starts.id(n))
  }

  /** The log after the first `n` starts, from an empty directory. */
  function Restarts(n: nat, starts: Starts, b: Bounds, settings: Settings, parses: Parser): Log {
    if n == 0 then Log([], 0, "", Active, settings)
    else Restart(Restarts(n - 1, starts, b, settings, parses), starts.started(n - 1), RecordOf(starts, n - 1), b, parses)
  }

  /** Within the retention window that begins with the first record. */
  predicate InWindow(starts: Starts, settings: Settings, now: nat) {
    now <= MAXIMUM_SAFE_INTEGER && now - settings.retentionDays * MILLISECONDS_PER_DAY <= starts.recorded(0)
  }

  /** Ordinary circumstances: accepted settings, a clock that moves on between records but not out of
      the retention window, short valid records, and room for them all. */
  predicate Ordinary(starts: Starts, b: Bounds, settings: Settings, parses: Parser) {
    && Accepted(settings) && settings.enabled && b.segmentBytes >= 512
    && (if b.maximumBytes.Some? then b.maximumBytes.value else settings.maximumBytes) >= 512 * (MAXIMUM_SEGMENTS + 1)
    && (forall i, j :: 0 <= i < j <= MAXIMUM_SEGMENTS ==> starts.recorded(i) < starts.recorded(j))
    && (forall i :: 0 <= i <= MAXIMUM_SEGMENTS ==>
          InWindow(starts, settings, starts.started(i)) && InWindow(starts, settings, starts.recorded(i)))
    && (forall i :: 0 <= i <= MAXIMUM_SEGMENTS ==> OrdinaryRecord(starts, i, parses))
  }

  predicate OrdinaryRecord(starts: Starts, i: nat, parses: Parser) {
    SafeSegmentId(starts.id(i)) && EncodedLine(starts.line(i), starts.recorded(i), parses) && |starts.line(i)| <= 512
  }

  /** What `n` starts leave: one segment each, none older than the first record, none newer than the last. */
  predicate OneEach(l: Log, n: nat, starts: Starts, settings: Settings) {
    && l.state.Active? && l.settings == settings && |l.segments| == n
    && (forall s :: s in l.segments ==> starts.recorded(0) <= s.occurredAt && n > 0 && s.occurredAt <= starts.recorded(n - 1))
    && l.retainedBytes <= 512 * n
  }

  lemma {:induction false} RestartsKeepOneEach(n: nat, starts: Starts, b: Bounds, settings: Settings, parses: Parser)
    requires Ordinary(starts, b, settings, parses) && n <= MAXIMUM_SEGMENTS + 1
    ensures var l := Restarts(n, starts, b, settings, parses); Inv(l, b, parses) && OneEach(l, n, starts, settings)
  {
    hide Record, GoodSegment, Sorted, Restart, OrdinaryRecord, RetentionCutoff;
    if n == 0 {
      NothingRecorded(b, settings, parses);
    } else {
      var before := Restarts(n - 1, starts, b, settings, parses);
      RestartsKeepOneEach(n - 1, starts, b, settings, parses);
      NothingExpires(before, n - 1, starts, settings, starts.started(n - 1));
      RestartReads(before, starts.started(n - 1), RecordOf(starts, n - 1), b, parses);
      UnhinderedRecord(before.(current := ""), n - 1, starts, b, settings, parses);
    }
  }

  lemma NothingExpires(l: Log, n: nat, starts: Starts, settings: Settings, now: nat)
    requires OneEach(l, n, starts, settings) && InWindow(starts, settings, now)
    ensures forall s :: s in l.segments ==> s.occurredAt >= RetentionCutoff(now, settings.retentionDays)
  {
  }

  lemma NothingRecorded(b: Bounds, settings: Settings, parses: Parser)
    ensures Inv(Log([], 0, "", Active, settings), b, parses)
  {
  }

  /** Up to the limit a start finds what was written, and nothing has to go. */
  lemma RestartReads(l: Log, now: nat, a: Attempt, b: Bounds, parses: Parser)
    requires Inv(l, b, parses) && l.state.Active? && l.settings.enabled && |l.segments| <= MAXIMUM_SEGMENTS
    requires l.retainedBytes <= EffectiveMaximum(l, b)
    requires forall s :: s in l.segments ==> s.occurredAt >= RetentionCutoff(now, l.settings.retentionDays)
    ensures Restart(l, now, a, b, parses) == Record(l.(current := ""), b, a)
  {
    hide Record, GoodSegment, Sorted, Reload, Size, ApplyRetention, DiskOf, Clear, Capture, RetentionCutoff;
    var m := l.(current := "");
    DiskHolds(l, b, parses);
    ReloadRestores(l, DiskOf(l.segments), b, parses);
    NothingToRetain(m, b, now, 0, EVERYTHING);
    assert l.(settings := l.settings) == l && m.(state := Active) == m;
    var opening := Opening(l.settings, Some(DiskOf(l.segments)), now, EVERYTHING);
    assert [opening, Recording(a)][1..] == [Recording(a)] && [Recording(a)][1..] == [];
    assert After(l, b, opening, parses) == m;
    assert AfterAll(m, b, [Recording(a)], parses) == AfterAll(Record(m, b, a), b, [], parses);
  }

  /** One more short record: nothing has to go, and it opens a segment of its own. */
  lemma UnhinderedRecord(l: Log, n: nat, starts: Starts, b: Bounds, settings: Settings, parses: Parser)
    requires Ordinary(starts, b, settings, parses) && n <= MAXIMUM_SEGMENTS
    requires Inv(l, b, parses) && OneEach(l, n, starts, settings) && l.current == ""
    ensures var after := Record(l, b, RecordOf(starts, n)); Inv(after, b, parses) && OneEach(after, n + 1, starts, settings)
  {
    hide GoodSegment, Sorted, EncodedLine, SortSegments, SegmentName, Size, RetentionCutoff;
    var now, line, id := starts.recorded(n), starts.line(n), starts.id(n);
    assert OrdinaryRecord(starts, n, parses) && InWindow(starts, settings, now);
    assert forall s :: s in l.segments ==> s.occurredAt < now;
    var s := Segment(SegmentName(now, id), now, line);
    NothingIsUnnamed(l, b, parses);
    NothingExpires(l, n, starts, settings, now);
    NothingToRetain(l, b, now, |line|, EVERYTHING);
    NameIsNew(l, now, id, b, parses);
    NewSegmentIsGood(now, id, line, b, parses);
    CreatedKeeps(l, b, s, parses);
    InsertMembers(s, l.segments);
    InsertLength(s, l.segments);
  }

  lemma {:induction false} InsertLength(s: Segment, segments: seq<Segment>)
    ensures |Insert(s, segments)| == |segments| + 1
  {
    if segments != [] { InsertLength(s, segments[1..]); }
  }

  lemma NothingToRetain(l: Log, b: Bounds, now: nat, required: nat, removes: string -> bool)
    requires forall s :: s in l.segments ==> s.occurredAt >= RetentionCutoff(now, l.settings.retentionDays)
    requires l.retainedBytes + required <= EffectiveMaximum(l, b)
    ensures ApplyRetention(l, b, now, required, removes) == (l, true)
  {
    hide RetentionCutoff;
    if l.segments != [] { assert l.segments[0] in l.segments; }
  }

  lemma NameIsNew(l: Log, now: nat, id: string, b: Bounds, parses: Parser)
    requires Inv(l, b, parses) && now <= MAXIMUM_SAFE_INTEGER && SafeSegmentId(id)
    requires forall s :: s in l.segments ==> s.occurredAt < now
    ensures forall s :: s in l.segments ==> s.name != SegmentName(now, id)
  {
    hide OwnedSegmentTime, SegmentName, ValidSegment, Sorted, Size;
    NameIsOwned(now, id);
  }

  /** The directory cannot be read: the call finds more names than it accepts. */
  predicate TooFull(c: Call) {
    !c.Recording? && c.inventory.Some? && |c.inventory.value| > MAXIMUM_SEGMENTS
  }

  /**
   Nothing brings a log back whose directory is too full: a start, a change of settings, clearing
   and a snapshot all suspend it, records do nothing, and none of them removes a file.
   */
  lemma {:induction false} FullDirectoryIsStuck(l: Log, b: Bounds, calls: seq<Call>, parses: Parser)
    requires forall c :: c in calls ==> c.Recording? || TooFull(c)
    requires l.state == Suspended(UnsafeStorage) && l.current == ""
    ensures var after := AfterAll(l, b, calls, parses);
            after.state == Suspended(UnsafeStorage) && after.segments == l.segments && after.retainedBytes == l.retainedBytes
    decreases |calls|
  {
    hide ApplyRetention, RemoveWhile;
    if calls != [] {
      assert calls[0] in calls;
      FullDirectoryIsStuck(After(l, b, calls[0], parses), b, calls[1..], parses);
    }
  }

  /**
   The directory can be filled by starts of the host alone: after 1,025 of them within the retention
   window, each followed by one short record, the log is well kept, active and far below its maximum,
   and the next start, settings change, clearing or snapshot throws and suspends it.
   */
  lemma RestartsOverflow(starts: Starts, b: Bounds, settings: Settings, parses: Parser, c: Call)
    requires Ordinary(starts, b, settings, parses) && !c.Recording?
    requires c.inventory == Some(DiskOf(Restarts(MAXIMUM_SEGMENTS + 1, starts, b, settings, parses).segments))
    ensures var l := Restarts(MAXIMUM_SEGMENTS + 1, starts, b, settings, parses);
            && Inv(l, b, parses) && l.state.Active?
            && |l.segments| == MAXIMUM_SEGMENTS + 1 && l.retainedBytes <= 512 * (MAXIMUM_SEGMENTS + 1)
            && DistinctEntries(DiskOf(l.segments)) && OnDisk(l, DiskOf(l.segments)) && TooFull(c)
            && After(l, b, c, parses).state == Suspended(UnsafeStorage) && After(l, b, c, parses).segments == l.segments
  {
    hide Restarts, Record, GoodSegment, Sorted, Ordinary;
    var l := Restarts(MAXIMUM_SEGMENTS + 1, starts, b, settings, parses);
    RestartsKeepOneEach(MAXIMUM_SEGMENTS + 1, starts, b, settings, parses);
    DiskHolds(l, b, parses);
  }
}
