/** The ordinary log as the object keeps it (HostOperationalDiagnostics in operational-diagnostics.ts). */
module OperationalDiagnostics {
  import opened Common
  import opened SegmentNames
  import opened StructuredLog
  import opened OperationalLog
  import opened OperationalRuns

  datatype ClearResult =
    | Cleared(removedSegmentCount: int, removedBytes: int)
    | PartlyCleared(removedSegmentCount: int, removedBytes: int)
    | ClearFailed

  datatype ReplaceResult = Replaced | PartlyReplaced | NotReplaced

  class HostOperationalDiagnostics {
    const bounds: Bounds
    var segments: seq<Segment>
    var retainedBytes: int
    var currentSegmentName: string
    var logState: LogState
    var settings: Settings

    ghost function State(): Log
      reads this
    {
      Log(segments, retainedBytes, currentSegmentName, logState, settings)
    }

    /** The fields as the constructor sets them, its two bound checks passed; opening the directory is left out. */
    constructor (bounds: Bounds)
      requires Constructible(bounds)
      ensures this.bounds == bounds && State() == Log([], 0, "", Active, DEFAULTS)
      ensures bounds.segmentBytes <= EffectiveMaximum(State(), bounds)
      ensures forall parses :: Inv(State(), bounds, parses)
    {
      this.bounds := bounds;
      segments, retainedBytes, currentSegmentName := [], 0, "";
      logState, settings := Active, DEFAULTS;
    }

    /** suspend. */
    method SuspendWith(reason: Reason)
      modifies this
      ensures State() == Suspend(old(State()), reason)
    {
      logState, currentSegmentName := Suspended(reason), "";
    }

    /** removeOldestSegment. */
    method RemoveOldestSegment(removes: string -> bool) returns (ok: bool)
      requires segments != []
      modifies this
      ensures ok == removes(old(segments)[0].name)
      ensures State() == if ok then Removed(old(State())) else Suspend(old(State()), CleanupFailed)
    {
      var oldest := segments[0];
      if !removes(oldest.name) {
        SuspendWith(CleanupFailed);
        return false;
      }
      segments := segments[1..];
      retainedBytes := retainedBytes - |oldest.bytes|;
      if currentSegmentName == oldest.name {
        currentSegmentName := "";
      }
      return true;
    }

    /** applyRetention: first what has expired, then whatever stands in the way of the required bytes. */
    method ApplyRetentionTo(now: int, required: nat, removes: string -> bool) returns (ok: bool)
      modifies this
      ensures (State(), ok) == ApplyRetention(old(State()), bounds, now, required, removes)
    {
      hide Suspend, RetentionCutoff;
      var cutoff := RetentionCutoff(now, settings.retentionDays);
      var maximum := if bounds.maximumBytes.Some? then bounds.maximumBytes.value else settings.maximumBytes;
      ghost var expired := (x: Log) => Expired(x, cutoff);
      ghost var large := (x: Log) => x.retainedBytes + required > maximum;
      ghost var start := State();
      while segments != [] && segments[0].occurredAt < cutoff
        invariant RemoveWhile(start, expired, removes) == RemoveWhile(State(), expired, removes)
        invariant settings == old(settings)
        decreases |segments|
      {
        ok := RemoveOldestSegment(removes);
        if !ok {
          return;
        }
      }
      ghost var recent := State();
      while segments != [] && retainedBytes + required > maximum
        invariant RemoveWhile(recent, large, removes) == RemoveWhile(State(), large, removes)
        decreases |segments|
      {
        ok := RemoveOldestSegment(removes);
        if !ok {
          return;
        }
      }
      return true;
    }

    /** createSegment; `false` is a thrown error. */
    method CreateSegment(now: nat, line: seq<byte>, id: string, disk: Disk) returns (ok: bool)
      modifies this
      ensures ok == (SafeSegmentId(id) && disk.creates)
      ensures ok ==>
                (State() == Created(old(State()), Segment(SegmentName(now, id), now, line)).(retainedBytes := old(retainedBytes)))
      ensures !ok ==> State() == old(State())
    {
      hide SortSegments, SegmentName, SafeSegmentId;
      if !SafeSegmentId(id) || !disk.creates {
        return false;
      }
      var name := SegmentName(now, id);
      segments := segments + [Segment(name, now, line)];
      segments := SortSegments(segments);
      currentSegmentName := name;
      return true;
    }

    /** replaceCurrentSegment; `false` is a thrown error. */
    method ReplaceCurrentSegment(index: nat, line: seq<byte>, disk: Disk) returns (ok: bool)
      requires index < |segments|
      modifies this
      ensures ok == disk.updates
      ensures ok ==> State() == Appended(old(State()), index, line).(retainedBytes := old(retainedBytes))
      ensures !ok ==> State() == old(State())
    {
      if !disk.updates {
        return false;
      }
      var current := segments[index];
      segments := segments[index := current.(bytes := current.bytes + line)];
      return true;
    }

    /** record. */
    method RecordDiagnostic(a: Attempt)
      modifies this
      ensures State() == Record(old(State()), bounds, a)
    {
      hide ApplyRetention, SortSegments, SegmentName, SafeSegmentId;
      if !logState.Active? {
        return;
      }
      if a.now < 0 || a.now > MAXIMUM_SAFE_INTEGER || a.line.None? || |a.line.value| > bounds.segmentBytes {
        SuspendWith(WriteFailed);
        return;
      }
      var line := a.line.value;
      var ok := ApplyRetentionTo(a.now, |line|, a.disk.removes);
      if !ok {
        return;
      }
      var current := FindCurrent(segments, currentSegmentName);
      if current.None? || |segments[current.value].bytes| + |line| > bounds.segmentBytes {
        ok := CreateSegment(a.now, line, a.id, a.disk);
      } else {
        ok := ReplaceCurrentSegment(current.value, line, a.disk);
      }
      if !ok {
        SuspendWith(WriteFailed);
        return;
      }
      retainedBytes := retainedBytes + |line|;
    }

    /** reloadSegments; `false` is a thrown error, which changes nothing. */
    method ReloadSegments(inventory: Inventory, parses: Parser) returns (ok: bool)
      modifies this
      ensures ok == Read(old(State()), inventory, bounds, parses).Some?
      ensures State() == if ok then Read(old(State()), inventory, bounds, parses).value else old(State())
    {
      hide OwnedSegmentTime, ValidSegment, SortSegments, Before;
      if inventory.None? {
        return false;
      }
      var entries := inventory.value;
      if |entries| > MAXIMUM_SEGMENTS {
        return false;
      }
      var loaded: seq<Segment>, bytes := [], 0;
      var i := 0;
      while i < |entries|
        invariant 0 <= i <= |entries|
        invariant forall j :: 0 <= j < i ==> Loadable(entries[j], bounds, parses)
        invariant forall e :: e in entries[..i] ==> Loadable(e, bounds, parses)
        invariant loaded == Loaded(entries[..i], bounds, parses) && bytes == Size(loaded)
        invariant State() == old(State())
      {
        var entry := entries[i];
        var occurredAt := OwnedSegmentTime(entry.name);
        assert entry in entries;
        if occurredAt.None? || entry.read.None? || |entry.read.value| > bounds.segmentBytes {
          return false;
        }
        if !ValidSegment(parses, entry.read.value, occurredAt.value) {
          return false;
        }
        assert entries[..i + 1] == entries[..i] + [entry];
        var segment := Segment(entry.name, occurredAt.value, entry.read.value);
        SizeAppend(loaded, [segment]);
        bytes := bytes + |entry.read.value|;
        loaded := loaded + [segment];
        i := i + 1;
      }
      assert entries[..i] == entries;
      SortKeepsSize(loaded);
      segments := SortSegments(loaded);
      retainedBytes := bytes;
      currentSegmentName := "";
      return true;
    }

    /** The end of the constructor, #open: `stored` are the settings found on disk, if there are any,
        and `readable` tells whether they, and the directories, could be had at all. */
    method OpenDirectory(stored: Option<Settings>, readable: bool, inventory: Inventory, now: nat, removes: string -> bool,
                         parses: Parser)
      modifies this
      ensures State() == if !readable then Suspend(old(State()), UnsafeStorage)
                         else Open(old(State()), if stored.Some? then stored.value else old(settings), inventory, now,
                                   removes, bounds, parses)
    {
      hide Reload, ApplyRetention;
      if !readable {
        SuspendWith(UnsafeStorage);
        return;
      }
      if stored.Some? {
        settings := stored.value;
      }
      ghost var staged := State();
      var ok := ReloadSegments(inventory, parses);
      if !ok {
        SuspendWith(UnsafeStorage);
        return;
      }
      ReloadedAccounts(staged, inventory.value, bounds, parses);
      ghost var before := State();
      ok := ApplyRetentionTo(now, 0, removes);
      FailedRetentionSuspends(before, bounds, now, removes);
      if ok {
        logState := Configured(settings);
      }
    }

    /** replaceSettings; `stored` tells whether the new settings were found on disk after writing them. */
    method ReplaceSettings(next: Settings, stored: bool, inventory: Inventory, now: nat, removes: string -> bool,
                           parses: Parser)
      returns (r: ReplaceResult)
      modifies this
      ensures State() == if stored then Open(old(State()), next, inventory, now, removes, bounds, parses)
                         else Suspend(old(State()), WriteFailed)
      ensures r.NotReplaced? <==> !stored
      ensures r.Replaced? <==> stored && logState == Configured(next)
    {
      hide Reload, ApplyRetention;
      if !stored {
        SuspendWith(WriteFailed);
        return NotReplaced;
      }
      settings := next;
      ghost var staged := State();
      var ok := ReloadSegments(inventory, parses);
      if !ok {
        SuspendWith(UnsafeStorage);
        return PartlyReplaced;
      }
      ReloadedAccounts(staged, inventory.value, bounds, parses);
      ghost var before := State();
      ok := ApplyRetentionTo(now, 0, removes);
      FailedRetentionSuspends(before, bounds, now, removes);
      if !ok {
        return PartlyReplaced;
      }
      logState := Configured(settings);
      return Replaced;
    }

    /** clearOrdinaryLog. */
    method ClearOrdinaryLog(inventory: Inventory, removes: string -> bool, parses: Parser) returns (r: ClearResult)
      modifies this
      ensures State() == Clear(old(State()), inventory, removes, bounds, parses)
      ensures var read := Read(old(State()), inventory, bounds, parses);
              && (r.ClearFailed? <==> read.None?)
              && (r.Cleared? <==> read.Some? && forall s :: s in read.value.segments ==> removes(s.name))
              && (read.Some? ==> r.removedSegmentCount == |read.value.segments| - |segments|
                                 && r.removedBytes == read.value.retainedBytes - retainedBytes)
      ensures r.Cleared? ==> segments == [] && retainedBytes == 0
      ensures r.PartlyCleared? ==> logState == Suspended(CleanupFailed) && segments != [] && !removes(segments[0].name)
    {
      hide OwnedSegmentTime, ValidSegment, SortSegments, Reload, Size;
      var ok := ReloadSegments(inventory, parses);
      if !ok {
        SuspendWith(UnsafeStorage);
        return ClearFailed;
      }
      ghost var before, always := State(), (x: Log) => true;
      ReloadedAccounts(old(State()), inventory.value, bounds, parses);
      RemovesAll(before, always, removes);
      var initialBytes, initialCount := retainedBytes, |segments|;
      while segments != []
        invariant RemoveWhile(before, always, removes) == RemoveWhile(State(), always, removes)
        invariant settings == old(settings)
        decreases |segments|
      {
        ok := RemoveOldestSegment(removes);
        if !ok {
          return PartlyCleared(initialCount - |segments|, initialBytes - retainedBytes);
        }
      }
      logState := Configured(settings);
      return Cleared(initialCount, initialBytes);
    }

    /** captureSupportLogSnapshot; `None` is a thrown error. */
    method CaptureSupportLogSnapshot(maximumBytes: nat, inventory: Inventory, parses: Parser)
      returns (r: Option<Snapshot>)
      requires maximumBytes > 0
      modifies this
      ensures r.Some? <==> Read(old(State()), inventory, bounds, parses).Some?
      ensures State() == Capture(old(State()), inventory, bounds, parses)
      ensures r.Some? ==> LongestFit(segments, r.value.includedSegmentCount, maximumBytes)
                          && r.value == SnapshotOf(State(), r.value.includedSegmentCount)
    {
      hide OwnedSegmentTime, ValidSegment, SortSegments, Reload;
      var ok := ReloadSegments(inventory, parses);
      if !ok {
        SuspendWith(UnsafeStorage);
        return None;
      }
      var n, includedBytes := 0, 0;
      assert Newest(segments, 0) == [];
      while n < |segments|
        invariant 0 <= n <= |segments|
        invariant includedBytes == Size(Newest(segments, n)) <= maximumBytes
        invariant Some(State()) == Read(old(State()), inventory, bounds, parses)
      {
        var segment := segments[|segments| - 1 - n];
        NewestGrows(segments, n);
        if includedBytes + |segment.bytes| > maximumBytes {
          break;
        }
        includedBytes := includedBytes + |segment.bytes|;
        n := n + 1;
      }
      NothingLongerFits(segments, n, maximumBytes);
      var selected := Newest(segments, n);
      var bytes := JoinBytes(selected);
      r := Some(Snapshot(bytes, |segments|, n, retainedBytes, includedBytes, includedBytes < retainedBytes, true));
    }
  }

  /** The bytes of the selected segments, one after the other. */
  method JoinBytes(selected: seq<Segment>) returns (bytes: seq<byte>)
    ensures bytes == Contents(selected)
  {
    bytes := [];
    var i := 0;
    while i < |selected|
      invariant 0 <= i <= |selected|
      invariant bytes == Contents(selected[..i])
    {
      assert selected[..i + 1] == selected[..i] + [selected[i]];
      ContentsAppend(selected[..i], selected[i]);
      bytes := bytes + selected[i].bytes;
      i := i + 1;
    }
    assert selected[..i] == selected;
  }

  lemma {:induction false} SortKeepsSize(segments: seq<Segment>)
    ensures Size(SortSegments(segments)) == Size(segments)
    decreases |segments|
  {
    hide Insert;
    if segments != [] {
      var front, last := segments[..|segments| - 1], segments[|segments| - 1];
      assert segments == front + [last];
      SortKeepsSize(front);
      InsertMembers(last, SortSegments(front));
      SizeAppend(front, [last]);
    }
  }

  /** Retention that fails leaves the log suspended. */
  lemma FailedRetentionSuspends(l: Log, b: Bounds, now: nat, removes: string -> bool)
    ensures var (kept, ok) := ApplyRetention(l, b, now, 0, removes);
            (!ok ==> kept.state == Suspended(CleanupFailed)) && kept.settings == l.settings
  {
    hide RetentionCutoff, Trimmed;
    var cutoff, maximum := RetentionCutoff(now, l.settings.retentionDays), EffectiveMaximum(l, b);
    var expired := (x: Log) => Expired(x, cutoff);
    RemovalSuspends(l, expired, removes);
    RemovalSuspends(RemoveWhile(l, expired, removes).0, (x: Log) => x.retainedBytes + 0 > maximum, removes);
  }

  lemma {:induction false} RemovalSuspends(l: Log, condition: Log -> bool, removes: string -> bool)
    ensures var (kept, ok) := RemoveWhile(l, condition, removes);
            (!ok ==> kept.state == Suspended(CleanupFailed)) && kept.settings == l.settings
    decreases |l.segments|
  {
    if l.segments != [] && condition(l) && removes(l.segments[0].name) { RemovalSuspends(Removed(l), condition, removes); }
  }

  lemma NewestGrows(segments: seq<Segment>, n: nat)
    requires n < |segments|
    ensures Size(Newest(segments, n + 1)) == Size(Newest(segments, n)) + |segments[|segments| - 1 - n].bytes|
  {
    assert Newest(segments, n + 1)[1..] == Newest(segments, n);
  }

  lemma NothingLongerFits(segments: seq<Segment>, n: nat, maximum: nat)
    requires n <= |segments| && (n < |segments| ==> Size(Newest(segments, n + 1)) > maximum)
    ensures forall m :: n < m <= |segments| ==> Size(Newest(segments, m)) > maximum
  {
    hide Size;
    forall m | n < m <= |segments| ensures Size(Newest(segments, m)) > maximum {
      NewestWithin(Newest(segments, m), n + 1);
      assert Newest(Newest(segments, m), n + 1) == Newest(segments, n + 1);
    }
  }
}
