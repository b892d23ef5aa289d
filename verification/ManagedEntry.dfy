/**
 Which source entries may be skipped as already managed (source-managed-entry.ts). Relative
 paths are text with "/" between segments; the empty path is the source root itself.
 */
module ManagedEntry {
  import opened Text

  datatype Match = EntireRoot | DirectoryPrefix | ExactPath

  datatype Guard = Guard(root: string, match_: Match, relativePath: string, inFlight: bool)

  datatype Handle = Handle(id: string, root: string, relativePath: string, isDirectory: bool)

  /** coversEntry. */
  predicate Covers(g: Guard, path: string) {
    || g.match_.EntireRoot?
    || g.relativePath == path
    || (g.match_.DirectoryPrefix? && StartsWith(path, g.relativePath + "/"))
  }

  /** overlapsEntry. */
  predicate Overlaps(g: Guard, entry: Handle) {
    || Covers(g, entry.relativePath)
    || (!g.match_.EntireRoot? && entry.isDirectory && StartsWith(g.relativePath, entry.relativePath + "/"))
  }

  /** canIgnoreManagedSourceEntry. */
  predicate CanIgnore(guards: seq<Guard>, entry: Handle) {
    && !(exists g :: g in guards && g.root == entry.root && g.inFlight && Overlaps(g, entry))
    && exists g :: g in guards && g.root == entry.root && !g.inFlight && Covers(g, entry.relativePath)
  }

  // ---------- what guards and entries stand for ----------

  /** `p` is `base` or lies below it. */
  predicate Within(p: string, base: string) {
    p == base || base == "" || StartsWith(p, base + "/")
  }

  predicate Guarded(g: Guard, p: string) {
    match g.match_
    case EntireRoot => true
    case DirectoryPrefix => Within(p, g.relativePath)
    case ExactPath => p == g.relativePath
  }

  predicate PartOf(p: string, entry: Handle) {
    if entry.isDirectory then Within(p, entry.relativePath) else p == entry.relativePath
  }

  /** Some path belongs to both. */
  ghost predicate Shares(g: Guard, entry: Handle) {
    exists p :: Guarded(g, p) && PartOf(p, entry)
  }

  lemma PrefixOfPrefix(a: string, b: string, p: string)
    requires a <= p && b <= p
    ensures a <= b || b <= a
  {
    if |a| <= |b| {
      assert forall i :: 0 <= i < |a| ==> a[i] == p[i] == b[i];
    } else {
      assert forall i :: 0 <= i < |b| ==> a[i] == p[i] == b[i];
    }
  }

  /** Two non-empty bases share a path only when one lies within the other. */
  lemma SharedPath(a: string, b: string, p: string)
    requires a != "" && b != "" && Within(p, a) && Within(p, b)
    ensures Within(a, b) || Within(b, a)
  {
    if p != a && p != b {
      PrefixOfPrefix(a + "/", b + "/", p);
      assert a == (a + "/")[..|a|] && b == (b + "/")[..|b|];
      if a + "/" <= b + "/" {
        if |a| < |b| { assert a + "/" <= b; } else { assert a == b; }
      } else {
        assert b + "/" <= a;
      }
    }
  }

  lemma PathOfOverlap(g: Guard, entry: Handle)
    requires Overlaps(g, entry)
    ensures Shares(g, entry)
  {
    if Covers(g, entry.relativePath) {
      assert Guarded(g, entry.relativePath) && PartOf(entry.relativePath, entry);
    } else {
      assert Guarded(g, g.relativePath) && PartOf(g.relativePath, entry);
    }
  }

  /** Away from the source root, a guard overlaps an entry exactly when some path belongs to both. */
  lemma OverlapMeansShared(g: Guard, entry: Handle)
    requires entry.relativePath != "" && (g.relativePath != "" || !g.match_.DirectoryPrefix?)
    ensures Overlaps(g, entry) <==> Shares(g, entry)
  {
    if Overlaps(g, entry) { PathOfOverlap(g, entry); }
    if p :| Guarded(g, p) && PartOf(p, entry) {
      if g.match_.DirectoryPrefix? && entry.isDirectory {
        SharedPath(g.relativePath, entry.relativePath, p);
      }
    }
  }

  /**
   The comparison of texts puts a "/" after the base even when the base is the source root, so it
   finds a path below the root only when that path begins with "/".
   */
  predicate BelowRootUnseen(path: string) {
    path != "" && !StartsWith(path, "/")
  }

  predicate Missed(g: Guard, entry: Handle) {
    && !g.match_.EntireRoot?
    && (|| (entry.relativePath == "" && entry.isDirectory && BelowRootUnseen(g.relativePath))
        || (g.relativePath == "" && g.match_.DirectoryPrefix? && BelowRootUnseen(entry.relativePath)))
  }

  lemma SharedAt(g: Guard, entry: Handle, p: string)
    requires Guarded(g, p) && PartOf(p, entry)
    ensures Shares(g, entry)
  {
  }

  /** For every guard and entry: overlap is a shared path unless the root is compared as text. */
  lemma OverlapIsExact(g: Guard, entry: Handle)
    ensures (Overlaps(g, entry) <==> Shares(g, entry)) <==> !Missed(g, entry)
  {
    assert "" + "/" == "/";
    if Overlaps(g, entry) {
      PathOfOverlap(g, entry);
    } else if g.match_.EntireRoot? {
      assert false;
    } else if entry.relativePath == "" {
      if entry.isDirectory { SharedAt(g, entry, g.relativePath); }
    } else if g.relativePath == "" && g.match_.DirectoryPrefix? {
      SharedAt(g, entry, entry.relativePath);
    } else {
      OverlapMeansShared(g, entry);
    }
  }

  /** An entry that may be skipped shares a path with a use in flight exactly where the comparison misses it. */
  lemma SkippedMeetsOnlyMissed(guards: seq<Guard>, entry: Handle, g: Guard)
    requires CanIgnore(guards, entry) && g in guards && g.root == entry.root && g.inFlight
    ensures Shares(g, entry) <==> Missed(g, entry)
  {
    OverlapIsExact(g, entry);
  }

  // ---------- the guards and entries that occur ----------

  /** Decoded guards name a canonical relative path, which is neither empty nor absolute, or the entire root. */
  predicate Decoded(guards: seq<Guard>) {
    forall g :: g in guards ==> g.match_.EntireRoot? || (g.relativePath != "" && !StartsWith(g.relativePath, "/"))
  }

  /** No path of the entry belongs to a use in flight under the same root. */
  ghost predicate AwayFromUse(guards: seq<Guard>, entry: Handle) {
    forall g, p :: g in guards && g.root == entry.root && g.inFlight ==> !(Guarded(g, p) && PartOf(p, entry))
  }

  /** With decoded guards, nothing in flight is part of a named entry that may be skipped. */
  lemma SkippedIsNotInFlight(guards: seq<Guard>, entry: Handle)
    requires CanIgnore(guards, entry) && Decoded(guards) && entry.relativePath != ""
    ensures AwayFromUse(guards, entry)
  {
    forall g, p | g in guards && g.root == entry.root && g.inFlight
      ensures !(Guarded(g, p) && PartOf(p, entry))
    {
      SkippedMeetsOnlyMissed(guards, entry, g);
    }
  }

  /** With decoded guards a named entry may be skipped exactly when a guard that is not in use holds it and nothing in
      flight under its root is part of it. */
  lemma SkippedIsExact(guards: seq<Guard>, entry: Handle)
    requires Decoded(guards) && entry.relativePath != ""
    ensures CanIgnore(guards, entry) <==>
              && (exists g :: g in guards && g.root == entry.root && !g.inFlight && Guarded(g, entry.relativePath))
              && (forall g :: g in guards && g.root == entry.root && g.inFlight ==> !Shares(g, entry))
  {
    hide Shares;
    forall g | g in guards ensures Overlaps(g, entry) <==> Shares(g, entry) { OverlapIsExact(g, entry); }
  }
}
