/**
 The bounded store of review records (review-record-store.ts, HostReviewRecordStore).

 Clock readings, encodings, tokens and file outcomes are arguments of the operations; the
 notifications of `onInvalidated` are collected in `notices`.
 */
module ReviewStore {
  import opened Common
  import opened Text
  import opened ReviewForest

  datatype PutError = StoreClosed | ParentUnavailable | EncodingFailed | CapacityExhausted | NoToken | WriteFailed

  datatype Input = Input(kind: Kind, owner: string, replacementKey: string, parent: Option<string>)

  // ---------- the map in insertion order, and its total size ----------

  function Drop(order: seq<string>, t: string): (r: seq<string>)
    ensures forall x :: x in r <==> x in order && x != t
    ensures NoRepeats(order) ==> NoRepeats(r) && |r| == if t in order then |order| - 1 else |order|
  {
    if order == [] then []
    else
      assert order == [order[0]] + order[1..];
      var rest := Drop(order[1..], t);
      assert NoRepeats(order) ==> order[0] !in rest;
      if order[0] == t then rest else [order[0]] + rest
  }

  /** The sum of the sizes of all records. */
  ghost function Sum(m: Records): nat
    decreases |m|
  {
    if m == map[] then 0
    else
      var t :| t in m;
      RemoveKeyShrinks(m, t);
      m[t].byteLength + Sum(m - {t})
  }

  lemma {:induction false} SumRemove(m: Records, t: string)
    requires t in m
    ensures Sum(m) == m[t].byteLength + Sum(m - {t})
    decreases |m|
  {
    var c :| c in m && Sum(m) == m[c].byteLength + Sum(m - {c});
    if c != t {
      RemoveKeyShrinks(m, c);
      RemoveKeyShrinks(m, t);
      SumRemove(m - {c}, t);
      SumRemove(m - {t}, c);
      assert m - {c} - {t} == m - {t} - {c};
    }
  }

  lemma SumStored(m: Records, r: Record)
    requires r.token !in m
    ensures Sum(m[r.token := r]) == Sum(m) + r.byteLength
  {
    var n := m[r.token := r];
    SumRemove(n, r.token);
    assert n - {r.token} == m;
  }

  /** The length of the key order is the size of the map. */
  lemma {:induction false} SizeIsOrder(m: Records, order: seq<string>)
    requires NoRepeats(order) && forall t :: t in order <==> t in m
    ensures |m| == |order|
    decreases |order|
  {
    if order == [] {
      assert m.Keys == {};
    } else {
      var t := order[0];
      assert order == [t] + order[1..];
      RemoveKeyShrinks(m, t);
      SizeIsOrder(m - {t}, order[1..]);
    }
  }

  // ---------- eviction order ----------

  /** The comparator of line 129. */
  predicate Older(a: Record, b: Record) {
    a.createdAt < b.createdAt || (a.createdAt == b.createdAt && Less(a.token, b.token))
  }

  lemma OlderIsTotal(a: Record, b: Record)
    ensures Older(a, b) || Older(b, a) || a.token == b.token
  {
    LessTotal(a.token, b.token);
  }

  lemma OlderTransitive(a: Record, b: Record, c: Record)
    requires Older(a, b) && Older(b, c)
    ensures Older(a, c)
  {
    if Less(a.token, b.token) && Less(b.token, c.token) { LessTransitive(a.token, b.token, c.token); }
  }

  ghost predicate Oldest(m: Records, t: string) {
    t in m && forall s :: s in m && s != t ==> Older(m[t], m[s])
  }

  // ---------- the trees of the children already handled ----------

  ghost function Covered(m: Records, snapshot: seq<string>, n: nat, token: string): set<string>
    requires Forest(m) && n <= |snapshot|
  {
    set a | a in m && exists k :: 0 <= k < n && IsChild(m, snapshot[k], token) && Descends(m, a, snapshot[k])
  }

  lemma CoveredNext(m: Records, snapshot: seq<string>, n: nat, token: string)
    requires Forest(m) && n < |snapshot|
    ensures Covered(m, snapshot, n + 1, token) ==
            Covered(m, snapshot, n, token) +
            (if IsChild(m, snapshot[n], token) then Tree(m, snapshot[n]) else {})
  {
  }

  /** A child that is not yet handled is still live when its turn comes: its tree does not meet
      the trees removed before it. This is where a single parent per record matters. */
  lemma ChildIsStillLive(m: Records, snapshot: seq<string>, n: nat, token: string)
    requires Forest(m) && token in m && n < |snapshot| && NoRepeats(snapshot) && IsChild(m, snapshot[n], token)
    ensures snapshot[n] !in Covered(m, snapshot, n, token)
    ensures token !in Covered(m, snapshot, n, token)
  {
    if snapshot[n] in Covered(m, snapshot, n, token) {
      var k :| 0 <= k < n && IsChild(m, snapshot[k], token) && Descends(m, snapshot[n], snapshot[k]);
      assert Descends(m, snapshot[n], snapshot[n]);
      SiblingsAreApart(m, snapshot[n], snapshot[n], snapshot[k], token);
    }
    forall k | 0 <= k < n && IsChild(m, snapshot[k], token) ensures !Descends(m, token, snapshot[k]) {
      ChildTreeSparesParent(m, snapshot[k], token);
    }
  }

  lemma ChildTreeSparesParent(m: Records, child: string, token: string)
    requires Forest(m) && token in m && IsChild(m, child, token)
    ensures token !in Tree(m, child)
  {
    if token in Tree(m, child) { DescendsHeight(m, token, child); }
  }

  lemma CoveredAll(m: Records, snapshot: seq<string>, token: string)
    requires Forest(m) && token in m && forall t :: t in m ==> t in snapshot
    ensures Covered(m, snapshot, |snapshot|, token) == Tree(m, token) - {token}
  {
    forall a | a in Covered(m, snapshot, |snapshot|, token) ensures a in Tree(m, token) && a != token {
      var k :| 0 <= k < |snapshot| && IsChild(m, snapshot[k], token) && Descends(m, a, snapshot[k]);
      ChildDescends(m, snapshot[k], token);
      DescendsTransitive(m, a, snapshot[k], token);
      if a == token { DescendsHeight(m, token, snapshot[k]); }
    }
    forall a | a in Tree(m, token) && a != token ensures a in Covered(m, snapshot, |snapshot|, token) {
      BelowAChild(m, a, token);
      var c :| IsChild(m, c, token) && Descends(m, a, c);
      var k :| 0 <= k < |snapshot| && snapshot[k] == c;
    }
  }

  /** Handling one more child after the trees of earlier children are gone removes its whole tree. */
  lemma TreeUnaffected(m: Records, n: Records, log: seq<Notice>, c: string)
    requires Teardown(m, n, log) && c in n
    ensures Forest(n) && Tree(n, c) == Tree(m, c) - (m.Keys - n.Keys)
  {
    var gone := m.Keys - n.Keys;
    ForestShrinks(m, gone);
    forall a ensures a in Tree(n, c) <==> a in Tree(m, c) - gone {
      DescendsWithout(m, gone, a, c);
    }
  }

  lemma TreesApart(m: Records, snapshot: seq<string>, n: nat, token: string)
    requires Forest(m) && token in m && n < |snapshot| && NoRepeats(snapshot) && IsChild(m, snapshot[n], token)
    ensures Tree(m, snapshot[n]) !! Covered(m, snapshot, n, token)
  {
    forall a | a in Tree(m, snapshot[n]) && a in Covered(m, snapshot, n, token) ensures false {
      var k :| 0 <= k < n && IsChild(m, snapshot[k], token) && Descends(m, a, snapshot[k]);
      SiblingsAreApart(m, a, snapshot[n], snapshot[k], token);
    }
  }

  /** Before the call for child number `n`. */
  lemma BeforeChild(m: Records, snapshot: seq<string>, n: nat, token: string, before: Records, log: seq<Notice>)
    requires Forest(m) && token in m && n < |snapshot| && NoRepeats(snapshot) && IsChild(m, snapshot[n], token)
    requires before == m - Covered(m, snapshot, n, token) && Teardown(m, before, log)
    ensures Forest(before) && snapshot[n] in before && before[snapshot[n]] == m[snapshot[n]]
    ensures Tree(before, snapshot[n]) == Tree(m, snapshot[n])
  {
    ChildIsStillLive(m, snapshot, n, token);
    TreeUnaffected(m, before, log, snapshot[n]);
    TreesApart(m, snapshot, n, token);
    assert m.Keys - before.Keys == Covered(m, snapshot, n, token);
  }

  /** After it. */
  lemma AfterChild(m: Records, snapshot: seq<string>, n: nat, token: string, before: Records, after: Records,
                   log: seq<Notice>, more: seq<Notice>)
    requires Forest(m) && token in m && n < |snapshot| && NoRepeats(snapshot) && IsChild(m, snapshot[n], token)
    requires before == m - Covered(m, snapshot, n, token) && Teardown(m, before, log)
    requires after == before - Tree(m, snapshot[n]) && Teardown(before, after, more)
    ensures after == m - Covered(m, snapshot, n + 1, token) && Teardown(m, after, log + more)
  {
    TeardownTransitive(m, before, after, log, more);
    CoveredNext(m, snapshot, n, token);
  }

  /** When all children are handled the record itself is a leaf. */
  lemma LastOfTree(m: Records, snapshot: seq<string>, token: string, before: Records, log: seq<Notice>, reason: Reason)
    requires Forest(m) && token in m && forall t :: t in m ==> t in snapshot
    requires before == m - Covered(m, snapshot, |snapshot|, token) && Teardown(m, before, log)
    ensures token in before && before[token] == m[token]
    ensures before - {token} == m - Tree(m, token)
    ensures Teardown(m, before - {token}, log + [Notice(m[token], reason)])
  {
    CoveredAll(m, snapshot, token);
    assert Descends(m, token, token);
    TreeUnaffected(m, before, log, token);
    assert m.Keys - before.Keys == Covered(m, snapshot, |snapshot|, token);
    assert Tree(before, token) == {token};
    TeardownLeaf(before, token, reason);
    TeardownTransitive(m, before, before - {token}, log, [Notice(m[token], reason)]);
  }

  lemma NothingCovered(m: Records, snapshot: seq<string>, token: string)
    requires Forest(m)
    ensures m == m - Covered(m, snapshot, 0, token) && Teardown(m, m, [])
  {
    TeardownNothing(m);
    assert Covered(m, snapshot, 0, token) == {};
  }

  // ---------- expiry ----------

  /** Expired records of the snapshot positions below `n`, with everything that descends from them. */
  ghost function Outdated(m: Records, snapshot: seq<string>, n: nat, now: int): set<string>
    requires Forest(m) && n <= |snapshot|
  {
    set a | a in m && exists k :: 0 <= k < n && snapshot[k] in m && m[snapshot[k]].expiresAt <= now
                                  && Descends(m, a, snapshot[k])
  }

  /** What expire() must remove. */
  ghost predicate IsOutdated(m: Records, now: int, a: string)
    requires Forest(m)
  {
    exists e :: e in m && m[e].expiresAt <= now && Descends(m, a, e)
  }

  lemma NothingOutdated(m: Records, snapshot: seq<string>, now: int)
    requires Forest(m)
    ensures m == m - Outdated(m, snapshot, 0, now) && Teardown(m, m, [])
  {
    TeardownNothing(m);
    assert Outdated(m, snapshot, 0, now) == {};
  }

  lemma AllOutdated(m: Records, snapshot: seq<string>, now: int)
    requires Forest(m) && forall t :: t in m <==> t in snapshot
    ensures forall a :: a in Outdated(m, snapshot, |snapshot|, now) <==> a in m && IsOutdated(m, now, a)
  {
    forall a | a in m && IsOutdated(m, now, a) ensures a in Outdated(m, snapshot, |snapshot|, now) {
      var e :| e in m && m[e].expiresAt <= now && Descends(m, a, e);
      assert e in snapshot;
      var k :| 0 <= k < |snapshot| && snapshot[k] == e;
    }
  }

  lemma OutdatedKept(m: Records, snapshot: seq<string>, n: nat, now: int, before: Records, log: seq<Notice>)
    requires Forest(m) && n < |snapshot| && snapshot[n] in m
    requires before == m - Outdated(m, snapshot, n, now) && Teardown(m, before, log)
    requires m[snapshot[n]].expiresAt > now || snapshot[n] !in before
    ensures before == m - Outdated(m, snapshot, n + 1, now)
  {
    var gone := m.Keys - before.Keys;
    forall a ensures a in Outdated(m, snapshot, n + 1, now) <==> a in Outdated(m, snapshot, n, now) {
      if a in m && m[snapshot[n]].expiresAt <= now && Descends(m, a, snapshot[n]) {
        assert snapshot[n] in gone;
        assert a in gone;
      }
    }
  }

  lemma OutdatedRemoved(m: Records, snapshot: seq<string>, n: nat, now: int, before: Records, after: Records,
                        log: seq<Notice>, more: seq<Notice>)
    requires Forest(m) && n < |snapshot| && snapshot[n] in m && m[snapshot[n]].expiresAt <= now
    requires before == m - Outdated(m, snapshot, n, now) && Teardown(m, before, log)
    requires snapshot[n] in before && Forest(before)
    requires after == before - Tree(before, snapshot[n]) && Teardown(before, after, more)
    ensures after == m - Outdated(m, snapshot, n + 1, now) && Teardown(m, after, log + more)
  {
    TreeUnaffected(m, before, log, snapshot[n]);
    TeardownTransitive(m, before, after, log, more);
  }

  /** After expire() no expired record is left. */
  lemma NoneLeftExpired(m: Records, n: Records, now: int)
    requires Forest(m)
    requires forall a :: a in n <==> a in m && !IsOutdated(m, now, a)
    ensures forall a :: a in n ==> m[a].expiresAt > now
  {
    forall a | a in n ensures m[a].expiresAt > now { assert Descends(m, a, a); }
  }

  // ---------- making room ----------

  lemma {:induction false} OldestExists(m: Records)
    requires Keyed(m) && m != map[]
    ensures exists t :: Oldest(m, t)
    decreases |m|
  {
    hide Older;
    var x :| x in m;
    var rest := m - {x};
    if rest == map[] {
      forall s | s in m ensures s == x { assert s in rest || s == x; }
      assert Oldest(m, x);
    } else {
      RemoveKeyShrinks(m, x);
      OldestExists(rest);
      var y :| Oldest(rest, y);
      OlderIsTotal(m[x], m[y]);
      if Older(m[x], m[y]) {
        forall s | s in m && s != x ensures Older(m[x], m[s]) {
          assert s in rest && rest[s] == m[s];
          if s != y { OlderTransitive(m[x], m[y], m[s]); }
        }
        assert Oldest(m, x);
      } else {
        forall s | s in m && s != y && s != x ensures Older(m[y], m[s]) { assert s in rest && rest[s] == m[s]; }
        assert Oldest(m, y);
      }
    }
  }

  lemma OldestIsOne(m: Records, s: string, t: string)
    requires Oldest(m, s) && Oldest(m, t)
    ensures s == t
  {
    LessTotal(m[s].token, m[t].token);
  }

  /** What both limits ask before one more record of this size is stored. */
  ghost predicate HasRoom(m: Records, byteLength: nat, maximumRecords: nat, maximumBytes: nat) {
    m == map[] || (|m| < maximumRecords && Sum(m) + byteLength <= maximumBytes)
  }

  /** The records that eviction leaves: without the tree of the oldest, as long as there is no room. */
  ghost function Room(m: Records, byteLength: nat, maximumRecords: nat, maximumBytes: nat): (left: Records)
    requires Forest(m)
    ensures Forest(left)
    decreases |m|
  {
    if HasRoom(m, byteLength, maximumRecords, maximumBytes) then m
    else
      OldestExists(m);
      var t :| Oldest(m, t);
      TreeShrinks(m, t);
      Room(m - Tree(m, t), byteLength, maximumRecords, maximumBytes)
  }

  lemma TreeShrinks(m: Records, t: string)
    requires Forest(m) && t in m
    ensures Forest(m - Tree(m, t)) && |m - Tree(m, t)| < |m|
  {
    ForestShrinks(m, Tree(m, t));
    assert Descends(m, t, t);
    ProperSubset((m - Tree(m, t)).Keys, m.Keys, t);
  }

  /** One turn of the eviction loop. */
  lemma RoomStep(m: Records, t: string, byteLength: nat, maximumRecords: nat, maximumBytes: nat)
    requires Forest(m) && Oldest(m, t) && !HasRoom(m, byteLength, maximumRecords, maximumBytes)
    ensures Forest(m - Tree(m, t))
    ensures Room(m, byteLength, maximumRecords, maximumBytes) ==
            Room(m - Tree(m, t), byteLength, maximumRecords, maximumBytes)
  {
    hide Oldest, HasRoom, Sum, Tree;
    OldestTreeGoes(m, t);
    forall s | Oldest(m, s) ensures s == t { OldestIsOne(m, s, t); }
  }

  lemma OldestTreeGoes(m: Records, t: string)
    requires Forest(m) && Oldest(m, t)
    ensures t in m && Forest(m - Tree(m, t))
  {
    TreeShrinks(m, t);
  }

  lemma RoomEnough(m: Records, byteLength: nat, maximumRecords: nat, maximumBytes: nat)
    requires Forest(m) && HasRoom(m, byteLength, maximumRecords, maximumBytes)
    ensures Room(m, byteLength, maximumRecords, maximumBytes) == m
  {
  }

  /** Eviction removes whole trees, so a record it takes takes its descendants along. */
  lemma {:induction false} RoomIsPart(m: Records, byteLength: nat, maximumRecords: nat, maximumBytes: nat)
    requires Forest(m)
    ensures var left := Room(m, byteLength, maximumRecords, maximumBytes);
            (forall t :: t in left ==> t in m && left[t] == m[t])
    decreases |m|
  {
    hide Sum, Forest, Descends;
    if !HasRoom(m, byteLength, maximumRecords, maximumBytes) {
      SomeOldest(m);
      var t :| Oldest(m, t);
      TreeShrinks(m, t);
      RoomStep(m, t, byteLength, maximumRecords, maximumBytes);
      RoomIsPart(m - Tree(m, t), byteLength, maximumRecords, maximumBytes);
    }
  }

  lemma SomeOldest(m: Records)
    requires Forest(m) && m != map[]
    ensures exists t :: Oldest(m, t)
  {
    OldestExists(m);
  }

  /** The live record in the new record's place leaves with its descendants. */
  ghost function ReplacedTree(m: Records, input: Input): set<string>
    requires Forest(m)
  {
    if x :| x in m && SamePlace(m[x], input) then Tree(m, x) else {}
  }

  ghost function WithoutReplaced(m: Records, input: Input): (left: Records)
    requires Forest(m)
    ensures Forest(left)
  {
    ForestShrinks(m, ReplacedTree(m, input));
    m - ReplacedTree(m, input)
  }

  lemma ReplacedIs(m: Records, input: Input, x: string)
    requires Forest(m) && x in m && SamePlace(m[x], input)
    requires forall t :: t in m && t != x ==> !SamePlace(m[t], input)
    ensures WithoutReplaced(m, input) == m - Tree(m, x)
  {
    hide Tree, Forest, SamePlace;
  }

  lemma NothingReplaced(m: Records, input: Input)
    requires Forest(m) && forall t :: t in m ==> !SamePlace(m[t], input)
    ensures WithoutReplaced(m, input) == m
  {
    hide Tree, Forest, SamePlace;
    assert m - {} == m;
  }

  /** The records of `m` that publishing a new one leaves. */
  ghost function Kept(m: Records, input: Input, byteLength: nat, maximumRecords: nat, maximumBytes: nat): (left: Records)
    requires Forest(m)
    ensures Forest(left)
  {
    Room(WithoutReplaced(m, input), byteLength, maximumRecords, maximumBytes)
  }

  /** The new record has its parent exactly when making room for it has not taken that parent. */
  lemma StoredIsRooted(m: Records, n: Records, log: seq<Notice>, r: Record)
    requires Teardown(m, n, log) && r.token !in n && r.parent != Some(r.token)
    ensures Rooted(m) ==> (Rooted(n[r.token := r]) <==> (r.parent.Some? ==> r.parent.value in n))
  {
    TeardownStaysRooted(m, n, log);
    hide Teardown, Forest;
    if r.parent.Some? && r.parent.value !in n { assert r.token in n[r.token := r]; }
  }

  /** A parent that is the oldest live record is taken whenever something has to be evicted. */
  lemma OldestParentIsLost(m: Records, p: string, byteLength: nat, maximumRecords: nat, maximumBytes: nat)
    requires Forest(m) && Oldest(m, p)
    ensures p in Room(m, byteLength, maximumRecords, maximumBytes) <==> HasRoom(m, byteLength, maximumRecords, maximumBytes)
  {
    hide Sum, Forest;
    if HasRoom(m, byteLength, maximumRecords, maximumBytes) {
      RoomEnough(m, byteLength, maximumRecords, maximumBytes);
    } else {
      TreeShrinks(m, p);
      RoomStep(m, p, byteLength, maximumRecords, maximumBytes);
      RoomIsPart(m - Tree(m, p), byteLength, maximumRecords, maximumBytes);
      InOwnTree(m, p);
    }
  }

  lemma InOwnTree(m: Records, t: string)
    requires Forest(m) && t in m
    ensures t in Tree(m, t)
  {
  }

  lemma {:induction false} PartNeedsLess(m: Records, n: Records)
    requires forall t :: t in n ==> t in m && n[t] == m[t]
    ensures |n| <= |m| && Sum(n) <= Sum(m)
    decreases |m|
  {
    hide Sum;
    if t :| t in m && t !in n {
      SumRemove(m, t);
      RemoveKeyShrinks(m, t);
      PartNeedsLess(m - {t}, n);
    } else {
      assert n == m;
    }
  }

  lemma FewerHaveRoom(m: Records, gone: set<string>, byteLength: nat, maximumRecords: nat, maximumBytes: nat)
    requires HasRoom(m, byteLength, maximumRecords, maximumBytes)
    ensures HasRoom(m - gone, byteLength, maximumRecords, maximumBytes)
  {
    hide Sum;
    PartNeedsLess(m, m - gone);
    if m == map[] { assert m - gone == map[]; }
  }

  /** `e` is the oldest of `p` and its live ancestors. */
  ghost predicate OldestAbove(m: Records, p: string, e: string)
    requires Forest(m)
  {
    Descends(m, p, e) && e in m && forall x :: Descends(m, p, x) && x != e ==> x in m && Older(m[e], m[x])
  }

  /** Every live record has one. */
  lemma {:induction false} OldestAboveExists(m: Records, p: string) returns (e: string)
    requires Forest(m) && p in m
    ensures OldestAbove(m, p, e)
    decreases Height(m, p)
  {
    hide Less;
    e := p;
    if m[p].parent.Some? && m[p].parent.value in m {
      var q := m[p].parent.value;
      var f := OldestAboveExists(m, q);
      assert Descends(m, q, q) && Descends(m, p, q);
      DescendsHeight(m, p, q);
      forall x | Descends(m, p, x) ensures x in m && (x == p || Descends(m, q, x)) { DescendsHeight(m, p, x); }
      OlderIsTotal(m[p], m[f]);
      if Older(m[f], m[p]) {
        e := f;
      } else {
        forall x | Descends(m, q, x) && x != f && x != p ensures Older(m[p], m[x]) {
          if f != p { OlderTransitive(m[p], m[f], m[x]); }
        }
      }
    }
  }

  /** Everything that is older than `e`, with descendants. */
  ghost function OlderTrees(m: Records, e: string): set<string>
    requires Forest(m) && e in m
  {
    set a | a in m && exists x :: x in m && Older(m[x], m[e]) && Descends(m, a, x)
  }

  /** Whether a record survives can be told in advance: exactly when there is room once everything
      older than the oldest of it and its ancestors is gone. */
  lemma {:induction false} ParentSurvives(m: Records, p: string, e: string, byteLength: nat, maximumRecords: nat,
                                          maximumBytes: nat)
    requires Forest(m) && OldestAbove(m, p, e)
    ensures p in Room(m, byteLength, maximumRecords, maximumBytes)
            <==> HasRoom(m - OlderTrees(m, e), byteLength, maximumRecords, maximumBytes)
    decreases |m|
  {
    hide Sum, Forest, Descends, Older, Tree, HasRoom, Room, OlderTrees, OldestAbove, Oldest;
    InTree(m, p, e);
    if HasRoom(m, byteLength, maximumRecords, maximumBytes) {
      RoomEnough(m, byteLength, maximumRecords, maximumBytes);
      FewerHaveRoom(m, OlderTrees(m, e), byteLength, maximumRecords, maximumBytes);
    } else {
      SomeOldest(m);
      var t :| Oldest(m, t);
      OldestTreeGoes(m, t);
      TreeShrinks(m, t);
      var rest := m - Tree(m, t);
      RoomStep(m, t, byteLength, maximumRecords, maximumBytes);
      if Descends(m, p, t) {
        OldestOfAll(m, p, e, t);
        RoomIsPart(rest, byteLength, maximumRecords, maximumBytes);
        assert m - {} == m;
      } else {
        OldestAboveRemains(m, p, e, t);
        ParentSurvives(rest, p, e, byteLength, maximumRecords, maximumBytes);
        assert rest - OlderTrees(rest, e) == m - (Tree(m, t) + OlderTrees(rest, e));
      }
    }
  }

  lemma InTree(m: Records, p: string, e: string)
    requires Forest(m) && OldestAbove(m, p, e)
    ensures p in m && m != map[] && e in m
  {
  }

  /** When the oldest record is above `p`, nothing is older than the oldest above `p`. */
  lemma OldestOfAll(m: Records, p: string, e: string, t: string)
    requires Forest(m) && OldestAbove(m, p, e) && Oldest(m, t) && Descends(m, p, t)
    ensures p in Tree(m, t) && OlderTrees(m, e) == {}
  {
    if e != t { LessTotal(m[e].token, m[t].token); }
    forall x | x in m ensures !Older(m[x], m[e]) {
      LessTotal(m[x].token, m[e].token);
    }
  }

  /** Taking whole trees away changes nothing about what is above a record that stays. */
  lemma AboveWithout(m: Records, p: string, e: string, gone: set<string>)
    requires Forest(m) && OldestAbove(m, p, e) && Closed(m, gone) && p !in gone
    ensures var rest := m - gone;
            && Forest(rest) && OldestAbove(rest, p, e) && e in rest && e in m
            && gone + OlderTrees(m, e) == gone + OlderTrees(rest, e)
  {
    hide Less, Older;
    ForestShrinks(m, gone);
    var rest := m - gone;
    forall a, x ensures Descends(rest, a, x) <==> Descends(m, a, x) && a !in gone { DescendsWithout(m, gone, a, x); }
    forall a, x | Descends(rest, a, x) ensures x in rest { DescendsHeight(rest, a, x); }
    assert Descends(rest, p, e);
    forall a | a !in gone ensures a in OlderTrees(m, e) <==> a in OlderTrees(rest, e) {
      if a in OlderTrees(m, e) {
        var x :| x in m && Older(m[x], m[e]) && Descends(m, a, x);
        assert x in rest && Descends(rest, a, x);
      }
    }
  }

  lemma OldestAboveRemains(m: Records, p: string, e: string, t: string)
    requires Forest(m) && OldestAbove(m, p, e) && Oldest(m, t) && !Descends(m, p, t)
    ensures var rest := m - Tree(m, t);
            && Forest(rest) && OldestAbove(rest, p, e) && e in rest && e in m
            && OlderTrees(m, e) == Tree(m, t) + OlderTrees(rest, e)
  {
    hide Less, Older, Forest;
    TreeIsClosed(m, t);
    AboveWithout(m, p, e, Tree(m, t));
    assert Descends(m, p, e) && e != t && Older(m[t], m[e]);
    assert Tree(m, t) <= OlderTrees(m, e);
    OldTreesOfRest(m, Tree(m, t), e);
  }

  lemma OldTreesOfRest(m: Records, gone: set<string>, e: string)
    requires Forest(m) && Forest(m - gone) && e in m - gone
    ensures OlderTrees(m - gone, e) !! gone
  {
    hide Older, Forest;
  }

  lemma TreeIsClosed(m: Records, t: string)
    requires Forest(m)
    ensures Closed(m, Tree(m, t))
  {
    hide Forest;
    forall x, y | x in Tree(m, t) && Descends(m, y, x) ensures y in Tree(m, t) {
      DescendsTransitive(m, y, x, t);
      DescendsHeight(m, y, x);
    }
  }

  /** What a caller can check before `put`: the parent is not replaced along with a record in the
      new one's place, and there is room once that tree and everything older than the oldest of the
      parent and its ancestors is gone. */
  ghost predicate SparesParent(m: Records, input: Input, byteLength: nat, maximumRecords: nat, maximumBytes: nat)
    requires Forest(m)
  {
    input.parent.Some? ==>
      && input.parent.value !in ReplacedTree(m, input)
      && exists e :: OldestAbove(m, input.parent.value, e)
           && HasRoom(m - (ReplacedTree(m, input) + OlderTrees(m, e)), byteLength, maximumRecords, maximumBytes)
  }

  lemma SparedAbove(m: Records, input: Input, p: string, e: string, byteLength: nat, maximumRecords: nat, maximumBytes: nat)
    requires Forest(m) && OldestAbove(m, p, e) && p !in ReplacedTree(m, input)
    ensures e in m
    ensures p in Kept(m, input, byteLength, maximumRecords, maximumBytes)
            <==> HasRoom(m - (ReplacedTree(m, input) + OlderTrees(m, e)), byteLength, maximumRecords, maximumBytes)
  {
    hide Room, HasRoom, OldestAbove, OlderTrees, ReplacedTree, Forest;
    var gone := ReplacedTree(m, input);
    ReplacedIsClosed(m, input);
    AboveWithout(m, p, e, gone);
    ParentSurvives(m - gone, p, e, byteLength, maximumRecords, maximumBytes);
    assert m - gone - OlderTrees(m - gone, e) == m - (gone + OlderTrees(m - gone, e));
  }

  lemma ReplacedIsClosed(m: Records, input: Input)
    requires Forest(m)
    ensures Closed(m, ReplacedTree(m, input))
  {
    hide Forest, Tree, SamePlace;
    if x :| x in m && SamePlace(m[x], input) && ReplacedTree(m, input) == Tree(m, x) { TreeIsClosed(m, x); }
  }

  /** Making room spares a live parent exactly then. */
  lemma SparesParentIsExact(m: Records, input: Input, byteLength: nat, maximumRecords: nat, maximumBytes: nat)
    requires Forest(m) && (input.parent.Some? ==> input.parent.value in m)
    ensures SparesParent(m, input, byteLength, maximumRecords, maximumBytes)
            <==> (input.parent.Some? ==> input.parent.value in Kept(m, input, byteLength, maximumRecords, maximumBytes))
  {
    hide Forest, HasRoom, Kept, OldestAbove, OlderTrees, ReplacedTree;
    if input.parent.Some? {
      var p := input.parent.value;
      if p in ReplacedTree(m, input) {
        ReplacedIsNotKept(m, input, p, byteLength, maximumRecords, maximumBytes);
      } else {
        var e0 := OldestAboveExists(m, p);
        forall e | OldestAbove(m, p, e)
          ensures e in m
          ensures p in Kept(m, input, byteLength, maximumRecords, maximumBytes)
                  <==> HasRoom(m - (ReplacedTree(m, input) + OlderTrees(m, e)), byteLength, maximumRecords, maximumBytes)
        {
          SparedAbove(m, input, p, e, byteLength, maximumRecords, maximumBytes);
        }
      }
    }
  }

  lemma ReplacedIsNotKept(m: Records, input: Input, p: string, byteLength: nat, maximumRecords: nat, maximumBytes: nat)
    requires Forest(m) && p in ReplacedTree(m, input)
    ensures p !in Kept(m, input, byteLength, maximumRecords, maximumBytes)
  {
    hide Forest, ReplacedTree, Room;
    RoomIsPart(WithoutReplaced(m, input), byteLength, maximumRecords, maximumBytes);
  }

  /** The smallest such store: it holds one record, which publishing a child of it evicts. */
  lemma OrphanWitness(a: Record, child: Record, input: Input, byteLength: nat, maximumBytes: nat)
    requires a.token != child.token && a.parent.None? && child.parent == Some(a.token) && !SamePlace(a, input)
    ensures var m := map[a.token := a];
            && Forest(m) && Rooted(m) && |m| == 1
            && Kept(m, input, byteLength, 1, maximumBytes) == map[] && !Rooted(map[][child.token := child])
  {
    var m := map[a.token := a];
    assert Ranks(m, map[a.token := 0]);
    assert Oldest(m, a.token) && m != map[];
    NothingReplaced(m, input);
    OldestParentIsLost(m, a.token, byteLength, 1, maximumBytes);
    RoomIsPart(m, byteLength, 1, maximumBytes);
    hide Sum, Descends, Room;
    var left := Kept(m, input, byteLength, 1, maximumBytes);
    assert left.Keys == {};
    assert child.token in map[][child.token := child];
  }

  // ---------- eviction ----------

  /** Every record that left, or an ancestor of it, is older than every record that stayed. */
  ghost predicate EvictedOldest(m: Records, n: Records)
    requires Forest(m)
  {
    forall a :: a in m && a !in n ==>
      exists e :: Descends(m, a, e) && e in m && forall s :: s in n ==> Older(m[e], n[s])
  }

  lemma NothingEvicted(m: Records)
    requires Forest(m)
    ensures EvictedOldest(m, m)
  {
  }

  lemma EvictOne(m: Records, n: Records, log: seq<Notice>, o: string, after: Records, more: seq<Notice>)
    requires Teardown(m, n, log) && EvictedOldest(m, n) && Forest(n) && Oldest(n, o)
    requires after == n - Tree(n, o) && Teardown(n, after, more)
    ensures Teardown(m, after, log + more) && EvictedOldest(m, after)
  {
    TeardownTransitive(m, n, after, log, more);
    TreeUnaffected(m, n, log, o);
    assert Descends(n, o, o);
    forall a | a in m && a !in after
      ensures exists e :: Descends(m, a, e) && e in m && forall s :: s in after ==> Older(m[e], after[s])
    {
      if a in n {
        assert a in Tree(m, o);
        assert Descends(m, a, o) && m[o] == n[o];
        forall s | s in after ensures Older(m[o], after[s]) { assert s in n && s != o; }
      } else {
        var e :| Descends(m, a, e) && e in m && forall s :: s in n ==> Older(m[e], n[s]);
        assert forall s :: s in after ==> s in n && after[s] == n[s];
      }
    }
  }

  // ---------- publication ----------

  /** The live record that a new one replaces. */
  predicate SamePlace(r: Record, input: Input) {
    r.owner == input.owner && r.kind == input.kind && r.replacementKey == input.replacementKey
  }

  /** Why a record left during `put`: it, or an ancestor, had expired, was replaced, or was evicted
      because it is older than everything that stayed. */
  ghost predicate Justified(m: Records, n: Records, now: int, input: Input, notice: Notice)
    requires Forest(m)
  {
    match notice.reason
    case Expired => IsOutdated(m, now, notice.record.token)
    case Replaced =>
      exists x :: Descends(m, notice.record.token, x) && x in m && SamePlace(m[x], input) && !IsOutdated(m, now, x)
    case Evicted =>
      exists e :: Descends(m, notice.record.token, e) && e in m && forall s :: s in n ==> Older(m[e], n[s])
    case _ => false
  }

  lemma ExpiredAreJustified(m: Records, n: Records, final: Records, now: int, input: Input, log: seq<Notice>)
    requires Teardown(m, n, log) && forall a :: a in n <==> a in m && !IsOutdated(m, now, a)
    requires forall i :: 0 <= i < |log| ==> log[i].reason == Expired
    ensures forall i :: 0 <= i < |log| ==> Justified(m, final, now, input, log[i])
  {
    hide IsOutdated, Descends;
  }

  lemma ReplacedAreJustified(m: Records, n: Records, o: Records, final: Records, now: int, input: Input,
                             first: seq<Notice>, log: seq<Notice>, x: string)
    requires Teardown(m, n, first) && Teardown(n, o, log) && forall a :: a in n <==> a in m && !IsOutdated(m, now, a)
    requires Forest(n) && x in n && SamePlace(n[x], input) && o == n - Tree(n, x)
    requires forall i :: 0 <= i < |log| ==> log[i].reason == Replaced
    ensures forall i :: 0 <= i < |log| ==> Justified(m, final, now, input, log[i])
  {
    TreeUnaffected(m, n, first, x);
    forall i | 0 <= i < |log| ensures Justified(m, final, now, input, log[i]) {
      assert log[i].record.token in Tree(m, x);
      assert m[x] == n[x];
    }
  }

  lemma EvictedAreJustified(m: Records, n: Records, final: Records, now: int, input: Input,
                            first: seq<Notice>, log: seq<Notice>)
    requires Teardown(m, n, first) && Teardown(n, final, log) && EvictedOldest(n, final)
    requires forall i :: 0 <= i < |log| ==> log[i].reason == Evicted
    ensures forall i :: 0 <= i < |log| ==> Justified(m, final, now, input, log[i])
  {
    var gone := m.Keys - n.Keys;
    forall i | 0 <= i < |log| ensures Justified(m, final, now, input, log[i]) {
      var a := log[i].record.token;
      var e :| Descends(n, a, e) && e in n && forall s :: s in final ==> Older(n[e], final[s]);
      DescendsWithout(m, gone, a, e);
      assert m[e] == n[e];
    }
  }

  /** Every notice from position `base` on tells the truth about why its record left. */
  ghost predicate AllJustified(m: Records, n: Records, now: int, input: Input, log: seq<Notice>, base: nat)
    requires Forest(m) && base <= |log|
  {
    forall i :: base <= i < |log| ==> Justified(m, n, now, input, log[i])
  }

  lemma JustifiedTogether(m: Records, n: Records, now: int, input: Input, log: seq<Notice>,
                          a: nat, b: nat, c: nat)
    requires Forest(m) && a <= b <= c <= |log|
    requires forall i :: 0 <= i < |log[a..b]| ==> Justified(m, n, now, input, log[a..b][i])
    requires forall i :: 0 <= i < |log[b..c]| ==> Justified(m, n, now, input, log[b..c][i])
    requires forall i :: 0 <= i < |log[c..]| ==> Justified(m, n, now, input, log[c..][i])
    ensures AllJustified(m, n, now, input, log, a)
  {
    forall i | a <= i < |log| ensures Justified(m, n, now, input, log[i]) {
      if i < b {
        assert log[i] == log[a..b][i - a];
      } else if i < c {
        assert log[i] == log[b..c][i - b];
      } else {
        assert log[i] == log[c..][i - c];
      }
    }
  }

  /** Three removals in a row: expiry, replacement, eviction. */
  lemma PutRemovals(m: Records, n1: Records, n2: Records, n3: Records, now: int, input: Input, replaced: Option<string>,
                    log: seq<Notice>, a: nat, b: nat, c: nat)
    requires a <= b <= c <= |log|
    requires Teardown(m, n1, log[a..b]) && forall t :: t in n1 <==> t in m && !IsOutdated(m, now, t)
    requires forall i :: a <= i < b ==> log[i].reason == Expired
    requires Teardown(n1, n2, log[b..c])
    requires match replaced
             case None => n2 == n1 && b == c
             case Some(x) => x in n1 && SamePlace(n1[x], input) && n2 == n1 - Tree(n1, x)
    requires forall i :: b <= i < c ==> log[i].reason == Replaced
    requires Teardown(n2, n3, log[c..]) && EvictedOldest(n2, n3)
    requires forall i :: c <= i < |log| ==> log[i].reason == Evicted
    ensures Teardown(m, n3, log[a..]) && AllJustified(m, n3, now, input, log, a)
  {
    hide Teardown, IsOutdated, EvictedOldest, Justified, AllJustified, Tree;
    TeardownKeeps(n1, n2, log[b..c]);
    TeardownTransitive(m, n1, n2, log[a..b], log[b..c]);
    TeardownTransitive(m, n2, n3, log[a..b] + log[b..c], log[c..]);
    assert log[a..b] + log[b..c] + log[c..] == log[a..];
    assert log[a..b] + log[b..c] == log[a..c];
    ExpiredAreJustified(m, n1, n3, now, input, log[a..b]);
    if replaced.Some? { ReplacedAreJustified(m, n1, n2, n3, now, input, log[a..b], log[b..c], replaced.value); }
    EvictedAreJustified(m, n2, n3, now, input, log[a..c], log[c..]);
    JustifiedTogether(m, n3, now, input, log, a, b, c);
  }

  /** The records that expire() leaves. */
  ghost function Live(m: Records, now: int): (live: Records)
    requires Forest(m)
    ensures Forest(live)
  {
    var live := map t | t in m && !IsOutdated(m, now, t) :: m[t];
    assert Ranks(live, RankOf(m));
    live
  }

  /** A record is live until it expires, and no longer than its live parent. */
  lemma LiveWithParent(m: Records, t: string, now: int)
    requires Forest(m) && t in m
    ensures t in Live(m, now) <==>
              now < m[t].expiresAt && (m[t].parent.Some? && m[t].parent.value in m ==> m[t].parent.value in Live(m, now))
  {
    if m[t].parent.Some? && m[t].parent.value in m {
      var p := m[t].parent.value;
      forall e ensures Descends(m, t, e) <==> t == e || Descends(m, p, e) {
      }
    }
  }

  /** An evicted record, or an ancestor of it, was created before every record that stays; ties are broken by token. */
  lemma EvictedIsEarliest(m: Records, n: Records, now: int, input: Input, notice: Notice)
    requires Forest(m) && Justified(m, n, now, input, notice) && notice.reason == Evicted
    ensures exists e :: Descends(m, notice.record.token, e) && e in m && forall s :: s in n ==>
              m[e].createdAt <= n[s].createdAt && (m[e].createdAt == n[s].createdAt ==> Less(m[e].token, n[s].token))
  {
    hide Descends;
    var e :| Descends(m, notice.record.token, e) && e in m && forall s :: s in n ==> Older(m[e], n[s]);
  }

  /** The notices from `base` on say that what is not live has expired, and that the rest was evicted. */
  predicate ToldApart(live: Records, notices: seq<Notice>, base: nat) {
    forall i :: base <= i < |notices| ==> notices[i].reason == if notices[i].record.token in live then Evicted else Expired
  }

  lemma ExpiredApart(m: Records, live: Records, notices: seq<Notice>, base: nat)
    requires base <= |notices| && Teardown(m, live, notices[base..])
    requires forall i :: base <= i < |notices| ==> notices[i].reason == Expired
    ensures ToldApart(live, notices, base)
  {
    forall i | base <= i < |notices| ensures notices[i].record.token !in live {
      assert notices[i] == notices[base..][i - base];
      assert notices[base..][i - base].record.token in m.Keys - live.Keys;
    }
  }

  lemma DamagedApart(live: Records, left: Records, before: seq<Notice>, after: seq<Notice>, base: nat)
    requires base <= |before| && before <= after && ToldApart(live, before, base)
    requires Teardown(live, left, after[|before|..])
    requires forall i :: |before| <= i < |after| ==> after[i].reason == Evicted
    ensures ToldApart(live, after, base)
  {
    forall i | base <= i < |after|
      ensures after[i].reason == if after[i].record.token in live then Evicted else Expired
    {
      if i < |before| {
        assert after[i] == before[i];
      } else {
        assert after[i] == after[|before|..][i - |before|];
      }
    }
  }

  lemma TeardownKeeps(m: Records, n: Records, log: seq<Notice>)
    requires Teardown(m, n, log)
    ensures Forest(m) && Forest(n)
    ensures forall t :: t in n ==> t in m && n[t] == m[t]
  {
    ForestShrinks(m, m.Keys - n.Keys);
  }

  lemma LiveIs(m: Records, n: Records, now: int, log: seq<Notice>)
    requires Teardown(m, n, log) && forall t :: t in n <==> t in m && !IsOutdated(m, now, t)
    ensures n == Live(m, now)
  {
  }

  lemma NothingToJustify(m: Records, now: int, input: Input, log: seq<Notice>)
    requires Forest(m)
    ensures AllJustified(m, m, now, input, log, |log|)
  {
  }

  lemma JustExpired(m: Records, n: Records, now: int, input: Input, log: seq<Notice>, a: nat)
    requires a <= |log| && Teardown(m, n, log[a..]) && forall t :: t in n <==> t in m && !IsOutdated(m, now, t)
    requires forall i :: a <= i < |log| ==> log[i].reason == Expired
    ensures AllJustified(m, n, now, input, log, a)
  {
    hide Teardown, IsOutdated, Justified;
    TeardownKeeps(m, n, log[a..]);
    ExpiredAreJustified(m, n, n, now, input, log[a..]);
    forall i | a <= i < |log| ensures Justified(m, n, now, input, log[i]) { assert log[i] == log[a..][i - a]; }
  }

  lemma EmptyForest()
    ensures Forest(map[])
  {
    assert Ranks(map[], map[]);
  }

  lemma NotLive(t: string, m: Records)
    requires UsableToken(t, m)
    ensures t !in m
  {
  }

  /** Without the new record a cycle it closes is a chain; records removed on the way only break chains. */
  lemma StoredForest(m: Records, n: Records, log: seq<Notice>, r: Record)
    requires Teardown(m, n, log) && r.token !in n && r.parent != Some(r.token)
    ensures Forest(n)
    ensures Forest(n[r.token := r]) <==> !ClosesCycle(n, r.parent, r.token)
    ensures ClosesCycle(n, r.parent, r.token) ==> ClosesCycle(m, r.parent, r.token)
  {
    TeardownKeeps(m, n, log);
    ReuseMakesACycle(n, r);
    FewerChains(m, m.Keys - n.Keys, r.parent, r.token);
  }

  // ---------- tokens ----------

  predicate UsableToken(t: string, m: Records) {
    TrimmedText(t) && '\0' !in t && t !in m
  }

  lemma NoticesSplit(early: seq<Notice>, middle: seq<Notice>, all: seq<Notice>, a: nat)
    requires a <= |early| && early <= middle <= all
    ensures all[a..|early|] == early[a..] && all[|early|..|middle|] == middle[|early|..]
    ensures forall i :: 0 <= i < |early| ==> all[i] == early[i]
    ensures forall i :: 0 <= i < |middle| ==> all[i] == middle[i]
  {
  }

  lemma SliceSplit(a: seq<Notice>, b: seq<Notice>, base: nat)
    requires base <= |a| && a <= b
    ensures b[base..] == a[base..] + b[|a|..]
  {
    assert b == a + b[|a|..];
  }

  lemma TokensMatch(m: Records, t: string)
    requires Forest(m) && t in m
    ensures m[t].token == t
  {
  }

  /** The tree of a child is smaller, so the recursion ends. */
  lemma ChildTreeIsSmaller(m: Records, child: string, token: string)
    requires Forest(m) && token in m && IsChild(m, child, token)
    ensures |Tree(m, child)| < |Tree(m, token)|
  {
    ChildTreeSparesParent(m, child, token);
    ChildDescends(m, child, token);
    forall a | a in Tree(m, child) ensures a in Tree(m, token) { DescendsTransitive(m, a, child, token); }
    assert Descends(m, token, token);
    ProperSubset(Tree(m, child), Tree(m, token), token);
  }

  lemma ProperSubset(a: set<string>, b: set<string>, x: string)
    requires a <= b && x in b && x !in a
    ensures |a| < |b|
  {
    assert b == a + (b - a);
    assert x in b - a;
  }

  // ---------- the store ----------

  class HostReviewRecordStore {
    const maximumRecords: nat
    const maximumBytes: nat
    const maximumAge: nat
    const sha256: seq<byte> -> string
    var records: Records
    var order: seq<string>
    var totalBytes: int
    var closed: bool
    var notices: seq<Notice>

    /** The redundant accounting, which does not depend on the parent links. */
    ghost predicate Accounted()
      reads this
    {
      && 1 <= maximumRecords && 1 <= maximumBytes && 1 <= maximumAge
      && Keyed(records)
      && NoRepeats(order)
      && (forall t :: t in order <==> t in records)
      && totalBytes == Sum(records)
      && (forall s, t :: s in records && t in records && s != t ==>
            (records[s].owner, records[s].kind, records[s].replacementKey) !=
            (records[t].owner, records[t].kind, records[t].replacementKey))
    }

    /** What holds between any two statements of the class. */
    ghost predicate Consistent()
      reads this
    {
      Accounted() && Forest(records)
    }

    /** Both limits hold. */
    ghost predicate Limited()
      reads this
    {
      Accounted() && |order| <= maximumRecords && totalBytes <= maximumBytes
    }

    /** What holds between any two operations: the accounting, both limits, and links without a cycle. */
    ghost predicate Valid()
      reads this
    {
      Limited() && Forest(records)
    }

    /** Between any two operations the record count and the byte count are those of the live records, within their limits. */
    lemma WithinLimits()
      requires Limited()
      ensures |records| <= maximumRecords
      ensures totalBytes == Sum(records) <= maximumBytes
    {
      SizeIsOrder(records, order);
    }

    constructor (records': nat, bytes': nat, age': nat, hash: seq<byte> -> string)
      requires 1 <= records' && 1 <= bytes' && 1 <= age'
      ensures Valid() && !closed && records == map[] && notices == []
      ensures maximumRecords == records' && maximumBytes == bytes' && maximumAge == age' && sha256 == hash
    {
      maximumRecords, maximumBytes, maximumAge, sha256 := records', bytes', age', hash;
      records, order, totalBytes, closed, notices := map[], [], 0, false, [];
      EmptyForest();
    }

    lemma Facts()
      requires Consistent()
      ensures Forest(records) && NoRepeats(order)
      ensures forall t :: t in order <==> t in records
      ensures 1 <= maximumRecords && (|order| == 0 ==> totalBytes == 0)
    {
      if |order| == 0 { assert records == map[]; }
    }

    /** What the loop of lines 124-132 compares. */
    lemma Sizes(byteLength: nat)
      requires Consistent()
      ensures HasRoom(records, byteLength, maximumRecords, maximumBytes) <==>
              !(|order| >= maximumRecords || (|order| > 0 && totalBytes + byteLength > maximumBytes))
    {
      SizeIsOrder(records, order);
      if |order| == 0 { assert records == map[]; }
    }

    method RemoveOne(t: string, reason: Reason)
      requires Consistent() && t in records
      modifies this`records, this`order, this`totalBytes, this`notices
      ensures Consistent()
      ensures records == old(records) - {t}
      ensures notices == old(notices) + [Notice(old(records)[t], reason)]
      ensures totalBytes == old(totalBytes) - old(records)[t].byteLength && |order| == old(|order|) - 1
    {
      SumRemove(records, t);
      ForestShrinks(records, {t});
      totalBytes := totalBytes - records[t].byteLength;
      notices := notices + [Notice(records[t], reason)];
      order := Drop(order, t);
      records := records - {t};
    }

    /** Removes exactly the record and its live descendants, children first, one notice each. */
    method InvalidateTree(token: string, reason: Reason)
      requires Consistent() && token in records
      modifies this`records, this`order, this`totalBytes, this`notices
      ensures Consistent()
      ensures records == old(records) - Tree(old(records), token)
      ensures old(notices) <= notices
      ensures Teardown(old(records), records, notices[|old(notices)|..])
      ensures forall i :: |old(notices)| <= i < |notices| ==> notices[i].reason == reason
      ensures totalBytes <= old(totalBytes) && |order| < old(|order|)
      decreases |Tree(records, token)|
    {
      hide Consistent, Teardown, Covered, Tree, Forest, Descends, NoRepeats;
      Facts();
      var snapshot, m := order, records; // [...records.values()]
      ghost var base := |notices|;
      NothingCovered(m, snapshot, token);
      assert notices[base..] == [];
      var n := 0;
      while n < |snapshot|
        invariant 0 <= n <= |snapshot|
        invariant Consistent()
        invariant records == m - Covered(m, snapshot, n, token)
        invariant old(notices) <= notices
        invariant Teardown(m, records, notices[base..])
        invariant forall i :: base <= i < |notices| ==> notices[i].reason == reason
        invariant totalBytes <= old(totalBytes) && |order| <= old(|order|)
      {
        if m[snapshot[n]].parent == Some(token) {
          ghost var before, logged := records, notices;
          ChildTreeIsSmaller(m, snapshot[n], token);
          BeforeChild(m, snapshot, n, token, before, notices[base..]);
          InvalidateTree(snapshot[n], reason);
          AfterChild(m, snapshot, n, token, before, records, logged[base..], notices[|logged|..]);
          SliceSplit(logged, notices, base);
        } else {
          CoveredNext(m, snapshot, n, token);
          assert Covered(m, snapshot, n + 1, token) == Covered(m, snapshot, n, token) + {};
        }
        n := n + 1;
      }
      LastOfTree(m, snapshot, token, records, notices[base..], reason);
      ghost var logged := notices;
      RemoveOne(token, reason);
      SliceSplit(logged, notices, base);
    }

    /** Removes exactly the expired records and their descendants. */
    method Expire(now: int)
      requires Consistent()
      modifies this`records, this`order, this`totalBytes, this`notices
      ensures Consistent()
      ensures closed ==> records == old(records) && notices == old(notices)
      ensures !closed ==> forall a :: a in records <==> a in old(records) && !IsOutdated(old(records), now, a)
      ensures old(notices) <= notices
      ensures Teardown(old(records), records, notices[|old(notices)|..])
      ensures forall i :: |old(notices)| <= i < |notices| ==> notices[i].reason == Expired
      ensures totalBytes <= old(totalBytes) && |order| <= old(|order|)
    {
      hide Consistent, Teardown, Outdated, Tree, Forest, Descends, IsOutdated, NoRepeats;
      Facts();
      var snapshot, m := order, records; // [...records.values()]
      ghost var base := |notices|;
      NothingOutdated(m, snapshot, now);
      assert notices[base..] == [];
      if closed { return; }
      var n := 0;
      while n < |snapshot|
        invariant 0 <= n <= |snapshot|
        invariant Consistent()
        invariant records == m - Outdated(m, snapshot, n, now)
        invariant old(notices) <= notices
        invariant Teardown(m, records, notices[base..])
        invariant forall i :: base <= i < |notices| ==> notices[i].reason == Expired
        invariant totalBytes <= old(totalBytes) && |order| <= old(|order|)
      {
        if m[snapshot[n]].expiresAt <= now && snapshot[n] in records {
          ghost var before, logged := records, notices;
          Facts();
          InvalidateTree(snapshot[n], Expired);
          OutdatedRemoved(m, snapshot, n, now, before, records, logged[base..], notices[|logged|..]);
          SliceSplit(logged, notices, base);
        } else {
          OutdatedKept(m, snapshot, n, now, records, notices[base..]);
        }
        n := n + 1;
      }
      AllOutdated(m, snapshot, now);
    }

    /** The first of at most eight candidates that is usable. */
    method NewToken(candidates: seq<string>) returns (r: Option<string>)
      requires |candidates| >= 8
      ensures r.Some? ==> exists i :: 0 <= i < 8 && candidates[i] == r.value && UsableToken(r.value, records)
                                     && forall j :: 0 <= j < i ==> !UsableToken(candidates[j], records)
      ensures r.None? ==> forall i :: 0 <= i < 8 ==> !UsableToken(candidates[i], records)
    {
      var attempt := 0;
      while attempt < 8
        invariant 0 <= attempt <= 8
        invariant forall i :: 0 <= i < attempt ==> !UsableToken(candidates[i], records)
      {
        if UsableToken(candidates[attempt], records) {
          return Some(candidates[attempt]);
        }
        attempt := attempt + 1;
      }
      r := None;
    }

    method FindOldest() returns (t: string)
      requires Consistent() && |order| > 0
      ensures t in records && Oldest(records, t)
    {
      hide Forest, Sum, Older;
      t := order[0];
      var n := 1;
      while n < |order|
        invariant 1 <= n <= |order|
        invariant t in order[..n]
        invariant forall i :: 0 <= i < n && order[i] != t ==> Older(records[t], records[order[i]])
      {
        OlderIsTotal(records[t], records[order[n]]);
        TokensMatch(records, t);
        TokensMatch(records, order[n]);
        if Older(records[order[n]], records[t]) {
          forall i | 0 <= i < n && order[i] != t ensures Older(records[order[n]], records[order[i]]) {
            OlderTransitive(records[order[n]], records[t], records[order[i]]);
          }
          t := order[n];
        }
        n := n + 1;
      }
      assert order[..n] == order;
    }

    /** Lines 124-132: evict oldest trees until one more record of this size fits. */
    method EvictFor(byteLength: nat)
      requires Consistent() && byteLength <= maximumBytes
      modifies this`records, this`order, this`totalBytes, this`notices
      ensures Consistent()
      ensures |order| < maximumRecords && totalBytes + byteLength <= maximumBytes
      ensures old(notices) <= notices
      ensures Teardown(old(records), records, notices[|old(notices)|..])
      ensures EvictedOldest(old(records), records)
      ensures forall i :: |old(notices)| <= i < |notices| ==> notices[i].reason == Evicted
      ensures records == Room(old(records), byteLength, maximumRecords, maximumBytes)
    {
      hide Consistent, Teardown, Tree, Forest, Descends, Older, EvictedOldest, Room, HasRoom, Sum, Oldest;
      Facts();
      ghost var m, base := records, |notices|;
      TeardownNothing(m);
      NothingEvicted(m);
      assert notices[base..] == [];
      while |order| >= maximumRecords || (|order| > 0 && totalBytes + byteLength > maximumBytes)
        invariant Consistent()
        invariant old(notices) <= notices
        invariant Teardown(m, records, notices[base..])
        invariant EvictedOldest(m, records)
        invariant forall i :: base <= i < |notices| ==> notices[i].reason == Evicted
        invariant Forest(records)
        invariant Room(m, byteLength, maximumRecords, maximumBytes) ==
                  Room(records, byteLength, maximumRecords, maximumBytes)
        decreases |order|
      {
        ghost var before, logged := records, notices;
        Facts();
        Sizes(byteLength);
        var oldest := FindOldest();
        RoomStep(records, oldest, byteLength, maximumRecords, maximumBytes);
        InvalidateTree(oldest, Evicted);
        EvictOne(m, before, logged[base..], oldest, records, notices[|logged|..]);
        SliceSplit(logged, notices, base);
      }
      Facts();
      Sizes(byteLength);
      RoomEnough(records, byteLength, maximumRecords, maximumBytes);
    }

    /** The live record with the same owner, kind and replacement key. */
    method FindReplacement(input: Input) returns (r: Option<string>)
      requires Consistent()
      ensures r.Some? ==> r.value in records && SamePlace(records[r.value], input)
      ensures r.None? ==> forall t :: t in records ==> !SamePlace(records[t], input)
    {
      var n := 0;
      while n < |order|
        invariant 0 <= n <= |order|
        invariant forall i :: 0 <= i < n ==> !SamePlace(records[order[i]], input)
      {
        if SamePlace(records[order[n]], input) { return Some(order[n]); }
        n := n + 1;
      }
      r := None;
    }

    /** What is kept for an encoding published at the clock reading `at`: everything as given, from that reading on
        for the maximum age. */
    ghost predicate StoredAs(m: Records, token: string, input: Input, encoded: seq<byte>, at: int) {
      && token in m && m[token].token == token
      && m[token].kind == input.kind && m[token].owner == input.owner && m[token].replacementKey == input.replacementKey
      && m[token].parent == input.parent
      && m[token].byteLength == |encoded| && m[token].contentHash == sha256(encoded)
      && m[token].createdAt == at && m[token].expiresAt == at + maximumAge
    }

    /** Stores a record for which room has been made. */
    method Store(input: Input, token: string, encoded: seq<byte>, now: int)
      requires Consistent() && token !in records && input.parent != Some(token)
      requires |order| < maximumRecords && totalBytes + |encoded| <= maximumBytes
      requires forall t :: t in records ==> !SamePlace(records[t], input)
      modifies this`records, this`order, this`totalBytes
      ensures Limited()
      ensures records == old(records)[token := Published(input, token, encoded, now)]
      ensures StoredAs(records, token, input, encoded, now)
    {
      hide Forest, Descends, Sum;
      var r := Published(input, token, encoded, now);
      SumStored(records, r);
      records := records[token := r];
      order := order + [token];
      totalBytes := totalBytes + |encoded|;
    }

    /** The metadata kept for a published encoding. */
    function Published(input: Input, token: string, encoded: seq<byte>, now: int): Record {
      Record(token, input.kind, input.owner, input.replacementKey, input.parent, |encoded|, sha256(encoded), now,
             now + maximumAge)
    }

    lemma OnlyOneInPlace(x: string, input: Input)
      requires Consistent() && x in records && SamePlace(records[x], input)
      ensures x in Tree(records, x)
      ensures forall t :: t in records && t != x ==> !SamePlace(records[t], input)
    {
    }

    /** Lines 115-123: the tree of the record that held the new record's place goes. */
    method Replace(input: Input) returns (replaced: Option<string>)
      requires Consistent()
      modifies this`records, this`order, this`totalBytes, this`notices
      ensures Consistent()
      ensures match replaced
              case None => records == old(records) && notices == old(notices)
              case Some(x) =>
                && x in old(records) && SamePlace(old(records)[x], input)
                && records == old(records) - Tree(old(records), x)
      ensures records == WithoutReplaced(old(records), input)
      ensures forall t :: t in records ==> !SamePlace(records[t], input)
      ensures old(notices) <= notices
      ensures Teardown(old(records), records, notices[|old(notices)|..])
      ensures forall i :: |old(notices)| <= i < |notices| ==> notices[i].reason == Replaced
      ensures totalBytes <= old(totalBytes) && |order| <= old(|order|)
    {
      hide Teardown, Tree, Forest, Descends, Consistent, WithoutReplaced;
      Facts();
      TeardownNothing(records);
      assert notices[|notices|..] == [];
      replaced := FindReplacement(input);
      if replaced.Some? {
        OnlyOneInPlace(replaced.value, input);
        ReplacedIs(records, input, replaced.value);
        InvalidateTree(replaced.value, Replaced);
      } else {
        NothingReplaced(records, input);
      }
    }

    /** Lines 115-132, after expiry took `m` to the present records: replace, then evict. */
    method MakeRoom(input: Input, byteLength: nat, now: int, ghost m: Records, ghost a: nat)
      requires Consistent() && byteLength <= maximumBytes && a <= |notices|
      requires Teardown(m, records, notices[a..])
      requires forall t :: t in records <==> t in m && !IsOutdated(m, now, t)
      requires forall i :: a <= i < |notices| ==> notices[i].reason == Expired
      modifies this`records, this`order, this`totalBytes, this`notices
      ensures Consistent()
      ensures |order| < maximumRecords && totalBytes + byteLength <= maximumBytes
      ensures Forest(old(records)) && records == Kept(old(records), input, byteLength, maximumRecords, maximumBytes)
      ensures forall t :: t in records ==> t in old(records) && records[t] == old(records)[t] && !SamePlace(records[t], input)
      ensures old(notices) <= notices
      ensures Forest(m) && Teardown(m, records, notices[a..]) && AllJustified(m, records, now, input, notices, a)
    {
      hide Teardown, Tree, Forest, Descends, IsOutdated, Justified, AllJustified, EvictedOldest, Consistent, Room,
           WithoutReplaced, SamePlace, Older, Oldest, Sum, NoRepeats;
      Facts();
      TeardownKeeps(m, records, notices[a..]);
      ghost var n1, b, log1 := records, |notices|, notices;
      var replaced := Replace(input);
      ghost var n2, c, log2 := records, |notices|, notices;
      EvictFor(byteLength);
      NoticesSplit(log1, log2, notices, a);
      PutRemovals(m, n1, n2, records, now, input, replaced, notices, a, b, c);
      TeardownKeeps(n1, n2, log2[b..]);
      TeardownKeeps(n2, records, notices[c..]);
    }

    /** The first thing that keeps a record from being published, the parent before the encoding before the token. */
    function PutFailure(live: Records, input: Input, encoded: Option<seq<byte>>, candidates: seq<string>): PutError
      requires |candidates| >= 8
    {
      if input.parent.Some? && input.parent.value !in live then ParentUnavailable
      else if encoded.None? then EncodingFailed
      else if |encoded.value| > maximumBytes then CapacityExhausted
      else if forall i :: 0 <= i < 8 ==> !UsableToken(candidates[i], live) then NoToken
      else WriteFailed
    }

    /** Publishes a record. `encoded` is the encoding, or None when encoding throws; `written` tells
        whether the file was written; `later` is the second clock reading. The accounting and both
        limits always hold afterwards; the links hold no cycle unless the new record closes one. */
    method Put(input: Input, now: int, encoded: Option<seq<byte>>, candidates: seq<string>, written: bool, later: int)
      returns (r: Result<string, PutError>)
      requires Valid() && |candidates| >= 8
      modifies this`records, this`order, this`totalBytes, this`notices
      ensures Limited()
      ensures r.Err? ==> Valid()
      ensures r.Ok? ==> Forest(records - {r.value})
                        && (Valid() <==> !ClosesCycle(records - {r.value}, input.parent, r.value))
                        && (!ClosesCycle(old(records), input.parent, r.value) ==> Valid())
      ensures closed ==> r == Err(StoreClosed) && records == old(records) && notices == old(notices)
      ensures !closed ==> (r.Ok? <==>
        && (input.parent.Some? ==> input.parent.value in Live(old(records), now))
        && encoded.Some? && |encoded.value| <= maximumBytes
        && (exists i :: 0 <= i < 8 && UsableToken(candidates[i], Live(old(records), now)))
        && written)
      ensures !closed && r.Err? ==>
        && r.error == PutFailure(Live(old(records), now), input, encoded, candidates)
        && records == if r.error == WriteFailed
                      then Kept(Live(old(records), now), input, |encoded.value|, maximumRecords, maximumBytes)
                      else Live(old(records), now)
      ensures r.Ok? ==>
        && (exists i :: 0 <= i < 8 && candidates[i] == r.value && UsableToken(r.value, Live(old(records), now))
                        && forall j :: 0 <= j < i ==> !UsableToken(candidates[j], Live(old(records), now)))
        && records == Kept(Live(old(records), now), input, |encoded.value|, maximumRecords, maximumBytes)
                      [r.value := Published(input, r.value, encoded.value, later)]
        && StoredAs(records, r.value, input, encoded.value, later)
      ensures Rooted(old(records)) ==>
        (Rooted(records) <==>
           (r.Ok? ==> SparesParent(Live(old(records), now), input, |encoded.value|, maximumRecords, maximumBytes)))
      ensures old(notices) <= notices
      ensures var rest := if r.Ok? then records - {r.value} else records;
              && Teardown(old(records), rest, notices[|old(notices)|..])
              && AllJustified(old(records), rest, now, input, notices, |old(notices)|)
    {
      hide Teardown, Tree, Forest, Descends, IsOutdated, Justified, AllJustified, EvictedOldest, Accounted, UsableToken,
           ClosesCycle, Room, WithoutReplaced, Kept, Rooted, SparesParent;
      Facts();
      ghost var m, a := records, |notices|;
      NothingToJustify(m, now, input, notices);
      TeardownNothing(m);
      assert notices[a..] == [];
      if closed { return Err(StoreClosed); }
      Expire(now);
      LiveIs(m, records, now, notices[a..]);
      ghost var n1, b := records, |notices|;
      JustExpired(m, n1, now, input, notices, a);
      TeardownStaysRooted(m, n1, notices[a..]);
      if input.parent.Some? && input.parent.value !in records { return Err(ParentUnavailable); }
      if encoded.None? { return Err(EncodingFailed); }
      if |encoded.value| > maximumBytes { return Err(CapacityExhausted); }
      var token := NewToken(candidates);
      if token.None? { return Err(NoToken); }
      NotLive(token.value, records);
      SparesParentIsExact(records, input, |encoded.value|, maximumRecords, maximumBytes);
      MakeRoom(input, |encoded.value|, now, m, a);
      ghost var n3 := records;
      TeardownStaysRooted(m, n3, notices[a..]);
      if !written { return Err(WriteFailed); }
      StoredIsRooted(m, n3, notices[a..], Published(input, token.value, encoded.value, later));
      StoredForest(m, n3, notices[a..], Published(input, token.value, encoded.value, later));
      Store(input, token.value, encoded.value, later);
      assert records - {token.value} == n3;
      r := Ok(token.value);
    }

    /** What the file has to be for a record to be handed out: stable and no longer than recorded,
        of the recorded length and hash, decodable as the record's kind, and accepted by the caller. */
    predicate Intact<V>(record: Record, file: Option<seq<byte>>, decode: (Kind, seq<byte>) -> Option<V>, validate: V -> bool) {
      && file.Some?
      && |file.value| == record.byteLength
      && sha256(file.value) == record.contentHash
      && decode(record.kind, file.value).Some?
      && validate(decode(record.kind, file.value).value)
    }

    /** The record that `token` finds for this kind and owner. */
    predicate Found(m: Records, token: string, kind: Kind, owner: Option<string>) {
      token in m && m[token].kind == kind && (owner.Some? ==> m[token].owner == owner.value)
    }

    /** The tree of a damaged record goes, after earlier removals since `m`. */
    method InvalidateDamaged(token: string, ghost m: Records, ghost a: nat)
      requires Valid() && token in records && a <= |notices| && Teardown(m, records, notices[a..])
      requires ToldApart(records, notices, a)
      modifies this`records, this`order, this`totalBytes, this`notices
      ensures Valid()
      ensures records == old(records) - Tree(old(records), token)
      ensures old(notices) <= notices && Teardown(m, records, notices[a..])
      ensures ToldApart(old(records), notices, a)
    {
      hide Teardown, Tree, Forest, Descends, Accounted, NoRepeats, Sum, ToldApart;
      ghost var before, log := records, notices;
      InvalidateTree(token, Evicted);
      DamagedApart(before, records, log, notices, a);
      TeardownTransitive(m, before, records, log[a..], notices[|log|..]);
      SliceSplit(log, notices, a);
    }

    /** Reads a record back. `file` is what the stable read of its file gives, None when it throws. */
    method Get<V>(token: string, kind: Kind, owner: Option<string>, now: int, file: Option<seq<byte>>,
                  decode: (Kind, seq<byte>) -> Option<V>, validate: V -> bool)
      returns (r: Result<Option<V>, PutError>)
      requires Valid()
      modifies this`records, this`order, this`totalBytes, this`notices
      ensures Valid()
      ensures closed ==> r == Err(StoreClosed) && records == old(records) && notices == old(notices)
      ensures !closed ==>
        var live := Live(old(records), now);
        && r == Ok(if Found(live, token, kind, owner) && Intact(live[token], file, decode, validate)
                   then decode(kind, file.value) else None)
        && records == if Found(live, token, kind, owner) && !Intact(live[token], file, decode, validate)
                      then live - Tree(live, token) else live
      ensures r.Ok? && r.value.Some? ==>
        var live := Live(old(records), now);
        && !closed && token in live && live[token].kind == kind && (owner.Some? ==> live[token].owner == owner.value)
        && file.Some? && |file.value| == live[token].byteLength && sha256(file.value) == live[token].contentHash
        && decode(kind, file.value) == Some(r.value.value) && validate(r.value.value)
      ensures !closed ==> ToldApart(Live(old(records), now), notices, |old(notices)|)
      ensures old(notices) <= notices
      ensures Teardown(old(records), records, notices[|old(notices)|..])
    {
      hide Teardown, Tree, Forest, Descends, IsOutdated, Accounted, Live, NoRepeats, Sum, ToldApart;
      Facts();
      ghost var m, a := records, |notices|;
      TeardownNothing(m);
      assert notices[a..] == [];
      if closed { return Err(StoreClosed); }
      Expire(now);
      LiveIs(m, records, now, notices[a..]);
      ExpiredApart(m, records, notices, a);
      TeardownKeeps(m, records, notices[a..]);
      if !Found(records, token, kind, owner) {
        return Ok(None);
      }
      var record := records[token];
      var value: Option<V> := None;
      if file.Some? && |file.value| == record.byteLength && sha256(file.value) == record.contentHash {
        value := decode(record.kind, file.value);
      }
      if value.None? || !validate(value.value) {
        InvalidateDamaged(token, m, a);
        return Ok(None);
      }
      r := Ok(value);
    }

    /** A file that still holds the published encoding is intact for every caller that accepts its value. */
    lemma PublishedIsIntact<V>(input: Input, token: string, encoded: seq<byte>, now: int,
                               decode: (Kind, seq<byte>) -> Option<V>, validate: V -> bool, value: V)
      requires decode(input.kind, encoded) == Some(value) && validate(value)
      ensures Intact(Published(input, token, encoded, now), Some(encoded), decode, validate)
    {
    }

    method Remove(token: string, reason: Reason) returns (r: Result<bool, PutError>)
      requires Valid()
      modifies this`records, this`order, this`totalBytes, this`notices
      ensures Valid()
      ensures r == if closed then Err(StoreClosed) else Ok(token in old(records))
      ensures records == if !closed && token in old(records) then old(records) - Tree(old(records), token) else old(records)
      ensures old(notices) <= notices
      ensures Teardown(old(records), records, notices[|old(notices)|..])
      ensures forall i :: |old(notices)| <= i < |notices| ==> notices[i].reason == reason
    {
      hide Teardown, Tree, Forest, Descends, Accounted;
      Facts();
      TeardownNothing(records);
      assert notices[|notices|..] == [];
      if closed { return Err(StoreClosed); }
      if token !in records { return Ok(false); }
      InvalidateTree(token, reason);
      r := Ok(true);
    }

    method Close()
      requires Valid()
      modifies this`records, this`order, this`totalBytes, this`closed
      ensures Valid() && closed
      ensures records == if old(closed) then old(records) else map[]
    {
      if closed { return; }
      closed := true;
      records, order, totalBytes := map[], [], 0;
      EmptyForest();
    }
  }
}
