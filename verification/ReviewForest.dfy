/**
 Parent links between live review records, and what a cascading invalidation removes
 (review-record-store.ts, #invalidateTree). A record has at most one parent, as all callers use it.
 */
module ReviewForest {
  import opened Common

  datatype Kind =
    | Probe | Read | ImportPreview | RenderPreview | RenderedInspection
    | StateBackup | StateRestore | SupportBundle | ProjectLifecycle

  datatype Record = Record(
    token: string,
    kind: Kind,
    owner: string,
    replacementKey: string,
    parent: Option<string>,
    byteLength: nat,
    contentHash: string,
    createdAt: int,
    expiresAt: int)

  type Records = map<string, Record>

  /** Every record is stored under its own token. */
  predicate Keyed(m: Records) {
    forall t :: t in m ==> m[t].token == t
  }

  /** `rank` puts every live parent below its child. */
  predicate Ranks(m: Records, rank: map<string, nat>) {
    && (forall t :: t in m ==> t in rank)
    && (forall t :: t in m && m[t].parent.Some? && m[t].parent.value in m ==> rank[m[t].parent.value] < rank[t])
  }

  /** The parent links can be climbed only finitely often; `ForestIsAcyclic` says the same without a rank. */
  ghost predicate Forest(m: Records) {
    Keyed(m) && exists rank :: Ranks(m, rank)
  }

  ghost function RankOf(m: Records): (rank: map<string, nat>)
    requires Forest(m)
    ensures Ranks(m, rank)
  {
    var rank :| Ranks(m, rank);
    rank
  }

  ghost function Height(m: Records, a: string): nat
    requires Forest(m)
  {
    if a in m then RankOf(m)[a] + 1 else 0
  }

  /** `a` is live and is `t` or has `t` among its live ancestors. */
  ghost predicate Descends(m: Records, a: string, t: string)
    requires Forest(m)
    decreases Height(m, a)
  {
    && a in m
    && (a == t || (m[a].parent.Some? && m[a].parent.value in m && Descends(m, m[a].parent.value, t)))
  }

  ghost function Tree(m: Records, t: string): set<string>
    requires Forest(m)
  {
    set a | a in m && Descends(m, a, t)
  }

  lemma {:induction false} DescendsHeight(m: Records, a: string, t: string)
    requires Forest(m) && Descends(m, a, t)
    ensures t in m && a in m
    ensures a != t ==> Height(m, t) < Height(m, a)
    decreases Height(m, a)
  {
    if a != t { DescendsHeight(m, m[a].parent.value, t); }
  }

  lemma {:induction false} DescendsTransitive(m: Records, a: string, b: string, c: string)
    requires Forest(m) && Descends(m, a, b) && Descends(m, b, c)
    ensures Descends(m, a, c)
    decreases Height(m, a)
  {
    if a != b { DescendsTransitive(m, m[a].parent.value, b, c); }
  }

  /** The live ancestors of one record form a chain. */
  lemma {:induction false} AncestorsAreAChain(m: Records, a: string, b: string, c: string)
    requires Forest(m) && Descends(m, a, b) && Descends(m, a, c)
    ensures Descends(m, b, c) || Descends(m, c, b)
    decreases Height(m, a)
  {
    if a != b && a != c { AncestorsAreAChain(m, m[a].parent.value, b, c); }
  }

  predicate IsChild(m: Records, c: string, t: string) {
    c in m && m[c].parent == Some(t)
  }

  /** The trees of two children of one record do not meet. */
  lemma SiblingsAreApart(m: Records, a: string, c: string, d: string, t: string)
    requires Forest(m) && t in m && IsChild(m, c, t) && IsChild(m, d, t)
    requires Descends(m, a, c) && Descends(m, a, d)
    ensures c == d
  {
    AncestorsAreAChain(m, a, c, d);
    if c != d {
      if Descends(m, c, d) {
        DescendsHeight(m, t, d);
      } else {
        DescendsHeight(m, t, c);
      }
    }
  }

  lemma {:induction false} BelowAChild(m: Records, a: string, t: string)
    requires Forest(m) && Descends(m, a, t) && a != t
    ensures exists c :: IsChild(m, c, t) && Descends(m, a, c)
    decreases Height(m, a)
  {
    var p := m[a].parent.value;
    if p == t {
      assert IsChild(m, a, t) && Descends(m, a, a);
    } else {
      BelowAChild(m, p, t);
      var c :| IsChild(m, c, t) && Descends(m, p, c);
      assert Descends(m, a, c);
    }
  }

  lemma ChildDescends(m: Records, c: string, t: string)
    requires Forest(m) && t in m && IsChild(m, c, t)
    ensures Descends(m, c, t)
  {
    assert Descends(m, t, t);
  }

  // ---------- removing descendant-closed sets ----------

  ghost predicate Closed(m: Records, gone: set<string>)
    requires Forest(m)
  {
    forall x, y :: x in gone && Descends(m, y, x) ==> y in gone
  }

  lemma ForestShrinks(m: Records, gone: set<string>)
    requires Forest(m)
    ensures Forest(m - gone)
  {
    assert Ranks(m - gone, RankOf(m));
  }

  lemma {:induction false} DescendsWithout(m: Records, gone: set<string>, a: string, t: string)
    requires Forest(m) && Closed(m, gone)
    ensures Forest(m - gone)
    ensures Descends(m - gone, a, t) <==> Descends(m, a, t) && a !in gone
    decreases Height(m, a)
  {
    ForestShrinks(m, gone);
    if a in m && a !in gone && a != t && m[a].parent.Some? && m[a].parent.value in m {
      var p := m[a].parent.value;
      DescendsWithout(m, gone, p, t);
      assert Descends(m, p, p);
      assert Descends(m, a, p);
    }
  }

  /** One notification per removed record. */
  datatype Reason = Replaced | Accepted | Cancelled | Expired | Evicted

  datatype Notice = Notice(record: Record, reason: Reason)

  /** `log` notifies exactly the records in `gone`; nothing is notified before a descendant of it,
      so in particular no record is notified twice. */
  ghost predicate LogOk(m: Records, gone: set<string>, log: seq<Notice>)
    requires Forest(m)
  {
    && (forall i :: 0 <= i < |log| ==> log[i].record.token in gone)
    && (forall i :: 0 <= i < |log| ==> log[i].record.token in m && m[log[i].record.token] == log[i].record)
    && (forall a :: a in gone ==> exists i :: 0 <= i < |log| && log[i].record.token == a)
    && (forall i, j :: 0 <= i < j < |log| ==> !Descends(m, log[j].record.token, log[i].record.token))
  }

  /** From `m` to `n` only whole trees went, children first, with one notification each. */
  ghost predicate Teardown(m: Records, n: Records, log: seq<Notice>) {
    && Forest(m)
    && n == m - (m.Keys - n.Keys)
    && Closed(m, m.Keys - n.Keys)
    && LogOk(m, m.Keys - n.Keys, log)
  }

  lemma TeardownNothing(m: Records)
    requires Forest(m)
    ensures Teardown(m, m, [])
  {
    assert m.Keys - m.Keys == {};
    assert m - {} == m;
  }

  lemma ClosedUnion(m: Records, g: set<string>, h: set<string>)
    requires Forest(m) && Closed(m, g) && Forest(m - g) && Closed(m - g, h)
    ensures Closed(m, g + h)
  {
    forall x, y | x in g + h && Descends(m, y, x) ensures y in g + h {
      if x in h && y !in g { DescendsWithout(m, g, y, x); }
    }
  }

  lemma LogAppend(m: Records, g: set<string>, a: seq<Notice>, h: set<string>, b: seq<Notice>)
    requires Forest(m) && Closed(m, g) && LogOk(m, g, a)
    requires Forest(m - g) && h <= (m - g).Keys && LogOk(m - g, h, b)
    ensures LogOk(m, g + h, a + b)
  {
    var log := a + b;
    forall x | x in g + h ensures exists i :: 0 <= i < |log| && log[i].record.token == x {
      if x in g {
        var i :| 0 <= i < |a| && a[i].record.token == x;
        assert log[i].record.token == x;
      } else {
        var i :| 0 <= i < |b| && b[i].record.token == x;
        assert log[|a| + i].record.token == x;
      }
    }
    forall i, j | 0 <= i < j < |log| ensures !Descends(m, log[j].record.token, log[i].record.token) {
      DescendsWithout(m, g, log[j].record.token, log[i].record.token);
      if i >= |a| {
        assert !Descends(m - g, b[j - |a|].record.token, b[i - |a|].record.token);
      }
    }
  }

  /** Removals compose. */
  lemma TeardownTransitive(m: Records, n: Records, o: Records, a: seq<Notice>, b: seq<Notice>)
    requires Teardown(m, n, a) && Teardown(n, o, b)
    ensures Teardown(m, o, a + b)
  {
    var g, h := m.Keys - n.Keys, n.Keys - o.Keys;
    assert n == m - g && o == n - h;
    ClosedUnion(m, g, h);
    LogAppend(m, g, a, h, b);
    assert m.Keys - o.Keys == g + h;
    assert o == m - (g + h);
  }

  /** A record without live descendants can go alone. */
  lemma TeardownLeaf(m: Records, t: string, reason: Reason)
    requires Forest(m) && t in m && Tree(m, t) == {t}
    ensures Teardown(m, m - {t}, [Notice(m[t], reason)])
  {
    var n := m - {t};
    assert m.Keys - n.Keys == {t};
    forall y | Descends(m, y, t) ensures y == t { assert y in Tree(m, t); }
    assert [Notice(m[t], reason)][0].record.token == t;
  }

  // ---------- records whose parent is gone ----------

  /** No live record outlives its parent. */
  predicate Rooted(m: Records) {
    forall t :: t in m && m[t].parent.Some? ==> m[t].parent.value in m
  }

  /** Removing whole trees never leaves a record behind without its parent. */
  lemma TeardownStaysRooted(m: Records, n: Records, log: seq<Notice>)
    requires Teardown(m, n, log)
    ensures Rooted(m) ==> Rooted(n)
  {
    forall t | Rooted(m) && t in n && n[t].parent.Some? ensures n[t].parent.value in n {
      var p := m[t].parent.value;
      assert Descends(m, p, p) && Descends(m, t, p);
    }
  }

  // ---------- when the parent links form a cycle ----------

  /** Some live records are each other's ancestors, so invalidating one of them never ends. */
  ghost predicate Cyclic(m: Records) {
    exists s: set<string> :: s != {} && s <= m.Keys && ParentClosed(m, s)
  }

  predicate ParentClosed(m: Records, s: set<string>)
    requires s <= m.Keys
  {
    forall a :: a in s ==> m[a].parent.Some? && m[a].parent.value in s
  }

  /** A parent-closed set goes with a smaller rank from every member, which cannot go on. */
  lemma {:induction false} NoClosedSet(m: Records, rank: map<string, nat>, s: set<string>, a: string)
    requires Ranks(m, rank) && s <= m.Keys && ParentClosed(m, s)
    ensures a !in s
    decreases if a in rank then rank[a] + 1 else 0
  {
    if a in s { NoClosedSet(m, rank, s, m[a].parent.value); }
  }

  /** Without a cycle some record has no live parent, and without it there is still no cycle. */
  lemma SomeRoot(m: Records) returns (root: string)
    requires !Cyclic(m) && m != map[]
    ensures root in m && !(m[root].parent.Some? && m[root].parent.value in m)
    ensures !Cyclic(m - {root})
  {
    var k :| k in m;
    assert !ParentClosed(m, m.Keys);
    root :| root in m && !(m[root].parent.Some? && m[root].parent.value in m.Keys);
    var rest := m - {root};
    forall s: set<string> | s != {} && s <= rest.Keys ensures !ParentClosed(rest, s) {
      if ParentClosed(rest, s) { assert ParentClosed(m, s); }
    }
  }

  lemma RankAbove(m: Records, root: string, below: map<string, nat>) returns (rank: map<string, nat>)
    requires root in m && !(m[root].parent.Some? && m[root].parent.value in m) && Ranks(m - {root}, below)
    ensures Ranks(m, rank)
  {
    var rest := m - {root};
    assert forall t :: t in m && t != root ==> t in rest && rest[t] == m[t] && t in below;
    rank := map t | t in m :: if t == root then 0 else below[t] + 1;
    forall t | t in m && m[t].parent.Some? && m[t].parent.value in m ensures rank[m[t].parent.value] < rank[t] {
      var p := m[t].parent.value;
      assert t in rest && (p == root || p in rest);
    }
  }

  lemma {:induction false} AcyclicHasRank(m: Records) returns (rank: map<string, nat>)
    requires !Cyclic(m)
    ensures Ranks(m, rank)
    decreases |m|
  {
    hide Cyclic, Ranks;
    if m == map[] {
      rank := map[];
      NothingToRank();
    } else {
      var root := SomeRoot(m);
      RemoveKeyShrinks(m, root);
      var below := AcyclicHasRank(m - {root});
      rank := RankAbove(m, root, below);
    }
  }

  lemma NothingToRank()
    ensures Ranks(map[], map[])
  {
  }

  /** The links are a forest exactly when they hold no cycle. */
  lemma ForestIsAcyclic(m: Records)
    requires Keyed(m)
    ensures Forest(m) <==> !Cyclic(m)
  {
    if Forest(m) && Cyclic(m) {
      var s :| s != {} && s <= m.Keys && ParentClosed(m, s);
      var a :| a in s;
      NoClosedSet(m, RankOf(m), s, a);
    }
    if !Cyclic(m) {
      var rank := AcyclicHasRank(m);
    }
  }

  /** The token is still named as parent by a live ancestor of `parent`, or by `parent` itself. */
  ghost predicate ClosesCycle(m: Records, parent: Option<string>, token: string)
    requires Forest(m)
  {
    parent.Some? && exists x :: Descends(m, parent.value, x) && IsChild(m, x, token)
  }

  /** Storing a record makes the links cyclic exactly when its token is still named as parent by
      a live ancestor of its own parent: a token that was used before, removed and handed out again. */
  lemma ReuseMakesACycle(m: Records, r: Record)
    requires Forest(m) && r.token !in m
    requires r.parent.Some? ==> r.parent.value != r.token
    ensures Forest(m[r.token := r]) <==> !ClosesCycle(m, r.parent, r.token)
    ensures Cyclic(m[r.token := r]) <==> ClosesCycle(m, r.parent, r.token)
  {
    var n := m[r.token := r];
    ForestIsAcyclic(n);
    if ClosesCycle(m, r.parent, r.token) {
      CycleFromChain(m, r);
    }
    if Cyclic(n) {
      var s :| s != {} && s <= n.Keys && ParentClosed(n, s);
      CycleThroughNew(m, r, s);
    }
  }

  /** The new record, its parent and everything up to the record that names it are each other's ancestors. */
  lemma CycleFromChain(m: Records, r: Record)
    requires Forest(m) && r.token !in m && ClosesCycle(m, r.parent, r.token)
    ensures Cyclic(m[r.token := r])
  {
    var n, p := m[r.token := r], r.parent.value;
    var x :| Descends(m, p, x) && IsChild(m, x, r.token);
    var s := (set a | a in m && Descends(m, p, a) && Descends(m, a, x)) + {r.token};
    DescendsHeight(m, p, x);
    assert Descends(m, p, p);
    forall a | a in s ensures n[a].parent.Some? && n[a].parent.value in s {
      if a in m && a != x {
        ChildDescends(m, a, m[a].parent.value);
        DescendsTransitive(m, p, a, m[a].parent.value);
      }
    }
    assert ParentClosed(n, s);
  }

  /** Fewer live records make fewer chains, so removals never bring a cycle about. */
  lemma FewerChains(m: Records, gone: set<string>, parent: Option<string>, token: string)
    requires Forest(m) && Closed(m, gone) && Forest(m - gone)
    ensures ClosesCycle(m - gone, parent, token) ==> ClosesCycle(m, parent, token)
  {
    if ClosesCycle(m - gone, parent, token) {
      var x :| Descends(m - gone, parent.value, x) && IsChild(m - gone, x, token);
      DescendsWithout(m, gone, parent.value, x);
    }
  }

  /** Handing out tokens that nothing live names as parent keeps the forest, whatever the parent. */
  lemma UnnamedTokenIsSafe(m: Records, parent: Option<string>, token: string)
    requires Forest(m) && forall t :: t in m ==> m[t].parent != Some(token)
    ensures !ClosesCycle(m, parent, token)
  {
  }

  /** A parent-closed set that the new record completes contains a chain from its parent. */
  lemma CycleThroughNew(m: Records, r: Record, s: set<string>)
    requires Forest(m) && r.token !in m && s != {} && s <= m.Keys + {r.token}
    requires r.parent.Some? ==> r.parent.value != r.token
    requires ParentClosed(m[r.token := r], s)
    ensures ClosesCycle(m, r.parent, r.token)
  {
    var n := m[r.token := r];
    if r.token in s {
      var p := n[r.token].parent.value;
      assert p in s && p in m;
      Climb(m, r, s, p);
    } else {
      var a :| a in s;
      assert n[a] == m[a];
      Climb(m, r, s, a);
    }
  }

  lemma {:induction false} Climb(m: Records, r: Record, s: set<string>, a: string)
    requires Forest(m) && r.token !in m && s <= m.Keys + {r.token}
    requires ParentClosed(m[r.token := r], s) && a in s && a in m
    ensures r.token in s
    ensures exists x :: Descends(m, a, x) && IsChild(m, x, r.token)
    decreases Height(m, a)
  {
    assert m[r.token := r][a] == m[a];
    var p := m[a].parent.value;
    if p == r.token {
      assert Descends(m, a, a);
    } else {
      Climb(m, r, s, p);
      var x :| Descends(m, p, x) && IsChild(m, x, r.token);
      assert Descends(m, a, x);
    }
  }

  /** The smallest such input: `b` is live and names the dead `a`, and `a` is stored again below `b`. */
  lemma ReusedTokenWitness(a: Record, b: Record)
    requires a.token != b.token && b.parent == Some(a.token) && a.parent == Some(b.token)
    ensures var m := map[b.token := b];
            Forest(m) && ClosesCycle(m, a.parent, a.token) && Cyclic(m[a.token := a]) && !Forest(m[a.token := a])
  {
    var m := map[b.token := b];
    assert Ranks(m, map[b.token := 0]);
    assert Descends(m, b.token, b.token) && IsChild(m, b.token, a.token);
    ReuseMakesACycle(m, a);
  }
}
