/**
 Publishing a review record and reading it back (review-record-store.ts), over the store object alone.
 */
module ReviewRoundTrip {
  import opened Common
  import opened ReviewForest
  import opened ReviewStore

  lemma UnnamedCandidates(m: Records, parent: Option<string>, candidates: seq<string>)
    requires Forest(m)
    requires forall t :: t in m && m[t].parent.Some? ==> m[t].parent.value !in candidates
    ensures forall t :: t in candidates ==> !ClosesCycle(m, parent, t)
  {
    hide Forest;
    forall t | t in candidates ensures !ClosesCycle(m, parent, t) {
      UnnamedTokenIsSafe(m, parent, t);
    }
  }

  /** Nobody else reads the record: another kind or another owner gets nothing, and does it no harm. */
  method GetAsAnother<V>(store: HostReviewRecordStore, token: string, kind: Kind, owner: Option<string>, at: int,
                         file: Option<seq<byte>>, decode: (Kind, seq<byte>) -> Option<V>, validate: V -> bool)
    returns (got: Option<V>)
    requires store.Valid() && !store.closed && token in store.records
    requires store.records[token].kind != kind || (owner.Some? && owner.value != store.records[token].owner)
    modifies store
    ensures store.Valid() && got.None?
    ensures token in store.records <==> token in Live(old(store.records), at)
  {
    hide Forest, Descends, IsOutdated, Sum, Teardown, Tree;
    LiveKeeps(store.records, at);
    var answer := store.Get(token, kind, owner, at, file, decode, validate);
    got := answer.value;
  }

  lemma LiveKeeps(m: Records, now: int)
    requires Forest(m)
    ensures forall t :: t in Live(m, now) ==> t in m && Live(m, now)[t] == m[t]
  {
  }

  /**
   A published record is read back by its owner for the whole maximum age after the second clock reading
   of `put`, while its parent lives, and never again from then on. `encoded` is what the file still holds.
   */
  method PutThenGet<V>(store: HostReviewRecordStore, input: Input, encoded: seq<byte>, candidates: seq<string>,
                       now: int, later: int, at: int,
                       decode: (Kind, seq<byte>) -> Option<V>, validate: V -> bool, value: V)
    returns (token: Option<string>, got: Option<V>, ghost kept: Records)
    requires store.Valid() && !store.closed && |candidates| >= 8
    requires forall t :: t in store.records && store.records[t].parent.Some? ==> store.records[t].parent.value !in candidates
    requires decode(input.kind, encoded) == Some(value) && validate(value)
    modifies store
    ensures store.Valid()
    ensures token.Some? <==>
              && (input.parent.Some? ==> input.parent.value in Live(old(store.records), now))
              && |encoded| <= store.maximumBytes
              && exists i :: 0 <= i < 8 && UsableToken(candidates[i], Live(old(store.records), now))
    ensures token.Some? ==>
              && Forest(kept) && token.value in kept
              && got == if && at < later + store.maximumAge
                           && (input.parent.Some? && input.parent.value in kept ==> input.parent.value in Live(kept, at))
                        then Some(value) else None
    ensures token.Some? ==> (token.value in store.records <==> got.Some?)
  {
    hide Forest, Descends, IsOutdated, Live, Kept, Sum, Rooted, SparesParent, UsableToken, Justified, AllJustified, Teardown,
         Tree;
    got, kept := None, store.records;
    UnnamedCandidates(store.records, input.parent, candidates);
    var r := store.Put(input, now, Some(encoded), candidates, true, later);
    if r.Err? { return None, None, kept; }
    token := Some(r.value);
    kept := store.records;
    LiveWithParent(kept, r.value, at);
    LiveKeeps(kept, at);
    var answer := store.Get(r.value, input.kind, Some(input.owner), at, Some(encoded), decode, validate);
    got := answer.value;
  }
}
