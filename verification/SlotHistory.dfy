/**
 What a run of one probe Environment makes of its events (production-selected-wsl-probes.ts), told
 from the events, and what each step does seen from its effects.
 */
module SlotHistory {
  import opened Common
  import opened ProbeSlot

  // ---------- how a reservation ends ----------

  /** The peer can take one more lease: fewer than 128 so far and fewer than 16 at a time. */
  predicate Takes(peer: Peer) {
    peer.available && !peer.retired && peer.admitted < 128 && |peer.inFlight| < 16
  }

  /** The event has the running reservation look at the current peer. */
  predicate LooksAtCurrent(e: Event) {
    e.Begin? || e.SomeReleased?
  }

  predicate Grants(s: Slot, e: Event, p: nat) {
    && !s.closing
    && (|| (LooksAtCurrent(e) && !e.expiring && !s.uncertain && s.current == Some(p) && p < |s.peers| && Takes(s.peers[p]))
        || (e.PeerCreated? && p == |s.peers|))
  }

  predicate Refuses(s: Slot, e: Event) {
    || (LooksAtCurrent(e) && (s.closing || s.uncertain))
    || (e.TransportClosed? && (!e.ok || s.closing || s.uncertain))
    || (e.PeerCreated? && s.closing)
    || e.CreateFailed?
  }

  /** A step grants a lease exactly when a current peer that takes one is looked at, or a new one was
      created, while the owner is open; nothing else adds to the leases. */
  lemma GrantIsExact(s: Slot, e: Event)
    requires Inv(s) && Enabled(s, e)
    ensures forall p :: Step(s, e).granted == s.granted + [p] <==> Grants(s, e, p)
    ensures (forall p :: !Grants(s, e, p)) ==> Step(s, e).granted == s.granted
  {
    hide Occurrences, PeerOk;
    var t := Step(s, e);
    forall p ensures t.granted == s.granted + [p] <==> Grants(s, e, p) {
      if t.granted == s.granted { assert |t.granted| != |s.granted + [p]|; }
      if t.granted != s.granted {
        assert t.granted[|s.granted|] == if e.PeerCreated? then |s.peers| else s.current.value;
        assert (s.granted + [p])[|s.granted|] == p;
      }
    }
  }

  /** A reservation stops waiting exactly when it is granted or refused. */
  lemma ReservationsAreCounted(s: Slot, e: Event)
    requires Inv(s) && Enabled(s, e)
    ensures var t := Step(s, e);
            if e.Request? then t.waiting == s.waiting + 1
            else if Refuses(s, e) || t.granted != s.granted then t.waiting == s.waiting - 1 && t.work.Idle?
            else t.waiting == s.waiting
  {
    hide Occurrences, PeerOk;
  }

  /** What the reservation that goes on waits for. */
  lemma WaitsForTheRightThing(s: Slot, e: Event)
    requires Inv(s) && Enabled(s, e) && (LooksAtCurrent(e) || e.TransportClosed? || e.LeasesDrained?)
    requires !Refuses(s, e) && forall p :: !Grants(s, e, p)
    ensures var t := Step(s, e);
            && (t.work.Creating? <==> s.current.None? || e.TransportClosed?)
            && (t.work.AwaitingClose? <==> e.LeasesDrained?)
            && (t.work.AwaitingSome? <==>
                  && LooksAtCurrent(e) && s.current.Some? && !e.expiring
                  && s.peers[s.current.value].available && !s.peers[s.current.value].retired
                  && s.peers[s.current.value].admitted < 128)
            && (t.work.AwaitingLeases? || t.work.AwaitingSome? ==>
                  t.work.peer == s.current.value && t.work.watched == s.peers[s.current.value].inFlight)
            && (t.work.AwaitingLeases? ==> t.peers[s.current.value].retired)
            && (t.work.AwaitingClose? ==> t.work.peer == s.work.peer)
            && !t.work.Idle?
  {
    hide Occurrences, PeerOk;
    if LooksAtCurrent(e) && s.current.Some? {
      assert Grants(s, e, s.current.value) <==> !e.expiring && Takes(s.peers[s.current.value]);
    }
  }

  // ---------- told from the events ----------

  lemma StepOnPeer(s: Slot, e: Event, p: nat)
    requires Inv(s) && Enabled(s, e) && p < |Step(s, e).peers|
    ensures p >= |s.peers| ==> e.PeerCreated? && p == |s.peers| && Step(s, e).peers[p].available == e.available
    ensures p < |s.peers| ==> (Step(s, e).peers[p].available <==> s.peers[p].available && e != PeerDied(p))
    ensures p < |s.peers| ==>
              (Step(s, e).peers[p].closed <==> s.peers[p].closed || (e == TransportClosed(true) && s.work.peer == p))
    ensures p >= |s.peers| ==> !Step(s, e).peers[p].closed
  {
    hide Occurrences, PeerOk;
  }

  predicate InBounds(s: Slot) {
    && (forall l :: 0 <= l < |s.granted| ==> s.granted[l] < |s.peers|)
    && (forall p :: 0 <= p < |s.peers| ==> HoldsOwn(s, p))
  }

  predicate HoldsOwn(s: Slot, p: nat)
    requires p < |s.peers|
  {
    forall l :: l in s.peers[p].inFlight ==> l < |s.granted| && s.granted[l] == p
  }

  lemma LeasesInBounds(s: Slot)
    requires Inv(s)
    ensures InBounds(s)
  {
    hide Occurrences, WorkOk;
    forall p | 0 <= p < |s.peers| ensures HoldsOwn(s, p) { assert PeerOk(s, p); }
  }

  lemma ClosedInBounds(s: Slot, p: nat)
    requires InBounds(s) && p < |s.peers|
    ensures InBounds(s.(peers := s.peers[p := s.peers[p].(closed := true)], current := None))
  {
    var t := s.(peers := s.peers[p := s.peers[p].(closed := true)], current := None);
    forall q | 0 <= q < |t.peers| ensures HoldsOwn(t, q) { assert HoldsOwn(s, q); }
  }

  lemma PassOnLease(s: Slot, expiring: bool, l: nat)
    requires s.waiting > 0 && (s.current.Some? ==> s.current.value < |s.peers|) && InBounds(s)
    requires l < |Evaluate(s, expiring).granted|
    ensures var t := Evaluate(s, expiring);
            && t.granted[l] < |t.peers| && |s.granted| <= |t.granted|
            && (l < |s.granted| ==> t.granted[l] == s.granted[l])
            && (l in t.peers[t.granted[l]].inFlight <==> l >= |s.granted| || l in s.peers[s.granted[l]].inFlight)
  {
  }

  lemma StepOnLease(s: Slot, e: Event, l: nat)
    requires Inv(s) && Enabled(s, e) && l < |Step(s, e).granted|
    ensures var t := Step(s, e);
            && t.granted[l] < |t.peers|
            && (l < |s.granted| ==> t.granted[l] == s.granted[l])
            && (l in t.peers[t.granted[l]].inFlight <==>
                  (l >= |s.granted| || l in s.peers[s.granted[l]].inFlight) && !(e.Release? && e.lease == l))
  {
    hide Occurrences, Evaluate, Inv, PeerOk;
    LeasesInBounds(s);
    if e.Begin? || e.SomeReleased? {
      PassOnLease(s, e.expiring, l);
    } else if e.TransportClosed? && e.ok {
      var p := s.work.peer;
      ClosedInBounds(s, p);
      PassOnLease(s.(peers := s.peers[p := s.peers[p].(closed := true)], current := None), false, l);
    }
  }

  lemma StepOnOwner(s: Slot, e: Event)
    requires Enabled(s, e)
    ensures Step(s, e).closing <==> s.closing || e.Close?
    ensures Step(s, e).uncertain <==> s.uncertain || e == TransportClosed(false) || e == CreateFailed(true)
  {
    hide Occurrences;
  }

  predicate Happened(events: seq<Event>, i: nat, e: Event)
    requires i <= |events|
  {
    exists j :: 0 <= j < i && events[j] == e
  }

  predicate Ended(events: seq<Event>, i: nat, lease: nat)
    requires i <= |events|
  {
    exists j :: 0 <= j < i && events[j].Release? && events[j].lease == lease
  }

  /** The owner is closing once closed, and the slot uncertain once a transport's end was not confirmed. */
  lemma {:induction false} OwnerAsTold(trace: seq<Slot>, events: seq<Event>, i: nat)
    requires Run(trace, events) && i < |trace|
    ensures trace[i].closing <==> Happened(events, i, Close)
    ensures trace[i].uncertain <==> Happened(events, i, TransportClosed(false)) || Happened(events, i, CreateFailed(true))
  {
    hide Step, Enabled;
    if i > 0 {
      OwnerAsTold(trace, events, i - 1);
      assert Enabled(trace[i - 1], events[i - 1]) && trace[i] == Step(trace[i - 1], events[i - 1]);
      StepOnOwner(trace[i - 1], events[i - 1]);
    }
  }

  /** A lease is held from its grant until it is released, and on the peer it was granted on. */
  lemma {:induction false} LeaseIsHeldUntilReleased(trace: seq<Slot>, events: seq<Event>, i: nat, lease: nat)
    requires Run(trace, events) && i < |trace| && lease < |trace[i].granted|
    ensures trace[i].granted[lease] < |trace[i].peers|
    ensures lease in trace[i].peers[trace[i].granted[lease]].inFlight <==> !Ended(events, i, lease)
  {
    hide Step, Enabled;
    if i > 0 {
      RunKeepsInvariant(trace, events, i - 1);
      var s, e := trace[i - 1], events[i - 1];
      assert Enabled(s, e) && trace[i] == Step(s, e);
      StepOnLease(s, e, lease);
      if lease < |s.granted| {
        LeaseIsHeldUntilReleased(trace, events, i - 1, lease);
      } else {
        NotGrantedYet(trace, events, i - 1, lease);
        NewLeaseIsHeld(s, e, lease);
      }
    }
  }

  lemma NewLeaseIsHeld(s: Slot, e: Event, lease: nat)
    requires Enabled(s, e) && |s.granted| <= lease < |Step(s, e).granted|
    ensures !e.Release?
  {
  }

  lemma ReleasesAreOfLeases(s: Slot, e: Event)
    requires Enabled(s, e)
    ensures e.Release? ==> e.lease < |s.granted|
    ensures s.granted <= Step(s, e).granted
  {
  }

  lemma {:induction false} NotGrantedYet(trace: seq<Slot>, events: seq<Event>, i: nat, lease: nat)
    requires Run(trace, events) && i < |trace| && lease >= |trace[i].granted|
    ensures !Ended(events, i, lease)
  {
    hide Step, Enabled;
    if i > 0 {
      var s, e := trace[i - 1], events[i - 1];
      assert Enabled(s, e) && trace[i] == Step(s, e);
      ReleasesAreOfLeases(s, e);
      NotGrantedYet(trace, events, i - 1, lease);
    }
  }

  /** A peer withdraws exactly when a run on one of its leases failed, or a reservation found that it
      takes no more or is about to expire. */
  lemma RetirementIsExact(s: Slot, e: Event, p: nat)
    requires Inv(s) && Enabled(s, e) && p < |s.peers| && !s.peers[p].retired
    ensures Step(s, e).peers[p].retired <==>
              || (e.Release? && e.failed && s.granted[e.lease] == p)
              || (LooksAtCurrent(e) && !s.closing && !s.uncertain && s.current == Some(p)
                  && (!s.peers[p].available || s.peers[p].admitted >= 128 || e.expiring))
  {
    hide Occurrences;
    assert PeerOk(s, p);
  }

  // ---------- every reservation can be granted ----------

  /** Events that cooperate: nothing expires, transports close, peers are created, and runs end well. */
  predicate Cooperative(e: Event) {
    match e
    case Begin(expiring) => !expiring
    case LeasesDrained => true
    case TransportClosed(ok) => ok
    case SomeReleased(expiring) => !expiring
    case PeerCreated(available) => available
    case Release(_, failed) => !failed
    case _ => false
  }

  predicate Reaches(s: Slot, events: seq<Event>, t: Slot)
    decreases |events|
  {
    if events == [] then t == s
    else Enabled(s, events[0]) && Cooperative(events[0]) && Reaches(Step(s, events[0]), events[1..], t)
  }

  /** The leases of the current peer that are still held. */
  function Held(s: Slot): nat {
    if s.current.Some? && s.current.value < |s.peers| then |s.peers[s.current.value].inFlight| else 0
  }

  function Stage(s: Slot): nat {
    match s.work
    case Idle => 4
    case AwaitingSome(_, _) => 3
    case AwaitingLeases(_, _) => 2
    case AwaitingClose(_) => 1
    case Creating => 0
  }

  /** A lease was granted, or the reservation got nearer to one. */
  predicate Nearer(s: Slot, t: Slot) {
    || |t.granted| == |s.granted| + 1
    || (&& t.waiting > 0 && !t.closing && !t.uncertain && t.granted == s.granted
        && ((Held(t) < Held(s) && Stage(t) == Stage(s)) || (Held(t) <= Held(s) && Stage(t) < Stage(s))))
  }

  /** One pass of the loop grants, or goes on to a later stage unless the peer has no room. */
  lemma PassGoesOn(s: Slot)
    requires s.waiting > 0 && !s.closing && !s.uncertain && (s.current.Some? ==> s.current.value < |s.peers|)
    ensures var t := Evaluate(s, false);
            || |t.granted| == |s.granted| + 1
            || (&& t.waiting > 0 && !t.closing && !t.uncertain && t.granted == s.granted && Held(t) == Held(s)
                && (s.current.None? ==> Stage(t) == 0)
                && (Stage(t) <= 2 || (Stage(t) == 3 && Held(s) >= MAXIMUM_IN_FLIGHT)))
  {
  }

  lemma CreatingGrants(s: Slot)
    requires Inv(s) && !s.closing && s.work.Creating?
    ensures Enabled(s, PeerCreated(true)) && |Step(s, PeerCreated(true)).granted| == |s.granted| + 1
  {
    hide PeerOk;
  }

  lemma ClosedGoesOn(s: Slot)
    requires Inv(s) && !s.closing && s.work.AwaitingClose?
    ensures Enabled(s, TransportClosed(true)) && Nearer(s, Step(s, TransportClosed(true)))
  {
    hide PeerOk, Evaluate;
    var p := s.work.peer;
    var t := s.(peers := s.peers[p := s.peers[p].(closed := true)], current := None);
    PassGoesOn(t);
    assert Step(s, TransportClosed(true)) == Evaluate(t, false);
  }

  /** In an open, certain slot somebody waits, and some cooperating event brings the reservation nearer. */
  lemma SomethingCooperates(s: Slot) returns (e: Event)
    requires Inv(s) && s.waiting > 0 && !s.closing && !s.uncertain
    ensures Enabled(s, e) && Cooperative(e) && Nearer(s, Step(s, e))
  {
    hide Occurrences, PeerOk, Evaluate, Grant;
    match s.work
    case Idle =>
      e := Begin(false);
      PassGoesOn(s);
    case Creating =>
      e := PeerCreated(true);
      CreatingGrants(s);
    case AwaitingClose(p) =>
      e := TransportClosed(true);
      ClosedGoesOn(s);
    case AwaitingLeases(p, watched) =>
      if watched !! s.peers[p].inFlight {
        e := LeasesDrained;
      } else {
        var l :| l in s.peers[p].inFlight;
        e := Release(l, false);
        ReleaseShrinks(s, p, l);
      }
    case AwaitingSome(p, watched) =>
      if released :| released in watched && released !in s.peers[p].inFlight {
        e := SomeReleased(false);
        ReleasedMakesRoom(s.peers[p].inFlight, watched, released);
        PassGoesOn(s);
      } else {
        assert s.peers[p].inFlight == watched;
        var l :| l in s.peers[p].inFlight;
        e := Release(l, false);
        ReleaseShrinks(s, p, l);
      }
  }

  lemma ReleasedMakesRoom(held: set<nat>, watched: set<nat>, l: nat)
    requires held <= watched && l in watched && l !in held
    ensures |held| < |watched|
  {
    assert watched == held + (watched - held);
  }

  lemma ReleaseShrinks(s: Slot, p: nat, l: nat)
    requires Inv(s) && s.current == Some(p) && p < |s.peers| && l in s.peers[p].inFlight
    ensures l < |s.granted| && s.granted[l] == p && Enabled(s, Release(l, false))
    ensures var t := Step(s, Release(l, false));
            && Held(t) < Held(s) && Stage(t) == Stage(s)
            && t.waiting == s.waiting && t.closing == s.closing && t.uncertain == s.uncertain && t.granted == s.granted
  {
    hide Occurrences;
    assert PeerOk(s, p);
  }

  lemma {:induction false} ReachesAppend(s: Slot, first: Event, rest: seq<Event>, t: Slot)
    requires Enabled(s, first) && Cooperative(first) && Reaches(Step(s, first), rest, t)
    ensures Reaches(s, [first] + rest, t)
  {
    hide Step, Enabled, Cooperative;
    assert ([first] + rest)[1..] == rest;
  }

  /** From every reachable state of an open, certain slot in which a reservation waits, some cooperating
      events lead to a grant: no lease is granted on a retired peer, but none is ever out of reach. */
  lemma {:induction false} EveryReservationCanBeGranted(s: Slot) returns (events: seq<Event>, t: Slot)
    requires Inv(s) && s.waiting > 0 && !s.closing && !s.uncertain
    ensures Reaches(s, events, t) && |t.granted| == |s.granted| + 1
    decreases Held(s) + Stage(s)
  {
    hide Step, Enabled, Cooperative, Inv, Stage, Held;
    var e := SomethingCooperates(s);
    StepKeeps(s, e);
    var rest := [];
    if |Step(s, e).granted| == |s.granted| + 1 {
      t := Step(s, e);
    } else {
      rest, t := EveryReservationCanBeGranted(Step(s, e));
    }
    ReachesAppend(s, e, rest, t);
    events := [e] + rest;
  }
}
