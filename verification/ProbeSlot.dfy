/**
 Lease, retire and replace protocol of one probe Environment (production-selected-wsl-probes.ts).

 Reservations are serialized by the slot's admission chain, so at most one of them is inside
 `reserve`; leases, deaths and shutdown interleave with it at every await. A lease is the
 position of its grant in `granted`, a peer its position in `peers`.
 */
module ProbeSlot {
  import opened Common

  const MAXIMUM_REQUESTS := 128
  const MAXIMUM_IN_FLIGHT := 16

  datatype Peer = Peer(available: bool, admitted: nat, retired: bool, inFlight: set<nat>, closed: bool)

  /** Where the running reservation is suspended. */
  datatype Work =
    | Idle
    | AwaitingLeases(peer: nat, watched: set<nat>) // Promise.all(previous.inFlight)
    | AwaitingClose(peer: nat)
    | AwaitingSome(peer: nat, watched: set<nat>)   // Promise.race(previous.inFlight)
    | Creating

  datatype Slot = Slot(
    peers: seq<Peer>,
    current: Option<nat>,
    uncertain: bool,
    closing: bool,
    waiting: nat,       // reservations that have not settled
    work: Work,
    granted: seq<nat>)  // the peer of every lease ever granted

  datatype Event =
    | Request
    | Begin(expiring: bool)
    | LeasesDrained
    | TransportClosed(ok: bool)
    | SomeReleased(expiring: bool)
    | PeerCreated(available: bool)
    | CreateFailed(unconfirmed: bool)
    | Release(lease: nat, failed: bool)
    | PeerDied(peer: nat)
    | Close

  const Init := Slot([], None, false, false, 0, Idle, [])

  function Settle(s: Slot): Slot
    requires s.waiting > 0
  {
    s.(waiting := s.waiting - 1, work := Idle)
  }

  /** Lines 143-155. */
  function Grant(s: Slot, p: nat): Slot
    requires s.waiting > 0 && p < |s.peers|
  {
    var peer := s.peers[p];
    Settle(s.(peers := s.peers[p := peer.(admitted := peer.admitted + 1,
                                          inFlight := peer.inFlight + {|s.granted|})],
              granted := s.granted + [p]))
  }

  /** One pass of the loop in `reserve` up to its next await. */
  function Evaluate(s: Slot, expiring: bool): Slot
    requires s.waiting > 0
    requires s.current.Some? ==> s.current.value < |s.peers|
  {
    if s.closing || s.uncertain then Settle(s)
    else if s.current.None? then s.(work := Creating)
    else
      var p := s.current.value;
      var peer := s.peers[p];
      if peer.retired || !peer.available || peer.admitted >= MAXIMUM_REQUESTS || expiring then
        s.(peers := s.peers[p := peer.(retired := true)], work := AwaitingLeases(p, peer.inFlight))
      else if |peer.inFlight| >= MAXIMUM_IN_FLIGHT then
        s.(work := AwaitingSome(p, peer.inFlight))
      else Grant(s, p)
  }

  predicate Ready(s: Slot) {
    s.waiting > 0 && (s.current.Some? ==> s.current.value < |s.peers|)
  }

  predicate Enabled(s: Slot, e: Event) {
    match e
    case Request => true
    case Begin(_) => Ready(s) && s.work.Idle?
    case LeasesDrained =>
      s.work.AwaitingLeases? && s.work.peer < |s.peers| && s.work.watched !! s.peers[s.work.peer].inFlight
    case TransportClosed(_) => Ready(s) && s.work.AwaitingClose? && s.work.peer < |s.peers|
    case SomeReleased(_) =>
      && Ready(s) && s.work.AwaitingSome? && s.work.peer < |s.peers|
      && exists l :: l in s.work.watched && l !in s.peers[s.work.peer].inFlight
    case PeerCreated(_) => s.waiting > 0 && s.work.Creating?
    case CreateFailed(_) => s.waiting > 0 && s.work.Creating?
    case Release(lease, _) =>
      lease < |s.granted| && s.granted[lease] < |s.peers| && lease in s.peers[s.granted[lease]].inFlight
    case PeerDied(p) => p < |s.peers|
    case Close => true
  }

  function Step(s: Slot, e: Event): Slot
    requires Enabled(s, e)
  {
    match e
    case Request => s.(waiting := s.waiting + 1)
    case Begin(expiring) => Evaluate(s, expiring)
    case LeasesDrained => s.(work := AwaitingClose(s.work.peer))
    case TransportClosed(ok) =>
      if !ok then Settle(s.(uncertain := true))
      else
        var p := s.work.peer;
        Evaluate(s.(peers := s.peers[p := s.peers[p].(closed := true)], current := None), false)
    case SomeReleased(expiring) => Evaluate(s, expiring)
    case PeerCreated(available) =>
      var t := s.(peers := s.peers + [Peer(available, 0, false, {}, false)], current := Some(|s.peers|));
      if s.closing then Settle(t) else Grant(t, |s.peers|)
    case CreateFailed(unconfirmed) => Settle(s.(uncertain := s.uncertain || unconfirmed))
    case Release(lease, failed) =>
      var p := s.granted[lease];
      var peer := s.peers[p];
      s.(peers := s.peers[p := peer.(retired := peer.retired || failed, inFlight := peer.inFlight - {lease})])
    case PeerDied(p) => s.(peers := s.peers[p := s.peers[p].(available := false)])
    case Close => s.(closing := true)
  }

  // ---------- invariant ----------

  function Occurrences(granted: seq<nat>, p: nat): nat {
    if granted == [] then 0
    else Occurrences(granted[..|granted| - 1], p) + if granted[|granted| - 1] == p then 1 else 0
  }

  predicate PeerOk(s: Slot, p: nat)
    requires p < |s.peers|
  {
    var peer := s.peers[p];
    && |peer.inFlight| <= MAXIMUM_IN_FLIGHT
    && |peer.inFlight| <= peer.admitted <= MAXIMUM_REQUESTS
    && peer.admitted == Occurrences(s.granted, p)
    && (forall l :: l in peer.inFlight ==> l < |s.granted| && s.granted[l] == p)
    && (peer.closed ==> peer.retired && peer.inFlight == {})
    && (peer.closed <==> s.current != Some(p))
  }

  predicate WorkOk(s: Slot) {
    && (!s.work.Idle? ==> s.waiting > 0 && !s.uncertain)
    && match s.work
       case Idle => true
       case AwaitingLeases(p, watched) =>
         s.current == Some(p) && p < |s.peers| && s.peers[p].retired && s.peers[p].inFlight <= watched
       case AwaitingClose(p) =>
         s.current == Some(p) && p < |s.peers| && s.peers[p].retired && s.peers[p].inFlight == {}
       case AwaitingSome(p, watched) =>
         s.current == Some(p) && p < |s.peers| && s.peers[p].inFlight <= watched && |watched| == MAXIMUM_IN_FLIGHT
       case Creating => s.current.None?
  }

  predicate Inv(s: Slot) {
    && (forall p :: 0 <= p < |s.peers| ==> PeerOk(s, p))
    && (forall l :: 0 <= l < |s.granted| ==> s.granted[l] < |s.peers|)
    && (s.current.Some? ==> s.current.value < |s.peers|)
    && WorkOk(s)
  }

  lemma {:induction false} NoOccurrence(granted: seq<nat>, p: nat)
    requires forall l :: 0 <= l < |granted| ==> granted[l] < p
    ensures Occurrences(granted, p) == 0
  {
    if granted != [] { NoOccurrence(granted[..|granted| - 1], p); }
  }

  lemma GrantKeeps(s: Slot, p: nat)
    requires Inv(s) && s.waiting > 0 && s.current == Some(p)
    requires s.peers[p].admitted < MAXIMUM_REQUESTS && |s.peers[p].inFlight| < MAXIMUM_IN_FLIGHT
    ensures Inv(Grant(s, p))
  {
    var t := Grant(s, p);
    assert t.granted[..|t.granted| - 1] == s.granted;
    forall q | 0 <= q < |t.peers| ensures PeerOk(t, q) { assert PeerOk(s, q); }
  }

  /** The peers' conditions do not look at the work, nor at who waits. */
  lemma WorkKeeps(s: Slot, waiting: nat, work: Work)
    requires Inv(s.(work := Idle)) && WorkOk(s.(waiting := waiting, work := work))
    ensures Inv(s.(waiting := waiting, work := work))
  {
    hide Occurrences, WorkOk;
    var t := s.(waiting := waiting, work := work);
    forall q | 0 <= q < |t.peers| ensures PeerOk(t, q) { assert PeerOk(s.(work := Idle), q); }
  }

  lemma RetireKeeps(s: Slot, p: nat)
    requires Inv(s.(work := Idle)) && s.current == Some(p)
    ensures p < |s.peers| && Inv(s.(peers := s.peers[p := s.peers[p].(retired := true)], work := Idle))
  {
    hide Occurrences, WorkOk;
    var t := s.(peers := s.peers[p := s.peers[p].(retired := true)], work := Idle);
    forall q | 0 <= q < |t.peers| ensures PeerOk(t, q) { assert PeerOk(s.(work := Idle), q); }
    IdleIsOk(t);
  }

  lemma IdleIsOk(t: Slot)
    requires t.work.Idle?
    ensures WorkOk(t)
  {
  }

  /** Only the work field may be out of date when the loop is entered again. */
  lemma EvaluateKeeps(s: Slot, expiring: bool)
    requires Inv(s.(work := Idle)) && s.waiting > 0
    ensures Inv(Evaluate(s, expiring))
  {
    hide Inv, Occurrences, PeerOk, Grant;
    CurrentIsPeer(s);
    if s.closing || s.uncertain {
      WorkKeeps(s, s.waiting - 1, Idle);
    } else if s.current.None? {
      WorkKeeps(s, s.waiting, Creating);
    } else {
      var p := s.current.value;
      var peer := s.peers[p];
      if peer.retired || !peer.available || peer.admitted >= MAXIMUM_REQUESTS || expiring {
        RetireKeeps(s, p);
        WorkKeeps(s.(peers := s.peers[p := peer.(retired := true)]), s.waiting, AwaitingLeases(p, peer.inFlight));
      } else if |peer.inFlight| >= MAXIMUM_IN_FLIGHT {
        WorkKeeps(s, s.waiting, AwaitingSome(p, peer.inFlight));
      } else {
        GrantKeeps(s.(work := Idle), p);
        GrantIgnoresWork(s, p);
      }
    }
  }

  lemma CurrentIsPeer(s: Slot)
    requires Inv(s.(work := Idle))
    ensures s.current.Some? ==> s.current.value < |s.peers|
    ensures s.current.Some? ==> |s.peers[s.current.value].inFlight| <= MAXIMUM_IN_FLIGHT
  {
    if s.current.Some? { assert PeerOk(s.(work := Idle), s.current.value); }
  }

  lemma GrantIgnoresWork(s: Slot, p: nat)
    requires s.waiting > 0 && p < |s.peers|
    ensures Grant(s.(work := Idle), p) == Grant(s, p)
  {
  }

  lemma TransportClosedKeeps(s: Slot, ok: bool)
    requires Inv(s) && Enabled(s, TransportClosed(ok))
    ensures Inv(Step(s, TransportClosed(ok)))
  {
    hide Occurrences;
    if ok {
      var p := s.work.peer;
      var t := s.(peers := s.peers[p := s.peers[p].(closed := true)], current := None, work := Idle);
      forall q | 0 <= q < |t.peers| ensures PeerOk(t, q) { assert PeerOk(s, q); }
      assert Inv(t);
      EvaluateKeeps(t.(work := s.work), false);
    } else {
      var t := Step(s, TransportClosed(ok));
      forall q | 0 <= q < |t.peers| ensures PeerOk(t, q) { assert PeerOk(s, q); }
    }
  }

  lemma PeerCreatedKeeps(s: Slot, available: bool)
    requires Inv(s) && Enabled(s, PeerCreated(available))
    ensures Inv(Step(s, PeerCreated(available)))
  {
    hide Occurrences;
    var t := s.(peers := s.peers + [Peer(available, 0, false, {}, false)], current := Some(|s.peers|), work := Idle);
    NoOccurrence(s.granted, |s.peers|);
    forall q | 0 <= q < |t.peers| ensures PeerOk(t, q) {
      if q < |s.peers| { assert PeerOk(s, q); }
    }
    assert Inv(t);
    if s.closing {
      forall q | 0 <= q < |t.peers| ensures PeerOk(Settle(t), q) { assert PeerOk(t, q); }
      assert Step(s, PeerCreated(available)) == Settle(t);
    } else {
      GrantKeeps(t, |s.peers|);
      assert Step(s, PeerCreated(available)) == Grant(t, |s.peers|);
    }
  }

  lemma PeersKeep(s: Slot, e: Event)
    requires Inv(s) && Enabled(s, e)
    requires e.Request? || e.LeasesDrained? || e.CreateFailed? || e.Close?
    ensures Inv(Step(s, e))
  {
    hide Occurrences, Evaluate, Grant;
    var t := Step(s, e);
    forall q | 0 <= q < |t.peers| ensures PeerOk(t, q) { assert PeerOk(s, q); }
  }

  lemma ReleaseKeeps(s: Slot, lease: nat, failed: bool)
    requires Inv(s) && Enabled(s, Release(lease, failed))
    ensures Inv(Step(s, Release(lease, failed)))
  {
    hide Occurrences, Evaluate, Grant;
    var t := Step(s, Release(lease, failed));
    forall q | 0 <= q < |t.peers| ensures PeerOk(t, q) { assert PeerOk(s, q); }
  }

  lemma PeerDiedKeeps(s: Slot, p: nat)
    requires Inv(s) && Enabled(s, PeerDied(p))
    ensures Inv(Step(s, PeerDied(p)))
  {
    hide Occurrences, Evaluate, Grant;
    var t := Step(s, PeerDied(p));
    forall q | 0 <= q < |t.peers| ensures PeerOk(t, q) { assert PeerOk(s, q); }
  }

  /** Every step keeps the invariant. */
  lemma StepKeeps(s: Slot, e: Event)
    requires Inv(s) && Enabled(s, e)
    ensures Inv(Step(s, e))
  {
    hide Occurrences, Inv, PeerOk, WorkOk, Evaluate, Grant;
    match e
    case Begin(expiring) => assert s == s.(work := Idle); EvaluateKeeps(s, expiring);
    case SomeReleased(expiring) => IdleKeeps(s); EvaluateKeeps(s, expiring);
    case TransportClosed(ok) => TransportClosedKeeps(s, ok);
    case PeerCreated(available) => PeerCreatedKeeps(s, available);
    case Release(lease, failed) => ReleaseKeeps(s, lease, failed);
    case PeerDied(p) => PeerDiedKeeps(s, p);
    case _ => PeersKeep(s, e);
  }

  lemma IdleKeeps(s: Slot)
    requires Inv(s)
    ensures Inv(s.(work := Idle))
  {
    hide Occurrences;
    var t := s.(work := Idle);
    forall q | 0 <= q < |t.peers| ensures PeerOk(t, q) { assert PeerOk(s, q); }
  }

  // ---------- what one step may do to a peer ----------

  /** A step grants a lease only on the current peer of an open, certain slot, below both bounds. */
  lemma GrantIsSafe(s: Slot, e: Event)
    requires Inv(s) && Enabled(s, e) && Step(s, e).granted != s.granted
    ensures !s.closing && !s.uncertain
    ensures var p := Step(s, e).granted[|s.granted|];
            && Step(s, e).granted == s.granted + [p]
            && Step(s, e).current == Some(p)
            && Step(s, e).peers[p].inFlight ==
               (if p < |s.peers| then s.peers[p].inFlight else {}) + {|s.granted|}
            && (p < |s.peers| ==>
                  !s.peers[p].retired && s.peers[p].available
                  && s.peers[p].admitted < MAXIMUM_REQUESTS && |s.peers[p].inFlight| < MAXIMUM_IN_FLIGHT)
  {
    hide Occurrences;
  }

  /** `reserve` asks a transport to close only when the peer is retired and holds no lease. */
  lemma CloseIsSafe(s: Slot, e: Event)
    requires Inv(s) && Enabled(s, e)
    requires Step(s, e).work.AwaitingClose? && !s.work.AwaitingClose?
    ensures var p := Step(s, e).work.peer;
            && p < |s.peers| && s.current == Some(p)
            && Step(s, e).peers[p].retired && Step(s, e).peers[p].inFlight == {}
  {
    hide Occurrences;
  }

  /** Nothing is ever given back to a retired peer, and an uncertain or closing slot grants nothing. */
  ghost predicate Withdrawn(s: Slot, t: Slot) {
    && |s.peers| <= |t.peers|
    && (forall p :: 0 <= p < |s.peers| && s.peers[p].retired ==>
          && t.peers[p].retired
          && t.peers[p].admitted == s.peers[p].admitted
          && t.peers[p].inFlight <= s.peers[p].inFlight)
    && (forall p :: 0 <= p < |s.peers| && s.peers[p].closed ==> t.peers[p].closed)
    && (s.uncertain ==> t.uncertain)
    && (s.closing ==> t.closing)
    && (s.uncertain || s.closing ==> t.granted == s.granted)
  }

  lemma EvaluateWithdraws(s: Slot, expiring: bool)
    requires Ready(s)
    ensures Withdrawn(s, Evaluate(s, expiring))
  {
  }

  lemma GrantWithdraws(s: Slot, p: nat)
    requires s.waiting > 0 && p < |s.peers| && !s.peers[p].retired && !s.uncertain && !s.closing
    ensures Withdrawn(s, Grant(s, p))
  {
  }

  lemma WithdrawnTransitive(s: Slot, t: Slot, u: Slot)
    requires Withdrawn(s, t) && Withdrawn(t, u)
    ensures Withdrawn(s, u)
  {
  }

  lemma StepWithdraws(s: Slot, e: Event)
    requires Inv(s) && Enabled(s, e)
    ensures Withdrawn(s, Step(s, e))
  {
    hide Evaluate, Grant, Occurrences, PeerOk, Withdrawn;
    match e
    case Begin(expiring) => EvaluateWithdraws(s, expiring);
    case SomeReleased(expiring) => EvaluateWithdraws(s, expiring);
    case TransportClosed(ok) =>
      var p := s.work.peer;
      var t := s.(peers := s.peers[p := s.peers[p].(closed := true)], current := None);
      OtherWithdraws(s, t);
      if ok {
        EvaluateWithdraws(t, false);
        WithdrawnTransitive(s, t, Evaluate(t, false));
      } else {
        OtherWithdraws(s, Step(s, e));
      }
    case PeerCreated(available) =>
      var t := s.(peers := s.peers + [Peer(available, 0, false, {}, false)], current := Some(|s.peers|));
      OtherWithdraws(s, t);
      if s.closing {
        OtherWithdraws(s, Step(s, e));
      } else {
        GrantWithdraws(t, |s.peers|);
        WithdrawnTransitive(s, t, Grant(t, |s.peers|));
      }
    case _ => OtherWithdraws(s, Step(s, e));
  }

  /** A step that grants nothing withdraws no further than this. */
  lemma OtherWithdraws(s: Slot, t: Slot)
    requires |s.peers| <= |t.peers| && t.granted == s.granted
    requires forall p :: 0 <= p < |s.peers| ==>
               && t.peers[p].admitted == s.peers[p].admitted && t.peers[p].inFlight <= s.peers[p].inFlight
               && (s.peers[p].retired ==> t.peers[p].retired) && (s.peers[p].closed ==> t.peers[p].closed)
    requires (s.uncertain ==> t.uncertain) && (s.closing ==> t.closing)
    ensures Withdrawn(s, t)
  {
  }

  // ---------- whole runs ----------

  ghost predicate Run(trace: seq<Slot>, events: seq<Event>) {
    && |trace| == |events| + 1
    && trace[0] == Init
    && forall i :: 0 <= i < |events| ==> Enabled(trace[i], events[i]) && trace[i + 1] == Step(trace[i], events[i])
  }

  lemma {:induction false} RunKeepsInvariant(trace: seq<Slot>, events: seq<Event>, i: nat)
    requires Run(trace, events) && i < |trace|
    ensures Inv(trace[i])
  {
    hide Step, Enabled;
    if i > 0 {
      RunKeepsInvariant(trace, events, i - 1);
      assert Enabled(trace[i - 1], events[i - 1]);
      StepKeeps(trace[i - 1], events[i - 1]);
    }
  }

  /** In every run no peer carries more than 16 leases or 128 admissions, its admissions are
      exactly the leases granted on it, and at most one peer is not confirmed closed. */
  lemma LeasesAreBounded(trace: seq<Slot>, events: seq<Event>, i: nat, p: nat)
    requires Run(trace, events) && i < |trace| && p < |trace[i].peers|
    ensures |trace[i].peers[p].inFlight| <= MAXIMUM_IN_FLIGHT
    ensures trace[i].peers[p].admitted == Occurrences(trace[i].granted, p) <= MAXIMUM_REQUESTS
    ensures trace[i].peers[p].closed <==> trace[i].current != Some(p)
    ensures trace[i].peers[p].closed ==> trace[i].peers[p].inFlight == {}
  {
    hide Step, Enabled;
    RunKeepsInvariant(trace, events, i);
    assert PeerOk(trace[i], p);
  }

  /** Retirement, confirmed closing, uncertainty and shutdown are permanent in every run. */
  lemma {:induction false} WithdrawalIsPermanent(trace: seq<Slot>, events: seq<Event>, i: nat, j: nat)
    requires Run(trace, events) && i <= j < |trace|
    ensures Withdrawn(trace[i], trace[j])
    decreases j
  {
    hide Step, Enabled, Inv;
    if i < j {
      WithdrawalIsPermanent(trace, events, i, j - 1);
      RunKeepsInvariant(trace, events, j - 1);
      assert Enabled(trace[j - 1], events[j - 1]) && trace[j] == Step(trace[j - 1], events[j - 1]);
      StepWithdraws(trace[j - 1], events[j - 1]);
    }
  }

  /** Once `reserve` has asked a transport to close, no lease is ever held on that peer again. */
  lemma NoLeaseAfterClose(trace: seq<Slot>, events: seq<Event>, i: nat, j: nat)
    requires Run(trace, events) && i <= j < |trace| && trace[i].work.AwaitingClose?
    ensures trace[i].granted <= trace[j].granted
    ensures var p := trace[i].work.peer;
            p < |trace[j].peers| && trace[j].peers[p].inFlight == {} && p !in trace[j].granted[|trace[i].granted|..]
  {
    hide Step, Enabled, Occurrences;
    RunKeepsInvariant(trace, events, i);
    RunKeepsInvariant(trace, events, j);
    WithdrawalIsPermanent(trace, events, i, j);
    var p := trace[i].work.peer;
    GrantsExtend(trace, events, i, j);
    assert PeerOk(trace[i], p) && PeerOk(trace[j], p);
    if p in trace[j].granted[|trace[i].granted|..] {
      OccurrencesGrow(trace[i].granted, trace[j].granted, p);
    }
  }

  lemma {:induction false} GrantsExtend(trace: seq<Slot>, events: seq<Event>, i: nat, j: nat)
    requires Run(trace, events) && i <= j < |trace|
    ensures trace[i].granted <= trace[j].granted
    decreases j
  {
    hide Step, Enabled, Inv;
    if i < j {
      GrantsExtend(trace, events, i, j - 1);
      RunKeepsInvariant(trace, events, j - 1);
      assert Enabled(trace[j - 1], events[j - 1]) && trace[j] == Step(trace[j - 1], events[j - 1]);
      if trace[j].granted != trace[j - 1].granted { GrantIsSafe(trace[j - 1], events[j - 1]); }
    }
  }

  lemma {:induction false} OccurrencesGrow(a: seq<nat>, b: seq<nat>, p: nat)
    requires a <= b
    ensures Occurrences(a, p) <= Occurrences(b, p)
    ensures p in b[|a|..] ==> Occurrences(a, p) < Occurrences(b, p)
    decreases |b|
  {
    if |a| < |b| {
      var c := b[..|b| - 1];
      OccurrencesGrow(a, c, p);
      assert b[|a|..] == c[|a|..] + [b[|b| - 1]];
    } else {
      assert a == b;
    }
  }

  // ---------- the slot object ----------

  class EnvironmentSlot {
    var peers: seq<Peer>
    var current: Option<nat>
    var uncertain: bool
    var closing: bool
    var waiting: nat
    var work: Work
    var granted: seq<nat>

    function State(): Slot
      reads this
    {
      Slot(peers, current, uncertain, closing, waiting, work, granted)
    }

    constructor ()
      ensures State() == Init && Inv(State())
    {
      peers, current, uncertain, closing := [], None, false, false;
      waiting, work, granted := 0, Idle, [];
    }

    method Request()
      requires Inv(State())
      modifies this
      ensures Inv(State()) && State() == Step(old(State()), Event.Request)
    {
      StepKeeps(State(), Event.Request);
      waiting := waiting + 1;
    }

    method Admit(p: nat)
      requires waiting > 0 && p < |peers|
      modifies this
      ensures State() == Grant(old(State()), p)
    {
      peers := peers[p := peers[p].(admitted := peers[p].admitted + 1, inFlight := peers[p].inFlight + {|granted|})];
      granted := granted + [p];
      waiting, work := waiting - 1, Idle;
    }

    /** One pass of the `for (;;)` loop of `reserve`. */
    method Pass(expiring: bool)
      requires Ready(State())
      modifies this
      ensures State() == Evaluate(old(State()), expiring)
    {
      if closing || uncertain {
        waiting, work := waiting - 1, Idle;
        return;
      }
      if current.None? {
        work := Creating;
        return;
      }
      var p := current.value;
      var previous := peers[p];
      if previous.retired || !previous.available || previous.admitted >= MAXIMUM_REQUESTS || expiring {
        peers := peers[p := previous.(retired := true)];
        work := AwaitingLeases(p, previous.inFlight);
      } else if |previous.inFlight| >= MAXIMUM_IN_FLIGHT {
        work := AwaitingSome(p, previous.inFlight);
      } else {
        Admit(p);
      }
    }

    method Begin(expiring: bool)
      requires Inv(State()) && Enabled(State(), Event.Begin(expiring))
      modifies this
      ensures Inv(State()) && State() == Step(old(State()), Event.Begin(expiring))
    {
      StepKeeps(State(), Event.Begin(expiring));
      Pass(expiring);
    }

    method LeasesDrained()
      requires Inv(State()) && Enabled(State(), Event.LeasesDrained)
      modifies this
      ensures Inv(State()) && State() == Step(old(State()), Event.LeasesDrained)
    {
      StepKeeps(State(), Event.LeasesDrained);
      work := AwaitingClose(work.peer);
    }

    method TransportClosed(ok: bool)
      requires Inv(State()) && Enabled(State(), Event.TransportClosed(ok))
      modifies this
      ensures Inv(State()) && State() == Step(old(State()), Event.TransportClosed(ok))
    {
      StepKeeps(State(), Event.TransportClosed(ok));
      if !ok {
        uncertain := true;
        waiting, work := waiting - 1, Idle;
        return;
      }
      peers := peers[work.peer := peers[work.peer].(closed := true)];
      current := None;
      Pass(false);
    }

    method SomeReleased(expiring: bool)
      requires Inv(State()) && Enabled(State(), Event.SomeReleased(expiring))
      modifies this
      ensures Inv(State()) && State() == Step(old(State()), Event.SomeReleased(expiring))
    {
      StepKeeps(State(), Event.SomeReleased(expiring));
      Pass(expiring);
    }

    method PeerCreated(available: bool)
      requires Inv(State()) && Enabled(State(), Event.PeerCreated(available))
      modifies this
      ensures Inv(State()) && State() == Step(old(State()), Event.PeerCreated(available))
    {
      StepKeeps(State(), Event.PeerCreated(available));
      current := Some(|peers|);
      peers := peers + [Peer(available, 0, false, {}, false)];
      if closing {
        waiting, work := waiting - 1, Idle;
      } else {
        Admit(current.value);
      }
    }

    method CreateFailed(unconfirmed: bool)
      requires Inv(State()) && Enabled(State(), Event.CreateFailed(unconfirmed))
      modifies this
      ensures Inv(State()) && State() == Step(old(State()), Event.CreateFailed(unconfirmed))
    {
      StepKeeps(State(), Event.CreateFailed(unconfirmed));
      if unconfirmed {
        uncertain := true;
      }
      waiting, work := waiting - 1, Idle;
    }

    /** The `finally` and `catch` of `withPeer`. */
    method Release(lease: nat, failed: bool)
      requires Inv(State()) && Enabled(State(), Event.Release(lease, failed))
      modifies this
      ensures Inv(State()) && State() == Step(old(State()), Event.Release(lease, failed))
    {
      StepKeeps(State(), Event.Release(lease, failed));
      var p := granted[lease];
      if failed {
        peers := peers[p := peers[p].(retired := true)];
      }
      peers := peers[p := peers[p].(inFlight := peers[p].inFlight - {lease})];
      assert State() == Step(old(State()), Event.Release(lease, failed));
    }

    method PeerDied(p: nat)
      requires Inv(State()) && Enabled(State(), Event.PeerDied(p))
      modifies this
      ensures Inv(State()) && State() == Step(old(State()), Event.PeerDied(p))
    {
      StepKeeps(State(), Event.PeerDied(p));
      peers := peers[p := peers[p].(available := false)];
    }

    method Close()
      requires Inv(State())
      modifies this
      ensures Inv(State()) && State() == Step(old(State()), Event.Close)
    {
      StepKeeps(State(), Event.Close);
      closing := true;
    }

    /** Whatever happens next, the object takes the step of the run lemmas. */
    method Perform(e: Event)
      requires Inv(State()) && Enabled(State(), e)
      modifies this
      ensures Inv(State()) && State() == Step(old(State()), e)
    {
      hide Inv, Step;
      match e
      case Request => Request();
      case Begin(expiring) => Begin(expiring);
      case LeasesDrained => LeasesDrained();
      case TransportClosed(ok) => TransportClosed(ok);
      case SomeReleased(expiring) => SomeReleased(expiring);
      case PeerCreated(available) => PeerCreated(available);
      case CreateFailed(unconfirmed) => CreateFailed(unconfirmed);
      case Release(lease, failed) => Release(lease, failed);
      case PeerDied(p) => PeerDied(p);
      case Close => Close();
    }
  }
}
