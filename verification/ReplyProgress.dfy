/**
 That a synchronous exchange over the shared cell comes to its end (restricted-process-client.ts,
 exchangeSync, and restricted-process-worker.ts, notify): either thread, left to itself, finishes what it
 has begun, and the host gets the reply that was published.
 */
module ReplyProgress {
  import opened Common
  import opened ReplyCell

  /** `events`, one after the other, lead from `c` to `d`. */
  predicate Leads(c: Cell, events: seq<Event>, d: Cell)
    decreases |events|
  {
    if events == [] then d == c else Enabled(c, events[0]) && Leads(Step(c, events[0]), events[1..], d)
  }

  lemma LeadsOne(c: Cell, e: Event)
    requires Enabled(c, e)
    ensures Leads(c, [e], Step(c, e))
  {
    hide Step, Enabled;
    assert [e][1..] == [];
    assert Leads(Step(c, e), [], Step(c, e));
  }

  lemma {:induction false} LeadsFurther(c: Cell, first: seq<Event>, d: Cell, rest: seq<Event>, e: Cell)
    requires Leads(c, first, d) && Leads(d, rest, e)
    ensures Leads(c, first + rest, e)
    decreases |first|
  {
    hide Step, Enabled;
    if first == [] {
      assert first + rest == rest;
    } else {
      LeadsFurther(Step(c, first[0]), first[1..], d, rest, e);
      assert (first + rest)[1..] == first[1..] + rest && (first + rest)[0] == first[0];
    }
  }

  // ---------- the host ----------

  predicate OfHost(e: Event) {
    e.HostLoad? || e.HostGiveUp? || e.HostLoadLength? || e.HostReadByte? || e.HostDecode?
  }

  ghost predicate HostOnly(events: seq<Event>) {
    forall e :: e in events ==> OfHost(e)
  }

  /** Reading byte by byte what is left of a published reply. */
  lemma {:induction false} HostReads(c: Cell) returns (events: seq<Event>, d: Cell)
    requires Inv(c) && c.host.Reading?
    ensures Leads(c, events, d) && HostOnly(events)
    ensures d == c.(host := Reading(c.host.length, c.published[0])) && |c.published[0]| == c.host.length
    decreases c.length - |c.host.got|
  {
    if |c.host.got| == c.host.length {
      events, d := [], c;
    } else {
      StepKeeps(c, HostReadByte);
      var rest;
      rest, d := HostReads(Step(c, HostReadByte));
      LeadsOne(c, HostReadByte);
      LeadsFurther(c, [HostReadByte], Step(c, HostReadByte), rest, d);
      events := [HostReadByte] + rest;
    }
  }

  /** Once a reply is published, a host that has not given up ends with exactly this reply, if it decodes, and
      with a failure if it does not or is empty. */
  lemma HostReturnsTheReply(c: Cell, decodes: bool) returns (events: seq<Event>, d: Cell)
    requires Inv(c) && c.state == 1 && (c.host.Waiting? || c.host.Replied? || c.host.Reading?)
    requires c.host.Reading? ==> c.length >= 1
    ensures Leads(c, events, d) && HostOnly(events)
    ensures d == c.(host := if decodes && |c.published[0]| >= 1 then Returned(c.published[0]) else Failed)
  {
    hide Leads;
    var a, first := c, [];
    LeadsNothing(c);
    if a.host.Waiting? {
      StepKeeps(a, HostLoad);
      LeadsOne(a, HostLoad);
      LeadsFurther(c, first, a, [HostLoad], Step(a, HostLoad));
      a, first := Step(a, HostLoad), first + [HostLoad];
    }
    if a.host.Replied? {
      StepKeeps(a, HostLoadLength);
      LeadsOne(a, HostLoadLength);
      LeadsFurther(c, first, a, [HostLoadLength], Step(a, HostLoadLength));
      a, first := Step(a, HostLoadLength), first + [HostLoadLength];
    }
    if a.host.Reading? {
      var more, b := HostReads(a);
      LeadsFurther(c, first, a, more, b);
      LeadsOne(b, HostDecode(decodes));
      LeadsFurther(c, first + more, b, [HostDecode(decodes)], Step(b, HostDecode(decodes)));
      events, d := first + more + [HostDecode(decodes)], Step(b, HostDecode(decodes));
    } else {
      events, d := first, a;
    }
  }

  lemma LeadsNothing(c: Cell)
    ensures Leads(c, [], c)
  {
  }

  /** A host that finds no reply fails, and leaves a mark that no later reply can replace. */
  lemma HostGivesUp(c: Cell)
    requires Inv(c) && c.state != 1 && c.host.Waiting?
    ensures Leads(c, [HostLoad, HostGiveUp], c.(state := if c.state == 0 then -2 else c.state, host := Failed))
  {
    var a := Step(c, HostLoad);
    LeadsOne(c, HostLoad);
    LeadsOne(a, HostGiveUp);
    LeadsFurther(c, [HostLoad], a, [HostGiveUp], Step(a, HostGiveUp));
    assert [HostLoad] + [HostGiveUp] == [HostLoad, HostGiveUp];
  }

  // ---------- the worker ----------

  /** The positions of the reply that are not copied yet. */
  function Left(reply: seq<byte>, copied: set<nat>): set<nat> {
    set k: nat | k < |reply| && k !in copied
  }

  /** Copying what is left of the reply. */
  lemma {:induction false} WorkerCopies(c: Cell) returns (events: seq<Event>, d: Cell)
    requires Inv(c) && c.worker.Writing?
    ensures Leads(c, events, d) && forall e :: e in events ==> !OfHost(e)
    ensures Inv(d) && d.state == c.state && d.host == c.host && d.published == c.published && d.limit == c.limit
    ensures d.worker.Writing? && d.worker.reply == c.worker.reply && Enabled(d, WorkerStoreLength)
    decreases Left(c.worker.reply, c.worker.copied)
  {
    hide Inv, Leads;
    WritingFacts(c);
    if k: nat :| k < |c.worker.reply| && k !in c.worker.copied {
      var e := WorkerCopy(k);
      StepKeeps(c, e);
      assert k in Left(c.worker.reply, c.worker.copied);
      assert k !in Left(c.worker.reply, c.worker.copied + {k});
      var rest;
      rest, d := WorkerCopies(Step(c, e));
      LeadsOne(c, e);
      LeadsFurther(c, [e], Step(c, e), rest, d);
      events := [e] + rest;
    } else {
      LeadsNothing(c);
      events, d := [], c;
    }
  }

  lemma WritingFacts(c: Cell)
    requires Inv(c) && c.worker.Writing?
    ensures |c.worker.reply| <= |c.body|
  {
  }

  /** A reply of the worker that fits is published, and is the one reply, unless the exchange was settled before. */
  lemma WorkerPublishesTheReply(c: Cell, reply: seq<byte>) returns (events: seq<Event>, d: Cell)
    requires Inv(c) && c.state == 0 && c.worker.Idle? && |reply| <= c.limit
    ensures Leads(c, events, d) && forall e :: e in events ==> !OfHost(e)
    ensures Inv(d) && d.state == 1 && d.published == [reply] && d.host == c.host && d.worker == Idle && d.limit == c.limit
  {
    hide Leads;
    var a := Step(c, NotifyReply(reply));
    StepKeeps(c, NotifyReply(reply));
    LeadsOne(c, NotifyReply(reply));
    var b := Step(a, WorkerCheck);
    StepKeeps(a, WorkerCheck);
    LeadsOne(a, WorkerCheck);
    var copies, e := WorkerCopies(b);
    var f := Step(e, WorkerStoreLength);
    StepKeeps(e, WorkerStoreLength);
    LeadsOne(e, WorkerStoreLength);
    d := Step(f, WorkerPublish);
    StepKeeps(f, WorkerPublish);
    LeadsOne(f, WorkerPublish);
    LeadsFurther(f, [WorkerPublish], d, [], d) by { LeadsNothing(d); }
    LeadsFurther(e, [WorkerStoreLength], f, [WorkerPublish], d);
    LeadsFurther(b, copies, e, [WorkerStoreLength] + [WorkerPublish], d);
    LeadsFurther(a, [WorkerCheck], b, copies + ([WorkerStoreLength] + [WorkerPublish]), d);
    events := [NotifyReply(reply)] + ([WorkerCheck] + (copies + ([WorkerStoreLength] + [WorkerPublish])));
    LeadsFurther(c, [NotifyReply(reply)], a, [WorkerCheck] + (copies + ([WorkerStoreLength] + [WorkerPublish])), d);
  }

  /** A reply that does not fit is not written, and one that comes too late is dropped. */
  lemma WorkerDropsTheReply(c: Cell, reply: seq<byte>)
    requires Inv(c) && c.worker.Idle?
    ensures |reply| > c.limit ==> Step(c, NotifyReply(reply)) == c
    ensures |reply| <= c.limit && c.state != 0 ==> Leads(c, [NotifyReply(reply), WorkerCheck], c)
  {
    if |reply| <= c.limit && c.state != 0 {
      var a := Step(c, NotifyReply(reply));
      LeadsOne(c, NotifyReply(reply));
      LeadsOne(a, WorkerCheck);
      LeadsFurther(c, [NotifyReply(reply)], a, [WorkerCheck], c);
      assert [NotifyReply(reply)] + [WorkerCheck] == [NotifyReply(reply), WorkerCheck];
    }
  }

  /** A failure of the worker settles an open exchange as failed, for good. */
  lemma WorkerRejects(c: Cell)
    requires Inv(c) && c.worker.Idle?
    ensures Leads(c, [NotifyFailure, WorkerReject], c.(state := if c.state == 0 then -1 else c.state))
  {
    var a := Step(c, NotifyFailure);
    LeadsOne(c, NotifyFailure);
    LeadsOne(a, WorkerReject);
    LeadsFurther(c, [NotifyFailure], a, [WorkerReject], Step(a, WorkerReject));
    assert [NotifyFailure] + [WorkerReject] == [NotifyFailure, WorkerReject];
  }

  /** A whole exchange: every reply of one up to `limit` bytes that the worker gives is what the host returns. */
  lemma ExchangeRoundTrip(limit: nat, reply: seq<byte>) returns (events: seq<Event>, d: Cell)
    requires 1 <= |reply| <= limit
    ensures Leads(Init(limit), events, d) && d.host == Returned(reply)
  {
    hide Leads;
    StartIsOk(limit);
    var first, c := WorkerPublishesTheReply(Init(limit), reply);
    var more;
    more, d := HostReturnsTheReply(c, true);
    LeadsFurther(Init(limit), first, c, more, d);
    events := first + more;
  }

  lemma StartIsOk(limit: nat)
    ensures Inv(Init(limit)) && Init(limit).state == 0 && Init(limit).worker.Idle? && Init(limit).host.Waiting?
    ensures Init(limit).limit == limit
  {
  }
}
