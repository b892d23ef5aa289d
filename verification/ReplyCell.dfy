/**
 The shared-memory reply cell of one synchronous exchange (restricted-process-client.ts,
 exchangeSync, and restricted-process-worker.ts, notify).

 Host and worker are two threads over a header of two words and a body of bytes. Each atomic
 operation and each single byte access is one step, and the steps of the two threads interleave
 freely. The worker thread may call `notify` any number of times, one call after the other.
 */
module ReplyCell {
  import opened Common

  datatype Host =
    | Waiting                          // inside Atomics.wait
    | NotReplied                       // header[0] was not 1
    | Replied                          // header[0] was 1
    | Reading(length: nat, got: seq<byte>)
    | Returned(value: seq<byte>)
    | Failed

  datatype Worker =
    | Idle
    | Checking(reply: seq<byte>)       // before Atomics.load(header, 0)
    | Writing(reply: seq<byte>, copied: set<nat>)
    | Publishing(reply: seq<byte>)     // length stored, before the compareExchange to 1
    | Rejecting                        // before the compareExchange to -1

  datatype Cell = Cell(
    limit: nat,
    state: int,               // header[0]
    length: int,              // header[1]
    body: seq<byte>,
    host: Host,
    worker: Worker,
    published: seq<seq<byte>>) // replies whose compareExchange from 0 to 1 succeeded

  datatype Event =
    | HostLoad
    | HostGiveUp
    | HostLoadLength
    | HostReadByte
    | HostDecode(ok: bool)
    | NotifyReply(reply: seq<byte>)
    | NotifyFailure
    | WorkerCheck
    | WorkerCopy(k: nat)
    | WorkerStoreLength
    | WorkerPublish
    | WorkerReject

  function Init(limit: nat): Cell {
    Cell(limit, 0, 0, seq(limit, _ => 0), Waiting, Idle, [])
  }

  function CompareExchange(c: Cell, value: int): Cell {
    if c.state == 0 then c.(state := value) else c
  }

  predicate Enabled(c: Cell, e: Event) {
    match e
    case HostLoad => c.host.Waiting?
    case HostGiveUp => c.host.NotReplied?
    case HostLoadLength => c.host.Replied?
    case HostReadByte => c.host.Reading? && |c.host.got| < c.host.length && |c.host.got| < |c.body|
    case HostDecode(_) => c.host.Reading? && |c.host.got| == c.host.length
    case NotifyReply(_) => c.worker.Idle?
    case NotifyFailure => c.worker.Idle?
    case WorkerCheck => c.worker.Checking?
    case WorkerCopy(k) => c.worker.Writing? && k < |c.worker.reply| && k < |c.body| && k !in c.worker.copied
    case WorkerStoreLength => c.worker.Writing? && forall k :: 0 <= k < |c.worker.reply| ==> k in c.worker.copied
    case WorkerPublish => c.worker.Publishing?
    case WorkerReject => c.worker.Rejecting?
  }

  function Step(c: Cell, e: Event): Cell
    requires Enabled(c, e)
  {
    match e
    case HostLoad => c.(host := if c.state == 1 then Replied else NotReplied)
    case HostGiveUp => CompareExchange(c, -2).(host := Failed)
    case HostLoadLength =>
      c.(host := if c.length < 1 || c.length > c.limit then Failed else Reading(c.length, []))
    case HostReadByte => c.(host := c.host.(got := c.host.got + [c.body[|c.host.got|]]))
    case HostDecode(ok) => c.(host := if ok then Returned(c.host.got) else Failed)
    case NotifyReply(reply) => if |reply| > |c.body| then c else c.(worker := Checking(reply))
    case NotifyFailure => c.(worker := Rejecting)
    case WorkerCheck => c.(worker := if c.state == 0 then Writing(c.worker.reply, {}) else Idle)
    case WorkerCopy(k) =>
      c.(body := c.body[k := c.worker.reply[k]], worker := c.worker.(copied := c.worker.copied + {k}))
    case WorkerStoreLength => c.(length := |c.worker.reply|, worker := Publishing(c.worker.reply))
    case WorkerPublish =>
      CompareExchange(c, 1).(worker := Idle,
                             published := if c.state == 0 then c.published + [c.worker.reply] else c.published)
    case WorkerReject => CompareExchange(c, -1).(worker := Idle)
  }

  /** The cell holds exactly `reply`. */
  predicate Holds(c: Cell, reply: seq<byte>) {
    c.length == |reply| <= |c.body| && c.body[..|reply|] == reply
  }

  predicate HostOk(c: Cell) {
    match c.host
    case Replied => c.state == 1
    case Reading(length, got) =>
      c.state == 1 && length == c.length && |got| <= length <= |c.body| && got == c.body[..|got|]
    case Returned(value) => c.published == [value]
    case _ => true
  }

  predicate WorkerOk(c: Cell) {
    match c.worker
    case Idle => true
    case Checking(reply) => |reply| <= |c.body|
    case Writing(reply, copied) =>
      && c.state != 1 && |reply| <= |c.body|
      && forall k :: k in copied && k < |reply| ==> c.body[k] == reply[k]
    case Publishing(reply) => c.state != 1 && Holds(c, reply)
    case Rejecting => true
  }

  predicate Inv(c: Cell) {
    && c.state in {0, 1, -1, -2}
    && |c.body| == c.limit
    && HostOk(c)
    && WorkerOk(c)
    && (c.state == 1 ==> |c.published| == 1 && Holds(c, c.published[0]))
    && (c.state != 1 ==> c.published == [])
  }

  lemma StoreLengthKeeps(c: Cell)
    requires Inv(c) && Enabled(c, WorkerStoreLength)
    ensures Inv(Step(c, WorkerStoreLength))
  {
    var reply := c.worker.reply;
    assert forall k :: 0 <= k < |reply| ==> k in c.worker.copied;
    assert c.body[..|reply|] == reply;
  }

  lemma CopyKeeps(c: Cell, k: nat)
    requires Inv(c) && Enabled(c, WorkerCopy(k))
    ensures Inv(Step(c, WorkerCopy(k)))
  {
  }

  lemma DecodeKeeps(c: Cell, ok: bool)
    requires Inv(c) && Enabled(c, HostDecode(ok))
    ensures Inv(Step(c, HostDecode(ok)))
  {
    assert c.host.got == c.body[..|c.host.got|] == c.published[0];
  }

  lemma ReadByteKeeps(c: Cell)
    requires Inv(c) && Enabled(c, HostReadByte)
    ensures Inv(Step(c, HostReadByte))
  {
  }

  lemma OtherKeeps(c: Cell, e: Event)
    requires Inv(c) && Enabled(c, e)
    requires !e.WorkerStoreLength? && !e.WorkerCopy? && !e.HostDecode? && !e.HostReadByte?
    ensures Inv(Step(c, e))
  {
  }

  /** Every step of either thread keeps the invariant. */
  lemma StepKeeps(c: Cell, e: Event)
    requires Inv(c) && Enabled(c, e)
    ensures Inv(Step(c, e))
  {
    hide Inv;
    match e
    case WorkerStoreLength => StoreLengthKeeps(c);
    case WorkerCopy(k) => CopyKeeps(c, k);
    case HostDecode(ok) => DecodeKeeps(c, ok);
    case HostReadByte => ReadByteKeeps(c);
    case _ => OtherKeeps(c, e);
  }

  /** Once the state word has left 0 it is final; a published reply is never overwritten. */
  ghost predicate Settled(c: Cell, d: Cell) {
    && (c.state != 0 ==> d.state == c.state && d.published == c.published)
    && (c.state == 1 ==> d.body == c.body && d.length == c.length)
    && (c.host.Returned? || c.host.Failed? ==> d.host == c.host)
  }

  lemma StepSettles(c: Cell, e: Event)
    requires Inv(c) && Enabled(c, e)
    ensures Settled(c, Step(c, e))
  {
  }

  // ---------- whole runs ----------

  ghost predicate Run(trace: seq<Cell>, events: seq<Event>) {
    && |trace| == |events| + 1
    && trace[0] == Init(trace[0].limit)
    && forall i :: 0 <= i < |events| ==> Enabled(trace[i], events[i]) && trace[i + 1] == Step(trace[i], events[i])
  }

  lemma {:induction false} RunKeepsInvariant(trace: seq<Cell>, events: seq<Event>, i: nat)
    requires Run(trace, events) && i < |trace|
    ensures Inv(trace[i])
  {
    hide Step, Enabled;
    if i > 0 {
      RunKeepsInvariant(trace, events, i - 1);
      assert Enabled(trace[i - 1], events[i - 1]);
      StepKeeps(trace[i - 1], events[i - 1]);
    }
  }

  /** Under every interleaving the state word leaves 0 at most once. */
  lemma {:induction false} HeaderLeavesZeroOnce(trace: seq<Cell>, events: seq<Event>, i: nat, j: nat)
    requires Run(trace, events) && i <= j < |trace|
    ensures Settled(trace[i], trace[j])
    decreases j
  {
    hide Step, Enabled, Inv;
    if i < j {
      HeaderLeavesZeroOnce(trace, events, i, j - 1);
      RunKeepsInvariant(trace, events, j - 1);
      assert Enabled(trace[j - 1], events[j - 1]) && trace[j] == Step(trace[j - 1], events[j - 1]);
      StepSettles(trace[j - 1], events[j - 1]);
    }
  }

  /** A reply can only be written by a notify call that carried exactly those bytes. */
  ghost predicate Notified(events: seq<Event>, n: nat, reply: seq<byte>)
    requires n <= |events|
  {
    exists k :: 0 <= k < n && events[k] == NotifyReply(reply)
  }

  lemma {:induction false} WorkerRepliesWereNotified(trace: seq<Cell>, events: seq<Event>, i: nat)
    requires Run(trace, events) && i < |trace|
    ensures trace[i].worker.Checking? || trace[i].worker.Writing? || trace[i].worker.Publishing? ==>
              Notified(events, i, trace[i].worker.reply)
    ensures forall r :: r in trace[i].published ==> Notified(events, i, r)
  {
    hide Notified;
    if i > 0 {
      WorkerRepliesWereNotified(trace, events, i - 1);
      var c, e := trace[i - 1], events[i - 1];
      assert Enabled(c, e) && trace[i] == Step(c, e);
      if e.NotifyReply? { NotifiedNow(events, i, e.reply); }
      if c.worker.Checking? || c.worker.Writing? || c.worker.Publishing? {
        NotifiedStays(events, i - 1, i, c.worker.reply);
      }
      forall r | r in trace[i].published ensures Notified(events, i, r) {
        NotifiedStays(events, i - 1, i, r);
      }
    }
  }

  lemma NotifiedNow(events: seq<Event>, i: nat, reply: seq<byte>)
    requires 0 < i <= |events| && events[i - 1] == NotifyReply(reply)
    ensures Notified(events, i, reply)
  {
  }

  lemma NotifiedStays(events: seq<Event>, i: nat, j: nat, reply: seq<byte>)
    requires i <= j <= |events|
    ensures Notified(events, i, reply) ==> Notified(events, j, reply)
  {
  }

  /** A synchronous exchange that returns a value returns exactly the bytes of one complete
      notify call, the only one that was published. */
  lemma ExchangeReturnsTheReply(trace: seq<Cell>, events: seq<Event>, i: nat)
    requires Run(trace, events) && i < |trace| && trace[i].host.Returned?
    ensures trace[i].published == [trace[i].host.value]
    ensures Notified(events, i, trace[i].host.value)
  {
    hide Step, Enabled;
    RunKeepsInvariant(trace, events, i);
    WorkerRepliesWereNotified(trace, events, i);
    assert trace[i].host.value in trace[i].published;
  }

  /** After the host gave up, no reply is published, and after a reply was published the
      host's later compareExchange does not revoke it. */
  lemma GiveUpIsFinal(trace: seq<Cell>, events: seq<Event>, i: nat, j: nat)
    requires Run(trace, events) && i < |events| && events[i].HostGiveUp? && i < j < |trace|
    ensures trace[j].host.Failed? && trace[j].published == trace[i].published
    ensures trace[j].state == if trace[i].state == 0 then -2 else trace[i].state
  {
    assert Enabled(trace[i], events[i]) && trace[i + 1] == Step(trace[i], events[i]);
    HeaderLeavesZeroOnce(trace, events, i + 1, j);
  }

  // ---------- the memory in place ----------

  /** The shared words and bytes together with the program counters of the two threads. */
  class SharedReply {
    const limit: nat
    const body: array<byte>
    var state: int
    var length: int
    var host: Host
    var worker: Worker
    ghost var published: seq<seq<byte>>

    ghost function State(): Cell
      reads this, body
    {
      Cell(limit, state, length, body[..], host, worker, published)
    }

    constructor (maximumFrameBytes: nat)
      ensures limit == maximumFrameBytes && State() == Init(maximumFrameBytes) && Inv(State())
      ensures fresh(body)
    {
      limit := maximumFrameBytes;
      body := new byte[maximumFrameBytes](_ => 0);
      state, length, host, worker, published := 0, 0, Waiting, Idle, [];
      new;
      assert body[..] == Init(maximumFrameBytes).body;
    }

    method AtomicCompareExchange(value: int)
      modifies this`state
      ensures State() == CompareExchange(old(State()), value)
    {
      if state == 0 { state := value; }
    }

    method HostStep(e: Event)
      requires Inv(State()) && Enabled(State(), e)
      requires e.HostLoad? || e.HostGiveUp? || e.HostLoadLength? || e.HostReadByte? || e.HostDecode?
      modifies this
      ensures Inv(State()) && State() == Step(old(State()), e)
    {
      hide Inv;
      StepKeeps(State(), e);
      match e
      case HostLoad =>
        if state == 1 { host := Replied; } else { host := NotReplied; }
      case HostGiveUp =>
        AtomicCompareExchange(-2);
        host := Failed;
      case HostLoadLength =>
        if length < 1 || length > limit { host := Failed; } else { host := Reading(length, []); }
      case HostReadByte =>
        host := host.(got := host.got + [body[|host.got|]]);
      case HostDecode(ok) =>
        if ok { host := Returned(host.got); } else { host := Failed; }
    }

    method WorkerStep(e: Event)
      requires Inv(State()) && Enabled(State(), e)
      requires !e.HostLoad? && !e.HostGiveUp? && !e.HostLoadLength? && !e.HostReadByte? && !e.HostDecode?
      modifies this, body
      ensures Inv(State()) && State() == Step(old(State()), e)
    {
      hide Inv;
      StepKeeps(State(), e);
      match e
      case NotifyReply(reply) =>
        if |reply| <= body.Length { worker := Checking(reply); }
      case NotifyFailure => worker := Rejecting;
      case WorkerCheck =>
        if state == 0 { worker := Writing(worker.reply, {}); } else { worker := Idle; }
      case WorkerCopy(k) =>
        body[k] := worker.reply[k];
        worker := worker.(copied := worker.copied + {k});
      case WorkerStoreLength =>
        length := |worker.reply|;
        worker := Publishing(worker.reply);
      case WorkerPublish =>
        if state == 0 { published := published + [worker.reply]; }
        AtomicCompareExchange(1);
        worker := Idle;
      case WorkerReject =>
        AtomicCompareExchange(-1);
        worker := Idle;
    }
  }
}
