/**
 Byte-framed JSON lines on the private pipe (restricted-target-stdio.ts, createRestrictedJsonFrames).

 JSON and UTF-8 decoding and the receiver are parameters: `parses` tells whether a frame is
 strict UTF-8 JSON, `accepts` whether the receiver returns normally from the last frame of
 the sequence it has been given so far.
 */
module JsonFrames {
  import opened Common

  type Frame = seq<byte>

  const NEWLINE: byte := 10
  const MAXIMUM_RESTRICTED_FRAME_BYTES := 32 * 1024 * 1024

  datatype FrameError = TooLong | Empty | Malformed | Rejected | Truncated

  datatype Peer = Peer(maximum: nat, parses: Frame -> bool, accepts: seq<Frame> -> bool)

  /** `delivered` lists the frames handed to the receiver. `pending` is [] once an error is raised. */
  datatype Decoder = Decoder(pending: seq<byte>, delivered: seq<Frame>, error: Option<FrameError>)

  const Fresh := Decoder([], [], None)

  function Fail(d: Decoder, e: FrameError): Decoder {
    Decoder([], d.delivered, Some(e))
  }

  /** Lines 18-22: the line in front of a newline. */
  function EndLine(p: Peer, d: Decoder): Decoder {
    if |d.pending| > p.maximum then Fail(d, TooLong)
    else if d.pending == [] then Fail(d, Empty)
    else if !p.parses(d.pending) then Fail(d, Malformed)
    else
      var next := Decoder([], d.delivered + [d.pending], None);
      if p.accepts(next.delivered) then next else Fail(next, Rejected)
  }

  // ---------- reference: one byte at a time ----------

  function Take(p: Peer, d: Decoder, b: byte): Decoder {
    if d.error.Some? then d
    else if b == NEWLINE then EndLine(p, d)
    else if |d.pending| + 1 > p.maximum then Fail(d, TooLong)
    else d.(pending := d.pending + [b])
  }

  function Feed(p: Peer, d: Decoder, bytes: seq<byte>): Decoder
    decreases |bytes|
  {
    if bytes == [] then d
    else Take(p, Feed(p, d, bytes[..|bytes| - 1]), bytes[|bytes| - 1])
  }

  function Finish(d: Decoder): Decoder {
    if d.error.None? && d.pending != [] then Fail(d, Truncated) else d
  }

  function Flatten(chunks: seq<seq<byte>>): seq<byte> {
    if chunks == [] then [] else Flatten(chunks[..|chunks| - 1]) + chunks[|chunks| - 1]
  }

  function Joined(frames: seq<Frame>): seq<byte> {
    if frames == [] then [] else Joined(frames[..|frames| - 1]) + frames[|frames| - 1] + [NEWLINE]
  }

  lemma {:induction false} FeedAppend(p: Peer, d: Decoder, a: seq<byte>, b: seq<byte>)
    ensures Feed(p, d, a + b) == Feed(p, Feed(p, d, a), b)
    decreases |b|
  {
    if b == [] {
      assert a + b == a;
    } else {
      var c := b[..|b| - 1];
      assert (a + b)[..|a + b| - 1] == a + c;
      FeedAppend(p, d, a, c);
    }
  }

  lemma {:induction false} ErrorIsFinal(p: Peer, d: Decoder, bytes: seq<byte>)
    requires d.error.Some?
    ensures Feed(p, d, bytes) == d
    decreases |bytes|
  {
    if bytes != [] { ErrorIsFinal(p, d, bytes[..|bytes| - 1]); }
  }

  lemma FeedNext(p: Peer, d: Decoder, bytes: seq<byte>, i: nat)
    requires i < |bytes|
    ensures Feed(p, d, bytes[..i + 1]) == Take(p, Feed(p, d, bytes[..i]), bytes[i])
  {
    assert bytes[..i + 1][..i] == bytes[..i];
  }

  lemma ErrorPrefix(p: Peer, d: Decoder, bytes: seq<byte>, i: nat)
    requires i <= |bytes| && Feed(p, d, bytes[..i]).error.Some?
    ensures Feed(p, d, bytes) == Feed(p, d, bytes[..i])
  {
    assert bytes[..i] + bytes[i..] == bytes;
    FeedAppend(p, d, bytes[..i], bytes[i..]);
    ErrorIsFinal(p, Feed(p, d, bytes[..i]), bytes[i..]);
  }

  // ---------- what the decoder means ----------

  predicate ValidFrame(p: Peer, f: Frame) {
    0 < |f| <= p.maximum && NEWLINE !in f && p.parses(f)
  }

  /** Every frame is valid and the receiver accepts every one of them in turn. */
  predicate Acceptable(p: Peer, frames: seq<Frame>) {
    forall n :: 0 <= n < |frames| ==> ValidFrame(p, frames[n]) && p.accepts(frames[..n + 1])
  }

  /** Delivered frames, joined by newlines, plus the pending bytes are the stream, and the
      pending bytes never exceed the limit. */
  lemma {:induction false} NothingIsLost(p: Peer, stream: seq<byte>)
    ensures var d := Feed(p, Fresh, stream);
            d.error.None? ==>
              && Joined(d.delivered) + d.pending == stream
              && |d.pending| <= p.maximum && NEWLINE !in d.pending
              && Acceptable(p, d.delivered)
    decreases |stream|
  {
    hide Take, Acceptable, Joined;
    if stream != [] {
      var front, last := stream[..|stream| - 1], stream[|stream| - 1];
      NothingIsLost(p, front);
      var d := Feed(p, Fresh, front);
      var e := Feed(p, Fresh, stream);
      assert e == Take(p, d, last) && stream == front + [last];
      ErrorStays(p, d, last);
      if e.error.None? { TakenIsKept(p, d, last); }
    } else {
      NothingYet(p);
    }
  }

  lemma ErrorStays(p: Peer, d: Decoder, b: byte)
    ensures d.error.Some? ==> Take(p, d, b) == d
  {
  }

  lemma NothingYet(p: Peer)
    ensures Joined(Fresh.delivered) + Fresh.pending == [] && Acceptable(p, Fresh.delivered)
  {
  }

  /** One accepted byte is kept, and a frame it completes is acceptable. */
  lemma TakenIsKept(p: Peer, d: Decoder, b: byte)
    requires d.error.None? && Take(p, d, b).error.None?
    requires |d.pending| <= p.maximum && NEWLINE !in d.pending && Acceptable(p, d.delivered)
    ensures var e := Take(p, d, b);
            && Joined(e.delivered) + e.pending == Joined(d.delivered) + d.pending + [b]
            && |e.pending| <= p.maximum && NEWLINE !in e.pending
            && Acceptable(p, e.delivered)
  {
    hide Acceptable;
    var e := Take(p, d, b);
    if b == NEWLINE {
      assert e.delivered[..|d.delivered|] == d.delivered;
      OneMoreAcceptable(p, d.delivered, d.pending);
      assert Joined(e.delivered) + [] == Joined(d.delivered) + d.pending + [b];
    } else {
      assert Joined(d.delivered) + (d.pending + [b]) == Joined(d.delivered) + d.pending + [b];
    }
  }

  lemma OneMoreAcceptable(p: Peer, frames: seq<Frame>, f: Frame)
    requires Acceptable(p, frames) && ValidFrame(p, f) && p.accepts(frames + [f])
    ensures Acceptable(p, frames + [f])
  {
    hide ValidFrame;
    var more := frames + [f];
    forall n | 0 <= n < |more| ensures ValidFrame(p, more[n]) && p.accepts(more[..n + 1]) {
      if n < |frames| { assert more[..n + 1] == frames[..n + 1]; } else { assert more[..n + 1] == more; }
    }
  }

  lemma {:induction false} FeedLine(p: Peer, d: Decoder, line: seq<byte>)
    requires d.error.None? && |d.pending| + |line| <= p.maximum && NEWLINE !in line
    ensures Feed(p, d, line) == d.(pending := d.pending + line)
    decreases |line|
  {
    if line == [] {
      assert d.pending + line == d.pending;
    } else {
      var front := line[..|line| - 1];
      FeedLine(p, d, front);
      assert d.pending + front + [line[|line| - 1]] == d.pending + line;
    }
  }

  lemma FeedFrame(p: Peer, front: seq<Frame>, f: Frame)
    requires ValidFrame(p, f) && p.accepts(front + [f])
    ensures Feed(p, Decoder([], front, None), f + [NEWLINE]) == Decoder([], front + [f], None)
  {
    FeedLine(p, Decoder([], front, None), f);
    assert [] + f == f;
    assert (f + [NEWLINE])[..|f|] == f;
  }

  lemma AcceptablePrefix(p: Peer, frames: seq<Frame>, n: nat)
    requires Acceptable(p, frames) && n <= |frames|
    ensures Acceptable(p, frames[..n])
  {
    forall i | 0 <= i < n ensures ValidFrame(p, frames[..n][i]) && p.accepts(frames[..n][..i + 1]) {
      assert frames[..n][..i + 1] == frames[..i + 1];
    }
  }

  lemma {:induction false} AcceptableIsDelivered(p: Peer, frames: seq<Frame>)
    requires Acceptable(p, frames)
    ensures Feed(p, Fresh, Joined(frames)) == Decoder([], frames, None)
    decreases |frames|
  {
    hide Feed, ValidFrame;
    if frames != [] {
      var n := |frames| - 1;
      var front, last := frames[..n], frames[n];
      AcceptablePrefix(p, frames, n);
      AcceptableIsDelivered(p, front);
      assert front + [last] == frames && frames[..n + 1] == frames;
      FeedFrame(p, front, last);
      FeedAppend(p, Fresh, Joined(front), last + [NEWLINE]);
      assert Joined(frames) == Joined(front) + (last + [NEWLINE]);
    } else {
      EmptyFeed(p, Fresh);
    }
  }

  lemma EmptyFeed(p: Peer, d: Decoder)
    ensures Feed(p, d, []) == d
  {
  }

  /** A whole stream is accepted if and only if it is a sequence of acceptable frames,
      each ended by one newline; those frames are then exactly what is delivered. */
  lemma StreamVerdict(p: Peer, stream: seq<byte>)
    ensures Finish(Feed(p, Fresh, stream)).error.None?
            <==> exists frames :: Acceptable(p, frames) && Joined(frames) == stream
    ensures forall frames :: Acceptable(p, frames) && Joined(frames) == stream ==>
              Feed(p, Fresh, stream).delivered == frames
  {
    NothingIsLost(p, stream);
    var d := Feed(p, Fresh, stream);
    if Finish(d).error.None? {
      assert Joined(d.delivered) + [] == stream;
    }
    forall frames | Acceptable(p, frames) && Joined(frames) == stream
      ensures d == Decoder([], frames, None)
    {
      AcceptableIsDelivered(p, frames);
    }
  }

  // ---------- the decoder object ----------

  class RestrictedJsonFrames {
    const peer: Peer
    var pending: seq<byte>
    var delivered: seq<Frame>
    var error: Option<FrameError>

    function State(): Decoder
      reads this
    {
      Decoder(if error.Some? then [] else pending, delivered, error)
    }

    constructor (p: Peer)
      requires 1 <= p.maximum <= MAXIMUM_RESTRICTED_FRAME_BYTES
      ensures peer == p && State() == Fresh
    {
      peer := p;
      pending, delivered, error := [], [], None;
    }

    /** Lines 18-22 for the line collected so far. */
    method DeliverLine(frame: Frame)
      requires error.None?
      modifies this
      ensures State() == EndLine(peer, Decoder(frame, old(delivered), None))
      ensures error.None? ==> pending == []
    {
      if |frame| > peer.maximum {
        error := Some(TooLong);
        return;
      }
      pending := [];
      if frame == [] {
        error := Some(Empty);
      } else if !peer.parses(frame) {
        error := Some(Malformed);
      } else {
        delivered := delivered + [frame];
        if !peer.accepts(delivered) { error := Some(Rejected); }
      }
    }

    /** Consume one chunk. The source looks at whole lines of the chunk and at its rest. */
    method Push(chunk: seq<byte>)
      requires error.None? && |pending| <= peer.maximum
      modifies this
      ensures State() == Feed(peer, old(State()), chunk)
      ensures error.None? ==> |pending| <= peer.maximum
    {
      hide Feed, EndLine;
      ghost var d := State();
      EmptyFeed(peer, d);
      var offset, index := 0, 0;
      while index < |chunk|
        invariant 0 <= offset <= index <= |chunk|
        invariant error.None? && |pending| <= peer.maximum
        invariant Feed(peer, d, chunk[..index]) == Collected(peer, pending + chunk[offset..index], delivered)
      {
        FeedNext(peer, d, chunk, index);
        if chunk[index] == NEWLINE {
          var frame := pending + chunk[offset..index];
          EndCollected(peer, frame, delivered);
          DeliverLine(frame);
          if error.Some? {
            ErrorPrefix(peer, d, chunk, index + 1);
            return;
          }
          offset := index + 1;
          assert pending + chunk[offset..index + 1] == [];
        } else {
          assert pending + chunk[offset..index + 1] == pending + chunk[offset..index] + [chunk[index]];
        }
        index := index + 1;
      }
      assert chunk[..index] == chunk && chunk[offset..index] == chunk[offset..];
      if |pending| + |chunk| - offset > peer.maximum {
        error := Some(TooLong);
      } else {
        pending := pending + chunk[offset..];
      }
    }
  }

  /** The byte-wise decoder after collecting `line` since the last newline. */
  function Collected(p: Peer, line: seq<byte>, delivered: seq<Frame>): Decoder {
    if |line| <= p.maximum then Decoder(line, delivered, None) else Decoder([], delivered, Some(TooLong))
  }

  lemma EndCollected(p: Peer, line: seq<byte>, delivered: seq<Frame>)
    ensures Take(p, Collected(p, line, delivered), NEWLINE) == EndLine(p, Decoder(line, delivered, None))
  {
  }

  lemma NothingFlattened(chunks: seq<seq<byte>>)
    ensures Flatten(chunks[..0]) == []
  {
  }

  lemma FlattenNext(chunks: seq<seq<byte>>, n: nat)
    requires n < |chunks|
    ensures Flatten(chunks[..n + 1]) == Flatten(chunks[..n]) + chunks[n]
  {
    assert chunks[..n + 1][..n] == chunks[..n];
  }

  /** However a stream is cut into chunks, pushing them until the first error and then finishing
      delivers the same frames and reaches the same verdict: both depend on the stream only. */
  method DecodeStream(p: Peer, chunks: seq<seq<byte>>) returns (delivered: seq<Frame>, error: Option<FrameError>)
    requires 1 <= p.maximum <= MAXIMUM_RESTRICTED_FRAME_BYTES
    ensures var d := Finish(Feed(p, Fresh, Flatten(chunks)));
            delivered == d.delivered && error == d.error
  {
    hide Feed, Flatten;
    var frames := new RestrictedJsonFrames(p);
    var n := 0;
    NothingFlattened(chunks);
    EmptyFeed(p, Fresh);
    while n < |chunks| && frames.error.None?
      invariant 0 <= n <= |chunks|
      invariant fresh(frames) && frames.peer == p
      invariant frames.error.None? ==> |frames.pending| <= p.maximum
      invariant frames.State() == Feed(p, Fresh, Flatten(chunks[..n]))
      invariant frames.error.Some? ==> Feed(p, Fresh, Flatten(chunks)) == frames.State()
    {
      FeedAppend(p, Fresh, Flatten(chunks[..n]), chunks[n]);
      FlattenNext(chunks, n);
      frames.Push(chunks[n]);
      n := n + 1;
      if frames.error.Some? {
        FlattenAppend(chunks[..n], chunks[n..]);
        assert chunks[..n] + chunks[n..] == chunks;
        FeedAppend(p, Fresh, Flatten(chunks[..n]), Flatten(chunks[n..]));
        ErrorIsFinal(p, frames.State(), Flatten(chunks[n..]));
      }
    }
    if frames.error.None? {
      assert chunks[..n] == chunks;
    }
    delivered, error := frames.delivered, frames.error;
    if error.None? && frames.pending != [] { error := Some(Truncated); }
  }

  lemma {:induction false} FlattenAppend(a: seq<seq<byte>>, b: seq<seq<byte>>)
    ensures Flatten(a + b) == Flatten(a) + Flatten(b)
    decreases |b|
  {
    if b == [] {
      assert a + b == a;
    } else {
      var front, last := b[..|b| - 1], b[|b| - 1];
      assert (a + b)[..|a + b| - 1] == a + front && (a + b)[|a + b| - 1] == last;
      FlattenAppend(a, front);
      assert Flatten(a) + Flatten(front) + last == Flatten(a) + (Flatten(front) + last);
    }
  }
}
