/**
 Audio and video frames on one session of the sidecar (dchat-tuna/main.go): the frame format, the reader
 that takes the byte stream apart again, and the bounded queue in front of the writer.
 */
module MediaFrames {
  import opened Bytes
  import opened Sequences
  import opened Wrappers

  const AUDIO: Byte := 1
  const VIDEO: Byte := 2
  const LARGEST_FRAME := 100000
  const QUEUE_CAPACITY := 512
  const LARGEST_PAYLOAD := 65534

  datatype Frame = Ping | Audio(payload: seq<Byte>) | Video(payload: seq<Byte>)

  datatype MediaEvent = AudioData(data: seq<Byte>) | VideoData(data: seq<Byte>)

  // --- The format ---

  /** Two big-endian length bytes; converting to a byte keeps the low eight bits. */
  function Header(length: nat): seq<Byte> {
    [length / 256 % 256, length % 256]
  }

  function HeaderValue(header: seq<Byte>): nat
    requires |header| >= 2
  {
    header[0] as nat * 256 + header[1]
  }

  function TypeByte(f: Frame): Byte
    requires !f.Ping?
  {
    if f.Audio? then AUDIO else VIDEO
  }

  function Encode(f: Frame): seq<Byte> {
    if f.Ping? then [0, 0] else Header(1 + |f.payload|) + [TypeByte(f)] + f.payload
  }

  function EncodeAll(frames: seq<Frame>): seq<Byte> {
    FlatMap(Encode, frames)
  }

  /** `handleSendAudio` and `handleSendVideo`: the frame is built in a buffer of its exact size. */
  method BuildFrame(typeByte: Byte, data: seq<Byte>) returns (frame: array<Byte>)
    ensures fresh(frame)
    ensures typeByte == AUDIO ==> frame[..] == Encode(Audio(data))
    ensures typeByte == VIDEO ==> frame[..] == Encode(Video(data))
  {
    frame := new Byte[3 + |data|];
    var totalLen := 1 + |data|;
    frame[0] := totalLen / 256 % 256;
    frame[1] := totalLen % 256;
    frame[2] := typeByte;
    forall i | 0 <= i < |data| {
      frame[3 + i] := data[i];
    }
    assert frame[..] == Header(totalLen) + [typeByte] + data;
  }

  // --- The reader ---

  /** Why reading stopped. Only a header cut in half is reported to the user as an error. */
  datatype StreamEnd = CleanEnd | HeaderCut | BodyCut | Closed

  datatype Parsed = Parsed(events: seq<MediaEvent>, end: StreamEnd)

  /** The event for one frame body; a body without a known type byte is taken whole, as audio. */
  function Demux(body: seq<Byte>): MediaEvent
    requires body != []
  {
    if body[0] == AUDIO then AudioData(body[1..])
    else if body[0] == VIDEO then VideoData(body[1..])
    else AudioData(body)
  }

  /** A length the reader skips: only the header is consumed. */
  predicate Skipped(length: nat) {
    length == 0 || length > LARGEST_FRAME
  }

  /** The number of bytes one turn of the reader consumes. */
  function TurnSize(stream: seq<Byte>): nat
    requires |stream| >= 2
  {
    if Skipped(HeaderValue(stream)) then 2 else 2 + HeaderValue(stream)
  }

  predicate HasTurn(stream: seq<Byte>) {
    |stream| >= 2 && TurnSize(stream) <= |stream|
  }

  function TurnEvents(stream: seq<Byte>): seq<MediaEvent>
    requires HasTurn(stream)
  {
    if Skipped(HeaderValue(stream)) then [] else [Demux(stream[2..TurnSize(stream)])]
  }

  function Continue(events: seq<MediaEvent>, rest: Parsed): Parsed {
    Parsed(events + rest.events, rest.end)
  }

  function Parse(stream: seq<Byte>): Parsed {
    if HasTurn(stream) then Continue(TurnEvents(stream), Parse(stream[TurnSize(stream)..]))
    else Parsed([], if stream == [] then CleanEnd else if |stream| == 1 then HeaderCut else BodyCut)
  }

  /** One turn of the reader: a header, then the body it announces. */
  method ReadFrame(stream: seq<Byte>, position: nat) returns (events: seq<MediaEvent>, next: nat, end: Option<StreamEnd>)
    requires position <= |stream|
    ensures var rest := stream[position..];
            if end.Some? then Parse(rest) == Parsed([], end.value) && events == [] && next == position
            else HasTurn(rest) && events == TurnEvents(rest) && next == position + TurnSize(rest)
    ensures end == Some(CleanEnd) <==> position == |stream|
    ensures end == Some(HeaderCut) <==> position + 1 == |stream|
    ensures end == Some(BodyCut) <==>
              position + 2 <= |stream| && |stream| < position + 2 + 256 * (stream[position] as nat) + stream[position + 1]
    ensures end.None? ==> position + 2 <= next
  {
    ghost var rest := stream[position..];
    if |stream| - position < 2 {
      return [], position, Some(if |stream| == position then CleanEnd else HeaderCut);
    }
    var frameLen := stream[position] as nat * 256 + stream[position + 1];
    assert frameLen == HeaderValue(rest);
    next := position + 2;
    if frameLen == 0 || frameLen > LARGEST_FRAME {
      return [], next, None;
    }
    if |stream| - next < frameLen {
      return [], position, Some(BodyCut);
    }
    var frame := stream[next..next + frameLen];
    assert rest[2..2 + frameLen] == frame;
    return [Demux(frame)], next + frameLen, None;
  }

  /** The reader's loop; `rounds` counts the loop turns after which the session is seen closed. */
  method ReadLoop(stream: seq<Byte>, rounds: nat) returns (events: seq<MediaEvent>, end: StreamEnd, consumed: nat)
    ensures end != Closed ==> Parse(stream) == Parsed(events, end)
    ensures end == Closed ==> consumed <= |stream| && Parse(stream[..consumed]) == Parsed(events, CleanEnd)
  {
    events, consumed := [], 0;
    var turn := 0;
    while turn < rounds
      invariant ReadSoFar(stream, consumed, events)
    {
      turn := turn + 1;
      var received, next, stop := ReadFrame(stream, consumed);
      if stop.Some? {
        ReadOff(stream, consumed, events, stop.value);
        return events, stop.value, consumed;
      }
      ReadOn(stream, consumed, events);
      events, consumed := events + received, next;
    }
    end := Closed;
  }

  ghost predicate ReadSoFar(stream: seq<Byte>, position: nat, events: seq<MediaEvent>) {
    position <= |stream| && Parse(stream[..position]) == Parsed(events, CleanEnd)
  }

  lemma ReadOn(stream: seq<Byte>, position: nat, events: seq<MediaEvent>)
    requires ReadSoFar(stream, position, events)
    ensures HasTurn(stream[position..]) ==>
              ReadSoFar(stream, position + TurnSize(stream[position..]), events + TurnEvents(stream[position..]))
  {
    var rest := stream[position..];
    if HasTurn(rest) {
      OneTurn(stream[..position], rest);
      TakeMore(stream, position, TurnSize(rest));
    }
  }

  lemma ReadOff(stream: seq<Byte>, position: nat, events: seq<MediaEvent>, end: StreamEnd)
    requires ReadSoFar(stream, position, events) && Parse(stream[position..]) == Parsed([], end)
    ensures Parse(stream) == Parsed(events, end)
  {
    SplitAt(stream, position);
    ParseResumes(stream[..position], stream[position..]);
    assert Continue(events, Parsed([], end)) == Parsed(events, end);
  }

  // --- What the reader makes of what the writer wrote ---

  lemma TurnExtends(a: seq<Byte>, b: seq<Byte>)
    requires HasTurn(a)
    ensures HasTurn(a + b) && TurnSize(a + b) == TurnSize(a) && TurnEvents(a + b) == TurnEvents(a)
    ensures (a + b)[TurnSize(a)..] == a[TurnSize(a)..] + b
  {
    assert (a + b)[2..TurnSize(a)] == a[2..TurnSize(a)];
  }

  /** A stream that was read to a clean end can be continued by more bytes. */
  lemma {:induction false} ParseResumes(a: seq<Byte>, b: seq<Byte>)
    requires Parse(a).end == CleanEnd
    ensures Parse(a + b) == Continue(Parse(a).events, Parse(b))
    decreases |a|
  {
    if a == [] {
      assert a + b == b;
    } else {
      var tail := a[TurnSize(a)..];
      TurnExtends(a, b);
      ParseResumes(tail, b);
      ContinueTwice(TurnEvents(a), Parse(tail).events, Parse(b));
    }
  }

  lemma ContinueTwice(first: seq<MediaEvent>, second: seq<MediaEvent>, rest: Parsed)
    ensures Continue(first, Continue(second, rest)) == Continue(first + second, rest)
  {
  }

  lemma OneTurn(before: seq<Byte>, rest: seq<Byte>)
    requires Parse(before).end == CleanEnd && HasTurn(rest)
    ensures Parse(before + rest[..TurnSize(rest)]) == Parsed(Parse(before).events + TurnEvents(rest), CleanEnd)
  {
    var turn := rest[..TurnSize(rest)];
    assert turn + rest[TurnSize(rest)..] == rest;
    assert HasTurn(turn) && TurnSize(turn) == TurnSize(rest) && turn[TurnSize(turn)..] == [];
    assert turn[2..TurnSize(turn)] == rest[2..TurnSize(rest)];
    ParseResumes(before, turn);
  }

  /** Cutting a stream anywhere only loses events at the end. */
  lemma {:induction false} ParseOfPrefix(a: seq<Byte>, b: seq<Byte>)
    ensures Parse(a).events <= Parse(a + b).events
    decreases |a|
  {
    if HasTurn(a) {
      TurnExtends(a, b);
      ParseOfPrefix(a[TurnSize(a)..], b);
    }
  }

  function EventOf(f: Frame): seq<MediaEvent> {
    match f
    case Ping => []
    case Audio(payload) => [AudioData(payload)]
    case Video(payload) => [VideoData(payload)]
  }

  /** What a reader should report for these frames: all media in order, no pings. */
  function Delivered(frames: seq<Frame>): seq<MediaEvent> {
    FlatMap(EventOf, frames)
  }

  predicate Fits(f: Frame) {
    f.Ping? || |f.payload| <= LARGEST_PAYLOAD
  }

  lemma ReadOneFrame(f: Frame)
    requires Fits(f)
    ensures Parse(Encode(f)) == Parsed(EventOf(f), CleanEnd)
  {
    var bytes := Encode(f);
    assert HasTurn(bytes) && bytes[TurnSize(bytes)..] == [];
    if !f.Ping? {
      assert bytes[2..TurnSize(bytes)] == [TypeByte(f)] + f.payload;
    }
  }

  /** A frame without a known type byte, as older clients send, is taken whole as audio. */
  lemma ReadLegacyFrame(body: seq<Byte>)
    requires 0 < |body| <= 65535 && body[0] != 1 && body[0] != 2
    ensures Parse(Header(|body|) + body) == Parsed([AudioData(body)], CleanEnd)
  {
    var bytes := Header(|body|) + body;
    HeaderHolds(|body|);
    assert HeaderValue(bytes) == |body| && TurnSize(bytes) == |bytes|;
    assert bytes[2..|bytes|] == body && bytes[|bytes|..] == [];
    assert TurnEvents(bytes) == [AudioData(body)];
    assert Parse(bytes) == Continue(TurnEvents(bytes), Parse([]));
  }

  lemma HeaderHolds(length: nat)
    requires length < 65536
    ensures HeaderValue(Header(length)) == length
  {
  }

  /** From 65535 bytes on the length wraps, and whatever follows, the frame is not what is read next. */
  lemma OversizeIsMisread(f: Frame, rest: seq<Byte>)
    requires !Fits(f)
    ensures var events := Parse(Encode(f) + rest).events; events == [] || events[0] != EventOf(f)[0]
  {
  }

  /** A sequence of frames is read back exactly, with nothing left over, if and only if each payload fits. */
  lemma {:induction false} ReadBackIff(frames: seq<Frame>)
    ensures (forall f <- frames :: Fits(f)) <==> Parse(EncodeAll(frames)) == Parsed(Delivered(frames), CleanEnd)
  {
    if frames != [] {
      var first, rest := frames[0], frames[1..];
      ReadBackIff(rest);
      assert frames == [first] + rest;
      FlatMapFirst(Encode, frames);
      FlatMapFirst(EventOf, frames);
      if Fits(first) {
        ReadOneFrame(first);
        ParseResumes(Encode(first), EncodeAll(rest));
        SameFront(EventOf(first), Parse(EncodeAll(rest)).events, Delivered(rest));
      } else {
        OversizeIsMisread(first, EncodeAll(rest));
      }
    }
  }

  lemma SameFront<T>(front: seq<T>, a: seq<T>, b: seq<T>)
    ensures front + a == front + b <==> a == b
  {
    assert (front + a)[|front|..] == a && (front + b)[|front|..] == b;
  }

  // --- The queue between the senders and the wire ---

  /**
   `sent` are the frames the senders offered, `taken` the ones the writer took off the queue, and `wire`
   the bytes that reached the connection.
   */
  datatype Link = Link(queue: seq<Frame>, sent: seq<Frame>, taken: seq<Frame>, wire: seq<Byte>, writing: bool)

  const CONNECTED := Link([], [], [], [], true)

  /** A failed write may have written some bytes of its frame. */
  datatype Event = Send(frame: Frame, found: bool) | Write(failedAfter: Option<nat>) | Stop

  function Step(l: Link, e: Event): Link {
    match e
    case Send(frame, found) =>
      var offered := l.(sent := l.sent + [frame]);
      if found && |l.queue| < QUEUE_CAPACITY then offered.(queue := l.queue + [frame]) else offered
    case Write(failedAfter) =>
      if !l.writing || l.queue == [] then l else
        var bytes := Encode(l.queue[0]);
        var next := l.(queue := l.queue[1..], taken := l.taken + [l.queue[0]]);
        if failedAfter.None? then next.(wire := l.wire + bytes) else
          next.(wire := l.wire + bytes[..Min(failedAfter.value, |bytes|)], writing := false)
    case Stop => l.(writing := false)
  }

  function Min(a: nat, b: nat): nat {
    if a < b then a else b
  }

  function Run(l: Link, events: seq<Event>): Link
    decreases |events|
  {
    if events == [] then l else Run(Step(l, events[0]), events[1..])
  }

  ghost predicate Orderly(l: Link) {
    && |l.queue| <= QUEUE_CAPACITY
    && Subsequence(l.taken + l.queue, l.sent)
    && l.wire <= EncodeAll(l.taken)
    && (l.writing ==> l.wire == EncodeAll(l.taken))
  }

  lemma StepKeepsOrder(l: Link, e: Event)
    requires Orderly(l)
    ensures Orderly(Step(l, e))
  {
    match e
    case Send(frame, found) =>
      SubsequenceSkip(l.taken + l.queue, l.sent, frame);
      SubsequenceTake(l.taken + l.queue, l.sent, frame);
      assert l.taken + (l.queue + [frame]) == l.taken + l.queue + [frame];
    case Write(_) =>
      if l.writing && l.queue != [] {
        FlatMapAppend(Encode, l.taken, l.queue[0]);
        assert l.taken + [l.queue[0]] + l.queue[1..] == l.taken + l.queue;
      }
    case Stop =>
  }

  lemma {:induction false} RunKeepsOrder(l: Link, events: seq<Event>)
    requires Orderly(l)
    ensures Orderly(Run(l, events))
    decreases |events|
  {
    if events != [] {
      StepKeepsOrder(l, events[0]);
      RunKeepsOrder(Step(l, events[0]), events[1..]);
    }
  }

  lemma {:induction false} DeliveredInOrder(a: seq<Frame>, b: seq<Frame>)
    requires Subsequence(a, b)
    ensures Subsequence(Delivered(a), Delivered(b))
    decreases |b|
  {
    if a != [] {
      var front, last := b[..|b| - 1], b[|b| - 1];
      if a[|a| - 1] == last && Subsequence(a[..|a| - 1], front) {
        DeliveredInOrder(a[..|a| - 1], front);
        if last.Ping? {
          assert Delivered(a) == Delivered(a[..|a| - 1]) && Delivered(b) == Delivered(front);
        } else {
          SubsequenceTake(Delivered(a[..|a| - 1]), Delivered(front), EventOf(last)[0]);
        }
      } else {
        DeliveredInOrder(a, front);
        if last.Ping? {
          assert Delivered(b) == Delivered(front);
        } else {
          SubsequenceSkip(Delivered(a), Delivered(front), EventOf(last)[0]);
        }
      }
    }
  }

  /**
   Over every run, with frames dropped by a full queue and writes failing half-way: whatever part of the
   wire has reached the reader, it reports an in-order subsequence of the media that was sent.
   */
  lemma DeliveredIsSubsequenceOfSent(events: seq<Event>, arrived: nat)
    requires arrived <= |Run(CONNECTED, events).wire|
    requires forall f <- Run(CONNECTED, events).sent :: Fits(f)
    ensures var l := Run(CONNECTED, events);
            Subsequence(Parse(l.wire[..arrived]).events, Delivered(l.sent))
  {
    var l := Run(CONNECTED, events);
    RunKeepsOrder(CONNECTED, events);
    SubsequencePrefix(l.taken, l.queue, l.sent);
    SubsequenceElements(l.taken, l.sent);
    ReadBackIff(l.taken);
    DeliveredInOrder(l.taken, l.sent);
    ParseOfTake(EncodeAll(l.taken), arrived);
    assert l.wire[..arrived] == EncodeAll(l.taken)[..arrived];
    SubsequenceTakePrefix(Parse(l.wire[..arrived]).events, Delivered(l.taken), Delivered(l.sent));
  }

  lemma ParseOfTake(stream: seq<Byte>, arrived: nat)
    requires arrived <= |stream|
    ensures Parse(stream[..arrived]).events <= Parse(stream).events
  {
    assert stream[..arrived] + stream[arrived..] == stream;
    ParseOfPrefix(stream[..arrived], stream[arrived..]);
  }

  /** No sender ever met a closed session or a full queue. */
  predicate NeverRefused(l: Link, events: seq<Event>)
    decreases |events|
  {
    events == [] || (
      && (events[0].Send? ==> events[0].found && |l.queue| < QUEUE_CAPACITY)
      && NeverRefused(Step(l, events[0]), events[1..]))
  }

  lemma {:induction false} NothingDropped(l: Link, events: seq<Event>)
    requires NeverRefused(l, events) && l.taken + l.queue == l.sent
    ensures Run(l, events).taken + Run(l, events).queue == Run(l, events).sent
    decreases |events|
  {
    if events != [] {
      var next := Step(l, events[0]);
      assert next.taken + next.queue == next.sent;
      NothingDropped(next, events[1..]);
    }
  }

  /** Without refusals, and with the queue drained by a writer still running, nothing at all is lost. */
  lemma EverythingArrives(events: seq<Event>)
    requires NeverRefused(CONNECTED, events)
    requires var l := Run(CONNECTED, events); l.writing && l.queue == [] && forall f <- l.sent :: Fits(f)
    ensures var l := Run(CONNECTED, events); Parse(l.wire) == Parsed(Delivered(l.sent), CleanEnd)
  {
    var l := Run(CONNECTED, events);
    RunKeepsOrder(CONNECTED, events);
    NothingDropped(CONNECTED, events);
    assert l.taken == l.sent;
    ReadBackIff(l.taken);
  }

  class MediaSession {
    var writeCh: seq<seq<Byte>>
    var writing: bool
    ghost var link: Link

    ghost predicate Valid()
      reads this
    {
      && |writeCh| == |link.queue| && writing == link.writing && Orderly(link)
      && forall i :: 0 <= i < |writeCh| ==> writeCh[i] == Encode(link.queue[i])
    }

    constructor ()
      ensures Valid() && link == CONNECTED
    {
      writeCh, writing, link := [], true, CONNECTED;
    }

    /** `handleSendAudio` (or video): queue the frame if there is room, without waiting. */
    method SendMedia(video: bool, data: seq<Byte>, found: bool) returns (queued: bool)
      requires Valid()
      modifies this
      ensures Valid() && link == Step(old(link), Send(if video then Video(data) else Audio(data), found))
      ensures queued <==> found && |old(writeCh)| < 512
      ensures writeCh == if queued then old(writeCh) + [Encode(if video then Video(data) else Audio(data))] else old(writeCh)
      ensures link.sent == old(link).sent + [if video then Video(data) else Audio(data)]
      ensures writing == old(writing) && link.wire == old(link).wire && link.taken == old(link).taken
    {
      ghost var f := if video then Video(data) else Audio(data);
      StepKeepsOrder(link, Send(f, found));
      link := Step(link, Send(f, found));
      if !found {
        return false;
      }
      var frame := BuildFrame(if video then VIDEO else AUDIO, data);
      queued := |writeCh| < QUEUE_CAPACITY;
      if queued {
        writeCh := writeCh + [frame[..]];
      }
    }

    /** The connectivity ping sent once after dialing. */
    method SendPing() returns (queued: bool)
      requires Valid()
      modifies this
      ensures Valid() && link == Step(old(link), Send(Ping, true))
      ensures queued <==> |old(writeCh)| < 512
      ensures writeCh == if queued then old(writeCh) + [[0, 0]] else old(writeCh)
      ensures link.sent == old(link).sent + [Ping]
      ensures writing == old(writing) && link.wire == old(link).wire && link.taken == old(link).taken
    {
      StepKeepsOrder(link, Send(Ping, true));
      link := Step(link, Send(Ping, true));
      queued := |writeCh| < QUEUE_CAPACITY;
      if queued {
        writeCh := writeCh + [[0, 0]];
      }
    }

    /** One turn of `writeLoop`; `bytes` is what the connection accepted of the frame. */
    method WriteNext(failedAfter: Option<nat>) returns (bytes: seq<Byte>)
      requires Valid() && writing && writeCh != []
      modifies this
      ensures Valid() && link == Step(old(link), Write(failedAfter))
      ensures link.sent == old(link).sent && link.taken == old(link).taken + [old(link).queue[0]]
      ensures link.wire == old(link).wire + bytes && old(writeCh) == [old(writeCh)[0]] + writeCh
      ensures failedAfter.None? ==> bytes == old(writeCh)[0] && writing
      ensures failedAfter.Some? ==> bytes <= old(writeCh)[0] && |bytes| <= failedAfter.value && !writing
    {
      var frame := writeCh[0];
      StepKeepsOrder(link, Write(failedAfter));
      link := Step(link, Write(failedAfter));
      writeCh := writeCh[1..];
      if failedAfter.Some? {
        writing := false;
        return frame[..Min(failedAfter.value, |frame|)];
      }
      return frame;
    }

    /** The session is closed: the writer leaves its loop. */
    method StopWriting()
      requires Valid()
      modifies this
      ensures Valid() && link == Step(old(link), Stop)
      ensures !writing && writeCh == old(writeCh) && link.wire == old(link).wire
    {
      writing := false;
      link := Step(link, Stop);
    }
  }
}
