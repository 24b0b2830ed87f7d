/**
 The receiving side of a video call (src/renderer/hooks/use-video.ts): which chunks reach the decoder, how
 frames are counted and time-stamped, and what recovery after a decoder error really achieves.
 */
module VideoGate {
  import opened Wrappers

  const FRAME_DURATION_US := 66667
  const KEYFRAME_INTERVAL_FRAMES := 15

  /** What happened to the decoder; `place` counts the frames received before this one. */
  datatype Entry = Created | Reset | Chunk(isKey: bool, place: nat, timestamp: nat)

  /** What is handed to the decoder, the data aside. */
  datatype VideoChunk = VideoChunk(isKey: bool, timestamp: nat)

  /** The outcome of `reset()` followed by `configure()`, either of which may throw. */
  datatype Repair = Repaired | OnlyReset | NotReset

  /** `decodeOk`, `createOk`: the call did not throw. A failed decode or creation is followed by a repair. */
  datatype Response = Response(decodeOk: bool, createOk: bool, repair: Repair)

  /** The decoder and the two gates in front of it. */
  datatype Status = Status(hasReceivedKeyframe: bool, recovering: bool, configured: bool)

  datatype Tally = Tally(received: nat, decoded: nat, dropped: nat, timestamp: nat)

  datatype Gate = Gate(status: Status, tally: Tally, log: seq<Entry>)

  datatype Event = Frame(isKey: bool, response: Response) | DecoderError(stale: bool, repair: Repair)

  predicate IsOpened(g: Gate) {
    g.status == Status(false, false, true) && g.tally == Tally(0, 0, 0, 0) && g.log == []
  }

  /** VP8: bit 0 of the first byte is 0 for a key frame. */
  predicate IsKeyFrame(bytes: seq<int>) {
    |bytes| > 0 && bytes[0] % 2 == 0
  }

  /** A delta frame passes only after a key frame and outside recovery. */
  predicate Passes(s: Status, isKey: bool) {
    isKey || (s.hasReceivedKeyframe && !s.recovering)
  }

  predicate IsDecoded(s: Status, isKey: bool, response: Response) {
    Passes(s, isKey) && s.configured && response.decodeOk
  }

  predicate IsCreated(s: Status, isKey: bool, response: Response) {
    Passes(s, isKey) && !s.configured && response.createOk
  }

  function StatusAfterRepair(s: Status, repair: Repair): Status {
    Status(false, repair != Repaired, repair == Repaired || (repair == NotReset && s.configured))
  }

  function LogAfterRepair(log: seq<Entry>, repair: Repair): seq<Entry> {
    if repair == NotReset then log else log + [Reset]
  }

  function NextStatus(s: Status, isKey: bool, response: Response): Status {
    if !Passes(s, isKey) then s
    else if IsDecoded(s, isKey, response) then s.(hasReceivedKeyframe := true)
    else if IsCreated(s, isKey, response) then Status(false, s.recovering, true)
    else StatusAfterRepair(s, response.repair)
  }

  function NextLog(g: Gate, isKey: bool, response: Response): seq<Entry> {
    if !Passes(g.status, isKey) then g.log
    else if IsDecoded(g.status, isKey, response) then g.log + [Chunk(isKey, g.tally.received, g.tally.timestamp)]
    else if IsCreated(g.status, isKey, response) then g.log + [Created]
    else LogAfterRepair(g.log, response.repair)
  }

  function Tallied(t: Tally, decoded: bool): Tally {
    Tally(t.received + 1, t.decoded + if decoded then 1 else 0, t.dropped + if decoded then 0 else 1,
          t.timestamp + FRAME_DURATION_US)
  }

  function Step(g: Gate, e: Event): Gate {
    match e
    case Frame(isKey, response) =>
      Gate(NextStatus(g.status, isKey, response), Tallied(g.tally, IsDecoded(g.status, isKey, response)),
           NextLog(g, isKey, response))
    case DecoderError(stale, repair) =>
      // an error closes the decoder it comes from; the repair of a replaced one does not touch the current one
      if stale then Gate(Status(false, repair != Repaired, g.status.configured), g.tally, g.log)
      else Gate(StatusAfterRepair(g.status.(configured := false), repair), g.tally, LogAfterRepair(g.log, repair))
  }

  function Run(g: Gate, events: seq<Event>): Gate
    decreases |events|
  {
    if events == [] then g else Run(Step(g, events[0]), events[1..])
  }

  // --- Safety ---

  /** The last thing that happened to the decoder is a chunk: it was not created or reset since. */
  predicate Running(log: seq<Entry>) {
    log != [] && log[|log| - 1].Chunk?
  }

  /** The time stamp of the frame at this place, counted up frame by frame. */
  function TimeOf(place: nat): nat {
    if place == 0 then 0 else TimeOf(place - 1) + FRAME_DURATION_US
  }

  lemma {:induction false} TimeOfIsProduct(place: nat)
    ensures TimeOf(place) == place * FRAME_DURATION_US
  {
    if place > 0 {
      TimeOfIsProduct(place - 1);
    }
  }

  /** Chunks come in the order and at the times of their frames, and a delta chunk comes right after a chunk. */
  predicate Sound(log: seq<Entry>, limit: nat) {
    log == [] || (
      var front, last := log[..|log| - 1], log[|log| - 1];
      if !last.Chunk? then Sound(front, limit) else
        && last.place < limit
        && last.timestamp == TimeOf(last.place)
        && (last.isKey || Running(front))
        && Sound(front, last.place))
  }

  lemma {:induction false} SoundLonger(log: seq<Entry>, limit: nat, more: nat)
    requires Sound(log, limit) && limit <= more
    ensures Sound(log, more)
  {
    if log != [] && !log[|log| - 1].Chunk? {
      SoundLonger(log[..|log| - 1], limit, more);
    }
  }

  predicate Counted(t: Tally) {
    t.decoded + t.dropped == t.received && t.timestamp == TimeOf(t.received)
  }

  ghost predicate Consistent(g: Gate) {
    && Counted(g.tally)
    && Sound(g.log, g.tally.received)
    && (g.status.hasReceivedKeyframe ==> Running(g.log))
  }

  lemma SoundAppend(log: seq<Entry>, entry: Entry, limit: nat)
    requires Sound(log, limit)
    requires entry.Chunk? ==> entry.place == limit && entry.timestamp == TimeOf(limit) && (entry.isKey || Running(log))
    ensures Sound(log + [entry], limit + 1) && (!entry.Chunk? ==> Sound(log + [entry], limit))
  {
    assert (log + [entry])[..|log|] == log;
    if !entry.Chunk? {
      SoundLonger(log, limit, limit + 1);
    }
  }

  lemma RepairKeepsSound(log: seq<Entry>, repair: Repair, limit: nat)
    requires Sound(log, limit)
    ensures Sound(LogAfterRepair(log, repair), limit)
  {
  }

  lemma LogStaysSound(g: Gate, isKey: bool, response: Response)
    requires Consistent(g)
    ensures Sound(NextLog(g, isKey, response), g.tally.received + 1)
  {
    var limit := g.tally.received;
    SoundLonger(g.log, limit, limit + 1);
    if IsDecoded(g.status, isKey, response) {
      SoundAppend(g.log, Chunk(isKey, limit, g.tally.timestamp), limit);
    } else if IsCreated(g.status, isKey, response) {
      SoundAppend(g.log, Created, limit);
    } else {
      RepairKeepsSound(g.log, response.repair, limit + 1);
    }
  }

  lemma StepKeepsConsistent(g: Gate, e: Event)
    requires Consistent(g)
    ensures Consistent(Step(g, e))
  {
    match e
    case Frame(isKey, response) => LogStaysSound(g, isKey, response);
    case DecoderError(_, repair) => RepairKeepsSound(g.log, repair, g.tally.received);
  }

  lemma {:induction false} RunKeepsConsistent(g: Gate, events: seq<Event>)
    requires Consistent(g)
    ensures Consistent(Run(g, events))
    decreases |events|
  {
    if events != [] {
      StepKeepsConsistent(g, events[0]);
      RunKeepsConsistent(Step(g, events[0]), events[1..]);
    }
  }

  lemma {:induction false} ChunkInSoundLog(log: seq<Entry>, limit: nat, i: nat)
    requires Sound(log, limit) && i < |log| && log[i].Chunk?
    ensures log[i].place < limit && log[i].timestamp == TimeOf(log[i].place)
    ensures log[i].isKey || Running(log[..i])
    ensures Sound(log[..i], log[i].place)
  {
    var front, last := log[..|log| - 1], log[|log| - 1];
    if i < |front| {
      ChunkInSoundLog(front, if last.Chunk? then last.place else limit, i);
      assert front[..i] == log[..i];
    }
  }

  lemma {:induction false} KeyBefore(log: seq<Entry>, limit: nat, i: nat) returns (key: nat)
    requires Sound(log, limit) && i < |log| && log[i].Chunk?
    ensures key <= i && log[key].Chunk? && log[key].isKey && forall j :: key <= j <= i ==> log[j].Chunk?
    decreases i
  {
    ChunkInSoundLog(log, limit, i);
    if log[i].isKey {
      key := i;
    } else {
      key := KeyBefore(log, limit, i - 1);
    }
  }

  /**
   Over every run of frames, decoder errors, throwing decoders and re-creations: a delta chunk given to the
   decoder follows a key chunk given since the last creation or reset.
   */
  lemma DeltaFollowsKey(start: Gate, events: seq<Event>, i: nat) returns (key: nat)
    requires IsOpened(start) && i < |Run(start, events).log|
    requires Run(start, events).log[i].Chunk? && !Run(start, events).log[i].isKey
    ensures var log := Run(start, events).log;
            key < i && log[key].Chunk? && log[key].isKey && forall j :: key <= j < i ==> log[j].Chunk?
  {
    RunKeepsConsistent(start, events);
    key := KeyBefore(Run(start, events).log, Run(start, events).tally.received, i);
  }

  /** Over every run each frame received was decoded or dropped, and time is counted for all of them. */
  lemma FramesAccountedFor(start: Gate, events: seq<Event>)
    requires IsOpened(start)
    ensures var t := Run(start, events).tally;
            && t.decoded + t.dropped == t.received
            && t.timestamp == t.received * FRAME_DURATION_US
            && t.received == FramesIn(events) && t.decoded == ChunksIn(Run(start, events).log)
  {
    RunKeepsConsistent(start, events);
    DecodedAreChunks(start, events);
    TimeOfIsProduct(Run(start, events).tally.received);
    AllFramesReceived(start, events);
  }

  function FramesIn(events: seq<Event>): nat {
    if events == [] then 0 else (if events[0].Frame? then 1 else 0) + FramesIn(events[1..])
  }

  function ChunksIn(log: seq<Entry>): nat {
    if log == [] then 0 else ChunksIn(log[..|log| - 1]) + if log[|log| - 1].Chunk? then 1 else 0
  }

  lemma ChunksAppend(log: seq<Entry>, entry: Entry)
    ensures ChunksIn(log + [entry]) == ChunksIn(log) + if entry.Chunk? then 1 else 0
  {
  }

  lemma {:induction false} DecodedAreChunks(g: Gate, events: seq<Event>)
    requires g.tally.decoded == ChunksIn(g.log)
    ensures Run(g, events).tally.decoded == ChunksIn(Run(g, events).log)
    decreases |events|
  {
    if events != [] {
      ChunksAppend(g.log, Created);
      ChunksAppend(g.log, Reset);
      if events[0].Frame? {
        ChunksAppend(g.log, Chunk(events[0].isKey, g.tally.received, g.tally.timestamp));
      }
      DecodedAreChunks(Step(g, events[0]), events[1..]);
    }
  }

  lemma {:induction false} AllFramesReceived(g: Gate, events: seq<Event>)
    ensures Run(g, events).tally.received == g.tally.received + FramesIn(events)
    decreases |events|
  {
    if events != [] {
      AllFramesReceived(Step(g, events[0]), events[1..]);
    }
  }

  /** Every chunk given to the decoder carries its place among the frames received, times the frame duration. */
  lemma ChunkTimes(start: Gate, events: seq<Event>, i: nat)
    requires IsOpened(start) && i < |Run(start, events).log| && Run(start, events).log[i].Chunk?
    ensures var g := Run(start, events);
            g.log[i].place < g.tally.received && g.log[i].timestamp == g.log[i].place * FRAME_DURATION_US
  {
    RunKeepsConsistent(start, events);
    var g := Run(start, events);
    ChunkInSoundLog(g.log, g.tally.received, i);
    TimeOfIsProduct(g.log[i].place);
  }

  /** Chunks reach the decoder in the order in which their frames came, each at most once. */
  lemma ChunksInOrder(start: Gate, events: seq<Event>, i: nat, j: nat)
    requires IsOpened(start) && i < j < |Run(start, events).log|
    requires Run(start, events).log[i].Chunk? && Run(start, events).log[j].Chunk?
    ensures Run(start, events).log[i].place < Run(start, events).log[j].place
  {
    RunKeepsConsistent(start, events);
    var log := Run(start, events).log;
    ChunkInSoundLog(log, Run(start, events).tally.received, j);
    ChunkInSoundLog(log[..j], log[j].place, i);
  }

  // --- Recovery ---

  function DeltasDecoded(log: seq<Entry>): nat {
    if log == [] then 0 else
      var last := log[|log| - 1];
      DeltasDecoded(log[..|log| - 1]) + if last.Chunk? && !last.isKey then 1 else 0
  }

  lemma DeltasAppend(log: seq<Entry>, entry: Entry)
    ensures DeltasDecoded(log + [entry]) == DeltasDecoded(log) + if entry.Chunk? && !entry.isKey then 1 else 0
  {
  }

  predicate Repairs(e: Event) {
    (if e.Frame? then e.response.repair else e.repair) == Repaired
  }

  /**
   "Recovering" only ends with a reset that works. Until then, however many key frames arrive and whether or
   not a new decoder was created, every delta frame is dropped.
   */
  lemma {:induction false} StuckUntilReset(g: Gate, events: seq<Event>)
    requires g.status.recovering && forall e <- events :: !Repairs(e)
    ensures Run(g, events).status.recovering && DeltasDecoded(Run(g, events).log) == DeltasDecoded(g.log)
    decreases |events|
  {
    if events != [] {
      var e, next := events[0], Step(g, events[0]);
      assert e in events;
      DeltasAppend(g.log, Created);
      DeltasAppend(g.log, Reset);
      DeltasAppend(g.log, Chunk(true, g.tally.received, g.tally.timestamp));
      StuckUntilReset(next, events[1..]);
    }
  }

  const FINE := Response(true, true, NotReset)

  /**
   Recovery on the next key frame, as intended: after an error, a key frame and a delta frame that meet no
   further trouble, the delta frame is decoded if and only if the reset inside the error handler worked.
   */
  lemma RecoversOnNextKeyframeIff(g: Gate, repair: Repair)
    ensures var after := Run(g, [DecoderError(false, repair), Frame(true, FINE)]);
            DeltasDecoded(Step(after, Frame(false, FINE)).log) == DeltasDecoded(after.log) + 1 <==> repair == Repaired
  {
    var errored := Step(g, DecoderError(false, repair));
    var after := Step(errored, Frame(true, FINE));
    assert [DecoderError(false, repair), Frame(true, FINE)][1..] == [Frame(true, FINE)];
    assert Run(g, [DecoderError(false, repair), Frame(true, FINE)]) == Run(errored, [Frame(true, FINE)]);
    assert Run(errored, [Frame(true, FINE)]) == Run(after, []);
    DeltasAppend(after.log, Chunk(false, after.tally.received, after.tally.timestamp));
  }

  /** In good health nothing is dropped. */
  lemma {:induction false} HealthyRunDecodesAll(g: Gate, events: seq<Event>)
    requires g.status == Status(true, false, true)
    requires forall e <- events :: e.Frame? && e.response.decodeOk
    ensures Run(g, events).tally.decoded == g.tally.decoded + |events|
    ensures Run(g, events).tally.dropped == g.tally.dropped
    decreases |events|
  {
    if events != [] {
      assert events[0] in events;
      HealthyRunDecodesAll(Step(g, events[0]), events[1..]);
    }
  }

  class VideoReceiver {
    var hasReceivedKeyframe: bool
    var recovering: bool
    var configured: bool
    var recvDroppedTotal: nat
    var recvTimestamp: nat
    ghost var received: nat
    ghost var decoded: nat
    ghost var log: seq<Entry>

    ghost function View(): Gate
      reads this
    {
      Gate(Status(hasReceivedKeyframe, recovering, configured),
           Tally(received, decoded, recvDroppedTotal, recvTimestamp), log)
    }

    constructor ()
      ensures IsOpened(View())
    {
      hasReceivedKeyframe, recovering, configured, recvDroppedTotal, recvTimestamp := false, false, true, 0, 0;
      received, decoded, log := 0, 0, [];
    }

    /** `reset()` and `configure()` inside a try block, after the decoder was marked for recovery. */
    method TryRepair(repair: Repair)
      requires recovering && !hasReceivedKeyframe
      modifies this`recovering, this`configured, this`log
      ensures recovering == (repair != Repaired)
      ensures configured == (repair == Repaired || (repair == NotReset && old(configured)))
      ensures log == LogAfterRepair(old(log), repair)
    {
      if repair == NotReset {
        return;
      }
      log := log + [Reset];
      configured := repair == Repaired;
      if repair == Repaired {
        recovering := false;
      }
    }

    method OnVideoData(bytes: seq<int>, response: Response) returns (chunk: Option<VideoChunk>)
      modifies this
      ensures View() == Step(old(View()), Frame(IsKeyFrame(bytes), response))
      ensures var isKey := |bytes| > 0 && bytes[0] % 2 == 0;
              var passes := isKey || (old(hasReceivedKeyframe) && !old(recovering));
              && (chunk.Some? <==> passes && old(configured) && response.decodeOk)
              && (chunk.Some? ==>
                    && chunk.value == VideoChunk(isKey, old(recvTimestamp)) && hasReceivedKeyframe && configured
                    && log == old(log) + [Chunk(isKey, old(received), old(recvTimestamp))])
              && (!passes ==> log == old(log) && hasReceivedKeyframe == old(hasReceivedKeyframe) && configured == old(configured))
              && (passes && !old(configured) && response.createOk ==>
                    log == old(log) + [Created] && configured && !hasReceivedKeyframe)
              && (passes && chunk.None? && (old(configured) || !response.createOk) ==>
                    && !hasReceivedKeyframe && (recovering <==> response.repair != Repaired)
                    && log == old(log) + if response.repair == NotReset then [] else [Reset])
              && (chunk.Some? || !passes || (!old(configured) && response.createOk) ==> recovering == old(recovering))
      ensures recvDroppedTotal == old(recvDroppedTotal) + (if chunk.Some? then 0 else 1)
      ensures recvTimestamp == old(recvTimestamp) + 66667
      ensures chunk == if decoded == old(decoded) + 1 then Some(VideoChunk(IsKeyFrame(bytes), old(recvTimestamp))) else None
    {
      var isKey := IsKeyFrame(bytes);
      if !hasReceivedKeyframe {
        if isKey {
          hasReceivedKeyframe := true;
        } else {
          CountDropped();
          return None;
        }
      }
      if recovering && !isKey {
        CountDropped();
        return None;
      }
      chunk := Decode(VideoChunk(isKey, recvTimestamp), response);
      recvTimestamp := recvTimestamp + FRAME_DURATION_US;
    }

    method CountDropped()
      modifies this`received, this`recvDroppedTotal, this`recvTimestamp
      ensures Tally(received, decoded, recvDroppedTotal, recvTimestamp)
              == Tallied(old(Tally(received, decoded, recvDroppedTotal, recvTimestamp)), false)
    {
      received := received + 1;
      recvDroppedTotal := recvDroppedTotal + 1;
      recvTimestamp := recvTimestamp + FRAME_DURATION_US;
    }

    /** The try block around `decode`, with the catch that marks the decoder for recovery. */
    method Decode(offered: VideoChunk, response: Response) returns (chunk: Option<VideoChunk>)
      requires offered.timestamp == recvTimestamp && hasReceivedKeyframe
      requires Passes(Status(hasReceivedKeyframe, recovering, configured), offered.isKey)
      modifies this`hasReceivedKeyframe, this`recovering, this`configured
      modifies this`received, this`decoded, this`recvDroppedTotal, this`log
      ensures View().status == NextStatus(old(View().status), offered.isKey, response)
      ensures View().log == NextLog(old(View()), offered.isKey, response)
      ensures var ok := IsDecoded(old(View().status), offered.isKey, response);
              && View().tally == Tallied(old(View().tally), ok).(timestamp := recvTimestamp)
              && chunk == if ok then Some(offered) else None
    {
      ghost var place := received;
      received := received + 1;
      if configured && response.decodeOk {
        decoded, log := decoded + 1, log + [Chunk(offered.isKey, place, offered.timestamp)];
        return Some(offered);
      }
      recvDroppedTotal := recvDroppedTotal + 1;
      hasReceivedKeyframe := false;
      if !configured && response.createOk {
        log, configured := log + [Created], true;
        return None;
      }
      recovering := true;
      TryRepair(response.repair);
      return None;
    }

    /** The decoder's error callback; `stale` marks a decoder that has been replaced since. */
    method OnDecoderError(stale: bool, repair: Repair)
      modifies this
      ensures View() == Step(old(View()), DecoderError(stale, repair))
      ensures !hasReceivedKeyframe && (recovering <==> repair != Repaired)
      ensures configured <==> if stale then old(configured) else repair == Repaired
      ensures log == old(log) + if stale || repair == NotReset then [] else [Reset]
      ensures recvDroppedTotal == old(recvDroppedTotal) && recvTimestamp == old(recvTimestamp)
    {
      recovering, hasReceivedKeyframe := true, false;
      if stale {
        recovering := repair != Repaired;
      } else {
        configured := false;
        TryRepair(repair);
      }
    }
  }

  // --- The sending side ---

  /** One captured frame: was the encoder behind, and did `encode` accept the frame? */
  datatype Capture = Capture(backlogged: bool, encodeOk: bool)

  function Encoded(captures: seq<Capture>): nat {
    if captures == [] then 0 else
      Encoded(captures[..|captures| - 1]) + if captures[|captures| - 1].backlogged then 0 else 1
  }

  /** The capture loop: the frames handed to the encoder are key frames at 1, 16, 31 and so on. */
  method ReadFrames(captures: seq<Capture>) returns (requests: seq<bool>, sendDroppedTotal: nat)
    ensures |requests| == Encoded(captures)
    ensures forall i :: 0 <= i < |requests| ==> (requests[i] <==> i % 15 == 0)
    ensures (forall c <- captures :: c.backlogged) ==> requests == []
    ensures (forall c <- captures :: !c.backlogged) ==> |requests| == |captures|
    ensures |captures| - |requests| <= sendDroppedTotal <= |captures|
    ensures (forall c <- captures :: c.encodeOk) ==> |requests| + sendDroppedTotal == |captures|
  {
    var frameCount := 0;
    requests, sendDroppedTotal := [], 0;
    for n := 0 to |captures|
      invariant |requests| == frameCount == Encoded(captures[..n])
      invariant forall i :: 0 <= i < |requests| ==> (requests[i] <==> i % 15 == 0)
      invariant n - frameCount <= sendDroppedTotal <= n
      invariant (forall c <- captures :: c.backlogged) ==> frameCount == 0
      invariant (forall c <- captures :: !c.backlogged) ==> frameCount == n
      invariant (forall c <- captures :: c.encodeOk) ==> frameCount + sendDroppedTotal == n
    {
      assert captures[..n + 1][..n] == captures[..n];
      if captures[n].backlogged {
        sendDroppedTotal := sendDroppedTotal + 1;
      } else {
        frameCount := frameCount + 1;
        requests := requests + [frameCount % KEYFRAME_INTERVAL_FRAMES == 1];
        if !captures[n].encodeOk {
          sendDroppedTotal := sendDroppedTotal + 1;
        }
      }
    }
    assert captures[..|captures|] == captures;
  }
}
