/**
 Playback of received audio (drainBuffer and playAudioFrame in src/renderer/hooks/use-voice-audio.ts):
 frames wait until 60 ms are buffered and are then scheduled one after another on the audio clock.
 Times are real numbers, in seconds.
 */
module JitterPlayback {

  const FRAME_DURATION := 0.02
  const JITTER_BUFFER_MS := 60.0
  const LOOKAHEAD := 0.005

  // --- When frames start ---

  /** The start of a frame that should begin at `next` when the clock shows `now`. */
  function StartAt(next: real, now: real): real {
    if next < now then now + LOOKAHEAD else next
  }

  /** The next play time after frames were scheduled at these clock readings. */
  function NextPlayTime(nows: seq<real>): real {
    if nows == [] then 0.0 else
      StartAt(NextPlayTime(nows[..|nows| - 1]), nows[|nows| - 1]) + FRAME_DURATION
  }

  /** The start time of each frame, given the clock reading at which it was scheduled. */
  function Starts(nows: seq<real>): (starts: seq<real>)
    ensures |starts| == |nows|
  {
    if nows == [] then [] else
      var front := nows[..|nows| - 1];
      Starts(front) + [StartAt(NextPlayTime(front), nows[|nows| - 1])]
  }

  lemma {:induction false} StartsAt(nows: seq<real>, i: nat)
    requires i < |nows|
    ensures Starts(nows)[i] == StartAt(NextPlayTime(nows[..i]), nows[i])
    ensures NextPlayTime(nows[..i + 1]) == Starts(nows)[i] + FRAME_DURATION
  {
    var front := nows[..|nows| - 1];
    if i < |front| {
      StartsAt(front, i);
      assert front[..i] == nows[..i] && front[..i + 1] == nows[..i + 1];
    } else {
      assert nows[..i + 1] == nows;
    }
  }

  /** Whatever the clock does, no frame starts in the past and frames never overlap. */
  lemma {:induction false} StartsAreSpaced(nows: seq<real>, i: nat, j: nat)
    requires i <= j < |nows|
    ensures nows[j] <= Starts(nows)[j]
    ensures Starts(nows)[i] + FRAME_DURATION * (j - i) as real <= Starts(nows)[j]
  {
    StartsAt(nows, j);
    if i < j {
      StartsAreSpaced(nows, i, j - 1);
      StartsAt(nows, j - 1);
      assert FRAME_DURATION * (j - i) as real == FRAME_DURATION * (j - 1 - i) as real + FRAME_DURATION;
    }
  }

  /** On a clock that does not run backwards no frame waits longer than all the frames before it take. */
  lemma {:induction false} WaitIsBounded(nows: seq<real>, i: nat)
    requires i < |nows| && nows[0] >= 0.0
    requires forall k :: 0 < k < |nows| ==> nows[k - 1] <= nows[k]
    ensures Starts(nows)[i] <= nows[i] + LOOKAHEAD + FRAME_DURATION * i as real
  {
    StartsAt(nows, i);
    if i > 0 {
      WaitIsBounded(nows, i - 1);
      StartsAt(nows, i - 1);
      assert FRAME_DURATION * i as real == FRAME_DURATION * (i - 1) as real + FRAME_DURATION;
    } else {
      assert nows[..0] == [];
    }
  }

  /** The time at which frame `i` starts when playback never pauses. */
  function Seamless(nows: seq<real>, i: nat): real
    requires nows != []
  {
    Starts(nows)[0] + FRAME_DURATION * i as real
  }

  /** Playback is gapless if and only if every frame was scheduled no later than its seamless start. */
  lemma {:induction false} GaplessIff(nows: seq<real>, n: nat)
    requires 0 < n <= |nows|
    ensures (forall i :: 0 <= i < n ==> Starts(nows)[i] == Seamless(nows, i))
            <==> (forall i :: 0 < i < n ==> nows[i] <= Seamless(nows, i))
  {
    if n > 1 {
      var i := n - 1;
      GaplessIff(nows, i);
      StartsAt(nows, i);
      StartsAt(nows, i - 1);
      assert FRAME_DURATION * i as real == FRAME_DURATION * (i - 1) as real + FRAME_DURATION;
    }
  }

  // --- The player ---

  /** Enough is buffered: frames times 20 ms reach 60 ms. */
  predicate Enough(frames: nat) {
    frames as real * FRAME_DURATION * 1000.0 >= JITTER_BUFFER_MS
  }

  lemma EnoughMeansThree(frames: nat)
    ensures Enough(frames) <==> frames >= 3
  {
  }

  class Player<Pcm> {
    var nextPlayTime: real
    var queue: seq<Pcm>
    var buffering: bool
    /** The frames handed to the audio context, with their start times. */
    var started: seq<Pcm>
    var startTimes: seq<real>
    ghost var accepted: seq<Pcm>
    ghost var nows: seq<real>

    ghost predicate Valid()
      reads this
    {
      && started + queue == accepted
      && |started| == |nows|
      && startTimes == Starts(nows)
      && nextPlayTime == NextPlayTime(nows)
      && (if buffering then started == [] && !Enough(|queue|) else queue == [])
    }

    constructor ()
      ensures Valid() && accepted == [] && buffering
    {
      nextPlayTime, queue, buffering := 0.0, [], true;
      started, startTimes, accepted, nows := [], [], [], [];
      new;
      EnoughMeansThree(0);
    }

    /** `clock` holds what the audio clock shows each time it is read; `usable` is false without an open context. */
    method DrainBuffer(usable: bool, clock: seq<real>)
      requires usable ==> |queue| <= |clock|
      requires started + queue == accepted && |started| == |nows|
      requires startTimes == Starts(nows) && nextPlayTime == NextPlayTime(nows)
      requires !buffering && (usable || queue == [])
      modifies this`nextPlayTime, this`queue, this`started, this`startTimes, this`nows
      ensures Valid()
      ensures nows == old(nows) + if usable then clock[..old(|queue|)] else []
      ensures started == old(started) + if usable then old(queue) else []
    {
      if !usable {
        return;
      }
      var i := 0;
      while queue != []
        invariant i + |queue| == old(|queue|)
        invariant started + queue == accepted && |started| == |nows|
        invariant startTimes == Starts(nows) && nextPlayTime == NextPlayTime(nows)
        invariant nows == old(nows) + clock[..i]
        decreases |queue|
      {
        Schedule(clock[i]);
        i := i + 1;
      }
      assert started == accepted;
    }

    method Schedule(now: real)
      requires queue != []
      requires started + queue == accepted && |started| == |nows|
      requires startTimes == Starts(nows) && nextPlayTime == NextPlayTime(nows)
      modifies this`nextPlayTime, this`queue, this`started, this`startTimes, this`nows
      ensures started + queue == accepted && |started| == |nows|
      ensures startTimes == Starts(nows) && nextPlayTime == NextPlayTime(nows)
      ensures nows == old(nows) + [now] && old(queue) == [old(queue)[0]] + queue
      ensures started == old(started) + [old(queue)[0]]
      ensures var start := if old(nextPlayTime) < now then now + 0.005 else old(nextPlayTime);
              startTimes == old(startTimes) + [start] && nextPlayTime == start + 0.02
    {
      var pcmData := queue[0];
      queue := queue[1..];
      if nextPlayTime < now {
        nextPlayTime := now + LOOKAHEAD;
      }
      started, startTimes := started + [pcmData], startTimes + [nextPlayTime];
      nextPlayTime := nextPlayTime + FRAME_DURATION;
      nows := nows + [now];
      assert nows[..|nows| - 1] == old(nows);
    }

    /** A decoded frame: dropped without an open context, otherwise queued and, once enough is there, played. */
    method PlayAudioFrame(pcmData: Pcm, usable: bool, clock: seq<real>)
      requires Valid() && |queue| < |clock|
      modifies this
      ensures Valid()
      ensures accepted == old(accepted) + if usable then [pcmData] else []
      ensures started == if usable && (!old(buffering) || |old(queue)| >= 2) then accepted else old(started)
      ensures old(nows) <= nows && forall i :: old(|nows|) <= i < |nows| ==> nows[i] == clock[i - old(|nows|)]
    {
      if !usable {
        return;
      }
      EnoughMeansThree(|queue|);
      queue := queue + [pcmData];
      accepted := accepted + [pcmData];
      EnoughMeansThree(|queue|);
      if buffering {
        if Enough(|queue|) {
          buffering := false;
          DrainBuffer(usable, clock);
        }
      } else {
        DrainBuffer(usable, clock);
      }
    }
  }
}
