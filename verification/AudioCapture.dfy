/**
 Microphone framing (src/renderer/workers/audio-processor.worklet.ts, and its inline copy in
 src/renderer/hooks/use-voice-audio.ts): blocks of any length are cut into frames of 960 samples.
 */
module AudioCapture {
  import opened Sequences

  const FRAME_SIZE := 960

  /** `frames` and then `rest` are all the samples, in frames of full size and less than a frame over. */
  ghost predicate Framed(samples: seq<real>, frames: seq<seq<real>>, rest: seq<real>) {
    && (forall f <- frames :: |f| == FRAME_SIZE)
    && |rest| < FRAME_SIZE
    && Flatten(frames) + rest == samples
  }

  lemma {:induction false} FullFrames(frames: seq<seq<real>>)
    requires forall f <- frames :: |f| == FRAME_SIZE
    ensures |Flatten(frames)| == FRAME_SIZE * |frames|
  {
    if frames != [] {
      FullFrames(frames[..|frames| - 1]);
    }
  }

  lemma {:induction false} FrameHolds(frames: seq<seq<real>>, k: nat)
    requires k < |frames| && forall f <- frames :: |f| == FRAME_SIZE
    ensures FRAME_SIZE * (k + 1) <= |Flatten(frames)|
    ensures frames[k] == Flatten(frames)[FRAME_SIZE * k..FRAME_SIZE * (k + 1)]
  {
    var front := frames[..|frames| - 1];
    FullFrames(frames);
    FullFrames(front);
    if k < |front| {
      FrameHolds(front, k);
    }
  }

  /** Frame `k` holds exactly the samples `960 k` to `960 k + 959`, and nothing is kept back longer than needed. */
  lemma FramesByPosition(samples: seq<real>, frames: seq<seq<real>>, rest: seq<real>)
    requires Framed(samples, frames, rest)
    ensures |frames| == |samples| / FRAME_SIZE && |rest| == |samples| % FRAME_SIZE
    ensures forall k :: 0 <= k < |frames| ==> frames[k] == samples[FRAME_SIZE * k..FRAME_SIZE * (k + 1)]
  {
    FullFrames(frames);
    forall k | 0 <= k < |frames|
      ensures frames[k] == samples[FRAME_SIZE * k..FRAME_SIZE * (k + 1)]
    {
      FrameHolds(frames, k);
    }
  }

  /** The frames depend on the samples alone, not on the blocks they came in. */
  lemma FramingIsUnique(samples: seq<real>, frames: seq<seq<real>>, rest: seq<real>, frames': seq<seq<real>>,
                        rest': seq<real>)
    requires Framed(samples, frames, rest) && Framed(samples, frames', rest')
    ensures frames == frames' && rest == rest'
  {
    FramesByPosition(samples, frames, rest);
    FramesByPosition(samples, frames', rest');
    assert rest == samples[|samples| - |rest|..] && rest' == samples[|samples| - |rest'|..];
  }

  lemma TakeGrows<T>(before: seq<T>, s: seq<T>, i: nat, j: nat)
    requires i <= j <= |s|
    ensures before + s[..i] + s[i..j] == before + s[..j]
  {
  }

  class AudioCaptureProcessor {
    const buffer: array<real>
    var writePos: nat
    /** The frames posted to the main thread. */
    var posted: seq<seq<real>>
    ghost var heard: seq<real>

    ghost predicate Valid()
      reads this, buffer
    {
      buffer.Length == FRAME_SIZE && writePos < FRAME_SIZE && Framed(heard, posted, buffer[..writePos])
    }

    constructor ()
      ensures Valid() && fresh(buffer) && heard == [] && posted == []
    {
      buffer := new real[FRAME_SIZE];
      writePos, posted, heard := 0, [], [];
    }

    method Process(inputs: seq<seq<seq<real>>>)
      requires Valid()
      modifies this, buffer
      ensures Valid()
      ensures heard == old(heard) + if inputs != [] && inputs[0] != [] then inputs[0][0] else []
      ensures old(posted) <= posted
    {
      if inputs == [] || inputs[0] == [] {
        return;
      }
      var channelData := inputs[0][0];
      var readPos := 0;
      while readPos < |channelData|
        invariant readPos <= |channelData|
        invariant Valid() && heard == old(heard) + channelData[..readPos]
        invariant old(posted) <= posted
      {
        var next := Copy(channelData, readPos);
        PostIfFull();
        TakeGrows(old(heard), channelData, readPos, next);
        readPos := next;
      }
      assert channelData[..|channelData|] == channelData;
    }

    /** Posts a copy of the buffer once it is full and starts over. */
    method PostIfFull()
      requires buffer.Length == FRAME_SIZE && writePos <= FRAME_SIZE
      requires (forall f <- posted :: |f| == FRAME_SIZE) && Flatten(posted) + buffer[..writePos] == heard
      modifies this`posted, this`writePos
      ensures Valid() && posted == old(posted) + if old(writePos) == FRAME_SIZE then [buffer[..]] else []
    {
      if writePos >= FRAME_SIZE {
        FlattenAppend(posted, buffer[..]);
        posted := posted + [buffer[..]];
        writePos := 0;
        assert buffer[..0] == [];
      }
    }

    /** Fills the frame buffer as far as the block reaches. */
    method Copy(channelData: seq<real>, readPos: nat) returns (next: nat)
      requires Valid() && readPos < |channelData|
      modifies this`writePos, this`heard, buffer
      ensures readPos < next <= |channelData| && writePos <= FRAME_SIZE
      ensures buffer[..writePos] == old(buffer[..writePos]) + channelData[readPos..next]
      ensures heard == old(heard) + channelData[readPos..next]
      ensures Flatten(posted) + buffer[..writePos] == heard
    {
      var remaining := FRAME_SIZE - writePos;
      var available := |channelData| - readPos;
      var toCopy := if remaining < available then remaining else available;
      forall k | 0 <= k < toCopy {
        buffer[writePos + k] := channelData[readPos + k];
      }
      next := readPos + toCopy;
      assert buffer[..writePos + toCopy] == old(buffer[..writePos]) + channelData[readPos..next];
      writePos := writePos + toCopy;
      heard := heard + channelData[readPos..next];
    }
  }
}
