/** Model of the frame loop of `get_spectrograms_sequence` (fnctions.py:19-28).
    The per-frame spectrogram (STFT, magnitude, channel axis) is a parameter
    `transform`; what is modelled is the order-preserving walk over the frames
    that collects one spectrogram per frame. */
module SpectrogramSequencer {
  import opened FrameSegmenter

  /** Specification of the loop: `transform` applied to each frame, in order. */
  function MapFrames<S>(frames: seq<Frame>, transform: Frame -> S): (specs: seq<S>)
    ensures |specs| == |frames|
  {
    if frames == [] then [] else [transform(frames[0])] + MapFrames(frames[1..], transform)
  }

  /** Entry `i` is the transform of frame `i`. */
  lemma {:induction false} MapFramesAt<S>(frames: seq<Frame>, transform: Frame -> S, i: nat)
    requires i < |frames|
    ensures MapFrames(frames, transform)[i] == transform(frames[i])
  {
    if i > 0 {
      MapFramesAt(frames[1..], transform, i - 1);
    }
  }

  /** Mapping distributes over concatenation of frame sequences, so the output
      keeps the frames' order. */
  lemma {:induction false} MapFramesAppend<S>(a: seq<Frame>, b: seq<Frame>, transform: Frame -> S)
    ensures MapFrames(a + b, transform) == MapFrames(a, transform) + MapFrames(b, transform)
  {
    if a != [] {
      MapFramesAppend(a[1..], b, transform);
      assert (a + b)[1..] == a[1..] + b;
    } else {
      assert a + b == b;
    }
  }

  /** No mixing across frames: two frame sequences that agree at position `i`
      give the same entry `i`, whatever their other frames are. */
  lemma MapFramesLocal<S>(a: seq<Frame>, b: seq<Frame>, transform: Frame -> S, i: nat)
    requires i < |a| && i < |b|
    requires a[i] == b[i]
    ensures MapFrames(a, transform)[i] == MapFrames(b, transform)[i]
  {
    MapFramesAt(a, transform, i);
    MapFramesAt(b, transform, i);
  }

  /** The `for frame in wav_seq` loop appending to `seq_of_specs`. */
  method SpectrogramsOfFrames<S>(frames: seq<Frame>, transform: Frame -> S) returns (specs: seq<S>)
    ensures specs == MapFrames(frames, transform)
  {
    specs := [];
    var i := 0;
    while i < |frames|
      invariant 0 <= i <= |frames|
      invariant specs == MapFrames(frames[..i], transform)
    {
      MapFramesAppend(frames[..i], [frames[i]], transform);
      assert frames[..i + 1] == frames[..i] + [frames[i]];
      specs := specs + [transform(frames[i])];
      i := i + 1;
    }
    assert frames[..i] == frames;
  }

  /** The whole pipeline from a decoded waveform: one spectrogram per
      one-second frame, ceil(|waveform| / 16000) of them, entry `i` computed
      from frame `i` of the segmenter's output alone. */
  method GetSpectrogramsSequence<S>(waveform: seq<Sample>, transform: Frame -> S) returns (specs: seq<S>)
    ensures |specs| == (|waveform| + FrameLength - 1) / FrameLength
    ensures forall i :: 0 <= i < |specs| ==> specs[i] == transform(SliceAudio(waveform)[i])
  {
    var frames := SliceAudio(waveform);
    specs := SpectrogramsOfFrames(frames, transform);
    forall i | 0 <= i < |specs|
      ensures specs[i] == transform(frames[i])
    {
      MapFramesAt(frames, transform, i);
    }
  }
}
