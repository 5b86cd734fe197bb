/** Model of `slice_audio_to_time_series` (fnctions.py:11-16): a mono waveform is
    zero-padded at its tail up to a whole number of seconds and then cut into
    consecutive, non-overlapping frames of one second (16000 samples) each. */
module FrameSegmenter {

  /** Samples per frame: one second of audio at 16 kHz. */
  const FrameLength: nat := 16000

  /** A decoded sample. The segmenter only moves samples around and inserts
      zeros; it never computes with them. */
  type Sample = real

  type Frame = seq<Sample>

  /** `n` zero samples, the `tf.zeros` tail of the padding. */
  function Zeros(n: nat): (z: seq<Sample>)
    ensures |z| == n
  {
    seq(n, _ => 0.0)
  }

  ghost predicate AllZero(s: seq<Sample>)
  {
    forall i :: 0 <= i < |s| ==> s[i] == 0.0
  }

  /** Every frame holds exactly one second of samples. */
  ghost predicate WellFramed(fs: seq<Frame>)
  {
    forall k :: 0 <= k < |fs| ==> |fs[k]| == FrameLength
  }

  /** How many zeros are appended to a waveform of `n` samples: the least count
      that brings the length to a whole number of frames. It is zero exactly
      when `n` is already a multiple of the frame length. */
  function PadCount(n: nat): (k: nat)
    ensures (n + k) % FrameLength == 0
    ensures k < FrameLength
    ensures k == 0 <==> n % FrameLength == 0
  {
    if n % FrameLength != 0 then FrameLength - n % FrameLength else 0
  }

  /** The padding step: the waveform, then `PadCount` zeros. */
  function Pad(w: seq<Sample>): (p: seq<Sample>)
    ensures |p| == |w| + PadCount(|w|)
    ensures |p| % FrameLength == 0
    ensures p[..|w|] == w
    ensures AllZero(p[|w|..])
  {
    if |w| % FrameLength != 0 then w + Zeros(FrameLength - |w| % FrameLength) else w
  }

  /** The reshape into rows of `FrameLength` samples, in order. */
  function Reshape(p: seq<Sample>): (fs: seq<Frame>)
    requires |p| % FrameLength == 0
    ensures |fs| == |p| / FrameLength
    ensures WellFramed(fs)
    decreases |p|
  {
    if |p| == 0 then [] else [p[..FrameLength]] + Reshape(p[FrameLength..])
  }

  /** Concatenation of the frames back into one sample sequence. */
  function Flatten(fs: seq<Frame>): (s: seq<Sample>)
  {
    if fs == [] then [] else fs[0] + Flatten(fs[1..])
  }

  /** The segmenter itself. It yields ceil(|w| / 16000) frames of 16000 samples,
      and none for an empty waveform. */
  function SliceAudio(w: seq<Sample>): (fs: seq<Frame>)
    ensures |fs| == (|w| + FrameLength - 1) / FrameLength
    ensures WellFramed(fs)
    ensures |w| == 0 ==> fs == []
  {
    Reshape(Pad(w))
  }

  /** Flattening well-formed frames gives `FrameLength` samples per frame. */
  lemma {:induction false} FlattenLength(fs: seq<Frame>)
    requires WellFramed(fs)
    ensures |Flatten(fs)| == |fs| * FrameLength
  {
    if fs != [] {
      FlattenLength(fs[1..]);
    }
  }

  /** Reshaping and flattening again loses and adds nothing. */
  lemma {:induction false} FlattenReshape(p: seq<Sample>)
    requires |p| % FrameLength == 0
    ensures Flatten(Reshape(p)) == p
    decreases |p|
  {
    if |p| != 0 {
      FlattenReshape(p[FrameLength..]);
      assert p == p[..FrameLength] + p[FrameLength..];
    }
  }

  /** The converse: frames of one second each are recovered from their
      concatenation. */
  lemma {:induction false} ReshapeFlatten(fs: seq<Frame>)
    requires WellFramed(fs)
    ensures |Flatten(fs)| % FrameLength == 0
    ensures Reshape(Flatten(fs)) == fs
  {
    FlattenLength(fs);
    if fs != [] {
      ReshapeFlatten(fs[1..]);
      var s := Flatten(fs);
      assert s == fs[0] + Flatten(fs[1..]);
      assert s[..FrameLength] == fs[0];
      assert s[FrameLength..] == Flatten(fs[1..]);
      assert fs == [fs[0]] + fs[1..];
    }
  }

  /** Frame `k` of a reshape is the run of samples [16000*k, 16000*(k+1)). */
  lemma {:induction false} ReshapeAt(p: seq<Sample>, k: nat)
    requires |p| % FrameLength == 0
    requires k < |p| / FrameLength
    ensures (k + 1) * FrameLength <= |p|
    ensures Reshape(p)[k] == p[k * FrameLength .. (k + 1) * FrameLength]
    decreases k
  {
    if k > 0 {
      var rest := p[FrameLength..];
      ReshapeAt(rest, k - 1);
      assert Reshape(p)[k] == Reshape(rest)[k - 1];
      assert rest[(k - 1) * FrameLength .. k * FrameLength] == p[k * FrameLength .. (k + 1) * FrameLength];
    }
  }

  /** Sample `j` of frame `k` is the original sample at 16000*k + j when that
      position lies inside the waveform, and zero past its end. */
  lemma SliceAudioAt(w: seq<Sample>, k: nat, j: nat)
    requires k < |SliceAudio(w)|
    requires j < FrameLength
    ensures k * FrameLength + j < |w| + PadCount(|w|)
    ensures SliceAudio(w)[k][j] == if k * FrameLength + j < |w| then w[k * FrameLength + j] else 0.0
  {
    var p := Pad(w);
    ReshapeAt(p, k);
    var i := k * FrameLength + j;
    assert SliceAudio(w)[k][j] == p[i];
    if i < |w| {
      assert p[..|w|][i] == p[i];
    } else {
      assert p[|w|..][i - |w|] == p[i];
    }
  }

  /** Flattening the segmenter's output gives the waveform followed by zeros only,
      exactly `PadCount(|w|)` of them. */
  lemma SliceAudioFlatten(w: seq<Sample>)
    ensures |Flatten(SliceAudio(w))| == |w| + PadCount(|w|)
    ensures Flatten(SliceAudio(w))[..|w|] == w
    ensures AllZero(Flatten(SliceAudio(w))[|w|..])
  {
    FlattenReshape(Pad(w));
  }

  /** A waveform of whole seconds is not padded: flattening returns it. */
  lemma SliceAudioExact(w: seq<Sample>)
    requires |w| % FrameLength == 0
    ensures Flatten(SliceAudio(w)) == w
  {
    FlattenReshape(Pad(w));
  }

  /** Segmenting the flattened output again gives the same frames. */
  lemma SliceAudioIdempotent(w: seq<Sample>)
    ensures SliceAudio(Flatten(SliceAudio(w))) == SliceAudio(w)
  {
    var p := Pad(w);
    FlattenReshape(p);
    assert Pad(p) == p;
  }

  /** One second of silence is a single frame, itself. */
  lemma SliceAudioSilence(w: seq<Sample>)
    requires w == Zeros(FrameLength)
    ensures SliceAudio(w) == [w]
  {
  }

  /** 24000 samples give two frames: the first second, then the remaining
      8000 samples followed by 8000 zeros. */
  lemma SliceAudio24000(w: seq<Sample>)
    requires |w| == 24000
    ensures |SliceAudio(w)| == 2
    ensures SliceAudio(w)[0] == w[..16000]
    ensures SliceAudio(w)[1] == w[16000..] + Zeros(8000)
  {
    var p := Pad(w);
    assert p == w + Zeros(8000);
    ReshapeAt(p, 0);
    ReshapeAt(p, 1);
    assert p[16000..32000] == w[16000..] + Zeros(8000);
  }
}
