# Audio framing front-end, modelled in Dafny

This project models the preprocessing front-end in `fnctions.py`. The front-end
turns a mono 16 kHz waveform into a time-ordered sequence of one-second
spectrograms for a sequence-to-sequence audio model. Two parts are modelled:

- `FrameSegmenter` (`segmenter.dfy`) models `slice_audio_to_time_series`. When
  the length L of the waveform is not a multiple of 16000, the waveform gets
  `16000 - L % 16000` zeros at its tail. The result is then reshaped into
  `L' / 16000` consecutive frames of 16000 samples. The model is written as pure
  functions over `seq`, and the lemmas state the frame count, frame contents,
  the flatten/reshape round trip, the no-padding case and idempotence.
- `SpectrogramSequencer` (`sequencer.dfy`) models the `for frame in wav_seq`
  loop of `get_spectrograms_sequence`. It is a method with a `while` loop that
  appends one entry per frame. The per-frame spectrogram is a function
  parameter `transform`. The method is proved equal to an order-preserving map,
  and that map is proved to give entry `i` from frame `i` alone.

Samples are `real` (the source's float32 values). Only zeros are created, and
no arithmetic is done on sample values.

## Model

| member | source | states |
|---|---|---|
| FrameSegmenter.PadCount | fnctions.py:12-13 | the number of appended zeros brings the length to a multiple of 16000, is below 16000, and is zero exactly when the length is already a multiple (so 1..15999 otherwise) |
| FrameSegmenter.Pad | fnctions.py:12-14 | the padded waveform has length L + PadCount(L) and is a multiple of 16000; it starts with the original samples and every later sample is zero |
| FrameSegmenter.Reshape | fnctions.py:15 | reshaping a multiple-of-16000 sequence gives length/16000 frames, each of exactly 16000 samples |
| FrameSegmenter.SliceAudio | fnctions.py:11-16 | the segmenter yields ceil(L/16000) frames of 16000 samples each, and no frames for an empty waveform |
| FrameSegmenter.FlattenLength | fnctions.py:15 | concatenating well-formed frames gives 16000 samples per frame |
| FrameSegmenter.FlattenReshape | fnctions.py:15 | concatenating the frames of a reshape gives back the reshaped sequence |
| FrameSegmenter.ReshapeFlatten | fnctions.py:15 | frames of 16000 samples are recovered by reshaping their concatenation |
| FrameSegmenter.ReshapeAt | fnctions.py:15 | frame k of a reshape is the samples [16000k, 16000(k+1)) in order |
| FrameSegmenter.SliceAudioAt | fnctions.py:12-15 | sample j of frame k is the original sample 16000k+j when that lies inside the waveform, and zero otherwise |
| FrameSegmenter.SliceAudioFlatten | fnctions.py:12-15 | flattening the frames gives the original waveform as a prefix, followed by exactly PadCount(L) zeros |
| FrameSegmenter.SliceAudioExact | fnctions.py:12-15 | when L is a multiple of 16000 nothing is appended and flattening the frames returns exactly the input |
| FrameSegmenter.SliceAudioIdempotent | fnctions.py:12-15 | segmenting the flattened output again gives the same frames |
| FrameSegmenter.SliceAudioSilence | fnctions.py:12-15 | one second of silence gives exactly one frame, equal to the input |
| FrameSegmenter.SliceAudio24000 | fnctions.py:12-15 | a 24000-sample waveform gives two frames; the second is samples 16000..24000 followed by 8000 zeros |
| SpectrogramSequencer.MapFrames | fnctions.py:22-27 | the reference map has one entry per frame |
| SpectrogramSequencer.MapFramesAt | fnctions.py:23-27 | entry i of the map is the transform of frame i |
| SpectrogramSequencer.MapFramesAppend | fnctions.py:22-27 | the map distributes over concatenation of frame sequences, so frame order is kept |
| SpectrogramSequencer.MapFramesLocal | fnctions.py:23-27 | two frame sequences that agree at frame i give the same entry i (no cross-frame mixing) |
| SpectrogramSequencer.SpectrogramsOfFrames | fnctions.py:22-27 | the loop's list equals the reference map of the frames: one entry per frame, in frame order |
| SpectrogramSequencer.GetSpectrogramsSequence | fnctions.py:19-28 | the pipeline yields ceil(L/16000) entries, and entry i is the transform of frame i of the segmenter's output |

## Left out

- `decode_audio` (fnctions.py:5-8): reading the file and decoding the WAV container are foreign library calls. The decoded waveform is a parameter of `GetSpectrogramsSequence`.
- The STFT, its magnitude and the added channel axis (fnctions.py:24-26): floating-point numerics inside the library. They are the opaque `transform` parameter. Shape claims (time-bin and frequency-bin counts) and non-negativity of magnitudes are therefore not modelled. The library's default FFT length for a 255-sample window is 256, which gives 129 frequency bins, not 128. No bin count is stated here.
- The array conversions `np.asarray` and `tf.constant` (fnctions.py:27-28) are not modelled. `np` is never imported in fnctions.py, so line 27 would raise `NameError` for any waveform with at least one frame. That is a runtime defect of the conversion step, not of the framing logic.
- The tensor idioms at fnctions.py:12 (a one-element shape tensor `% [16000]`, its truthiness via a cast to bool) are modelled as the plain integer test `L % 16000 != 0`.
- `FrameSegmenter.Reshape` requires a length that is a multiple of 16000. The library's reshape raises an error for any other length, but the segmenter only reshapes padded waveforms, so that error path cannot occur.
