# vox-recorder in Dafny

A model of the voice-activated recorder `vox-recorder.py`. The recorder reads
chunks of signed 16-bit samples from a sound card and waits until speech has
clearly started. It then records until the speaker has been silent for a
while, and turns the recording into a tidy utterance. The model covers the
algorithmic core of that program:

- `samples.dfy` (module `Samples`): the per-chunk classifier `voice_detected`.
  It also defines the peak amplitude and the flattening of a list of chunks
  into one sample buffer.
- `settings.dfy` (module `Settings`): the recorder's constants, gathered
  into a `Config` value: threshold, pre-roll capacity in chunks, chunks
  needed to confirm an onset, silence timeout, and padding length.
- `onset.dfy` (module `Onset`): the waiting loop of `wait_for_activity`. A
  bounded pre-roll buffer keeps the most recent chunks, oldest first. A
  counter of consecutive voiced chunks confirms the onset of speech.
- `recording.dfy` (module `Recording`): the recording loop of
  `record_audio`. The sample buffer is seeded with the pre-roll and extended
  with every chunk read. The stamp of the last voiced chunk drives the
  silence timeout, and the finished buffer goes through the post-capture
  pipeline.
- `transform.dfy` (module `Transform`): the post-capture pipeline:
  `normalize`, `trim` (with its inner `_trim` scan and the two reversals) and
  `add_silence`.

The environment becomes parameters:
- The sound card is a finite sequence of chunks.
- `time.time()` is a sequence of integer ticks, one per chunk read. Under
  `Settings.DefaultConfig` a tick is one millisecond, so the two-second
  silence timeout is 2000 ticks.
- The constants are fields of `Config`. `Settings.DefaultConfig` gives the
  values the program runs with.

The two loops take the source's own form. Each is a method whose local
variables are the buffer, the counter and the stamp, with loop invariants
that tie them to specification functions of the chunks read so far
(`PreRoll`, `RunBefore`, `Flatten`, `LastVoiceStamp`).

Three facts about the code that the model keeps:
- The pre-roll capacity `RATE * PRE_ROLL_SECS // CHUNK_SIZE` (86) and the
  onset length `max(1, int(VOICE_MIN_DURATION_SECS * RATE / CHUNK_SIZE))`
  (21) are truncated, not rounded up.
- The chunk that confirms the onset is the last chunk of the pre-roll buffer
  that `wait_for_activity` returns (line 218), so it enters the recording
  once, as part of the initial buffer.
- An exception raised while recording is only printed by `voxrecord`
  (lines 293-294); nothing is saved on that path.

## Model

| member | source | states |
|---|---|---|
| Samples.Peak | vox-recorder.py:134 | the peak bounds the magnitude of every sample of a non-empty buffer and is reached by one of them |
| Samples.VoiceDetected | vox-recorder.py:132-134 | a chunk is voiced exactly when some sample's magnitude is strictly above the threshold; it is silent exactly when every magnitude is at most the threshold, so a peak equal to the threshold is not voice |
| Samples.Flatten | vox-recorder.py:228-230 | the recording buffer built from a list of chunks: their samples one after the other, in order (stated through `FlattenPush` and `FlattenConcat`) |
| Samples.FlattenPush | vox-recorder.py:229-230 | extending the buffer with one more chunk appends exactly that chunk's samples |
| Samples.FlattenConcat | vox-recorder.py:228-244 | the samples of two lists of chunks, one after the other, are the samples of the concatenated list |
| Settings.DefaultConfig | vox-recorder.py:176-180 | the default configuration is valid and has threshold 3000, 86 pre-roll chunks, 21 onset chunks, a silence timeout of 2000 millisecond ticks and 22050 padding samples |
| Transform.TruncDiv | vox-recorder.py:141-142 | division truncated toward zero, as `int()` does: the quotient has the sign of the dividend and its magnitude is the floor of the magnitudes' quotient |
| Transform.Clamp | vox-recorder.py:142 | `min(MAXIMUMVOL, max(-MAXIMUMVOL, v))`: a value inside [-32767, 32767] is kept, one above becomes 32767, one below becomes -32767 |
| Transform.Scale | vox-recorder.py:141-142 | one scaled sample lies in [-32767, 32767], keeps the sign of the input (zero stays zero), and a sample equal to plus or minus the peak becomes plus or minus 32767 |
| Transform.Normalize | vox-recorder.py:136-142 | an all-zero buffer is returned unchanged; otherwise the output has the same length, every sample is within plus or minus 32767 and keeps its sign, and every sample at the peak reaches full scale |
| Transform.NormalizeFullScale | vox-recorder.py:138-142 | a buffer whose peak is already 32767 is left unchanged |
| Transform.NormalizedPeak | vox-recorder.py:138-142 | a normalized non-silent buffer has peak exactly 32767 |
| Transform.NormalizeIdempotent | vox-recorder.py:136-142 | normalizing twice is the same as normalizing once |
| Transform.NormalizeKeepsSound | vox-recorder.py:141-142 | when the peak is at most 32767, no non-zero sample is scaled to zero |
| Transform.NormalizeCanSilenceFaintSample | vox-recorder.py:141-142 | with -32768 present the factor is below one, and the buffer [1, -32768] normalizes to [0, -32767] |
| Transform.ScaleMonotone | vox-recorder.py:141-142 | scaling by the same peak keeps the order of two samples |
| Transform.NormalizeMonotone | vox-recorder.py:136-142 | normalizing keeps the order between any two samples of the buffer |
| Transform.LeadQuiet | vox-recorder.py:149-151 | the count of samples before the first loud one: all of them are quiet, and the next one, if any, is loud |
| Transform.TrailQuiet | vox-recorder.py:159-161 | the count of samples after the last loud one: all of them are quiet, and the one before them, if any, is loud |
| Transform.Trim | vox-recorder.py:144-162 | the result is a contiguous slice of the input; it is empty exactly when no sample is loud; otherwise it starts and ends on a loud sample, and every sample before or after it is quiet |
| Transform.TrimIdempotent | vox-recorder.py:144-162 | trimming twice is the same as trimming once |
| Transform.TrimLeading | vox-recorder.py:146-154 | the flag-driven scan returns exactly the input from its first loud sample on, or nothing when no sample is loud |
| Transform.TrimSamples | vox-recorder.py:156-162 | the scan, reverse, scan, reverse sequence returns exactly `Trim` of the input |
| Transform.LeadQuietOfReversed | vox-recorder.py:159-160 | the quiet head of a reversed buffer is the quiet tail of the buffer |
| Transform.TrailQuietOfTail | vox-recorder.py:157-160 | dropping the quiet head of a buffer with a loud sample leaves its quiet tail unchanged, and the head and tail do not overlap |
| Transform.Reversed | vox-recorder.py:159-161 | the buffer after `reverse()`: reversing twice gives the buffer back (stated through `ReversedTwice`) |
| Transform.ReversedTwice | vox-recorder.py:159-161 | reversing a buffer twice gives the buffer back |
| Transform.ReversedSuffix | vox-recorder.py:159-161 | reversing, dropping `t` samples and reversing back drops the last `t` samples |
| Transform.Silence | vox-recorder.py:166 | the silence block holds exactly `n` samples, all zero |
| Transform.AddSilence | vox-recorder.py:164-167 | the output is `n` zeros, the input unchanged, and `n` zeros, so its length is the input's plus `2n` |
| Transform.StripAfterPad | vox-recorder.py:164-167 | stripping `n` samples from each end of a padded buffer gives back the buffer |
| Transform.Finalize | vox-recorder.py:262-264 | the utterance starts and ends with `pad` zeros, and what lies between them is the normalized buffer, trimmed |
| Transform.ProcessRecording | vox-recorder.py:262-264 | running `normalize`, the in-order `trim` and `add_silence` yields exactly `Finalize` |
| Transform.NormalizedTrimEmpty | vox-recorder.py:136-162 | with a threshold below full scale, normalizing then trimming leaves nothing exactly when every sample is zero |
| Transform.FinalizeCore | vox-recorder.py:262-264 | the utterance is only padding exactly when every recorded sample was zero; otherwise its content starts and ends on a loud sample |
| Onset.RunBefore | vox-recorder.py:204-210 | the counter after the first `j` chunks: the run of voiced chunks ending there, never longer than `j` |
| Onset.RunWindow | vox-recorder.py:204-210 | the run before chunk `j` reaches `m` exactly when the `m` chunks before `j` are all voiced |
| Onset.PreRoll | vox-recorder.py:194-198 | the pre-roll after the first `j` chunks holds `min(j, n)` chunks, never more than its capacity |
| Onset.PreRollInOrder | vox-recorder.py:194-198 | the pre-roll holds the most recent chunks in arrival order, the newest one last |
| Onset.PreRollPush | vox-recorder.py:194-198 | appending a chunk and then dropping the oldest when over capacity gives exactly the pre-roll after one more chunk |
| Onset.OnsetAt | vox-recorder.py:204-208 | onset is confirmed at chunk `i` exactly when at least `minVoiceChunks` chunks have been read and the last `minVoiceChunks` of them, up to `i`, are all voiced |
| Onset.WaitForActivity | vox-recorder.py:176-218 | stops at the first chunk where the run of voiced chunks reaches `minVoiceChunks`, never earlier; returns the pre-roll at that point, which ends with the confirming chunk; when no chunk confirms onset it is still waiting |
| Onset.FirstOnsetIsExact | vox-recorder.py:204-208 | at the first confirmed onset the run is exactly `minVoiceChunks` long |
| Onset.SpikeNeverTriggers | vox-recorder.py:204-210 | a burst of fewer than `minVoiceChunks` voiced chunks, at the start of the stream or after a silent chunk, and followed only by silent chunks, never confirms onset at any chunk from the burst on |
| Onset.BurstCounts | vox-recorder.py:204-210 | after a silent chunk, the `k`-th chunk of a voiced burst makes the run exactly `k` long |
| Recording.LastVoiceStamp | vox-recorder.py:233-251 | the value of `last_voice_stamp` after `n` chunks: the start tick while no chunk was voiced, otherwise the tick of the last voiced chunk (stated through `StampOfLastVoicedChunk`) |
| Recording.StampOfLastVoicedChunk | vox-recorder.py:233-251 | with any clock, the stamp is the start tick when no chunk so far was voiced, and otherwise the tick of a voiced chunk after which every chunk was silent |
| Recording.StopsAt | vox-recorder.py:254 | recording stops after chunk `i` when its tick is strictly past the last voice stamp plus the timeout (stated through `StopMeansSustainedSilence` and `VoicedChunkNeverStops`) |
| Recording.LastVoiceIsLatest | vox-recorder.py:233-251 | with ticks that never go back, the stamp is the latest of the start tick and the ticks of the voiced chunks read |
| Recording.StopMeansSustainedSilence | vox-recorder.py:250-255 | recording stops after a chunk exactly when more than the timeout has passed since the start and since every voiced chunk so far |
| Recording.VoicedChunkNeverStops | vox-recorder.py:250-255 | a voiced chunk never ends the recording |
| Recording.RecordChunk | vox-recorder.py:244 | reading a chunk appends its samples to the recording buffer |
| Recording.RecordAudio | vox-recorder.py:228-264 | stops at the first chunk after which the silence timeout has passed, never earlier; the raw buffer is the pre-roll chunks followed by every chunk read, and the utterance is `Finalize` of it; when no chunk stops it, the buffer still holds everything read |

## Left out

- `suppress_stdout_stderr`, the SIGINT handler and `show_status`: output redirection, process lifecycle and terminal rendering; none of them affects the samples.
- Opening, reading and closing the PyAudio stream, and the byte swap on big-endian hosts: foreign calls. The chunks they produce are an input sequence of integer samples.
- Writing the WAV file, the file name built from the clock, and the final status print: file I/O.
- The outer `voxrecord` loop with its catch-all `except`, and the startup check of the output directory with its prompt: I/O and error plumbing. Each call of the two loop methods is one cycle of that outer loop.
- The devices are endless, but the two loops run on a finite prefix of the stream. `StillWaiting` and `StillRecording` describe a prefix on which the loop has not stopped yet.
- Transform.Normalize: uses exact integer arithmetic, `x * 32767` divided by the peak and truncated toward zero, in place of the floating-point factor `32767.0 / peak`. Float rounding can make a result differ by one from the exact quotient.
- Transform.NormalizedPeak, Transform.NormalizeIdempotent: proved for the exact integer model only. With the float factor, `peak * (32767.0 / peak)` can round just below 32767 and truncate to 32766, so the program's peak and second pass may differ by one.
- Recording.RecordAudio: `time.time()` is read twice per iteration, once for the stamp and once for the comparison. The model uses one tick per chunk for both, so the case where the clock moves between the two reads is not captured.
- Recording.RecordAudio: ticks are whole numbers (milliseconds under `Settings.DefaultConfig`); `time.time()` is a float with finer resolution, so two reads within the same millisecond are not told apart.
- Recording.RecordAudio: `record_started_stamp` is the caller-supplied start tick rather than a clock read.
- Transform.TrimSamples: the two in-place `reverse()` calls on the sample array are modelled on values. Aliasing of that array is not captured.
- The constants `int(0.5 * RATE)` and `int(VOICE_MIN_DURATION_SECS * RATE / CHUNK_SIZE)` are evaluated as integers in `Settings.DefaultConfig` rather than through floats.
