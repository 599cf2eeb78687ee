/** The recording phase (`record_audio`): the buffer is seeded with the
    pre-roll chunks, every chunk read is appended, and recording stops once
    no voiced chunk has arrived for longer than the silence timeout. The
    finished buffer then goes through the post-capture pipeline. */
module Recording {
  import opened Samples
  import opened Settings
  import opened Transform

  /** The clock readings never go backwards and none is earlier than the
      start of the recording. */
  predicate MonotoneTicks(start: int, ticks: seq<int>) {
    && (forall i | 0 <= i < |ticks| :: start <= ticks[i])
    && (forall i, j | 0 <= i < j < |ticks| :: ticks[i] <= ticks[j])
  }

  /** `last_voice_stamp` after the first `n` chunks of the recording: the
      tick of the latest voiced chunk among them, or `start` if none. */
  function LastVoiceStamp(threshold: int, start: int, stream: seq<seq<int>>, ticks: seq<int>, n: nat): int
    requires n <= |stream| && |ticks| == |stream|
  {
    if n == 0 then start
    else if ChunkVoiced(stream[n - 1], threshold) then ticks[n - 1]
    else LastVoiceStamp(threshold, start, stream, ticks, n - 1)
  }

  /** The recording loop breaks after chunk `i`. */
  predicate StopsAt(config: Config, start: int, stream: seq<seq<int>>, ticks: seq<int>, i: nat)
    requires i < |stream| && |ticks| == |stream|
  {
    ticks[i] > LastVoiceStamp(config.threshold, start, stream, ticks, i + 1) + config.silenceTicks
  }

  /** Whatever the clock does, the stamp is `start` when no chunk so far was
      voiced, and otherwise the tick of the last voiced chunk: every chunk
      after that one was silent. */
  lemma {:induction false} StampOfLastVoicedChunk(threshold: int, start: int, stream: seq<seq<int>>, ticks: seq<int>, n: nat)
    requires n <= |stream| && |ticks| == |stream|
    ensures (forall k | 0 <= k < n :: !ChunkVoiced(stream[k], threshold)) ==>
              LastVoiceStamp(threshold, start, stream, ticks, n) == start
    ensures (exists k | 0 <= k < n :: ChunkVoiced(stream[k], threshold)) ==>
              exists k | 0 <= k < n ::
                && ChunkVoiced(stream[k], threshold)
                && LastVoiceStamp(threshold, start, stream, ticks, n) == ticks[k]
                && forall l | k < l < n :: !ChunkVoiced(stream[l], threshold)
  {
    if n > 0 && !ChunkVoiced(stream[n - 1], threshold) {
      StampOfLastVoicedChunk(threshold, start, stream, ticks, n - 1);
    }
  }

  /** With a clock that never goes backwards the stamp is the latest of the
      start tick and the ticks of the voiced chunks. */
  lemma {:induction false} LastVoiceIsLatest(threshold: int, start: int, stream: seq<seq<int>>, ticks: seq<int>, n: nat)
    requires n <= |stream| && |ticks| == |stream| && MonotoneTicks(start, ticks)
    ensures start <= LastVoiceStamp(threshold, start, stream, ticks, n)
    ensures forall k | 0 <= k < n && ChunkVoiced(stream[k], threshold) ::
              ticks[k] <= LastVoiceStamp(threshold, start, stream, ticks, n)
    ensures var stamp := LastVoiceStamp(threshold, start, stream, ticks, n);
            stamp == start || exists k | 0 <= k < n :: ChunkVoiced(stream[k], threshold) && ticks[k] == stamp
  {
    if n > 0 {
      LastVoiceIsLatest(threshold, start, stream, ticks, n - 1);
    }
  }

  /** Recording stops after chunk `i` exactly when more than `silenceTicks`
      ticks have passed since the start and since every voiced chunk so far. */
  lemma StopMeansSustainedSilence(config: Config, start: int, stream: seq<seq<int>>, ticks: seq<int>, i: nat)
    requires i < |stream| && |ticks| == |stream| && MonotoneTicks(start, ticks)
    ensures StopsAt(config, start, stream, ticks, i) <==>
              && ticks[i] > start + config.silenceTicks
              && forall k | 0 <= k <= i && ChunkVoiced(stream[k], config.threshold) ::
                   ticks[i] > ticks[k] + config.silenceTicks
  {
    LastVoiceIsLatest(config.threshold, start, stream, ticks, i + 1);
  }

  /** A voiced chunk never ends the recording: its own tick becomes the stamp. */
  lemma VoicedChunkNeverStops(config: Config, start: int, stream: seq<seq<int>>, ticks: seq<int>, i: nat)
    requires i < |stream| && |ticks| == |stream| && ChunkVoiced(stream[i], config.threshold)
    ensures !StopsAt(config, start, stream, ticks, i)
  {
  }

  /** Reading chunk `i` appends its samples to the buffer. */
  lemma RecordChunk(initialBuffer: seq<seq<int>>, stream: seq<seq<int>>, i: nat)
    requires i < |stream|
    ensures Flatten(initialBuffer + stream[..i + 1]) == Flatten(initialBuffer + stream[..i]) + stream[i]
  {
    assert initialBuffer + stream[..i + 1] == (initialBuffer + stream[..i]) + [stream[i]];
    FlattenPush(initialBuffer + stream[..i], stream[i]);
  }

  datatype RecordOutcome =
    | Finished(stoppedAt: nat, raw: seq<int>, utterance: seq<int>)
    | StillRecording(raw: seq<int>)

  /** The recording loop over the chunks read after onset, chunk `i` read at
      tick `ticks[i]`, followed by the post-capture pipeline. It stops at the
      first chunk after which the silence timeout has passed; the raw buffer
      is the seed followed by every chunk read up to that one, and the
      utterance is that buffer normalized, trimmed and padded. */
  method RecordAudio(config: Config, initialBuffer: seq<seq<int>>, start: int,
                     stream: seq<seq<int>>, ticks: seq<int>) returns (outcome: RecordOutcome)
    requires |ticks| == |stream|
    requires forall k | 0 <= k < |stream| :: |stream[k]| > 0
    ensures outcome.Finished? ==> outcome.stoppedAt < |stream|
    ensures outcome.Finished? ==> StopsAt(config, start, stream, ticks, outcome.stoppedAt)
    ensures outcome.Finished? ==>
              forall j | 0 <= j < outcome.stoppedAt :: !StopsAt(config, start, stream, ticks, j)
    ensures outcome.Finished? ==>
              && outcome.raw == Flatten(initialBuffer + stream[..outcome.stoppedAt + 1])
              && |outcome.raw| > 0
              && outcome.utterance == Finalize(outcome.raw, config.threshold, config.padSamples)
    ensures outcome.StillRecording? ==>
              && (forall j | 0 <= j < |stream| :: !StopsAt(config, start, stream, ticks, j))
              && outcome.raw == Flatten(initialBuffer + stream)
  {
    // seed the buffer with the pre-roll chunks
    var samples: seq<int> := [];
    for i := 0 to |initialBuffer|
      invariant samples == Flatten(initialBuffer[..i])
    {
      assert initialBuffer[..i + 1][..i] == initialBuffer[..i];
      samples := samples + initialBuffer[i];
    }
    assert initialBuffer[..|initialBuffer|] == initialBuffer;
    assert initialBuffer + stream[..0] == initialBuffer;
    var lastVoiceStamp := start;
    for i := 0 to |stream|
      invariant samples == Flatten(initialBuffer + stream[..i])
      invariant lastVoiceStamp == LastVoiceStamp(config.threshold, start, stream, ticks, i)
      invariant forall j | 0 <= j < i :: !StopsAt(config, start, stream, ticks, j)
    {
      var chunk := stream[i];
      RecordChunk(initialBuffer, stream, i);
      samples := samples + chunk;
      assert samples == Flatten(initialBuffer + stream[..i + 1]);
      var voice := VoiceDetected(chunk, config.threshold);
      if voice {
        lastVoiceStamp := ticks[i];
      }
      assert lastVoiceStamp == LastVoiceStamp(config.threshold, start, stream, ticks, i + 1);
      if ticks[i] > lastVoiceStamp + config.silenceTicks {
        assert |samples| >= |chunk| > 0;
        var utterance := ProcessRecording(samples, config.threshold, config.padSamples);
        outcome := Finished(i, samples, utterance);
        assert outcome.raw == Flatten(initialBuffer + stream[..outcome.stoppedAt + 1]);
        return;
      }
    }
    assert stream[..|stream|] == stream;
    return StillRecording(samples);
  }
}
