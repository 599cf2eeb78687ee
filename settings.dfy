/** The recorder's constants, gathered into one configuration value that the
    waiting and recording phases are given. */
module Settings {

  const SilenceThreshold: nat := 3000
  const RecordAfterSilenceSecs: nat := 2
  const Rate: nat := 44100
  const ChunkSize: nat := 1024
  const PreRollSecs: nat := 2
  /** Clock ticks per second: the model's clock counts milliseconds. */
  const TicksPerSecond: nat := 1000

  function Max(a: int, b: int): int {
    if a >= b then a else b
  }

  /** `threshold` is SILENCE_THRESHOLD; `bufferChunks` the pre-roll capacity in
      chunks; `minVoiceChunks` the number of consecutive voiced chunks that
      confirm an onset; `silenceTicks` RECORD_AFTER_SILENCE_SECS in clock ticks
      (milliseconds under `DefaultConfig`);
      `padSamples` the zero samples added on each side of an utterance. */
  datatype Config = Config(
    threshold: nat,
    bufferChunks: nat,
    minVoiceChunks: nat,
    silenceTicks: nat,
    padSamples: nat)
  {
    predicate Valid() {
      bufferChunks >= 1 && minVoiceChunks >= 1
    }
  }

  /** The values the recorder runs with: `RATE * PRE_ROLL_SECS // CHUNK_SIZE`
      pre-roll chunks, `max(1, int(0.5 * RATE / CHUNK_SIZE))` onset chunks
      (truncated, not rounded up) and `int(0.5 * RATE)` samples of padding. */
  function DefaultConfig(): (c: Config)
    ensures c.Valid()
    ensures c.bufferChunks == 86 && c.minVoiceChunks == 21 && c.padSamples == 22050
    ensures c.threshold == 3000 && c.silenceTicks == 2000
  {
    Config(
      SilenceThreshold,
      Rate * PreRollSecs / ChunkSize,
      Max(1, (Rate / 2) / ChunkSize),
      RecordAfterSilenceSecs * TicksPerSecond,
      Rate / 2)
  }
}
