/** The waiting phase (`wait_for_activity`): every chunk goes into a bounded
    pre-roll buffer, and a counter of consecutive voiced chunks decides when
    speech has really started. */
module Onset {
  import opened Samples
  import opened Settings

  /** Length of the run of voiced chunks that ends just before chunk `j` of
      the stream: `consecutive_voice_chunks` after the first `j` chunks. */
  function RunBefore(stream: seq<seq<int>>, j: nat, threshold: int): (n: nat)
    requires j <= |stream|
    ensures n <= j
  {
    if j == 0 || !ChunkVoiced(stream[j - 1], threshold) then 0
    else RunBefore(stream, j - 1, threshold) + 1
  }

  /** The run reaches `m` exactly when the last `m` chunks before `j` are all
      voiced. */
  lemma {:induction false} RunWindow(stream: seq<seq<int>>, j: nat, threshold: int, m: nat)
    requires j <= |stream|
    ensures RunBefore(stream, j, threshold) >= m <==>
            m <= j && forall k | j - m <= k < j :: ChunkVoiced(stream[k], threshold)
  {
    if m > 0 && j > 0 {
      RunWindow(stream, j - 1, threshold, m - 1);
    }
  }

  /** `pre_roll_buffer` after the first `j` chunks of the stream: the last
      `n` of them in arrival order, or all of them when there are fewer. */
  function PreRoll(stream: seq<seq<int>>, j: nat, n: nat): (r: seq<seq<int>>)
    requires j <= |stream|
    ensures |r| == if j <= n then j else n
  {
    if j <= n then stream[..j] else stream[j - n..j]
  }

  /** The pre-roll holds the most recent chunks in arrival order: its last
      element is the newest chunk and each element the one read before the
      next. */
  lemma PreRollInOrder(stream: seq<seq<int>>, j: nat, n: nat)
    requires j <= |stream|
    ensures var r := PreRoll(stream, j, n);
            forall k | 0 <= k < |r| :: r[k] == stream[j - |r| + k]
  {
  }

  /** Appending chunk `j` and then dropping the oldest chunk when over
      capacity gives exactly the pre-roll after `j + 1` chunks. */
  lemma PreRollPush(stream: seq<seq<int>>, j: nat, n: nat)
    requires j < |stream| && n >= 1
    ensures var appended := PreRoll(stream, j, n) + [stream[j]];
            PreRoll(stream, j + 1, n) == if |appended| > n then appended[1..] else appended
  {
  }

  /** Onset is confirmed at chunk `i` of the stream. */
  function OnsetAt(config: Config, stream: seq<seq<int>>, i: nat): (onset: bool)
    requires i < |stream|
    ensures onset <==>
              && config.minVoiceChunks <= i + 1
              && forall k | i + 1 - config.minVoiceChunks <= k <= i :: ChunkVoiced(stream[k], config.threshold)
  {
    RunWindow(stream, i + 1, config.threshold, config.minVoiceChunks);
    RunBefore(stream, i + 1, config.threshold) >= config.minVoiceChunks
  }

  datatype WaitOutcome =
    | Triggered(at: nat, preRoll: seq<seq<int>>)
    | StillWaiting

  /** The waiting loop over the chunks read so far: each chunk is appended
      to the pre-roll buffer, the oldest chunk is dropped when the buffer is
      over capacity, and the run of voiced chunks is counted or reset. The
      loop stops at the first chunk that confirms onset and hands back the
      pre-roll buffer, which then holds the last `bufferChunks` chunks heard;
      when no chunk confirms onset it is still waiting. */
  method WaitForActivity(config: Config, stream: seq<seq<int>>) returns (outcome: WaitOutcome)
    requires config.Valid()
    requires forall k | 0 <= k < |stream| :: |stream[k]| > 0
    ensures outcome.Triggered? ==> outcome.at < |stream| && OnsetAt(config, stream, outcome.at)
    ensures outcome.Triggered? ==> forall j | 0 <= j < outcome.at :: !OnsetAt(config, stream, j)
    ensures outcome.Triggered? ==> outcome.preRoll == PreRoll(stream, outcome.at + 1, config.bufferChunks)
    ensures outcome.Triggered? ==>
              |outcome.preRoll| > 0 && outcome.preRoll[|outcome.preRoll| - 1] == stream[outcome.at]
    ensures outcome.StillWaiting? ==> forall j | 0 <= j < |stream| :: !OnsetAt(config, stream, j)
  {
    var preRoll: seq<seq<int>> := [];
    var consecutive: nat := 0;
    for i := 0 to |stream|
      invariant preRoll == PreRoll(stream, i, config.bufferChunks)
      invariant consecutive == RunBefore(stream, i, config.threshold)
      invariant forall j | 0 <= j < i :: !OnsetAt(config, stream, j)
    {
      var chunk := stream[i];
      PreRollPush(stream, i, config.bufferChunks);
      var appended := preRoll + [chunk];
      preRoll := if |appended| > config.bufferChunks then appended[1..] else appended;
      assert preRoll == PreRoll(stream, i + 1, config.bufferChunks);
      assert |preRoll| > 0 && preRoll[|preRoll| - 1] == chunk;
      var voice := VoiceDetected(chunk, config.threshold);
      if voice {
        consecutive := consecutive + 1;
        if consecutive >= config.minVoiceChunks {
          assert OnsetAt(config, stream, i);
          return Triggered(i, preRoll);
        }
      } else {
        consecutive := 0;
      }
      assert !OnsetAt(config, stream, i);
    }
    return StillWaiting;
  }

  /** Onset fires when the counter reaches `minVoiceChunks`: at the first
      confirming chunk the run is exactly that long, never longer. */
  lemma FirstOnsetIsExact(config: Config, stream: seq<seq<int>>, i: nat)
    requires config.Valid() && i < |stream| && OnsetAt(config, stream, i)
    requires forall j | 0 <= j < i :: !OnsetAt(config, stream, j)
    ensures RunBefore(stream, i + 1, config.threshold) == config.minVoiceChunks
  {
    if i > 0 {
      assert !OnsetAt(config, stream, i - 1);
    }
  }

  /** A burst of fewer than `minVoiceChunks` voiced chunks, at the start of
      the stream or after a silent chunk, and followed by silence, never
      confirms onset: a click or a short spike does not start a recording. */
  lemma SpikeNeverTriggers(config: Config, before: seq<seq<int>>, spike: seq<seq<int>>, after: seq<seq<int>>)
    requires config.Valid() && |spike| < config.minVoiceChunks
    requires before == [] || !ChunkVoiced(before[|before| - 1], config.threshold)
    requires forall k | 0 <= k < |after| :: !ChunkVoiced(after[k], config.threshold)
    ensures var stream := before + spike + after;
            forall j | |before| <= j < |stream| :: !OnsetAt(config, stream, j)
  {
    var stream := before + spike + after;
    var m := config.minVoiceChunks;
    forall j | |before| <= j < |stream| ensures !OnsetAt(config, stream, j) {
      if j < |before| + |spike| {
        RunWindow(stream, j + 1, config.threshold, m);
        if before != [] {
          assert stream[|before| - 1] == before[|before| - 1];
        }
      } else {
        assert stream[j] == after[j - |before| - |spike|];
      }
    }
  }

  /** After a silent chunk (or at the start), each chunk of a voiced burst
      adds one to the run, so onset is confirmed exactly at the
      `minVoiceChunks`-th chunk of the burst. */
  lemma {:induction false} BurstCounts(threshold: int, before: seq<seq<int>>, burst: seq<seq<int>>, k: nat)
    requires before == [] || !ChunkVoiced(before[|before| - 1], threshold)
    requires forall i | 0 <= i < |burst| :: ChunkVoiced(burst[i], threshold)
    requires k <= |burst|
    ensures RunBefore(before + burst, |before| + k, threshold) == k
  {
    if k == 0 {
      if before != [] {
        assert (before + burst)[|before| - 1] == before[|before| - 1];
      }
    } else {
      BurstCounts(threshold, before, burst, k - 1);
      assert (before + burst)[|before| + k - 1] == burst[k - 1];
    }
  }
}
