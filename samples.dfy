/** Signed 16-bit audio samples and chunks of them, with the amplitude queries
    the recorder runs on every chunk it reads. */
module Samples {

  /** Full-scale amplitude of a signed 16-bit sample (MAXIMUMVOL). */
  const MaximumVol: int := 32767

  function Abs(x: int): nat {
    if x < 0 then -x else x
  }

  /** A sample is loud when its magnitude is strictly above the threshold. */
  predicate Loud(x: int, threshold: int) {
    Abs(x) > threshold
  }

  /** A chunk holds voice when some sample in it is loud. */
  predicate ChunkVoiced(chunk: seq<int>, threshold: int) {
    exists k | 0 <= k < |chunk| :: Loud(chunk[k], threshold)
  }

  /** Largest magnitude in a non-empty buffer: `max(abs(i) for i in snd_data)`. */
  function Peak(s: seq<int>): (p: nat)
    requires |s| > 0
    ensures forall k | 0 <= k < |s| :: Abs(s[k]) <= p
    ensures exists k | 0 <= k < |s| :: Abs(s[k]) == p
  {
    if |s| == 1 then Abs(s[0])
    else
      var rest := Peak(s[1..]);
      assert forall k | 1 <= k < |s| :: s[k] == s[1..][k - 1];
      if Abs(s[0]) >= rest then Abs(s[0]) else rest
  }

  /** The classifier `voice_detected`: the peak exceeds the threshold, which
      is the same as some sample being loud. A peak equal to the threshold is
      not voice. */
  function VoiceDetected(chunk: seq<int>, threshold: int): (voiced: bool)
    requires |chunk| > 0
    ensures voiced <==> ChunkVoiced(chunk, threshold)
    ensures !voiced <==> forall k | 0 <= k < |chunk| :: Abs(chunk[k]) <= threshold
  {
    Peak(chunk) > threshold
  }

  /** The samples of a list of chunks, one chunk after another, as the
      recorder's `extend` calls build them. */
  function Flatten(chunks: seq<seq<int>>): seq<int> {
    if chunks == [] then []
    else Flatten(chunks[..|chunks| - 1]) + chunks[|chunks| - 1]
  }

  /** Appending a chunk to the list appends its samples. */
  lemma FlattenPush(chunks: seq<seq<int>>, chunk: seq<int>)
    ensures Flatten(chunks + [chunk]) == Flatten(chunks) + chunk
  {
    assert (chunks + [chunk])[..|chunks|] == chunks;
  }

  /** Flattening distributes over concatenation of chunk lists. */
  lemma {:induction false} FlattenConcat(a: seq<seq<int>>, b: seq<seq<int>>)
    ensures Flatten(a + b) == Flatten(a) + Flatten(b)
  {
    if b == [] {
      assert a + b == a;
    } else {
      var front := b[..|b| - 1];
      assert (a + b)[..|a + b| - 1] == a + front;
      FlattenConcat(a, front);
    }
  }
}
