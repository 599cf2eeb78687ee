/** The post-capture pipeline applied once a recording ends: `normalize`
    rescales to full scale, `trim` strips the quiet head and tail, and
    `add_silence` pads both ends with zeros. */
module Transform {
  import opened Samples

  // ---------------------------------------------------------------------
  // normalize
  // ---------------------------------------------------------------------

  /** Python's `int()` applied to a quotient: division truncated toward zero.
      The result has the sign of `a` and the largest magnitude whose multiple
      of `b` does not exceed `|a|`. */
  function TruncDiv(a: int, b: int): (q: int)
    requires b > 0
    ensures (a >= 0 ==> q >= 0) && (a <= 0 ==> q <= 0)
    ensures Abs(q) * b <= Abs(a) < (Abs(q) + 1) * b
  {
    if a >= 0 then
      DivBounds(a, b);
      a / b
    else
      DivBounds(-a, b);
      -((-a) / b)
  }

  lemma DivBounds(a: int, b: int)
    requires a >= 0 && b > 0
    ensures a / b >= 0
    ensures (a / b) * b <= a < (a / b + 1) * b
  {
    var q, r := a / b, a % b;
    assert a == b * q + r && 0 <= r < b;
    if q < 0 {
      MulLe(b, q, -1);
      assert false;
    }
    assert (q + 1) * b == q * b + b;
  }

  /** `min(MAXIMUMVOL, max(-MAXIMUMVOL, v))`: the nearest value in the
      symmetric 16-bit range. */
  function Clamp(v: int): (c: int)
    ensures -MaximumVol <= c <= MaximumVol
    ensures -MaximumVol <= v <= MaximumVol ==> c == v
    ensures v > MaximumVol ==> c == MaximumVol
    ensures v < -MaximumVol ==> c == -MaximumVol
  {
    if v > MaximumVol then MaximumVol else if v < -MaximumVol then -MaximumVol else v
  }

  /** The output sample has the input's sign, or is zero. */
  predicate SignKept(x: int, y: int) {
    (x == 0 ==> y == 0) && (x > 0 ==> y >= 0) && (x < 0 ==> y <= 0)
  }

  /** One sample of `normalize`: multiplied by MaximumVol / peak, truncated
      toward zero and clamped to the symmetric 16-bit range. */
  function Scale(x: int, peak: nat): (y: int)
    requires peak > 0
    ensures -MaximumVol <= y <= MaximumVol
    ensures SignKept(x, y)
    ensures x == peak ==> y == MaximumVol
    ensures x + peak == 0 ==> y == -MaximumVol
  {
    if x == peak || x + peak == 0 then
      MulDivCancel(MaximumVol, peak);
      Clamp(TruncDiv(x * MaximumVol, peak))
    else
      Clamp(TruncDiv(x * MaximumVol, peak))
  }

  /** `normalize`: every sample scaled so that the loudest one reaches full
      scale; an all-zero buffer is returned as it is. */
  function Normalize(s: seq<int>): (r: seq<int>)
    requires |s| > 0
    ensures |r| == |s|
    ensures Peak(s) == 0 ==> r == s
    ensures forall k | 0 <= k < |r| :: -MaximumVol <= r[k] <= MaximumVol
    ensures forall k | 0 <= k < |r| :: SignKept(s[k], r[k])
    ensures forall k | 0 <= k < |r| :: Peak(s) > 0 && Abs(s[k]) == Peak(s) ==> Abs(r[k]) == MaximumVol
  {
    var peak := Peak(s);
    if peak == 0 then s
    else seq(|s|, k requires 0 <= k < |s| => Scale(s[k], peak))
  }

  /** A buffer whose peak is already full scale is left unchanged. */
  lemma NormalizeFullScale(s: seq<int>)
    requires |s| > 0 && Peak(s) == MaximumVol
    ensures Normalize(s) == s
  {
    forall k | 0 <= k < |s| ensures Normalize(s)[k] == s[k] {
      ScaleByFullScale(s[k]);
    }
  }

  lemma ScaleByFullScale(x: int)
    requires -MaximumVol <= x <= MaximumVol
    ensures Scale(x, MaximumVol) == x
  {
    MulDivCancel(x, MaximumVol);
    MulDivCancel(-x, MaximumVol);
  }

  /** After a non-silent buffer is normalized its peak is exactly full scale. */
  lemma NormalizedPeak(s: seq<int>)
    requires |s| > 0 && Peak(s) > 0
    ensures Peak(Normalize(s)) == MaximumVol
  {
    var r := Normalize(s);
    var k :| 0 <= k < |s| && Abs(s[k]) == Peak(s);
    assert Abs(r[k]) == MaximumVol;
  }

  /** `normalize` is idempotent. */
  lemma NormalizeIdempotent(s: seq<int>)
    requires |s| > 0
    ensures Normalize(Normalize(s)) == Normalize(s)
  {
    if Peak(s) > 0 {
      NormalizedPeak(s);
      NormalizeFullScale(Normalize(s));
    }
  }

  /** When no sample is -32768 (so the peak is at most full scale), no
      non-zero sample is scaled down to zero. */
  lemma NormalizeKeepsSound(s: seq<int>)
    requires |s| > 0 && Peak(s) <= MaximumVol
    ensures forall k | 0 <= k < |s| :: s[k] != 0 ==> Normalize(s)[k] != 0
  {
    forall k | 0 <= k < |s| && s[k] != 0 ensures Normalize(s)[k] != 0 {
      ScaleKeepsSound(s[k], Peak(s));
    }
  }

  lemma ScaleKeepsSound(x: int, peak: nat)
    requires 0 < peak <= MaximumVol && x != 0
    ensures Scale(x, peak) != 0
  {
    var a := Abs(x);
    MulLe(MaximumVol, 1, a);
    DivMonotone(peak, a * MaximumVol, peak);
    MulDivCancel(1, peak);
  }

  /** With a sample of -32768 the peak exceeds full scale, and a faint sample
      is truncated to zero, as the floating-point factor of `normalize` also
      does. */
  lemma NormalizeCanSilenceFaintSample()
    ensures Normalize([1, -32768]) == [0, -32767]
  {
    assert Peak([1, -32768]) == 32768;
  }

  /** Scaling keeps the order of samples. */
  lemma ScaleMonotone(x: int, y: int, peak: nat)
    requires peak > 0 && x <= y
    ensures Scale(x, peak) <= Scale(y, peak)
  {
    if 0 <= x {
      DivMonotone(x * MaximumVol, y * MaximumVol, peak);
    } else if y < 0 {
      DivMonotone(-(y * MaximumVol), -(x * MaximumVol), peak);
    }
  }

  lemma MulLe(d: int, x: int, y: int)
    requires d >= 0 && x <= y
    ensures d * x <= d * y
  {
    assert d * y - d * x == d * (y - x);
  }

  lemma DivMonotone(a: int, b: int, d: int)
    requires d > 0 && 0 <= a <= b
    ensures a / d <= b / d
  {
    var qa, qb := a / d, b / d;
    assert a == d * qa + a % d;
    assert b == d * qb + b % d;
    if qa > qb {
      MulLe(d, qb + 1, qa);
      assert false;
    }
  }

  lemma MulDivCancel(c: int, p: int)
    requires p > 0
    ensures (c * p) / p == c
  {
    var q := (c * p) / p;
    assert c * p == p * q + (c * p) % p;
    if q < c {
      MulLe(p, q + 1, c);
      assert false;
    } else if q > c {
      MulLe(p, c + 1, q);
      assert false;
    }
  }

  /** `normalize` keeps the order between any two samples. */
  lemma NormalizeMonotone(s: seq<int>, i: nat, j: nat)
    requires i < |s| && j < |s| && s[i] <= s[j]
    ensures Normalize(s)[i] <= Normalize(s)[j]
  {
    if Peak(s) > 0 {
      ScaleMonotone(s[i], s[j], Peak(s));
    }
  }

  // ---------------------------------------------------------------------
  // trim
  // ---------------------------------------------------------------------

  /** Number of quiet samples before the first loud one (|s| when none is loud). */
  function LeadQuiet(s: seq<int>, threshold: int): (n: nat)
    ensures n <= |s|
    ensures forall k | 0 <= k < n :: !Loud(s[k], threshold)
    ensures n < |s| ==> Loud(s[n], threshold)
  {
    QuietFrom(s, threshold, 0)
  }

  /** Number of quiet samples from index `i` on, up to the next loud one. */
  function QuietFrom(s: seq<int>, threshold: int, i: nat): (n: nat)
    requires i <= |s|
    ensures i + n <= |s|
    ensures forall k | i <= k < i + n :: !Loud(s[k], threshold)
    ensures i + n < |s| ==> Loud(s[i + n], threshold)
    decreases |s| - i
  {
    if i == |s| || Loud(s[i], threshold) then 0
    else 1 + QuietFrom(s, threshold, i + 1)
  }

  /** Number of quiet samples after the last loud one (|s| when none is loud). */
  function TrailQuiet(s: seq<int>, threshold: int): (n: nat)
    ensures n <= |s|
    ensures forall k | |s| - n <= k < |s| :: !Loud(s[k], threshold)
    ensures n < |s| ==> Loud(s[|s| - 1 - n], threshold)
  {
    QuietBefore(s, threshold, |s|)
  }

  /** Number of quiet samples just before index `j`, back to the previous loud one. */
  function QuietBefore(s: seq<int>, threshold: int, j: nat): (n: nat)
    requires j <= |s|
    ensures n <= j
    ensures forall k | j - n <= k < j :: !Loud(s[k], threshold)
    ensures n < j ==> Loud(s[j - 1 - n], threshold)
  {
    if j == 0 || Loud(s[j - 1], threshold) then 0
    else 1 + QuietBefore(s, threshold, j - 1)
  }

  lemma LeadQuietUnique(s: seq<int>, threshold: int, n: nat)
    requires n <= |s|
    requires forall k | 0 <= k < n :: !Loud(s[k], threshold)
    requires n < |s| ==> Loud(s[n], threshold)
    ensures LeadQuiet(s, threshold) == n
  {
  }

  lemma TrailQuietUnique(s: seq<int>, threshold: int, n: nat)
    requires n <= |s|
    requires forall k | |s| - n <= k < |s| :: !Loud(s[k], threshold)
    requires n < |s| ==> Loud(s[|s| - 1 - n], threshold)
    ensures TrailQuiet(s, threshold) == n
  {
  }

  /** What `trim` returns: the stretch from the first loud sample to the last
      one, both included; empty when no sample is loud. */
  function Trim(s: seq<int>, threshold: int): (r: seq<int>)
    ensures |r| <= |s|
    ensures r == [] <==> forall k | 0 <= k < |s| :: !Loud(s[k], threshold)
    ensures r != [] ==> Loud(r[0], threshold) && Loud(r[|r| - 1], threshold)
    ensures LeadQuiet(s, threshold) + |r| <= |s|
    ensures r == s[LeadQuiet(s, threshold)..LeadQuiet(s, threshold) + |r|]
    ensures forall k | LeadQuiet(s, threshold) + |r| <= k < |s| :: !Loud(s[k], threshold)
  {
    var lead := LeadQuiet(s, threshold);
    if lead == |s| then []
    else s[lead..|s| - TrailQuiet(s, threshold)]
  }

  /** `trim` is idempotent. */
  lemma TrimIdempotent(s: seq<int>, threshold: int)
    ensures Trim(Trim(s, threshold), threshold) == Trim(s, threshold)
  {
    var r := Trim(s, threshold);
    if r != [] {
      LeadQuietUnique(r, threshold, 0);
      TrailQuietUnique(r, threshold, 0);
    }
  }

  /** The buffer after `reverse()`. */
  function Reversed(s: seq<int>): seq<int> {
    seq(|s|, k requires 0 <= k < |s| => s[|s| - 1 - k])
  }

  /** Reversing twice gives back the buffer, as `trim` relies on. */
  lemma ReversedTwice(s: seq<int>)
    ensures Reversed(Reversed(s)) == s
  {
    ReversedSuffix(s, 0);
    assert Reversed(s)[0..] == Reversed(s);
    assert s[..|s|] == s;
  }

  /** The inner `_trim`: copies the samples from the first loud one on, using
      a flag that is raised at that sample. */
  method TrimLeading(s: seq<int>, threshold: int) returns (r: seq<int>)
    ensures r == s[LeadQuiet(s, threshold)..]
  {
    ghost var lead := LeadQuiet(s, threshold);
    var started := false;
    r := [];
    for i := 0 to |s|
      invariant started <==> lead < i
      invariant r == if started then s[lead..i] else []
    {
      if !started && Loud(s[i], threshold) {
        started := true;
      }
      if started {
        r := r + [s[i]];
      }
    }
  }

  /** `trim`: the leading scan, a reversal, the same scan, and a reversal
      back; the result is exactly `Trim`. */
  method TrimSamples(s: seq<int>, threshold: int) returns (r: seq<int>)
    ensures r == Trim(s, threshold)
  {
    var data := TrimLeading(s, threshold);
    ghost var left := data;
    data := Reversed(data);
    ghost var backwards := data;
    data := TrimLeading(data, threshold);
    data := Reversed(data);
    r := data;

    var lead := LeadQuiet(s, threshold);
    if lead < |s| {
      var tail := TrailQuiet(s, threshold);
      TrailQuietOfTail(s, threshold);
      LeadQuietOfReversed(left, threshold);
      ReversedSuffix(left, tail);
      assert left[..|left| - tail] == s[lead..|s| - tail];
    } else {
      assert backwards == [];
    }
  }

  /** The quiet head of a reversed buffer is its quiet tail. */
  lemma LeadQuietOfReversed(u: seq<int>, threshold: int)
    ensures LeadQuiet(Reversed(u), threshold) == TrailQuiet(u, threshold)
  {
    var t := TrailQuiet(u, threshold);
    var v := Reversed(u);
    forall k | 0 <= k < t ensures !Loud(v[k], threshold) {
      assert v[k] == u[|u| - 1 - k];
    }
    if t < |u| {
      assert v[t] == u[|u| - 1 - t];
    }
    LeadQuietUnique(v, threshold, t);
  }

  lemma ReversedSuffix(u: seq<int>, t: nat)
    requires t <= |u|
    ensures Reversed(Reversed(u)[t..]) == u[..|u| - t]
  {
    var w := Reversed(Reversed(u)[t..]);
    forall k | 0 <= k < |u| - t ensures w[k] == u[k] {
      assert Reversed(u)[t..][|u| - t - 1 - k] == Reversed(u)[|u| - 1 - k];
    }
  }

  /** Dropping the quiet head does not change the quiet tail. */
  lemma TrailQuietOfTail(s: seq<int>, threshold: int)
    requires LeadQuiet(s, threshold) < |s|
    ensures LeadQuiet(s, threshold) + TrailQuiet(s, threshold) < |s|
    ensures TrailQuiet(s[LeadQuiet(s, threshold)..], threshold) == TrailQuiet(s, threshold)
  {
    QuietTailOfSuffix(s, LeadQuiet(s, threshold), TrailQuiet(s, threshold), threshold);
  }

  /** Dropping a prefix that ends before the last loud sample keeps the quiet
      tail. */
  lemma QuietTailOfSuffix(s: seq<int>, lead: nat, t: nat, threshold: int)
    requires lead < |s| && Loud(s[lead], threshold)
    requires t <= |s| && forall k | |s| - t <= k < |s| :: !Loud(s[k], threshold)
    requires t < |s| ==> Loud(s[|s| - 1 - t], threshold)
    ensures lead + t < |s|
    ensures TrailQuiet(s[lead..], threshold) == t
  {
    var left := s[lead..];
    forall k | |left| - t <= k < |left| ensures !Loud(left[k], threshold) {
      assert left[k] == s[lead + k];
    }
    assert left[|left| - 1 - t] == s[|s| - 1 - t];
    TrailQuietUnique(left, threshold, t);
  }

  // ---------------------------------------------------------------------
  // add_silence
  // ---------------------------------------------------------------------

  /** `array('h', [0 for _ in range(n)])`. */
  function Silence(n: nat): (z: seq<int>)
    ensures |z| == n && forall k | 0 <= k < n :: z[k] == 0
  {
    seq(n, _ => 0)
  }

  /** `add_silence`: `n` zero samples on each side of the buffer. */
  function AddSilence(s: seq<int>, n: nat): (r: seq<int>)
    ensures |r| == |s| + 2 * n
    ensures forall k | 0 <= k < n :: r[k] == 0
    ensures forall k | n + |s| <= k < |r| :: r[k] == 0
    ensures r[n..n + |s|] == s
  {
    Silence(n) + s + Silence(n)
  }

  /** Removes `n` samples from each end: the inverse of `AddSilence`. */
  function StripSilence(r: seq<int>, n: nat): seq<int>
    requires 2 * n <= |r|
  {
    r[n..|r| - n]
  }

  /** Padding then stripping the same amount gives back the buffer. */
  lemma StripAfterPad(s: seq<int>, n: nat)
    ensures StripSilence(AddSilence(s, n), n) == s
  {
  }

  // ---------------------------------------------------------------------
  // The whole post-capture pipeline
  // ---------------------------------------------------------------------

  /** `normalize`, then `trim`, then `add_silence`, as the recorder applies
      them to a finished recording. */
  function Finalize(samples: seq<int>, threshold: int, pad: nat): (out: seq<int>)
    requires |samples| > 0
    ensures |out| >= 2 * pad
    ensures forall k | 0 <= k < pad :: out[k] == 0
    ensures forall k | |out| - pad <= k < |out| :: out[k] == 0
    ensures StripSilence(out, pad) == Trim(Normalize(samples), threshold)
  {
    AddSilence(Trim(Normalize(samples), threshold), pad)
  }

  /** The last three steps of `record_audio`, with `trim` run as its two
      scans and two reversals. */
  method ProcessRecording(samples: seq<int>, threshold: int, pad: nat) returns (out: seq<int>)
    requires |samples| > 0
    ensures out == Finalize(samples, threshold, pad)
  {
    var normalized := Normalize(samples);
    var trimmed := TrimSamples(normalized, threshold);
    out := AddSilence(trimmed, pad);
  }

  /** Below full scale the threshold is always crossed after normalization, so
      the finished utterance holds only padding exactly when every recorded
      sample was zero; otherwise its content starts and ends on a loud sample. */
  lemma FinalizeCore(samples: seq<int>, threshold: int, pad: nat)
    requires |samples| > 0 && 0 <= threshold < MaximumVol
    ensures var core := StripSilence(Finalize(samples, threshold, pad), pad);
            && (core == [] <==> forall k | 0 <= k < |samples| :: samples[k] == 0)
            && (core != [] ==> Loud(core[0], threshold) && Loud(core[|core| - 1], threshold))
  {
    NormalizedTrimEmpty(samples, threshold);
  }

  /** Normalizing and trimming leaves nothing exactly when every sample is 0. */
  lemma NormalizedTrimEmpty(samples: seq<int>, threshold: int)
    requires |samples| > 0 && 0 <= threshold < MaximumVol
    ensures Trim(Normalize(samples), threshold) == [] <==> forall k | 0 <= k < |samples| :: samples[k] == 0
  {
    var n := Normalize(samples);
    if Peak(samples) > 0 {
      var k :| 0 <= k < |samples| && Abs(samples[k]) == Peak(samples);
      assert Loud(n[k], threshold);
      assert samples[k] != 0;
    } else {
      assert n == samples;
      assert forall k | 0 <= k < |samples| :: Abs(samples[k]) <= 0;
    }
  }
}
