/** Onset segmentation of a waveform (util.py): cutting the sample sequence into
    one frame per detected onset and bringing every slice to a fixed duration.
    The onset detector itself is external; its output, the ascending list of
    backtracked onset positions in samples, is a parameter here. */
module Segments {
  import opened Results

  /** One amplitude sample of the waveform. */
  type Sample = real

  /** A `(begin, end)` pair of sample positions, as the source zips them. */
  type Frame = (int, int)

  /** The exception `to_onset_frames` raises when no onset was detected:
      `onset_backtracks[-1]` of an empty array is an IndexError. */
  datatype SegmentError = NoOnsets

  /** `n` silent samples, what `np.zeros(n)` yields. */
  function Zeros(n: nat): seq<Sample>
  {
    seq(n, _ => 0.0)
  }

  /** Where a Python/numpy slice bound `i` lands in a sequence of length `n`:
      a negative bound counts from the end, and out-of-range bounds are clamped. */
  function SliceBound(i: int, n: nat): (b: nat)
    ensures b <= n
    ensures 0 <= i <= n ==> b == i
  {
    if i < 0 then (if i + n < 0 then 0 else i + n)
    else if i > n then n
    else i
  }

  /** `s[lo:hi]` with Python's slicing rules: never fails, empty when the bounds cross. */
  function PySlice<T>(s: seq<T>, lo: int, hi: int): (r: seq<T>)
    ensures |r| <= |s|
    ensures 0 <= lo <= hi <= |s| ==> r == s[lo..hi]
    ensures exists b, e :: 0 <= b <= e <= |s| && r == s[b..e]
  {
    var b, e := SliceBound(lo, |s|), SliceBound(hi, |s|);
    if b < e then s[b..e] else assert s[0..0] == []; []
  }

  /** normalize_duration: bring `samples` to `sr * length` samples by cutting the
      same number of samples from each end, or by adding the same number of zeros
      to each end. An odd difference is not split, so the result is then one
      sample longer (cut) or shorter (padded) than the target. */
  function NormalizeDuration(samples: seq<Sample>, sr: nat, length: nat): (r: seq<Sample>)
    ensures var d := sr * length;
      if |samples| > d then |r| == d + (|samples| - d) % 2
      else |r| == d - (d - |samples|) % 2
    ensures sr * length - 1 <= |r| <= sr * length + 1
  {
    var desired := sr * length;
    if |samples| > desired then
      var trim := (|samples| - desired) / 2;
      samples[trim..|samples| - trim]
    else
      var add := (desired - |samples|) / 2;
      Zeros(add) + samples + Zeros(add)
  }

  /** Cut branch: the result is the middle of the input, with exactly
      `(len - desired) // 2` samples dropped from each end. */
  lemma NormalizeTrimIsMiddle(samples: seq<Sample>, sr: nat, length: nat)
    requires |samples| > sr * length
    ensures var t := (|samples| - sr * length) / 2;
      NormalizeDuration(samples, sr, length) == samples[t..|samples| - t]
    ensures var r := NormalizeDuration(samples, sr, length);
      var t := (|samples| - sr * length) / 2;
      |samples| - |r| == 2 * t &&
      forall i :: 0 <= i < |r| ==> r[i] == samples[t + i]
  {
  }

  /** Pad branch: `a` zeros, the input unchanged, `a` zeros, with
      `a == (desired - len) // 2`. */
  lemma NormalizePadSurrounds(samples: seq<Sample>, sr: nat, length: nat)
    requires |samples| <= sr * length
    ensures var a := (sr * length - |samples|) / 2;
      var r := NormalizeDuration(samples, sr, length);
      |r| == 2 * a + |samples| &&
      r[..a] == Zeros(a) &&
      r[a..a + |samples|] == samples &&
      r[a + |samples|..] == Zeros(a)
  {
  }

  /** The length is exact precisely when the difference to the target is even. */
  lemma NormalizeExactIffEven(samples: seq<Sample>, sr: nat, length: nat)
    ensures |NormalizeDuration(samples, sr, length)| == sr * length
        <==> (|samples| - sr * length) % 2 == 0
  {
  }

  /** An input already of the target length is returned unchanged. */
  lemma NormalizeKeepsExact(samples: seq<Sample>, sr: nat, length: nat)
    requires |samples| == sr * length
    ensures NormalizeDuration(samples, sr, length) == samples
  {
  }

  /** Normalising twice is normalising once: after one pass the length is within
      one sample of the target, and such a difference is never split. */
  lemma NormalizeIdempotent(samples: seq<Sample>, sr: nat, length: nat)
    ensures var r := NormalizeDuration(samples, sr, length);
      NormalizeDuration(r, sr, length) == r
  {
  }

  /** `zip(b[:-1], b[1:])`: every element paired with its successor. */
  function Consecutive(b: seq<int>): (fs: seq<Frame>)
    ensures |fs| == if |b| == 0 then 0 else |b| - 1
    ensures forall i :: 0 <= i < |fs| ==> fs[i] == (b[i], b[i + 1])
  {
    if |b| < 2 then [] else [(b[0], b[1])] + Consecutive(b[1..])
  }

  /** Where the last frame ends: one second after the last onset, but never past
      the end of the audio. */
  function LastEnd(onsets: seq<int>, sr: nat, n: nat): (e: int)
    requires |onsets| > 0
    ensures e <= n && e <= onsets[|onsets| - 1] + sr
    ensures e == n || e == onsets[|onsets| - 1] + sr
  {
    var last := onsets[|onsets| - 1];
    if last + sr < n then last + sr else n
  }

  /** to_onset_frames, given the detected onset positions `onsets` of `n` samples
      of audio: one frame per onset, from it to the next onset, the last one
      ending at `min(last onset + sr, n)`. No onset is an error. */
  function OnsetFrames(onsets: seq<int>, sr: nat, n: nat): (r: Result<seq<Frame>, SegmentError>)
    ensures r.Err? <==> onsets == []
    ensures r.Ok? ==> |r.value| == |onsets|
    ensures r.Ok? ==> forall i :: 0 <= i < |onsets| - 1 ==> r.value[i] == (onsets[i], onsets[i + 1])
    ensures r.Ok? ==> r.value[|onsets| - 1] == (onsets[|onsets| - 1], LastEnd(onsets, sr, n))
  {
    if onsets == [] then Err(NoOnsets)
    else
      var b := onsets + [LastEnd(onsets, sr, n)];
      assert forall i :: 0 <= i < |onsets| ==> b[i] == onsets[i];
      assert b[|onsets|] == LastEnd(onsets, sr, n);
      Ok(Consecutive(b))
  }

  /** The frames chain: each frame ends where the next one begins. */
  lemma FramesChain(onsets: seq<int>, sr: nat, n: nat, i: nat)
    requires OnsetFrames(onsets, sr, n).Ok?
    requires i + 1 < |OnsetFrames(onsets, sr, n).value|
    ensures var fs := OnsetFrames(onsets, sr, n).value; fs[i].1 == fs[i + 1].0
  {
    var fs := OnsetFrames(onsets, sr, n).value;
    assert fs[i] == (onsets[i], onsets[i + 1]);
    if i + 1 < |onsets| - 1 {
      assert fs[i + 1] == (onsets[i + 1], onsets[i + 2]);
    } else {
      assert fs[i + 1] == (onsets[i + 1], LastEnd(onsets, sr, n));
    }
  }

  /** Onset positions as the detector reports them for `n` samples: ascending
      and inside the audio. */
  ghost predicate AscendingWithin(onsets: seq<int>, n: nat)
  {
    (forall i :: 0 <= i < |onsets| ==> 0 <= onsets[i] <= n) &&
    (forall i, j :: 0 <= i <= j < |onsets| ==> onsets[i] <= onsets[j])
  }

  /** For detector output, every frame is a valid in-bounds slice `0 <= begin <= end <= n`,
      and the frames together cover the audio from the first onset to the last end. */
  lemma FramesWellFormed(onsets: seq<int>, sr: nat, n: nat)
    requires onsets != [] && AscendingWithin(onsets, n)
    ensures var fs := OnsetFrames(onsets, sr, n).value;
      (forall i :: 0 <= i < |fs| ==> 0 <= fs[i].0 <= fs[i].1 <= n) &&
      fs[0].0 == onsets[0] &&
      fs[|fs| - 1].1 == LastEnd(onsets, sr, n)
  {
    var fs := OnsetFrames(onsets, sr, n).value;
    forall i | 0 <= i < |fs|
      ensures 0 <= fs[i].0 <= fs[i].1 <= n
    {
      if i < |fs| - 1 {
        assert fs[i] == (onsets[i], onsets[i + 1]);
      } else {
        assert fs[i] == (onsets[i], LastEnd(onsets, sr, n));
      }
    }
  }

  /** One segment: the samples of the frame, normalised to one second. */
  function Segment(samples: seq<Sample>, sr: nat, f: Frame): (seg: seq<Sample>)
    ensures sr - 1 <= |seg| <= sr + 1
    ensures 0 <= f.0 <= f.1 <= |samples| ==> seg == NormalizeDuration(samples[f.0..f.1], sr, 1)
  {
    NormalizeDuration(PySlice(samples, f.0, f.1), sr, 1)
  }

  /** The list comprehension of to_onset_samples over given frames. */
  function SegmentsOf(samples: seq<Sample>, sr: nat, frames: seq<Frame>): (segs: seq<seq<Sample>>)
    ensures |segs| == |frames|
    ensures forall i :: 0 <= i < |frames| ==> segs[i] == Segment(samples, sr, frames[i])
    ensures forall i :: 0 <= i < |frames| ==> sr - 1 <= |segs[i]| <= sr + 1
  {
    seq(|frames|, i requires 0 <= i < |frames| => Segment(samples, sr, frames[i]))
  }

  /** to_onset_samples: supplied frames are used as they are; only when none are
      supplied are they computed from the detected onsets. */
  function OnsetSamples(samples: seq<Sample>, sr: nat, frames: Option<seq<Frame>>, onsets: seq<int>)
    : (r: Result<seq<seq<Sample>>, SegmentError>)
    ensures frames.Some? ==> r == Ok(SegmentsOf(samples, sr, frames.value))
    ensures frames.None? ==> (r.Err? <==> onsets == [])
    ensures frames.None? && r.Ok? ==> |r.value| == |onsets|
  {
    match frames
    case Some(fs) => Ok(SegmentsOf(samples, sr, fs))
    case None =>
      match OnsetFrames(onsets, sr, |samples|)
      case Err(e) => Err(e)
      case Ok(fs) => Ok(SegmentsOf(samples, sr, fs))
  }

  /** With detected onsets, segment i is the audio between onset i and onset i+1
      (the last one up to its capped end), normalised to one second. */
  lemma DetectedSegments(samples: seq<Sample>, sr: nat, onsets: seq<int>, i: nat)
    requires onsets != [] && AscendingWithin(onsets, |samples|)
    requires i < |onsets|
    ensures var segs := OnsetSamples(samples, sr, None, onsets);
      segs.Ok? && |segs.value| == |onsets| &&
      segs.value[i] == NormalizeDuration(
        samples[onsets[i]..if i + 1 < |onsets| then onsets[i + 1] else LastEnd(onsets, sr, |samples|)], sr, 1)
  {
  }
}
