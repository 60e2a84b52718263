/** The keyframe selector of `extractFrames` (splitGif.ts): ten target times
    spread evenly over the animation, both ends included, each mapped to the
    frame on screen at that time.

    Times are Dafny `real`s, which are exact rationals: the target
    `(i / 9) * totalDuration` is computed without the rounding of a
    JavaScript double. */
module Keyframes {
  import opened Signatures
  import opened Frames

  /** The number of keyframes `extractFrames` returns. */
  const KeyframeCount := 10

  /** Target time `i`, in milliseconds: `(i / 9) * totalDuration`. */
  function Target(i: nat, total: nat): (t: real)
    requires i < KeyframeCount
    ensures 0.0 <= t <= total as real
    ensures i == 0 ==> t == 0.0
    ensures i == KeyframeCount - 1 ==> t == total as real
  {
    TargetBounded(i, total);
    (i as real / 9.0) * (total as real)
  }

  lemma TargetBounded(i: nat, total: nat)
    requires i < KeyframeCount
    ensures 0.0 <= (i as real / 9.0) * (total as real) <= total as real
  {
  }

  /** The targets are evenly spaced: consecutive targets lie a ninth of the
      total apart, so together with `Target(0, total) == 0` they are fixed. */
  lemma TargetsEvenlySpaced(i: nat, total: nat)
    requires i + 1 < KeyframeCount
    ensures Target(i + 1, total) - Target(i, total) == total as real / 9.0
  {
  }

  /** Later targets are never earlier. */
  lemma TargetsNonDecreasing(i: nat, j: nat, total: nat)
    requires i <= j < KeyframeCount
    ensures Target(i, total) <= Target(j, total)
  {
    var fi := i as real / 9.0;
    var fj := j as real / 9.0;
    var x := total as real;
    assert Target(i, total) == fi * x;
    assert Target(j, total) == fj * x;
    ScaleMonotone(fi, fj, x);
  }

  /** The loop of `findFrameIndexAt` from position `i` on: the first frame at
      or after `i` whose cumulative end time lies strictly after `t`, or the
      last frame when the loop runs out. */
  function ScanFrom(cum: seq<nat>, t: real, i: nat): (k: nat)
    requires 0 < |cum| && i <= |cum|
    ensures k < |cum|
    ensures i < |cum| ==> i <= k
    ensures forall j :: i <= j < k ==> cum[j] as real <= t
    ensures k == |cum| - 1 || t < cum[k] as real
    decreases |cum| - i
  {
    if i == |cum| then |cum| - 1
    else if t < cum[i] as real then i
    else ScanFrom(cum, t, i + 1)
  }

  /** `findFrameIndexAt(t)`: the smallest index whose cumulative end time is
      strictly after `t`, and the last index when there is none. */
  function FrameIndexAt(cum: seq<nat>, t: real): (k: nat)
    requires 0 < |cum|
    ensures k < |cum|
    ensures forall j :: 0 <= j < k ==> cum[j] as real <= t
    ensures k == |cum| - 1 || t < cum[k] as real
  {
    ScanFrom(cum, t, 0)
  }

  /** The two properties of `FrameIndexAt` pin its result down: any index
      with them is the one it returns. */
  lemma FrameIndexAtUnique(cum: seq<nat>, t: real, k: nat)
    requires k < |cum|
    requires forall j :: 0 <= j < k ==> cum[j] as real <= t
    requires k == |cum| - 1 || t < cum[k] as real
    ensures FrameIndexAt(cum, t) == k
  {
  }

  /** A later time never maps to an earlier frame, whatever the cumulative
      times. */
  lemma FrameIndexAtMonotone(cum: seq<nat>, t1: real, t2: real)
    requires 0 < |cum|
    requires t1 <= t2
    ensures FrameIndexAt(cum, t1) <= FrameIndexAt(cum, t2)
  {
  }

  /** The frame chosen for target `i`: the frame on screen at that time,
      every earlier frame having ended by then. */
  function SelectedIndex(fs: seq<Frame>, i: nat): (k: nat)
    requires 0 < |fs| && i < KeyframeCount
    ensures k < |fs|
    ensures forall j :: 0 <= j < k ==> Cumulative(fs)[j] as real <= Target(i, TotalDuration(fs))
    ensures k == |fs| - 1 || Target(i, TotalDuration(fs)) < Cumulative(fs)[k] as real
  {
    FrameIndexAt(Cumulative(fs), Target(i, TotalDuration(fs)))
  }

  /** The padding loop: repeat the last selected image until there are ten.
      A list of ten or more is returned as it is. */
  function PadWithLast(sel: seq<Bytes>): (r: seq<Bytes>)
    requires 0 < |sel|
    ensures |sel| >= KeyframeCount ==> r == sel
    ensures |sel| < KeyframeCount ==>
              && |r| == KeyframeCount
              && r[..|sel|] == sel
              && forall j :: |sel| <= j < KeyframeCount ==> r[j] == sel[|sel| - 1]
    decreases KeyframeCount - |sel|
  {
    if |sel| >= KeyframeCount then sel
    else PadWithLast(sel + [sel[|sel| - 1]])
  }

  /** The selection steps of `extractFrames`, for a non-empty frame list:
      exactly ten images, the i-th being the frame on screen at target i. */
  function SelectKeyframes(fs: seq<Frame>): (r: seq<Bytes>)
    requires 0 < |fs|
    ensures |r| == KeyframeCount
    ensures forall i :: 0 <= i < KeyframeCount ==> r[i] == fs[SelectedIndex(fs, i)].buffer
  {
    var total := TotalDuration(fs);
    var cum := Cumulative(fs);
    var selected := seq(KeyframeCount, i requires 0 <= i < KeyframeCount =>
                          fs[FrameIndexAt(cum, Target(i, total))].buffer);
    PadWithLast(selected)
  }

  /** Every keyframe is the image of some input frame. */
  lemma KeyframesComeFromInput(fs: seq<Frame>)
    requires 0 < |fs|
    ensures forall i :: 0 <= i < KeyframeCount ==>
              exists k :: 0 <= k < |fs| && SelectKeyframes(fs)[i] == fs[k].buffer
  {
    var r := SelectKeyframes(fs);
    forall i | 0 <= i < KeyframeCount
      ensures exists k :: 0 <= k < |fs| && r[i] == fs[k].buffer
    {
      var k := SelectedIndex(fs, i);
      assert r[i] == fs[k].buffer;
    }
  }

  /** Selected frame indices never go backwards in target order. */
  lemma SelectionMonotone(fs: seq<Frame>, i: nat, j: nat)
    requires 0 < |fs|
    requires i <= j < KeyframeCount
    ensures SelectedIndex(fs, i) <= SelectedIndex(fs, j)
  {
    var total := TotalDuration(fs);
    TargetsNonDecreasing(i, j, total);
    FrameIndexAtMonotone(Cumulative(fs), Target(i, total), Target(j, total));
  }

  /** The last target equals the total duration, which no cumulative time
      exceeds, so it always falls through to the last frame. */
  lemma LastTargetSelectsLastFrame(fs: seq<Frame>)
    requires 0 < |fs|
    ensures SelectedIndex(fs, KeyframeCount - 1) == |fs| - 1
    ensures SelectKeyframes(fs)[KeyframeCount - 1] == fs[|fs| - 1].buffer
  {
    CumulativeMonotone(fs);
  }

  /** A frame with a zero delay is selected only when it is the last frame:
      its end time equals the previous frame's, which no target at or after
      it passes. */
  lemma ZeroDelayOnlyIfLast(fs: seq<Frame>, i: nat)
    requires 0 < |fs| && i < KeyframeCount
    requires fs[SelectedIndex(fs, i)].delay == 0
    ensures SelectedIndex(fs, i) == |fs| - 1
  {
    var k := SelectedIndex(fs, i);
    var cum := Cumulative(fs);
    var t := Target(i, TotalDuration(fs));
    CumulativeSteps(fs);
    if k == 0 {
      assert cum[0] as real <= t;
    } else {
      assert cum[k - 1] as real <= t;
      assert cum[k] as real <= t;
    }
  }

  /** With a total duration of zero every target is 0, no frame ends after
      it, and all ten keyframes are the last frame. */
  lemma ZeroTotalSelectsLast(fs: seq<Frame>)
    requires 0 < |fs|
    requires TotalDuration(fs) == 0
    ensures forall i :: 0 <= i < KeyframeCount ==> SelectKeyframes(fs)[i] == fs[|fs| - 1].buffer
  {
    CumulativeMonotone(fs);
    forall i | 0 <= i < KeyframeCount
      ensures SelectedIndex(fs, i) == |fs| - 1
    {
      FrameIndexAtUnique(Cumulative(fs), Target(i, 0), |fs| - 1);
    }
  }

  /** A single frame yields ten copies of itself. */
  lemma SingleFrameRepeated(f: Frame)
    ensures SelectKeyframes([f]) == seq(KeyframeCount, _ => f.buffer)
  {
  }

  /** When the first frame is shown for some time, the first keyframe is
      that frame: target 0 lies before its end time. */
  lemma FirstFrameLeads(fs: seq<Frame>)
    requires 0 < |fs|
    requires fs[0].delay > 0
    ensures SelectKeyframes(fs)[0] == fs[0].buffer
  {
  }

  /** Ten frames of 100 ms each (a GIF at 10 centiseconds per frame, or an
      APNG left at the fallback delay) yield each frame once, in order:
      target i, at 1000 i / 9 ms, falls inside frame i, which runs from
      100 i to 100 i + 100 ms. */
  lemma TenTenthSecondFrames(fs: seq<Frame>)
    requires |fs| == KeyframeCount
    requires forall k :: 0 <= k < |fs| ==> fs[k].delay == DefaultApngDelay
    ensures SelectKeyframes(fs) == seq(KeyframeCount, i requires 0 <= i < KeyframeCount => fs[i].buffer)
  {
    var cum := Cumulative(fs);
    CumulativeSteps(fs);
    CumulativeMonotone(fs);
    FramesEndAtMultiples(fs, 9);
    forall i | 0 <= i < KeyframeCount
      ensures SelectedIndex(fs, i) == i
    {
      FramesEndAtMultiples(fs, i);
      TenTenthsTarget(cum, i);
    }
  }

  /** One target of `TenTenthSecondFrames`. */
  lemma TenTenthsTarget(cum: seq<nat>, i: nat)
    requires |cum| == KeyframeCount && i < KeyframeCount
    requires forall j, k :: 0 <= j <= k < |cum| ==> cum[j] <= cum[k]
    requires cum[9] == 1000
    requires i > 0 ==> cum[i - 1] == 100 * i
    requires cum[i] == 100 * i + 100
    ensures FrameIndexAt(cum, Target(i, cum[9])) == i
  {
  }

  /** With every delay 100 ms, frame k starts at 100 k and ends at
      100 k + 100. */
  lemma {:induction false} FramesEndAtMultiples(fs: seq<Frame>, k: nat)
    requires k < |fs|
    requires forall j :: 0 <= j < |fs| ==> fs[j].delay == DefaultApngDelay
    ensures k > 0 ==> Cumulative(fs)[k - 1] == 100 * k
    ensures Cumulative(fs)[k] == 100 * k + 100
  {
    CumulativeSteps(fs);
    if k > 0 {
      FramesEndAtMultiples(fs, k - 1);
    }
  }

  lemma ScaleMonotone(f: real, g: real, x: real)
    requires f <= g && 0.0 <= x
    ensures f * x <= g * x
  {
  }

}
