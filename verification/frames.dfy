/** Decoded frames and their display times (splitGif.ts). The decoders
    themselves (`gif-frames`, `sharp-apng`, `sharp`) are not modelled: their
    output is taken as given, and only what this code does with it is. */
module Frames {
  import opened Signatures

  /** `FrameData`: one still PNG image and how long it stays on screen, in
      milliseconds. */
  datatype Frame = Frame(buffer: Bytes, delay: nat)

  /** One frame as the GIF decoder reports it, the delay in hundredths of a
      second as the GIF file stores it. */
  datatype GifFrame = GifFrame(image: Bytes, rawDelay: nat)

  /** What the APNG decoder returns: the frames in playback order and a
      separate list of delays in milliseconds, which may be shorter than the
      list of frames or hold zeros. */
  datatype ApngData = ApngData(frames: seq<Bytes>, delay: seq<nat>)

  /** GIF delays are converted from hundredths of a second to milliseconds. */
  const GifDelayScale := 10

  /** The APNG delay used when the decoder reports none, or zero. */
  const DefaultApngDelay := 100

  /** `extractFramesFromGif`: each decoded frame, in order, with its delay
      multiplied by ten. No default replaces a zero delay. */
  function GifFrames(gs: seq<GifFrame>): (fs: seq<Frame>)
    ensures |fs| == |gs|
    ensures forall i :: 0 <= i < |gs| ==>
              fs[i].buffer == gs[i].image && fs[i].delay == GifDelayScale * gs[i].rawDelay
  {
    if |gs| == 0 then []
    else [Frame(gs[0].image, gs[0].rawDelay * GifDelayScale)] + GifFrames(gs[1..])
  }

  /** The inverse of the GIF conversion: every GIF delay is a multiple of ten,
      and dividing it back recovers the decoder's frame exactly. */
  lemma {:induction false} GifFramesInvertible(gs: seq<GifFrame>)
    ensures forall i :: 0 <= i < |gs| ==>
              var f := GifFrames(gs)[i];
              f.delay % GifDelayScale == 0 && GifFrame(f.buffer, f.delay / GifDelayScale) == gs[i]
  {
    var fs := GifFrames(gs);
    forall i | 0 <= i < |gs|
      ensures fs[i].delay % GifDelayScale == 0
      ensures GifFrame(fs[i].buffer, fs[i].delay / GifDelayScale) == gs[i]
    {
      assert fs[i].delay == GifDelayScale * gs[i].rawDelay;
    }
  }

  /** The delay `imageData.delay.shift() || 100` hands to frame `i`: the
      i-th reported delay, or 100 ms when it is missing or zero. */
  function ApngDelayAt(delays: seq<nat>, i: nat): (d: nat)
    ensures d > 0
    ensures i < |delays| && delays[i] > 0 ==> d == delays[i]
    ensures !(i < |delays| && delays[i] > 0) ==> d == DefaultApngDelay
  {
    if i < |delays| && delays[i] != 0 then delays[i] else DefaultApngDelay
  }

  /** `extractFramesFromApng`: one frame per decoded image, each taking the
      next delay off the front of the delay list. */
  function ApngFramesFrom(images: seq<Bytes>, delays: seq<nat>): (fs: seq<Frame>)
    ensures |fs| == |images|
    ensures forall i :: 0 <= i < |images| ==>
              fs[i].buffer == images[i] && fs[i].delay == ApngDelayAt(delays, i)
  {
    if |images| == 0 then []
    else
      var first := if |delays| == 0 || delays[0] == 0 then DefaultApngDelay else delays[0];
      var rest := if |delays| == 0 then [] else delays[1..];
      [Frame(images[0], first)] + ApngFramesFrom(images[1..], rest)
  }

  function ApngFrames(d: ApngData): (fs: seq<Frame>)
    ensures |fs| == |d.frames|
    ensures forall i :: 0 <= i < |d.frames| ==>
              fs[i].buffer == d.frames[i] && fs[i].delay == ApngDelayAt(d.delay, i)
  {
    ApngFramesFrom(d.frames, d.delay)
  }

  /** APNG frames keep their order and never have a zero delay, so an APNG
      with at least one frame always has a positive total duration. */
  lemma ApngDelaysPositive(d: ApngData)
    ensures forall i :: 0 <= i < |d.frames| ==>
              ApngFrames(d)[i].buffer == d.frames[i] && ApngFrames(d)[i].delay > 0
    ensures |d.frames| > 0 ==> TotalDuration(ApngFrames(d)) > 0
  {
  }

  /** `frames.reduce((sum, f) => sum + f.delay, 0)`. */
  function TotalDuration(fs: seq<Frame>): (t: nat)
    ensures |fs| == 0 ==> t == 0
    ensures forall i :: 0 <= i < |fs| ==> fs[i].delay <= t
  {
    if |fs| == 0 then 0 else fs[0].delay + TotalDuration(fs[1..])
  }

  lemma {:induction false} TotalAppend(a: seq<Frame>, b: seq<Frame>)
    ensures TotalDuration(a + b) == TotalDuration(a) + TotalDuration(b)
  {
    if |a| == 0 {
      assert a + b == b;
    } else {
      assert (a + b)[1..] == a[1..] + b;
      TotalAppend(a[1..], b);
    }
  }

  /** Extending a prefix by one frame adds that frame's delay. */
  lemma TotalPrefixStep(fs: seq<Frame>, k: nat)
    requires k < |fs|
    ensures TotalDuration(fs[..k + 1]) == TotalDuration(fs[..k]) + fs[k].delay
  {
    assert fs[..k + 1] == fs[..k] + [fs[k]];
    TotalAppend(fs[..k], [fs[k]]);
  }

  /** The total duration of a GIF is ten times the sum of its raw delays. */
  lemma {:induction false} GifTotalDuration(gs: seq<GifFrame>)
    ensures TotalDuration(GifFrames(gs)) == GifDelayScale * RawTotal(gs)
  {
    if |gs| > 0 {
      GifTotalDuration(gs[1..]);
    }
  }

  function RawTotal(gs: seq<GifFrame>): nat {
    if |gs| == 0 then 0 else gs[0].rawDelay + RawTotal(gs[1..])
  }

  /** The running sums `cumulativeTimes`, starting from `acc`. */
  function RunningSums(fs: seq<Frame>, acc: nat): (cum: seq<nat>)
    ensures |cum| == |fs|
    ensures forall k :: 0 <= k < |fs| ==> cum[k] == acc + TotalDuration(fs[..k + 1])
  {
    if |fs| == 0 then []
    else
      var rest := RunningSums(fs[1..], acc + fs[0].delay);
      assert forall k :: 0 < k < |fs| ==> fs[..k + 1][1..] == fs[1..][..k];
      [acc + fs[0].delay] + rest
  }

  /** `cumulativeTimes`: the time at which each frame stops being shown. */
  function Cumulative(fs: seq<Frame>): (cum: seq<nat>)
    ensures |cum| == |fs|
    ensures forall k :: 0 <= k < |fs| ==> cum[k] == TotalDuration(fs[..k + 1])
  {
    RunningSums(fs, 0)
  }

  /** The cumulative times start at the first delay, grow by each next
      frame's delay, and end at the total duration. */
  lemma CumulativeSteps(fs: seq<Frame>)
    requires |fs| > 0
    ensures Cumulative(fs)[0] == fs[0].delay
    ensures forall k :: 0 < k < |fs| ==> Cumulative(fs)[k] == Cumulative(fs)[k - 1] + fs[k].delay
    ensures Cumulative(fs)[|fs| - 1] == TotalDuration(fs)
  {
    var cum := Cumulative(fs);
    TotalPrefixStep(fs, 0);
    forall k | 0 < k < |fs|
      ensures cum[k] == cum[k - 1] + fs[k].delay
    {
      TotalPrefixStep(fs, k);
    }
    assert fs[..|fs|] == fs;
  }

  /** Cumulative times never decrease and never pass the total duration. */
  lemma CumulativeMonotone(fs: seq<Frame>)
    requires |fs| > 0
    ensures forall j, k :: 0 <= j <= k < |fs| ==> Cumulative(fs)[j] <= Cumulative(fs)[k]
    ensures forall k :: 0 <= k < |fs| ==> Cumulative(fs)[k] <= TotalDuration(fs)
  {
    var cum := Cumulative(fs);
    forall j, k | 0 <= j <= k < |fs|
      ensures cum[j] <= cum[k]
    {
      assert fs[..k + 1] == fs[..j + 1] + fs[j + 1..k + 1];
      TotalAppend(fs[..j + 1], fs[j + 1..k + 1]);
    }
    CumulativeSteps(fs);
  }
}
