/** The frame indices `getKeyFrameDataURLs` (index.ts) asks the GIF decoder
    for: 0%, 10%, ..., 90% of the frame count, rounded down, in range,
    without repeats, ascending. `Math.floor(total * 0.k)` is modelled as the
    exact `total * k / 10`. */
module LegacyKeyframes {
  import opened SortedSets

  /** The ten fractions 0/10 .. 9/10 of the frame count. */
  const Fractions := 10

  /** `[0, Math.floor(total * 0.1), ..., Math.floor(total * 0.9)]`. */
  function Candidates(total: nat): (c: seq<int>)
    ensures |c| == Fractions
    ensures forall k :: 0 <= k < Fractions ==> 10 * c[k] <= total * k < 10 * c[k] + 10
  {
    seq(Fractions, k requires 0 <= k < Fractions => total * k / 10)
  }

  /** `.filter(i => i >= 0 && i < total)`. */
  function KeepInRange(xs: seq<int>, total: nat): (r: seq<int>)
    ensures forall x :: x in r <==> x in xs && 0 <= x < total
    ensures |r| <= |xs|
  {
    if |xs| == 0 then []
    else (if 0 <= xs[0] < total then [xs[0]] else []) + KeepInRange(xs[1..], total)
  }

  /** Every candidate of a non-empty animation is already a frame index. */
  lemma CandidatesInRange(total: nat)
    requires total > 0
    ensures forall x :: x in Candidates(total) ==> 0 <= x < total
  {
  }

  /** The index list: empty for an empty animation, otherwise starting at
      frame 0, strictly increasing, within the frames, at most ten long, and
      holding exactly the candidate positions. */
  function KeyframeIndices(total: nat): (r: seq<int>)
    ensures total == 0 ==> r == []
    ensures StrictlyIncreasing(r)
    ensures |r| <= Fractions
    ensures forall i :: 0 <= i < |r| ==> 0 <= r[i] < total
    ensures total > 0 ==> |r| > 0 && r[0] == 0
    ensures forall x :: x in r <==> total > 0 && x in Candidates(total)
  {
    if total == 0 then []
    else
      CandidatesInRange(total);
      var r := SortUnique(KeepInRange(Candidates(total), total));
      assert Candidates(total)[0] == 0;
      assert 0 in r;
      assert forall i :: 0 <= i < |r| ==> r[i] in r;
      r
  }
}
