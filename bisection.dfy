/**
  Definitions shared by the two bisection engines: what a monotone
  "has the rocket launched?" oracle is, what answer both engines report,
  and how many probes a search over an interval can take.
 */
module Bisection {

  /** The oracle answers "no" on frames before `k` and "yes" from frame `k` on. */
  ghost predicate LaunchesAt(launched: int -> bool, totalFrames: int, k: int)
  {
    forall i :: 0 <= i < totalFrames ==> (launched(i) <==> k <= i)
  }

  /**
    The answer shape both engines produce: `r` is a frame that is either the
    last frame or answered "yes", and the frame before it is either frame 0
    (which the search never asks about) or answered "no".
   */
  ghost predicate IsReportedBoundary(launched: int -> bool, totalFrames: int, r: int)
  {
    && 0 <= r < totalFrames
    && (r == totalFrames - 1 || launched(r))
    && (r <= 1 || !launched(r - 1))
  }

  /** For a monotone oracle with its first "yes" strictly after frame 0, the boundary is that frame. */
  lemma BoundaryIsFirstLaunch(launched: int -> bool, totalFrames: int, k: int, r: int)
    requires LaunchesAt(launched, totalFrames, k) && 1 <= k < totalFrames
    requires IsReportedBoundary(launched, totalFrames, r)
    ensures r == k
  {
  }

  /** An oracle that never says "yes" makes the boundary the last frame. */
  lemma BoundaryWhenNeverLaunched(launched: int -> bool, totalFrames: int, r: int)
    requires LaunchesAt(launched, totalFrames, totalFrames)
    requires IsReportedBoundary(launched, totalFrames, r)
    ensures r == totalFrames - 1
  {
  }

  /** An oracle that says "yes" everywhere makes the boundary frame 0 or frame 1. */
  lemma BoundaryWhenLaunchedAtStart(launched: int -> bool, totalFrames: int, r: int)
    requires LaunchesAt(launched, totalFrames, 0)
    requires IsReportedBoundary(launched, totalFrames, r)
    ensures r <= 1
  {
  }

  /**
    What `r` is for every monotone oracle: its first "yes" frame when that
    lies in `[1, totalFrames - 1]`, frame 0 or 1 when every frame says "yes",
    and the last frame when none does.
   */
  ghost predicate ResolvesMonotoneOracles(launched: int -> bool, totalFrames: int, r: int)
  {
    && (forall k :: 1 <= k < totalFrames && LaunchesAt(launched, totalFrames, k) ==> r == k)
    && (LaunchesAt(launched, totalFrames, 0) ==> r <= 1)
    && (LaunchesAt(launched, totalFrames, totalFrames) ==> r == totalFrames - 1)
  }

  /** The three lemmas above, for one reported boundary and every threshold at once. */
  lemma ReportedBoundaryOutcomes(launched: int -> bool, totalFrames: int, r: int)
    requires IsReportedBoundary(launched, totalFrames, r)
    ensures ResolvesMonotoneOracles(launched, totalFrames, r)
  {
    forall k | 1 <= k < totalFrames && LaunchesAt(launched, totalFrames, k)
      ensures r == k
    {
      BoundaryIsFirstLaunch(launched, totalFrames, k, r);
    }
    if LaunchesAt(launched, totalFrames, 0) {
      BoundaryWhenLaunchedAtStart(launched, totalFrames, r);
    }
    if LaunchesAt(launched, totalFrames, totalFrames) {
      BoundaryWhenNeverLaunched(launched, totalFrames, r);
    }
  }

  /**
    The number of probes a search needs, in the worst case, to shrink an
    interval whose bounds are `d` apart until they are adjacent: a probe at
    the floor midpoint leaves at most `(d + 1) / 2` between the bounds.
   */
  function Rounds(d: int): nat
    decreases d
  {
    if d <= 1 then 0 else 1 + Rounds((d + 1) / 2)
  }

  function Pow2(n: nat): nat
  {
    if n == 0 then 1 else 2 * Pow2(n - 1)
  }

  /** `Rounds(d)` is the ceiling of the base-2 logarithm of `d`. */
  lemma {:induction false} RoundsIsCeilLog2(d: int)
    requires d >= 2
    ensures Rounds(d) >= 1
    ensures Pow2(Rounds(d) - 1) < d <= Pow2(Rounds(d))
    decreases d
  {
    var h := (d + 1) / 2;
    if h >= 2 {
      RoundsIsCeilLog2(h);
      assert Pow2(Rounds(d)) == 2 * Pow2(Rounds(h));
      assert Pow2(Rounds(d) - 1) == Pow2(Rounds(h));
      assert Pow2(Rounds(h)) == 2 * Pow2(Rounds(h) - 1);
    } else {
      assert d == 2 && Rounds(h) == 0;
    }
  }

  /** A smaller interval never needs more rounds. */
  lemma {:induction false} RoundsMonotone(a: int, b: int)
    requires a <= b
    ensures Rounds(a) <= Rounds(b)
    decreases b
  {
    if a > 1 {
      RoundsMonotone((a + 1) / 2, (b + 1) / 2);
    }
  }

  /**
    Moving either bound onto the floor midpoint of `left < mid < right`
    uses up at least one of the rounds the interval had.
   */
  lemma ProbeUsesARound(left: int, right: int)
    requires left + 1 < right
    ensures var mid := (left + right) / 2;
      && left < mid < right
      && Rounds(mid - left) + 1 <= Rounds(right - left)
      && Rounds(right - mid) + 1 == Rounds(right - left)
  {
    var d, mid := right - left, (left + right) / 2;
    assert right - mid == (d + 1) / 2;
    RoundsMonotone(mid - left, (d + 1) / 2);
  }
}
