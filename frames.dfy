/**
  The batch bisection of `BisectionAlgorithm.find_launch_frame`: the same
  search as the interactive session, run as one loop against a frame getter
  and a frame tester. Both are pure function parameters here; the frame
  payload type `F` is opaque to the search.
 */
module Frames {
  import opened Wrappers
  import opened Bisection

  /** The `ValueError` raised for an empty frame array. */
  datatype FrameError = EmptyFrameArray

  /** The tester's verdict on the frame the getter returns for index `i`. */
  function Observed<F>(frameGetter: int -> F, frameTester: (F, int) -> bool): int -> bool
  {
    i => frameTester(frameGetter(i), i)
  }

  /**
    Searches `[0, totalFrames - 1]` by moving `left` or `right` onto the floor
    midpoint until they are adjacent, and answers `right`. `probes` records
    each index handed to the getter and the tester, in order.
   */
  method FindLaunchFrame<F>(totalFrames: int, frameGetter: int -> F, frameTester: (F, int) -> bool)
    returns (result: Result<int, FrameError>, ghost probes: seq<int>)
    ensures result.Failure? <==> totalFrames < 1
    ensures result.Failure? ==> probes == []
    ensures totalFrames == 1 ==> result == Success(0) && probes == []
    ensures result.Success? ==> IsReportedBoundary(Observed(frameGetter, frameTester), totalFrames, result.value)
    ensures result.Success? && totalFrames >= 2 ==> result.value >= 1
    ensures forall i :: 0 <= i < |probes| ==> 0 < probes[i] < totalFrames - 1
    ensures |probes| <= Rounds(totalFrames - 1)
    ensures forall k :: 1 <= k < totalFrames && LaunchesAt(Observed(frameGetter, frameTester), totalFrames, k) ==>
      result == Success(k)
    ensures totalFrames >= 2 && LaunchesAt(Observed(frameGetter, frameTester), totalFrames, 0) ==> result == Success(1)
    ensures totalFrames >= 1 && LaunchesAt(Observed(frameGetter, frameTester), totalFrames, totalFrames) ==>
      result == Success(totalFrames - 1)
  {
    probes := [];
    if totalFrames < 1 {
      return Failure(EmptyFrameArray), probes;
    }
    ghost var launched := Observed(frameGetter, frameTester);
    var left := 0;
    var right := totalFrames - 1;
    while left + 1 < right
      invariant 0 <= left <= right <= totalFrames - 1
      invariant totalFrames >= 2 ==> left < right
      invariant left == 0 || !launched(left)
      invariant right == totalFrames - 1 || launched(right)
      invariant forall i :: 0 <= i < |probes| ==> 0 < probes[i] < totalFrames - 1
      invariant |probes| + Rounds(right - left) <= Rounds(totalFrames - 1)
      decreases right - left
    {
      var mid := (left + right) / 2;
      ProbeUsesARound(left, right);
      var frameData := frameGetter(mid);
      var hasLaunched := frameTester(frameData, mid);
      probes := probes + [mid];
      assert hasLaunched == launched(mid);
      if hasLaunched {
        right := mid;
      } else {
        left := mid;
      }
    }
    result := Success(right);
    ReportedBoundaryOutcomes(launched, totalFrames, right);
  }
}
