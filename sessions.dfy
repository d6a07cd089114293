/**
  The interactive bisection engine: one `UserSession` per user, holding the
  search bounds that the user's yes/no answers move, and a `SessionManager`
  that keeps at most one session per user id.
 */
module Sessions {
  import opened Wrappers
  import opened Bisection

  /** What `get_progress_info` reports. */
  datatype ProgressInfo = ProgressInfo(
    currentFrame: int,
    totalFrames: int,
    stepsTaken: nat,
    remainingSteps: nat,
    progressPercentage: int)

  /** The `ZeroDivisionError` of the percentage when no step was taken and none remains. */
  datatype ProgressError = ZeroDivision

  /** Percentage of the estimated total steps already taken, rounded down. */
  function ProgressPercentage(steps: nat, remaining: nat): (p: int)
    requires steps + remaining > 0
    ensures 0 <= p <= 100
    ensures p == 100 <==> remaining == 0
  {
    var total := steps + remaining;
    var p := (100 * steps) / total;
    assert p * total <= 100 * steps < (p + 1) * total;
    CancelFactor(p, 101, total);
    if remaining == 0 then
      CancelFactor(100, p + 1, total);
      p
    else
      CancelFactor(p, 100, total);
      p
  }

  /** Multiplying both sides by the same positive factor keeps a strict order. */
  lemma CancelFactor(x: int, y: int, c: int)
    requires 0 < c && x * c < y * c
    ensures x < y
  {
    if y <= x {
      MultiplyKeepsOrder(y, x, c);
    }
  }

  lemma MultiplyKeepsOrder(x: int, y: int, c: nat)
    requires x <= y
    ensures x * c <= y * c
  {
  }

  /** Dividing by a larger number never gives a larger quotient. */
  lemma DivideByLarger(a: nat, small: int, large: int)
    requires 0 < small <= large
    ensures a / large <= a / small
  {
    var q, q' := a / large, a / small;
    MultiplyKeepsOrder(small, large, q);
    assert small * q <= large * q <= a;
    assert a < (q' + 1) * small;
    CancelFactor(q, q' + 1, small);
  }

  /** A larger numerator never gives a smaller quotient. */
  lemma DivideLargerNumerator(a: nat, b: nat, d: int)
    requires a <= b && 0 < d
    ensures a / d <= b / d
  {
    var q, q' := a / d, b / d;
    assert q * d <= a <= b < (q' + 1) * d;
    CancelFactor(q, q' + 1, d);
  }

  /**
    The percentage does not drop when the steps taken do not drop and the
    estimated total (steps taken plus steps remaining) does not grow.
   */
  lemma ProgressNeverDecreases(steps: nat, remaining: nat, steps': nat, remaining': nat)
    requires steps <= steps'
    requires 0 < steps' + remaining' <= steps + remaining
    ensures ProgressPercentage(steps, remaining) <= ProgressPercentage(steps', remaining')
  {
    DivideByLarger(100 * steps, steps' + remaining', steps + remaining);
    DivideLargerNumerator(100 * steps, 100 * steps', steps' + remaining');
  }

  /**
    One answer round of the chat protocol (`update_bounds`, then `next_step`)
    from a probe strictly inside the bounds never lowers the reported
    percentage: either the search converges (nothing remains) or one more
    step is taken while the remaining estimate drops by at least one.
   */
  lemma AnswerRoundKeepsProgress(steps: nat, left: int, right: int, hasLaunched: bool)
    requires steps >= 1 && left + 1 < right
    ensures
      var mid := (left + right) / 2;
      var left' := if hasLaunched then left else mid;
      var right' := if hasLaunched then mid else right;
      var steps' := if left' + 1 >= right' then steps else steps + 1;
      ProgressPercentage(steps, Rounds(right - left)) <= ProgressPercentage(steps', Rounds(right' - left'))
  {
    var mid := (left + right) / 2;
    var left' := if hasLaunched then left else mid;
    var right' := if hasLaunched then mid else right;
    ProbeUsesARound(left, right);
    if left' + 1 >= right' {
      ProgressNeverDecreases(steps, Rounds(right - left), steps, Rounds(right' - left'));
    } else {
      ProgressNeverDecreases(steps, Rounds(right - left), steps + 1, Rounds(right' - left'));
    }
  }

  class UserSession {
    const userId: int
    const totalFrames: int
    var leftBound: int
    var rightBound: int
    var currentFrame: int
    var stepsTaken: nat
    var foundFrame: Option<int>

    /** No check of `totalFrames`: zero or fewer frames give `rightBound < 0`. */
    constructor (userId: int, totalFrames: int)
      ensures this.userId == userId && this.totalFrames == totalFrames
      ensures leftBound == 0 && rightBound == totalFrames - 1
      ensures currentFrame == 0 && stepsTaken == 0 && foundFrame == None
    {
      this.userId := userId;
      this.totalFrames := totalFrames;
      leftBound := 0;
      rightBound := totalFrames - 1;
      currentFrame := 0;
      stepsTaken := 0;
      foundFrame := None;
    }

    /** The bounds are adjacent (or crossed): nothing is left to ask. */
    predicate Converged()
      reads this
    {
      leftBound + 1 >= rightBound
    }

    /** The state `create_session` leaves behind: a new session after one `NextStep`. */
    predicate JustCreated()
      reads this
    {
      && leftBound == 0
      && rightBound == totalFrames - 1
      && if totalFrames <= 2 then
           currentFrame == 0 && stepsTaken == 0 && foundFrame == Some(rightBound)
         else
           currentFrame == (totalFrames - 1) / 2 && stepsTaken == 1 && foundFrame == None
    }

    /**
      Declares convergence, answering `rightBound`, or picks the floor
      midpoint as the next frame to show. The bounds never change here.
     */
    method NextStep() returns (complete: bool)
      modifies this`currentFrame, this`stepsTaken, this`foundFrame
      ensures complete <==> Converged()
      ensures complete ==> foundFrame == Some(rightBound)
      ensures complete ==> currentFrame == old(currentFrame) && stepsTaken == old(stepsTaken)
      ensures !complete ==> leftBound < currentFrame < rightBound
      ensures !complete ==> currentFrame == (leftBound + rightBound) / 2
      ensures !complete ==> stepsTaken == old(stepsTaken) + 1 && foundFrame == old(foundFrame)
    {
      if leftBound + 1 >= rightBound {
        foundFrame := Some(rightBound);
        return true;
      }
      currentFrame := (leftBound + rightBound) / 2;
      stepsTaken := stepsTaken + 1;
      return false;
    }

    /** Moves one bound onto the frame just shown: `rightBound` on "yes", `leftBound` on "no". */
    method UpdateBounds(hasLaunched: bool)
      modifies this`leftBound, this`rightBound
      ensures hasLaunched ==> rightBound == currentFrame && leftBound == old(leftBound)
      ensures !hasLaunched ==> leftBound == currentFrame && rightBound == old(rightBound)
      ensures old(leftBound) < currentFrame < old(rightBound) ==>
        leftBound < rightBound && rightBound - leftBound < old(rightBound) - old(leftBound)
    {
      if hasLaunched {
        rightBound := currentFrame;
      } else {
        leftBound := currentFrame;
      }
    }

    /**
      Counts the rounds an always-"no" search would still take from the
      current bounds; that is the worst case, `Rounds` of the bound gap.
     */
    method CalculateRemainingSteps() returns (steps: nat)
      ensures steps == Rounds(rightBound - leftBound)
      ensures steps == 0 <==> Converged()
    {
      var left, right := leftBound, rightBound;
      steps := 0;
      while left + 1 < right
        invariant right == rightBound
        invariant steps + Rounds(right - left) == Rounds(rightBound - leftBound)
        decreases right - left
      {
        ProbeUsesARound(left, right);
        steps := steps + 1;
        var mid := (left + right) / 2;
        left := mid;
      }
    }

    /** Fails with a division by zero exactly when no step was taken and none remains. */
    method GetProgressInfo() returns (info: Result<ProgressInfo, ProgressError>)
      ensures info.Failure? <==> stepsTaken == 0 && Converged()
      ensures info.Success? ==>
        && info.value.currentFrame == currentFrame
        && info.value.totalFrames == totalFrames
        && info.value.stepsTaken == stepsTaken
        && info.value.remainingSteps == Rounds(rightBound - leftBound)
        && info.value.progressPercentage == ProgressPercentage(stepsTaken, info.value.remainingSteps)
        && 0 <= info.value.progressPercentage <= 100
        && (info.value.progressPercentage == 100 <==> Converged())
    {
      var remainingSteps := CalculateRemainingSteps();
      if stepsTaken + remainingSteps == 0 {
        return Failure(ZeroDivision);
      }
      var percentage := ProgressPercentage(stepsTaken, remainingSteps);
      return Success(ProgressInfo(currentFrame, totalFrames, stepsTaken, remainingSteps, percentage));
    }
  }

  class SessionManager {
    var sessions: map<int, UserSession>

    constructor ()
      ensures sessions == map[]
    {
      sessions := map[];
    }

    /** Starts a session, computes its first frame, and stores it in place of any earlier one. */
    method CreateSession(userId: int, totalFrames: int) returns (session: UserSession)
      modifies this
      ensures fresh(session)
      ensures sessions == old(sessions)[userId := session]
      ensures session.userId == userId && session.totalFrames == totalFrames
      ensures session.JustCreated()
    {
      session := new UserSession(userId, totalFrames);
      var _ := session.NextStep();
      sessions := sessions[userId := session];
    }

    /** The session stored for `userId`, or `None`. */
    function GetSession(userId: int): (s: Option<UserSession>)
      reads this
      ensures s.Some? <==> userId in sessions
      ensures s.Some? ==> s.value == sessions[userId]
    {
      if userId in sessions then Some(sessions[userId]) else None
    }

    /** Forgets the session of `userId`; nothing happens if there is none. */
    method EndSession(userId: int)
      modifies this
      ensures sessions == old(sessions) - {userId}
      ensures userId !in old(sessions) ==> sessions == old(sessions)
    {
      if userId in sessions {
        sessions := sessions - {userId};
      }
    }
  }

  /**
    A session waiting for the answer about `current`: the probe is the floor
    midpoint strictly inside the bounds (or, for one or two frames, frame 0
    with the bounds already adjacent and no step taken); every bound that
    has moved off the ends carries the answer that moved it there; and the
    steps taken plus the worst case still to come stay within the worst
    case for the whole video.
   */
  ghost predicate Awaiting(launched: int -> bool, n: int, left: int, current: int, right: int, steps: nat)
  {
    && 0 <= left <= current <= right <= n - 1
    && (|| (left < current < right && current == (left + right) / 2 && steps >= 1)
        || (current == left == 0 && left + 1 >= right && steps == 0 && n <= 2))
    && (left == 0 || !launched(left))
    && (right == n - 1 || launched(right))
    && steps + Rounds(right - left) <= Rounds(n - 1) + 1
  }

  /**
    A completed search answered `found`: a reported boundary, reached
    within the worst-case number of steps, and past frame 0 with at least
    one step taken whenever there are three frames or more.
   */
  ghost predicate Finished(launched: int -> bool, n: int, found: int, steps: nat)
  {
    && IsReportedBoundary(launched, n, found)
    && steps <= Rounds(n - 1)
    && (n >= 3 ==> found >= 1 && steps >= 1)
  }

  /**
    One round of `handle_frame_response`, from a session awaiting the answer
    about `current`: the answer moves a bound onto `current` (`left'`,
    `right'`), then `NextStep` either completes (`complete`, with the steps
    unchanged) or probes the new midpoint (`current'`) as one more step. On
    completion `right'` is a reported boundary reached within the worst
    case; otherwise the session awaits the next answer with a strictly
    smaller gap. Either way the reported percentage does not drop.
   */
  lemma AnswerRound(launched: int -> bool, n: int, left: int, current: int, right: int, steps: nat,
                    left': int, current': int, right': int, steps': nat, complete: bool)
    requires Awaiting(launched, n, left, current, right, steps)
    requires if launched(current) then left' == left && right' == current else left' == current && right' == right
    requires complete <==> left' + 1 >= right'
    requires complete ==> steps' == steps
    requires !complete ==> current' == (left' + right') / 2 && steps' == steps + 1
    ensures complete ==> Finished(launched, n, right', steps')
    ensures !complete ==>
      && left < current
      && Awaiting(launched, n, left', current', right', steps')
      && right' - left' < right - left
    ensures left < current ==>
      ProgressPercentage(steps, Rounds(right - left)) <= ProgressPercentage(steps', Rounds(right' - left'))
  {
    if left < current {
      ProbeUsesARound(left, right);
      AnswerRoundKeepsProgress(steps, left, right, launched(current));
      if !complete {
        ProbeUsesARound(left', right');
      }
    }
  }

  /**
    The body of `handle_frame_response` once the session is found: the
    answer about `currentFrame` moves one bound onto it, then `NextStep`
    either completes the search or picks the next frame.
   */
  method AnswerProbe(session: UserSession, hasLaunched: bool) returns (complete: bool)
    modifies session
    ensures hasLaunched ==>
      session.leftBound == old(session.leftBound) && session.rightBound == old(session.currentFrame)
    ensures !hasLaunched ==>
      session.leftBound == old(session.currentFrame) && session.rightBound == old(session.rightBound)
    ensures complete <==> session.Converged()
    ensures complete ==> && session.foundFrame == Some(session.rightBound)
                         && session.currentFrame == old(session.currentFrame)
                         && session.stepsTaken == old(session.stepsTaken)
    ensures !complete ==> && session.currentFrame == (session.leftBound + session.rightBound) / 2
                          && session.stepsTaken == old(session.stepsTaken) + 1
                          && session.foundFrame == old(session.foundFrame)
  {
    session.UpdateBounds(hasLaunched);
    complete := session.NextStep();
  }

  /**
    The protocol of `handle_frame_response`: feed the answer about
    `currentFrame` to `UpdateBounds`, then call `NextStep`, until `NextStep`
    reports completion. `launched` is the user's answer. Each round is an
    `AnswerRound`, so the reported percentage never drops along the way.
   */
  method Drive(session: UserSession, launched: int -> bool) returns (found: int)
    requires session.totalFrames >= 1 && session.JustCreated()
    modifies session
    ensures session.foundFrame == Some(found) && session.Converged()
    ensures IsReportedBoundary(launched, session.totalFrames, found)
    ensures session.stepsTaken <= Rounds(session.totalFrames - 1)
    ensures session.totalFrames >= 3 ==> found >= 1
    ensures ResolvesMonotoneOracles(launched, session.totalFrames, found)
    ensures session.totalFrames >= 3 && LaunchesAt(launched, session.totalFrames, 0) ==> found == 1
  {
    var n := session.totalFrames;
    var done := false;
    found := 0;
    while !done
      invariant !done ==>
        Awaiting(launched, n, session.leftBound, session.currentFrame, session.rightBound, session.stepsTaken)
      invariant done ==>
        && session.foundFrame == Some(found) && session.Converged()
        && Finished(launched, n, found, session.stepsTaken)
      decreases if done then 0 else session.rightBound - session.leftBound + 1
    {
      ghost var steps, left, current, right :=
        session.stepsTaken, session.leftBound, session.currentFrame, session.rightBound;
      done := AnswerProbe(session, launched(session.currentFrame));
      AnswerRound(launched, n, left, current, right, steps,
                  session.leftBound, session.currentFrame, session.rightBound, session.stepsTaken, done);
      if done {
        found := session.rightBound;
      }
    }
    ReportedBoundaryOutcomes(launched, n, found);
  }

  /**
    `start_command`: create the session, then ask for its progress before
    showing any frame. With two frames or fewer that request divides by zero,
    the command stops with an error message and no frame is ever shown, so
    the session keeps the answer its first `NextStep` gave. Otherwise the
    user answers until the search completes.
   */
  method RunBisection(manager: SessionManager, userId: int, totalFrames: int, launched: int -> bool)
    returns (session: UserSession, outcome: Result<int, ProgressError>)
    modifies manager
    ensures fresh(session)
    ensures manager.sessions == old(manager.sessions)[userId := session]
    ensures outcome.Failure? <==> totalFrames <= 2
    ensures outcome.Failure? ==> session.JustCreated() && session.foundFrame == Some(totalFrames - 1)
    ensures outcome.Success? ==>
      && session.foundFrame == Some(outcome.value)
      && IsReportedBoundary(launched, totalFrames, outcome.value)
    ensures outcome.Success? ==> ResolvesMonotoneOracles(launched, totalFrames, outcome.value)
    ensures forall k :: 1 <= k < totalFrames && totalFrames >= 3 && LaunchesAt(launched, totalFrames, k) ==>
      outcome == Success(k)
    ensures totalFrames >= 3 && LaunchesAt(launched, totalFrames, 0) ==> outcome == Success(1)
    ensures totalFrames >= 3 && LaunchesAt(launched, totalFrames, totalFrames) ==> outcome == Success(totalFrames - 1)
  {
    session := manager.CreateSession(userId, totalFrames);
    var progress := session.GetProgressInfo();
    if progress.Failure? {
      return session, Failure(progress.error);
    }
    var found := Drive(session, launched);
    outcome := Success(found);
  }

  /** Eight frames, launch at frame 5: probes 3 ("no"), 5 ("yes"), 4 ("no"), answer 5. */
  method EightFrameScenario() returns (found: Option<int>, steps: nat)
    ensures found == Some(5) && steps == 3
  {
    var manager := new SessionManager();
    var session := manager.CreateSession(7, 8);
    assert session.currentFrame == 3;
    session.UpdateBounds(false);
    var done := session.NextStep();
    assert !done && session.currentFrame == 5;
    session.UpdateBounds(true);
    done := session.NextStep();
    assert !done && session.currentFrame == 4;
    session.UpdateBounds(false);
    done := session.NextStep();
    assert done;
    found, steps := session.foundFrame, session.stepsTaken;
  }
}
