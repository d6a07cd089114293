# Rocket launch frame bisection, modelled in Dafny

The bot finds the first video frame at which a rocket has launched by binary
search over frame indices, asking an oracle "has it launched at frame i?".
There are two engines, and this project models both:

- the **interactive session** (`UserSession` and `SessionManager` in
  `rocket_launch_bot/bot/session_manager.py`). Each chat user has one session.
  It keeps `left_bound`, `right_bound`, `current_frame`, `steps_taken` and
  `found_frame`. The chat handlers answer for the user, in the order
  "`update_bounds(answer)`, then `next_step()`", until `next_step` reports
  completion.
- the **batch search** `BisectionAlgorithm.find_launch_frame` in
  `rocket_launch_bot/bot/frames.py`. It runs the same search as one loop
  against a frame getter and a frame tester.

Both move one bound *onto* the probed midpoint, never to the probe ± 1: "yes"
moves the right bound and "no" moves the left bound. They stop when the bounds
are adjacent, so the bounds never cross, and the answer is the right bound.
The searches probe only frames strictly between the bounds, so frame 0 and the
last frame are never asked about. For an oracle that first says "yes" at frame `k`,
with `1 <= k <= total - 1`, both return `k`. If the rocket is already launched
at frame 0, both return 1 once there are 3 or more frames. An oracle that
never says "yes" gets the last frame.

Files:
- `wrappers.dfy` (`Wrappers`): `Option` and `Result`. These stand in for
  Python's `None` and for raised exceptions.
- `bisection.dfy` (`Bisection`): definitions both engines share.
  - `LaunchesAt` is a monotone oracle.
  - `IsReportedBoundary` is the shape of the answer both engines give.
  - `Rounds(d)` is the worst-case number of probes for a bound gap `d`. It
    equals the ceiling of log2 `d`.
- `frames.dfy` (`Frames`): `FindLaunchFrame`. The async getter and tester are
  pure function parameters, and the frame payload is an opaque type `F`. A
  ghost sequence records the probed indices.
- `sessions.dfy` (`Sessions`): the `UserSession` and `SessionManager` classes,
  whose methods update fields in place. `AnswerProbe` is one answer of
  `handle_frame_response`. `Drive` repeats it with an abstract yes/no oracle,
  and each repetition is an `AnswerRound`, which also shows that the reported
  progress percentage never drops. `RunBisection` is `start_command`: session
  creation, the progress request, then the answer loop.

The model follows the code.
- `UserSession` does not validate `total_frames`. With 0 frames,
  `right_bound` is -1 and the session "finds" frame -1. `Drive` requires at
  least one frame, and `RunBisection` accepts any count.
- With 2 frames or fewer, the first `next_step` already converges and sets
  `found_frame` to `total_frames - 1`. Right after `create_session`,
  `steps_taken` and the remaining-step estimate are then both 0, so the progress request of
  `start_command` divides by zero. The command stops with an error message
  before any frame is shown, and the stored session keeps that first answer.
  `RunBisection` returns `Failure(ZeroDivision)` exactly when there are 2
  frames or fewer, and drives the search otherwise.
- `Drive` also accepts a 1- or 2-frame session. That covers an answer that
  still reaches such a session, for example from a button under an earlier
  message. The answer then moves a bound onto frame 0.

## Model

| member | source | states |
|---|---|---|
| Sessions.UserSession.constructor | rocket_launch_bot/bot/session_manager.py:10-17 | A new session has bounds 0 and `total_frames - 1`, current frame 0, no steps and no found frame. It does no validation. |
| Sessions.UserSession.NextStep | rocket_launch_bot/bot/session_manager.py:19-27 | Completes exactly when `left + 1 >= right`, and then answers `right` and leaves the probe and step count alone. Otherwise the new probe is the floor midpoint, strictly between the bounds, and the step count rises by one. The bounds never change. |
| Sessions.UserSession.UpdateBounds | rocket_launch_bot/bot/session_manager.py:29-34 | "Yes" sets only the right bound to the probe, and "no" sets only the left bound. After a probe strictly inside the bounds, `left < right` still holds and the gap strictly shrinks. |
| Sessions.UserSession.CalculateRemainingSteps | rocket_launch_bot/bot/session_manager.py:47-55 | Changes no field. Returns the worst-case number of rounds for the current gap (ceil log2 of it), and returns 0 exactly when the bounds are adjacent or crossed. |
| Sessions.UserSession.GetProgressInfo | rocket_launch_bot/bot/session_manager.py:36-45 | Fails with a division by zero exactly when no step was taken and none remains. Otherwise it reports the session's frame, total and steps with the remaining-step estimate, and the percentage `ProgressPercentage` gives for those steps. That percentage lies in [0, 100] and is 100 exactly when the search has converged. |
| Sessions.ProgressPercentage | rocket_launch_bot/bot/session_manager.py:44 | The percentage lies in [0, 100] and is 100 exactly when no steps remain. |
| Sessions.ProgressNeverDecreases | rocket_launch_bot/bot/session_manager.py:36-45 | The percentage does not drop when the steps taken do not drop and the estimated total does not grow. |
| Sessions.AnswerRoundKeepsProgress | rocket_launch_bot/bot/session_manager.py:19-55 | After an answer about a probe strictly inside the bounds, and the following `next_step`, the reported percentage is at least what it was before. |
| Sessions.SessionManager.constructor | rocket_launch_bot/bot/session_manager.py:61-62 | A new manager holds no sessions. |
| Sessions.SessionManager.CreateSession | rocket_launch_bot/bot/session_manager.py:64-70 | Stores a fresh session for the user in place of any earlier one and leaves other users' entries alone. The session is in the state one `next_step` leaves: it is converged with no step for 1 or 2 frames, and otherwise it is probing the midpoint with one step taken. |
| Sessions.SessionManager.GetSession | rocket_launch_bot/bot/session_manager.py:72-74 | Returns the stored session when there is one and `None` exactly when the id is absent. |
| Sessions.SessionManager.EndSession | rocket_launch_bot/bot/session_manager.py:76-80 | Removes only that user's entry, and changes nothing when the id is absent. |
| Sessions.AnswerProbe | rocket_launch_bot/handlers/command_handlers.py:119-123 | One answer moves exactly one bound onto the shown frame: the right bound on "yes", the left bound on "no". The round then completes exactly when the bounds are adjacent, answering the right bound with the frame and steps unchanged. Otherwise the next frame is the new midpoint, the step count rises by one and the found frame is left as it was. |
| Sessions.AnswerRound | rocket_launch_bot/handlers/command_handlers.py:119-123 | From a session awaiting an answer, one round either completes with a reported boundary within the worst-case step count, or leaves a session awaiting the next answer with a strictly smaller gap. The reported progress percentage never drops across the round. |
| Sessions.Drive | rocket_launch_bot/handlers/command_handlers.py:117-128 | Repeating `AnswerProbe` from a new session terminates. The found frame is a reported boundary and is at least 1 with 3 or more frames, and at most ceil(log2(total - 1)) steps are taken. A monotone oracle with its first "yes" at k in [1, total - 1] yields k. An all-"yes" oracle yields frame 0 or 1, and frame 1 with 3 or more frames. A never-"yes" oracle yields the last frame. |
| Sessions.RunBisection | rocket_launch_bot/handlers/command_handlers.py:17-46 | Stores the new session under the user's id, in place of any earlier one. With 2 frames or fewer, the progress request fails with a division by zero and no answer is taken, so the session keeps its first answer, `total - 1`. Otherwise the answer loop runs: a monotone oracle with its first "yes" at k in [1, total - 1] yields k, an all-"yes" oracle yields 1, and a never-"yes" oracle yields the last frame. |
| Sessions.EightFrameScenario | rocket_launch_bot/bot/session_manager.py:19-34 | With 8 frames and the launch at frame 5, the probes are 3, 5 and 4. The session finds frame 5 after 3 steps. |
| Frames.FindLaunchFrame | rocket_launch_bot/bot/frames.py:63-100 | Fails exactly when `total_frames < 1`, before any probe. One frame gives 0 with no probe. Every probe lies strictly between frame 0 and the last frame, and there are at most ceil(log2(total - 1)) of them. The result is a reported boundary, at least 1 when there are 2 or more frames. A monotone tester with its first "yes" at k in [1, total - 1] yields k. An all-"yes" tester yields 1, and a never-"yes" tester yields the last frame. |
| Bisection.BoundaryIsFirstLaunch | rocket_launch_bot/bot/frames.py:72-82 | For a monotone oracle with its first "yes" at k in [1, total - 1], the only reported boundary is k, the first launch frame the docstring promises. |
| Bisection.BoundaryWhenNeverLaunched | rocket_launch_bot/bot/frames.py:95-100 | If the oracle never says "yes", the reported boundary is the last frame. |
| Bisection.BoundaryWhenLaunchedAtStart | rocket_launch_bot/bot/frames.py:95-100 | If the oracle says "yes" at every frame, the reported boundary is frame 0 or frame 1, because frame 0 is never probed. |
| Bisection.ReportedBoundaryOutcomes | rocket_launch_bot/bot/frames.py:72-100 | A reported boundary is the first "yes" frame k of a monotone oracle whenever k is in [1, total - 1]. It is frame 0 or 1 for an all-"yes" oracle and the last frame for a never-"yes" oracle. |
| Bisection.ProbeUsesARound | rocket_launch_bot/bot/frames.py:89-98 | The floor midpoint of bounds more than one apart lies strictly between them. Moving either bound onto it uses up at least one round of the worst-case count. |
| Bisection.RoundsMonotone | rocket_launch_bot/bot/session_manager.py:51-54 | A smaller bound gap never needs more rounds. |
| Bisection.RoundsIsCeilLog2 | rocket_launch_bot/bot/session_manager.py:47-55 | The worst-case round count for a gap `d >= 2` is the ceiling of log2 `d`, which makes the number of probes logarithmic in the frame count. |

## Left out

- Sessions.ProgressPercentage: the source computes `int(s / (s + r) * 100)` in floating point. The model uses exact integer division, so it claims only the [0, 100] bound and "100 exactly when nothing remains", not the exact value.
- Sessions.UserSession.GetProgressInfo: its percentage is the integer `ProgressPercentage`, so it is not shown to equal the floating-point value, for the same reason.
- Sessions.ProgressNeverDecreases: the monotonicity holds for the exact integer percentage. It is not shown for the floating-point one.
- Sessions.Drive: the percentage is proved not to drop in each round (`AnswerRound`), but `Drive` does not record the sequence of reported percentages.
- The "Session expired" branch of `handle_frame_response`, where no session is stored for the user: `AnswerProbe` starts once the session is found.
- `FrameXClient` and `FrameProcessor` in `rocket_launch_bot/bot/frames.py`, and `rocket_launch_bot/bot/framex_client.py`: network access, URL building and image resizing. The search does not depend on the image bytes.
- The async/await nature of the frame getter and tester: they are pure functions here, so a failing fetch is not modelled.
- Telegram handlers, keyboards and messages (`rocket_launch_bot/handlers/command_handlers.py`): only their call order is modelled, in `Drive` and `RunBisection`. Exceptions they turn into chat messages are not modelled.
- Logging calls, `rocket_launch_bot/bot/states.py`, `rocket_launch_bot/main.py` and `rocket_launch_bot/config.py`: these are UI states, process wiring and environment reads.
- Sharing of one manager between concurrent handlers: the model has one caller at a time.
