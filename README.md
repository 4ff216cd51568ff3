# GestureLock pattern-capture model

This project models the core of GestureLock, an Android widget that shows an
N x N grid of circles and lets the user draw an unlock pattern through them.
There are two core classes:

- `GestureLockViewGroup` holds the cells, the chosen path (`mChoose`), the
  stored answer, the first capture of a new pattern, the three flags
  `isFirstTime`, `isActionDone` and `isUnlocked`, the try count and the mode.
  It reacts to touch events and to delayed reset messages.
- `GestureLockView` is one cell: a status code and an arrow degree.

The model is organised in six files:

- `lock_view.dfy` (module `LockView`) models a cell as a class. It holds the
  four status codes and the rule that decides when an arrow is drawn.
- `layout.dfy` (module `Layout`) holds the integer sizing done by `onMeasure`
  and the cell positions. It also holds the hit test: the inset-rectangle
  check and the scan for the first matching cell.
- `session.dfy` (module `Session`) is the state machine as pure functions of
  an abstract `State`:
  - what a touch event and a timer message do;
  - the invariant every reachable state keeps;
  - the per-event properties of the three modes.
- `scenarios.dfy` (module `Scenarios`) proves properties of event sequences.
  It covers drawing a path through cell centres, the two-phase capture of
  Lock mode, running out of tries, and end states no event leaves.
- `view_group.dfy` (module `ViewGroup`) is the widget as a class whose fields
  are updated in place. Each method is proved to move `Model()` as the
  matching `Session` function says. It is also proved to keep `Valid()`: the
  cells are wired, and the ghost mirrors of the cells' statuses and arrows
  match the cells.
- `options.dfy` holds an `Option` type.

The model follows the code as written, including behaviour that reads like
an oversight:

- In Unlock mode, and in Modify mode before the old pattern is verified,
  every evaluation costs one try, even a correct one. So a correct pattern on
  the last try is followed by `noMoreTry`. In Modify mode, verifying the old
  pattern on the last try leaves the widget locked out until the host calls
  `setUnMatchExceedBoundary` with a non-zero count; no touch or timer event
  leaves that state (`Scenarios.ModifyVerifiedOnLastTryLocksOut`).
- `onUnlockError` reports the count before the decrement.
- `ACTION_DOWN` changes nothing, and the path survives `ACTION_UP`. Only the
  delayed reset clears it, so a gesture begun before the reset extends the
  old path.
- The try count is never clamped; the guard tests `== 0`. A negative count
  therefore does not run out: each wrong pattern makes it more negative, and
  it only comes back towards 0 by wrapping from `Integer.MIN_VALUE` to
  `Integer.MAX_VALUE`, which the model reproduces.
- Reset messages are never cancelled while the widget is attached, so the
  timer may fire any number of times. The environment may deliver a `TimerFired` event at any point.

Two behaviours a reader might expect but the code does not have; the model
follows the code:

- The try count has no floor at 0.
- Several reset messages can be pending at once; arming one does not cancel
  another.

## Model

| member | source | states |
|---|---|---|
| LockView.StatusCodesDistinct | src/main/java/com/stone/gesturelock/GestureLockView.java:20-26 | the four status codes are the distinct values 0, 1, 2, 3, and a value is a status code exactly when it lies in 0..3 |
| LockView.IsStatus | src/main/java/com/stone/gesturelock/GestureLockView.java:20-26 | a value is one of the four status codes; `Session.Inv` keeps every cell at one of them |
| LockView.DrawsArrow | src/main/java/com/stone/gesturelock/GestureLockView.java:121-190 | an arrow is drawn exactly when the status is FINGER_UP_FAILED or FINGER_UP_DONE and the degree is not -1; NO_FINGER and FINGER_ON never draw one |
| LockView.GestureLockView.constructor | src/main/java/com/stone/gesturelock/GestureLockView.java:28-60 | a new cell has the id it is given, shows STATUS_NO_FINGER and has arrow degree -1 |
| LockView.GestureLockView.SetStatus | src/main/java/com/stone/gesturelock/GestureLockView.java:197-201 | the status becomes the argument and the arrow degree is unchanged |
| LockView.GestureLockView.SetArrowDegree | src/main/java/com/stone/gesturelock/GestureLockView.java:203-206 | the arrow degree becomes the argument and the status is unchanged |
| LockView.GestureLockView.GetArrowDegree | src/main/java/com/stone/gesturelock/GestureLockView.java:208-211 | returns the current arrow degree |
| LockView.ArrowDegreeRoundTrip | src/main/java/com/stone/gesturelock/GestureLockView.java:203-211 | reading the degree after setting it yields the value set, and the status is kept |
| Layout.GridSpansWidth | src/main/java/com/stone/gesturelock/GestureLockViewGroup.java:199-201 | with side 4W/(5N+1) and margin side/4, N cells and N+1 margins never exceed the width W and fall short of it by at most 2N |
| Layout.CellSide | src/main/java/com/stone/gesturelock/GestureLockViewGroup.java:199 | the cell side 4W/(5N+1), truncated; its bounds are proved by `Layout.GridSpansWidth` |
| Layout.MarginFor | src/main/java/com/stone/gesturelock/GestureLockViewGroup.java:201 | the margin between cells, a quarter of the side, truncated |
| Layout.GridFor | src/main/java/com/stone/gesturelock/GestureLockViewGroup.java:197-201 | the grid onMeasure builds for a square of side W: N per side, side `CellSide`, margin `MarginFor` |
| Layout.Padding | src/main/java/com/stone/gesturelock/GestureLockViewGroup.java:473 | the inset of the hit rectangle, 15% of the side, truncated |
| Layout.WideGridIsSeparated | src/main/java/com/stone/gesturelock/GestureLockViewGroup.java:199-201 | a square at least 5N+1 wide gives cells of side at least 4 and a margin of at least 1 |
| Layout.OffsetStep | src/main/java/com/stone/gesturelock/GestureLockViewGroup.java:212-243 | under the assumed placement, each later column or row starts at least one side plus one margin further on |
| Layout.Offset | src/main/java/com/stone/gesturelock/GestureLockViewGroup.java:212-243 | the assumed placement: column or row c starts at m + c(s + m); `Layout.OffsetStep` proves the spacing |
| Layout.Left | src/main/java/com/stone/gesturelock/GestureLockViewGroup.java:215-219 | the left edge of cell k, at column k % N of the assumed placement; `Layout.Right` is `getRight()`, one side further on |
| Layout.Top | src/main/java/com/stone/gesturelock/GestureLockViewGroup.java:220-224 | the top edge of cell k, at row k / N of the assumed placement; `Layout.Bottom` is `getBottom()`, one side further down |
| Layout.RowColumnDetermine | src/main/java/com/stone/gesturelock/GestureLockViewGroup.java:216-224 | a cell index is determined by its row (i / N) and column (i % N) |
| Layout.InChild | src/main/java/com/stone/gesturelock/GestureLockViewGroup.java:470-478 | checkPositionInChild: the point lies in the cell rectangle shrunk by the padding on every side, bounds included |
| Layout.ColumnsApart | src/main/java/com/stone/gesturelock/GestureLockViewGroup.java:470-478 | on a separated grid, cells in different columns have no point in both inset rectangles |
| Layout.RowsApart | src/main/java/com/stone/gesturelock/GestureLockViewGroup.java:470-478 | on a separated grid, cells in different rows have no point in both inset rectangles |
| Layout.InsetsDisjoint | src/main/java/com/stone/gesturelock/GestureLockViewGroup.java:470-478 | on a separated grid, no point lies in the inset rectangles of two different cells, so at most one cell matches |
| Layout.CentreInOwnCell | src/main/java/com/stone/gesturelock/GestureLockViewGroup.java:470-478 | on a separated grid (side at least 4 and margin at least 1, as any square at least 5N+1 wide gives), the guide-line start of a cell (left/2 + right/2, top/2 + bottom/2) lies in that cell's inset rectangle |
| Layout.ChildIndexAt | src/main/java/com/stone/gesturelock/GestureLockViewGroup.java:486-493 | the scan from a start index returns either nothing or an index between the start and the last cell |
| Layout.FirstMatch | src/main/java/com/stone/gesturelock/GestureLockViewGroup.java:486-493 | the scan returns the first index in array order whose inset rectangle holds the point, no earlier index matches, and it returns None exactly when no cell matches |
| Layout.CentreSelectsCell | src/main/java/com/stone/gesturelock/GestureLockViewGroup.java:470-493 | on a separated grid, a finger at a cell's centre selects exactly that cell |
| Layout.ColumnMarginSelectsNothing | src/main/java/com/stone/gesturelock/GestureLockViewGroup.java:470-493 | a point strictly inside the margin right of a column selects no cell |
| Layout.RowMarginSelectsNothing | src/main/java/com/stone/gesturelock/GestureLockViewGroup.java:470-493 | a point strictly inside the margin below a row selects no cell |
| Layout.TinyCellsOverlap | src/main/java/com/stone/gesturelock/GestureLockViewGroup.java:470-493 | for every square narrower than 5N+1 pixels with N at least 2, margin and padding are 0, the point (side, 0) on the shared edge of the first two cells lies in both rectangles, and the scan picks the earlier cell |
| Session.Initial | src/main/java/com/stone/gesturelock/GestureLockViewGroup.java:49-134 | the initial state keeps the invariant: empty path, first capture pending, not done, not unlocked, no callbacks, every cell unlit and without arrow |
| Session.Blocked | src/main/java/com/stone/gesturelock/GestureLockViewGroup.java:257-259 | the guard of onTouchEvent: done, out of tries (exactly 0) or no mode; `Session.GuardIgnoresTouch` and `Scenarios.FinishedSessionIsFrozen` prove what it blocks |
| Session.ActionMove | src/main/java/com/stone/gesturelock/GestureLockViewGroup.java:269-292 | ACTION_MOVE: append and light a hit cell not yet on the path, start the guide line at its centre (`Layout.CentreX`, `Layout.CentreY`: left/2 + right/2 and top/2 + bottom/2, lines 279-280) and move its end to the finger; stated by `Session.MoveAppendsOnlyNewHit` |
| Session.Mark | src/main/java/com/stone/gesturelock/GestureLockViewGroup.java:418-428 | changeItemStatus: every cell whose id is on the path gets the code (`Session.ResultCode`: DONE after a success and FAILED otherwise, the choice at line 420), the others keep theirs |
| Session.LockEvaluate | src/main/java/com/stone/gesturelock/GestureLockViewGroup.java:298-321 | the capture-then-confirm branch, used by Lock mode and by Modify mode once unlocked (lines 359-381); stated by `Session.LockModeEvaluation` |
| Session.Decrement | src/main/java/com/stone/gesturelock/GestureLockViewGroup.java:336 | Java's `mTryTimes--` on an int: a decrement modulo 2^32 that stays within the int range, reaching 0 exactly from 1 |
| Session.CountTry | src/main/java/com/stone/gesturelock/GestureLockViewGroup.java:336-339 | one try fewer, with the int wrap-around, and noMoreTry exactly when the count becomes 0 |
| Session.UnlockEvaluate | src/main/java/com/stone/gesturelock/GestureLockViewGroup.java:322-340 | the Unlock branch: verdict (`Session.Verdict`: onUnlockCorrect with the path, or onUnlockError with the path and the count, as at lines 327/332 and 347/352), marking, one try spent; stated by `Session.VerificationUsesOneTry` |
| Session.VerifyOldEvaluate | src/main/java/com/stone/gesturelock/GestureLockViewGroup.java:341-358 | the Modify branch before unlocking: success only unlocks, one try spent; stated by `Session.VerificationUsesOneTry` |
| Session.Evaluate | src/main/java/com/stone/gesturelock/GestureLockViewGroup.java:296-389 | the listener branch of ACTION_UP keeps the path, the arrows, the number of cells, the answer, the mode, the listener and the guide line |
| Session.ArrowAngle | src/main/java/com/stone/gesturelock/GestureLockViewGroup.java:405-408 | the arrow of a cell towards the next: the environment's angle of (dy, dx) between their top-left corners, plus 90 |
| Session.SetArrows | src/main/java/com/stone/gesturelock/GestureLockViewGroup.java:398-410 | the arrows after k passes of the arrow loop, one entry per cell; `Session.ArrowOfChosen` and `Session.ArrowUntouched` state what they hold |
| Session.ActionUp | src/main/java/com/stone/gesturelock/GestureLockViewGroup.java:293-411 | ACTION_UP: evaluate, pin the guide line's end to its start, run the arrow loop; stated by `Session.UpSetsArrows` and the evaluation lemmas |
| Session.TouchEvent | src/main/java/com/stone/gesturelock/GestureLockViewGroup.java:256-416 | onTouchEvent: the guard, then dispatch on the action; DOWN and other actions do nothing |
| Session.Reset | src/main/java/com/stone/gesturelock/GestureLockViewGroup.java:434-442 | reset: empty path, every cell NO_FINGER with arrow -1 |
| Session.TimerFire | src/main/java/com/stone/gesturelock/GestureLockViewGroup.java:537-548 | handleMessage: reset unless out of tries or done; stated by `Session.TimerFireResets` |
| Session.Step | src/main/java/com/stone/gesturelock/GestureLockViewGroup.java:256-548 | one event from the environment: a touch handled by onTouchEvent or a queued message handled by handleMessage |
| Session.Run | src/main/java/com/stone/gesturelock/GestureLockViewGroup.java:256-548 | any sequence of touch events and timer messages keeps the cell counts, valid ids and the presence of a first answer once the capture is over |
| Session.AppendKeepsInv | src/main/java/com/stone/gesturelock/GestureLockViewGroup.java:274-277 | appending an absent id and lighting its cell keeps the invariant |
| Session.InvIgnoresGuideLine | src/main/java/com/stone/gesturelock/GestureLockViewGroup.java:279-291 | the guide line's start and end play no part in the invariant |
| Session.MoveKeepsInv | src/main/java/com/stone/gesturelock/GestureLockViewGroup.java:269-292 | ACTION_MOVE keeps the path duplicate-free with ids in 1..N*N and keeps "lit exactly when on the path" |
| Session.MarkKeepsInv | src/main/java/com/stone/gesturelock/GestureLockViewGroup.java:418-428 | marking the path DONE or FAILED keeps the invariant |
| Session.EvaluateKeepsInv | src/main/java/com/stone/gesturelock/GestureLockViewGroup.java:296-389 | every mode branch of ACTION_UP keeps the invariant |
| Session.ArrowUntouched | src/main/java/com/stone/gesturelock/GestureLockViewGroup.java:398-410 | after k iterations of the arrow loop, a cell not among the first k chosen keeps its arrow |
| Session.ArrowOfChosen | src/main/java/com/stone/gesturelock/GestureLockViewGroup.java:398-410 | after k iterations, the j-th chosen cell (j < k) points at the (j+1)-th |
| Session.UpKeepsInv | src/main/java/com/stone/gesturelock/GestureLockViewGroup.java:293-411 | ACTION_UP keeps the invariant; in particular only cells on the path carry an arrow |
| Session.ResetKeepsInv | src/main/java/com/stone/gesturelock/GestureLockViewGroup.java:537-548 | a timer message keeps the invariant |
| Session.StepKeepsInv | src/main/java/com/stone/gesturelock/GestureLockViewGroup.java:256-548 | any touch event or timer message keeps the invariant |
| Session.StepKeepsShaped | src/main/java/com/stone/gesturelock/GestureLockViewGroup.java:256-548 | any event keeps the cell counts, valid ids and a first answer after the first capture |
| Session.RunKeepsInv | src/main/java/com/stone/gesturelock/GestureLockViewGroup.java:256-548 | every state reached by a sequence of events keeps the invariant |
| Session.GuardIgnoresTouch | src/main/java/com/stone/gesturelock/GestureLockViewGroup.java:257-268 | while done, out of tries or in no mode, every touch event leaves the state unchanged; ACTION_DOWN and other actions never change it |
| Session.MoveAppendsOnlyNewHit | src/main/java/com/stone/gesturelock/GestureLockViewGroup.java:269-292 | ACTION_MOVE appends the hit id and lights its cell only when the id is absent, otherwise path and cells stay; the guide line's end becomes (x, y) either way; flags, counts and log are kept |
| Session.LockModeEvaluation | src/main/java/com/stone/gesturelock/GestureLockViewGroup.java:298-321 | first capture: copies the path into the first answer, clears isFirstTime, marks the path DONE and emits onFirstLock; later: done exactly when the path equals the first answer, marks DONE or FAILED, emits the matching callback; tries are never used |
| Session.VerificationUsesOneTry | src/main/java/com/stone/gesturelock/GestureLockViewGroup.java:322-358 | each evaluation uses exactly one try, right or wrong, with the int wrap-around; onUnlockError carries the count before the decrement; noMoreTry follows exactly when the count reaches 0; success sets isActionDone in Unlock mode but only isUnlocked in Modify mode |
| Session.UpWithoutEvaluation | src/main/java/com/stone/gesturelock/GestureLockViewGroup.java:293-396 | without a listener, with an empty path or with an unknown mode, ACTION_UP changes no flag, count, answer, log, path or status |
| Session.UpSetsArrows | src/main/java/com/stone/gesturelock/GestureLockViewGroup.java:397-410 | after ACTION_UP each chosen cell but the last points at its successor, no other cell's arrow changes, and paths of 0 or 1 cells change no arrow |
| Session.TimerFireResets | src/main/java/com/stone/gesturelock/GestureLockViewGroup.java:537-548 | out of tries or done: nothing changes; otherwise the path empties and every cell is unlit with arrow -1, while answers, flags, count and log are kept |
| Session.ArrowDrawnOnlyOnPath | src/main/java/com/stone/gesturelock/GestureLockView.java:121-190 | in every reachable state, a cell that draws an arrow is on the current path |
| Scenarios.RunConcat | src/main/java/com/stone/gesturelock/GestureLockViewGroup.java:256-548 | running two event sequences one after the other equals running their concatenation |
| Scenarios.RunOne | src/main/java/com/stone/gesturelock/GestureLockViewGroup.java:256-548 | running one event is one step |
| Scenarios.FinishedSessionIsFrozen | src/main/java/com/stone/gesturelock/GestureLockViewGroup.java:257-259 | once done or out of tries, no sequence of touch events and timer messages changes anything |
| Scenarios.MoveThroughCentre | src/main/java/com/stone/gesturelock/GestureLockViewGroup.java:269-292 | on a separated grid (side at least 4, margin at least 1), a move to the centre of a cell not yet chosen appends its id, lights it and moves both guide-line ends to that centre |
| Scenarios.DrawRecordsPath | src/main/java/com/stone/gesturelock/GestureLockViewGroup.java:269-292 | on a separated grid (side at least 4, margin at least 1), moving through the centres of new, distinct cells appends exactly those ids, in order, and leaves flags, count, log and arrows alone |
| Scenarios.GestureFromEmpty | src/main/java/com/stone/gesturelock/GestureLockViewGroup.java:269-411 | on a separated grid (side at least 4, margin at least 1), drawing a path from an empty one records exactly that path, and lifting the finger then evaluates it |
| Scenarios.LockCapture | src/main/java/com/stone/gesturelock/GestureLockViewGroup.java:298-306 | on a separated grid (side at least 4, margin at least 1), Lock mode: drawing p, releasing and receiving the reset stores p as first answer, emits onFirstLock(p), keeps the count and leaves an empty path |
| Scenarios.LockConfirm | src/main/java/com/stone/gesturelock/GestureLockViewGroup.java:307-320 | on a separated grid (side at least 4, margin at least 1), Lock mode, second phase: the session ends exactly when q repeats the first answer, with the matching callback and an unchanged count |
| Scenarios.LockCaptureThenConfirm | src/main/java/com/stone/gesturelock/GestureLockViewGroup.java:298-321 | on a separated grid (side at least 4, margin at least 1), Lock mode: p, reset, q emits onFirstLock(p) then success exactly when q equals p; the count is untouched |
| Scenarios.WrongAttempt | src/main/java/com/stone/gesturelock/GestureLockViewGroup.java:322-340 | on a separated grid (side at least 4, margin at least 1), Unlock mode: a wrong pattern plus a reset uses one try, reports the old count, and leaves the widget ready for another attempt while tries remain |
| Scenarios.WrongPatternsExhaustTries | src/main/java/com/stone/gesturelock/GestureLockViewGroup.java:322-340 | on a separated grid (side at least 4, margin at least 1), Unlock mode with t tries: t wrong patterns report errors with counts t, ..., 1, then noMoreTry once, and leave the widget blocked |
| Scenarios.RightPatternOnLastTryReportsNoMoreTry | src/main/java/com/stone/gesturelock/GestureLockViewGroup.java:324-339 | Unlock mode with one try left: the right pattern reports onUnlockCorrect followed by noMoreTry |
| Scenarios.ModifyVerifiedOnLastTryLocksOut | src/main/java/com/stone/gesturelock/GestureLockViewGroup.java:342-358 | Modify mode with one try left: verifying the old pattern unlocks but uses the last try, and no later event changes anything |
| Scenarios.NegativeCountNeverRunsOut | src/main/java/com/stone/gesturelock/GestureLockViewGroup.java:336-339 | from a negative count above Integer.MIN_VALUE a wrong pattern lowers the count by one, keeps it negative, never emits noMoreTry and never blocks the widget |
| Scenarios.MinimumCountWrapsToMaximum | src/main/java/com/stone/gesturelock/GestureLockViewGroup.java:332-339 | at Integer.MIN_VALUE a wrong pattern reports that count and wraps it to Integer.MAX_VALUE, without noMoreTry |
| Scenarios.GestureBeforeResetExtendsPath | src/main/java/com/stone/gesturelock/GestureLockViewGroup.java:293-411 | on a separated grid (side at least 4, margin at least 1), the path survives an ACTION_UP that passes the guard: touching a new cell before the reset extends the old path |
| ViewGroup.GestureLockViewGroup.constructor | src/main/java/com/stone/gesturelock/GestureLockViewGroup.java:195-246 | N*N fresh cells with ids 1..N*N on the grid of the smaller side, all unlit and without arrow; the state is Session.Initial |
| ViewGroup.GestureLockViewGroup.SetStatusAt | src/main/java/com/stone/gesturelock/GestureLockView.java:197-201 | one cell's status changes and nothing else |
| ViewGroup.GestureLockViewGroup.SetArrowAt | src/main/java/com/stone/gesturelock/GestureLockView.java:203-206 | one cell's arrow changes and nothing else |
| ViewGroup.GestureLockViewGroup.GetChildIdByPos | src/main/java/com/stone/gesturelock/GestureLockViewGroup.java:486-493 | returns the cell Layout.ChildIndexAt picks, which is the first in array order whose inset rectangle holds the point (Layout.FirstMatch), and null exactly when none does |
| ViewGroup.GestureLockViewGroup.CheckUnlockAnswer | src/main/java/com/stone/gesturelock/GestureLockViewGroup.java:448-457 | true exactly when the path has the answer's length and the same ids in the same order |
| ViewGroup.GestureLockViewGroup.CheckLockAnswer | src/main/java/com/stone/gesturelock/GestureLockViewGroup.java:459-461 | true exactly when the path equals the first capture |
| ViewGroup.GestureLockViewGroup.ChangeItemStatus | src/main/java/com/stone/gesturelock/GestureLockViewGroup.java:418-428 | every cell whose id is on the path gets DONE or FAILED, and every other cell keeps its status |
| ViewGroup.GestureLockViewGroup.Reset | src/main/java/com/stone/gesturelock/GestureLockViewGroup.java:434-442 | the path empties and every cell shows NO_FINGER with arrow -1; nothing else changes |
| ViewGroup.GestureLockViewGroup.PointArrow | src/main/java/com/stone/gesturelock/GestureLockViewGroup.java:399-409 | one iteration of the arrow loop: the i-th chosen cell gets the angle toward the (i+1)-th |
| ViewGroup.GestureLockViewGroup.PointArrows | src/main/java/com/stone/gesturelock/GestureLockViewGroup.java:397-410 | the arrows become Session.SetArrows over the whole path; nothing else changes |
| ViewGroup.GestureLockViewGroup.LockEvaluate | src/main/java/com/stone/gesturelock/GestureLockViewGroup.java:298-321 | the state moves as Session.LockEvaluate |
| ViewGroup.GestureLockViewGroup.AddToPath | src/main/java/com/stone/gesturelock/GestureLockViewGroup.java:274-280 | the id is appended, its cell is lit and the guide line starts at its centre |
| ViewGroup.GestureLockViewGroup.TrackFinger | src/main/java/com/stone/gesturelock/GestureLockViewGroup.java:269-292 | the state moves as Session.ActionMove |
| ViewGroup.GestureLockViewGroup.TouchMove | src/main/java/com/stone/gesturelock/GestureLockViewGroup.java:269-292 | ACTION_MOVE past the guard keeps Valid and moves the state as Session.ActionMove |
| ViewGroup.GestureLockViewGroup.Report | src/main/java/com/stone/gesturelock/GestureLockViewGroup.java:570-595 | one listener call is appended to the log and nothing else changes |
| ViewGroup.GestureLockViewGroup.CountTry | src/main/java/com/stone/gesturelock/GestureLockViewGroup.java:336-339 | the count drops by one, wrapping from Integer.MIN_VALUE to Integer.MAX_VALUE, and noMoreTry is logged exactly when it reaches 0 |
| ViewGroup.GestureLockViewGroup.UnlockVerdict | src/main/java/com/stone/gesturelock/GestureLockViewGroup.java:324-334 | isActionDone becomes the verdict, and onUnlockCorrect or onUnlockError (with the current count) is logged |
| ViewGroup.GestureLockViewGroup.UnlockEvaluate | src/main/java/com/stone/gesturelock/GestureLockViewGroup.java:322-340 | the state moves as Session.UnlockEvaluate |
| ViewGroup.GestureLockViewGroup.ModifyVerdict | src/main/java/com/stone/gesturelock/GestureLockViewGroup.java:342-354 | on success isUnlocked is set; the path is marked DONE or FAILED and the verdict is logged |
| ViewGroup.GestureLockViewGroup.VerifyOldEvaluate | src/main/java/com/stone/gesturelock/GestureLockViewGroup.java:341-358 | the state moves as Session.VerifyOldEvaluate |
| ViewGroup.GestureLockViewGroup.EvaluatePath | src/main/java/com/stone/gesturelock/GestureLockViewGroup.java:296-389 | the state moves as Session.Evaluate |
| ViewGroup.GestureLockViewGroup.TouchUp | src/main/java/com/stone/gesturelock/GestureLockViewGroup.java:293-411 | ACTION_UP past the guard keeps Valid and moves the state as Session.ActionUp |
| ViewGroup.GestureLockViewGroup.OnTouchEvent | src/main/java/com/stone/gesturelock/GestureLockViewGroup.java:256-416 | every event is consumed, Valid is kept, and the state moves as Session.TouchEvent |
| ViewGroup.GestureLockViewGroup.HandleMessage | src/main/java/com/stone/gesturelock/GestureLockViewGroup.java:537-548 | a reset message keeps Valid and moves the state as Session.TimerFire |
| ViewGroup.GestureLockViewGroup.SetAction | src/main/java/com/stone/gesturelock/GestureLockViewGroup.java:495-497 | only the mode changes |
| ViewGroup.GestureLockViewGroup.SetAnswer | src/main/java/com/stone/gesturelock/GestureLockViewGroup.java:504-509 | null or empty input leaves the state unchanged; otherwise only the answer is replaced |
| ViewGroup.GestureLockViewGroup.SetUnMatchExceedBoundary | src/main/java/com/stone/gesturelock/GestureLockViewGroup.java:516-518 | only the try count changes, to the argument, any int with no bound |
| ViewGroup.GestureLockViewGroup.SetOnGestureLockViewListener | src/main/java/com/stone/gesturelock/GestureLockViewGroup.java:565-568 | only the listener's presence changes |

## Left out

- Rendering is not modelled. That covers `onDraw`, `dispatchDraw`, `Paint`, `Path`, colours, stroke widths and theme attributes. Only the rule deciding whether a cell draws its arrow is kept, as `LockView.DrawsArrow`.
- Android layout is assumed, not modelled. The cell with index k sits at `left = m + (k % N)(s + m)`, `top = m + (k / N)(s + m)`. `addView`, the `RelativeLayout` rules and `MeasureSpec` handling are left out.
- The constructor models the first `onMeasure` together with the field initialisers. N and the starting try count are its parameters, not values from XML attributes. Later `onMeasure` calls, which change nothing once the cells exist, are not modelled.
- Layout.InsetsDisjoint: uniqueness of the hit holds only on grids with side at least 4 and margin at least 1, that is squares at least 5N + 1 wide. Below that, neighbouring rectangles share an edge (`Layout.TinyCellsOverlap`), and the first cell in array order wins.
- Floating point is not modelled:
  - The cell side is taken as `4W / (5N + 1)` in integers and the padding as `side * 15 / 100`. The source computes both in floating point and truncates.
  - The arrow angle `(int) toDegrees(atan2(dy, dx))` is an arbitrary integer function, `toDegrees`, given to the constructor. The model adds 90 to it.
- The answer comparison in `checkUnlockAnswer` compares `Integer` references. It is modelled as value equality. That agrees with the source for ids up to 127 only when the caller's `Integer[]` holds cached boxes, made by autoboxing or `Integer.valueOf`; boxes made with `new Integer` compare unequal.
- Java's 32-bit `int` is modelled as an unbounded integer everywhere except the try count, whose decrement wraps as in Java (`Session.Decrement`). Pixel arithmetic such as `4 * mWidth` at line 199 and the cell offsets would overflow only for widths beyond 2^29 pixels, which the model does not cover.
- Timing is not modelled. The 500 ms and 1000 ms delays, and the order in which queued messages arrive relative to touches, are left out. A reset message is an event the environment may deliver at any time and any number of times.
- Detaching from the window is not modelled. `onDetachedFromWindow` drops the pending reset messages and nulls the handler, so the next evaluation would fail.
- The listener is kept only as present or absent. Its calls are appended to a log rather than calling foreign code, and the callback arguments are the values at the moment of the call. The aliasing of `mChoose` and `mFirstAnswer` passed to the listener is not modelled.
- `setAnswer` stores the caller's array by reference. The model stores its contents, so later changes the caller makes to that array are not modelled.
- `Log.e`, `invalidate` and `postInvalidate` have no effect on the state and are left out.
- `mPath.moveTo`/`lineTo` only build the drawn line. They are left out together with rendering.
