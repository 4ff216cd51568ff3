/**
 * Properties of whole interactions: a finger drawing a path through cell
 * centres, the two-phase capture of Lock mode, running out of tries in
 * Unlock mode, and the end states that no later event leaves.
 */
module Scenarios {
  import opened Options
  import opened LockView
  import opened Layout
  import opened Session

  /** ACTION_MOVE events through the centres of the cells on `path`, in order. */
  function Moves(g: Grid, path: seq<int>): seq<Event>
    requires ValidIds(g, path)
  {
    if path == [] then []
    else [Touched(Move(CentreX(g, path[0] - 1), CentreY(g, path[0] - 1)))] + Moves(g, path[1..])
  }

  /** One gesture: draw `path`, then lift the finger at (x, y). */
  function Gesture(g: Grid, path: seq<int>, x: int, y: int): seq<Event>
    requires ValidIds(g, path)
  {
    Moves(g, path) + [Touched(Up(x, y))]
  }

  lemma {:induction false} RunConcat(g: Grid, toDegrees: (int, int) -> int, s: State, a: seq<Event>, b: seq<Event>)
    requires Shaped(g, s)
    ensures Run(g, toDegrees, s, a + b) == Run(g, toDegrees, Run(g, toDegrees, s, a), b)
    decreases |a|
  {
    if a != [] {
      assert (a + b)[0] == a[0] && (a + b)[1..] == a[1..] + b;
      StepKeepsShaped(g, toDegrees, s, a[0]);
      RunConcat(g, toDegrees, Step(g, toDegrees, s, a[0]), a[1..], b);
    } else {
      assert a + b == b;
    }
  }

  lemma RunOne(g: Grid, toDegrees: (int, int) -> int, s: State, ev: Event)
    requires Shaped(g, s)
    ensures Run(g, toDegrees, s, [ev]) == Step(g, toDegrees, s, ev)
  {
    StepKeepsShaped(g, toDegrees, s, ev);
    assert [ev][1..] == [];
  }

  /** Once a session is done or out of tries, no touch and no timer message changes anything. */
  lemma {:induction false} FinishedSessionIsFrozen(g: Grid, toDegrees: (int, int) -> int, s: State, evs: seq<Event>)
    requires Shaped(g, s)
    requires s.isActionDone || s.tryTimes == 0
    ensures Run(g, toDegrees, s, evs) == s
    decreases |evs|
  {
    if evs != [] {
      assert Step(g, toDegrees, s, evs[0]) == s;
      FinishedSessionIsFrozen(g, toDegrees, s, evs[1..]);
    }
  }

  /** The state after the finger reaches the centre of cell `id`, not yet on the path. */
  function AddCell(g: Grid, s: State, id: int): State
    requires 1 <= id <= Cells(g) && |s.status| == Cells(g)
  {
    var c := Point(CentreX(g, id - 1), CentreY(g, id - 1));
    s.(choose := s.choose + [id], status := s.status[id - 1 := STATUS_FINGER_ON], lastPath := c, target := c)
  }

  /** One move through the centre of a cell not yet on the path appends its id and nothing else. */
  lemma MoveThroughCentre(g: Grid, toDegrees: (int, int) -> int, s: State, id: int)
    requires Inv(g, s) && !Blocked(s) && Separated(g) && 1 <= id <= Cells(g) && id !in s.choose
    ensures Step(g, toDegrees, s, Touched(Move(CentreX(g, id - 1), CentreY(g, id - 1)))) == AddCell(g, s, id)
    ensures Inv(g, AddCell(g, s, id))
  {
    CentreSelectsCell(g, id - 1);
    MoveKeepsInv(g, s, CentreX(g, id - 1), CentreY(g, id - 1));
  }

  /**
   * Moving through the centres of new, distinct cells appends exactly those
   * ids to the path, whatever the path held before.
   */
  lemma {:induction false} DrawRecordsPath(g: Grid, toDegrees: (int, int) -> int, s: State, path: seq<int>)
    requires Inv(g, s) && !Blocked(s) && Separated(g)
    requires ValidIds(g, path) && NoDuplicates(path)
    requires forall i :: 0 <= i < |path| ==> path[i] !in s.choose
    ensures var r := Run(g, toDegrees, s, Moves(g, path));
      r.choose == s.choose + path && SameSession(r, s) && r.arrow == s.arrow
    decreases |path|
  {
    if path == [] {
      assert s.choose + path == s.choose;
    } else {
      var id, rest := path[0], path[1..];
      var ev := Touched(Move(CentreX(g, id - 1), CentreY(g, id - 1)));
      MoveThroughCentre(g, toDegrees, s, id);
      var s1 := AddCell(g, s, id);
      assert Moves(g, path)[0] == ev && Moves(g, path)[1..] == Moves(g, rest);
      forall i | 0 <= i < |rest|
        ensures rest[i] !in s1.choose
      {
        assert rest[i] == path[i + 1];
      }
      DrawRecordsPath(g, toDegrees, s1, rest);
      assert s1.choose + rest == s.choose + path;
    }
  }

  /** Drawing a path from an empty one, then lifting the finger. */
  lemma GestureFromEmpty(g: Grid, toDegrees: (int, int) -> int, s: State, path: seq<int>, x: int, y: int)
    requires Inv(g, s) && !Blocked(s) && Separated(g) && s.choose == []
    requires ValidIds(g, path) && NoDuplicates(path)
    ensures var drawn := Run(g, toDegrees, s, Moves(g, path));
      && Inv(g, drawn) && drawn.choose == path && SameSession(drawn, s)
      && Run(g, toDegrees, s, Gesture(g, path, x, y)) == ActionUp(g, toDegrees, drawn)
  {
    DrawRecordsPath(g, toDegrees, s, path);
    RunKeepsInv(g, toDegrees, s, Moves(g, path));
    var drawn := Run(g, toDegrees, s, Moves(g, path));
    RunConcat(g, toDegrees, s, Moves(g, path), [Touched(Up(x, y))]);
    RunOne(g, toDegrees, drawn, Touched(Up(x, y)));
  }

  /** Lock mode, first phase: draw p, release, and let the reset message arrive. */
  lemma LockCapture(g: Grid, toDegrees: (int, int) -> int, s: State, p: seq<int>, x: int, y: int)
    requires Inv(g, s) && Separated(g)
    requires s.action == ACTION_LOCK && s.hasListener && s.isFirstTime
    requires !s.isActionDone && s.tryTimes != 0 && s.choose == []
    requires p != [] && ValidIds(g, p) && NoDuplicates(p)
    ensures var r := Run(g, toDegrees, s, Gesture(g, p, x, y) + [TimerFired]);
      && r.action == ACTION_LOCK && r.hasListener && !r.isFirstTime && r.firstAnswer == Some(p)
      && !r.isActionDone && r.tryTimes == s.tryTimes && r.choose == []
      && r.log == s.log + [OnFirstLock(ACTION_LOCK, p)]
  {
    var first := Run(g, toDegrees, s, Gesture(g, p, x, y));
    GestureFromEmpty(g, toDegrees, s, p, x, y);
    LockModeEvaluation(g, toDegrees, Run(g, toDegrees, s, Moves(g, p)));
    RunConcat(g, toDegrees, s, Gesture(g, p, x, y), [TimerFired]);
    RunOne(g, toDegrees, first, TimerFired);
  }

  /** Lock mode, second phase: draw q and release; success exactly when q repeats the capture. */
  lemma LockConfirm(g: Grid, toDegrees: (int, int) -> int, s: State, q: seq<int>, x: int, y: int)
    requires Inv(g, s) && Separated(g)
    requires s.action == ACTION_LOCK && s.hasListener && !s.isFirstTime
    requires !s.isActionDone && s.tryTimes != 0 && s.choose == []
    requires q != [] && ValidIds(g, q) && NoDuplicates(q)
    ensures var r := Run(g, toDegrees, s, Gesture(g, q, x, y));
      && r.tryTimes == s.tryTimes && r.firstAnswer == s.firstAnswer
      && r.isActionDone == (q == s.firstAnswer.value)
      && r.log == s.log + [if r.isActionDone then OnSecondLockSucceeded(ACTION_LOCK, q)
                           else OnSecondLockFailed(ACTION_LOCK)]
  {
    GestureFromEmpty(g, toDegrees, s, q, x, y);
    LockModeEvaluation(g, toDegrees, Run(g, toDegrees, s, Moves(g, q)));
  }

  /**
   * Lock mode: drawing p, waiting for the reset, then drawing q reports the
   * first capture of p and then success exactly when q repeats p; the try
   * count is never touched.
   */
  lemma LockCaptureThenConfirm(g: Grid, toDegrees: (int, int) -> int, s: State,
                               p: seq<int>, q: seq<int>, x: int, y: int)
    requires Inv(g, s) && Separated(g)
    requires s.action == ACTION_LOCK && s.hasListener && s.isFirstTime
    requires !s.isActionDone && s.tryTimes != 0 && s.choose == []
    requires p != [] && ValidIds(g, p) && NoDuplicates(p)
    requires q != [] && ValidIds(g, q) && NoDuplicates(q)
    ensures var r := Run(g, toDegrees, s, Gesture(g, p, x, y) + [TimerFired] + Gesture(g, q, x, y));
      && r.tryTimes == s.tryTimes
      && r.isActionDone == (p == q)
      && r.firstAnswer == Some(p)
      && r.log == s.log + [OnFirstLock(ACTION_LOCK, p),
                           if p == q then OnSecondLockSucceeded(ACTION_LOCK, p) else OnSecondLockFailed(ACTION_LOCK)]
  {
    var cleared := Run(g, toDegrees, s, Gesture(g, p, x, y) + [TimerFired]);
    LockCapture(g, toDegrees, s, p, x, y);
    RunKeepsInv(g, toDegrees, s, Gesture(g, p, x, y) + [TimerFired]);
    LockConfirm(g, toDegrees, cleared, q, x, y);
    RunConcat(g, toDegrees, s, Gesture(g, p, x, y) + [TimerFired], Gesture(g, q, x, y));
  }

  /** The error reports of consecutive failed attempts, counting down from t. */
  function ErrorReports(action: int, paths: seq<seq<int>>, t: int): seq<Callback>
  {
    if paths == [] then []
    else [OnUnlockError(action, paths[0], t)] + ErrorReports(action, paths[1..], t - 1)
  }

  /** Each path drawn and released, followed by one timer message. */
  function Attempts(g: Grid, paths: seq<seq<int>>, x: int, y: int): seq<Event>
    requires forall i :: 0 <= i < |paths| ==> ValidIds(g, paths[i])
  {
    if paths == [] then []
    else Gesture(g, paths[0], x, y) + [TimerFired] + Attempts(g, paths[1..], x, y)
  }

  /** Unlock mode, waiting for a gesture, with an empty path. */
  predicate UnlockReady(s: State)
  {
    s.action == ACTION_UNLOCK && s.hasListener && !s.isActionDone && s.choose == []
  }

  /** Every path is a non-empty, duplicate-free sequence of ids that differs from the answer. */
  predicate AllWrong(g: Grid, paths: seq<seq<int>>, answer: seq<int>)
  {
    forall i :: 0 <= i < |paths| ==>
      paths[i] != [] && ValidIds(g, paths[i]) && NoDuplicates(paths[i]) && paths[i] != answer
  }

  lemma AllWrongTail(g: Grid, paths: seq<seq<int>>, answer: seq<int>)
    requires paths != [] && AllWrong(g, paths, answer)
    ensures AllWrong(g, paths[1..], answer)
  {
    forall i | 0 <= i < |paths| - 1
      ensures paths[1..][i] != [] && ValidIds(g, paths[1..][i]) && NoDuplicates(paths[1..][i]) && paths[1..][i] != answer
    {
      assert paths[1..][i] == paths[i + 1];
    }
  }

  /** One wrong pattern in Unlock mode, released and followed by a timer message. */
  lemma WrongAttempt(g: Grid, toDegrees: (int, int) -> int, s: State, p: seq<int>, x: int, y: int)
    requires Inv(g, s) && Separated(g) && UnlockReady(s) && s.tryTimes >= 1
    requires p != [] && ValidIds(g, p) && NoDuplicates(p) && p != s.answer
    ensures var r := Run(g, toDegrees, s, Gesture(g, p, x, y) + [TimerFired]);
      && r.tryTimes == s.tryTimes - 1 && !r.isActionDone && r.answer == s.answer
      && (s.tryTimes > 1 ==> UnlockReady(r))
      && r.log == s.log + [OnUnlockError(ACTION_UNLOCK, p, s.tryTimes)]
                        + (if s.tryTimes == 1 then [NoMoreTry(ACTION_UNLOCK)] else [])
  {
    var up := Run(g, toDegrees, s, Gesture(g, p, x, y));
    GestureFromEmpty(g, toDegrees, s, p, x, y);
    VerificationUsesOneTry(g, toDegrees, Run(g, toDegrees, s, Moves(g, p)));
    RunConcat(g, toDegrees, s, Gesture(g, p, x, y), [TimerFired]);
    RunOne(g, toDegrees, up, TimerFired);
  }

  /**
   * Unlock mode with t tries left: t wrong patterns in a row report the
   * errors with counts t, t - 1, ..., 1, then noMoreTry once, and leave the
   * session out of tries.
   */
  lemma {:induction false} WrongPatternsExhaustTries(g: Grid, toDegrees: (int, int) -> int, s: State,
                                                     paths: seq<seq<int>>, x: int, y: int)
    requires Inv(g, s) && Separated(g) && UnlockReady(s)
    requires paths != [] && s.tryTimes == |paths| && AllWrong(g, paths, s.answer)
    ensures var r := Run(g, toDegrees, s, Attempts(g, paths, x, y));
      && r.tryTimes == 0 && !r.isActionDone && Blocked(r)
      && r.log == s.log + ErrorReports(ACTION_UNLOCK, paths, |paths|) + [NoMoreTry(ACTION_UNLOCK)]
    decreases |paths|
  {
    var after := FirstWrongAttempt(g, toDegrees, s, paths, x, y);
    if |paths| > 1 {
      var rest := paths[1..];
      WrongPatternsExhaustTries(g, toDegrees, after, rest, x, y);
    }
  }

  /**
   * The first of a series of wrong attempts: running the series is running
   * the rest from the state it leaves, which has one try fewer and is ready
   * for the rest.
   */
  lemma FirstWrongAttempt(g: Grid, toDegrees: (int, int) -> int, s: State, paths: seq<seq<int>>, x: int, y: int)
      returns (after: State)
    requires Inv(g, s) && Separated(g) && UnlockReady(s)
    requires paths != [] && s.tryTimes == |paths| && AllWrong(g, paths, s.answer)
    ensures after.tryTimes == |paths| - 1 && !after.isActionDone
    ensures after.log == s.log + [OnUnlockError(ACTION_UNLOCK, paths[0], |paths|)]
                              + (if |paths| == 1 then [NoMoreTry(ACTION_UNLOCK)] else [])
    ensures |paths| > 1 ==>
      after.log + ErrorReports(ACTION_UNLOCK, paths[1..], |paths| - 1) == s.log + ErrorReports(ACTION_UNLOCK, paths, |paths|)
    ensures |paths| == 1 ==> Run(g, toDegrees, s, Attempts(g, paths, x, y)) == after
    ensures |paths| > 1 ==> Inv(g, after) && UnlockReady(after) && AllWrong(g, paths[1..], after.answer)
    ensures |paths| > 1 ==> Run(g, toDegrees, s, Attempts(g, paths, x, y)) == Run(g, toDegrees, after, Attempts(g, paths[1..], x, y))
  {
    var first := Gesture(g, paths[0], x, y) + [TimerFired];
    after := Run(g, toDegrees, s, first);
    WrongAttempt(g, toDegrees, s, paths[0], x, y);
    RunKeepsInv(g, toDegrees, s, first);
    AllWrongTail(g, paths, s.answer);
    assert Attempts(g, paths, x, y) == first + Attempts(g, paths[1..], x, y);
    RunConcat(g, toDegrees, s, first, Attempts(g, paths[1..], x, y));
    if |paths| == 1 {
      assert Attempts(g, paths[1..], x, y) == [];
    }
    ErrorReportsStep(s.log, paths);
  }

  /** The log after the first error report, followed by the reports of the rest, is the log followed by all reports. */
  lemma ErrorReportsStep(log: seq<Callback>, paths: seq<seq<int>>)
    requires paths != []
    ensures log + [OnUnlockError(ACTION_UNLOCK, paths[0], |paths|)] + ErrorReports(ACTION_UNLOCK, paths[1..], |paths| - 1)
         == log + ErrorReports(ACTION_UNLOCK, paths, |paths|)
  {
    var e := OnUnlockError(ACTION_UNLOCK, paths[0], |paths|);
    var tail := ErrorReports(ACTION_UNLOCK, paths[1..], |paths| - 1);
    assert ErrorReports(ACTION_UNLOCK, paths, |paths|) == [e] + tail;
    ConcatAssoc(log, [e], tail);
  }

  lemma ConcatAssoc<T>(a: seq<T>, b: seq<T>, c: seq<T>)
    ensures a + b + c == a + (b + c)
  {
  }

  /**
   * Unlock mode with one try left: even the right pattern is followed by
   * noMoreTry, because the try count drops on success too.
   */
  lemma RightPatternOnLastTryReportsNoMoreTry(g: Grid, toDegrees: (int, int) -> int, s: State)
    requires Inv(g, s) && s.action == ACTION_UNLOCK && s.hasListener && !s.isActionDone
    requires s.tryTimes == 1 && s.choose != [] && s.choose == s.answer
    ensures var r := ActionUp(g, toDegrees, s);
      r.isActionDone && r.tryTimes == 0
      && r.log == s.log + [OnUnlockCorrect(ACTION_UNLOCK, s.answer), NoMoreTry(ACTION_UNLOCK)]
  {
    VerificationUsesOneTry(g, toDegrees, s);
  }

  /**
   * Modify mode with one try left: verifying the old pattern correctly
   * unlocks but uses the last try, so no new pattern can ever be captured.
   */
  lemma ModifyVerifiedOnLastTryLocksOut(g: Grid, toDegrees: (int, int) -> int, s: State, evs: seq<Event>)
    requires Inv(g, s) && s.action == ACTION_MODIFY && s.hasListener && !s.isActionDone && !s.isUnlocked
    requires s.tryTimes == 1 && s.choose != [] && s.choose == s.answer
    ensures var r := ActionUp(g, toDegrees, s);
      && r.isUnlocked && r.tryTimes == 0 && !r.isActionDone
      && r.log == s.log + [OnUnlockCorrect(ACTION_MODIFY, s.answer), NoMoreTry(ACTION_MODIFY)]
      && Inv(g, r) && Run(g, toDegrees, r, evs) == r
  {
    VerificationUsesOneTry(g, toDegrees, s);
    UpKeepsInv(g, toDegrees, s);
    FinishedSessionIsFrozen(g, toDegrees, ActionUp(g, toDegrees, s), evs);
  }

  /**
   * Nothing bounds the count from below: above INT_MIN, a negative count
   * only grows more negative, a wrong pattern never leads to noMoreTry and
   * the session does not run out of tries.
   */
  lemma NegativeCountNeverRunsOut(g: Grid, toDegrees: (int, int) -> int, s: State)
    requires Inv(g, s) && !Blocked(s) && s.hasListener && s.choose != [] && s.choose != s.answer
    requires s.action == ACTION_UNLOCK && INT_MIN < s.tryTimes < 0
    ensures var r := ActionUp(g, toDegrees, s);
      r.tryTimes == s.tryTimes - 1 && r.tryTimes < 0 && !Blocked(r)
      && r.log == s.log + [OnUnlockError(ACTION_UNLOCK, s.choose, s.tryTimes)]
  {
    VerificationUsesOneTry(g, toDegrees, s);
  }

  /**
   * At INT_MIN the decrement wraps: a wrong pattern reports INT_MIN and
   * leaves INT_MAX tries, again without noMoreTry.
   */
  lemma MinimumCountWrapsToMaximum(g: Grid, toDegrees: (int, int) -> int, s: State)
    requires Inv(g, s) && !Blocked(s) && s.hasListener && s.choose != [] && s.choose != s.answer
    requires s.action == ACTION_UNLOCK && s.tryTimes == INT_MIN
    ensures var r := ActionUp(g, toDegrees, s);
      r.tryTimes == INT_MAX && !Blocked(r)
      && r.log == s.log + [OnUnlockError(ACTION_UNLOCK, s.choose, INT_MIN)]
  {
    VerificationUsesOneTry(g, toDegrees, s);
  }

  /**
   * The path survives ACTION_UP: a finger that touches a new cell before the
   * reset message arrives extends the old path instead of starting afresh.
   */
  lemma GestureBeforeResetExtendsPath(g: Grid, toDegrees: (int, int) -> int, s: State, k: nat)
    requires Inv(g, s) && Separated(g) && k < Cells(g) && k + 1 !in s.choose
    requires !Blocked(s) && !Blocked(ActionUp(g, toDegrees, s))
    ensures var up := ActionUp(g, toDegrees, s);
      Inv(g, up)
      && TouchEvent(g, toDegrees, up, Move(CentreX(g, k), CentreY(g, k))).choose == s.choose + [k + 1]
  {
    UpKeepsInv(g, toDegrees, s);
    CentreSelectsCell(g, k);
  }
}
