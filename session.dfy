/**
 * The pattern-capture state machine of GestureLockViewGroup, as a pure
 * function of an abstract state: what one touch event or one timer message
 * does to the cells, the chosen path, the answers, the flags, the try count
 * and the log of listener callbacks.
 *
 * The class in view_group.dfy is proved to follow these functions; the
 * properties of the widget are proved here and in scenarios.dfy.
 */
module Session {
  import opened Options
  import opened LockView
  import opened Layout

  /** The modes a caller selects with setAction. */
  const ACTION_UNDEFINED: int := 0x000
  const ACTION_LOCK: int := 0x100
  const ACTION_UNLOCK: int := 0x200
  const ACTION_MODIFY: int := 0x300

  /** The range of a Java int, the type of the try count. */
  const INT_MIN: int := -0x8000_0000
  const INT_MAX: int := 0x7fff_ffff

  predicate IsInt(v: int)
  {
    INT_MIN <= v <= INT_MAX
  }

  /** Java's `t--` on an int: a decrement modulo 2^32, so INT_MIN wraps to INT_MAX. */
  function Decrement(t: int): (r: int)
    ensures IsInt(t) ==> IsInt(r) && (r - (t - 1)) % 0x1_0000_0000 == 0
    ensures r == 0 <==> t == 1
  {
    if t == INT_MIN then INT_MAX else t - 1
  }

  datatype Point = Point(x: int, y: int)

  /** A call made to the listener, with its arguments at the moment of the call. */
  datatype Callback =
    | OnFirstLock(action: int, answer: seq<int>)
    | OnSecondLockSucceeded(action: int, answer: seq<int>)
    | OnSecondLockFailed(action: int)
    | OnUnlockCorrect(action: int, answer: seq<int>)
    | OnUnlockError(action: int, answer: seq<int>, chances: int)
    | NoMoreTry(action: int)

  /** The touch events the widget receives, with their coordinates truncated to int. */
  datatype MotionEvent =
    | Down(x: int, y: int)
    | Move(x: int, y: int)
    | Up(x: int, y: int)
    | OtherAction(x: int, y: int)

  /**
   * Everything the state machine reads or writes. status[k] and arrow[k] belong
   * to the cell with id k + 1; choose holds ids in the order they were visited;
   * firstAnswer is None while the Java field is still null; lastPath is the
   * start of the guide line and target its end.
   */
  datatype State = State(
    status: seq<int>,
    arrow: seq<int>,
    choose: seq<int>,
    answer: seq<int>,
    firstAnswer: Option<seq<int>>,
    isFirstTime: bool,
    isActionDone: bool,
    isUnlocked: bool,
    tryTimes: int,
    action: int,
    hasListener: bool,
    lastPath: Point,
    target: Point,
    log: seq<Callback>)

  predicate NoDuplicates(ids: seq<int>)
  {
    forall i, j :: 0 <= i < j < |ids| ==> ids[i] != ids[j]
  }

  predicate ValidIds(g: Grid, ids: seq<int>)
  {
    forall i :: 0 <= i < |ids| ==> 1 <= ids[i] <= Cells(g)
  }

  /**
   * What every reachable state satisfies: one status and one arrow per cell,
   * a try count within the int range, a duplicate-free path of valid ids, a cell is lit exactly when its id is on
   * the path, only cells on the path carry an arrow, and a first answer exists
   * once the first capture is over.
   */
  ghost predicate Inv(g: Grid, s: State)
  {
    && Shaped(g, s)
    && IsInt(s.tryTimes)
    && NoDuplicates(s.choose)
    && (forall k :: 0 <= k < Cells(g) ==> IsStatus(s.status[k]))
    && (forall k :: 0 <= k < Cells(g) ==> (s.status[k] != STATUS_NO_FINGER <==> k + 1 in s.choose))
    && (forall k :: 0 <= k < Cells(g) && k + 1 !in s.choose ==> s.arrow[k] == NO_ARROW)
  }

  /** What the step functions need to be defined: sizes, valid ids and a first answer after the first capture. */
  predicate Shaped(g: Grid, s: State)
  {
    && |s.status| == Cells(g) && |s.arrow| == Cells(g)
    && ValidIds(g, s.choose)
    && (!s.isFirstTime ==> s.firstAnswer.Some?)
  }

  /** The state right after onMeasure built the cells. */
  function Initial(g: Grid, tryTimes: int): (s: State)
    requires IsInt(tryTimes)
    ensures Inv(g, s)
    ensures s.choose == [] && s.isFirstTime && !s.isActionDone && !s.isUnlocked && s.log == []
    ensures forall k :: 0 <= k < Cells(g) ==> s.status[k] == STATUS_NO_FINGER && s.arrow[k] == NO_ARROW
  {
    State(seq(Cells(g), _ => STATUS_NO_FINGER), seq(Cells(g), _ => NO_ARROW), [], [], None,
          true, false, false, tryTimes, ACTION_UNDEFINED, false, Point(0, 0), Point(0, 0), [])
  }

  /** The guard of onTouchEvent: when it holds, the event is swallowed. */
  predicate Blocked(s: State)
  {
    s.isActionDone || s.tryTimes == 0 || s.action == ACTION_UNDEFINED
  }

  /**
   * ACTION_MOVE: a hit cell not yet on the path is appended, lit and becomes
   * the start of the guide line; the guide line's end follows the finger.
   */
  function ActionMove(g: Grid, s: State, x: int, y: int): State
    requires |s.status| == Cells(g)
  {
    var moved :=
      match ChildIndexAt(g, x, y, 0)
      case Some(k) =>
        if k + 1 !in s.choose then
          s.(choose := s.choose + [k + 1],
             status := s.status[k := STATUS_FINGER_ON],
             lastPath := Point(CentreX(g, k), CentreY(g, k)))
        else s
      case None => s;
    moved.(target := Point(x, y))
  }

  /** changeItemStatus: every cell whose id is on the path gets `code`. */
  function Mark(status: seq<int>, choose: seq<int>, code: int): seq<int>
  {
    seq(|status|, k requires 0 <= k < |status| => if k + 1 in choose then code else status[k])
  }

  /** The code changeItemStatus gives the path: DONE after a success, FAILED otherwise. */
  function ResultCode(done: bool): int
  {
    if done then STATUS_FINGER_UP_DONE else STATUS_FINGER_UP_FAILED
  }

  /** Lock mode, and Modify mode once the old pattern is verified: capture, then confirm. */
  function LockEvaluate(s: State): State
    requires !s.isFirstTime ==> s.firstAnswer.Some?
  {
    if s.isFirstTime then
      s.(isFirstTime := false,
         status := Mark(s.status, s.choose, STATUS_FINGER_UP_DONE),
         firstAnswer := Some(s.choose),
         log := s.log + [OnFirstLock(s.action, s.choose)])
    else
      var ok := s.firstAnswer.value == s.choose;
      s.(isActionDone := ok,
         status := Mark(s.status, s.choose, ResultCode(ok)),
         log := s.log + [if ok then OnSecondLockSucceeded(s.action, s.firstAnswer.value)
                         else OnSecondLockFailed(s.action)])
  }

  /** After a verification: one try fewer, and noMoreTry when the count has just reached 0. */
  function CountTry(s: State): State
  {
    var t := Decrement(s.tryTimes);
    s.(tryTimes := t,
       log := if t == 0 then s.log + [NoMoreTry(s.action)] else s.log)
  }

  /** The callback of a verification: onUnlockCorrect with the path, or onUnlockError with the path and the count. */
  function Verdict(s: State, ok: bool): Callback
  {
    if ok then OnUnlockCorrect(s.action, s.choose) else OnUnlockError(s.action, s.choose, s.tryTimes)
  }

  /** Unlock mode: compare with the stored answer; success ends the session. */
  function UnlockEvaluate(s: State): State
  {
    var ok := s.answer == s.choose;
    CountTry(s.(isActionDone := ok,
                status := Mark(s.status, s.choose, ResultCode(ok)),
                log := s.log + [Verdict(s, ok)]))
  }

  /** Modify mode before the old pattern is verified: as Unlock, but success only unlocks. */
  function VerifyOldEvaluate(s: State): State
  {
    var ok := s.answer == s.choose;
    CountTry(s.(isUnlocked := if ok then true else s.isUnlocked,
                status := Mark(s.status, s.choose, ResultCode(ok)),
                log := s.log + [Verdict(s, ok)]))
  }

  /** The listener branch of ACTION_UP: runs only with a listener and a non-empty path. */
  function Evaluate(s: State): (r: State)
    requires !s.isFirstTime ==> s.firstAnswer.Some?
    ensures r.choose == s.choose && r.arrow == s.arrow && |r.status| == |s.status|
    ensures r.answer == s.answer && r.action == s.action && r.hasListener == s.hasListener
    ensures r.lastPath == s.lastPath && r.target == s.target
  {
    if !s.hasListener || |s.choose| == 0 then s
    else if s.action == ACTION_LOCK then LockEvaluate(s)
    else if s.action == ACTION_UNLOCK then UnlockEvaluate(s)
    else if s.action == ACTION_MODIFY then
      (if !s.isUnlocked then VerifyOldEvaluate(s) else LockEvaluate(s))
    else s
  }

  /**
   * The arrow of a cell pointing at the next one: the environment's
   * (int) toDegrees(atan2(dy, dx)), plus 90, where dx and dy are the
   * differences of the two cells' left and top edges.
   */
  function ArrowAngle(g: Grid, toDegrees: (int, int) -> int, from: nat, to: nat): int
    requires from < Cells(g) && to < Cells(g)
  {
    toDegrees(Top(g, to) - Top(g, from), Left(g, to) - Left(g, from)) + 90
  }

  /** Number of iterations of the arrow loop over a path of n cells. */
  function PairCount(n: nat): nat
  {
    if n == 0 then 0 else n - 1
  }

  /** The arrows after the first k iterations of the arrow loop of ACTION_UP. */
  function SetArrows(g: Grid, toDegrees: (int, int) -> int, arrow: seq<int>, choose: seq<int>, k: nat): (r: seq<int>)
    requires |arrow| == Cells(g) && ValidIds(g, choose)
    requires k <= PairCount(|choose|)
    ensures |r| == |arrow|
    decreases k
  {
    if k == 0 then arrow
    else
      SetArrows(g, toDegrees, arrow, choose, k - 1)
        [choose[k - 1] - 1 := ArrowAngle(g, toDegrees, choose[k - 1] - 1, choose[k] - 1)]
  }

  /**
   * ACTION_UP: evaluate, pin the guide line's end to its start, then give
   * every chosen cell but the last an arrow towards its successor.
   */
  function ActionUp(g: Grid, toDegrees: (int, int) -> int, s: State): State
    requires Shaped(g, s)
  {
    var e := Evaluate(s);
    e.(target := s.lastPath,
       arrow := SetArrows(g, toDegrees, s.arrow, s.choose, PairCount(|s.choose|)))
  }

  /** onTouchEvent. */
  function TouchEvent(g: Grid, toDegrees: (int, int) -> int, s: State, e: MotionEvent): State
    requires Shaped(g, s)
  {
    if Blocked(s) then s
    else
      match e
      case Down(_, _) => s
      case Move(x, y) => ActionMove(g, s, x, y)
      case Up(_, _) => ActionUp(g, toDegrees, s)
      case OtherAction(_, _) => s
  }

  /** reset: empty path, every cell unlit and without arrow. */
  function Reset(s: State): State
  {
    s.(choose := [],
       status := seq(|s.status|, _ => STATUS_NO_FINGER),
       arrow := seq(|s.arrow|, _ => NO_ARROW))
  }

  /** DelayHandler.handleMessage: reset unless out of tries or done. */
  function TimerFire(s: State): State
  {
    if s.tryTimes == 0 || s.isActionDone then s else Reset(s)
  }

  /** What the environment can deliver: a touch event or one queued reset message. */
  datatype Event = Touched(e: MotionEvent) | TimerFired

  function Step(g: Grid, toDegrees: (int, int) -> int, s: State, ev: Event): State
    requires Shaped(g, s)
  {
    match ev
    case Touched(e) => TouchEvent(g, toDegrees, s, e)
    case TimerFired => TimerFire(s)
  }

  /** The state after a sequence of events. */
  function Run(g: Grid, toDegrees: (int, int) -> int, s: State, evs: seq<Event>): (r: State)
    requires Shaped(g, s)
    ensures Shaped(g, r)
    decreases |evs|
  {
    if evs == [] then s
    else
      StepKeepsShaped(g, toDegrees, s, evs[0]);
      Run(g, toDegrees, Step(g, toDegrees, s, evs[0]), evs[1..])
  }

  // ----- Invariant preservation -----

  /** Appending a new cell to the path and lighting it keeps every invariant. */
  lemma AppendKeepsInv(g: Grid, s: State, k: nat)
    requires Inv(g, s) && k < Cells(g) && k + 1 !in s.choose
    ensures Inv(g, s.(choose := s.choose + [k + 1], status := s.status[k := STATUS_FINGER_ON]))
  {
    var r := s.(choose := s.choose + [k + 1], status := s.status[k := STATUS_FINGER_ON]);
    assert ValidIds(g, r.choose) && NoDuplicates(r.choose);
    forall c | 0 <= c < Cells(g)
      ensures r.status[c] != STATUS_NO_FINGER <==> c + 1 in r.choose
      ensures c + 1 !in r.choose ==> r.arrow[c] == NO_ARROW
    {
      assert c + 1 in r.choose <==> c + 1 in s.choose || c == k;
    }
  }

  /** The guide line's end points play no part in the invariant. */
  lemma InvIgnoresGuideLine(g: Grid, s: State, from: Point, to: Point)
    requires Inv(g, s)
    ensures Inv(g, s.(lastPath := from, target := to))
  {
  }

  lemma MoveKeepsInv(g: Grid, s: State, x: int, y: int)
    requires Inv(g, s)
    ensures Inv(g, ActionMove(g, s, x, y))
  {
    var hit := ChildIndexAt(g, x, y, 0);
    if hit.Some? && hit.value + 1 !in s.choose {
      var k := hit.value;
      var m := s.(choose := s.choose + [k + 1], status := s.status[k := STATUS_FINGER_ON]);
      AppendKeepsInv(g, s, k);
      InvIgnoresGuideLine(g, m, Point(CentreX(g, k), CentreY(g, k)), Point(x, y));
      assert ActionMove(g, s, x, y) == m.(lastPath := Point(CentreX(g, k), CentreY(g, k)), target := Point(x, y));
    } else {
      InvIgnoresGuideLine(g, s, s.lastPath, Point(x, y));
      assert ActionMove(g, s, x, y) == s.(lastPath := s.lastPath, target := Point(x, y));
    }
  }

  lemma {:induction false} ArrowUntouched(g: Grid, toDegrees: (int, int) -> int, arrow: seq<int>, choose: seq<int>, k: nat, c: nat)
    requires |arrow| == Cells(g) && ValidIds(g, choose)
    requires k <= PairCount(|choose|) && c < Cells(g)
    requires c + 1 !in choose[..k]
    ensures SetArrows(g, toDegrees, arrow, choose, k)[c] == arrow[c]
    decreases k
  {
    if k > 0 {
      assert choose[k - 1] == choose[..k][k - 1];
      assert choose[..k - 1] == choose[..k][..k - 1];
      ArrowUntouched(g, toDegrees, arrow, choose, k - 1, c);
    }
  }

  lemma {:induction false} ArrowOfChosen(g: Grid, toDegrees: (int, int) -> int, arrow: seq<int>, choose: seq<int>, k: nat, j: nat)
    requires |arrow| == Cells(g) && ValidIds(g, choose) && NoDuplicates(choose)
    requires k <= PairCount(|choose|) && j < k
    ensures SetArrows(g, toDegrees, arrow, choose, k)[choose[j] - 1]
         == ArrowAngle(g, toDegrees, choose[j] - 1, choose[j + 1] - 1)
    decreases k
  {
    if j < k - 1 {
      ArrowOfChosen(g, toDegrees, arrow, choose, k - 1, j);
    }
  }

  /** Marking the path with a result code keeps every invariant. */
  lemma MarkKeepsInv(g: Grid, s: State, code: int)
    requires Inv(g, s) && (code == STATUS_FINGER_UP_DONE || code == STATUS_FINGER_UP_FAILED)
    ensures Inv(g, s.(status := Mark(s.status, s.choose, code)))
  {
  }

  lemma EvaluateKeepsInv(g: Grid, s: State)
    requires Inv(g, s)
    ensures Inv(g, Evaluate(s))
  {
    MarkKeepsInv(g, s, STATUS_FINGER_UP_DONE);
    MarkKeepsInv(g, s, STATUS_FINGER_UP_FAILED);
  }

  lemma UpKeepsInv(g: Grid, toDegrees: (int, int) -> int, s: State)
    requires Inv(g, s)
    ensures Inv(g, ActionUp(g, toDegrees, s))
  {
    EvaluateKeepsInv(g, s);
    var r := ActionUp(g, toDegrees, s);
    forall c | 0 <= c < Cells(g) && c + 1 !in s.choose
      ensures r.arrow[c] == NO_ARROW
    {
      assert c + 1 !in s.choose[..PairCount(|s.choose|)];
      ArrowUntouched(g, toDegrees, s.arrow, s.choose, PairCount(|s.choose|), c);
    }
  }

  lemma ResetKeepsInv(g: Grid, s: State)
    requires Inv(g, s)
    ensures Inv(g, TimerFire(s))
  {
  }

  lemma StepKeepsInv(g: Grid, toDegrees: (int, int) -> int, s: State, ev: Event)
    requires Inv(g, s)
    ensures Inv(g, Step(g, toDegrees, s, ev))
  {
    match ev
    case Touched(e) =>
      if !Blocked(s) {
        match e
        case Move(x, y) => MoveKeepsInv(g, s, x, y);
        case Up(_, _) => UpKeepsInv(g, toDegrees, s);
        case _ =>
      }
    case TimerFired => ResetKeepsInv(g, s);
  }

  lemma StepKeepsShaped(g: Grid, toDegrees: (int, int) -> int, s: State, ev: Event)
    requires Shaped(g, s)
    ensures Shaped(g, Step(g, toDegrees, s, ev))
  {
  }

  /** Every state reached by a run of events from a state satisfying Inv satisfies Inv. */
  lemma {:induction false} RunKeepsInv(g: Grid, toDegrees: (int, int) -> int, s: State, evs: seq<Event>)
    requires Inv(g, s)
    ensures Inv(g, Run(g, toDegrees, s, evs))
    decreases |evs|
  {
    if evs != [] {
      StepKeepsInv(g, toDegrees, s, evs[0]);
      RunKeepsInv(g, toDegrees, Step(g, toDegrees, s, evs[0]), evs[1..]);
    }
  }

  // ----- Properties of one event -----

  /** The fields that only evaluations and setters change. */
  predicate SameSession(a: State, b: State)
  {
    a.answer == b.answer && a.firstAnswer == b.firstAnswer
    && a.isFirstTime == b.isFirstTime && a.isActionDone == b.isActionDone && a.isUnlocked == b.isUnlocked
    && a.tryTimes == b.tryTimes && a.action == b.action && a.hasListener == b.hasListener
    && a.log == b.log
  }

  /** While the guard holds every touch event is ignored, and ACTION_DOWN is always ignored. */
  lemma GuardIgnoresTouch(g: Grid, toDegrees: (int, int) -> int, s: State, e: MotionEvent)
    requires Inv(g, s)
    requires Blocked(s) || e.Down? || e.OtherAction?
    ensures TouchEvent(g, toDegrees, s, e) == s
  {
  }

  /**
   * ACTION_MOVE extends the path by the hit cell when it is new, and lights
   * that cell; otherwise path and cells stay. The guide line's end follows
   * the finger either way.
   */
  lemma MoveAppendsOnlyNewHit(g: Grid, s: State, x: int, y: int)
    requires Inv(g, s)
    ensures var r := ActionMove(g, s, x, y);
      var hit := ChildIndexAt(g, x, y, 0);
      && r.target == Point(x, y) && SameSession(r, s) && r.arrow == s.arrow
      && (if hit.Some? && hit.value + 1 !in s.choose then
            && r.choose == s.choose + [hit.value + 1]
            && r.status == s.status[hit.value := STATUS_FINGER_ON]
            && r.lastPath == Point(CentreX(g, hit.value), CentreY(g, hit.value))
          else
            r.choose == s.choose && r.status == s.status && r.lastPath == s.lastPath)
  {
  }

  /**
   * Lock mode, and Modify mode once unlocked: the first capture records the
   * path as first answer and marks it done; a later one ends the session
   * exactly when it repeats the first answer. Tries are never used.
   */
  lemma LockModeEvaluation(g: Grid, toDegrees: (int, int) -> int, s: State)
    requires Inv(g, s) && !Blocked(s) && s.hasListener && s.choose != []
    requires s.action == ACTION_LOCK || (s.action == ACTION_MODIFY && s.isUnlocked)
    ensures var r := ActionUp(g, toDegrees, s);
      && r.tryTimes == s.tryTimes && r.isUnlocked == s.isUnlocked && r.answer == s.answer
      && r.choose == s.choose && !r.isFirstTime
      && (s.isFirstTime ==>
            && r.firstAnswer == Some(s.choose) && !r.isActionDone
            && r.log == s.log + [OnFirstLock(s.action, s.choose)]
            && forall k :: 0 <= k < Cells(g) ==>
                 r.status[k] == if k + 1 in s.choose then STATUS_FINGER_UP_DONE else STATUS_NO_FINGER)
      && (!s.isFirstTime ==>
            && r.firstAnswer == s.firstAnswer
            && (r.isActionDone <==> s.choose == s.firstAnswer.value)
            && r.log == s.log + [if r.isActionDone then OnSecondLockSucceeded(s.action, s.choose)
                                 else OnSecondLockFailed(s.action)]
            && forall k :: 0 <= k < Cells(g) ==>
                 r.status[k] == if k + 1 in s.choose then ResultCode(r.isActionDone) else STATUS_NO_FINGER)
  {
  }

  /**
   * Unlock mode, and Modify mode before unlocking: every evaluation uses one
   * try, right or wrong, with Java's int wrap-around; the error report carries the count before the
   * decrement; noMoreTry follows exactly when the count reaches 0. Success
   * ends the session in Unlock mode but only unlocks in Modify mode.
   */
  lemma VerificationUsesOneTry(g: Grid, toDegrees: (int, int) -> int, s: State)
    requires Inv(g, s) && !Blocked(s) && s.hasListener && s.choose != []
    requires s.action == ACTION_UNLOCK || (s.action == ACTION_MODIFY && !s.isUnlocked)
    ensures var r := ActionUp(g, toDegrees, s);
      var ok := s.choose == s.answer;
      && r.tryTimes == Decrement(s.tryTimes)
      && r.log == s.log
           + [if ok then OnUnlockCorrect(s.action, s.choose) else OnUnlockError(s.action, s.choose, s.tryTimes)]
           + (if s.tryTimes == 1 then [NoMoreTry(s.action)] else [])
      && (s.action == ACTION_UNLOCK ==> r.isActionDone == ok && r.isUnlocked == s.isUnlocked)
      && (s.action == ACTION_MODIFY ==> r.isUnlocked == ok && !r.isActionDone)
      && r.isFirstTime == s.isFirstTime && r.firstAnswer == s.firstAnswer && r.choose == s.choose
      && forall k :: 0 <= k < Cells(g) ==>
           r.status[k] == if k + 1 in s.choose then ResultCode(ok) else STATUS_NO_FINGER
  {
  }

  /**
   * Without a listener, with an empty path, or with an unknown mode, ACTION_UP
   * evaluates nothing: only the arrows and the guide line's end change.
   */
  lemma UpWithoutEvaluation(g: Grid, toDegrees: (int, int) -> int, s: State)
    requires Inv(g, s)
    requires !s.hasListener || s.choose == []
      || (s.action != ACTION_LOCK && s.action != ACTION_UNLOCK && s.action != ACTION_MODIFY)
    ensures var r := ActionUp(g, toDegrees, s);
      SameSession(r, s) && r.choose == s.choose && r.status == s.status && r.target == s.lastPath
  {
  }

  /**
   * After ACTION_UP every chosen cell but the last points at its successor,
   * and no other cell's arrow changes; paths of 0 or 1 cells change no arrow.
   */
  lemma UpSetsArrows(g: Grid, toDegrees: (int, int) -> int, s: State)
    requires Inv(g, s)
    ensures var r := ActionUp(g, toDegrees, s);
      && (forall j :: 0 <= j < |s.choose| - 1 ==>
            r.arrow[s.choose[j] - 1] == ArrowAngle(g, toDegrees, s.choose[j] - 1, s.choose[j + 1] - 1))
      && (forall c :: 0 <= c < Cells(g) && c + 1 !in s.choose[..PairCount(|s.choose|)] ==>
            r.arrow[c] == s.arrow[c])
      && (|s.choose| <= 1 ==> r.arrow == s.arrow)
  {
    var n := PairCount(|s.choose|);
    forall j | 0 <= j < |s.choose| - 1
      ensures SetArrows(g, toDegrees, s.arrow, s.choose, n)[s.choose[j] - 1]
           == ArrowAngle(g, toDegrees, s.choose[j] - 1, s.choose[j + 1] - 1)
    {
      ArrowOfChosen(g, toDegrees, s.arrow, s.choose, n, j);
    }
    forall c | 0 <= c < Cells(g) && c + 1 !in s.choose[..n]
      ensures SetArrows(g, toDegrees, s.arrow, s.choose, n)[c] == s.arrow[c]
    {
      ArrowUntouched(g, toDegrees, s.arrow, s.choose, n, c);
    }
  }

  /**
   * A timer message does nothing once out of tries or done; otherwise it
   * empties the path and clears every cell, and keeps the answers, the flags,
   * the try count and the log.
   */
  lemma TimerFireResets(s: State)
    ensures var r := TimerFire(s);
      && (s.tryTimes == 0 || s.isActionDone ==> r == s)
      && (s.tryTimes != 0 && !s.isActionDone ==>
            && r.choose == [] && SameSession(r, s)
            && |r.status| == |s.status| && |r.arrow| == |s.arrow|
            && (forall k :: 0 <= k < |r.status| ==> r.status[k] == STATUS_NO_FINGER)
            && (forall k :: 0 <= k < |r.arrow| ==> r.arrow[k] == NO_ARROW))
  {
  }

  /** An arrow is only ever drawn on a cell of the current path. */
  lemma ArrowDrawnOnlyOnPath(g: Grid, s: State, k: nat)
    requires Inv(g, s) && k < Cells(g)
    requires DrawsArrow(s.status[k], s.arrow[k])
    ensures k + 1 in s.choose
  {
  }
}
