/**
 * GestureLockViewGroup as an object: the cells it owns, the path being drawn,
 * the answers, the flags and the try count, updated in place by touch events,
 * timer messages and the public setters. Every method is proved to move the
 * abstract state Model() exactly as the functions of module Session say.
 */
module ViewGroup {
  import opened Options
  import opened LockView
  import opened Layout
  import Session

  class GestureLockViewGroup {
    /** Geometry fixed by the first onMeasure. */
    const grid: Grid
    /** mGestureLockViews: the cell with id k + 1 is cells[k]. */
    const cells: array<GestureLockView>
    /** The environment's (int) Math.toDegrees(Math.atan2(dy, dx)). */
    const toDegrees: (int, int) -> int

    var choose: seq<int>
    var answer: seq<int>
    var firstAnswer: Option<seq<int>>
    var isFirstTime: bool
    var isActionDone: bool
    var isUnlocked: bool
    var tryTimes: int
    var action: int
    var hasListener: bool
    var lastPathX: int
    var lastPathY: int
    var target: Session.Point
    /** The listener calls made so far. */
    var log: seq<Session.Callback>

    /** One distinct cell per grid position, numbered 1 to N * N in array order. */
    ghost predicate Wired()
      reads cells
    {
      && cells.Length == Cells(grid)
      && (forall i, j :: 0 <= i < cells.Length && 0 <= j < cells.Length && i != j ==> cells[i] != cells[j])
      && (forall i :: 0 <= i < cells.Length ==> cells[i].id == i + 1)
    }

    /** Ghost mirrors of the cells' statuses and arrow degrees, in id order. */
    ghost var statuses: seq<int>
    ghost var arrows: seq<int>

    /** The mirrors hold what the cells show. */
    ghost predicate Coupled()
      reads this`statuses, this`arrows, cells, cells[..]
    {
      && |statuses| == cells.Length && |arrows| == cells.Length
      && forall i :: 0 <= i < cells.Length ==> cells[i].status == statuses[i] && cells[i].arrowDegree == arrows[i]
    }

    /** The abstract state this object stands for. */
    ghost function Model(): Session.State
      reads this
    {
      Session.State(statuses, arrows, choose, answer, firstAnswer,
                    isFirstTime, isActionDone, isUnlocked, tryTimes, action, hasListener,
                    Session.Point(lastPathX, lastPathY), target, log)
    }

    ghost predicate Valid()
      reads this, cells, cells[..]
    {
      Wired() && Coupled() && Session.Inv(grid, Model())
    }

    /**
     * The widget after its first onMeasure on a width x height area: N * N
     * fresh cells on the grid of the smaller side, nothing chosen, no mode,
     * no listener and no answer yet.
     */
    constructor (width: nat, height: nat, count: nat, tryTimes: int, toDegrees: (int, int) -> int)
      requires Session.IsInt(tryTimes)
      ensures Valid()
      ensures grid == GridFor(if width < height then width else height, count)
      ensures this.toDegrees == toDegrees
      ensures Model() == Session.Initial(grid, tryTimes)
      ensures fresh(cells) && forall i :: 0 <= i < cells.Length ==> fresh(cells[i])
    {
      var side := if width < height then width else height;
      var made: seq<GestureLockView> := [];
      while |made| < count * count
        invariant |made| <= count * count
        invariant forall i :: 0 <= i < |made| ==> fresh(made[i])
        invariant forall i, j :: 0 <= i < j < |made| ==> made[i] != made[j]
        invariant forall i :: 0 <= i < |made| ==>
                    made[i].id == i + 1 && made[i].status == STATUS_NO_FINGER && made[i].arrowDegree == NO_ARROW
      {
        var v := new GestureLockView(|made| + 1);
        made := made + [v];
      }
      grid := GridFor(side, count);
      cells := new GestureLockView[|made|](i requires 0 <= i < |made| => made[i]);
      this.toDegrees := toDegrees;
      choose := [];
      answer := [];
      firstAnswer := None;
      isFirstTime := true;
      isActionDone := false;
      isUnlocked := false;
      this.tryTimes := tryTimes;
      action := Session.ACTION_UNDEFINED;
      hasListener := false;
      lastPathX := 0;
      lastPathY := 0;
      target := Session.Point(0, 0);
      log := [];
      statuses := seq(|made|, _ => STATUS_NO_FINGER);
      arrows := seq(|made|, _ => NO_ARROW);
      new;
    }

    /** cells[k].setStatus(st), mirrored. */
    method SetStatusAt(k: nat, st: int)
      requires Wired() && Coupled() && k < cells.Length
      modifies this`statuses, cells[k]
      ensures Coupled()
      ensures Model() == old(Model()).(status := old(statuses)[k := st])
    {
      cells[k].SetStatus(st);
      statuses := statuses[k := st];
    }

    /** cells[k].setArrowDegree(degree), mirrored. */
    method SetArrowAt(k: nat, degree: int)
      requires Wired() && Coupled() && k < cells.Length
      modifies this`arrows, cells[k]
      ensures Coupled()
      ensures Model() == old(Model()).(arrow := old(arrows)[k := degree])
    {
      cells[k].SetArrowDegree(degree);
      arrows := arrows[k := degree];
    }

    /** getChildIdByPos: the first cell, in array order, whose inset rectangle holds (x, y). */
    method GetChildIdByPos(x: int, y: int) returns (child: GestureLockView?)
      requires Wired()
      ensures child == null <==> ChildIndexAt(grid, x, y, 0).None?
      ensures child != null ==> ChildIndexAt(grid, x, y, 0) == Some(child.id - 1) && child == cells[child.id - 1]
    {
      for i := 0 to cells.Length
        invariant ChildIndexAt(grid, x, y, i) == ChildIndexAt(grid, x, y, 0)
      {
        if InChild(grid, i, x, y) {
          return cells[i];
        }
      }
      return null;
    }

    /** checkUnlockAnswer: the path is the stored answer, id for id. */
    method CheckUnlockAnswer() returns (ok: bool)
      ensures ok <==> choose == answer
    {
      if |answer| != |choose| {
        return false;
      }
      for i := 0 to |answer|
        invariant forall j :: 0 <= j < i ==> answer[j] == choose[j]
      {
        if answer[i] != choose[i] {
          return false;
        }
      }
      return true;
    }

    /** checkLockAnswer: the path repeats the first capture. */
    function CheckLockAnswer(): (ok: bool)
      reads this
      requires firstAnswer.Some?
      ensures ok <==> choose == firstAnswer.value
    {
      |firstAnswer.value| == |choose| && firstAnswer.value == choose
    }

    /** changeItemStatus: every cell whose id is on the path shows done or failed. */
    method ChangeItemStatus(done: bool)
      requires Wired() && Coupled()
      modifies this`statuses, cells[..]
      ensures Coupled()
      ensures Model() == old(Model()).(status := Session.Mark(old(statuses), choose, Session.ResultCode(done)))
    {
      var status := if done then STATUS_FINGER_UP_DONE else STATUS_FINGER_UP_FAILED;
      for i := 0 to cells.Length
        invariant Coupled()
        invariant Model() == old(Model()).(status := statuses)
        invariant forall j :: 0 <= j < i ==> statuses[j] == if j + 1 in choose then status else old(statuses)[j]
        invariant forall j :: i <= j < cells.Length ==> statuses[j] == old(statuses)[j]
      {
        if cells[i].id in choose {
          SetStatusAt(i, status);
        }
      }
      assert statuses == Session.Mark(old(statuses), choose, status);
    }

    /** reset: empty the path and clear every cell's status and arrow. */
    method Reset()
      requires Wired() && Coupled()
      modifies this`choose, this`statuses, this`arrows, cells[..]
      ensures Coupled()
      ensures Model() == Session.Reset(old(Model()))
    {
      choose := [];
      for i := 0 to cells.Length
        invariant Coupled()
        invariant Model() == old(Model()).(choose := [], status := statuses, arrow := arrows)
        invariant forall j :: 0 <= j < i ==> statuses[j] == STATUS_NO_FINGER && arrows[j] == NO_ARROW
      {
        SetStatusAt(i, STATUS_NO_FINGER);
        SetArrowAt(i, NO_ARROW);
      }
      assert statuses == seq(cells.Length, _ => STATUS_NO_FINGER);
      assert arrows == seq(cells.Length, _ => NO_ARROW);
    }

    /** One iteration of the arrow loop: cell path[i] points at cell path[i + 1]. */
    method PointArrow(path: seq<int>, i: nat, ghost base: seq<int>)
      requires Wired() && Coupled() && Session.ValidIds(grid, path) && i + 1 < |path| && |base| == Cells(grid)
      requires arrows == Session.SetArrows(grid, toDegrees, base, path, i)
      modifies this`arrows, cells[..]
      ensures Coupled()
      ensures Model() == old(Model()).(arrow := Session.SetArrows(grid, toDegrees, base, path, i + 1))
    {
      var childId := path[i];
      var nextChildId := path[i + 1];
      var angle := Session.ArrowAngle(grid, toDegrees, childId - 1, nextChildId - 1);
      SetArrowAt(childId - 1, angle);
    }

    /** The arrow loop of ACTION_UP: each chosen cell but the last points at its successor. */
    method PointArrows()
      requires Wired() && Coupled() && Session.ValidIds(grid, choose)
      modifies this`arrows, cells[..]
      ensures Coupled()
      ensures Model() == old(Model()).(arrow := Session.SetArrows(grid, toDegrees, old(arrows), old(choose), Session.PairCount(|old(choose)|)))
    {
      var path := choose;
      var i := 0;
      while i + 1 < |path|
        invariant 0 <= i <= Session.PairCount(|path|)
        invariant Coupled()
        invariant Model() == old(Model()).(arrow := arrows)
        invariant arrows == Session.SetArrows(grid, toDegrees, old(arrows), path, i)
      {
        PointArrow(path, i, old(arrows));
        i := i + 1;
      }
    }

    /** The Lock branch of ACTION_UP (also Modify mode once unlocked). */
    method LockEvaluate()
      requires Wired() && Coupled() && (!isFirstTime ==> firstAnswer.Some?)
      modifies this, cells[..]
      ensures Coupled()
      ensures Model() == Session.LockEvaluate(old(Model()))
    {
      if isFirstTime {
        isFirstTime := false;
        ChangeItemStatus(true);
        firstAnswer := Some(choose);
        Report(Session.OnFirstLock(action, choose));
      } else {
        if CheckLockAnswer() {
          isActionDone := true;
          Report(Session.OnSecondLockSucceeded(action, firstAnswer.value));
        } else {
          isActionDone := false;
          Report(Session.OnSecondLockFailed(action));
        }
        ChangeItemStatus(isActionDone);
      }
    }

    /** Put the cell with id cId on the path: lit, and the guide line now starts at its centre. */
    method AddToPath(cId: int)
      requires Wired() && Coupled() && 1 <= cId <= cells.Length
      modifies this, cells[..]
      ensures Coupled()
      ensures Model() == old(Model()).(choose := old(choose) + [cId],
                                       status := old(statuses)[cId - 1 := STATUS_FINGER_ON],
                                       lastPath := Session.Point(CentreX(grid, cId - 1), CentreY(grid, cId - 1)))
    {
      choose := choose + [cId];
      SetStatusAt(cId - 1, STATUS_FINGER_ON);
      lastPathX := Left(grid, cId - 1) / 2 + Right(grid, cId - 1) / 2;
      lastPathY := Top(grid, cId - 1) / 2 + Bottom(grid, cId - 1) / 2;
    }

    /** The body of ACTION_MOVE. */
    method TrackFinger(x: int, y: int)
      requires Wired() && Coupled()
      modifies this, cells[..]
      ensures Coupled()
      ensures Model() == Session.ActionMove(grid, old(Model()), x, y)
    {
      var child := GetChildIdByPos(x, y);
      if child != null {
        var cId := child.id;
        if cId !in choose {
          AddToPath(cId);
        }
      }
      target := Session.Point(x, y);
    }

    /** ACTION_MOVE, past the guard. */
    method TouchMove(x: int, y: int)
      requires Valid()
      modifies this, cells[..]
      ensures Valid()
      ensures Model() == Session.ActionMove(grid, old(Model()), x, y)
    {
      TrackFinger(x, y);
      Session.MoveKeepsInv(grid, old(Model()), x, y);
    }

    /** One call to the listener. */
    method Report(c: Session.Callback)
      modifies this`log
      ensures Model() == old(Model()).(log := old(log) + [c])
    {
      log := log + [c];
    }

    /** After a verification: one try fewer, wrapping like a Java int; noMoreTry once the count reaches 0. */
    method CountTry()
      modifies this`tryTimes, this`log
      ensures Model() == Session.CountTry(old(Model()))
    {
      if tryTimes == Session.INT_MIN {
        tryTimes := Session.INT_MAX;
      } else {
        tryTimes := tryTimes - 1;
      }
      if tryTimes == 0 {
        Report(Session.NoMoreTry(action));
      }
    }

    /** Unlock mode: record the verdict and report it. */
    method UnlockVerdict(ok: bool)
      modifies this`isActionDone, this`log
      ensures Model() == old(Model()).(isActionDone := ok, log := old(log) + [Session.Verdict(old(Model()), ok)])
    {
      if ok {
        isActionDone := true;
        Report(Session.OnUnlockCorrect(action, choose));
      } else {
        isActionDone := false;
        Report(Session.OnUnlockError(action, choose, tryTimes));
      }
    }

    /** The Unlock branch of ACTION_UP: every evaluation spends a try. */
    method UnlockEvaluate()
      requires Wired() && Coupled()
      modifies this, cells[..]
      ensures Coupled()
      ensures Model() == Session.UnlockEvaluate(old(Model()))
    {
      var ok := CheckUnlockAnswer();
      UnlockVerdict(ok);
      ChangeItemStatus(isActionDone);
      CountTry();
    }

    /** Modify mode before the old pattern is verified: unlock on success, light the cells, report. */
    method ModifyVerdict(ok: bool)
      requires Wired() && Coupled()
      modifies this`isUnlocked, this`statuses, this`log, cells[..]
      ensures Coupled()
      ensures Model() == old(Model()).(isUnlocked := if ok then true else old(isUnlocked),
                                       status := Session.Mark(old(statuses), choose, Session.ResultCode(ok)),
                                       log := old(log) + [Session.Verdict(old(Model()), ok)])
    {
      if ok {
        isUnlocked := true;
        ChangeItemStatus(true);
        Report(Session.OnUnlockCorrect(action, choose));
      } else {
        ChangeItemStatus(false);
        Report(Session.OnUnlockError(action, choose, tryTimes));
      }
    }

    /** The Modify branch of ACTION_UP before the old pattern is verified. */
    method VerifyOldEvaluate()
      requires Wired() && Coupled()
      modifies this, cells[..]
      ensures Coupled()
      ensures Model() == Session.VerifyOldEvaluate(old(Model()))
    {
      var ok := CheckUnlockAnswer();
      ModifyVerdict(ok);
      CountTry();
    }

    /** The listener switch of ACTION_UP. */
    method EvaluatePath()
      requires Wired() && Coupled() && (!isFirstTime ==> firstAnswer.Some?)
      modifies this, cells[..]
      ensures Coupled()
      ensures Model() == Session.Evaluate(old(Model()))
    {
      if hasListener && |choose| > 0 {
        if action == Session.ACTION_LOCK {
          LockEvaluate();
        } else if action == Session.ACTION_UNLOCK {
          UnlockEvaluate();
        } else if action == Session.ACTION_MODIFY {
          if !isUnlocked {
            VerifyOldEvaluate();
          } else {
            LockEvaluate();
          }
        }
      }
    }

    /** ACTION_UP. */
    method TouchUp()
      requires Valid() && !Session.Blocked(Model())
      modifies this, cells[..]
      ensures Valid()
      ensures Model() == Session.ActionUp(grid, toDegrees, old(Model()))
    {
      EvaluatePath();
      target := Session.Point(lastPathX, lastPathY);
      PointArrows();
      Session.UpKeepsInv(grid, toDegrees, old(Model()));
    }

    /** onTouchEvent: every event is consumed; the guard swallows all of them. */
    method OnTouchEvent(e: Session.MotionEvent) returns (consumed: bool)
      requires Valid()
      modifies this, cells[..]
      ensures Valid() && consumed
      ensures Model() == Session.TouchEvent(grid, toDegrees, old(Model()), e)
    {
      consumed := true;
      if isActionDone || tryTimes == 0 || action == Session.ACTION_UNDEFINED {
        return;
      }
      match e
      case Down(_, _) =>
      case Move(x, y) => TouchMove(x, y);
      case Up(_, _) => TouchUp();
      case OtherAction(_, _) =>
    }

    /** DelayHandler.handleMessage: one delayed reset message arrives. */
    method HandleMessage()
      requires Valid()
      modifies this, cells[..]
      ensures Valid()
      ensures Model() == Session.TimerFire(old(Model()))
    {
      if tryTimes == 0 || isActionDone {
        return;
      }
      Reset();
      Session.ResetKeepsInv(grid, old(Model()));
    }

    method SetAction(a: int)
      requires Valid()
      modifies this
      ensures Valid()
      ensures Model() == old(Model()).(action := a)
    {
      action := a;
    }

    /** setAnswer: null or empty input is ignored. */
    method SetAnswer(a: Option<seq<int>>)
      requires Valid()
      modifies this
      ensures Valid()
      ensures a.None? || a.value == [] ==> Model() == old(Model())
      ensures a.Some? && a.value != [] ==> Model() == old(Model()).(answer := a.value)
    {
      if a.None? || |a.value| == 0 {
        return;
      }
      answer := a.value;
    }

    /** setUnMatchExceedBoundary: any int is accepted, zero and negative counts included. */
    method SetUnMatchExceedBoundary(boundary: int)
      requires Valid() && Session.IsInt(boundary)
      modifies this
      ensures Valid()
      ensures Model() == old(Model()).(tryTimes := boundary)
    {
      tryTimes := boundary;
    }

    /** setOnGestureLockViewListener, with only the presence of the listener kept. */
    method SetOnGestureLockViewListener(present: bool)
      requires Valid()
      modifies this
      ensures Valid()
      ensures Model() == old(Model()).(hasListener := present)
    {
      hasListener := present;
    }
  }
}
