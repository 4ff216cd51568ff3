/**
 * One cell of the grid (GestureLockView.java): its status code, its arrow
 * degree and the rule that decides whether an arrow is drawn.
 */
module LockView {

  /** The four status codes a cell can display. */
  const STATUS_NO_FINGER: int := 0x00
  const STATUS_FINGER_ON: int := 0x01
  const STATUS_FINGER_UP_FAILED: int := 0x02
  const STATUS_FINGER_UP_DONE: int := 0x03

  /** The arrow degree that means "no arrow". */
  const NO_ARROW: int := -1

  predicate IsStatus(st: int)
  {
    st == STATUS_NO_FINGER || st == STATUS_FINGER_ON
    || st == STATUS_FINGER_UP_FAILED || st == STATUS_FINGER_UP_DONE
  }

  /**
   * Whether onDraw paints the arrow: only the two "finger up" branches of its
   * switch call drawArrow, and drawArrow paints nothing for degree -1.
   */
  predicate DrawsArrow(status: int, degree: int): (shown: bool)
    ensures shown <==> (status == STATUS_FINGER_UP_FAILED || status == STATUS_FINGER_UP_DONE) && degree != NO_ARROW
    ensures status == STATUS_NO_FINGER || status == STATUS_FINGER_ON ==> !shown
  {
    if status == STATUS_FINGER_ON then false
    else if status == STATUS_FINGER_UP_FAILED then degree != NO_ARROW
    else if status == STATUS_FINGER_UP_DONE then degree != NO_ARROW
    else false
  }

  /** The status codes are four distinct values, 0 to 3. */
  lemma StatusCodesDistinct()
    ensures [STATUS_NO_FINGER, STATUS_FINGER_ON, STATUS_FINGER_UP_FAILED, STATUS_FINGER_UP_DONE] == [0, 1, 2, 3]
    ensures forall st :: IsStatus(st) <==> 0 <= st <= 3
  {
  }

  /** A cell: its view id, the status it displays and the degree of its arrow. */
  class GestureLockView {
    const id: int
    var status: int
    var arrowDegree: int

    /** A new cell shows no finger and no arrow; the group gives it its id. */
    constructor (id: int)
      ensures this.id == id
      ensures status == STATUS_NO_FINGER && arrowDegree == NO_ARROW
    {
      this.id := id;
      status := STATUS_NO_FINGER;
      arrowDegree := NO_ARROW;
    }

    method SetStatus(st: int)
      modifies this
      ensures status == st
      ensures arrowDegree == old(arrowDegree)
    {
      status := st;
    }

    method SetArrowDegree(degree: int)
      modifies this
      ensures arrowDegree == degree
      ensures status == old(status)
    {
      arrowDegree := degree;
    }

    method GetArrowDegree() returns (degree: int)
      ensures degree == arrowDegree
    {
      degree := arrowDegree;
    }
  }

  /** Setting the degree and reading it back yields the degree, and keeps the status. */
  method ArrowDegreeRoundTrip(cell: GestureLockView, degree: int) returns (got: int)
    modifies cell
    ensures got == degree && cell.status == old(cell.status)
  {
    cell.SetArrowDegree(degree);
    got := cell.GetArrowDegree();
  }
}
