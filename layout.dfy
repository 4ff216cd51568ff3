/**
 * Grid geometry of GestureLockViewGroup: the integer sizing of onMeasure, the
 * position of each cell, and the inset-rectangle hit test used while a finger
 * moves.
 *
 * The cell rectangles are produced by Android's RelativeLayout from the
 * margins onMeasure assigns; that engine is not part of this model, which
 * assumes its result: the cell with index k (id k + 1) sits in column k % N
 * and row k / N at left = m + col * (s + m), top = m + row * (s + m).
 */
module Layout {
  import opened Options

  /** N cells per side, each of side s, separated by margin m. */
  datatype Grid = Grid(count: nat, side: nat, margin: nat)

  /** Cell side 4W / (5N + 1), truncated (done in float by the source). */
  function CellSide(width: nat, count: nat): nat
  {
    4 * width / (5 * count + 1)
  }

  /** Margin between cells: a quarter of the side, truncated. */
  function MarginFor(side: nat): nat
  {
    side / 4
  }

  /** The grid onMeasure builds for a square of side `width`. */
  function GridFor(width: nat, count: nat): Grid
  {
    var s := CellSide(width, count);
    Grid(count, s, MarginFor(s))
  }

  /** Inset of the hit rectangle: 15% of the side, truncated. */
  function Padding(side: nat): nat
  {
    side * 15 / 100
  }

  function Cells(g: Grid): nat
  {
    g.count * g.count
  }

  /** Left (or top) coordinate of column (or row) c. */
  function Offset(g: Grid, c: nat): nat
  {
    g.margin + c * (g.side + g.margin)
  }

  function Left(g: Grid, k: nat): nat
    requires k < Cells(g)
  {
    Offset(g, k % g.count)
  }

  function Top(g: Grid, k: nat): nat
    requires k < Cells(g)
  {
    Offset(g, k / g.count)
  }

  /** getRight() of cell k under the assumed placement. */
  function Right(g: Grid, k: nat): nat
    requires k < Cells(g)
  {
    Left(g, k) + g.side
  }

  /** getBottom() of cell k under the assumed placement. */
  function Bottom(g: Grid, k: nat): nat
    requires k < Cells(g)
  {
    Top(g, k) + g.side
  }

  /** The centre used as the start of the guide line: left / 2 + right / 2. */
  function CentreX(g: Grid, k: nat): nat
    requires k < Cells(g)
  {
    Left(g, k) / 2 + Right(g, k) / 2
  }

  /** The centre used as the start of the guide line: top / 2 + bottom / 2. */
  function CentreY(g: Grid, k: nat): nat
    requires k < Cells(g)
  {
    Top(g, k) / 2 + Bottom(g, k) / 2
  }

  /** checkPositionInChild: (x, y) lies in cell k's rectangle inset by the padding, bounds included. */
  predicate InChild(g: Grid, k: nat, x: int, y: int)
    requires k < Cells(g)
  {
    var p := Padding(g.side);
    x >= Left(g, k) + p && x <= Right(g, k) - p
    && y >= Top(g, k) + p && y <= Bottom(g, k) - p
  }

  /**
   * getChildIdByPos, scanning from index `from`: the index of the first cell,
   * in array order, whose inset rectangle holds (x, y), or None.
   */
  function ChildIndexAt(g: Grid, x: int, y: int, from: nat): (r: Option<nat>)
    ensures r.Some? ==> from <= r.value < Cells(g)
    decreases Cells(g) - from
  {
    if from >= Cells(g) then None
    else if InChild(g, from, x, y) then Some(from)
    else ChildIndexAt(g, x, y, from + 1)
  }

  /**
   * The scan finds the first match: the index it returns holds the point and
   * no index before it does, and it finds nothing exactly when no cell from
   * `from` on holds the point.
   */
  lemma {:induction false} FirstMatch(g: Grid, x: int, y: int, from: nat)
    ensures var r := ChildIndexAt(g, x, y, from);
      && (r.Some? ==> InChild(g, r.value, x, y))
      && (r.Some? ==> forall j :: from <= j < r.value ==> !InChild(g, j, x, y))
      && (r.None? <==> forall j :: from <= j < Cells(g) ==> !InChild(g, j, x, y))
    decreases Cells(g) - from
  {
    if from < Cells(g) && !InChild(g, from, x, y) {
      FirstMatch(g, x, y, from + 1);
    }
  }

  /** A grid large enough that neighbouring hit rectangles are apart. */
  predicate Separated(g: Grid)
  {
    g.side >= 4 && g.margin >= 1
  }

  lemma MulLeft(a: nat, b: nat, c: nat)
    requires a <= b
    ensures a * c <= b * c
  {
  }

  /**
   * N cells and N + 1 margins fill the width up to rounding: they never
   * exceed it and fall short of it by at most 2N.
   */
  lemma GridSpansWidth(width: nat, count: nat)
    requires count >= 1
    ensures var g := GridFor(width, count);
      width - 2 * count <= count * g.side + (count + 1) * g.margin <= width
  {
    var d := 5 * count + 1;
    var s := 4 * width / d;
    var m := s / 4;
    DivBounds(4 * width, d);
    assert GridFor(width, count) == Grid(count, s, m);
    SpanArithmetic(count, s, m, s - 4 * m, 4 * width - d * s, width);
  }

  lemma DivBounds(a: nat, d: nat)
    requires d >= 1
    ensures 0 <= a - d * (a / d) < d
  {
  }

  lemma SpanArithmetic(n: nat, s: nat, m: nat, q: nat, r: nat, width: nat)
    requires s == 4 * m + q && q < 4
    requires 4 * width == (5 * n + 1) * s + r && r < 5 * n + 1
    ensures width - 2 * n <= n * s + (n + 1) * m <= width
  {
    SplitFactor(n, s);
    SplitCell(n + 1, m, q);
    MulLeft(q, 3, n + 1);
  }

  lemma SplitFactor(n: nat, s: nat)
    ensures (5 * n + 1) * s == 4 * (n * s) + (n + 1) * s
  {
  }

  lemma SplitCell(k: nat, m: nat, q: nat)
    ensures k * (4 * m + q) == 4 * (k * m) + k * q
  {
  }

  /** A square at least 5N + 1 wide gives a separated grid. */
  lemma WideGridIsSeparated(width: nat, count: nat)
    requires width >= 5 * count + 1
    ensures Separated(GridFor(width, count))
  {
    var d := 5 * count + 1;
    MulLeft(d, width, 4);
    assert 4 * width >= 4 * d;
    assert 4 * width / d >= 4 * d / d;
  }

  /** Columns further right start further right, by at least one cell and margin per column. */
  lemma OffsetStep(g: Grid, a: nat, b: nat)
    requires a < b
    ensures Offset(g, a) + g.side + g.margin <= Offset(g, b)
  {
    MulLeft(a + 1, b, g.side + g.margin);
  }

  /** Two cells in different columns have horizontally apart inset rectangles. */
  lemma ColumnsApart(g: Grid, i: nat, j: nat, x: int, y: int)
    requires Separated(g)
    requires i < Cells(g) && j < Cells(g) && i % g.count < j % g.count
    ensures !(InChild(g, i, x, y) && InChild(g, j, x, y))
  {
    OffsetStep(g, i % g.count, j % g.count);
  }

  /** Two cells in different rows have vertically apart inset rectangles. */
  lemma RowsApart(g: Grid, i: nat, j: nat, x: int, y: int)
    requires Separated(g)
    requires i < Cells(g) && j < Cells(g) && i / g.count < j / g.count
    ensures !(InChild(g, i, x, y) && InChild(g, j, x, y))
  {
    OffsetStep(g, i / g.count, j / g.count);
  }

  /** An index is determined by its row and column. */
  lemma RowColumnDetermine(i: nat, j: nat, n: nat)
    requires n >= 1 && i % n == j % n && i / n == j / n
    ensures i == j
  {
    assert i == (i / n) * n + i % n;
    assert j == (j / n) * n + j % n;
  }

  /** When cells are separated, no point is in two inset rectangles: the hit is unique. */
  lemma InsetsDisjoint(g: Grid, i: nat, j: nat, x: int, y: int)
    requires Separated(g)
    requires i < Cells(g) && j < Cells(g) && i != j
    ensures !(InChild(g, i, x, y) && InChild(g, j, x, y))
  {
    var n := g.count;
    if i % n < j % n {
      ColumnsApart(g, i, j, x, y);
    } else if j % n < i % n {
      ColumnsApart(g, j, i, x, y);
    } else if i / n < j / n {
      RowsApart(g, i, j, x, y);
    } else if j / n < i / n {
      RowsApart(g, j, i, x, y);
    } else {
      RowColumnDetermine(i, j, n);
    }
  }

  /** The centre of a cell lies inside that cell's inset rectangle. */
  lemma CentreInOwnCell(g: Grid, k: nat)
    requires Separated(g) && k < Cells(g)
    ensures InChild(g, k, CentreX(g, k), CentreY(g, k))
  {
  }

  /** A point strictly inside the horizontal margin below row r selects no cell. */
  lemma RowMarginSelectsNothing(g: Grid, r: nat, x: int, y: int)
    requires r < g.count
    requires Offset(g, r) + g.side < y < Offset(g, r) + g.side + g.margin
    ensures ChildIndexAt(g, x, y, 0) == None
  {
    forall j | 0 <= j < Cells(g)
      ensures !InChild(g, j, x, y)
    {
      var row := j / g.count;
      if row < r {
        OffsetStep(g, row, r);
      } else if row > r {
        OffsetStep(g, r, row);
      }
    }
    FirstMatch(g, x, y, 0);
  }

  /** A finger at a cell's centre selects exactly that cell. */
  lemma CentreSelectsCell(g: Grid, k: nat)
    requires Separated(g) && k < Cells(g)
    ensures ChildIndexAt(g, CentreX(g, k), CentreY(g, k), 0) == Some(k)
  {
    var x, y := CentreX(g, k), CentreY(g, k);
    CentreInOwnCell(g, k);
    var r := ChildIndexAt(g, x, y, 0);
    FirstMatch(g, x, y, 0);
    if r != Some(k) {
      InsetsDisjoint(g, r.value, k, x, y);
    }
  }

  /** A point strictly inside the vertical margin right of column c selects no cell. */
  lemma ColumnMarginSelectsNothing(g: Grid, c: nat, x: int, y: int)
    requires c < g.count
    requires Offset(g, c) + g.side < x < Offset(g, c) + g.side + g.margin
    ensures ChildIndexAt(g, x, y, 0) == None
  {
    forall j | 0 <= j < Cells(g)
      ensures !InChild(g, j, x, y)
    {
      var col := j % g.count;
      if col < c {
        OffsetStep(g, col, c);
      } else if col > c {
        OffsetStep(g, c, col);
      }
    }
    FirstMatch(g, x, y, 0);
  }

  /**
   * Below 5N + 1 pixels the margin and the padding are both 0, so the first
   * two cells of the top row share the edge x = side: a point on it is in
   * both rectangles, and the scan picks the earlier cell.
   */
  lemma TinyCellsOverlap(width: nat, count: nat)
    requires count >= 2 && width < 5 * count + 1
    ensures var g := GridFor(width, count);
      && InChild(g, 0, g.side, 0) && InChild(g, 1, g.side, 0)
      && ChildIndexAt(g, g.side, 0, 0) == Some(0)
  {
    var d := 5 * count + 1;
    var s := CellSide(width, count);
    DivBounds(4 * width, d);
    if s >= 4 {
      MulLeft(4, s, d);
    }
    assert s < 4 && s / 4 == 0 && s * 15 / 100 == 0;
    var g := Grid(count, s, 0);
    assert GridFor(width, count) == g;
    assert 1 % count == 1 && 1 / count == 0;
    assert Left(g, 1) == s && Top(g, 1) == 0 && Left(g, 0) == 0 && Top(g, 0) == 0;
  }
}
