/**
 * The parsed maze of code.cpp lines 418-549, reduced to what the solver
 * reads: a rows x cols character grid and `getCell` (lines 501-511), which
 * reads every coordinate outside the grid as a wall. Also the row-major list
 * of passable cells, the reference the graph construction is checked against.
 */
module Mazes {
  import opened Limits
  import opened Seqs

  type Cell = (int, int)

  datatype Maze = Maze(grid: seq<seq<char>>, rows: int, cols: int) {

    /** The grid fits the source's `grid[MAX_ROWS][MAX_COLS]` and is rectangular. */
    ghost predicate Valid() {
      && 0 <= rows <= MaxRows
      && 0 <= cols <= MaxCols
      && |grid| == rows
      && forall i :: 0 <= i < rows ==> |grid[i]| == cols
    }

    function GetCell(r: int, c: int): (ch: char)
      requires Valid()
      ensures 0 <= r < rows && 0 <= c < cols ==> ch == grid[r][c]
      ensures !(0 <= r < rows && 0 <= c < cols) ==> ch == '#'
    {
      if 0 <= r < rows && 0 <= c < cols then grid[r][c] else '#'
    }
  }

  /** Open cells, the start and the end become graph nodes; everything else is a wall. */
  predicate Passable(ch: char) {
    ch == ' ' || ch == 'S' || ch == 'E'
  }

  ghost predicate IsOpenCell(m: Maze, p: Cell)
    requires m.Valid()
  {
    0 <= p.0 < m.rows && 0 <= p.1 < m.cols && Passable(m.GetCell(p.0, p.1))
  }

  /** Cell `a` comes strictly before cell `b` in a row-major scan. */
  predicate RowMajorBefore(a: Cell, b: Cell) {
    a.0 < b.0 || (a.0 == b.0 && a.1 < b.1)
  }

  ghost predicate RowMajorSorted(cells: seq<Cell>) {
    forall a, b :: 0 <= a < b < |cells| ==> RowMajorBefore(cells[a], cells[b])
  }

  /** Passable cells (i, c) of row i with c < j, left to right. */
  function RowCells(m: Maze, i: int, j: int): seq<Cell>
    requires m.Valid()
    requires 0 <= j <= m.cols
    decreases j
  {
    if j == 0 then []
    else RowCells(m, i, j - 1) + (if Passable(m.GetCell(i, j - 1)) then [(i, j - 1)] else [])
  }

  /** Passable cells of rows 0 .. i-1 in row-major order. */
  function RowsCells(m: Maze, i: int): seq<Cell>
    requires m.Valid()
    requires 0 <= i <= m.rows
    decreases i
  {
    if i == 0 then [] else RowsCells(m, i - 1) + RowCells(m, i - 1, m.cols)
  }

  /** Passable cells strictly before (i, j) in row-major order. */
  function CellsBefore(m: Maze, i: int, j: int): seq<Cell>
    requires m.Valid()
    requires 0 <= i <= m.rows && 0 <= j <= m.cols
    requires i == m.rows ==> j == 0
  {
    RowsCells(m, i) + (if i < m.rows then RowCells(m, i, j) else [])
  }

  /** All passable cells in row-major order; node k of the built graph is cell Cells(m)[k]. */
  function Cells(m: Maze): seq<Cell>
    requires m.Valid()
  {
    RowsCells(m, m.rows)
  }

  lemma {:induction false} RowCellsShape(m: Maze, i: int, j: int)
    requires m.Valid()
    requires 0 <= i < m.rows && 0 <= j <= m.cols
    ensures |RowCells(m, i, j)| <= j
    ensures RowMajorSorted(RowCells(m, i, j))
    ensures forall p :: p in RowCells(m, i, j) <==> p.0 == i && 0 <= p.1 < j && IsOpenCell(m, p)
    decreases j
  {
    if j > 0 {
      RowCellsShape(m, i, j - 1);
    }
  }

  lemma {:induction false} RowsCellsLength(m: Maze, i: int)
    requires m.Valid()
    requires 0 <= i <= m.rows
    ensures |RowsCells(m, i)| <= i * m.cols
    decreases i
  {
    if i > 0 {
      RowsCellsLength(m, i - 1);
      RowCellsShape(m, i - 1, m.cols);
      assert (i - 1) * m.cols + m.cols == i * m.cols;
    }
  }

  lemma {:induction false} RowsCellsMembers(m: Maze, i: int)
    requires m.Valid()
    requires 0 <= i <= m.rows
    ensures forall p :: p in RowsCells(m, i) <==> 0 <= p.0 < i && IsOpenCell(m, p)
    decreases i
  {
    if i > 0 {
      RowsCellsMembers(m, i - 1);
      RowCellsShape(m, i - 1, m.cols);
    }
  }

  lemma {:induction false} RowsCellsSorted(m: Maze, i: int)
    requires m.Valid()
    requires 0 <= i <= m.rows
    ensures RowMajorSorted(RowsCells(m, i))
    decreases i
  {
    if i > 0 {
      RowsCellsSorted(m, i - 1);
      RowsCellsMembers(m, i - 1);
      RowCellsShape(m, i - 1, m.cols);
      var a, b := RowsCells(m, i - 1), RowCells(m, i - 1, m.cols);
      forall x, y | 0 <= x < y < |a + b|
        ensures RowMajorBefore((a + b)[x], (a + b)[y])
      {
        if y < |a| {
          assert (a + b)[x] == a[x] && (a + b)[y] == a[y];
        } else if |a| <= x {
          assert (a + b)[x] == b[x - |a|] && (a + b)[y] == b[y - |a|];
        } else {
          assert (a + b)[x] == a[x] && a[x] in a;
          assert (a + b)[y] == b[y - |a|] && b[y - |a|] in b;
        }
      }
    }
  }

  lemma RowsCellsShape(m: Maze, i: int)
    requires m.Valid()
    requires 0 <= i <= m.rows
    ensures |RowsCells(m, i)| <= i * m.cols
    ensures RowMajorSorted(RowsCells(m, i))
    ensures forall p :: p in RowsCells(m, i) <==> 0 <= p.0 < i && IsOpenCell(m, p)
  {
    RowsCellsLength(m, i);
    RowsCellsSorted(m, i);
    RowsCellsMembers(m, i);
  }

  /**
   * The passable cells, listed once each in row-major order, are exactly the
   * open cells of the grid, and there are at most MaxNodes of them.
   */
  lemma CellsShape(m: Maze)
    requires m.Valid()
    ensures RowMajorSorted(Cells(m)) && Distinct(Cells(m))
    ensures forall p :: p in Cells(m) <==> IsOpenCell(m, p)
    ensures |Cells(m)| <= MaxNodes
  {
    RowsCellsShape(m, m.rows);
    CellsArea(m);
    assert Distinct(Cells(m)) by {
      forall a, b | 0 <= a < b < |Cells(m)|
        ensures Cells(m)[a] != Cells(m)[b]
      {
        assert RowMajorBefore(Cells(m)[a], Cells(m)[b]);
      }
    }
  }

  /** There are at most rows * cols passable cells, and a grid within the limits has at most MaxNodes cells. */
  lemma CellsArea(m: Maze)
    requires m.Valid()
    ensures |Cells(m)| <= m.rows * m.cols <= MaxNodes
  {
    RowsCellsShape(m, m.rows);
    GridArea(m.rows, m.cols);
  }

  lemma GridArea(rows: int, cols: int)
    requires 0 <= rows <= MaxRows && 0 <= cols <= MaxCols
    ensures rows * cols <= MaxNodes
  {
    assert rows * cols <= MaxRows * cols;
    assert MaxRows * cols <= MaxRows * MaxCols;
  }

  lemma {:induction false} RowCellsPrefix(m: Maze, i: int, j: int, j': int)
    requires m.Valid()
    requires 0 <= i < m.rows && 0 <= j <= j' <= m.cols
    ensures RowCells(m, i, j) <= RowCells(m, i, j')
    decreases j' - j
  {
    if j < j' {
      RowCellsPrefix(m, i, j, j' - 1);
    }
  }

  lemma {:induction false} RowsCellsPrefix(m: Maze, i: int, i': int)
    requires m.Valid()
    requires 0 <= i <= i' <= m.rows
    ensures RowsCells(m, i) <= RowsCells(m, i')
    decreases i' - i
  {
    if i < i' {
      RowsCellsPrefix(m, i, i' - 1);
    }
  }

  /** The scan up to (i, j) is a prefix of the whole scan. */
  lemma CellsBeforePrefix(m: Maze, i: int, j: int)
    requires m.Valid()
    requires 0 <= i <= m.rows && 0 <= j <= m.cols
    requires i == m.rows ==> j == 0
    ensures CellsBefore(m, i, j) <= Cells(m)
  {
    if i < m.rows {
      RowCellsPrefix(m, i, j, m.cols);
      RowsCellsPrefix(m, i + 1, m.rows);
      assert RowsCells(m, i + 1) == RowsCells(m, i) + RowCells(m, i, m.cols);
    }
  }

  /** A passable cell (i, j) sits in Cells(m) at the position equal to the number of passable cells before it. */
  lemma CellPosition(m: Maze, i: int, j: int)
    requires m.Valid()
    requires 0 <= i < m.rows && 0 <= j < m.cols
    requires Passable(m.GetCell(i, j))
    ensures |CellsBefore(m, i, j)| < |Cells(m)|
    ensures Cells(m)[|CellsBefore(m, i, j)|] == (i, j)
  {
    CellsBeforePrefix(m, i, j + 1);
    assert CellsBefore(m, i, j + 1) == CellsBefore(m, i, j) + [(i, j)];
  }

  /**
   * The position of the last cell of `cells` holding `ch`, or -1: for 'S'
   * and 'E' this is the node the build records as start or end (a later
   * occurrence overwrites an earlier one).
   */
  function LastWith(m: Maze, cells: seq<Cell>, ch: char): (k: int)
    requires m.Valid()
    ensures -1 <= k < |cells|
    ensures k >= 0 ==> m.GetCell(cells[k].0, cells[k].1) == ch
    ensures forall i :: k < i < |cells| ==> m.GetCell(cells[i].0, cells[i].1) != ch
    decreases |cells|
  {
    if cells == [] then -1
    else if m.GetCell(cells[|cells| - 1].0, cells[|cells| - 1].1) == ch then |cells| - 1
    else LastWith(m, cells[..|cells| - 1], ch)
  }

  /** Row-major linearisation used for reported paths: r * MAX_COLS + c. */
  function Encode(p: Cell): int {
    p.0 * MaxCols + p.1
  }

  /** Two cells share a side. */
  predicate Adjacent(a: Cell, b: Cell) {
    (a.1 == b.1 && (a.0 - b.0 == 1 || b.0 - a.0 == 1)) ||
    (a.0 == b.0 && (a.1 - b.1 == 1 || b.1 - a.1 == 1))
  }
}
