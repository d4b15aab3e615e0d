/** Grid geometry: the box size r, the line size m = r*r, the cell count
    v = m*m, and the ROW / COL / BOX index arithmetic of both solvers.

    The constraint masks are built with a shift `1 << (num-1)` on a 32-bit
    int, so the line size may not exceed 31; with m = r*r that means a box
    size of at most 5. */
module Geometry {

  /** Box size of a puzzle the solvers accept. */
  type Dim = r: int | 1 <= r <= 5 witness 1

  /** m_size: number of values, lines, columns and boxes. */
  function LineSize(r: Dim): (m: int)
    ensures 1 <= m <= 25 && m == r * r
  {
    r * r
  }

  /** v_size: number of cells. */
  function CellCount(r: Dim): (v: int)
    ensures LineSize(r) <= v <= 625 && v == LineSize(r) * LineSize(r)
  {
    MulMono(LineSize(r), 1, LineSize(r));
    MulMono(LineSize(r), LineSize(r), 25);
    MulMono(25, LineSize(r), 25);
    LineSize(r) * LineSize(r)
  }

  /** ROW(i): the row of cell i (cells are numbered row-major). */
  function Row(r: Dim, i: int): (row: int)
    requires 0 <= i < CellCount(r)
    ensures 0 <= row < LineSize(r)
  {
    QuotientBound(i, LineSize(r));
    i / LineSize(r)
  }

  /** COL(i): the column of cell i. */
  function Col(r: Dim, i: int): (col: int)
    requires 0 <= i < CellCount(r)
    ensures 0 <= col < LineSize(r)
  {
    i % LineSize(r)
  }

  /** BOX(row, col): the box holding (row, col), numbered row-major among
      the r*r boxes. */
  function Box(r: Dim, row: int, col: int): (box: int)
    requires 0 <= row < LineSize(r) && 0 <= col < LineSize(r)
    ensures 0 <= box < LineSize(r)
  {
    QuotientBound(row, r);
    QuotientBound(col, r);
    MulMono(r, row / r, r - 1);
    r * (row / r) + col / r
  }

  /** The box of cell i. */
  function BoxOf(r: Dim, i: int): (box: int)
    requires 0 <= i < CellCount(r)
    ensures 0 <= box < LineSize(r)
  {
    Box(r, Row(r, i), Col(r, i))
  }

  /** Two cells constrain each other when they share a row, a column or a box. */
  predicate Peers(r: Dim, i: int, j: int)
    requires 0 <= i < CellCount(r) && 0 <= j < CellCount(r)
  {
    Row(r, i) == Row(r, j) || Col(r, i) == Col(r, j) || BoxOf(r, i) == BoxOf(r, j)
  }

  /** A cell is recovered from its row and column. */
  lemma {:induction false} RowColDetermineCell(r: Dim, i: int, j: int)
    requires 0 <= i < CellCount(r) && 0 <= j < CellCount(r)
    requires Row(r, i) == Row(r, j) && Col(r, i) == Col(r, j)
    ensures i == j
  {
    var m := LineSize(r);
    assert i == m * (i / m) + i % m;
    assert j == m * (j / m) + j % m;
  }

  lemma MulMono(a: int, b: int, c: int)
    requires 0 <= a && b <= c
    ensures a * b <= a * c
  {
    assert a * c - a * b == a * (c - b);
  }

  /** 0 <= i < d*d implies i / d < d. */
  lemma QuotientBound(i: int, d: int)
    requires 0 < d && 0 <= i < d * d
    ensures 0 <= i / d < d
  {
    if i / d >= d {
      MulMono(d, d, i / d);
    }
  }
}
