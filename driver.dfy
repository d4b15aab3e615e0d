/** solve: the driver both solvers wrap around solving_sudoku. It marks the
    givens in a fresh working copy, records the first and the last blank
    cell, builds the masks from the givens, seeds the work list with root
    hypotheses on the first blank cell (values 1..m_size for the serial
    solver, the block of one rank for the distributed one), runs the search
    and, on success, copies the tried values back into the puzzle. */
module Driver {
  import opened Geometry
  import opened Bits
  import opened Tracker
  import opened Grid
  import opened Search
  import opened Engine

  /** The puzzle has exactly one blank cell, c. */
  predicate OneBlankAt(s: seq<int>, c: int) {
    0 <= c < |s| && s[c] == 0 && forall i :: 0 <= i < |s| && i != c ==> s[i] != 0
  }

  /** The setup loop of solve: a given becomes UNCHANGEABLE and a blank
      UNASSIGNED in cp_sudoku; flag_start records that a blank was seen,
      first is the first blank and lastPos the last one. */
  method Setup(r: Dim, sudoku: array<int>, cp: array<int>) returns (blank: bool, first: int, lastPos: int)
    requires sudoku != cp && cp.Length == sudoku.Length
    modifies cp
    ensures forall i :: 0 <= i < cp.Length ==> cp[i] == if sudoku[i] != 0 then UNCHANGEABLE else UNASSIGNED
    ensures blank <==> exists i :: 0 <= i < sudoku.Length && sudoku[i] == 0
    ensures blank ==> FirstBlank(sudoku[..], first) && LastBlank(sudoku[..], lastPos)
  {
    blank := false;
    first, lastPos := 0, 0;
    for i := 0 to sudoku.Length
      invariant forall k :: 0 <= k < i ==> cp[k] == if sudoku[k] != 0 then UNCHANGEABLE else UNASSIGNED
      invariant blank <==> exists k :: 0 <= k < i && sudoku[k] == 0
      invariant blank ==> 0 <= first <= lastPos < i && sudoku[first] == 0 && sudoku[lastPos] == 0
      invariant blank ==> (forall k :: 0 <= k < first ==> sudoku[k] != 0)
                          && (forall k :: lastPos < k < i ==> sudoku[k] != 0)
      invariant !blank ==> forall k :: 0 <= k < i ==> sudoku[k] != 0
    {
      if sudoku[i] != 0 {
        cp[i] := UNCHANGEABLE;
      } else {
        cp[i] := UNASSIGNED;
        if !blank {
          blank := true;
          first := i;
        }
        lastPos := i;
      }
    }
  }

  /** The seeding loop of solve: for i from hi down to lo, insert (first, i)
      at the head of the list, so the list starts with lo, lo+1, ..., hi. */
  method Seed(first: int, lo: int, hi: int, work: seq<Hyp>) returns (work': seq<Hyp>)
    requires lo <= hi + 1
    ensures |work'| == hi - lo + 1 + |work|
    ensures forall j :: 0 <= j <= hi - lo ==> work'[j] == Hyp(first, lo + j)
    ensures work'[hi - lo + 1..] == work
  {
    work' := work;
    var i := hi;
    while i >= lo
      invariant lo - 1 <= i <= hi
      invariant |work'| == hi - i + |work|
      invariant forall j :: 0 <= j < hi - i ==> work'[j] == Hyp(first, i + 1 + j)
      invariant work'[hi - i..] == work
    {
      work' := [Hyp(first, i)] + work';
      i := i - 1;
    }
  }

  /** The copy back of solve: every cell that is not UNCHANGEABLE takes its
      value from cp_sudoku, so the puzzle becomes the board. */
  method CopyBack(sudoku: array<int>, cp: array<int>)
    requires sudoku != cp && cp.Length == sudoku.Length
    modifies sudoku
    ensures sudoku[..] == Board(old(sudoku[..]), cp[..])
  {
    ghost var s := sudoku[..];
    for i := 0 to sudoku.Length
      invariant forall k :: 0 <= k < i ==> sudoku[k] == Board(s, cp[..])[k]
      invariant forall k :: i <= k < sudoku.Length ==> sudoku[k] == s[k]
    {
      if cp[i] != UNCHANGEABLE {
        sudoku[i] := cp[i];
      }
    }
  }

  /** After setup, the working copy marks exactly the givens, its board is
      the puzzle itself, and the masks from the givens are consistent with it. */
  lemma SetupConsistent(r: Dim, s: seq<int>, cp: seq<int>)
    requires GivenValues(r, s) && NoClash(r, s) && |cp| == |s|
    requires forall i :: 0 <= i < |cp| ==> cp[i] == if s[i] != 0 then UNCHANGEABLE else UNASSIGNED
    ensures Board(s, cp) == s
    ensures Consistent(r, s, cp, InitMasksOf(r, s))
  {
    assert Board(s, cp) == s;
    InitReflects(r, s);
  }

  /** solve, as written: the search from the first blank cell with the root
      values lo..hi (1..m_size for the serial solver). A reported solution is
      a complete grid without clashes that keeps every given; otherwise the
      puzzle is left alone. A puzzle with a single blank cell is never
      reported solved, whatever fits there. */
  method Solve(r: Dim, sudoku: array<int>, lo: int, hi: int) returns (solved: bool)
    requires sudoku.Length == CellCount(r) && GivenValues(r, sudoku[..]) && NoClash(r, sudoku[..])
    requires exists i :: 0 <= i < sudoku.Length && sudoku[i] == 0
    requires 1 <= lo <= hi + 1 && hi <= LineSize(r)
    modifies sudoku
    ensures solved ==> Complete(r, sudoku[..]) && NoClash(r, sudoku[..])
    ensures solved ==> forall i :: 0 <= i < sudoku.Length && old(sudoku[i]) != 0 ==> sudoku[i] == old(sudoku[i])
    ensures !solved ==> sudoku[..] == old(sudoku[..])
    ensures forall c :: OneBlankAt(old(sudoku[..]), c) ==> !solved
  {
    var rows := new bv64[LineSize(r)];
    var cols := new bv64[LineSize(r)];
    var boxes := new bv64[LineSize(r)];
    var cp := new int[CellCount(r)];
    var blank, first, lastPos := Setup(r, sudoku, cp);
    InitMasks(r, sudoku, rows, cols, boxes);
    var work := Seed(first, lo, hi, []);
    SetupConsistent(r, sudoku[..], cp[..]);
    ghost var s := sudoku[..];
    solved, work := SolvingSudoku(r, sudoku, cp, rows, cols, boxes, work, lastPos, first);
    assert forall c :: OneBlankAt(s, c) ==> c == first == lastPos;
    if solved {
      CopyBack(sudoku, cp);
    }
  }

  /** Filling the one blank cell of a puzzle without clashes with a value no
      peer holds gives a complete grid without clashes: such a puzzle has a
      solution that Solve does not report. */
  lemma OneBlankSolvable(r: Dim, s: seq<int>, c: int, v: int)
    requires GivenValues(r, s) && NoClash(r, s) && OneBlankAt(s, c)
    requires 1 <= v <= LineSize(r) && FreeFor(r, s, c, v)
    ensures Complete(r, s[c := v]) && NoClash(r, s[c := v])
  {
    PlaceNoClash(r, s, c, v);
  }

  /** solve with the single-blank case handled: when the first blank is also
      the last one, the roots are tried in list order and the first one
      is_safe_num accepts is written into that cell. Otherwise as Solve. A
      single-blank puzzle is then reported solved exactly when one of the
      root values fits its cell. */
  method SolveFixed(r: Dim, sudoku: array<int>, lo: int, hi: int) returns (solved: bool)
    requires sudoku.Length == CellCount(r) && GivenValues(r, sudoku[..]) && NoClash(r, sudoku[..])
    requires exists i :: 0 <= i < sudoku.Length && sudoku[i] == 0
    requires 1 <= lo <= hi + 1 && hi <= LineSize(r)
    modifies sudoku
    ensures solved ==> Complete(r, sudoku[..]) && NoClash(r, sudoku[..])
    ensures solved ==> forall i :: 0 <= i < sudoku.Length && old(sudoku[i]) != 0 ==> sudoku[i] == old(sudoku[i])
    ensures !solved ==> sudoku[..] == old(sudoku[..])
    ensures forall c :: OneBlankAt(old(sudoku[..]), c) ==>
              (solved <==> exists v :: lo <= v <= hi && FreeFor(r, old(sudoku[..]), c, v))
  {
    var rows := new bv64[LineSize(r)];
    var cols := new bv64[LineSize(r)];
    var boxes := new bv64[LineSize(r)];
    var cp := new int[CellCount(r)];
    var blank, first, lastPos := Setup(r, sudoku, cp);
    InitMasks(r, sudoku, rows, cols, boxes);
    var work := Seed(first, lo, hi, []);
    SetupConsistent(r, sudoku[..], cp[..]);
    ghost var s := sudoku[..];
    assert forall c :: OneBlankAt(s, c) ==> c == first == lastPos;
    if first == lastPos {
      assert OneBlankAt(s, first);
      var v;
      solved, v := FillLast(r, s, cp, rows, cols, boxes, first, lo, hi);
      if solved {
        OneBlankSolvable(r, s, first, v);
        assert Board(s, cp[..]) == s[first := v];
        CopyBack(sudoku, cp);
      }
    } else {
      solved, work := SolvingSudoku(r, sudoku, cp, rows, cols, boxes, work, lastPos, first);
      if solved {
        CopyBack(sudoku, cp);
      }
    }
  }

  /** The roots of a single-blank puzzle, popped in list order (lo first):
      the first value is_safe_num accepts is written into the cell. */
  method FillLast(r: Dim, ghost s: seq<int>, cp: array<int>,
                  rows: array<bv64>, cols: array<bv64>, boxes: array<bv64>,
                  cell: int, lo: int, hi: int) returns (solved: bool, v: int)
    requires Arrays(r, rows, cols, boxes) && Apart(cp, rows, cols, boxes)
    requires Consistent(r, s, cp[..], Snapshot(rows, cols, boxes))
    requires 0 <= cell < cp.Length && s[cell] == 0 && cp[cell] == UNASSIGNED
    requires 1 <= lo && hi <= LineSize(r)
    modifies cp
    ensures solved ==> lo <= v <= hi && FreeFor(r, Board(s, old(cp[..])), cell, v)
                       && cp[..] == old(cp[..])[cell := v]
    ensures solved ==> forall w :: lo <= w < v ==> !FreeFor(r, Board(s, old(cp[..])), cell, w)
    ensures !solved ==> cp[..] == old(cp[..])
                        && forall w :: lo <= w <= hi ==> !FreeFor(r, Board(s, cp[..]), cell, w)
  {
    ghost var b := Board(s, cp[..]);
    var ms := Snapshot(rows, cols, boxes);
    v := lo;
    while v <= hi
      invariant lo <= v <= hi + 1 || (hi < lo && v == lo)
      invariant cp[..] == old(cp[..])
      invariant forall w :: lo <= w < v ==> !FreeFor(r, b, cell, w)
    {
      SafeIsFree(r, b, ms, cell, v);
      if IsSafeNum(r, ms, Row(r, cell), Col(r, cell), v) {
        cp[cell] := v;
        return true, v;
      }
      v := v + 1;
    }
    solved := false;
  }
}
