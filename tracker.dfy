/** The bitmask constraint tracker shared by both solvers: three arrays of
    m_size 64-bit masks, one per row, column and box. Bit num-1 of a mask
    records that value num is placed in that line or box.

    `MaskSet` is the value of the three arrays; the methods update the arrays
    in place and are specified by the functions on `MaskSet`. */
module Tracker {
  import opened Geometry
  import opened Bits

  datatype MaskSet = MaskSet(rows: seq<bv64>, cols: seq<bv64>, boxes: seq<bv64>)

  /** The three mask arrays have m_size entries each. */
  predicate Sized(r: Dim, ms: MaskSet) {
    |ms.rows| == LineSize(r) && |ms.cols| == LineSize(r) && |ms.boxes| == LineSize(r)
  }

  /** exists_in: OR-ing the bit of num into mask[index] leaves it unchanged
      exactly when that bit is already set. */
  function ExistsIn(index: int, mask: seq<bv64>, num: int): (b: bool)
    requires 0 <= index < |mask| && 1 <= num <= 31
    ensures b <==> Has(mask[index], num)
  {
    var cur := mask[index];
    OrAbsorbs(cur, num);
    (cur | Bit(num)) == cur
  }

  /** is_safe_num: num is absent from the row, the column and the box. */
  function IsSafeNum(r: Dim, ms: MaskSet, row: int, col: int, num: int): (b: bool)
    requires Sized(r, ms)
    requires 0 <= row < LineSize(r) && 0 <= col < LineSize(r) && 1 <= num <= LineSize(r)
    ensures b <==> !Has(ms.rows[row], num) && !Has(ms.cols[col], num)
                   && !Has(ms.boxes[Box(r, row, col)], num)
  {
    !ExistsIn(row, ms.rows, num) && !ExistsIn(col, ms.cols, num)
    && !ExistsIn(Box(r, row, col), ms.boxes, num)
  }

  /** s with the bit OR-ed into entry k. */
  function OrAt(s: seq<bv64>, k: int, bit: bv64): (t: seq<bv64>)
    requires 0 <= k < |s|
    ensures |t| == |s|
  {
    s[k := s[k] | bit]
  }

  /** s with the bit XOR-ed into entry k. */
  function XorAt(s: seq<bv64>, k: int, bit: bv64): (t: seq<bv64>)
    requires 0 <= k < |s|
    ensures |t| == |s|
  {
    s[k := s[k] ^ bit]
  }

  /** What update_masks does to the three arrays: OR the bit in. */
  function Place(r: Dim, ms: MaskSet, num: int, row: int, col: int): (res: MaskSet)
    requires Sized(r, ms)
    requires 0 <= row < LineSize(r) && 0 <= col < LineSize(r) && 1 <= num <= LineSize(r)
    ensures Sized(r, res)
  {
    MaskSet(OrAt(ms.rows, row, Bit(num)), OrAt(ms.cols, col, Bit(num)),
            OrAt(ms.boxes, Box(r, row, col), Bit(num)))
  }

  /** What rm_num_masks does to the three arrays: XOR the bit. */
  function Remove(r: Dim, ms: MaskSet, num: int, row: int, col: int): (res: MaskSet)
    requires Sized(r, ms)
    requires 0 <= row < LineSize(r) && 0 <= col < LineSize(r) && 1 <= num <= LineSize(r)
    ensures Sized(r, res)
  {
    MaskSet(XorAt(ms.rows, row, Bit(num)), XorAt(ms.cols, col, Bit(num)),
            XorAt(ms.boxes, Box(r, row, col), Bit(num)))
  }

  /** rm_num_masks undoes update_masks exactly when the bit was clear in
      all three masks before. */
  lemma PlaceThenRemove(r: Dim, ms: MaskSet, num: int, row: int, col: int)
    requires Sized(r, ms)
    requires 0 <= row < LineSize(r) && 0 <= col < LineSize(r) && 1 <= num <= LineSize(r)
    requires !Has(ms.rows[row], num) && !Has(ms.cols[col], num) && !Has(ms.boxes[Box(r, row, col)], num)
    ensures Remove(r, Place(r, ms, num, row, col), num, row, col) == ms
  {
    OrXorAt(ms.rows, row, num);
    OrXorAt(ms.cols, col, num);
    OrXorAt(ms.boxes, Box(r, row, col), num);
  }

  /** The same for one mask array. */
  lemma OrXorAt(s: seq<bv64>, k: int, num: int)
    requires 0 <= k < |s| && 1 <= num <= 31 && !Has(s[k], num)
    ensures XorAt(OrAt(s, k, Bit(num)), k, Bit(num)) == s
  {
    OrThenXor(s[k], num);
  }

  /** The three arrays as one value. */
  function Snapshot(rows: array<bv64>, cols: array<bv64>, boxes: array<bv64>): MaskSet
    reads rows, cols, boxes
  {
    MaskSet(rows[..], cols[..], boxes[..])
  }

  /** Three distinct arrays of m_size masks each. */
  predicate Arrays(r: Dim, rows: array<bv64>, cols: array<bv64>, boxes: array<bv64>) {
    rows.Length == LineSize(r) && cols.Length == LineSize(r) && boxes.Length == LineSize(r)
    && rows != cols && cols != boxes && rows != boxes
  }

  /** A grid array is none of the mask arrays. */
  predicate Apart(g: array<int>, rows: array<bv64>, cols: array<bv64>, boxes: array<bv64>) {
    g as object != rows as object && g as object != cols as object && g as object != boxes as object
  }

  /** One mask array with the bit OR-ed into entry k. */
  method OrInto(a: array<bv64>, k: int, bit: bv64)
    requires 0 <= k < a.Length
    modifies a
    ensures a[..] == OrAt(old(a[..]), k, bit)
  {
    var n := a[k] | bit;
    a[k] := n;
  }

  /** One mask array with the bit XOR-ed into entry k. */
  method XorInto(a: array<bv64>, k: int, bit: bv64)
    requires 0 <= k < a.Length
    modifies a
    ensures a[..] == XorAt(old(a[..]), k, bit)
  {
    var n := a[k] ^ bit;
    a[k] := n;
  }

  /** update_masks: OR the bit of num into the row, column and box masks. */
  method UpdateMasks(r: Dim, num: int, row: int, col: int,
                     rows: array<bv64>, cols: array<bv64>, boxes: array<bv64>)
    requires Arrays(r, rows, cols, boxes)
    requires 0 <= row < LineSize(r) && 0 <= col < LineSize(r) && 1 <= num <= LineSize(r)
    modifies rows, cols, boxes
    ensures Snapshot(rows, cols, boxes) == Place(r, old(Snapshot(rows, cols, boxes)), num, row, col)
  {
    var bit := Bit(num);
    OrInto(rows, row, bit);
    OrInto(cols, col, bit);
    OrInto(boxes, Box(r, row, col), bit);
  }

  /** rm_num_masks: XOR the bit of num into the row, column and box masks. */
  method RmNumMasks(r: Dim, num: int, row: int, col: int,
                    rows: array<bv64>, cols: array<bv64>, boxes: array<bv64>)
    requires Arrays(r, rows, cols, boxes)
    requires 0 <= row < LineSize(r) && 0 <= col < LineSize(r) && 1 <= num <= LineSize(r)
    modifies rows, cols, boxes
    ensures Snapshot(rows, cols, boxes) == Remove(r, old(Snapshot(rows, cols, boxes)), num, row, col)
  {
    var bit := Bit(num);
    XorInto(rows, row, bit);
    XorInto(cols, col, bit);
    XorInto(boxes, Box(r, row, col), bit);
  }

  /** Every entry of b is at most m_size (so its positive entries are values). */
  predicate Bounded(r: Dim, b: seq<int>) {
    forall i :: 0 <= i < |b| ==> b[i] <= LineSize(r)
  }

  /** A puzzle as loaded: m_size * m_size givens, each 0 (blank) or a value. */
  predicate GivenValues(r: Dim, s: seq<int>) {
    |s| == CellCount(r) && forall i :: 0 <= i < |s| ==> 0 <= s[i] <= LineSize(r)
  }

  /** All masks zero. */
  function Empty(r: Dim): (ms: MaskSet)
    ensures Sized(r, ms)
  {
    var z := seq(LineSize(r), _ => 0 as bv64);
    MaskSet(z, z, z)
  }

  /** The effect of cell i of b on the masks: its value is placed when positive. */
  function PlaceCell(r: Dim, ms: MaskSet, b: seq<int>, i: int): (res: MaskSet)
    requires Sized(r, ms) && |b| == CellCount(r) && 0 <= i < |b| && b[i] <= LineSize(r)
    ensures Sized(r, res)
  {
    if b[i] > 0 then Place(r, ms, b[i], Row(r, i), Col(r, i)) else ms
  }

  /** The masks after placing the positive cells lo..hi-1 of b, in index order. */
  function Placed(r: Dim, ms: MaskSet, b: seq<int>, lo: int, hi: int): (res: MaskSet)
    requires Sized(r, ms) && |b| == CellCount(r) && Bounded(r, b) && 0 <= lo <= hi <= |b|
    ensures Sized(r, res)
    decreases hi - lo
  {
    if hi == lo then ms else PlaceCell(r, Placed(r, ms, b, lo, hi - 1), b, hi - 1)
  }

  /** The masks init_masks computes from the givens s. */
  function InitMasksOf(r: Dim, s: seq<int>): (ms: MaskSet)
    requires GivenValues(r, s)
    ensures Sized(r, ms)
  {
    Placed(r, Empty(r), s, 0, |s|)
  }

  /** init_masks: zero every mask, then place every nonzero given. */
  method InitMasks(r: Dim, sudoku: array<int>,
                   rows: array<bv64>, cols: array<bv64>, boxes: array<bv64>)
    requires Arrays(r, rows, cols, boxes) && Apart(sudoku, rows, cols, boxes)
    requires GivenValues(r, sudoku[..])
    modifies rows, cols, boxes
    ensures Snapshot(rows, cols, boxes) == InitMasksOf(r, sudoku[..])
  {
    ghost var s := sudoku[..];
    var m := LineSize(r);
    for i := 0 to m
      invariant forall k :: 0 <= k < i ==> rows[k] == 0 && cols[k] == 0 && boxes[k] == 0
    {
      rows[i] := 0;
      cols[i] := 0;
      boxes[i] := 0;
    }
    assert Snapshot(rows, cols, boxes) == Empty(r);
    for i := 0 to CellCount(r)
      invariant Snapshot(rows, cols, boxes) == Placed(r, Empty(r), s, 0, i)
    {
      assert s[i] == sudoku[i];
      if sudoku[i] != 0 {
        UpdateMasks(r, sudoku[i], Row(r, i), Col(r, i), rows, cols, boxes);
      }
    }
  }

  datatype Option<T> = None | Some(value: T)

  /** The clearing loop of delete_from as written: i runs from v_size down
      to cell, reading cp_sudoku[i] each time; a read outside the v_size
      cells of cp_sudoku is a failure (None). Otherwise the result is cp
      with every positive entry from cell to i cleared. */
  function ClearLoopAsWritten(cp: seq<int>, i: int, cell: int): (res: Option<seq<int>>)
    requires 0 <= cell
    ensures cell <= i && |cp| <= i ==> res == None
    ensures i < |cp| ==> res.Some? && |res.value| == |cp|
                         && forall k :: 0 <= k < |cp| ==>
                              res.value[k] == if cell <= k <= i && cp[k] > 0 then 0 else cp[k]
    decreases i - cell + 1
  {
    if i < cell then Some(cp)
    else if i >= |cp| then None
    else ClearLoopAsWritten(if cp[i] > 0 then cp[i := 0] else cp, i - 1, cell)
  }

  /** Every call of delete_from reads cp_sudoku[v_size], one entry past the
      end of the working copy, on its first step. */
  lemma DeleteFromReadsPastEnd(cp: seq<int>, cell: int)
    requires 0 <= cell <= |cp|
    ensures ClearLoopAsWritten(cp, |cp|, cell) == None
  {
  }

  /** delete_from, with the clearing loop kept inside the array: reset the
      masks from the givens, clear every assigned cell at or after `cell`,
      then place the assigned cells before `cell`. */
  method DeleteFrom(r: Dim, sudoku: array<int>, cp: array<int>,
                    rows: array<bv64>, cols: array<bv64>, boxes: array<bv64>, cell: int)
    requires Arrays(r, rows, cols, boxes) && Apart(sudoku, rows, cols, boxes)
    requires Apart(cp, rows, cols, boxes) && sudoku != cp
    requires GivenValues(r, sudoku[..]) && cp.Length == CellCount(r)
    requires Bounded(r, cp[..])
    requires 0 <= cell <= cp.Length
    modifies cp, rows, cols, boxes
    ensures forall i :: 0 <= i < cp.Length ==>
              cp[i] == if cell <= i && old(cp[i]) > 0 then 0 else old(cp[i])
    ensures Bounded(r, cp[..])
    ensures Snapshot(rows, cols, boxes) == Placed(r, InitMasksOf(r, sudoku[..]), cp[..], 0, cell)
  {
    InitMasks(r, sudoku, rows, cols, boxes);
    ClearTail(r, cp, cell);
    Replay(r, cp, rows, cols, boxes, cell);
  }

  /** The clearing loop of delete_from, walking down from the last cell to
      cell: every tried value at or after cell becomes UNASSIGNED. */
  method ClearTail(r: Dim, cp: array<int>, cell: int)
    requires cp.Length == CellCount(r) && Bounded(r, cp[..]) && 0 <= cell <= cp.Length
    modifies cp
    ensures forall i :: 0 <= i < cp.Length ==>
              cp[i] == if cell <= i && old(cp[i]) > 0 then 0 else old(cp[i])
    ensures Bounded(r, cp[..])
  {
    var i := cp.Length - 1;
    while i >= cell
      invariant cell - 1 <= i < cp.Length
      invariant Bounded(r, cp[..])
      invariant forall k :: 0 <= k < cp.Length ==>
                  cp[k] == if i < k && old(cp[k]) > 0 then 0 else old(cp[k])
    {
      if cp[i] > 0 {
        cp[i] := 0;
      }
      i := i - 1;
    }
  }

  /** The replay loop of delete_from: update_masks for every value tried
      before cell, on top of the masks of the givens. */
  method Replay(r: Dim, cp: array<int>, rows: array<bv64>, cols: array<bv64>, boxes: array<bv64>, cell: int)
    requires Arrays(r, rows, cols, boxes) && Apart(cp, rows, cols, boxes)
    requires cp.Length == CellCount(r) && Bounded(r, cp[..]) && 0 <= cell <= cp.Length
    modifies rows, cols, boxes
    ensures Snapshot(rows, cols, boxes) == Placed(r, old(Snapshot(rows, cols, boxes)), cp[..], 0, cell)
  {
    ghost var base := Snapshot(rows, cols, boxes);
    for i := 0 to cell
      invariant Snapshot(rows, cols, boxes) == Placed(r, base, cp[..], 0, i)
    {
      assert cp[..][i] == cp[i];
      if cp[i] > 0 {
        UpdateMasks(r, cp[i], Row(r, i), Col(r, i), rows, cols, boxes);
      }
    }
  }

}
