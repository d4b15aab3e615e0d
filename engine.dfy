/** The work-list depth-first search shared by both solvers (solving_sudoku
    without the message handling of the distributed solver). */
module Engine {
  import opened Geometry
  import opened Bits
  import opened Tracker
  import opened Grid
  import opened Search

  /** last_pos is the last blank cell of the puzzle s. */
  predicate LastBlank(s: seq<int>, lastPos: int) {
    0 <= lastPos < |s| && s[lastPos] == 0 && forall i :: lastPos < i < |s| ==> s[i] != 0
  }

  /** first is the first blank cell of the puzzle s. */
  predicate FirstBlank(s: seq<int>, first: int) {
    0 <= first < |s| && s[first] == 0 && forall i :: 0 <= i < first ==> s[i] != 0
  }

  /** Every cell before n holds a value. */
  predicate Filled(b: seq<int>, n: int) {
    forall i :: 0 <= i < n && i < |b| ==> b[i] > 0
  }

  /** No cell from n on holds a tried value. */
  predicate ClearFrom(cp: seq<int>, n: int) {
    forall i :: n <= i < |cp| && 0 <= i ==> cp[i] <= 0
  }

  /** The state the search keeps between steps: cp is a working copy of
      the puzzle, the masks reflect its board and no value repeats. */
  predicate Consistent(r: Dim, s: seq<int>, cp: seq<int>, ms: MaskSet) {
    Working(r, s, cp) && Reflects(r, Board(s, cp), ms) && NoClash(r, Board(s, cp))
  }

  /** The commit at the top of a pass: update_masks for the hypothesis, then
      write its value into cp_sudoku. */
  method Commit(r: Dim, ghost s: seq<int>, cp: array<int>,
                rows: array<bv64>, cols: array<bv64>, boxes: array<bv64>, hyp: Hyp)
    requires Arrays(r, rows, cols, boxes) && Apart(cp, rows, cols, boxes)
    requires Consistent(r, s, cp[..], Snapshot(rows, cols, boxes))
    requires 0 <= hyp.cell < cp.Length && cp[hyp.cell] == UNASSIGNED && 1 <= hyp.num <= LineSize(r)
    requires FreeFor(r, Board(s, cp[..]), hyp.cell, hyp.num)
    modifies cp, rows, cols, boxes
    ensures cp[..] == old(cp[..])[hyp.cell := hyp.num]
    ensures Board(s, cp[..]) == old(Board(s, cp[..]))[hyp.cell := hyp.num]
    ensures Consistent(r, s, cp[..], Snapshot(rows, cols, boxes))
  {
    ghost var b := Board(s, cp[..]);
    ghost var ms := Snapshot(rows, cols, boxes);
    UpdateMasks(r, hyp.num, Row(r, hyp.cell), Col(r, hyp.cell), rows, cols, boxes);
    cp[hyp.cell] := hyp.num;
    assert Board(s, cp[..]) == b[hyp.cell := hyp.num];
    PlaceReflects(r, b, ms, hyp.cell, hyp.num);
    PlaceNoClash(r, b, hyp.cell, hyp.num);
  }

  /** One step of the clearing loops: rm_num_masks for the value of cell,
      then reset it to UNASSIGNED. */
  method Clear(r: Dim, ghost s: seq<int>, cp: array<int>,
               rows: array<bv64>, cols: array<bv64>, boxes: array<bv64>, cell: int)
    requires Arrays(r, rows, cols, boxes) && Apart(cp, rows, cols, boxes)
    requires Consistent(r, s, cp[..], Snapshot(rows, cols, boxes))
    requires 0 <= cell < cp.Length && cp[cell] > 0
    modifies cp, rows, cols, boxes
    ensures cp[..] == old(cp[..])[cell := UNASSIGNED]
    ensures Consistent(r, s, cp[..], Snapshot(rows, cols, boxes))
  {
    ghost var b := Board(s, cp[..]);
    ghost var ms := Snapshot(rows, cols, boxes);
    RmNumMasks(r, cp[cell], Row(r, cell), Col(r, cell), rows, cols, boxes);
    cp[cell] := UNASSIGNED;
    assert Board(s, cp[..]) == b[cell := 0];
    RemoveReflects(r, b, ms, cell);
    ClearNoClash(r, b, cell);
  }

  /** The clearing loops of a pass: from hi down to lo, every cell holding a
      tried value loses its bit and returns to UNASSIGNED; givens (-1) and
      blanks are left alone. */
  method Unwind(r: Dim, ghost s: seq<int>, cp: array<int>,
                rows: array<bv64>, cols: array<bv64>, boxes: array<bv64>, hi: int, lo: int)
    requires Arrays(r, rows, cols, boxes) && Apart(cp, rows, cols, boxes)
    requires Consistent(r, s, cp[..], Snapshot(rows, cols, boxes))
    requires 0 <= lo <= hi + 1 && hi < cp.Length
    modifies cp, rows, cols, boxes
    ensures forall i :: 0 <= i < cp.Length ==>
              cp[i] == if lo <= i <= hi && old(cp[i]) > 0 then UNASSIGNED else old(cp[i])
    ensures Consistent(r, s, cp[..], Snapshot(rows, cols, boxes))
  {
    var cell := hi;
    while cell >= lo
      invariant lo - 1 <= cell <= hi
      invariant Consistent(r, s, cp[..], Snapshot(rows, cols, boxes))
      invariant forall i :: 0 <= i < cp.Length ==>
                  cp[i] == if cell < i <= hi && old(cp[i]) > 0 then UNASSIGNED else old(cp[i])
    {
      if cp[cell] > 0 {
        Clear(r, s, cp, rows, cols, boxes, cell);
      }
      cell := cell - 1;
    }
  }

  /** The cell scan of a pass: the first cell after h whose cp_sudoku entry
      is 0, or v_size when there is none. */
  method NextEmpty(cp: array<int>, h: int) returns (cell: int)
    requires -1 <= h < cp.Length
    ensures h < cell <= cp.Length
    ensures forall i :: h < i < cell ==> cp[i] != UNASSIGNED
    ensures cell < cp.Length ==> cp[cell] == UNASSIGNED
  {
    cell := h + 1;
    while cell < cp.Length && cp[cell] != UNASSIGNED
      invariant h < cell <= cp.Length
      invariant forall i :: h < i < cell ==> cp[i] != UNASSIGNED
    {
      cell := cell + 1;
    }
  }

  /** The value loop of a pass over cell: from m_size down to 1, each value
      is_safe_num accepts is inserted at the head of the list, except that on
      last_pos the first accepted value is returned as found instead. */
  method PushSafe(r: Dim, ms: MaskSet, cell: int, lastPos: int, work: seq<Hyp>)
    returns (found: int, work': seq<Hyp>)
    requires Sized(r, ms) && 0 <= cell < CellCount(r)
    ensures 0 <= found <= LineSize(r)
    ensures found > 0 ==> cell == lastPos && work' == work
                          && IsSafeNum(r, ms, Row(r, cell), Col(r, cell), found)
                          && forall v :: found < v <= LineSize(r) ==> !IsSafeNum(r, ms, Row(r, cell), Col(r, cell), v)
    ensures found == 0 ==> work' == SafeIn(r, ms, cell, 1, LineSize(r)) + work
    ensures found == 0 && cell == lastPos ==> SafeIn(r, ms, cell, 1, LineSize(r)) == []
  {
    var m := LineSize(r);
    found := 0;
    work' := work;
    var v := m + 1;
    while v > 1
      invariant 1 <= v <= m + 1
      invariant work' == SafeIn(r, ms, cell, v, m) + work
      invariant cell == lastPos ==> SafeIn(r, ms, cell, v, m) == []
      invariant cell == lastPos ==> forall w :: v <= w <= m ==> !IsSafeNum(r, ms, Row(r, cell), Col(r, cell), w)
    {
      v := v - 1;
      SafeInPrepend(r, ms, cell, v, m, work);
      if IsSafeNum(r, ms, Row(r, cell), Col(r, cell), v) {
        if cell == lastPos {
          found := v;
          work' := work;
          return;
        }
        work' := [Hyp(cell, v)] + work';
      }
    }
  }

  /** The cells between a committed cell h and the next blank are givens,
      so the board stays filled up to that blank. */
  lemma ScanFilled(r: Dim, s: seq<int>, cp: seq<int>, h: int, cell: int)
    requires Working(r, s, cp) && 0 <= h < cell <= |cp|
    requires Filled(Board(s, cp), h + 1) && ClearFrom(cp, h + 1)
    requires forall i :: h < i < cell ==> cp[i] != UNASSIGNED
    ensures Filled(Board(s, cp), cell)
  {
  }

  /** Writing a value no peer holds into last_pos, with every earlier cell
      filled, completes a grid without clashes. */
  lemma SolvedBoard(r: Dim, s: seq<int>, cp: seq<int>, cell: int, v: int)
    requires Working(r, s, cp) && LastBlank(s, cell) && cp[cell] == UNASSIGNED && 1 <= v <= LineSize(r)
    requires Filled(Board(s, cp), cell) && NoClash(r, Board(s, cp))
    requires FreeFor(r, Board(s, cp), cell, v)
    ensures Working(r, s, cp[cell := v])
    ensures Complete(r, Board(s, cp[cell := v])) && NoClash(r, Board(s, cp[cell := v]))
  {
    var b := Board(s, cp);
    assert Board(s, cp[cell := v]) == b[cell := v];
    PlaceNoClash(r, b, cell, v);
  }

  /** Every candidate a pass pushes is pending on the board it was computed on. */
  lemma PushedPending(r: Dim, s: seq<int>, cp: seq<int>, ms: MaskSet, cell: int)
    requires Working(r, s, cp) && Reflects(r, Board(s, cp), ms)
    requires 0 <= cell < |cp| && cp[cell] == UNASSIGNED
    ensures forall e :: e in SafeIn(r, ms, cell, 1, LineSize(r)) ==> Pending(r, s, Board(s, cp), e)
  {
    forall e | e in SafeIn(r, ms, cell, 1, LineSize(r))
      ensures Pending(r, s, Board(s, cp), e)
    {
      SafeIsFree(r, Board(s, cp), ms, cell, e.num);
      FreeIsPending(r, s, Board(s, cp), e);
    }
  }

  /** The state at the top of a pass for hypothesis hyp: the board is filled
      before hyp.cell and blank or given from it on, hyp fits, and the
      hypotheses above the roots on the list (top) sit on cells after the
      root cell c0 and no later than hyp.cell, latest first, each still
      pending. */
  predicate Frontier(r: Dim, s: seq<int>, cp: seq<int>, ms: MaskSet, hyp: Hyp, top: seq<Hyp>, c0: int) {
    Consistent(r, s, cp, ms) && |s| == |cp|
    && 0 <= c0 <= hyp.cell < |cp| && s[hyp.cell] == 0 && 1 <= hyp.num <= LineSize(r)
    && ClearFrom(cp, hyp.cell) && Filled(Board(s, cp), hyp.cell)
    && FreeFor(r, Board(s, cp), hyp.cell, hyp.num)
    && (forall j :: 0 <= j < |top| ==> c0 < top[j].cell <= hyp.cell && Pending(r, s, Board(s, cp), top[j]))
    && (forall j, k :: 0 <= j < k < |top| ==> top[j].cell >= top[k].cell)
  }

  /** The state after a pass that did not finish: the board is filled before
      cell and blank or given from it on, and the hypotheses above the roots
      sit on cells after c0 and no later than cell, latest first, each still
      pending. */
  predicate Expanded(r: Dim, s: seq<int>, cp: seq<int>, ms: MaskSet, cell: int, stack: seq<Hyp>, c0: int) {
    Consistent(r, s, cp, ms)
    && 0 <= c0 < cell <= |cp| && ClearFrom(cp, cell) && Filled(Board(s, cp), cell)
    && (forall j :: 0 <= j < |stack| ==> c0 < stack[j].cell <= cell && Pending(r, s, Board(s, cp), stack[j]))
    && (forall j, k :: 0 <= j < k < |stack| ==> stack[j].cell >= stack[k].cell)
  }

  /** One pass of the inner loop of solving_sudoku: commit hyp, find the next
      blank cell after it and push its safe values (or, on last_pos, write
      the largest safe value and report it as found). */
  method Pass(r: Dim, ghost s: seq<int>, cp: array<int>,
              rows: array<bv64>, cols: array<bv64>, boxes: array<bv64>,
              hyp: Hyp, ghost top: seq<Hyp>, ghost c0: int, lastPos: int, work: seq<Hyp>)
    returns (cell: int, found: int, work': seq<Hyp>, ghost pushed: seq<Hyp>)
    requires Arrays(r, rows, cols, boxes) && Apart(cp, rows, cols, boxes)
    requires Frontier(r, s, cp[..], Snapshot(rows, cols, boxes), hyp, top, c0) && LastBlank(s, lastPos)
    requires 0 <= hyp.cell < cp.Length
    modifies cp, rows, cols, boxes
    ensures hyp.cell < cell <= cp.Length && 0 <= found
    ensures forall i :: hyp.cell < i < cell ==> old(cp[i]) != UNASSIGNED
    ensures forall i :: 0 <= i < hyp.cell ==> cp[i] == old(cp[i])
    ensures found > 0 ==> cell == lastPos
                          && cp[..] == old(cp[..])[hyp.cell := hyp.num][cell := found]
                          && Working(r, s, cp[..]) && Complete(r, Board(s, cp[..]))
                          && NoClash(r, Board(s, cp[..]))
    ensures found > 0 ==> found <= LineSize(r)
                          && IsSafeNum(r, Snapshot(rows, cols, boxes), Row(r, cell), Col(r, cell), found)
                          && forall v :: found < v <= LineSize(r) ==>
                               !IsSafeNum(r, Snapshot(rows, cols, boxes), Row(r, cell), Col(r, cell), v)
    ensures found == 0 ==> cp[..] == old(cp[..])[hyp.cell := hyp.num] && work' == pushed + work
                           && Expanded(r, s, cp[..], Snapshot(rows, cols, boxes), cell, pushed + top, c0)
                           && Mass(r, pushed + top) < Weight(r, hyp.cell) + Mass(r, top)
    ensures found == 0 && cell < cp.Length ==>
              old(cp[cell]) == UNASSIGNED && pushed == SafeIn(r, Snapshot(rows, cols, boxes), cell, 1, LineSize(r))
    ensures found == 0 && cell == cp.Length ==> pushed == []
    ensures found == 0 && cell == lastPos ==> pushed == []
  {
    ghost var cp1 := cp[..];
    ghost var ms1 := Snapshot(rows, cols, boxes);
    assert cp1[hyp.cell] <= 0 && s[hyp.cell] == 0;
    Commit(r, s, cp, rows, cols, boxes, hyp);
    ghost var cp2 := cp[..];
    cell := NextEmpty(cp, hyp.cell);
    pushed := [];
    found := 0;
    work' := work;
    if cell < cp.Length {
      var ms := Snapshot(rows, cols, boxes);
      found, work' := PushSafe(r, ms, cell, lastPos, work);
      if found > 0 {
        Finish(r, s, cp, ms, hyp.cell, cell, found);
        assert Snapshot(rows, cols, boxes) == ms;
        return;
      }
      pushed := SafeIn(r, ms, cell, 1, LineSize(r));
    }
    Grown(r, s, cp1, ms1, cp2, Snapshot(rows, cols, boxes), hyp, top, c0, cell, pushed);
  }

  /** The success exit of a pass: with every cell before last_pos filled,
      writing a value is_safe_num accepts into last_pos completes a grid
      without clashes. */
  method Finish(r: Dim, ghost s: seq<int>, cp: array<int>, ghost ms: MaskSet, h: int, cell: int, v: int)
    requires Consistent(r, s, cp[..], ms) && LastBlank(s, cell)
    requires 0 <= h < cell < cp.Length && cp[cell] == UNASSIGNED && 1 <= v <= LineSize(r)
    requires Filled(Board(s, cp[..]), h + 1) && ClearFrom(cp[..], h + 1)
    requires forall i :: h < i < cell ==> cp[i] != UNASSIGNED
    requires IsSafeNum(r, ms, Row(r, cell), Col(r, cell), v)
    modifies cp
    ensures cp[..] == old(cp[..])[cell := v]
    ensures Working(r, s, cp[..]) && Complete(r, Board(s, cp[..])) && NoClash(r, Board(s, cp[..]))
  {
    ScanFilled(r, s, cp[..], h, cell);
    SafeIsFree(r, Board(s, cp[..]), ms, cell, v);
    SolvedBoard(r, s, cp[..], cell, v);
    cp[cell] := v;
  }

  /** After the commit of hyp and the scan to the next blank cell, pushing
      the safe values of that cell (none when there is no blank left) gives
      the state after a pass, and the list is lighter than before. */
  lemma Grown(r: Dim, s: seq<int>, cp1: seq<int>, ms1: MaskSet, cp2: seq<int>, ms2: MaskSet,
              hyp: Hyp, top: seq<Hyp>, c0: int, cell: int, pushed: seq<Hyp>)
    requires Frontier(r, s, cp1, ms1, hyp, top, c0)
    requires Consistent(r, s, cp2, ms2) && cp2 == cp1[hyp.cell := hyp.num]
    requires hyp.cell < cell <= |cp2| && forall i :: hyp.cell < i < cell ==> cp2[i] != UNASSIGNED
    requires cell < |cp2| ==> cp2[cell] == UNASSIGNED && pushed == SafeIn(r, ms2, cell, 1, LineSize(r))
    requires cell == |cp2| ==> pushed == []
    ensures Expanded(r, s, cp2, ms2, cell, pushed + top, c0)
    ensures Mass(r, pushed + top) < Weight(r, hyp.cell) + Mass(r, top)
  {
    var b1 := Board(s, cp1);
    var b2 := Board(s, cp2);
    PendingKept(r, s, b1, b2, top, hyp.cell);
    ScanFilled(r, s, cp2, hyp.cell, cell);
    if cell < |cp2| {
      PushedPending(r, s, cp2, ms2, cell);
    }
    Stacked(r, s, b2, pushed, top, c0, hyp.cell, cell);
    Progress(r, hyp.cell, cell, pushed, top);
  }

  /** The candidates of cell, put above hypotheses on cells no later than
      h < cell, leave the list latest first and every entry pending. */
  lemma Stacked(r: Dim, s: seq<int>, b: seq<int>, pushed: seq<Hyp>, top: seq<Hyp>, c0: int, h: int, cell: int)
    requires |s| == CellCount(r) && |b| == CellCount(r) && h < cell
    requires forall e :: e in pushed ==> e.cell == cell && Pending(r, s, b, e)
    requires forall j :: 0 <= j < |top| ==> c0 < top[j].cell <= h && Pending(r, s, b, top[j])
    requires c0 < cell
    requires forall j, k :: 0 <= j < k < |top| ==> top[j].cell >= top[k].cell
    ensures forall j :: 0 <= j < |pushed + top| ==>
              c0 < (pushed + top)[j].cell <= cell && Pending(r, s, b, (pushed + top)[j])
    ensures forall j, k :: 0 <= j < k < |pushed + top| ==> (pushed + top)[j].cell >= (pushed + top)[k].cell
  {
    var stack := pushed + top;
    forall j | 0 <= j < |stack|
      ensures c0 < stack[j].cell <= cell && Pending(r, s, b, stack[j])
    {
      if j < |pushed| {
        assert stack[j] == pushed[j] && pushed[j] in pushed;
      } else {
        assert stack[j] == top[j - |pushed|];
      }
    }
    forall j, k | 0 <= j < k < |stack|
      ensures stack[j].cell >= stack[k].cell
    {
      if j < |pushed| {
        assert stack[j] == pushed[j] && pushed[j] in pushed;
        if k < |pushed| {
          assert stack[k] == pushed[k] && pushed[k] in pushed;
        } else {
          assert stack[k] == top[k - |pushed|];
        }
      } else {
        assert stack[j] == top[j - |pushed|] && stack[k] == top[k - |pushed|];
      }
    }
  }

  /** Taking the next hypothesis off the list and clearing the board down
      to its cell restores the state at the top of a pass. */
  lemma Popped(r: Dim, s: seq<int>, cp2: seq<int>, ms2: MaskSet, cp3: seq<int>, ms3: MaskSet,
               cell: int, stack: seq<Hyp>, c0: int)
    requires Expanded(r, s, cp2, ms2, cell, stack, c0) && stack != []
    requires Consistent(r, s, cp3, ms3) && |cp3| == |cp2|
    requires forall i :: 0 <= i < |cp3| ==>
               cp3[i] == if stack[0].cell <= i <= cell - 1 && cp2[i] > 0 then UNASSIGNED else cp2[i]
    ensures Frontier(r, s, cp3, ms3, stack[0], stack[1..], c0)
  {
    var b2 := Board(s, cp2);
    var b3 := Board(s, cp3);
    var hyp := stack[0];
    assert Pending(r, s, b2, hyp);
    PendingKept(r, s, b2, b3, stack, |cp2|);
    PendingIsFree(r, s, b3, hyp);
    assert forall j :: 0 <= j < |stack| - 1 ==> stack[1..][j] == stack[j + 1];
  }

  /** Clearing every tried value from c0 on returns the working copy to the
      one the roots started from. */
  lemma Restored(r: Dim, s: seq<int>, cp0: seq<int>, cp: seq<int>, c0: int)
    requires Working(r, s, cp0) && Working(r, s, cp) && ClearFrom(cp0, c0) && ClearFrom(cp, c0)
    requires forall i :: 0 <= i < c0 && i < |cp| ==> cp[i] == cp0[i]
    ensures cp == cp0
  {
  }

  /** The backtracking branch of a pass that left more than the roots on
      the list: pop the head and clear the board from cell-1 down to its
      cell. */
  method Retreat(r: Dim, ghost s: seq<int>, cp: array<int>,
                 rows: array<bv64>, cols: array<bv64>, boxes: array<bv64>,
                 cell: int, work: seq<Hyp>, ghost stack: seq<Hyp>, ghost rest: seq<Hyp>, ghost c0: int)
    returns (hyp: Hyp, work': seq<Hyp>)
    requires Arrays(r, rows, cols, boxes) && Apart(cp, rows, cols, boxes)
    requires Expanded(r, s, cp[..], Snapshot(rows, cols, boxes), cell, stack, c0) && stack != []
    requires work == stack + rest
    modifies cp, rows, cols, boxes
    ensures hyp == stack[0] && work' == stack[1..] + rest
    ensures Frontier(r, s, cp[..], Snapshot(rows, cols, boxes), hyp, stack[1..], c0)
    ensures forall i :: 0 <= i < cp.Length && i < hyp.cell ==> cp[i] == old(cp[i])
  {
    ghost var cp2 := cp[..];
    ghost var ms2 := Snapshot(rows, cols, boxes);
    hyp := work[0];
    work' := work[1..];
    assert work' == stack[1..] + rest;
    Unwind(r, s, cp, rows, cols, boxes, cell - 1, hyp.cell);
    Popped(r, s, cp2, ms2, cp[..], Snapshot(rows, cols, boxes), cell, stack, c0);
  }

  /** The exhausted branch of a pass that left only the roots on the list:
      clear the board from the last cell down to the root cell, which gives
      back the working copy the roots started from. */
  method Exhaust(r: Dim, ghost s: seq<int>, cp: array<int>,
                 rows: array<bv64>, cols: array<bv64>, boxes: array<bv64>,
                 startPos: int, ghost cp0: seq<int>)
    requires Arrays(r, rows, cols, boxes) && Apart(cp, rows, cols, boxes)
    requires Consistent(r, s, cp[..], Snapshot(rows, cols, boxes)) && 0 <= startPos < cp.Length
    requires Working(r, s, cp0) && ClearFrom(cp0, startPos)
    requires forall i :: 0 <= i < startPos ==> cp[i] == cp0[i]
    modifies cp, rows, cols, boxes
    ensures cp[..] == cp0
    ensures Consistent(r, s, cp[..], Snapshot(rows, cols, boxes))
  {
    Unwind(r, s, cp, rows, cols, boxes, cp.Length - 1, startPos);
    Restored(r, s, cp0, cp[..], startPos);
  }

  /** The end of a pass that did not finish: when only the roots are left
      on the list (its length is back to len), clear the board from the
      last cell down to the root cell startPos and report the root
      exhausted; otherwise pop the head and clear down to its cell. */
  method Backtrack(r: Dim, ghost s: seq<int>, cp: array<int>,
                   rows: array<bv64>, cols: array<bv64>, boxes: array<bv64>,
                   cell: int, work: seq<Hyp>, len: int, startPos: int,
                   ghost stack: seq<Hyp>, ghost rest: seq<Hyp>, ghost cp0: seq<int>)
    returns (done: bool, hyp: Hyp, work': seq<Hyp>)
    requires Arrays(r, rows, cols, boxes) && Apart(cp, rows, cols, boxes)
    requires Expanded(r, s, cp[..], Snapshot(rows, cols, boxes), cell, stack, startPos)
    requires work == stack + rest && len == |rest|
    requires Working(r, s, cp0) && ClearFrom(cp0, startPos)
    requires forall i :: 0 <= i < startPos ==> cp[i] == cp0[i]
    modifies cp, rows, cols, boxes
    ensures done <==> stack == []
    ensures done ==> work' == rest && cp[..] == cp0 && Consistent(r, s, cp[..], Snapshot(rows, cols, boxes))
    ensures !done ==> hyp == stack[0] && work' == stack[1..] + rest
                      && Frontier(r, s, cp[..], Snapshot(rows, cols, boxes), hyp, stack[1..], startPos)
                      && forall i :: 0 <= i < startPos ==> cp[i] == cp0[i]
  {
    if |work| == len {
      assert stack == [];
      Exhaust(r, s, cp, rows, cols, boxes, startPos, cp0);
      return true, Hyp(0, 0), work;
    }
    done := false;
    hyp, work' := Retreat(r, s, cp, rows, cols, boxes, cell, work, stack, rest, startPos);
  }

  /** The inner loop of solving_sudoku for a root hypothesis that passed
      the safety check: passes until the search below the root is exhausted
      (then every tried value from the root cell on is cleared) or the grid
      is complete. */
  method Descend(r: Dim, ghost s: seq<int>, cp: array<int>,
                 rows: array<bv64>, cols: array<bv64>, boxes: array<bv64>,
                 root: Hyp, work0: seq<Hyp>, lastPos: int)
    returns (solved: bool, work: seq<Hyp>)
    requires Arrays(r, rows, cols, boxes) && Apart(cp, rows, cols, boxes)
    requires Frontier(r, s, cp[..], Snapshot(rows, cols, boxes), root, [], root.cell) && LastBlank(s, lastPos)
    modifies cp, rows, cols, boxes
    ensures solved ==> Working(r, s, cp[..]) && Complete(r, Board(s, cp[..])) && NoClash(r, Board(s, cp[..]))
    ensures solved ==> forall i :: 0 <= i < root.cell ==> cp[i] == old(cp[i])
    ensures !solved ==> work == work0 && cp[..] == old(cp[..])
                        && Consistent(r, s, cp[..], Snapshot(rows, cols, boxes))
    ensures root.cell == lastPos ==> !solved
  {
    ghost var cp0 := cp[..];
    var len := |work0|;
    var startPos := root.cell;
    var hyp := root;
    work := work0;
    ghost var top: seq<Hyp> := [];
    while true
      invariant Frontier(r, s, cp[..], Snapshot(rows, cols, boxes), hyp, top, startPos)
      invariant work == top + work0
      invariant forall i :: 0 <= i < startPos ==> cp[i] == cp0[i]
      decreases Weight(r, hyp.cell) + Mass(r, top)
    {
      var cell, found;
      ghost var pushed;
      cell, found, work, pushed := Pass(r, s, cp, rows, cols, boxes, hyp, top, startPos, lastPos, work);
      if found > 0 {
        return true, work;
      }
      ghost var stack := pushed + top;
      Regroup(pushed, top, work0);
      var done;
      done, hyp, work := Backtrack(r, s, cp, rows, cols, boxes, cell, work, len, startPos, stack, work0, cp0);
      if done {
        return false, work;
      }
      top := stack[1..];
    }
  }

  /** solving_sudoku: pop a root hypothesis; skip it when is_safe_num
      rejects it, else run the inner loop under it; repeat until the list is
      empty or the grid is complete.

      The roots all sit on one cell c0, the board is filled before c0 and
      blank or given from it on. On success the board is a complete grid
      without clashes that keeps every given and every cell before c0.
      Otherwise the working copy is back as it was, the list is empty and
      the masks still reflect the board. A root on last_pos is never
      reported as solved: the pass that commits it finds no later blank. */
  method SolvingSudoku(r: Dim, sudoku: array<int>, cp: array<int>,
                       rows: array<bv64>, cols: array<bv64>, boxes: array<bv64>,
                       work0: seq<Hyp>, lastPos: int, ghost c0: int)
    returns (solved: bool, work: seq<Hyp>)
    requires Arrays(r, rows, cols, boxes) && Apart(sudoku, rows, cols, boxes)
    requires Apart(cp, rows, cols, boxes) && sudoku != cp
    requires Consistent(r, sudoku[..], cp[..], Snapshot(rows, cols, boxes))
    requires LastBlank(sudoku[..], lastPos)
    requires 0 <= c0 < cp.Length && sudoku[c0] == 0
    requires Filled(Board(sudoku[..], cp[..]), c0) && ClearFrom(cp[..], c0)
    requires forall j :: 0 <= j < |work0| ==> work0[j].cell == c0 && 1 <= work0[j].num <= LineSize(r)
    modifies cp, rows, cols, boxes
    ensures solved ==> Working(r, sudoku[..], cp[..])
                       && Complete(r, Board(sudoku[..], cp[..])) && NoClash(r, Board(sudoku[..], cp[..]))
    ensures solved ==> forall i :: 0 <= i < c0 ==> cp[i] == old(cp[i])
    ensures !solved ==> work == [] && cp[..] == old(cp[..])
                        && Consistent(r, sudoku[..], cp[..], Snapshot(rows, cols, boxes))
    ensures c0 == lastPos ==> !solved
  {
    ghost var s := sudoku[..];
    ghost var cp0 := cp[..];
    work := work0;
    while work != []
      invariant cp[..] == cp0
      invariant Consistent(r, s, cp[..], Snapshot(rows, cols, boxes))
      invariant forall j :: 0 <= j < |work| ==> work[j].cell == c0 && 1 <= work[j].num <= LineSize(r)
      decreases |work|
    {
      var hyp := work[0];
      work := work[1..];
      if !IsSafeNum(r, Snapshot(rows, cols, boxes), Row(r, hyp.cell), Col(r, hyp.cell), hyp.num) {
        continue;
      }
      SafeIsFree(r, Board(s, cp[..]), Snapshot(rows, cols, boxes), hyp.cell, hyp.num);
      ghost var rest := work;
      solved, work := Descend(r, s, cp, rows, cols, boxes, hyp, work, lastPos);
      if solved {
        return;
      }
      assert forall j :: 0 <= j < |work| ==> work[j] == rest[j];
    }
    return false, work;
  }
}
