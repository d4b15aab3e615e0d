/** The grid the search works on and what the masks mean for it.

    The solvers keep the puzzle `sudoku` (givens, 0 for a blank) and a
    working copy `cp_sudoku` where a given is marked UNCHANGEABLE (-1) and a
    blank holds UNASSIGNED (0) or the value currently tried. `Board` merges
    the two into the grid a reader would see. The masks reflect a board when
    bit v-1 of the mask of a row, column or box is set exactly when v occurs
    there. */
module Grid {
  import opened Geometry
  import opened Bits
  import opened Tracker

  /** cp_sudoku marker of a blank cell. */
  const UNASSIGNED := 0
  /** cp_sudoku marker of a given. */
  const UNCHANGEABLE := -1

  /** The grid seen through cp_sudoku: the given where cp marks one, else cp's entry. */
  function Board(s: seq<int>, cp: seq<int>): (b: seq<int>)
    requires |s| == |cp|
    ensures |b| == |s|
    ensures forall i :: 0 <= i < |s| ==> b[i] == if cp[i] == UNCHANGEABLE then s[i] else cp[i]
  {
    seq(|s|, i requires 0 <= i < |s| => if cp[i] == UNCHANGEABLE then s[i] else cp[i])
  }

  /** cp is a working copy of the puzzle s: -1 exactly on the givens, a value
      or 0 elsewhere. */
  predicate Working(r: Dim, s: seq<int>, cp: seq<int>) {
    GivenValues(r, s) && |cp| == |s|
    && forall i :: 0 <= i < |s| ==>
         (cp[i] == UNCHANGEABLE <==> s[i] != 0) && UNCHANGEABLE <= cp[i] <= LineSize(r)
  }

  /** The three kinds of lines a value must be unique in. */
  datatype Kind = RowLine | ColLine | BoxLine

  /** The line of the given kind through cell i. */
  function LineOf(r: Dim, kind: Kind, i: int): (k: int)
    requires 0 <= i < CellCount(r)
    ensures 0 <= k < LineSize(r)
  {
    match kind
    case RowLine => Row(r, i)
    case ColLine => Col(r, i)
    case BoxLine => BoxOf(r, i)
  }

  /** The mask array of the given kind. */
  function MasksOf(ms: MaskSet, kind: Kind): seq<bv64> {
    match kind
    case RowLine => ms.rows
    case ColLine => ms.cols
    case BoxLine => ms.boxes
  }

  /** Value w occurs in line k of the given kind (a brute-force scan of the grid). */
  predicate InLine(r: Dim, b: seq<int>, kind: Kind, k: int, w: int)
    requires |b| == CellCount(r)
  {
    exists i :: 0 <= i < |b| && LineOf(r, kind, i) == k && b[i] == w
  }

  /** The masks of one kind record exactly the values on the board. */
  predicate LineReflects(r: Dim, b: seq<int>, kind: Kind, masks: seq<bv64>)
    requires |b| == CellCount(r) && |masks| == LineSize(r)
  {
    forall k, w :: 0 <= k < LineSize(r) && 1 <= w <= LineSize(r) ==>
      (Has(masks[k], w) <==> InLine(r, b, kind, k, w))
  }

  /** The three mask arrays record exactly the values on the board. */
  predicate Reflects(r: Dim, b: seq<int>, ms: MaskSet)
    requires |b| == CellCount(r)
  {
    Sized(r, ms)
    && LineReflects(r, b, RowLine, ms.rows)
    && LineReflects(r, b, ColLine, ms.cols)
    && LineReflects(r, b, BoxLine, ms.boxes)
  }

  /** No value occurs twice in a row, a column or a box. */
  predicate NoClash(r: Dim, b: seq<int>)
    requires |b| == CellCount(r)
  {
    forall i, j :: 0 <= i < |b| && 0 <= j < |b| && i != j && Peers(r, i, j) && b[i] > 0
      ==> b[i] != b[j]
  }

  /** Every cell holds a value. */
  predicate Complete(r: Dim, b: seq<int>) {
    forall i :: 0 <= i < |b| ==> 1 <= b[i] <= LineSize(r)
  }

  /** No peer of cell c other than c itself holds v. */
  predicate FreeFor(r: Dim, b: seq<int>, c: int, v: int)
    requires |b| == CellCount(r) && 0 <= c < |b|
  {
    forall i :: 0 <= i < |b| && i != c && Peers(r, i, c) ==> b[i] != v
  }

  /** Two cells are peers exactly when some line passes through both. */
  lemma PeersByLine(r: Dim, i: int, c: int)
    requires 0 <= i < CellCount(r) && 0 <= c < CellCount(r)
    ensures Peers(r, i, c) <==> exists kind :: LineOf(r, kind, i) == LineOf(r, kind, c)
  {
    if Peers(r, i, c) {
      if Row(r, i) == Row(r, c) {
        assert LineOf(r, RowLine, i) == LineOf(r, RowLine, c);
      } else if Col(r, i) == Col(r, c) {
        assert LineOf(r, ColLine, i) == LineOf(r, ColLine, c);
      } else {
        assert LineOf(r, BoxLine, i) == LineOf(r, BoxLine, c);
      }
    }
  }

  /** Placing v on a blank cell sets exactly the bit of v in the line through it. */
  lemma LinePlace(r: Dim, b: seq<int>, kind: Kind, masks: seq<bv64>, c: int, v: int)
    requires |b| == CellCount(r) && |masks| == LineSize(r)
    requires 0 <= c < |b| && b[c] <= 0 && 1 <= v <= LineSize(r)
    requires LineReflects(r, b, kind, masks)
    ensures LineReflects(r, b[c := v], kind, OrAt(masks, LineOf(r, kind, c), Bit(v)))
  {
    forall k, w | 0 <= k < LineSize(r) && 1 <= w <= LineSize(r)
      ensures Has(OrAt(masks, LineOf(r, kind, c), Bit(v))[k], w) <==> InLine(r, b[c := v], kind, k, w)
    {
      PlaceAt(r, b, kind, masks, c, v, k, w);
    }
  }

  /** LinePlace for one line k and one value w. */
  lemma {:induction false} PlaceAt(r: Dim, b: seq<int>, kind: Kind, masks: seq<bv64>, c: int, v: int, k: int, w: int)
    requires |b| == CellCount(r) && |masks| == LineSize(r)
    requires 0 <= c < |b| && b[c] <= 0 && 1 <= v <= LineSize(r)
    requires 0 <= k < LineSize(r) && 1 <= w <= LineSize(r)
    requires Has(masks[k], w) <==> InLine(r, b, kind, k, w)
    ensures Has(OrAt(masks, LineOf(r, kind, c), Bit(v))[k], w) <==> InLine(r, b[c := v], kind, k, w)
  {
    var b' := b[c := v];
    if InLine(r, b', kind, k, w) {
      var i :| 0 <= i < |b'| && LineOf(r, kind, i) == k && b'[i] == w;
      if i != c { assert InLine(r, b, kind, k, w); }
    }
    if InLine(r, b, kind, k, w) {
      var i :| 0 <= i < |b| && LineOf(r, kind, i) == k && b[i] == w;
      assert b'[i] == w;
    }
    OrHas(masks, LineOf(r, kind, c), v, k, w);
    if k == LineOf(r, kind, c) && w == v { assert b'[c] == v; }
  }

  /** Clearing a cell whose value is unique in its line clears exactly the
      bit of that value, so the XOR of rm_num_masks is a removal there. */
  lemma LineRemove(r: Dim, b: seq<int>, kind: Kind, masks: seq<bv64>, c: int)
    requires |b| == CellCount(r) && |masks| == LineSize(r)
    requires 0 <= c < |b| && 1 <= b[c] <= LineSize(r)
    requires LineReflects(r, b, kind, masks)
    requires forall i :: 0 <= i < |b| && i != c && LineOf(r, kind, i) == LineOf(r, kind, c) ==> b[i] != b[c]
    ensures LineReflects(r, b[c := 0], kind, XorAt(masks, LineOf(r, kind, c), Bit(b[c])))
  {
    forall k, w | 0 <= k < LineSize(r) && 1 <= w <= LineSize(r)
      ensures Has(XorAt(masks, LineOf(r, kind, c), Bit(b[c]))[k], w) <==> InLine(r, b[c := 0], kind, k, w)
    {
      RemoveAt(r, b, kind, masks, c, k, w);
    }
  }

  /** LineRemove for one line k and one value w. */
  lemma {:induction false} RemoveAt(r: Dim, b: seq<int>, kind: Kind, masks: seq<bv64>, c: int, k: int, w: int)
    requires |b| == CellCount(r) && |masks| == LineSize(r)
    requires 0 <= c < |b| && 1 <= b[c] <= LineSize(r)
    requires 0 <= k < LineSize(r) && 1 <= w <= LineSize(r)
    requires Has(masks[k], w) <==> InLine(r, b, kind, k, w)
    requires forall i :: 0 <= i < |b| && i != c && LineOf(r, kind, i) == LineOf(r, kind, c) ==> b[i] != b[c]
    ensures Has(XorAt(masks, LineOf(r, kind, c), Bit(b[c]))[k], w) <==> InLine(r, b[c := 0], kind, k, w)
  {
    var v := b[c];
    var line := LineOf(r, kind, c);
    XorHas(masks, line, v, k, w);
    if k != line || w != v {
      SameElsewhere(r, b, kind, c, k, w);
    } else {
      assert InLine(r, b, kind, k, v) by { assert b[c] == v; }
      assert !InLine(r, b[c := 0], kind, k, v) by {
        forall i | 0 <= i < |b| && LineOf(r, kind, i) == k
          ensures b[c := 0][i] != v
        {
          if i != c { assert b[i] != b[c]; }
        }
      }
    }
  }

  /** The bit test after the XOR of rm_num_masks, line by line. */
  lemma XorHas(masks: seq<bv64>, line: int, v: int, k: int, w: int)
    requires 0 <= line < |masks| && 0 <= k < |masks| && 1 <= v <= 31 && 1 <= w <= 31
    ensures Has(XorAt(masks, line, Bit(v))[k], w) <==> (Has(masks[k], w) != (k == line && v == w))
  {
    if k == line {
      XorHasHere(masks, line, v, w, masks[line]);
    }
  }

  lemma XorHasHere(masks: seq<bv64>, line: int, v: int, w: int, y: bv64)
    requires 0 <= line < |masks| && 1 <= v <= 31 && 1 <= w <= 31 && y == masks[line]
    ensures Has(XorAt(masks, line, Bit(v))[line], w) <==> (Has(y, w) != (v == w))
  {
    assert XorAt(masks, line, Bit(v))[line] == y ^ Bit(v);
    HasXor(y, v, w);
  }

  /** The bit test after the OR of update_masks, line by line. */
  lemma OrHas(masks: seq<bv64>, line: int, v: int, k: int, w: int)
    requires 0 <= line < |masks| && 0 <= k < |masks| && 1 <= v <= 31 && 1 <= w <= 31
    ensures Has(OrAt(masks, line, Bit(v))[k], w) <==> (Has(masks[k], w) || (k == line && v == w))
  {
    if k == line {
      OrHasHere(masks, line, v, w, masks[line]);
    }
  }

  lemma OrHasHere(masks: seq<bv64>, line: int, v: int, w: int, y: bv64)
    requires 0 <= line < |masks| && 1 <= v <= 31 && 1 <= w <= 31 && y == masks[line]
    ensures Has(OrAt(masks, line, Bit(v))[line], w) <==> (Has(y, w) || v == w)
  {
    assert OrAt(masks, line, Bit(v))[line] == y | Bit(v);
    HasOr(y, v, w);
  }

  /** Clearing cell c changes no occurrence of w in line k unless c holds w in that line. */
  lemma SameElsewhere(r: Dim, b: seq<int>, kind: Kind, c: int, k: int, w: int)
    requires |b| == CellCount(r) && 0 <= c < |b| && 1 <= w
    requires k != LineOf(r, kind, c) || w != b[c]
    ensures InLine(r, b[c := 0], kind, k, w) <==> InLine(r, b, kind, k, w)
  {
    if InLine(r, b[c := 0], kind, k, w) {
      var i :| 0 <= i < |b| && LineOf(r, kind, i) == k && b[c := 0][i] == w;
      assert b[i] == w;
    }
    if InLine(r, b, kind, k, w) {
      var i :| 0 <= i < |b| && LineOf(r, kind, i) == k && b[i] == w;
      assert b[c := 0][i] == w;
    }
  }

  /** The masks Place produces, seen kind by kind. */
  lemma PlaceKinds(r: Dim, ms: MaskSet, c: int, v: int)
    requires Sized(r, ms) && 0 <= c < CellCount(r) && 1 <= v <= LineSize(r)
    ensures forall kind :: MasksOf(Place(r, ms, v, Row(r, c), Col(r, c)), kind)
                           == OrAt(MasksOf(ms, kind), LineOf(r, kind, c), Bit(v))
  {
  }

  /** The masks Remove produces, seen kind by kind. */
  lemma RemoveKinds(r: Dim, ms: MaskSet, c: int, v: int)
    requires Sized(r, ms) && 0 <= c < CellCount(r) && 1 <= v <= LineSize(r)
    ensures forall kind :: MasksOf(Remove(r, ms, v, Row(r, c), Col(r, c)), kind)
                           == XorAt(MasksOf(ms, kind), LineOf(r, kind, c), Bit(v))
  {
  }

  /** update_masks keeps the masks in step with the board when a value is
      written into a blank cell. */
  lemma {:induction false} PlaceReflects(r: Dim, b: seq<int>, ms: MaskSet, c: int, v: int)
    requires |b| == CellCount(r) && 0 <= c < |b| && b[c] <= 0 && 1 <= v <= LineSize(r)
    requires Reflects(r, b, ms)
    ensures Reflects(r, b[c := v], Place(r, ms, v, Row(r, c), Col(r, c)))
  {
    PlaceKinds(r, ms, c, v);
    LinePlace(r, b, RowLine, ms.rows, c, v);
    LinePlace(r, b, ColLine, ms.cols, c, v);
    LinePlace(r, b, BoxLine, ms.boxes, c, v);
    assert MasksOf(Place(r, ms, v, Row(r, c), Col(r, c)), RowLine)
           == OrAt(MasksOf(ms, RowLine), LineOf(r, RowLine, c), Bit(v));
    assert MasksOf(Place(r, ms, v, Row(r, c), Col(r, c)), ColLine)
           == OrAt(MasksOf(ms, ColLine), LineOf(r, ColLine, c), Bit(v));
    assert MasksOf(Place(r, ms, v, Row(r, c), Col(r, c)), BoxLine)
           == OrAt(MasksOf(ms, BoxLine), LineOf(r, BoxLine, c), Bit(v));
  }

  /** rm_num_masks keeps the masks in step with the board when a value is
      cleared, provided no value is repeated among peers. */
  lemma {:induction false} RemoveReflects(r: Dim, b: seq<int>, ms: MaskSet, c: int)
    requires |b| == CellCount(r) && 0 <= c < |b| && 1 <= b[c] <= LineSize(r)
    requires Reflects(r, b, ms) && NoClash(r, b)
    ensures Reflects(r, b[c := 0], Remove(r, ms, b[c], Row(r, c), Col(r, c)))
  {
    var v := b[c];
    RemoveKinds(r, ms, c, v);
    forall kind, i | 0 <= i < |b| && i != c && LineOf(r, kind, i) == LineOf(r, kind, c)
      ensures b[i] != b[c]
    {
      PeersByLine(r, c, i);
    }
    LineRemove(r, b, RowLine, ms.rows, c);
    LineRemove(r, b, ColLine, ms.cols, c);
    LineRemove(r, b, BoxLine, ms.boxes, c);
    assert MasksOf(Remove(r, ms, v, Row(r, c), Col(r, c)), RowLine)
           == XorAt(MasksOf(ms, RowLine), LineOf(r, RowLine, c), Bit(v));
    assert MasksOf(Remove(r, ms, v, Row(r, c), Col(r, c)), ColLine)
           == XorAt(MasksOf(ms, ColLine), LineOf(r, ColLine, c), Bit(v));
    assert MasksOf(Remove(r, ms, v, Row(r, c), Col(r, c)), BoxLine)
           == XorAt(MasksOf(ms, BoxLine), LineOf(r, BoxLine, c), Bit(v));
  }

  /** is_safe_num on masks that reflect the board agrees with scanning the
      row, the column and the box of a blank cell for the value. */
  lemma {:induction false} SafeIsFree(r: Dim, b: seq<int>, ms: MaskSet, c: int, v: int)
    requires |b| == CellCount(r) && 0 <= c < |b| && b[c] <= 0 && 1 <= v <= LineSize(r)
    requires Reflects(r, b, ms)
    ensures IsSafeNum(r, ms, Row(r, c), Col(r, c), v) <==> FreeFor(r, b, c, v)
  {
    if !FreeFor(r, b, c, v) {
      var i :| 0 <= i < |b| && i != c && Peers(r, i, c) && b[i] == v;
      PeersByLine(r, i, c);
      var kind :| LineOf(r, kind, i) == LineOf(r, kind, c);
      assert InLine(r, b, kind, LineOf(r, kind, c), v);
      assert Has(MasksOf(ms, kind)[LineOf(r, kind, c)], v);
    } else {
      forall kind | InLine(r, b, kind, LineOf(r, kind, c), v)
        ensures false
      {
        var i :| 0 <= i < |b| && LineOf(r, kind, i) == LineOf(r, kind, c) && b[i] == v;
        PeersByLine(r, i, c);
      }
      assert !InLine(r, b, RowLine, LineOf(r, RowLine, c), v);
      assert !InLine(r, b, ColLine, LineOf(r, ColLine, c), v);
      assert !InLine(r, b, BoxLine, LineOf(r, BoxLine, c), v);
    }
  }

  /** Writing a value no peer holds into a blank cell keeps the board free of clashes. */
  lemma PlaceNoClash(r: Dim, b: seq<int>, c: int, v: int)
    requires |b| == CellCount(r) && 0 <= c < |b| && b[c] <= 0 && 1 <= v
    requires NoClash(r, b) && FreeFor(r, b, c, v)
    ensures NoClash(r, b[c := v])
  {
    var b' := b[c := v];
    forall i, j | 0 <= i < |b'| && 0 <= j < |b'| && i != j && Peers(r, i, j) && b'[i] > 0
      ensures b'[i] != b'[j]
    {
      if i == c {
        assert Peers(r, j, c);
      } else if j == c {
        assert Peers(r, i, c);
      }
    }
  }

  /** Clearing a cell keeps the board free of clashes. */
  lemma ClearNoClash(r: Dim, b: seq<int>, c: int)
    requires |b| == CellCount(r) && 0 <= c < |b| && NoClash(r, b)
    ensures NoClash(r, b[c := 0])
  {
  }

  /** Nothing is placed on a blank board with all masks zero. */
  lemma EmptyReflects(r: Dim)
    ensures Reflects(r, seq(CellCount(r), _ => 0), Empty(r))
  {
    var z := seq(CellCount(r), _ => 0);
    forall kind, k, w | 0 <= k < LineSize(r) && 1 <= w <= LineSize(r)
      ensures !Has(MasksOf(Empty(r), kind)[k], w) && !InLine(r, z, kind, k, w)
    {
      HasZero(w);
    }
    assert LineReflects(r, z, RowLine, Empty(r).rows);
    assert LineReflects(r, z, ColLine, Empty(r).cols);
  }

  /** base with the positive cells of add below hi laid over it. */
  function Overlay(base: seq<int>, add: seq<int>, hi: int): (b: seq<int>)
    requires |add| == |base| && 0 <= hi <= |base|
    ensures |b| == |base|
    ensures forall i :: 0 <= i < |base| ==> b[i] == if i < hi && add[i] > 0 then add[i] else base[i]
  {
    seq(|base|, i requires 0 <= i < |base| => if i < hi && add[i] > 0 then add[i] else base[i])
  }

  /** Placing the positive cells of add below hi, in index order, on masks
      that reflect base, yields masks that reflect the overlay, as long as
      those cells are blank in base. */
  lemma {:induction false} PlacedReflects(r: Dim, base: seq<int>, ms: MaskSet, add: seq<int>, hi: int)
    requires |base| == CellCount(r) && |add| == |base| && Bounded(r, add) && 0 <= hi <= |base|
    requires Reflects(r, base, ms)
    requires forall i :: 0 <= i < hi && add[i] > 0 ==> base[i] <= 0
    ensures Reflects(r, Overlay(base, add, hi), Placed(r, ms, add, 0, hi))
    decreases hi
  {
    if hi == 0 {
      assert Overlay(base, add, 0) == base;
    } else {
      PlacedReflects(r, base, ms, add, hi - 1);
      var prev := Overlay(base, add, hi - 1);
      if add[hi - 1] > 0 {
        PlaceReflects(r, prev, Placed(r, ms, add, 0, hi - 1), hi - 1, add[hi - 1]);
        assert prev[hi - 1 := add[hi - 1]] == Overlay(base, add, hi);
      } else {
        assert prev == Overlay(base, add, hi);
      }
    }
  }

  /** The masks init_masks builds record exactly the givens. */
  lemma InitReflects(r: Dim, s: seq<int>)
    requires GivenValues(r, s)
    ensures Reflects(r, s, InitMasksOf(r, s))
  {
    var z := seq(CellCount(r), _ => 0);
    EmptyReflects(r);
    PlacedReflects(r, z, Empty(r), s, |s|);
    assert Overlay(z, s, |s|) == s;
  }

  /** After delete_from(cell) on a working copy cleared from cell on, the
      masks record exactly the givens and the values assigned before cell. */
  lemma RebuiltReflects(r: Dim, s: seq<int>, cp: seq<int>, cell: int)
    requires Working(r, s, cp) && 0 <= cell <= |cp|
    requires forall i :: cell <= i < |cp| ==> cp[i] <= 0
    ensures Reflects(r, Board(s, cp), Placed(r, InitMasksOf(r, s), cp, 0, cell))
  {
    InitReflects(r, s);
    PlacedReflects(r, s, InitMasksOf(r, s), cp, cell);
    assert Overlay(s, cp, cell) == Board(s, cp);
  }
}
