/** The work list of the depth-first search and the facts the search keeps
    about it.

    A hypothesis (cell, num) proposes writing num into a blank cell. The work
    list is a stack whose head is index 0 (insert_head / pop_head); the
    coordinator also takes entries from the tail (pop_tail). */
module Search {
  import opened Geometry
  import opened Tracker
  import opened Grid

  /** A list Item: try value num in cell. */
  datatype Hyp = Hyp(cell: int, num: int)

  /** The hypotheses (cell, v), ascending in v, for the values v in lo..hi
      that is_safe_num accepts for cell under the masks ms. This is the
      order in which the value loop of a pass leaves them at the head of the
      list, since it inserts m_size first and 1 last. */
  function SafeIn(r: Dim, ms: MaskSet, cell: int, lo: int, hi: int): (hs: seq<Hyp>)
    requires Sized(r, ms) && 0 <= cell < CellCount(r) && 1 <= lo <= hi + 1 && hi <= LineSize(r)
    ensures |hs| <= hi - lo + 1
    ensures forall h :: h in hs <==>
              h.cell == cell && lo <= h.num <= hi && IsSafeNum(r, ms, Row(r, cell), Col(r, cell), h.num)
    ensures forall j, k :: 0 <= j < k < |hs| ==> hs[j].num < hs[k].num
    decreases hi - lo
  {
    if lo > hi then []
    else
      var rest := SafeIn(r, ms, cell, lo + 1, hi);
      if IsSafeNum(r, ms, Row(r, cell), Col(r, cell), lo) then [Hyp(cell, lo)] + rest else rest
  }

  /** One step of the value loop: the safe values from v on, put before a
      list, are v (when safe) put before the safe values from v+1 on. */
  lemma SafeInPrepend(r: Dim, ms: MaskSet, cell: int, v: int, hi: int, work: seq<Hyp>)
    requires Sized(r, ms) && 0 <= cell < CellCount(r) && 1 <= v <= hi <= LineSize(r)
    ensures SafeIn(r, ms, cell, v, hi) + work
            == if IsSafeNum(r, ms, Row(r, cell), Col(r, cell), v)
               then [Hyp(cell, v)] + (SafeIn(r, ms, cell, v + 1, hi) + work)
               else SafeIn(r, ms, cell, v + 1, hi) + work
  {
    Regroup([Hyp(cell, v)], SafeIn(r, ms, cell, v + 1, hi), work);
  }

  /** Concatenation regroups. */
  lemma Regroup(a: seq<Hyp>, b: seq<Hyp>, c: seq<Hyp>)
    ensures a + (b + c) == (a + b) + c
  {
  }

  /** A hypothesis still waiting on the list is consistent with every given
      and with every cell before its own: those are the cells the search
      does not undo before trying it. */
  predicate Pending(r: Dim, s: seq<int>, b: seq<int>, e: Hyp)
    requires |s| == CellCount(r) && |b| == CellCount(r)
  {
    0 <= e.cell < |s| && s[e.cell] == 0 && 1 <= e.num <= LineSize(r)
    && forall i :: 0 <= i < |b| && i != e.cell && Peers(r, i, e.cell) && (i < e.cell || s[i] != 0)
         ==> b[i] != e.num
  }

  /** A value no peer holds is pending for a blank cell. */
  lemma FreeIsPending(r: Dim, s: seq<int>, b: seq<int>, e: Hyp)
    requires |s| == CellCount(r) && |b| == CellCount(r)
    requires 0 <= e.cell < |s| && s[e.cell] == 0 && 1 <= e.num <= LineSize(r)
    requires FreeFor(r, b, e.cell, e.num)
    ensures Pending(r, s, b, e)
  {
  }

  /** Once every blank cell after it is cleared, a pending hypothesis is safe. */
  lemma PendingIsFree(r: Dim, s: seq<int>, b: seq<int>, e: Hyp)
    requires |s| == CellCount(r) && |b| == CellCount(r) && Pending(r, s, b, e)
    requires forall i :: e.cell < i < |b| && s[i] == 0 ==> b[i] <= 0
    ensures FreeFor(r, b, e.cell, e.num)
  {
  }

  /** Changes to blank cells at or after lo, and clearings anywhere, keep
      every listed hypothesis at or before lo pending. */
  lemma {:induction false} PendingKept(r: Dim, s: seq<int>, b: seq<int>, b': seq<int>, top: seq<Hyp>, lo: int)
    requires |s| == CellCount(r) && |b| == CellCount(r) && |b'| == CellCount(r)
    requires forall j :: 0 <= j < |top| ==> top[j].cell <= lo && Pending(r, s, b, top[j])
    requires forall i :: 0 <= i < |b| && b'[i] != b[i] ==> (lo <= i && s[i] == 0) || b'[i] == 0
    ensures forall j :: 0 <= j < |top| ==> Pending(r, s, b', top[j])
  {
    forall j | 0 <= j < |top|
      ensures Pending(r, s, b', top[j])
    {
      var e := top[j];
      assert Pending(r, s, b, e);
      forall i | 0 <= i < |b'| && i != e.cell && Peers(r, i, e.cell) && (i < e.cell || s[i] != 0)
        ensures b'[i] != e.num
      {
        assert b[i] != e.num;
      }
    }
  }

  /** k * x by repeated addition, so that unfolding it stays linear. */
  function Times(k: nat, x: nat): nat {
    if k == 0 then 0 else x + Times(k - 1, x)
  }

  /** base ** e. */
  function Pow(base: nat, e: nat): nat {
    if e == 0 then 1 else Times(base, Pow(base, e - 1))
  }

  lemma {:induction false} TimesIsMul(k: nat, x: nat)
    ensures Times(k, x) == k * x
    decreases k
  {
    if k > 0 {
      TimesIsMul(k - 1, x);
      Distrib(k - 1, x);
    }
  }

  lemma {:induction false} PowPos(base: nat, e: nat)
    requires 1 <= base
    ensures Pow(base, e) >= 1
    decreases e
  {
    if e > 0 {
      PowPos(base, e - 1);
      TimesIsMul(base, Pow(base, e - 1));
      MulLe(1, base, Pow(base, e - 1));
    }
  }

  lemma {:induction false} PowMono(base: nat, e: nat, f: nat)
    requires 1 <= base && e <= f
    ensures Pow(base, e) <= Pow(base, f)
    decreases f
  {
    if e < f {
      PowMono(base, e, f - 1);
      TimesIsMul(base, Pow(base, f - 1));
      MulLe(1, base, Pow(base, f - 1));
    }
  }

  /** The weight of a hypothesis on cell c: larger than m_size hypotheses
      on any later cell together, so replacing the head by the candidates of
      a later cell makes the list lighter. */
  function Weight(r: Dim, c: int): nat {
    if 0 <= c < CellCount(r) then Pow(LineSize(r) + 1, CellCount(r) - 1 - c) else 0
  }

  /** The total weight of a list. */
  function Mass(r: Dim, hs: seq<Hyp>): nat {
    if hs == [] then 0 else Weight(r, hs[0].cell) + Mass(r, hs[1..])
  }

  lemma {:induction false} MassAppend(r: Dim, a: seq<Hyp>, b: seq<Hyp>)
    ensures Mass(r, a + b) == Mass(r, a) + Mass(r, b)
  {
    if a == [] {
      assert a + b == b;
    } else {
      assert (a + b)[1..] == a[1..] + b;
      MassAppend(r, a[1..], b);
    }
  }

  lemma {:induction false} MassUniform(r: Dim, hs: seq<Hyp>, c: int)
    requires forall h :: h in hs ==> h.cell == c
    ensures Mass(r, hs) == |hs| * Weight(r, c)
  {
    if hs != [] {
      assert hs[0] in hs;
      assert forall h :: h in hs[1..] ==> h in hs;
      MassUniform(r, hs[1..], c);
      Distrib(|hs| - 1, Weight(r, c));
    }
  }

  /** Replacing the hypothesis on cell h by at most m_size hypotheses on a
      later cell c (none when there is no later cell) lowers the mass of
      the list. */
  lemma Progress(r: Dim, h: int, c: int, pushed: seq<Hyp>, top: seq<Hyp>)
    requires 0 <= h < c <= CellCount(r) && |pushed| <= LineSize(r)
    requires c == CellCount(r) ==> pushed == []
    requires forall e :: e in pushed ==> e.cell == c
    ensures Mass(r, pushed + top) < Weight(r, h) + Mass(r, top)
  {
    var m := LineSize(r);
    var v := CellCount(r);
    MassAppend(r, pushed, top);
    MassUniform(r, pushed, c);
    PowPos(m + 1, v - 1 - h);
    if c < v {
      var w := Weight(r, c);
      PowMono(m + 1, v - c, v - 1 - h);
      TimesIsMul(m + 1, w);
      assert Pow(m + 1, v - c) == (m + 1) * w;
      Distrib(m, w);
      MulLe(|pushed|, m, w);
    }
  }

  lemma MulLe(a: nat, b: nat, w: nat)
    requires a <= b
    ensures a * w <= b * w
  {
  }

  lemma Distrib(n: nat, w: nat)
    ensures w + n * w == (n + 1) * w
  {
  }
}
