/** The sequential decisions of the distributed solver (sudoku-mpi.c).

    Every rank runs the same search on its own work list. The root values
    of the first blank cell are split into contiguous blocks, one per rank.
    A rank whose list runs dry asks the other ranks for work in turn; an
    asked rank hands out the tail of its list together with its working
    copy, or the invalid hypothesis (-1, -1) when it has nothing. Exit
    signals travel round a ring of ranks. The messages themselves are left
    out: what is kept is the per-message decision logic over an abstract
    message value, the framing of the messages and the index arithmetic. */
module Coordinator {
  import opened Geometry
  import opened Tracker
  import opened Grid
  import opened Search
  import opened Engine
  import opened Driver

  // ---------------------------------------------------------------------
  // Block decomposition of the root values

  /** BLOCK_LOW(rank, p, n): the first index of the block of rank, the
      largest low with low * p <= rank * n. */
  function BlockLow(rank: int, p: int, n: int): (low: int)
    requires 1 <= p && 0 <= rank && 0 <= n
    ensures low * p <= rank * n < (low + 1) * p
  {
    rank * n / p
  }

  /** BLOCK_HIGH(rank, p, n): the last index of the block of rank, one
      before the first index of the next rank's block. */
  function BlockHigh(rank: int, p: int, n: int): (high: int)
    requires 1 <= p && 0 <= rank && 0 <= n
    ensures (high + 1) * p <= (rank + 1) * n < (high + 2) * p
  {
    BlockLow(rank + 1, p, n) - 1
  }

  lemma DivMono(x: int, y: int, d: int)
    requires 0 <= x <= y && 0 < d
    ensures x / d <= y / d
  {
    assert x == d * (x / d) + x % d;
    assert y == d * (y / d) + y % d;
    if x / d > y / d {
      MulMono(d, y / d + 1, x / d);
    }
  }

  /** Later ranks start no earlier. */
  lemma BlockLowMono(a: int, b: int, p: int, n: int)
    requires 1 <= p && 0 <= a <= b && 0 <= n
    ensures BlockLow(a, p, n) <= BlockLow(b, p, n)
  {
    MulMono(n, a, b);
    DivMono(a * n, b * n, p);
  }

  /** The blocks start at 0 and the block past the last rank starts at n. */
  lemma BlockEnds(p: int, n: int)
    requires 1 <= p && 0 <= n
    ensures BlockLow(0, p, n) == 0 && BlockLow(p, p, n) == n
  {
    MulDiv(n, p);
  }

  lemma MulDiv(a: int, d: int)
    requires 0 <= a && 0 < d
    ensures d * a / d == a
  {
    var q := d * a / d;
    assert d * a == d * q + (d * a) % d;
    assert d * (a - q) == (d * a) % d;
    if a - q >= 1 {
      MulMono(d, 1, a - q);
    }
    if a - q <= -1 {
      MulMono(d, a - q, -1);
    }
  }

  /** The block of a rank lies within 0..n-1 (it may be empty). */
  lemma BlockBounds(rank: int, p: int, n: int)
    requires 0 <= rank < p && 0 <= n
    ensures 0 <= BlockLow(rank, p, n) <= BlockHigh(rank, p, n) + 1 <= n
  {
    BlockEnds(p, n);
    BlockLowMono(0, rank, p, n);
    BlockLowMono(rank, rank + 1, p, n);
    BlockLowMono(rank + 1, p, p, n);
  }

  /** The blocks of two different ranks share no index. */
  lemma BlockDisjoint(p: int, n: int, a: int, b: int)
    requires 1 <= p && 0 <= n && 0 <= a < b < p
    ensures BlockHigh(a, p, n) < BlockLow(b, p, n)
  {
    BlockLowMono(a + 1, b, p, n);
  }

  /** Every index 0..n-1 lies in the block of some rank. */
  lemma BlockCover(p: int, n: int, v: int) returns (rank: int)
    requires 1 <= p && 0 <= v < n
    ensures 0 <= rank < p && BlockLow(rank, p, n) <= v <= BlockHigh(rank, p, n)
  {
    BlockEnds(p, n);
    rank := OwnerFrom(p, n, v, 0);
  }

  lemma {:induction false} OwnerFrom(p: int, n: int, v: int, k: int) returns (rank: int)
    requires 1 <= p && 0 <= v < n && 0 <= k < p && BlockLow(k, p, n) <= v
    requires BlockLow(p, p, n) == n
    ensures 0 <= rank < p && BlockLow(rank, p, n) <= v <= BlockHigh(rank, p, n)
    decreases p - k
  {
    if v < BlockLow(k + 1, p, n) {
      rank := k;
    } else {
      rank := OwnerFrom(p, n, v, k + 1);
    }
  }

  /** Each value 1..m_size is a root value of exactly one rank. */
  lemma SeedOwner(p: int, m: int, v: int)
    requires 1 <= p && 1 <= v <= m
    ensures exists rank :: 0 <= rank < p && 1 + BlockLow(rank, p, m) <= v <= 1 + BlockHigh(rank, p, m)
    ensures forall a, b ::
              (0 <= a < p && 0 <= b < p
               && 1 + BlockLow(a, p, m) <= v <= 1 + BlockHigh(a, p, m)
               && 1 + BlockLow(b, p, m) <= v <= 1 + BlockHigh(b, p, m)) ==> a == b
  {
    var rank := BlockCover(p, m, v - 1);
    forall a, b | 0 <= a < p && 0 <= b < p
              && 1 + BlockLow(a, p, m) <= v <= 1 + BlockHigh(a, p, m)
              && 1 + BlockLow(b, p, m) <= v <= 1 + BlockHigh(b, p, m)
      ensures a == b
    {
      if a < b {
        BlockDisjoint(p, m, a, b);
      } else if b < a {
        BlockDisjoint(p, m, b, a);
      }
    }
  }

  /** With more ranks than values some rank gets an empty block, so its
      seeding loop inserts nothing. */
  lemma SomeBlockEmpty(p: int, n: int) returns (rank: int)
    requires 0 <= n < p
    ensures 0 <= rank < p && BlockHigh(rank, p, n) == BlockLow(rank, p, n) - 1
  {
    BlockEnds(p, n);
    rank := EmptyFrom(p, n, 0);
  }

  lemma {:induction false} EmptyFrom(p: int, n: int, k: int) returns (rank: int)
    requires 0 <= n < p && 0 <= k < p && BlockLow(k, p, n) >= k && BlockLow(p, p, n) == n
    ensures 0 <= rank < p && BlockHigh(rank, p, n) == BlockLow(rank, p, n) - 1
    decreases p - k
  {
    BlockLowMono(k, k + 1, p, n);
    if BlockLow(k + 1, p, n) == BlockLow(k, p, n) {
      rank := k;
    } else {
      BlockLowMono(k + 1, p, p, n);
      rank := EmptyFrom(p, n, k + 1);
    }
  }

  /** solve of one rank: the root values of the first blank cell are the
      block of the rank, 1 + BLOCK_LOW .. 1 + BLOCK_HIGH. The local search
      then reports a complete grid without clashes that keeps every given,
      or leaves the puzzle alone. */
  method SolveRank(r: Dim, sudoku: array<int>, rank: int, p: int) returns (solved: bool)
    requires sudoku.Length == CellCount(r) && GivenValues(r, sudoku[..]) && NoClash(r, sudoku[..])
    requires exists i :: 0 <= i < sudoku.Length && sudoku[i] == 0
    requires 0 <= rank < p
    modifies sudoku
    ensures solved ==> Complete(r, sudoku[..]) && NoClash(r, sudoku[..])
    ensures solved ==> forall i :: 0 <= i < sudoku.Length && old(sudoku[i]) != 0 ==> sudoku[i] == old(sudoku[i])
    ensures !solved ==> sudoku[..] == old(sudoku[..])
  {
    var m := LineSize(r);
    BlockBounds(rank, p, m);
    var lo, hi := 1 + BlockLow(rank, p, m), 1 + BlockHigh(rank, p, m);
    solved := Solve(r, sudoku, lo, hi);
  }

  // ---------------------------------------------------------------------
  // The ring of send_ring

  /** The rank send_ring sends to: the next rank, wrapping from p-1 to 0. */
  function RingNext(rank: int, p: int): (next: int)
    requires 0 <= rank < p
    ensures 0 <= next < p
    ensures p > 1 ==> next != rank
  {
    if rank == p - 1 then 0 else rank + 1
  }

  /** The rank a message reaches after k forwards round the ring. */
  function Hops(rank: int, p: int, k: nat): (t: int)
    requires 0 <= rank < p
    ensures 0 <= t < p
  {
    if k == 0 then rank else RingNext(Hops(rank, p, k - 1), p)
  }

  lemma {:induction false} HopsValue(rank: int, p: int, k: nat)
    requires 0 <= rank < p && k < p
    ensures Hops(rank, p, k) == if rank + k < p then rank + k else rank + k - p
  {
    if k > 0 {
      HopsValue(rank, p, k - 1);
    }
  }

  /** A signal forwarded round the ring reaches every rank within p-1
      forwards, and is back at its sender after p. */
  lemma RingReachesAll(rank: int, p: int, t: int)
    requires 0 <= rank < p && 0 <= t < p
    ensures exists k :: 0 <= k < p && Hops(rank, p, k) == t
    ensures Hops(rank, p, p) == rank
  {
    var d := if t >= rank then t - rank else t + p - rank;
    HopsValue(rank, p, d);
    HopsValue(rank, p, p - 1);
  }

  // ---------------------------------------------------------------------
  // The peer order of the idle loop

  /** How far past rank the k-th job request of an idle spell goes: 1, 2,
      ..., p-1, then 1 again. */
  function Offset(p: int, k: nat): (d: int)
    requires 1 < p
    ensures 1 <= d <= p - 1
  {
    if k == 0 then 1 else if Offset(p, k - 1) == p - 1 then 1 else Offset(p, k - 1) + 1
  }

  /** The rank the k-th job request of an idle spell is sent to. */
  function PeerAt(rank: int, p: int, k: nat): (t: int)
    requires 1 < p && 0 <= rank < p
    ensures 0 <= t < p && t != rank
  {
    var x := rank + Offset(p, k);
    if x >= p then x - p else x
  }

  lemma {:induction false} OffsetStart(p: int, k: nat)
    requires 1 < p && k < p - 1
    ensures Offset(p, k) == k + 1
  {
    if k > 0 {
      OffsetStart(p, k - 1);
    }
  }

  lemma {:induction false} OffsetPeriodic(p: int, k: nat)
    requires 1 < p
    ensures Offset(p, k + (p - 1)) == Offset(p, k)
  {
    if k == 0 {
      OffsetStart(p, p - 2);
    } else {
      OffsetPeriodic(p, k - 1);
    }
  }

  /** The peer after the k-th one in the loop order (i + 1, wrapping p to
      0) is the (k+1)-th one, or the asking rank itself when the offsets
      start over. */
  lemma PeerStep(rank: int, p: int, k: nat)
    requires 1 < p && 0 <= rank < p
    ensures var i := PeerAt(rank, p, k);
            (if i + 1 == p then 0 else i + 1) == PeerAt(rank, p, k + 1)
            || ((if i + 1 == p then 0 else i + 1) == rank && Offset(p, k + 1) == 1)
  {
  }

  /** The p-1 requests from the j-th on. */
  function Window(rank: int, p: int, j: nat): (w: seq<int>)
    requires 1 < p && 0 <= rank < p
    ensures |w| == p - 1
  {
    seq(p - 1, t requires 0 <= t => PeerAt(rank, p, j + t))
  }

  /** The indices a..b-1 in order. */
  function Range(a: int, b: int): (s: seq<int>)
    requires a <= b
    ensures |s| == b - a
    decreases b - a
  {
    if a == b then [] else [a] + Range(a + 1, b)
  }

  lemma {:induction false} RangeCount(a: int, b: int, x: int)
    requires a <= b
    ensures multiset(Range(a, b))[x] == if a <= x < b then 1 else 0
    decreases b - a
  {
    if a < b {
      RangeCount(a + 1, b, x);
    }
  }

  lemma {:induction false} RangeAt(a: int, b: int, t: int)
    requires a <= b && 0 <= t < b - a
    ensures Range(a, b)[t] == a + t
    decreases b - a
  {
    if t > 0 {
      RangeAt(a + 1, b, t - 1);
    }
  }

  lemma FirstWindow(rank: int, p: int)
    requires 1 < p && 0 <= rank < p
    ensures Window(rank, p, 0) == Range(rank + 1, p) + Range(0, rank)
  {
    var w := Window(rank, p, 0);
    var s := Range(rank + 1, p) + Range(0, rank);
    forall t | 0 <= t < p - 1
      ensures w[t] == s[t]
    {
      OffsetStart(p, t);
      if t < p - 1 - rank {
        RangeAt(rank + 1, p, t);
      } else {
        RangeAt(0, rank, t - (p - 1 - rank));
      }
    }
  }

  lemma FirstWindowCount(rank: int, p: int, t: int)
    requires 1 < p && 0 <= rank < p
    ensures multiset(Window(rank, p, 0))[t] == if 0 <= t < p && t != rank then 1 else 0
  {
    FirstWindow(rank, p);
    RangeCount(rank + 1, p, t);
    RangeCount(0, rank, t);
  }

  lemma WindowShift(rank: int, p: int, j: nat)
    requires 1 < p && 0 <= rank < p
    ensures Window(rank, p, j + 1) == Window(rank, p, j)[1..] + [Window(rank, p, j)[0]]
  {
    OffsetPeriodic(p, j);
    assert PeerAt(rank, p, j + 1 + (p - 2)) == PeerAt(rank, p, j);
  }

  /** Any p-1 consecutive job requests of an idle spell go to every other
      rank exactly once, and never to the asking rank. */
  lemma {:induction false} EveryPeerOnce(rank: int, p: int, j: nat)
    requires 1 < p && 0 <= rank < p
    ensures forall t :: multiset(Window(rank, p, j))[t] == if 0 <= t < p && t != rank then 1 else 0
  {
    if j == 0 {
      forall t
        ensures multiset(Window(rank, p, 0))[t] == if 0 <= t < p && t != rank then 1 else 0
      {
        FirstWindowCount(rank, p, t);
      }
    } else {
      EveryPeerOnce(rank, p, j - 1);
      var w := Window(rank, p, j - 1);
      WindowShift(rank, p, j - 1);
      assert w == [w[0]] + w[1..];
      assert multiset(Window(rank, p, j)) == multiset(w);
    }
  }

  // ---------------------------------------------------------------------
  // Messages

  /** Message tags. */
  const TAG_HYP := 1
  const TAG_EXIT := 2
  const TAG_ASK_JOB := 3

  /** invalid_hyp: the hypothesis that stands for "no work". */
  function InvalidHyp(): (h: Hyp)
    ensures h.cell < 0 && h.num < 0
  {
    Hyp(-1, -1)
  }

  /** The two ints of a hypothesis as copied into a message: cell, then num. */
  function HypInts(h: Hyp): (msg: seq<int>)
    ensures |msg| == 2 && msg[0] == h.cell && msg[1] == h.num
  {
    [h.cell, h.num]
  }

  /** A work offer: the hypothesis followed by the sender's working copy. */
  function OfferInts(h: Hyp, cp: seq<int>): (msg: seq<int>)
    ensures |msg| == |cp| + 2 && msg[..2] == HypInts(h) && msg[2..] == cp
  {
    HypInts(h) + cp
  }

  /** The reply to a job request, as the asking rank reads it. */
  datatype Reply = NoWork | Offer(hyp: Hyp, grid: seq<int>)

  /** The reading of a TAG_HYP message: two ints mean no work, anything
      longer is a hypothesis followed by a working copy. */
  function ReadReply(msg: seq<int>): (rep: Reply)
    requires |msg| >= 2
    ensures rep == NoWork <==> |msg| == 2
    ensures rep.Offer? ==> OfferInts(rep.hyp, rep.grid) == msg
  {
    if |msg| == 2 then NoWork else Offer(Hyp(msg[0], msg[1]), msg[2..])
  }

  /** An offer of a non-empty working copy reads back as what was sent. */
  lemma OfferRoundTrip(h: Hyp, cp: seq<int>)
    requires |cp| >= 1
    ensures ReadReply(OfferInts(h, cp)) == Offer(h, cp)
  {
  }

  /** invalid_hyp reads back as no work. */
  lemma NoWorkRoundTrip()
    ensures ReadReply(HypInts(InvalidHyp())) == NoWork
  {
  }

  /** pop_tail: the list without its last entry. */
  function PopTail(work: seq<Hyp>): (rest: seq<Hyp>)
    requires work != []
    ensures |rest| == |work| - 1 && work == rest + [work[|work| - 1]]
  {
    work[..|work| - 1]
  }

  /** The answer to a job request while searching: with a non-empty list,
      pop_tail and send v_size+2 ints, the hypothesis then a copy of
      cp_sudoku; otherwise send the two ints of invalid_hyp. */
  method Donate(cp: array<int>, work: seq<Hyp>) returns (msg: array<int>, work': seq<Hyp>)
    ensures fresh(msg)
    ensures work == [] ==> work' == [] && msg[..] == HypInts(InvalidHyp())
    ensures work != [] ==> work' == PopTail(work) && msg[..] == OfferInts(work[|work| - 1], cp[..])
  {
    if work == [] {
      var h := InvalidHyp();
      msg := new int[2];
      msg[0], msg[1] := h.cell, h.num;
      work' := work;
      return;
    }
    var h := work[|work| - 1];
    work' := PopTail(work);
    msg := new int[cp.Length + 2];
    msg[0], msg[1] := h.cell, h.num;
    for i := 0 to cp.Length
      invariant msg[0] == h.cell && msg[1] == h.num
      invariant forall k :: 0 <= k < i ==> msg[k + 2] == cp[k]
    {
      msg[i + 2] := cp[i];
    }
    assert msg[..] == OfferInts(h, cp[..]);
  }

  /** What the asking rank reads from a donation: the tail of the donor's
      list with the donor's working copy, or no work when the list was
      empty. */
  lemma DonationRead(cp: seq<int>, work: seq<Hyp>, msg: seq<int>)
    requires |cp| >= 1
    requires work == [] ==> msg == HypInts(InvalidHyp())
    requires work != [] ==> msg == OfferInts(work[|work| - 1], cp)
    ensures |msg| >= 2
    ensures ReadReply(msg) == if work == [] then NoWork else Offer(work[|work| - 1], cp)
  {
    if work != [] {
      OfferRoundTrip(work[|work| - 1], cp);
    }
  }

  /** A donation in the middle of a pass, as written: the list is the
      hypotheses above the current root (stack) over the roots still to
      try (rest), len is |rest| and stays as it was. When one hypothesis is
      left above the root and a root is given away, the exhaustion test
      `work->len == len` fires although that hypothesis is still listed;
      it is then popped as if it were a root, on a cell after the roots'
      cell, whose value the exhaustion loop has just cleared. */
  lemma DonationEndsPassEarly(r: Dim, s: seq<int>, cp: seq<int>, ms: MaskSet, cell: int,
                              stack: seq<Hyp>, rest: seq<Hyp>, c0: int)
    requires Expanded(r, s, cp, ms, cell, stack, c0) && |stack| == 1 && rest != []
    ensures |PopTail(stack + rest)| == |rest|
    ensures PopTail(stack + rest)[0] == stack[0] && stack[0].cell != c0
  {
  }

  /** The same donation, as written, while nothing is listed above the
      current root (rest holds the other roots, len is |rest|): the list is
      one shorter than len, so the exhaustion test cannot fire when the
      root's pass pushes nothing. The inner loop then pops the next root
      as if it were a hypothesis of the pass, without the is_safe_num check
      of the outer loop, or, when the donated root was the last one, pops
      from an empty list. */
  lemma DonationSkipsRootCheck(rest: seq<Hyp>)
    requires rest != []
    ensures |PopTail(rest)| != |rest|
    ensures |rest| > 1 ==> PopTail(rest)[0] == rest[0]
    ensures |rest| == 1 ==> PopTail(rest) == []
  {
  }

  /** The count of roots still listed after a donation: a donation takes a
      root while there is one. */
  function LenAfterDonation(len: nat): (len': nat)
    ensures len > 0 ==> len' == len - 1
    ensures len == 0 ==> len' == 0
  {
    if len > 0 then len - 1 else 0
  }

  /** With the root count lowered on a donation, the list still splits into
      hypotheses above the root over len' roots: the exhaustion test fires
      exactly when nothing is left above the root, the hypotheses above the
      root are all kept while a root is left to give, and the state still
      meets what backtracking needs. */
  lemma DonationKeepsSplit(r: Dim, s: seq<int>, cp: seq<int>, ms: MaskSet, cell: int,
                           stack: seq<Hyp>, rest: seq<Hyp>, c0: int) returns (stack': seq<Hyp>, rest': seq<Hyp>)
    requires Expanded(r, s, cp, ms, cell, stack, c0) && stack + rest != []
    ensures PopTail(stack + rest) == stack' + rest'
    ensures |rest'| == LenAfterDonation(|rest|)
    ensures |PopTail(stack + rest)| == LenAfterDonation(|rest|) <==> stack' == []
    ensures rest != [] ==> stack' == stack
    ensures Expanded(r, s, cp, ms, cell, stack', c0)
  {
    if rest != [] {
      stack', rest' := stack, rest[..|rest| - 1];
      assert PopTail(stack + rest) == stack' + rest';
    } else {
      stack', rest' := stack[..|stack| - 1], [];
      assert stack + rest == stack;
      assert forall j :: 0 <= j < |stack'| ==> stack'[j] == stack[j];
    }
  }

  /** Taking an offer: the received working copy replaces cp_sudoku,
      delete_from clears it from the offered cell on and rebuilds the masks,
      and the offered hypothesis goes to the head of the list. */
  method AcceptOffer(r: Dim, sudoku: array<int>, cp: array<int>,
                     rows: array<bv64>, cols: array<bv64>, boxes: array<bv64>,
                     hyp: Hyp, grid: seq<int>, work: seq<Hyp>) returns (work': seq<Hyp>)
    requires Arrays(r, rows, cols, boxes) && Apart(sudoku, rows, cols, boxes)
    requires Apart(cp, rows, cols, boxes) && sudoku != cp
    requires GivenValues(r, sudoku[..]) && cp.Length == CellCount(r)
    requires |grid| == CellCount(r) && Bounded(r, grid) && 0 <= hyp.cell < CellCount(r)
    modifies cp, rows, cols, boxes
    ensures forall i :: 0 <= i < cp.Length ==>
              cp[i] == if hyp.cell <= i && grid[i] > 0 then UNASSIGNED else grid[i]
    ensures Snapshot(rows, cols, boxes) == Placed(r, InitMasksOf(r, sudoku[..]), cp[..], 0, hyp.cell)
    ensures Working(r, sudoku[..], grid) ==> Reflects(r, Board(sudoku[..], cp[..]), Snapshot(rows, cols, boxes))
    ensures work' == [hyp] + work
  {
    for i := 0 to cp.Length
      invariant forall k :: 0 <= k < i ==> cp[k] == grid[k]
    {
      cp[i] := grid[i];
    }
    assert cp[..] == grid;
    DeleteFrom(r, sudoku, cp, rows, cols, boxes, hyp.cell);
    if Working(r, sudoku[..], grid) {
      RebuiltReflects(r, sudoku[..], cp[..], hyp.cell);
    }
    work' := [hyp] + work;
  }

  // ---------------------------------------------------------------------
  // The idle loop

  /** A message as received: its tag and its ints. */
  datatype Message = Message(tag: int, body: seq<int>)

  /** A TAG_HYP message carries at least a hypothesis. */
  predicate WellFormed(msg: Message) {
    msg.tag == TAG_HYP ==> |msg.body| >= 2
  }

  /** What the idle loop does with one received message. */
  datatype Action = Take(hyp: Hyp, grid: seq<int>) | CountNoWork | ForwardExit | RefuseJob | Skip

  /** The branches of the idle loop on a received message. */
  function OnIdle(msg: Message): (a: Action)
    requires WellFormed(msg)
    ensures a.Take? <==> msg.tag == TAG_HYP && ReadReply(msg.body).Offer?
    ensures a.Take? ==> ReadReply(msg.body) == Offer(a.hyp, a.grid)
    ensures a == CountNoWork <==> msg.tag == TAG_HYP && ReadReply(msg.body) == NoWork
    ensures a == ForwardExit <==> msg.tag == TAG_EXIT
    ensures a == RefuseJob <==> msg.tag == TAG_ASK_JOB
  {
    if msg.tag == TAG_HYP then
      match ReadReply(msg.body)
      case Offer(h, g) => Take(h, g)
      case NoWork => CountNoWork
    else if msg.tag == TAG_EXIT then ForwardExit
    else if msg.tag == TAG_ASK_JOB then RefuseJob
    else Skip
  }

  /** The messages that leave the idle loop asking on. */
  predicate Passive(a: Action) {
    a == CountNoWork || a == RefuseJob || a == Skip
  }

  /** How many messages of a run take branch a of the idle loop
      (no_sol_count for the no-work replies). */
  function Tally(msgs: seq<Message>, a: Action): (n: nat)
    requires forall k :: 0 <= k < |msgs| ==> WellFormed(msgs[k])
    ensures n <= |msgs|
  {
    if msgs == [] then 0
    else Tally(msgs[..|msgs| - 1], a) + (if OnIdle(msgs[|msgs| - 1]) == a then 1 else 0)
  }

  /** The count reaches the number of messages exactly when every message
      takes branch a. */
  lemma {:induction false} TallyAll(msgs: seq<Message>, a: Action)
    requires forall k :: 0 <= k < |msgs| ==> WellFormed(msgs[k])
    ensures Tally(msgs, a) == |msgs| <==> forall k :: 0 <= k < |msgs| ==> OnIdle(msgs[k]) == a
  {
    if msgs != [] {
      var front := msgs[..|msgs| - 1];
      TallyAll(front, a);
      assert forall k :: 0 <= k < |front| ==> front[k] == msgs[k];
    }
  }

  lemma TallyStep(msgs: seq<Message>, u: int)
    requires forall k :: 0 <= k < |msgs| ==> WellFormed(msgs[k])
    requires 0 <= u < |msgs|
    ensures forall a :: Tally(msgs[..u + 1], a) == Tally(msgs[..u], a) + (if OnIdle(msgs[u]) == a then 1 else 0)
  {
    assert msgs[..u + 1][..u] == msgs[..u];
  }

  /** How an idle spell ends: alone (p == 1), with work taken, on an exit
      signal, with the exhaustion verdict, or still waiting when the
      modelled messages run out. */
  datatype IdleEnd = Alone | Took(hyp: Hyp, grid: seq<int>) | ExitForwarded | Exhausted | Waiting

  /** The first used messages of an idle spell all left the loop asking on:
      noSol is no_sol_count over them, refused counts the job requests among
      them, and rank 0 has not yet seen p-1 no-work replies. */
  predicate Quiet(rank: int, p: int, inbox: seq<Message>, used: nat, noSol: nat, refused: nat)
    requires forall k :: 0 <= k < |inbox| ==> WellFormed(inbox[k])
    requires used <= |inbox|
  {
    (forall k :: 0 <= k < used ==> Passive(OnIdle(inbox[k])))
    && noSol == Tally(inbox[..used], CountNoWork)
    && refused == Tally(inbox[..used], RefuseJob)
    && (rank == 0 ==> noSol < p - 1)
  }

  /** The branches of the idle loop on the next received message: take an
      offer, count a no-work reply, forward an exit, refuse a job request or
      ignore the message, then stop if rank 0 has counted p-1 no-work
      replies. */
  method Receive(rank: int, p: int, inbox: seq<Message>, used: nat, noSol: nat, refused: nat)
    returns (stop: bool, end: IdleEnd, noSol': nat, refused': nat)
    requires 0 <= rank < p
    requires forall k :: 0 <= k < |inbox| ==> WellFormed(inbox[k])
    requires used < |inbox| && Quiet(rank, p, inbox, used, noSol, refused)
    ensures rank == 0 ==> Tally(inbox[..used], CountNoWork) < p - 1
    ensures !stop ==> Quiet(rank, p, inbox, used + 1, noSol', refused')
    ensures stop ==> (end.Took? && OnIdle(inbox[used]) == Take(end.hyp, end.grid))
                     || (end == ExitForwarded && inbox[used].tag == TAG_EXIT)
                     || (end == Exhausted && rank == 0 && Tally(inbox[..used + 1], CountNoWork) == p - 1)
    ensures stop ==> refused' == Tally(inbox[..used + 1], RefuseJob)
    ensures stop && end != Exhausted && rank == 0 ==> Tally(inbox[..used + 1], CountNoWork) < p - 1
  {
    var action := OnIdle(inbox[used]);
    TallyStep(inbox, used);
    noSol', refused' := noSol, refused;
    stop, end := false, Waiting;
    if action.Take? {
      return true, Took(action.hyp, action.grid), noSol', refused';
    } else if action == CountNoWork {
      noSol' := noSol + 1;
    } else if action == ForwardExit {
      return true, ExitForwarded, noSol', refused';
    } else if action == RefuseJob {
      refused' := refused + 1;
    }
    if noSol' == p - 1 && rank == 0 {
      return true, Exhausted, noSol', refused';
    }
  }

  /** The next rank to ask from loop index i: wrap p to 0, and step over
      the asking rank itself (the `continue` of the loop, then the wrap
      again). */
  method NextPeer(rank: int, p: int, i: int, ghost k: nat) returns (j: int)
    requires 1 < p && 0 <= rank < p && 0 <= i <= p
    requires (if i == p then 0 else i) == PeerAt(rank, p, k)
             || ((if i == p then 0 else i) == rank && Offset(p, k) == 1)
    ensures j == PeerAt(rank, p, k)
  {
    j := i;
    if j == p {
      j := 0;
    }
    if j == rank {
      j := j + 1;
      if j == p {
        j := 0;
      }
    }
  }

  /** The idle loop of solving_sudoku, over the messages it receives in
      order: ask the next peer for work, read one message, act on it, and
      stop with the exhaustion verdict when rank 0 has counted p-1 no-work
      replies. asked lists the ranks asked, refused counts the job requests
      answered with invalid_hyp. */
  method Idle(rank: int, p: int, inbox: seq<Message>)
    returns (end: IdleEnd, asked: seq<int>, used: nat, refused: nat)
    requires 0 <= rank < p
    requires forall k :: 0 <= k < |inbox| ==> WellFormed(inbox[k])
    ensures end == Alone <==> p == 1
    ensures used <= |inbox| && |asked| == used
    ensures p > 1 ==> forall k :: 0 <= k < used ==> asked[k] == PeerAt(rank, p, k)
    ensures end.Took? ==> 0 < used && OnIdle(inbox[used - 1]) == Take(end.hyp, end.grid)
    ensures end == ExitForwarded ==> 0 < used && inbox[used - 1].tag == TAG_EXIT
    ensures end == Exhausted ==> rank == 0 && Tally(inbox[..used], CountNoWork) == p - 1
    ensures end == Waiting ==> used == |inbox|
    ensures forall k :: 0 <= k < used && (k < used - 1 || end == Waiting) ==> Passive(OnIdle(inbox[k]))
    ensures rank == 0 && 0 < used ==> Tally(inbox[..used - 1], CountNoWork) < p - 1
    ensures rank == 0 && end != Alone && end != Exhausted ==> Tally(inbox[..used], CountNoWork) < p - 1
    ensures refused == Tally(inbox[..used], RefuseJob)
  {
    asked, used, refused := [], 0, 0;
    if p == 1 {
      return Alone, asked, used, refused;
    }
    var noSol := 0;
    var i := rank + 1;
    while used < |inbox|
      invariant 0 <= i <= p && used <= |inbox| && |asked| == used
      invariant forall k :: 0 <= k < used ==> asked[k] == PeerAt(rank, p, k)
      invariant (if i == p then 0 else i) == PeerAt(rank, p, used)
                || ((if i == p then 0 else i) == rank && Offset(p, used) == 1)
      invariant Quiet(rank, p, inbox, used, noSol, refused)
      invariant rank == 0 && 0 < used ==> Tally(inbox[..used - 1], CountNoWork) < p - 1
    {
      i := NextPeer(rank, p, i, used);
      asked := asked + [i];
      var stop;
      stop, end, noSol, refused := Receive(rank, p, inbox, used, noSol, refused);
      PeerStep(rank, p, used);
      used := used + 1;
      if stop {
        return;
      }
      i := i + 1;
    }
    end := Waiting;
  }
}
