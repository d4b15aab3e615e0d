# Sudoku work-list solver, serial and distributed (Dafny model)

The repository solves an r×r-box Sudoku (line size m = r², v = m² cells, 0 =
blank) by depth-first search over a work list of hypotheses (cell, value).
Each row, column and box keeps a 64-bit mask of the values it holds:
`update_masks` ORs a value's bit in, `rm_num_masks` XORs it out, and
`is_safe_num` tests the three bits. The serial solver (`sudoku-serial.c`)
seeds the list with every value of the first blank cell. The distributed
solver (`sudoku-mpi.c`) gives each rank a block of those root values. A rank
that runs dry asks its peers for work in turn. A peer donates the tail of its
list together with its working grid. Exit signals travel round a ring.

The model is split by concern:

- `geometry.dfy` (module `Geometry`): the cell, row, column and box arithmetic.
- `bits.dfy` (module `Bits`): the bit-vector facts behind the masks.
- `tracker.dfy` (module `Tracker`): the mask arrays and their updates. This covers `exists_in`, `is_safe_num`, `update_masks`, `rm_num_masks`, `init_masks` and `delete_from`.
- `grid.dfy` (module `Grid`): the board a working copy stands for. It also holds the invariant that the masks reflect that board.
- `search.dfy` (module `Search`): hypotheses, the candidates of a cell, and the termination measure.
- `engine.dfy` (module `Engine`): `solving_sudoku` as imperative methods over the arrays.
- `driver.dfy` (module `Driver`): `solve`, which covers setup, seeding and copy-back.
- `coordinator.dfy` (module `Coordinator`): the distributed part. This covers the block split, the ring, the peer order of the idle loop, message framing, donation, taking an offer, and the idle loop's decisions.

Where the source changes state in place, the model uses methods over arrays.
These are the working copy `cp_sudoku` and the three mask arrays. Each such
method is proved against specification functions: `Place`, `Remove`,
`Placed`, `InitMasksOf`, `SafeIn` and `Board`. The work list (`list.h`, not
part of this model) is a `seq<Hyp>` whose head is index 0.

The serial search is modelled once. `solving_sudoku` in `sudoku-mpi.c`
runs the same local loop, with message probing added; that probing is left
out. Two details of the code shape the model:

- `rm_num_masks` flips the bit with XOR. It does not clear it. The model keeps
  the XOR and proves that it is safe: under the search's invariant, the bit
  being removed is always set (`Grid.RemoveReflects`).
- Candidates are pushed so that the smallest safe value is popped first.
  Only on the last blank cell is the largest safe value written, because the
  value loop counts down and returns at the first safe value
  (`Engine.PushSafe`).

## Model

| member | source | states |
|---|---|---|
| Geometry.LineSize | sudoku-serial.c:222-224 | m_size is r_size squared, between 1 and 25 (boxes up to 5×5, so every value's bit fits the int shift) |
| Geometry.CellCount | sudoku-serial.c:222-224 | v_size is m_size squared, at most 625 |
| Geometry.Row | sudoku-serial.c:11 | ROW of a cell is a row index below m_size |
| Geometry.Col | sudoku-serial.c:12 | COL of a cell is a column index below m_size |
| Geometry.Box | sudoku-serial.c:13 | BOX of a row and column is a box index below m_size |
| Geometry.RowColDetermineCell | sudoku-serial.c:11-12 | two cells with the same ROW and COL are the same cell |
| Bits.ShiftValue | sudoku-serial.c:204 | the shift used for value num is num-1 |
| Bits.ShiftInjective | sudoku-serial.c:204 | different values get different bits |
| Bits.HasOr | sudoku-serial.c:203-208 | after OR-ing in the bit of v, the mask holds w exactly when it held w or w is v |
| Bits.HasXor | sudoku-serial.c:196-201 | after XOR-ing the bit of v, the mask holds w exactly when holding w differs from w being v |
| Bits.OrAbsorbs | sudoku-serial.c:179-186 | OR-ing a bit leaves the mask unchanged exactly when the bit is already set |
| Bits.OrThenXor | sudoku-serial.c:196-208 | XOR removes exactly the bit that OR added |
| Bits.HasZero | sudoku-serial.c:82-86 | a zeroed mask holds no value |
| Bits.BitOnly | sudoku-serial.c:204 | the mask `1 << (num-1)` of value v holds v and no other value |
| Tracker.ExistsIn | sudoku-serial.c:179-186 | exists_in answers exactly whether the bit of num is set in mask[index] |
| Tracker.IsSafeNum | sudoku-serial.c:188-190 | is_safe_num holds exactly when num is in none of the row, column and box masks |
| Tracker.PlaceThenRemove | sudoku-serial.c:196-208 | rm_num_masks after update_masks with the same value and cell restores the masks |
| Tracker.OrXorAt | sudoku-serial.c:196-208 | on one mask array, XOR after OR of the same bit at the same index restores it |
| Tracker.UpdateMasks | sudoku-serial.c:203-208 | the three arrays become Place of the old masks: the bit ORed into the row, column and box entries, nothing else changed |
| Tracker.RmNumMasks | sudoku-serial.c:196-201 | the three arrays become Remove of the old masks: the bit XORed into the three entries, nothing else changed |
| Tracker.InitMasks | sudoku-mpi.c:392-404 | the arrays are zeroed and then hold the masks of the givens (InitMasksOf), a fold of update_masks over the puzzle |
| Tracker.DeleteFrom | sudoku-mpi.c:334-349 | every tried value at or after cell is cleared, nothing else changes, and the masks are the givens' masks plus the tried values before cell |
| Tracker.ClearTail | sudoku-mpi.c:341-343 | the clearing loop (corrected bounds) clears exactly the positive entries from cell on |
| Tracker.Replay | sudoku-mpi.c:346-348 | the replay loop adds exactly the tried values before cell to the masks |
| Tracker.ClearLoopAsWritten | sudoku-mpi.c:341-343 | the clearing loop as written: started at an index past the end it reads out of bounds (None); started inside it clears the positive entries in cell..i |
| Tracker.DeleteFromReadsPastEnd | sudoku-mpi.c:341 | starting the loop at v_size always reads past the working copy |
| Grid.Board | sudoku-serial.c:98-101 | the board of a working copy: the given where the copy is UNCHANGEABLE, the copy's entry elsewhere |
| Grid.PeersByLine | sudoku-serial.c:188-190 | two cells are peers exactly when they share a row, a column or a box |
| Grid.LinePlace | sudoku-serial.c:203-208 | ORing v into the line of cell c keeps every mask of that kind equal to the set of values on its line, once c holds v |
| Grid.PlaceAt | sudoku-serial.c:203-208 | the same, at one line and one value |
| Grid.LineRemove | sudoku-serial.c:196-201 | XORing the value of c out of its line keeps every mask equal to its line's values, once c is blank |
| Grid.RemoveAt | sudoku-serial.c:196-201 | the same, at one line and one value |
| Grid.OrHas | sudoku-serial.c:205-207 | the effect of one OR on membership: only the named line gains the value |
| Grid.XorHas | sudoku-serial.c:198-200 | the effect of one XOR on membership: only the named line toggles the value |
| Grid.PlaceKinds | sudoku-serial.c:203-208 | Place touches the row, column and box lines of the cell, each by one OR |
| Grid.RemoveKinds | sudoku-serial.c:196-201 | Remove touches the row, column and box lines of the cell, each by one XOR |
| Grid.PlaceReflects | sudoku-serial.c:131-132 | committing a value to a blank cell with update_masks keeps the masks reflecting the board |
| Grid.RemoveReflects | sudoku-serial.c:159-161 | clearing a filled cell with rm_num_masks keeps the masks reflecting the board (the XOR only ever removes a set bit) |
| Grid.SafeIsFree | sudoku-serial.c:188-190 | under reflecting masks, is_safe_num holds exactly when no peer of the cell holds the value |
| Grid.PlaceNoClash | sudoku-serial.c:142-146 | writing a value no peer holds into a cell of a board without clashes leaves it without clashes |
| Grid.ClearNoClash | sudoku-serial.c:169-171 | blanking a cell never creates a clash |
| Grid.EmptyReflects | sudoku-serial.c:82-86 | zeroed masks reflect the empty board |
| Grid.PlacedReflects | sudoku-serial.c:88-90 | folding update_masks over the cells below hi reflects the board overlaid with those cells |
| Grid.InitReflects | sudoku-serial.c:82-90 | the masks built from the givens reflect the puzzle |
| Grid.RebuiltReflects | sudoku-mpi.c:346-348 | the masks rebuilt by delete_from reflect the board of the cleared working copy |
| Search.SafeIn | sudoku-serial.c:140-153 | the candidates of a cell: exactly the (cell, v) with lo <= v <= hi that is_safe_num accepts, in ascending value, at most hi-lo+1 of them |
| Search.SafeInPrepend | sudoku-serial.c:140-151 | one step of the value loop: the candidates from v on are v, if safe, before the candidates from v+1 on |
| Search.FreeIsPending | sudoku-serial.c:148-151 | a value no peer holds, pushed for a blank cell, is a pending hypothesis |
| Search.PendingIsFree | sudoku-serial.c:166-173 | once the cells after it are cleared, a pending hypothesis has no clashing peer |
| Search.PendingKept | sudoku-serial.c:131-173 | changes at or after a cell, and clearings anywhere, keep the hypotheses on earlier cells pending |
| Search.Progress | sudoku-serial.c:128-174 | replacing the popped hypothesis by at most m_size candidates of a later cell lowers the list's weight, so the search terminates |
| Engine.Commit | sudoku-serial.c:131-132 | cp gains hyp.num at hyp.cell, the board gains it, and masks and board stay consistent |
| Engine.Clear | sudoku-serial.c:159-161 | cp loses the value at cell, and masks and board stay consistent |
| Engine.Unwind | sudoku-serial.c:168-173 | exactly the tried values in lo..hi are cleared, and consistency is kept |
| Engine.NextEmpty | sudoku-serial.c:134-137 | the scan stops at the first UNASSIGNED cell after h, or at v_size; every cell in between is set |
| Engine.PushSafe | sudoku-serial.c:140-153 | on last_pos, the largest safe value with the list unchanged; elsewhere the list gains all safe candidates in ascending order at its head |
| Engine.ScanFilled | sudoku-serial.c:134-137 | cells skipped by the scan are filled, so the board is filled up to the next blank |
| Engine.SolvedBoard | sudoku-serial.c:144-146 | a safe value on the last blank cell of a filled board without clashes gives a complete grid without clashes |
| Engine.PushedPending | sudoku-serial.c:140-151 | every pushed candidate is pending |
| Engine.Pass | sudoku-serial.c:131-155 | one pass: commit the hypothesis and stop at the first blank cell after it. When that cell is last_pos and has a safe value, report success with the largest safe value written, giving a complete grid without clashes; when last_pos has none, push nothing. Elsewhere push exactly the safe values of that blank cell (nothing when the scan runs off the end), with the list lighter than before; cells before the hypothesis are untouched |
| Engine.Finish | sudoku-serial.c:140-146 | writing a safe value into last_pos, with every earlier cell filled, completes a grid without clashes and changes only that cell |
| Engine.Grown | sudoku-serial.c:131-155 | after commit and push, the list is still ordered latest cell first with every entry pending, and its weight has dropped |
| Engine.Stacked | sudoku-serial.c:148-151 | the candidates of a later cell put above the list keep it ordered and pending |
| Engine.Popped | sudoku-serial.c:166-173 | after popping and unwinding down to the popped cell, that hypothesis is safe and the rest of the list stays pending |
| Engine.Restored | sudoku-serial.c:157-163 | two working copies that agree before start_pos and are cleared from it on are equal |
| Engine.Retreat | sudoku-serial.c:166-173 | pop the head and unwind to its cell, reaching a state from which the pass can resume |
| Engine.Exhaust | sudoku-serial.c:157-163 | when no candidate is left above the root, clearing from start_pos restores the working copy to its state before the root |
| Engine.Backtrack | sudoku-serial.c:157-173 | the list is back at its length before the root exactly when no candidate is left; then the copy is restored, otherwise the next hypothesis is ready |
| Engine.Descend | sudoku-serial.c:128-174 | from a safe root: either a complete grid without clashes that keeps the cells before the root, or the list and the copy as they were before it; a root on last_pos never succeeds |
| Engine.SolvingSudoku | sudoku-serial.c:114-177 | a reported solution is a complete grid without clashes that keeps the cells before the roots' cell; otherwise the list is empty and the copy is unchanged; roots on last_pos never succeed |
| Driver.Setup | sudoku-serial.c:69-80 | givens become UNCHANGEABLE and blanks UNASSIGNED; the first and last blank cells are found when any blank exists |
| Driver.Seed | sudoku-mpi.c:115-118 | the list starts with (first, lo), ..., (first, hi) in that order, followed by the old list |
| Driver.CopyBack | sudoku-serial.c:98-101 | the puzzle becomes the board of the working copy |
| Driver.SetupConsistent | sudoku-serial.c:69-90 | after setup, the board is the puzzle and the masks of the givens are consistent with it |
| Driver.Solve | sudoku-serial.c:56-112 | solve as written: a reported solution is complete, has no clashes and keeps the givens; otherwise the puzzle is unchanged; a puzzle with one blank is never reported solved |
| Driver.OneBlankSolvable | sudoku-serial.c:134-146 | a one-blank puzzle without clashes, filled with a value no peer holds, is a solution |
| Driver.SolveFixed | sudoku-serial.c:56-112 | as Solve, but a one-blank puzzle is reported solved exactly when some root value fits its cell |
| Driver.FillLast | sudoku-serial.c:144-146 | the first root that fits is written into the single blank; if none fits, nothing changes and no root value is free |
| Coordinator.BlockLow | sudoku-mpi.c:24 | BLOCK_LOW(rank) is the floor of rank·n/p |
| Coordinator.BlockHigh | sudoku-mpi.c:25 | BLOCK_HIGH(rank) is one below the floor of (rank+1)·n/p |
| Coordinator.BlockLowMono | sudoku-mpi.c:24 | BLOCK_LOW does not decrease with the rank |
| Coordinator.BlockEnds | sudoku-mpi.c:24 | BLOCK_LOW is 0 for rank 0 and n for rank p |
| Coordinator.BlockBounds | sudoku-mpi.c:24-25 | each block lies within 0..n-1, possibly empty |
| Coordinator.BlockDisjoint | sudoku-mpi.c:24-25 | blocks of different ranks do not overlap |
| Coordinator.BlockCover | sudoku-mpi.c:24-25 | every index below n is in some rank's block |
| Coordinator.SeedOwner | sudoku-mpi.c:115-118 | every root value 1..m_size is seeded by exactly one rank |
| Coordinator.SomeBlockEmpty | sudoku-mpi.c:115-118 | with more ranks than values, some rank's block is empty and it seeds nothing |
| Coordinator.SolveRank | sudoku-mpi.c:85-137 | one rank's solve over its block of root values: a reported solution is complete, has no clashes and keeps the givens; otherwise the puzzle is unchanged |
| Coordinator.RingNext | sudoku-mpi.c:359-368 | send_ring targets a valid rank, never the sender itself when p > 1 |
| Coordinator.Hops | sudoku-mpi.c:359-368 | k forwards round the ring land on a valid rank |
| Coordinator.HopsValue | sudoku-mpi.c:359-368 | k < p forwards from rank land on rank+k modulo p |
| Coordinator.RingReachesAll | sudoku-mpi.c:312-314 | a forwarded exit signal reaches every rank within p-1 forwards and returns to its sender after p |
| Coordinator.Offset | sudoku-mpi.c:271-274 | the distance of the k-th asked peer from the rank lies in 1..p-1 |
| Coordinator.PeerAt | sudoku-mpi.c:271-274 | the k-th asked peer is a valid rank other than the asking one |
| Coordinator.OffsetStart | sudoku-mpi.c:271-274 | the first p-1 requests go to distances 1, 2, ..., p-1 |
| Coordinator.OffsetPeriodic | sudoku-mpi.c:271-274 | the request order repeats every p-1 requests |
| Coordinator.PeerStep | sudoku-mpi.c:271-274 | i+1 with the wrap at p is the next peer, or the asking rank itself when the order starts over |
| Coordinator.EveryPeerOnce | sudoku-mpi.c:271-274 | any p-1 consecutive requests go to each other rank exactly once, never to the asking rank |
| Coordinator.InvalidHyp | sudoku-mpi.c:352-357 | the no-work hypothesis has negative cell and value |
| Coordinator.HypInts | sudoku-mpi.c:195 | a hypothesis travels as two ints, cell then value |
| Coordinator.OfferInts | sudoku-mpi.c:194-196 | an offer is v_size+2 ints: the hypothesis, then the working copy |
| Coordinator.OfferRoundTrip | sudoku-mpi.c:291-295 | reading an offer gives back the hypothesis and working copy sent |
| Coordinator.ReadReply | sudoku-mpi.c:291-309 | a two-int reply reads as no work; any longer reply is the offer whose framing it is |
| Coordinator.NoWorkRoundTrip | sudoku-mpi.c:308-309 | the two ints of invalid_hyp read as no work |
| Coordinator.Donate | sudoku-mpi.c:185-203 | with work, the tail hypothesis is removed and sent with a copy of cp_sudoku; without work, invalid_hyp is sent |
| Coordinator.PopTail | sudoku-mpi.c:191 | pop_tail removes exactly the last hypothesis and keeps the rest in order |
| Coordinator.DonationRead | sudoku-mpi.c:188-203 | the asker reads a donation as the donor's tail hypothesis and working copy, or as no work when the donor's list was empty |
| Coordinator.DonationEndsPassEarly | sudoku-mpi.c:154-251 | as written: with one hypothesis above the current root and a root given away, the list length equals `len`, so the exhaustion test fires while a non-root hypothesis stays at the head |
| Coordinator.DonationSkipsRootCheck | sudoku-mpi.c:153-254 | as written: a root donated while nothing is listed above the current root leaves the list shorter than `len`, so the exhaustion test cannot fire; the next pop takes a root without the is_safe_num check, or finds the list empty |
| Coordinator.LenAfterDonation | sudoku-mpi.c:154 | the corrected `len` after a donation: one less while roots remain, unchanged at 0 |
| Coordinator.DonationKeepsSplit | sudoku-mpi.c:154-251 | corrected: after a donation the list still splits into the pass's hypotheses over the remaining roots, the root count is the corrected `len`, and the exhaustion test fires exactly when no hypothesis of the pass is left |
| Coordinator.AcceptOffer | sudoku-mpi.c:291-301 | the received copy is cleared from the offered cell on, the masks are rebuilt to reflect its board, and the hypothesis goes to the list head |
| Coordinator.OnIdle | sudoku-mpi.c:291-319 | each tag and size selects one branch: take an offer, count a no-work reply, forward an exit, refuse a job request, or ignore |
| Coordinator.Tally | sudoku-mpi.c:308-318 | a branch's count (no_sol_count for no-work replies) never exceeds the number of messages read |
| Coordinator.TallyAll | sudoku-mpi.c:308-318 | the count equals the number of messages exactly when every message takes that branch |
| Coordinator.Receive | sudoku-mpi.c:291-326 | one message: an offer or an exit stops the spell, rank 0 stops when the no-work count reaches p-1, any other message keeps the loop asking with the counts updated |
| Coordinator.NextPeer | sudoku-mpi.c:271-274 | the index wrapped at p and stepped past the rank itself is the next peer in the request order |
| Coordinator.Idle | sudoku-mpi.c:265-329 | alone exactly when p == 1; asks peers in ring order skipping itself; stops at the first offer, the first exit, or (rank 0 only) the p-1-th no-work reply. Every earlier message was a no-work reply, a refused job request or ignored, rank 0 had fewer than p-1 no-work replies before the last one, and refused counts the job requests |

## Left out

- Message passing is not modelled as communication: `MPI_Send`, `MPI_Iprobe`, `MPI_Probe`, `MPI_Recv`, `MPI_Get_count`, `MPI_Barrier` and `MPI_Allreduce`. `Coordinator.Idle` takes the received messages as an input sequence. Donation and acceptance are modelled on their buffers.
- Coordinator.Idle: the messages are modelled as arriving in the given order, one per request. Which peer a message comes from is not modelled. Arbitrary interleavings across peers are not modelled either.
- Engine.SolvingSudoku: this is the serial loop. It leaves out the message handling inside the distributed search loop (`sudoku-mpi.c:165-206`). A donation there, which takes from the tail of the list while the search keeps `len`, is modelled separately; its effect on `len` is the second finding below.
- Coordinator.SolveRank: only the rank's own seeded roots are searched. Work received after going idle (`Coordinator.Idle`, then `Coordinator.AcceptOffer`, then the search again) and donations during the search are modelled as separate steps and are not chained into one run.
- Engine.SolvingSudoku, Engine.Descend, Driver.Solve, Coordinator.SolveRank: search completeness is not proved. A puzzle that has a solution is not shown to be reported solved; only soundness and "unchanged on failure" are proved.
- Driver.Solve, Engine.SolvingSudoku, Engine.Descend: their contracts assume the givens have no clash between them (through `Consistent`). With clashing givens the source may report a grid that still holds the clash.
- Driver.Solve: it requires at least one blank cell. With no blank cell the source reads an uninitialised `hyp.cell` and `last_pos`.
- Tracker.ExistsIn: the source stores `mask | bit` in an `int` before comparing. With boxes up to 5×5, all bits lie below 25, so that narrowing never changes a value. It is not modelled.
- Reading the puzzle file (`read_matrix`), printing it (`print_sudoku`), `main`, the timing code and `nr_iterations` are I/O or diagnostics and are not part of this model.
- The unused `new_mask` is not part of this model.
- `list.h` is not part of this model. The work list is a sequence with the head at index 0, which covers `insert_head`, `pop_head` and `pop_tail`.
- Coordinator.RingNext: only the destination of `send_ring` is modelled. The two-int body, sender then -1, is not.

## Findings

| source | as written | input that shows it | evidently intended | confidence | as-written member | corrected member |
|---|---|---|---|---|---|---|
| sudoku-serial.c:134-146 | the root hypotheses are never checked against `last_pos`. The pass scans only the cells after the root's cell. So when the first blank cell is also the last one, no pass reaches `last_pos`. | a 4×4 (r = 2) puzzle without clashes with exactly one blank cell, whose missing value fits: solve returns 0 | a single-blank puzzle is solved when one of its root values fits the cell | not executed | Driver.Solve, Driver.OneBlankSolvable | Driver.SolveFixed |
| sudoku-mpi.c:154-251 | `len` is taken after popping a root and is not lowered when a job request takes a root from the tail during the pass (`sudoku-mpi.c:188-191`) | a rank with roots R1 then R2 at the first blank c0 pops R1; the pass pushes A and B at a later cell; A is popped; a job request takes R2; A's pass pushes nothing, so the list length equals `len` and the exhaustion loop clears c0; B is popped as a root, and a solution found from B is reported with c0 still blank. Conversely, a root donated before the root's pass pushes anything keeps the test from firing, and the next root is popped without the is_safe_num check (`sudoku-mpi.c:159`), or the list is empty | lower `len` by one when a donated hypothesis is a root, so the test fires only when no hypothesis of the pass is left | not executed | Coordinator.DonationEndsPassEarly, Coordinator.DonationSkipsRootCheck | Coordinator.DonationKeepsSplit, Coordinator.LenAfterDonation |
| sudoku-mpi.c:341 | the clearing loop of `delete_from` starts at `i = v_size`, one past the last cell of `cp_sudoku` | any received offer: the first iteration reads `cp_sudoku[v_size]` | start at `v_size - 1`, as the serial unwind loop does | not executed | Tracker.ClearLoopAsWritten, Tracker.DeleteFromReadsPastEnd | Tracker.DeleteFrom |
