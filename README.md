# Monte Carlo site percolation: a verified model

The program estimates the percolation probability theta(p) of site
percolation on an L x L square grid.

- **One trial.** Each site is open with probability p. A breadth-first flood
  fill (`verifica_percolatie`) then lets water in through the open sites of
  the first row. The fill spreads the water to open 4-neighbours, records
  the wetted sites in a flow mask, and reports whether any wetted site lies
  in the last row.
- **The study.** The study loop (`ruleaza_studiu_monte_carlo`) runs N_sim
  trials at every probability of a sweep. For each probability, in order,
  it records the fraction of trials that percolate.

The model has three modules.

- `Reachability` (`reachability.dfy`) defines, apart from any algorithm,
  what it means for a site to be wetted.
  - A *wetting path* of open, 4-adjacent sites starts in row 0. A site is
    wetted when a wetting path ends there, and the grid percolates when a
    site of its last row is wetted.
  - It proves the facts the fill rests on: only open sites are wetted,
    wetting spreads to open neighbours, and the wetted set is the least set
    closed under that spreading.
  - It proves the documented scenarios as lemmas: a blocked first row, a
    fully open grid, a single open site, and a blocked row under open rows.
  - It also proves monotonicity: opening more sites never removes water.
- `FloodFill` (`flood_fill.dfy`) is the fill itself, written imperatively.
  - The `visited` and `flow` masks are `array2<bool>` updated in place.
  - The Python list the fill appends to and pops from the front of is an
    append-only sequence with a read position `head`.
  - The loops keep the fill's invariant: every queued cell is open, wetted
    and queued once; `visited` marks exactly the queued cells; and `flow`
    equals `visited`.
  - `CheckPercolation` is proved against `Reachability`. The flow mask is
    exactly the set of wetted sites. The flag holds exactly when some
    last-row site of the mask is set, which happens exactly when the grid
    percolates. No cell is queued twice, so the main loop runs at most
    L * L times. `Drain` proves this bound: its loop decreases
    `Area(L, L) - head`, and its invariant keeps the queue within
    `Area(L, L)` = L * L cells.
- `MonteCarlo` (`monte_carlo.dfy`) is the study loop.
  - The uniform draws of line 13 are inputs: one L x L table per trial and
    per probability. `DrawGrid` turns a table into a grid: a site is open
    when its draw is below p. `RunStudy` runs the flood fill on each trial's
    grid and counts the percolating trials.
  - It produces one estimate per probability, in sweep order. Each estimate
    is the exact pair (successes, N_sim), with 0 <= successes <= N_sim.
  - Lemmas show the following:
    - the count is the number of `true` outcomes and does not depend on the
      order of the trials;
    - two batches of trials add up;
    - with draws in [0, 1) and L > 0, p = 0 gives 0 successes and p = 1
      gives N_sim;
    - on the same draws, the count never decreases as p grows. This is the
      coupled form of the monotonicity of theta(p).

Assumptions about the inputs:

- **No validation of L.** `verifica_percolatie` does not validate L. For
  L = 0 its loops do not run and it returns false. The model accepts the
  empty grid too, and it never percolates there.
- **Grid shape.** The grid is an input of `CheckPercolation`, not drawn
  inside it. So the model requires it to be square, which the drawing at
  line 13 makes it in the source.
- **N_sim must be positive.** `RunStudy` requires N_sim > 0, because line
  102 divides by it.

## Model

| member | source | states |
|---|---|---|
| Reachability.AdjacentIsNeighbour | main.py:38-41 | the four offsets tried by the fill reach every 4-adjacent cell |
| Reachability.ReachableIsOpen | main.py:44-47 | only open sites are ever wetted |
| Reachability.TopRowReachable | main.py:21-25 | every open site of row 0 is wetted (the seeds of the fill) |
| Reachability.ReachableStep | main.py:40-48 | water spreads from a wetted site to every open 4-neighbour |
| Reachability.ClosedSetContainsPath | main.py:30-48 | any set holding the open row-0 sites and closed under open neighbours holds every wetted site (the flood fill cannot stop early) |
| Reachability.PathStartsInTopRow | main.py:20-25 | every wetting path starts at an open site of row 0 |
| Reachability.ColumnReachable | main.py:40-48 | a column open from row 0 down to row r carries water to row r |
| Reachability.BlockedRowStopsFlow | main.py:44-48 | a fully blocked row k stops the water: every wetted site lies above row k |
| Reachability.PathAboveBlockedRow | main.py:44-48 | every wetting path stays above a fully blocked row |
| Reachability.ClosedTopRowNothingFlows | main.py:20-35 | with row 0 fully blocked no site is wetted and the grid does not percolate (empty mask, false) |
| Reachability.FullyOpenAllFlows | main.py:14-50 | in a fully open grid every site is wetted and the grid percolates (full mask, true) |
| Reachability.SingleOpenCellPercolates | main.py:30-35 | an open 1 x 1 grid percolates: its row 0 is also its last row |
| Reachability.BlockedRowScenario | main.py:14-50 | rows above k open and row k blocked: a site is wetted exactly when it lies above row k, and the grid does not percolate |
| Reachability.PathInOpenerGrid | main.py:40-48 | a wetting path stays one when more sites are opened |
| Reachability.MoreOpenMoreFlow | main.py:14-50 | opening more sites keeps every wetted site wetted and keeps percolation |
| FloodFill.QueueBound | main.py:30-48 | a queue in which no cell repeats holds at most L * L cells of the grid |
| FloodFill.Mark | main.py:46-48 | marks the cell visited and flowing and appends it, keeping the fill invariant |
| FloodFill.Visit | main.py:41-48 | a neighbour inside the grid, open and not yet visited joins the queue; otherwise the queue is unchanged; the invariant is kept |
| FloodFill.NeighbourReachable | main.py:40-48 | an open neighbour of a wetted cell is wetted, so every appended cell is wetted |
| FloodFill.SeedTopRow | main.py:20-25 | the queue is exactly the seeds: the open cells of row 0, each once, in column order; they are visited and flowing and nothing else is (the fill invariant) |
| FloodFill.SeedColumn | main.py:21-25 | one column of the seeding loop: the queue grows from the seeds of the first col columns to those of the first col+1, keeping the fill invariant |
| FloodFill.SeedsAreTopRow | main.py:21-25 | the seeds are row-0 cells in strictly increasing column order, and a row-0 cell is a seed exactly when it is open |
| FloodFill.StartFill | main.py:15-27 | two new, distinct L x L masks; the queue is exactly the seeds (the open row-0 cells in column order) and the masks mark exactly those cells; nothing has been taken out of the queue yet |
| FloodFill.ExpandCell | main.py:37-48 | the new queue is exactly the old one followed by the open, not yet visited neighbours of the cell in the order up, down, left, right; each appended cell is 4-adjacent to it; every open neighbour is now queued; the masks mark exactly the queue; at most L * L cells |
| FloodFill.ExpansionIsNeighbours | main.py:40-48 | the neighbour tests only append; each appended cell is an open 4-neighbour that was not queued before; every open tested neighbour ends up queued |
| FloodFill.ExpandedGrows | main.py:37-48 | a cell whose open neighbours are queued stays so as the queue grows |
| FloodFill.ProgressStep | main.py:30-48 | one iteration of the main loop keeps its invariant: the taken-out cells are expanded, and the flag says whether one of them lies in the last row |
| FloodFill.FlagStep | main.py:33-35 | the flag after an iteration is the old flag or the dequeued cell lying in row L-1 |
| FloodFill.Drain | main.py:27-48 | when the frontier runs empty every queued cell has been expanded, and the flag says whether one of them lies in the last row |
| FloodFill.FillComplete | main.py:30-48 | a queue holding the open row-0 cells and in which every cell is expanded holds every wetted site |
| FloodFill.FillResult | main.py:30-50 | at the end the flow mask is exactly the wetted set and lies within the open sites, and the flag is true exactly when a last-row site of the mask is set and exactly when the grid percolates |
| FloodFill.CheckPercolation | main.py:14-50 | the flow mask is L x L; it equals the set of wetted sites and implies the grid; the flag holds exactly when some last-row site of the mask is set, and exactly when the grid percolates; no cell is taken from the queue twice, so at most L * L loop iterations; the mask equals the set of dequeued cells |
| MonteCarlo.DrawGrid | main.py:13 | a site is open exactly when its draw is below p (monotone in p: DrawGridMonotone; ends of the sweep: SweepEnds) |
| MonteCarlo.Trials | main.py:97-98 | the grids of one probability's trials, one per draw table |
| MonteCarlo.Outcomes | main.py:98-99 | trial t succeeds exactly when its grid percolates |
| MonteCarlo.CountTrue | main.py:96-100 | the success count never exceeds the number of trials |
| MonteCarlo.CountTrueIsMultiplicity | main.py:96-100 | the success count is the number of `true` outcomes |
| MonteCarlo.CountTrueAppend | main.py:96-100 | counting over two batches of trials adds the batch counts |
| MonteCarlo.CountTrueOrderFree | main.py:96-100 | the count does not depend on the order of the outcomes |
| MonteCarlo.CountTrueExtremes | main.py:96-100 | all outcomes true gives N_sim; none gives 0 |
| MonteCarlo.CountTrueMonotone | main.py:96-100 | outcomes that are true wherever another batch's are give a count at least as large |
| MonteCarlo.ExtremeProbabilities | main.py:95-103 | trials on fully open grids all succeed; trials whose first row is blocked all fail |
| MonteCarlo.DrawGridMonotone | main.py:13 | on the same draws, a larger p opens every site a smaller p opens |
| MonteCarlo.StudyMonotone | main.py:95-103 | on the same draws, the success count at q >= p is at least the count at p |
| MonteCarlo.SweepEnds | main.py:95-103 | with draws in [0, 1) and L > 0, the count is 0 at p = 0 and N_sim at p = 1 |
| MonteCarlo.RunStudy | main.py:95-103 | one estimate per probability, in order; each is (number of percolating trials among that probability's N_sim trials, N_sim), with 0 <= successes <= N_sim |

## Left out

- Random number generation (line 13): `np.random.rand` is replaced by input
  tables of draws, so the model has no sampling distribution and no
  independence of draws. The threshold `draw < p` is modelled in
  `DrawGrid`.
- Floating point: draws and probabilities are `real`, and the estimate
  `success_count / N_sim` (line 102) is kept as the exact pair (successes,
  N_sim) rather than a rounded float.
- `calculeaza_n_hoeffding` (lines 54-61): a floating-point logarithm and
  ceiling. It is also unused, since `N_sim` is fixed at line 75.
- The construction of the sweep (lines 83-88: `linspace`, `unique`,
  `sort`): the probabilities are an input sequence of `RunStudy`.
- Printing and wall-clock timing (lines 77-79, 91, 93, 105-108), plotting
  (lines 113-153) and the `__main__` block (lines 155-164): output only.
- The statistical guarantee (Hoeffding's bound on the estimation error) is
  probabilistic and is not stated.
- FloodFill.CheckPercolation: does not state that the returned flow mask is
  newly allocated (main.py:16 creates it new). The only caller in the model,
  `RunStudy`, reads just the flag, so nothing depends on the mask being
  new. The method also does not return the grid: the grid is the caller's
  own input, so returning it unchanged (line 50) adds nothing.
- FloodFill.CheckPercolation: the order of dequeued cells is returned as a
  ghost value, for stating the iteration bound; the source does not return
  it.
