/** Site percolation on a square grid: the pure reachability definition that
    the flood fill of FloodFill.CheckPercolation is proved against, and the
    facts about it that the fill's documented behaviour rests on. */
module Reachability {

  /** A grid coordinate (row, column). */
  type Cell = (int, int)

  /** An occupancy grid: `g[r][c]` is true when the site is open. */
  type Grid = seq<seq<bool>>

  /** Every row has as many columns as the grid has rows (an L x L grid). */
  predicate IsSquare(g: Grid)
  {
    forall r :: 0 <= r < |g| ==> |g[r]| == |g|
  }

  predicate InBounds(n: int, x: Cell)
  {
    0 <= x.0 < n && 0 <= x.1 < n
  }

  /** The cell lies inside the grid and is open. */
  predicate Open(g: Grid, x: Cell)
  {
    0 <= x.0 < |g| && 0 <= x.1 < |g[x.0]| && g[x.0][x.1]
  }

  /** The four offsets the fill tries, in its order: up, down, left, right. */
  const Offsets: seq<Cell> := [(-1, 0), (1, 0), (0, -1), (0, 1)]

  function Neighbour(x: Cell, d: int): Cell
    requires 0 <= d < 4
  {
    (x.0 + Offsets[d].0, x.1 + Offsets[d].1)
  }

  /** 4-connectivity: the two cells differ by one in exactly one coordinate. */
  predicate Adjacent(a: Cell, b: Cell)
  {
    (a.0 == b.0 && (a.1 - b.1 == 1 || b.1 - a.1 == 1)) ||
    (a.1 == b.1 && (a.0 - b.0 == 1 || b.0 - a.0 == 1))
  }

  /** A wetting path: it starts in row 0, every cell on it is open, and each
      step moves to a 4-adjacent cell. Defined one step at a time, from the
      last cell back. */
  predicate IsPath(g: Grid, p: seq<Cell>)
    decreases |p|
  {
    |p| > 0 && Open(g, p[|p| - 1]) &&
    if |p| == 1 then p[0].0 == 0
    else IsPath(g, p[..|p| - 1]) && Adjacent(p[|p| - 2], p[|p| - 1])
  }

  /** The cell is wetted: some wetting path ends there. */
  ghost predicate Reachable(g: Grid, x: Cell)
  {
    exists p :: IsPath(g, p) && p[|p| - 1] == x
  }

  /** The grid percolates: some cell of the last row is wetted. */
  ghost predicate Percolates(g: Grid)
  {
    exists x: Cell :: x.0 == |g| - 1 && 0 <= x.1 < |g| && Reachable(g, x)
  }

  /** The four neighbours tried by the fill are exactly the 4-adjacent cells. */
  lemma AdjacentIsNeighbour(a: Cell, b: Cell) returns (d: int)
    requires Adjacent(a, b)
    ensures 0 <= d < 4 && Neighbour(a, d) == b
  {
    if b.0 == a.0 - 1 { d := 0; }
    else if b.0 == a.0 + 1 { d := 1; }
    else if b.1 == a.1 - 1 { d := 2; }
    else { d := 3; }
  }

  lemma NeighbourIsAdjacent(a: Cell, d: int)
    requires 0 <= d < 4
    ensures Adjacent(a, Neighbour(a, d))
  {
  }

  /** Only open cells are ever wetted. */
  lemma ReachableIsOpen(g: Grid, x: Cell)
    requires Reachable(g, x)
    ensures Open(g, x)
  {
  }

  /** Every open cell of the first row is wetted. */
  lemma TopRowReachable(g: Grid, c: int)
    requires Open(g, (0, c))
    ensures Reachable(g, (0, c))
  {
    var p := [(0, c)];
    assert IsPath(g, p);
  }

  /** Wetting spreads to every open 4-neighbour of a wetted cell. */
  lemma ReachableStep(g: Grid, x: Cell, y: Cell)
    requires Reachable(g, x) && Adjacent(x, y) && Open(g, y)
    ensures Reachable(g, y)
  {
    var p :| IsPath(g, p) && p[|p| - 1] == x;
    var q := p + [y];
    assert q[..|q| - 1] == p;
    assert IsPath(g, q);
  }

  /** The wetted cells form the least set that holds every open first-row cell
      and is closed under open 4-neighbours: any such set `w` already contains
      the end of every wetting path. */
  lemma {:induction false} ClosedSetContainsPath(g: Grid, w: set<Cell>, p: seq<Cell>)
    requires IsPath(g, p)
    requires forall c :: Open(g, (0, c)) ==> (0, c) in w
    requires forall x, y :: x in w && Adjacent(x, y) && Open(g, y) ==> y in w
    ensures p[|p| - 1] in w
    decreases |p|
  {
    if |p| == 1 {
      assert Open(g, (0, p[0].1));
    } else {
      var prefix := p[..|p| - 1];
      ClosedSetContainsPath(g, w, prefix);
      assert prefix[|prefix| - 1] == p[|p| - 2];
    }
  }

  /** A column whose first r+1 cells are all open carries water down to row r. */
  lemma {:induction false} ColumnReachable(g: Grid, r: int, c: int)
    requires 0 <= r
    requires forall i :: 0 <= i <= r ==> Open(g, (i, c))
    ensures Reachable(g, (r, c))
  {
    if r == 0 {
      TopRowReachable(g, c);
    } else {
      ColumnReachable(g, r - 1, c);
      ReachableStep(g, (r - 1, c), (r, c));
    }
  }

  /** A row of blocked sites stops the water: nothing at or below it is wetted. */
  lemma BlockedRowStopsFlow(g: Grid, k: int, x: Cell)
    requires 0 <= k < |g| && IsSquare(g)
    requires forall c :: 0 <= c < |g| ==> !g[k][c]
    requires Reachable(g, x)
    ensures x.0 < k
  {
    var p :| IsPath(g, p) && p[|p| - 1] == x;
    PathAboveBlockedRow(g, k, p);
  }

  lemma {:induction false} PathAboveBlockedRow(g: Grid, k: int, p: seq<Cell>)
    requires 0 <= k < |g| && IsSquare(g)
    requires forall c :: 0 <= c < |g| ==> !g[k][c]
    requires IsPath(g, p)
    ensures p[|p| - 1].0 < k
    decreases |p|
  {
    if |p| > 1 {
      var prefix := p[..|p| - 1];
      PathAboveBlockedRow(g, k, prefix);
      assert prefix[|prefix| - 1] == p[|p| - 2];
    }
  }

  /** Every wetting path starts at an open cell of the first row. */
  lemma {:induction false} PathStartsInTopRow(g: Grid, p: seq<Cell>)
    requires IsPath(g, p)
    ensures p[0].0 == 0 && Open(g, p[0])
    decreases |p|
  {
    if |p| > 1 {
      var prefix := p[..|p| - 1];
      PathStartsInTopRow(g, prefix);
      assert prefix[0] == p[0];
    }
  }

  /** With no open site in the first row nothing is wetted and the grid does
      not percolate. */
  lemma ClosedTopRowNothingFlows(g: Grid, x: Cell)
    requires |g| > 0
    requires forall c :: 0 <= c < |g[0]| ==> !g[0][c]
    ensures !Reachable(g, x) && !Percolates(g)
  {
    forall p: seq<Cell> | IsPath(g, p) ensures p[0].0 == 0 && Open(g, p[0]) {
      PathStartsInTopRow(g, p);
    }
  }

  /** In a fully open grid every cell is wetted and the grid percolates. */
  lemma FullyOpenAllFlows(g: Grid)
    requires IsSquare(g) && |g| > 0
    requires forall r, c :: 0 <= r < |g| && 0 <= c < |g| ==> g[r][c]
    ensures forall r, c :: 0 <= r < |g| && 0 <= c < |g| ==> Reachable(g, (r, c))
    ensures Percolates(g)
  {
    forall r, c | 0 <= r < |g| && 0 <= c < |g| ensures Reachable(g, (r, c)) {
      ColumnReachable(g, r, c);
    }
    assert Reachable(g, (|g| - 1, 0));
  }

  /** A 1 x 1 grid whose only site is open percolates: row 0 is the last row. */
  lemma SingleOpenCellPercolates(g: Grid)
    requires |g| == 1 && |g[0]| == 1 && g[0][0]
    ensures Percolates(g)
  {
    TopRowReachable(g, 0);
  }

  /** Rows 0..k-1 fully open and row k fully blocked: exactly the cells above
      row k are wetted, and the grid does not percolate. */
  lemma BlockedRowScenario(g: Grid, k: int)
    requires IsSquare(g) && 0 <= k < |g|
    requires forall r, c :: 0 <= r < k && 0 <= c < |g| ==> g[r][c]
    requires forall c :: 0 <= c < |g| ==> !g[k][c]
    ensures forall r, c :: 0 <= r < |g| && 0 <= c < |g| ==> (Reachable(g, (r, c)) <==> r < k)
    ensures !Percolates(g)
  {
    forall r, c | 0 <= r < |g| && 0 <= c < |g|
      ensures Reachable(g, (r, c)) <==> r < k
    {
      if r < k {
        ColumnReachable(g, r, c);
      } else if Reachable(g, (r, c)) {
        BlockedRowStopsFlow(g, k, (r, c));
      }
    }
  }

  /** A wetting path of `g` is one of every grid `h` that is open wherever
      `g` is. */
  lemma {:induction false} PathInOpenerGrid(g: Grid, h: Grid, p: seq<Cell>)
    requires forall x :: Open(g, x) ==> Open(h, x)
    requires IsPath(g, p)
    ensures IsPath(h, p)
    decreases |p|
  {
    if |p| > 1 {
      PathInOpenerGrid(g, h, p[..|p| - 1]);
    }
  }

  /** Opening more sites never removes water: every cell wetted in `g` is
      wetted in `h`, and if `g` percolates so does `h`. */
  lemma MoreOpenMoreFlow(g: Grid, h: Grid)
    requires |g| == |h|
    requires forall x :: Open(g, x) ==> Open(h, x)
    ensures forall x :: Reachable(g, x) ==> Reachable(h, x)
    ensures Percolates(g) ==> Percolates(h)
  {
    forall x | Reachable(g, x) ensures Reachable(h, x) {
      var p :| IsPath(g, p) && p[|p| - 1] == x;
      PathInOpenerGrid(g, h, p);
    }
  }
}
