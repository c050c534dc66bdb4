/** The connectivity check: a breadth-first flood fill from the open cells of
    the first row, over a visited mask, a flow mask and a FIFO frontier. The
    frontier is an append-only sequence with a read position `head`, so that
    `queue[head..]` is the part still waiting and `queue[..head]` the cells
    already taken out. */
module FloodFill {
  import opened Reachability

  /** No cell occurs twice. */
  predicate Distinct(q: seq<Cell>)
  {
    forall i, j :: 0 <= i < j < |q| ==> q[i] != q[j]
  }

  /** The k-th cell that joined the queue. It is `queue[k]` under a name of
      its own, so that the quantifiers over taken-out cells below are
      instantiated through `Taken` rather than through every `queue[k]`. */
  function Taken(queue: seq<Cell>, k: int): Cell
    requires 0 <= k < |queue|
  {
    queue[k]
  }

  /** Every tested neighbour of `x` that is open is already in the queue. */
  ghost predicate Expanded(grid: Grid, queue: seq<Cell>, x: Cell)
  {
    forall e :: 0 <= e < 4 ==> Open(grid, Neighbour(x, e)) ==> Neighbour(x, e) in queue
  }

  /** The state the fill keeps at every step: every queued cell is open,
      wetted and queued once; visited marks exactly the queued cells; and the
      flow mask equals the visited mask. */
  ghost predicate FillState(grid: Grid, visited: array2<bool>, flow: array2<bool>, queue: seq<Cell>)
    reads visited, flow
  {
    IsSquare(grid) &&
    visited.Length0 == |grid| && visited.Length1 == |grid| &&
    flow.Length0 == |grid| && flow.Length1 == |grid| &&
    Distinct(queue) &&
    (forall k :: 0 <= k < |queue| ==> Open(grid, queue[k]) && Reachable(grid, queue[k])) &&
    (forall r, c :: 0 <= r < |grid| && 0 <= c < |grid| ==>
       (visited[r, c] <==> (r, c) in queue) && flow[r, c] == visited[r, c])
  }

  // The cells of an h x w block, used to bound the length of the queue.

  ghost function Row(r: int, w: nat): set<Cell>
  {
    if w == 0 then {} else Row(r, w - 1) + {(r, w - 1)}
  }

  lemma {:induction false} RowSize(r: int, w: nat)
    ensures |Row(r, w)| == w
    ensures forall x :: x in Row(r, w) <==> x.0 == r && 0 <= x.1 < w
  {
    if w > 0 {
      RowSize(r, w - 1);
    }
  }

  ghost function Block(h: nat, w: nat): set<Cell>
  {
    if h == 0 then {} else Block(h - 1, w) + Row(h - 1, w)
  }

  lemma {:induction false} BlockMembers(h: nat, w: nat)
    ensures forall x :: x in Block(h, w) <==> 0 <= x.0 < h && 0 <= x.1 < w
  {
    if h > 0 {
      BlockMembers(h - 1, w);
      RowSize(h - 1, w);
    }
  }

  /** h rows of w cells, counted row by row. */
  function Area(h: nat, w: nat): nat
  {
    if h == 0 then 0 else Area(h - 1, w) + w
  }

  lemma {:induction false} AreaIsProduct(h: nat, w: nat)
    ensures Area(h, w) == h * w
  {
    if h > 0 {
      AreaIsProduct(h - 1, w);
      assert (h - 1) * w + w == h * w;
    }
  }

  lemma {:induction false} BlockSize(h: nat, w: nat)
    ensures |Block(h, w)| == Area(h, w)
  {
    if h > 0 {
      BlockSize(h - 1, w);
      DisjointRow(h - 1, w);
      RowSize(h - 1, w);
      var a, b := Block(h - 1, w), Row(h - 1, w);
      assert |a + b| == |a| + |b|;
    }
  }

  lemma DisjointRow(h: nat, w: nat)
    ensures Block(h, w) * Row(h, w) == {}
  {
    BlockMembers(h, w);
    RowSize(h, w);
    forall x | x in Row(h, w) ensures x !in Block(h, w) {
    }
  }

  /** A sequence without repetitions drawn from `s` is no longer than `s`. */
  lemma {:induction false} DistinctWithin(q: seq<Cell>, s: set<Cell>)
    requires Distinct(q)
    requires forall k :: 0 <= k < |q| ==> q[k] in s
    ensures |q| <= |s|
    decreases |q|
  {
    if |q| > 0 {
      var x := q[|q| - 1];
      DistinctWithin(q[..|q| - 1], s - {x});
    }
  }

  /** A queue in which no cell repeats holds at most Area(n, n) = n * n cells
      of an n x n grid. */
  lemma QueueBound(n: nat, q: seq<Cell>)
    requires Distinct(q)
    requires forall k :: 0 <= k < |q| ==> InBounds(n, q[k])
    ensures |q| <= Area(n, n)
  {
    BlockSize(n, n);
    BlockMembers(n, n);
    DistinctWithin(q, Block(n, n));
  }

  /** Marks the open, wetted, not yet queued cell `x` visited and flowing and
      appends it to the queue. */
  method Mark(grid: Grid, visited: array2<bool>, flow: array2<bool>, queue: seq<Cell>, x: Cell)
    returns (queue': seq<Cell>)
    requires visited != flow
    requires FillState(grid, visited, flow, queue)
    requires Open(grid, x) && Reachable(grid, x) && x !in queue
    modifies visited, flow
    ensures FillState(grid, visited, flow, queue')
    ensures queue' == queue + [x]
  {
    visited[x.0, x.1] := true;
    flow[x.0, x.1] := true;
    queue' := queue + [x];
  }

  /** One neighbour test of the fill: a cell inside the grid that is open and
      not yet visited is marked visited and flowing and joins the queue. */
  method Visit(grid: Grid, visited: array2<bool>, flow: array2<bool>, queue: seq<Cell>, nr: int, nc: int)
    returns (queue': seq<Cell>)
    requires visited != flow
    requires FillState(grid, visited, flow, queue)
    requires Open(grid, (nr, nc)) ==> Reachable(grid, (nr, nc))
    modifies visited, flow
    ensures FillState(grid, visited, flow, queue')
    ensures queue' == if Open(grid, (nr, nc)) && (nr, nc) !in queue then queue + [(nr, nc)] else queue
    ensures queue <= queue' && (Open(grid, (nr, nc)) ==> (nr, nc) in queue')
  {
    var n := |grid|;
    queue' := queue;
    if 0 <= nr < n && 0 <= nc < n {
      if grid[nr][nc] && !visited[nr, nc] {
        queue' := Mark(grid, visited, flow, queue, (nr, nc));
      }
    }
  }

  /** An open neighbour of a wetted cell is wetted. */
  lemma NeighbourReachable(grid: Grid, x: Cell, d: int)
    requires 0 <= d < 4 && Reachable(grid, x)
    ensures Open(grid, Neighbour(x, d)) ==> Reachable(grid, Neighbour(x, d))
  {
    if Open(grid, Neighbour(x, d)) {
      NeighbourIsAdjacent(x, d);
      ReachableStep(grid, x, Neighbour(x, d));
    }
  }

  /** Widening the queue keeps a cell expanded. */
  lemma ExpandedGrows(grid: Grid, queue: seq<Cell>, queue': seq<Cell>, x: Cell)
    requires queue <= queue'
    requires Expanded(grid, queue, x)
    ensures Expanded(grid, queue', x)
  {
    forall e | 0 <= e < 4 && Open(grid, Neighbour(x, e)) ensures Neighbour(x, e) in queue' {
      var k :| 0 <= k < |queue| && queue[k] == Neighbour(x, e);
      assert queue'[k] == queue[k];
    }
  }

  /** A queue that holds every open first-row cell and in which every cell is
      expanded holds every wetted cell. */
  lemma FillComplete(grid: Grid, queue: seq<Cell>)
    requires IsSquare(grid)
    requires forall c :: 0 <= c < |grid| && grid[0][c] ==> (0, c) in queue
    requires forall k :: 0 <= k < |queue| ==> Expanded(grid, queue, Taken(queue, k))
    ensures forall x :: Reachable(grid, x) ==> x in queue
  {
    var wet := set k | 0 <= k < |queue| :: queue[k];
    forall x, y | x in wet && Adjacent(x, y) && Open(grid, y) ensures y in wet {
      var k :| 0 <= k < |queue| && queue[k] == x;
      var d := AdjacentIsNeighbour(x, y);
      assert Expanded(grid, queue, Taken(queue, k));
    }
    forall x | Reachable(grid, x) ensures x in queue {
      var p :| IsPath(grid, p) && p[|p| - 1] == x;
      ClosedSetContainsPath(grid, wet, p);
    }
  }

  /** What the fill knows between iterations about the cells taken out of
      the queue (`queue[..head]`): each has all its open neighbours queued,
      and `percolates` says whether one of them lies in the last row. */
  ghost predicate Progress(grid: Grid, queue: seq<Cell>, head: int, percolates: bool)
  {
    IsSquare(grid) &&
    0 <= head <= |queue| <= Area(|grid|, |grid|) &&
    (forall c :: 0 <= c < |grid| && grid[0][c] ==> (0, c) in queue) &&
    (forall k :: 0 <= k < head ==> Expanded(grid, queue, Taken(queue, k))) &&
    (percolates <==> exists k :: 0 <= k < head && queue[k].0 == |grid| - 1)
  }

  /** One iteration of the main loop keeps Progress: the dequeued cell
      `queue[head]` is expanded, and the flag records whether it lies in the
      last row. */
  lemma ProgressStep(grid: Grid, before: seq<Cell>, queue: seq<Cell>, head: int, percolates: bool)
    requires Progress(grid, before, head, percolates) && head < |before|
    requires before <= queue && |queue| <= Area(|grid|, |grid|)
    requires Expanded(grid, queue, before[head])
    ensures Progress(grid, queue, head + 1, percolates || before[head].0 == |grid| - 1)
  {
    ExpandedStep(grid, before, queue, head);
    FlagStep(before, queue, head, |grid| - 1);
  }

  lemma ExpandedStep(grid: Grid, before: seq<Cell>, queue: seq<Cell>, head: int)
    requires 0 <= head < |before| && before <= queue
    requires forall k :: 0 <= k < head ==> Expanded(grid, before, Taken(before, k))
    requires Expanded(grid, queue, before[head])
    ensures forall k :: 0 <= k <= head ==> Expanded(grid, queue, Taken(queue, k))
  {
    forall k | 0 <= k <= head ensures Expanded(grid, queue, Taken(queue, k)) {
      assert Taken(queue, k) == before[k];
      if k < head {
        assert Expanded(grid, before, Taken(before, k));
        ExpandedGrows(grid, before, queue, before[k]);
      }
    }
  }

  lemma FlagStep(before: seq<Cell>, queue: seq<Cell>, head: int, last: int)
    requires 0 <= head < |before| && before <= queue
    ensures (exists k :: 0 <= k <= head && queue[k].0 == last) <==>
            (exists k :: 0 <= k < head && before[k].0 == last) || before[head].0 == last
  {
    assert forall k :: 0 <= k <= head ==> queue[k] == before[k];
  }

  /** What the finished fill returns: the flow mask is the set of wetted
      cells and the flag says whether any of them lies in the last row. */
  lemma FillResult(grid: Grid, visited: array2<bool>, flow: array2<bool>, queue: seq<Cell>, percolates: bool)
    requires FillState(grid, visited, flow, queue)
    requires forall c :: 0 <= c < |grid| && grid[0][c] ==> (0, c) in queue
    requires forall k :: 0 <= k < |queue| ==> Expanded(grid, queue, Taken(queue, k))
    requires percolates <==> exists k :: 0 <= k < |queue| && queue[k].0 == |grid| - 1
    ensures forall r, c :: 0 <= r < |grid| && 0 <= c < |grid| ==> (flow[r, c] ==> grid[r][c])
    ensures forall r, c :: 0 <= r < |grid| && 0 <= c < |grid| ==> (flow[r, c] <==> Reachable(grid, (r, c)))
    ensures percolates <==> exists r, c :: r == |grid| - 1 && 0 <= c < |grid| && flow[r, c]
    ensures percolates <==> Percolates(grid)
  {
    var n := |grid|;
    FillComplete(grid, queue);
    assert forall r, c :: 0 <= r < n && 0 <= c < n ==> (flow[r, c] <==> (r, c) in queue);
    if percolates {
      var k :| 0 <= k < |queue| && queue[k].0 == n - 1;
      assert flow[n - 1, queue[k].1];
    }
  }

  /** The seeds of the fill: the open cells among the first n cells of row 0,
      in column order. */
  function Seeds(grid: Grid, n: nat): seq<Cell>
    requires IsSquare(grid) && n <= |grid|
  {
    if n == 0 then [] else Seeds(grid, n - 1) + (if grid[0][n - 1] then [(0, n - 1)] else [])
  }

  /** The seeds are exactly the open cells among the first n of row 0, each
      once, in increasing column order. */
  lemma {:induction false} SeedsAreTopRow(grid: Grid, n: nat)
    requires IsSquare(grid) && n <= |grid|
    ensures forall k :: 0 <= k < |Seeds(grid, n)| ==> Seeds(grid, n)[k].0 == 0 && 0 <= Seeds(grid, n)[k].1 < n
    ensures forall i, j :: 0 <= i < j < |Seeds(grid, n)| ==> Seeds(grid, n)[i].1 < Seeds(grid, n)[j].1
    ensures forall c :: 0 <= c < n ==> ((0, c) in Seeds(grid, n) <==> grid[0][c])
  {
    if n > 0 {
      SeedsAreTopRow(grid, n - 1);
      var s := Seeds(grid, n - 1);
      assert forall k :: 0 <= k < |s| ==> Seeds(grid, n)[k] == s[k];
      assert (0, n - 1) !in s;
    }
  }

  /** Lines 15-25 of the fill: fresh all-false flow and visited masks, and a
      queue holding every open cell of row 0, each marked visited and
      flowing. */
  method StartFill(grid: Grid) returns (visited: array2<bool>, flow: array2<bool>, queue: seq<Cell>)
    requires IsSquare(grid)
    ensures fresh(visited) && fresh(flow) && visited != flow
    ensures FillState(grid, visited, flow, queue)
    ensures queue == Seeds(grid, |grid|)
    ensures Progress(grid, queue, 0, false)
  {
    var n := |grid|;
    flow := new bool[n, n]((_, _) => false);
    visited := new bool[n, n]((_, _) => false);
    queue := SeedTopRow(grid, visited, flow);
    QueueBound(n, queue);
  }

  /** Lines 20-25: every open cell of row 0 enters the queue, in column order. */
  method SeedTopRow(grid: Grid, visited: array2<bool>, flow: array2<bool>) returns (queue: seq<Cell>)
    requires visited != flow
    requires FillState(grid, visited, flow, [])
    modifies visited, flow
    ensures FillState(grid, visited, flow, queue)
    ensures queue == Seeds(grid, |grid|)
    ensures forall k :: 0 <= k < |queue| ==> queue[k].0 == 0
    ensures forall i, j :: 0 <= i < j < |queue| ==> queue[i].1 < queue[j].1
    ensures forall c :: 0 <= c < |grid| && grid[0][c] ==> (0, c) in queue
  {
    queue := [];
    for col := 0 to |grid|
      invariant FillState(grid, visited, flow, queue)
      invariant queue == Seeds(grid, col)
    {
      queue := SeedColumn(grid, visited, flow, queue, col);
    }
    SeedsAreTopRow(grid, |grid|);
  }

  /** Lines 22-25, one column: an open cell of row 0 is marked and queued. */
  method SeedColumn(grid: Grid, visited: array2<bool>, flow: array2<bool>, queue: seq<Cell>, col: nat)
    returns (queue': seq<Cell>)
    requires visited != flow
    requires FillState(grid, visited, flow, queue)
    requires col < |grid| && queue == Seeds(grid, col)
    modifies visited, flow
    ensures FillState(grid, visited, flow, queue')
    ensures queue' == Seeds(grid, col + 1)
  {
    queue' := queue;
    if grid[0][col] {
      SeedsAreTopRow(grid, col);
      TopRowReachable(grid, col);
      queue' := Mark(grid, visited, flow, queue, (0, col));
    }
  }

  /** The queue after the first d neighbour tests of the dequeued cell x, in
      the fill's order up, down, left, right: each open neighbour not yet in
      the queue is appended. */
  function Expansion(grid: Grid, queue: seq<Cell>, x: Cell, d: nat): seq<Cell>
    requires d <= 4
  {
    if d == 0 then queue
    else
      var q := Expansion(grid, queue, x, d - 1);
      var y := Neighbour(x, d - 1);
      if Open(grid, y) && y !in q then q + [y] else q
  }

  /** The first d neighbour tests only append, every appended cell is an open
      4-neighbour of x that was not queued before, and every open one of the
      tested neighbours ends up queued. */
  lemma {:induction false} ExpansionIsNeighbours(grid: Grid, queue: seq<Cell>, x: Cell, d: nat)
    requires d <= 4
    ensures queue <= Expansion(grid, queue, x, d)
    ensures forall k :: |queue| <= k < |Expansion(grid, queue, x, d)| ==>
              Adjacent(x, Expansion(grid, queue, x, d)[k]) && Open(grid, Expansion(grid, queue, x, d)[k]) &&
              Expansion(grid, queue, x, d)[k] !in queue
    ensures forall e :: 0 <= e < d && Open(grid, Neighbour(x, e)) ==> Neighbour(x, e) in Expansion(grid, queue, x, d)
  {
    if d > 0 {
      ExpansionIsNeighbours(grid, queue, x, d - 1);
      var q := Expansion(grid, queue, x, d - 1);
      NeighbourIsAdjacent(x, d - 1);
      assert forall k :: 0 <= k < |q| ==> Expansion(grid, queue, x, d)[k] == q[k];
    }
  }

  /** Lines 37-48 of the fill: each of the four neighbours of the dequeued,
      wetted cell `x` is tested, in the order up, down, left, right. */
  method ExpandCell(grid: Grid, visited: array2<bool>, flow: array2<bool>, queue: seq<Cell>, x: Cell)
    returns (queue': seq<Cell>)
    requires visited != flow
    requires FillState(grid, visited, flow, queue)
    requires Reachable(grid, x)
    modifies visited, flow
    ensures FillState(grid, visited, flow, queue')
    ensures queue' == Expansion(grid, queue, x, 4)
    ensures queue <= queue' && |queue'| <= Area(|grid|, |grid|)
    ensures forall k :: |queue| <= k < |queue'| ==> Adjacent(x, queue'[k])
    ensures Expanded(grid, queue', x)
  {
    queue' := queue;
    for d := 0 to 4
      invariant FillState(grid, visited, flow, queue')
      invariant queue' == Expansion(grid, queue, x, d)
    {
      var y := Neighbour(x, d);
      NeighbourReachable(grid, x, d);
      queue' := Visit(grid, visited, flow, queue', y.0, y.1);
    }
    ExpansionIsNeighbours(grid, queue, x, 4);
    QueueBound(|grid|, queue');
  }

  /** Lines 27-48 of the fill: the main loop. It takes the next cell out of
      the frontier, records percolation when that cell lies in the last row,
      and expands it; it stops when the frontier is empty, never earlier. */
  method Drain(grid: Grid, visited: array2<bool>, flow: array2<bool>, seeded: seq<Cell>)
    returns (queue: seq<Cell>, percolates: bool)
    requires visited != flow
    requires FillState(grid, visited, flow, seeded) && Progress(grid, seeded, 0, false)
    modifies visited, flow
    ensures FillState(grid, visited, flow, queue) && Progress(grid, queue, |queue|, percolates)
  {
    var n := |grid|;
    queue := seeded;
    percolates := false;
    var head := 0;
    while head < |queue|
      invariant FillState(grid, visited, flow, queue)
      invariant Progress(grid, queue, head, percolates)
      decreases Area(n, n) - head
    {
      ghost var before, taken, wasPercolating := queue, head, percolates;
      var x := queue[head];
      head := head + 1;
      if x.0 == n - 1 {
        percolates := true;
      }
      queue := ExpandCell(grid, visited, flow, queue, x);
      ProgressStep(grid, before, queue, taken, wasPercolating);
    }
  }

  /** The percolation check. `flow` is the wetted region, `percolates` says
      whether it touches the last row, and the ghost `order` is the sequence
      of cells the loop takes out of the frontier, one per iteration. The
      bound of at most L * L iterations is carried by Drain: its loop
      decreases `Area(n, n) - head`, and Progress keeps the queue within
      `Area(n, n)` cells. */
  method CheckPercolation(grid: Grid) returns (percolates: bool, flow: array2<bool>, ghost order: seq<Cell>)
    requires IsSquare(grid)
    ensures flow.Length0 == |grid| && flow.Length1 == |grid|
    ensures forall r, c :: 0 <= r < |grid| && 0 <= c < |grid| ==> (flow[r, c] ==> grid[r][c])
    ensures forall r, c :: 0 <= r < |grid| && 0 <= c < |grid| ==> (flow[r, c] <==> Reachable(grid, (r, c)))
    ensures percolates <==> exists r, c :: r == |grid| - 1 && 0 <= c < |grid| && flow[r, c]
    ensures percolates <==> Percolates(grid)
    ensures Distinct(order) && |order| <= |grid| * |grid|
    ensures forall r, c :: 0 <= r < |grid| && 0 <= c < |grid| ==> (flow[r, c] <==> (r, c) in order)
  {
    var visited, queue;
    visited, flow, queue := StartFill(grid);
    queue, percolates := Drain(grid, visited, flow, queue);
    order := queue;
    FillResult(grid, visited, flow, queue, percolates);
    AreaIsProduct(|grid|, |grid|);
  }
}
