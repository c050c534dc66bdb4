/** The Monte Carlo study: for each occupation probability of the sweep,
    N_sim trials are checked for percolation and the successes are counted.
    The uniform random draws are inputs here (`draws[i][t]` is the L x L
    table of draws of trial t at the i-th probability), and each estimate is
    kept as the exact pair (successes, trials) instead of a floating-point
    quotient. */
module MonteCarlo {
  import opened Reachability
  import FloodFill

  /** The estimated percolation probability successes / trials. */
  datatype Estimate = Estimate(successes: nat, trials: nat)

  /** The estimate is a probability: a fraction in [0, 1] with a positive
      denominator. */
  predicate IsProbability(e: Estimate)
  {
    0 < e.trials && e.successes <= e.trials
  }

  /** The number of successful trials among the outcomes. */
  function CountTrue(s: seq<bool>): (r: nat)
    ensures r <= |s|
  {
    if s == [] then 0 else CountTrue(s[..|s| - 1]) + (if s[|s| - 1] then 1 else 0)
  }

  /** The outcome of each trial: whether its grid percolates. */
  ghost function Outcomes(grids: seq<Grid>): (r: seq<bool>)
    ensures |r| == |grids|
    ensures forall t :: 0 <= t < |grids| ==> (r[t] <==> Percolates(grids[t]))
  {
    seq(|grids|, t requires 0 <= t < |grids| => Percolates(grids[t]))
  }

  /** The success count is the multiplicity of `true` among the outcomes. */
  lemma {:induction false} CountTrueIsMultiplicity(s: seq<bool>)
    ensures CountTrue(s) == multiset(s)[true]
  {
    if s != [] {
      var init := s[..|s| - 1];
      CountTrueIsMultiplicity(init);
      assert s == init + [s[|s| - 1]];
      assert multiset(s) == multiset(init) + multiset{s[|s| - 1]};
    }
  }

  /** The count is a sum over the trials: splitting the trials into two
      batches and adding the batch counts gives the same total. */
  lemma {:induction false} CountTrueAppend(a: seq<bool>, b: seq<bool>)
    ensures CountTrue(a + b) == CountTrue(a) + CountTrue(b)
    decreases |b|
  {
    if b != [] {
      var init := b[..|b| - 1];
      CountTrueAppend(a, init);
      assert (a + b)[..|a + b| - 1] == a + init;
      assert (a + b)[|a + b| - 1] == b[|b| - 1];
    } else {
      assert a + b == a;
    }
  }

  /** The count does not depend on the order in which trials complete. */
  lemma CountTrueOrderFree(a: seq<bool>, b: seq<bool>)
    requires multiset(a) == multiset(b)
    ensures CountTrue(a) == CountTrue(b)
  {
    CountTrueIsMultiplicity(a);
    CountTrueIsMultiplicity(b);
  }

  /** Every trial succeeding gives the estimate 1 / 1, none gives 0. */
  lemma {:induction false} CountTrueExtremes(s: seq<bool>)
    ensures (forall t :: 0 <= t < |s| ==> s[t]) ==> CountTrue(s) == |s|
    ensures (forall t :: 0 <= t < |s| ==> !s[t]) ==> CountTrue(s) == 0
  {
    if s != [] {
      var init := s[..|s| - 1];
      CountTrueExtremes(init);
      assert forall t :: 0 <= t < |init| ==> init[t] == s[t];
    }
  }

  /** Trials whose grids are all fully open all percolate (occupation
      probability 1); trials whose grids have a blocked first row never do
      (in particular occupation probability 0). */
  lemma ExtremeProbabilities(grids: seq<Grid>)
    requires forall t :: 0 <= t < |grids| ==> IsSquare(grids[t]) && |grids[t]| > 0
    ensures (forall t, r, c :: 0 <= t < |grids| && 0 <= r < |grids[t]| && 0 <= c < |grids[t][r]| ==> grids[t][r][c])
            ==> CountTrue(Outcomes(grids)) == |grids|
    ensures (forall t, c :: 0 <= t < |grids| && 0 <= c < |grids[t][0]| ==> !grids[t][0][c])
            ==> CountTrue(Outcomes(grids)) == 0
  {
    var o := Outcomes(grids);
    if forall t, r, c :: 0 <= t < |grids| && 0 <= r < |grids[t]| && 0 <= c < |grids[t][r]| ==> grids[t][r][c] {
      forall t | 0 <= t < |grids| ensures o[t] {
        FullyOpenAllFlows(grids[t]);
      }
    }
    if forall t, c :: 0 <= t < |grids| && 0 <= c < |grids[t][0]| ==> !grids[t][0][c] {
      forall t | 0 <= t < |grids| ensures !o[t] {
        ClosedTopRowNothingFlows(grids[t], (0, 0));
      }
    }
    CountTrueExtremes(o);
  }

  /** An n x n table of draws, one per site. */
  predicate IsTable(u: seq<seq<real>>, n: nat)
  {
    |u| == n && forall r :: 0 <= r < n ==> |u[r]| == n
  }

  /** The grid of one trial (line 13): a site is open when its uniform draw
      is below the occupation probability p. */
  function DrawGrid(u: seq<seq<real>>, p: real): (g: Grid)
    ensures |g| == |u|
    ensures forall r :: 0 <= r < |u| ==> |g[r]| == |u[r]|
    ensures forall r, c :: 0 <= r < |u| && 0 <= c < |u[r]| ==> (g[r][c] <==> u[r][c] < p)
  {
    seq(|u|, r requires 0 <= r < |u| => seq(|u[r]|, c requires 0 <= c < |u[r]| => u[r][c] < p))
  }

  /** The grids of a batch of trials at occupation probability p. */
  function Trials(us: seq<seq<seq<real>>>, p: real): (gs: seq<Grid>)
    ensures |gs| == |us|
    ensures forall t :: 0 <= t < |us| ==> gs[t] == DrawGrid(us[t], p)
  {
    seq(|us|, t requires 0 <= t < |us| => DrawGrid(us[t], p))
  }

  /** On the same draws, a larger p opens every site a smaller p opens. */
  lemma DrawGridMonotone(u: seq<seq<real>>, p: real, q: real)
    requires p <= q
    ensures forall x :: Open(DrawGrid(u, p), x) ==> Open(DrawGrid(u, q), x)
  {
    forall x | Open(DrawGrid(u, p), x) ensures Open(DrawGrid(u, q), x) {
      assert u[x.0][x.1] < p;
    }
  }

  /** More successful trials, trial by trial, give a count at least as large. */
  lemma {:induction false} CountTrueMonotone(a: seq<bool>, b: seq<bool>)
    requires |a| == |b|
    requires forall t :: 0 <= t < |a| ==> a[t] ==> b[t]
    ensures CountTrue(a) <= CountTrue(b)
  {
    if a != [] {
      CountTrueMonotone(a[..|a| - 1], b[..|b| - 1]);
    }
  }

  /** The estimate grows with p: run on the same draws, the batch at q >= p
      has at least as many percolating trials as the batch at p. */
  lemma StudyMonotone(us: seq<seq<seq<real>>>, p: real, q: real)
    requires p <= q
    ensures CountTrue(Outcomes(Trials(us, p))) <= CountTrue(Outcomes(Trials(us, q)))
  {
    var a, b := Outcomes(Trials(us, p)), Outcomes(Trials(us, q));
    forall t | 0 <= t < |us| ensures a[t] ==> b[t] {
      DrawGridMonotone(us[t], p, q);
      MoreOpenMoreFlow(DrawGrid(us[t], p), DrawGrid(us[t], q));
    }
    CountTrueMonotone(a, b);
  }

  /** The two ends of the sweep: with uniform draws in [0, 1), no trial at
      p = 0 percolates and every trial at p = 1 does, on non-empty grids. */
  lemma SweepEnds(us: seq<seq<seq<real>>>, n: nat)
    requires n > 0
    requires forall t :: 0 <= t < |us| ==> IsTable(us[t], n)
    requires forall t, r, c :: 0 <= t < |us| && 0 <= r < |us[t]| && 0 <= c < |us[t][r]| ==> 0.0 <= us[t][r][c] < 1.0
    ensures CountTrue(Outcomes(Trials(us, 0.0))) == 0
    ensures CountTrue(Outcomes(Trials(us, 1.0))) == |us|
  {
    ExtremeProbabilities(Trials(us, 0.0));
    ExtremeProbabilities(Trials(us, 1.0));
  }

  /** The study loop (lines 95-103): for each probability of the sweep, in
      order, run the N_sim trials through the percolation check, count the
      successes, and emit one estimate. */
  method RunStudy(n: nat, pValues: seq<real>, draws: seq<seq<seq<seq<real>>>>, nSim: nat)
    returns (results: seq<Estimate>)
    requires nSim > 0
    requires |draws| == |pValues|
    requires forall i :: 0 <= i < |draws| ==> |draws[i]| == nSim
    requires forall i, t :: 0 <= i < |draws| && 0 <= t < |draws[i]| ==> IsTable(draws[i][t], n)
    ensures |results| == |pValues|
    ensures forall i :: 0 <= i < |pValues| ==>
              results[i] == Estimate(CountTrue(Outcomes(Trials(draws[i], pValues[i]))), nSim)
    ensures forall i :: 0 <= i < |pValues| ==> IsProbability(results[i])
  {
    results := [];
    for i := 0 to |pValues|
      invariant |results| == i
      invariant forall j :: 0 <= j < i ==>
                  results[j] == Estimate(CountTrue(Outcomes(Trials(draws[j], pValues[j]))), nSim)
    {
      var p := pValues[i];
      var successCount := 0;
      for t := 0 to nSim
        invariant successCount == CountTrue(Outcomes(Trials(draws[i][..t], p)))
      {
        var grid := DrawGrid(draws[i][t], p);
        var percolates, _, _ := FloodFill.CheckPercolation(grid);
        ghost var done := Outcomes(Trials(draws[i][..t + 1], p));
        assert done[..t] == Outcomes(Trials(draws[i][..t], p));
        if percolates {
          successCount := successCount + 1;
        }
      }
      assert draws[i][..nSim] == draws[i];
      results := results + [Estimate(successCount, nSim)];
    }
  }
}
