/**
 * `ColumnGeneration.optimize`: start from the trivial patterns, run column
 * generation on the LP relaxation of the cutting-stock master problem, then
 * solve the integer master and, while it is not accepted, try to add columns
 * priced with the last LP duals. The LP and ILP solves are solver values.
 */
module ColumnGenerationStrategy {
  import opened Wrappers
  import opened Entities
  import opened Patterns
  import opened IntegerMaster

  /** `MAX_LP_ITERS`: at most this many LP solves. */
  const MaxLpIters: nat := 200
  /** `MAX_INT_ITERS`: at most this many integer solves. */
  const MaxIntIters: nat := 10

  /** The statuses for which the LP answer is used. */
  predicate LpAccepted(s: SolveStatus) {
    s == Optimal || s == OptimalSolutionFound
  }

  /** The LP relaxation solve: its status, each column's value and each demand row's dual price. */
  datatype LpSolver = LpSolver(status: seq<Pattern> -> SolveStatus,
                               primal: (seq<Pattern>, nat) -> real,
                               dual: (seq<Pattern>, nat) -> real)

  /** `duals`: the dual price of `dem_i` for every part `i`. */
  function Duals(lp: LpSolver, patterns: seq<Pattern>, n: nat): (r: seq<real>)
    ensures |r| == n
  {
    seq(n, i requires 0 <= i => lp.dual(patterns, i))
  }

  /** `x_values`: the LP value of every column. */
  function Primal(lp: LpSolver, patterns: seq<Pattern>): (r: seq<real>)
    ensures |r| == |patterns|
  {
    seq(|patterns|, j requires 0 <= j => lp.primal(patterns, j))
  }

  /** `ValueError` with no trivial pattern; `RuntimeError` for an LP that is not optimal. */
  datatype CgError = NoTrivialPatterns | LpNotOptimal(status: SolveStatus)

  /** What `optimize` returns: `(patterns, x_values, x_int)`. */
  datatype Solution = Solution(patterns: seq<Pattern>, xValues: seq<real>, xInt: seq<int>)

  /**
   * Every column from `start` on was proposed by pricing with the duals of an
   * accepted LP over exactly the columns before it.
   */
  predicate PricedChain(lp: LpSolver, parts: seq<Part>, stocks: seq<Stock>, patterns: seq<Pattern>, start: nat)
    requires ValidParts(parts)
  {
    && start <= |patterns|
    && forall t :: start <= t < |patterns| ==>
         && LpAccepted(lp.status(patterns[..t]))
         && BestPattern(Duals(lp, patterns[..t], |parts|), parts, stocks) == Some(patterns[t])
  }

  /** Appending the column priced against the LP over all current columns extends the chain. */
  lemma PricedChainExtend(lp: LpSolver, parts: seq<Part>, stocks: seq<Stock>, patterns: seq<Pattern>,
                          start: nat, p: Pattern)
    requires ValidParts(parts) && PricedChain(lp, parts, stocks, patterns, start)
    requires LpAccepted(lp.status(patterns))
    requires BestPattern(Duals(lp, patterns, |parts|), parts, stocks) == Some(p)
    ensures PricedChain(lp, parts, stocks, patterns + [p], start)
  {
    var ext := patterns + [p];
    forall t | start <= t < |ext|
      ensures LpAccepted(lp.status(ext[..t]))
      ensures BestPattern(Duals(lp, ext[..t], |parts|), parts, stocks) == Some(ext[t])
    {
      if t < |patterns| {
        assert ext[..t] == patterns[..t];
      } else {
        assert ext[..t] == patterns;
      }
    }
  }

  /** Columns added by pricing can be cut, so a chain over well-formed columns stays well-formed. */
  lemma PricedChainWellFormed(lp: LpSolver, parts: seq<Part>, stocks: seq<Stock>, patterns: seq<Pattern>, start: nat)
    requires ValidParts(parts) && PricedChain(lp, parts, stocks, patterns, start)
    requires forall t :: 0 <= t < start ==> WellFormed(patterns[t], parts, stocks)
    ensures forall p :: p in patterns ==> WellFormed(p, parts, stocks)
  {
    forall t | start <= t < |patterns|
      ensures WellFormed(patterns[t], parts, stocks)
    {
      BestPatternWellFormed(Duals(lp, patterns[..t], |parts|), parts, stocks);
    }
  }

  /**
   * A column proposed by pricing has a reduced cost below `-TOL`, so it
   * improves the LP objective it was priced against.
   */
  lemma PricedChainImproving(lp: LpSolver, parts: seq<Part>, stocks: seq<Stock>, patterns: seq<Pattern>,
                             start: nat, t: nat)
    requires ValidParts(parts) && PricedChain(lp, parts, stocks, patterns, start)
    requires start <= t < |patterns|
    ensures patterns[t].stockIndex < |stocks|
    ensures ReducedCost(Duals(lp, patterns[..t], |parts|), parts, stocks, patterns[t].stockIndex) < -Tol
  {
    var duals := Duals(lp, patterns[..t], |parts|);
    BestPatternSpec(duals, parts, stocks);
    var j :| 0 <= j < |stocks| && BestPattern(duals, parts, stocks) == Some(NewPattern(duals, parts, stocks, j))
      && ReducedCost(duals, parts, stocks, j) < -Tol;
    assert patterns[t] == NewPattern(duals, parts, stocks, j);
  }

  /**
   * What the LP phase leaves behind: the columns, the LP values and whether
   * pricing ran dry (`converged`) or the iterations ran out. The columns extend
   * `initial` by a priced chain; the stored duals and `x_values` belong to the
   * last LP solved, which covers every column when converged and all but the
   * last one otherwise.
   */
  predicate RelaxationOutcome(lp: LpSolver, parts: seq<Part>, stocks: seq<Stock>, initial: seq<Pattern>,
                              patterns: seq<Pattern>, xValues: seq<real>, converged: bool, duals: Option<seq<real>>)
    requires ValidParts(parts)
  {
    var solved := if converged then |patterns| else |patterns| - 1;
    && |initial| <= solved < |initial| + MaxLpIters
    && solved <= |patterns| <= |initial| + MaxLpIters
    && patterns[..|initial|] == initial
    && PricedChain(lp, parts, stocks, patterns, |initial|)
    && LpAccepted(lp.status(patterns[..solved]))
    && duals == Some(Duals(lp, patterns[..solved], |parts|))
    && xValues == Primal(lp, patterns[..solved])
    && (converged ==> BestPattern(duals.value, parts, stocks) == None)
    && (!converged ==>
          && |patterns| == |initial| + MaxLpIters
          && BestPattern(duals.value, parts, stocks) == Some(patterns[|patterns| - 1]))
  }

  /**
   * The LP over `patterns` is the one that raises: the columns extend `initial`
   * by a priced chain of fewer than `MAX_LP_ITERS` columns, and solving them
   * gives `status`, which is not accepted.
   */
  predicate LpFailedAt(lp: LpSolver, parts: seq<Part>, stocks: seq<Stock>, initial: seq<Pattern>,
                       patterns: seq<Pattern>, status: SolveStatus)
    requires ValidParts(parts)
  {
    && |initial| <= |patterns| < |initial| + MaxLpIters
    && patterns[..|initial|] == initial
    && PricedChain(lp, parts, stocks, patterns, |initial|)
    && status == lp.status(patterns)
    && !LpAccepted(status)
  }

  /** Every integer solve over `patterns[..m]`, for `start <= m < |patterns|`, was rejected. */
  predicate RejectedFrom(ilp: IlpSolver, patterns: seq<Pattern>, start: nat) {
    forall m :: start <= m < |patterns| ==> !IlpAccepted(ilp.status(patterns[..m], AllColumns(m)))
  }

  /** Every column from `start` on is the one pricing proposes for `duals`. */
  predicate RepairColumnsPriced(duals: Option<seq<real>>, parts: seq<Part>, stocks: seq<Stock>,
                                patterns: seq<Pattern>, start: nat)
    requires ValidParts(parts)
    requires duals.Some? ==> |duals.value| == |parts|
  {
    forall t :: start <= t < |patterns| ==>
      duals.Some? && BestPattern(duals.value, parts, stocks) == Some(patterns[t])
  }

  /**
   * What the integer phase leaves behind: at most `MAX_INT_ITERS` columns
   * appended to `lpPatterns`, each what pricing proposes for the stored duals,
   * every solve before the last one rejected; an accepted integer answer over
   * all columns, or the zero answer of the last rejected solve. That solve
   * covers every column when the phase stopped for lack of duals or of a
   * priced column, and lacks the last column when the attempts ran out.
   */
  predicate RepairOutcome(ilp: IlpSolver, parts: seq<Part>, stocks: seq<Stock>, lpPatterns: seq<Pattern>,
                          duals: Option<seq<real>>, patterns: seq<Pattern>, xInt: seq<int>, feasible: bool)
    requires ValidParts(parts)
    requires duals.Some? ==> |duals.value| == |parts|
  {
    && |lpPatterns| <= |patterns| <= |lpPatterns| + MaxIntIters
    && patterns[..|lpPatterns|] == lpPatterns
    && RepairColumnsPriced(duals, parts, stocks, patterns, |lpPatterns|)
    && RejectedFrom(ilp, patterns, |lpPatterns|)
    && (duals.Some? && BestPattern(duals.value, parts, stocks) == None ==> |patterns| == |lpPatterns|)
    && (feasible ==>
          && |patterns| < |lpPatterns| + MaxIntIters
          && IlpAccepted(ilp.status(patterns, AllColumns(|patterns|)))
          && xInt == IntegerCounts(ilp, patterns, AllColumns(|patterns|)))
    && (!feasible ==>
          && (|xInt| == |patterns| || (|xInt| == |patterns| - 1 && |patterns| == |lpPatterns| + MaxIntIters))
          && !IlpAccepted(ilp.status(patterns[..|xInt|], AllColumns(|xInt|)))
          && (|xInt| == |patterns| ==> duals.None? || BestPattern(duals.value, parts, stocks) == None)
          && forall j :: 0 <= j < |xInt| ==> xInt[j] == 0)
  }

  /**
   * What `optimize` returns when it does not raise. The columns are the
   * trivial ones, then the LP phase's priced chain up to `lpColumns`, then at
   * most `MAX_INT_ITERS` repair columns, all of them cuttable. When the stored
   * duals price no column, the LP converged, there are no repair columns and
   * `x_values` covers every column. Otherwise the LP loop ran all
   * `MAX_LP_ITERS` iterations, `x_values` lacks the last LP column, and every
   * repair column repeats that last LP column. Every integer solve before
   * the last one was rejected. `x_int` is the accepted integer answer over all
   * columns, or the all-zero answer of a rejected solve: over every column
   * when the stored duals price nothing, or over all but the last column when
   * all `MAX_INT_ITERS` attempts were rejected.
   */
  predicate OptimizeOutcome(lp: LpSolver, ilp: IlpSolver, parts: seq<Part>, stocks: seq<Stock>,
                            sol: Solution, lpColumns: nat, duals: Option<seq<real>>)
    requires ValidParts(parts)
  {
    var trivial := TrivialPatterns(parts, stocks);
    && duals.Some? && |duals.value| == |parts|
    && |trivial| <= lpColumns <= |trivial| + MaxLpIters
    && lpColumns <= |sol.patterns| <= lpColumns + MaxIntIters
    && sol.patterns[..|trivial|] == trivial
    && PricedChain(lp, parts, stocks, sol.patterns[..lpColumns], |trivial|)
    && (forall p :: p in sol.patterns ==> WellFormed(p, parts, stocks))
    && (var solved := if BestPattern(duals.value, parts, stocks) == None then lpColumns else lpColumns - 1;
        && 0 <= solved <= |sol.patterns|
        && LpAccepted(lp.status(sol.patterns[..solved]))
        && duals == Some(Duals(lp, sol.patterns[..solved], |parts|)))
    && (BestPattern(duals.value, parts, stocks) == None ==>
          && lpColumns < |trivial| + MaxLpIters
          && lpColumns == |sol.patterns|
          && sol.xValues == Primal(lp, sol.patterns))
    && (BestPattern(duals.value, parts, stocks) != None ==>
          && lpColumns == |trivial| + MaxLpIters
          && sol.xValues == Primal(lp, sol.patterns[..lpColumns - 1])
          && forall t :: lpColumns <= t < |sol.patterns| ==> sol.patterns[t] == sol.patterns[lpColumns - 1])
    && RejectedFrom(ilp, sol.patterns, lpColumns)
    && ((&& |sol.patterns| < lpColumns + MaxIntIters
         && IlpAccepted(ilp.status(sol.patterns, AllColumns(|sol.patterns|)))
         && sol.xInt == IntegerCounts(ilp, sol.patterns, AllColumns(|sol.patterns|)))
        || (&& ((|sol.xInt| == |sol.patterns| && BestPattern(duals.value, parts, stocks) == None)
                || (|sol.xInt| == |sol.patterns| - 1 && |sol.patterns| == lpColumns + MaxIntIters))
            && !IlpAccepted(ilp.status(sol.patterns[..|sol.xInt|], AllColumns(|sol.xInt|)))
            && forall j :: 0 <= j < |sol.xInt| ==> sol.xInt[j] == 0))
  }

  /**
   * Running the integer phase after the LP phase, both with the same stored
   * duals, gives `optimize`'s outcome: repair pricing repeats the LP phase's
   * last pricing, so it adds no column the LP phase had not already priced.
   */
  lemma {:induction false} ComposePhases(lp: LpSolver, ilp: IlpSolver, parts: seq<Part>, stocks: seq<Stock>,
                                         lpPatterns: seq<Pattern>, xValues: seq<real>, converged: bool,
                                         duals: Option<seq<real>>, patterns: seq<Pattern>, xInt: seq<int>, feasible: bool)
    requires ValidParts(parts)
    requires RelaxationOutcome(lp, parts, stocks, TrivialPatterns(parts, stocks), lpPatterns, xValues, converged, duals)
    requires RepairOutcome(ilp, parts, stocks, lpPatterns, duals, patterns, xInt, feasible)
    ensures OptimizeOutcome(lp, ilp, parts, stocks, Solution(patterns, xValues, xInt), |lpPatterns|, duals)
  {
    var trivial := TrivialPatterns(parts, stocks);
    var d := duals.value;
    TrivialPatternsWellFormed(parts, stocks);
    forall t | 0 <= t < |trivial|
      ensures WellFormed(lpPatterns[t], parts, stocks)
    {
      assert lpPatterns[t] == lpPatterns[..|trivial|][t] == trivial[t];
      assert trivial[t] in trivial;
    }
    PricedChainWellFormed(lp, parts, stocks, lpPatterns, |trivial|);
    assert patterns[..|lpPatterns|] == lpPatterns;
    assert lpPatterns[..|lpPatterns|] == lpPatterns;
    forall p | p in patterns
      ensures WellFormed(p, parts, stocks)
    {
      var t :| 0 <= t < |patterns| && patterns[t] == p;
      if t < |lpPatterns| {
        assert p == lpPatterns[t];
      } else {
        BestPatternWellFormed(d, parts, stocks);
      }
    }
    assert patterns[..|trivial|] == lpPatterns[..|trivial|];
    if converged {
      assert patterns == patterns[..|lpPatterns|];
    } else {
      var last := lpPatterns[|lpPatterns| - 1];
      assert patterns[|lpPatterns| - 1] == last;
      assert patterns[..|lpPatterns| - 1] == lpPatterns[..|lpPatterns| - 1];
      forall t | |lpPatterns| <= t < |patterns|
        ensures patterns[t] == patterns[|lpPatterns| - 1]
      {
        assert BestPattern(d, parts, stocks) == Some(patterns[t]);
      }
    }
  }

  class ColumnGeneration {
    /** `self.last_duals`: the duals of the last LP solved, if any. */
    var lastDuals: Option<seq<real>>

    constructor()
      ensures lastDuals == None
    {
      lastDuals := None;
    }

    /**
     * The LP loop of `optimize`: at most `MAX_LP_ITERS` solves, each followed by
     * pricing; it stops early when pricing finds no column, and raises on an LP
     * that is not optimal.
     */
    method RelaxationPhase(lp: LpSolver, parts: seq<Part>, stocks: seq<Stock>, initial: seq<Pattern>)
      returns (r: Result<(seq<Pattern>, seq<real>, bool), CgError>)
      requires ValidParts(parts)
      modifies this
      ensures r.Failure? ==> r.error.LpNotOptimal?
      ensures r.Failure? ==> exists ps ::
        && LpFailedAt(lp, parts, stocks, initial, ps, r.error.status)
        && lastDuals == (if |ps| == |initial| then old(lastDuals) else Some(Duals(lp, ps[..|ps| - 1], |parts|)))
      ensures r.Success? ==> RelaxationOutcome(lp, parts, stocks, initial, r.value.0, r.value.1, r.value.2, lastDuals)
    {
      var patterns := initial;
      var solved := initial;
      var converged := false;
      var it := 0;
      while it < MaxLpIters
        invariant 0 <= it <= MaxLpIters
        invariant |patterns| == |initial| + it && patterns[..|initial|] == initial
        invariant PricedChain(lp, parts, stocks, patterns, |initial|)
        invariant it == 0 ==> lastDuals == old(lastDuals)
        invariant it > 0 ==>
          && solved == patterns[..|patterns| - 1]
          && LpAccepted(lp.status(solved))
          && lastDuals == Some(Duals(lp, solved, |parts|))
          && BestPattern(lastDuals.value, parts, stocks) == Some(patterns[|patterns| - 1])
      {
        var status := lp.status(patterns);
        if !LpAccepted(status) {
          assert LpFailedAt(lp, parts, stocks, initial, patterns, status);
          return Failure(LpNotOptimal(status));
        }
        var duals := Duals(lp, patterns, |parts|);
        lastDuals := Some(duals);
        solved := patterns;
        var best := PriceColumns(duals, parts, stocks);
        if best.None? {
          converged := true;
          break;
        }
        PricedChainExtend(lp, parts, stocks, patterns, |initial|, best.value);
        assert (patterns + [best.value])[..|initial|] == patterns[..|initial|];
        patterns := patterns + [best.value];
        it := it + 1;
      }
      var xValues := Primal(lp, solved);
      assert converged ==> patterns[..|patterns|] == patterns;
      return Success((patterns, xValues, converged));
    }

    /**
     * The integer phase of `optimize`: up to `MAX_INT_ITERS` integer solves over
     * all columns. It stops at the first accepted status; otherwise it prices
     * again with the stored duals and appends the proposed column, or stops when
     * there are no duals or no column.
     */
    method IntegerPhase(ilp: IlpSolver, parts: seq<Part>, stocks: seq<Stock>,
                        lpPatterns: seq<Pattern>, xValues: seq<real>)
      returns (patterns: seq<Pattern>, xInt: seq<int>, feasible: bool)
      requires ValidParts(parts)
      requires lastDuals.Some? ==> |lastDuals.value| == |parts|
      ensures RepairOutcome(ilp, parts, stocks, lpPatterns, lastDuals, patterns, xInt, feasible)
    {
      patterns := lpPatterns;
      xInt := [];
      feasible := false;
      var iter := 0;
      while iter < MaxIntIters
        invariant 0 <= iter <= MaxIntIters
        invariant |patterns| == |lpPatterns| + iter && patterns[..|lpPatterns|] == lpPatterns
        invariant RepairColumnsPriced(lastDuals, parts, stocks, patterns, |lpPatterns|)
        invariant RejectedFrom(ilp, patterns, |lpPatterns|)
        invariant lastDuals.Some? && BestPattern(lastDuals.value, parts, stocks) == None ==> iter == 0
        invariant iter > 0 ==>
          && |xInt| == |patterns| - 1
          && !IlpAccepted(ilp.status(patterns[..|xInt|], AllColumns(|xInt|)))
          && forall j :: 0 <= j < |xInt| ==> xInt[j] == 0
      {
        var res := SolveIntegerMaster(ilp, patterns, false, Some(xValues), true);
        assert res.Success?;
        var status := res.value.1;
        xInt := res.value.0;
        if IlpAccepted(status) {
          feasible := true;
          return;
        }
        assert patterns[..|xInt|] == patterns;
        var duals := lastDuals;
        if duals.None? {
          return;
        }
        var best := PriceColumns(duals.value, parts, stocks);
        if best.None? {
          return;
        }
        assert (patterns + [best.value])[..|lpPatterns|] == lpPatterns;
        assert (patterns + [best.value])[..|patterns|] == patterns;
        assert RejectedFrom(ilp, patterns + [best.value], |lpPatterns|) by {
          forall m | |lpPatterns| <= m < |patterns| + 1
            ensures !IlpAccepted(ilp.status((patterns + [best.value])[..m], AllColumns(m)))
          {
            assert (patterns + [best.value])[..m] == patterns[..m];
          }
        }
        assert RepairColumnsPriced(lastDuals, parts, stocks, patterns + [best.value], |lpPatterns|) by {
          forall t | |lpPatterns| <= t < |patterns| + 1
            ensures BestPattern(duals.value, parts, stocks) == Some((patterns + [best.value])[t])
          {
            if t < |patterns| {
              assert (patterns + [best.value])[t] == patterns[t];
            }
          }
        }
        patterns := patterns + [best.value];
        iter := iter + 1;
      }
      assert iter == MaxIntIters && |xInt| == |patterns| - 1;
    }

    /**
     * `optimize(required_parts_aggregated, stocks_aggregated)`. It fails exactly
     * when no part fits any stock (leaving the stored duals alone), or when an
     * LP is not optimal; otherwise its result is described by `OptimizeOutcome`.
     */
    method Optimize(lp: LpSolver, ilp: IlpSolver, parts: seq<Part>, stocks: seq<Stock>)
      returns (r: Result<Solution, CgError>, ghost lpColumns: nat)
      requires ValidParts(parts)
      modifies this
      ensures r == Failure(NoTrivialPatterns) <==> TrivialPatterns(parts, stocks) == []
      ensures TrivialPatterns(parts, stocks) == [] ==> lastDuals == old(lastDuals)
      ensures r.Failure? && r.error.LpNotOptimal? ==> exists ps ::
        && LpFailedAt(lp, parts, stocks, TrivialPatterns(parts, stocks), ps, r.error.status)
        && lastDuals == (if |ps| == |TrivialPatterns(parts, stocks)| then old(lastDuals)
                         else Some(Duals(lp, ps[..|ps| - 1], |parts|)))
      ensures r.Success? ==> OptimizeOutcome(lp, ilp, parts, stocks, r.value, lpColumns, lastDuals)
    {
      var patterns := GenerateTrivialPatterns(parts, stocks);
      if |patterns| == 0 {
        return Failure(NoTrivialPatterns), 0;
      }
      var relaxed := RelaxationPhase(lp, parts, stocks, patterns);
      if relaxed.Failure? {
        return Failure(relaxed.error), 0;
      }
      var lpPatterns, xValues, converged := relaxed.value.0, relaxed.value.1, relaxed.value.2;
      var xInt: seq<int>, feasible: bool;
      patterns, xInt, feasible := IntegerPhase(ilp, parts, stocks, lpPatterns, xValues);
      ComposePhases(lp, ilp, parts, stocks, lpPatterns, xValues, converged, lastDuals, patterns, xInt, feasible);
      return Success(Solution(patterns, xValues, xInt)), |lpPatterns|;
    }
  }
}
