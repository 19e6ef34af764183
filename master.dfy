/**
 * `solve_integer_master`: the integer restricted master problem over the
 * current columns. The CBC solve itself is outside the model; it is an
 * `IlpSolver` value whose answers depend on the columns and on which of them
 * are offered. What is modelled is which columns are offered, how the
 * solver's answer is turned into integer counts, and what an answer means.
 */
module IntegerMaster {
  import opened Wrappers
  import opened Patterns

  /** The solver statuses the strategy tests for, plus the other `pulp.LpStatus` values. */
  datatype SolveStatus = NotSolved | Optimal | Infeasible | Unbounded | Undefined | IntegerFeasible | OptimalSolutionFound

  /** The statuses for which the integer answer is read back. */
  predicate IlpAccepted(s: SolveStatus) {
    s == Optimal || s == IntegerFeasible || s == OptimalSolutionFound
  }

  /** The integer solve: its status and the value of the variable of each offered column. */
  datatype IlpSolver = IlpSolver(status: (seq<Pattern>, seq<bool>) -> SolveStatus,
                                 value: (seq<Pattern>, seq<bool>, nat) -> real)

  /** `ValueError` when the LP values are needed but missing; `IndexError` when they are too few. */
  datatype MasterError = MissingLpValues | LpValuesTooShort

  /** `tol` of the active-column filter. */
  const ActiveTol: real := 0.000000001

  /** `[True] * n`: every column offered. */
  function AllColumns(n: nat): (r: seq<bool>)
    ensures |r| == n && forall j :: 0 <= j < n ==> r[j]
  {
    seq(n, _ => true)
  }

  /**
   * `include_mask`: every column, unless only the active ones are asked for
   * and positive LP values are required, in which case the columns whose LP
   * value exceeds `tol`.
   */
  function IncludeMask(n: nat, useActiveOnly: bool, xLp: Option<seq<real>>, keepOnlyPositiveLp: bool)
    : Result<seq<bool>, MasterError>
  {
    if !useActiveOnly then Success(AllColumns(n))
    else if xLp.None? then Failure(MissingLpValues)
    else if !keepOnlyPositiveLp then Success(AllColumns(n))
    else if |xLp.value| < n then Failure(LpValuesTooShort)
    else Success(seq(n, j requires 0 <= j < n => xLp.value[j] > ActiveTol))
  }

  /**
   * The mask fails only when active columns are asked for without LP values (or
   * with too few of them); otherwise it has one entry per column and leaves a
   * column out exactly when its LP value is at most `tol` under the active filter.
   */
  lemma IncludeMaskSpec(n: nat, useActiveOnly: bool, xLp: Option<seq<real>>, keepOnlyPositiveLp: bool)
    ensures var r := IncludeMask(n, useActiveOnly, xLp, keepOnlyPositiveLp);
      && (r.Failure? <==> useActiveOnly && (xLp.None? || (keepOnlyPositiveLp && |xLp.value| < n)))
      && (r.Failure? && xLp.None? ==> r.error == MissingLpValues)
      && (r.Success? ==>
            && |r.value| == n
            && forall j :: 0 <= j < n ==>
                 (r.value[j] <==> !useActiveOnly || !keepOnlyPositiveLp || xLp.value[j] > ActiveTol))
  {
  }

  /** Python's `round` on a number: the nearest integer, ties to the even one. */
  function RoundHalfEven(x: real): (r: int)
    ensures -0.5 <= r as real - x <= 0.5
    ensures (r as real - x == 0.5 || x - r as real == 0.5) ==> r % 2 == 0
  {
    var f := x.Floor;
    var d := x - f as real;
    if d < 0.5 then f
    else if d > 0.5 then f + 1
    else if f % 2 == 0 then f
    else f + 1
  }

  /** Rounding leaves an integral value unchanged. */
  lemma RoundIntegral(n: int)
    ensures RoundHalfEven(n as real) == n
  {
  }

  /** Rounding is the only integer within one half, apart from ties, which go to the even neighbour. */
  lemma RoundNearest(x: real, m: int)
    requires -0.5 < m as real - x < 0.5
    ensures RoundHalfEven(x) == m
  {
  }

  /** `x_int` for an accepted status: the rounded value of every offered column, 0 for the others. */
  function IntegerCounts(solver: IlpSolver, patterns: seq<Pattern>, mask: seq<bool>): (r: seq<int>)
    requires |mask| == |patterns|
  {
    seq(|patterns|, j requires 0 <= j < |patterns| =>
      if mask[j] then RoundHalfEven(solver.value(patterns, mask, j)) else 0)
  }

  /** `solve_integer_master(patterns, ..., use_active_only, x_lp, keep_only_positive_lp)`. */
  method SolveIntegerMaster(solver: IlpSolver, patterns: seq<Pattern>, useActiveOnly: bool,
                            xLp: Option<seq<real>>, keepOnlyPositiveLp: bool)
    returns (r: Result<(seq<int>, SolveStatus), MasterError>)
    ensures IncludeMask(|patterns|, useActiveOnly, xLp, keepOnlyPositiveLp).Failure? ==>
      r == Failure(IncludeMask(|patterns|, useActiveOnly, xLp, keepOnlyPositiveLp).error)
    ensures IncludeMask(|patterns|, useActiveOnly, xLp, keepOnlyPositiveLp).Success? ==>
      var mask := IncludeMask(|patterns|, useActiveOnly, xLp, keepOnlyPositiveLp).value;
      && r.Success?
      && r.value.1 == solver.status(patterns, mask)
      && r.value.0 == if IlpAccepted(r.value.1) then IntegerCounts(solver, patterns, mask)
                      else seq(|patterns|, _ => 0)
  {
    var includeMask := AllColumns(|patterns|);
    if useActiveOnly {
      if xLp.None? {
        return Failure(MissingLpValues);
      }
      if keepOnlyPositiveLp && |xLp.value| < |patterns| {
        return Failure(LpValuesTooShort);
      }
      includeMask := seq(|patterns|, j requires 0 <= j < |patterns| =>
        if keepOnlyPositiveLp then xLp.value[j] > ActiveTol else true);
    }
    ghost var expected := IncludeMask(|patterns|, useActiveOnly, xLp, keepOnlyPositiveLp);
    assert expected.Success? && |expected.value| == |includeMask|;
    assert forall t :: 0 <= t < |includeMask| ==> expected.value[t] == includeMask[t];
    assert expected.value == includeMask;

    var status := solver.status(patterns, includeMask);
    if !IlpAccepted(status) {
      return Success((seq(|patterns|, _ => 0), status));
    }
    var xInt := seq(|patterns|, _ => 0);
    var j := 0;
    while j < |patterns|
      invariant 0 <= j <= |patterns| && |xInt| == |patterns|
      invariant xInt[..j] == IntegerCounts(solver, patterns, includeMask)[..j]
      invariant forall t :: j <= t < |patterns| ==> xInt[t] == 0
    {
      if !includeMask[j] {
        xInt := xInt[j := 0];
      } else {
        xInt := xInt[j := RoundHalfEven(solver.value(patterns, includeMask, j))];
      }
      j := j + 1;
    }
    assert xInt == xInt[..j];
    return Success((xInt, status));
  }

  // ---------------------------------------------------------------------------
  // What an accepted answer means
  // ---------------------------------------------------------------------------

  /** Pieces of part `i` cut when pattern `j` is used `x[j]` times (left side of `dem_int_i`). */
  function Produced(patterns: seq<Pattern>, x: seq<int>, i: nat): int
    requires |x| == |patterns| && forall j :: 0 <= j < |patterns| ==> i < |patterns[j].counts|
  {
    if |patterns| == 0 then 0
    else patterns[0].counts[i] * x[0] + Produced(patterns[1..], x[1..], i)
  }

  /** Bars of stock `k` used (left side of `stock_limit_int_k`). */
  function StockUse(patterns: seq<Pattern>, x: seq<int>, k: nat): int
    requires |x| == |patterns|
  {
    if |patterns| == 0 then 0
    else (if patterns[0].stockIndex == k then x[0] else 0) + StockUse(patterns[1..], x[1..], k)
  }

  /** `x` is a solution of the integer master restricted to the offered columns. */
  predicate Feasible(patterns: seq<Pattern>, mask: seq<bool>, x: seq<int>, demands: seq<nat>, limits: seq<nat>) {
    && |x| == |patterns| && |mask| == |patterns|
    && (forall j :: 0 <= j < |patterns| ==> |patterns[j].counts| == |demands|)
    && (forall j :: 0 <= j < |patterns| ==> x[j] >= 0 && (!mask[j] ==> x[j] == 0))
    && (forall i :: 0 <= i < |demands| ==> Produced(patterns, x, i) >= demands[i])
    && (forall k :: 0 <= k < |limits| ==> StockUse(patterns, x, k) <= limits[k])
  }

  /**
   * A solver that, when it accepts, reports the values of some integer solution
   * of the master, each off by less than one half (CBC's integrality tolerance).
   */
  ghost predicate Honest(solver: IlpSolver, patterns: seq<Pattern>, mask: seq<bool>, demands: seq<nat>, limits: seq<nat>) {
    IlpAccepted(solver.status(patterns, mask)) ==>
      exists y :: Feasible(patterns, mask, y, demands, limits)
        && forall j :: 0 <= j < |patterns| && mask[j] ==> -0.5 < solver.value(patterns, mask, j) - y[j] as real < 0.5
  }

  /**
   * With an honest solver, the integer counts read back from an accepted
   * answer (each value rounded to the nearest integer) are that integer
   * solution, so they cover every demand and stay within every stock limit.
   */
  lemma IntegerCountsFeasible(solver: IlpSolver, patterns: seq<Pattern>, mask: seq<bool>,
                              demands: seq<nat>, limits: seq<nat>)
    requires |mask| == |patterns|
    requires Honest(solver, patterns, mask, demands, limits)
    requires IlpAccepted(solver.status(patterns, mask))
    ensures Feasible(patterns, mask, IntegerCounts(solver, patterns, mask), demands, limits)
  {
    var y :| Feasible(patterns, mask, y, demands, limits)
      && forall j :: 0 <= j < |patterns| && mask[j] ==> -0.5 < solver.value(patterns, mask, j) - y[j] as real < 0.5;
    var x := IntegerCounts(solver, patterns, mask);
    forall j | 0 <= j < |patterns|
      ensures x[j] == y[j]
    {
      if mask[j] {
        RoundNearest(solver.value(patterns, mask, j), y[j]);
      }
    }
    assert x == y;
  }
}
