# CuttingListSolver optimizer core in Dafny

CuttingListSolver plans how to cut the parts of a cutting list out of stock bars. Each part type has a length and a quantity. Each stock type has a length, a usable length and a quantity. Lengths are scaled to integers first. This project models the optimizer strategies that do the planning and proves what they compute.

- `Utils` (`utils.dfy`): `detect_unit_scale`. The scale is 1 without a '.'. Otherwise it is `10^d`, where `d` is the number of characters between the first '.' and the next '.' or the end.
- `FirstFitDecreasing` (`ffd.dfy`): `sort_decreasing`, a stable sort of demand rows by length, longest first. Also `itemize_parts`, which expands each row into `quantity` unit items.
- `GreedyStrategy` (`greedy.dfy`): `GreedyOptimizer.optimize`. It sorts the items longest first and expands every stock type into `quantity` empty bars. Each item goes into the first bar that passes both the overcut allowance and the bar length. An item that fits nowhere is set aside.
- `Knapsack` (`knapsack.dfy`): `solve_unbounded_knapsack`, the pricing subproblem.
  - Dynamic programming over capacities, with a `-1e9` start value and strict-improvement updates.
  - The answer comes from the first capacity holding the best table entry, walked back through the recorded choices.
  - The imperative method is proved equal to a functional specification. The lemmas prove that specification optimal.
- `Patterns` (`patterns.dfy`): the cutting patterns (columns).
  - `generate_trivial_patterns`: one single-part pattern per fitting (stock, part) pair.
  - The pricing step of both loops of `optimize`. It solves one knapsack per stock type with the LP duals as values. It keeps the candidate with the lowest reduced cost below `-TOL`, preferring the first on near-ties.
- `IntegerMaster` (`master.dfy`): `solve_integer_master`. It covers the column mask, the handling of the status and the rounding of the solver's values to integer counts. The CBC solve is a solver value.
- `ColumnGenerationStrategy` (`column_generation.dfy`): `ColumnGeneration.optimize`, as a class whose field `lastDuals` is the object's `last_duals`.
  - It raises an error when there is no trivial pattern.
  - The LP loop solves the LP at most 200 times. After each solve it appends the priced column, until pricing proposes none or 200 solves have run.
  - The integer loop runs at most 10 solves. After each failed solve it re-prices with the last LP duals.
  - The LP relaxation solve is a solver value.
  - `ComposePhases` and the outcome predicates state what the two loops together return.

Solver answers (LP status, primal values, dual prices, ILP status and values) are functions of the columns handed to the solver. So the proofs hold for every solver. `IntegerCountsFeasible` says what an accepted ILP answer means when the solver is honest.

## Model

| member | source | states |
|---|---|---|
| Utils.DetectUnitScaleSpec | core/utils.py:3-10 | without a '.' the scale is 1; with one it is 10 to the number of characters between the first '.' and the next '.' or the end |
| Utils.DetectUnitScaleIsPowerOfTen | core/utils.py:3-10 | every scale is a power of ten |
| Utils.DetectUnitScaleExamples | core/utils.py:7-10 | "12" gives 1, "12." gives 1, "1.5" gives 10, "1.50" gives 100, and "1.25.7" gives 100 (only the text up to the second point counts) |
| FirstFitDecreasing.SortDescSortedPermutation | core/optimizer_strategy/modified_first_fit_decreasing.py:8-10 | the descending sort returns a permutation of its input, non-increasing in the key |
| FirstFitDecreasing.SortDescStable | core/optimizer_strategy/modified_first_fit_decreasing.py:8-10 | elements with equal key keep their input order (Python's sort is stable) |
| FirstFitDecreasing.SortDecreasingSpec | core/optimizer_strategy/modified_first_fit_decreasing.py:8-10 | `sort_decreasing` returns the same rows, lengths non-increasing, and rows of equal length in input order |
| FirstFitDecreasing.ItemizeParts | core/optimizer_strategy/modified_first_fit_decreasing.py:12-17 | the loop that extends the result row by row builds exactly the itemized list `Itemize(rows)` |
| FirstFitDecreasing.ItemizeAppend | core/optimizer_strategy/modified_first_fit_decreasing.py:12-17 | itemizing a concatenation concatenates the itemizations, and the total quantity adds up |
| FirstFitDecreasing.ItemizeLength | core/optimizer_strategy/modified_first_fit_decreasing.py:12-17 | the number of items is the sum of the row quantities |
| FirstFitDecreasing.ItemizeLayout | core/optimizer_strategy/modified_first_fit_decreasing.py:14-16 | copy `t` of row `r` sits at position (quantities of the earlier rows) + `t` and carries row `r`'s type and length |
| FirstFitDecreasing.ItemizeSkipsEmptyRow | core/optimizer_strategy/modified_first_fit_decreasing.py:15-16 | a row of quantity 0 contributes nothing |
| FirstFitDecreasing.ItemizeCountOfType | core/optimizer_strategy/modified_first_fit_decreasing.py:12-17 | the items of each part type number exactly that type's total demand |
| GreedyStrategy.ExpandStock | core/optimizer_strategy.py:14-22 | the expansion loop yields `quantity` empty bars per stock type, in stock order (`Expand`) |
| GreedyStrategy.FirstFitPlace | core/optimizer_strategy.py:25-34 | scanning the bars for one item appends it to the first bar that accepts it and nowhere else; `placed` holds exactly when some bar accepts it |
| GreedyStrategy.Optimize | core/optimizer_strategy.py:9-35 | the returned bars, and the ghost list of items set aside, are the first-fit packing of the decreasingly sorted items into the expanded stock |
| GreedyStrategy.FirstFitFrom | core/optimizer_strategy.py:26-31 | the index found accepts the item and no earlier bar does; -1 means no bar accepts it |
| GreedyStrategy.ExpandLength | core/optimizer_strategy.py:14-22 | the expanded stock has as many bars as the stock quantities add up to |
| GreedyStrategy.ExpandLayout | core/optimizer_strategy.py:15-22 | bar `t` of stock type `k` sits after the bars of the earlier types and is an empty bar with that type's lengths |
| GreedyStrategy.PackKeepsLimits | core/optimizer_strategy.py:24-31 | packing keeps every bar within both its stock length and its overcut allowance, and changes only the pieces |
| GreedyStrategy.PackPieces | core/optimizer_strategy.py:24-31 | each bar ends with its old pieces followed by exactly the items assigned to it, in item order |
| GreedyStrategy.PackUnplaced | core/optimizer_strategy.py:32-34 | the items set aside are exactly those no bar accepted, in item order |
| GreedyStrategy.AssignmentRange | core/optimizer_strategy.py:24-34 | every item is assigned to a bar index or to -1 (set aside) |
| GreedyStrategy.PackConserves | core/optimizer_strategy.py:24-34 | the placed pieces plus the items set aside are, as a multiset, the bars' old pieces plus the items |
| GreedyStrategy.ExpandWithinLimits | core/optimizer_strategy.py:14-22 | freshly expanded bars are empty, and within their limits when no allowance is negative |
| GreedyStrategy.GreedyResult | core/optimizer_strategy.py:9-35 | one bar per stock unit, no item lost or duplicated, each bar holding exactly the sorted items first-fit assigns to it, and every bar within its limits when no allowance is negative |
| Knapsack.SolveUnboundedKnapsack | core/optimizer_strategy/column_generation.py:194-228 | the imperative DP and walk-back return exactly the functional specification `Knapsack` |
| Knapsack.FillTables | core/optimizer_strategy/column_generation.py:196-208 | the table loops compute the specification tables `Tables` |
| Knapsack.ScanItems | core/optimizer_strategy/column_generation.py:202-208 | one capacity's scan over the items sets that capacity's entry and choice to the strict-improvement fold and leaves every other entry alone |
| Knapsack.WalkBack | core/optimizer_strategy/column_generation.py:223-227 | the walk-back loop counts the recorded choices from the start capacity (`Walk`) |
| Knapsack.KnapsackOptimal | core/optimizer_strategy/column_generation.py:194-228 | the counts fit the capacity, are worth exactly the best value, and no fitting packing is worth more; the best value is never negative |
| Knapsack.KnapsackLightestOptimum | core/optimizer_strategy/column_generation.py:219-227 | among the optimal packings the answer has the least total length (the first capacity holding the maximum is taken) |
| Knapsack.KnapsackEmptyWhenUnprofitable | core/optimizer_strategy/column_generation.py:194-228 | when no packing has positive value the answer is value 0 with all counts 0 |
| Knapsack.KnapsackFirstImprovingChoice | core/optimizer_strategy/column_generation.py:201-208 | no item improves a table entry, and the recorded choice is the first item reaching the entry's value |
| Knapsack.KnapsackExample | core/optimizer_strategy/column_generation.py:194-228 | values [10, 20], weights [2, 3], capacity 7 give the best value 40 |
| Patterns.GenerateTrivialPatterns | core/optimizer_strategy/column_generation.py:169-185 | the nested loops return `TrivialPatterns` |
| Patterns.RowPairsSpec | core/optimizer_strategy/column_generation.py:171-173 | one stock's fitting part indices are listed increasing, and a part is listed iff it fits that stock |
| Patterns.PairsUpToSpec | core/optimizer_strategy/column_generation.py:170-173 | the (stock, part) pairs are in strictly increasing lexicographic order and are exactly the fitting pairs |
| Patterns.TrivialForSpec | core/optimizer_strategy/column_generation.py:172-183 | a trivial pattern is well formed, holds the most copies of its part the stock allows, nothing else, and wastes less than one part length |
| Patterns.TrivialPatternsSpec | core/optimizer_strategy/column_generation.py:169-185 | the trivial patterns are, in stock-then-part order, one per fitting (stock, part) pair and no other |
| Patterns.TrivialPatternsWellFormed | core/optimizer_strategy/column_generation.py:169-185 | every trivial pattern is well formed (stock index, stock length, one count per part, waste equal to the offcut and non-negative) |
| Patterns.TrivialPatternsEmptyIff | core/optimizer_strategy/column_generation.py:21-23 | there is no trivial pattern exactly when every part is longer than every stock |
| Patterns.PriceStock | core/optimizer_strategy/column_generation.py:88-92 | one stock's knapsack gives that stock's reduced cost and candidate pattern |
| Patterns.PriceColumns | core/optimizer_strategy/column_generation.py:85-100 | the pricing loop returns `BestPattern` of the duals |
| Patterns.SelectFromSpec | core/optimizer_strategy/column_generation.py:93-100 | the scan keeps its start value when nothing improves by more than TOL; otherwise it keeps a candidate that improves, is strictly below all earlier ones and within TOL of all later ones |
| Patterns.BestPatternSpec | core/optimizer_strategy/column_generation.py:85-107 | no pattern is proposed iff every stock's reduced cost is at least -TOL; a proposed pattern is some stock's knapsack pattern with reduced cost below -TOL, strictly below every earlier stock's and within TOL of every later one |
| Patterns.NewPatternSpec | core/optimizer_strategy/column_generation.py:91-100 | a candidate is well formed for its stock, and its reduced cost is the least (stock cost minus dual value) over all fitting packings |
| Patterns.BestPatternWellFormed | core/optimizer_strategy/column_generation.py:85-107 | a proposed pattern is well formed |
| IntegerMaster.IncludeMaskSpec | core/optimizer_strategy/column_generation.py:250-255 | the mask fails iff active-only is asked without LP values (ValueError), or with too few of them when filtering; otherwise column j is offered iff filtering is off or its LP value exceeds 1e-9 |
| IntegerMaster.RoundHalfEven | core/optimizer_strategy/column_generation.py:300 | Python's `round`: the result is within one half of the value, and an exact half goes to the even neighbour |
| IntegerMaster.RoundIntegral | core/optimizer_strategy/column_generation.py:300 | rounding an integral value returns it |
| IntegerMaster.RoundNearest | core/optimizer_strategy/column_generation.py:300 | a value within less than one half of an integer rounds to that integer |
| IntegerMaster.SolveIntegerMaster | core/optimizer_strategy/column_generation.py:232-302 | mask errors propagate; otherwise the solver's status is returned, with the rounded counts (0 for masked columns) when accepted and all zeros when not |
| IntegerMaster.IntegerCountsFeasible | core/optimizer_strategy/column_generation.py:263-302 | when an honest solver accepts, it reports each offered column's value within less than one half of some integer solution; rounding with `int(round(...))` then recovers that solution, so the counts meet every demand and every stock limit, with masked columns at 0 |
| ColumnGenerationStrategy.PricedChainExtend | core/optimizer_strategy/column_generation.py:85-107 | appending the priced pattern of an accepted LP keeps the chain of priced columns |
| ColumnGenerationStrategy.PricedChainWellFormed | core/optimizer_strategy/column_generation.py:85-107 | if the starting columns are well formed, so is every column pricing added |
| ColumnGenerationStrategy.PricedChainImproving | core/optimizer_strategy/column_generation.py:85-107 | every priced column had reduced cost below -TOL under the duals of the LP over the columns before it |
| ColumnGenerationStrategy.ComposePhases | core/optimizer_strategy/column_generation.py:41-161 | the LP loop's outcome followed by the integer loop's outcome is the outcome of `optimize`: the last LP solved was accepted and gave the stored duals; fewer than 200 LP solves appended columns on convergence; repair columns repeat the last LP column; `x_int` comes from the first accepted integer solve (within 10) or from the last rejected one |
| ColumnGenerationStrategy.ColumnGeneration.RelaxationPhase | core/optimizer_strategy/column_generation.py:41-113 | the RuntimeError is raised only when the LP over the initial columns plus a priced chain of fewer than 200 columns is not optimal, and carries that LP's status; `last_duals` then holds the previous LP's duals, or its old value when the first solve failed; otherwise the columns are the initial ones followed by priced ones, each priced with the duals of an accepted LP over the columns before it; `x_values` and `last_duals` come from the last solved LP, which was accepted; on convergence that LP prices nothing after fewer than 200 appended columns, and at the 200-solve cap there are 200 more columns, the last one still unsolved |
| ColumnGenerationStrategy.ColumnGeneration.IntegerPhase | core/optimizer_strategy/column_generation.py:118-161 | every integer solve before the last one was rejected; an accepted one, within the first 10 attempts, gives the rounded ILP answer over all columns; a rejected one gives zeros, and the loop stops then only when there are no duals or pricing proposes nothing, or after 10 attempts (zeros over all but the last column); every repair column is the pattern priced with `last_duals`, and none is added when those duals price nothing |
| ColumnGenerationStrategy.ColumnGeneration.Optimize | core/optimizer_strategy/column_generation.py:5-161 | fails with the ValueError exactly when there is no trivial pattern (leaving `last_duals` alone); an LP failure carries the non-accepted status of the LP over the trivial patterns plus a priced chain, with `last_duals` the previous LP's duals or unchanged; on success the columns are the trivial patterns, then LP-priced columns, all well formed; the last LP solved was accepted and `last_duals` and `x_values` are its duals and values; the integer loop adds no column when the final duals price nothing (after fewer than 200 appended LP columns), and otherwise (200-solve cap) only repeats of the last LP column; every integer solve before the last was rejected, and `x_int` is the accepted answer over all columns within 10 attempts, or zeros over all columns (duals price nothing) or over all but the last (10 attempts rejected) |

## Left out

- The PuLP/CBC solves: LP and ILP answers are solver values (`LpSolver`, `IlpSolver`). How the objective and the demand and stock-limit constraints are built is not modelled. The solver values see only the columns and the mask, so demands, stock limits and stock costs are not their inputs. `IntegerCountsFeasible` states the meaning of an accepted answer under an honesty assumption instead.
- Floating point: dual prices, LP values and the knapsack table are `real`. `TOL`, `1e-9` and `-1e9` are exact rationals, and rounding is exact.
- `ColumnGenerationStrategy.ColumnGeneration.IntegerPhase`: a dual price that PuLP reports as `None` (`.pi` unset) is not modelled; duals are always numbers.
- `ColumnGenerationStrategy.ColumnGeneration.RelaxationPhase`: as for `IntegerPhase`, a `None` dual price is not modelled.
- Stock limits of `None` (no limit) in `solve_integer_master` are not modelled; stock quantities are natural numbers.
- The `print` output of every phase is left out.
- The first walk-back of `solve_unbounded_knapsack` (lines 209-216) is performed, but its result is overwritten, so nothing is proved about it.
- `GreedyStrategy.Optimize`: `max_allowed = int(usable_length * (1 + allow_overcut))` is a parameter `maxAllowed: Stock -> int`. The float product and its truncation are not modelled.
- `GreedyStrategy.Optimize`: the local `bins` list of items that fit nowhere is never returned. It is modelled as the ghost output `unplaced`.
- `GreedyStrategy.Optimize`: items are unit records (`Item`) with an integer length; bar dictionaries are the `Bin` datatype.
- `Patterns.GenerateTrivialPatterns`: parts of length 0 or less, on which `stock.length // part.length` would divide by zero or go negative, are excluded by `ValidParts` (positive part lengths). The knapsack likewise requires positive weights.
- `pattern_id`, the abstract `OptimizerStrategy.optimize`, and `modified_first_fit_decreasing.optimize` (an empty stub) have no behaviour to model.
- `scale_value`/`descale_value` in `core/utils.py` are float conversions and are not part of this model. Neither are the CSV, GUI and CAD layers.
- Stock lengths are natural numbers. A negative stock length is not modelled. `generate_trivial_patterns` would skip such a stock, but pricing it would make `solve_unbounded_knapsack` build an empty table and fail with IndexError at `dp[0] = 0`.
- Demand quantities are natural numbers, and `int(row["quantity"])` is taken as already an integer.
