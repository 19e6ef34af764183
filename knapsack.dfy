/**
 * The pricing subproblem of column generation: an unbounded knapsack solved by
 * dynamic programming over capacities 0..capacity.
 *
 * `dp[c]` starts at a finite "minus infinity" (`Sentinel`), `dp[0] = 0`, and for
 * every capacity `c` the items are scanned in index order; `dp[c]` and the
 * recorded choice `prev[c]` change only on a strict improvement. The answer is the
 * first capacity with the largest `dp` entry, and the counts are rebuilt by walking
 * the recorded choices back from that capacity.
 *
 * The functional definitions below (`Improve`, `Tables`, `FirstArgMax`, `Walk`,
 * `Knapsack`) specify the imperative `SolveUnboundedKnapsack`; the lemmas prove
 * that the result is an optimal packing.
 */
module Knapsack {

  /** The finite "minus infinity" every table entry but `dp[0]` starts from (`-1e9`). */
  const Sentinel: real := -1000000000.0

  predicate Positive(w: seq<int>) {
    forall i :: 0 <= i < |w| ==> w[i] > 0
  }

  function Zeros(n: nat): (z: seq<nat>)
    ensures |z| == n && forall i :: 0 <= i < n ==> z[i] == 0
  {
    seq(n, _ => 0)
  }

  /** Total length of a packing (`sum(c*w for c, w in zip(counts, weights))`). */
  function Weight(w: seq<int>, c: seq<nat>): int
    requires |w| == |c|
  {
    if |c| == 0 then 0 else w[0] * c[0] + Weight(w[1..], c[1..])
  }

  /** Total value of a packing at the given item values. */
  function Value(v: seq<real>, c: seq<nat>): real
    requires |v| == |c|
  {
    if |c| == 0 then 0.0 else v[0] * (c[0] as real) + Value(v[1..], c[1..])
  }

  /** `c` is a packing: one count per item, total length at most `cap`. */
  predicate Fits(w: seq<int>, c: seq<nat>, cap: int) {
    |c| == |w| && Weight(w, c) <= cap
  }

  lemma {:induction false} WeightBump(w: seq<int>, c: seq<nat>, i: nat)
    requires |w| == |c| && i < |c|
    ensures Weight(w, c[i := c[i] + 1]) == Weight(w, c) + w[i]
  {
    var c' := c[i := c[i] + 1];
    if i == 0 {
      assert c'[1..] == c[1..];
    } else {
      assert c'[1..] == c[1..][i - 1 := c[i] + 1];
      WeightBump(w[1..], c[1..], i - 1);
    }
  }

  lemma {:induction false} ValueBump(v: seq<real>, c: seq<nat>, i: nat)
    requires |v| == |c| && i < |c|
    ensures Value(v, c[i := c[i] + 1]) == Value(v, c) + v[i]
  {
    var c' := c[i := c[i] + 1];
    if i == 0 {
      assert c'[1..] == c[1..];
    } else {
      assert c'[1..] == c[1..][i - 1 := c[i] + 1];
      ValueBump(v[1..], c[1..], i - 1);
    }
  }

  /** With positive lengths a packing weighs at least nothing, and weighs nothing only when empty. */
  lemma {:induction false} WeightZero(w: seq<int>, c: seq<nat>)
    requires Positive(w) && |w| == |c|
    ensures Weight(w, c) >= 0
    ensures Weight(w, c) == 0 ==> c == Zeros(|c|)
  {
    if |c| > 0 {
      WeightZero(w[1..], c[1..]);
      assert w[0] * c[0] >= c[0] by {
        assert w[0] >= 1;
      }
      if Weight(w, c) == 0 {
        assert c == [0] + c[1..];
      }
    }
  }

  lemma {:induction false} ValueOfZeros(v: seq<real>)
    ensures Value(v, Zeros(|v|)) == 0.0
  {
    if |v| > 0 {
      assert Zeros(|v|)[1..] == Zeros(|v| - 1);
      ValueOfZeros(v[1..]);
    }
  }

  lemma {:induction false} WeightOfZeros(w: seq<int>)
    ensures Weight(w, Zeros(|w|)) == 0
  {
    if |w| > 0 {
      assert Zeros(|w|)[1..] == Zeros(|w| - 1);
      WeightOfZeros(w[1..]);
    }
  }

  // ---------------------------------------------------------------------------
  // The table
  // ---------------------------------------------------------------------------

  /** The value item `j` offers at capacity `c`: `dp[c - w[j]] + v[j]`. */
  function Cand(v: seq<real>, w: seq<int>, dp: seq<real>, c: nat, j: nat): real
    requires |v| == |w| && j < |w| && 0 < w[j] <= c <= |dp|
  {
    dp[c - w[j]] + v[j]
  }

  /**
   * The inner scan for capacity `|dp|` (the entries `dp[0..|dp|-1]` are done),
   * from item `i` on, with the running best value and choice.
   */
  function Improve(v: seq<real>, w: seq<int>, dp: seq<real>, i: nat, best: real, choice: int): (real, int)
    requires |v| == |w| && Positive(w) && i <= |w|
    decreases |w| - i
  {
    if i == |w| then (best, choice)
    else if w[i] <= |dp| && Cand(v, w, dp, |dp|, i) > best then
      Improve(v, w, dp, i + 1, Cand(v, w, dp, |dp|, i), i)
    else
      Improve(v, w, dp, i + 1, best, choice)
  }

  /**
   * The scan keeps the largest offer, and the choice it records is the first item
   * whose offer reached that value, or the old choice when nothing beat `best`.
   */
  lemma {:induction false} ImproveSpec(v: seq<real>, w: seq<int>, dp: seq<real>, i: nat, best: real, choice: int)
    requires |v| == |w| && Positive(w) && i <= |w|
    ensures var (b, ch) := Improve(v, w, dp, i, best, choice);
      && b >= best
      && (forall j :: i <= j < |w| && w[j] <= |dp| ==> Cand(v, w, dp, |dp|, j) <= b)
      && ((b == best && ch == choice) ||
          (i <= ch < |w| && w[ch] <= |dp| && b == Cand(v, w, dp, |dp|, ch) && b > best &&
           forall j :: i <= j < ch && w[j] <= |dp| ==> Cand(v, w, dp, |dp|, j) < b))
    decreases |w| - i
  {
    if i < |w| {
      if w[i] <= |dp| && Cand(v, w, dp, |dp|, i) > best {
        ImproveSpec(v, w, dp, i + 1, Cand(v, w, dp, |dp|, i), i);
      } else {
        ImproveSpec(v, w, dp, i + 1, best, choice);
      }
    }
  }

  /** Every recorded choice is `-1` or an item that fits the capacity it was recorded for. */
  predicate Choices(w: seq<int>, prev: seq<int>) {
    forall c :: 0 <= c < |prev| ==> prev[c] == -1 || (0 <= prev[c] < |w| && w[prev[c]] <= c)
  }

  /** The `dp` and `prev_choice` tables for capacities `0..c`. */
  function Tables(v: seq<real>, w: seq<int>, c: nat): (t: (seq<real>, seq<int>))
    requires |v| == |w| && Positive(w)
    ensures |t.0| == c + 1 && |t.1| == c + 1
    ensures t.0[0] == 0.0 && t.1[0] == -1
    ensures Choices(w, t.1)
    decreases c
  {
    if c == 0 then ([0.0], [-1])
    else
      var before := Tables(v, w, c - 1);
      var cell := Improve(v, w, before.0, 0, Sentinel, -1);
      ImproveSpec(v, w, before.0, 0, Sentinel, -1);
      (before.0 + [cell.0], before.1 + [cell.1])
  }

  /**
   * What the entry for capacity `c` means: no item offers more than `dp[c]`;
   * no choice means `dp[c]` is still the sentinel; otherwise the choice is the
   * FIRST item whose offer equals `dp[c]`.
   */
  ghost predicate CellOk(v: seq<real>, w: seq<int>, dp: seq<real>, prev: seq<int>, c: nat)
    requires |v| == |w| && Positive(w) && |prev| == |dp| && 0 < c < |dp|
  {
    && (forall j :: 0 <= j < |w| && w[j] <= c ==> Cand(v, w, dp, c, j) <= dp[c])
    && (prev[c] == -1 ==> dp[c] == Sentinel)
    && (prev[c] != -1 ==>
          && 0 <= prev[c] < |w| && w[prev[c]] <= c
          && dp[c] == Cand(v, w, dp, c, prev[c]) && dp[c] > Sentinel
          && forall j :: 0 <= j < prev[c] && w[j] <= c ==> Cand(v, w, dp, c, j) < dp[c])
  }

  ghost predicate Filled(v: seq<real>, w: seq<int>, dp: seq<real>, prev: seq<int>)
    requires |v| == |w| && Positive(w)
  {
    && |dp| == |prev| && |dp| > 0 && dp[0] == 0.0 && prev[0] == -1
    && Choices(w, prev)
    && forall c :: 0 < c < |dp| ==> CellOk(v, w, dp, prev, c)
  }

  lemma {:induction false} TablesFilled(v: seq<real>, w: seq<int>, c: nat)
    requires |v| == |w| && Positive(w)
    ensures Filled(v, w, Tables(v, w, c).0, Tables(v, w, c).1)
  {
    if c > 0 {
      TablesFilled(v, w, c - 1);
      var dp := Tables(v, w, c - 1).0;
      var prev := Tables(v, w, c - 1).1;
      var cell := Improve(v, w, dp, 0, Sentinel, -1);
      ImproveSpec(v, w, dp, 0, Sentinel, -1);
      var dp', prev' := dp + [cell.0], prev + [cell.1];
      assert Tables(v, w, c) == (dp', prev');
      forall k | 0 < k < |dp'|
        ensures CellOk(v, w, dp', prev', k)
      {
        if k < c {
          assert CellOk(v, w, dp, prev, k);
          forall j | 0 <= j < |w| && w[j] <= k
            ensures Cand(v, w, dp', k, j) == Cand(v, w, dp, k, j)
          {
          }
        } else {
          forall j | 0 <= j < |w| && w[j] <= k
            ensures Cand(v, w, dp', k, j) == Cand(v, w, dp, |dp|, j)
          {
          }
        }
      }
    }
  }

  /** Every packing of total length exactly `c` is worth at most `dp[c]`. */
  lemma {:induction false} PackingBound(v: seq<real>, w: seq<int>, dp: seq<real>, prev: seq<int>, p: seq<nat>)
    requires |v| == |w| && Positive(w) && Filled(v, w, dp, prev)
    requires |p| == |w| && Weight(w, p) < |dp|
    ensures Weight(w, p) >= 0 && Value(v, p) <= dp[Weight(w, p)]
    decreases if Weight(w, p) < 0 then 0 else Weight(w, p)
  {
    WeightZero(w, p);
    var c := Weight(w, p);
    if c == 0 {
      ValueOfZeros(v);
    } else {
      WeightOfZeros(w);
      assert p != Zeros(|p|);
      assert exists i :: 0 <= i < |p| && p[i] != Zeros(|p|)[i];
      var i :| 0 <= i < |p| && p[i] != 0;
      var q := p[i := p[i] - 1];
      assert p == q[i := q[i] + 1];
      WeightBump(w, q, i);
      ValueBump(v, q, i);
      WeightZero(w, q);
      PackingBound(v, w, dp, prev, q);
      assert CellOk(v, w, dp, prev, c);
      assert Cand(v, w, dp, c, i) <= dp[c];
    }
  }

  // ---------------------------------------------------------------------------
  // Choosing the capacity and walking back
  // ---------------------------------------------------------------------------

  /**
   * `max(range(len(s)), key=lambda c: s[c])`: the scan keeps the first index and
   * moves only on a strictly larger entry, so the result is the FIRST largest entry.
   */
  function FirstArgMax(s: seq<real>): (r: nat)
    requires |s| > 0
    ensures r < |s|
    ensures forall k :: 0 <= k < |s| ==> s[k] <= s[r]
    ensures forall k :: 0 <= k < r ==> s[k] < s[r]
  {
    if |s| == 1 then 0
    else
      var r := FirstArgMax(s[..|s| - 1]);
      if s[|s| - 1] > s[r] then |s| - 1 else r
  }

  /** Rebuilding the counts: follow `prev` from `c`, one item per step, until `c == 0` or no choice. */
  function Walk(w: seq<int>, prev: seq<int>, c: nat, acc: seq<nat>): (r: (seq<nat>, nat))
    requires Positive(w) && Choices(w, prev) && c < |prev| && |acc| == |w|
    ensures |r.0| == |w| && r.1 <= c
    decreases c
  {
    if c > 0 && prev[c] != -1 then
      var i := prev[c];
      Walk(w, prev, c - w[i], acc[i := acc[i] + 1])
    else
      (acc, c)
  }

  /**
   * A walk from `c` that stops at `e` adds items weighing `c - e` and worth
   * `dp[c] - dp[e]`, and it stops at 0 or at an entry still holding the sentinel.
   */
  lemma {:induction false} WalkSpec(v: seq<real>, w: seq<int>, dp: seq<real>, prev: seq<int>, c: nat, acc: seq<nat>)
    requires |v| == |w| && Positive(w) && Filled(v, w, dp, prev) && c < |dp| && |acc| == |w|
    ensures var (cnt, e) := Walk(w, prev, c, acc);
      && |cnt| == |w| && e <= c
      && Weight(w, cnt) == Weight(w, acc) + (c - e)
      && Value(v, cnt) == Value(v, acc) + (dp[c] - dp[e])
      && (e == 0 || dp[e] == Sentinel)
    decreases c
  {
    if c > 0 {
      assert CellOk(v, w, dp, prev, c);
      if prev[c] != -1 {
        var i := prev[c];
        WeightBump(w, acc, i);
        ValueBump(v, acc, i);
        WalkSpec(v, w, dp, prev, c - w[i], acc[i := acc[i] + 1]);
      }
    }
  }

  /** `solve_unbounded_knapsack(values, weights, capacity)` as a value: `(best_value, counts)`. */
  function Knapsack(v: seq<real>, w: seq<int>, cap: nat): (r: (real, seq<nat>))
    requires |v| == |w| && Positive(w)
    ensures |r.1| == |w|
  {
    var t := Tables(v, w, cap);
    var bestCap := FirstArgMax(t.0);
    (t.0[bestCap], Walk(w, t.1, bestCap, Zeros(|w|)).0)
  }

  /** The capacity the answer is rebuilt from. */
  function BestCapacity(v: seq<real>, w: seq<int>, cap: nat): nat
    requires |v| == |w| && Positive(w)
  {
    FirstArgMax(Tables(v, w, cap).0)
  }

  // ---------------------------------------------------------------------------
  // What the answer means
  // ---------------------------------------------------------------------------

  /**
   * The walk from the best capacity always ends at capacity 0: an entry derived
   * from the sentinel never holds the largest value of the table.
   */
  lemma {:induction false} WalkFromBestReachesZero(v: seq<real>, w: seq<int>, cap: nat)
    requires |v| == |w| && Positive(w)
    ensures var t := Tables(v, w, cap);
      Walk(w, t.1, BestCapacity(v, w, cap), Zeros(|w|)).1 == 0
  {
    var dp, prev := Tables(v, w, cap).0, Tables(v, w, cap).1;
    var bc := BestCapacity(v, w, cap);
    TablesFilled(v, w, cap);
    WalkSpec(v, w, dp, prev, bc, Zeros(|w|));
    WeightOfZeros(w);
    ValueOfZeros(v);
    var cnt := Walk(w, prev, bc, Zeros(|w|)).0;
    var e := Walk(w, prev, bc, Zeros(|w|)).1;
    if e != 0 {
      // the rebuilt counts would be worth dp[bc] + 1e9 while weighing bc - e
      PackingBound(v, w, dp, prev, cnt);
    }
  }

  /**
   * The answer is a packing that fits the capacity, is worth exactly `best_value`,
   * and no packing that fits is worth more; `best_value` is never negative
   * because the empty packing is always available.
   */
  lemma {:induction false} KnapsackOptimal(v: seq<real>, w: seq<int>, cap: nat)
    requires |v| == |w| && Positive(w)
    ensures var (best, counts) := Knapsack(v, w, cap);
      && Fits(w, counts, cap)
      && Value(v, counts) == best
      && best >= 0.0
      && forall p :: Fits(w, p, cap) ==> Value(v, p) <= best
  {
    var dp, prev := Tables(v, w, cap).0, Tables(v, w, cap).1;
    var bc := BestCapacity(v, w, cap);
    TablesFilled(v, w, cap);
    WalkSpec(v, w, dp, prev, bc, Zeros(|w|));
    WeightOfZeros(w);
    ValueOfZeros(v);
    WalkFromBestReachesZero(v, w, cap);
    forall p | Fits(w, p, cap)
      ensures Value(v, p) <= dp[bc]
    {
      WeightZero(w, p);
      PackingBound(v, w, dp, prev, p);
    }
  }

  /**
   * Among the optimal packings the answer is one of least total length: the
   * smallest capacity holding the largest table entry is the one rebuilt.
   */
  lemma {:induction false} KnapsackLightestOptimum(v: seq<real>, w: seq<int>, cap: nat)
    requires |v| == |w| && Positive(w)
    ensures var (best, counts) := Knapsack(v, w, cap);
      && |counts| == |w|
      && forall p :: Fits(w, p, cap) && Value(v, p) == best ==> Weight(w, counts) <= Weight(w, p)
  {
    var dp, prev := Tables(v, w, cap).0, Tables(v, w, cap).1;
    var bc := BestCapacity(v, w, cap);
    TablesFilled(v, w, cap);
    WalkSpec(v, w, dp, prev, bc, Zeros(|w|));
    WeightOfZeros(w);
    WalkFromBestReachesZero(v, w, cap);
    forall p | Fits(w, p, cap) && Value(v, p) == dp[bc]
      ensures bc <= Weight(w, p)
    {
      WeightZero(w, p);
      PackingBound(v, w, dp, prev, p);
    }
  }

  /** When no packing is worth anything, the answer is 0 with every count 0. */
  lemma {:induction false} KnapsackEmptyWhenUnprofitable(v: seq<real>, w: seq<int>, cap: nat)
    requires |v| == |w| && Positive(w)
    requires forall p :: Fits(w, p, cap) ==> Value(v, p) <= 0.0
    ensures Knapsack(v, w, cap) == (0.0, Zeros(|w|))
  {
    KnapsackOptimal(v, w, cap);
    KnapsackLightestOptimum(v, w, cap);
    var counts := Knapsack(v, w, cap).1;
    WeightOfZeros(w);
    ValueOfZeros(v);
    assert Fits(w, Zeros(|w|), cap);
    WeightZero(w, counts);
  }

  /**
   * Tie-breaking inside the table: an entry's recorded choice is the first item
   * whose offer reaches the entry, and no item offers more.
   */
  lemma {:induction false} KnapsackFirstImprovingChoice(v: seq<real>, w: seq<int>, cap: nat, c: nat)
    requires |v| == |w| && Positive(w) && 0 < c <= cap
    ensures var (dp, prev) := Tables(v, w, cap);
      && (forall j :: 0 <= j < |w| && w[j] <= c ==> Cand(v, w, dp, c, j) <= dp[c])
      && (prev[c] != -1 ==>
            && 0 <= prev[c] < |w| && w[prev[c]] <= c && dp[c] == Cand(v, w, dp, c, prev[c])
            && forall j :: 0 <= j < prev[c] && w[j] <= c ==> Cand(v, w, dp, c, j) < dp[c])
  {
    TablesFilled(v, w, cap);
    assert CellOk(v, w, Tables(v, w, cap).0, Tables(v, w, cap).1, c);
  }

  /** Weight and value of a two-item packing written out, for the worked example below. */
  lemma TwoItemSums(v: seq<real>, w: seq<int>, c: seq<nat>)
    requires |v| == 2 && |w| == 2 && |c| == 2
    ensures Weight(w, c) == w[0] * c[0] + w[1] * c[1]
    ensures Value(v, c) == v[0] * (c[0] as real) + v[1] * (c[1] as real)
  {
    assert Weight(w[1..][1..], c[1..][1..]) == 0;
    assert Value(v[1..][1..], c[1..][1..]) == 0.0;
  }

  /** The worked example: values [10, 20], weights [2, 3], capacity 7 give 40. */
  lemma KnapsackExample()
    ensures Knapsack([10.0, 20.0], [2, 3], 7).0 == 40.0
  {
    var v, w := [10.0, 20.0], [2, 3];
    KnapsackOptimal(v, w, 7);
    var best, counts := Knapsack(v, w, 7).0, Knapsack(v, w, 7).1;
    var p: seq<nat> := [2, 1];
    TwoItemSums(v, w, p);
    assert Fits(w, p, 7) && Value(v, p) == 40.0;
    TwoItemSums(v, w, counts);
    var a, b := counts[0], counts[1];
    assert 2 * a + 3 * b <= 7;
    assert best == 10.0 * (a as real) + 20.0 * (b as real);
    assert best <= 40.0 by {
      if b >= 2 {
        assert a == 0 && b == 2;
      } else if b == 1 {
        assert a <= 2;
      }
    }
  }

  // ---------------------------------------------------------------------------
  // The imperative solver
  // ---------------------------------------------------------------------------

  /**
   * The inner loop of the forward pass: every item that fits capacity `cap`
   * offers `dp[cap - w] + value`, and the entry moves only on a strict
   * improvement. Nothing but the entries for `cap` changes.
   */
  method ScanItems(values: seq<real>, weights: seq<int>, dp: array<real>, prevChoice: array<int>, cap: nat)
    requires |values| == |weights| && Positive(weights)
    requires 0 < cap < dp.Length && dp.Length == prevChoice.Length
    requires dp[cap] == Sentinel && prevChoice[cap] == -1
    modifies dp, prevChoice
    ensures forall c :: 0 <= c < dp.Length && c != cap ==> dp[c] == old(dp[c]) && prevChoice[c] == old(prevChoice[c])
    ensures (dp[cap], prevChoice[cap]) == Improve(values, weights, old(dp[..cap]), 0, Sentinel, -1)
  {
    ghost var row := dp[..cap];
    var i := 0;
    while i < |values|
      invariant 0 <= i <= |values|
      invariant dp[..cap] == row
      invariant forall c :: 0 <= c < dp.Length && c != cap ==> dp[c] == old(dp[c]) && prevChoice[c] == old(prevChoice[c])
      invariant Improve(values, weights, row, i, dp[cap], prevChoice[cap])
             == Improve(values, weights, row, 0, Sentinel, -1)
    {
      var w := weights[i];
      if w <= cap {
        var val := dp[cap - w] + values[i];
        if val > dp[cap] {
          dp[cap] := val;
          prevChoice[cap] := i;
        }
      }
      i := i + 1;
    }
  }

  /**
   * The forward pass of `solve_unbounded_knapsack`: fills `dp` and `prev_choice`
   * capacity by capacity, scanning the items in index order and moving an entry
   * only on a strict improvement.
   */
  method FillTables(values: seq<real>, weights: seq<int>, capacity: nat)
    returns (table: seq<real>, choices: seq<int>)
    requires |values| == |weights| && Positive(weights)
    ensures (table, choices) == Tables(values, weights, capacity)
  {
    var dp := new real[capacity + 1](_ => Sentinel);
    dp[0] := 0.0;
    var prevChoice := new int[capacity + 1](_ => -1);
    var cap := 1;
    while cap <= capacity
      invariant 1 <= cap <= capacity + 1
      invariant dp[..cap] == Tables(values, weights, cap - 1).0
      invariant prevChoice[..cap] == Tables(values, weights, cap - 1).1
      invariant forall c :: cap <= c <= capacity ==> dp[c] == Sentinel && prevChoice[c] == -1
    {
      ghost var row := dp[..cap];
      ghost var choicesSoFar := prevChoice[..cap];
      ScanItems(values, weights, dp, prevChoice, cap);
      assert dp[..cap + 1] == row + [dp[cap]];
      assert prevChoice[..cap + 1] == choicesSoFar + [prevChoice[cap]];
      cap := cap + 1;
    }
    assert dp[..] == dp[..capacity + 1];
    assert prevChoice[..] == prevChoice[..capacity + 1];
    table, choices := dp[..], prevChoice[..];
  }

  /**
   * The walk-back of `solve_unbounded_knapsack`: from capacity `start`, while a
   * choice is recorded, count one of the chosen item and step down by its length.
   */
  method WalkBack(weights: seq<int>, choices: seq<int>, start: nat) returns (counts: seq<nat>)
    requires Positive(weights) && Choices(weights, choices) && start < |choices|
    ensures counts == Walk(weights, choices, start, Zeros(|weights|)).0
  {
    var cnt := new nat[|weights|](_ => 0);
    assert cnt[..] == Zeros(|weights|);
    var c := start;
    while c > 0 && choices[c] != -1
      invariant 0 <= c <= start
      invariant Walk(weights, choices, c, cnt[..]) == Walk(weights, choices, start, Zeros(|weights|))
      decreases c
    {
      var i := choices[c];
      cnt[i] := cnt[i] + 1;
      c := c - weights[i];
    }
    counts := cnt[..];
  }

  /**
   * `solve_unbounded_knapsack`: fills the tables, picks the first capacity with
   * the largest entry (`max(range(capacity+1), key=...)`) and walks back from it.
   */
  method SolveUnboundedKnapsack(values: seq<real>, weights: seq<int>, capacity: nat)
    returns (bestValue: real, counts: seq<nat>)
    requires |values| == |weights| && Positive(weights)
    ensures (bestValue, counts) == Knapsack(values, weights, capacity)
  {
    var dp, prevChoice := FillTables(values, weights, capacity);
    // the first walk-back, from `capacity` itself, whose result is discarded
    var _ := WalkBack(weights, prevChoice, capacity);
    var bestCap := FirstArgMax(dp);
    bestValue := dp[bestCap];
    counts := WalkBack(weights, prevChoice, bestCap);
  }
}
