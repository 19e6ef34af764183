/**
 * Cutting patterns of the column-generation strategy: the trivial patterns it
 * starts from (`generate_trivial_patterns`) and the pricing step that proposes
 * a new pattern from the dual prices of the demand constraints.
 */
module Patterns {
  import opened Wrappers
  import opened Entities
  import Knapsack

  /** `TOL`: a reduced cost counts as improving only below `-TOL`. */
  const Tol: real := 0.00000001

  /**
   * One column: the stock type it is cut from (`stock_index`), that stock's
   * length, how many pieces of each part type (`pattern`) and the offcut (`waste`).
   */
  datatype Pattern = Pattern(stockIndex: nat, stockLength: int, counts: seq<nat>, waste: int)

  /** Part lengths must be positive: they divide stock lengths and index the knapsack table. */
  predicate ValidParts(parts: seq<Part>) {
    forall i :: 0 <= i < |parts| ==> parts[i].length > 0
  }

  function PartLengths(parts: seq<Part>): (r: seq<int>)
    ensures |r| == |parts| && forall i :: 0 <= i < |parts| ==> r[i] == parts[i].length
  {
    seq(|parts|, i requires 0 <= i < |parts| => parts[i].length)
  }

  /** A pattern that can be cut: it names a stock type, has one count per part and a non-negative offcut. */
  predicate WellFormed(p: Pattern, parts: seq<Part>, stocks: seq<Stock>) {
    && p.stockIndex < |stocks|
    && p.stockLength == stocks[p.stockIndex].length
    && |p.counts| == |parts|
    && p.waste == p.stockLength - Knapsack.Weight(PartLengths(parts), p.counts)
    && p.waste >= 0
  }

  // ---------------------------------------------------------------------------
  // Trivial patterns
  // ---------------------------------------------------------------------------

  /** The trivial pattern of stock `k` for part `i`: as many pieces of part `i` as the stock holds, nothing else. */
  function TrivialFor(parts: seq<Part>, s: Stock, k: nat, i: nat): Pattern
    requires ValidParts(parts) && i < |parts|
  {
    var qty := s.length / parts[i].length;
    Pattern(k, s.length, Knapsack.Zeros(|parts|)[i := qty], s.length - qty * parts[i].length)
  }

  /** The patterns the inner loop adds for stock `s` (index `k`) over parts `0..n-1`. */
  function RowPatterns(parts: seq<Part>, s: Stock, k: nat, n: nat): seq<Pattern>
    requires ValidParts(parts) && n <= |parts|
  {
    if n == 0 then []
    else
      RowPatterns(parts, s, k, n - 1)
      + (if s.length / parts[n - 1].length > 0 then [TrivialFor(parts, s, k, n - 1)] else [])
  }

  /** The patterns the outer loop has collected after stocks `0..m-1`. */
  function TrivialUpTo(parts: seq<Part>, stocks: seq<Stock>, m: nat): seq<Pattern>
    requires ValidParts(parts) && m <= |stocks|
  {
    if m == 0 then []
    else TrivialUpTo(parts, stocks, m - 1) + RowPatterns(parts, stocks[m - 1], m - 1, |parts|)
  }

  function TrivialPatterns(parts: seq<Part>, stocks: seq<Stock>): seq<Pattern>
    requires ValidParts(parts)
  {
    TrivialUpTo(parts, stocks, |stocks|)
  }

  /** `generate_trivial_patterns`: for every stock and every part, one pattern when at least one piece fits. */
  method GenerateTrivialPatterns(parts: seq<Part>, stocks: seq<Stock>) returns (patterns: seq<Pattern>)
    requires ValidParts(parts)
    ensures patterns == TrivialPatterns(parts, stocks)
  {
    patterns := [];
    var k := 0;
    while k < |stocks|
      invariant 0 <= k <= |stocks|
      invariant patterns == TrivialUpTo(parts, stocks, k)
    {
      var stock := stocks[k];
      ghost var before := patterns;
      var i := 0;
      while i < |parts|
        invariant 0 <= i <= |parts|
        invariant patterns == before + RowPatterns(parts, stock, k, i)
      {
        var qty := stock.length / parts[i].length;
        if qty > 0 {
          var pattern := seq(|parts|, _ => 0)[i := qty];
          var waste := stock.length - qty * parts[i].length;
          patterns := patterns + [Pattern(k, stock.length, pattern, waste)];
        }
        i := i + 1;
      }
      k := k + 1;
    }
  }

  /** Whether part `i` fits stock `k` at least once. */
  predicate Fitting(parts: seq<Part>, stocks: seq<Stock>, k: nat, i: nat) {
    k < |stocks| && i < |parts| && parts[i].length <= stocks[k].length
  }

  /** Reference enumeration: the (stock, part) pairs that fit, stock by stock, part by part. */
  function RowPairs(parts: seq<Part>, s: Stock, k: nat, n: nat): (r: seq<(nat, nat)>)
    requires n <= |parts|
    ensures forall t :: 0 <= t < |r| ==> r[t].0 == k && r[t].1 < n
  {
    if n == 0 then []
    else RowPairs(parts, s, k, n - 1) + (if parts[n - 1].length <= s.length then [(k, n - 1)] else [])
  }

  function PairsUpTo(parts: seq<Part>, stocks: seq<Stock>, m: nat): (r: seq<(nat, nat)>)
    requires m <= |stocks|
    ensures forall t :: 0 <= t < |r| ==> r[t].0 < m && r[t].1 < |parts|
  {
    if m == 0 then [] else PairsUpTo(parts, stocks, m - 1) + RowPairs(parts, stocks[m - 1], m - 1, |parts|)
  }

  predicate LexLess(a: (nat, nat), b: (nat, nat)) {
    a.0 < b.0 || (a.0 == b.0 && a.1 < b.1)
  }

  predicate StrictlyIncreasing(s: seq<(nat, nat)>) {
    forall a, b :: 0 <= a < b < |s| ==> LexLess(s[a], s[b])
  }

  lemma FitsIffPositiveQuotient(len: nat, partLength: int)
    requires partLength > 0
    ensures len / partLength > 0 <==> partLength <= len
  {
  }

  lemma {:induction false} RowPairsSpec(parts: seq<Part>, s: Stock, k: nat, n: nat)
    requires n <= |parts|
    ensures StrictlyIncreasing(RowPairs(parts, s, k, n))
    ensures forall i: nat :: (k, i) in RowPairs(parts, s, k, n) <==> i < n && parts[i].length <= s.length
  {
    if n > 0 {
      RowPairsSpec(parts, s, k, n - 1);
    }
  }

  lemma {:induction false} PairsUpToSpec(parts: seq<Part>, stocks: seq<Stock>, m: nat)
    requires m <= |stocks|
    ensures StrictlyIncreasing(PairsUpTo(parts, stocks, m))
    ensures forall k: nat, i: nat :: (k, i) in PairsUpTo(parts, stocks, m) <==> k < m && Fitting(parts, stocks, k, i)
  {
    if m > 0 {
      var prev := PairsUpTo(parts, stocks, m - 1);
      var row := RowPairs(parts, stocks[m - 1], m - 1, |parts|);
      PairsUpToSpec(parts, stocks, m - 1);
      RowPairsSpec(parts, stocks[m - 1], m - 1, |parts|);
      var all := prev + row;
      forall a, b | 0 <= a < b < |all|
        ensures LexLess(all[a], all[b])
      {
        if b < |prev| {
        } else if a < |prev| {
          assert all[a] == prev[a] && all[b] == row[b - |prev|];
        } else {
          assert all[a] == row[a - |prev|] && all[b] == row[b - |prev|];
        }
      }
      forall k: nat, i: nat
        ensures (k, i) in all <==> k < m && Fitting(parts, stocks, k, i)
      {
        if k == m - 1 {
          assert (k, i) !in prev;
        } else {
          assert (k, i) !in row;
        }
      }
    }
  }

  lemma {:induction false} RowPatternsFollowPairs(parts: seq<Part>, s: Stock, k: nat, n: nat)
    requires ValidParts(parts) && n <= |parts|
    ensures |RowPatterns(parts, s, k, n)| == |RowPairs(parts, s, k, n)|
    ensures forall t :: 0 <= t < |RowPairs(parts, s, k, n)| ==>
      RowPatterns(parts, s, k, n)[t] == TrivialFor(parts, s, k, RowPairs(parts, s, k, n)[t].1)
  {
    if n > 0 {
      RowPatternsFollowPairs(parts, s, k, n - 1);
      RowPairsSpec(parts, s, k, n - 1);
      FitsIffPositiveQuotient(s.length, parts[n - 1].length);
    }
  }

  /** Pattern `t` is the trivial pattern of pair `t`, for every `t`. */
  predicate FollowsPairs(parts: seq<Part>, stocks: seq<Stock>, patterns: seq<Pattern>, pairs: seq<(nat, nat)>)
    requires ValidParts(parts)
  {
    && |patterns| == |pairs|
    && forall t :: 0 <= t < |pairs| ==>
         && pairs[t].0 < |stocks| && pairs[t].1 < |parts|
         && patterns[t] == TrivialFor(parts, stocks[pairs[t].0], pairs[t].0, pairs[t].1)
  }

  lemma FollowsPairsAppend(parts: seq<Part>, stocks: seq<Stock>, p1: seq<Pattern>, q1: seq<(nat, nat)>,
                           p2: seq<Pattern>, q2: seq<(nat, nat)>)
    requires ValidParts(parts)
    requires FollowsPairs(parts, stocks, p1, q1) && FollowsPairs(parts, stocks, p2, q2)
    ensures FollowsPairs(parts, stocks, p1 + p2, q1 + q2)
  {
    var p, q := p1 + p2, q1 + q2;
    forall t | 0 <= t < |q|
      ensures q[t].0 < |stocks| && q[t].1 < |parts|
      ensures p[t] == TrivialFor(parts, stocks[q[t].0], q[t].0, q[t].1)
    {
      if t < |q1| {
        assert q[t] == q1[t] && p[t] == p1[t];
      } else {
        assert q[t] == q2[t - |q1|] && p[t] == p2[t - |q1|];
      }
    }
  }

  lemma {:induction false} TrivialFollowsPairs(parts: seq<Part>, stocks: seq<Stock>, m: nat)
    requires ValidParts(parts) && m <= |stocks|
    ensures FollowsPairs(parts, stocks, TrivialUpTo(parts, stocks, m), PairsUpTo(parts, stocks, m))
  {
    if m > 0 {
      var row := RowPairs(parts, stocks[m - 1], m - 1, |parts|);
      var rowPatterns := RowPatterns(parts, stocks[m - 1], m - 1, |parts|);
      TrivialFollowsPairs(parts, stocks, m - 1);
      RowPatternsFollowPairs(parts, stocks[m - 1], m - 1, |parts|);
      assert FollowsPairs(parts, stocks, rowPatterns, row);
      FollowsPairsAppend(parts, stocks, TrivialUpTo(parts, stocks, m - 1), PairsUpTo(parts, stocks, m - 1),
                         rowPatterns, row);
    }
  }

  lemma {:induction false} WeightOfSingle(w: seq<int>, i: nat, q: nat)
    requires i < |w|
    ensures Knapsack.Weight(w, Knapsack.Zeros(|w|)[i := q]) == w[i] * q
  {
    var c := Knapsack.Zeros(|w|)[i := q];
    if i == 0 {
      assert c[1..] == Knapsack.Zeros(|w| - 1);
      Knapsack.WeightOfZeros(w[1..]);
    } else {
      assert c[1..] == Knapsack.Zeros(|w| - 1)[i - 1 := q];
      WeightOfSingle(w[1..], i - 1, q);
    }
  }

  /**
   * A trivial pattern for a fitting pair cuts as many pieces as fit (at least
   * one) of that part and nothing else, and wastes less than one piece.
   */
  lemma TrivialForSpec(parts: seq<Part>, stocks: seq<Stock>, k: nat, i: nat)
    requires ValidParts(parts) && Fitting(parts, stocks, k, i)
    ensures var p := TrivialFor(parts, stocks[k], k, i);
      && WellFormed(p, parts, stocks)
      && p.counts[i] >= 1
      && p.counts[i] * parts[i].length <= stocks[k].length < (p.counts[i] + 1) * parts[i].length
      && (forall j :: 0 <= j < |parts| && j != i ==> p.counts[j] == 0)
      && p.waste < parts[i].length
  {
    var L := parts[i].length;
    WeightOfSingle(PartLengths(parts), i, stocks[k].length / L);
  }

  /**
   * `generate_trivial_patterns` yields exactly one pattern per (stock, part)
   * pair where the part fits the stock, ordered by stock and then by part.
   */
  lemma TrivialPatternsSpec(parts: seq<Part>, stocks: seq<Stock>)
    requires ValidParts(parts)
    ensures var pairs := PairsUpTo(parts, stocks, |stocks|);
      && StrictlyIncreasing(pairs)
      && (forall k: nat, i: nat :: (k, i) in pairs <==> Fitting(parts, stocks, k, i))
      && |TrivialPatterns(parts, stocks)| == |pairs|
      && (forall t :: 0 <= t < |pairs| ==>
            TrivialPatterns(parts, stocks)[t] == TrivialFor(parts, stocks[pairs[t].0], pairs[t].0, pairs[t].1))
  {
    PairsUpToSpec(parts, stocks, |stocks|);
    TrivialFollowsPairs(parts, stocks, |stocks|);
  }

  /** Every trivial pattern can be cut from the stock it names. */
  lemma TrivialPatternsWellFormed(parts: seq<Part>, stocks: seq<Stock>)
    requires ValidParts(parts)
    ensures forall p :: p in TrivialPatterns(parts, stocks) ==> WellFormed(p, parts, stocks)
  {
    TrivialPatternsSpec(parts, stocks);
    var pairs := PairsUpTo(parts, stocks, |stocks|);
    forall p | p in TrivialPatterns(parts, stocks)
      ensures WellFormed(p, parts, stocks)
    {
      var t :| 0 <= t < |TrivialPatterns(parts, stocks)| && TrivialPatterns(parts, stocks)[t] == p;
      assert pairs[t] in pairs;
      TrivialForSpec(parts, stocks, pairs[t].0, pairs[t].1);
    }
  }

  /** There are no trivial patterns exactly when no part fits any stock: the `ValueError` case. */
  lemma TrivialPatternsEmptyIff(parts: seq<Part>, stocks: seq<Stock>)
    requires ValidParts(parts)
    ensures TrivialPatterns(parts, stocks) == []
        <==> forall k, i :: 0 <= k < |stocks| && 0 <= i < |parts| ==> stocks[k].length < parts[i].length
  {
    TrivialPatternsSpec(parts, stocks);
    var pairs := PairsUpTo(parts, stocks, |stocks|);
    if |pairs| > 0 {
      assert pairs[0] in pairs;
      assert Fitting(parts, stocks, pairs[0].0, pairs[0].1);
    } else {
      forall k, i | 0 <= k < |stocks| && 0 <= i < |parts|
        ensures stocks[k].length < parts[i].length
      {
        assert (k as nat, i as nat) !in pairs;
      }
    }
  }

  // ---------------------------------------------------------------------------
  // Pricing
  // ---------------------------------------------------------------------------

  /** `reduced_cost`: stock `k`'s cost (its length) minus the best knapsack value under `duals`. */
  function ReducedCost(duals: seq<real>, parts: seq<Part>, stocks: seq<Stock>, k: nat): real
    requires |duals| == |parts| && ValidParts(parts) && k < |stocks|
  {
    stocks[k].length as real - Knapsack.Knapsack(duals, PartLengths(parts), stocks[k].length).0
  }

  /** The pattern the knapsack proposes for stock `k`. */
  function NewPattern(duals: seq<real>, parts: seq<Part>, stocks: seq<Stock>, k: nat): Pattern
    requires |duals| == |parts| && ValidParts(parts) && k < |stocks|
  {
    var counts := Knapsack.Knapsack(duals, PartLengths(parts), stocks[k].length).1;
    Pattern(k, stocks[k].length, counts, stocks[k].length - Knapsack.Weight(PartLengths(parts), counts))
  }

  /** What the knapsack of each stock type proposes: its reduced cost and its pattern, stock by stock. */
  function Candidates(duals: seq<real>, parts: seq<Part>, stocks: seq<Stock>): (r: seq<(real, Pattern)>)
    requires |duals| == |parts| && ValidParts(parts)
    ensures |r| == |stocks|
    ensures forall k :: 0 <= k < |stocks| ==>
      r[k] == (ReducedCost(duals, parts, stocks, k), NewPattern(duals, parts, stocks, k))
  {
    seq(|stocks|, k requires 0 <= k < |stocks| =>
      (ReducedCost(duals, parts, stocks, k), NewPattern(duals, parts, stocks, k)))
  }

  /** The pricing scan from candidate `k` on, holding the best reduced cost so far and its pattern. */
  function SelectFrom(cands: seq<(real, Pattern)>, k: nat, bestReduced: real, best: Option<Pattern>): Option<Pattern>
    requires k <= |cands|
    decreases |cands| - k
  {
    if k == |cands| then best
    else if cands[k].0 < bestReduced - Tol then SelectFrom(cands, k + 1, cands[k].0, Some(cands[k].1))
    else SelectFrom(cands, k + 1, bestReduced, best)
  }

  /** `best_new_pattern`: the outcome of the pricing scan, starting from a best reduced cost of 0. */
  function BestPattern(duals: seq<real>, parts: seq<Part>, stocks: seq<Stock>): Option<Pattern>
    requires |duals| == |parts| && ValidParts(parts)
  {
    SelectFrom(Candidates(duals, parts, stocks), 0, 0.0, None)
  }

  /**
   * One pricing step of `optimize`: the knapsack for stock `k` over the part
   * lengths, giving the stock's reduced cost and the pattern it proposes.
   */
  method PriceStock(duals: seq<real>, parts: seq<Part>, weights: seq<int>, stocks: seq<Stock>, k: nat)
    returns (reducedCost: real, pattern: Pattern)
    requires |duals| == |parts| && ValidParts(parts) && k < |stocks|
    requires weights == PartLengths(parts)
    ensures reducedCost == ReducedCost(duals, parts, stocks, k)
    ensures pattern == NewPattern(duals, parts, stocks, k)
  {
    var lk := stocks[k].length;
    var bestVal, counts := Knapsack.SolveUnboundedKnapsack(duals, weights, lk);
    reducedCost := lk as real - bestVal;
    pattern := Pattern(k, lk, counts, lk - Knapsack.Weight(weights, counts));
  }

  /** The pricing loop of `optimize`: one knapsack per stock type, keeping the first strictly better column. */
  method PriceColumns(duals: seq<real>, parts: seq<Part>, stocks: seq<Stock>) returns (best: Option<Pattern>)
    requires |duals| == |parts| && ValidParts(parts)
    ensures best == BestPattern(duals, parts, stocks)
  {
    ghost var cands := Candidates(duals, parts, stocks);
    var bestReduced := 0.0;
    best := None;
    var weights := PartLengths(parts);
    var k := 0;
    while k < |stocks|
      invariant 0 <= k <= |stocks|
      invariant SelectFrom(cands, k, bestReduced, best) == BestPattern(duals, parts, stocks)
    {
      var reducedCost, pattern := PriceStock(duals, parts, weights, stocks, k);
      assert cands[k] == (reducedCost, pattern);
      if reducedCost < bestReduced - Tol {
        bestReduced := reducedCost;
        best := Some(pattern);
      }
      k := k + 1;
    }
  }

  /** No candidate from `k` on improves on `b` by more than `TOL`. */
  predicate NoneBelow(cands: seq<(real, Pattern)>, k: nat, b: real) {
    forall j :: k <= j < |cands| ==> cands[j].0 >= b - Tol
  }

  /**
   * Candidate `j` is the one the scan from `k` keeps: it improves on `b`, it is
   * strictly below every candidate before it and within `TOL` of every one after it.
   */
  predicate ChosenAt(cands: seq<(real, Pattern)>, k: nat, b: real, r: Option<Pattern>, j: nat) {
    && k <= j < |cands|
    && r == Some(cands[j].1)
    && cands[j].0 < b - Tol
    && (forall i :: k <= i < j ==> cands[i].0 > cands[j].0)
    && NoneBelow(cands, j + 1, cands[j].0)
  }

  /** What the scan from `k` returns: `best` unchanged when nothing improves on `b`, else the kept candidate. */
  ghost predicate Selected(cands: seq<(real, Pattern)>, k: nat, b: real, best: Option<Pattern>, r: Option<Pattern>) {
    (r == best && NoneBelow(cands, k, b)) || exists j :: ChosenAt(cands, k, b, r, j)
  }

  /**
   * Taking a candidate that improves on `b` keeps it unless the rest of the
   * scan undercuts it; either way the outcome is the kept candidate.
   */
  lemma ImprovingCandidate(cands: seq<(real, Pattern)>, k: nat, b: real, best: Option<Pattern>, r: Option<Pattern>)
    requires k < |cands| && cands[k].0 < b - Tol
    requires Selected(cands, k + 1, cands[k].0, Some(cands[k].1), r)
    ensures Selected(cands, k, b, best, r)
  {
    if r == Some(cands[k].1) && NoneBelow(cands, k + 1, cands[k].0) {
      assert ChosenAt(cands, k, b, r, k);
    } else {
      var j :| ChosenAt(cands, k + 1, cands[k].0, r, j);
      assert ChosenAt(cands, k, b, r, j);
    }
  }

  /** Skipping a candidate that does not improve on `b` keeps the outcome of the rest of the scan. */
  lemma SkippedCandidate(cands: seq<(real, Pattern)>, k: nat, b: real, best: Option<Pattern>, r: Option<Pattern>)
    requires k < |cands| && cands[k].0 >= b - Tol
    requires Selected(cands, k + 1, b, best, r)
    ensures Selected(cands, k, b, best, r)
  {
    if r == best && NoneBelow(cands, k + 1, b) {
      assert NoneBelow(cands, k, b);
    } else {
      var j :| ChosenAt(cands, k + 1, b, r, j);
      assert ChosenAt(cands, k, b, r, j);
    }
  }

  lemma {:induction false} SelectFromSpec(cands: seq<(real, Pattern)>, k: nat, b: real, best: Option<Pattern>)
    requires k <= |cands|
    decreases |cands| - k
    ensures Selected(cands, k, b, best, SelectFrom(cands, k, b, best))
  {
    var r := SelectFrom(cands, k, b, best);
    if k == |cands| {
      assert NoneBelow(cands, k, b);
    } else if cands[k].0 < b - Tol {
      var b' := cands[k].0;
      assert r == SelectFrom(cands, k + 1, b', Some(cands[k].1));
      SelectFromSpec(cands, k + 1, b', Some(cands[k].1));
      ImprovingCandidate(cands, k, b, best, r);
    } else {
      assert r == SelectFrom(cands, k + 1, b, best);
      SelectFromSpec(cands, k + 1, b, best);
      SkippedCandidate(cands, k, b, best, r);
    }
  }

  /**
   * Pricing finds no column exactly when every stock's reduced cost is at least
   * `-TOL`; otherwise the column it returns comes from a stock whose reduced cost
   * is below `-TOL`, strictly below every earlier stock's, and within `TOL` of
   * every later stock's.
   */
  lemma BestPatternSpec(duals: seq<real>, parts: seq<Part>, stocks: seq<Stock>)
    requires |duals| == |parts| && ValidParts(parts)
    ensures BestPattern(duals, parts, stocks) == None
        <==> forall j :: 0 <= j < |stocks| ==> ReducedCost(duals, parts, stocks, j) >= -Tol
    ensures BestPattern(duals, parts, stocks) != None ==>
      exists j :: 0 <= j < |stocks| && BestPattern(duals, parts, stocks) == Some(NewPattern(duals, parts, stocks, j))
        && ReducedCost(duals, parts, stocks, j) < -Tol
        && (forall i :: 0 <= i < j ==> ReducedCost(duals, parts, stocks, i) > ReducedCost(duals, parts, stocks, j))
        && (forall i :: j < i < |stocks| ==>
              ReducedCost(duals, parts, stocks, i) >= ReducedCost(duals, parts, stocks, j) - Tol)
  {
    var cands := Candidates(duals, parts, stocks);
    var r := BestPattern(duals, parts, stocks);
    SelectFromSpec(cands, 0, 0.0, None);
    if r == None {
      assert NoneBelow(cands, 0, 0.0);
      forall j | 0 <= j < |stocks|
        ensures ReducedCost(duals, parts, stocks, j) >= -Tol
      {
        assert cands[j].0 == ReducedCost(duals, parts, stocks, j);
      }
    } else {
      var j :| ChosenAt(cands, 0, 0.0, r, j);
      ChosenReducedCosts(duals, parts, stocks, cands, r, j);
    }
  }

  /** The candidate kept by the scan, read back as reduced costs of the stocks. */
  lemma ChosenReducedCosts(duals: seq<real>, parts: seq<Part>, stocks: seq<Stock>,
                           cands: seq<(real, Pattern)>, r: Option<Pattern>, j: nat)
    requires |duals| == |parts| && ValidParts(parts)
    requires cands == Candidates(duals, parts, stocks)
    requires ChosenAt(cands, 0, 0.0, r, j)
    ensures j < |stocks| && r == Some(NewPattern(duals, parts, stocks, j))
    ensures ReducedCost(duals, parts, stocks, j) < -Tol
    ensures forall i :: 0 <= i < j ==> ReducedCost(duals, parts, stocks, i) > ReducedCost(duals, parts, stocks, j)
    ensures forall i :: j < i < |stocks| ==>
      ReducedCost(duals, parts, stocks, i) >= ReducedCost(duals, parts, stocks, j) - Tol
  {
    assert cands[j] == (ReducedCost(duals, parts, stocks, j), NewPattern(duals, parts, stocks, j));
    forall i | 0 <= i < |stocks|
      ensures cands[i].0 == ReducedCost(duals, parts, stocks, i)
    {
    }
  }

  /**
   * The column proposed for stock `k` can be cut from it, its dual value is the
   * stock's cost minus the reduced cost, and no cuttable pattern of that stock
   * has a larger dual value: the reduced cost is exact.
   */
  lemma NewPatternSpec(duals: seq<real>, parts: seq<Part>, stocks: seq<Stock>, k: nat)
    requires |duals| == |parts| && ValidParts(parts) && k < |stocks|
    ensures var p := NewPattern(duals, parts, stocks, k);
      && WellFormed(p, parts, stocks)
      && p.stockIndex == k
      && Knapsack.Value(duals, p.counts) == stocks[k].length as real - ReducedCost(duals, parts, stocks, k)
      && forall c :: Knapsack.Fits(PartLengths(parts), c, stocks[k].length) ==>
           stocks[k].length as real - Knapsack.Value(duals, c) >= ReducedCost(duals, parts, stocks, k)
  {
    Knapsack.KnapsackOptimal(duals, PartLengths(parts), stocks[k].length);
  }

  /** Whatever pricing returns can be cut from the stock it names. */
  lemma BestPatternWellFormed(duals: seq<real>, parts: seq<Part>, stocks: seq<Stock>)
    requires |duals| == |parts| && ValidParts(parts)
    ensures BestPattern(duals, parts, stocks) != None ==>
      WellFormed(BestPattern(duals, parts, stocks).value, parts, stocks)
  {
    BestPatternSpec(duals, parts, stocks);
    if BestPattern(duals, parts, stocks) != None {
      var j :| 0 <= j < |stocks| && BestPattern(duals, parts, stocks) == Some(NewPattern(duals, parts, stocks, j));
      NewPatternSpec(duals, parts, stocks, j);
    }
  }
}
