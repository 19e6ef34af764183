/**
 * `GreedyOptimizer.optimize`: first-fit decreasing. The items are sorted longest
 * first, every stock type is expanded into `quantity` empty bars, and each item
 * goes into the first bar, in order, that still has room for it. Items that fit
 * nowhere are set aside and are not part of the result.
 */
module GreedyStrategy {
  import opened Entities
  import FirstFitDecreasing

  /** One expanded stock bar: its lengths are fixed on expansion, its pieces grow. */
  datatype Bin = Bin(stockLength: int, usableLength: int, maxAllowed: int, pieces: seq<Item>)

  /** `sum(p.length for p in pieces)`. */
  function Used(pieces: seq<Item>): int {
    if |pieces| == 0 then 0 else Used(pieces[..|pieces| - 1]) + pieces[|pieces| - 1].length
  }

  /** The test of the source: the item fits both the overcut allowance and the bar itself. */
  predicate Accepts(b: Bin, item: Item) {
    Used(b.pieces) + item.length <= b.maxAllowed && Used(b.pieces) + item.length <= b.stockLength
  }

  predicate WithinLimits(b: Bin) {
    Used(b.pieces) <= b.stockLength && Used(b.pieces) <= b.maxAllowed
  }

  /** A fresh bar of stock `s`; `maxAllowed(s)` stands for `int(s.usable_length * (1 + allow_overcut))`. */
  function NewBin(s: Stock, maxAllowed: Stock -> int): Bin {
    Bin(s.length, s.usableLength, maxAllowed(s), [])
  }

  function StockCount(stocks: seq<Stock>): nat {
    if |stocks| == 0 then 0 else StockCount(stocks[..|stocks| - 1]) + stocks[|stocks| - 1].quantity
  }

  /** `expanded_stock`: `quantity` fresh bars per stock type, stock type after stock type. */
  function Expand(stocks: seq<Stock>, maxAllowed: Stock -> int): seq<Bin> {
    if |stocks| == 0 then []
    else
      var last := stocks[|stocks| - 1];
      Expand(stocks[..|stocks| - 1], maxAllowed) + seq(last.quantity, _ => NewBin(last, maxAllowed))
  }

  function FirstFitFrom(bins: seq<Bin>, item: Item, j: nat): (r: int)
    requires j <= |bins|
    ensures r == -1 || j <= r < |bins|
    ensures r >= 0 ==> Accepts(bins[r], item)
    ensures forall k :: j <= k < (if r < 0 then |bins| else r) ==> !Accepts(bins[k], item)
    decreases |bins| - j
  {
    if j == |bins| then -1
    else if Accepts(bins[j], item) then j
    else FirstFitFrom(bins, item, j + 1)
  }

  /** The bar the item goes to: the first that accepts it, or -1 when none does. */
  function FirstFit(bins: seq<Bin>, item: Item): int {
    FirstFitFrom(bins, item, 0)
  }

  /** The bars after one item is offered to them. */
  function Place(bins: seq<Bin>, item: Item): (r: seq<Bin>)
    ensures |r| == |bins|
  {
    var j := FirstFit(bins, item);
    if j < 0 then bins else bins[j := bins[j].(pieces := bins[j].pieces + [item])]
  }

  /** Offering an item changes only the first accepting bar, which gets the item appended. */
  lemma PlaceSpec(bins: seq<Bin>, item: Item, j: nat)
    requires j < |bins|
    ensures Place(bins, item)[j]
         == if j == FirstFit(bins, item) then bins[j].(pieces := bins[j].pieces + [item]) else bins[j]
  {
  }

  /** Offering the items in order: the bars at the end and the items no bar accepted. */
  function Pack(bins: seq<Bin>, items: seq<Item>): (seq<Bin>, seq<Item>)
    decreases |items|
  {
    if |items| == 0 then (bins, [])
    else
      var rest := Pack(Place(bins, items[0]), items[1..]);
      (rest.0, if FirstFit(bins, items[0]) < 0 then [items[0]] + rest.1 else rest.1)
  }

  /** The bar each item went to, in processing order (-1: set aside). */
  function Assignment(bins: seq<Bin>, items: seq<Item>): (r: seq<int>)
    ensures |r| == |items|
    decreases |items|
  {
    if |items| == 0 then []
    else [FirstFit(bins, items[0])] + Assignment(Place(bins, items[0]), items[1..])
  }

  /** The items assigned to bar `j`, in processing order. */
  function AssignedTo(items: seq<Item>, a: seq<int>, j: int): seq<Item>
    requires |a| == |items|
  {
    if |items| == 0 then []
    else (if a[0] == j then [items[0]] else []) + AssignedTo(items[1..], a[1..], j)
  }

  /** One step of `Pack`: the first item is offered, then the rest go to the updated bars. */
  lemma PackStep(bins: seq<Bin>, items: seq<Item>)
    requires |items| > 0
    ensures Pack(bins, items).0 == Pack(Place(bins, items[0]), items[1..]).0
    ensures Pack(bins, items).1
         == (if FirstFit(bins, items[0]) < 0 then [items[0]] else []) + Pack(Place(bins, items[0]), items[1..]).1
  {
    if FirstFit(bins, items[0]) >= 0 {
      assert [] + Pack(Place(bins, items[0]), items[1..]).1 == Pack(Place(bins, items[0]), items[1..]).1;
    }
  }

  /**
   * One iteration of the placement loop keeps the loop's claim: the bars still
   * end as `Pack` says, and the set-aside list grows by the item exactly when
   * no bar takes it.
   */
  lemma PackLoopStep(bins: seq<Bin>, items: seq<Item>, unplaced: seq<Item>)
    requires |items| > 0
    ensures Pack(Place(bins, items[0]), items[1..]).0 == Pack(bins, items).0
    ensures (unplaced + (if FirstFit(bins, items[0]) < 0 then [items[0]] else []))
            + Pack(Place(bins, items[0]), items[1..]).1
         == unplaced + Pack(bins, items).1
  {
    PackStep(bins, items);
    var here: seq<Item> := if FirstFit(bins, items[0]) < 0 then [items[0]] else [];
    assert (unplaced + here) + Pack(Place(bins, items[0]), items[1..]).1
        == unplaced + (here + Pack(Place(bins, items[0]), items[1..]).1);
  }

  function SortedItems(items: seq<Item>): seq<Item> {
    FirstFitDecreasing.SortDesc(items, ItemLength)
  }

  // ---------------------------------------------------------------------------
  // The imperative optimizer
  // ---------------------------------------------------------------------------

  /** The first loop of `optimize`: one empty bar per unit of every stock row, row by row. */
  method ExpandStock(stocks: seq<Stock>, maxAllowed: Stock -> int) returns (expandedStock: seq<Bin>)
    ensures expandedStock == Expand(stocks, maxAllowed)
  {
    expandedStock := [];
    var k := 0;
    while k < |stocks|
      invariant 0 <= k <= |stocks|
      invariant expandedStock == Expand(stocks[..k], maxAllowed)
    {
      var s := stocks[k];
      ghost var before := expandedStock;
      var copy := 0;
      while copy < s.quantity
        invariant 0 <= copy <= s.quantity
        invariant expandedStock == before + seq(copy, _ => NewBin(s, maxAllowed))
      {
        expandedStock := expandedStock + [Bin(s.length, s.usableLength, maxAllowed(s), [])];
        copy := copy + 1;
      }
      assert stocks[..k + 1][..k] == stocks[..k];
      k := k + 1;
    }
    assert stocks[..|stocks|] == stocks;
  }

  /**
   * The inner loop of `optimize` for one item: the first bar whose used length
   * plus the item stays within both its allowance and its stock length takes
   * the item; `placed` says whether one did.
   */
  method FirstFitPlace(bins: seq<Bin>, item: Item) returns (after: seq<Bin>, placed: bool)
    ensures after == Place(bins, item)
    ensures placed <==> FirstFit(bins, item) >= 0
  {
    after := bins;
    placed := false;
    var j := 0;
    while j < |bins|
      invariant 0 <= j <= |bins|
      invariant forall k :: 0 <= k < j ==> !Accepts(bins[k], item)
    {
      var b := bins[j];
      var used := Used(b.pieces);
      if used + item.length <= b.maxAllowed && used + item.length <= b.stockLength {
        after := bins[j := b.(pieces := b.pieces + [item])];
        placed := true;
        assert FirstFit(bins, item) == j;
        return;
      }
      j := j + 1;
    }
    assert FirstFit(bins, item) == -1;
  }

  /**
   * `GreedyOptimizer.optimize(items, stock)`: returns the expanded bars with their
   * pieces; `unplaced` is the source's local list of items that fit nowhere,
   * which the source does not return.
   */
  method Optimize(items: seq<Item>, stocks: seq<Stock>, maxAllowed: Stock -> int)
    returns (expandedStock: seq<Bin>, ghost unplaced: seq<Item>)
    ensures expandedStock == Pack(Expand(stocks, maxAllowed), SortedItems(items)).0
    ensures unplaced == Pack(Expand(stocks, maxAllowed), SortedItems(items)).1
  {
    var sorted := FirstFitDecreasing.SortDesc(items, ItemLength);
    unplaced := [];
    expandedStock := ExpandStock(stocks, maxAllowed);

    ghost var initial := expandedStock;
    var t := 0;
    assert sorted[0..] == sorted;
    assert [] + Pack(initial, sorted).1 == Pack(initial, sorted).1;
    while t < |sorted|
      invariant 0 <= t <= |sorted|
      invariant Pack(expandedStock, sorted[t..]).0 == Pack(initial, sorted).0
      invariant unplaced + Pack(expandedStock, sorted[t..]).1 == Pack(initial, sorted).1
    {
      var item := sorted[t];
      ghost var before := expandedStock;
      var placed;
      expandedStock, placed := FirstFitPlace(expandedStock, item);
      assert sorted[t..][0] == item && sorted[t..][1..] == sorted[t + 1..];
      PackLoopStep(before, sorted[t..], unplaced);
      if !placed {
        unplaced := unplaced + [item];
      }
      t := t + 1;
    }
    assert sorted[t..] == [];
    assert unplaced + [] == unplaced;
  }

  // ---------------------------------------------------------------------------
  // What the result means
  // ---------------------------------------------------------------------------

  lemma {:induction false} ExpandAppend(a: seq<Stock>, b: seq<Stock>, maxAllowed: Stock -> int)
    ensures Expand(a + b, maxAllowed) == Expand(a, maxAllowed) + Expand(b, maxAllowed)
    ensures StockCount(a + b) == StockCount(a) + StockCount(b)
    decreases |b|
  {
    if |b| > 0 {
      assert (a + b)[..|a + b| - 1] == a + b[..|b| - 1];
      ExpandAppend(a, b[..|b| - 1], maxAllowed);
    } else {
      assert a + b == a;
    }
  }

  lemma {:induction false} ExpandLength(stocks: seq<Stock>, maxAllowed: Stock -> int)
    ensures |Expand(stocks, maxAllowed)| == StockCount(stocks)
  {
    if |stocks| > 0 {
      ExpandLength(stocks[..|stocks| - 1], maxAllowed);
    }
  }

  /**
   * The expanded stock has one bar per available unit, in stock order: bar
   * `StockCount(stocks[..k]) + t` is copy `t` of stock type `k`, with no pieces.
   */
  lemma {:induction false} ExpandLayout(stocks: seq<Stock>, maxAllowed: Stock -> int, k: nat, t: nat)
    requires k < |stocks| && t < stocks[k].quantity
    ensures |Expand(stocks, maxAllowed)| == StockCount(stocks)
    ensures StockCount(stocks[..k]) + t < StockCount(stocks)
    ensures Expand(stocks, maxAllowed)[StockCount(stocks[..k]) + t]
         == Bin(stocks[k].length, stocks[k].usableLength, maxAllowed(stocks[k]), [])
  {
    var a, s, b := stocks[..k], stocks[k], stocks[k + 1..];
    assert stocks == a + ([s] + b);
    ExpandAppend(a, [s] + b, maxAllowed);
    ExpandAppend([s], b, maxAllowed);
    assert Expand([s], maxAllowed) == seq(s.quantity, _ => NewBin(s, maxAllowed)) by {
      assert [s][..0] == [];
    }
    ExpandLength(stocks, maxAllowed);
    ExpandLength(a, maxAllowed);
  }

  lemma {:induction false} UsedAppend(pieces: seq<Item>, item: Item)
    ensures Used(pieces + [item]) == Used(pieces) + item.length
  {
    assert (pieces + [item])[..|pieces|] == pieces;
  }

  /**
   * Packing keeps every bar within both its stock length and its allowance,
   * keeps the number of bars and each bar's lengths.
   */
  lemma {:induction false} PackKeepsLimits(bins: seq<Bin>, items: seq<Item>)
    requires forall j :: 0 <= j < |bins| ==> WithinLimits(bins[j])
    ensures |Pack(bins, items).0| == |bins|
    ensures forall j :: 0 <= j < |bins| ==> WithinLimits(Pack(bins, items).0[j])
    ensures forall j :: 0 <= j < |bins| ==>
      Pack(bins, items).0[j].(pieces := []) == bins[j].(pieces := [])
    decreases |items|
  {
    if |items| > 0 {
      var j := FirstFit(bins, items[0]);
      if j >= 0 {
        UsedAppend(bins[j].pieces, items[0]);
      }
      PackKeepsLimits(Place(bins, items[0]), items[1..]);
    }
  }

  /** Each bar ends with the pieces assigned to it, in processing order. */
  lemma {:induction false} PackPieces(bins: seq<Bin>, items: seq<Item>, j: nat)
    requires j < |bins|
    ensures |Pack(bins, items).0| == |bins|
    ensures Pack(bins, items).0[j].pieces == bins[j].pieces + AssignedTo(items, Assignment(bins, items), j)
    decreases |items|
  {
    PackKeepsCount(bins, items);
    if |items| > 0 {
      var x := items[0];
      var bins' := Place(bins, x);
      PackPieces(bins', items[1..], j);
      PackPiecesStep(bins, items, j);
    } else {
      assert AssignedTo(items, Assignment(bins, items), j) == [];
    }
  }

  /** The inductive step of `PackPieces`, from the claim for the remaining items. */
  lemma PackPiecesStep(bins: seq<Bin>, items: seq<Item>, j: nat)
    requires |items| > 0 && j < |bins|
    requires |Pack(Place(bins, items[0]), items[1..]).0| == |bins|
    requires Pack(Place(bins, items[0]), items[1..]).0[j].pieces
          == Place(bins, items[0])[j].pieces
             + AssignedTo(items[1..], Assignment(Place(bins, items[0]), items[1..]), j)
    ensures |Pack(bins, items).0| == |bins|
    ensures Pack(bins, items).0[j].pieces == bins[j].pieces + AssignedTo(items, Assignment(bins, items), j)
  {
    PackStep(bins, items);
    PlacedPiecesStep(bins, items, j);
  }

  /** Bar `j`'s pieces after the first item, then its share of the rest, are its pieces and its whole share. */
  lemma PlacedPiecesStep(bins: seq<Bin>, items: seq<Item>, j: nat)
    requires |items| > 0 && j < |bins|
    ensures Place(bins, items[0])[j].pieces
            + AssignedTo(items[1..], Assignment(Place(bins, items[0]), items[1..]), j)
         == bins[j].pieces + AssignedTo(items, Assignment(bins, items), j)
  {
    var x := items[0];
    PlacePieces(bins, x, j);
    AssignedToStep(bins, items, j);
    ShiftShare(bins[j].pieces, if FirstFit(bins, x) == j then [x] else [],
               AssignedTo(items[1..], Assignment(Place(bins, x), items[1..]), j));
  }

  /** Offering an item to the bars appends it to bar `j`'s pieces exactly when bar `j` takes it. */
  lemma PlacePieces(bins: seq<Bin>, x: Item, j: nat)
    requires j < |bins|
    ensures Place(bins, x)[j].pieces == bins[j].pieces + (if FirstFit(bins, x) == j then [x] else [])
  {
    PlaceSpec(bins, x, j);
    if FirstFit(bins, x) != j {
      assert bins[j].pieces + [] == bins[j].pieces;
    }
  }

  /**
   * Associativity of the three parts of a bar's pieces, kept as its own lemma
   * so that `PlacedPiecesStep` does not reason about sequence concatenation
   * over the large terms it names.
   */
  lemma ShiftShare(mine: seq<Item>, here: seq<Item>, later: seq<Item>)
    ensures (mine + here) + later == mine + (here + later)
  {
  }


  lemma {:induction false} PackKeepsCount(bins: seq<Bin>, items: seq<Item>)
    ensures |Pack(bins, items).0| == |bins|
    decreases |items|
  {
    if |items| > 0 {
      PackKeepsCount(Place(bins, items[0]), items[1..]);
    }
  }

  /** One step of `AssignedTo` over `Assignment`: the first item's bar, then the rest's. */
  lemma AssignedToStep(bins: seq<Bin>, items: seq<Item>, j: int)
    requires |items| > 0
    ensures AssignedTo(items, Assignment(bins, items), j)
         == (if FirstFit(bins, items[0]) == j then [items[0]] else [])
            + AssignedTo(items[1..], Assignment(Place(bins, items[0]), items[1..]), j)
  {
    var a := Assignment(bins, items);
    assert a[0] == FirstFit(bins, items[0]);
    assert a[1..] == Assignment(Place(bins, items[0]), items[1..]);
  }

  /** The items set aside are exactly those assigned to no bar, in processing order. */
  lemma {:induction false} PackUnplaced(bins: seq<Bin>, items: seq<Item>)
    ensures Pack(bins, items).1 == AssignedTo(items, Assignment(bins, items), -1)
    decreases |items|
  {
    if |items| > 0 {
      var x := items[0];
      var bins' := Place(bins, x);
      PackUnplaced(bins', items[1..]);
      assert Assignment(bins, items)[1..] == Assignment(bins', items[1..]);
    }
  }

  /** Each item is assigned to an existing bar or to none (-1). */
  lemma {:induction false} AssignmentRange(bins: seq<Bin>, items: seq<Item>)
    ensures forall t :: 0 <= t < |items| ==> -1 <= Assignment(bins, items)[t] < |bins|
    decreases |items|
  {
    if |items| > 0 {
      var bins' := Place(bins, items[0]);
      AssignmentRange(bins', items[1..]);
      var a := Assignment(bins, items);
      assert a[1..] == Assignment(bins', items[1..]);
      forall t | 0 < t < |items|
        ensures -1 <= a[t] < |bins|
      {
        assert a[t] == a[1..][t - 1];
      }
    }
  }

  /** The multiset of every bar's pieces, bar after bar. */
  function AllPieces(bins: seq<Bin>): multiset<Item> {
    if |bins| == 0 then multiset{} else multiset(bins[0].pieces) + AllPieces(bins[1..])
  }

  /** Appending an item to one bar adds exactly that item to all the pieces. */
  lemma {:induction false} AllPiecesAppend(bins: seq<Bin>, j: nat, x: Item)
    requires j < |bins|
    ensures AllPieces(bins[j := bins[j].(pieces := bins[j].pieces + [x])]) == AllPieces(bins) + multiset{x}
  {
    var u := bins[j := bins[j].(pieces := bins[j].pieces + [x])];
    if j > 0 {
      assert u[0] == bins[0];
      assert u[1..] == bins[1..][j - 1 := bins[1..][j - 1].(pieces := bins[1..][j - 1].pieces + [x])];
      AllPiecesAppend(bins[1..], j - 1, x);
    } else {
      assert u[1..] == bins[1..];
      assert multiset(u[0].pieces) == multiset(bins[0].pieces) + multiset{x};
    }
  }

  lemma PlaceAllPieces(bins: seq<Bin>, x: Item)
    ensures FirstFit(bins, x) >= 0 ==> AllPieces(Place(bins, x)) == AllPieces(bins) + multiset{x}
    ensures FirstFit(bins, x) < 0 ==> Place(bins, x) == bins
  {
    var j := FirstFit(bins, x);
    if j >= 0 {
      AllPiecesAppend(bins, j, x);
    }
  }

  /** No item is lost or duplicated: every item ends in exactly one bar or set aside. */
  lemma {:induction false} PackConserves(bins: seq<Bin>, items: seq<Item>)
    ensures AllPieces(Pack(bins, items).0) + multiset(Pack(bins, items).1)
         == AllPieces(bins) + multiset(items)
    decreases |items|
  {
    if |items| > 0 {
      var x := items[0];
      var bins' := Place(bins, x);
      var rest := Pack(bins', items[1..]);
      var res := Pack(bins, items);
      PackConserves(bins', items[1..]);
      PlaceAllPieces(bins, x);
      assert res.0 == rest.0;
      assert multiset(items) == multiset{x} + multiset(items[1..]) by {
        assert items == [x] + items[1..];
      }
      if FirstFit(bins, x) >= 0 {
        assert res.1 == rest.1;
        MultisetRearrange(AllPieces(rest.0), multiset(rest.1), AllPieces(bins), multiset(items[1..]), multiset{x});
      } else {
        assert res.1 == [x] + rest.1;
        assert multiset(res.1) == multiset{x} + multiset(rest.1);
        MultisetRearrange(AllPieces(rest.0), multiset(rest.1), AllPieces(bins), multiset(items[1..]), multiset{x});
      }
    }
  }

  /** The multiset step behind `PackConserves`: an item moves between two sides of the balance. */
  lemma MultisetRearrange<T>(placed: multiset<T>, unplaced: multiset<T>, before: multiset<T>, later: multiset<T>, x: multiset<T>)
    ensures placed + unplaced == (before + x) + later ==> placed + unplaced == before + (x + later)
    ensures placed + unplaced == before + later ==> placed + (x + unplaced) == before + (x + later)
  {
    forall e
      ensures ((before + x) + later)[e] == (before + (x + later))[e]
      ensures (placed + (x + unplaced))[e] == (placed + unplaced)[e] + x[e]
      ensures (before + (x + later))[e] == (before + later)[e] + x[e]
    {
    }
    assert (before + x) + later == before + (x + later);
    if placed + unplaced == before + later {
      assert forall e :: (placed + (x + unplaced))[e] == (before + (x + later))[e];
      assert placed + (x + unplaced) == before + (x + later);
    }
  }

  lemma {:induction false} ExpandWithinLimits(stocks: seq<Stock>, maxAllowed: Stock -> int)
    ensures forall j :: 0 <= j < |Expand(stocks, maxAllowed)| ==> Expand(stocks, maxAllowed)[j].pieces == []
    ensures (forall k :: 0 <= k < |stocks| ==> maxAllowed(stocks[k]) >= 0) ==>
      forall j :: 0 <= j < |Expand(stocks, maxAllowed)| ==> WithinLimits(Expand(stocks, maxAllowed)[j])
    ensures AllPieces(Expand(stocks, maxAllowed)) == multiset{}
  {
    if |stocks| > 0 {
      var last := stocks[|stocks| - 1];
      ExpandWithinLimits(stocks[..|stocks| - 1], maxAllowed);
      EmptyBinsHoldNothing(Expand(stocks, maxAllowed));
    }
  }

  lemma {:induction false} EmptyBinsHoldNothing(bins: seq<Bin>)
    requires forall j :: 0 <= j < |bins| ==> bins[j].pieces == []
    ensures AllPieces(bins) == multiset{}
  {
    if |bins| > 0 {
      EmptyBinsHoldNothing(bins[1..]);
    }
  }

  /**
   * The greedy result: one bar per stock unit, every sorted item either in
   * exactly one bar or set aside, and each bar's pieces in the sorted
   * processing order. Every bar stays within its stock length and allowance
   * when no allowance is negative (an empty bar with a negative allowance is
   * already over it).
   */
  lemma GreedyResult(items: seq<Item>, stocks: seq<Stock>, maxAllowed: Stock -> int)
    ensures var (bins, unplaced) := Pack(Expand(stocks, maxAllowed), SortedItems(items));
      && |bins| == StockCount(stocks)
      && ((forall k :: 0 <= k < |stocks| ==> maxAllowed(stocks[k]) >= 0) ==>
            forall j :: 0 <= j < |bins| ==> WithinLimits(bins[j]))
      && AllPieces(bins) + multiset(unplaced) == multiset(items)
      && (forall j :: 0 <= j < |bins| ==>
            bins[j].pieces == AssignedTo(SortedItems(items), Assignment(Expand(stocks, maxAllowed), SortedItems(items)), j))
  {
    var init := Expand(stocks, maxAllowed);
    var sorted := SortedItems(items);
    ExpandLength(stocks, maxAllowed);
    ExpandWithinLimits(stocks, maxAllowed);
    if forall k :: 0 <= k < |stocks| ==> maxAllowed(stocks[k]) >= 0 {
      PackKeepsLimits(init, sorted);
    }
    PackKeepsCount(init, sorted);
    PackConserves(init, sorted);
    forall j | 0 <= j < |init|
      ensures Pack(init, sorted).0[j].pieces == AssignedTo(sorted, Assignment(init, sorted), j)
    {
      PackPieces(init, sorted, j);
    }
    FirstFitDecreasing.SortDescSortedPermutation(items, ItemLength);
  }
}
