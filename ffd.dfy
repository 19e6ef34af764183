/**
 * The list helpers of the first-fit-decreasing strategy: `sort_decreasing`
 * (Python's stable `sorted(..., key=length, reverse=True)`) and `itemize_parts`
 * (one unit item per demanded piece, row by row).
 */
module FirstFitDecreasing {
  import opened Entities

  // ---------------------------------------------------------------------------
  // Stable sort by a key, largest first
  // ---------------------------------------------------------------------------

  /** Insert `x` in front of the first element whose key is not larger than its own. */
  function InsertDesc<T>(x: T, s: seq<T>, key: T -> int): seq<T> {
    if |s| == 0 then [x]
    else if key(s[0]) <= key(x) then [x] + s
    else [s[0]] + InsertDesc(x, s[1..], key)
  }

  /** `sorted(s, key=key, reverse=True)`, as an insertion sort that keeps equal keys in input order. */
  function SortDesc<T>(s: seq<T>, key: T -> int): seq<T> {
    if |s| == 0 then [] else InsertDesc(s[0], SortDesc(s[1..], key), key)
  }

  predicate NonIncreasing<T>(s: seq<T>, key: T -> int) {
    forall i, j :: 0 <= i < j < |s| ==> key(s[i]) >= key(s[j])
  }

  /** The elements whose key is `k`, in order. */
  function WithKey<T>(s: seq<T>, key: T -> int, k: int): seq<T> {
    if |s| == 0 then []
    else (if key(s[0]) == k then [s[0]] else []) + WithKey(s[1..], key, k)
  }

  lemma {:induction false} InsertDescMultiset<T>(x: T, s: seq<T>, key: T -> int)
    ensures multiset(InsertDesc(x, s, key)) == multiset(s) + multiset{x}
  {
    if |s| > 0 && key(s[0]) > key(x) {
      InsertDescMultiset(x, s[1..], key);
      assert s == [s[0]] + s[1..];
    }
  }

  lemma {:induction false} InsertDescSorted<T>(x: T, s: seq<T>, key: T -> int)
    requires NonIncreasing(s, key)
    ensures NonIncreasing(InsertDesc(x, s, key), key)
  {
    if |s| > 0 && key(s[0]) > key(x) {
      InsertDescSorted(x, s[1..], key);
      InsertDescMultiset(x, s[1..], key);
      var rest := InsertDesc(x, s[1..], key);
      forall j | 0 <= j < |rest|
        ensures key(s[0]) >= key(rest[j])
      {
        assert rest[j] in multiset(rest);
        if rest[j] != x {
          assert rest[j] in multiset(s[1..]);
          var m :| 0 <= m < |s[1..]| && s[1..][m] == rest[j];
          assert s[1 + m] == rest[j];
        }
      }
    }
  }

  lemma {:induction false} InsertDescWithKey<T>(x: T, s: seq<T>, key: T -> int, k: int)
    ensures WithKey(InsertDesc(x, s, key), key, k)
         == (if key(x) == k then [x] else []) + WithKey(s, key, k)
  {
    if |s| > 0 && key(s[0]) > key(x) {
      InsertDescWithKey(x, s[1..], key, k);
      assert ([s[0]] + InsertDesc(x, s[1..], key))[1..] == InsertDesc(x, s[1..], key);
    } else if |s| > 0 {
      assert ([x] + s)[1..] == s;
    }
  }

  /** The sort returns its input rearranged, with keys non-increasing. */
  lemma {:induction false} SortDescSortedPermutation<T>(s: seq<T>, key: T -> int)
    ensures NonIncreasing(SortDesc(s, key), key)
    ensures multiset(SortDesc(s, key)) == multiset(s)
  {
    if |s| > 0 {
      SortDescSortedPermutation(s[1..], key);
      InsertDescSorted(s[0], SortDesc(s[1..], key), key);
      InsertDescMultiset(s[0], SortDesc(s[1..], key), key);
      assert s == [s[0]] + s[1..];
    }
  }

  /** The sort is stable: for every key, the elements with that key keep their input order. */
  lemma {:induction false} SortDescStable<T>(s: seq<T>, key: T -> int, k: int)
    ensures WithKey(SortDesc(s, key), key, k) == WithKey(s, key, k)
  {
    if |s| > 0 {
      SortDescStable(s[1..], key, k);
      InsertDescWithKey(s[0], SortDesc(s[1..], key), key, k);
    }
  }

  /** `sort_decreasing(required_parts)`: the rows by length, longest first. */
  function SortDecreasing(rows: seq<Part>): seq<Part> {
    SortDesc(rows, PartLength)
  }

  /**
   * `sort_decreasing` returns the same rows, lengths non-increasing, and rows of
   * equal length in their input order.
   */
  lemma SortDecreasingSpec(rows: seq<Part>)
    ensures multiset(SortDecreasing(rows)) == multiset(rows)
    ensures forall i, j :: 0 <= i < j < |SortDecreasing(rows)| ==>
              SortDecreasing(rows)[i].length >= SortDecreasing(rows)[j].length
    ensures forall len :: WithKey(SortDecreasing(rows), PartLength, len) == WithKey(rows, PartLength, len)
  {
    SortDescSortedPermutation(rows, PartLength);
    forall len
      ensures WithKey(SortDecreasing(rows), PartLength, len) == WithKey(rows, PartLength, len)
    {
      SortDescStable(rows, PartLength, len);
    }
  }

  // ---------------------------------------------------------------------------
  // Itemizing
  // ---------------------------------------------------------------------------

  function ItemOf(row: Part): Item {
    Item(row.partType, row.length)
  }

  /** `[Part(part_type, length)] * quantity`: one row's copies. */
  function Copies(row: Part): seq<Item> {
    seq(row.quantity, _ => ItemOf(row))
  }

  /** The items of `itemize_parts(rows)`: every row's copies, row after row. */
  function Itemize(rows: seq<Part>): seq<Item> {
    if |rows| == 0 then [] else Itemize(rows[..|rows| - 1]) + Copies(rows[|rows| - 1])
  }

  function TotalQuantity(rows: seq<Part>): nat {
    if |rows| == 0 then 0 else TotalQuantity(rows[..|rows| - 1]) + rows[|rows| - 1].quantity
  }

  /** The demand for one part type summed over the rows that carry it. */
  function QuantityOfType(rows: seq<Part>, partType: string): nat {
    if |rows| == 0 then 0
    else QuantityOfType(rows[..|rows| - 1], partType)
         + (if rows[|rows| - 1].partType == partType then rows[|rows| - 1].quantity else 0)
  }

  function CountOfType(items: seq<Item>, partType: string): nat {
    if |items| == 0 then 0
    else CountOfType(items[..|items| - 1], partType) + (if items[|items| - 1].partType == partType then 1 else 0)
  }

  /** `itemize_parts`: extends the result by each row's copies in turn. */
  method ItemizeParts(rows: seq<Part>) returns (items: seq<Item>)
    ensures items == Itemize(rows)
  {
    items := [];
    var r := 0;
    while r < |rows|
      invariant 0 <= r <= |rows|
      invariant items == Itemize(rows[..r])
    {
      assert rows[..r + 1][..r] == rows[..r];
      items := items + Copies(rows[r]);
      r := r + 1;
    }
    assert rows[..|rows|] == rows;
  }

  lemma {:induction false} ItemizeAppend(a: seq<Part>, b: seq<Part>)
    ensures Itemize(a + b) == Itemize(a) + Itemize(b)
    ensures TotalQuantity(a + b) == TotalQuantity(a) + TotalQuantity(b)
    decreases |b|
  {
    if |b| > 0 {
      var b' := b[..|b| - 1];
      assert (a + b)[..|a + b| - 1] == a + b';
      ItemizeAppend(a, b');
    } else {
      assert a + b == a;
    }
  }

  /** The output has one item per demanded piece: its length is the total quantity. */
  lemma {:induction false} ItemizeLength(rows: seq<Part>)
    ensures |Itemize(rows)| == TotalQuantity(rows)
  {
    if |rows| > 0 {
      ItemizeLength(rows[..|rows| - 1]);
    }
  }

  /**
   * Row `r` contributes exactly its quantity of copies carrying its type and
   * length, placed after every copy of the rows before it.
   */
  lemma {:induction false} ItemizeLayout(rows: seq<Part>, r: nat, t: nat)
    requires r < |rows| && t < rows[r].quantity
    ensures TotalQuantity(rows[..r]) + t < |Itemize(rows)|
    ensures Itemize(rows)[TotalQuantity(rows[..r]) + t] == ItemOf(rows[r])
  {
    assert rows == rows[..r] + ([rows[r]] + rows[r + 1..]);
    ItemizeAppend(rows[..r], [rows[r]] + rows[r + 1..]);
    ItemizeAppend([rows[r]], rows[r + 1..]);
    assert Itemize([rows[r]]) == Copies(rows[r]) by {
      assert [rows[r]][..0] == [];
    }
    ItemizeLength(rows[..r]);
  }

  /** A row with quantity 0 contributes nothing. */
  lemma {:induction false} ItemizeSkipsEmptyRow(rows: seq<Part>, r: nat)
    requires r < |rows| && rows[r].quantity == 0
    ensures Itemize(rows) == Itemize(rows[..r] + rows[r + 1..])
  {
    var a, row, b := rows[..r], rows[r], rows[r + 1..];
    assert rows == a + ([row] + b);
    assert Itemize([row]) == [] by {
      assert [row][..0] == [];
    }
    calc {
      Itemize(rows);
      { ItemizeAppend(a, [row] + b); }
      Itemize(a) + Itemize([row] + b);
      { ItemizeAppend([row], b); }
      Itemize(a) + (Itemize([row]) + Itemize(b));
      { ItemizeAppend(a, b); }
      Itemize(a + b);
    }
  }

  lemma {:induction false} CountOfTypeAppend(a: seq<Item>, b: seq<Item>, partType: string)
    ensures CountOfType(a + b, partType) == CountOfType(a, partType) + CountOfType(b, partType)
    decreases |b|
  {
    if |b| > 0 {
      assert (a + b)[..|a + b| - 1] == a + b[..|b| - 1];
      CountOfTypeAppend(a, b[..|b| - 1], partType);
    } else {
      assert a + b == a;
    }
  }

  lemma {:induction false} CountOfCopies(row: Part, partType: string, q: nat)
    requires q <= row.quantity
    ensures CountOfType(Copies(row)[..q], partType) == if row.partType == partType then q else 0
  {
    if q > 0 {
      assert Copies(row)[..q][..q - 1] == Copies(row)[..q - 1];
      CountOfCopies(row, partType, q - 1);
    }
  }

  /** Every part type appears exactly as often as the rows carrying it demand. */
  lemma {:induction false} ItemizeCountOfType(rows: seq<Part>, partType: string)
    ensures CountOfType(Itemize(rows), partType) == QuantityOfType(rows, partType)
  {
    if |rows| > 0 {
      var last := rows[|rows| - 1];
      ItemizeCountOfType(rows[..|rows| - 1], partType);
      CountOfTypeAppend(Itemize(rows[..|rows| - 1]), Copies(last), partType);
      CountOfCopies(last, partType, last.quantity);
      assert Copies(last)[..last.quantity] == Copies(last);
    }
  }
}
