/** The hover computation of the Pascal's triangle page: which cells of the
    triangle lie on the shallow diagonal ending at the hovered row, the
    highlight instructions for them, and the Fibonacci number they sum to. */
module TriangleFibonacciSequence {
  import opened Wrappers
  import opened PascalMath

  /** Row r of a well-formed triangle holds r + 1 numbers. */
  type Triangle = seq<seq<int>>

  /** One slot per row: the column selected in that row, or `null`. */
  type NumberOrNull = seq<Option<int>>

  datatype CssColor = Highlight1 | Highlight2

  /** A highlight instruction: a row, the columns to mark in it, a colour. */
  datatype Highlight = Highlight(row: int, columns: seq<int>, color: CssColor)

  type Highlights = seq<Highlight>

  predicate WellFormed(triangle: Triangle)
  {
    forall r :: 0 <= r < |triangle| ==> |triangle[r]| == r + 1
  }

  /** Every cell holds its binomial coefficient. */
  ghost predicate IsPascal(triangle: Triangle)
  {
    WellFormed(triangle) &&
    forall r, c :: 0 <= r < |triangle| && 0 <= c <= r ==> triangle[r][c] == Binom(r, c)
  }

  // ---------------------------------------------------------------------------
  // Index selection

  /** The selection for row `rowIndex`: slot i holds column rowIndex - i when
      2 * i >= rowIndex and is `null` otherwise. */
  function FibonacciIndexes(rowIndex: nat): (s: NumberOrNull)
    ensures |s| == rowIndex + 1 && s[rowIndex] == Some(0)
    ensures forall i :: 0 <= i < |s| && s[i].Some? ==> 0 <= s[i].value <= i
  {
    seq(rowIndex + 1, i requires 0 <= i <= rowIndex =>
      if 2 * i >= rowIndex then Some(rowIndex - i) else None)
  }

  /** Fills a fresh `null` array from the last slot upward, each column one
      more than the column of the slot below, while the column stays below
      the slot index. */
  method FindIndexesForFibonacci(rowIndex: nat) returns (r: NumberOrNull)
    ensures r == FibonacciIndexes(rowIndex)
  {
    var indexes := new Option<int>[rowIndex + 1](_ => None);
    indexes[rowIndex] := Some(0);

    var lastIndex := 0;
    var currentIndex := 0;
    var index: int := rowIndex - 1;

    while currentIndex < index
      invariant -1 <= index < rowIndex
      invariant currentIndex == rowIndex - index - 1
      invariant 2 * (index + 1) >= rowIndex
      invariant forall i :: 0 <= i <= index ==> indexes[i] == None
      invariant forall i :: index < i <= rowIndex ==> indexes[i] == Some(rowIndex - i)
      decreases index + 1
    {
      // the slot below is always filled, so the `?? -1` fallback never applies
      assert indexes[index + 1].Some?;
      lastIndex := match indexes[index + 1] case Some(v) => v case None => -1;
      currentIndex := lastIndex + 1;
      indexes[index] := Some(currentIndex);

      index := index - 1;
    }

    r := indexes[..];
    assert forall i :: 0 <= i <= rowIndex ==> r[i] == FibonacciIndexes(rowIndex)[i];
  }

  // ---------------------------------------------------------------------------
  // The selected suffix

  /** Start of the longest suffix of `s` that holds numbers only. */
  function SuffixStart(s: NumberOrNull): (start: nat)
    ensures start <= |s|
    ensures forall i :: start <= i < |s| ==> s[i].Some?
    ensures start == 0 || s[start - 1].None?
  {
    if |s| == 0 || s[|s| - 1].None? then |s| else SuffixStart(s[..|s| - 1])
  }

  /** Number of slots the right-to-left fold visits. */
  function SelectedCount(s: NumberOrNull): nat
  {
    |s| - SuffixStart(s)
  }

  /** The suffix start is the one position with only numbers above it and a
      `null` (or the start of the array) just below it. */
  lemma SuffixStartUnique(s: NumberOrNull, m: nat)
    requires m <= |s|
    requires forall i :: m <= i < |s| ==> s[i].Some?
    requires m == 0 || s[m - 1].None?
    ensures SuffixStart(s) == m
  {
  }

  /** For row r the selected slots are exactly the suffix from slot r - r / 2:
      r / 2 + 1 of them, with every slot below `null`. */
  lemma SelectedSuffixOfFibonacciIndexes(r: nat)
    ensures SuffixStart(FibonacciIndexes(r)) == r - r / 2
    ensures SelectedCount(FibonacciIndexes(r)) == r / 2 + 1
    ensures forall i :: 0 <= i < r - r / 2 ==> FibonacciIndexes(r)[i].None?
  {
    SuffixStartUnique(FibonacciIndexes(r), r - r / 2);
  }

  /** The selection grows by one slot every two rows. */
  lemma SelectedCountGrowth(r: nat)
    ensures SelectedCount(FibonacciIndexes(r + 1)) == SelectedCount(FibonacciIndexes(r)) + (if r % 2 == 1 then 1 else 0)
    ensures SelectedCount(FibonacciIndexes(r + 2)) == SelectedCount(FibonacciIndexes(r)) + 1
  {
    SelectedSuffixOfFibonacciIndexes(r);
    SelectedSuffixOfFibonacciIndexes(r + 1);
    SelectedSuffixOfFibonacciIndexes(r + 2);
  }

  // ---------------------------------------------------------------------------
  // The right-to-left fold

  /** What `indexes[i]` reads in JavaScript: `undefined` outside the array. */
  datatype Lookup = Undefined | Null | Number(value: int)

  function Get(s: NumberOrNull, i: int): Lookup
  {
    if 0 <= i < |s| then (match s[i] case None => Null case Some(v) => Number(v))
    else Undefined
  }

  /** Applies `onNumber` to the slots from the last one down, stopping at the
      first `null` slot or below slot 0. */
  function FoldRight<T>(s: NumberOrNull, onNumber: (T, nat, int) -> T, acc: T): T
    decreases |s|
  {
    if |s| == 0 || s[|s| - 1].None? then acc
    else FoldRight(s[..|s| - 1], onNumber, onNumber(acc, |s| - 1, s[|s| - 1].value))
  }

  /** The (slot, column) pairs of the selected suffix, from the last slot down. */
  function SelectedPairs(s: NumberOrNull): seq<(nat, int)>
  {
    seq(SelectedCount(s), k requires 0 <= k < SelectedCount(s) =>
      (|s| - 1 - k, s[|s| - 1 - k].value))
  }

  /** A plain left fold over a list of (slot, column) pairs. */
  function FoldPairs<T>(ps: seq<(nat, int)>, onNumber: (T, nat, int) -> T, acc: T): T
  {
    if |ps| == 0 then acc else FoldPairs(ps[1..], onNumber, onNumber(acc, ps[0].0, ps[0].1))
  }

  /** The fold visits exactly the selected pairs, last slot first. */
  lemma {:induction false} FoldRightVisitsSelectedPairs<T>(s: NumberOrNull, onNumber: (T, nat, int) -> T, acc: T)
    ensures FoldRight(s, onNumber, acc) == FoldPairs(SelectedPairs(s), onNumber, acc)
    decreases |s|
  {
    if |s| == 0 || s[|s| - 1].None? {
      assert SelectedPairs(s) == [];
    } else {
      var n := |s|;
      var init := s[..n - 1];
      var next := onNumber(acc, n - 1, s[n - 1].value);
      assert SuffixStart(s) == SuffixStart(init);
      assert SelectedPairs(s) == [(n - 1, s[n - 1].value)] + SelectedPairs(init);
      assert SelectedPairs(s)[1..] == SelectedPairs(init);
      FoldRightVisitsSelectedPairs(init, onNumber, next);
    }
  }

  /** `reduceRightFibonacci` as a value: `undefined` (None) when the last slot
      is `null`, otherwise the fold over the selected pairs. */
  function ReduceRight<T>(s: NumberOrNull, onNumber: (T, nat, int) -> T, acc: T): (r: Option<T>)
    ensures r.None? <==> |s| > 0 && s[|s| - 1].None?
    ensures r.Some? ==> r.value == FoldPairs(SelectedPairs(s), onNumber, acc)
  {
    FoldRightVisitsSelectedPairs(s, onNumber, acc);
    if Get(s, |s| - 1) == Null then None else Some(FoldRight(s, onNumber, acc))
  }

  /** The loop of `reduceRightFibonacci`. An empty input reads `undefined`
      (not `null`) from slot -1, so the loop runs once and returns `acc`; a
      `null` last slot skips the loop and falls off the end. */
  method ReduceRightFibonacci<T>(indexes: NumberOrNull, onNumber: (T, nat, int) -> T, init: T) returns (r: Option<T>)
    ensures r == ReduceRight(indexes, onNumber, init)
  {
    var acc := init;
    var lastIndex := Get(indexes, |indexes| - 1);
    var index := |indexes| - 1;

    assert indexes[..index + 1] == indexes;
    while lastIndex != Null
      invariant -1 <= index < |indexes|
      invariant lastIndex == Null ==> ReduceRight(indexes, onNumber, init) == None
      invariant lastIndex != Null ==>
        ReduceRight(indexes, onNumber, init) == Some(FoldRight(indexes[..index + 1], onNumber, acc))
      decreases index + 1
    {
      lastIndex := Get(indexes, index);

      if !lastIndex.Number? {
        return Some(acc);
      }

      assert indexes[..index + 1][..index] == indexes[..index];
      acc := onNumber(acc, index, lastIndex.value);

      index := index - 1;
    }
    return None;
  }

  // ---------------------------------------------------------------------------
  // Highlights

  function AddHighlight(highlights: Highlights, index: nat, number: int): Highlights
  {
    highlights + [Highlight(index, [number], Highlight1)]
  }

  /** One Highlight1 instruction per selected slot, last slot first. */
  function SelectedHighlights(s: NumberOrNull): Highlights
  {
    seq(SelectedCount(s), k requires 0 <= k < SelectedCount(s) =>
      Highlight(|s| - 1 - k, [s[|s| - 1 - k].value], Highlight1))
  }

  lemma {:induction false} FoldPairsAddHighlight(ps: seq<(nat, int)>, acc: Highlights)
    ensures FoldPairs(ps, AddHighlight, acc) == acc + seq(|ps|, k requires 0 <= k < |ps| => Highlight(ps[k].0, [ps[k].1], Highlight1))
  {
    if |ps| > 0 {
      FoldPairsAddHighlight(ps[1..], AddHighlight(acc, ps[0].0, ps[0].1));
    }
  }

  function HighlightFibonacciSequence(indexes: NumberOrNull): (r: Option<Highlights>)
    ensures r.None? <==> |indexes| > 0 && indexes[|indexes| - 1].None?
    ensures r.Some? ==> r.value == SelectedHighlights(indexes)
  {
    FoldPairsAddHighlight(SelectedPairs(indexes), []);
    ReduceRight(indexes, AddHighlight, [])
  }

  /** Columns 0 .. length - 1. */
  function Columns(length: nat): (cs: seq<int>)
    ensures |cs| == length && forall i :: 0 <= i < length ==> cs[i] == i
  {
    seq(length, i => i)
  }

  /** Appends one Highlight2 instruction covering the whole hovered row. */
  function HighlightLastRow(index: int, length: nat, highlights: Highlights): (r: Highlights)
    ensures |r| == |highlights| + 1 && r[..|highlights|] == highlights
    ensures r[|highlights|] == Highlight(index, Columns(length), Highlight2)
  {
    highlights + [Highlight(index, Columns(length), Highlight2)]
  }

  /** `highlightFibonacciSequence` followed by `highlightLastRow`. `None`
      stands for the TypeError JavaScript raises when the fold returned
      `undefined`. */
  function HighlightRow(fib: NumberOrNull, index: int, length: nat): (r: Option<Highlights>)
    ensures r.None? <==> |fib| > 0 && fib[|fib| - 1].None?
    ensures r.Some? ==>
      && |r.value| == SelectedCount(fib) + 1
      && r.value[..SelectedCount(fib)] == SelectedHighlights(fib)
      && r.value[SelectedCount(fib)] == Highlight(index, Columns(length), Highlight2)
    ensures r.Some? ==> forall k :: 0 <= k < |r.value| ==> (r.value[k].color == Highlight2 <==> k == |r.value| - 1)
  {
    match HighlightFibonacciSequence(fib)
    case None => None
    case Some(highlights) => Some(HighlightLastRow(index, length, highlights))
  }

  // ---------------------------------------------------------------------------
  // The Fibonacci number

  /** `triangle[row][col]`, or 0 outside the triangle (never read there under
      `SelectedCellsInRange`). */
  function Cell(triangle: Triangle, row: int, col: int): int
  {
    if 0 <= row < |triangle| && 0 <= col < |triangle[row]| then triangle[row][col] else 0
  }

  function AddCell(triangle: Triangle): (int, nat, int) -> int
  {
    (fibonacci: int, index: nat, number: int) => fibonacci + Cell(triangle, index, number)
  }

  /** Every selected (slot, column) names a cell of the triangle. */
  predicate SelectedCellsInRange(s: NumberOrNull, triangle: Triangle)
  {
    forall i :: SuffixStart(s) <= i < |s| ==> i < |triangle| && 0 <= s[i].value < |triangle[i]|
  }

  /** Sum of the triangle cells a list of (row, column) pairs names. */
  function SumCells(ps: seq<(nat, int)>, triangle: Triangle): int
    requires forall k :: 0 <= k < |ps| ==> ps[k].0 < |triangle| && 0 <= ps[k].1 < |triangle[ps[k].0]|
  {
    if |ps| == 0 then 0 else triangle[ps[0].0][ps[0].1] + SumCells(ps[1..], triangle)
  }

  lemma {:induction false} FoldPairsAddCell(ps: seq<(nat, int)>, triangle: Triangle, acc: int)
    requires forall k :: 0 <= k < |ps| ==> ps[k].0 < |triangle| && 0 <= ps[k].1 < |triangle[ps[k].0]|
    ensures FoldPairs(ps, AddCell(triangle), acc) == acc + SumCells(ps, triangle)
  {
    if |ps| > 0 {
      FoldPairsAddCell(ps[1..], triangle, AddCell(triangle)(acc, ps[0].0, ps[0].1));
    }
  }

  /** Sum of `triangle[i][indexes[i]]` over the selected suffix; `None` for
      the `undefined` a `null` last slot yields. */
  function CalculateFibonacciNumberByIndexes(indexes: NumberOrNull, triangle: Triangle): (r: Option<int>)
    requires SelectedCellsInRange(indexes, triangle)
    ensures r.None? <==> |indexes| > 0 && indexes[|indexes| - 1].None?
    ensures r.Some? ==> r.value == SumCells(SelectedPairs(indexes), triangle)
  {
    FoldPairsAddCell(SelectedPairs(indexes), triangle, 0);
    ReduceRight(indexes, AddCell(triangle), 0)
  }

  // ---------------------------------------------------------------------------
  // The hovered row

  /** The hovered row's selection only names cells of a well-formed triangle
      that contains that row. */
  lemma HoverCellsInRange(triangle: Triangle, rowIndex: nat)
    requires WellFormed(triangle) && rowIndex < |triangle|
    ensures SelectedCellsInRange(FibonacciIndexes(rowIndex), triangle)
  {
  }

  /** The fold over slots 0 .. j of row r's selection walks the shallow
      diagonal from cell (j, r - j) upward. */
  lemma {:induction false} FoldAlongDiagonal(triangle: Triangle, r: nat, j: int, acc: int)
    requires IsPascal(triangle) && r < |triangle| && -1 <= j <= r
    ensures FoldRight(FibonacciIndexes(r)[..j + 1], AddCell(triangle), acc) == acc + DiagSum(j, r - j)
    decreases j + 1
  {
    var s := FibonacciIndexes(r);
    var p := s[..j + 1];
    if j >= 0 && 2 * j >= r {
      assert p[j] == Some(r - j);
      assert p[..j] == s[..j];
      assert Cell(triangle, j, r - j) == Binom(j, r - j);
      FoldAlongDiagonal(triangle, r, j - 1, acc + Binom(j, r - j));
    }
  }

  /** On a Pascal's triangle the number shown for row r is F(r + 1). */
  lemma HoverValueIsFibonacci(triangle: Triangle, rowIndex: nat)
    requires IsPascal(triangle) && rowIndex < |triangle|
    ensures SelectedCellsInRange(FibonacciIndexes(rowIndex), triangle)
    ensures CalculateFibonacciNumberByIndexes(FibonacciIndexes(rowIndex), triangle) == Some(Fib(rowIndex + 1))
  {
    var s := FibonacciIndexes(rowIndex);
    assert s[..rowIndex + 1] == s;
    FoldAlongDiagonal(triangle, rowIndex, rowIndex, 0);
    DiagonalIsFibonacci(rowIndex);
  }

  /** The hovered row's highlights: cells (r - k, k) for k = 0 .. r / 2 in
      Highlight1, then the whole row in Highlight2. */
  lemma HoverHighlights(rowIndex: nat, length: nat)
    ensures HighlightRow(FibonacciIndexes(rowIndex), rowIndex, length)
      == Some(seq(rowIndex / 2 + 1, k requires 0 <= k <= rowIndex / 2 => Highlight(rowIndex - k, [k], Highlight1))
              + [Highlight(rowIndex, Columns(length), Highlight2)])
  {
    SelectedSuffixOfFibonacciIndexes(rowIndex);
    var s := FibonacciIndexes(rowIndex);
    var h := HighlightRow(s, rowIndex, length).value;
    var diagonal := seq(rowIndex / 2 + 1, k requires 0 <= k <= rowIndex / 2 => Highlight(rowIndex - k, [k], Highlight1));
    assert h[..rowIndex / 2 + 1] == SelectedHighlights(s);
    forall k | 0 <= k <= rowIndex / 2
      ensures SelectedHighlights(s)[k] == diagonal[k]
    {
      assert s[rowIndex - k] == Some(k);
    }
    assert h == diagonal + [h[rowIndex / 2 + 1]];
  }

  /** Row 4 selects (4, 0), (3, 1) and (2, 2), which sum to 1 + 3 + 1 = 5. */
  lemma RowFourExample()
    ensures FibonacciIndexes(4) == [None, None, Some(2), Some(1), Some(0)]
    ensures SelectedPairs(FibonacciIndexes(4)) == [(4, 0), (3, 1), (2, 2)]
    ensures forall triangle :: IsPascal(triangle) && 4 < |triangle| ==>
      CalculateFibonacciNumberByIndexes(FibonacciIndexes(4), triangle) == Some(5)
  {
    SelectedSuffixOfFibonacciIndexes(4);
    assert FibonacciIndexes(4)[1] == None;
    forall triangle | IsPascal(triangle) && 4 < |triangle|
      ensures CalculateFibonacciNumberByIndexes(FibonacciIndexes(4), triangle) == Some(5)
    {
      HoverValueIsFibonacci(triangle, 4);
      assert Fib(5) == 5;
    }
  }

  /** The hover handler: select the diagonal for the hovered row, then build
      the highlights and the Fibonacci number. The results depend on the row
      index, the row's length and the triangle only. */
  method RowOnMouseEnter(row: seq<int>, rowIndex: nat, triangle: Triangle)
    returns (highlights: Highlights, fib: int)
    requires WellFormed(triangle) && rowIndex < |triangle|
    ensures HighlightRow(FibonacciIndexes(rowIndex), rowIndex, |row|) == Some(highlights)
    ensures SelectedCellsInRange(FibonacciIndexes(rowIndex), triangle)
    ensures CalculateFibonacciNumberByIndexes(FibonacciIndexes(rowIndex), triangle) == Some(fib)
    ensures |highlights| == rowIndex / 2 + 2
    ensures highlights[|highlights| - 1] == Highlight(rowIndex, Columns(|row|), Highlight2)
    ensures IsPascal(triangle) ==> fib == Fib(rowIndex + 1)
  {
    var indexes := FindIndexesForFibonacci(rowIndex);
    HoverCellsInRange(triangle, rowIndex);
    SelectedSuffixOfFibonacciIndexes(rowIndex);
    highlights := HighlightRow(indexes, rowIndex, |row|).value;
    fib := CalculateFibonacciNumberByIndexes(indexes, triangle).value;
    if IsPascal(triangle) {
      HoverValueIsFibonacci(triangle, rowIndex);
    }
  }
}
