# Fibonacci diagonal of Pascal's triangle

This project models the hover computation on the Pascal's triangle page
(`src/components/pascals-triangle/triangle-fibonacci-sequence.tsx`). When the user hovers row
`r`, the page does three things:

- `findIndexesForFibonacci` picks one column per row along the shallow diagonal that ends at cell
  `(r, 0)`.
- `reduceRightFibonacci` folds over that selection from the last slot toward slot 0.
- Two consumers of the fold build the highlight instructions and the number shown, which is the
  sum of the selected cells.

Files:

- `wrappers.dfy` holds `Option`. It stands for a slot that may be `null` and for a fold result
  that may be `undefined`.
- `pascal_math.dfy` holds binomial coefficients, Fibonacci numbers and the identity
  `sum over j of C(r - j, j) = F(r + 1)`.
- `triangle_fibonacci_sequence.dfy` holds the core.
  - `findIndexesForFibonacci` is a method. It fills a local `null`-initialised array with the
    source's `while` loop and returns the array's contents. The function `FibonacciIndexes`
    specifies that result.
  - `reduceRightFibonacci` is a method with the source's loop. It reads slots the way JavaScript
    does, so slot -1 reads `undefined`. The function `ReduceRight` specifies it.
  - The expression-only consumers are functions built on `ReduceRight`.
  - `RowOnMouseEnter` is the body of the hover callback, without the two store setters.

Behaviour kept from the code:

- If the last slot is `null`, the loop never runs and the result is `undefined` (`None`).
- An empty array reads `undefined` from slot -1. That is not `null`, so the loop runs once and
  returns `acc` unchanged.
- The guard `typeof result !== undefined` compares a string with `undefined`. It always holds,
  so the accumulator is always replaced, and the model does exactly that.
- When the last slot is `null`, `highlightRow` calls `concat` on `undefined`, which throws a
  TypeError in JavaScript. `HighlightRow` returns `None` for that case.

For row 4 the hovered value is 5 = F(5): the cells (4, 0), (3, 1) and (2, 2) hold 1, 3 and 1.

## Model

| member | source | states |
|---|---|---|
| TriangleFibonacciSequence.FindIndexesForFibonacci | src/components/pascals-triangle/triangle-fibonacci-sequence.tsx:16-33 | The in-place loop returns exactly `FibonacciIndexes(rowIndex)`: slot i holds `rowIndex - i` when `2*i >= rowIndex` and `null` otherwise. All array accesses stay in `[0, rowIndex]`, and the `?? -1` fallback never fires because the slot below is always filled. |
| TriangleFibonacciSequence.FibonacciIndexes | src/components/pascals-triangle/triangle-fibonacci-sequence.tsx:17-27 | The selection has `rowIndex + 1` slots, its last slot is column 0, and every selected column `c` in slot `i` satisfies `0 <= c <= i`, so `triangle[i][c]` lies inside row `i`. |
| TriangleFibonacciSequence.SuffixStart | src/components/pascals-triangle/triangle-fibonacci-sequence.tsx:39-44 | The point where the right-to-left scan stops: every slot from there to the end holds a number, and the slot just below is `null` (or there is none). |
| TriangleFibonacciSequence.SelectedSuffixOfFibonacciIndexes | src/components/pascals-triangle/triangle-fibonacci-sequence.tsx:20-30 | For row r the selected slots are the contiguous suffix that starts at `r - r/2`. It has `r/2 + 1` entries, and every slot below it is `null`. |
| TriangleFibonacciSequence.SelectedCountGrowth | src/components/pascals-triangle/triangle-fibonacci-sequence.tsx:24-30 | The number of selected slots grows by one from an odd row to the next even row, stays the same from an even row to the next odd row, and grows by exactly one every two rows. |
| TriangleFibonacciSequence.FoldRightVisitsSelectedPairs | src/components/pascals-triangle/triangle-fibonacci-sequence.tsx:39-52 | The right-to-left fold equals a left fold over the (slot, column) pairs of the selected suffix, taken from the last slot down, so `onNumber` sees exactly those pairs in that order. |
| TriangleFibonacciSequence.ReduceRight | src/components/pascals-triangle/triangle-fibonacci-sequence.tsx:35-53 | The result is `undefined` exactly when the array is non-empty and its last slot is `null`. Otherwise it is the fold of `onNumber` over the selected pairs, and on an empty array that is `acc` unchanged. |
| TriangleFibonacciSequence.ReduceRightFibonacci | src/components/pascals-triangle/triangle-fibonacci-sequence.tsx:35-53 | The source's loop, including the read of slot -1 and the fall-through return, computes exactly `ReduceRight`. It drops the always-true `typeof` guard and always replaces `acc`. |
| TriangleFibonacciSequence.HighlightFibonacciSequence | src/components/pascals-triangle/triangle-fibonacci-sequence.tsx:55-59 | The result is `undefined` exactly when the last slot is `null`. Otherwise it holds one `(i, [indexes[i]], Highlight1)` instruction per selected slot, in decreasing `i`. |
| TriangleFibonacciSequence.HighlightLastRow | src/components/pascals-triangle/triangle-fibonacci-sequence.tsx:61-65 | Keeps the earlier instructions and appends one `(index, [0..length-1], Highlight2)` instruction. |
| TriangleFibonacciSequence.HighlightRow | src/components/pascals-triangle/triangle-fibonacci-sequence.tsx:67-70 | The selected-slot instructions come first. Then exactly one full-row `Highlight2` instruction comes last, and it is the only one of that colour. The length is the selected count plus 1. The result is `None` (JavaScript throws) exactly when the last slot is `null`. |
| TriangleFibonacciSequence.CalculateFibonacciNumberByIndexes | src/components/pascals-triangle/triangle-fibonacci-sequence.tsx:72-76 | The result is `undefined` exactly when the last slot is `null`. Otherwise it is the sum of `triangle[i][indexes[i]]` over the selected suffix. |
| TriangleFibonacciSequence.HoverCellsInRange | src/components/pascals-triangle/triangle-fibonacci-sequence.tsx:74 | For a well-formed triangle that contains the hovered row, every cell the sum reads lies inside the triangle. |
| PascalMath.DiagonalIsFibonacci | src/components/pascals-triangle/triangle-fibonacci-sequence.tsx:72-76 | The shallow diagonal from `(n, 0)` sums to `F(n + 1)`: `sum over j of C(n - j, j) = F(n + 1)`. |
| TriangleFibonacciSequence.FoldAlongDiagonal | src/components/pascals-triangle/triangle-fibonacci-sequence.tsx:35-53 | On a Pascal's triangle, folding the sum callback over slots 0..j of row r's selection adds the diagonal cells `(j, r-j), (j-1, r-j+1), ...`. The fold stops exactly where the column passes the row. |
| TriangleFibonacciSequence.HoverValueIsFibonacci | src/components/pascals-triangle/triangle-fibonacci-sequence.tsx:86-89 | When every cell is its binomial coefficient, the number computed for row r is `F(r + 1)`, with `F(1) = F(2) = 1`. Rows 0..4 give 1, 1, 2, 3, 5. |
| TriangleFibonacciSequence.HoverHighlights | src/components/pascals-triangle/triangle-fibonacci-sequence.tsx:86-88 | For row r the highlights are the cells `(r - k, k)` for `k = 0..r/2` in `Highlight1`, followed by the whole row in `Highlight2`. |
| TriangleFibonacciSequence.RowOnMouseEnter | src/components/pascals-triangle/triangle-fibonacci-sequence.tsx:85-89 | The hover computation is deterministic. Its highlights and number are the pure functions above, applied to `(rowIndex, row.length, triangle)` only. It never hits the `undefined` case. There are `r/2 + 2` highlights, the last covering the whole row. On a Pascal's triangle the number is `F(r + 1)`. |
| TriangleFibonacciSequence.RowFourExample | src/components/pascals-triangle/triangle-fibonacci-sequence.tsx:16-33 | Row 4 selects the cells (4, 0), (3, 1) and (2, 2), and on a Pascal's triangle their sum is 5. |

## Left out

- The React components `TriangleFibonacciSequence` and `Fibonacci`, the styled components and the concrete CSS colours are left out: they are rendering only. The colours are the two-valued tag `CssColor`.
- The zustand stores (`useFibStore`, `setHighlights`, `setFib`) are left out: they are external state containers. `RowOnMouseEnter` returns the two values the handler would hand to them.
- Generating the triangle is left out, because it lives elsewhere. The triangle is an input. `IsPascal` states the binomial contents that the Fibonacci lemma assumes.
- `fp-ts` `flow` is plain function composition inside `HighlightRow`. The curried `highlightLastRow(index, length)(highlights)` is the three-argument `HighlightLastRow`.
- TriangleFibonacciSequence.FindIndexesForFibonacci: returns the contents of the array it allocates, not the array itself. Nothing else holds a reference to that array, so no aliasing is lost.
- TriangleFibonacciSequence.CalculateFibonacciNumberByIndexes: requires every selected cell to lie inside the triangle. Outside it, JavaScript yields `NaN` for a missing column and throws for a missing row. The hover handler never reaches those cases (`HoverCellsInRange`), so they are not modelled.
- JavaScript numbers are IEEE doubles. The model uses unbounded integers, so the loss of precision above 2^53 for very deep rows is not modelled. A fractional row index, or one below -1, makes `new Array` throw a RangeError, and `rowIndex = -1` yields an empty array. Both are excluded by taking the row index as a `nat`.
