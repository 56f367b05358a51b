# Constraint-programming models: no-overlap propagator, queens diagonals, square packing

This project models three pieces of a set of Gecode constraint models and proves properties of them.

- **The rectangle no-overlap propagator** (`squarePacking/no-overlap.cpp`).
  - The model is a class `NoOverlapProp.NoOverlap`. Its coordinate views are arrays of integer domains, pruned in place, and it holds its own width and height arrays.
  - `Propagate` is the `i`/`j`/`k` loop nest of `propagate`. It is proved to leave exactly the status and domains computed by the value-level pass `NoOverlapSpec.Pass`.
  - The properties are proved about `Pass`: domains only shrink, every removal is justified by a placed partner, a failure exhibits a conflict, the pass on fully placed input fails exactly on a conflict, and more.
  - Also modelled: posting, the copy constructor with its countdown copy loop, and the `nooverlap` wrapper with its size check and failed-space check.
  - The Gecode view operations the propagator uses are modelled in `Domains`: `assigned`, `val` and `nq` on a domain that is a finite set of integers.
- **`Queens::diagonal`** (`queens/queens.cpp`).
  - The four border walks and the empty fallback are a method that fills an array. It is proved equal to a function of the start cell.
  - Each walk lists exactly the board cells on one diagonal line.
  - The constructor's loop asks for `4(n-1)` diagonals. Two of them are empty, every other one has at least two cells, and together they cover every pair of cells that attack each other diagonally.
- **Square packing arithmetic** (`squarePacking/square.cpp`): the constants `n` and `sMax`, `sizeOfSquare`, the forbidden-gaps loop and its table index, and `getSquare`.

The model follows the code:

- `propagate` returns `ES_FIX` after any pass that neither fails nor is subsumed, whether or not it changed a domain.
- The collision test is the one `propagate` writes, with the corrected test modelled beside it (see "Findings").

`nq` removing the last value of a domain reports failure, and the model leaves that domain as the singleton it was. Nothing reads it afterwards, because `propagate` returns at once.

## Model

| member | source | states |
|---|---|---|
| `Domains.Nq` | squarePacking/no-overlap.cpp:107 | Removing `k` fails exactly when the domain is `{k}` (the domain is then kept), does nothing exactly when `k` is absent, and otherwise removes `k`; no other view changes |
| `Domains.ExcludeInterval` | squarePacking/no-overlap.cpp:106-108 | The `k` loop of `nq` calls over a span leaves `y[i]` as `Exclude` describes, and stops at the first failing `nq` |
| `Domains.ExclusionShrinks` | squarePacking/no-overlap.cpp:106-108 | Excluding a span only removes values and never empties the domain. It succeeds exactly when some value lies outside the span, and afterwards no value lies inside it. It fails only on a single remaining value inside the span |
| `NoOverlapSpec.Row` | squarePacking/no-overlap.cpp:100-118 | One row of the pass changes only item `i`, and only shrinks it |
| `NoOverlapSpec.Rows` | squarePacking/no-overlap.cpp:99-119 | The rows from `i` on keep every earlier item and only shrink domains |
| `NoOverlapSpec.PairStepShrinks` | squarePacking/no-overlap.cpp:104-115 | One pair's pruning only removes values and never empties a domain |
| `NoOverlapSpec.PlacedStays` | squarePacking/no-overlap.cpp:102 | A fully placed partner is never altered by shrinking |
| `NoOverlapSpec.AssignedSurvives` | squarePacking/no-overlap.cpp:107 | Excluding values from a fixed view either fails or leaves it unchanged |
| `NoOverlapSpec.PairStepPrunes` | squarePacking/no-overlap.cpp:104-115 | After a successful pair step, a fixed `x[i]` in `j`'s x-reach leaves no `y[i]` value in `j`'s y-reach, and symmetrically |
| `NoOverlapSpec.PairStepKeepsPruned` | squarePacking/no-overlap.cpp:104-115 | A later pair step keeps the pruning already established against an earlier partner |
| `NoOverlapSpec.PairStepFails` | squarePacking/no-overlap.cpp:107 | A failed pair step leaves item `i` placed in conflict with `j` |
| `NoOverlapSpec.PairStepRemovals` | squarePacking/no-overlap.cpp:104-115 | A successful pair step never touches a fixed view. Each removed x-value lies in `j`'s x-reach while `y[i]` is fixed inside `j`'s y-reach, and the same holds for y-values |
| `NoOverlapSpec.JustifiedTransfer` | squarePacking/no-overlap.cpp:101-102 | A justification by a placed partner survives while that partner and the fixed coordinates of `i` stay |
| `NoOverlapSpec.RowPrunes` | squarePacking/no-overlap.cpp:100-116 | After a successful row, item `i` is pruned against every partner that was placed on entry to the row |
| `NoOverlapSpec.RowsPrunesCase` | squarePacking/no-overlap.cpp:99-119 | One pair of the induction step for `RowsPrunes` |
| `NoOverlapSpec.RowsPrunesStep` | squarePacking/no-overlap.cpp:99-119 | Row `i` followed by the later rows prunes every seen pair |
| `NoOverlapSpec.RowsPrunes` | squarePacking/no-overlap.cpp:99-119 | After successful rows from `i` on, each of those items is pruned against every partner placed when its row ran |
| `NoOverlapSpec.PassPrunesSeen` | squarePacking/no-overlap.cpp:99-119 | After a successful pass, item `i` is pruned against every partner placed on entry, and against every partner placed at the end whose row came earlier |
| `NoOverlapSpec.StepJustified` | squarePacking/no-overlap.cpp:104-115 | A successful pair step keeps every removal so far justified |
| `NoOverlapSpec.RowJustified` | squarePacking/no-overlap.cpp:100-116 | Every value a successful row removes from item `i` is justified by a placed partner |
| `NoOverlapSpec.RowsJustified` | squarePacking/no-overlap.cpp:99-119 | The same for all rows from `i` on |
| `NoOverlapSpec.PassRemovalsJustified` | squarePacking/no-overlap.cpp:99-119 | After a successful pass, every removed `x[i]` value lies in the x-reach of a placed partner while `y[i]` is fixed in its y-reach, and symmetrically for `y[i]` |
| `NoOverlapSpec.RowFails` | squarePacking/no-overlap.cpp:107 | A failed row leaves two placed items in conflict |
| `NoOverlapSpec.RowsFails` | squarePacking/no-overlap.cpp:107 | A failed pass from row `i` on leaves two placed items in conflict |
| `NoOverlapSpec.PassFailureHasConflict` | squarePacking/no-overlap.cpp:107 | A failed pass leaves two placed items in conflict |
| `NoOverlapSpec.PassExcludesSpans` | squarePacking/no-overlap.cpp:104-115 | With `j` placed and `x[i]` fixed inside `j`'s x-span on entry, a successful pass leaves no `y[i]` value in `j`'s y-span, and symmetrically |
| `NoOverlapSpec.PassOnPlacedItems` | squarePacking/no-overlap.cpp:99-124 | With every coordinate fixed on entry, the pass succeeds exactly when no two items conflict, and it changes no domain |
| `NoOverlapSpec.BoxConflictIsOverlap` | squarePacking/no-overlap.cpp:104-115 | Under the corrected rule, a conflict between placed items is exactly an overlap of their boxes |
| `NoOverlapSpec.CornerConflictIsOverlap` | squarePacking/no-overlap.cpp:104-115 | Under the rule as written, a conflict puts a non-empty box's corner inside the partner's box, which is an overlap |
| `NoOverlapSpec.PassBoxRuleNoOverlap` | squarePacking/no-overlap.cpp:99-124 | Under the corrected rule, a successful pass leaves no two placed items overlapping, whether they were placed on entry or during the pass |
| `NoOverlapSpec.UnitSquaresOnOneCellFail` | squarePacking/no-overlap.cpp:99-119 | Two unit squares both at (0,0) fail |
| `NoOverlapSpec.UnitSquaresSideBySidePass` | squarePacking/no-overlap.cpp:99-124 | Unit squares at (0,0) and (1,0) pass unchanged, with every view fixed (subsumed) |
| `NoOverlapSpec.CornerRuleMissesOverlap` | squarePacking/no-overlap.cpp:104-115 | The overlapping 2x2 squares at (0,1) and (1,0) pass unchanged as written |
| `NoOverlapSpec.BoxRuleRejectsCrossing` | squarePacking/no-overlap.cpp:104-115 | The corrected rule fails on those two squares |
| `NoOverlapProp.NoOverlap.constructor` | squarePacking/no-overlap.cpp:47-53 | The propagator holds the given views and extents |
| `NoOverlapProp.NoOverlap.Clone` | squarePacking/no-overlap.cpp:65-75 | The clone uses the new space's views and fresh width and height arrays equal, element by element, to the original's |
| `NoOverlapProp.NoOverlap.Post` | squarePacking/no-overlap.cpp:55-62 | Posting returns `ES_OK` and creates a propagator exactly when there are more than one rectangle |
| `NoOverlapProp.NoOverlap.ExcludeY` | squarePacking/no-overlap.cpp:106-108 | Excluding a span from `y[i]` acts on item `i` of the pass state as `Exclude` says |
| `NoOverlapProp.NoOverlap.ExcludeX` | squarePacking/no-overlap.cpp:112-114 | Excluding a span from `x[i]` acts on item `i` of the pass state as `Exclude` says |
| `NoOverlapProp.NoOverlap.PruneAgainst` | squarePacking/no-overlap.cpp:101-116 | The loop body for a placed partner `j` changes only item `i`, exactly as `PairStep` says, and keeps every domain non-empty |
| `NoOverlapProp.NoOverlap.Propagate` | squarePacking/no-overlap.cpp:97-128 | The status and the domains left are those of `Pass` on the entry domains. A successful pass returns subsumed exactly when every view is fixed, and fix otherwise |
| `NoOverlapProp.NoOverlapPost` | squarePacking/no-overlap.cpp:153-174 | Reports a size mismatch exactly when `x`, `y`, `w`, `h` disagree in size. In a failed space it posts nothing. Otherwise it posts one propagator (with more than one rectangle), whose width and height arrays equal `w` and `h` |
| `Queens.Diagonal` | queens/queens.cpp:125-172 | The walks fill the result exactly, and it equals `DiagonalCells` of the start |
| `Queens.DiagonalIsLine` | queens/queens.cpp:127-170 | From the left or right edge the result is exactly the board cells with the start's `i - j`. From the bottom or top edge it is exactly those with the start's `i + j`. No cell repeats |
| `Queens.DiagonalEmpty` | queens/queens.cpp:125-172 | The result is empty exactly for an interior start and for the starts `(n-1, n-1)` and `(0, n-1)` |
| `Queens.PostedAt` | queens/queens.cpp:83-88 | Call `4k + m` of the loop is the diagonal from the `m`-th edge start of iteration `k` |
| `Queens.PostDiagonals` | queens/queens.cpp:83-88 | The loop asks for the diagonals `Posted(n)`, four per iteration |
| `Queens.PostedDiagonalSizes` | queens/queens.cpp:83-88 | For `n >= 2`, only the right-edge and top-edge calls of iteration 0 are empty, and every other diagonal has at least two cells |
| `Queens.PostedDiagonalsCover` | queens/queens.cpp:83-88 | Any two distinct board cells on one diagonal line lie together in some posted diagonal |
| `SquarePacking.SizesOfPlacedSquares` | squarePacking/square.cpp:122-124 | Placed squares have sizes `n` down to 2, strictly decreasing with the index |
| `SquarePacking.SumOfSizesFormula` | squarePacking/square.cpp:18 | The sizes of the first `k` squares sum to `k(2n-k+1)/2` |
| `SquarePacking.Bounds` | squarePacking/square.cpp:17-24 | `sMax` is the sum of all `n` sizes, and the lower bound of `s` is the two largest sizes together, at most `sMax`. Coordinates range over `[0, sMax-1]` |
| `SquarePacking.ForbiddenGapConstraints` | squarePacking/square.cpp:34-39 | The loop excludes exactly the values `1 .. forbiddenGaps[size-2]` on both axes of each placed square. The table index stays inside the table |
| `SquarePacking.GetSquare` | squarePacking/square.cpp:111-120 | Returns 0 exactly when no fixed square covers the point. Otherwise it returns the size of the lowest-indexed fixed square that does, which lies in `2..n` |
| `SquarePacking.CoveringSquareUnique` | squarePacking/square.cpp:111-120 | When no two fixed squares overlap, at most one covers a point |

## Left out

- The Gecode engine is left out: the propagation queue and fixpoint, scheduling, cloning of spaces, search, and branchers. These are library code. Only `assigned`, `val` and `nq` on a view are modelled.
- `reschedule`, `dispose`, `cost`, the subscriptions, and `home.alloc` of the propagator are left out. They are engine bookkeeping.
- `copy` is left out. It only calls the copy constructor, which is modelled as `NoOverlap.Clone`.
- `NoOverlapPost` takes the coordinate variables as two distinct arrays of domains. The same variable appearing twice, or appearing in both `x` and `y`, is not modelled, since the views would alias.
- `NoOverlapPost` never takes the branch that fails the space after posting, because posting always returns `ES_OK`. It asserts that instead of modelling the failure.
- Integers are unbounded. The 32-bit overflow of `val() + w[j]` for extreme coordinates is not modelled.
- Idempotence of `propagate` is not claimed. A pruning late in a pass can fix an item after earlier items were checked against it, so the returned `ES_FIX` can be followed by further pruning.
- The declarative constraints posted by the constructors of the square-packing and queens models are left out, and so are the other models (sudoku, life, magic sequence). Their meaning lies in library constraints: `rel`, `linear`, `dom`, `distinct` and the matrix slices. The forbidden-gaps loop is modelled as the list of disequalities it posts.
- `propCompositional` is left out: it relies on global mutable arrays and an undeclared name.
- Printing, option parsing, `main` and the graphical inspector are left out. They are I/O.

## Findings

| source | as written | input that shows it | evidently intended | confidence | as-written member | corrected member |
|---|---|---|---|---|---|---|
| squarePacking/no-overlap.cpp:104-115 | A collision is tested as "`x[i]` lies in `[x[j], x[j]+w[j])` and `y[i]` lies in `[y[j], y[j]+h[j])`": only the corner of `i` inside the box of `j`. Two boxes can overlap with neither corner inside the other, and the pass then reports subsumed | two fixed 2x2 squares at (0,1) and (1,0): they share the cell (1,1), yet the pass succeeds, changes nothing and, all views being fixed, is subsumed | prune against `(x[j]-w[i], x[j]+w[j])` and `(y[j]-h[i], y[j]+h[j])`, so that a conflict is exactly an overlap and a subsumed pass leaves no two rectangles overlapping | not executed | `NoOverlapSpec.CornerRuleMissesOverlap` | `NoOverlapSpec.PassBoxRuleNoOverlap` |
