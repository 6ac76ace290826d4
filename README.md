# Sudoku grid, solvers and SAT encoding in Dafny

This project models the core of a sudoku-solving service: the sudoku grid, two backtracking solvers, and the SAT encoding of a puzzle.

The grid is an n×n array of naturals, split into n square blocks of side b = √n. The value 0 marks an empty cell.

- The **naive solver** fills the cells in row-major order. It rejects a candidate by scanning the cell's row, column and block, and writes 0 back when the recursion fails.
- The **first-fail solver** keeps state next to the grid:
  - the set of free cells;
  - for each row, column and block, the set of values still available there.
  It always branches on the free cell with the fewest available values, and undoes each failed assignment.
- The **SAT encoder** (`SudokuCNF`) turns the propositions "cell (row, col) holds val" into conjunctive-normal-form clauses. `decode` turns the identifiers a SAT solver reports as true back into a grid.

## Modules

| file | module | models |
|---|---|---|
| `wrappers.dfy` | `Wrappers` | `Option`, `Result`, and the Python exception kinds the core raises |
| `text.dfy` | `Text` | `str()` of a natural, `int()` of a token, right-aligned padding, `str.split`, `",".join` |
| `all_different.dfy` | `AllDifferent` | `all_different_except` |
| `group_by.dfy` | `GroupBy` | `group_by`, its dictionary and its values in key insertion order |
| `grid.dfy` | `Grid` | `SudokuGrid`: shape checks, block arithmetic, cell access, `block`, `flatten`, `copy`, `from_list`, `to_list` |
| `grid_text.dfy` | `GridText` | `SudokuGrid.from_text` and `SudokuGrid.__str__` |
| `naive_solver.dfy` | `NaiveSolver` | `NaiveSudokuSolver` |
| `first_fail_solver.dfy` | `FirstFailSolver` | `State` and `FirstFailSudokuSolver` |
| `sat_solver.dfy` | `SatSolver` | `Coordinates`, `Proposition`, `SudokuCNF` |

How the entities are represented:

- `SudokuGrid` is a frozen dataclass around a mutable numpy array. Here it is a class whose fields are constants (`size`, `blockSize`, `cells: array2<UInt>`) and whose array contents change in place. `ToList()` is its abstract value, and the sudoku rules are predicates on that value (`IsSolution`, `NoRepeats`, `Extends`).
- `State` is a class whose free set and three domain lists are fields that its methods reassign. `View()` is its value, and `Consistent` is the invariant the search keeps.
- `SudokuCNF.cnf` is a sequence of clauses that the clause methods append to. A clause is a sequence of signed identifiers. An assignment of the SAT variables is modelled as the set of identifiers that are true.

Python exceptions are modelled as `Err(...)` results. The error paths that the solvers, the readers and `decode` can reach are kept: the empty grid, an out-of-range index, a value too large for a cell, a repeated clue, a missing identifier. A few helpers instead require what every caller in this core guarantees; each is named under "## Left out".

Behaviour of the code worth noting:

- Cell indices follow numpy: an index in `-n..n-1` is accepted, and a negative one counts from the end (src/model/grid.py:154, 167; `Grid.AxisIndex`).
- Every failure inside `from_text` and `from_list` is re-raised as the same `ValueError` (src/model/grid.py:326-327, 358-359).
- The constructor checks only the shape. The check that values do not repeat is a TODO (src/model/grid.py:111-115), so a grid with repeated clues is accepted.
- `from_grid` raises `KeyError` on a repeated clue or one outside `1..n`, because `set.remove` no longer finds the value (src/solvers/first_fail_solver.py:131-133).
- `remove_assignment` reads the attribute `row_domais` (src/solvers/first_fail_solver.py:98); see "## Findings".
- `decode` keeps every identifier `>= 0`, including 0 (src/solvers/sat_solver.py:145).
- The formula holds the cell, row, column and block constraints only (src/solvers/sat_solver.py:69-73). Clues would enter through the propositions `_possible_propositions` chooses, and that function is a stub.

## Model

| member | source | states |
|---|---|---|
| Text.NatToStringIsDecimal | src/model/grid.py:275 | `str(n)` is a non-empty string of decimal digits with no leading zero |
| Text.ParseNat | src/model/grid.py:324 | a token reads as a natural exactly when it is non-empty and all digits |
| Text.TrimStart | src/model/grid.py:324 | `int()` skips leading whitespace: the result is a suffix, everything dropped is a space, and it does not start with one |
| Text.TrimEnd | src/model/grid.py:324 | `int()` skips trailing whitespace: the result is a prefix, everything dropped is a space, and it does not end with one |
| Text.ParseSigned | src/model/grid.py:324 | a signed token reads as a digit string does, and a negative result needs a leading `-` |
| Text.ParseInt | src/model/grid.py:324 | `int()` accepts a token only when something is left after stripping whitespace |
| Text.ValueOfNatToString | src/model/grid.py:275 | the digits of `str(n)` have the value `n` |
| Text.ParseNatToString | src/model/grid.py:275 | reading `str(n)` back gives `n` |
| Text.NatToStringMonotone | src/model/grid.py:275 | a larger number never prints shorter, so the width of the maximum bounds every cell |
| Text.PadLeft | src/model/grid.py:286 | right-aligning to width `w` gives length `max(w, len(s))` |
| Text.PadLeftShape | src/model/grid.py:286 | the padded text is spaces followed by the original text |
| Text.ParseIntPadded | src/model/grid.py:286 | `int()` of a right-aligned `str(n)` is `n`, whatever the width |
| Text.PaddedNumberAvoids | src/model/grid.py:285-286 | a right-aligned number holds no character other than spaces and digits, so no comma |
| Text.Split | src/model/grid.py:324 | `split` yields at least one part, and no part contains the separator |
| Text.JoinSplit | src/model/grid.py:324 | joining the parts of a split with the separator gives the text back |
| Text.SplitJoin | src/model/grid.py:285 | splitting a join of separator-free parts gives the parts back |
| AllDifferent.AllDifferentExceptIsPairwise | src/utils/all_different.py:5-30 | the count-based result is true iff no two positions hold the same non-excluded value |
| AllDifferent.EmptyIsAllDifferent | src/utils/all_different.py:27-30 | an empty array gives true |
| AllDifferent.ExcludedMayRepeat | src/utils/all_different.py:28 | an excluded value may repeat any number of times |
| AllDifferent.RepeatOutsideFails | src/utils/all_different.py:26-30 | a non-excluded value occurring twice makes the result false |
| AllDifferent.PermutationInvariant | src/utils/all_different.py:26 | the result depends only on the multiset of elements |
| AllDifferent.ExcludingMoreIsWeaker | src/utils/all_different.py:28 | enlarging the excluded set can only turn false into true |
| GroupBy.Filter | src/utils/group_by.py:11-13 | one group holds only items with its key, and is empty exactly when no item has that key |
| GroupBy.GroupBy | src/utils/group_by.py:4-26 | the keys are exactly the keys of the items, and each entry is the group of items with that key |
| GroupBy.KeyOrder | src/utils/group_by.py:11-13 | the dictionary's keys in insertion order: no key twice, and the same keys as the dictionary |
| GroupBy.Groups | src/utils/group_by.py:11-13 | `.values()`: one group per key, in key insertion order |
| GroupBy.FilterMembership | src/utils/group_by.py:4-26 | an item is in the group of `k` iff it is an input item with key `k` |
| GroupBy.ItemInItsGroupOnly | src/utils/group_by.py:4-26 | every item is in the group of its own key and in no other |
| GroupBy.GroupsNonEmpty | src/utils/group_by.py:11-13 | no group is empty |
| GroupBy.FilterConcat | src/utils/group_by.py:11-13 | the group of a concatenation is the concatenation of the groups, so input order is kept |
| GroupBy.SumOfGroupSizes | src/utils/group_by.py:4-26 | the group sizes add up to the number of items |
| GroupBy.GroupsSnocOld | src/utils/group_by.py:11-13 | an item whose key is already present is appended to that key's group |
| GroupBy.GroupsSnocNew | src/utils/group_by.py:11-13 | an item with a new key opens a new, last group |
| Grid.ISqrt | src/model/grid.py:139 | the integer square root `s`: `s² <= n < (s+1)²` |
| Grid.PerfectSquareIff | src/model/grid.py:108 | the square-root test passes iff the side is the square of a natural |
| Grid.PerfectSquareOf | src/model/grid.py:139 | the block size of a grid of side `b²` is `b` |
| Grid.CheckShape | src/model/grid.py:99-115 | the shape checks: accepted iff square with a perfect-square side, and the accepted side is the square of the returned block size; a non-square shape gives the "should form a square" error |
| Grid.BlockIndex | src/model/grid.py:193-212 | `block_index(row, col)` of a cell of an n×n grid is a block number in `0..n-1` |
| Grid.BlockIndexParts | src/model/grid.py:193-212 | the block index splits into block-row `row / b` and block-column `col / b` |
| Grid.BlockCorner | src/model/grid.py:228-235 | the slice of block `i` lies inside the grid |
| Grid.BlockCellIndex | src/model/grid.py:228-235 | every cell of the slice of block `i` has block index `i` |
| Grid.CellInItsBlock | src/model/grid.py:193-235 | a cell lies in the slice of its own block |
| Grid.Update | src/model/grid.py:156-167 | writing one cell changes that cell and nothing else |
| Grid.UpdateUndo | src/model/grid.py:156-167 | writing a cell's old value back undoes a write |
| Grid.Column | src/solvers/naive_solver.py:60 | the numpy column `m[:, c]` |
| Grid.ConcatIndex | src/model/grid.py:181-191 | row-major concatenation: cell (r, c) sits at index `r * w + c` |
| Grid.ConcatLength | src/model/grid.py:181-191 | the concatenation of `k` rows of width `w` has length `k * w` |
| Grid.AxisIndex | src/model/grid.py:141-167 | numpy indexing: `-n <= i < n` is accepted, and a negative index counts from the end |
| Grid.SudokuGrid.New | src/model/grid.py:99-139 | the constructor accepts a square array with a perfect-square side, keeps the array itself, and gets block size √n; otherwise it fails with the shape check's error |
| Grid.SudokuGrid.ToList | src/model/grid.py:361-382 | `to_list()`: an n×n list holding every cell's value |
| Grid.SudokuGrid.Get | src/model/grid.py:141-154 | `grid[row, col]` returns the cell's value, and raises `IndexError` exactly when an index is out of range |
| Grid.SudokuGrid.Set | src/model/grid.py:156-167 | `grid[row, col] = v` writes only the addressed cell; `IndexError` or `OverflowError` leaves the grid unchanged |
| Grid.SudokuGrid.Flatten | src/model/grid.py:181-191 | `flatten()` has n² entries |
| Grid.SudokuGrid.FlattenIsRowMajor | src/model/grid.py:181-191 | `flatten()` has n² entries with cell (r, c) at index `r * n + c` |
| Grid.SudokuGrid.Block | src/model/grid.py:214-235 | `block(i)` is a b×b matrix for `i < n`, and empty for larger `i` |
| Grid.SudokuGrid.BlockEntryIsInBlock | src/model/grid.py:214-235 | entry (j, k) of `block(i)` is the cell at the block's corner plus (j, k), and that cell's block index is `i` |
| Grid.SudokuGrid.CellIsInItsBlock | src/model/grid.py:193-235 | each cell appears in `block(block_index(row, col))` at its offset from the corner |
| Grid.SudokuGrid.BlockContains | src/model/grid.py:214-235 | `val in block(i)` iff some cell with block index `i` holds `val` |
| Grid.SudokuGrid.Copy | src/model/grid.py:237-246 | `copy()` is a new grid over a new array with the same contents, so writes to it leave the original alone |
| Grid.SudokuGrid.FromList | src/model/grid.py:329-359 | `from_list` succeeds iff the rows form a non-empty, rectangular, block-divisible square of unsigned 64-bit values; the result holds exactly those rows; every failure is `ValueError` |
| Grid.SudokuGrid.ToListIsGridList | src/model/grid.py:329-382 | the `to_list()` of every non-empty grid passes all of `from_list`'s checks, so `from_list` rebuilds it |
| Grid.SudokuGrid.EmptyGridDoesNotRoundTrip | src/model/grid.py:329-382 | the 0×0 grid, which the constructor accepts, is rejected by `from_list(to_list())` |
| GridText.ParseInts | src/model/grid.py:324 | `[int(el) for el in tokens]` succeeds iff every token parses, and then holds each token's value |
| GridText.ParseLines | src/model/grid.py:324 | every line read as comma-separated integers, failing iff some token does not parse |
| GridText.FromText | src/model/grid.py:296-327 | `from_text` succeeds iff every line parses and the rows form a valid grid list; the grid holds those values; every failure is `ValueError` |
| GridText.ParseBasicText | src/model/grid.py:296-327 | the comma-separated text of any list of non-empty rows reads back to that list |
| GridText.FromTextOfBasicText | src/model/grid.py:296-359 | a non-empty grid round-trips through its comma-separated text |
| GridText.SeqMax | src/model/grid.py:275 | `max()` of a non-empty array is one of its values and bounds them all |
| GridText.CellListIsJoin | src/model/grid.py:285-287 | a block-row prints as the `,`-join of its right-aligned cells |
| GridText.CellWidth | src/model/grid.py:275 | `len(str(max))` is positive and is the printed width of one of the grid's values |
| GridText.Render | src/model/grid.py:273-294 | the drawing is not empty and ends with a newline |
| GridText.ToString | src/model/grid.py:248-294 | `str(grid)` is the drawing `Render` of the grid's value with cell width `len(str(max))`; the empty grid raises `ValueError` |
| GridText.DrawRows | src/model/grid.py:279-292 | the row loop builds the full drawing: a rule, each row, and a rule after every b-th row |
| GridText.LayoutStep | src/model/grid.py:289-292 | printing one more row appends the row and, after every b-th row, a rule |
| GridText.AppendRow | src/model/grid.py:281-288 | the column loop appends `|` and one framed slice `col:col+b` per block |
| GridText.BlockRowsShape | src/model/grid.py:282-284 | a row of `k * b` cells splits into `k` slices of `b` cells |
| GridText.BlockRowsPartition | src/model/grid.py:282-284 | the slices put back together are the row |
| GridText.LayoutCount | src/model/grid.py:279-292 | `k` rows print as `1 + k + k / b` lines |
| GridText.RenderLayout | src/model/grid.py:273-294 | the drawing of an n×n grid has n + b + 1 lines; the first is a rule; row `r` is line `1 + r + r / b`; a rule follows every b-th row |
| GridText.CellLength | src/model/grid.py:286 | a value no wider than the cell width prints exactly that wide |
| GridText.CellListLength | src/model/grid.py:285-287 | a block-row of `b` fitting values prints `b * (w + 1) - 1` characters |
| GridText.RowLineLength | src/model/grid.py:276-288 | every printed row is as wide as the rule, `(1 + w) * n + 2 * b + 1` |
| GridText.ValuesFitCellWidth | src/model/grid.py:275 | every value of the grid fits the computed cell width |
| GridText.CellListReadsBack | src/model/grid.py:285-287 | the comma-separated fields of a printed block-row read back with `int()` to its values |
| GridText.RenderShape | src/model/grid.py:273-294 | the drawing has n + b + 1 lines, all of the rule's width |
| GridText.RowLineBlocks | src/model/grid.py:282-284 | a printed row shows `b` slices of `b` cells that together are the row |
| NaiveSolver.IncrementCoordinates | src/solvers/naive_solver.py:18-37 | the next cell stays inside the row width, and the linear index `row * n + col` grows by exactly 1 |
| NaiveSolver.IncrementIsSuccessor | src/solvers/naive_solver.py:34-37 | the cells before the next cell are exactly the cells up to and including the current one |
| NaiveSolver.ZeroIsSeenAtEmptyCell | src/solvers/naive_solver.py:103-104 | at an empty cell the value 0 is always excluded, so the loop over `0..n` tries `1..n` |
| NaiveSolver.CompletesAtEnd | src/solvers/naive_solver.py:93-94 | past the last row the untouched grid is already complete |
| NaiveSolver.CompletesSkip | src/solvers/naive_solver.py:99-101 | a pre-filled cell is skipped: completing from the next cell is the same as completing from this one |
| NaiveSolver.CompletesPlace | src/solvers/naive_solver.py:103-109 | placing an unseen value, then completing from the next cell, completes from this cell |
| NaiveSolver.SeenValueIsNoCompletion | src/solvers/naive_solver.py:104-105 | a value the cell's row, column or block already holds is never the value a completion puts there |
| NaiveSolver.CompletionAfterPlace | src/solvers/naive_solver.py:106-110 | a completion that puts `val` in the cell is also a completion of the grid after writing `val` |
| NaiveSolver.CompletionIsSolution | src/solvers/naive_solver.py:65-112 | a completion of the whole grid, from clues that break no rule, is a solution that keeps every clue |
| NaiveSolver.ScanMeaning | src/solvers/naive_solver.py:58-63 | the row, column and block scans together find exactly the values some unit of the cell holds |
| NaiveSolver.NaiveSudokuSolver.IsExcluded | src/solvers/naive_solver.py:39-63 | `_is_excluded` is true iff the cell's row, column or block holds the value |
| NaiveSolver.NaiveSudokuSolver.Dfs | src/solvers/naive_solver.py:65-112 | true iff a completion from (row, col) exists. On true the grid is such a completion: earlier and pre-filled cells untouched, every other cell a value in `1..n` unique in its row, column and block. On false the grid is unchanged |
| NaiveSolver.NaiveSudokuSolver.RunAlgorithm | src/solvers/naive_solver.py:12-16 | returns the puzzle itself, completed, iff a completion exists; otherwise `None` with the grid unchanged |
| FirstFailSolver.AllValues | src/solvers/first_fail_solver.py:119 | `set(range(1, n + 1))` holds exactly `1..n` |
| FirstFailSolver.InDomainsIffUnseen | src/solvers/first_fail_solver.py:28-35 | at an empty cell, a value is in its row, column and block domains iff it is in `1..n` and no unit of the cell holds it |
| FirstFailSolver.FreeVariableIsEmptyCell | src/solvers/first_fail_solver.py:124-129 | a free variable names an empty cell and carries that cell's block index |
| FirstFailSolver.Domain | src/solvers/first_fail_solver.py:44-65 | `domain(v)` holds no value that the row, the column or the block of `v` no longer allows |
| FirstFailSolver.DomainIsUnseenValues | src/solvers/first_fail_solver.py:60-65 | `domain(v)`, the intersection of the three domains, is the set of values no unit of the cell holds |
| FirstFailSolver.RowDomainsAfterPlace | src/solvers/first_fail_solver.py:78-83 | a value placed in an empty cell leaves its row's domain and no other row domain changes |
| FirstFailSolver.ColDomainsAfterPlace | src/solvers/first_fail_solver.py:78-83 | the same for the column domains |
| FirstFailSolver.BlockDomainsAfterPlace | src/solvers/first_fail_solver.py:78-83 | the same for the block domains |
| FirstFailSolver.PlaceKeepsRules | src/solvers/first_fail_solver.py:67-83 | writing an unseen value of `1..n` into an empty cell keeps every row, column and block free of repeats |
| FirstFailSolver.FreeAfterPlace | src/solvers/first_fail_solver.py:78 | filling a cell removes exactly its variable from the free set |
| FirstFailSolver.AssignKeepsConsistent | src/solvers/first_fail_solver.py:67-83 | `assign` with a value from the domain keeps the state invariant, and uses up one free variable |
| FirstFailSolver.RemoveUndoesAssign | src/solvers/first_fail_solver.py:85-100 | the intended `remove_assignment` right after `assign` restores the free set, the cell and all three domains exactly |
| FirstFailSolver.RemoveAsWrittenLosesValue | src/solvers/first_fail_solver.py:98 | as written, the first backtrack leaves the row domain without the value it clears, so the state is not restored |
| FirstFailSolver.ConsistentWithoutFreeIsSolved | src/solvers/first_fail_solver.py:174-177 | with no free variable left, the invariant makes the grid a solution |
| FirstFailSolver.SolutionValueInDomain | src/solvers/first_fail_solver.py:184 | any solution keeping the clues puts a value of the free cell's domain there |
| FirstFailSolver.SolutionExtendsAssignment | src/solvers/first_fail_solver.py:185 | a solution that agrees with the assigned value extends the state after `assign` |
| FirstFailSolver.ScanStart | src/solvers/first_fail_solver.py:118-122 | before the scan, every domain is `1..n` and nothing is free |
| FirstFailSolver.ScanEmpty | src/solvers/first_fail_solver.py:127-129 | an empty cell becomes a free variable with its block index |
| FirstFailSolver.ScanFilled | src/solvers/first_fail_solver.py:131-133 | a filled cell's value leaves its row, column and block domains |
| FirstFailSolver.ScanConflict | src/solvers/first_fail_solver.py:131-133 | a value missing from one of its domains means the grid repeats a value or holds one outside `1..n` |
| FirstFailSolver.ScanNextRow | src/solvers/first_fail_solver.py:124 | the end of one row of the scan is the start of the next |
| FirstFailSolver.ScanEnd | src/solvers/first_fail_solver.py:135-141 | after the scan the state describes the whole grid consistently |
| FirstFailSolver.SolutionsPickDomain | src/solvers/first_fail_solver.py:184 | the loop over the chosen domain misses no solution |
| FirstFailSolver.SolutionsPickRemove | src/solvers/first_fail_solver.py:184-188 | a value whose assignment has no solution can be dropped from the candidates |
| FirstFailSolver.SolutionsPickNone | src/solvers/first_fail_solver.py:190 | with no candidate left, no solution exists |
| FirstFailSolver.AssignedSolutionSolves | src/solvers/first_fail_solver.py:185-187 | a solution found after `assign` also solves the state before it |
| FirstFailSolver.State.Assign | src/solvers/first_fail_solver.py:67-83 | the variable leaves the free set, the cell gets the value, and the value leaves the three domains; nothing else changes |
| FirstFailSolver.State.RemoveAssignment | src/solvers/first_fail_solver.py:85-100 | the intended inverse: the variable is free again, the cell is 0, and its old value is back in the three domains |
| FirstFailSolver.State.RemoveAssignmentAsWritten | src/solvers/first_fail_solver.py:85-100 | as written: the free set and the cell are reset, then `AttributeError("row_domais")` is raised with the domains untouched |
| FirstFailSolver.State.FromGrid | src/solvers/first_fail_solver.py:102-141 | succeeds iff no row, column or block repeats a value and every value is in `0..n`; otherwise `KeyError`. The new state holds a copy with the same contents and satisfies the invariant |
| FirstFailSolver.FirstFailSudokuSolver.New | src/solvers/first_fail_solver.py:152-154 | the constructor builds the state from the puzzle, and `from_grid`'s `KeyError` propagates |
| FirstFailSolver.FirstFailSudokuSolver.ChooseVariable | src/solvers/first_fail_solver.py:192-206 | `None` iff nothing is free; otherwise a free variable with its domain, and no free variable has a smaller domain |
| FirstFailSolver.FirstFailSudokuSolver.Dfs | src/solvers/first_fail_solver.py:162-190 | true iff a solution keeping the filled cells exists. On true no free variable is left and the grid is such a solution. On false the state is as on entry. The invariant holds on return |
| FirstFailSolver.FirstFailSudokuSolver.TryValue | src/solvers/first_fail_solver.py:185-188 | one pass of the loop: on failure the state is restored and the assignment provably has no solution |
| FirstFailSolver.FirstFailSudokuSolver.DfsAsWritten | src/solvers/first_fail_solver.py:162-190 | as written: either `AttributeError("row_domais")`, or true with the grid a solution keeping the filled cells, or false only when no solution exists, with the state as on entry |
| FirstFailSolver.FirstFailSudokuSolver.TryValueAsWritten | src/solvers/first_fail_solver.py:184-188 | as written, a pass of the loop never reports plain failure: it succeeds with a solution, or `remove_assignment` raises `AttributeError` |
| FirstFailSolver.FirstFailSudokuSolver.RunAlgorithmAsWritten | src/solvers/first_fail_solver.py:156-160 | as written: a solved grid, `None` only when no solution exists, or `AttributeError`; the puzzle passed in is never changed |
| FirstFailSolver.FirstFailSudokuSolver.RunAlgorithm | src/solvers/first_fail_solver.py:156-160 | returns the solved working grid iff a solution exists; the puzzle passed in is never changed |
| SatSolver.AtLeastOneMeaning | src/solvers/sat_solver.py:75-76 | the at-least-one clause holds iff some proposition is true |
| SatSolver.PairClauseMeaning | src/solvers/sat_solver.py:80 | `[-p, -q]` holds iff `p` and `q` are not both true |
| SatSolver.PairRowMeaning | src/solvers/sat_solver.py:79-80 | the pairs with first element `ps[i]` hold iff no later proposition is true together with it |
| SatSolver.PairsUpToMeaning | src/solvers/sat_solver.py:79-80 | the pair clauses of the first `i` propositions hold iff none of them is true together with a later one |
| SatSolver.AtMostOneMeaning | src/solvers/sat_solver.py:78-80 | the at-most-one clauses hold iff no two of the propositions are true |
| SatSolver.ExactlyOneMeaning | src/solvers/sat_solver.py:82-84 | the exactly-one clauses hold iff exactly one proposition is true |
| SatSolver.AtMostOneCount | src/solvers/sat_solver.py:78-80 | `k` propositions give `k·(k−1)/2` pair clauses |
| SatSolver.EachAtMostOneMeaning | src/solvers/sat_solver.py:92-107 | the clauses of many at-most-one groups hold iff each group has at most one true proposition |
| SatSolver.EachExactlyOneMeaning | src/solvers/sat_solver.py:86-90 | the clauses of many exactly-one groups hold iff each group has exactly one true proposition |
| SatSolver.GroupsAreEntries | src/solvers/sat_solver.py:87-89 | the listed groups are exactly the dictionary's entries, one per key |
| SatSolver.ExactlyOneGroupsMeaning | src/solvers/sat_solver.py:86-90 | the per-key exactly-one clauses hold iff every dictionary entry has exactly one true proposition |
| SatSolver.AtMostOneGroupsMeaning | src/solvers/sat_solver.py:92-107 | the per-key at-most-one clauses hold iff no dictionary entry has two true propositions |
| SatSolver.EncodingClauses | src/solvers/sat_solver.py:69-107 | every literal the constructor appends is `p.id` or `-p.id` of one of the given propositions |
| SatSolver.EncodingMeaning | src/solvers/sat_solver.py:69-107 | the whole encoding holds iff each cell has exactly one true value, and each (row, value), (column, value) and (block index, value) has at most one |
| SatSolver.NonNegative | src/solvers/sat_solver.py:145 | keeps exactly the identifiers that are `>= 0` |
| SatSolver.Lookup | src/solvers/sat_solver.py:146 | maps each identifier to its proposition, or raises `KeyError` for the first missing one |
| SatSolver.DecodeSpec | src/solvers/sat_solver.py:145-152 | decoding keeps the grid's shape, and fails only with `KeyError`, `IndexError` or `OverflowError` |
| SatSolver.Writes | src/solvers/sat_solver.py:149-150 | the writes give a grid of the same shape, or fail with `IndexError` or `OverflowError` |
| SatSolver.WritesSucceed | src/solvers/sat_solver.py:149-150 | the writes succeed iff every proposition names a cell inside the grid and a value an unsigned cell can hold |
| SatSolver.WritesKeepUnnamed | src/solvers/sat_solver.py:149-150 | a cell no proposition names keeps its value |
| SatSolver.WritesLastWins | src/solvers/sat_solver.py:149-150 | a named cell holds the value of the last proposition naming it |
| SatSolver.DecodeKeepsUnnamed | src/solvers/sat_solver.py:145-152 | a decoded grid keeps every cell that no true proposition names |
| SatSolver.DecodeLastWins | src/solvers/sat_solver.py:145-152 | a decoded cell holds the value of the last true proposition naming it |
| SatSolver.DecodeKeyError | src/solvers/sat_solver.py:146 | `decode` raises `KeyError` iff some non-negative identifier is not a proposition |
| SatSolver.SudokuCNF.Values | src/solvers/sat_solver.py:63-65 | `propositions.values()` in insertion order |
| SatSolver.SudokuCNF.New | src/solvers/sat_solver.py:69-73 | the constructor appends exactly the cell, row, column and block clauses, in that order; the empty grid with any proposition raises `ZeroDivisionError` |
| SatSolver.SudokuCNF.AtLeastOne | src/solvers/sat_solver.py:75-76 | appends one clause listing the identifiers in order |
| SatSolver.SudokuCNF.AtMostOne | src/solvers/sat_solver.py:78-80 | appends `[-p.id, -q.id]` for every pair, in `itertools.combinations` order |
| SatSolver.SudokuCNF.ExactlyOne | src/solvers/sat_solver.py:82-84 | appends the at-most-one clauses, then the at-least-one clause |
| SatSolver.SudokuCNF.EveryCellHasASingleValue | src/solvers/sat_solver.py:86-90 | appends the exactly-one clauses of each cell's group |
| SatSolver.SudokuCNF.EveryRowContainsUniqueValues | src/solvers/sat_solver.py:92-97 | appends the at-most-one clauses of each (row, value) group |
| SatSolver.SudokuCNF.EveryColContainsUniqueValues | src/solvers/sat_solver.py:99-102 | appends the at-most-one clauses of each (column, value) group |
| SatSolver.SudokuCNF.EveryBlockContainsUniqueValues | src/solvers/sat_solver.py:104-107 | appends the at-most-one clauses of each (block index, value) group, with the key computed by `block_index`; `ZeroDivisionError` on the empty grid |
| SatSolver.SudokuCNF.AllExactlyOne | src/solvers/sat_solver.py:87-90 | the loop appends the exactly-one clauses of each group in turn |
| SatSolver.SudokuCNF.AllAtMostOne | src/solvers/sat_solver.py:93-97 | the loop appends the at-most-one clauses of each group in turn |
| SatSolver.SudokuCNF.Decode | src/solvers/sat_solver.py:129-152 | the result is a fresh grid with `DecodeSpec`'s contents, or `DecodeSpec`'s error; the puzzle and the formula are untouched |

## Left out

- Timeouts: `self._timeout()` and `TimeoutError` belong to the solver base class, which is not part of this model. The solvers are modelled as running to completion without a deadline.
- `recursion_limit_set_to` changes Python's global recursion limit. This has no meaning in Dafny, so `run_algorithm` is modelled without it.
- The dancing-links solver, the solver-type dispatch, the HTTP API, the command line and file I/O are not part of this model.
- `SudokuCNF.encode`, `_possible_propositions`, `SatSudokuSolver.run_algorithm` and `SatSudokuValidator.has_unique_solution` are stubs that raise `NotImplementedError`. pysat's search is an external engine. All of these are left out: the encoder is modelled for the propositions it is given.
- `enumerate` is not modelled as its own operation. The row-major scan of `from_grid` uses it, and the scan is modelled directly.
- `math.sqrt` is floating point. The model uses the exact integer square root, which gives the same block-divisibility verdict.
- Text.ParseInt: `int()` is modelled for tokens of optional surrounding whitespace, an optional sign and decimal digits. Underscores, other Unicode digits and other whitespace characters are not modelled. CPython's limit on decimal conversion (since 3.11, `ValueError` for more than 4300 digits, leading zeros included) is not modelled either, so the model accepts such a token.
- Python set iteration order is modelled as an arbitrary choice, in `ChooseVariable` and in the loop of `Dfs` over the domain.
  - FirstFailSolver.FirstFailSudokuSolver.ChooseVariable: when several free variables tie, the one returned is any of them, not necessarily the one `min` would see first.
  - The dictionary `propositions` is modelled as a map together with its keys in insertion order.
- Grid.SudokuGrid.New: numpy arrays of any dimension are not modelled; an `array2` is always two-dimensional. The "should be 2-dimensional" error is reached only through `from_list` on an empty list.
- `from_list` and `from_text` are modelled on lists of integers. The element conversions numpy performs on strings and floats are not modelled.
- NaiveSolver.NaiveSudokuSolver.Dfs: states which grids count as a completion, not which completion the 1..n order finds first. It requires the side to be below 2^64, so that every candidate value fits a cell.
- FirstFailSolver.FirstFailSudokuSolver.Dfs: uses the corrected `remove_assignment` (see Findings). DfsAsWritten models the code as written.
- FirstFailSolver.FirstFailSudokuSolver.TryValue: uses the corrected `remove_assignment`. TryValueAsWritten models the code as written.
- FirstFailSolver.FirstFailSudokuSolver.RunAlgorithm: is proved with the corrected `remove_assignment`. As written, `run_algorithm` raises `AttributeError` on any puzzle whose search backtracks; RunAlgorithmAsWritten models that.
- FirstFailSolver.FirstFailSudokuSolver.DfsAsWritten: models the loop over the domain as its first pass. As written, every pass ends the call: it succeeds, or `remove_assignment` raises.
- FirstFailSolver.State.Assign: requires the variable to be free and the value to be in its domain. The `KeyError` that `set.remove` raises otherwise (src/solvers/first_fail_solver.py:78-83) is not modelled. `_dfs` only ever assigns a free variable a value from its domain.
- Grid.BlockIndex: requires a positive block size. The `ZeroDivisionError` of the 0×0 grid (src/model/grid.py:210) is not modelled here. Within this core, the SAT block key reaches it, and SatSolver.SudokuCNF.EveryBlockContainsUniqueValues models that error; the naive search returns before any cell of that grid.
- Grid.SudokuGrid.Block: requires a positive block size, so the `ZeroDivisionError` of the 0×0 grid (src/model/grid.py:229) is not modelled. Its index is a natural, so a negative index is not modelled either; floor division and numpy slicing turn one into another slice (`block(-4)` of a 9×9 grid is rows 3..5, columns 6..8). The core calls `block` only with `block_index` of a cell.
- The search keeps the `State` invariant, which needs the clues to break no rule. `from_grid` guarantees this, because it raises `KeyError` otherwise.
- FirstFailSolver.FirstFailSudokuSolver.TryValue and GridText.DrawRows are loop bodies factored out of `_dfs` and `__str__` into methods of their own. GridText.AppendRow is likewise the inner loop of `__str__`.
- SatSolver.Coordinates: `row` and `col` are naturals. `decode` with negative coordinates, which numpy would wrap, is not modelled.
- SatSolver.SudokuCNF.New: on `ZeroDivisionError` the caller's formula object keeps the clauses appended before the failure. That aliasing is not modelled, because `cnf` is a value here.
- SatSolver.SudokuCNF.New: requires `propositions` to be a dictionary, keyed in insertion order by `ids`. It does not check that each proposition's `id` equals its key, since the source does not either.

## Findings

| source | as written | input that shows it | evidently intended | confidence | as-written member | corrected member |
|---|---|---|---|---|---|---|
| src/solvers/first_fail_solver.py:98 | `remove_assignment` adds the value back to `self.row_domais[row]`, an attribute the slotted dataclass does not have, so it raises `AttributeError` after resetting the free set and the cell, with the domains untouched | any puzzle on which the first-fail search must backtrack, e.g. a 4×4 grid whose first chosen value leads to a dead end | add the value back to `row_domains`, `col_domains` and `block_domains`, making `remove_assignment` the exact inverse of `assign` | not executed | FirstFailSolver.State.RemoveAssignmentAsWritten, FirstFailSolver.RemoveAsWrittenLosesValue, FirstFailSolver.FirstFailSudokuSolver.RunAlgorithmAsWritten | FirstFailSolver.State.RemoveAssignment, FirstFailSolver.RemoveUndoesAssign |
