# Nonogram solvers, modelled and proved in Dafny

This project models the two nonogram solvers in `Puzzle/`.

A nonogram is a grid of 0/1 cells. Each row and column has a clue: the lengths of its maximal runs of 1s, read in order.
- `Puzzle/Nonogram.py` fills the cells in index order. It uses backtracking with forward checking: after fixing a cell, it filters the candidate lists ("domains") of all later cells.
- `Puzzle/Nonogram-improved.py` adds two things on top of that search:
  - a `preprocess` pass that forces to 1 the cells a single-run line must fill;
  - `select_variable`, which branches on a cell with the fewest candidates above one.

Both files share the same line helpers:
- `get_row_indices` and `get_col_indices`;
- `check_constraint`, which compares the maximal runs of 1s of a line with its clue;
- `is_consistent`, which rejects a value only when it completes a row or column that breaks its clue.

Cells are numbered row by row (`row * width + col`). Domains are lists of candidate values. The solvers return the grid together with two counters, `node_count` and `backtrack_count`.

Layout:
- `runs.dfy` (`Runs`): `itertools.groupby` as `GroupBy` and `check_constraint` as `CheckConstraint`. It also proves which lines match which clues.
- `cell_arith.dfy` (`CellArith`): row-major index arithmetic.
- `lines.dfy` (`Lines`): the puzzle, the index helpers, `is_consistent`, and the branch step both searches share.
- `solutions.dfy` (`Solutions`): grids versus row-major value lists, and partial assignments that agree with a solution.
- `search_spec.dfy` (`NonogramSearch`): what `forward_checking` of `Nonogram.py` computes, with its soundness, completeness and counters.
- `nonogram.dfy` (`Nonogram`): the `forward_checking` and `solve_nonogram` methods of `Nonogram.py`, each proved to compute those functions.
- `improved_spec.dfy` (`ImprovedSearch`): selection, preprocessing, the improved search, its properties, and a counterexample to its soundness.
- `nonogram_improved.dfy` (`NonogramImproved`): the methods of `Nonogram-improved.py`.

What the proofs establish:
- **`Nonogram.py`, on a square grid**:
  - `solve_nonogram` returns a grid exactly when a solution exists and the puzzle is not 0 by 0.
  - Any grid it returns is a solution, and the node count then equals the number of cells.
  - The backtrack count then is at most the number of cells.
  - When it fails and the puzzle is not 0 by 0, it reports one node and at most two backtracks. The counts of failed recursive calls are dropped.
- **`Nonogram-improved.py`**:
  - `preprocess` never removes a value a solution needs.
  - The search terminates, because every branch step lowers the number of open cells.
  - It returns a grid whenever a solution exists and the puzzle is not 0 by 0.
  - It is not sound. It checks lines only through `is_consistent`: for the branched cell, and in the forward check of each later cell, always against the values of the cells before the branched cell. A row whose cells were all fixed before the search is therefore never checked, since the branched cell is open and a row's cells are contiguous. A column can still be checked this way. For rows `[[2], [1]]` and columns `[[2], [2]]` it returns the all-1 grid with both counts 0, and row 1 of that grid breaks its clue.

Behaviour of the source worth knowing:
- **Overlap range.** For a single-run clue `[L]` with `L < width < 2 * L`, `preprocess` forces columns `width-L+1 .. L-1` (`Puzzle/Nonogram-improved.py:84-87`). Column `width-L` is filled in every matching line but is not forced (`ImprovedSearch.OverlapStartsOneLate`). When `L == width`, every column is forced (`Puzzle/Nonogram-improved.py:80-83`).
- **Node counting.** `node_count` is bumped once per call that goes on to try values, before any value is tried (`Puzzle/Nonogram.py:39`, `Puzzle/Nonogram-improved.py:52`). In `Puzzle/Nonogram.py` only the call with `index == len(domains)` adds nothing: a call at a cell whose domain is a singleton still counts a node. In `Puzzle/Nonogram-improved.py` a call that finds no open cell adds nothing (`Puzzle/Nonogram-improved.py:46-50`).
- **Soundness.** `Nonogram.py` returns only solutions. The improved solver can return a grid that breaks a clue (`ImprovedSearch.ImprovedSolverCounterexample`).
- **The 1-by-1 puzzle.** With clues `[[1]]` and `[[1]]`, the improved solver returns `[[1]]` with both counts 0, because `preprocess` already fixes the only cell (`ImprovedSearch.ImprovedOneByOne`).
- **Which cells are checked.** The assignment `is_consistent` reads holds only the cells before the one being branched on, each with its first candidate.

## Model

| member | source | states |
|---|---|---|
| Runs.GroupBy | Puzzle/Nonogram.py:14 | `groupby` gives at most one group per cell, and no group exactly for the empty line. Its round trip and maximality are `Runs.GroupByRoundTrip` and `Runs.GroupByMaximal`. |
| Runs.CheckConstraint | Puzzle/Nonogram.py:13-15 | A clue that passes has at most one entry per cell of the line. Exactly which lines pass which clues is `Runs.PlacementMatches` with `Runs.LineIsPlacementOfItsRuns`. |
| Runs.GroupByRoundTrip | Puzzle/Nonogram.py:14 | Writing the groups of `groupby` out again gives back the line. |
| Runs.GroupByMaximal | Puzzle/Nonogram.py:14 | Every group is non-empty and neighbouring groups have different keys, so the groups are the maximal runs. |
| Runs.RunsPositive | Puzzle/Nonogram.py:14 | Every run length `check_constraint` compares is at least 1. |
| Runs.NoRunsIffNoOnes | Puzzle/Nonogram.py:13-15 | A line has no runs of 1s exactly when it contains no 1. |
| Runs.RunsAfterZeros | Puzzle/Nonogram.py:14 | Leading 0s do not change the runs of a line. |
| Runs.RunsAfterOnes | Puzzle/Nonogram.py:14 | A leading block of `n` 1s followed by a non-1 contributes the run `n` in front of the rest. |
| Runs.ClueBelowOneNeverMatches | Puzzle/Nonogram-improved.py:13-15 | A clue with an entry of 0 or less matches no line. |
| Runs.EmptyClueMatchesOnlyBlankLines | Puzzle/Nonogram-improved.py:13-15 | A line without 1s matches only the empty clue, and the empty clue matches only such lines. |
| Runs.PlacementMatches | Puzzle/Nonogram.py:13-15 | A 0/1 line built from the clue's runs, separated by gaps of at least one 0, passes `check_constraint`. |
| Runs.LineIsPlacementOfItsRuns | Puzzle/Nonogram.py:13-15 | Conversely, every 0/1 line is its own runs placed with such gaps, so the check accepts exactly these lines. |
| Runs.SingleRunShape | Puzzle/Nonogram-improved.py:13-15 | A 0/1 line that passes the clue `[n]` is some 0s, then `n` 1s, then 0s. |
| CellArith.CellIndexDivMod | Puzzle/Nonogram.py:5-7 | Splitting cell `row*width+col` with `//` and `%` gives back its row and column. |
| Lines.RowIndices | Puzzle/Nonogram.py:5-7 | `get_row_indices` lists the cells of the row through `index`, with `index` at position `index % width`. |
| Lines.ColIndices | Puzzle/Nonogram.py:9-11 | `get_col_indices` lists column `index % height` of a grid whose rows are `height` cells wide. |
| Lines.ColIndicesSquare | Puzzle/Nonogram-improved.py:9-11 | On a square grid this is the column through `index`, with `index` at position `index // width`, the position `is_consistent` overwrites. |
| Lines.ColIndicesNotAColumnWhenNotSquare | Puzzle/Nonogram.py:9-11 | On a 3-wide, 2-high grid the list for cell 1 is `[1, 3]`, while the column through cell 1 is `[1, 4]`. |
| Lines.IsConsistent | Puzzle/Nonogram.py:17-33 | A value is rejected only when the assignment holds every other cell of its row, or every other entry of its column list. `Lines.IsConsistentSquare` gives the exact condition, and `Lines.IncompleteLinesAccepted` the converse. |
| Lines.LookupComplete | Puzzle/Nonogram.py:21-27 | A looked-up line has no `None` exactly when every cell of it is assigned, and then it holds the assigned values. |
| Lines.IsConsistentSquare | Puzzle/Nonogram.py:17-33 | On a square grid, `is_consistent` holds exactly when the row and the column through the cell, with the cell set, are each incomplete or match their clue. |
| Lines.IncompleteLinesAccepted | Puzzle/Nonogram-improved.py:17-33 | On a grid of any shape, a value is accepted unchecked when both its row and its column miss another cell. |
| Lines.Prefix | Puzzle/Nonogram.py:42 | The assignment holds exactly the cells before the index. |
| Lines.Filter | Puzzle/Nonogram.py:49 | The comprehension keeps exactly the values `is_consistent` accepts, and never adds any. |
| Lines.Branch | Puzzle/Nonogram.py:45-49 | The branch step keeps earlier cells, fixes the cell to `[value]`, and leaves each later cell exactly its accepted values. |
| Lines.BranchDomains | Puzzle/Nonogram.py:45-49 | The copy loop builds exactly the domains of `Lines.Branch`. |
| Lines.ToGrid | Puzzle/Nonogram.py:68-69 | The grid read off the domains has `height` rows of `width` cells. Its contents are `Solutions.RowOfGrid` and `Solutions.ColOfGrid`. |
| Solutions.LineOkFrame | Puzzle/Nonogram.py:27-31 | Setting a cell outside a line does not change whether that line is accepted. |
| Solutions.ConsistentWithSolution | Puzzle/Nonogram.py:44-49 | If the values fixed so far agree with a solution, `is_consistent` never rejects that solution's value for another cell. |
| Solutions.FlattenSolution | Puzzle/Nonogram.py:68-69 | A solution grid read row by row is a 0/1 value list whose every row and column matches its clue. |
| Solutions.RowOfGrid | Puzzle/Nonogram.py:68-69 | Row `r` of the grid is the values of row `r`'s cells. |
| Solutions.ColOfGrid | Puzzle/Nonogram.py:68-69 | Column `c` of the grid is the values of column `c`'s cells. |
| Solutions.GridOfSolvedDomains | Puzzle/Nonogram.py:67-70 | When every cell has a 0/1 value and every line matches, the grid `solve_nonogram` builds is a solution. |
| NonogramSearch.Search | Puzzle/Nonogram.py:35-58 | A success returns one domain per cell. Its counts are `NonogramSearch.SearchCounters`, its soundness `NonogramSearch.SearchSound` and its completeness `NonogramSearch.SearchComplete`. |
| NonogramSearch.TryValues | Puzzle/Nonogram.py:41-58 | The same for the loop over a cell's values, with `NonogramSearch.TryCounters`, `NonogramSearch.TrySound` and `NonogramSearch.TryComplete`. |
| NonogramSearch.InitialDomains | Puzzle/Nonogram.py:63 | There is one starting domain per cell. |
| NonogramSearch.BranchPrefix | Puzzle/Nonogram.py:42-46 | After a branch step, the fixed values are the old ones plus the new cell's value. |
| NonogramSearch.BranchKeepsLinesOk | Puzzle/Nonogram.py:44-49 | A branch step on an accepted value keeps every completed line matching its clue. |
| NonogramSearch.SearchCounters | Puzzle/Nonogram.py:35-58 | On success the node count grows by one per remaining cell, and the backtrack count by at most the spare candidates (all but one) of the remaining cells. On failure the node count grows by one, and the backtrack count grows by the values rejected at this cell. The backtrack count never drops. |
| NonogramSearch.TryCounters | Puzzle/Nonogram.py:41-58 | The same counts for the loop over a cell's values, from any value on; on success at most one backtrack per value tried before the accepted one, plus the spare candidates of the later cells. |
| NonogramSearch.BranchSlack | Puzzle/Nonogram.py:44-49 | A branch step leaves no later cell with more candidates, and leaves the fixed cell with none to spare. |
| NonogramSearch.SlackOfSmallDomains | Puzzle/Nonogram.py:63 | Domains of at most two values, such as the initial `[0, 1]` lists, have at most one spare candidate per cell. |
| NonogramSearch.SearchSound | Puzzle/Nonogram.py:35-58 | A successful search returns one value per cell, each taken from that cell's domain, with every row and column matching. |
| NonogramSearch.TrySound | Puzzle/Nonogram.py:41-58 | The same for the loop over a cell's values. |
| NonogramSearch.PicksAfterBranch | Puzzle/Nonogram.py:45-49 | Values picked from the domains after a branch step are picks from the domains before it. |
| NonogramSearch.BranchAdmitsSolution | Puzzle/Nonogram.py:44-49 | Branching on a solution's value is accepted and keeps that solution inside every domain. |
| NonogramSearch.SearchFromStart | Puzzle/Nonogram.py:60-73 | A search from all-`[0, 1]` domains succeeds exactly when the puzzle is not 0 by 0 and has a solution. The grid built from a success is a solution, with one node per cell and at most one backtrack per cell. A failure on a puzzle that is not 0 by 0 has one node and at most two backtracks. The 0-by-0 puzzle reports 0 nodes and 0 backtracks. |
| NonogramSearch.StartSolved | Puzzle/Nonogram.py:60-69 | The grid built from a successful search is a solution of the puzzle. |
| NonogramSearch.SearchComplete | Puzzle/Nonogram.py:35-58 | If some solution keeps every cell inside its domain, the search succeeds. |
| NonogramSearch.TryComplete | Puzzle/Nonogram.py:41-58 | The same for the loop, as long as the solution's value is still to be tried. |
| Nonogram.ForwardChecking | Puzzle/Nonogram.py:35-58 | The method returns exactly `NonogramSearch.Search`: the same result and the same two counts. |
| Nonogram.Solve | Puzzle/Nonogram.py:60-73 | The grid and both counts are exactly those of `NonogramSearch.Search` from the all-`[0, 1]` domains, which tries 0 before 1 at each cell. A grid comes back exactly when a solution exists and the grid is not 0 by 0. It is then a solution, with one node per cell and at most one backtrack per cell. Otherwise there is one node and at most two backtracks, or 0 and 0 for the empty puzzle. These are the facts `NonogramSearch.SearchFromStart` proves about the search. |
| ImprovedSearch.MrvFrom | Puzzle/Nonogram-improved.py:35-44 | The choice among cells from `lo` on: the lowest index among those whose number of candidates is the smallest above one, or `len(domains)` if there are none. |
| ImprovedSearch.Selected | Puzzle/Nonogram-improved.py:35-44 | `select_variable` makes that choice over all cells. |
| ImprovedSearch.MrvChoiceUnique | Puzzle/Nonogram-improved.py:35-44 | Only one cell meets that description. |
| ImprovedSearch.SelectedIsFirstOpenCell | Puzzle/Nonogram-improved.py:35-55 | With 0/1 domains, every cell before the selected one has a single candidate, so the assignment holds only fixed cells. |
| ImprovedSearch.FilterBitDomain | Puzzle/Nonogram-improved.py:62 | Filtering a 0/1 domain leaves an empty list or again an ordered 0/1 domain. |
| ImprovedSearch.BranchKeepsBitDomains | Puzzle/Nonogram-improved.py:58-64 | A branch step that recurses keeps every domain an ordered 0/1 domain. |
| ImprovedSearch.MultiCountZero | Puzzle/Nonogram-improved.py:44-50 | No cell is open exactly when the count of open cells is zero. |
| ImprovedSearch.MultiCountShrinks | Puzzle/Nonogram-improved.py:58-62 | Shrinking domains never raises the number of open cells, and closing one lowers it. |
| ImprovedSearch.BranchShrinks | Puzzle/Nonogram-improved.py:58-65 | Each branch step leaves fewer open cells, so the recursion ends. |
| ImprovedSearch.SearchMrv | Puzzle/Nonogram-improved.py:46-71 | A success returns one domain per cell. Its counts are `ImprovedSearch.MrvCounters`, its picks `ImprovedSearch.SearchMrvPicks`, its completeness `ImprovedSearch.SearchMrvComplete` and its termination `ImprovedSearch.BranchShrinks`. |
| ImprovedSearch.TryMrv | Puzzle/Nonogram-improved.py:54-71 | The same for the loop over the selected cell's values, with `ImprovedSearch.TryMrvCounters`, `ImprovedSearch.TryMrvPicks` and `ImprovedSearch.TryMrvComplete`. |
| ImprovedSearch.MrvCounters | Puzzle/Nonogram-improved.py:46-71 | With no open cell, the call returns the domains unchanged and both counts untouched. On success the node count grows by 1 up to the number of open cells, and the backtrack count by at most the spare candidates of all cells. On failure it grows by one, and the backtrack count grows by the values rejected at the selected cell. |
| ImprovedSearch.TryMrvCounters | Puzzle/Nonogram-improved.py:54-71 | The same counts for the loop over the selected cell's values; on success at most one backtrack per value tried before the accepted one, plus the spare candidates of the other cells. |
| ImprovedSearch.SearchMrvPicks | Puzzle/Nonogram-improved.py:46-71 | Success leaves one candidate per cell, taken from that cell's domain, so singleton cells keep their value. |
| ImprovedSearch.TryMrvPicks | Puzzle/Nonogram-improved.py:54-71 | The same for the loop over the selected cell's values. |
| ImprovedSearch.SearchMrvComplete | Puzzle/Nonogram-improved.py:46-71 | With 0/1 domains, if some solution keeps every cell inside its domain, the search succeeds. |
| ImprovedSearch.TryMrvComplete | Puzzle/Nonogram-improved.py:54-71 | The same for the loop, as long as the solution's value is still to be tried. |
| ImprovedSearch.MrvBranchAdmitsSolution | Puzzle/Nonogram-improved.py:54-65 | Branching on the selected cell with a solution's value is accepted, keeps the solution inside 0/1 domains, and leaves fewer open candidates. |
| ImprovedSearch.Forces | Puzzle/Nonogram-improved.py:78-100 | A position `preprocess` forces, in a line the run fits, lies in both the leftmost and the rightmost placement of the run. `ImprovedSearch.ForcedCellIsFilled` proves it holds 1 in every matching line. |
| ImprovedSearch.CellDomain | Puzzle/Nonogram-improved.py:78-100 | A cell's preprocessed domain is `[1]` or `[0, 1]`, so value 1 is never removed. `ImprovedSearch.PreprocessedCell` places it in the list. |
| ImprovedSearch.Preprocessed | Puzzle/Nonogram-improved.py:73-74 | `preprocess` returns one domain per cell. |
| ImprovedSearch.PreprocessedCell | Puzzle/Nonogram-improved.py:73-102 | Each cell is `[1]` if its row's single run or its column's single run forces it, and `[0, 1]` otherwise. |
| ImprovedSearch.PreprocessedDomains | Puzzle/Nonogram-improved.py:73-102 | Every domain is `[1]` or `[0, 1]`, so value 1 is never removed. |
| ImprovedSearch.ForcedCellIsFilled | Puzzle/Nonogram-improved.py:78-87 | In a 0/1 line whose runs are `[L]`, every position `preprocess` forces holds 1. |
| ImprovedSearch.OverlapStartsOneLate | Puzzle/Nonogram-improved.py:84-87 | Position `width-L` is 1 in every such line, yet it is not forced. |
| ImprovedSearch.PreprocessKeepsSolutions | Puzzle/Nonogram-improved.py:73-102 | For any puzzle with a solution, `preprocess` is well defined, and every solution keeps each cell inside its preprocessed domain. |
| ImprovedSearch.SolvableCluesFit | Puzzle/Nonogram-improved.py:76-100 | A puzzle with a solution has no single-run clue longer than its line, so `preprocess` stays inside each line. |
| ImprovedSearch.GridWithinPreprocessed | Puzzle/Nonogram-improved.py:111-113 | The grid read off the search result has 0/1 rows and holds 1 wherever `preprocess` forced it. |
| ImprovedSearch.SolveMrv | Puzzle/Nonogram-improved.py:104-117 | A returned grid has `height` rows of `width` cells. Its other guarantees are `ImprovedSearch.SolveMrvOutcome`. |
| ImprovedSearch.SolveMrvOutcome | Puzzle/Nonogram-improved.py:104-117 | A grid comes back whenever a solution exists and the grid is not 0 by 0. It has 0/1 cells, 1 in every forced cell, and at most one node and one backtrack per cell. A failed run on a puzzle that is not 0 by 0 has one node and at most two backtracks. The 0-by-0 puzzle reports 0 nodes and 0 backtracks. |
| ImprovedSearch.ImprovedSolverCounterexample | Puzzle/Nonogram-improved.py:104-117 | For rows `[[2], [1]]` and columns `[[2], [2]]`, all cells are forced, the search returns at once with counts 0 and 0, and the returned grid of 1s is not a solution. |
| ImprovedSearch.ImprovedOneByOne | Puzzle/Nonogram-improved.py:104-117 | For the 1 by 1 puzzle with clues `[[1]]`, the result is `[[1]]` with counts 0 and 0. |
| NonogramImproved.SelectVariable | Puzzle/Nonogram-improved.py:35-44 | The loop returns the choice `ImprovedSearch.Selected` describes. |
| NonogramImproved.ForwardChecking | Puzzle/Nonogram-improved.py:46-71 | The method returns exactly `ImprovedSearch.SearchMrv`: the same result and the same two counts. |
| NonogramImproved.ForceRowCells | Puzzle/Nonogram-improved.py:80-87 | The inner loop sets the row's cells in `lo .. hi-1` to `[1]` and leaves every other cell as it was. |
| NonogramImproved.ForceColumnCells | Puzzle/Nonogram-improved.py:93-100 | The inner loop sets the column's cells in rows `lo .. hi-1` to `[1]` and leaves every other cell as it was. |
| NonogramImproved.Preprocess | Puzzle/Nonogram-improved.py:73-102 | The method returns exactly `ImprovedSearch.Preprocessed`. |
| NonogramImproved.Solve | Puzzle/Nonogram-improved.py:104-117 | The method returns exactly `ImprovedSearch.SolveMrv`, with the guarantees of `ImprovedSearch.SolveMrvOutcome`. |

## Left out

- The `UAV/` schedulers are not part of this model. They use floating point, random numbers, file input and plotting.
- The script code at the end of both files is not modelled: the hard-coded 10 by 10 clues, the timing and the printing, including the "No solution found" message.
- Non-square grids in the search. `get_col_indices` uses the height as both stride and modulus, so the searches, `Nonogram.Solve` and `NonogramImproved.Solve` require `width == height`. `Lines.IsConsistent` itself takes any shape, but requires `index % height < width`. The source reads `col_clues[index % height]` only when the column list is complete.
- NonogramImproved.Preprocess requires every single-run clue to be at most as long as its line. A longer clue makes the source write outside the row, into the next row's cells, or past the end of the list (an `IndexError`). A clue of `width + 2` or more also gives a negative start column, and a column clue of `height + 2` or more a negative start row. The source then writes into the previous row, or, at a negative index, counts back from the end of the list through Python's negative indexing. An index below `-len(domains)` or past the end raises `IndexError`.
- ImprovedSearch.Preprocessed, ImprovedSearch.CellDomain, ImprovedSearch.SolveMrv and NonogramImproved.Solve carry the same requirement, for the same reason. A puzzle with a solution always meets it (`ImprovedSearch.SolvableCluesFit`).
- Nonogram.Solve states the backtrack count of a failed run as at most 2. The exact count, 2 minus the values of cell 0 that `is_consistent` accepts, is in `NonogramSearch.SearchCounters`.
- `float('inf')` in `select_variable` is modelled as `None` of an `Option`, the "no size seen yet" bound.
- The cost of copying the domains at every branch, and the recursion depth, are not modelled.
