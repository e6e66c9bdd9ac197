# Diagonal Sudoku solver — a verified Dafny model

This project models the solver in `solution.py` from the AIND-Sudoku
repository. It solves 9×9 Sudoku with two extra diagonal units. The model covers:

- the board topology: `cross`, the 29 units, and the `UNITS` and `PEERS` tables;
- reading a puzzle string (`grid_values`);
- the three propagation rules: `eliminate`, `only_choice` and `naked_twins`;
- the fixed-point loop `reduce_puzzle`;
- the depth-first `search`, and `solve`.

How the model represents the source:

- **Cells.** A cell is an index 0..80 in row-major order. Index `i` stands for
  the name `CELLS[i]`: row letter `i / 9`, column digit `i % 9`
  (`Topology.Cells`). Both units and the peer table are written over indices.
  `Topology.NameOrder` shows that comparing names as Python strings is the
  same as comparing indices.
- **Candidates.** A candidate string is ascending and has no repeats. It is
  modelled as the set of its digits (`Board.Cands`). Comparing two strings
  becomes comparing two sets.
- **The board.** The candidate dict becomes `array<Cands>` of length 81. It is
  changed in place by `Eliminate`, `OnlyChoice`, `NakedTwins` and
  `ReducePuzzle`.
  - Each method is proved equal to a pure function on `seq<Cands>`. That
    function folds the source's visit order: cells row-major for `eliminate`
    and `only_choice`, and `UNITLIST` order for `naked_twins`.
  - The properties are lemmas about those functions.
- **Search.** `search` is the recursive method `Search.Search`. It copies the
  board for each branch. It is proved equal to the function
  `Search.SearchResult`, which recurses on the total number of candidates.
- **Results.** `search` can return one of three things: `False`, a board, or
  `None` when the branch loop falls off its end. These are the three
  constructors of `Search.Outcome`. `solve` adds one more case: the
  assertion in `grid_values` failing, which is `SolveOutcome.Malformed`.

The main results:

- **Sound.** Every rule keeps every solution that fits the input
  (`*Sound` lemmas).
- **Found boards are solutions.** A board that `search` returns is fully
  solved. No digit repeats among peers, and every given is kept
  (`SearchSolves`).
- **Complete.** `search` returns a board whenever the input admits any
  solution (`SearchComplete`); otherwise it returns `False` or `None`
  (`SearchFails`).

## Model

| member | source | states |
|---|---|---|
| `Topology.Cross` | solution.py:46-48 | `cross(a, b)` has one entry per pair, so its length is `len(a) * len(b)` |
| `Topology.CrossAt` | solution.py:46-48 | entry `i * len(b) + j` of `cross(a, b)` is `a[i] + b[j]`: the first argument varies slowest |
| `Topology.Cells` | solution.py:51-53 | `CELLS` has 81 names, and the i-th is row letter `ROWS[i / 9]` followed by column digit `COLUMNS[i % 9]` (row-major) |
| `Topology.NameOrder` | solution.py:51-53 | Python string order on cell names agrees with row-major index order. Used for the tie-break of `min` in `search` |
| `Topology.RowUnitsShape` | solution.py:54 | `ROW_UNITS`: 9 units, and unit r holds the cells of row r |
| `Topology.ColumnUnitsShape` | solution.py:55 | `COLUMN_UNITS`: 9 units, and unit c holds the cells of column c |
| `Topology.SquareUnitsShape` | solution.py:56-57 | `SQUARE_UNITS`: 9 units, one per 3×3 box, band-major |
| `Topology.DiagonalUnits` | solution.py:58-63 | the two diagonal units A1..I9 and A9..I1, in the order the comprehensions produce |
| `Topology.UnitList` | solution.py:65 | `UNITLIST` as a closed-form table: unit u, position p is `UnitCell(u, p)` |
| `Topology.UnitListIsConcatenation` | solution.py:54-65 | `UNITLIST` is rows, then columns, then boxes, then the two diagonals. The diagonals are A1..I9 and A9..I1 |
| `Topology.UnitListValid` | solution.py:65 | `UNITLIST` has 29 units, each made of 9 distinct cells of the board |
| `Topology.UnitMembership` | solution.py:54-65 | a cell is in unit u exactly when its row, column, box or diagonal position says so |
| `Topology.UnitsOfMembers` | solution.py:67 | the filter `[units for units in UNITLIST if cell in units]` keeps exactly the units that contain the cell |
| `Topology.Units` | solution.py:67 | `UNITS[c]`: the units of `UNITLIST` that contain c, in list order |
| `Topology.UnitsOfCell` | solution.py:67 | `UNITS[c]` is c's row, column and box units, then whichever diagonal units c lies on, in `UNITLIST` order |
| `Topology.UnitCount` | solution.py:67 | every cell has 3, 4 or 5 units, and only E5 has 5 |
| `Topology.UnitsValid` | solution.py:67 | every unit in `UNITS[c]` is a unit of `UNITLIST` that contains c |
| `Topology.CellInItsUnits` | solution.py:54-67 | every cell lies in its row, column and box unit. It lies in a diagonal unit exactly when it is on that diagonal, so E5 lies in both |
| `Topology.ConcatMembers` | solution.py:68 | `sum(units, [])` contains exactly the cells of the given units |
| `Topology.Peers` | solution.py:68 | `PEERS[c]`: the cells of c's units, minus c |
| `Topology.PeersIff` | solution.py:68 | `b in PEERS[a]` iff b is a cell other than a that shares a row, column, box or diagonal with a |
| `Topology.PeersSymmetric` | solution.py:68 | `PEERS[c]` never contains c, and the peer relation is symmetric |
| `Topology.SameUnitPeers` | solution.py:68 | two different cells of one unit are peers |
| `Topology.PeersCells` | solution.py:68 | every peer of a cell is another cell of the board |
| `Board.AllDigits` | solution.py:97 | `'123456789'` stands for the set of all nine digits |
| `Board.SolvedCountMonotone` | solution.py:166-178 | take a board with no empty cell that only lost candidates. Its count of solved cells did not drop. If the count stayed the same, the same cells are solved |
| `Board.SolvedCountFull` | solution.py:196 | the solved count is 81 exactly when every cell is solved |
| `Board.TotalMonotone` | solution.py:201-204 | losing candidates never raises the total number of candidates, and a strict loss at some cell lowers it |
| `Board.SolvedBoardIsSolution` | solution.py:196-197 | a fully solved board with no digit repeated among peers spells a solution, and is the only filled grid that fits it |
| `Board.UnitDistinct` | solution.py:65-68 | a solution repeats no digit among the nine cells of a unit, since any two of them are peers |
| `Board.SolutionCoversUnit` | solution.py:65 | a solution puts every digit somewhere in every unit (pigeonhole) |
| `Grid.GridValues` | solution.py:86-104 | the board, made of the recognised characters in order and assigned to the cells row-major, or `None` when the number recognised is not 81 |
| `Grid.CharCands` | solution.py:99-102 | `'.'` gives all nine digits, `'1'`..`'9'` give that digit, and any other character gives nothing |
| `Grid.Recognized` | solution.py:98-102 | the candidate sets of the recognised characters of the grid, in order |
| `Grid.RecognizedAppend` | solution.py:98-102 | the recognised entries of a concatenation are those of its parts, in order |
| `Grid.RecognizedSkips` | solution.py:98-102 | a character other than `'.'` and `'1'`..`'9'` is dropped wherever it stands |
| `Grid.RecognizedCells` | solution.py:99-102 | every recognised entry is either all nine digits (from `'.'`) or one digit |
| `Grid.ReadWritten` | solution.py:96-104 | reading a puzzle written as `'.'` and digits gives back its givens cell by cell |
| `Elimination.Eliminate` | solution.py:106-119 | the board ends as `Eliminated` of the input. Cells are visited row-major, and each one reads the live board |
| `Elimination.StrikeFromPeers` | solution.py:117-118 | every cell of the given peer set loses the solved digit and every other cell is unchanged (`Strike`), whatever order the set is walked in |
| `Elimination.EliminatedShrinks` | solution.py:115-118 | no cell gains a candidate |
| `Elimination.EliminatedClears` | solution.py:115-118 | take a cell solved in the input that is still non-empty at the end. It keeps its digit, and none of its peers holds that digit |
| `Elimination.EliminatedSound` | solution.py:115-118 | a solution that fits the input still fits the output |
| `OnlyChoice.HasOtherHolder` | solution.py:142-148 | `found` is true exactly when some cell of the unit other than the key still admits the digit |
| `OnlyChoice.TryDigit` | solution.py:140-152 | if some unit of the cell has no other holder of the digit, the cell becomes that digit; otherwise nothing changes |
| `OnlyChoice.OnlyChoice` | solution.py:122-153 | the board ends as `Chosen` of the input. Cells are visited row-major, and each one reads the live board |
| `OnlyChoice.ChoiceCases` | solution.py:137-152 | after trying a cell's digits, the cell is unchanged or set to one of its own digits that is lone in one of its units |
| `OnlyChoice.ChoiceLast` | solution.py:137-152 | the `break` leaves only the unit loop, so the largest lone digit of the cell is the one kept |
| `OnlyChoice.ChosenKeepsSmall` | solution.py:136 | cells with at most one candidate are unchanged |
| `OnlyChoice.ChosenMulti` | solution.py:135-152 | a cell with more than one candidate is unchanged or becomes one of its own digits, so it is never emptied |
| `OnlyChoice.ChosenForced` | solution.py:135-152 | if a digit of a multi-candidate cell has no other holder in one of that cell's units, the cell ends up solved |
| `OnlyChoice.ChosenShrinks` | solution.py:135-152 | no cell gains a candidate |
| `OnlyChoice.LoneShrinks` | solution.py:143-148 | removing candidates from other cells keeps a lone digit lone |
| `OnlyChoice.LoneIsForced` | solution.py:143-151 | in any solution that fits the board, a cell holds any digit that is lone for it |
| `OnlyChoice.ChosenSound` | solution.py:135-152 | a solution that fits the input still fits the output |
| `NakedTwins.NakedTwins` | solution.py:20-44 | the board ends as `TwinsRemoved` of the input, with the units scanned in `UNITLIST` order |
| `NakedTwins.ScanUnit` | solution.py:30-43 | one unit's scan with a fresh `candidates` map, matching `UnitPass` |
| `NakedTwins.StripUnit` | solution.py:37-40 | every cell of the unit except the two twins loses both twin digits, and nothing else changes |
| `NakedTwins.ScanInvariant` | solution.py:30-43 | the scan only removes candidates. Each value in the map has two digits and belongs to an earlier cell of the unit, and that cell holds no other digit |
| `NakedTwins.TwinFound` | solution.py:34-40 | once a second cell shows an already-recorded 2-digit value, every other cell of the unit is left without either digit, the twins keep theirs, and cells outside the unit do not change |
| `NakedTwins.NoPairsUnchanged` | solution.py:29-44 | a board with no two cells of a unit holding the same 2-digit value is returned unchanged |
| `NakedTwins.TwinsRemovedShrinks` | solution.py:29-43 | no cell gains a candidate |
| `NakedTwins.StripSound` | solution.py:37-40 | take two cells of a unit that hold only the twin digits between them. In a solution they take both digits, so the other cells of the unit can lose them |
| `NakedTwins.TwinsSound` | solution.py:29-43 | a solution that fits the input still fits the output |
| `Reduction.ReducePuzzle` | solution.py:155-182 | the board ends as `Reduce(...).board`, and the result is `False` exactly when `Reduce(...).ok` is false |
| `Reduction.PassShrinks` | solution.py:170-172 | one pass of the three rules only removes candidates |
| `Reduction.PassSound` | solution.py:170-172 | one pass keeps every solution that fits the board |
| `Reduction.PassSolvedCount` | solution.py:166-176 | the solved count never decreases across a pass that leaves no cell empty |
| `Reduction.ReduceFails` | solution.py:178-181 | `False` is returned exactly when the last pass left a cell with no candidates; otherwise every cell is non-empty |
| `Reduction.ReduceShrinks` | solution.py:163-182 | every returned cell is a subset of its input cell |
| `Reduction.ReducePasses` | solution.py:163-182 | the loop runs between 1 and 82 − (input's solved count) passes, and a returned board has at least as many solved cells as the input |
| `Reduction.ReduceSound` | solution.py:163-182 | take a board that a solution fits. The loop returns a board, and the solution still fits it |
| `Reduction.StalledConsistent` | solution.py:166-181 | a stalled pass that empties no cell leaves no solved cell's digit among its peers' candidates |
| `Reduction.ReduceConsistent` | solution.py:163-182 | on a returned board, no solved cell's digit is a candidate of any of its peers |
| `Search.Fewest` | solution.py:199 | the chosen cell is unsolved |
| `Search.MinCell` | solution.py:199 | a cell found among the first n is one of them and is unsolved |
| `Search.MinCellIsMin` | solution.py:199 | the scan finds no cell exactly when none is unsolved. Otherwise it finds an unsolved cell with fewest candidates, the earliest on a tie |
| `Search.FewestIsLeast` | solution.py:199 | the chosen cell is the least (number of candidates, cell name) pair in Python's tuple and string order |
| `Search.BranchSmaller` | solution.py:201-204 | each branch has strictly fewer candidates than its parent board, which is what makes the recursion terminate |
| `Search.TryDigits` | solution.py:201-206 | the branch loop from digit d on: the first branch whose search returns a board wins, and `None` if none does |
| `Search.Search` | solution.py:184-206 | the result is `SearchResult` of the input board, and the caller's board is left reduced in place, as `Reduce(...).board` (solution.py:193) |
| `Search.Branch` | solution.py:202-203 | the branch board is a fresh copy of the board with only the chosen cell set to the tried digit |
| `Search.SearchFound` | solution.py:193-206 | a returned board is fully solved. No solved cell's digit is a candidate of a peer, and the board keeps only candidates the input had |
| `Search.TryFound` | solution.py:201-206 | a board found by the branch loop has the same three properties relative to the reduced board |
| `Search.SearchSolves` | solution.py:193-206 | a returned board spells a solution that fits the input, and every given (solved input cell) is kept |
| `Search.SearchComplete` | solution.py:193-206 | if some solution fits the input, `search` returns a board |
| `Search.TryComplete` | solution.py:201-206 | digits are tried in ascending order, so the branch of the solution's own digit is reached unless an earlier branch already returned a board |
| `Search.TryNotContradiction` | solution.py:201-206 | the branch loop never yields `False` itself: it returns a board or falls off the end (`None`) |
| `Search.SearchFails` | solution.py:193-206 | `False` is returned exactly when the root `reduce_puzzle` returns `False`. With no board returned, no solution fits the input |
| `Search.Solve` | solution.py:208-217 | the result is `SolveResult` of the grid: `Malformed` when `grid_values`' assertion fails, otherwise what `search` returns |
| `Search.SolveFound` | solution.py:208-217 | a board `solve` returns is solved, spells a solution, and keeps every given digit of the grid |
| `Search.SolveComplete` | solution.py:208-217 | a well-formed grid that some solution fits is always solved |
| `Search.SolvePuzzle` | solution.py:208-217 | a puzzle written as `'.'` and digits is searched as exactly its givens |

## Left out

- `assign_value` and the `assignments` list (solution.py:3-18): a snapshot trace for visualisation that the solver never calls.
- `display` and the `__main__` block with the `visualize`/pygame import (solution.py:70-83, 219-236): console output and a foreign library.
- Python dict and string mechanics as such. Two consequences:
  - A candidate string is the set of its digits.
  - In `naked_twins`, the two `replace` calls for a twin value run one digit at a time. They are modelled as one set difference, which has the same effect.
- Iteration order of the set `PEERS[key]` in `eliminate`: the model picks peers in an arbitrary order. `Elimination.StrikeFromPeers` proves the result does not depend on that order. `Elimination.Eliminate` passes it `PEERS[key]` as the set.
- Identity of board objects:
  - `Search.Search` returns a found board by value (its contents) rather than the dict object itself.
  - That `reduce_puzzle` mutates the board it is given is modelled: `ReducePuzzle` and `Search` modify their array.
- `OnlyChoice.HasOtherHolder` and `OnlyChoice.TryDigit` are the two inner loops of `only_choice` (solution.py:140-152), written as their own methods. Each `break` becomes loop exit or `return` in those methods.
- `min()` on an empty generator (solution.py:199) would raise `ValueError`. `search` only reaches that line when some cell has at least two candidates, so `Search.Fewest` requires one.
- The example puzzles and their expected solutions are not evaluated. Nothing in this model is executed.

Where the code and its description disagree, the model follows the code:

- The docstring of `reduce_puzzle` (solution.py:161) says it returns False "if no improvement was possible". The code returns `False` only when a cell is left empty (solution.py:180-181). When a pass improves nothing, it returns the board.
- `grid_values` does not reject unknown characters: it skips them. Only the count of recognised characters is checked (`Grid.RecognizedSkips`).
- `only_choice` does not scan unit by unit and digit by digit. It goes cell by cell, and sets a cell to a digit that no other cell of one of its units admits. The rule fires even when the cell still has other candidates before it is set. A later such digit overrides an earlier one (`OnlyChoice.ChoiceLast`).
- `search` tells a contradiction (`False`) apart from an exhausted branch (`None`).
- No lemma claims that `reduce_puzzle` is idempotent on its own output. "Stalled" only means that the count of solved cells did not change in a pass. `naked_twins` in that last pass can still remove candidates, so running the loop again can change the board.
