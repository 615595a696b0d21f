# Sudoku solver: a verified model

This project models the solving and validation engine of a 9x9 backtracking
Sudoku solver (`SudokuSolver.java`). Board cells hold symbols from an
alphabet the caller supplies. The alphabet is any type `T` with equality,
and an empty cell is `None`. The engine has four parts:

- the row-major scan for the first empty cell (`findNextOpenSpace`);
- the placement-legality check (`isValidMove`);
- the whole-board duplicate check (`verifyBoard`), which uses one set per row, column and box;
- the recursive depth-first search (`solvePuzzle`). It fills the board in place and clears a cell again when a branch fails.

The model is in three modules:

- `SudokuBoard` (`sudoku_board.dfy`) holds the board value `Grid<T>`: its 81 cells in row-major order. It defines:
  - the groups: a row, a column or a 3x3 box, and the position of each cell in a group;
  - legality (`ValidMove`) and consistency (`Consistent`) as quantified predicates;
  - the scan `FirstEmpty`;
  - the lemmas that connect placement with consistency.
- `SudokuSearch` (`sudoku_search.dfy`) states what the recursion computes, as the ghost functions `Search` and `TryFrom`. `Search` covers the terminal, given-cell and empty-cell branches. `TryFrom` is the candidate loop. The module proves that:
  - the search is sound and complete;
  - candidates are tried in alphabet order, and the first one that succeeds is kept.
- `SudokuSolver` (`sudoku_solver.dfy`) holds the imperative engine on an `array2<Option<T>>`. Each source method is a Dafny method with the same loops, flags, constants and short-circuit guards. Each is proved against the predicates above, through `Cells(board)`, the board's value.

Encoding details kept from the source:

- `solvePuzzle`'s `col` parameter is a linear index from 0 to 81, and `row` is always `col / 9`.
- The terminal test is `row > 8 && col > 80`.
- Cells are addressed as `[row, col % 9]`.
- At a given cell, the search resumes at the first empty cell of the whole board, found by a fresh scan from cell 0.
- The local hash sets of `verifyBoard` become local `set<T>` variables. `HashSet.add` returns whether its argument was new, which is `x !in s` followed by `s := s + {x}`.

## Model

| member | source | states |
|---|---|---|
| `SudokuSolver.FindNextOpenSpace` | SudokuSolver.java:302-342 | returns -1 exactly when no cell is empty; otherwise returns `r*9+c` in 0..80 for an empty cell with every earlier cell in row-major order filled |
| `SudokuBoard.FirstEmpty` | SudokuSolver.java:311-325 | the row-major scan from an index: `None` iff the board is full, otherwise the first empty cell at or after that index, with all cells before it filled |
| `SudokuSolver.IsValidMove` | SudokuSolver.java:151-213 | true iff `value` equals no filled cell of row `row`, of column `col % 9`, or of the box at band `row/3` and stack `(col%9)/3`; the board is not modified |
| `SudokuSolver.VerifyBoard` | SudokuSolver.java:223-290 | true iff no two filled cells of any row, column or box hold equal symbols; empty cells are ignored; the board is not modified |
| `SudokuSolver.AddToSeen` | SudokuSolver.java:245-255 | one step of the set-based duplicate scan: the next cell is a duplicate exactly when its symbol is already in the set of the group's earlier symbols, and adding it gives the set of symbols up to and including it |
| `SudokuSolver.SolvePuzzle` | SudokuSolver.java:75-134 | returns true iff the search function succeeds from `col`. On success the board is that result: full, consistent, keeping every given cell, and filled from the alphabet. On failure the board is exactly as before. No given cell is ever overwritten |
| `SudokuSolver.Solve` | SudokuSolver.java:386-395 | rejects an inconsistent board without searching, otherwise searches from cell 0; the result is true iff the initial board has a solution over the alphabet; the board then holds exactly the board the search from cell 0 leaves, the first solution in alphabet and backtracking order, and is unchanged on failure |
| `SudokuSolver.WrittenCell` | SudokuSolver.java:114 | writing a symbol into cell `[row][col % 9]`, or clearing it, changes exactly linear cell `col` of the board's value |
| `SudokuSolver.Cells` | SudokuSolver.java:331 | the value of the 9x9 board (allocated at line 377) has 81 cells, with cell `[r][c]` at the linear index `r*9+c` used at line 331 |
| `SudokuBoard.PlacePreservesConsistent` | SudokuSolver.java:112-114 | placing a symbol that passes the legality check into an empty cell of a consistent board leaves the board consistent |
| `SudokuBoard.PlacedConsistentIsValid` | SudokuSolver.java:161-212 | conversely, a symbol whose placement into an empty cell leaves the board consistent passes the legality check there |
| `SudokuBoard.PlaceKeepsGroup` | SudokuSolver.java:112-114 | a legal placement keeps each distinct row, column and box distinct |
| `SudokuBoard.AbsentBeforePlacing` | SudokuSolver.java:161-210 | if a group stays distinct after `v` is placed into one of its empty cells, `v` was not in that group |
| `SudokuBoard.ExtendedConsistent` | SudokuSolver.java:386-389 | a board that some consistent board extends is itself consistent, so the up-front check only rejects boards with no solution |
| `SudokuSearch.Search` | SudokuSolver.java:75-134 | the outcome of `solvePuzzle` from linear index `col` on a board value: past the last cell, the terminal consistency verdict; at a given cell, the search resumed at the first empty cell found by a fresh scan from cell 0 (the verdict when none is left); at an empty cell, the candidate loop from the first symbol. A result is an 81-cell consistent board that keeps every filled cell of the board searched |
| `SudokuSearch.TryFrom` | SudokuSolver.java:108-131 | the candidate loop at an empty cell from alphabet position `i`: the first legal symbol whose placement leads to a successful search wins; an illegal or failing symbol moves on to the next; past the alphabet's end, failure. A result is an 81-cell consistent board that keeps every filled cell of the board searched |
| `SudokuSearch.SearchSound` | SudokuSolver.java:81-84 | a successful search returns a solution of the board it started from: full, consistent, keeping every given cell, every empty cell filled with an alphabet symbol |
| `SudokuSearch.TryFromSound` | SudokuSolver.java:108-131 | the same for the candidate loop from any alphabet position |
| `SudokuSearch.SearchComplete` | SudokuSolver.java:106-131 | whenever a solution over the alphabet exists, the search succeeds |
| `SudokuSearch.TryFromComplete` | SudokuSolver.java:108-130 | the candidate loop succeeds when it starts at or before the position of some solution's symbol for the cell |
| `SudokuSearch.FullCompletionIsBoard` | SudokuSolver.java:93-96 | on a full board the only solution is the board itself, and the terminal check accepts it |
| `SudokuSearch.SolvableIff` | SudokuSolver.java:75-134 | the search from cell 0 succeeds iff the board has a solution over the alphabet |
| `SudokuSearch.TryFromFails` | SudokuSolver.java:108-130 | the candidate loop from position i fails iff every candidate from i on is illegal or leads to a failing search |
| `SudokuSearch.TryFromFirst` | SudokuSolver.java:108-121 | on success the loop stops at the first candidate from i on that is legal and leads to a solution, and returns that branch's result |
| `SudokuSearch.SearchFailsAtEmpty` | SudokuSolver.java:106-131 | at an empty cell the search fails iff no alphabet symbol is legal there and leads to a successful search |
| `SudokuSearch.SearchFirstChoice` | SudokuSolver.java:108-121 | on success, an empty cell holds the earliest alphabet symbol that is legal there and admits a solution; every earlier legal symbol leads to failure; the result is the search continued after placing it |

## Left out

- `createPuzzle` (SudokuSolver.java:25-58) reads the console and is left out. So are `displayBoard` (353-371), which renders text, and the stdin, stdout and stderr handling of `main` (374-408). The model takes the board and the alphabet as inputs. Of `main`, only the decision at lines 386-395 is modelled (`Solve`).
- The alphabet `String[] puzzleValues` is a `seq<T>`: the source never changes it. Java `null` cells are `None`, and `String.equals` is Dafny equality on `T`.
- Java's `HashSet` is a Dafny `set<T>`. Hashing and its cost are not modelled.
- The source always allocates a 9x9 board (SudokuSolver.java:377); `IsBoard` requires that shape.
- `SolvePuzzle`: requires `row == col / 9` and that every cell before `col` is filled. The source accepts any `row` and `col`, but its only outside call (line 394) passes `(0, 0)`, and its recursive calls keep both conditions.
- Running time and the exponential worst case are not modelled; only termination is proved.

## Notes on the code

- On failure the code clears every tentative placement (SudokuSolver.java:127); `SolvePuzzle` proves the board is exactly as it was.
- The code never checks that given values belong to the alphabet; such a value is treated like any other symbol.
