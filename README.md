# Killer sudoku board, solvers, cage table and search nodes

A Dafny model of the core of the killer-sudoku solver (a Rust program).

- **Board.** A board holds three 9x9 grids: the player's values (0 means empty), the known solution, and the cage of every cell. A cage is an index plus a target sum; a sum of 0 or less means the cage has no target.
- **Placing a digit.** `is_possible` decides whether `num` may go into cell (x, y). It runs the cage-sum check first. Then the cell must be empty, and `num` must be absent from the cell's 3x3 box, row and column. `set_num` writes only an approved value; `unchecked_set_num` always writes.
- **Finishing.** `is_finished` strikes the values of each row, column and box off the list 1..9.
- **Solvers.** The benchmark file has two solvers. The first is a brute force over the 81 cells in row-major order. The second is a backtracking search.
- **Cage table.** A text file with header lines ending in `cells` and entry lines `sum: combination combination ...`. It is read into a list of `TableItem`s, and `find` returns the first entry of a given size and sum.
- **Nodes.** A generic `Node` holds an optional value and the clones of the nodes added to it as children.

Modules follow the source files:

| module | file | source |
|---|---|---|
| `Wrappers` | wrappers.dfy | `Option` and `Result` |
| `Cages` | cages.dfy | src/data/cage.rs |
| `Grid` | grid.dfy | value-level meaning of the board operations of src/data/board.rs |
| `Fixtures` | fixtures.dfy | `sample_puzzle` and the two unit tests of src/data/board.rs |
| `Boards` | boards.dfy | the `Board` class of src/data/board.rs, as a Dafny class with methods |
| `Solver` | solver.dfy | benches/sudoku_solver.rs |
| `CageTables` | cage_table.dfy | src/data/cage_table.rs |
| `Nodes` | node.dfy | src/data/node.rs |

How the board code is modelled:
- `Board` is a class with the fields `grid`, `solvedGrid` and `cageGrid`, each a `seq<seq<..>>`.
- The methods that run loops in the source (`is_possible`, `get_cage_size_left`, `is_finished`, the scans for a cage's cells) are methods with the same loops.
- One exception: in `is_possible` the sum of the cage's values (an iterator `map` and `sum`, src/data/board.rs:100-104) is computed by the function `SumOf`, not by a loop.
- Each of those methods is proved equal to a predicate or function of module `Grid`. Those functions are where the properties are proved.
- The solvers are methods on a `Board`. `simple_brute_force_function` is proved against `Search`, a ghost function that performs the same search on values.

## Model

| member | source | states |
|---|---|---|
| Grid.Write | src/data/board.rs:147-149 | after `grid[y][x] = n` that cell holds `n` and every other cell is unchanged |
| Grid.CageCells | src/data/board.rs:92-99 | the cells collected for a cage: a cell is listed exactly when its cage has that index; none is listed twice, all are on the board |
| Grid.CountEmpty | src/data/board.rs:182-185 | the count of empty cells among the given cells never exceeds the number of cells |
| Grid.DigitPermutationHasAllDigits | src/data/board.rs:197-241 | a row, column or box accepted by a scan has nine entries and contains every digit 1..9 |
| Grid.AllDigitsIsDigitPermutation | src/data/board.rs:197-241 | conversely, nine entries containing every digit 1..9 pass the scan |
| Grid.FinishedCellsAreDigits | src/data/board.rs:197-241 | every cell of a finished grid holds a digit 1..9, so no cell is empty |
| Grid.PossibleIff | src/data/board.rs:86-146 | `is_possible` holds exactly when the cage check passes, the cell is empty, and `num` is in no cell of its row, its column or its 3x3 box |
| Grid.BoxCells | src/data/board.rs:121-131 | the box scan reads every cell of the 3x3 block, cell (c, r) at entry (r - y0) * 3 + (c - x0), so a value is missing from the box exactly when no cell of the block holds it |
| Grid.PossibleRejectsZero | src/data/board.rs:116-131 | `is_possible(x, y, 0)` is false on every board: a filled cell fails the occupied test, an empty cell finds its own 0 in the box scan |
| Grid.PossibleRespectsCage | src/data/board.rs:90-114 | for a cage with a target, an approved `num` plus the cage's current sum stays within the target, and equals it when (x, y) is the cage's only empty cell |
| Grid.CountEmptyOnlyOne | src/data/board.rs:172-186 | when exactly one cell of the cage is empty, `get_cage_size_left` is 1 |
| Grid.DefaultBoardIsOneCage | src/data/board.rs:12-20 | the default board is one cage of all 81 cells with sum 0, so its cage check always passes |
| Grid.ColorOfResidue | src/data/board.rs:156-164 | two cage indices get the same colour exactly when they agree modulo 4 |
| Grid.ColorOfOnto | src/data/board.rs:156-164 | each of the four colours of `CageColor` (src/data/cage.rs:7-13) is produced by some index |
| Grid.WriteThenRestore | src/data/board.rs:147-149 | writing a cell and then writing back its old value gives the original grid, which is the undo the solvers rely on |
| Grid.CageCellsCount | src/data/board.rs:165-171 | the length of a cage's cell list is the number of cells whose cage has that index |
| Grid.CountEmptyCard | src/data/board.rs:172-186 | counting empty cells along the cage's list gives the number of distinct empty cells of the cage |
| Grid.PossibleKeepsNoConflicts | src/data/board.rs:86-146 | a placement approved by `is_possible` keeps a grid without row, column or box conflicts free of conflicts |
| Grid.DistinctDigitsArePermutation | src/data/board.rs:197-241 | nine pairwise-different digits 1..9 pass the scan |
| Grid.FullConsistentIsFinished | src/data/board.rs:197-241 | a full grid of digits without conflicts is finished |
| Grid.FillOneLess | src/data/board.rs:147-149 | writing a non-zero value into an empty cell leaves one empty cell fewer |
| Fixtures.SampleShapes | src/data/board.rs:254-327 | the sample's cage grid and solution grid are nine by nine |
| Fixtures.SampleFirstCage | src/data/board.rs:255-300 | in the sample, cage 1 (sum 3) consists of exactly the cells (0, 0) and (1, 0) |
| Fixtures.SampleTwoAtOrigin | src/data/board.rs:361-364 | on the empty sample puzzle, 2 is possible at (0, 0) |
| Fixtures.SampleOneBesideIt | src/data/board.rs:365-367 | after 2 is written at (0, 0), 1 is possible at (1, 0), closing cage 1 at its sum 3 |
| Fixtures.SampleNineBesideIt | src/data/board.rs:365-368 | after 2 is written at (0, 0), 9 is not possible at (1, 0) |
| Fixtures.RotateRight | src/data/board.rs:339-354 | `rotate_right(k)` keeps the length and moves entry i to position (i + k) mod length |
| Fixtures.RotationGridRows | src/data/board.rs:337-356 | the rotation test's grid is the nine rows written out |
| Fixtures.RotationFinished | src/data/board.rs:334-359 | the rotation test's grid is finished (the test's assertion) |
| Boards.Position | src/data/board.rs:205 | `position` returns the first index holding the value, and None exactly when the value is absent |
| Boards.StrikeOff | src/data/board.rs:199-210 | one strike-off scan succeeds exactly when the values read are a permutation of the starting list |
| Boards.Board.Default | src/data/board.rs:12-20 | the default board has empty grids and cage (0, 0) everywhere |
| Boards.Board.SamplePuzzle | src/data/board.rs:254-327 | `sample_puzzle` has an empty grid, the sample's solution and its 29 cages |
| Boards.Board.CageScan | src/data/board.rs:92-99 | the row-major scan of the cage grid yields exactly the cage's cell list |
| Boards.Board.GetCageSize | src/data/board.rs:165-171 | `get_cage_size` is the number of cells sharing the cell's cage index, and at least 1 |
| Boards.Board.GetCageSizeLeft | src/data/board.rs:172-186 | `get_cage_size_left` is the number of empty cells of the cell's cage, never more than `get_cage_size` |
| Boards.Board.IsPossible | src/data/board.rs:86-146 | the method's loops (cage check, occupied test, box scan, row and column scan) decide `Possible` |
| Boards.Board.CageCheck | src/data/board.rs:90-114 | the cage part of `is_possible` decides `CageAdmits` |
| Boards.Board.UncheckedSetNum | src/data/board.rs:147-149 | the grid becomes the old grid with that one cell written |
| Boards.Board.SetNum | src/data/board.rs:79-85 | the cell is written exactly when `is_possible` approves, and otherwise the grid is unchanged, in particular whenever the cell is already filled |
| Boards.Board.IsFinished | src/data/board.rs:197-241 | `is_finished` returns true exactly when every row, column and box is a permutation of 1..9 |
| Boards.Board.ScanUnits | src/data/board.rs:198-238 | one pass of the `is_finished` loop succeeds exactly when row o, column o and box o are complete |
| Solver.Search | benches/sudoku_solver.rs:31-54 | the search's result, when there is one, is a nine-by-nine grid |
| Solver.SimpleBruteForce | benches/sudoku_solver.rs:31-54 | succeeds exactly when `Search` has a result, and then leaves that grid on the board. The grid is finished and keeps every filled cell; on failure the board is as before |
| Solver.SearchSound | benches/sudoku_solver.rs:31-54 | a grid the search returns is finished, keeps every filled cell, and agrees with the starting grid on the cells before i |
| Solver.TryDigitsFails | benches/sudoku_solver.rs:44-53 | at an empty cell the search fails exactly when no digit num..9 is both possible and leads to a solution |
| Solver.TryDigitsSmallest | benches/sudoku_solver.rs:44-53 | on success the digit left at the cell is the smallest of num..9 that leads to a solution, and the result is where it leads |
| Solver.SearchKeepsFinished | benches/sudoku_solver.rs:31-39 | on a finished grid the search returns that grid unchanged |
| Solver.BruteForceWithBacktracking | benches/sudoku_solver.rs:58-92 | as written, the function returns true on every board |
| Solver.EmptyBoardIsNotFinished | benches/sudoku_solver.rs:58-77 | the empty grid of a fresh `Board::sample_puzzle()` is neither full nor finished, yet a direct call of the backtracking solver on it reports success |
| Solver.FixedBacktracking | benches/sudoku_solver.rs:58-92 | the corrected backtracking: on success the board is full and keeps every filled cell, and is finished when it started conflict-free with digits in range; on failure the board is as before |
| Solver.PlacementKeepsConsistent | benches/sudoku_solver.rs:79-83 | an approved digit keeps every filled cell, and keeps a conflict-free board of digits conflict-free and in range |
| CageTables.Tokens | src/data/cage_table.rs:15 | `split_whitespace` yields non-empty tokens without whitespace that together hold exactly the line's non-whitespace characters |
| CageTables.TokensOfJoin | src/data/cage_table.rs:15 | splitting words joined by single spaces gives the words back |
| CageTables.TokensOfLayout | src/data/cage_table.rs:15 | for words laid out with whitespace runs of any length between them (at least one character) and optional whitespace before and after, `split_whitespace` gives back exactly the words |
| CageTables.ColonGivesToken | src/data/cage_table.rs:13-17 | a line with a colon has a first token, so `split.remove(0)` cannot panic |
| CageTables.ParseI32 | src/data/cage_table.rs:19 | a parsed sum lies in the 32-bit range |
| CageTables.ParseValue | src/data/cage_table.rs:19 | for one or more digits (leading zeros allowed), the result is their decimal value when it fits in 32 bits and a failure otherwise |
| CageTables.ParseSignedValue | src/data/cage_table.rs:19 | after a `+` the value is kept and after a `-` it is negated; the result is that value when it fits in 32 bits and a failure otherwise |
| CageTables.LeadingZero | src/data/cage_table.rs:19 | a leading zero does not change the value of a digit string |
| CageTables.ParseOutOfRange | src/data/cage_table.rs:19 | the decimal text of a value outside the 32-bit range does not parse, so the load stops there |
| CageTables.ParseExamples | src/data/cage_table.rs:19 | `+5` parses to 5 and `007` parses to 7 |
| CageTables.ParseOfString | src/data/cage_table.rs:19 | parsing the decimal text of any 32-bit value gives that value |
| CageTables.ParseRejects | src/data/cage_table.rs:19 | text with a non-digit after the optional sign, or a lone sign, does not parse |
| CageTables.DigitsOf | src/data/cage_table.rs:22-26 | a combination has at most as many entries as its token has characters, each below 10 |
| CageTables.DigitsOfWord | src/data/cage_table.rs:22-26 | reading a combination from the word of its digits gives the same digits |
| CageTables.DigitsOfDropsOthers | src/data/cage_table.rs:22-26 | a non-digit character inside a token does not change the combination |
| CageTables.Combinations | src/data/cage_table.rs:21-28 | one combination per token, in order, each the digits of its token |
| CageTables.Entry | src/data/cage_table.rs:13-34 | an entry line loads exactly when its sum text parses. The item gets the current cage size, the parsed sum, and as combinations the digits of each further token in order; otherwise the error carries the text that failed |
| CageTables.ParseEntry | src/data/cage_table.rs:13-34 | the method form of the entry branch computes `Entry` |
| CageTables.LoadAppend | src/data/cage_table.rs:4-37 | loading one more line equals processing that line on the loaded table, with the cage size equal to the number of headers read |
| CageTables.LoadSizes | src/data/cage_table.rs:10-12 | in a loaded table every entry's size lies between 0 and the number of headers, and sizes never decrease along the table |
| CageTables.FromLines | src/data/cage_table.rs:4-37 | the `for_each` over the lines with its counter and item list computes `Load` |
| CageTables.Find | src/data/cage_table.rs:39-41 | `find` is None exactly when no entry has that size and sum, and a result is such an entry of the table |
| CageTables.FindFirst | src/data/cage_table.rs:39-41 | `find` returns the first matching entry |
| CageTables.ExampleTable | src/data/cage_table.rs:4-37 | a five-line file with two headers and three entry lines loads to three items with sizes 1, 2, 2 |
| CageTables.ExampleFind | src/data/cage_table.rs:39-49 | in that table, size 2 and sum 3 finds the entry with the combination 12, and size 2 and sum 2 finds nothing |
| Nodes.Node.New | src/data/node.rs:10-15 | a new node holds the value and no children |
| Nodes.Node.FromBoard | src/data/node.rs:19-24 | `from_board` builds the same node as `new` |
| Nodes.Node.AddChild | src/data/node.rs:16-18 | the children grow by one clone of the given node as it was at the call; earlier children and the data are unchanged |

## Left out

- `Board::get_from_archive` (src/data/board.rs:29-54) is not modelled: it reads a CSV file and picks a random record.
- `Board::gen_random` (src/data/board.rs:55-78) is not modelled: it depends on a random number generator.
- `Board::print`, the `debug!` calls and the commented-out `println!`s are output only.
- `Board::get_grid` is a move-out accessor with nothing to state.
- `GetValue`, `GetSum` and `GetDate` are modelled as plain accessors without contracts.
- src/plugins/board_plugin.rs and src/main.rs (the user interface) are not part of this model.
- The file read in `CageTable::from_file` is left out. The model starts from the file's lines, as `str::lines` gives them.
- The Criterion benchmark set-up is not modelled, and neither is the unused `range` variable of `simple_brute_force_function`.
- Boards.Board.CageCheck: sums are unbounded integers. The source's `i32` sum `num + current_sum` overflows (a panic in a debug build) for `num` near the `i32` limits; the model does not capture that.
- CageTables.LoadFrom: the `cage_size` counter is an unbounded integer, so a file with more than 2^31 - 1 headers does not wrap.
- CageTables.Entry: where the source panics in `parse::<i32>().unwrap()`, the model returns `Err(BadSum(text))` and loading stops.
- Boards.StrikeOff: one strike-off helper serves all three scans of `is_finished`, where the source repeats the loop three times inline.
- Nodes.Node: the node's data is a generic `T`, not a `Board`. A child is stored as a value (`Tree`), which models `clone`; the clone of the board held inside is a value copy in the model too.
- No check that the cells of one cage hold different digits. The source has none: `is_possible` only checks cage sums, rows, columns and boxes.

Three behaviours of the code that the model follows as written:
- `is_possible` runs the cage-sum check before the test that the cell is empty. Its current sum adds up every cell of the cage, the cell (x, y) included.
- `brute_force_with_backtracking` looks for an empty cell column by column (`get_value(j, k)` with j as x), not row by row.
- An entry token with characters other than digits is not an error: those characters are dropped (`DigitsOfDropsOthers`).

## Findings

| source | as written | input that shows it | evidently intended | confidence | as-written member | corrected member |
|---|---|---|---|---|---|---|
| benches/sudoku_solver.rs:60-77 | `is_empty` starts true and line 68 sets it to true again, so the function returns true before trying any digit | a direct call on a fresh `Board::sample_puzzle()`, whose grid is empty, is reported solved although the grid is neither full nor finished. The same happens in a benchmark run filtered to the second bench. In a full benchmark run the two benches share one board (line 12), and the first bench has already filled it with a finished grid (lines 14-20), so returning true there is right by accident | set `is_empty = false` when an empty cell is found, then try digits there | not executed | Solver.BruteForceWithBacktracking, Solver.EmptyBoardIsNotFinished | Solver.FixedBacktracking |
| benches/sudoku_solver.rs:86 | the undo `board.set_num(x, y, 0)` goes through `is_possible`, which rejects 0 on every board, so the digit written at line 81 stays | with line 68 corrected: a board whose first empty cell admits a digit that leads to a dead end. The cell keeps that digit, every later `is_possible` at the filled cell fails, and the function returns false on a changed board | clear the cell with `unchecked_set_num(x, y, 0)`, as `simple_brute_force_function` does at line 51 | not executed | Grid.PossibleRejectsZero, Boards.Board.SetNum | Solver.FixedBacktracking |
