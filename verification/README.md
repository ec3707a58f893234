# rust-sudoku in Dafny

A Dafny model of the core of `rust-sudoku`. The core is an Algorithm X
solver for exact cover problems. Three encoders reduce their puzzles to
that solver:

- Sudoku: 324 items and 729 options.
- n-queens: row and column items, plus optional diagonal items.
- A "basic example": every option is a string, and each of its
  characters is an item.

Each puzzle also has a decoder that turns the selected options back into a
board or a list, and a validator. The Sudoku board additionally has a
reader and a printer.

Modules, in the order the program builds on them:

- `Wrappers`: `Option` and `Result`.
- `Text`: decimal rendering and parsing, lines.
- `ExactCover`: the problem, the search state, `new`, and the
  select/unselect primitives.
- `ExactCoverSemantics`: what an exact cover is, and how far a partial
  selection has got.
- `ExactCoverSearch`: `select_new_item`, `_solve_until`, `solve` and
  `count_all_solutions`.
- `CoveredBy`: the `covered_by` maps the encoders build.
- `SudokuBoard`, `Sudoku`, `SudokuSolve`: the board, the encoder, and the
  decoder and solver.
- `NQueens`, `NQueensBoard`, `NQueensSolve`, `NQueensComplete`: the
  encoder, the board, the decoder, and completeness of the search.
- `BasicExample`.

The source keeps the search state in `RefCell` fields that the solver
mutates in place. The model passes a `State` value instead: the available
options per item, the priority queue as a map from item to priority, and
the selected options. Each mutating method becomes a function from state to
state. Hash-map and hash-set iteration orders do not matter to the results,
but they do decide which solution is found first, so they are explicit
parameters:

- `itemOrder` is the traversal order of `covered_by`.
- `optionOrder` is the order in which the construction of `covers` first
  met each option.

Every iteration over the available options of an item visits
`optionOrder` filtered to that set. The required options form a hash set in
the source too; the model selects them in the order in which they first
occur in the list given to `new`.
A panic of the source (an `unwrap` on a missing key, an index out of range,
a `u8` overflow) is a `None` or a `Failure` in the model.

The main results:

- The search is sound. Every reported solution is an exact cover that
  contains the required options.
- The search is complete. `solve` finds a solution exactly when one
  exists.
- Every select is undone exactly by the unselect after it.
- The Sudoku decoder turns every exact cover into a solved board. The
  n-queens decoder as written does so only up to 9 rows; from 10 rows on
  it fails on every exact cover. The corrected n-queens decoder turns
  every exact cover into a valid board.
- n-queens has a solution for `n` exactly when the encoded problem has an
  exact cover.

## Model

| member | source | states |
|---|---|---|
| Text.NatToString | src/lib/nqueens.rs:69-71 | the decimal text of a number is all digits, reads back as the number, has one digit exactly below 10 and no leading zero |
| Text.IntToStringInjective | src/lib/nqueens.rs:81-91 | two diagonal numbers get the same text exactly when they are equal |
| Text.ParseU8 | src/lib/nqueens.rs:73-75 | a successful `u8` parse is below 256 and starts with a digit or a plus sign |
| Text.ParseNatToString | src/lib/nqueens.rs:69-75 | parsing the text of any number below 256 gives that number back |
| Text.LinesJoin | src/lib/sudoku.rs:30 | splitting newline-joined lines into lines gives back the lines, when none holds a line break |
| CoveredBy.Push | src/lib/sudoku.rs:137-140 | after listing an option under some items, an item lists an option exactly when it did before or the item is one of those items |
| CoveredBy.PushAll | src/lib/sudoku.rs:133-147 | after all placements, an item lists an option exactly when some placement puts that option on that item |
| CoveredBy.PushExisting | src/lib/basic_example.rs:36-40 | listing under existing items succeeds exactly when every placed item is declared; the keys stay the same and each list gains exactly the placed options |
| CoveredBy.Declare | src/lib/nqueens.rs:23-42 | declaring items adds exactly those items, each with an empty list, and leaves the other lists alone |
| ExactCover.Dedup | src/lib/exact_cover.rs:73 | the required options as a set: no repeats, the same elements |
| ExactCover.FirstMissing | src/lib/exact_cover.rs:66-67 | reports nothing exactly when every name is known; otherwise reports the first unknown name |
| ExactCover.Filter | src/lib/exact_cover.rs:136-137 | iterating a set in a fixed order visits exactly the set's members in that order, each once |
| ExactCover.InsertItem | src/lib/exact_cover.rs:52-57 | after an item is appended to the lists of its options, an option lists an item exactly when it did before or is one of the item's options; new options are appended to the order |
| ExactCover.Invert | src/lib/exact_cover.rs:50-58 | `covers` lists item j under option o exactly when `covered_by` lists o under j |
| ExactCover.InvertInverse | src/lib/exact_cover.rs:50-58 | `covers` is the inverse of `covered_by` in both directions |
| ExactCover.InvertListed | src/lib/exact_cover.rs:50-58 | every option in `covers` is listed under some item |
| ExactCover.InitialQueue | src/lib/exact_cover.rs:65-69 | the queue holds exactly the required items, each at minus the length of its list; a required item with no list fails, and the error names the first such item |
| ExactCover.New | src/lib/exact_cover.rs:44-84 | succeeds exactly when every required item is declared; builds the inverse map, makes every listed option available, queues the required items, selects nothing |
| ExactCover.InitialStateValid | src/lib/exact_cover.rs:60-69 | the new state fits the problem, and an option is available for all of its items or for none |
| ExactCover.InitialPrioritiesExact | src/lib/exact_cover.rs:65-69 | each initial priority is minus the number of available options exactly when no required item lists an option twice |
| ExactCover.UpdatePriority | src/lib/exact_cover.rs:295-297 | sets the item's priority to minus its available count and changes nothing else |
| ExactCover.RemoveItem | src/lib/exact_cover.rs:247-249 | the item leaves the queue; the other priorities and the available options stay the same |
| ExactCover.ReturnItem | src/lib/exact_cover.rs:271-273 | the item is queued at minus its available count; the other priorities stay the same |
| ExactCover.RemoveOptionAt | src/lib/exact_cover.rs:259-264 | one item loses the option, and its priority follows if the item is required |
| ExactCover.RemoveOptionFrom | src/lib/exact_cover.rs:256-265 | each listed item loses the option, with its priority updated if required; the other items stay the same |
| ExactCover.RemoveOption | src/lib/exact_cover.rs:254-266 | exactly the items the option covers lose it, and the priorities of the required ones among them follow |
| ExactCover.ReturnOptionAt | src/lib/exact_cover.rs:283-288 | one item regains the option, and its priority follows if the item is required |
| ExactCover.ReturnOptionTo | src/lib/exact_cover.rs:280-289 | each listed item regains the option, with its priority updated if required |
| ExactCover.ReturnOption | src/lib/exact_cover.rs:278-290 | exactly the items the option covers regain it, and the priorities of the required ones among them follow |
| ExactCover.RemoveOptions | src/lib/exact_cover.rs:205-211 | removing a snapshot of options keeps the keys, the queue's members and the selection |
| ExactCover.RemoveOptionsOn | src/lib/exact_cover.rs:205-211 | after the snapshot is removed, an item's available options are the old ones minus the snapshot |
| ExactCover.RemoveOptionsValid | src/lib/exact_cover.rs:205-211 | removing options keeps the state valid and removes exactly those options from every item |
| ExactCover.SelectItems | src/lib/exact_cover.rs:198-212 | the covered items leave the queue; the keys and the selection stay the same |
| ExactCover.SelectOption | src/lib/exact_cover.rs:193-214 | the option is appended to the selection and the items it covers leave the queue |
| ExactCover.SelectItemsAvailable | src/lib/exact_cover.rs:198-212 | the removed list has no repeats and holds exactly the options available for the covered items; every item loses exactly those |
| ExactCover.SelectOptionRemoves | src/lib/exact_cover.rs:193-214 | after a select, the covered items have no options left; the removed options are exactly those that were available for a covered item, including the selected one |
| ExactCover.SelectOptionUniform | src/lib/exact_cover.rs:193-214 | a select keeps every option available for all of its items or for none |
| ExactCover.ReturnRemoved | src/lib/exact_cover.rs:226-232 | returning removed options keeps the keys, the queue's members and the selection |
| ExactCover.ReturnRemovedOn | src/lib/exact_cover.rs:226-232 | an item regains exactly the removed options among those visited that it lists |
| ExactCover.UnselectItems | src/lib/exact_cover.rs:223-239 | exactly the required items among those visited return to the queue |
| ExactCover.UnselectItemsOn | src/lib/exact_cover.rs:223-239 | an item regains exactly the removed options that it lists and that the covered items list |
| ExactCover.UnselectOption | src/lib/exact_cover.rs:219-242 | the last selected option is dropped, and the required items it covers return to the queue |
| ExactCover.UnselectOptionValid | src/lib/exact_cover.rs:219-242 | an unselect keeps the state valid and gives back exactly the removed options to the items that list them |
| ExactCover.UnselectRestores | src/lib/exact_cover.rs:216-242 | unselecting with the removed list returns the available options to what they were before the select |
| ExactCover.SelectUnselectRestores | src/lib/exact_cover.rs:216-242 | a select followed by its unselect restores the available options and the selection; the queue regains the required covered items |
| ExactCover.SelectOptionPriorities | src/lib/exact_cover.rs:262-264 | if every priority is minus its item's available count before a select, the same holds after it |
| ExactCover.UnselectOptionPriorities | src/lib/exact_cover.rs:286-288 | an unselect also keeps every priority at minus its item's available count |
| ExactCoverSemantics.SelectKeepsCovering | src/lib/exact_cover.rs:193-214 | if no item of the selected option is covered yet, then after the select every item is covered at most once and the queue holds exactly the required items that are still uncovered |
| ExactCoverSemantics.DoneCovering | src/lib/exact_cover.rs:161-170 | when the queue is empty, a partial exact cover is an exact cover |
| ExactCoverSemantics.SelectKeepsAvailExact | src/lib/exact_cover.rs:193-214 | after a select, an option is available for an item exactly when the item lists it and it shares no item with the selection |
| ExactCoverSemantics.ExtendThroughItem | src/lib/exact_cover.rs:136-152 | if the selection extends to an exact cover, then so does the selection plus one of the popped item's available options |
| ExactCoverSearch.PickItem | src/lib/exact_cover.rs:186-188 | pops an item of highest priority; pops nothing exactly when the queue is empty |
| ExactCoverSearch.SelectNewItem | src/lib/exact_cover.rs:186-188 | pops a queued item of highest priority and removes only that item; fails exactly on an empty queue |
| ExactCoverSearch.SelectNewItemFewest | src/lib/exact_cover.rs:23-24 | the popped item has the fewest available options of all queued items |
| ExactCoverSearch.SolveUntil | src/lib/exact_cover.rs:104-172 | restores the state; never reports more solutions than the budget; a reported solution is an exact cover that extends the selection; finds one whenever there is budget and an extension exists |
| ExactCoverSearch.SolveItem | src/lib/exact_cover.rs:114-159 | for a popped item, the same four promises as SolveUntil, and an item with no available option yields no solution and a count of 0 |
| ExactCoverSearch.TryOptions | src/lib/exact_cover.rs:137-152 | the loop over an item's options: counts only grow, the first solution is kept, and some solution is found if any option extends the selection |
| ExactCoverSearch.TryOption | src/lib/exact_cover.rs:139-151 | select, recursive search with the remaining budget, combine, unselect: the outcome stays within the budget and is sound |
| ExactCoverSearch.CombineBudget | src/lib/exact_cover.rs:141-148 | adding a result found with the rest of the budget stays within the budget and extends what was found so far |
| ExactCoverSearch.SelectRequired | src/lib/exact_cover.rs:95-99 | succeeds exactly when every required option is known (the error names the first unknown one), and appends them to the selection |
| ExactCoverSearch.SelectAll | src/lib/exact_cover.rs:95-99 | selecting options that share no item keeps the selection a partial exact cover |
| ExactCoverSearch.Search | src/lib/exact_cover.rs:91 | from a partial exact cover, the search finds a solution exactly when the selection extends to an exact cover |
| ExactCoverSearch.Solve | src/lib/exact_cover.rs:89-93 | fails exactly on an unknown required option; when no two required options share an item, the result is an exact cover containing them, and a result exists exactly when such a cover exists; with no required item the result is the required options |
| ExactCoverSearch.CountAllSolutions | src/lib/exact_cover.rs:177-181 | fails exactly on an unknown required option; the count is at most `i32::MAX`, it is positive exactly when an exact cover exists, and it is 1 when no item is required |
| Sudoku.NameToCellOption | src/lib/sudoku.rs:182-188 | reads the digits at positions 1, 3 and 5, and fails exactly when the name is shorter than six characters or one of them is not a digit |
| Sudoku.NameToCellOptionRoundTrip | src/lib/sudoku.rs:176-188 | reading a candidate's option name gives the candidate back |
| Sudoku.OptionNameInjective | src/lib/sudoku.rs:176-178 | two candidates share an option name exactly when they are equal |
| Sudoku.ItemNameInjective | src/lib/sudoku.rs:154-172 | two items share a name exactly when they are equal |
| Sudoku.OptionNotItem | src/lib/sudoku.rs:154-178 | no option name is also an item name |
| Sudoku.Fill | src/lib/sudoku.rs:192-198 | fails exactly when a name is neither "init" nor readable as a cell of the board; each cell holds the digit of the last option that writes it, or its old value if none does |
| Sudoku.ConvertToSudokuSolution | src/lib/sudoku.rs:190-200 | fails exactly on an option it cannot read; otherwise gives a 9×9 board |
| Sudoku.RequiredItemsEnumerate | src/lib/sudoku.rs:102-126 | the required items are the 324 item names, each once |
| Sudoku.Clues | src/lib/sudoku.rs:142-144 | the required options are exactly the candidates the board already shows |
| Sudoku.CoveredByMeaning | src/lib/sudoku.rs:130-147 | the map lists every candidate under exactly its cell, row-digit, column-digit and block-digit items |
| Sudoku.ProblemMeaning | src/lib/sudoku.rs:101-151 | in the problem, each candidate covers exactly its four items and every item is required |
| Sudoku.CoverSolves | src/lib/sudoku.rs:190-200 | the decoded board of every exact cover is a solved Sudoku that shows every selected candidate |
| SudokuBoard.CellToBlockRanges | src/lib/sudoku.rs:166-168 | a cell is in block b exactly when it lies in the rows and columns the validator walks for b |
| SudokuBoard.ScanLine | src/lib/sudoku.rs:37-55 | one line is accepted exactly when every character is a space, dot or digit, with no digit beyond row or column 9; an invalid character is reported exactly when the scan stops on a character that is not a space, dot or digit, and every other failure is an invalid size |
| SudokuBoard.ParseFrom | src/lib/sudoku.rs:28-66 | the lines are accepted exactly when each non-blank line is acceptable and has at least nine cells, and at least nine lines remain; each accepted cell holds its value; an invalid character is reported exactly when the parse stops on a character that is not a space, dot or digit, and every other failure is an invalid size |
| SudokuBoard.ReadBoard | src/lib/sudoku.rs:21-70 | as written: the board's cells are the cells of the non-blank lines; an invalid character is reported exactly when the read stops on a character that is not a space, dot or digit, and every other failure is an invalid size |
| SudokuBoard.ReadBoardChecked | src/lib/sudoku.rs:21-70 | corrected: also requires exactly nine non-blank lines of exactly nine cells; an invalid character is reported exactly when the read stops on one, and every other failure is an invalid size |
| SudokuBoard.WideLineAccepted | src/lib/sudoku.rs:39-41 | a first line of ten or more dots is accepted as written and rejected by the corrected reader |
| SudokuBoard.RenderReadBack | src/lib/sudoku.rs:73-99 | reading back the printed text of any 9×9 board of digits gives the board |
| SudokuBoard.CheckGroup | src/lib/sudoku.rs:409-415 | accepts nine cells exactly when they hold the digits 1 to 9, each once |
| SudokuBoard.CheckRows | src/lib/sudoku.rs:408-416 | accepts exactly when every row holds 1 to 9 once each |
| SudokuBoard.CheckCols | src/lib/sudoku.rs:419-427 | accepts exactly when every column holds 1 to 9 once each |
| SudokuBoard.CheckBlocks | src/lib/sudoku.rs:430-440 | accepts exactly when every 3×3 block holds 1 to 9 once each |
| SudokuBoard.ValidateSolution | src/lib/sudoku.rs:406-441 | accepts exactly solved boards: digits 1 to 9 only, with no repeat in a row, column or block |
| SudokuSolve.CluesDisjoint | src/lib/sudoku.rs:142-144 | when no two clues clash, no two required options share an item |
| SudokuSolve.CoverKeepsClues | src/lib/sudoku.rs:190-200 | the board decoded from a cover that contains the required options keeps every clue |
| SudokuSolve.Encode | src/lib/sudoku.rs:101-151 | the problem is the Sudoku problem, its state is the new state, and its required options are the board's clues |
| SudokuSolve.ConvertToExactCoverProblem | src/lib/sudoku.rs:101-152 | succeeds exactly on boards of at least 9×9, and gives the Sudoku problem with the clues required |
| SudokuSolve.AnswerSolved | src/lib/sudoku.rs:205-211 | the decoded answer is solved and keeps the clues |
| SudokuSolve.SolveEncoded | src/lib/sudoku.rs:206-210 | for consistent clues, an answer exists exactly when an exact cover containing the clues exists, and every answer is solved and keeps the clues |
| SudokuSolve.SolveSudoku | src/lib/sudoku.rs:205-211 | fails exactly on boards smaller than 9×9; for consistent clues, returns a board exactly when an exact cover containing the clues exists, and that board is solved and keeps the clues |
| NQueens.ColName | src/lib/nqueens.rs:61-63 | a column's name is one character from 'a' onward, below 256 |
| NQueens.NameToCol | src/lib/nqueens.rs:65-67 | reads the first character as a column, and fails exactly when the name is empty or the `u8` subtraction would underflow |
| NQueens.ColNameRoundTrip | src/lib/nqueens.rs:61-67 | reading a column's name gives the column |
| NQueens.RowName | src/lib/nqueens.rs:69-71 | a row's name is a non-empty decimal |
| NQueens.NameToRow | src/lib/nqueens.rs:73-75 | returns the parsed `u8` minus one, and fails on zero or a failed parse |
| NQueens.RowNameRoundTrip | src/lib/nqueens.rs:69-75 | reading a row's name gives the row |
| NQueens.RowNameInjective | src/lib/nqueens.rs:69-71 | two rows share a name exactly when they are equal |
| NQueens.ItemNameInjective | src/lib/nqueens.rs:61-91 | row, column and diagonal items have distinct names |
| NQueens.OptionNameInjective | src/lib/nqueens.rs:47 | two squares share an option name exactly when they are equal |
| NQueens.OptionNameParse | src/lib/nqueens.rs:47 | reading a square's option name as column letter plus whole row number gives the square |
| NQueens.ItemNamesMeaning | src/lib/nqueens.rs:23-42 | the declared items are exactly the rows, columns and diagonals of the board; the required ones are exactly the rows and columns |
| NQueens.Declared | src/lib/nqueens.rs:23-42 | every item of the board is declared with an empty list |
| NQueens.Placements | src/lib/nqueens.rs:45-57 | the placement loop visits exactly the squares of the board |
| NQueens.PlacedMeaning | src/lib/nqueens.rs:45-57 | a square's option is placed on an item exactly when the item is the square's row, column or one of its diagonals |
| NQueens.CoveredByMap | src/lib/nqueens.rs:17-57 | every item is listed, and lists exactly the squares placed on it |
| NQueens.CoveredByMeaning | src/lib/nqueens.rs:17-57 | the map encodes the board: every square is listed under exactly its four items |
| NQueens.ProblemMeaning | src/lib/nqueens.rs:17-58 | in the problem, each square covers exactly its row, column and diagonals, and only rows and columns are required |
| NQueens.Encode | src/lib/nqueens.rs:17-58 | builds the n-queens problem and its new state |
| NQueens.ConvertToExactCoverProblem | src/lib/nqueens.rs:17-59 | truncates `n` to `u8`; fails exactly when a column name would overflow (160 or more) |
| NQueensBoard.DiagonalAttack | src/lib/nqueens.rs:77-87 | two squares share a diagonal number exactly when they lie on a common diagonal |
| NQueensBoard.RowText | src/lib/nqueens.rs:104-116 | a row prints as one character per cell, 'Q' for a queen, with no line break |
| NQueensBoard.RenderReadBack | src/lib/nqueens.rs:100-120 | the printed lines are the rows; 'Q' marks exactly the queens, and a 0/1 board reads back as itself |
| NQueensBoard.CountIndex | src/lib/nqueens.rs:234-237 | the `u8` and `i16` casts give each diagonal its slot on boards up to 255 rows |
| NQueensBoard.I16 | src/lib/nqueens.rs:236 | the `as i16` cast of the board size wraps into range and leaves small values alone |
| NQueensBoard.CountsMeaning | src/lib/nqueens.rs:222-249 | one queen per row and column and at most one per diagonal holds exactly when the board is a valid n-queens solution |
| NQueensBoard.CheckCounts | src/lib/nqueens.rs:241-248 | accepts exactly when every row and column count is 1 and every diagonal count is at most 1 |
| NQueensBoard.TallyRow | src/lib/nqueens.rs:229-240 | counts one row's queens into the row, column and diagonal tallies; stops on a short row or an overflowing cast |
| NQueensBoard.ValidateQueens | src/lib/nqueens.rs:222-249 | on boards up to 255 rows, accepts exactly the valid n-queens solutions |
| NQueensSolve.MaxRow | src/lib/nqueens.rs:123-126 | returns the largest row number among the selected options, and returns nothing exactly when the selection is empty or some option's row cannot be read |
| NQueensSolve.Place | src/lib/nqueens.rs:127-132 | a cell holds a queen exactly when a selected option names it; fails exactly when some option names no cell of the board |
| NQueensSolve.Convert | src/lib/nqueens.rs:122-134 | the board is as wide as the largest row number, and its queens are exactly the squares the options name |
| NQueensSolve.ConvertToNQueensSolution | src/lib/nqueens.rs:122-134 | as written: reads one character for the row, so the board has at most 9 rows |
| NQueensSolve.ConvertWholeRow | src/lib/nqueens.rs:122-134 | corrected: reads the whole row number |
| NQueensSolve.TenthRowMisread | src/lib/nqueens.rs:124-130 | the tenth-row option "a10" decodes as written to a one-cell board, and in the corrected version to a 10×10 board with a queen in row 10 |
| NQueensSolve.SmallBoardsAgree | src/lib/nqueens.rs:122-134 | for boards up to 9×9 the written and corrected decoders agree on every exact cover |
| NQueensSolve.CoverSolves | src/lib/nqueens.rs:122-134 | the corrected decoder turns every exact cover into a valid n×n board whose queens are exactly the selected squares |
| NQueensSolve.LargeBoardsFail | src/lib/nqueens.rs:122-134 | from 10 rows on, the decoder as written fails on every exact cover, because it sizes the board by one digit |
| NQueensSolve.EmptyBoardCover | src/lib/nqueens.rs:124-126 | with n = 0, the only cover is empty, and decoding it fails (the `max().unwrap()` panic) |
| NQueensSolve.EmptyBoardSolvable | src/lib/nqueens.rs:17-58 | with n = 0, the empty selection is an exact cover |
| NQueensComplete.QueensCover | src/lib/nqueens.rs:17-58 | the squares of any valid board form an exact cover of the problem |
| NQueensComplete.SolvableIff | src/lib/nqueens.rs:17-58 | the problem has an exact cover exactly when an n×n solution exists |
| NQueensComplete.SolveEncoded | src/lib/nqueens.rs:139-145 | fails for n = 0, and with the decoder as written also for n ≥ 10 when a solution exists; otherwise it returns a valid n×n board exactly when one exists |
| NQueensComplete.SolveNQueens | src/lib/nqueens.rs:139-145 | as written: fails exactly when n mod 256 is 0, is 160 or more, or is 10 or more and a solution exists; otherwise it returns a valid board exactly when one exists |
| NQueensComplete.SolveNQueensWholeRow | src/lib/nqueens.rs:139-145 | corrected: fails exactly when n mod 256 is 0 or is 160 or more; otherwise it returns a valid board exactly when one exists |
| NQueensComplete.CountNQueens | src/lib/nqueens.rs:150-154 | the count is at most `i32::MAX`, is positive exactly when a solution exists, and is 1 when n mod 256 is 0 |
| BasicExample.CharItems | src/lib/basic_example.rs:45-47 | splits an option into its characters: one item per character, and the items are exactly its one-character strings |
| BasicExample.CharItemsConcat | src/lib/basic_example.rs:45-47 | joining the items gives the option back |
| BasicExample.Placements | src/lib/basic_example.rs:36-40 | places each option on the items of its characters, in order |
| BasicExample.PlacedMeaning | src/lib/basic_example.rs:36-40 | an option is placed on an item exactly when the item is one of the option's characters |
| BasicExample.PlacedDeclared | src/lib/basic_example.rs:36-40 | every placed item is declared exactly when every character of every option is a declared item |
| BasicExample.Declared | src/lib/basic_example.rs:28-34 | declares every required and optional item, each with an empty list |
| BasicExample.CoveredByMap | src/lib/basic_example.rs:24-40 | fails exactly when an option uses an undeclared character (the `unwrap` panic); otherwise each item lists exactly the options containing it |
| BasicExample.ProblemMeaning | src/lib/basic_example.rs:24-43 | the problem's options are the non-empty options, each covering exactly its characters |
| BasicExample.ConvertToExactCoverProblem | src/lib/basic_example.rs:24-43 | fails exactly on an undeclared character; otherwise gives that problem and its new state |
| BasicExample.CountIsHits | src/lib/basic_example.rs:45-47 | the solver's cover count of an item is the number of selected options containing its character |
| BasicExample.ExactCoverIff | src/lib/basic_example.rs:24-43 | a selection is an exact cover exactly when it picks options that hit each item at most once and each required item exactly once |
| BasicExample.SolvableIff | src/lib/basic_example.rs:24-43 | the problem has an exact cover exactly when the example has a solution |
| BasicExample.SolveBasicExample | src/lib/basic_example.rs:61-67 | fails exactly on an undeclared character; returns a solution exactly when one exists, and every answer is a solution |
| BasicExample.NoRequiredItems | src/lib/basic_example.rs:81-93 | with no required items the solver returns the empty selection |
| BasicExample.UncoverableItem | src/lib/basic_example.rs:97-106 | a required item no option contains means no solution |
| BasicExample.TriangleUnsolvable | src/lib/basic_example.rs:171-180 | no selection of the options AB, BC and AC covers A, B and C exactly once each |
| BasicExample.TriangleNoSolution | src/lib/basic_example.rs:171-180 | so the solver reports no solution for that example |
| BasicExample.WikipediaUnique | src/lib/basic_example.rs:184-203 | the only solution of the example from the Wikipedia article is 14, 356 and 27 |
| BasicExample.WikipediaSolution | src/lib/basic_example.rs:184-203 | the solver returns 14, 356 and 27 for that example, each once, in some order |
| BasicExample.VariantUnsolvable | src/lib/basic_example.rs:207-223 | with 26 in place of 27 the example has no solution |
| BasicExample.VariantNoSolution | src/lib/basic_example.rs:207-223 | so the solver reports no solution for the variant |
| BasicExample.KnuthUnique | src/lib/basic_example.rs:227-267 | whatever the optional items, the only solution of Knuth's example is CEF, AD and BG |
| BasicExample.KnuthSolution | src/lib/basic_example.rs:227-267 | the solver returns CEF, AD and BG for Knuth's example, each once, in some order, with or without the optional item H |

## Left out

- Logging: the `info!` calls are left out, because they do not change the computation.
- In-place mutation: the `RefCell` fields are replaced by a state value that each operation returns.
- Hash orders: the iteration orders of `covered_by` and of the option sets are parameters (`itemOrder` and `optionOrder`). A real hash map fixes them by hashing, and the results hold for every order.
- Required-option order: the source selects its required options in the order of their hash set. The model fixes the order of first occurrence in the given list. The results above do not depend on it, but the order of the required options at the head of a solution does.
- Priority-queue ties: when several items share the best priority, `PickItem` takes the first in `itemOrder`. The `priority_queue` crate breaks ties by its own internal order, which is not part of this model.
- ExactCover.InitialQueue: priorities are `int` and are not truncated to `i32`, since no option list comes near 2^31 entries.
- ExactCoverSearch.SolveUntil: the budget subtraction `remaining - num_solutions as i32` is unbounded. The budget never leaves `i32` range, because found counts never exceed it.
- ExactCoverSearch.CountAllSolutions: the count is `nat`. Because the budget is `i32::MAX`, it never reaches the `u64` limit.
- ExactCoverSearch.CountAllSolutions: the count is not proved to equal the number of distinct exact covers that contain the required options, capped at `i32::MAX`. The contract says only that it is capped, that it is positive exactly when such a cover exists, and that it is 1 when nothing is required. Counting covers would need a model of the search tree's leaves as a set of covers.
- ExactCoverSearch.Solve: which exact cover is found first is not stated; it depends on the orders above. The contract gives soundness and completeness, not the specific cover.
- ExactCoverSearch.Solve: soundness is stated only when no two required options share an item. When two do, the source's select removes the second option's items twice, and the result is not an exact cover.
- File reading: `read_from_file` is modelled from the file's lines onward. Opening the file and an I/O error while reading are the `FileReadError` cases, which need a file system.
- Printing: `Display` is modelled as the string it writes. The `Formatter` plumbing is left out.
- NQueensBoard.ValidateQueens: the contract covers boards of up to 255 rows. Above that the source's `as u8` casts wrap, and the model only says it reports false.
- NQueensComplete.CountNQueens: the counts 1, 0, 0, 2, 10, 4, 40, 92, 352, 724 for n = 1 to 10 are not proved. Only "positive exactly when a solution exists" is, with the exact count 1 for n = 0.
- NQueensComplete.SolveNQueens: it is not proved that every board size from 4 on has a solution, so the contract leaves the failure for 10 to 159 rows conditional on one existing.
- SudokuBoard.ValidateSolution: the source panics on a failed check. The model returns false, including on boards too small to index.
- Test helpers: the boards and examples used only by the tests, `main.rs` and `test_utils.rs` are not part of this model.

## Findings

| source | as written | input that shows it | evidently intended | confidence | as-written member | corrected member |
|---|---|---|---|---|---|---|
| src/lib/nqueens.rs:124-130 | the decoder reads only the second character of an option name as its row, so rows from 10 on are misread | n = 10, option "a10" (column a, row 10) decodes to row 1 on a 1×1 board; every 10-queens solution, such as a1 c2 f3 h4 j5 e6 i7 b8 d9 g10, makes `solve_nqueens_problem_with_exact_cover` panic, since column j lies outside the 9×9 board | read the whole row number after the column letter | not executed | NQueensSolve.ConvertToNQueensSolution and NQueensComplete.SolveNQueens (shown by NQueensSolve.TenthRowMisread and NQueensSolve.LargeBoardsFail) | NQueensSolve.ConvertWholeRow and NQueensComplete.SolveNQueensWholeRow (proved by NQueensSolve.CoverSolves) |
| src/lib/sudoku.rs:39-41 | a '.' advances the column with no bound check, so a line of more than nine cells is accepted when its extra cells are dots | a first line of ten dots, then eight lines of nine dots | reject a line wider than nine cells as an invalid size, as an out-of-range digit already is | not executed | SudokuBoard.ReadBoard (shown by SudokuBoard.WideLineAccepted) | SudokuBoard.ReadBoardChecked (proved by SudokuBoard.RenderReadBack) |
