# Sudoku: the backtracking solver and the game's board logic

This project models two pieces of a small Sudoku program and proves properties of them.

- **The solver** (`sudoku.py`):
  - `findempty` finds the first empty cell in row-major order.
  - `is_valid` tests whether a digit may go into a cell: it must not already appear in the cell's row, column or block.
  - `solve` fills the grid in place by depth-first backtracking.
  - The grid is N-by-N with b-by-b blocks, where b * b == N. Empty cells hold 0.
  - Module `Sudoku` (`sudoku.dfy`) models the grid as an `array2<int>` that `Solve` changes in place. The ghost function `Cells` views that array as a grid value.
- **The board logic of the game** (`sudokugui.py`, without the graphical interface):
  - The puzzle-file parser (`SudokuBoard.__createBoard`).
  - The game state, `SudokuGame`, with its fields `startPuzzle`, `puzzle` and `gameOver`.
  - Copying the start puzzle into the working puzzle (`start`).
  - The fixed 3-by-3 copy of the validity check.
  - The win check, which tests every row, column and square for being the set {1, ..., 9}.
  - Module `SudokuGui` (`sudokugui.dfy`) models `SudokuGame` as a class whose methods reassign its fields.

Both modules share module `Grid` (`grid.dfy`). It holds the specification these pieces are proved against:
- `Allowed`: digit n may be written at (i, j).
- `NoConflicts`: no two peers hold the same digit. Peers are two cells that share a row, a column or a block.
- `KeepsGivens`: every nonzero cell of the input is unchanged.
- `FillsInRange`: every empty cell of the input now holds 1..N.
- `IsSolution`.
- `Empties`: the set of empty cells. It is the termination measure of `Solve`.

Main results:
- `Solve` keeps the givens of the grid.
- When `Solve` fails, the grid is restored exactly.
- When `Solve` succeeds, it has filled every empty cell with 1..N. If the givens had no conflict, the result has none either.
- `Solve` terminates because the set of empty cells strictly shrinks on each recursive call.
- On the game side, the set test `set(block) == set(range(1, 10))` is proved equivalent, for nine cells, to "digits 1..9 without a repeat" (a pigeonhole argument).
- From this, `check_win` accepts exactly the boards that are solutions in the solver's sense (`CompleteIffSolution`).
- So a successful solve of a consistent 9-by-9 puzzle is a win (`SolvedBoardIsComplete`).

The two fixture boards of `sudoku.py` are modelled as scenarios:
- `board` has no conflict, so a successful solve of it yields a solution.
- `board1` repeats the given 1 in its first row. No grid that keeps its givens is conflict-free, so whatever `solve` reports for it, the result is not a solution.

## Model

| member | source | states |
|---|---|---|
| Sudoku.FindEmpty | sudoku.py:35-41 | The result is either the sentinel (N, N) or a cell in range. When it is a cell, that cell is 0 and every cell before it in row-major order is nonzero. The sentinel comes back exactly when no cell is 0. |
| Sudoku.IsValid | sudoku.py:43-56 | The result is true exactly when `Allowed` holds. That means n is not 0, and n occurs nowhere in row i, in column j, or in the b-by-b block of (i, j). `n == 0` and `bo[i, j] == n` both give false, since the target cell is not exempted. The method has no `modifies`, so it only reads the grid. |
| Sudoku.Solve | sudoku.py:58-68 | Givens are always kept. On false, the grid equals its state on entry. On true, no cell is empty and every formerly empty cell holds 1..N. On true with conflict-free givens, the result has no conflicts. A grid with no empty cell returns true unchanged. Termination: the set of empty cells strictly decreases on each recursive call. |
| Sudoku.PlaceThenSolve | sudoku.py:63-66 | If the solve after writing k into the empty cell (i, j) keeps the givens and fills in range, then so does the whole solve. |
| Sudoku.BlockScanned | sudoku.py:49-52 | Scanning the b-by-b range from the corner (i - i % b, j - j % b) covers every cell in the block of (i, j). |
| Sudoku.Board | sudoku.py:3-13 | The 9-by-9 fixture: 1 at the top-left cell, 0 everywhere else. |
| Sudoku.Board1 | sudoku.py:15-20 | The 4-by-4 fixture, with two 1s in its first row. |
| Sudoku.BoardHasNoConflicts | sudoku.py:3-13 | The fixture `board` has no two peers holding the same digit. |
| Sudoku.Board1HasNoSolution | sudoku.py:15-20 | Every grid that keeps the givens of `board1` has a conflict, and so is no solution. |
| Sudoku.Board1RowBlocksOne | sudoku.py:15-20 | `is_valid(0, 2, 1, board1)` is false, because row 0 of `board1` already holds a 1. |
| Sudoku.ArrayOf | sudoku.py:58 | A fresh N-by-N array whose cells are the given grid. |
| Sudoku.SolveBoard | sudoku.py:3-13 | Solving `board`: on success the array is a solution that keeps the 1 at (0, 0). On failure it is the fixture, unchanged. |
| Sudoku.SolveBoard1 | sudoku.py:15-20 | Solving `board1`: the array keeps its givens and is never a solution. On true, it has no empty cell. |
| Grid.Place | sudoku.py:64 | The grid with one cell written: that cell has the new value and every other cell is unchanged. |
| Grid.SameBlockIsCornerRange | sudoku.py:49-50 | `p / b == i / b` holds exactly when p lies in the range i - i % b up to i - i % b + b. The block test used by the specification is the range the source scans. |
| Grid.CornerRangeFits | sudoku.py:47-50 | When b * b == N, the scanned block range of any index below N lies inside 0..N. |
| Grid.PlaceKeepsNoConflicts | sudoku.py:62-64 | Writing a digit that `Allowed` admits into an empty cell keeps a conflict-free grid conflict-free. |
| Grid.PlaceShrinksEmpties | sudoku.py:64-65 | Writing a nonzero digit into an empty cell removes exactly that cell from the set of empty cells, so the set strictly shrinks. |
| Grid.FilledIsSolution | sudoku.py:58-66 | Suppose the givens are digits 0..N, the result keeps them, fills the empty cells with 1..N and has no conflict. Then the result has no empty cell and is a solution. |
| SudokuGui.IsSpace | sudokugui.py:25 | The characters `strip()` removes in the model: the ASCII whitespace of `str.isspace`. Every one of them is ASCII and none is a digit. |
| SudokuGui.StripStart | sudokugui.py:25 | The index of the first character at or after i that is not whitespace; everything skipped is whitespace. |
| SudokuGui.StripEnd | sudokugui.py:25 | The end of the slice once trailing whitespace is dropped; everything dropped is whitespace. |
| SudokuGui.Strip | sudokugui.py:25 | The result is no longer than the line, and does not start or end with whitespace. |
| SudokuGui.StripIsSlice | sudokugui.py:25 | `strip()` yields a slice of the line, and only whitespace lies outside the slice. |
| SudokuGui.StripIdempotent | sudokugui.py:25 | Stripping twice is the same as stripping once. |
| SudokuGui.IsDigit | sudokugui.py:32 | `char.isdigit()` restricted to ASCII: exactly the characters of `"0123456789"`. |
| SudokuGui.GoodLine | sudokugui.py:26-35 | The test a stripped line passes: it has 9 characters and its first non-digit lies at position 9, so there is none. |
| SudokuGui.LineError | sudokugui.py:26-27 | Which `SudokuError` a rejected stripped line raises. It is `LineLength` exactly when the length is not 9, reported with the line. Otherwise it is `NotANumber`, for a non-digit character that has only digits before it, reported with the line. It is never `LineCount`. The cited lines raise the length error; lines 34-35 raise the digit error. |
| SudokuGui.NoBreakSpaceKept | sudokugui.py:25-35 | Examples where the model's stripping differs from the source. `"12345678\u00A0"` is reported as `NotANumber` for the no-break space. `"\u00A01234567x8"` is reported as `LineLength`. `"\u00A0123456789"` keeps its no-break space and is rejected, although the source accepts it. |
| SudokuGui.DigitValue | sudokugui.py:33 | `int(char)` of a digit is in 0..9. |
| SudokuGui.FirstNonDigit | sudokugui.py:31-35 | The position of the first character that is not a digit. All earlier characters are digits. |
| SudokuGui.FirstBadLine | sudokugui.py:24-35 | The first line rejected by the length or digit test, or the number of lines if none is. Every earlier line is accepted. |
| SudokuGui.FirstBadLineUnique | sudokugui.py:24-35 | A rejected line that follows only accepted lines is the first bad line. |
| SudokuGui.ReadStep | sudokugui.py:29-33 | Reading one more accepted line appends its row of digit values to the board. |
| SudokuGui.CreateBoard | sudokugui.py:21-40 | If a stripped line is not 9 characters long, the error is `LineLength` for the first bad line. If it has a non-digit, the error is `NotANumber` for its first non-digit character. If every line is accepted but there are not 9 of them, the error is `LineCount`. Otherwise the result is a 9-by-9 board of 0..9 whose cell [r][c] is the value of character c of stripped line r. |
| SudokuGui.RowsReadDetermined | sudokugui.py:29-33 | The board read from a given sequence of lines is unique. |
| SudokuGui.DigitChar | sudokugui.py:33 | The inverse of `int(char)` on 0..9. |
| SudokuGui.BoardLines | sudokugui.py:24-25 | A board written out as file lines: 9 digits and a newline per row. |
| SudokuGui.StripDigitLine | sudokugui.py:25 | A line of 9 digits plus its newline strips to the 9 digits. |
| SudokuGui.BoardLinesParse | sudokugui.py:21-40 | Every line of a written-out board is accepted, and the rows read are the board. |
| SudokuGui.ParsedBoardLines | sudokugui.py:21-40 | A parsed board is a board of digits 0..9. Writing it out gives lines that strip to the lines it was read from. |
| SudokuGui.CreateBoardRoundTrip | sudokugui.py:21-40 | Parsing a written-out digit board returns exactly that board. |
| SudokuGui.Column | sudokugui.py:93 | The column as a sequence, with cell r of the column being row r's cell. |
| SudokuGui.Square | sudokugui.py:98-102 | The square (sr, sc) read row by row. Element t is cell (3 sr + t / 3, 3 sc + t % 3). |
| SudokuGui.Range | sudokugui.py:86 | `range(lo, hi)`: lo, ..., hi - 1 in order. |
| SudokuGui.DistinctCard | sudokugui.py:86 | A sequence has at most as many distinct values as elements. It has exactly as many when no value repeats. |
| SudokuGui.RangeCard | sudokugui.py:86 | `set(range(lo, hi))` has hi - lo elements. |
| SudokuGui.SubsetOfSameCard | sudokugui.py:86 | A subset as large as its superset equals it. |
| SudokuGui.DigitsOfRange | sudokugui.py:86 | `range(1, 10)` holds exactly the digits 1..9. |
| SudokuGui.DigitSetMeaning | sudokugui.py:86 | `set(block) == set(range(1, 10))` holds exactly when every value is a digit 1..9 and every digit 1..9 occurs. |
| SudokuGui.DigitSetIffPermutation | sudokugui.py:86 | For nine values, `set(block) == set(range(1, 10))` holds exactly when all of them are digits 1..9 and none repeats. |
| SudokuGui.SquareIndex | sudokugui.py:98-102 | Cell (p, q) of square (sr, sc) is element (p - 3 sr) * 3 + (q - 3 sc) of the square's sequence. |
| SudokuGui.SquareCell | sudokugui.py:98-102 | Every element of the square's sequence is a cell of the square, and different elements are different cells. |
| SudokuGui.SquareFromSeq | sudokugui.py:96-103 | If the square's sequence is a permutation of 1..9, then the square is complete cell by cell. |
| SudokuGui.SeqFromSquare | sudokugui.py:96-103 | If the square is complete cell by cell, then its sequence is a permutation of 1..9. |
| SudokuGui.SquareSeqComplete | sudokugui.py:96-103 | The square's sequence is a permutation of 1..9 exactly when the square is complete cell by cell. |
| SudokuGui.CompleteIffSolution | sudokugui.py:71-103 | Every row, column and 3-by-3 square holds 1..9 without a repeat exactly when the board is a solution in the solver's sense: digits 1..9 and no two peers equal. |
| SudokuGui.SolvedBoardIsComplete | sudokugui.py:71-103 | A 9-by-9 solver result counts as a win. Such a result keeps in-range givens, fills the empty cells with 1..9 and has no conflict. |
| SudokuGui.SudokuGame.constructor | sudokugui.py:44-46 | Builds a game over a file the parser accepts. It remembers the file, and the start puzzle is the board read from it. It establishes the class invariant `Valid`: the start puzzle is a 9-by-9 board of digits, and the working puzzle is either empty or 9-by-9. |
| SudokuGui.SudokuGame.Open | sudokugui.py:44-46 | Opening a game from a file: the parser's error when it rejects the file, otherwise a new game whose start puzzle is the board read. |
| SudokuGui.SudokuGame.Start | sudokugui.py:48-54 | `gameOver` becomes false. `puzzle` becomes a cell-by-cell copy of `startPuzzle`. `startPuzzle` is unchanged, and `Valid` is kept. |
| SudokuGui.SudokuGame.Enter | sudokugui.py:210 | A digit written into the working puzzle changes exactly that cell. `startPuzzle` and `gameOver` are unchanged, and `Valid` is kept. Boards are values here, so this frame would hold whether `start` copied or aliased. |
| SudokuGui.SudokuGame.IsValid | sudokugui.py:56-69 | Exactly the solver's condition, `Allowed`, with the block size fixed at 3. `n == 0` and a cell already holding n both give false. |
| SudokuGui.SudokuGame.CheckBlock | sudokugui.py:85-86 | The result is true exactly when every value is a digit 1..9 and every digit occurs. For nine cells, that means the digits 1..9 without a repeat. |
| SudokuGui.SudokuGame.CheckRow | sudokugui.py:88-89 | True exactly when row `row` holds 1..9 without a repeat. |
| SudokuGui.SudokuGame.CheckColumn | sudokugui.py:91-94 | True exactly when column `column` holds 1..9 without a repeat. |
| SudokuGui.SudokuGame.CheckSquare | sudokugui.py:96-103 | True exactly when the 3-by-3 square (row, column) holds 1..9 without a repeat. |
| SudokuGui.SudokuGame.CheckWin | sudokugui.py:71-83 | Reports true exactly when every row, column and square is complete, which is exactly when the puzzle is a solution. `gameOver` becomes true on a win and is otherwise unchanged. The puzzles are unchanged, and `Valid` is kept. |

## Left out

- `print_board` (`sudoku.py:22-33`): console output only.
- The `SudokuUI` class (`sudokugui.py:105-236`): drawing, mouse hit-testing and the Tk event loop. The only part modelled is the write a key press makes into the working puzzle (`Enter`). The UI's solve button runs `solve` on the game's nested lists; that is the same algorithm as `Sudoku.Solve`, which works on an array.
- `parse_arguments` and the main block (`sudokugui.py:239-261`): argument parsing, opening the file and the Tk main loop. The parser's input is the file's lines as a sequence of strings.
- The texts of the `SudokuError` messages: the model returns which error occurred and with which line and character, not the formatted message.
- `int(math.sqrt(len(bo)))` (`sudoku.py:47`): the block size is a parameter b with b * b == N, so no floating point is involved.
- SudokuGui.Strip: removes exactly the ASCII characters for which Python's `str.isspace` holds. These are space, tab, newline, vertical tab, form feed, carriage return and the separators U+001C..U+001F. Python's `str.strip()` also removes non-ASCII whitespace such as U+0085, U+00A0 and U+3000, which the model keeps as ordinary characters. On a line with such a character at either end, the model may report a different error kind than the source, or an error where the source accepts the line. Three examples, all proved in `NoBreakSpaceKept`:
  - `"12345678\u00A0"`: the source strips to 8 characters and raises the length error. The model reports `NotANumber` for U+00A0.
  - `"\u00A01234567x8"`: the source raises the digit error for `x`. The model reports `LineLength`.
  - `"\u00A0123456789"`: the source accepts the line, while the model reports `LineLength`.
- SudokuGui.IsDigit: accepts `'0'..'9'` only. Python's `str.isdigit` also accepts the other Unicode decimal digits, such as `'٣'` or `'３'`, and `int()` reads those as their value. The source therefore accepts a line such as `٣00000000` and reads the row [3, 0, ..., 0], where `CreateBoard` returns `NotANumber`. For digits that are not decimal, such as `'²'`, `isdigit` holds but `int()` raises `ValueError` (not `SudokuError`). The model has no counterpart of that exception.
- Sudoku.Solve: the model's recursion has no depth limit. CPython stops at about 1000 nested calls, so `solve` raises `RecursionError` on a grid with roughly 1000 or more empty cells, an empty 36-by-36 grid for example. The model does not capture that exception.
- Sudoku.Solve: completeness is not proved ("returns false only when no solution exists"), and neither is the fact that the solution found is the first in ascending search order.
- Python list aliasing: boards are values (`seq`) in the game and an array in the solver, so the model cannot express two names sharing one list. Whether `start` (`sudokugui.py:50-54`) copies the start puzzle cell by cell or merely aliases it (`self.puzzle = self.startPuzzle`) is therefore not checked. `Start`'s contract holds for both, and `Enter` leaves `startPuzzle` unchanged in either case only because boards are values.
- SudokuGui.SudokuGame: before `start()` the source has no `puzzle` or `gameOver` attribute at all. The model gives them the values `[]` and `false`, and the methods that read `puzzle` require a 9-by-9 board there.
- SudokuGui.SudokuGame.Open: parses the file once to pick the error and again in the constructor, because a Dafny constructor cannot fail. The source parses once and lets the exception escape its constructor.
