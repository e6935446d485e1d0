# Game of Life: the generation step and the colony-file reader

This project models the simulation core of a Game of Life program, which works on a grid of cell
ages. A cell with value 0 is dead and a cell with value `n > 0` is live with age `n`. The model has three parts.

- **The generation step `getNextGrid`** counts, for every cell, the live cells among its eight
  neighbours. Positions off the grid do not count: the board does not wrap. It then builds a fresh
  grid by a four-way rule:
  - 0 or 1 neighbours: the cell is dead;
  - 2 neighbours: the cell keeps its current value;
  - 3 neighbours: the cell becomes 1;
  - 4 or more neighbours: the cell is dead.
- **The colony-file reader `initFileGrid`** reads a file line by line:
  - lines starting with `#` are skipped;
  - the first other line is read with `stoi` as the row count, and the next as the column count;
  - on the first grid row line the grid is resized and cleared;
  - every `X` of grid row `rIndex` sets cell `(rIndex, c)` to 1.
- **The shared constants**: `kMaxAge` and the eight-entry neighbour offset tables `dr` and `dc`.

The random initialiser `initRandomGrid` is modelled as well, with its random draws passed in as
parameters.

Modules and files:

- `life_constants.dfy` (`LifeConstants`): the constants. It proves that the offset table is exactly
  the Moore neighbourhood: eight distinct unit steps, none of them `(0, 0)`.
- `grid.dfy` (`Results`, `Grids`): the library `Grid<int>` as a value.
  - `Grid(rows, cols, cells)` carries its own size, so a grid with zero rows still knows its column count.
  - The members `Set`, `Resize` and `Fill` are the library operations the program calls.
  - `Result` is the usual value-or-error type.
- `generation.dfy` (`Generation`): `NextGrid` is `getNextGrid`. It has the same three nested loops
  and the same running count, and is proved equal to the specification function `Step`.
  `Step` is built from `NextCell`, `LiveNeighbors` and `Rule`. The lemmas give their meaning:
  - neighbour-count bounds;
  - the count equals the size of the set of live Moore neighbours;
  - the B3/S23 liveness rule and what happens to ages;
  - the step depends only on the old grid;
  - a grid the step leaves unchanged stays fixed.
- `string_to_int.dfy` (`StringToInt`): `stoi` as base-10 `strtol` with the `int` range check.
  - It skips leading white space, takes an optional sign and then the longest digit run.
  - `invalid_argument` is raised when there is no digit, and `out_of_range` when the value does
    not fit 32 bits.
- `colony_file.dfy` (`ColonyFile`): `InitFileGrid` is `initFileGrid`. It is a `while` loop over the
  lines that updates `row`, `col`, `rIndex` and the grid, and it is proved equal to the fold
  `ParseColony`. The lemmas say what a file means as a whole.
- `random_colony.dfy` (`RandomColony`): `initRandomGrid`, as written and as evidently intended.
- `scenarios.dfy` (`Scenarios`): small colonies and files worked out completely.

The library's exceptions become `Err` values:

| source of the exception | error value |
|---|---|
| `stoi` | `BadHeader(line, InvalidArgument \| OutOfRange)` |
| `resize` with a negative size | `NegativeSize(row, col)` |
| an out-of-range `grid[r][c]` write | `OutOfBounds(r, c)` |

## Model

| member | source | states |
|---|---|---|
| LifeConstants.ConstantsAsDeclared | HW1/assign-1-game-of-life/src/life-constants.h:17-21 | kMaxAge is 12, dirLen is 8, and both offset tables have dirLen entries |
| LifeConstants.Offset | HW1/assign-1-game-of-life/src/life-constants.h:20-21 | each table offset has both components in -1 .. 1 and is never (0, 0), so a cell is never its own neighbour |
| LifeConstants.OffsetsAreUnitSteps | HW1/assign-1-game-of-life/src/life-constants.h:20-21 | every entry of dr and dc lies in {-1, 0, 1}, and no (dr[k], dc[k]) is (0, 0) |
| LifeConstants.OffsetsDistinct | HW1/assign-1-game-of-life/src/life-constants.h:20-21 | the eight (dr[k], dc[k]) pairs are pairwise distinct |
| LifeConstants.OffsetsAreMoore | HW1/assign-1-game-of-life/src/life-constants.h:20-21 | the set of table offsets is exactly {-1, 0, 1}² without (0, 0) |
| LifeConstants.MooreHasEight | HW1/assign-1-game-of-life/src/life-constants.h:19-21 | the Moore neighbourhood has exactly dirLen = 8 offsets, so the table misses none |
| LifeConstants.MooreIndex | HW1/assign-1-game-of-life/src/life-constants.h:20-21 | every Moore offset occurs in the table, at an index below dirLen |
| Grids.Grid.Set | HW1/assign-1-game-of-life/src/life.cpp:58 | writing one in-bounds cell changes that cell and no other, and keeps the size |
| Grids.Grid.Resize | HW1/assign-1-game-of-life/src/life.cpp:53 | resizing gives the requested size with every cell 0 |
| Grids.Grid.Fill | HW1/assign-1-game-of-life/src/life.cpp:54 | filling keeps the size and sets every cell to the value |
| Grids.Zeros | HW1/assign-1-game-of-life/src/life.cpp:130 | a freshly constructed row x col grid has that size and holds only zeros |
| Grids.SameGridIsEquality | HW1/assign-1-game-of-life/src/life.cpp:127-164 | cell-by-cell equality of two well-formed grids of the same size is equality of the grids, in both directions |
| Generation.Step | HW1/assign-1-game-of-life/src/life.cpp:127-164 | the next generation has the input's size, and each of its cells is NextCell of the input at that position: the rule applied to the cell's neighbour count and current value |
| Generation.NextGrid | HW1/assign-1-game-of-life/src/life.cpp:127-164 | the nested loops return exactly Step(grid): same size as the input, each cell given by the rule applied to its neighbour count; the input is a value and is left unchanged |
| Generation.LiveAmongFirst | HW1/assign-1-game-of-life/src/life.cpp:133-141 | the running count after k offsets is at most k |
| Generation.LiveNeighbors | HW1/assign-1-game-of-life/src/life.cpp:133-141 | a neighbour count never exceeds dirLen |
| Generation.Rule | HW1/assign-1-game-of-life/src/life.cpp:143-160 | the switch yields 0, 1 or the cell's own age, nothing else |
| Generation.NextCell | HW1/assign-1-game-of-life/src/life.cpp:143-160 | a cell's next value is 0, 1 or its current value |
| Generation.LiveWithinOnGrid | HW1/assign-1-game-of-life/src/life.cpp:137-139 | only positions on the grid are counted: the live count after k offsets is at most the number of those offsets that stay on the grid |
| Generation.OnGridCandidates | HW1/assign-1-game-of-life/src/life.cpp:134-137 | the number of offsets that stay on the grid is the clipped 3 x 3 window size less one, so the board does not wrap |
| Generation.NeighborCountBounds | HW1/assign-1-game-of-life/src/life.cpp:133-141 | a count lies in 0 .. 8, a corner cell counts at most 3 and an edge cell at most 5, and all 8 offsets stay on the grid exactly for interior cells |
| Generation.LiveNeighborsExpanded | HW1/assign-1-game-of-life/src/life.cpp:134-141 | the count is the sum over the eight neighbours of 1 for an on-grid cell with value > 0 |
| Generation.LiveNeighborsIsMooreCount | HW1/assign-1-game-of-life/src/life.cpp:133-141 | the loop's count equals the number of live cells in the Moore neighbourhood, an independent set-based definition |
| Generation.LiveReachedCount | HW1/assign-1-game-of-life/src/life.cpp:134-140 | after k offsets the running count equals the number of distinct live positions those offsets reach |
| Generation.StepIsB3S23 | HW1/assign-1-game-of-life/src/life.cpp:143-160 | a cell is live after the step if and only if it has 3 live neighbours, or 2 and is live now |
| Generation.StepAges | HW1/assign-1-game-of-life/src/life.cpp:143-160 | counts 0 and 1 give 0, count 2 keeps the cell's value (a dead cell stays dead), count 3 gives 1 even for an old cell, 4 or more give 0 |
| Generation.StepKeepsAgesWithin | HW1/assign-1-game-of-life/src/life.cpp:143-160 | ages are never incremented: if every value lies in 0 .. hi with hi >= 1, so does every value after the step |
| Generation.StepKeepsDrawableAges | HW1/assign-1-game-of-life/src/life.cpp:143-160 | values in 0 .. kMaxAge stay in 0 .. kMaxAge |
| Generation.LiveAmongFirstIsLocal | HW1/assign-1-game-of-life/src/life.cpp:135-138 | the running count reads only the 3 x 3 block of the input grid around the cell |
| Generation.NextCellIsLocal | HW1/assign-1-game-of-life/src/life.cpp:137-150 | a cell's next value depends only on the input grid's 3 x 3 block around it, never on cells already written |
| Generation.FixedPointStaysFixed | HW1/assign-1-game-of-life/src/life.cpp:127-164 | if the step leaves g unchanged, then stepping twice gives g again |
| StringToInt.SkipSpaces | HW1/assign-1-game-of-life/src/life.cpp:48 | what remains after skipping white space is no longer and does not start with white space |
| StringToInt.DigitRun | HW1/assign-1-game-of-life/src/life.cpp:48 | the digits stoi takes are a prefix made of digits that is followed by a non-digit or the end |
| StringToInt.StoI | HW1/assign-1-game-of-life/src/life.cpp:48-50 | a successful conversion lies in the 32-bit int range |
| StringToInt.Convert | HW1/assign-1-game-of-life/src/life.cpp:48-50 | a converted value lies in the 32-bit int range |
| StringToInt.Decimal | HW1/assign-1-game-of-life/src/life.cpp:48-50 | the decimal numeral of n is a non-empty string of digits |
| StringToInt.ValueOfDecimal | HW1/assign-1-game-of-life/src/life.cpp:48-50 | reading back the decimal numeral of n gives n |
| StringToInt.DigitRunOfDigits | HW1/assign-1-game-of-life/src/life.cpp:48-50 | stoi stops at the first non-digit after a run of digits |
| StringToInt.StoIOfDigits | HW1/assign-1-game-of-life/src/life.cpp:48-50 | a digit run followed by a non-digit converts to its value, or raises out_of_range above INT_MAX |
| StringToInt.StoIOfNegativeDigits | HW1/assign-1-game-of-life/src/life.cpp:48-50 | after a minus sign the run converts to its negated value, or raises out_of_range below INT_MIN |
| StringToInt.StoIOfNumeral | HW1/assign-1-game-of-life/src/life.cpp:48-50 | the numeral of n followed by any non-digit text converts to n within range and raises out_of_range beyond it, and with a minus sign converts to -n |
| StringToInt.StoISkipsSpaces | HW1/assign-1-game-of-life/src/life.cpp:48-50 | stoi gives the same result once leading white space is removed |
| StringToInt.StoIAfterSpace | HW1/assign-1-game-of-life/src/life.cpp:48-50 | one white-space character before a line leaves its result unchanged |
| StringToInt.StoIAfterPlus | HW1/assign-1-game-of-life/src/life.cpp:48-50 | a '+' in front of a line not starting with white space or a sign is accepted and leaves the result unchanged |
| StringToInt.StoIRejectsNonNumeric | HW1/assign-1-game-of-life/src/life.cpp:48-50 | a line that starts with no space, sign or digit, the empty line included, raises invalid_argument |
| ColonyFile.PaintFrom | HW1/assign-1-game-of-life/src/life.cpp:56-60 | painting a line keeps the grid's size, and a grid of 0s and 1s stays one |
| ColonyFile.Feed | HW1/assign-1-game-of-life/src/life.cpp:44-62 | one loop iteration keeps the grid well-formed; before any grid row is read, it either leaves the grid untouched or reads the first grid row and leaves only 0s and 1s; once grid rows are read, it keeps every cell 0 or 1 |
| ColonyFile.IsComment | HW1/assign-1-game-of-life/src/life.cpp:45 | a comment has '#' as its very first character; an empty line and a line starting with white space are not comments |
| ColonyFile.Run | HW1/assign-1-game-of-life/src/life.cpp:44-63 | the loop over the remaining lines keeps the grid well-formed; starting before any grid row, it ends with the grid untouched and no grid row read, or with grid rows read and every cell 0 or 1; a grid of 0s and 1s stays one |
| ColonyFile.ParseColony | HW1/assign-1-game-of-life/src/life.cpp:40-64 | a successful reading leaves either the caller's grid untouched (no grid row read) or a well-formed grid of 0s and 1s |
| ColonyFile.InitFileGrid | HW1/assign-1-game-of-life/src/life.cpp:40-64 | the while loop's final grid or exception is exactly ParseColony(grid, lines) |
| ColonyFile.Payload | HW1/assign-1-game-of-life/src/life.cpp:45-46 | the lines the loop acts on are no more than the file's and contain no comment |
| ColonyFile.CommentsIgnored | HW1/assign-1-game-of-life/src/life.cpp:45-46 | lines whose first character is '#' do not affect the reading at all |
| ColonyFile.PaintMeaning | HW1/assign-1-game-of-life/src/life.cpp:56-60 | a grid row line succeeds exactly when all its 'X's fall on the grid; it then sets those cells of row rIndex to 1 and leaves every other cell alone; otherwise it raises at the first 'X' off the grid |
| ColonyFile.GridRowsMeaning | HW1/assign-1-game-of-life/src/life.cpp:52-61 | reading grid row lines succeeds exactly when every 'X' fits, and the grid then has row x col cells, 1 exactly at the 'X's; otherwise the error names an 'X' outside the grid |
| ColonyFile.RowHeaderRead | HW1/assign-1-game-of-life/src/life.cpp:47-48 | while the row count is 0, a non-comment line that stoi converts sets the row count and changes nothing else |
| ColonyFile.ColHeaderRead | HW1/assign-1-game-of-life/src/life.cpp:49-50 | once the row count is non-zero and the column count is 0, a non-comment line that stoi converts sets the column count and changes nothing else |
| ColonyFile.HeadersRead | HW1/assign-1-game-of-life/src/life.cpp:45-50 | the first two non-comment lines set row and then col, and the reading goes on from the grid rows |
| ColonyFile.ParseWellFormed | HW1/assign-1-game-of-life/src/life.cpp:45-61 | with non-zero headers: no grid row means the grid is returned unresized; a negative size raises; otherwise the reading succeeds exactly when every 'X' fits, the result is row x col with 1 exactly at the 'X's, and an error names an 'X' outside |
| ColonyFile.DepictedGridsAgree | HW1/assign-1-game-of-life/src/life.cpp:52-61 | two grids of the same size that both show the same grid rows are equal, so the file decides the grid |
| ColonyFile.HeadersMustConvert | HW1/assign-1-game-of-life/src/life.cpp:47-50 | a header line stoi rejects ends the reading with that exception, for the row line and for the column line |
| ColonyFile.ZeroHeaderIsReread | HW1/assign-1-game-of-life/src/life.cpp:47-50 | a header that reads 0 is as if absent: the next line is read as the same header |
| ColonyFile.PayloadOfCommentFree | HW1/assign-1-game-of-life/src/life.cpp:45-46 | a file without comments is acted on line for line |
| RandomColony.RandomGrid | HW1/assign-1-game-of-life/src/life.cpp:74-83 | the colony of the draws has the drawn size |
| RandomColony.Populate | HW1/assign-1-game-of-life/src/life.cpp:75-83 | the cell loop gives each cell its drawn age if its coin came up and 0 otherwise |
| RandomColony.InitRandomGrid | HW1/assign-1-game-of-life/src/life.cpp:71-84 | as written: sizes in 40 .. 61, a cell is 0 exactly when its coin came down, and ages lie in 0 .. kMaxAge + 1 |
| RandomColony.AsWrittenExceedsIntended | HW1/assign-1-game-of-life/src/life.cpp:72-78 | draws the code allows give a 61 x 61 grid whose cells have age kMaxAge + 1 |
| RandomColony.InitRandomGridCorrected | HW1/assign-1-game-of-life/src/life.cpp:71-84 | with the intended bounds: sizes in 40 .. 60, a cell is 0 exactly when its coin came down, and ages lie in 0 .. kMaxAge |
| Scenarios.LoneCellDies | HW1/assign-1-game-of-life/src/life.cpp:143-147 | a single live cell dies of isolation |
| Scenarios.TrominoCompletesBlock | HW1/assign-1-game-of-life/src/life.cpp:143-160 | an L of three cells gives birth to the fourth cell of a block |
| Scenarios.BlockIsStable | HW1/assign-1-game-of-life/src/life.cpp:143-160 | a 2 x 2 block of age-1 cells is a still life |
| Scenarios.OldBlockIsReset | HW1/assign-1-game-of-life/src/life.cpp:153-155 | a block of older cells is not stable: each of its cells has 3 neighbours and is reset to age 1 |
| Scenarios.StoIOfSignedPadded | HW1/assign-1-game-of-life/src/life.cpp:48 | stoi reads " +12abc" as 12 |
| Scenarios.RowPastLastWithoutXIsIgnored | HW1/assign-1-game-of-life/src/life.cpp:52-61 | a 1 x 1 file with a second grid row ".." reads to the single live cell: the surplus row holds no 'X' and writes nothing |
| Scenarios.PlusColonyFile | HW1/assign-1-game-of-life/src/life.cpp:40-64 | a commented 3 x 3 file with a plus of 'X's reads to exactly the plus-shaped grid |
| Scenarios.FileColoniesNeverAge | HW1/assign-1-game-of-life/src/life.cpp:52-61 | a colony read from a file holds only 0 and 1, and so does its next generation |

## Left out

- `welcome`, `init`, `main` and `drawGrid`, at life.cpp:24-33, 91-124 and 171-183:
  - prompting, opening the file and retrying;
  - drawing through the graphics class, which is not part of this model.
- Reading the stream: `InitFileGrid` takes the file already split into lines. Line endings and a
  possible trailing carriage return are not modelled.
- The Stanford `Grid`, `stoi` and random-number libraries are not part of this model. They are
  stated from their documented behaviour:
  - `Grid` is a value with checked indexing;
  - `resize` rejects negative sizes and clears the grid;
  - `stoi` is base-10 `strtol` with the `int` range check;
  - `randomInteger(low, high)` includes both ends.
- 32-bit arithmetic: the model counts with unbounded integers.
  - `rIndex` could only overflow after 2^31 grid row lines.
  - The neighbour count stays within 0 .. 8.
- InitFileGrid: when an exception is raised, the model returns Err and does not model the half-filled
  grid the caller's reference would still hold. The exception ends the program anyway.
- Only a line whose first character is `#` is a comment (life.cpp:45). An empty line, whose first
  character is the terminating NUL, and an indented line such as `  # note` are read as a header
  or as a grid row.
- Each grid row line is read to its full length, not to `col` (life.cpp:56-59):
  - an `X` beyond the last column, or on a line beyond the last row, raises OutOfBounds;
  - a line past the last row without an `X` is read and ignored;
  - a file with fewer grid rows than `row` is accepted, and the missing rows stay 0.
- Characters: each `char` of a line stands for one byte of the file, the unit that `line[c]` indexes.
  A character that takes several bytes in the file is therefore several columns to the program,
  while the model, given it as one `char`, counts it once.
- No stabilisation loop: the program draws the first generation once and returns. `IsStable` is only
  the structural comparison and `FixedPointStaysFixed` what follows from it.
- InitRandomGrid: the draws `randomInteger` and `randomBool` are parameters, so the model does not
  capture their distribution.

## Findings

| source | as written | input that shows it | evidently intended | confidence | as-written member | corrected member |
|---|---|---|---|---|---|---|
| HW1/assign-1-game-of-life/src/life.cpp:72-78 | `randomInteger(40, 60+1)` and `randomInteger(1, kMaxAge+1)`, written as if the upper bound were exclusive; the library includes it | draws 61 for both sizes and kMaxAge + 1 = 13 for an age | sizes in 40 .. 60 and ages in 1 .. kMaxAge | medium; not executed | RandomColony.AsWrittenExceedsIntended | RandomColony.InitRandomGridCorrected |
