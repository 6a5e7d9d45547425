# Game of Life board update, modelled in Dafny

The program is an SFML window that shows Conway's Game of Life. It runs on a
200 x 200 board of cells, and each cell is alive or dead. The board is one
flat vector of booleans stored row after row. The cell in column x and row y
sits at position `x + y * columnCount`.

On every frame in which the space bar was not pressed, the program advances
the board by one generation:

- it copies the board;
- for every cell, row by row, it counts the live cells among the eight
  neighbours. It skips the cell itself and every position off the board, so
  the board does not wrap around;
- it tags the cell Green when the count is 2 or 3 and Red otherwise;
- it writes the cell's next state into the copy. A live cell with fewer than
  two or more than three live neighbours dies, and a dead cell with exactly
  three comes alive. It also counts the births and deaths;
- finally it installs the copy as the new board.

The model has four modules:

- `Cells` (cells.dfy) covers the flat layout and `getCell`. It specifies the
  neighbour count `NeighbourCount` as the size of the set of live Moore
  neighbours. It contains `CountNeighbours`, the source's nested scan with
  its `continue`s, proved against that count, and the count's lemmas
  (explicit sum, bounds, locality).
- `Generation` (generation.dfy) holds the rule `NextState` and the colouring
  `ColourOf`. It defines the next board `NextGrid`, the colour board
  `ColourGrid` and the birth and death tallies. It also gives pointwise
  characterisations `IsNext` and `IsColouring`, and proves them equivalent to
  `NextGrid` and `ColourGrid`.
- `Board` (board.dfy) models the program's state as the class `Life`:
  - `cells` is replaced as a whole, as `cells = updatedCells` does;
  - `colors` is an array written cell by cell;
  - `Update` is the update branch, with its two nested loops. It is proved
    to produce the next generation, the colouring and the exact birth and
    death counts, all taken on the old board.
- `Patterns` (patterns.dfy) holds consequences of the rule on known boards:
  - the empty board stays empty;
  - a lone cell dies;
  - a 2 x 2 block is still, wherever it lies, corners included.

The board size is a parameter (`rows`, `columns` > 0). The program's 200 x 200
is kept as `RowCount` and `ColumnCount`.

## Model

| member | source | states |
|---|---|---|
| Cells.ProgramBoardSize | game-of-life/main.cpp:73-75 | The program's board has rowCount * columnCount = 40000 cells, and every flat position is below 40000, far inside a 32-bit int. |
| Cells.RowStartIsProduct | game-of-life/main.cpp:102-104 | The flat position of column x, row y is x + y * columnCount, as getCell computes it. |
| Cells.IndexInRange | game-of-life/main.cpp:102-104 | getCell reads inside the vector: each on-board cell's position is in [0, rows * columns). |
| Cells.IndexCoords | game-of-life/main.cpp:153 | The column and row come back from a cell's flat position by % and /. |
| Cells.IndexInjective | game-of-life/main.cpp:153 | Two cells share a flat position if and only if they are the same cell. |
| Cells.PositionCoords | game-of-life/main.cpp:149-153 | Every flat position of the board is the cellIndex of the visited cell (i % columns, i / columns), and of no other on-board cell. |
| Cells.CountNeighbours | game-of-life/main.cpp:106-128 | The nested dy/dx scan returns exactly the number of live cells among the eight neighbours. It skips the cell itself and positions off the board. |
| Cells.NeighbourCountBySum | game-of-life/main.cpp:106-128 | The count equals the sum, over the eight neighbour offsets, of 1 for each live on-board neighbour. |
| Cells.NeighbourCountBounds | game-of-life/main.cpp:106-128 | The count is between 0 and 8. It is at most 5 for a cell on an edge and at most 3 for a corner cell. |
| Cells.NeighbourCountIsLocal | game-of-life/main.cpp:112-120 | Changing a cell outside the 3 x 3 window, or the cell itself, leaves the count unchanged. So there is no wrap-around from one row's end to the next row's start. |
| Generation.NextGridAt | game-of-life/main.cpp:167-186 | In the next board, a cell is alive if and only if it was alive with 2 or 3 live neighbours, or was dead with exactly 3. |
| Generation.ColourAt | game-of-life/main.cpp:154-165 | A cell is Green if and only if its count is 2 or 3, whatever its state. Otherwise it is Red. |
| Generation.ColourForetellsFate | game-of-life/main.cpp:156-186 | Every cell alive next generation is Green now, and a live Green cell survives. |
| Generation.NextGridIsNext | game-of-life/main.cpp:147-194 | A board follows the rule at every cell, with counts taken on the old board, if and only if it is the next board. This makes the update synchronous. |
| Generation.ColourGridIsColouring | game-of-life/main.cpp:154-165 | A colouring tags every cell by its count on the old board if and only if it is the colour board. |
| Generation.ChangesCount | game-of-life/main.cpp:173-186 | The running born and died tallies are the numbers of dead-to-alive and alive-to-dead cells among those visited so far. |
| Generation.BirthsPlusDeaths | game-of-life/main.cpp:148 | born counts the cells dead before and alive after, and died the converse. born + died is the number of changed cells, so at most the number of cells, and it is 0 exactly when the board did not change. |
| Board.Life.constructor | game-of-life/main.cpp:89-100 | The board holds the given generation, and the colour vector has one entry per cell, each Red until the first update. |
| Board.Life.UpdateCell | game-of-life/main.cpp:153-186 | One pass of the inner loop. The cell's colour is set from its count and no other colour changes. The cell's next state is written into updatedCells. born or died goes up by one exactly when the cell is born or dies. |
| Board.Life.UpdateRow | game-of-life/main.cpp:151-188 | After row y, the positions up to the end of that row hold the next states and colours. The rest of updatedCells still holds the old board, the colours of later rows are untouched, and the tallies cover the positions visited. |
| Board.Life.Update | game-of-life/main.cpp:147-194 | The new board follows the rule at every cell, with counts taken on the old board. The colours are the count-based colouring of the old board. born and died are the exact birth and death counts. |
| Patterns.EmptyStaysEmpty | game-of-life/main.cpp:173-186 | An all-dead board stays all dead, and the step tallies no births and no deaths. |
| Patterns.LoneCellDies | game-of-life/main.cpp:173-186 | A board with a single live cell becomes empty. |
| Patterns.BlockIsStill | game-of-life/main.cpp:173-186 | A 2 x 2 block anywhere on the board is unchanged by a step, and the step tallies no births and no deaths. |

## Left out

- The SFML window, the event loop that reads Escape and Space (main.cpp:25-68) and the icon loading: these are I/O.
- Rendering (main.cpp:130-135, 196-213): drawing only reads the board and the colours.
- The reseed `generate` (main.cpp:92-98) and the space-bar branch of the update: they fill the board from `std::rand` seeded with the clock. The constructor takes the first generation as a parameter instead.
- The colours are pointers to `sf::Color` constants. They are modelled as the two-valued `Colour` datatype. The source's colour vector starts as null pointers, which only the renderer would read. The model starts every colour as Red.
- Board.Life.Update: born and died are locals in the source, and their only output is commented out. The model returns them, so their values can be stated.
- Board.Life.Update: `updatedCells` is a copied `std::vector<bool>`. The model keeps it as a `seq<bool>` value updated one position at a time. Reading the old board through `cells` while writing the copy is the same separation.
- Board.Life.UpdateRow and Board.Life.UpdateCell: the source's loop bodies are written out inline. The model factors them into these two methods without changing what they do.
- The board size is generalised from the 200 x 200 constants to any positive size. Cells.ProgramBoardSize shows that at 200 x 200 every index fits in a 32-bit `int`. The counts never exceed 8 (Cells.NeighbourCountBounds), and born + died is at most the number of cells (Generation.BirthsPlusDeaths). So the model's unbounded integers do not hide any overflow.
- The source's `countNeighbours` captures `cells` by reference. The model passes the current board as a parameter.
