/** The cell grid of the Game of Life: a rows x columns field of alive/dead
    cells stored flat, row by row, and the count of live Moore neighbours. */
module Cells {

  /** The board size the program is built with. */
  const RowCount: nat := 200
  const ColumnCount: nat := 200

  /** A grid of `rows` rows of `columns` cells each, stored row after row:
      rows * columns cells in all (RowStartIsProduct). */
  predicate ValidGrid(g: seq<bool>, rows: int, columns: int)
  {
    rows > 0 && columns > 0 && |g| == RowStart(columns, rows)
  }

  /** Whether (x, y) names a cell: x is the column, y the row. */
  predicate InGrid(rows: int, columns: int, x: int, y: int)
  {
    0 <= x < columns && 0 <= y < rows
  }

  /** Flat position of the first cell of row y: the rows above it, each
      `columns` cells long, come first. */
  function RowStart(columns: int, y: int): int
    decreases if y < 0 then 0 else y
  {
    if y <= 0 then 0 else RowStart(columns, y - 1) + columns
  }

  /** Flat position of the cell in column x, row y. */
  function Index(columns: int, x: int, y: int): int
  {
    RowStart(columns, y) + x
  }

  /** Row y starts y * columns cells into the grid, so the flat position of
      column x, row y is x + y * columns. */
  lemma {:induction false} RowStartIsProduct(columns: int, y: int)
    requires 0 <= y
    ensures RowStart(columns, y) == y * columns
    ensures Index(columns, 0, y) == y * columns
    decreases y
  {
    if y > 0 {
      RowStartIsProduct(columns, y - 1);
      assert (y - 1) * columns + columns == y * columns;
    }
  }

  /** Every cell of the grid has its own flat position inside the grid. */
  lemma IndexInRange(rows: int, columns: int, x: int, y: int)
    requires InGrid(rows, columns, x, y)
    ensures 0 <= Index(columns, x, y) < RowStart(columns, rows)
  {
    RowStartMonotone(columns, 0, y);
    RowStartMonotone(columns, y + 1, rows);
  }

  // Later rows start further into the grid.
  lemma {:induction false} RowStartMonotone(columns: int, y1: int, y2: int)
    requires 0 <= columns && 0 <= y1 <= y2
    ensures RowStart(columns, y1) <= RowStart(columns, y2)
    decreases y2 - y1
  {
    if y1 < y2 {
      RowStartMonotone(columns, y1, y2 - 1);
    }
  }

  /** The column and row of a cell are recovered from its flat position,
      so two cells never share a position. */
  lemma IndexCoords(columns: int, x: int, y: int)
    requires 0 <= x < columns && 0 <= y
    ensures Index(columns, x, y) % columns == x
    ensures Index(columns, x, y) / columns == y
  {
    RowStartIsProduct(columns, y);
    var i := x + y * columns;
    var q, r := i / columns, i % columns;
    assert i == q * columns + r && 0 <= r < columns;
    assert (y - q) * columns == r - x by {
      assert (y - q) * columns == y * columns - q * columns;
    }
    MultipleBelowDivisor(y - q, columns, r - x);
  }

  // The only multiple of d strictly between -d and d is 0.
  lemma MultipleBelowDivisor(k: int, d: int, m: int)
    requires d > 0 && k * d == m && -d < m < d
    ensures k == 0
  {
  }

  /** Distinct cells have distinct flat positions. */
  lemma IndexInjective(columns: int, x1: int, y1: int, x2: int, y2: int)
    requires 0 <= x1 < columns && 0 <= y1
    requires 0 <= x2 < columns && 0 <= y2
    ensures Index(columns, x1, y1) == Index(columns, x2, y2) <==> x1 == x2 && y1 == y2
  {
    IndexCoords(columns, x1, y1);
    IndexCoords(columns, x2, y2);
  }

  // A position below rows * columns lies in one of the first `rows` rows.
  lemma QuotientBelow(i: int, columns: int, rows: int)
    requires columns > 0 && 0 <= i < rows * columns
    ensures 0 <= i / columns < rows
  {
    var q := i / columns;
    assert q * columns <= i < rows * columns;
    assert (rows - q) * columns > 0;
  }

  /** Every flat position of the grid is the position of exactly one cell:
      the one in column i % columns, row i / columns. */
  lemma PositionCoords(rows: int, columns: int, i: int)
    requires rows > 0 && columns > 0 && 0 <= i < RowStart(columns, rows)
    ensures InGrid(rows, columns, i % columns, i / columns)
    ensures Index(columns, i % columns, i / columns) == i
    ensures forall x, y :: InGrid(rows, columns, x, y) && Index(columns, x, y) == i ==> x == i % columns && y == i / columns
  {
    RowStartIsProduct(columns, rows);
    QuotientBelow(i, columns, rows);
    RowStartIsProduct(columns, i / columns);
    PositionOwner(rows, columns, i);
  }

  // Only the cell in column i % columns, row i / columns sits at position i.
  lemma PositionOwner(rows: int, columns: int, i: int)
    requires columns > 0
    ensures forall x, y :: InGrid(rows, columns, x, y) && Index(columns, x, y) == i ==> x == i % columns && y == i / columns
  {
    forall x, y | InGrid(rows, columns, x, y) && Index(columns, x, y) == i
      ensures x == i % columns && y == i / columns
    {
      IndexCoords(columns, x, y);
    }
  }

  /** The program's board holds rowCount * columnCount = 40000 cells, so the
      flat position x + y * columnCount of any of its cells fits comfortably
      in a 32-bit int. */
  lemma ProgramBoardSize(x: int, y: int)
    requires InGrid(RowCount, ColumnCount, x, y)
    ensures RowStart(ColumnCount, RowCount) == 40000
    ensures 0 <= Index(ColumnCount, x, y) < 40000 < 0x8000_0000
  {
    RowStartIsProduct(ColumnCount, RowCount);
    IndexInRange(RowCount, ColumnCount, x, y);
  }

  /** Cells 0 .. n-1 of row y, left to right, the value of each given by f. */
  function Row<T>(f: (int, int) -> T, y: int, n: int): (r: seq<T>)
    requires 0 <= n
    ensures |r| == n
    decreases n
  {
    if n == 0 then [] else Row(f, y, n - 1) + [f(n - 1, y)]
  }

  /** Cell x of row y holds f(x, y). */
  lemma {:induction false} RowAt<T>(f: (int, int) -> T, y: int, n: int, x: int)
    requires 0 <= x < n
    ensures Row(f, y, n)[x] == f(x, y)
    decreases n
  {
    if x < n - 1 {
      RowAt(f, y, n - 1, x);
    }
  }

  /** Rows 0 .. n-1 of a grid `columns` cells wide, laid out one after
      another, the value of each cell given by f. */
  function Rows<T>(f: (int, int) -> T, columns: int, n: int): (r: seq<T>)
    requires 0 <= columns && 0 <= n
    ensures |r| == RowStart(columns, n)
    decreases n
  {
    if n == 0 then [] else Rows(f, columns, n - 1) + Row(f, n - 1, columns)
  }

  /** The cell in column x, row y of the laid-out rows holds f(x, y). */
  lemma {:induction false} RowsAt<T>(f: (int, int) -> T, columns: int, n: int, x: int, y: int)
    requires 0 <= x < columns && 0 <= y < n
    ensures 0 <= Index(columns, x, y) < |Rows(f, columns, n)|
    ensures Rows(f, columns, n)[Index(columns, x, y)] == f(x, y)
    decreases n
  {
    RowStartMonotone(columns, 0, y);
    assert RowStart(columns, n) == RowStart(columns, n - 1) + columns;
    if y < n - 1 {
      RowsAt(f, columns, n - 1, x, y);
    } else {
      RowAt(f, y, columns, x);
    }
  }

  /** The state of the cell in column x, row y. */
  function GetCell(g: seq<bool>, rows: int, columns: int, x: int, y: int): bool
    requires ValidGrid(g, rows, columns) && InGrid(rows, columns, x, y)
  {
    IndexInRange(rows, columns, x, y);
    g[Index(columns, x, y)]
  }

  /** Whether (x, y) is a live cell of the grid; a position off the grid is
      never live (the board does not wrap around). */
  predicate LiveAt(g: seq<bool>, rows: int, columns: int, x: int, y: int)
    requires ValidGrid(g, rows, columns)
  {
    InGrid(rows, columns, x, y) && GetCell(g, rows, columns, x, y)
  }

  /** The offsets (dx, dy) of the eight Moore neighbours: dx and dy in
      {-1, 0, 1}, not both 0. */
  const Moore: set<(int, int)> :=
    {(-1, -1), (0, -1), (1, -1), (-1, 0), (1, 0), (-1, 1), (0, 1), (1, 1)}

  /** Whether the cell at offset d from (x, y) is live. */
  predicate LiveAtOffset(g: seq<bool>, rows: int, columns: int, x: int, y: int, d: (int, int))
    requires ValidGrid(g, rows, columns)
  {
    LiveAt(g, rows, columns, x + d.0, y + d.1)
  }

  /** The offsets of the live neighbours of (x, y). */
  function LiveNeighbours(g: seq<bool>, rows: int, columns: int, x: int, y: int): set<(int, int)>
    requires ValidGrid(g, rows, columns)
  {
    set d | d in Moore && LiveAtOffset(g, rows, columns, x, y, d)
  }

  /** The number of live neighbours of (x, y). */
  function NeighbourCount(g: seq<bool>, rows: int, columns: int, x: int, y: int): nat
    requires ValidGrid(g, rows, columns)
  {
    |LiveNeighbours(g, rows, columns, x, y)|
  }

  // Whether offset d comes before (dx, dy) when the window is scanned row by
  // row, left to right.
  predicate ScannedBefore(d: (int, int), dx: int, dy: int)
  {
    d.1 < dy || (d.1 == dy && d.0 < dx)
  }

  // The offsets of the live neighbours scanned before (dx, dy).
  function LiveScanned(g: seq<bool>, rows: int, columns: int, x: int, y: int, dx: int, dy: int): set<(int, int)>
    requires ValidGrid(g, rows, columns)
  {
    set d | d in LiveNeighbours(g, rows, columns, x, y) && ScannedBefore(d, dx, dy)
  }

  // Scanning offset (dx, dy) adds it to the scanned live neighbours exactly
  // when it is a neighbour, on the board and alive.
  lemma ScanStep(g: seq<bool>, rows: int, columns: int, x: int, y: int, dx: int, dy: int)
    requires ValidGrid(g, rows, columns)
    ensures LiveScanned(g, rows, columns, x, y, dx + 1, dy)
         == LiveScanned(g, rows, columns, x, y, dx, dy)
          + (if (dx, dy) in Moore && LiveAt(g, rows, columns, x + dx, y + dy) then {(dx, dy)} else {})
  {
    assert LiveAtOffset(g, rows, columns, x, y, (dx, dy)) == LiveAt(g, rows, columns, x + dx, y + dy);
  }

  // Past the end of a row of the window, the scan goes on with the next row;
  // past the last row it has seen every neighbour.
  lemma ScanRow(g: seq<bool>, rows: int, columns: int, x: int, y: int, dy: int)
    requires ValidGrid(g, rows, columns)
    ensures LiveScanned(g, rows, columns, x, y, 2, dy) == LiveScanned(g, rows, columns, x, y, -1, dy + 1)
    ensures LiveScanned(g, rows, columns, x, y, -1, 2) == LiveNeighbours(g, rows, columns, x, y)
  {
  }

  /** 1 for a live cell, 0 for a dead one. */
  function Bit(b: bool): nat
  {
    if b then 1 else 0
  }

  // Scanning a neighbour offset adds 1 to the scanned count exactly when
  // that neighbour is live.
  lemma ScanNeighbour(g: seq<bool>, rows: int, columns: int, x: int, y: int, dx: int, dy: int)
    requires ValidGrid(g, rows, columns) && (dx, dy) in Moore
    ensures |LiveScanned(g, rows, columns, x, y, dx + 1, dy)|
         == |LiveScanned(g, rows, columns, x, y, dx, dy)| + Bit(LiveAtOffset(g, rows, columns, x, y, (dx, dy)))
  {
    ScanStep(g, rows, columns, x, y, dx, dy);
  }

  // Scanning the cell itself adds nothing.
  lemma ScanSelf(g: seq<bool>, rows: int, columns: int, x: int, y: int)
    requires ValidGrid(g, rows, columns)
    ensures LiveScanned(g, rows, columns, x, y, 1, 0) == LiveScanned(g, rows, columns, x, y, 0, 0)
  {
    ScanStep(g, rows, columns, x, y, 0, 0);
  }

  // One step of the scan: the count grows by one exactly when (dx, dy) is
  // not the cell itself and names a live cell on the board.
  lemma ScanCell(g: seq<bool>, rows: int, columns: int, x: int, y: int, dx: int, dy: int)
    requires ValidGrid(g, rows, columns) && -1 <= dx <= 1 && -1 <= dy <= 1
    ensures |LiveScanned(g, rows, columns, x, y, dx + 1, dy)|
         == |LiveScanned(g, rows, columns, x, y, dx, dy)|
          + (if (dx == 0 && dy == 0) || !InGrid(rows, columns, x + dx, y + dy) then 0
             else Bit(GetCell(g, rows, columns, x + dx, y + dy)))
  {
    if dx == 0 && dy == 0 {
      ScanSelf(g, rows, columns, x, y);
    } else {
      assert (dx, dy) in Moore;
      ScanNeighbour(g, rows, columns, x, y, dx, dy);
    }
  }

  /** Counts the live neighbours of (x, y) by scanning the 3 x 3 window
      around it, skipping the cell itself and every position off the grid. */
  method CountNeighbours(cells: seq<bool>, rows: int, columns: int, x: int, y: int) returns (count: int)
    requires ValidGrid(cells, rows, columns)
    ensures count == NeighbourCount(cells, rows, columns, x, y)
  {
    count := 0;
    for dy := -1 to 2
      invariant count == |LiveScanned(cells, rows, columns, x, y, -1, dy)|
    {
      for dx := -1 to 2
        invariant count == |LiveScanned(cells, rows, columns, x, y, dx, dy)|
      {
        ScanCell(cells, rows, columns, x, y, dx, dy);
        if dx == 0 && dy == 0 {
          continue;
        }
        var nx, ny := x + dx, y + dy;
        if nx < 0 || nx >= columns || ny < 0 || ny >= rows {
          continue;
        }
        if GetCell(cells, rows, columns, nx, ny) {
          count := count + 1;
        }
      }
      ScanRow(cells, rows, columns, x, y, dy);
    }
    ScanRow(cells, rows, columns, x, y, 2);
  }

  // The row above (dy == -1) or below (dy == 1) adds its three live cells.
  lemma ScanOuterRow(g: seq<bool>, rows: int, columns: int, x: int, y: int, dy: int)
    requires ValidGrid(g, rows, columns) && (dy == -1 || dy == 1)
    ensures |LiveScanned(g, rows, columns, x, y, -1, dy + 1)|
         == |LiveScanned(g, rows, columns, x, y, -1, dy)| + Bit(LiveAtOffset(g, rows, columns, x, y, (-1, dy)))
          + Bit(LiveAtOffset(g, rows, columns, x, y, (0, dy))) + Bit(LiveAtOffset(g, rows, columns, x, y, (1, dy)))
  {
    ScanNeighbour(g, rows, columns, x, y, -1, dy);
    ScanNeighbour(g, rows, columns, x, y, 0, dy);
    ScanNeighbour(g, rows, columns, x, y, 1, dy);
    ScanRow(g, rows, columns, x, y, dy);
  }

  // The cell's own row adds its left and right neighbours.
  lemma ScanMiddleRow(g: seq<bool>, rows: int, columns: int, x: int, y: int)
    requires ValidGrid(g, rows, columns)
    ensures |LiveScanned(g, rows, columns, x, y, -1, 1)|
         == |LiveScanned(g, rows, columns, x, y, -1, 0)| + Bit(LiveAtOffset(g, rows, columns, x, y, (-1, 0)))
          + Bit(LiveAtOffset(g, rows, columns, x, y, (1, 0)))
  {
    ScanNeighbour(g, rows, columns, x, y, -1, 0);
    ScanSelf(g, rows, columns, x, y);
    ScanNeighbour(g, rows, columns, x, y, 1, 0);
    ScanRow(g, rows, columns, x, y, 0);
  }

  /** The count of (x, y) is the number of live cells among its eight
      neighbours, one term per neighbour. */
  lemma NeighbourCountBySum(g: seq<bool>, rows: int, columns: int, x: int, y: int)
    requires ValidGrid(g, rows, columns)
    ensures NeighbourCount(g, rows, columns, x, y)
         == Bit(LiveAtOffset(g, rows, columns, x, y, (-1, -1))) + Bit(LiveAtOffset(g, rows, columns, x, y, (0, -1)))
          + Bit(LiveAtOffset(g, rows, columns, x, y, (1, -1))) + Bit(LiveAtOffset(g, rows, columns, x, y, (-1, 0)))
          + Bit(LiveAtOffset(g, rows, columns, x, y, (1, 0))) + Bit(LiveAtOffset(g, rows, columns, x, y, (-1, 1)))
          + Bit(LiveAtOffset(g, rows, columns, x, y, (0, 1))) + Bit(LiveAtOffset(g, rows, columns, x, y, (1, 1)))
  {
    assert LiveScanned(g, rows, columns, x, y, -1, -1) == {};
    ScanOuterRow(g, rows, columns, x, y, -1);
    ScanMiddleRow(g, rows, columns, x, y);
    ScanOuterRow(g, rows, columns, x, y, 1);
    ScanRow(g, rows, columns, x, y, 2);
  }

  // A subset is no larger than the set that holds it.
  lemma SubsetSize<T>(a: set<T>, b: set<T>)
    requires a <= b
    ensures |a| <= |b|
  {
    assert b == a + (b - a);
    assert a * (b - a) == {};
  }

  /** A cell has at most 8 live neighbours, at most 5 on an edge of the
      board and at most 3 in a corner, since off-board positions count as
      dead. */
  lemma NeighbourCountBounds(g: seq<bool>, rows: int, columns: int, x: int, y: int)
    requires ValidGrid(g, rows, columns) && InGrid(rows, columns, x, y)
    ensures 0 <= NeighbourCount(g, rows, columns, x, y) <= 8
    ensures (x == 0 || x == columns - 1 || y == 0 || y == rows - 1) ==> NeighbourCount(g, rows, columns, x, y) <= 5
    ensures (x == 0 || x == columns - 1) && (y == 0 || y == rows - 1) ==> NeighbourCount(g, rows, columns, x, y) <= 3
  {
    var live := LiveNeighbours(g, rows, columns, x, y);
    SubsetSize(live, Moore);
    // Offsets whose column, resp. row, is on the board.
    var sx := if x == 0 then 1 else -1;
    var sy := if y == 0 then 1 else -1;
    if x == 0 || x == columns - 1 {
      SubsetSize(live, {(sx, -1), (sx, 0), (sx, 1), (0, -1), (0, 1)});
    }
    if y == 0 || y == rows - 1 {
      SubsetSize(live, {(-1, sy), (0, sy), (1, sy), (-1, 0), (1, 0)});
    }
    if (x == 0 || x == columns - 1) && (y == 0 || y == rows - 1) {
      SubsetSize(live, {(sx, sy), (sx, 0), (0, sy)});
    }
  }

  /** Changing one cell only changes LiveAt at that cell's own coordinates. */
  lemma LiveAtUpdate(g: seq<bool>, rows: int, columns: int, p: int, v: bool, x: int, y: int)
    requires ValidGrid(g, rows, columns) && 0 <= p < |g|
    requires x != p % columns || y != p / columns
    ensures ValidGrid(g[p := v], rows, columns)
    ensures LiveAt(g[p := v], rows, columns, x, y) == LiveAt(g, rows, columns, x, y)
  {
    if InGrid(rows, columns, x, y) {
      IndexInRange(rows, columns, x, y);
      var i := Index(columns, x, y);
      assert i != p by {
        PositionCoords(rows, columns, p);
        IndexInjective(columns, x, y, p % columns, p / columns);
      }
      assert g[p := v][i] == g[i];
    }
  }

  /** The count of (x, y) ignores every cell outside its 3 x 3 window and the
      cell (x, y) itself. In particular a cell on the left edge is not a
      neighbour of the cell on the right edge one row up, although their flat
      positions are adjacent: the board does not wrap around. */
  lemma NeighbourCountIsLocal(g: seq<bool>, rows: int, columns: int, x: int, y: int, p: int, v: bool)
    requires ValidGrid(g, rows, columns) && 0 <= p < |g|
    requires var px, py := p % columns, p / columns;
      (px == x && py == y) || px < x - 1 || px > x + 1 || py < y - 1 || py > y + 1
    ensures ValidGrid(g[p := v], rows, columns)
    ensures NeighbourCount(g[p := v], rows, columns, x, y) == NeighbourCount(g, rows, columns, x, y)
  {
    var h := g[p := v];
    assert ValidGrid(h, rows, columns);
    forall d | d in Moore
      ensures LiveAtOffset(h, rows, columns, x, y, d) == LiveAtOffset(g, rows, columns, x, y, d)
    {
      LiveAtUpdate(g, rows, columns, p, v, x + d.0, y + d.1);
    }
    assert LiveNeighbours(h, rows, columns, x, y) == LiveNeighbours(g, rows, columns, x, y);
  }
}
