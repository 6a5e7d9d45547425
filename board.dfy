/** The board the program keeps between frames and the update it runs on
    every frame in which the space bar was not pressed. */
module Board {
  import opened Cells
  import opened Generation

  class Life {
    const rows: int
    const columns: int
    /** The current generation, replaced as a whole at the end of each update. */
    var cells: seq<bool>
    /** The colour of every cell, overwritten cell by cell during an update. */
    const colors: array<Colour>

    ghost predicate Valid()
      reads this
    {
      ValidGrid(cells, rows, columns) && colors.Length == |cells|
    }

    /** A board holding the given first generation, every cell drawn red
        until the first update has coloured it. */
    constructor (rows: int, columns: int, initial: seq<bool>)
      requires ValidGrid(initial, rows, columns)
      ensures Valid() && fresh(colors)
      ensures forall i :: 0 <= i < colors.Length ==> colors[i] == Red
      ensures this.rows == rows && this.columns == columns && cells == initial
    {
      this.rows := rows;
      this.columns := columns;
      cells := initial;
      colors := new Colour[|initial|](_ => Red);
    }

    /** One pass of the update's inner loop: colours the cell in column x,
        row y by its neighbour count and returns updatedCells with that
        cell's next state written in; on entry updatedCells still holds the
        cell's current state. Adds 1 to the running born tally when a dead cell
        comes alive and 1 to died when a live cell dies. */
    method UpdateCell(updatedCells: seq<bool>, x: int, y: int, born0: int, died0: int) returns (updated: seq<bool>, born: int, died: int)
      requires Valid() && InGrid(rows, columns, x, y)
      requires |updatedCells| == |cells|
      requires 0 <= Index(columns, x, y) < |cells| && updatedCells[Index(columns, x, y)] == cells[Index(columns, x, y)]
      modifies colors
      ensures var i, n := Index(columns, x, y), NeighbourCount(cells, rows, columns, x, y);
        && updated == updatedCells[i := NextState(cells[i], n)]
        && colors[i] == ColourOf(n)
        && (forall j :: 0 <= j < colors.Length && j != i ==> colors[j] == old(colors[j]))
        && born == born0 + (if !cells[i] && NextState(cells[i], n) then 1 else 0)
        && died == died0 + (if cells[i] && !NextState(cells[i], n) then 1 else 0)
    {
      var cellIndex := Index(columns, x, y);
      var neighbourCount := CountNeighbours(cells, rows, columns, x, y);
      if neighbourCount == 2 || neighbourCount == 3 {
        colors[cellIndex] := Green;
      } else {
        colors[cellIndex] := Red;
      }

      updated, born, died := updatedCells, born0, died0;
      var isAlive := GetCell(cells, rows, columns, x, y);
      if isAlive {
        if neighbourCount < 2 || neighbourCount > 3 {
          updated := updated[cellIndex := false];
          died := died + 1;
        }
      } else {
        if neighbourCount == 3 {
          updated := updated[cellIndex := true];
          born := born + 1;
        }
      }
    }

    /** One pass of the update's outer loop: updates every cell of row y in
        turn, column by column. The rows above y are already done. */
    method UpdateRow(updatedCells: seq<bool>, y: int, ghost next: seq<bool>, ghost tint: seq<Colour>, born0: int, died0: int)
      returns (updated: seq<bool>, born: int, died: int)
      requires Valid() && 0 <= y < rows && |updatedCells| == |cells|
      requires IsNext(cells, rows, columns, next) && IsColouring(cells, rows, columns, tint)
      requires 0 <= RowStart(columns, y) && RowStart(columns, y + 1) <= |cells|
      requires forall i :: 0 <= i < RowStart(columns, y) ==> updatedCells[i] == next[i]
      requires forall i :: 0 <= i < RowStart(columns, y) ==> colors[i] == tint[i]
      requires forall i :: RowStart(columns, y) <= i < |cells| ==> updatedCells[i] == cells[i]
      requires (born0, died0) == Changes(cells, next[..RowStart(columns, y)])
      modifies colors
      ensures |updated| == |cells|
      ensures forall i :: 0 <= i < RowStart(columns, y + 1) ==> updated[i] == next[i]
      ensures forall i :: 0 <= i < RowStart(columns, y + 1) ==> colors[i] == tint[i]
      ensures forall i :: RowStart(columns, y + 1) <= i < colors.Length ==> colors[i] == old(colors[i])
      ensures forall i :: RowStart(columns, y + 1) <= i < |cells| ==> updated[i] == cells[i]
      ensures (born, died) == Changes(cells, next[..RowStart(columns, y + 1)])
    {
      updated, born, died := updatedCells, born0, died0;
      ghost var done := RowStart(columns, y);
      ghost var before := colors[..];
      for column := 0 to columns
        invariant done == Index(columns, column, y) && 0 <= done <= |cells|
        invariant |updated| == |cells|
        invariant forall i :: 0 <= i < done ==> updated[i] == next[i]
        invariant forall i :: 0 <= i < done ==> colors[i] == tint[i]
        invariant forall i :: done <= i < colors.Length ==> colors[i] == before[i]
        invariant forall i :: done <= i < |cells| ==> updated[i] == cells[i]
        invariant (born, died) == Changes(cells, next[..done])
      {
        ChangesPrefixStep(cells, next, done);
        assert next[done] == NextState(cells[done], NeighbourCount(cells, rows, columns, column, y));
        updated, born, died := UpdateCell(updated, column, y, born, died);
        assert (born, died) == Changes(cells, next[..done + 1]);
        done := done + 1;
      }
      assert done == RowStart(columns, y + 1);
    }

    /** Computes the next generation into a copy of the grid, colouring every
        cell by its neighbour count and tallying the cells that were born and
        died, then installs the copy as the current generation. Every count is
        taken on the old generation. */
    method Update() returns (born: int, died: int)
      requires Valid()
      modifies this, colors
      ensures Valid()
      ensures IsNext(old(cells), rows, columns, cells)
      ensures IsColouring(old(cells), rows, columns, colors[..])
      ensures born == Births(old(cells), cells) && died == Deaths(old(cells), cells)
    {
      var updatedCells := cells;
      ghost var next, tint := NextAndColours(cells, rows, columns);
      born, died := 0, 0;
      for row := 0 to rows
        modifies colors
        invariant |updatedCells| == |cells|
        invariant 0 <= RowStart(columns, row) <= |cells|
        invariant forall i :: 0 <= i < RowStart(columns, row) ==> updatedCells[i] == next[i]
        invariant forall i :: 0 <= i < RowStart(columns, row) ==> colors[i] == tint[i]
        invariant forall i :: RowStart(columns, row) <= i < |cells| ==> updatedCells[i] == cells[i]
        invariant (born, died) == Changes(cells, next[..RowStart(columns, row)])
      {
        RowStartMonotone(columns, 0, row);
        RowStartMonotone(columns, row + 1, rows);
        updatedCells, born, died := UpdateRow(updatedCells, row, next, tint, born, died);
      }
      assert updatedCells == next;
      assert colors[..] == tint;
      assert next[..|next|] == next;
      cells := updatedCells;
    }
  }
}
