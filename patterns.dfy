/** Boards whose next generation is known: the empty board, a lone cell and
    the 2 x 2 block, a still life. */
module Patterns {
  import opened Cells
  import opened Generation

  /** A rows x columns board with every cell dead. */
  function Empty(rows: int, columns: int): (g: seq<bool>)
    requires rows > 0 && columns > 0
    ensures ValidGrid(g, rows, columns)
    ensures forall i :: 0 <= i < |g| ==> !g[i]
  {
    RowStartMonotone(columns, 0, rows);
    seq(RowStart(columns, rows), _ => false)
  }

  /** A rows x columns board whose only live cell is (x, y). */
  function Lone(rows: int, columns: int, x: int, y: int): (g: seq<bool>)
    requires InGrid(rows, columns, x, y)
    ensures ValidGrid(g, rows, columns)
    ensures forall i :: 0 <= i < |g| ==> (g[i] <==> i == Index(columns, x, y))
  {
    RowStartMonotone(columns, 0, rows);
    seq(RowStart(columns, rows), i => i == Index(columns, x, y))
  }

  /** Whether (x, y) is one of the four cells of the 2 x 2 square whose
      top-left cell is (left, top). */
  predicate InSquare(left: int, top: int, x: int, y: int)
  {
    left <= x <= left + 1 && top <= y <= top + 1
  }

  /** A rows x columns board whose live cells are exactly the 2 x 2 block
      with top-left cell (left, top). */
  function Block(rows: int, columns: int, left: int, top: int): (g: seq<bool>)
    requires InGrid(rows, columns, left, top) && InGrid(rows, columns, left + 1, top + 1)
    ensures ValidGrid(g, rows, columns)
  {
    Rows((x, y) => InSquare(left, top, x, y), columns, rows)
  }

  /** On an empty board no cell has a live neighbour, so nothing is born:
      the board stays empty and the update tallies no births and no deaths. */
  lemma EmptyStaysEmpty(rows: int, columns: int)
    requires rows > 0 && columns > 0
    ensures NextGrid(Empty(rows, columns), rows, columns) == Empty(rows, columns)
    ensures Births(Empty(rows, columns), NextGrid(Empty(rows, columns), rows, columns)) == 0
    ensures Deaths(Empty(rows, columns), NextGrid(Empty(rows, columns), rows, columns)) == 0
  {
    var g := Empty(rows, columns);
    forall x, y | InGrid(rows, columns, x, y)
      ensures 0 <= Index(columns, x, y) < |g|
      ensures g[Index(columns, x, y)] == NextState(g[Index(columns, x, y)], NeighbourCount(g, rows, columns, x, y))
    {
      IndexInRange(rows, columns, x, y);
      forall d | d in Moore
        ensures !LiveAtOffset(g, rows, columns, x, y, d)
      {
        if InGrid(rows, columns, x + d.0, y + d.1) {
          IndexInRange(rows, columns, x + d.0, y + d.1);
        }
      }
      assert LiveNeighbours(g, rows, columns, x, y) == {};
    }
    NextGridIsNext(g, rows, columns, g);
    BirthsPlusDeaths(g, g);
  }

  /** A lone live cell dies of underpopulation and no cell comes alive next
      to it: one step later the board is empty. */
  lemma LoneCellDies(rows: int, columns: int, x: int, y: int)
    requires InGrid(rows, columns, x, y)
    ensures NextGrid(Lone(rows, columns, x, y), rows, columns) == Empty(rows, columns)
  {
    var g, e := Lone(rows, columns, x, y), Empty(rows, columns);
    forall cx, cy | InGrid(rows, columns, cx, cy)
      ensures 0 <= Index(columns, cx, cy) < |g|
      ensures e[Index(columns, cx, cy)] == NextState(g[Index(columns, cx, cy)], NeighbourCount(g, rows, columns, cx, cy))
    {
      IndexInRange(rows, columns, cx, cy);
      var live := LiveNeighbours(g, rows, columns, cx, cy);
      // The only offset that can reach a live cell is the one to (x, y).
      forall d | d in live
        ensures d == (x - cx, y - cy)
      {
        assert LiveAt(g, rows, columns, cx + d.0, cy + d.1);
        IndexInRange(rows, columns, cx + d.0, cy + d.1);
        IndexInjective(columns, cx + d.0, cy + d.1, x, y);
      }
      SubsetSize(live, {(x - cx, y - cy)});
      if cx == x && cy == y {
        assert live == {};
      }
    }
    NextGridIsNext(g, rows, columns, e);
  }

  // A cell of the block board is live exactly when it is in the block.
  lemma BlockLiveAt(rows: int, columns: int, left: int, top: int, x: int, y: int)
    requires InGrid(rows, columns, left, top) && InGrid(rows, columns, left + 1, top + 1)
    ensures LiveAt(Block(rows, columns, left, top), rows, columns, x, y) <==> InSquare(left, top, x, y)
  {
    if InGrid(rows, columns, x, y) {
      RowsAt((x, y) => InSquare(left, top, x, y), columns, rows, x, y);
    }
  }

  /** The block is a still life, wherever it lies on the board, edges and
      corners included: each of its cells has its three block neighbours
      and survives, and no cell outside it sees more than two of them, so
      nothing is born. The update then tallies no births and no deaths. */
  lemma BlockIsStill(rows: int, columns: int, left: int, top: int)
    requires InGrid(rows, columns, left, top) && InGrid(rows, columns, left + 1, top + 1)
    ensures NextGrid(Block(rows, columns, left, top), rows, columns) == Block(rows, columns, left, top)
    ensures Births(Block(rows, columns, left, top), NextGrid(Block(rows, columns, left, top), rows, columns)) == 0
    ensures Deaths(Block(rows, columns, left, top), NextGrid(Block(rows, columns, left, top), rows, columns)) == 0
  {
    var g := Block(rows, columns, left, top);
    forall x, y | InGrid(rows, columns, x, y)
      ensures 0 <= Index(columns, x, y) < |g|
      ensures g[Index(columns, x, y)] == NextState(g[Index(columns, x, y)], NeighbourCount(g, rows, columns, x, y))
    {
      BlockCell(rows, columns, left, top, x, y);
    }
    NextGridIsNext(g, rows, columns, g);
    BirthsPlusDeaths(g, g);
  }

  // The live neighbours of (x, y) are its neighbours inside the block.
  lemma BlockNeighbours(rows: int, columns: int, left: int, top: int, x: int, y: int)
    requires InGrid(rows, columns, left, top) && InGrid(rows, columns, left + 1, top + 1)
    ensures forall d :: d in LiveNeighbours(Block(rows, columns, left, top), rows, columns, x, y)
                    <==> d in Moore && InSquare(left, top, x + d.0, y + d.1)
  {
    forall d | d in Moore
      ensures LiveAtOffset(Block(rows, columns, left, top), rows, columns, x, y, d) <==> InSquare(left, top, x + d.0, y + d.1)
    {
      BlockLiveAt(rows, columns, left, top, x + d.0, y + d.1);
    }
  }

  // A cell of the block has the other three as its live neighbours.
  lemma BlockInsideCount(rows: int, columns: int, left: int, top: int, x: int, y: int)
    requires InGrid(rows, columns, left, top) && InGrid(rows, columns, left + 1, top + 1)
    requires InSquare(left, top, x, y)
    ensures NeighbourCount(Block(rows, columns, left, top), rows, columns, x, y) == 3
  {
    BlockNeighbours(rows, columns, left, top, x, y);
    var sx, sy := if x == left then 1 else -1, if y == top then 1 else -1;
    assert LiveNeighbours(Block(rows, columns, left, top), rows, columns, x, y) == {(sx, 0), (0, sy), (sx, sy)};
  }

  // A cell outside the block sees at most two of its cells: the block's
  // column (or row) nearest to it, if that is within reach.
  lemma BlockOutsideCount(rows: int, columns: int, left: int, top: int, x: int, y: int)
    requires InGrid(rows, columns, left, top) && InGrid(rows, columns, left + 1, top + 1)
    requires !InSquare(left, top, x, y)
    ensures NeighbourCount(Block(rows, columns, left, top), rows, columns, x, y) <= 2
  {
    BlockNeighbours(rows, columns, left, top, x, y);
    var live := LiveNeighbours(Block(rows, columns, left, top), rows, columns, x, y);
    if x < left || x > left + 1 {
      var cx := if x < left then left else left + 1;
      SubsetSize(live, {(cx - x, top - y), (cx - x, top + 1 - y)});
    } else {
      var cy := if y < top then top else top + 1;
      SubsetSize(live, {(left - x, cy - y), (left + 1 - x, cy - y)});
    }
  }

  // Each cell of the block board keeps its state.
  lemma BlockCell(rows: int, columns: int, left: int, top: int, x: int, y: int)
    requires InGrid(rows, columns, left, top) && InGrid(rows, columns, left + 1, top + 1)
    requires InGrid(rows, columns, x, y)
    ensures 0 <= Index(columns, x, y) < |Block(rows, columns, left, top)|
    ensures var g := Block(rows, columns, left, top);
      g[Index(columns, x, y)] == NextState(g[Index(columns, x, y)], NeighbourCount(g, rows, columns, x, y))
  {
    IndexInRange(rows, columns, x, y);
    BlockLiveAt(rows, columns, left, top, x, y);
    if InSquare(left, top, x, y) {
      BlockInsideCount(rows, columns, left, top, x, y);
    } else {
      BlockOutsideCount(rows, columns, left, top, x, y);
    }
  }
}
