/** One generation of the Game of Life: the birth/survival rule, the colour
    each cell is drawn with, and the born/died tallies of a step. */
module Generation {
  import opened Cells

  /** The colour a cell is tagged with for drawing. */
  datatype Colour = Green | Red

  /** The next state of one cell, from its own state and its live-neighbour
      count: a live cell with fewer than two or more than three live
      neighbours dies, a dead cell with exactly three comes alive, every
      other cell keeps its state. */
  function NextState(alive: bool, n: int): bool
  {
    if alive then !(n < 2 || n > 3) else n == 3
  }

  /** A cell is drawn green when it has two or three live neighbours and red
      otherwise; its own state plays no part. */
  function ColourOf(n: int): Colour
  {
    if n == 2 || n == 3 then Green else Red
  }

  /** The next state of every cell of g: the rule applied to the cell's
      state and its count in g. */
  function NextCells(g: seq<bool>, rows: int, columns: int): (int, int) -> bool
    requires ValidGrid(g, rows, columns)
  {
    (x, y) => NextState(LiveAt(g, rows, columns, x, y), NeighbourCount(g, rows, columns, x, y))
  }

  /** The colour of every cell of g, from its count in g. */
  function ColourCells(g: seq<bool>, rows: int, columns: int): (int, int) -> Colour
    requires ValidGrid(g, rows, columns)
  {
    (x, y) => ColourOf(NeighbourCount(g, rows, columns, x, y))
  }

  /** The next grid, laid out like g: every count is taken on g alone, so
      the result does not depend on the order the cells are visited in. */
  function NextGrid(g: seq<bool>, rows: int, columns: int): (r: seq<bool>)
    requires ValidGrid(g, rows, columns)
    ensures ValidGrid(r, rows, columns)
  {
    Rows(NextCells(g, rows, columns), columns, rows)
  }

  /** The colour of every cell, laid out like g. */
  function ColourGrid(g: seq<bool>, rows: int, columns: int): (r: seq<Colour>)
    requires ValidGrid(g, rows, columns)
    ensures |r| == |g|
  {
    Rows(ColourCells(g, rows, columns), columns, rows)
  }

  /** The cell in column x, row y of the next grid follows the rule applied
      to that same cell's state and count in the current grid: it is alive
      exactly when it was alive with 2 or 3 live neighbours, or dead with
      exactly 3. */
  lemma NextGridAt(g: seq<bool>, rows: int, columns: int, x: int, y: int)
    requires ValidGrid(g, rows, columns) && InGrid(rows, columns, x, y)
    ensures 0 <= Index(columns, x, y) < |g|
    ensures var i, n := Index(columns, x, y), NeighbourCount(g, rows, columns, x, y);
      NextGrid(g, rows, columns)[i] <==> (g[i] && (n == 2 || n == 3)) || (!g[i] && n == 3)
  {
    IndexInRange(rows, columns, x, y);
    assert GetCell(g, rows, columns, x, y) == g[Index(columns, x, y)];
    assert LiveAt(g, rows, columns, x, y) == g[Index(columns, x, y)];
    RowsAt(NextCells(g, rows, columns), columns, rows, x, y);
    assert NextGrid(g, rows, columns) == Rows(NextCells(g, rows, columns), columns, rows);
    assert NextCells(g, rows, columns)(x, y) == NextState(g[Index(columns, x, y)], NeighbourCount(g, rows, columns, x, y));
  }

  /** The cell in column x, row y is green exactly when it has 2 or 3 live
      neighbours in the current grid, whether it is alive or dead. */
  lemma ColourAt(g: seq<bool>, rows: int, columns: int, x: int, y: int)
    requires ValidGrid(g, rows, columns) && InGrid(rows, columns, x, y)
    ensures 0 <= Index(columns, x, y) < |g|
    ensures var n := NeighbourCount(g, rows, columns, x, y);
      ColourGrid(g, rows, columns)[Index(columns, x, y)] == Green <==> n == 2 || n == 3
  {
    IndexInRange(rows, columns, x, y);
    RowsAt(ColourCells(g, rows, columns), columns, rows, x, y);
    assert ColourGrid(g, rows, columns) == Rows(ColourCells(g, rows, columns), columns, rows);
  }

  /** The colour foretells the cell's fate: every cell alive in the next
      grid is green now, and a live green cell stays alive. */
  lemma ColourForetellsFate(g: seq<bool>, rows: int, columns: int, x: int, y: int)
    requires ValidGrid(g, rows, columns) && InGrid(rows, columns, x, y)
    ensures 0 <= Index(columns, x, y) < |g|
    ensures var i := Index(columns, x, y);
      && (NextGrid(g, rows, columns)[i] ==> ColourGrid(g, rows, columns)[i] == Green)
      && (g[i] && ColourGrid(g, rows, columns)[i] == Green ==> NextGrid(g, rows, columns)[i])
  {
    NextGridAt(g, rows, columns, x, y);
    ColourAt(g, rows, columns, x, y);
  }

  /** h is laid out like g and holds, for every cell, the rule applied to
      that cell's state and count in g. */
  ghost predicate IsNext(g: seq<bool>, rows: int, columns: int, h: seq<bool>)
    requires ValidGrid(g, rows, columns)
  {
    && |h| == |g|
    && forall x, y {:trigger h[Index(columns, x, y)]} :: InGrid(rows, columns, x, y) ==>
         0 <= Index(columns, x, y) < |g| && h[Index(columns, x, y)] == NextState(g[Index(columns, x, y)], NeighbourCount(g, rows, columns, x, y))
  }

  /** c is laid out like g and holds, for every cell, the colour of its count
      in g. */
  ghost predicate IsColouring(g: seq<bool>, rows: int, columns: int, c: seq<Colour>)
    requires ValidGrid(g, rows, columns)
  {
    && |c| == |g|
    && forall x, y {:trigger c[Index(columns, x, y)]} :: InGrid(rows, columns, x, y) ==>
         0 <= Index(columns, x, y) < |g| && c[Index(columns, x, y)] == ColourOf(NeighbourCount(g, rows, columns, x, y))
  }

  /** The next grid is the one grid that follows the rule at every cell. */
  lemma NextGridIsNext(g: seq<bool>, rows: int, columns: int, h: seq<bool>)
    requires ValidGrid(g, rows, columns)
    ensures IsNext(g, rows, columns, h) <==> h == NextGrid(g, rows, columns)
  {
    forall x, y | InGrid(rows, columns, x, y)
      ensures 0 <= Index(columns, x, y) < |g|
      ensures NextGrid(g, rows, columns)[Index(columns, x, y)] == NextState(g[Index(columns, x, y)], NeighbourCount(g, rows, columns, x, y))
    {
      NextGridAt(g, rows, columns, x, y);
    }
    if IsNext(g, rows, columns, h) {
      forall i | 0 <= i < |g|
        ensures h[i] == NextGrid(g, rows, columns)[i]
      {
        PositionCoords(rows, columns, i);
      }
    }
  }

  /** The colour grid is the one colouring that tags every cell by its count. */
  lemma ColourGridIsColouring(g: seq<bool>, rows: int, columns: int, c: seq<Colour>)
    requires ValidGrid(g, rows, columns)
    ensures IsColouring(g, rows, columns, c) <==> c == ColourGrid(g, rows, columns)
  {
    forall x, y | InGrid(rows, columns, x, y)
      ensures 0 <= Index(columns, x, y) < |g|
      ensures ColourGrid(g, rows, columns)[Index(columns, x, y)] == ColourOf(NeighbourCount(g, rows, columns, x, y))
    {
      ColourAt(g, rows, columns, x, y);
    }
    if IsColouring(g, rows, columns, c) {
      forall i | 0 <= i < |g|
        ensures c[i] == ColourGrid(g, rows, columns)[i]
      {
        PositionCoords(rows, columns, i);
      }
    }
  }

  /** The next grid and the colour grid of g, as grids that follow the rule
      and the colouring at every cell. */
  lemma NextAndColours(g: seq<bool>, rows: int, columns: int) returns (next: seq<bool>, tint: seq<Colour>)
    requires ValidGrid(g, rows, columns)
    ensures IsNext(g, rows, columns, next) && IsColouring(g, rows, columns, tint)
  {
    next, tint := NextGrid(g, rows, columns), ColourGrid(g, rows, columns);
    NextGridIsNext(g, rows, columns, next);
    ColourGridIsColouring(g, rows, columns, tint);
  }

  /** The births and deaths when the first |b| cells of grid a are followed
      by b: cells dead in a and alive in b, and cells alive in a and dead
      in b. */
  function Changes(a: seq<bool>, b: seq<bool>): (nat, nat)
    requires |b| <= |a|
    decreases |b|
  {
    if b == [] then (0, 0)
    else
      var k := |b| - 1;
      var (born, died) := Changes(a, b[..k]);
      (born + (if !a[k] && b[k] then 1 else 0), died + (if a[k] && !b[k] then 1 else 0))
  }

  /** Cells that were dead in a and are alive in b. */
  function Births(a: seq<bool>, b: seq<bool>): nat
    requires |a| == |b|
  {
    Changes(a, b).0
  }

  /** Cells that were alive in a and are dead in b. */
  function Deaths(a: seq<bool>, b: seq<bool>): nat
    requires |a| == |b|
  {
    Changes(a, b).1
  }

  /** The cells whose state differs between a and b. */
  function Changed(a: seq<bool>, b: seq<bool>): set<int>
    requires |a| == |b|
  {
    set i | 0 <= i < |a| && a[i] != b[i]
  }

  /** Among the first |b| cells, those that were `alive` in a and are not
      in b. */
  function Flips(a: seq<bool>, b: seq<bool>, alive: bool): set<int>
    requires |b| <= |a|
  {
    set i | 0 <= i < |b| && a[i] == alive && b[i] != alive
  }

  // The last cell of b joins the flips exactly when it flipped.
  lemma FlipsStep(a: seq<bool>, b: seq<bool>, alive: bool)
    requires 0 < |b| <= |a|
    ensures var k := |b| - 1;
      |Flips(a, b, alive)| == |Flips(a, b[..k], alive)| + (if a[k] == alive && b[k] != alive then 1 else 0)
  {
    var k := |b| - 1;
    if a[k] == alive && b[k] != alive {
      assert Flips(a, b, alive) == Flips(a, b[..k], alive) + {k};
    } else {
      assert Flips(a, b, alive) == Flips(a, b[..k], alive);
    }
  }

  /** Among the first |b| cells, the births are the cells that go from
      dead to alive and the deaths those that go from alive to dead. */
  lemma {:induction false} ChangesCount(a: seq<bool>, b: seq<bool>)
    requires |b| <= |a|
    ensures Changes(a, b).0 == |Flips(a, b, false)|
    ensures Changes(a, b).1 == |Flips(a, b, true)|
    decreases |b|
  {
    if b != [] {
      ChangesCount(a, b[..|b| - 1]);
      FlipsStep(a, b, false);
      FlipsStep(a, b, true);
    }
  }

  /** born + died is the number of cells whose state changed; it is zero
      exactly when the step left the grid as it was. */
  lemma BirthsPlusDeaths(a: seq<bool>, b: seq<bool>)
    requires |a| == |b|
    ensures Births(a, b) == |set i | 0 <= i < |a| && !a[i] && b[i]|
    ensures Deaths(a, b) == |set i | 0 <= i < |a| && a[i] && !b[i]|
    ensures Births(a, b) + Deaths(a, b) == |Changed(a, b)|
    ensures Births(a, b) + Deaths(a, b) == 0 <==> a == b
    ensures Births(a, b) + Deaths(a, b) <= |a|
  {
    ChangesCount(a, b);
    ChangesBound(a, b);
    var born := set i | 0 <= i < |a| && !a[i] && b[i];
    var died := set i | 0 <= i < |a| && a[i] && !b[i];
    assert Flips(a, b, false) == born;
    assert Flips(a, b, true) == died;
    assert Changed(a, b) == born + died;
    assert born * died == {};
    if a != b {
      var i :| 0 <= i < |a| && a[i] != b[i];
      assert i in Changed(a, b);
    }
  }

  // Each cell is at most one birth or one death, so the first |b| cells
  // tally at most |b| changes.
  lemma {:induction false} ChangesBound(a: seq<bool>, b: seq<bool>)
    requires |b| <= |a|
    ensures Changes(a, b).0 + Changes(a, b).1 <= |b|
    decreases |b|
  {
    if b != [] {
      ChangesBound(a, b[..|b| - 1]);
    }
  }

  // One more cell extends the tallies by its own change.
  lemma ChangesPrefixStep(a: seq<bool>, b: seq<bool>, k: int)
    requires |a| == |b| && 0 <= k < |a|
    ensures Changes(a, b[..k + 1])
         == (Changes(a, b[..k]).0 + (if !a[k] && b[k] then 1 else 0), Changes(a, b[..k]).1 + (if a[k] && !b[k] then 1 else 0))
  {
    assert b[..k + 1][..k] == b[..k];
  }
}
