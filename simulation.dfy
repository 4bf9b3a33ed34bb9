/** The script's simulation state and its two loops over the board: seeding
    the first generation and computing each following one. The dictionary
    `nextCells` that the script keeps at top level is the field of a `Game`;
    the random draws of the seeding loop are a parameter. */
module Simulation {
  import opened Torus
  import opened Generation

  /** The board size the script uses. */
  const Width: nat := 200
  const Height: nat := 30

  /** The script's 200 x 30 board is large enough that the eight inspected
      positions are distinct and never include the cell itself, so every
      count is the number of distinct live cells around the position. */
  lemma ScriptBoardCountsDistinctNeighbours(g: Grid, p: Coord)
    requires WellFormed(g, Width, Height) && InRange(Width, Height, p)
    ensures p !in Neighbourhood(Width, Height, p)
    ensures NeighbourCount(g, Width, Height, p) == |LiveAround(g, Width, Height, p)|
  {
    NeighbourhoodShape(Width, Height, p);
    NeighbourCountIsLiveAround(g, Width, Height, p);
  }

  /** The neighbour count of one cell, read from the snapshot `cells`: the
      wrapped coordinates of the adjacent columns and rows, then one test per
      surrounding position. Every lookup hits a key the board holds. */
  method CountNeighbours(cells: Grid, width: nat, height: nat, col: int, row: int)
    returns (neighbours: nat)
    requires WellFormed(cells, width, height) && InRange(width, height, (col, row))
    ensures neighbours == NeighbourCount(cells, width, height, (col, row))
  {
    var left := (col - 1) % width;
    var right := (col + 1) % width;
    var up := (row - 1) % height;
    var down := (row + 1) % height;

    ghost var ps := Neighbourhood(width, height, (col, row));
    WrapIsModulo(col - 1, width);
    WrapIsModulo(col + 1, width);
    WrapIsModulo(row - 1, height);
    WrapIsModulo(row + 1, height);
    assert ps == [(left, up), (col, up), (right, up), (left, row), (right, row), (left, down), (col, down), (right, down)];
    NeighbourCountUnrolled(cells, width, height, (col, row));

    neighbours := 0;
    if cells[(left, up)] == Alive {
      neighbours := neighbours + 1;
    }
    if cells[(col, up)] == Alive {
      neighbours := neighbours + 1;
    }
    if cells[(right, up)] == Alive {
      neighbours := neighbours + 1;
    }
    if cells[(left, row)] == Alive {
      neighbours := neighbours + 1;
    }
    assert neighbours == LiveAt(cells, ps[0]) + LiveAt(cells, ps[1]) + LiveAt(cells, ps[2]) + LiveAt(cells, ps[3]);
    if cells[(right, row)] == Alive {
      neighbours := neighbours + 1;
    }
    if cells[(left, down)] == Alive {
      neighbours := neighbours + 1;
    }
    if cells[(col, down)] == Alive {
      neighbours := neighbours + 1;
    }
    if cells[(right, down)] == Alive {
      neighbours := neighbours + 1;
    }
    assert neighbours == LiveAt(cells, ps[0]) + LiveAt(cells, ps[1]) + LiveAt(cells, ps[2]) + LiveAt(cells, ps[3]) + LiveAt(cells, ps[4]) + LiveAt(cells, ps[5]) + LiveAt(cells, ps[6]) + LiveAt(cells, ps[7]);
  }

  class Game {
    const width: nat
    const height: nat
    /** The generation being built, and between steps the current one. */
    var nextCells: Grid

    ghost predicate Valid()
      reads this
    {
      WellFormed(nextCells, width, height)
    }

    /** The seeding loop: every position of the board gets a state, alive
        exactly when the number drawn for it (from 0 to 10 in the script) is 0. */
    constructor (w: nat, h: nat, draw: Coord -> int)
      ensures width == w && height == h && Valid()
      ensures forall p :: p in nextCells ==> (nextCells[p] == Alive <==> draw(p) == 0)
    {
      width, height := w, h;
      var cells: Grid := map[];
      var col := 0;
      while col < w
        invariant 0 <= col <= w
        invariant WellFormed(cells, col, h)
        invariant forall p :: p in cells ==> (cells[p] == Alive <==> draw(p) == 0)
      {
        var row := 0;
        while row < h
          invariant 0 <= row <= h
          invariant forall p :: p in cells <==> InRange(col, h, p) || (p.0 == col && 0 <= p.1 < row)
          invariant forall p :: p in cells ==> (cells[p] == Alive <==> draw(p) == 0)
        {
          if draw((col, row)) == 0 {
            cells := cells[(col, row) := Alive];
          } else {
            cells := cells[(col, row) := Dead];
          }
          row := row + 1;
        }
        col := col + 1;
      }
      nextCells := cells;
    }

    /** One generation: snapshot the board into `cells`, then for every
        column and row count the live neighbours in the snapshot and write
        the rule's verdict into `nextCells`. Every read goes to the snapshot,
        so the result is the pure `Next` of the board as it was. */
    method Step()
      requires Valid()
      modifies this
      ensures Valid()
      ensures nextCells == Next(old(nextCells), width, height)
    {
      var cells := nextCells;
      var col := 0;
      while col < width
        invariant 0 <= col <= width
        invariant WellFormed(nextCells, width, height)
        invariant Written(nextCells, cells, width, height, col, 0)
      {
        var row := 0;
        while row < height
          invariant 0 <= row <= height
          invariant WellFormed(nextCells, width, height)
          invariant Written(nextCells, cells, width, height, col, row)
        {
          var neighbours := CountNeighbours(cells, width, height, col, row);
          WrittenExtends(nextCells, cells, width, height, col, row, Rule(cells[(col, row)], neighbours));
          if cells[(col, row)] == Alive && (neighbours == 2 || neighbours == 3) {
            nextCells := nextCells[(col, row) := Alive];
          } else if cells[(col, row)] == Dead && neighbours == 3 {
            nextCells := nextCells[(col, row) := Alive];
          } else {
            nextCells := nextCells[(col, row) := Dead];
          }
          row := row + 1;
        }
        WrittenColumn(nextCells, cells, width, height, col);
        col := col + 1;
      }
      WrittenAll(nextCells, cells, width, height);
    }

    /** The script's main loop, run for a given number of generations
        instead of until it is interrupted. */
    method Simulate(generations: nat)
      requires Valid()
      modifies this
      ensures Valid()
      ensures nextCells == Run(old(nextCells), width, height, generations)
    {
      ghost var start := nextCells;
      var i := 0;
      while i < generations
        invariant 0 <= i <= generations
        invariant Valid()
        invariant nextCells == Run(start, width, height, i)
      {
        Step();
        RunNext(start, width, height, i);
        i := i + 1;
      }
    }
  }

  /** p comes before (col, row) in the order the step visits the board:
      column by column, and within a column row by row. */
  predicate Before(p: Coord, col: int, row: int)
  {
    p.0 < col || (p.0 == col && p.1 < row)
  }

  /** Every position of m visited before (col, row) holds the rule's verdict
      for the snapshot `cells`. The quantifier fires only on `Before`, so the
      neighbour count of a visited cell is unfolded only where a proof asks. */
  ghost predicate Written(m: Grid, cells: Grid, w: int, h: int, col: int, row: int)
  {
    forall p {:trigger Before(p, col, row)} :: p in m && InRange(w, h, p) && Before(p, col, row) ==>
      p in cells && m[p] == Rule(cells[p], NeighbourCount(cells, w, h, p))
  }

  /** Writing the verdict for (col, row) extends the visited part by one cell. */
  lemma WrittenExtends(m: Grid, cells: Grid, w: int, h: int, col: int, row: int, v: Cell)
    requires Written(m, cells, w, h, col, row) && InRange(w, h, (col, row)) && (col, row) in cells
    requires v == Rule(cells[(col, row)], NeighbourCount(cells, w, h, (col, row)))
    ensures Written(m[(col, row) := v], cells, w, h, col, row + 1)
  {
    var m' := m[(col, row) := v];
    forall p | p in m' && InRange(w, h, p) && Before(p, col, row + 1)
      ensures p in cells && m'[p] == Rule(cells[p], NeighbourCount(cells, w, h, p))
    {
      if p != (col, row) {
        assert Before(p, col, row);
      }
    }
  }

  /** A finished column: everything up to the last row of col is everything
      before the first row of the next column. */
  lemma WrittenColumn(m: Grid, cells: Grid, w: int, h: int, col: int)
    requires Written(m, cells, w, h, col, h)
    ensures Written(m, cells, w, h, col + 1, 0)
  {
    forall p | p in m && InRange(w, h, p) && Before(p, col + 1, 0)
      ensures p in cells && m[p] == Rule(cells[p], NeighbourCount(cells, w, h, p))
    {
      assert Before(p, col, h);
    }
  }

  /** Once every column is visited, the board is the next generation of the snapshot. */
  lemma WrittenAll(m: Grid, cells: Grid, w: int, h: int)
    requires WellFormed(m, w, h) && WellFormed(cells, w, h) && Written(m, cells, w, h, w, 0)
    ensures m == Next(cells, w, h)
  {
    forall p {:trigger m[p]} | InRange(w, h, p) ensures m[p] == Rule(cells[p], NeighbourCount(cells, w, h, p)) {
      assert Before(p, w, 0);
    }
    NextCharacterised(cells, m, w, h);
  }
}
