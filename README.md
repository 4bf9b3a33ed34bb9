# Conway's Game of Life on a wrapping board

This project models the Python script `life_in_the_shell.py`, a terminal
version of Conway's Game of Life. The script keeps the board in a dictionary
`nextCells`, keyed by `(col, row)`, on a `WIDTH` x `HEIGHT` grid of 200 x 30.
Every position holds a live or a dead cell. The seeding loop gives each
position a state at random. Each generation of the main loop then:

1. copies the board into `cells`;
2. for every column and row, wraps the adjacent coordinates with `%` so that
   the board is a torus;
3. counts the live cells among the eight surrounding positions of the copy;
4. writes the verdict of Conway's rule (B3/S23) into `nextCells`.

The model has four modules:

- `Torus` (`torus.dfy`) covers the board:
  - cells, positions and the well-formedness of a board: every in-range
    position present, nothing else;
  - the wrapped coordinates;
  - the eight inspected positions, in the order the script tests them;
  - the neighbour count, as a function.
  - On a board at least 3 x 3, the count is the number of distinct live
    cells adjacent to the position on the torus. No cell is counted twice
    and the cell itself is never counted.
  - On a 1 x 1 board all eight positions are the cell itself. The script's
    arithmetic does this too: a live cell there sees eight neighbours.
- `Generation` (`generation.dfy`) covers the rule:
  - the rule, and the next generation as a pure function of the board;
  - the characterisation of that function;
  - locality of the update;
  - the board after n generations, with its composition, still-life and
    period-two lemmas.
- `Simulation` (`simulation.dfy`) covers the script's imperative part:
  - the board is a `Game` object whose `nextCells` field the methods update
    in place;
  - the seeding loop is the constructor;
  - `Step` is one pass of the main loop: snapshot, nested column/row loops
    and the rule's if / elif / else chain. It is proved to leave exactly
    `Next` of the snapshot;
  - `CountNeighbours` carries the script's eight `if` tests and the `%`
    wrapping. It is proved equal to the neighbour-count function.
- `Patterns` (`patterns.dfy`) covers boards whose future the rule fixes:
  - an empty board stays empty;
  - a lone live cell dies, and nothing is born around it;
  - the block, a 2 x 2 square on a 4 x 4 board, is a still life;
  - the blinker, three cells in a vertical line on a 5 x 5 board, turns
    into the horizontal line through its middle cell and back: period two.

Each generation reads only the snapshot `cells` and writes only `nextCells`.
The map value `cells := nextCells` has the semantics of the script's
`copy.deepcopy`. A later write can therefore never affect a read in the same
generation, and this is why `Step` equals the pure `Next`. The script
achieves this with a fresh copy each generation, not by swapping two
buffers, and it keeps no generation counter. The model follows the script
in both respects.

## Model

| member | source | states |
|---|---|---|
| Torus.WellFormed | life_in_the_shell.py:38-44 | a board holds exactly the in-range positions, each with a cell, as the seeding loop lays it out |
| Torus.Wrap | life_in_the_shell.py:65-68 | a neighbour coordinate one step past either edge is brought back into the board range [0, n) |
| Torus.WrapIsModulo | life_in_the_shell.py:65-68 | the wrapped coordinate is exactly Python's `(i) % n` for the values the step computes (col - 1, col + 1, row - 1, row + 1) |
| Torus.WrapEdges | life_in_the_shell.py:63-68 | left of column 0 is the last column and right of the last column is column 0; elsewhere the neighbours are the adjacent coordinates |
| Torus.Neighbourhood | life_in_the_shell.py:65-87 | exactly eight positions are inspected, all of them on the board |
| Torus.LiveAt | life_in_the_shell.py:72-86 | one inspected position adds 1 to the count when it holds a live cell and 0 otherwise |
| Torus.CountAlive | life_in_the_shell.py:71-87 | a count over a list of positions never exceeds the list's length, and it is zero when none of them holds a live cell |
| Torus.NeighbourCount | life_in_the_shell.py:70-87 | the neighbour count is between 0 and 8 |
| Torus.NeighbourCountUnrolled | life_in_the_shell.py:71-87 | the count is the sum of the eight tests, one per surrounding position, each counting 1 for a live cell |
| Torus.AxisCloseIff | life_in_the_shell.py:65-68 | along one axis, within one step on the cycle means the same coordinate or its wrapped predecessor or successor |
| Torus.NeighbourhoodShape | life_in_the_shell.py:63-87 | on a board at least 3 x 3 the eight positions are pairwise distinct and are exactly the positions adjacent to the cell on the torus, so the cell itself is not among them |
| Torus.CountAliveDistinct | life_in_the_shell.py:71-87 | counting live entries of a list without repeats is counting the set of live positions it lists |
| Torus.NeighbourCountIsLiveAround | life_in_the_shell.py:70-87 | on a board at least 3 x 3 the count equals the number of distinct live cells adjacent to the position |
| Torus.SingleCellBoardCountsItself | life_in_the_shell.py:65-87 | on a 1 x 1 board every wrapped neighbour is the cell itself, so a live cell counts 8 and a dead one 0 |
| Generation.LivesOn | life_in_the_shell.py:8-11 | B3/S23: a live cell survives with two or three live neighbours, a dead cell is born with exactly three |
| Generation.Rule | life_in_the_shell.py:89-99 | the script's if / elif / else chain makes a cell alive exactly when B3/S23 says so (`LivesOn`) |
| Generation.RuleCases | life_in_the_shell.py:8-11 | survival with two or three neighbours, birth with exactly three, death by solitude below two and by overpopulation above three, a dead cell otherwise stays dead |
| Generation.Next | life_in_the_shell.py:50-99 | the next generation of a well-formed board is well formed: every in-range position is written and no other |
| Generation.NextCharacterised | life_in_the_shell.py:61-99 | a well-formed board is the next generation of g if and only if every position holds the rule's verdict for its state and neighbour count in g |
| Generation.NextIsLocal | life_in_the_shell.py:71-99 | two boards that agree on a cell and its eight neighbour positions agree on that cell's next state |
| Generation.Run | life_in_the_shell.py:47 | the board after n passes of the main loop: the step applied n times |
| Generation.RunNext | life_in_the_shell.py:47-50 | generation n + 1 is the step applied to generation n |
| Generation.RunWellFormed | life_in_the_shell.py:38-47 | every generation of a well-formed board is well formed |
| Generation.RunAdds | life_in_the_shell.py:47 | m generations followed by n more are m + n generations |
| Generation.StillLifeStays | life_in_the_shell.py:47 | a board the step leaves unchanged stays unchanged for any number of generations |
| Generation.PeriodTwoRepeats | life_in_the_shell.py:47 | a board that returns after two generations returns after every even number |
| Simulation.ScriptBoardCountsDistinctNeighbours | life_in_the_shell.py:25-26 | on the script's 200 x 30 board a position is never its own neighbour, and the count is the number of distinct live cells adjacent to it |
| Simulation.CountNeighbours | life_in_the_shell.py:63-87 | the eight lookups with `%`-wrapped coordinates yield exactly the neighbour count of the snapshot |
| Simulation.Game.constructor | life_in_the_shell.py:33-44 | seeding writes every in-range position and no other, alive exactly where the draw is 0 |
| Simulation.Game.Step | life_in_the_shell.py:50-99 | after one pass the board is well formed and equals `Next` of the board as it was before the pass |
| Simulation.Game.Simulate | life_in_the_shell.py:47-99 | after n passes of the main loop the board is generation n of the starting board |
| Patterns.EmptyBoardStaysEmpty | life_in_the_shell.py:91-99 | a board with no live cell is a still life and stays empty for any number of generations |
| Patterns.LoneCellCount | life_in_the_shell.py:70-87 | with a single live cell on a board at least 3 x 3, a position counts exactly 1 when it is one of the eight cells around the live cell on the torus and 0 otherwise; the live cell counts none |
| Patterns.LoneCellDies | life_in_the_shell.py:91-99 | a single live cell on a board at least 3 x 3 dies of solitude and nothing is born: the next generation is empty |
| Patterns.Board | life_in_the_shell.py:38-44 | the board the seeding loop lays out for a draw that is 0 exactly on a given set: well formed, alive exactly on that set |
| Patterns.ShowsUnique | life_in_the_shell.py:38-44 | two well-formed boards of the same size with the same live cells are the same board |
| Patterns.CountShows | life_in_the_shell.py:71-87 | the neighbour count is one for each of the eight inspected positions that is live |
| Patterns.NextShows | life_in_the_shell.py:89-99 | when the rule's verdict is alive exactly on a set, the next generation is alive exactly on that set |
| Patterns.BlockCell | life_in_the_shell.py:70-99 | on the 4 x 4 board with a 2 x 2 block, a position is alive in the next generation exactly when it is in the block |
| Patterns.BlockIsStill | life_in_the_shell.py:47-99 | the block is a still life: the next generation is the same board, and so is every later one |
| Patterns.VerticalCell | life_in_the_shell.py:70-99 | on the 5 x 5 board with a vertical bar of three, a position is alive in the next generation exactly when it is in the horizontal bar through the middle cell |
| Patterns.HorizontalCell | life_in_the_shell.py:70-99 | on the 5 x 5 board with the horizontal bar, a position is alive in the next generation exactly when it is in the vertical bar |
| Patterns.BlinkerOscillates | life_in_the_shell.py:47-99 | the blinker turns into the horizontal bar, returns after two generations, and is back after every even number of generations |
| Patterns.BlinkerBoardReturns | life_in_the_shell.py:38-99 | the seeded vertical bar becomes the seeded horizontal bar, and two generations restore it |

## Left out

- The random draw `random.randint(0, 10)` at lines 41-42 is the constructor's parameter `draw`. A position is alive exactly when its draw is 0. Its distribution is not modelled.
- Screen output is not modelled, because it does not affect the board: clearing the terminal and printing the grid and the help line (lines 53-57).
- The one-second pause, the `KeyboardInterrupt` handler, its messages and `sys.exit` (lines 101-108) are not modelled. They are timing and process control.
- The unbounded `while True` loop at line 47 is modelled as `Simulate(generations)` and the pure `Run`. Non-termination itself is not modelled.
- `copy.deepcopy` is an assignment of a map value. Maps in Dafny are values, so no aliasing between `cells` and `nextCells` can arise.
- Board dimensions are parameters of the model. The script's 200 x 30 are the constants `Width` and `Height`, used by `ScriptBoardCountsDistinctNeighbours`; every other result holds for any size stated in its precondition.
- Torus.LiveAt: reads a missing key as a dead cell. The script would raise `KeyError` instead. On well-formed boards every inspected key is present, and `CountNeighbours` and `Step` index the board directly under that precondition.
- Torus.Wrap: is defined only for coordinates at most one board length outside the range, because those are the only values the script wraps. `WrapIsModulo` relates it to the script's `%`.
- Cell glyphs ("⚪" and a space) become the constructors `Alive` and `Dead`.
