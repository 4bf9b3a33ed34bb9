/** The board of the Game of Life: a WIDTH x HEIGHT grid whose edges wrap
    around (a torus), the wrapped coordinates of a cell's eight neighbours,
    and the number of live cells among them. */
module Torus {

  /** The two states a cell can be in (the script draws them as a filled
      glyph and a space). */
  datatype Cell = Alive | Dead

  /** A position (col, row) on the board. */
  type Coord = (int, int)

  /** One generation: the state of each position, keyed by (col, row). */
  type Grid = map<Coord, Cell>

  predicate InRange(w: int, h: int, p: Coord)
  {
    0 <= p.0 < w && 0 <= p.1 < h
  }

  /** The shape the seeding loop gives the board: every in-range position
      holds a state and no other key is stored. */
  ghost predicate WellFormed(g: Grid, w: int, h: int)
  {
    forall p {:trigger p in g} :: p in g <==> InRange(w, h, p)
  }

  /** The coordinate i brought back onto a cycle of n positions. The step
      only ever wraps a coordinate one position past an edge, so at most one
      lap is added or removed. */
  function Wrap(i: int, n: int): (r: int)
    requires n > 0 && -n <= i < 2 * n
    ensures 0 <= r < n
  {
    if i < 0 then i + n else if i < n then i else i - n
  }

  /** Wrap is the script's `i % n`: for a positive divisor Python's floor
      modulo and Dafny's Euclidean modulo agree, and both land in [0, n). */
  lemma WrapIsModulo(i: int, n: int)
    requires n > 0 && -n <= i < 2 * n
    ensures Wrap(i, n) == i % n
  {
  }

  /** The neighbour coordinates wrap at the edges: left of column 0 is the
      last column, right of the last column is column 0, and elsewhere they
      are the adjacent columns (rows alike). */
  lemma WrapEdges(i: int, n: int)
    requires 0 <= i < n
    ensures Wrap(i - 1, n) == if i == 0 then n - 1 else i - 1
    ensures Wrap(i + 1, n) == if i == n - 1 then 0 else i + 1
  {
  }

  /** The eight positions the step inspects around p = (col, row), in the
      order the script tests them: the wrapped columns left and right of col
      and the wrapped rows up and down from row, combined with each other and
      with col and row themselves, leaving out p. */
  function Neighbourhood(w: int, h: int, p: Coord): (ps: seq<Coord>)
    requires InRange(w, h, p)
    ensures |ps| == 8
    ensures forall k :: 0 <= k < |ps| ==> InRange(w, h, ps[k])
  {
    var (col, row) := p;
    var left, right := Wrap(col - 1, w), Wrap(col + 1, w);
    var up, down := Wrap(row - 1, h), Wrap(row + 1, h);
    [(left, up), (col, up), (right, up), (left, row), (right, row), (left, down), (col, down), (right, down)]
  }

  /** One for a position that holds a live cell, zero otherwise (an absent
      key reads as dead; on a well-formed grid every inspected key is present). */
  function LiveAt(g: Grid, q: Coord): nat
  {
    if q in g && g[q] == Alive then 1 else 0
  }

  /** The number of entries of ps that are alive in g, counted with multiplicity. */
  function CountAlive(g: Grid, ps: seq<Coord>): (n: nat)
    ensures n <= |ps|
    ensures n == 0 <== (forall k :: 0 <= k < |ps| ==> ps[k] !in g || g[ps[k]] == Dead)
  {
    if ps == [] then 0 else LiveAt(g, ps[0]) + CountAlive(g, ps[1..])
  }

  /** The live-neighbour count of p: never more than eight. */
  function NeighbourCount(g: Grid, w: int, h: int, p: Coord): (n: nat)
    requires InRange(w, h, p)
    ensures n <= 8
  {
    CountAlive(g, Neighbourhood(w, h, p))
  }

  /** A count over one more entry at the front adds that entry's test. */
  lemma CountAliveFrom(g: Grid, ps: seq<Coord>, k: nat)
    requires k < |ps|
    ensures CountAlive(g, ps[k..]) == LiveAt(g, ps[k]) + CountAlive(g, ps[k + 1..])
  {
  }

  /** The count as the sum of the eight tests, one per neighbour position. */
  lemma NeighbourCountUnrolled(g: Grid, w: int, h: int, p: Coord)
    requires InRange(w, h, p)
    ensures var ps := Neighbourhood(w, h, p);
      NeighbourCount(g, w, h, p) ==
        LiveAt(g, ps[0]) + LiveAt(g, ps[1]) + LiveAt(g, ps[2]) + LiveAt(g, ps[3]) +
        LiveAt(g, ps[4]) + LiveAt(g, ps[5]) + LiveAt(g, ps[6]) + LiveAt(g, ps[7])
  {
    var ps := Neighbourhood(w, h, p);
    assert ps[8..] == [];
    CountAliveFrom(g, ps, 7);
    CountAliveFrom(g, ps, 6);
    CountAliveFrom(g, ps, 5);
    CountAliveFrom(g, ps, 4);
    CountAliveFrom(g, ps, 3);
    CountAliveFrom(g, ps, 2);
    CountAliveFrom(g, ps, 1);
    CountAliveFrom(g, ps, 0);
    assert ps[0..] == ps;
  }

  /** a and b lie on a cycle of n positions at distance at most one. */
  predicate AxisClose(a: int, b: int, n: int)
    requires 0 <= a < n && 0 <= b < n
  {
    Wrap(b - a, n) <= 1 || Wrap(a - b, n) <= 1
  }

  /** p and q are distinct and at most one step apart along each axis of the
      torus: the Moore neighbourhood, defined without the offset table. */
  predicate Adjacent(w: int, h: int, p: Coord, q: Coord)
    requires InRange(w, h, p) && InRange(w, h, q)
  {
    p != q && AxisClose(p.0, q.0, w) && AxisClose(p.1, q.1, h)
  }

  /** The live cells of g adjacent to p. */
  function LiveAround(g: Grid, w: int, h: int, p: Coord): set<Coord>
    requires InRange(w, h, p)
  {
    set q | q in g && InRange(w, h, q) && Adjacent(w, h, p, q) && g[q] == Alive
  }

  /** Along one axis, b is within one step of a exactly when it is a itself
      or its wrapped predecessor or successor. */
  lemma AxisCloseIff(a: int, b: int, n: int)
    requires 0 <= a < n && 0 <= b < n
    ensures AxisClose(a, b, n) <==> b == a || b == Wrap(a + 1, n) || b == Wrap(a - 1, n)
  {
  }

  predicate Distinct(ps: seq<Coord>)
  {
    forall i, j :: 0 <= i < j < |ps| ==> ps[i] != ps[j]
  }

  lemma Below8(i: int)
    requires 0 <= i < 8
    ensures i == 0 || i == 1 || i == 2 || i == 3 || i == 4 || i == 5 || i == 6 || i == 7
  {
  }

  /** On a board at least three wide and three high the eight positions are
      pairwise different, and they are exactly the positions adjacent to p. */
  lemma NeighbourhoodShape(w: int, h: int, p: Coord)
    requires w >= 3 && h >= 3 && InRange(w, h, p)
    ensures Distinct(Neighbourhood(w, h, p))
    ensures forall q :: InRange(w, h, q) ==> (q in Neighbourhood(w, h, p) <==> Adjacent(w, h, p, q))
  {
    var ps := Neighbourhood(w, h, p);
    var (c, r) := p;
    var left, right, up, down := Wrap(c - 1, w), Wrap(c + 1, w), Wrap(r - 1, h), Wrap(r + 1, h);
    assert left != c && right != c && left != right;
    assert up != r && down != r && up != down;
    assert ps == [(left, up), (c, up), (right, up), (left, r), (right, r), (left, down), (c, down), (right, down)];
    forall i, j | 0 <= i < j < |ps| ensures ps[i] != ps[j] {
      Below8(i);
      Below8(j);
    }
    forall q | InRange(w, h, q) ensures q in ps <==> Adjacent(w, h, p, q) {
      AxisCloseIff(c, q.0, w);
      AxisCloseIff(r, q.1, h);
      if Adjacent(w, h, p, q) {
        var k :=
          if q.0 == left then (if q.1 == up then 0 else if q.1 == r then 3 else 5)
          else if q.0 == c then (if q.1 == up then 1 else 6)
          else (if q.1 == up then 2 else if q.1 == r then 4 else 7);
        assert ps[k] == q;
      }
    }
  }

  /** The live positions of g listed in ps, as a set. */
  function LiveIn(g: Grid, ps: seq<Coord>): set<Coord>
  {
    set q | q in ps && q in g && g[q] == Alive
  }

  /** Listing one more position in front adds it to the set when it is alive. */
  lemma LiveInCons(g: Grid, x: Coord, tail: seq<Coord>)
    ensures LiveIn(g, [x] + tail) == (if LiveAt(g, x) == 1 then {x} else {}) + LiveIn(g, tail)
  {
    forall q ensures q in [x] + tail <==> q == x || q in tail {
    }
  }

  /** Counting the live entries of a list without repeats is counting the
      live positions it contains. */
  lemma {:induction false} CountAliveDistinct(g: Grid, ps: seq<Coord>)
    requires Distinct(ps)
    ensures CountAlive(g, ps) == |LiveIn(g, ps)|
  {
    if ps == [] {
      assert LiveIn(g, ps) == {};
    } else {
      var x, tail := ps[0], ps[1..];
      assert Distinct(tail) by {
        forall i, j | 0 <= i < j < |tail| ensures tail[i] != tail[j] {
          assert tail[i] == ps[i + 1] && tail[j] == ps[j + 1];
        }
      }
      assert x !in tail by {
        forall k | 0 <= k < |tail| ensures tail[k] != x {
          assert tail[k] == ps[k + 1];
        }
      }
      CountAliveDistinct(g, tail);
      assert ps == [x] + tail;
      LiveInCons(g, x, tail);
      assert x !in LiveIn(g, tail);
    }
  }

  /** On a board at least three wide and three high, the count of the eight
      tests is the number of distinct live cells adjacent to p: no cell is
      counted twice and p itself is never counted. */
  lemma NeighbourCountIsLiveAround(g: Grid, w: int, h: int, p: Coord)
    requires w >= 3 && h >= 3 && WellFormed(g, w, h) && InRange(w, h, p)
    ensures NeighbourCount(g, w, h, p) == |LiveAround(g, w, h, p)|
  {
    var ps := Neighbourhood(w, h, p);
    NeighbourhoodShape(w, h, p);
    CountAliveDistinct(g, ps);
    assert LiveIn(g, ps) == LiveAround(g, w, h, p);
  }

  /** On a one-by-one board all eight positions are the cell itself, so a
      live cell sees itself eight times and a dead one sees nothing. */
  lemma SingleCellBoardCountsItself(g: Grid, w: int, h: int, p: Coord)
    requires w == 1 && h == 1 && WellFormed(g, w, h) && InRange(w, h, p)
    ensures NeighbourCount(g, w, h, p) == if g[p] == Alive then 8 else 0
  {
    var ps := Neighbourhood(w, h, p);
    assert forall k :: 0 <= k < 8 ==> ps[k] == p;
    NeighbourCountUnrolled(g, w, h, p);
    var a := LiveAt(g, p);
    assert NeighbourCount(g, w, h, p) == 8 * a;
    assert a == if g[p] == Alive then 1 else 0;
  }
}
