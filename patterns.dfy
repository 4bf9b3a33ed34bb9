/** Consequences of the rule for particular boards: the empty board, a single
    live cell, the block (a still life) and the blinker (period two). */
module Patterns {
  import opened Torus
  import opened Generation

  /** g has no live cell. */
  ghost predicate AllDead(g: Grid)
  {
    forall q :: q in g ==> g[q] == Dead
  }

  /** A board without live cells has nothing to count, so nothing is born:
      it is a still life and stays empty for any number of generations. */
  lemma EmptyBoardStaysEmpty(g: Grid, w: int, h: int, n: nat)
    requires WellFormed(g, w, h) && AllDead(g)
    ensures Next(g, w, h) == g
    ensures Run(g, w, h, n) == g
  {
    forall p | p in g ensures Next(g, w, h)[p] == g[p] {
      assert InRange(w, h, p);
      var ps := Neighbourhood(w, h, p);
      assert forall k :: 0 <= k < |ps| ==> ps[k] !in g || g[ps[k]] == Dead;
      assert NeighbourCount(g, w, h, p) == 0;
    }
    StillLifeStays(g, w, h, n);
  }

  /** c is the only live cell of g. */
  ghost predicate OnlyLive(g: Grid, c: Coord)
  {
    c in g && g[c] == Alive && forall q :: q in g && q != c ==> g[q] == Dead
  }

  /** With c the only live cell, a position counts one live neighbour
      exactly when it is one of the eight cells around c on the torus, and
      zero otherwise; c itself sees none. */
  lemma LoneCellCount(g: Grid, w: int, h: int, c: Coord, p: Coord)
    requires w >= 3 && h >= 3 && WellFormed(g, w, h) && OnlyLive(g, c) && InRange(w, h, p)
    ensures NeighbourCount(g, w, h, p) <= 1
    ensures p == c ==> NeighbourCount(g, w, h, p) == 0
    ensures NeighbourCount(g, w, h, p) == if Adjacent(w, h, p, c) then 1 else 0
  {
    NeighbourCountIsLiveAround(g, w, h, p);
    var around := LiveAround(g, w, h, p);
    assert around <= {c};
    if Adjacent(w, h, p, c) {
      assert around == {c};
    } else {
      assert around == {};
    }
  }

  /** On a board at least three wide and three high a single live cell has
      no live neighbour and dies of solitude, while every other position sees
      at most that one cell and stays dead: the next generation is empty. */
  lemma LoneCellDies(g: Grid, w: int, h: int, c: Coord)
    requires w >= 3 && h >= 3 && WellFormed(g, w, h) && OnlyLive(g, c)
    ensures AllDead(Next(g, w, h))
  {
    forall p | p in Next(g, w, h) ensures Next(g, w, h)[p] == Dead {
      LoneCellCount(g, w, h, c, p);
    }
  }

  /** g is a w x h board whose live cells are exactly those in live. */
  ghost predicate Shows(g: Grid, w: int, h: int, live: set<Coord>)
  {
    WellFormed(g, w, h) && forall p {:trigger g[p]} :: p in g ==> (g[p] == Alive <==> p in live)
  }

  /** The w x h board whose live cells are those of live, as the seeding loop
      would lay it out for a draw that is 0 exactly on live. */
  function Board(w: int, h: int, live: set<Coord>): (g: Grid)
    ensures Shows(g, w, h, live)
  {
    map c: int, r: int | 0 <= c < w && 0 <= r < h :: (c, r) := if (c, r) in live then Alive else Dead
  }

  /** A board is determined by its size and its live cells. */
  lemma ShowsUnique(g1: Grid, g2: Grid, w: int, h: int, live: set<Coord>)
    requires Shows(g1, w, h, live) && Shows(g2, w, h, live)
    ensures g1 == g2
  {
    forall p | p in g1 ensures g1[p] == g2[p] {
      assert InRange(w, h, p);
    }
  }

  function Ind(b: bool): nat
  {
    if b then 1 else 0
  }

  lemma LiveAtShows(g: Grid, w: int, h: int, live: set<Coord>, q: Coord)
    requires Shows(g, w, h, live) && InRange(w, h, q)
    ensures LiveAt(g, q) == Ind(q in live)
  {
  }

  /** The neighbour count of p on a board given by its live cells: one for
      each of the eight inspected positions that is listed as live. */
  lemma CountShows(g: Grid, w: int, h: int, live: set<Coord>, p: Coord)
    requires Shows(g, w, h, live) && InRange(w, h, p)
    ensures var ps := Neighbourhood(w, h, p);
      NeighbourCount(g, w, h, p) ==
        Ind(ps[0] in live) + Ind(ps[1] in live) + Ind(ps[2] in live) + Ind(ps[3] in live) +
        Ind(ps[4] in live) + Ind(ps[5] in live) + Ind(ps[6] in live) + Ind(ps[7] in live)
  {
    var ps := Neighbourhood(w, h, p);
    NeighbourCountUnrolled(g, w, h, p);
    LiveAtShows(g, w, h, live, ps[0]);
    LiveAtShows(g, w, h, live, ps[1]);
    LiveAtShows(g, w, h, live, ps[2]);
    LiveAtShows(g, w, h, live, ps[3]);
    LiveAtShows(g, w, h, live, ps[4]);
    LiveAtShows(g, w, h, live, ps[5]);
    LiveAtShows(g, w, h, live, ps[6]);
    LiveAtShows(g, w, h, live, ps[7]);
  }

  /** If every position's verdict is alive exactly on next, the next
      generation shows next. */
  lemma NextShows(g: Grid, w: int, h: int, live: set<Coord>, next: set<Coord>)
    requires Shows(g, w, h, live)
    requires forall p {:trigger g[p]} :: InRange(w, h, p) ==>
      (Rule(g[p], NeighbourCount(g, w, h, p)) == Alive <==> p in next)
    ensures Shows(Next(g, w, h), w, h, next)
  {
    forall p | p in Next(g, w, h) ensures Next(g, w, h)[p] == Alive <==> p in next {
      assert g[p] == g[p];
    }
  }

  /** The block: four live cells in a square, here on a 4 x 4 board. */
  const Block: set<Coord> := {(1, 1), (2, 1), (1, 2), (2, 2)}

  /** The blinker on a 5 x 5 board: a vertical bar of three cells and the
      horizontal bar it turns into. */
  const VerticalBar: set<Coord> := {(1, 1), (1, 2), (1, 3)}
  const HorizontalBar: set<Coord> := {(0, 2), (1, 2), (2, 2)}

  lemma BlockCell(g: Grid, p: Coord)
    requires Shows(g, 4, 4, Block) && InRange(4, 4, p)
    ensures Rule(g[p], NeighbourCount(g, 4, 4, p)) == Alive <==> p in Block
  {
    CountShows(g, 4, 4, Block, p);
    assert forall q: Coord :: q in Block <==> 1 <= q.0 <= 2 && 1 <= q.1 <= 2;
  }

  /** Every cell of the block has three live neighbours and survives, and no
      other cell has three: the block is a still life, for ever. */
  lemma BlockIsStill(g: Grid, n: nat)
    requires Shows(g, 4, 4, Block)
    ensures Next(g, 4, 4) == g
    ensures Run(g, 4, 4, n) == g
  {
    forall p | InRange(4, 4, p)
      ensures Rule(g[p], NeighbourCount(g, 4, 4, p)) == Alive <==> p in Block
    {
      BlockCell(g, p);
    }
    NextShows(g, 4, 4, Block, Block);
    ShowsUnique(Next(g, 4, 4), g, 4, 4, Block);
    StillLifeStays(g, 4, 4, n);
  }

  lemma VerticalCell(g: Grid, p: Coord)
    requires Shows(g, 5, 5, VerticalBar) && InRange(5, 5, p)
    ensures Rule(g[p], NeighbourCount(g, 5, 5, p)) == Alive <==> p in HorizontalBar
  {
    CountShows(g, 5, 5, VerticalBar, p);
    assert forall q: Coord :: q in VerticalBar <==> q.0 == 1 && 1 <= q.1 <= 3;
    assert forall q: Coord :: q in HorizontalBar <==> q.1 == 2 && 0 <= q.0 <= 2;
  }

  lemma HorizontalCell(g: Grid, p: Coord)
    requires Shows(g, 5, 5, HorizontalBar) && InRange(5, 5, p)
    ensures Rule(g[p], NeighbourCount(g, 5, 5, p)) == Alive <==> p in VerticalBar
  {
    CountShows(g, 5, 5, HorizontalBar, p);
    assert forall q: Coord :: q in VerticalBar <==> q.0 == 1 && 1 <= q.1 <= 3;
    assert forall q: Coord :: q in HorizontalBar <==> q.1 == 2 && 0 <= q.0 <= 2;
  }

  /** The vertical bar turns into the horizontal one, which turns back: the
      blinker returns after two generations and after every even number. */
  lemma BlinkerOscillates(g: Grid, k: nat)
    requires Shows(g, 5, 5, VerticalBar)
    ensures Shows(Next(g, 5, 5), 5, 5, HorizontalBar)
    ensures Next(Next(g, 5, 5), 5, 5) == g
    ensures Run(g, 5, 5, 2 * k) == g
  {
    forall p | InRange(5, 5, p)
      ensures Rule(g[p], NeighbourCount(g, 5, 5, p)) == Alive <==> p in HorizontalBar
    {
      VerticalCell(g, p);
    }
    NextShows(g, 5, 5, VerticalBar, HorizontalBar);
    var h := Next(g, 5, 5);
    forall p | InRange(5, 5, p)
      ensures Rule(h[p], NeighbourCount(h, 5, 5, p)) == Alive <==> p in VerticalBar
    {
      HorizontalCell(h, p);
    }
    NextShows(h, 5, 5, HorizontalBar, VerticalBar);
    ShowsUnique(Next(h, 5, 5), g, 5, 5, VerticalBar);
    RunNext(g, 5, 5, 0);
    RunNext(g, 5, 5, 1);
    PeriodTwoRepeats(g, 5, 5, k);
  }

  /** The blinker laid out by Board: two generations bring it back. */
  lemma BlinkerBoardReturns()
    ensures Next(Board(5, 5, VerticalBar), 5, 5) == Board(5, 5, HorizontalBar)
    ensures Run(Board(5, 5, VerticalBar), 5, 5, 2) == Board(5, 5, VerticalBar)
  {
    var v := Board(5, 5, VerticalBar);
    BlinkerOscillates(v, 1);
    ShowsUnique(Next(v, 5, 5), Board(5, 5, HorizontalBar), 5, 5, HorizontalBar);
  }
}
