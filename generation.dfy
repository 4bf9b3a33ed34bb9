/** One generation of Conway's Game of Life on the torus, as a function of
    the previous generation, and the repetition of that step. */
module Generation {
  import opened Torus

  /** Conway's rule B3/S23: a live cell stays alive with two or three live
      neighbours, a dead cell comes alive with exactly three, and every other
      cell is dead in the next generation. */
  predicate LivesOn(s: Cell, n: nat)
  {
    (s == Alive && (n == 2 || n == 3)) || (s == Dead && n == 3)
  }

  /** The state a cell in state s with n live neighbours has in the next
      generation, decided in the script's order: survival first, then birth,
      and death or staying dead in every other case. */
  function Rule(s: Cell, n: nat): (t: Cell)
    ensures t == Alive <==> LivesOn(s, n)
  {
    if s == Alive && (n == 2 || n == 3) then Alive
    else if s == Dead && n == 3 then Alive
    else Dead
  }

  /** The three rules as the script's documentation words them: a cell stays
      alive with two or three neighbours, one is born with exactly three, and
      any other cell dies (of solitude below two neighbours, of overpopulation
      above three) or stays dead. */
  lemma RuleCases(s: Cell, n: nat)
    ensures s == Alive && (n == 2 || n == 3) ==> Rule(s, n) == Alive
    ensures s == Dead && n == 3 ==> Rule(s, n) == Alive
    ensures s == Alive && n < 2 ==> Rule(s, n) == Dead
    ensures s == Alive && n > 3 ==> Rule(s, n) == Dead
    ensures s == Dead && n != 3 ==> Rule(s, n) == Dead
  {
  }

  /** The next generation: every position evaluated against the snapshot g
      alone, so the order of evaluation cannot matter. */
  function Next(g: Grid, w: int, h: int): (r: Grid)
    ensures WellFormed(g, w, h) ==> WellFormed(r, w, h)
  {
    map p | p in g && InRange(w, h, p) :: Rule(g[p], NeighbourCount(g, w, h, p))
  }

  /** A board holds the next generation of g exactly when it has the same
      positions and every position holds the rule's verdict for its state
      and neighbour count in g. */
  lemma NextCharacterised(g: Grid, r: Grid, w: int, h: int)
    requires WellFormed(g, w, h) && WellFormed(r, w, h)
    ensures r == Next(g, w, h) <==>
      forall p {:trigger r[p]} :: InRange(w, h, p) ==> r[p] == Rule(g[p], NeighbourCount(g, w, h, p))
  {
    if forall p {:trigger r[p]} :: InRange(w, h, p) ==> r[p] == Rule(g[p], NeighbourCount(g, w, h, p)) {
      forall p | p in r ensures r[p] == Next(g, w, h)[p] {
        assert InRange(w, h, p);
      }
    }
  }

  /** Two grids that agree on p and on its eight neighbour positions agree
      on p in the next generation: the new state of a cell depends on nothing
      else. */
  lemma NextIsLocal(g1: Grid, g2: Grid, w: int, h: int, p: Coord)
    requires WellFormed(g1, w, h) && WellFormed(g2, w, h) && InRange(w, h, p)
    requires g1[p] == g2[p]
    requires forall q :: q in Neighbourhood(w, h, p) ==> g1[q] == g2[q]
    ensures Next(g1, w, h)[p] == Next(g2, w, h)[p]
  {
    var ps := Neighbourhood(w, h, p);
    assert forall q :: q in ps ==> q in g1 && q in g2 && g1[q] == g2[q] by {
      forall q | q in ps ensures q in g1 && q in g2 && g1[q] == g2[q] {
        assert InRange(w, h, q);
      }
    }
    CountAliveAgree(g1, g2, ps);
  }

  lemma {:induction false} CountAliveAgree(g1: Grid, g2: Grid, ps: seq<Coord>)
    requires forall q :: q in ps ==> q in g1 && q in g2 && g1[q] == g2[q]
    ensures CountAlive(g1, ps) == CountAlive(g2, ps)
  {
    if ps != [] {
      assert ps[0] in ps;
      assert forall q :: q in ps[1..] ==> q in ps;
      CountAliveAgree(g1, g2, ps[1..]);
    }
  }

  /** f applied n times to x. */
  function Iterate<T>(f: T -> T, x: T, n: nat): T
    decreases n
  {
    if n == 0 then x else f(Iterate(f, x, n - 1))
  }

  /** Applying f m times and then n more times is applying it m + n times. */
  lemma {:induction false} IterateAdds<T>(f: T -> T, x: T, m: nat, n: nat)
    ensures Iterate(f, Iterate(f, x, m), n) == Iterate(f, x, m + n)
    decreases n
  {
    if n > 0 {
      IterateAdds(f, x, m, n - 1);
    }
  }

  /** A fixed point of f stays put however often f is applied. */
  lemma {:induction false} IterateFixedPoint<T>(f: T -> T, x: T, n: nat)
    requires f(x) == x
    ensures Iterate(f, x, n) == x
    decreases n
  {
    if n > 0 {
      IterateFixedPoint(f, x, n - 1);
    }
  }

  /** A point f brings back in two applications comes back after every even
      number of applications. */
  lemma {:induction false} IteratePeriodTwo<T>(f: T -> T, x: T, k: nat)
    requires Iterate(f, x, 2) == x
    ensures Iterate(f, x, 2 * k) == x
    decreases k
  {
    if k > 0 {
      IteratePeriodTwo(f, x, k - 1);
      IterateAdds(f, x, 2 * (k - 1), 2);
    }
  }

  /** A property f preserves holds after any number of applications. */
  lemma {:induction false} IterateKeeps<T>(f: T -> T, x: T, n: nat, inv: T -> bool)
    requires inv(x)
    requires forall y :: inv(y) ==> inv(f(y))
    ensures inv(Iterate(f, x, n))
    decreases n
  {
    if n > 0 {
      IterateKeeps(f, x, n - 1, inv);
    }
  }

  /** The step of the simulation as a value, so that it can be repeated. */
  function NextOf(w: int, h: int): Grid -> Grid
  {
    g => Next(g, w, h)
  }

  /** The grid n generations after g. */
  function Run(g: Grid, w: int, h: int, n: nat): Grid
  {
    Iterate(NextOf(w, h), g, n)
  }

  /** The generation after the n-th is the step applied to the n-th. */
  lemma RunNext(g: Grid, w: int, h: int, n: nat)
    ensures Run(g, w, h, n + 1) == Next(Run(g, w, h, n), w, h)
  {
  }

  /** Every generation of a well-formed grid is well formed. */
  lemma RunWellFormed(g: Grid, w: int, h: int, n: nat)
    requires WellFormed(g, w, h)
    ensures WellFormed(Run(g, w, h, n), w, h)
  {
    IterateKeeps(NextOf(w, h), g, n, x => WellFormed(x, w, h));
  }

  /** Running m generations and then n more is running m + n generations. */
  lemma RunAdds(g: Grid, w: int, h: int, m: nat, n: nat)
    ensures Run(Run(g, w, h, m), w, h, n) == Run(g, w, h, m + n)
  {
    IterateAdds(NextOf(w, h), g, m, n);
  }

  /** A still life (a grid the step leaves unchanged) stays unchanged for
      any number of generations. */
  lemma StillLifeStays(g: Grid, w: int, h: int, n: nat)
    requires Next(g, w, h) == g
    ensures Run(g, w, h, n) == g
  {
    IterateFixedPoint(NextOf(w, h), g, n);
  }

  /** A grid that comes back after two generations comes back after every
      even number of generations. */
  lemma PeriodTwoRepeats(g: Grid, w: int, h: int, k: nat)
    requires Run(g, w, h, 2) == g
    ensures Run(g, w, h, 2 * k) == g
  {
    IteratePeriodTwo(NextOf(w, h), g, k);
  }
}
