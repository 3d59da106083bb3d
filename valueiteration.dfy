/** Value iteration: one Jacobi sweep, repeated sweeps, and the convergence test. */
module ValueIteration {
  import opened Grid
  import opened Config
  import opened Transition
  import opened Greedy

  function AbsReal(x: real): real {
    if x < 0.0 then -x else x
  }

  function Max(a: real, b: real): real {
    if a < b then b else a
  }

  lemma FreeNeighboursIn(m: Maze, u: map<Pos, real>, c: Pos)
    requires Closed(m) && OnGrid(m, u) && Free(m, c)
    ensures NeighboursIn(u, c)
  {
  }

  /** The new utility of one cell: walls and terminal cells keep theirs; any other cell gets
      its reward plus the discounted expectation of the greedy policy against u. */
  function SweepAt(m: Maze, u: map<Pos, real>, r: map<Pos, real>, terminal: set<Pos>,
                   ps: Params, c: Pos): real
    requires Closed(m) && OnGrid(m, u) && OnGrid(m, r) && InBounds(m, c)
  {
    if c in m.walls || c in terminal then u[c]
    else
      FreeNeighboursIn(m, u, c);
      r[c] + ps.gamma * Policy(m, u, c, ps).expectation
  }

  /** One sweep: every cell is recomputed from u alone, never from the map being built. */
  function Sweep(m: Maze, u: map<Pos, real>, r: map<Pos, real>, terminal: set<Pos>,
                 ps: Params): (next: map<Pos, real>)
    requires Closed(m) && OnGrid(m, u) && OnGrid(m, r)
    ensures OnGrid(m, next)
  {
    map c | c in u :: SweepAt(m, u, r, terminal, ps, c)
  }

  /** k sweeps from u0. */
  function Iterate(m: Maze, u0: map<Pos, real>, r: map<Pos, real>, terminal: set<Pos>,
                   ps: Params, k: nat): (u: map<Pos, real>)
    requires Closed(m) && OnGrid(m, u0) && OnGrid(m, r)
    ensures OnGrid(m, u)
  {
    if k == 0 then u0 else Sweep(m, Iterate(m, u0, r, terminal, ps, k - 1), r, terminal, ps)
  }

  /** No free, non-terminal cell would move by more than eps in the next sweep. */
  ghost predicate Converged(m: Maze, u: map<Pos, real>, r: map<Pos, real>, terminal: set<Pos>,
                            ps: Params)
    requires Closed(m) && OnGrid(m, u) && OnGrid(m, r)
  {
    forall c :: Free(m, c) && c !in terminal ==>
      AbsReal(Sweep(m, u, r, terminal, ps)[c] - u[c]) <= ps.eps
  }

  /** None of the first n iterates from u0 had converged: value iteration went on past each. */
  ghost predicate UnconvergedBefore(m: Maze, u0: map<Pos, real>, r: map<Pos, real>,
                                    terminal: set<Pos>, ps: Params, n: nat)
    requires Closed(m) && OnGrid(m, u0) && OnGrid(m, r)
  {
    forall k: nat :: k < n ==> !Converged(m, Iterate(m, u0, r, terminal, ps, k), r, terminal, ps)
  }

  /** An unconverged n-th iterate extends the unconverged prefix by one. */
  lemma UnconvergedExtend(m: Maze, u0: map<Pos, real>, r: map<Pos, real>, terminal: set<Pos>,
                          ps: Params, n: nat)
    requires Closed(m) && OnGrid(m, u0) && OnGrid(m, r)
    requires UnconvergedBefore(m, u0, r, terminal, ps, n)
    requires !Converged(m, Iterate(m, u0, r, terminal, ps, n), r, terminal, ps)
    ensures UnconvergedBefore(m, u0, r, terminal, ps, n + 1)
  {
  }

  /** In a sweep, walls and terminal cells keep their utility. */
  lemma SweepKeepsFixed(m: Maze, u: map<Pos, real>, r: map<Pos, real>, terminal: set<Pos>,
                        ps: Params, c: Pos)
    requires Closed(m) && OnGrid(m, u) && OnGrid(m, r) && InBounds(m, c)
    requires c in m.walls || c in terminal
    ensures Sweep(m, u, r, terminal, ps)[c] == u[c]
  {
  }

  /** In a sweep, every free, non-terminal cell becomes its reward plus the discounted
      expectation of the greedy policy against the previous utilities. */
  lemma SweepUpdatesFree(m: Maze, u: map<Pos, real>, r: map<Pos, real>, terminal: set<Pos>,
                         ps: Params, c: Pos)
    requires Closed(m) && OnGrid(m, u) && OnGrid(m, r) && Free(m, c) && c !in terminal
    ensures NeighboursIn(u, c)
    ensures Sweep(m, u, r, terminal, ps)[c] == r[c] + ps.gamma * Policy(m, u, c, ps).expectation
  {
    FreeNeighboursIn(m, u, c);
  }

  /** However many sweeps are run, walls and terminal cells keep their initial utility. */
  lemma {:induction false} IterateKeepsFixed(m: Maze, u0: map<Pos, real>, r: map<Pos, real>,
                                             terminal: set<Pos>, ps: Params, k: nat, c: Pos)
    requires Closed(m) && OnGrid(m, u0) && OnGrid(m, r) && InBounds(m, c)
    requires c in m.walls || c in terminal
    ensures Iterate(m, u0, r, terminal, ps, k)[c] == u0[c]
  {
    if k > 0 {
      var prev := Iterate(m, u0, r, terminal, ps, k - 1);
      IterateKeepsFixed(m, u0, r, terminal, ps, k - 1, c);
      SweepKeepsFixed(m, prev, r, terminal, ps, c);
    }
  }

  /** Utilities that agree on a cell and its neighbours give the same expectation there. */
  lemma ExpectationLocal(u1: map<Pos, real>, u2: map<Pos, real>, pos: Pos, a: Direction,
                         legal: seq<Direction>, ps: Params)
    requires NeighboursIn(u1, pos) && NeighboursIn(u2, pos)
    requires forall d :: u1[NextPos(pos, d)] == u2[NextPos(pos, d)]
    ensures Expectation(u1, pos, a, legal, ps) == Expectation(u2, pos, a, legal, ps)
  {
    if a != Stop {
      var ws, cs := Probs(ps.directionProb, a, legal), Destinations(pos, a);
      assert cs == [NextPos(pos, a), NextPos(pos, Left(a)), NextPos(pos, Right(a)), NextPos(pos, Stop)];
      assert u1[cs[0]] == u2[cs[0]] && u1[cs[1]] == u2[cs[1]] && u1[cs[2]] == u2[cs[2]] && u1[cs[3]] == u2[cs[3]];
    }
  }

  lemma {:induction false} ScanLocal(u1: map<Pos, real>, u2: map<Pos, real>, pos: Pos,
                                     legal: seq<Direction>, ps: Params, todo: seq<Direction>,
                                     best: Choice)
    requires NeighboursIn(u1, pos) && NeighboursIn(u2, pos)
    requires forall d :: u1[NextPos(pos, d)] == u2[NextPos(pos, d)]
    ensures Scan(u1, pos, legal, ps, todo, best) == Scan(u2, pos, legal, ps, todo, best)
    decreases |todo|
  {
    if todo != [] {
      ExpectationLocal(u1, u2, pos, todo[0], legal, ps);
      var e := Expectation(u1, pos, todo[0], legal, ps);
      ScanLocal(u1, u2, pos, legal, ps, todo[1..],
                if best.expectation < e then Choice(todo[0], e) else best);
    }
  }

  /** A sweep is local: a cell's new utility depends only on the previous utilities of the
      cell and its four neighbours. */
  lemma SweepAtLocal(m: Maze, u1: map<Pos, real>, u2: map<Pos, real>, r: map<Pos, real>,
                     terminal: set<Pos>, ps: Params, c: Pos)
    requires Closed(m) && OnGrid(m, u1) && OnGrid(m, u2) && OnGrid(m, r) && InBounds(m, c)
    requires c !in m.walls ==> forall d :: u1[NextPos(c, d)] == u2[NextPos(c, d)]
    requires u1[c] == u2[c]
    ensures SweepAt(m, u1, r, terminal, ps, c) == SweepAt(m, u2, r, terminal, ps, c)
  {
    if c !in m.walls && c !in terminal {
      FreeNeighboursIn(m, u1, c);
      FreeNeighboursIn(m, u2, c);
      PolicyLocal(m, u1, u2, c, ps);
      var e := Policy(m, u1, c, ps).expectation;
      assert SweepAt(m, u1, r, terminal, ps, c) == r[c] + ps.gamma * e;
      assert SweepAt(m, u2, r, terminal, ps, c) == r[c] + ps.gamma * e;
    }
  }

  /** The policy at a cell depends only on the utilities of the cell and its neighbours. */
  lemma PolicyLocal(m: Maze, u1: map<Pos, real>, u2: map<Pos, real>, pos: Pos, ps: Params)
    requires NeighboursIn(u1, pos) && NeighboursIn(u2, pos)
    requires forall d :: u1[NextPos(pos, d)] == u2[NextPos(pos, d)]
    ensures Policy(m, u1, pos, ps) == Policy(m, u2, pos, ps)
  {
    var legal := LegalDirections(m, pos);
    ScanLocal(u1, u2, pos, legal, ps, legal, Choice(Stop, ps.stopReward));
  }

  lemma DestinationsWithin(u: map<Pos, real>, pos: Pos, a: Direction, lo: real, hi: real)
    requires NeighboursIn(u, pos)
    requires forall q :: q in u ==> lo <= u[q] <= hi
    ensures forall i :: 0 <= i < 4 ==> lo <= u[Destinations(pos, a)[i]] <= hi
  {
    var cs := Destinations(pos, a);
    assert cs[0] in u && cs[1] in u && cs[2] in u && cs[3] in u;
  }

  /** When every utility lies in [lo, hi], the policy's expectation at a free cell lies between
      the stop reward and the larger of hi and the stop reward. */
  lemma PolicyValueWithin(m: Maze, u: map<Pos, real>, pos: Pos, ps: Params, lo: real, hi: real)
    requires Closed(m) && OnGrid(m, u) && Free(m, pos)
    requires 0.0 <= ps.directionProb <= 1.0
    requires forall q :: q in u ==> lo <= u[q] <= hi
    ensures ps.stopReward <= Policy(m, u, pos, ps).expectation <= Max(hi, ps.stopReward)
  {
    FreeNeighboursIn(m, u, pos);
    PolicyIsGreedy(m, u, pos, ps);
    var legal := LegalDirections(m, pos);
    var c := Policy(m, u, pos, ps);
    assert GreedyOver(u, pos, legal, ps, legal, c);
    assert c.expectation >= ps.stopReward;
    if c.action != Stop {
      assert c.expectation == Expectation(u, pos, c.action, legal, ps);
      DestinationsWithin(u, pos, c.action, lo, hi);
      ExpectationWithin(u, pos, c.action, legal, ps, lo, hi);
    }
  }

  lemma DiscountedWithin(rc: real, g: real, lo: real, e: real, hi: real)
    requires 0.0 <= g && lo <= e <= hi
    ensures rc + g * lo <= rc + g * e <= rc + g * hi
  {
    ScaleMonotone(g, lo, e);
    ScaleMonotone(g, e, hi);
  }

  /** When every utility lies in [lo, hi] and gamma is non-negative, a sweep puts each free,
      non-terminal cell between its reward plus the discounted stop reward and its reward
      plus the discounted larger of hi and the stop reward. */
  lemma SweepWithin(m: Maze, u: map<Pos, real>, r: map<Pos, real>, terminal: set<Pos>,
                    ps: Params, c: Pos, lo: real, hi: real)
    requires Closed(m) && OnGrid(m, u) && OnGrid(m, r) && Free(m, c) && c !in terminal
    requires 0.0 <= ps.directionProb <= 1.0 && 0.0 <= ps.gamma
    requires forall q :: q in u ==> lo <= u[q] <= hi
    ensures r[c] + ps.gamma * ps.stopReward <= SweepAt(m, u, r, terminal, ps, c)
    ensures SweepAt(m, u, r, terminal, ps, c) <= r[c] + ps.gamma * Max(hi, ps.stopReward)
  {
    PolicyValueWithin(m, u, c, ps, lo, hi);
    DiscountedWithin(r[c], ps.gamma, ps.stopReward, Policy(m, u, c, ps).expectation,
                     Max(hi, ps.stopReward));
  }
}
