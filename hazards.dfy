/** Ghost hazards: which ghosts count, where their danger spreads, and what it is worth. */
module Hazards {
  import opened Grid

  /** A ghost as the environment reports it: its cell and how long it stays edible. */
  datatype GhostState = GhostState(pos: Pos, timer: nat)

  /** The seed dictionary: the cell of every ghost edible for less than bound, mapped to its
      timer; a later ghost on the same cell overwrites an earlier one. */
  function SeedHazards(ghosts: seq<GhostState>, bound: nat): (seed: map<Pos, nat>)
    ensures forall p :: p in seed <==> exists gh :: gh in ghosts && gh.timer < bound && gh.pos == p
    ensures forall p :: p in seed ==> GhostState(p, seed[p]) in ghosts && seed[p] < bound
  {
    if ghosts == [] then map[]
    else
      var prev := SeedHazards(ghosts[..|ghosts| - 1], bound);
      var gh := ghosts[|ghosts| - 1];
      assert ghosts == ghosts[..|ghosts| - 1] + [gh];
      if gh.timer < bound then prev[gh.pos := gh.timer] else prev
  }

  /** The cells that are terminal: where a ghost edible for less than bound stands. */
  function TerminalCells(ghosts: seq<GhostState>, bound: nat): set<Pos> {
    set gh | gh in ghosts && gh.timer < bound :: gh.pos
  }

  /** One legal move, Stop included, leads from p to c. */
  ghost predicate OneMove(m: Maze, p: Pos, c: Pos) {
    exists d :: IsLegal(m, p, d) && NextPos(p, d) == c
  }

  /** c can be reached from p in exactly k legal moves (Stop included). */
  ghost predicate ReachesFrom(m: Maze, p: Pos, k: nat, c: Pos)
    decreases k
  {
    if k == 0 then c == p else exists q :: ReachesFrom(m, p, k - 1, q) && OneMove(m, q, c)
  }

  /** A walk through the maze: every step stays or goes to an adjacent cell, never onto a wall. */
  ghost predicate IsWalk(m: Maze, w: seq<Pos>) {
    forall i :: 1 <= i < |w| ==> w[i] !in m.walls && (w[i] == w[i - 1] || Adjacent(w[i - 1], w[i]))
  }

  /** One legal move is exactly a stay or a step to a neighbour that is not a wall. */
  lemma OneMoveIffStep(m: Maze, p: Pos, c: Pos)
    ensures OneMove(m, p, c) <==> c !in m.walls && (c == p || Adjacent(p, c))
  {
    if c !in m.walls && (c == p || Adjacent(p, c)) {
      var d := if c == p then Stop else if c.x == p.x + 1 then East else if c.x == p.x - 1 then West
               else if c.y == p.y + 1 then North else South;
      assert NextPos(p, d) == c;
    }
  }

  /** Reaching c from p in k moves is the same as a walk of k steps from p to c. */
  lemma {:induction false} ReachesIffWalk(m: Maze, p: Pos, k: nat, c: Pos)
    ensures ReachesFrom(m, p, k, c) <==>
            exists w :: |w| == k + 1 && w[0] == p && w[k] == c && IsWalk(m, w)
    decreases k
  {
    if k == 0 {
      if ReachesFrom(m, p, k, c) {
        assert IsWalk(m, [p]);
      }
    } else {
      if ReachesFrom(m, p, k, c) {
        var q :| ReachesFrom(m, p, k - 1, q) && OneMove(m, q, c);
        ReachesIffWalk(m, p, k - 1, q);
        var w :| |w| == k && w[0] == p && w[k - 1] == q && IsWalk(m, w);
        OneMoveIffStep(m, q, c);
        var w' := w + [c];
        assert IsWalk(m, w');
        assert w'[0] == p && w'[k] == c;
      }
      if exists w :: |w| == k + 1 && w[0] == p && w[k] == c && IsWalk(m, w) {
        var w :| |w| == k + 1 && w[0] == p && w[k] == c && IsWalk(m, w);
        var w' := w[..k];
        assert IsWalk(m, w');
        ReachesIffWalk(m, p, k - 1, w[k - 1]);
        assert w'[0] == p && w'[k - 1] == w[k - 1];
        OneMoveIffStep(m, w[k - 1], c);
        assert ReachesFrom(m, p, k - 1, w[k - 1]) && OneMove(m, w[k - 1], c);
      }
    }
  }

  /** A ghost on a free cell threatens its own cell however many rounds are run. */
  lemma {:induction false} ReachesSelf(m: Maze, p: Pos, k: nat)
    requires p !in m.walls
    ensures ReachesFrom(m, p, k, p)
    decreases k
  {
    if k > 0 {
      ReachesSelf(m, p, k - 1);
      assert NextPos(p, Stop) == p;
      assert OneMove(m, p, p);
    }
  }

  /** In a closed maze, whatever is reached from a free cell is a free cell. */
  lemma {:induction false} ReachesStaysFree(m: Maze, p: Pos, k: nat, c: Pos)
    requires Closed(m) && Free(m, p) && ReachesFrom(m, p, k, c)
    ensures Free(m, c)
    decreases k
  {
    if k > 0 {
      var q :| ReachesFrom(m, p, k - 1, q) && OneMove(m, q, c);
      ReachesStaysFree(m, p, k - 1, q);
      var d :| IsLegal(m, q, d) && NextPos(q, d) == c;
    }
  }

  /** Reaching within k moves implies reaching within k + 1: the danger zone only grows. */
  lemma {:induction false} ReachesMonotone(m: Maze, p: Pos, k: nat, c: Pos)
    requires p !in m.walls && ReachesFrom(m, p, k, c)
    ensures ReachesFrom(m, p, k + 1, c)
    decreases k
  {
    if k == 0 {
      assert NextPos(p, Stop) == p && OneMove(m, p, c);
    } else {
      var q :| ReachesFrom(m, p, k - 1, q) && OneMove(m, q, c);
      ReachesMonotone(m, p, k - 1, q);
      assert ReachesFrom(m, p, k, q) && OneMove(m, q, c);
    }
  }

  /** One round of the expansion: each marked cell marks every cell one legal move away with
      its own timer. The dictionary is walked in no particular order; where two marked cells
      reach the same cell, whichever comes later wins. */
  method ExpandOnce(m: Maze, marked: map<Pos, nat>) returns (next: map<Pos, nat>)
    ensures forall c :: c in next <==> exists p :: p in marked && OneMove(m, p, c)
    ensures forall c :: c in next ==>
              exists p :: p in marked && OneMove(m, p, c) && next[c] == marked[p]
  {
    next := map[];
    var todo := marked.Keys;
    while todo != {}
      invariant todo <= marked.Keys
      invariant forall c :: c in next <==> exists p :: p in marked && p !in todo && OneMove(m, p, c)
      invariant forall c :: c in next ==>
                  exists p :: p in marked && p !in todo && OneMove(m, p, c) && next[c] == marked[p]
      decreases todo
    {
      var p :| p in todo;
      ghost var before := next;
      for k := 0 to |AllDirections|
        invariant forall c :: c in next <==> (c in before ||
                    exists j :: 0 <= j < k && IsLegal(m, p, AllDirections[j]) && NextPos(p, AllDirections[j]) == c)
        invariant forall c :: c in next ==> ((c in before && next[c] == before[c]) ||
                    (OneMove(m, p, c) && next[c] == marked[p]))
      {
        var d := AllDirections[k];
        if IsLegal(m, p, d) {
          next := next[NextPos(p, d) := marked[p]];
        }
      }
      forall c | OneMove(m, p, c)
        ensures c in next
      {
        var d :| IsLegal(m, p, d) && NextPos(p, d) == c;
        assert AllDirections[Rank(d)] == d;
      }
      todo := todo - {p};
    }
  }

  /** rounds rounds of expansion from the seed: exactly the cells reachable in rounds legal
      moves from some seed cell are marked, each with the timer of one such seed cell. */
  method ExpandHazards(m: Maze, seed: map<Pos, nat>, rounds: nat) returns (marked: map<Pos, nat>)
    ensures forall c :: c in marked <==> exists p :: p in seed && ReachesFrom(m, p, rounds, c)
    ensures forall c :: c in marked ==>
              exists p :: p in seed && ReachesFrom(m, p, rounds, c) && marked[c] == seed[p]
  {
    marked := seed;
    for t := 0 to rounds
      invariant ExpandedFor(m, seed, t, marked)
    {
      var next := ExpandOnce(m, marked);
      ExpandStep(m, seed, t, marked, next);
      marked := next;
    }
  }

  /** marked holds exactly the cells reachable in t moves from a seed cell, each with the
      timer of one such seed cell. */
  ghost predicate ExpandedFor(m: Maze, seed: map<Pos, nat>, t: nat, marked: map<Pos, nat>) {
    && (forall c :: c in marked <==> exists p :: p in seed && ReachesFrom(m, p, t, c))
    && (forall c :: c in marked ==>
          exists p :: p in seed && ReachesFrom(m, p, t, c) && marked[c] == seed[p])
  }

  lemma ExpandStep(m: Maze, seed: map<Pos, nat>, t: nat, marked: map<Pos, nat>, next: map<Pos, nat>)
    requires ExpandedFor(m, seed, t, marked)
    requires forall c :: c in next <==> exists p :: p in marked && OneMove(m, p, c)
    requires forall c :: c in next ==>
               exists p :: p in marked && OneMove(m, p, c) && next[c] == marked[p]
    ensures ExpandedFor(m, seed, t + 1, next)
  {
    forall c | c in next
      ensures exists p :: p in seed && ReachesFrom(m, p, t + 1, c) && next[c] == seed[p]
    {
      var q :| q in marked && OneMove(m, q, c) && next[c] == marked[q];
      var p :| p in seed && ReachesFrom(m, p, t, q) && marked[q] == seed[p];
      assert ReachesFrom(m, p, t + 1, c);
    }
    forall c | exists p :: p in seed && ReachesFrom(m, p, t + 1, c)
      ensures c in next
    {
      var p :| p in seed && ReachesFrom(m, p, t + 1, c);
      var q :| ReachesFrom(m, p, t, q) && OneMove(m, q, c);
      assert q in marked;
    }
  }

  function Power(b: real, n: nat): real {
    if n == 0 then 1.0 else b * Power(b, n - 1)
  }

  /** The reward of a cell threatened by a ghost with the given timer: base * base^timer. */
  function HazardValue(base: real, timer: nat): real {
    base * Power(base, timer)
  }

  lemma {:induction false} PowerSign(b: real, n: nat)
    requires b < 0.0
    ensures n % 2 == 0 ==> Power(b, n) > 0.0
    ensures n % 2 == 1 ==> Power(b, n) < 0.0
  {
    if n > 0 {
      PowerSign(b, n - 1);
      var q := Power(b, n - 1);
      assert n % 2 == 0 ==> q < 0.0 && b * q > 0.0;
      assert n % 2 == 1 ==> q > 0.0 && b * q < 0.0;
    }
  }

  /** With a negative base the hazard reward alternates in sign with the timer: an even timer
      gives a penalty, an odd one a bonus. */
  lemma HazardSignAlternates(base: real, timer: nat)
    requires base < 0.0
    ensures timer % 2 == 0 ==> HazardValue(base, timer) < 0.0
    ensures timer % 2 == 1 ==> HazardValue(base, timer) > 0.0
  {
    PowerSign(base, timer + 1);
  }

  /** A ghost that is edible for long enough leaves the seed dictionary unchanged. */
  lemma {:induction false} SeedIgnoresEdible(a: seq<GhostState>, e: GhostState, b: seq<GhostState>,
                                             bound: nat)
    requires e.timer >= bound
    ensures SeedHazards(a + [e] + b, bound) == SeedHazards(a + b, bound)
    decreases |b|
  {
    if b == [] {
      assert a + [e] + b == a + [e] && (a + [e])[..|a|] == a && a + b == a;
    } else {
      var n := |b| - 1;
      SeedIgnoresEdible(a, e, b[..n], bound);
      assert (a + [e] + b)[..|a + [e] + b| - 1] == a + [e] + b[..n];
      assert (a + b)[..|a + b| - 1] == a + b[..n];
    }
  }
}
