/** The planning agent: its fixed settings and maze, and the reward, utility and terminal
    state it rebuilds on every turn before choosing a move. */
module Agent {
  import opened Grid
  import opened Config
  import opened Transition
  import opened Greedy
  import opened Hazards
  import opened Rewards
  import opened ValueIteration

  class MDPAgent {
    const ps: Params
    const maze: Maze
    /** Reward of every cell. */
    var R: map<Pos, real>
    /** Current utility of every cell. */
    var U: map<Pos, real>
    /** Cells whose utility value iteration never changes. */
    var terminal: set<Pos>

    /** The maze never lets a move from a free cell leave the board. */
    ghost predicate Valid()
      reads this
    {
      Closed(maze)
    }

    /** The reward and utility maps cover the board, as they do once rewards are built. */
    ghost predicate Ready()
      reads this
    {
      Valid() && OnGrid(maze, R) && OnGrid(maze, U)
    }

    /** Fixes the settings, and takes the board from its far corner and its walls; the
        reward and utility maps stay empty until the first turn builds them. */
    constructor (corner: Pos, walls: set<Pos>, directionProb: real)
      requires 0 <= corner.x && 0 <= corner.y
      requires BorderWalled(Maze(corner.x + 1, corner.y + 1, walls))
      ensures ps == SourceParams(directionProb)
      ensures maze == Maze(corner.x + 1, corner.y + 1, walls)
      ensures R == map[] && U == map[] && terminal == {}
      ensures Valid()
    {
      ps := SourceParams(directionProb);
      maze := Maze(corner.x + 1, corner.y + 1, walls);
      R, U, terminal := map[], map[], {};
      new;
      ClosedIffBorderWalled(maze);
    }

    /** The expected utility of intending action at pos, accumulated outcome by outcome. */
    method GetActionExpectation(pos: Pos, action: Direction, legal: seq<Direction>)
      returns (expectation: real)
      requires NeighboursIn(U, pos)
      ensures expectation == Expectation(U, pos, action, legal, ps)
    {
      if action == Stop {
        return ps.stopReward;
      }
      var left, right := Left(action), Right(action);
      var frontProb := ps.directionProb;
      var leftProb := if left in legal then (1.0 - frontProb) / 2.0 else 0.0;
      var rightProb := if right in legal then (1.0 - frontProb) / 2.0 else 0.0;
      var stopProb := 1.0 - frontProb - leftProb - rightProb;
      var probs := [frontProb, leftProb, rightProb, stopProb];
      var nextPoses := [NextPos(pos, action), NextPos(pos, left), NextPos(pos, right), NextPos(pos, Stop)];
      assert probs == Probs(ps.directionProb, action, legal);
      assert nextPoses == Destinations(pos, action);
      assert forall i :: 0 <= i < 4 ==> nextPoses[i] in U;
      expectation := SumOutcomes(probs, nextPoses);
      ExpectationIsWeightedSum(U, pos, action, legal, ps);
    }

    /** The sum of each outcome's probability times the utility of its cell, term by term. */
    method SumOutcomes(probs: seq<real>, nextPoses: seq<Pos>) returns (expectation: real)
      requires |probs| == |nextPoses|
      requires forall i :: 0 <= i < |nextPoses| ==> nextPoses[i] in U
      ensures expectation == WeightedSum(probs, nextPoses, U)
    {
      expectation := 0.0;
      for k := 0 to |probs|
        invariant expectation == WeightedSum(probs[..k], nextPoses[..k], U)
      {
        WeightedSumSnoc(probs, nextPoses, U, k);
        expectation := expectation + probs[k] * U[nextPoses[k]];
      }
      assert probs[..|probs|] == probs && nextPoses[..|nextPoses|] == nextPoses;
    }

    /** The best action at pos and its expectation: legal actions in the fixed order, an
        action replacing the incumbent only when strictly better, Stop the first incumbent. */
    method GetPolicy(pos: Pos) returns (action: Direction, expectation: real)
      requires NeighboursIn(U, pos)
      ensures Choice(action, expectation) == Policy(maze, U, pos, ps)
    {
      var legal := LegalDirections(maze, pos);
      action, expectation := Stop, ps.stopReward;
      for k := 0 to |legal|
        invariant Scan(U, pos, legal, ps, legal[k..], Choice(action, expectation)) == Policy(maze, U, pos, ps)
      {
        var e := GetActionExpectation(pos, legal[k], legal);
        if expectation < e {
          action, expectation := legal[k], e;
        }
      }
    }

    /** Builds the reward and initial utility maps and the terminal set for one turn: zero
        everywhere, plus the pellet and capsule rewards, then the hazard value painted over
        both maps on every cell the dangerous ghosts reach; terminal cells are where the
        dangerous ghosts stand. */
    method GetReward(food: seq<Pos>, capsules: seq<Pos>, ghosts: seq<GhostState>)
      modifies this
      requires Valid()
      requires forall i :: 0 <= i < |food| ==> InBounds(maze, food[i])
      requires forall i :: 0 <= i < |capsules| ==> InBounds(maze, capsules[i])
      requires GhostsOnFreeCells(maze, ps, ghosts)
      ensures Ready()
      ensures RewardState(maze, ps, food, capsules, ghosts, R, U, terminal)
    {
      var zero := map c | c in Cells(maze) :: 0.0;
      var r := AddRewards(zero, food, ps.pelletReward);
      r := AddRewards(r, capsules, ps.capsuleReward);
      ghost var base := r;
      var seed := SeedHazards(ghosts, ps.ghostTimerBound);
      var marked := ExpandHazards(maze, seed, ps.ghostStepBound);
      MarkedAreFree(maze, ps, ghosts, seed, marked);
      var u;
      r, u := PaintHazards(r, zero, marked, ps.ghostReward);
      R, U, terminal := r, u, TerminalCells(ghosts, ps.ghostTimerBound);
      PaintedRewardState(maze, ps, food, capsules, ghosts, zero, base, seed, marked, R, U, terminal);
    }

    /** One sweep of value iteration over the board, column by column, each cell computed
        from the current utilities only; updated says whether some free, non-terminal cell
        moved by more than eps. */
    method SweepOnce() returns (next: map<Pos, real>, updated: bool)
      requires Ready()
      ensures next == Sweep(maze, U, R, terminal, ps)
      ensures updated <==> !Converged(maze, U, R, terminal, ps)
    {
      next := map[];
      updated := false;
      for i := 0 to maze.width
        invariant forall c :: c in next <==> InBounds(maze, c) && c.x < i
        invariant forall c :: c in next ==> next[c] == SweepAt(maze, U, R, terminal, ps, c)
        invariant updated <==> exists c :: c in next && Moved(c, next[c])
      {
        for j := 0 to maze.height
          invariant forall c :: c in next <==> InBounds(maze, c) && (c.x < i || (c.x == i && c.y < j))
          invariant forall c :: c in next ==> next[c] == SweepAt(maze, U, R, terminal, ps, c)
          invariant updated <==> exists c :: c in next && Moved(c, next[c])
        {
          var c := Pos(i, j);
          var v, moved := SweepCell(c);
          assert c !in next;
          next := next[c := v];
          updated := updated || moved;
        }
      }
      assert forall c :: c in next <==> c in U;
      assert next == Sweep(maze, U, R, terminal, ps);
      assert forall c :: Free(maze, c) && c !in terminal ==> (Moved(c, next[c]) <==> AbsReal(next[c] - U[c]) > ps.eps);
    }

    /** The new utility of cell c in a sweep, and whether it moved by more than eps. */
    method SweepCell(c: Pos) returns (v: real, moved: bool)
      requires Ready() && InBounds(maze, c)
      ensures v == SweepAt(maze, U, R, terminal, ps, c)
      ensures moved <==> Moved(c, v)
    {
      if c in maze.walls || c in terminal {
        v, moved := U[c], false;
      } else {
        FreeNeighboursIn(maze, U, c);
        var action, expectation := GetPolicy(c);
        v := R[c] + ps.gamma * expectation;
        assert v == SweepAt(maze, U, R, terminal, ps, c);
        moved := AbsReal(v - U[c]) > ps.eps;
      }
    }

    /** c is a free, non-terminal cell whose new utility v differs from its current one by
        more than eps. */
    ghost predicate Moved(c: Pos, v: real)
      reads this
      requires c in U
    {
      Free(maze, c) && c !in terminal && AbsReal(v - U[c]) > ps.eps
    }

    /** Value iteration: at most the configured number of sweeps, stopping early, without
        adopting the last sweep, once no free, non-terminal cell moves by more than eps. */
    method Iterations() returns (ghost sweeps: nat)
      modifies this
      requires Ready()
      ensures Ready() && R == old(R) && terminal == old(terminal)
      ensures sweeps <= ps.iterations
      ensures U == Iterate(maze, old(U), R, terminal, ps, sweeps)
      ensures sweeps < ps.iterations ==> Converged(maze, U, R, terminal, ps)
      ensures UnconvergedBefore(maze, old(U), R, terminal, ps, sweeps)
    {
      sweeps := 0;
      for times := 0 to ps.iterations
        invariant Ready() && R == old(R) && terminal == old(terminal)
        invariant sweeps == times
        invariant U == Iterate(maze, old(U), R, terminal, ps, sweeps)
        invariant UnconvergedBefore(maze, old(U), R, terminal, ps, sweeps)
      {
        var next, updated := SweepOnce();
        if !updated {
          break;
        }
        UnconvergedExtend(maze, old(U), R, terminal, ps, sweeps);
        U := next;
        sweeps := sweeps + 1;
      }
    }

    /** One turn: build rewards, run value iteration, and choose the policy's action at
        pacman's cell. */
    method GetAction(pacman: Pos, food: seq<Pos>, capsules: seq<Pos>, ghosts: seq<GhostState>)
      returns (action: Direction, ghost initial: map<Pos, real>, ghost sweeps: nat)
      modifies this
      requires Valid() && Free(maze, pacman)
      requires forall i :: 0 <= i < |food| ==> InBounds(maze, food[i])
      requires forall i :: 0 <= i < |capsules| ==> InBounds(maze, capsules[i])
      requires GhostsOnFreeCells(maze, ps, ghosts)
      ensures Ready()
      ensures RewardState(maze, ps, food, capsules, ghosts, R, initial, terminal)
      ensures sweeps <= ps.iterations
      ensures U == Iterate(maze, initial, R, terminal, ps, sweeps)
      ensures sweeps < ps.iterations ==> Converged(maze, U, R, terminal, ps)
      ensures UnconvergedBefore(maze, initial, R, terminal, ps, sweeps)
      ensures NeighboursIn(U, pacman) && action == Policy(maze, U, pacman, ps).action
      ensures action == Stop || IsLegal(maze, pacman, action)
    {
      GetReward(food, capsules, ghosts);
      initial := U;
      sweeps := Iterations();
      FreeNeighboursIn(maze, U, pacman);
      var expectation;
      action, expectation := GetPolicy(pacman);
      PolicyIsGreedy(maze, U, pacman, ps);
    }
  }
}
