# MDP planner for Pacman, modelled in Dafny

This project models the planning core of the MDP Pacman agent in `pacman-cw/mdpAgents.py`. On every
turn the agent does three things:

- It rebuilds a reward map `R`, an initial utility map `U` and a set of terminal cells from the
  positions of the food, the capsules and the ghosts.
- It runs value iteration over every cell of the board. Each sweep is a Jacobi sweep: every new
  value is computed from the previous utilities only. The loop stops after a fixed number of
  sweeps, or earlier once no cell moves by more than `eps`.
- It returns the greedy action at Pacman's cell.

Movement is noisy:
- the intended move happens with probability `p`;
- each perpendicular move gets `(1 - p) / 2`, but only when it is legal;
- the rest of the probability goes to staying put.

The model has these modules:

- `Grid` (grid.dfy): cells, the five moves and their fixed order (Stop, East, West, North,
  South), and the left and right turn tables. A move is legal when its destination is not a
  wall. `Closed` says that no move from a free cell leaves the board, which is exactly the
  condition that the border is all walls.
- `Config` (config.dfy): the agent's constants. Each reward is derived from the discount in the
  same way the agent derives it.
- `Transition` (transition.dfy): the outcome probabilities and destinations of a move, and its
  expected utility.
- `Greedy` (policy.dfy): the policy scan, and its characterisation as the earliest best legal
  move, with Stop at the stop reward as the first incumbent.
- `Hazards` (hazards.dfy): ghost filtering, the seed dictionary, the flood expansion through
  legal moves, and the hazard value `ghostReward * ghostReward^timer`.
- `Rewards` (rewards.dfy): the pellet and capsule passes, the hazard pass, and `RewardState`,
  the relation that the construction establishes.
- `ValueIteration` (valueiteration.dfy): one sweep as a function of the previous utilities,
  repeated sweeps, and the convergence test.
- `Agent` (agent.dfy): class `MDPAgent` holds the settings, the maze, and the fields `R`, `U`
  and `terminal` that the source updates in place. Its methods are the source's loops, each
  proved against the functions above.

The hazard value alternates in sign with the ghost's timer. With the base of -256, timer 0
gives -256, timer 1 gives +65536 and timer 2 gives -16777216. The model therefore never
assumes that hazard rewards are negative; `HazardSignAlternates` states the alternation.

Wherever a Python dictionary is iterated, the model picks keys in no particular order. This
applies to the expansion and to the hazard pass. The contracts only say that a cell's timer
comes from some ghost that reaches it.

## Model

| member | source | states |
|---|---|---|
| Grid.Rank | pacman-cw/mdpAgents.py:77 | every direction has a position in the fixed move order Stop, East, West, North, South |
| Grid.NextPos | pacman-cw/mdpAgents.py:84-91 | Stop stays on the cell; every other move goes to an adjacent cell (Manhattan distance 1) |
| Grid.NextPosInjective | pacman-cw/mdpAgents.py:84-91 | different moves from a cell lead to different cells |
| Grid.Left | pacman-cw/mdpAgents.py:104 | the left turn is a quarter turn anticlockwise of the move's unit vector; Stop maps to Stop |
| Grid.Right | pacman-cw/mdpAgents.py:105 | the right turn is a quarter turn clockwise; Stop maps to Stop |
| Grid.IsLegal | pacman-cw/mdpAgents.py:94-96 | defines legality: a move is legal at a cell exactly when the cell it leads to is not a wall |
| Grid.StopLegalIffNotWall | pacman-cw/mdpAgents.py:94-96 | Stop is legal at a cell exactly when that cell is not a wall |
| Grid.Cells | pacman-cw/mdpAgents.py:143-144 | the board is exactly the cells with 0 <= x < width and 0 <= y < height, walls included |
| Grid.LegalAmong | pacman-cw/mdpAgents.py:127 | filtering keeps exactly the legal directions of the list |
| Grid.LegalAmongSorted | pacman-cw/mdpAgents.py:127 | filtering keeps the order of the list |
| Grid.LegalDirections | pacman-cw/mdpAgents.py:127 | a direction is in the legal list exactly when it is legal |
| Grid.LegalDirectionsSorted | pacman-cw/mdpAgents.py:127 | the legal list is in the fixed move order |
| Grid.ClosedIffBorderWalled | pacman-cw/mdpAgents.py:94-96 | moves from free cells never leave the board exactly when every border cell is a wall |
| Config.SourceParams | pacman-cw/mdpAgents.py:49-61 | gamma 0.25, 200 sweeps, pellet 2, capsule 8, ghost base -256, stop reward -1e16, eps 1e-20, 1 expansion round, timer bound 3 |
| Transition.Probs | pacman-cw/mdpAgents.py:108-112 | four outcome probabilities, the first being the intended move's probability p |
| Transition.Destinations | pacman-cw/mdpAgents.py:115 | four outcome cells in the order front, left, right, stay; the last is the cell itself |
| Transition.Expectation | pacman-cw/mdpAgents.py:99-122 | defines a move's expected utility: the stop reward for Stop, otherwise the sum over the four outcomes of probability times the utility of the outcome's cell |
| Transition.ProbsFormDistribution | pacman-cw/mdpAgents.py:108-112 | for a real move and 0 <= p <= 1 the four probabilities are non-negative and sum to 1, whichever sides are legal; with both sides legal, staying gets 0 |
| Transition.WeightedSumSnoc | pacman-cw/mdpAgents.py:119-120 | one more outcome adds its probability times its cell's utility |
| Transition.ExpectationIsWeightedSum | pacman-cw/mdpAgents.py:115-122 | a real move's expectation is the probability-weighted sum of its destinations' utilities |
| Transition.StopIgnoresUtilities | pacman-cw/mdpAgents.py:101 | Stop is valued at the stop reward, whatever the utilities are |
| Transition.WeightedSumBounds | pacman-cw/mdpAgents.py:118-120 | a non-negative weighting of values in [lo, hi] lies between lo and hi times the total weight |
| Transition.ExpectationWithin | pacman-cw/mdpAgents.py:99-122 | a real move's expectation lies between any lower and upper bounds on its four destinations' utilities |
| Transition.WallsCarryNoMass | pacman-cw/mdpAgents.py:109-110 | for a legal move from a free cell, no outcome that lands on a wall has positive probability |
| Greedy.Scan | pacman-cw/mdpAgents.py:130-134 | defines the scan: each candidate in turn replaces the incumbent only when its expectation is strictly larger |
| Greedy.Policy | pacman-cw/mdpAgents.py:125-136 | defines the policy: the scan of the legal directions in the fixed order, starting from Stop at the stop reward |
| Greedy.ScanIsGreedy | pacman-cw/mdpAgents.py:130-134 | the strict-improvement scan keeps the greedy invariant over the directions seen so far |
| Greedy.PolicyIsGreedy | pacman-cw/mdpAgents.py:125-136 | the policy is Stop or a legal move; its value is at least the stop reward and every legal move's value; a move other than Stop is chosen only when strictly better than Stop; no earlier legal move is as good |
| Greedy.GreedyChoiceUnique | pacman-cw/mdpAgents.py:125-136 | at most one choice satisfies the greedy characterisation |
| Greedy.PolicyIffGreedy | pacman-cw/mdpAgents.py:125-136 | a choice is the policy exactly when it satisfies the greedy characterisation |
| Greedy.EnclosedChoosesStop | pacman-cw/mdpAgents.py:130-136 | with every move blocked, the policy is Stop at the stop reward |
| Hazards.SeedHazards | pacman-cw/mdpAgents.py:152 | a cell is in the seed exactly when a ghost with timer below the bound stands there; its timer is one such ghost's timer |
| Hazards.OneMoveIffStep | pacman-cw/mdpAgents.py:156 | one legal move reaches exactly the cell itself and the adjacent cells that are not walls |
| Hazards.ReachesIffWalk | pacman-cw/mdpAgents.py:154-156 | k rounds of expansion reach exactly the ends of k-step walks that stay or move to a non-wall neighbour |
| Hazards.ReachesSelf | pacman-cw/mdpAgents.py:156 | because Stop is a move, a ghost's own free cell stays marked however many rounds run |
| Hazards.ReachesMonotone | pacman-cw/mdpAgents.py:154-156 | one more round never loses a cell |
| Hazards.ReachesStaysFree | pacman-cw/mdpAgents.py:156 | in a closed maze, expansion from a free cell only reaches free cells |
| Hazards.ExpandOnce | pacman-cw/mdpAgents.py:156 | one round marks exactly the cells one legal move from a marked cell, each with the timer of one such cell |
| Hazards.ExpandStep | pacman-cw/mdpAgents.py:155-156 | one round turns the t-move reachability relation into the (t+1)-move one |
| Hazards.ExpandHazards | pacman-cw/mdpAgents.py:154-156 | after the rounds, a cell is marked exactly when it is reachable in that many legal moves from a seed cell, with that seed's timer |
| Hazards.PowerSign | pacman-cw/mdpAgents.py:160 | a negative base raised to an even power is positive, and to an odd power negative |
| Hazards.HazardSignAlternates | pacman-cw/mdpAgents.py:160 | with a negative base the hazard value is negative for an even timer and positive for an odd one |
| Hazards.SeedIgnoresEdible | pacman-cw/mdpAgents.py:152 | a ghost whose timer is at least the bound leaves the seed unchanged, wherever it is in the list |
| Hazards.HazardValue | pacman-cw/mdpAgents.py:160 | defines the hazard value: the ghost base times the base raised to the ghost's timer |
| Hazards.TerminalCells | pacman-cw/mdpAgents.py:163 | defines the terminal set: the cells of the ghosts whose timer is below the bound |
| Rewards.AddRewards | pacman-cw/mdpAgents.py:147-148 | keeps the keys, and adds the reward to each cell once per occurrence in the list |
| Rewards.RepeatIsProduct | pacman-cw/mdpAgents.py:147-148 | adding w n times gives w * n |
| Rewards.CountAtMostOne | pacman-cw/mdpAgents.py:147-148 | in a list without repeats, a cell occurs once or not at all |
| Rewards.BaseRewardIndicator | pacman-cw/mdpAgents.py:143-148 | without repeated cells, a cell's base reward is the pellet reward when it has food plus the capsule reward when it has a capsule |
| Rewards.RewardState | pacman-cw/mdpAgents.py:139-163 | defines a turn's reward state: both maps cover the board; a hazardous cell has reward and utility equal to the hazard value of a ghost that threatens it; any other cell has its pellet and capsule reward and utility 0; the terminal set is that of the dangerous ghosts |
| Rewards.TerminalsAreHazards | pacman-cw/mdpAgents.py:152-163 | every terminal cell is a free hazard cell whose utility starts at the hazard value of a dangerous ghost |
| Rewards.EdibleGhostIgnored | pacman-cw/mdpAgents.py:152-163 | adding a ghost whose timer is at least the bound changes neither the possible reward states nor the terminal set |
| Rewards.MarkedAreHazards | pacman-cw/mdpAgents.py:152-160 | the expanded cells are exactly the hazardous ones, each with the timer of a ghost that threatens it |
| Rewards.MarkedAreFree | pacman-cw/mdpAgents.py:154-160 | with dangerous ghosts on free cells of a closed maze, every expanded cell is free |
| Rewards.PaintHazards | pacman-cw/mdpAgents.py:158-160 | every marked cell gets its hazard value in both maps, and the other entries are unchanged |
| Rewards.PaintedRewardState | pacman-cw/mdpAgents.py:139-163 | zero maps, the two reward passes, the expansion and the hazard pass together produce a reward state |
| ValueIteration.FreeNeighboursIn | pacman-cw/mdpAgents.py:120 | in a closed maze, every cell one move from a free cell has a utility |
| ValueIteration.SweepAt | pacman-cw/mdpAgents.py:182-186 | defines one cell's new utility: a wall or terminal cell keeps its utility; any other cell gets its reward plus gamma times the policy's expectation against the previous utilities |
| ValueIteration.Sweep | pacman-cw/mdpAgents.py:178-186 | a sweep yields a utility for every cell of the board |
| ValueIteration.Iterate | pacman-cw/mdpAgents.py:176-193 | any number of sweeps yields a utility for every cell of the board |
| ValueIteration.Converged | pacman-cw/mdpAgents.py:188-192 | defines convergence: no free, non-terminal cell would move by more than eps in the next sweep |
| ValueIteration.UnconvergedBefore | pacman-cw/mdpAgents.py:176-193 | defines an unconverged prefix: none of the first n iterates had converged, so the loop went on past each of them |
| ValueIteration.SweepKeepsFixed | pacman-cw/mdpAgents.py:182 | walls and terminal cells keep their utility in a sweep |
| ValueIteration.SweepUpdatesFree | pacman-cw/mdpAgents.py:184-186 | every other cell becomes its reward plus gamma times the policy's expectation against the previous utilities |
| ValueIteration.IterateKeepsFixed | pacman-cw/mdpAgents.py:176-193 | however many sweeps run, walls and terminal cells keep their initial utility |
| ValueIteration.ExpectationLocal | pacman-cw/mdpAgents.py:115-120 | a move's expectation depends only on the utilities of the cell and its neighbours |
| ValueIteration.ScanLocal | pacman-cw/mdpAgents.py:130-134 | so does the scan |
| ValueIteration.PolicyLocal | pacman-cw/mdpAgents.py:125-136 | so does the policy |
| ValueIteration.SweepAtLocal | pacman-cw/mdpAgents.py:182-186 | so does a cell's new value |
| ValueIteration.PolicyValueWithin | pacman-cw/mdpAgents.py:125-136 | with utilities in [lo, hi], the policy's value lies between the stop reward and the larger of hi and the stop reward |
| ValueIteration.SweepWithin | pacman-cw/mdpAgents.py:184-186 | with utilities in [lo, hi], a free non-terminal cell's new value lies between its reward plus gamma times the stop reward and its reward plus gamma times max(hi, stop reward) |
| Agent.MDPAgent.constructor | pacman-cw/mdpAgents.py:42-77 | the settings are the agent's constants; the board is one larger than the far corner; the maze is closed when the border is walled |
| Agent.MDPAgent.GetActionExpectation | pacman-cw/mdpAgents.py:99-122 | the accumulated expectation is the expected utility of the move, and the stop reward for Stop |
| Agent.MDPAgent.SumOutcomes | pacman-cw/mdpAgents.py:118-120 | the loop computes the probability-weighted sum of the outcome utilities |
| Agent.MDPAgent.GetPolicy | pacman-cw/mdpAgents.py:125-136 | the loop returns the policy, which PolicyIffGreedy characterises |
| Agent.MDPAgent.GetReward | pacman-cw/mdpAgents.py:139-163 | the maps cover the board and form a reward state; the terminal cells are those of the dangerous ghosts |
| Agent.MDPAgent.SweepCell | pacman-cw/mdpAgents.py:182-190 | a cell's new value is its sweep value; it is flagged exactly when it is free, non-terminal and moved by more than eps |
| Agent.MDPAgent.SweepOnce | pacman-cw/mdpAgents.py:177-190 | the nested loops build exactly the sweep of the current utilities; updated holds exactly when the utilities have not converged |
| Agent.MDPAgent.Iterations | pacman-cw/mdpAgents.py:176-193 | at most the configured number of sweeps; U is the iterate after them; an early stop means converged; every earlier iterate was unconverged, so the loop stops at the first converged iterate; the unadopted sweep is dropped; R and the terminal set are unchanged |
| Agent.MDPAgent.GetAction | pacman-cw/mdpAgents.py:166-196 | the rewards form a reward state; U is a bounded number of sweeps from the initial utilities, stopping at the first converged iterate, or at the cap; the action is the policy at Pacman's cell, Stop or legal |

## Left out

- Printing, `registerInitialState` plumbing and `final` are I/O and are not modelled. The
  constructor takes the far corner and the wall set as inputs.
- The `api` calls are taken as parameters: `food`, `capsules`, `ghostStatesWithTimes`,
  `whereAmI` and `directionProb`. `legalActions` and `makeMove` (lines 197-200) are game code
  outside this model, so `GetAction` returns the policy's action itself.
- The `Directions.LEFT` and `Directions.RIGHT` tables live in game code that is not part of
  this model. They are modelled as the fixed quarter-turn tables.
- Floating point is modelled as exact `real` arithmetic. Nothing is claimed about IEEE rounding,
  or about whether `eps = 1e-20` can be met in floats.
- Convergence within the sweep cap is not claimed. Only the cap and the early-exit condition
  are modelled, because the code promises nothing more.
- Python 2 dictionary iteration order is not modelled. The expansion and the hazard pass take
  keys in an unspecified order, so which timer wins a collision is left open.
- `getNextPos` returns `None` for an unknown action (line 91). The model's five-value
  direction type rules this out.
- Ghost positions are whole cells. The source truncates them for the seed (line 152), but
  builds the terminal set from the raw position (line 163). A ghost between two cells
  therefore makes no cell terminal in the source. That case is not modelled.
- Out-of-bounds lookups, and the `KeyError` they raise, are excluded by preconditions.
  The border must be walls (the constructor). Food and capsules must lie on the board
  (`GetReward`, `GetAction`). Pacman must be on a free cell (`GetAction`).
- Dangerous ghosts must stand on free cells (`GetReward`, `GetAction`), as the game puts
  them. This requirement excludes no error: the hazard pass only assigns (line 160), and an
  assignment creates the key. The model therefore leaves out what the source does with a
  ghost off the board or on a wall. Off the board, it adds keys outside the board to `R` and
  `U`. On a wall, it makes that wall terminal and paints the wall's free neighbours.
- Rewards.AddRewards: states each cell's increase as the reward added once per occurrence,
  and not as a product. `RepeatIsProduct` relates the two.
- Agent.MDPAgent.GetPolicy: its contract is equality with `Policy`. The greedy properties are
  proved about `Policy` in `PolicyIsGreedy` and `PolicyIffGreedy`, not repeated on the method.
