/** The reward and initial-utility maps built before value iteration. */
module Rewards {
  import opened Grid
  import opened Config
  import opened Hazards

  /** A cell's reward from the pellet and capsule passes: each occurrence in a list adds
      that list's reward, so a cell holding both gets the sum. */
  function BaseReward(ps: Params, food: seq<Pos>, capsules: seq<Pos>, c: Pos): real {
    Repeat(ps.pelletReward, Count(food, c)) + Repeat(ps.capsuleReward, Count(capsules, c))
  }

  /** One reward pass: add reward to the entry of every listed cell, in list order. */
  method AddRewards(r: map<Pos, real>, items: seq<Pos>, reward: real) returns (out: map<Pos, real>)
    requires forall i :: 0 <= i < |items| ==> items[i] in r
    ensures out.Keys == r.Keys
    ensures forall c :: c in r ==> out[c] == r[c] + Repeat(reward, Count(items, c))
  {
    out := r;
    for k := 0 to |items|
      invariant out.Keys == r.Keys
      invariant forall c :: c in r ==> out[c] == r[c] + Repeat(reward, Count(items[..k], c))
    {
      assert items[..k + 1][..k] == items[..k];
      out := out[items[k] := out[items[k]] + reward];
    }
    assert items[..|items|] == items;
  }

  /** The number of occurrences of c in s. */
  function Count(s: seq<Pos>, c: Pos): nat {
    if s == [] then 0 else Count(s[..|s| - 1], c) + (if s[|s| - 1] == c then 1 else 0)
  }

  /** w added to itself n times. */
  function Repeat(w: real, n: nat): real {
    if n == 0 then 0.0 else Repeat(w, n - 1) + w
  }

  lemma {:induction false} RepeatIsProduct(w: real, n: nat)
    ensures Repeat(w, n) == w * (n as real)
  {
    if n > 0 {
      RepeatIsProduct(w, n - 1);
      assert w * (n as real) == w * ((n - 1) as real) + w;
    }
  }

  /** gh is a dangerous ghost (edible for less than the timer bound) from which c can be
      reached in the configured number of expansion rounds. */
  ghost predicate Threatens(m: Maze, ps: Params, ghosts: seq<GhostState>, gh: GhostState, c: Pos) {
    gh in ghosts && gh.timer < ps.ghostTimerBound && ReachesFrom(m, gh.pos, ps.ghostStepBound, c)
  }

  ghost predicate Hazardous(m: Maze, ps: Params, ghosts: seq<GhostState>, c: Pos) {
    exists gh :: Threatens(m, ps, ghosts, gh, c)
  }

  /** The state the reward construction leaves: maps over all cells; a hazard cell has reward
      and utility both equal to the hazard value of one ghost threatening it; any other cell
      has its pellet and capsule reward and utility 0; the terminal cells are those of the
      dangerous ghosts. */
  ghost predicate RewardState(m: Maze, ps: Params, food: seq<Pos>, capsules: seq<Pos>,
                              ghosts: seq<GhostState>, r: map<Pos, real>, u: map<Pos, real>,
                              terminal: set<Pos>)
  {
    && OnGrid(m, r) && OnGrid(m, u)
    && terminal == TerminalCells(ghosts, ps.ghostTimerBound)
    && forall c :: InBounds(m, c) ==>
         if Hazardous(m, ps, ghosts, c) then
           && r[c] == u[c]
           && exists gh :: Threatens(m, ps, ghosts, gh, c) && r[c] == HazardValue(ps.ghostReward, gh.timer)
         else
           r[c] == BaseReward(ps, food, capsules, c) && u[c] == 0.0
  }

  /** The ghosts the reward construction may rely on: every dangerous ghost on a free cell. */
  ghost predicate GhostsOnFreeCells(m: Maze, ps: Params, ghosts: seq<GhostState>) {
    forall gh :: gh in ghosts && gh.timer < ps.ghostTimerBound ==> Free(m, gh.pos)
  }

  /** Terminal cells are hazard cells, so their utility starts at a hazard value. */
  lemma TerminalsAreHazards(m: Maze, ps: Params, food: seq<Pos>, capsules: seq<Pos>,
                            ghosts: seq<GhostState>, r: map<Pos, real>, u: map<Pos, real>,
                            terminal: set<Pos>, c: Pos)
    requires RewardState(m, ps, food, capsules, ghosts, r, u, terminal)
    requires GhostsOnFreeCells(m, ps, ghosts)
    requires c in terminal
    ensures Free(m, c) && Hazardous(m, ps, ghosts, c) && u[c] == r[c]
    ensures exists gh :: gh in ghosts && gh.timer < ps.ghostTimerBound && u[c] == HazardValue(ps.ghostReward, gh.timer)
  {
    var gh :| gh in ghosts && gh.timer < ps.ghostTimerBound && gh.pos == c;
    ReachesSelf(m, c, ps.ghostStepBound);
    assert Threatens(m, ps, ghosts, gh, c);
  }

  /** A ghost edible for at least the timer bound has no influence: the possible reward
      states with it are exactly those without it. */
  lemma EdibleGhostIgnored(m: Maze, ps: Params, food: seq<Pos>, capsules: seq<Pos>,
                           a: seq<GhostState>, e: GhostState, b: seq<GhostState>,
                           r: map<Pos, real>, u: map<Pos, real>, terminal: set<Pos>)
    requires e.timer >= ps.ghostTimerBound
    ensures RewardState(m, ps, food, capsules, a + [e] + b, r, u, terminal) <==>
            RewardState(m, ps, food, capsules, a + b, r, u, terminal)
    ensures GhostsOnFreeCells(m, ps, a + [e] + b) <==> GhostsOnFreeCells(m, ps, a + b)
  {
    var with, without := a + [e] + b, a + b;
    assert forall gh :: gh in with && gh.timer < ps.ghostTimerBound <==>
                        gh in without && gh.timer < ps.ghostTimerBound;
    assert TerminalCells(with, ps.ghostTimerBound) == TerminalCells(without, ps.ghostTimerBound);
    assert forall gh, c :: Threatens(m, ps, with, gh, c) <==> Threatens(m, ps, without, gh, c);
  }

  lemma {:induction false} CountAtMostOne(s: seq<Pos>, c: Pos)
    requires forall i, j :: 0 <= i < j < |s| ==> s[i] != s[j]
    ensures Count(s, c) == if c in s then 1 else 0
  {
    if s != [] {
      var n := |s| - 1;
      CountAtMostOne(s[..n], c);
      assert s == s[..n] + [s[n]];
      assert s[n] !in s[..n];
    }
  }

  /** When neither list repeats a cell, the base reward is the pellet reward for food plus
      the capsule reward for a capsule. */
  lemma BaseRewardIndicator(ps: Params, food: seq<Pos>, capsules: seq<Pos>, c: Pos)
    requires forall i, j :: 0 <= i < j < |food| ==> food[i] != food[j]
    requires forall i, j :: 0 <= i < j < |capsules| ==> capsules[i] != capsules[j]
    ensures BaseReward(ps, food, capsules, c) ==
            (if c in food then ps.pelletReward else 0.0) + (if c in capsules then ps.capsuleReward else 0.0)
  {
    CountAtMostOne(food, c);
    CountAtMostOne(capsules, c);
    assert Repeat(ps.pelletReward, 1) == ps.pelletReward;
    assert Repeat(ps.capsuleReward, 1) == ps.capsuleReward;
  }

  /** The cells marked by the expansion are exactly the hazardous cells, each carrying the
      timer of a ghost that threatens it. */
  lemma MarkedAreHazards(m: Maze, ps: Params, ghosts: seq<GhostState>, seed: map<Pos, nat>,
                         marked: map<Pos, nat>)
    requires seed == SeedHazards(ghosts, ps.ghostTimerBound)
    requires ExpandedFor(m, seed, ps.ghostStepBound, marked)
    ensures forall c :: c in marked <==> Hazardous(m, ps, ghosts, c)
    ensures forall c :: c in marked ==>
              exists gh :: Threatens(m, ps, ghosts, gh, c) && marked[c] == gh.timer
  {
    forall c | c in marked
      ensures exists gh :: Threatens(m, ps, ghosts, gh, c) && marked[c] == gh.timer
    {
      var p :| p in seed && ReachesFrom(m, p, ps.ghostStepBound, c) && marked[c] == seed[p];
      assert Threatens(m, ps, ghosts, GhostState(p, seed[p]), c);
    }
    forall c | Hazardous(m, ps, ghosts, c)
      ensures c in marked
    {
      var gh :| Threatens(m, ps, ghosts, gh, c);
      assert gh.pos in seed;
    }
  }

  /** Under the ghosts the game produces, every marked cell is a free cell of the maze. */
  lemma MarkedAreFree(m: Maze, ps: Params, ghosts: seq<GhostState>, seed: map<Pos, nat>,
                      marked: map<Pos, nat>)
    requires Closed(m) && GhostsOnFreeCells(m, ps, ghosts)
    requires seed == SeedHazards(ghosts, ps.ghostTimerBound)
    requires ExpandedFor(m, seed, ps.ghostStepBound, marked)
    ensures forall c :: c in marked ==> Free(m, c)
  {
    forall c | c in marked
      ensures Free(m, c)
    {
      var p :| p in seed && ReachesFrom(m, p, ps.ghostStepBound, c);
      var gh :| gh in ghosts && gh.timer < ps.ghostTimerBound && gh.pos == p;
      ReachesStaysFree(m, p, ps.ghostStepBound, c);
    }
  }

  /** The hazard pass: every marked cell gets the hazard value of its timer in both maps;
      the marked cells are visited in no particular order. */
  method PaintHazards(r: map<Pos, real>, u: map<Pos, real>, marked: map<Pos, nat>, base: real)
    returns (r': map<Pos, real>, u': map<Pos, real>)
    requires marked.Keys <= r.Keys && r.Keys == u.Keys
    ensures r'.Keys == r.Keys && u'.Keys == u.Keys
    ensures forall c :: c in marked ==> r'[c] == u'[c] == HazardValue(base, marked[c])
    ensures forall c :: c in r && c !in marked ==> r'[c] == r[c] && u'[c] == u[c]
  {
    r', u' := r, u;
    var todo := marked.Keys;
    while todo != {}
      invariant todo <= marked.Keys
      invariant r'.Keys == r.Keys && u'.Keys == u.Keys
      invariant forall c :: c in marked && c !in todo ==> r'[c] == u'[c] == HazardValue(base, marked[c])
      invariant forall c :: c in r && (c !in marked || c in todo) ==> r'[c] == r[c] && u'[c] == u[c]
      decreases todo
    {
      var c :| c in todo;
      var v := HazardValue(base, marked[c]);
      r' := r'[c := v];
      u' := u'[c := v];
      todo := todo - {c};
    }
  }

  /** The maps built by the reward passes, the expansion and the hazard pass form a reward state. */
  lemma PaintedRewardState(m: Maze, ps: Params, food: seq<Pos>, capsules: seq<Pos>,
                           ghosts: seq<GhostState>, zero: map<Pos, real>, base: map<Pos, real>,
                           seed: map<Pos, nat>, marked: map<Pos, nat>,
                           r: map<Pos, real>, u: map<Pos, real>, terminal: set<Pos>)
    requires OnGrid(m, zero) && forall c :: c in zero ==> zero[c] == 0.0
    requires base.Keys == zero.Keys
    requires forall c :: c in zero ==>
               base[c] == zero[c] + Repeat(ps.pelletReward, Count(food, c)) + Repeat(ps.capsuleReward, Count(capsules, c))
    requires seed == SeedHazards(ghosts, ps.ghostTimerBound)
    requires ExpandedFor(m, seed, ps.ghostStepBound, marked)
    requires forall c :: c in marked ==> InBounds(m, c)
    requires r.Keys == base.Keys && u.Keys == zero.Keys
    requires forall c :: c in marked ==> r[c] == u[c] == HazardValue(ps.ghostReward, marked[c])
    requires forall c :: c in base && c !in marked ==> r[c] == base[c] && u[c] == zero[c]
    requires terminal == TerminalCells(ghosts, ps.ghostTimerBound)
    ensures RewardState(m, ps, food, capsules, ghosts, r, u, terminal)
  {
    MarkedAreHazards(m, ps, ghosts, seed, marked);
  }
}
