/** Greedy action selection at one cell, and its characterisation as the
    earliest best legal move with Stop as the incumbent. */
module Greedy {
  import opened Grid
  import opened Config
  import opened Transition

  /** An action paired with its expected utility. */
  datatype Choice = Choice(action: Direction, expectation: real)

  /** The scan over todo starting from best: a candidate replaces the incumbent only
      when its expectation is strictly larger. */
  function Scan(u: map<Pos, real>, pos: Pos, legal: seq<Direction>, ps: Params,
                todo: seq<Direction>, best: Choice): Choice
    requires NeighboursIn(u, pos)
    decreases |todo|
  {
    if todo == [] then best
    else
      var e := Expectation(u, pos, todo[0], legal, ps);
      Scan(u, pos, legal, ps, todo[1..], if best.expectation < e then Choice(todo[0], e) else best)
  }

  /** The policy at pos: scan the legal directions in the fixed order, Stop at the
      stop reward being the first incumbent. */
  function Policy(m: Maze, u: map<Pos, real>, pos: Pos, ps: Params): Choice
    requires NeighboursIn(u, pos)
  {
    var legal := LegalDirections(m, pos);
    Scan(u, pos, legal, ps, legal, Choice(Stop, ps.stopReward))
  }

  ghost predicate RankSorted(ds: seq<Direction>) {
    forall i, j :: 0 <= i < j < |ds| ==> Rank(ds[i]) < Rank(ds[j])
  }

  /** best is the greedy choice among the directions of done, with Stop as incumbent. */
  ghost predicate GreedyOver(u: map<Pos, real>, pos: Pos, legal: seq<Direction>, ps: Params,
                             done: seq<Direction>, best: Choice)
    requires NeighboursIn(u, pos)
  {
    && best.expectation >= ps.stopReward
    && (forall d :: d in done ==> Expectation(u, pos, d, legal, ps) <= best.expectation)
    && (best.action == Stop ==> best.expectation == ps.stopReward)
    && (best.action != Stop ==>
          && best.action in done
          && best.expectation == Expectation(u, pos, best.action, legal, ps)
          && best.expectation > ps.stopReward)
    && (forall d :: d in done && Rank(d) < Rank(best.action) ==>
          Expectation(u, pos, d, legal, ps) < best.expectation)
  }

  /** The characterisation of the policy: Stop or a legal action; an expectation no smaller
      than the stop reward and than every legal action's; Stop unless something is strictly
      better; and no legal action earlier in the fixed order is as good. */
  ghost predicate IsGreedyChoice(m: Maze, u: map<Pos, real>, pos: Pos, ps: Params, c: Choice)
    requires NeighboursIn(u, pos)
  {
    GreedyOver(u, pos, LegalDirections(m, pos), ps, LegalDirections(m, pos), c)
  }

  lemma {:induction false} ScanIsGreedy(u: map<Pos, real>, pos: Pos, legal: seq<Direction>,
                                        ps: Params, done: seq<Direction>, todo: seq<Direction>,
                                        best: Choice)
    requires NeighboursIn(u, pos)
    requires RankSorted(done + todo)
    requires GreedyOver(u, pos, legal, ps, done, best)
    ensures GreedyOver(u, pos, legal, ps, done + todo, Scan(u, pos, legal, ps, todo, best))
    decreases |todo|
  {
    if todo == [] {
      assert done + todo == done;
    } else {
      var t := todo[0];
      var e := Expectation(u, pos, t, legal, ps);
      var next := if best.expectation < e then Choice(t, e) else best;
      var done' := done + [t];
      assert forall d :: d in done ==> Rank(d) < Rank(t) by {
        forall d | d in done ensures Rank(d) < Rank(t) {
          var i :| 0 <= i < |done| && done[i] == d;
          assert (done + todo)[i] == d && (done + todo)[|done|] == t;
        }
      }
      assert GreedyOver(u, pos, legal, ps, done', next);
      assert done' + todo[1..] == done + todo;
      ScanIsGreedy(u, pos, legal, ps, done', todo[1..], next);
    }
  }

  /** The policy satisfies the greedy characterisation. */
  lemma PolicyIsGreedy(m: Maze, u: map<Pos, real>, pos: Pos, ps: Params)
    requires NeighboursIn(u, pos)
    ensures IsGreedyChoice(m, u, pos, ps, Policy(m, u, pos, ps))
    ensures Policy(m, u, pos, ps).action == Stop || IsLegal(m, pos, Policy(m, u, pos, ps).action)
  {
    var legal := LegalDirections(m, pos);
    LegalDirectionsSorted(m, pos);
    assert [] + legal == legal;
    ScanIsGreedy(u, pos, legal, ps, [], legal, Choice(Stop, ps.stopReward));
  }

  /** At most one choice satisfies the greedy characterisation, so it pins the policy down. */
  lemma GreedyChoiceUnique(m: Maze, u: map<Pos, real>, pos: Pos, ps: Params, c1: Choice, c2: Choice)
    requires NeighboursIn(u, pos)
    requires IsGreedyChoice(m, u, pos, ps, c1) && IsGreedyChoice(m, u, pos, ps, c2)
    ensures c1 == c2
  {
    var legal := LegalDirections(m, pos);
    assert c1.expectation == c2.expectation;
    assert c1.action != Stop ==> c1.action in legal;
    assert c2.action != Stop ==> c2.action in legal;
  }

  /** A choice is the policy exactly when it satisfies the greedy characterisation. */
  lemma PolicyIffGreedy(m: Maze, u: map<Pos, real>, pos: Pos, ps: Params, c: Choice)
    requires NeighboursIn(u, pos)
    ensures c == Policy(m, u, pos, ps) <==> IsGreedyChoice(m, u, pos, ps, c)
  {
    PolicyIsGreedy(m, u, pos, ps);
    if IsGreedyChoice(m, u, pos, ps, c) {
      GreedyChoiceUnique(m, u, pos, ps, c, Policy(m, u, pos, ps));
    }
  }

  /** With every move blocked, the policy stands still at the stop reward. */
  lemma EnclosedChoosesStop(m: Maze, u: map<Pos, real>, pos: Pos, ps: Params)
    requires NeighboursIn(u, pos)
    requires forall d :: d != Stop ==> !IsLegal(m, pos, d)
    ensures Policy(m, u, pos, ps) == Choice(Stop, ps.stopReward)
  {
    PolicyIsGreedy(m, u, pos, ps);
  }
}
