/** The noisy movement model: the probabilities of the four outcomes of an
    intended move, and the expected utility of that move. */
module Transition {
  import opened Grid
  import opened Config

  /** Probabilities of going front, left, right, and staying put, for intended move a
      when the legal directions at the cell are legal. A side gets its share only when
      it is legal; whatever is not assigned stays put. */
  function Probs(p: real, a: Direction, legal: seq<Direction>): (r: seq<real>)
    ensures |r| == 4 && r[0] == p
  {
    var leftProb := if Left(a) in legal then (1.0 - p) / 2.0 else 0.0;
    var rightProb := if Right(a) in legal then (1.0 - p) / 2.0 else 0.0;
    [p, leftProb, rightProb, 1.0 - p - leftProb - rightProb]
  }

  /** The cells the four outcomes lead to, in the order of Probs. */
  function Destinations(pos: Pos, a: Direction): (r: seq<Pos>)
    ensures |r| == 4 && r[3] == pos
  {
    [NextPos(pos, a), NextPos(pos, Left(a)), NextPos(pos, Right(a)), NextPos(pos, Stop)]
  }

  function Total(ws: seq<real>): real {
    if ws == [] then 0.0 else Total(ws[..|ws| - 1]) + ws[|ws| - 1]
  }

  /** Sum of ws[i] * u[cs[i]], accumulated from the front. */
  function WeightedSum(ws: seq<real>, cs: seq<Pos>, u: map<Pos, real>): real
    requires |ws| == |cs|
    requires forall i :: 0 <= i < |cs| ==> cs[i] in u
  {
    if ws == [] then 0.0
    else WeightedSum(ws[..|ws| - 1], cs[..|cs| - 1], u) + ws[|ws| - 1] * u[cs[|cs| - 1]]
  }

  /** Every cell one move away from pos (pos included) has a utility. */
  ghost predicate NeighboursIn(u: map<Pos, real>, pos: Pos) {
    forall d :: NextPos(pos, d) in u
  }

  /** Expected utility of intending move a at pos; Stop is valued at the stop reward. */
  function Expectation(u: map<Pos, real>, pos: Pos, a: Direction, legal: seq<Direction>,
                       ps: Params): real
    requires NeighboursIn(u, pos)
  {
    if a == Stop then ps.stopReward
    else
      var ws, cs := Probs(ps.directionProb, a, legal), Destinations(pos, a);
      ws[0] * u[cs[0]] + ws[1] * u[cs[1]] + ws[2] * u[cs[2]] + ws[3] * u[cs[3]]
  }

  /** Extending both sequences by one element adds one weighted term. */
  lemma WeightedSumSnoc(ws: seq<real>, cs: seq<Pos>, u: map<Pos, real>, k: nat)
    requires |ws| == |cs| && k < |ws|
    requires forall i :: 0 <= i < |cs| ==> cs[i] in u
    ensures WeightedSum(ws[..k + 1], cs[..k + 1], u) == WeightedSum(ws[..k], cs[..k], u) + ws[k] * u[cs[k]]
  {
    assert ws[..k + 1][..k] == ws[..k] && cs[..k + 1][..k] == cs[..k];
  }

  /** A non-Stop expectation is the weighted sum of the destinations' utilities. */
  lemma ExpectationIsWeightedSum(u: map<Pos, real>, pos: Pos, a: Direction, legal: seq<Direction>,
                                 ps: Params)
    requires a != Stop && NeighboursIn(u, pos)
    ensures Expectation(u, pos, a, legal, ps) ==
            WeightedSum(Probs(ps.directionProb, a, legal), Destinations(pos, a), u)
  {
    var ws, cs := Probs(ps.directionProb, a, legal), Destinations(pos, a);
    assert forall i :: 0 <= i < 4 ==> cs[i] in u;
    WeightedSumSnoc(ws, cs, u, 0);
    WeightedSumSnoc(ws, cs, u, 1);
    WeightedSumSnoc(ws, cs, u, 2);
    WeightedSumSnoc(ws, cs, u, 3);
    assert ws[..0] == [] && cs[..0] == [] && ws[..4] == ws && cs[..4] == cs;
  }

  /** For a real move the four probabilities form a distribution, however many sides are legal;
      with both sides legal nothing is left for staying put. */
  lemma ProbsFormDistribution(p: real, a: Direction, legal: seq<Direction>)
    requires a != Stop && 0.0 <= p <= 1.0
    ensures forall i :: 0 <= i < 4 ==> Probs(p, a, legal)[i] >= 0.0
    ensures Total(Probs(p, a, legal)) == 1.0
    ensures Left(a) in legal && Right(a) in legal ==> Probs(p, a, legal)[3] == 0.0
  {
    var r := Probs(p, a, legal);
    assert r[..1][..0] == [] && r[..2][..1] == r[..1] && r[..3][..2] == r[..2] && r[..3] == r[..|r| - 1];
    assert Total(r[..1]) == r[0];
    assert Total(r[..2]) == r[0] + r[1];
    assert Total(r[..3]) == r[0] + r[1] + r[2];
    assert Total(r) == r[0] + r[1] + r[2] + r[3];
  }

  /** Stop is valued at the stop reward whatever the utilities are. */
  lemma StopIgnoresUtilities(u1: map<Pos, real>, u2: map<Pos, real>, pos: Pos,
                             legal: seq<Direction>, ps: Params)
    requires NeighboursIn(u1, pos) && NeighboursIn(u2, pos)
    ensures Expectation(u1, pos, Stop, legal, ps) == ps.stopReward
    ensures Expectation(u2, pos, Stop, legal, ps) == Expectation(u1, pos, Stop, legal, ps)
  {
  }

  lemma ScaleMonotone(w: real, a: real, b: real)
    requires w >= 0.0 && a <= b
    ensures w * a <= w * b
  {
    assert w * b - w * a == w * (b - a);
  }

  /** A non-negative weighting of values in [lo, hi] lies between lo and hi times the total weight. */
  lemma {:induction false} WeightedSumBounds(ws: seq<real>, cs: seq<Pos>, u: map<Pos, real>,
                                             lo: real, hi: real)
    requires |ws| == |cs|
    requires forall i :: 0 <= i < |cs| ==> cs[i] in u && lo <= u[cs[i]] <= hi
    requires forall i :: 0 <= i < |ws| ==> ws[i] >= 0.0
    ensures lo * Total(ws) <= WeightedSum(ws, cs, u) <= hi * Total(ws)
  {
    if ws != [] {
      var n := |ws| - 1;
      WeightedSumBounds(ws[..n], cs[..n], u, lo, hi);
      var w, v := ws[n], u[cs[n]];
      var t, s := Total(ws[..n]), WeightedSum(ws[..n], cs[..n], u);
      assert Total(ws) == t + w;
      assert WeightedSum(ws, cs, u) == s + w * v;
      StepBounds(lo, hi, t, s, w, v);
    }
  }

  /** One more weighted term keeps a weighted sum between lo and hi times the total weight. */
  lemma StepBounds(lo: real, hi: real, t: real, s: real, w: real, v: real)
    requires lo * t <= s <= hi * t && w >= 0.0 && lo <= v <= hi
    ensures lo * (t + w) <= s + w * v <= hi * (t + w)
  {
    ScaleMonotone(w, lo, v);
    ScaleMonotone(w, v, hi);
    assert lo * (t + w) == lo * t + lo * w;
    assert hi * (t + w) == hi * t + hi * w;
  }

  /** The expectation of a real move lies between any lower and upper bound of the
      utilities of its four destinations (in particular their min and max). */
  lemma ExpectationWithin(u: map<Pos, real>, pos: Pos, a: Direction, legal: seq<Direction>,
                          ps: Params, lo: real, hi: real)
    requires a != Stop && 0.0 <= ps.directionProb <= 1.0
    requires NeighboursIn(u, pos)
    requires forall i :: 0 <= i < 4 ==> lo <= u[Destinations(pos, a)[i]] <= hi
    ensures lo <= Expectation(u, pos, a, legal, ps) <= hi
  {
    ProbsFormDistribution(ps.directionProb, a, legal);
    ExpectationIsWeightedSum(u, pos, a, legal, ps);
    WeightedSumBounds(Probs(ps.directionProb, a, legal), Destinations(pos, a), u, lo, hi);
  }

  /** For a legal move from a free cell, walls receive no probability. */
  lemma WallsCarryNoMass(m: Maze, pos: Pos, a: Direction, p: real)
    requires Free(m, pos) && a != Stop && IsLegal(m, pos, a)
    ensures forall i :: 0 <= i < 4 && Destinations(pos, a)[i] in m.walls ==>
              Probs(p, a, LegalDirections(m, pos))[i] == 0.0
  {
    var legal := LegalDirections(m, pos);
    var ws, cs := Probs(p, a, legal), Destinations(pos, a);
    assert cs[1] in m.walls ==> Left(a) !in legal;
    assert cs[2] in m.walls ==> Right(a) !in legal;
  }
}
