/** Board geometry: cells, the five moves, the perpendicular-turn tables and the
    rule that decides whether a move is allowed. */
module Grid {

  /** A cell of the maze; x grows to the east, y to the north. */
  datatype Pos = Pos(x: int, y: int)

  datatype Direction = Stop | East | West | North | South

  /** The maze: its size (one more than the far corner) and its walls. */
  datatype Maze = Maze(width: nat, height: nat, walls: set<Pos>)

  /** The fixed order in which the planner tries moves. */
  const AllDirections: seq<Direction> := [Stop, East, West, North, South]

  /** The place of a direction in AllDirections. */
  function Rank(d: Direction): (r: nat)
    ensures r < |AllDirections| && AllDirections[r] == d
  {
    match d
    case Stop => 0
    case East => 1
    case West => 2
    case North => 3
    case South => 4
  }

  function Abs(n: int): nat {
    if n < 0 then -n else n
  }

  /** Two cells one step apart along a row or a column. */
  predicate Adjacent(p: Pos, q: Pos) {
    Abs(p.x - q.x) + Abs(p.y - q.y) == 1
  }

  /** The cell reached from pos by one move. */
  function NextPos(pos: Pos, a: Direction): (r: Pos)
    ensures a == Stop ==> r == pos
    ensures a != Stop ==> Adjacent(pos, r)
  {
    match a
    case Stop => pos
    case East => Pos(pos.x + 1, pos.y)
    case West => Pos(pos.x - 1, pos.y)
    case North => Pos(pos.x, pos.y + 1)
    case South => Pos(pos.x, pos.y - 1)
  }

  /** Components of the unit vector of a direction (zero for Stop). */
  function DX(d: Direction): int {
    match d
    case East => 1
    case West => -1
    case _ => 0
  }

  function DY(d: Direction): int {
    match d
    case North => 1
    case South => -1
    case _ => 0
  }

  /** The game's left-turn table: a quarter turn anticlockwise; Stop stays Stop. */
  function Left(d: Direction): (r: Direction)
    ensures DX(r) == -DY(d) && DY(r) == DX(d)
    ensures d != Stop <==> r != Stop
  {
    match d
    case North => West
    case South => East
    case East => North
    case West => South
    case Stop => Stop
  }

  /** The game's right-turn table: a quarter turn clockwise; Stop stays Stop. */
  function Right(d: Direction): (r: Direction)
    ensures DX(r) == DY(d) && DY(r) == -DX(d)
    ensures d != Stop <==> r != Stop
  {
    match d
    case North => East
    case South => West
    case East => South
    case West => North
    case Stop => Stop
  }

  /** A move is legal when its destination is not a wall; bounds are not consulted. */
  predicate IsLegal(m: Maze, pos: Pos, a: Direction) {
    NextPos(pos, a) !in m.walls
  }

  predicate InBounds(m: Maze, c: Pos) {
    0 <= c.x < m.width && 0 <= c.y < m.height
  }

  /** A cell of the maze that is not a wall. */
  predicate Free(m: Maze, c: Pos) {
    InBounds(m, c) && c !in m.walls
  }

  /** Every cell of the maze, walls included. */
  function Cells(m: Maze): (r: set<Pos>)
    ensures forall c :: c in r <==> InBounds(m, c)
  {
    var r := set x: int, y: int | 0 <= x < m.width && 0 <= y < m.height :: Pos(x, y);
    assert forall c :: InBounds(m, c) ==> Pos(c.x, c.y) in r;
    r
  }

  /** A map defined on exactly the cells of the maze. */
  ghost predicate OnGrid<V>(m: Maze, u: map<Pos, V>) {
    forall c :: c in u <==> InBounds(m, c)
  }

  /** Every move from a free cell lands inside the maze, so lookups never fall off the board. */
  ghost predicate Closed(m: Maze) {
    forall c, d :: Free(m, c) ==> InBounds(m, NextPos(c, d))
  }

  predicate OnBorder(m: Maze, c: Pos) {
    c.x == 0 || c.x == m.width - 1 || c.y == 0 || c.y == m.height - 1
  }

  /** The maze's outer ring consists of walls. */
  ghost predicate BorderWalled(m: Maze) {
    forall c :: InBounds(m, c) && OnBorder(m, c) ==> c in m.walls
  }

  /** The legal directions among ds, in the order of ds. */
  function LegalAmong(m: Maze, pos: Pos, ds: seq<Direction>): (r: seq<Direction>)
    ensures forall d :: d in r <==> d in ds && IsLegal(m, pos, d)
  {
    if ds == [] then []
    else
      var rest := LegalAmong(m, pos, ds[1..]);
      if IsLegal(m, pos, ds[0]) then [ds[0]] + rest else rest
  }

  /** Filtering keeps the order of ds. */
  lemma {:induction false} LegalAmongSorted(m: Maze, pos: Pos, ds: seq<Direction>)
    requires forall i, j :: 0 <= i < j < |ds| ==> Rank(ds[i]) < Rank(ds[j])
    ensures forall i, j :: 0 <= i < j < |LegalAmong(m, pos, ds)| ==>
              Rank(LegalAmong(m, pos, ds)[i]) < Rank(LegalAmong(m, pos, ds)[j])
  {
    if ds != [] {
      var rest := LegalAmong(m, pos, ds[1..]);
      LegalAmongSorted(m, pos, ds[1..]);
      assert forall k :: 0 <= k < |rest| ==> rest[k] in ds[1..];
      assert forall k :: 0 <= k < |rest| ==> Rank(ds[0]) < Rank(rest[k]);
    }
  }

  /** The legal directions at pos, in the planner's fixed order. */
  function LegalDirections(m: Maze, pos: Pos): (r: seq<Direction>)
    ensures forall d :: d in r <==> IsLegal(m, pos, d)
  {
    LegalAmong(m, pos, AllDirections)
  }

  /** The legal directions come in the planner's fixed order. */
  lemma LegalDirectionsSorted(m: Maze, pos: Pos)
    ensures forall i, j :: 0 <= i < j < |LegalDirections(m, pos)| ==>
              Rank(LegalDirections(m, pos)[i]) < Rank(LegalDirections(m, pos)[j])
  {
    LegalAmongSorted(m, pos, AllDirections);
  }

  /** Different directions lead to different cells. */
  lemma NextPosInjective(pos: Pos, a: Direction, b: Direction)
    ensures NextPos(pos, a) == NextPos(pos, b) ==> a == b
  {
  }

  /** Stop is legal exactly at non-wall cells. */
  lemma StopLegalIffNotWall(m: Maze, pos: Pos)
    ensures IsLegal(m, pos, Stop) <==> pos !in m.walls
  {
  }

  /** A maze is closed exactly when its border is walls. */
  lemma ClosedIffBorderWalled(m: Maze)
    ensures Closed(m) <==> BorderWalled(m)
  {
    if Closed(m) {
      forall c | InBounds(m, c) && OnBorder(m, c)
        ensures c in m.walls
      {
        var d := if c.x == 0 then West else if c.x == m.width - 1 then East
                 else if c.y == 0 then South else North;
        assert !InBounds(m, NextPos(c, d));
      }
    }
    if BorderWalled(m) {
      forall c, d | Free(m, c)
        ensures InBounds(m, NextPos(c, d))
      {
        assert !OnBorder(m, c);
      }
    }
  }
}
