/** Vocabulary shared by the environment and both agents: grid coordinates,
    the four compass directions, the tiles an agent sees around itself and
    the action tokens it answers with. */
module Grid {

  datatype Option<T> = None | Some(value: T)

  /** A cell as (row, column); row 0 is the top row, column 0 the left one. */
  type Pos = (int, int)

  datatype Direction = Up | Down | Left | Right

  /** The order in which the view dictionary, and so every scan over it,
      enumerates the directions. */
  const Directions: seq<Direction> := [Up, Down, Left, Right]

  function Index(d: Direction): (i: nat)
    ensures i < |Directions| && Directions[i] == d
  {
    match d
    case Up => 0
    case Down => 1
    case Left => 2
    case Right => 3
  }

  /** The `dir_map` of the agents: the change in (row, column) of one step. */
  function Delta(d: Direction): (int, int)
  {
    match d
    case Up => (-1, 0)
    case Down => (1, 0)
    case Left => (0, -1)
    case Right => (0, 1)
  }

  function Step(p: Pos, d: Direction): Pos
  {
    (p.0 + Delta(d).0, p.1 + Delta(d).1)
  }

  function Abs(x: int): nat
  {
    if x < 0 then -x else x
  }

  function Manhattan(p: Pos, q: Pos): nat
  {
    Abs(p.0 - q.0) + Abs(p.1 - q.1)
  }

  /** Orthogonal neighbours: Manhattan distance exactly one. */
  predicate Adjacent(p: Pos, q: Pos)
  {
    Manhattan(p, q) == 1
  }

  predicate InBounds(p: Pos, rows: int, cols: int)
  {
    0 <= p.0 < rows && 0 <= p.1 < cols
  }

  /** The four steps are exactly the orthogonal neighbours. */
  lemma StepAdjacent(p: Pos, d: Direction)
    ensures Adjacent(p, Step(p, d))
    ensures Step(p, d) != p
  {
  }

  /** The direction that leads from `p` to an orthogonal neighbour `q`. */
  function DirectionBetween(p: Pos, q: Pos): (d: Direction)
    requires Adjacent(p, q)
    ensures Step(p, d) == q
  {
    if q.0 < p.0 then Up
    else if q.0 > p.0 then Down
    else if q.1 < p.1 then Left
    else Right
  }

  /** What an adjacent cell holds, as `get_tile_info` names it. */
  datatype Tile = Agent1 | Agent2 | Flag | Wall | Empty

  const AgentTiles: set<Tile> := {Agent1, Agent2}

  /** A tile the agents consider safe to step on: an empty cell or the flag. */
  predicate IsSafe(t: Option<Tile>)
  {
    t == Some(Empty) || t == Some(Flag)
  }

  /** The adjacent-info view: one entry per direction, `None` for a cell
      outside the grid. */
  datatype AdjacentInfo = AdjacentInfo(up: Option<Tile>, down: Option<Tile>,
                                       left: Option<Tile>, right: Option<Tile>)
  {
    function Get(d: Direction): Option<Tile>
    {
      match d
      case Up => up
      case Down => down
      case Left => left
      case Right => right
    }

    /** The entry for `d` is a tile from `tiles`. */
    predicate Shows(d: Direction, tiles: set<Tile>)
    {
      Get(d).Some? && Get(d).value in tiles
    }

    /** The first direction, in `Directions` order, whose entry is one of
        `tiles` (a scan of the view in order that stops at the first hit). */
    function FirstShowing(tiles: set<Tile>): (r: Option<Direction>)
      ensures r.Some? ==> Shows(r.value, tiles)
      ensures r.Some? ==> forall e :: Index(e) < Index(r.value) ==> !Shows(e, tiles)
      ensures r.None? ==> forall e :: !Shows(e, tiles)
    {
      if Shows(Up, tiles) then Some(Up)
      else if Shows(Down, tiles) then Some(Down)
      else if Shows(Left, tiles) then Some(Left)
      else if Shows(Right, tiles) then Some(Right)
      else None
    }
  }

  /** The actions an agent may answer with. */
  datatype Action = Go(dir: Direction) | Stay
  {
    function Token(): string
    {
      match this
      case Go(Up) => "up"
      case Go(Down) => "down"
      case Go(Left) => "left"
      case Go(Right) => "right"
      case Stay => "stay"
    }
  }

  /** How the environment reads a token: one of the five literals, or nothing. */
  function ParseToken(s: string): (r: Option<Action>)
    ensures r.Some? ==> r.value.Token() == s
    ensures r.None? ==> forall a: Action :: a.Token() != s
  {
    if s == "up" then Some(Go(Up))
    else if s == "down" then Some(Go(Down))
    else if s == "left" then Some(Go(Left))
    else if s == "right" then Some(Go(Right))
    else if s == "stay" then Some(Stay)
    else None
  }

  /** Every action an agent returns is a token the environment recognises
      as that same action. */
  lemma TokenRoundTrip(a: Action)
    ensures ParseToken(a.Token()) == Some(a)
  {
  }
}
