/** The grid-world state machine of envs/gridworld.py: a fixed wall matrix,
    two agents, a flag, a score per agent and the turn bookkeeping. */
module Environment {
  import opened Grid
  import opened Paths

  /** What a cell of the wall matrix holds: `'empty'` or `'wall'`. */
  datatype Cell = EmptyCell | WallCell

  /** The wall matrix `grid` together with `grid_size`. It is fixed once
      the walls are placed. */
  datatype Board = Board(rows: nat, cols: nat, cells: seq<seq<Cell>>)
  {
    predicate WellFormed()
    {
      |cells| == rows && forall i :: 0 <= i < rows ==> |cells[i]| == cols
    }

    predicate InGrid(p: Pos)
    {
      InBounds(p, rows, cols)
    }

    predicate IsWall(p: Pos)
      requires WellFormed() && InGrid(p)
    {
      cells[p.0][p.1] == WallCell
    }

    /** A cell an agent may stand on: on the grid and not a wall. */
    predicate IsOpen(p: Pos)
      requires WellFormed()
    {
      InGrid(p) && !IsWall(p)
    }

    function OpenCells(): (s: set<Pos>)
      requires WellFormed()
      ensures forall p :: p in s <==> IsOpen(p)
    {
      set x, y | 0 <= x < rows && 0 <= y < cols && cells[x][y] == EmptyCell :: (x, y)
    }

    /** One test of `get_neighbors`: the neighbour towards `d` when it is
        on the grid and not a wall. */
    function Toward(p: Pos, d: Direction): (ns: seq<Pos>)
      requires WellFormed() && InGrid(p)
      ensures ns == if IsOpen(Step(p, d)) then [Step(p, d)] else []
      ensures forall q :: q in ns ==> Adjacent(p, q) && IsOpen(q)
    {
      StepAdjacent(p, d);
      match d
      case Up => if p.0 > 0 && !IsWall((p.0 - 1, p.1)) then [(p.0 - 1, p.1)] else []
      case Down => if p.0 < rows - 1 && !IsWall((p.0 + 1, p.1)) then [(p.0 + 1, p.1)] else []
      case Left => if p.1 > 0 && !IsWall((p.0, p.1 - 1)) then [(p.0, p.1 - 1)] else []
      case Right => if p.1 < cols - 1 && !IsWall((p.0, p.1 + 1)) then [(p.0, p.1 + 1)] else []
    }

    /** `get_neighbors`: the open orthogonal neighbours of an on-grid cell,
        in the order up, down, left, right. */
    function Neighbors(p: Pos): (ns: seq<Pos>)
      requires WellFormed() && InGrid(p)
      ensures forall q :: q in ns ==> Adjacent(p, q) && IsOpen(q)
    {
      Toward(p, Up) + Toward(p, Down) + Toward(p, Left) + Toward(p, Right)
    }

    /** Every open orthogonal neighbour of `p` is among its neighbours. */
    lemma NeighborsComplete(p: Pos, d: Direction)
      requires WellFormed() && InGrid(p) && IsOpen(Step(p, d))
      ensures Step(p, d) in Neighbors(p)
    {
      var up, down, left, right := Toward(p, Up), Toward(p, Down), Toward(p, Left), Toward(p, Right);
      var q := Step(p, d);
      match d
      case Up => assert q in up;
      case Down => assert q in down;
      case Left => assert q in left;
      case Right => assert q in right;
    }
  }

  /** Every open cell of the board can be reached from `start` by steps
      between open orthogonal neighbours: the layout `place_walls` accepts. */
  ghost predicate Connected(board: Board, start: Pos)
    requires board.WellFormed()
  {
    forall c :: c in board.OpenCells() ==> Reachable(board.OpenCells(), start, c)
  }

  /** Every on-grid orthogonal neighbour of `p` is a wall or the opponent's cell. */
  predicate Stuck(board: Board, p: Pos, opp: Pos)
    requires board.WellFormed()
  {
    forall d :: board.InGrid(Step(p, d)) ==> board.IsWall(Step(p, d)) || Step(p, d) == opp
  }

  type AgentId = i: int | i == 1 || i == 2 witness 1

  function Other(id: AgentId): AgentId
  {
    3 - id
  }

  /** The score map with `delta` added to the entry of `id`. */
  function Credit(scores: map<AgentId, real>, id: AgentId, delta: real): map<AgentId, real>
    requires id in scores
  {
    scores[id := scores[id] + delta]
  }

  /** Why the match ended (`game_end_reason`). */
  datatype EndReason = Agent1CapturedFlag | Agent2CapturedFlag | TurnLimitReached
                     | Agent1IsStuck | Agent2IsStuck
  {
    function Message(): string
    {
      match this
      case Agent1CapturedFlag => "Agent1 captured the flag"
      case Agent2CapturedFlag => "Agent2 captured the flag"
      case TurnLimitReached => "Turn limit reached"
      case Agent1IsStuck => "Agent1 is stuck"
      case Agent2IsStuck => "Agent2 is stuck"
    }
  }

  /** Each way of ending the match has a message of its own. */
  lemma MessagesDistinct(a: EndReason, b: EndReason)
    ensures a.Message() == b.Message() <==> a == b
  {
  }

  lemma {:induction false} ReachableStep(open: set<Pos>, s: Pos, u: Pos, n: Pos)
    requires Reachable(open, s, u) && Adjacent(u, n) && n in open
    ensures Reachable(open, s, n)
  {
    var w :| IsWalk(open, w) && w[0] == s && Last(w) == u;
    ExtendWalk(open, w, n);
  }

  /** The inner loop of `is_connected`: every neighbour in `ns` not yet
      visited is marked visited and appended to the queue. */
  method EnqueueUnvisited(board: Board, ghost open: set<Pos>, ghost start: Pos, ghost cur: Pos, ns: seq<Pos>,
                          visited: set<Pos>, queue: seq<Pos>)
    returns (visited': set<Pos>, queue': seq<Pos>)
    requires board.WellFormed()
    requires forall i :: 0 <= i < |ns| ==> Adjacent(cur, ns[i]) && board.IsOpen(ns[i]) && ns[i] in open
    requires cur in visited && visited <= open
    requires forall v :: v in visited ==> Reachable(open, start, v)
    ensures visited <= visited' <= open
    ensures forall i :: 0 <= i < |ns| ==> ns[i] in visited'
    ensures Elements(queue') == Elements(queue) + (visited' - visited)
    ensures |open - visited'| + |queue'| == |open - visited| + |queue|
    ensures forall v :: v in visited' ==> Reachable(open, start, v)
    ensures forall x :: x in visited' - visited ==> x in ns
    ensures |queue| <= |queue'| && queue'[..|queue|] == queue
  {
    visited', queue' := visited, queue;
    for i := 0 to |ns|
      invariant visited <= visited' <= open
      invariant Elements(ns[..i]) <= visited'
      invariant Elements(queue') == Elements(queue) + (visited' - visited)
      invariant |open - visited'| + |queue'| == |open - visited| + |queue|
      invariant forall v :: v in visited' ==> Reachable(open, start, v)
      invariant forall x :: x in visited' - visited ==> x in ns
      invariant |queue| <= |queue'| && queue'[..|queue|] == queue
    {
      visited', queue' := VisitNeighbour(board, open, start, cur, ns, i, visited, queue, visited', queue');
    }
    forall i | 0 <= i < |ns|
      ensures ns[i] in visited'
    {
      assert ns[..|ns|] == ns;
      assert ns[i] in Elements(ns);
    }
  }

  /** One pass of the inner loop of `is_connected`: the `i`-th neighbour,
      when it is no wall and not yet visited, is marked visited and
      appended to the queue. */
  method VisitNeighbour(board: Board, ghost open: set<Pos>, ghost start: Pos, ghost cur: Pos, ns: seq<Pos>, i: nat,
                        ghost visited: set<Pos>, ghost queue: seq<Pos>, visited': set<Pos>, queue': seq<Pos>)
    returns (visited'': set<Pos>, queue'': seq<Pos>)
    requires board.WellFormed() && i < |ns|
    requires Adjacent(cur, ns[i]) && board.IsOpen(ns[i]) && ns[i] in open
    requires cur in visited && visited <= visited' <= open
    requires Elements(ns[..i]) <= visited'
    requires Elements(queue') == Elements(queue) + (visited' - visited)
    requires forall v :: v in visited' ==> Reachable(open, start, v)
    requires forall x :: x in visited' - visited ==> x in ns
    requires |queue| <= |queue'| && queue'[..|queue|] == queue
    ensures visited'' == visited' + {ns[i]}
    ensures queue'' == if ns[i] in visited' then queue' else queue' + [ns[i]]
    ensures visited <= visited'' <= open
    ensures Elements(ns[..i + 1]) <= visited''
    ensures Elements(queue'') == Elements(queue) + (visited'' - visited)
    ensures |open - visited''| + |queue''| == |open - visited'| + |queue'|
    ensures forall v :: v in visited'' ==> Reachable(open, start, v)
    ensures forall x :: x in visited'' - visited ==> x in ns
    ensures |queue| <= |queue''| && queue''[..|queue|] == queue
  {
    var n := ns[i];
    assert ns[..i + 1] == ns[..i] + [n];
    ElementsOfSnoc(ns[..i], n);
    visited'', queue'' := visited', queue';
    if !board.IsWall(n) && n !in visited' {
      ReachableStep(open, start, cur, n);
      ElementsOfSnoc(queue', n);
      assert open - (visited' + {n}) == (open - visited') - {n};
      visited'' := visited' + {n};
      queue'' := queue' + [n];
      assert queue''[..|queue|] == queue'[..|queue|];
    }
  }

  lemma NeighborsAreOpen(board: Board, open: set<Pos>, cur: Pos)
    requires board.WellFormed() && board.IsOpen(cur)
    requires forall p {:trigger board.IsOpen(p)} :: board.IsOpen(p) <==> p in open
    ensures var ns := board.Neighbors(cur);
            forall i :: 0 <= i < |ns| ==> Adjacent(cur, ns[i]) && board.IsOpen(ns[i]) && ns[i] in open
  {
    var ns := board.Neighbors(cur);
    forall i | 0 <= i < |ns|
      ensures Adjacent(cur, ns[i]) && board.IsOpen(ns[i]) && ns[i] in open
    {
      assert ns[i] in ns;
    }
  }

  /** Once every open neighbour of `cur` is visited, adding `cur` to the
      expanded cells keeps them closed in the visited ones. */
  lemma ClosedAfterExpand(board: Board, open: set<Pos>, done: set<Pos>, cur: Pos,
                          visited: set<Pos>, visited': set<Pos>)
    requires board.WellFormed() && board.IsOpen(cur)
    requires forall p {:trigger board.IsOpen(p)} :: board.IsOpen(p) <==> p in open
    requires ClosedIn(open, done, visited) && visited <= visited'
    requires var ns := board.Neighbors(cur); forall i :: 0 <= i < |ns| ==> ns[i] in visited'
    ensures ClosedIn(open, done + {cur}, visited')
  {
    var ns := board.Neighbors(cur);
    forall v, d | v in done + {cur} && Step(v, d) in open
      ensures Step(v, d) in visited'
    {
      if v == cur {
        assert board.IsOpen(Step(cur, d));
        board.NeighborsComplete(cur, d);
      }
    }
  }

  /** After the head of the queue is expanded, the visited cells are again
      the expanded ones together with those still queued. */
  lemma RequeuedSplit(done: set<Pos>, queue: seq<Pos>, visited: set<Pos>, visited': set<Pos>, queue': seq<Pos>)
    requires queue != [] && visited == done + Elements(queue) && visited <= visited'
    requires Elements(queue') == Elements(queue[1..]) + (visited' - visited)
    ensures visited' == (done + {queue[0]}) + Elements(queue')
  {
    ElementsOfTail(queue);
  }

  /** One round of the search loop of `is_connected`: pop the head of the
      queue and visit its unvisited open neighbours. The head joins the
      cells whose neighbours have all been looked at. */
  method ExpandHead(board: Board, ghost open: set<Pos>, ghost start: Pos,
                    visited: set<Pos>, queue: seq<Pos>, ghost done: set<Pos>)
    returns (visited': set<Pos>, queue': seq<Pos>, ghost done': set<Pos>)
    requires board.WellFormed() && queue != []
    requires forall p {:trigger board.IsOpen(p)} :: board.IsOpen(p) <==> p in open
    requires start in visited && visited <= open
    requires visited == done + Elements(queue)
    requires ClosedIn(open, done, visited)
    requires forall v :: v in visited ==> Reachable(open, start, v)
    ensures start in visited' && visited' <= open
    ensures visited' == done' + Elements(queue')
    ensures ClosedIn(open, done', visited')
    ensures forall v :: v in visited' ==> Reachable(open, start, v)
    ensures |open - visited'| + |queue'| < |open - visited| + |queue|
    ensures done' == done + {queue[0]}
    ensures |queue| - 1 <= |queue'| && queue'[..|queue| - 1] == queue[1..]
  {
    var cur := queue[0];
    var rest := queue[1..];
    done' := done + {cur};
    assert cur in visited && board.IsOpen(cur);
    var ns := board.Neighbors(cur);
    NeighborsAreOpen(board, open, cur);
    visited', queue' := EnqueueUnvisited(board, open, start, cur, ns, visited, rest);
    assert |rest| == |queue| - 1 && queue'[..|rest|] == rest;
    RequeuedSplit(done, queue, visited, visited', queue');
    ClosedAfterExpand(board, open, done, cur, visited, visited');
  }

  /** The search half of `is_connected`: the set of cells the queue ever
      held is exactly the set reachable from `start`. */
  method Flood(board: Board, start: Pos) returns (visited: set<Pos>)
    requires board.WellFormed() && board.IsOpen(start)
    ensures forall c :: c in visited <==> Reachable(board.OpenCells(), start, c)
  {
    ghost var open := board.OpenCells();
    visited := {start};
    var queue: seq<Pos> := [start];
    // the visited cells whose neighbours have all been looked at
    ghost var done: set<Pos> := {};
    assert IsWalk(open, [start]);
    while queue != []
      invariant start in visited && visited <= open
      invariant visited == done + Elements(queue)
      invariant ClosedIn(open, done, visited)
      invariant forall v :: v in visited ==> Reachable(open, start, v)
      decreases |open - visited| + |queue|
    {
      visited, queue, done := ExpandHead(board, open, start, visited, queue, done);
    }
    forall c | Reachable(open, start, c)
      ensures c in visited
    {
      var w :| IsWalk(open, w) && w[0] == start && Last(w) == c;
      ClosedContainsWalk(open, visited, w);
    }
  }

  class GridWorld {
    const board: Board
    const flagPos: Pos
    var agent1Pos: Pos
    var agent2Pos: Pos
    /** 0 while agent 1 is to act, 1 while agent 2 is. */
    var turn: int
    /** Completed full turns (one action of each agent). */
    var turns: int
    var scores: map<AgentId, real>
    var gameEndReason: Option<EndReason>

    /** Both agents and the flag stand on open cells, the agents on
        different ones; both scores exist. */
    ghost predicate Valid()
      reads this
    {
      board.WellFormed() &&
      board.IsOpen(agent1Pos) && board.IsOpen(agent2Pos) && board.IsOpen(flagPos) &&
      agent1Pos != agent2Pos &&
      1 in scores && 2 in scores &&
      (turn == 0 || turn == 1) && turns >= 0
    }

    function PosOf(id: AgentId): Pos
      reads this
    {
      if id == 1 then agent1Pos else agent2Pos
    }

    /** A mover whose new cell is the flag earns 50. */
    function FlagBonus(p: Pos): real
    {
      if p == flagPos then 50.0 else 0.0
    }

    /** The state `__init__` leaves once `place_walls` has accepted a
        connected layout: random draws are replaced by the arguments. */
    constructor (board: Board, agent1Pos: Pos, agent2Pos: Pos, flagPos: Pos)
      requires board.WellFormed()
      requires board.IsOpen(agent1Pos) && board.IsOpen(agent2Pos) && board.IsOpen(flagPos)
      requires agent1Pos != agent2Pos && agent1Pos != flagPos && agent2Pos != flagPos
      requires Connected(board, agent1Pos)
      ensures Valid()
      ensures this.board == board && this.flagPos == flagPos
      ensures this.agent1Pos == agent1Pos && this.agent2Pos == agent2Pos
      ensures turn == 0 && turns == 0 && scores == map[1 := 0.0, 2 := 0.0]
      ensures gameEndReason == None
    {
      this.board := board;
      this.flagPos := flagPos;
      this.agent1Pos := agent1Pos;
      this.agent2Pos := agent2Pos;
      turn := 0;
      turns := 0;
      scores := map[1 := 0.0, 2 := 0.0];
      gameEndReason := None;
    }

    /** `is_connected`: breadth-first search from agent 1's cell, then a scan
        of the whole matrix for an open cell the search did not reach. */
    method IsConnected() returns (connected: bool)
      requires board.WellFormed() && board.IsOpen(agent1Pos)
      ensures connected <==> Connected(board, agent1Pos)
    {
      ghost var open := board.OpenCells();
      var visited := Flood(board, agent1Pos);
      for x := 0 to board.rows
        invariant forall c :: c in open && c.0 < x ==> c in visited
      {
        for y := 0 to board.cols
          invariant forall c :: c in open && (c.0 < x || (c.0 == x && c.1 < y)) ==> c in visited
        {
          if !board.IsWall((x, y)) && (x, y) !in visited {
            assert (x, y) in open && !Reachable(open, agent1Pos, (x, y));
            return false;
          }
        }
      }
      return true;
    }

    /** `get_tile_info`: what an on-grid cell shows, with priority
        agent 1, agent 2, flag, wall, empty. */
    function TileInfo(p: Pos): (t: Tile)
      reads this
      requires board.WellFormed() && board.InGrid(p)
      ensures t == Agent1 <==> p == agent1Pos
      ensures t == Agent2 <==> p == agent2Pos && p != agent1Pos
      ensures t == Flag <==> p == flagPos && p != agent1Pos && p != agent2Pos
      ensures t == Wall <==> board.IsWall(p) && p != agent1Pos && p != agent2Pos && p != flagPos
    {
      if p == agent1Pos then Agent1
      else if p == agent2Pos then Agent2
      else if p == flagPos then Flag
      else if board.IsWall(p) then Wall
      else Empty
    }

    /** `get_adjacent_info`: the four neighbours of an on-grid cell, `None`
        exactly for a neighbour off the grid. */
    function AdjacentView(pos: Pos): (v: AdjacentInfo)
      reads this
      requires board.WellFormed() && board.InGrid(pos)
      ensures forall d :: v.Get(d).None? <==> !board.InGrid(Step(pos, d))
      ensures forall d :: board.InGrid(Step(pos, d)) ==> v.Get(d) == Some(TileInfo(Step(pos, d)))
    {
      var x, y := pos.0, pos.1;
      AdjacentInfo(
        if x > 0 then Some(TileInfo((x - 1, y))) else None,
        if x < board.rows - 1 then Some(TileInfo((x + 1, y))) else None,
        if y > 0 then Some(TileInfo((x, y - 1))) else None,
        if y < board.cols - 1 then Some(TileInfo((x, y + 1))) else None)
    }

    /** In a valid state the view reports a wall exactly where the matrix
        has one: agents and the flag never stand on walls. */
    lemma ViewShowsWalls(p: Pos)
      requires Valid() && board.InGrid(p)
      ensures TileInfo(p) == Wall <==> board.IsWall(p)
    {
    }

    /** An agent is stuck exactly when its own view shows, in every
        direction, the grid edge, a wall or the opponent. */
    lemma StuckIffViewBlocked(id: AgentId)
      requires Valid()
      ensures Stuck(board, PosOf(id), PosOf(Other(id))) <==>
              forall d :: AdjacentView(PosOf(id)).Get(d) in
                {None, Some(Wall), Some(if id == 1 then Agent2 else Agent1)}
    {
      var p, opp := PosOf(id), PosOf(Other(id));
      var v := AdjacentView(p);
      var oppTile := if id == 1 then Agent2 else Agent1;
      forall d
        ensures (board.InGrid(Step(p, d)) ==> board.IsWall(Step(p, d)) || Step(p, d) == opp) <==>
                v.Get(d) in {None, Some(Wall), Some(oppTile)}
      {
        StepAdjacent(p, d);
        if board.InGrid(Step(p, d)) {
          ViewShowsWalls(Step(p, d));
        }
      }
    }

    /** `is_stuck`: scans the four neighbours and reports whether none is
        an on-grid, non-wall cell free of the opponent. */
    method IsStuck(id: AgentId) returns (stuck: bool)
      requires Valid()
      ensures stuck <==> Stuck(board, PosOf(id), PosOf(Other(id)))
    {
      var p := PosOf(id);
      var opp := PosOf(Other(id));
      for k := 0 to 4
        invariant forall j :: 0 <= j < k ==>
          (board.InGrid(Step(p, Directions[j])) ==>
             board.IsWall(Step(p, Directions[j])) || Step(p, Directions[j]) == opp)
      {
        var n := Step(p, Directions[k]);
        if board.InGrid(n) {
          if !board.IsWall(n) && n != opp {
            return false;
          }
        }
      }
      forall d
        ensures board.InGrid(Step(p, d)) ==> board.IsWall(Step(p, d)) || Step(p, d) == opp
      {
        assert Directions[Index(d)] == d;
      }
      return true;
    }

    /** The token dispatch of `apply_action`: the cell a direction token
        asks for, and whether it is on the grid and not a wall. `stay` and
        an unrecognised token ask for no move at all. */
    method Target(pos: Pos, action: string) returns (newPos: Pos, moved: bool)
      requires board.WellFormed() && board.InGrid(pos)
      ensures ParseToken(action).Some? && ParseToken(action).value.Go? ==>
        var target := Step(pos, ParseToken(action).value.dir);
        (moved <==> board.IsOpen(target)) && newPos == (if moved then target else pos)
      ensures ParseToken(action).None? || ParseToken(action) == Some(Stay) ==>
        !moved && newPos == pos
    {
      newPos := pos;
      moved := false;
      if action == "up" {
        assert ParseToken(action) == Some(Go(Up));
        if pos.0 > 0 && !board.IsWall((pos.0 - 1, pos.1)) {
          newPos := (newPos.0 - 1, newPos.1);
          moved := true;
        }
      } else if action == "down" {
        assert ParseToken(action) == Some(Go(Down));
        if pos.0 < board.rows - 1 && !board.IsWall((pos.0 + 1, pos.1)) {
          newPos := (newPos.0 + 1, newPos.1);
          moved := true;
        }
      } else if action == "left" {
        assert ParseToken(action) == Some(Go(Left));
        if pos.1 > 0 && !board.IsWall((pos.0, pos.1 - 1)) {
          newPos := (newPos.0, newPos.1 - 1);
          moved := true;
        }
      } else if action == "right" {
        assert ParseToken(action) == Some(Go(Right));
        if pos.1 < board.cols - 1 && !board.IsWall((pos.0, pos.1 + 1)) {
          newPos := (newPos.0, newPos.1 + 1);
          moved := true;
        }
      }
    }

    /** The charges of `apply_action` before any move is made: 0.25 for
        `stay`, 2 for an unrecognised token, and 1.5 more for any token
        other than `stay` that did not move. */
    method Charge(agent: AgentId, action: string, moved: bool)
      requires agent in scores
      requires moved ==> ParseToken(action).Some? && ParseToken(action).value.Go?
      modifies this`scores
      ensures scores.Keys == old(scores).Keys
      ensures ParseToken(action).Some? && ParseToken(action).value.Go? ==>
        scores == if moved then old(scores) else Credit(old(scores), agent, -1.5)
      ensures ParseToken(action) == Some(Stay) ==> scores == Credit(old(scores), agent, -0.25)
      ensures ParseToken(action) == None ==> scores == Credit(old(scores), agent, -3.5)
    {
      if action == "stay" {
        assert ParseToken(action) == Some(Stay);
        scores := scores[agent := scores[agent] - 0.25];
      } else if ParseToken(action).None? {
        scores := scores[agent := scores[agent] - 2.0];
      }
      if action != "stay" && !moved {
        scores := scores[agent := scores[agent] - 1.5];
      }
    }

    /** `apply_action` for one agent and one token. */
    method ApplyAction(agent: AgentId, action: string)
      requires Valid()
      modifies this`agent1Pos, this`agent2Pos, this`scores
      ensures Valid()
      // the opponent never moves
      ensures PosOf(Other(agent)) == old(PosOf(Other(agent)))
      // stay: 0.25 off, no movement
      ensures ParseToken(action) == Some(Stay) ==>
        PosOf(agent) == old(PosOf(agent)) &&
        scores == Credit(old(scores), agent, -0.25 + FlagBonus(old(PosOf(agent))))
      // unrecognised token: 2 off and, as a move that did not happen, 1.5 more
      ensures ParseToken(action) == None ==>
        PosOf(agent) == old(PosOf(agent)) &&
        scores == Credit(old(scores), agent, -3.5 + FlagBonus(old(PosOf(agent))))
      ensures ParseToken(action).Some? && ParseToken(action).value.Go? ==>
        var target := Step(old(PosOf(agent)), ParseToken(action).value.dir);
        if !board.IsOpen(target) then
          // blocked by a wall or the edge: 1.5 off, no movement
          PosOf(agent) == old(PosOf(agent)) &&
          scores == Credit(old(scores), agent, -1.5 + FlagBonus(old(PosOf(agent))))
        else if target == old(PosOf(Other(agent))) then
          // collision veto: the opponent gains 5, nothing else changes
          PosOf(agent) == old(PosOf(agent)) &&
          scores == Credit(old(scores), Other(agent), 5.0)
        else
          // a real move: 1 off, and 50 on reaching the flag
          PosOf(agent) == target &&
          scores == Credit(old(scores), agent, -1.0 + FlagBonus(target))
    {
      var pos: Pos, opponentPos: Pos, opponentId: AgentId;
      if agent == 1 {
        pos, opponentPos, opponentId := agent1Pos, agent2Pos, 2;
      } else {
        pos, opponentPos, opponentId := agent2Pos, agent1Pos, 1;
      }
      assert pos == PosOf(agent) && opponentPos == PosOf(Other(agent)) && opponentId == Other(agent);
      var newPos, moved := Target(pos, action);
      Charge(agent, action, moved);
      Settle(agent, newPos);
    }

    /** The second half of `apply_action`: a target on the opponent's cell
        pays the opponent 5 and ends the action; otherwise a change of cell
        costs 1 and moves the agent, and ending on the flag earns 50. */
    method Settle(agent: AgentId, newPos: Pos)
      requires Valid() && board.IsOpen(newPos)
      modifies this`agent1Pos, this`agent2Pos, this`scores
      ensures Valid()
      ensures PosOf(Other(agent)) == old(PosOf(Other(agent)))
      ensures newPos == old(PosOf(Other(agent))) ==>
        PosOf(agent) == old(PosOf(agent)) && scores == Credit(old(scores), Other(agent), 5.0)
      ensures newPos != old(PosOf(Other(agent))) && newPos != old(PosOf(agent)) ==>
        PosOf(agent) == newPos && scores == Credit(old(scores), agent, -1.0 + FlagBonus(newPos))
      ensures newPos != old(PosOf(Other(agent))) && newPos == old(PosOf(agent)) ==>
        PosOf(agent) == newPos && scores == Credit(old(scores), agent, FlagBonus(newPos))
    {
      var opponentId := Other(agent);
      if newPos == PosOf(opponentId) {
        scores := scores[opponentId := scores[opponentId] + 5.0];
        return;
      }
      if newPos != PosOf(agent) {
        scores := scores[agent := scores[agent] - 1.0];
        if agent == 1 {
          agent1Pos := newPos;
        } else {
          agent2Pos := newPos;
        }
      }
      if newPos == flagPos {
        scores := scores[agent := scores[agent] + 50.0];
      }
    }

    /** The match length limit: `2 * R * C` full turns. */
    function TurnLimit(): int
    {
      2 * board.rows * board.cols
    }

    /** `is_game_over`: checks, in this order, a flag capture by agent 1,
        one by agent 2, the turn limit, agent 1 stuck (agent 2 gains 100)
        and agent 2 stuck (agent 1 gains 100); the first that holds ends
        the match and records its reason. */
    method IsGameOver() returns (over: bool)
      requires Valid()
      modifies this`scores, this`gameEndReason
      ensures Valid()
      ensures agent1Pos == flagPos ==>
        over && gameEndReason == Some(Agent1CapturedFlag) && scores == old(scores)
      ensures agent1Pos != flagPos && agent2Pos == flagPos ==>
        over && gameEndReason == Some(Agent2CapturedFlag) && scores == old(scores)
      ensures agent1Pos != flagPos && agent2Pos != flagPos && turns > TurnLimit() ==>
        over && gameEndReason == Some(TurnLimitReached) && scores == old(scores)
      ensures agent1Pos != flagPos && agent2Pos != flagPos && turns <= TurnLimit() &&
              Stuck(board, agent1Pos, agent2Pos) ==>
        over && gameEndReason == Some(Agent1IsStuck) && scores == Credit(old(scores), 2, 100.0)
      ensures agent1Pos != flagPos && agent2Pos != flagPos && turns <= TurnLimit() &&
              !Stuck(board, agent1Pos, agent2Pos) && Stuck(board, agent2Pos, agent1Pos) ==>
        over && gameEndReason == Some(Agent2IsStuck) && scores == Credit(old(scores), 1, 100.0)
      ensures agent1Pos != flagPos && agent2Pos != flagPos && turns <= TurnLimit() &&
              !Stuck(board, agent1Pos, agent2Pos) && !Stuck(board, agent2Pos, agent1Pos) ==>
        !over && gameEndReason == old(gameEndReason) && scores == old(scores)
    {
      if agent1Pos == flagPos {
        gameEndReason := Some(Agent1CapturedFlag);
        return true;
      }
      if agent2Pos == flagPos {
        gameEndReason := Some(Agent2CapturedFlag);
        return true;
      }
      if turns > 2 * board.rows * board.cols {
        gameEndReason := Some(TurnLimitReached);
        return true;
      }
      var stuck1 := IsStuck(1);
      if stuck1 {
        scores := scores[2 := scores[2] + 100.0];
        gameEndReason := Some(Agent1IsStuck);
        return true;
      }
      var stuck2 := IsStuck(2);
      if stuck2 {
        scores := scores[1 := scores[1] + 100.0];
        gameEndReason := Some(Agent2IsStuck);
        return true;
      }
      return false;
    }

    /** `switch_turn`: hands the move to the other agent and counts a full
        turn each time agent 1 is to act again. */
    method SwitchTurn()
      requires Valid()
      modifies this`turn, this`turns
      ensures Valid()
      ensures turn == 1 - old(turn)
      ensures turns == if old(turn) == 1 then old(turns) + 1 else old(turns)
    {
      turn := 1 - turn;
      if turn == 0 {
        turns := turns + 1;
      }
    }
  }
}
