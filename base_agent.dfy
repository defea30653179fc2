/** The plain explorer of agents/base_agent.py: one scan of its four-cell
    view that stops at an adjacent flag, a stay next to the opponent when
    nothing new is in reach, and otherwise the same unvisited-first,
    frontier-second exploration as the aggressive agent. */
module BaseAgent {
  import opened Grid
  import opened Paths
  import opened Perception
  import opened Exploration

  /** The label the agent looks for as its opponent's: `agent2` for agent 1
      and `agent1` for any other id. */
  function OpponentTile(agentId: int): (t: Tile)
    ensures t in AgentTiles
    ensures agentId == 1 <==> t == Agent2
  {
    if agentId == 1 then Agent2 else Agent1
  }

  /** How much of the view the scan gets through: up to and including the
      first flag, or all four directions. */
  function ScanLength(info: AdjacentInfo): (n: nat)
    ensures 0 < n <= |Directions|
    ensures info.FirstShowing({Flag}).None? <==> n == |Directions| && !info.Shows(Right, {Flag})
    ensures info.FirstShowing({Flag}).Some? ==> Directions[n - 1] == info.FirstShowing({Flag}).value
  {
    var f := info.FirstShowing({Flag});
    if f.Some? then Index(f.value) + 1 else |Directions|
  }

  /** The scan stops at direction `k` exactly when the first flag is there. */
  lemma FlagAt(info: AdjacentInfo, k: nat)
    requires k < |Directions| && info.Get(Directions[k]) == Some(Flag)
    requires info.FirstShowing({Flag}).Some? ==> k <= Index(info.FirstShowing({Flag}).value)
    ensures info.FirstShowing({Flag}) == Some(Directions[k]) && ScanLength(info) == k + 1
  {
    assert Index(Directions[k]) == k by {
      assert Directions[Index(Directions[k])] == Directions[k];
    }
  }

  class Agent {
    var walls: set<Pos>
    var free: set<Pos>
    var edge: set<Pos>
    var visited: set<Pos>

    constructor ()
      ensures walls == {} && free == {} && edge == {} && visited == {}
    {
      walls, free, edge, visited := {}, {}, {}, {};
    }

    /** The exploration scan, which answers with the first adjacent flag as
        soon as it reaches it: the directions before the flag's, and the
        flag's own, are recorded; the rest are not looked at. */
    method Scan(me: Pos, info: AdjacentInfo)
      returns (safe: seq<Direction>, unvisited: seq<Direction>, flag: Option<Direction>)
      modifies this`walls, this`edge, this`free
      ensures flag == info.FirstShowing({Flag})
      ensures var n := if flag.Some? then Index(flag.value) + 1 else |Directions|;
              walls == old(walls) + Recorded(me, info, n, SawWall) &&
              edge == old(edge) + Recorded(me, info, n, SawEdge) &&
              free == old(free) + Recorded(me, info, n, SawFree)
      ensures var n := if flag.Some? then Index(flag.value) + 1 else |Directions|;
              safe == SafeMoves(info, n) && unvisited == UnvisitedMoves(me, info, visited, n)
    {
      safe, unvisited, flag := [], [], None;
      var w, e, f := walls, edge, free;
      ghost var w0, e0, f0 := w, e, f;
      for k := 0 to 4
        invariant w == w0 + Recorded(me, info, k, SawWall)
        invariant e == e0 + Recorded(me, info, k, SawEdge)
        invariant f == f0 + Recorded(me, info, k, SawFree)
        invariant safe == SafeMoves(info, k) && unvisited == UnvisitedMoves(me, info, visited, k)
        invariant info.FirstShowing({Flag}).Some? ==> k <= Index(info.FirstShowing({Flag}).value)
      {
        w, e, f, safe, unvisited := ScanEntry(me, info, visited, k, w0, e0, f0, w, e, f, safe, unvisited);
        if info.Get(Directions[k]) == Some(Flag) {
          FlagAt(info, k);
          flag := Some(Directions[k]);
          walls, edge, free := w, e, f;
          return;
        }
      }
      assert info.FirstShowing({Flag}).None?;
      walls, edge, free := w, e, f;
    }

    /** `get_action`: the scan (which may already answer with the flag),
        the stay next to the opponent, and the exploration fallbacks. The
        draw of the random choice is the argument `choice`. */
    method GetAction(obs: Observation, agentId: int, choice: nat) returns (action: Action)
      modifies this
      ensures visited == old(visited) + {obs.Me(agentId)}
      ensures var me, info := obs.Me(agentId), obs.View();
              var n := ScanLength(info);
              walls == old(walls) + Recorded(me, info, n, SawWall) &&
              edge == old(edge) + Recorded(me, info, n, SawEdge) &&
              free == old(free) + {me} + Recorded(me, info, n, SawFree)
      // 1. an adjacent flag is taken at once
      ensures var info := obs.View();
              info.FirstShowing({Flag}).Some? ==> action == Go(info.FirstShowing({Flag}).value)
      // 2. next to the opponent with nothing new in reach, the agent stays
      ensures var me, info := obs.Me(agentId), obs.View();
              info.FirstShowing({Flag}).None? && info.FirstShowing({OpponentTile(agentId)}).Some? &&
              UnvisitedMoves(me, info, visited, 4) == [] ==>
                action == Stay
      // 3. otherwise the agent explores
      ensures var me, info, (rows, cols) := obs.Me(agentId), obs.View(), obs.Dims();
              var unvisited := UnvisitedMoves(me, info, visited, 4);
              var safe := SafeMoves(info, 4);
              info.FirstShowing({Flag}).None? ==>
                (unvisited != [] ==> action == Go(Pick(unvisited, choice))) &&
                (unvisited == [] && info.FirstShowing({OpponentTile(agentId)}).None? ==>
                   (FrontierReachable(me, free, walls, rows, cols) ==>
                      action.Go? && TowardsFrontier(me, free, walls, rows, cols, action.dir)) &&
                   (!FrontierReachable(me, free, walls, rows, cols) ==>
                      action == if safe != [] then Go(Pick(safe, choice)) else Stay))
    {
      var me := obs.Me(agentId);
      var (rows, cols) := obs.Dims();
      var info := obs.View();
      free := free + {me};
      visited := visited + {me};

      var safe, unvisited, flag := Scan(me, info);
      if flag.Some? {
        return Go(flag.value);
      }

      var opponentAdjacent := info.FirstShowing({OpponentTile(agentId)}).Some?;
      if opponentAdjacent && unvisited == [] {
        return Stay;
      }

      if unvisited != [] {
        return Go(unvisited[choice % |unvisited|]);
      }

      var towards := FrontierStep(me, rows, cols, free, walls);
      if towards.Some? {
        return Go(towards.value);
      }

      if safe != [] {
        return Go(safe[choice % |safe|]);
      }
      return Stay;
    }
  }
}
