/** The aggressive explorer of agents/blaute3.py: it grabs an adjacent
    flag, herds an adjacent opponent, chases the opponent's last known cell
    for a few steps, and otherwise explores, preferring unvisited cells and
    falling back to a breadth-first walk to the frontier of what it has seen. */
module Blaute3 {
  import opened Grid
  import opened Paths
  import opened Perception
  import opened Exploration

  /** How many steps a sighting of the opponent stays worth chasing. */
  const ChaseSteps: int := 7

  /** A neighbour of the opponent counts as blocked when it is off the grid
      or remembered as a wall or as the edge. */
  predicate Blocked(opp: Pos, d: Direction, rows: int, cols: int, walls: set<Pos>, edge: set<Pos>)
  {
    !InBounds(Step(opp, d), rows, cols) || Step(opp, d) in walls || Step(opp, d) in edge
  }

  /** The number of blocked directions among the first `n` around `opp`. */
  function BlockedCount(opp: Pos, rows: int, cols: int, walls: set<Pos>, edge: set<Pos>, n: nat): (c: nat)
    requires n <= |Directions|
    ensures c <= n
    ensures c == 0 <==> forall d :: Index(d) < n ==> !Blocked(opp, d, rows, cols, walls, edge)
    ensures c == n <==> forall d :: Index(d) < n ==> Blocked(opp, d, rows, cols, walls, edge)
  {
    if n == 0 then 0
    else
      var d := Directions[n - 1];
      assert Index(d) == n - 1;
      BlockedCount(opp, rows, cols, walls, edge, n - 1) + (if Blocked(opp, d, rows, cols, walls, edge) then 1 else 0)
  }

  /** `side_moves` over the first `n` directions: safe moves that do not
      step onto the opponent, in view order. */
  function SideMoves(me: Pos, opp: Pos, info: AdjacentInfo, n: nat): seq<Direction>
    requires n <= |Directions|
  {
    if n == 0 then []
    else
      var d := Directions[n - 1];
      SideMoves(me, opp, info, n - 1) + (if Step(me, d) != opp && IsSafe(info.Get(d)) then [d] else [])
  }

  /** The side moves are exactly the scanned safe directions that do not
      lead onto the opponent, in view order. */
  lemma {:induction false} SideMovesAre(me: Pos, opp: Pos, info: AdjacentInfo, n: nat)
    requires n <= |Directions|
    ensures forall d :: d in SideMoves(me, opp, info, n) <==> Index(d) < n && Step(me, d) != opp && IsSafe(info.Get(d))
    ensures forall i, j :: 0 <= i < j < |SideMoves(me, opp, info, n)| ==>
              Index(SideMoves(me, opp, info, n)[i]) < Index(SideMoves(me, opp, info, n)[j])
  {
    if n > 0 {
      SideMovesAre(me, opp, info, n - 1);
      var d := Directions[n - 1];
      assert Index(d) == n - 1;
      var r0 := SideMoves(me, opp, info, n - 1);
      var r := SideMoves(me, opp, info, n);
      forall i, j | 0 <= i < j < |r| ensures Index(r[i]) < Index(r[j]) {
        if j == |r0| {
          assert r[i] == r0[i] && r0[i] in r0 && r[j] == d;
        } else {
          assert r[i] == r0[i] && r[j] == r0[j];
        }
      }
    }
  }

  /** The chance of camping next to the opponent: 80% when it has at least
      three blocked sides, 20% with two, 10% otherwise. */
  function StayChance(blocked: nat): real
  {
    if blocked >= 3 then 0.8 else if blocked == 2 then 0.2 else 0.1
  }

  /** The herding answer for a draw `r` in [0, 1): camp when the draw falls
      under the stay chance, otherwise take a side move if there is one. */
  function HerdAction(r: real, choice: nat, blocked: nat, side: seq<Direction>): (a: Action)
    ensures a == Stay || (a.Go? && a.dir in side)
    ensures r < StayChance(blocked) ==> a == Stay
    ensures r >= StayChance(blocked) && side != [] ==> a.Go?
  {
    if r < StayChance(blocked) then Stay
    else if side != [] then Go(Pick(side, choice))
    else Stay
  }

  /** The directions that bring `me` closer to `target`: the row direction
      first, then the column direction. */
  function ChaseDirections(me: Pos, target: Pos): (r: seq<Direction>)
    ensures forall d :: d in r <==> Manhattan(Step(me, d), target) < Manhattan(me, target)
    ensures forall d :: d in r ==> Manhattan(Step(me, d), target) + 1 == Manhattan(me, target)
    ensures |r| > 0 && me.0 != target.0 ==> r[0] == Up || r[0] == Down
  {
    var dx, dy := target.0 - me.0, target.1 - me.1;
    (if dx < 0 then [Up] else if dx > 0 then [Down] else []) +
    (if dy < 0 then [Left] else if dy > 0 then [Right] else [])
  }

  /** The index of the first of `dirs` whose view entry is safe, or `|dirs|`. */
  function FirstSafe(dirs: seq<Direction>, info: AdjacentInfo): (i: nat)
    ensures i <= |dirs|
    ensures forall j :: 0 <= j < i ==> !IsSafe(info.Get(dirs[j]))
    ensures i < |dirs| ==> IsSafe(info.Get(dirs[i]))
  {
    if dirs == [] then 0
    else if IsSafe(info.Get(dirs[0])) then 0
    else 1 + FirstSafe(dirs[1..], info)
  }

  /** The chase move towards `target`: a safe step that shortens the
      Manhattan distance, a row step whenever that one is safe, and `None`
      exactly when no distance-shortening step is safe. */
  function ChaseChoice(me: Pos, target: Pos, info: AdjacentInfo): (r: Option<Direction>)
    ensures r.Some? ==> IsSafe(info.Get(r.value)) && Manhattan(Step(me, r.value), target) + 1 == Manhattan(me, target)
    ensures r.None? <==> forall d :: Manhattan(Step(me, d), target) < Manhattan(me, target) ==> !IsSafe(info.Get(d))
    ensures r.Some? && me.0 != target.0 && (r.value == Left || r.value == Right) ==>
              !IsSafe(info.Get(ChaseDirections(me, target)[0]))
  {
    var dirs := ChaseDirections(me, target);
    var i := FirstSafe(dirs, info);
    if i < |dirs| then Some(dirs[i]) else None
  }

  /** The remembered sighting that is still fresh at `step`, unless the
      agent already stands on it. */
  function ChaseTarget(lastPos: Option<Pos>, lastStep: Option<int>, step: int, me: Pos): Option<Pos>
  {
    if lastPos.Some? && lastStep.Some? && step - lastStep.value <= ChaseSteps && lastPos.value != me
    then lastPos else None
  }

  /** A remembered sighting older than the chase horizon. */
  predicate Expired(lastPos: Option<Pos>, lastStep: Option<int>, step: int)
  {
    lastPos.Some? && lastStep.Some? && step - lastStep.value > ChaseSteps
  }

  class Agent {
    var walls: set<Pos>
    var free: set<Pos>
    var edge: set<Pos>
    var visited: set<Pos>
    var lastOppPos: Option<Pos>
    var lastOppStep: Option<int>
    var step: int

    constructor ()
      ensures walls == {} && free == {} && edge == {} && visited == {}
      ensures lastOppPos == None && lastOppStep == None && step == 0
    {
      walls, free, edge, visited := {}, {}, {}, {};
      lastOppPos, lastOppStep := None, None;
      step := 0;
    }

    /** The blocked-side count around the opponent's inferred cell. */
    method CountBlocked(opp: Pos, rows: int, cols: int) returns (blocked: nat)
      ensures blocked == BlockedCount(opp, rows, cols, walls, edge, 4)
    {
      blocked := 0;
      for k := 0 to 4
        invariant blocked == BlockedCount(opp, rows, cols, walls, edge, k)
      {
        var n := Step(opp, Directions[k]);
        if !InBounds(n, rows, cols) {
          blocked := blocked + 1;
          continue;
        }
        if n in walls || n in edge {
          blocked := blocked + 1;
        }
      }
    }

    /** The opponent stands next to the agent at `opp`: remember the
        sighting, then camp or side-step as the blocked count and the draw
        `r` decide. */
    method Herd(me: Pos, opp: Pos, info: AdjacentInfo, rows: int, cols: int, r: real, choice: nat)
      returns (action: Action)
      modifies this`lastOppPos, this`lastOppStep
      ensures lastOppPos == Some(opp) && lastOppStep == Some(step)
      ensures action == HerdAction(r, choice, BlockedCount(opp, rows, cols, walls, edge, 4), SideMoves(me, opp, info, 4))
      ensures action.Go? ==> Step(me, action.dir) != opp && IsSafe(info.Get(action.dir))
    {
      SideMovesAre(me, opp, info, 4);
      lastOppPos := Some(opp);
      lastOppStep := Some(step);
      var blocked := CountBlocked(opp, rows, cols);
      var side: seq<Direction> := [];
      for k := 0 to 4
        invariant side == SideMoves(me, opp, info, k)
      {
        var d := Directions[k];
        if Step(me, d) == opp {
          continue;
        }
        if IsSafe(info.Get(d)) {
          side := side + [d];
        }
      }
      var threshold := if blocked >= 3 then 0.8 else if blocked == 2 then 0.2 else 0.1;
      if r < threshold {
        return Stay;
      }
      if side != [] {
        return Go(side[choice % |side|]);
      }
      return Stay;
    }

    /** The n-step chase: head for a fresh sighting along a safe,
        distance-shortening step; forget a sighting that has gone stale. */
    method Chase(me: Pos, info: AdjacentInfo) returns (d: Option<Direction>)
      modifies this`lastOppPos, this`lastOppStep
      ensures var t := ChaseTarget(old(lastOppPos), old(lastOppStep), step, me);
              d == if t.Some? then ChaseChoice(me, t.value, info) else None
      ensures d.Some? || !Expired(old(lastOppPos), old(lastOppStep), step) ==>
                lastOppPos == old(lastOppPos) && lastOppStep == old(lastOppStep)
      ensures d.None? && Expired(old(lastOppPos), old(lastOppStep), step) ==>
                lastOppPos == None && lastOppStep == None
    {
      if lastOppPos.Some? && lastOppStep.Some? {
        if step - lastOppStep.value <= ChaseSteps {
          var target := lastOppPos.value;
          if target != me {
            var dirs := ChaseDirections(me, target);
            for i := 0 to |dirs|
              invariant forall j :: 0 <= j < i ==> !IsSafe(info.Get(dirs[j]))
            {
              if IsSafe(info.Get(dirs[i])) {
                d := Some(dirs[i]);
                return;
              }
            }
          }
        }
        if step - lastOppStep.value > ChaseSteps {
          lastOppPos := None;
          lastOppStep := None;
        }
      }
      d := None;
    }

    /** The exploration scan: remember walls, the edge and free cells around
        `me`, and list the safe and the unvisited safe moves. */
    method Survey(me: Pos, info: AdjacentInfo) returns (safe: seq<Direction>, unvisited: seq<Direction>)
      modifies this`walls, this`edge, this`free
      ensures walls == old(walls) + Recorded(me, info, 4, SawWall)
      ensures edge == old(edge) + Recorded(me, info, 4, SawEdge)
      ensures free == old(free) + Recorded(me, info, 4, SawFree)
      ensures safe == SafeMoves(info, 4) && unvisited == UnvisitedMoves(me, info, visited, 4)
    {
      safe, unvisited := [], [];
      var w, e, f := walls, edge, free;
      ghost var w0, e0, f0 := w, e, f;
      for k := 0 to 4
        invariant w == w0 + Recorded(me, info, k, SawWall)
        invariant e == e0 + Recorded(me, info, k, SawEdge)
        invariant f == f0 + Recorded(me, info, k, SawFree)
        invariant safe == SafeMoves(info, k) && unvisited == UnvisitedMoves(me, info, visited, k)
      {
        w, e, f, safe, unvisited := ScanEntry(me, info, visited, k, w0, e0, f0, w, e, f, safe, unvisited);
      }
      walls, edge, free := w, e, f;
    }

    /** `get_action`: the whole priority chain for one turn. The uniform
        draw in [0, 1) and the draw of the random choice are the arguments
        `r` and `choice`. */
    method GetAction(obs: Observation, agentId: int, r: real, choice: nat) returns (action: Action)
      requires 0.0 <= r < 1.0
      modifies this
      ensures step == old(step) + 1
      ensures visited == old(visited) + {obs.Me(agentId)}
      // beliefs only grow
      ensures old(walls) <= walls && old(edge) <= edge && old(free) + {obs.Me(agentId)} <= free
      // 1. an adjacent flag is taken at once
      ensures var info := obs.View();
              info.FirstShowing({Flag}).Some? ==>
                action == Go(info.FirstShowing({Flag}).value) &&
                walls == old(walls) && edge == old(edge) && free == old(free) + {obs.Me(agentId)} &&
                lastOppPos == old(lastOppPos) && lastOppStep == old(lastOppStep)
      // 2. an adjacent opponent is herded, and never walked into
      ensures var me, info, (rows, cols) := obs.Me(agentId), obs.View(), obs.Dims();
              info.FirstShowing({Flag}).None? && info.FirstShowing(AgentTiles).Some? ==>
                var opp := Step(me, info.FirstShowing(AgentTiles).value);
                lastOppPos == Some(opp) && lastOppStep == Some(step) &&
                walls == old(walls) && edge == old(edge) && free == old(free) + {me} &&
                action == HerdAction(r, choice, BlockedCount(opp, rows, cols, walls, edge, 4), SideMoves(me, opp, info, 4)) &&
                (action.Go? ==> Step(me, action.dir) != opp && IsSafe(info.Get(action.dir)))
      // 3. a fresh sighting is chased
      ensures var me, info := obs.Me(agentId), obs.View();
              var t := ChaseTarget(old(lastOppPos), old(lastOppStep), step, me);
              info.FirstShowing({Flag}).None? && info.FirstShowing(AgentTiles).None? &&
              t.Some? && ChaseChoice(me, t.value, info).Some? ==>
                action == Go(ChaseChoice(me, t.value, info).value) &&
                walls == old(walls) && edge == old(edge) && free == old(free) + {me} &&
                lastOppPos == old(lastOppPos) && lastOppStep == old(lastOppStep)
      // 4. otherwise the agent explores
      ensures var me, info, (rows, cols) := obs.Me(agentId), obs.View(), obs.Dims();
              var t := ChaseTarget(old(lastOppPos), old(lastOppStep), step, me);
              info.FirstShowing({Flag}).None? && info.FirstShowing(AgentTiles).None? &&
              (t.None? || ChaseChoice(me, t.value, info).None?) ==>
                walls == old(walls) + Recorded(me, info, 4, SawWall) &&
                edge == old(edge) + Recorded(me, info, 4, SawEdge) &&
                free == old(free) + {me} + Recorded(me, info, 4, SawFree) &&
                (if Expired(old(lastOppPos), old(lastOppStep), step)
                 then lastOppPos == None && lastOppStep == None
                 else lastOppPos == old(lastOppPos) && lastOppStep == old(lastOppStep)) &&
                var unvisited := UnvisitedMoves(me, info, visited, 4);
                var safe := SafeMoves(info, 4);
                (unvisited != [] ==> action == Go(Pick(unvisited, choice))) &&
                (unvisited == [] && FrontierReachable(me, free, walls, rows, cols) ==>
                   action.Go? && TowardsFrontier(me, free, walls, rows, cols, action.dir)) &&
                (unvisited == [] && !FrontierReachable(me, free, walls, rows, cols) ==>
                   action == if safe != [] then Go(Pick(safe, choice)) else Stay)
    {
      step := step + 1;
      var me := obs.Me(agentId);
      var (rows, cols) := obs.Dims();
      var info := obs.View();
      free := free + {me};
      visited := visited + {me};

      var flag := FindFlag(info);
      if flag.Some? {
        return Go(flag.value);
      }

      var oppDir := info.FirstShowing(AgentTiles);
      if oppDir.Some? {
        var opp := Step(me, oppDir.value);
        action := Herd(me, opp, info, rows, cols, r, choice);
        return;
      }

      var chase := Chase(me, info);
      if chase.Some? {
        return Go(chase.value);
      }

      var safe, unvisited := Survey(me, info);
      if unvisited != [] {
        return Go(unvisited[choice % |unvisited|]);
      }

      var towards := FrontierStep(me, rows, cols, free, walls);
      if towards.Some? {
        return Go(towards.value);
      }

      if safe != [] {
        return Go(safe[choice % |safe|]);
      }
      return Stay;
    }
  }
}
