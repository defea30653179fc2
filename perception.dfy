/** What an agent reads from the state it is handed, and the direction
    lists and cell sets it derives from its four-cell view. Shared by both
    agents. */
module Perception {
  import opened Grid

  /** The part of the state dictionary the agents read. `gridsize` and
      `adjacent_info` may be missing; a missing view entry reads as `None`. */
  datatype Observation = Observation(agent1Pos: Pos, agent2Pos: Pos,
                                     gridSize: Option<(int, int)>,
                                     adjacentInfo: Option<AdjacentInfo>)
  {
    /** The agent's own cell: agent 1's position for id 1, agent 2's for any other id. */
    function Me(agentId: int): Pos
    {
      if agentId == 1 then agent1Pos else agent2Pos
    }

    /** The grid size, ten by ten when the state does not carry one. */
    function Dims(): (int, int)
    {
      if gridSize.Some? then gridSize.value else (10, 10)
    }

    /** The four-cell view, with every entry missing when the state carries none. */
    function View(): AdjacentInfo
    {
      if adjacentInfo.Some? then adjacentInfo.value else AdjacentInfo(None, None, None, None)
    }
  }

  /** The three things the exploration scan records about a neighbour. */
  datatype Sighting = SawWall | SawEdge | SawFree

  /** How the scan classifies a view entry: a wall, the grid edge, or a
      cell it may step on. Agents are none of these. */
  predicate Classifies(t: Option<Tile>, kind: Sighting)
  {
    match kind
    case SawWall => t == Some(Wall)
    case SawEdge => t.None?
    case SawFree => IsSafe(t)
  }

  /** The cells a scan over the first `n` directions of the view adds to
      the set for `kind`. */
  function Recorded(me: Pos, info: AdjacentInfo, n: nat, kind: Sighting): set<Pos>
    requires n <= |Directions|
  {
    if n == 0 then {}
    else
      var d := Directions[n - 1];
      Recorded(me, info, n - 1, kind) + (if Classifies(info.Get(d), kind) then {Step(me, d)} else {})
  }

  /** A recorded cell is the neighbour in a direction, among the first
      `n`, whose entry is of the recorded kind, and every such neighbour is
      recorded. */
  lemma {:induction false} RecordedCells(me: Pos, info: AdjacentInfo, n: nat, kind: Sighting)
    requires n <= |Directions|
    ensures forall p :: p in Recorded(me, info, n, kind) <==>
              exists d :: Index(d) < n && Classifies(info.Get(d), kind) && p == Step(me, d)
  {
    if n > 0 {
      RecordedCells(me, info, n - 1, kind);
      assert Index(Directions[n - 1]) == n - 1;
    }
  }

  /** A set that held the cells recorded over `k` directions, plus the
      `k`-th cell when it qualifies, holds those recorded over `k + 1`. */
  lemma RecordedGrows(me: Pos, info: AdjacentInfo, k: nat, kind: Sighting, s0: set<Pos>, s: set<Pos>, s': set<Pos>)
    requires k < |Directions|
    requires s == s0 + Recorded(me, info, k, kind)
    requires s' == s + (if Classifies(info.Get(Directions[k]), kind) then {Step(me, Directions[k])} else {})
    ensures s' == s0 + Recorded(me, info, k + 1, kind)
  {
  }

  /** `safe_moves` after a scan of the first `n` directions: those whose
      entry is empty or the flag, in view order. */
  function SafeMoves(info: AdjacentInfo, n: nat): seq<Direction>
    requires n <= |Directions|
  {
    if n == 0 then []
    else
      var d := Directions[n - 1];
      SafeMoves(info, n - 1) + (if IsSafe(info.Get(d)) then [d] else [])
  }

  /** The safe moves are exactly the scanned directions whose entry is
      empty or the flag, in view order. */
  lemma {:induction false} SafeMovesAre(info: AdjacentInfo, n: nat)
    requires n <= |Directions|
    ensures forall d :: d in SafeMoves(info, n) <==> Index(d) < n && IsSafe(info.Get(d))
    ensures forall i, j :: 0 <= i < j < |SafeMoves(info, n)| ==>
              Index(SafeMoves(info, n)[i]) < Index(SafeMoves(info, n)[j])
  {
    if n > 0 {
      SafeMovesAre(info, n - 1);
      var d := Directions[n - 1];
      assert Index(d) == n - 1;
      var r0 := SafeMoves(info, n - 1);
      var r := SafeMoves(info, n);
      forall i, j | 0 <= i < j < |r| ensures Index(r[i]) < Index(r[j]) {
        if j == |r0| {
          assert r[i] == r0[i] && r0[i] in r0 && r[j] == d;
        } else {
          assert r[i] == r0[i] && r[j] == r0[j];
        }
      }
    }
  }

  /** `unvisited_moves` after a scan of the first `n` directions: the safe
      ones whose cell is not among `visited`. */
  function UnvisitedMoves(me: Pos, info: AdjacentInfo, visited: set<Pos>, n: nat): seq<Direction>
    requires n <= |Directions|
  {
    if n == 0 then []
    else
      var d := Directions[n - 1];
      UnvisitedMoves(me, info, visited, n - 1) + (if IsSafe(info.Get(d)) && Step(me, d) !in visited then [d] else [])
  }

  /** The unvisited moves are exactly the safe scanned directions whose
      cell is not visited, in view order. */
  lemma {:induction false} UnvisitedMovesAre(me: Pos, info: AdjacentInfo, visited: set<Pos>, n: nat)
    requires n <= |Directions|
    ensures forall d :: d in UnvisitedMoves(me, info, visited, n) <==>
              Index(d) < n && IsSafe(info.Get(d)) && Step(me, d) !in visited
    ensures forall i, j :: 0 <= i < j < |UnvisitedMoves(me, info, visited, n)| ==>
              Index(UnvisitedMoves(me, info, visited, n)[i]) < Index(UnvisitedMoves(me, info, visited, n)[j])
  {
    if n > 0 {
      UnvisitedMovesAre(me, info, visited, n - 1);
      var d := Directions[n - 1];
      assert Index(d) == n - 1;
      var r0 := UnvisitedMoves(me, info, visited, n - 1);
      var r := UnvisitedMoves(me, info, visited, n);
      forall i, j | 0 <= i < j < |r| ensures Index(r[i]) < Index(r[j]) {
        if j == |r0| {
          assert r[i] == r0[i] && r0[i] in r0 && r[j] == d;
        } else {
          assert r[i] == r0[i] && r[j] == r0[j];
        }
      }
    }
  }

  /** One more direction of the scan extends each record by that
      direction's cell or move, when its entry qualifies. */
  lemma ScanStep(me: Pos, info: AdjacentInfo, visited: set<Pos>, k: nat)
    requires k < |Directions|
    ensures Recorded(me, info, k + 1, SawWall) ==
              Recorded(me, info, k, SawWall) + (if info.Get(Directions[k]) == Some(Wall) then {Step(me, Directions[k])} else {})
    ensures Recorded(me, info, k + 1, SawEdge) ==
              Recorded(me, info, k, SawEdge) + (if info.Get(Directions[k]).None? then {Step(me, Directions[k])} else {})
    ensures Recorded(me, info, k + 1, SawFree) ==
              Recorded(me, info, k, SawFree) + (if IsSafe(info.Get(Directions[k])) then {Step(me, Directions[k])} else {})
    ensures SafeMoves(info, k + 1) == SafeMoves(info, k) + (if IsSafe(info.Get(Directions[k])) then [Directions[k]] else [])
    ensures UnvisitedMoves(me, info, visited, k + 1) ==
              UnvisitedMoves(me, info, visited, k) +
              (if IsSafe(info.Get(Directions[k])) && Step(me, Directions[k]) !in visited then [Directions[k]] else [])
    ensures var t := info.Get(Directions[k]); IsSafe(t) <==> t != Some(Wall) && t.Some? && t.value !in AgentTiles
  {
    var t := info.Get(Directions[k]);
    if t.Some? {
      assert t.value in AgentTiles <==> t.value == Agent1 || t.value == Agent2;
    }
  }

  /** One entry of the exploration scan: a wall goes to the walls, the
      grid edge to the edge, and a cell that is neither an agent nor
      either of those to the free cells. */
  method Note(t: Option<Tile>, n: Pos, w: set<Pos>, e: set<Pos>, f: set<Pos>)
    returns (w': set<Pos>, e': set<Pos>, f': set<Pos>)
    ensures w' == w + (if Classifies(t, SawWall) then {n} else {})
    ensures e' == e + (if Classifies(t, SawEdge) then {n} else {})
    ensures f' == f + (if Classifies(t, SawFree) then {n} else {})
  {
    w', e', f' := w, e, f;
    if t == Some(Wall) {
      w' := w + {n};
      return;
    }
    if t.None? {
      e' := e + {n};
      return;
    }
    assert t.value in AgentTiles <==> t.value == Agent1 || t.value == Agent2;
    if t.value in AgentTiles {
      return;
    }
    f' := f + {n};
  }

  /** The scan's work for the `k`-th direction of the view: the three
      cell sets and the two move lists grow from their state after `k`
      directions to their state after `k + 1`. */
  method ScanEntry(me: Pos, info: AdjacentInfo, visited: set<Pos>, k: nat,
                   ghost w0: set<Pos>, ghost e0: set<Pos>, ghost f0: set<Pos>,
                   w: set<Pos>, e: set<Pos>, f: set<Pos>, safe: seq<Direction>, unvisited: seq<Direction>)
    returns (w': set<Pos>, e': set<Pos>, f': set<Pos>, safe': seq<Direction>, unvisited': seq<Direction>)
    requires k < |Directions|
    requires w == w0 + Recorded(me, info, k, SawWall)
    requires e == e0 + Recorded(me, info, k, SawEdge)
    requires f == f0 + Recorded(me, info, k, SawFree)
    requires safe == SafeMoves(info, k) && unvisited == UnvisitedMoves(me, info, visited, k)
    ensures w' == w0 + Recorded(me, info, k + 1, SawWall)
    ensures e' == e0 + Recorded(me, info, k + 1, SawEdge)
    ensures f' == f0 + Recorded(me, info, k + 1, SawFree)
    ensures safe' == SafeMoves(info, k + 1) && unvisited' == UnvisitedMoves(me, info, visited, k + 1)
  {
    var d := Directions[k];
    var tile := info.Get(d);
    var n := Step(me, d);
    ScanStep(me, info, visited, k);
    w', e', f' := Note(tile, n, w, e, f);
    RecordedGrows(me, info, k, SawWall, w0, w, w');
    RecordedGrows(me, info, k, SawEdge, e0, e, e');
    RecordedGrows(me, info, k, SawFree, f0, f, f');
    safe', unvisited' := safe, unvisited;
    if IsSafe(tile) {
      safe' := safe + [d];
      if n !in visited {
        unvisited' := unvisited + [d];
      }
    }
  }

  /** A random choice among the moves, with the draw made explicit. */
  function Pick(moves: seq<Direction>, choice: nat): (d: Direction)
    requires moves != []
    ensures d in moves
  {
    moves[choice % |moves|]
  }

  /** Every unvisited move is a safe move. */
  lemma {:induction false} UnvisitedAreSafe(me: Pos, info: AdjacentInfo, visited: set<Pos>, n: nat)
    requires n <= |Directions|
    ensures forall d :: d in UnvisitedMoves(me, info, visited, n) ==> d in SafeMoves(info, n)
    ensures UnvisitedMoves(me, info, visited, n) != [] ==> SafeMoves(info, n) != []
  {
    SafeMovesAre(info, n);
    UnvisitedMovesAre(me, info, visited, n);
    if UnvisitedMoves(me, info, visited, n) != [] {
      assert UnvisitedMoves(me, info, visited, n)[0] in SafeMoves(info, n);
    }
  }

  /** The flag check: the first direction, in view order, whose entry is the flag. */
  method FindFlag(info: AdjacentInfo) returns (d: Option<Direction>)
    ensures d == info.FirstShowing({Flag})
  {
    for k := 0 to 4
      invariant forall j :: 0 <= j < k ==> info.Get(Directions[j]) != Some(Flag)
    {
      if info.Get(Directions[k]) == Some(Flag) {
        assert forall e :: Index(e) < k ==> !info.Shows(e, {Flag});
        return Some(Directions[k]);
      }
    }
    assert forall e :: !info.Shows(e, {Flag}) by {
      forall e
        ensures !info.Shows(e, {Flag})
      {
        assert Directions[Index(e)] == e;
      }
    }
    return None;
  }
}
