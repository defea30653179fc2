/** What the agents' remembered walls, edge and free cells mean on the real
    board: when the view an agent scans is the one `get_adjacent_info`
    builds for its cell, every recorded cell is recorded truthfully. */
module Beliefs {
  import opened Grid
  import opened Perception
  import opened Environment

  /** One scan of the environment's own view around `pos` records as walls
      only wall cells, as the edge only cells off the grid, and as free only
      open cells that hold neither agent. */
  lemma ScanIsSound(world: GridWorld, pos: Pos, n: nat)
    requires world.Valid() && world.board.InGrid(pos) && n <= |Directions|
    ensures forall p :: p in Recorded(pos, world.AdjacentView(pos), n, SawWall) ==>
              world.board.InGrid(p) && world.board.IsWall(p)
    ensures forall p :: p in Recorded(pos, world.AdjacentView(pos), n, SawEdge) ==>
              !world.board.InGrid(p)
    ensures forall p :: p in Recorded(pos, world.AdjacentView(pos), n, SawFree) ==>
              world.board.IsOpen(p) && p != world.agent1Pos && p != world.agent2Pos
  {
    var info := world.AdjacentView(pos);
    RecordedCells(pos, info, n, SawWall);
    RecordedCells(pos, info, n, SawEdge);
    RecordedCells(pos, info, n, SawFree);
    forall d | world.board.InGrid(Step(pos, d))
      ensures world.TileInfo(Step(pos, d)) == Wall <==> world.board.IsWall(Step(pos, d))
    {
      world.ViewShowsWalls(Step(pos, d));
    }
  }

  /** Conversely, a full scan records every neighbour of `pos`: walls among
      the walls, cells off the grid among the edge, and each open neighbour
      that holds no agent among the free cells. */
  lemma ScanIsComplete(world: GridWorld, pos: Pos)
    requires world.Valid() && world.board.InGrid(pos)
    ensures forall d :: world.board.InGrid(Step(pos, d)) && world.board.IsWall(Step(pos, d)) ==>
              Step(pos, d) in Recorded(pos, world.AdjacentView(pos), 4, SawWall)
    ensures forall d :: !world.board.InGrid(Step(pos, d)) ==>
              Step(pos, d) in Recorded(pos, world.AdjacentView(pos), 4, SawEdge)
    ensures forall d :: world.board.IsOpen(Step(pos, d)) &&
                        Step(pos, d) != world.agent1Pos && Step(pos, d) != world.agent2Pos ==>
              Step(pos, d) in Recorded(pos, world.AdjacentView(pos), 4, SawFree)
  {
    var info := world.AdjacentView(pos);
    RecordedCells(pos, info, 4, SawWall);
    RecordedCells(pos, info, 4, SawEdge);
    RecordedCells(pos, info, 4, SawFree);
    forall d | world.board.InGrid(Step(pos, d))
      ensures world.TileInfo(Step(pos, d)) == Wall <==> world.board.IsWall(Step(pos, d))
    {
      world.ViewShowsWalls(Step(pos, d));
    }
  }
}
