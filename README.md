# Capture the flag on a grid, verified

A two-player capture-the-flag game on a rectangular grid. The environment
(`envs/gridworld.py`) holds a fixed wall matrix, two agents, a flag, a score
per agent and the turn bookkeeping. It applies one action token at a time,
builds each agent's four-cell view, and decides when the match is over. Two
agents play it:

- The aggressive explorer (`agents/blaute3.py`) answers by this priority chain:
  1. take an adjacent flag;
  2. herd an adjacent opponent;
  3. chase a recent sighting for seven steps;
  4. step to an unvisited safe neighbour;
  5. walk by breadth-first search towards the frontier of what it has seen;
  6. take a random safe move, or stay.
- The baseline explorer (`agents/base_agent.py`) has a shorter chain. It answers with the flag as soon as its scan reaches it. It stays put next to the opponent when nothing unvisited is in reach. Otherwise it explores the same way.

The project has one module per file:

| file | module | holds |
|---|---|---|
| `grid.dfy` | `Grid` | positions, the four directions, tiles, the adjacent-info view, action tokens |
| `paths.dfy` | `Paths` | walks through a set of open cells, and the closure facts the searches use |
| `gridworld.dfy` | `Environment` | class `GridWorld`, with `is_connected`'s search as module-level methods |
| `perception.dfy` | `Perception` | the observation the agents read, the scan of the view, the sets and move lists it yields |
| `exploration.dfy` | `Exploration` | `get_frontier`, `bfs` and the frontier fallback; the two agents have the same text for these, so each is modelled once |
| `blaute3.dfy` | `Blaute3` | class `Agent` of `agents/blaute3.py` |
| `base_agent.dfy` | `BaseAgent` | class `Agent` of `agents/base_agent.py` |
| `beliefs.dfy` | `Beliefs` | what the agents' remembered cells mean on the environment's real board |

Randomness is passed in:

- `random.random()` becomes an argument `r` with `0 <= r < 1`.
- `random.choice(moves)` becomes an argument `choice`, and the pick is `moves[choice % |moves|]`.
- The scores are `real`s, so the 0.25 and 1.5 charges are exact.

## Model

| member | source | states |
|---|---|---|
| Grid.ParseToken | envs/gridworld.py:119-140 | the five tokens parse to their actions; any other string parses to nothing, and no action has it as its token |
| Grid.TokenRoundTrip | agents/blaute3.py:16 | every action an agent returns is read back by the environment as that same action |
| Grid.AdjacentInfo.FirstShowing | agents/blaute3.py:45-47 | the result is the first direction, in up/down/left/right order, whose entry is one of the tiles; no direction before it shows one; it is `None` only when no direction shows one |
| Grid.StepAdjacent | agents/blaute3.py:35-40 | one step in any direction lands on an orthogonal neighbour |
| Environment.Board.Toward | envs/gridworld.py:64-71 | the neighbour in one direction is listed exactly when it is on the grid and not a wall |
| Environment.Board.Neighbors | envs/gridworld.py:61-72 | every returned cell is an open orthogonal neighbour |
| Environment.Board.NeighborsComplete | envs/gridworld.py:61-72 | every open orthogonal neighbour is returned |
| Environment.EnqueueUnvisited | envs/gridworld.py:50-53 | the newly visited cells are drawn from the neighbour list, are reachable and open, and are exactly the cells appended to the queue, behind its old contents; every neighbour ends up visited |
| Environment.VisitNeighbour | envs/gridworld.py:51-53 | one neighbour that is no wall and not yet visited becomes visited and goes to the back of the queue; a visited one changes nothing |
| Environment.ExpandHead | envs/gridworld.py:48-53 | one round of the search pops the queue head (the rest of the queue stays in front, and the head joins the expanded cells), keeps every visited cell reachable and queued-or-expanded, keeps the expanded cells closed, and shrinks the measure of unvisited open cells plus queue length |
| Environment.Flood | envs/gridworld.py:43-53 | the visited set is exactly the set of cells reachable from the start through open cells |
| Environment.GridWorld.constructor | envs/gridworld.py:5-18 | a connected layout with distinct open cells for both agents and the flag is a valid state with zero scores and no turns taken |
| Environment.GridWorld.IsConnected | envs/gridworld.py:42-59 | true exactly when every open cell is reachable from agent 1's cell |
| Environment.GridWorld.TileInfo | envs/gridworld.py:93-103 | agent 1, then agent 2, then the flag, then a wall; each tile is reported exactly when no earlier one applies |
| Environment.GridWorld.AdjacentView | envs/gridworld.py:83-91 | an entry is `None` exactly when that neighbour is off the grid; otherwise it is the neighbour's tile |
| Environment.GridWorld.ViewShowsWalls | envs/gridworld.py:93-103 | in a valid state a cell shows a wall exactly when the matrix has one there |
| Environment.GridWorld.StuckIffViewBlocked | envs/gridworld.py:160-177 | an agent is stuck exactly when its own view shows, in every direction, the edge, a wall or the opponent |
| Environment.GridWorld.IsStuck | envs/gridworld.py:160-177 | true exactly when every on-grid neighbour is a wall or the opponent's cell |
| Environment.GridWorld.Target | envs/gridworld.py:119-136 | a direction token moves exactly when its target cell is on the grid and not a wall, and the new cell is that target; `stay` and an unrecognised token move nothing |
| Environment.GridWorld.Charge | envs/gridworld.py:137-146 | `stay` costs 0.25; an unrecognised token costs 2 plus 1.5 as a move that did not happen; a blocked direction costs 1.5; a move costs nothing yet; no other score changes |
| Environment.GridWorld.Settle | envs/gridworld.py:148-157 | a target on the opponent's cell pays the opponent 5 and moves no one; otherwise a change of cell moves the agent and costs 1, and ending on the flag earns 50; the opponent never moves |
| Environment.GridWorld.ApplyAction | envs/gridworld.py:105-157 | the opponent's position never changes and the state stays valid. `stay` costs 0.25; an unrecognised token costs 3.5 in total; a blocked move costs 1.5; none of these moves anyone. A legal move onto the opponent gives the opponent 5 and changes nothing else. Any other legal move goes one step, costs 1 and earns 50 on the flag |
| Environment.GridWorld.IsGameOver | envs/gridworld.py:179-201 | checks, in order: agent 1 on the flag, agent 2 on the flag, the turn limit, agent 1 stuck (agent 2 gains 100), agent 2 stuck (agent 1 gains 100). The first that holds ends the match with its reason; at most one 100 is awarded; if none holds, nothing changes |
| Environment.MessagesDistinct | envs/gridworld.py:179-201 | each of the five ways of ending the match has its own message |
| Environment.GridWorld.SwitchTurn | envs/gridworld.py:203-206 | the turn flips, and the full-turn count grows exactly when agent 2 has just acted |
| Paths.ClosedContainsWalk | envs/gridworld.py:48-58 | a set that holds a walk's start and is closed under open neighbours holds the whole walk |
| Paths.Reverse | agents/blaute3.py:237 | the result has the same length and holds the cells in the opposite order |
| Paths.ReverseOfBackwardChain | agents/blaute3.py:233-237 | a chain of parent links read backwards is a walk from its last cell to its first |
| Perception.RecordedCells | agents/blaute3.py:154-171 | a cell is recorded for a kind exactly when it is the neighbour, in a direction already scanned, whose entry is of that kind |
| Perception.SafeMovesAre | agents/blaute3.py:151-172 | exactly the scanned directions whose entry is empty or the flag, in view order |
| Perception.UnvisitedMovesAre | agents/blaute3.py:151-176 | exactly the safe scanned directions whose cell is not visited, in view order |
| Perception.UnvisitedAreSafe | agents/blaute3.py:170-176 | every unvisited move is a safe move |
| Perception.Note | agents/blaute3.py:158-171 | a wall entry joins the walls, a missing entry joins the edge, an empty or flag entry joins the free cells, and an agent entry joins nothing |
| Perception.ScanEntry | agents/blaute3.py:154-176 | one direction of the scan takes the three sets and the two move lists from their state after `k` directions to their state after `k + 1` |
| Perception.Pick | agents/blaute3.py:180 | the pick is one of the moves offered |
| Perception.FindFlag | agents/blaute3.py:45-47 | the first direction, in view order, whose entry is the flag, or `None` when there is none |
| Exploration.Frontier | agents/blaute3.py:205-221 | exactly the free cells with an on-grid neighbour in neither free nor walls, each listed once |
| Exploration.EnqueueChildren | agents/blaute3.py:239-251 | the enterable neighbours not yet in the parent map get the current cell as parent and join the queue, one step farther than it; the search tree and its distance bound are kept |
| Exploration.AdoptChild | agents/blaute3.py:249-251 | a newly discovered cell gets the current cell as parent, one more step of distance, and is appended at the back of the queue; the search tree and its distance bound are kept |
| Exploration.TraceBack | agents/blaute3.py:233-236 | the parent links from a cell lead back to the start in exactly its distance plus one cells, each a neighbour of the next |
| Exploration.Reconstruct | agents/blaute3.py:231-237 | the reversed chain is a walk from the start to the target, and no walk to a target is shorter |
| Exploration.ExpandNearest | agents/blaute3.py:229-251 | one round of the search for a dequeued cell that is no target keeps the search state and shrinks the measure of undiscovered cells plus queue length |
| Exploration.SearchEnds | agents/blaute3.py:229-253 | once the queue is empty no walk from the start reaches a target |
| Exploration.Bfs | agents/blaute3.py:223-253 | a returned path starts at the start, steps between neighbours through enterable cells, ends in a target, and no such path is shorter; `None` exactly when no such path exists |
| Exploration.Without | agents/blaute3.py:184 | the targets are the frontier cells other than the agent's own |
| Exploration.StepDirection | agents/blaute3.py:189-196 | for a neighbouring cell, the direction returned steps onto it |
| Exploration.StepDirectionOfStep | agents/blaute3.py:189-196 | reading the direction back from one step recovers that direction |
| Exploration.FrontierStep | agents/blaute3.py:183-196 | a direction is returned that enters the second cell of a shortest walk to a frontier target; `None` exactly when no frontier target can be reached |
| Exploration.TowardsFrontierIsPassable | agents/blaute3.py:187-196 | the frontier step enters an on-grid neighbour remembered free and not as a wall |
| Blaute3.BlockedCount | agents/blaute3.py:70-77 | at most four; zero exactly when no side of the opponent is off-grid, a wall or the edge; four exactly when all are |
| Blaute3.SideMovesAre | agents/blaute3.py:80-88 | exactly the safe directions that do not step onto the opponent, in view order |
| Blaute3.HerdAction | agents/blaute3.py:90-118 | `stay` or a side move; `stay` whenever the draw is under the stay chance; a move whenever it is not and a side move exists |
| Blaute3.ChaseDirections | agents/blaute3.py:126-138 | exactly the directions that shorten the Manhattan distance to the target, each by one, with the row direction first |
| Blaute3.FirstSafe | agents/blaute3.py:140-143 | the index of the first safe direction, every one before it unsafe |
| Blaute3.ChaseChoice | agents/blaute3.py:121-143 | a safe step one closer to the target, the row step whenever that one is safe; `None` exactly when no shortening step is safe |
| Blaute3.Agent.constructor | agents/blaute3.py:5-13 | empty beliefs, no sighting, step zero |
| Blaute3.Agent.CountBlocked | agents/blaute3.py:70-77 | the blocked count of the opponent's four sides |
| Blaute3.Agent.Herd | agents/blaute3.py:57-118 | the sighting becomes the opponent's cell at the current step, and the answer is the herding action for the draw, which never steps onto the opponent and only onto a safe cell |
| Blaute3.Agent.Chase | agents/blaute3.py:121-147 | the chase step towards a fresh sighting, if any; a stale sighting is forgotten only when no step was taken |
| Blaute3.Agent.Survey | agents/blaute3.py:151-176 | walls, edge and free grow by exactly the cells recorded over the four directions; it returns the safe and the unvisited moves |
| Blaute3.Agent.GetAction | agents/blaute3.py:15-203 | the step counter grows by one; visited and free gain the agent's cell and no belief shrinks. An adjacent flag is taken at once; an adjacent opponent is herded and never stepped onto; a fresh sighting is chased. Otherwise the agent takes an unvisited move, else the frontier step, else a safe move, else stays |
| BaseAgent.OpponentTile | agents/base_agent.py:41 | `agent2` for agent 1 and `agent1` otherwise |
| BaseAgent.ScanLength | agents/base_agent.py:43-70 | the scan covers the directions up to and including the first flag, or all four |
| BaseAgent.FlagAt | agents/base_agent.py:68-70 | a flag at direction `k`, with none before it, is the first flag and ends the scan after `k + 1` directions |
| BaseAgent.Agent.constructor | agents/base_agent.py:5-10 | empty beliefs |
| BaseAgent.Agent.Scan | agents/base_agent.py:43-70 | the scan stops at the first flag and returns it; walls, edge, free and both move lists hold exactly what the directions up to it record |
| BaseAgent.Agent.GetAction | agents/base_agent.py:12-105 | visited gains the agent's cell; the beliefs grow by what the scan recorded. An adjacent flag is taken at once; next to the opponent with nothing unvisited the agent stays. Otherwise it takes an unvisited move, else the frontier step, else a safe move, else stays |
| Beliefs.ScanIsSound | envs/gridworld.py:83-103 | scanning the environment's own view records as walls only walls, as the edge only off-grid cells, and as free only open cells that hold no agent |
| Beliefs.ScanIsComplete | envs/gridworld.py:83-103 | a full scan records every wall neighbour, every off-grid neighbour, and every open neighbour that holds no agent |

## Left out

- `run_match.py` is not part of this model. It does rendering, window handling, dynamic agent loading, printing and clock ticks, and its turn loop only calls the operations modelled here.
- `agents/random_agent.py` is not part of this model. It is a single random choice over the five tokens.
- `random_position` and `place_walls` (envs/gridworld.py:20-40) draw cells at random and retry until the layout is connected. The constructor takes the board and the three cells as arguments, and `Connected` is its precondition.
- `get_state` (envs/gridworld.py:74-81) is a plain dictionary; `Perception.Observation` stands for the part of it the agents read.
- The `agent_id` argument of `get_adjacent_info` is unused by the source and is dropped.
- Environment.GridWorld.ApplyAction: the flag bonus is stated as the source computes it. It is paid whenever the mover's resulting cell is the flag, so a stay, a blocked move or an unrecognised token while already on the flag also earns 50. The per-case costs are exact only off the flag.
- Environment.GridWorld.IsConnected: requires agent 1 to stand on an open cell. The source never puts a wall on an agent's cell.
- Exploration.Frontier: the frontier's order follows the iteration order of a Python set, which is left unspecified. Only its elements and their distinctness are stated, so `Bfs` and the agents do not depend on that order.
- Blaute3.HerdAction: the 80/20/10 figures are which branch a given draw selects, not probabilities.
- Python's `state.get("gridsize", (10, 10))` default and the `or {}` of a missing view are modelled by `Observation.Dims` and `Observation.View`.
- Agent 2 is charged, rewarded and moved by the same rules as agent 1. Both agents' scores live in one map of two entries.
