# Grid and waypoint pathfinding, with two timer state machines

A Dafny model of the pathfinding core of a Unity project, with proofs about it. The core has four parts:

- **Grid A\*** (`grid_tile.dfy`, `grid_manager.dfy`, `pathfinder.dfy`). A `width × height` array of tiles
  (`GridTile`), each with a walkability flag and the scratch fields `gCost`, `hCost` and `parent`, which
  the search writes in place. `GridManager` fills the array, looks cells up with a bounds check, and
  lists the walkable 4-neighbours in the order up, right, down, left. `Pathfinder.FindPath` is A\* with:
  - unit step cost and the Manhattan estimate
  - an open list ordered by (fCost, hCost, position in the list), and a closed set
  - parent pointers that are reset before each search and followed back to rebuild the route

  The model proves three things about the result. A non-empty result is a route of unit steps over
  walkable cells. It is a **shortest** such route. An empty result (for endpoints inside the grid and
  a walkable target) means that no route exists.
- **Waypoint graph** (`waypoint_graph.dfy`). `BuildGraph` links every present waypoint to every other
  present waypoint whose connecting segment is clear. It returns the counts it logs. `FindPath` is a
  dictionary-based A\*:
  - selection is a linear scan, and the earliest entry wins ties
  - `ReconstructPath` walks `cameFrom` back to the start
  - `GetNearestPoint` snaps a position to its nearest waypoint
  - `CalculatePath` assembles `[startPos] ++ waypoint positions ++ [targetPos if clear]`

  The distance and the physics sweep are parameters of the model (`Geometry`).
- **Boss state machine** (`boss_state_machine.dfy`). A timer alternates Idle and Spawn, and entering
  Spawn calls the spawner. A ghost event log records exits, entries and spawner calls.
- **Simple FSM** (`simple_fsm.dfy`). An agent cycles Idle → Walk → Teleport → Idle. The frame time and
  the random draws are inputs to `Update`.

`collections.dfy` holds the two .NET list operations the searches use: `Remove`, which drops the first
occurrence, and `Reverse`.

Three behaviours of the code are worth knowing:

- **Graph tie-break.** The graph search keeps the earliest open entry on equal fScore and never looks
  at the heuristic (`SimplePathfinding.cs:398-405`).
- **Isolated waypoints.** BuildGraph counts isolated waypoints and only logs their names
  (`SimplePathfinding.cs:164-172`).
- **Start tile.** The grid search never checks whether the start tile is walkable, only the target
  (`Pathfinder.cs:12`). So a route's first cell need not be walkable (`Pathfinder.IsRoute`).

A few design decisions shape the proofs:

- **Grid search invariants.** These are stated over values: the set of tiles `T`, the walkable
  positions `W`, a position-to-tile map `At`, and a ghost `Scratch` mirroring the tile fields
  (`Mirrors`).
- **Graph search termination.** The graph search keeps a ghost `rank`, the order in which nodes were
  closed. It strictly falls along `cameFrom`, so reconstruction terminates. The proof needs no
  assumption that distances are positive.
- **No optimality for the graph search.** The graph A\* makes no optimality claim, because the distance
  is an uninterpreted real function.

## Model

| member | source | states |
|---|---|---|
| Collections.IndexOf | Assets/Scripts/Pathfinder.cs:30 | the position of the first occurrence of a present element: it holds the element and no earlier position does |
| Collections.Remove | Assets/Scripts/Pathfinder.cs:30 | `List.Remove` drops one occurrence when present: the length falls by one exactly then, no element is invented, every other element stays, and on a list without repeats the result has no repeats and no `x` |
| Collections.RemoveFirst | Assets/Scripts/Pathfinder.cs:30 | the occurrence Remove drops is the first one and the order of the rest is kept: the result is the list before that position followed by the list after it; a list without `x` is returned unchanged |
| Collections.Reverse | Assets/Scripts/Pathfinder.cs:76 | `List.Reverse`: same length, element i is the element \|s\|-1-i of the input |
| GridTiles.GridTile.constructor | Assets/Scripts/GridTile.cs:5-9 | a new tile is walkable by default, has no parent, and sits at the given position |
| Grid.DirectionIndex | Assets/Scripts/GridManager.cs:49-54 | each of the four offsets has a unique place in the probing order up, right, down, left |
| Grid.GridManager.constructor | Assets/Scripts/GridManager.cs:15-19 | Awake leaves a generated grid (`Valid`) of fresh, walkable, parentless tiles |
| Grid.GridManager.GenerateGrid | Assets/Scripts/GridManager.cs:21-35 | after the fill, every cell (x, y) holds a tile whose position is (x, y), and the tiles are exactly the cells' tiles |
| Grid.GridManager.TileAtOwnPosition | Assets/Scripts/GridManager.cs:31-32 | a tile belongs to the grid iff it is stored at the cell named by its own position |
| Grid.GridManager.GetTileAt | Assets/Scripts/GridManager.cs:37-42 | non-null iff the position is in bounds, and then the tile at that position |
| Grid.GridManager.ProbeFinds | Assets/Scripts/GridManager.cs:56-61 | the probe in direction k finds every tile lying one step in that direction |
| Grid.GridManager.Probe | Assets/Scripts/GridManager.cs:58-60 | one probe keeps the neighbour list sound, complete for the directions probed, and in order |
| Grid.GridManager.GetNeighbors | Assets/Scripts/GridManager.cs:44-64 | at most four tiles, each a walkable grid tile one unit step away; every such tile is listed; strictly in up, right, down, left order (so no repeats); no tile is modified |
| Pathfinder.CalculateHeuristic | Assets/Scripts/Pathfinder.cs:60-63 | the Manhattan distance is a natural number, zero exactly when the cells coincide |
| Pathfinder.AdjacentIsUnitDistance | Assets/Scripts/Pathfinder.cs:60-63 | two cells are one of the four unit steps apart iff their Manhattan distance is 1 |
| Pathfinder.HeuristicConsistent | Assets/Scripts/Pathfinder.cs:43 | the estimate drops by at most the unit step cost per step (consistency) |
| Pathfinder.RouteHeuristic | Assets/Scripts/Pathfinder.cs:43 | along a route, the estimate at a cell is at most the remaining steps plus the estimate at the end |
| Pathfinder.RouteLowerBound | Assets/Scripts/Pathfinder.cs:62 | no route is shorter than the Manhattan distance between its ends |
| Pathfinder.RoutePrefix | Assets/Scripts/Pathfinder.cs:38 | every prefix of a route is a route to its last cell |
| Pathfinder.Staircase | Assets/Scripts/Pathfinder.cs:62 | between any two cells there is a chain of unit steps of Manhattan length inside their bounding box |
| Pathfinder.WalkableAt | Assets/Scripts/GridManager.cs:58-59 | a position is walkable iff the lookup finds a walkable tile there |
| Pathfinder.StaircaseIsRoute | Assets/Scripts/Pathfinder.cs:38 | on an all-walkable grid the staircase between two in-grid cells is a route |
| Pathfinder.WalkableTile | Assets/Scripts/GridTile.cs:5 | a grid tile is walkable iff its position is a walkable position |
| Pathfinder.GridWalkability | Assets/Scripts/GridTile.cs:5 | the tiles' flags agree with the walkable positions |
| Pathfinder.NeighborsByPosition | Assets/Scripts/Pathfinder.cs:38 | the neighbour list of GetNeighbors, restated with walkable positions: sound and complete |
| Pathfinder.GridBoard | Assets/Scripts/GridManager.cs:37-42 | a generated grid yields a position-to-tile map agreeing with GetTileAt on every in-bounds position |
| Pathfinder.SamePositionSameTile | Assets/Scripts/GridManager.cs:31-32 | two grid tiles at the same position are the same tile |
| Pathfinder.InitialState | Assets/Scripts/Pathfinder.cs:18-22 | the start tile alone open, at cost 0 without parent, satisfies every search invariant |
| Pathfinder.FirstUnclosed | Assets/Scripts/Pathfinder.cs:24-36 | a route from a closed tile to one that is not closed has a step from a closed tile to a walkable tile outside the closed set |
| Pathfinder.ExitBound | Assets/Scripts/Pathfinder.cs:26-28 | the arithmetic step of optimality: a tile selected by least fCost is no further than any route through an open tile |
| Pathfinder.PopIsOptimal | Assets/Scripts/Pathfinder.cs:26-31 | the open tile with least fCost already carries the length of a shortest route to it |
| Pathfinder.PopIsOptimalAll | Assets/Scripts/Pathfinder.cs:26-31 | PopIsOptimal for every route at once |
| Pathfinder.PopPreserves | Assets/Scripts/Pathfinder.cs:30-31 | removing that tile from the open list and closing it keeps the invariants |
| Pathfinder.ClosedOptimalAdd | Assets/Scripts/Pathfinder.cs:31 | a tile whose cost beats every route to it may join the closed set, keeping "every closed tile is optimal" |
| Pathfinder.PopKeepsTree | Assets/Scripts/Pathfinder.cs:30-31 | closing an open tile keeps the open list repeat-free and disjoint from the closed set, and keeps the parent tree |
| Pathfinder.RelaxPreserves | Assets/Scripts/Pathfinder.cs:43-53 | rewriting a neighbour outside the closed set that is new or cheaper through `current`, and opening it if new, keeps every invariant |
| Pathfinder.RelaxTree | Assets/Scripts/Pathfinder.cs:47-52 | after such a rewrite each reached tile other than the start still has a closed parent one step away and costs exactly one more |
| Pathfinder.RelaxExpanded | Assets/Scripts/Pathfinder.cs:45-52 | such a rewrite only lowers costs or opens tiles, so expanded tiles stay expanded |
| Pathfinder.ExpansionDone | Assets/Scripts/Pathfinder.cs:38-54 | once every walkable neighbour is reached, the tile just closed counts as expanded |
| Pathfinder.ClosedUnderRoutes | Assets/Scripts/Pathfinder.cs:24 | with an empty open list, every cell of a route from the start is closed |
| Pathfinder.TreeIsChain | Assets/Scripts/GridTile.cs:9 | read off the tiles, the parents of closed tiles are closed, one step away, and one cost unit lower, down to the start tile |
| Pathfinder.SelectLowest | Assets/Scripts/Pathfinder.cs:26-28 | the stable `OrderBy(fCost).ThenBy(hCost).First()`: no open tile precedes the chosen one by (fCost, hCost), and it strictly precedes every earlier entry |
| Pathfinder.ResetTiles | Assets/Scripts/Pathfinder.cs:80-92 | every tile of the grid gets gCost int.MaxValue and no parent; only those two fields may change |
| Pathfinder.WalkBackStep | Assets/Scripts/Pathfinder.cs:70-74 | following one more parent link extends the backward walk |
| Pathfinder.WalkedBackReversed | Assets/Scripts/Pathfinder.cs:76 | reversing a backward walk gives a route from the start to the end tile |
| Pathfinder.ReconstructPath | Assets/Scripts/Pathfinder.cs:65-78 | following the parents from the end tile ends (gCost falls along the chain) and, reversed, is a route from the start with gCost + 1 cells |
| Pathfinder.ReachedKept | Assets/Scripts/Pathfinder.cs:38-54 | handling later neighbours keeps earlier ones closed or open at cost at most one more |
| Pathfinder.LowestByScratch | Assets/Scripts/Pathfinder.cs:26-28 | the tile SelectLowest picks has the least gCost + hCost |
| Pathfinder.ReachedFCost | Assets/Scripts/GridTile.cs:8 | the derived fCost of a reached tile is its gCost plus its Manhattan distance to the target, never below gCost; for a closed tile it is at most any route's length plus that distance |
| Pathfinder.Relax | Assets/Scripts/Pathfinder.cs:47-49 | the neighbour's parent becomes `current`, its gCost that of `current` plus one, its hCost the estimate to the target; nothing else changes |
| Pathfinder.ProcessNeighbor | Assets/Scripts/Pathfinder.cs:40-53 | a closed neighbour is skipped, changing nothing; otherwise its parent, gCost and hCost are rewritten (to `current`, gCost(current) + 1 and its estimate) iff it is not open or the way through `current` is strictly cheaper, and it is appended to the end of the open list iff it was not open; the invariants hold and the neighbour ends closed or open at cost at most gCost(current) + 1 |
| Pathfinder.ExpandNeighbors | Assets/Scripts/Pathfinder.cs:38-54 | after the neighbour loop the invariants hold with the tile just closed counted as expanded |
| Pathfinder.PopLowest | Assets/Scripts/Pathfinder.cs:26-31 | the tile taken is the one SelectLowest picks (so the earliest on ties), no open tile precedes it, and it moves from the open list to the closed set keeping the invariants |
| Pathfinder.Exhausted | Assets/Scripts/Pathfinder.cs:57 | an empty open list without the target closed means no route to the target exists |
| Pathfinder.Expand | Assets/Scripts/Pathfinder.cs:38 | expanding with the neighbours taken from the grid keeps the invariants |
| Pathfinder.GridKept | Assets/Scripts/Pathfinder.cs:47-49 | writing tile scratch fields leaves the grid generated |
| Pathfinder.OpenStart | Assets/Scripts/Pathfinder.cs:18-22 | the start tile alone is open, with cost 0 and its estimate to the target, and the invariants hold |
| Pathfinder.Step | Assets/Scripts/Pathfinder.cs:26-54 | one iteration closes a tile not closed before and, unless it is the target, expands it, keeping the invariants |
| Pathfinder.Search | Assets/Scripts/Pathfinder.cs:18-57 | a non-empty result is a route from start to target no longer than any other; an empty one means none exists |
| Pathfinder.FindPath | Assets/Scripts/Pathfinder.cs:7-58 | empty, touching no tile, when either end is outside the grid or the target is not walkable; otherwise a shortest route of unit steps over walkable cells, or empty exactly when there is none; on an all-walkable grid, \|dx\|+\|dy\|+1 cells |
| WaypointGraph.Waypoint.constructor | Assets/Scripts/FinalProject/Pathfinding/SimplePathfinding.cs:8 | a waypoint keeps the position it is given |
| WaypointGraph.OthersOfDistinct | Assets/Scripts/FinalProject/Pathfinding/SimplePathfinding.cs:140-142 | in a list whose present waypoints are distinct (missing entries skipped), a present waypoint is tested against every other present one: their number less one |
| WaypointGraph.OthersAbsent | Assets/Scripts/FinalProject/Pathfinding/SimplePathfinding.cs:142 | a waypoint absent from the list is tested against every present entry; missing entries are skipped |
| WaypointGraph.WalkStaysClosed | Assets/Scripts/FinalProject/Pathfinding/SimplePathfinding.cs:393 | when every closed node is expanded and nothing is open, a walk from a closed node stays closed |
| WaypointGraph.Exhausted | Assets/Scripts/FinalProject/Pathfinding/SimplePathfinding.cs:438 | an empty open set without `end` closed means no walk from start to end exists |
| WaypointGraph.InitialSearch | Assets/Scripts/FinalProject/Pathfinding/SimplePathfinding.cs:383-391 | the start alone open, with gScore 0 and fScore its distance to the end, satisfies the search invariants |
| WaypointGraph.CloseKeeps | Assets/Scripts/FinalProject/Pathfinding/SimplePathfinding.cs:412-415 | moving the selected node from the open list to the closed set keeps the invariants; a node without links is then expanded |
| WaypointGraph.CloseLists | Assets/Scripts/FinalProject/Pathfinding/SimplePathfinding.cs:412-413 | the open list stays repeat-free and disjoint from the closed set, and `end` stays unclosed |
| WaypointGraph.CloseTree | Assets/Scripts/FinalProject/Pathfinding/SimplePathfinding.cs:412-413 | closing a node keeps the `cameFrom` tree with ranks |
| WaypointGraph.CloseReach | Assets/Scripts/FinalProject/Pathfinding/SimplePathfinding.cs:412-413 | open and closed nodes stay ranked |
| WaypointGraph.CloseLinks | Assets/Scripts/FinalProject/Pathfinding/SimplePathfinding.cs:412-413 | every `cameFrom` link still points from a closed node of lower rank along a graph edge |
| WaypointGraph.CloseRanks | Assets/Scripts/FinalProject/Pathfinding/SimplePathfinding.cs:413 | closed nodes keep ranks below the closed-set size |
| WaypointGraph.CloseExpanded | Assets/Scripts/FinalProject/Pathfinding/SimplePathfinding.cs:412-415 | closing keeps expanded nodes' links reached |
| WaypointGraph.WalkPrepend | Assets/Scripts/FinalProject/Pathfinding/SimplePathfinding.cs:449 | putting a predecessor along an edge in front of a walk gives a walk |
| WaypointGraph.RelinkLists | Assets/Scripts/FinalProject/Pathfinding/SimplePathfinding.cs:423-426 | opening a neighbour outside the closed set when new keeps the open list well formed |
| WaypointGraph.RelinkTree | Assets/Scripts/FinalProject/Pathfinding/SimplePathfinding.cs:432 | pointing `cameFrom[neighbor]` at the node being expanded keeps the ranked tree |
| WaypointGraph.ExpandedAdd | Assets/Scripts/FinalProject/Pathfinding/SimplePathfinding.cs:417-435 | once all its links are reached, the node just closed counts as expanded |
| WaypointGraph.Relax | Assets/Scripts/FinalProject/Pathfinding/SimplePathfinding.cs:419-434 | closed neighbours change nothing; a new neighbour is opened and scored; an open one is rescored (gScore, fScore = gScore + distance to end, cameFrom) iff the tentative score is strictly lower; invariants kept |
| WaypointGraph.RelinkKeeps | Assets/Scripts/FinalProject/Pathfinding/SimplePathfinding.cs:432-434 | the rescoring keeps the invariants and fScore = gScore + distance to end |
| WaypointGraph.FollowLinks | Assets/Scripts/FinalProject/Pathfinding/SimplePathfinding.cs:417-435 | after the neighbour loop the node just closed is expanded and the invariants hold |
| WaypointGraph.SimplePathfinding.constructor | Assets/Scripts/FinalProject/Pathfinding/SimplePathfinding.cs:27-28 | the component starts with an empty graph |
| WaypointGraph.SimplePathfinding.IsPathClear | Assets/Scripts/FinalProject/Pathfinding/SimplePathfinding.cs:181-192 | a clear segment is at least 0.1 long; a segment of length between 0.1 and twice the offset is always clear |
| WaypointGraph.SimplePathfinding.EdgesMembership | Assets/Scripts/FinalProject/Pathfinding/SimplePathfinding.cs:140-148 | `q` is linked from `p` iff `q` is a present waypoint other than `p` with a clear segment |
| WaypointGraph.SimplePathfinding.EdgesPlusBlocked | Assets/Scripts/FinalProject/Pathfinding/SimplePathfinding.cs:140-153 | for one waypoint, clear plus blocked pairs equal the pairs tested |
| WaypointGraph.SimplePathfinding.ConnectionsAddUp | Assets/Scripts/FinalProject/Pathfinding/SimplePathfinding.cs:131-154 | over all waypoints, totalConnections + blockedConnections equals the pairs tested |
| WaypointGraph.SimplePathfinding.BuildGraph | Assets/Scripts/FinalProject/Pathfinding/SimplePathfinding.cs:117-178 | with the mask unset nothing changes; otherwise the graph is rebuilt from the waypoints alone (so rebuilding twice gives the same graph), and the report holds the node count, clear and blocked totals and the number of isolated nodes |
| WaypointGraph.SimplePathfinding.LinkPoint | Assets/Scripts/FinalProject/Pathfinding/SimplePathfinding.cs:138-153 | the waypoint becomes a node linked, in waypoint order, to exactly its clear partners; returns the clear and blocked counts |
| WaypointGraph.SimplePathfinding.CountIsolated | Assets/Scripts/FinalProject/Pathfinding/SimplePathfinding.cs:164-172 | counts exactly the nodes with an empty link list |
| WaypointGraph.SimplePathfinding.BuiltNodes | Assets/Scripts/FinalProject/Pathfinding/SimplePathfinding.cs:134-138 | the keys of the built graph are exactly the present waypoints |
| WaypointGraph.SimplePathfinding.ConnectionCount | Assets/Scripts/FinalProject/Pathfinding/SimplePathfinding.cs:131-153 | when no waypoint is present twice, totalConnections + blockedConnections = n·(n−1) for the n present waypoints, whatever missing entries the array holds |
| WaypointGraph.SimplePathfinding.PairsOfDistinct | Assets/Scripts/FinalProject/Pathfinding/SimplePathfinding.cs:134-142 | each present waypoint considered is tested against the n − 1 other present waypoints; missing entries contribute nothing |
| WaypointGraph.SimplePathfinding.SelectLowest | Assets/Scripts/FinalProject/Pathfinding/SimplePathfinding.cs:395-405 | the chosen node has the least fScore of the open list, and every earlier entry has a strictly greater fScore (earliest wins ties) |
| WaypointGraph.SimplePathfinding.ReconstructPath | Assets/Scripts/FinalProject/Pathfinding/SimplePathfinding.cs:441-453 | following `cameFrom` ends (rank falls along every link, the start has no link) and yields a walk along graph edges from the start to `current` |
| WaypointGraph.SimplePathfinding.FindPath | Assets/Scripts/FinalProject/Pathfinding/SimplePathfinding.cs:376-439 | no path when either end is not a node; a returned path is a walk from start to end along graph edges; no path for two nodes only when no walk exists |
| WaypointGraph.SimplePathfinding.Nearest | Assets/Scripts/FinalProject/Pathfinding/SimplePathfinding.cs:457-470 | the scan's choice is a present waypoint whose distance is the minimum and strictly below that of every earlier one; none (distance float.MaxValue) iff no distance is below float.MaxValue |
| WaypointGraph.SimplePathfinding.GetNearestPoint | Assets/Scripts/FinalProject/Pathfinding/SimplePathfinding.cs:455-473 | returns the first present waypoint of minimal distance, or null |
| WaypointGraph.SimplePathfinding.CalculatePath | Assets/Scripts/FinalProject/Pathfinding/SimplePathfinding.cs:324-374 | empty on an empty graph, a missing snap, an unclear first leg, or when no walk exists; otherwise startPos, then the positions of a walk between the snapped waypoints, then targetPos iff clear from the last waypoint |
| BossStateMachine.AppendEvents | Assets/Scripts/FinalProject/Boss/StateMachine.cs:45-55 | states entered and spawner calls distribute over concatenated logs |
| BossStateMachine.OneEvent | Assets/Scripts/FinalProject/Boss/StateMachine.cs:57-76 | the entries and calls of a single event |
| BossStateMachine.SwitchEvents | Assets/Scripts/FinalProject/Boss/StateMachine.cs:45-55 | one switch enters exactly one state and calls the spawner at most once |
| BossStateMachine.StateMachine.constructor | Assets/Scripts/FinalProject/Boss/StateMachine.cs:20-21 | Idle with a zero timer, not yet started |
| BossStateMachine.StateMachine.Start | Assets/Scripts/FinalProject/Boss/StateMachine.cs:23-27 | exits the default state and enters Idle with the full idle time |
| BossStateMachine.StateMachine.Update | Assets/Scripts/FinalProject/Boss/StateMachine.cs:29-43 | the timer drops by deltaTime; while positive nothing else changes; once at or below 0, exactly one switch to the other state with its full duration; the entered states keep alternating Idle, Spawn, … and the spawner is called once per Spawn entry |
| BossStateMachine.StateMachine.TransitionKeeps | Assets/Scripts/FinalProject/Boss/StateMachine.cs:78-94 | switching to the other state extends the alternation by one and keeps the spawner count at half the entries |
| BossStateMachine.StateMachine.UpdateIdleState | Assets/Scripts/FinalProject/Boss/StateMachine.cs:78-85 | Idle switches to Spawn iff the timer is at or below 0 |
| BossStateMachine.StateMachine.UpdateSpawnState | Assets/Scripts/FinalProject/Boss/StateMachine.cs:87-94 | Spawn switches to Idle iff the timer is at or below 0 |
| BossStateMachine.StateMachine.ChangeState | Assets/Scripts/FinalProject/Boss/StateMachine.cs:45-55 | exit the old state, assign, enter the new one, in that order |
| BossStateMachine.StateMachine.EnterState | Assets/Scripts/FinalProject/Boss/StateMachine.cs:57-76 | Idle gets idleTime; Spawn gets spawnTime and calls the spawner once when present |
| BossStateMachine.StateMachine.ExitState | Assets/Scripts/FinalProject/Boss/StateMachine.cs:96-108 | exiting only logs |
| BossStateMachine.StateMachine.GetCurrentState | Assets/Scripts/FinalProject/Boss/StateMachine.cs:111-114 | once started, the state returned is the last state entered |
| BossStateMachine.StateMachine.GetStateTimeRemaining | Assets/Scripts/FinalProject/Boss/StateMachine.cs:117-120 | once started, the remaining time never exceeds the current state's duration |
| SimpleFsm.CyclePhase | Assets/Scripts/SimpleFSM.cs:27-56 | in a run of the agent the i-th state entered is Idle, Walk or Teleport according to i mod 3 |
| SimpleFsm.Agent.constructor | Assets/Scripts/SimpleFSM.cs:5-15 | the configured component, in Idle with a zero timer, not yet started |
| SimpleFsm.Agent.Start | Assets/Scripts/SimpleFSM.cs:17-21 | records the start position (x, y) and enters Idle with timer idleDuration |
| SimpleFsm.Agent.ChangeState | Assets/Scripts/SimpleFSM.cs:58-77 | sets the state and its timer (Teleport 0.1); entering Walk takes the new direction |
| SimpleFsm.Agent.Update | Assets/Scripts/SimpleFSM.cs:23-56 | the timer drops by deltaTime; Idle and Walk move on only when it is at or below 0, Teleport always; at most one transition, along the cycle; Walk translates by direction·speed·deltaTime; Teleport lands at start + offset, within the teleport area |

## Left out

- Physics and geometry. IsPathClear's sphere cast, parallel ray casts and collider bounds test
  (`SimplePathfinding.cs:193-322`) are the uninterpreted `Geometry.sweepClear`. `Vector3.Distance` is
  the uninterpreted `Geometry.distance`.
- Floating point. Positions, distances, scores and timers are reals. Float rounding is not modelled,
  and `0.1f` is read as 0.1.
- Integer width. Grid coordinates and costs are unbounded integers. The absence of int overflow in
  `gCost + hCost` for open tiles is not proved; costs of reached tiles stay below the number of tiles,
  but no such bound is stated.
- Scene and layer setup: `Awake`, `SetupLayerMask`, `CacheAllWallColliders`, `IsInWallLayer`,
  `RebuildGraph`, `DebugListWallColliders` and `GetHierarchyPath`. The wall layer mask is a constructor
  parameter, and `Start` only calls `BuildGraph`.
- The wall-collider warning (`SimplePathfinding.cs:125-128`), all `Debug.Log` output, gizmos and
  `SetColor`. BuildGraph returns the counts it logs instead.
- `GridManager.Instance` and prefab `Instantiate`. The grid manager is passed explicitly, and a tile
  is a plain object with its field defaults.
- The `path.Count == 0` test of CalculatePath (`SimplePathfinding.cs:349`). The path FindPath returns
  is a walk, which is never empty.
- The spawner's own work. Only the calls to `SpawnEnemies` are recorded, in the ghost event log.
- Randomness and the frame clock. `Random.Range`, `Random.insideUnitCircle.normalized` and
  `Time.deltaTime` are inputs of `Update`. The boss `Update` requires `deltaTime >= 0`, as Unity's
  frame time is.
- SimpleFsm.Agent.Update: `transform.Translate` moves in the object's local frame. The model
  translates in world space (no rotation), and the z coordinate is kept.
- WaypointGraph.SimplePathfinding.FindPath: makes no optimality claim for the graph search. The
  distance function is uninterpreted, so the walk returned is only proved to be a walk.
