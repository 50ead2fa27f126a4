/**
 * A* over the uniform grid: unit step cost, Manhattan estimate, open list
 * ordered by (fCost, hCost, insertion order), a closed set, and parent
 * pointers kept in the tiles themselves.
 */
module Pathfinder {
  import opened GridTiles
  import opened Grid
  import opened Collections

  function Abs(n: int): nat
  {
    if n < 0 then -n else n
  }

  /** The Manhattan distance between two cells: the estimate of the remaining cost. */
  function CalculateHeuristic(a: Pos, b: Pos): (h: nat)
    ensures h == 0 <==> a == b
  {
    Abs(a.x - b.x) + Abs(a.y - b.y)
  }

  /** A unit step of the grid is exactly a move to a cell at Manhattan distance one. */
  lemma AdjacentIsUnitDistance(a: Pos, b: Pos)
    ensures Adjacent(a, b) <==> CalculateHeuristic(a, b) == 1
  {
    if CalculateHeuristic(a, b) == 1 {
      var d := Offset(a, b);
      assert d == Directions[0] || d == Directions[1] || d == Directions[2] || d == Directions[3];
    }
  }

  /** The estimate drops by at most one per unit step: it is consistent. */
  lemma HeuristicConsistent(a: Pos, b: Pos, goal: Pos)
    requires Adjacent(a, b)
    ensures CalculateHeuristic(a, goal) <= CalculateHeuristic(b, goal) + 1
  {
    AdjacentIsUnitDistance(a, b);
  }

  // ---------------------------------------------------------------------------
  // Routes through the grid

  /**
   * `r` walks from `a` to `b` by unit steps, every cell after the first being
   * walkable (the cells in `W`). The first cell is not required to be
   * walkable: the search never looks at the start tile's flag.
   */
  ghost predicate IsRoute(W: set<Pos>, r: seq<Pos>, a: Pos, b: Pos)
  {
    && |r| > 0
    && r[0] == a
    && r[|r| - 1] == b
    && (forall i :: 0 <= i < |r| - 1 ==> Adjacent(r[i], r[i + 1]))
    && (forall i :: 1 <= i < |r| ==> r[i] in W)
  }

  /** Along a route the estimate at cell i is at most the remaining steps plus the estimate at the end. */
  lemma {:induction false} RouteHeuristic(W: set<Pos>, r: seq<Pos>, a: Pos, b: Pos, i: nat, goal: Pos)
    requires IsRoute(W, r, a, b) && i < |r|
    ensures CalculateHeuristic(r[i], goal) <= |r| - 1 - i + CalculateHeuristic(b, goal)
    decreases |r| - i
  {
    if i < |r| - 1 {
      RouteHeuristic(W, r, a, b, i + 1, goal);
      HeuristicConsistent(r[i], r[i + 1], goal);
    }
  }

  /** No route takes fewer steps than the Manhattan distance between its ends. */
  lemma RouteLowerBound(W: set<Pos>, r: seq<Pos>, a: Pos, b: Pos)
    requires IsRoute(W, r, a, b)
    ensures CalculateHeuristic(a, b) <= |r| - 1
  {
    RouteHeuristic(W, r, a, b, 0, b);
  }

  /** The prefix of a route up to cell j is a route to that cell. */
  lemma RoutePrefix(W: set<Pos>, r: seq<Pos>, a: Pos, b: Pos, j: nat)
    requires IsRoute(W, r, a, b) && 0 < j <= |r|
    ensures IsRoute(W, r[..j], a, r[j - 1])
  {
  }

  /** One unit step from `a` towards `b`, along x first. */
  function StepToward(a: Pos, b: Pos): Pos
  {
    if a.x < b.x then Pos(a.x + 1, a.y)
    else if a.x > b.x then Pos(a.x - 1, a.y)
    else if a.y < b.y then Pos(a.x, a.y + 1)
    else Pos(a.x, a.y - 1)
  }

  function Min(a: int, b: int): int { if a < b then a else b }
  function Max(a: int, b: int): int { if a < b then b else a }

  /** `p` lies in the bounding box of `a` and `b`. */
  predicate InBox(a: Pos, b: Pos, p: Pos)
  {
    Min(a.x, b.x) <= p.x <= Max(a.x, b.x) && Min(a.y, b.y) <= p.y <= Max(a.y, b.y)
  }

  /** A monotone staircase from `a` to `b`: a route of Manhattan length inside their bounding box. */
  ghost function Staircase(a: Pos, b: Pos): (r: seq<Pos>)
    ensures |r| == CalculateHeuristic(a, b) + 1 && r[0] == a && r[|r| - 1] == b
    ensures forall i :: 0 <= i < |r| - 1 ==> Adjacent(r[i], r[i + 1])
    ensures forall i :: 0 <= i < |r| ==> InBox(a, b, r[i])
    decreases CalculateHeuristic(a, b)
  {
    if a == b then [a]
    else
      var next := StepToward(a, b);
      assert Adjacent(a, next) && CalculateHeuristic(next, b) + 1 == CalculateHeuristic(a, b);
      [a] + Staircase(next, b)
  }

  // ---------------------------------------------------------------------------
  // Walkability, as a set of positions

  /** The positions of the walkable tiles of the grid. */
  ghost function WalkablePositions(gm: GridManager): set<Pos>
    reads gm, gm.grid, gm.tiles`isWalkable
    requires gm.Valid()
  {
    set t | t in gm.tiles && t.isWalkable :: t.gridPosition
  }

  lemma WalkableAt(gm: GridManager, p: Pos)
    requires gm.Valid()
    ensures p in WalkablePositions(gm) <==> gm.GetTileAt(p) != null && gm.GetTileAt(p).isWalkable
  {
    if p in WalkablePositions(gm) {
      var t :| t in gm.tiles && t.isWalkable && t.gridPosition == p;
      gm.TileAtOwnPosition(t);
    }
  }

  ghost predicate AllWalkable(gm: GridManager)
    reads gm, gm.grid, gm.tiles`isWalkable
    requires gm.Valid()
  {
    forall t :: t in gm.tiles ==> t.isWalkable
  }

  /** On a grid without obstacles the staircase between two cells of the grid is a route. */
  lemma StaircaseIsRoute(gm: GridManager, a: Pos, b: Pos)
    requires gm.Valid() && AllWalkable(gm) && gm.InBounds(a) && gm.InBounds(b)
    ensures IsRoute(WalkablePositions(gm), Staircase(a, b), a, b)
  {
    var r := Staircase(a, b);
    forall i | 1 <= i < |r| ensures r[i] in WalkablePositions(gm) {
      WalkableAt(gm, r[i]);
    }
  }

  /** A walkable tile of the grid is exactly a tile whose position is walkable. */
  lemma WalkableTile(gm: GridManager, t: GridTile)
    requires gm.Valid() && t in gm.tiles
    ensures t.isWalkable <==> t.gridPosition in WalkablePositions(gm)
  {
    WalkableAt(gm, t.gridPosition);
    gm.TileAtOwnPosition(t);
  }

  /** The walkable tiles of `T` are exactly those whose position is in `W`. */
  ghost predicate Walkability(T: set<GridTile>, W: set<Pos>)
    reads T`isWalkable
  {
    forall t :: t in T ==> (t.isWalkable <==> t.gridPosition in W)
  }

  lemma GridWalkability(gm: GridManager)
    requires gm.Valid()
    ensures Walkability(gm.tiles, WalkablePositions(gm))
  {
    forall t | t in gm.tiles ensures t.isWalkable <==> t.gridPosition in WalkablePositions(gm) {
      WalkableTile(gm, t);
    }
  }

  /** The neighbour list of GetNeighbors, stated with walkable positions in place of the tiles' flags. */
  lemma NeighborsByPosition(T: set<GridTile>, W: set<Pos>, current: GridTile, neighbors: seq<GridTile>)
    requires Walkability(T, W)
    requires forall i :: 0 <= i < |neighbors| ==>
               neighbors[i] in T && neighbors[i].isWalkable
               && Adjacent(current.gridPosition, neighbors[i].gridPosition)
    requires forall t :: t in T && t.isWalkable && Adjacent(current.gridPosition, t.gridPosition) ==>
               t in neighbors
    ensures forall i :: 0 <= i < |neighbors| ==>
              neighbors[i] in T && neighbors[i].gridPosition in W
              && Adjacent(current.gridPosition, neighbors[i].gridPosition)
    ensures forall t :: (t in T && t.gridPosition in W && Adjacent(current.gridPosition, t.gridPosition)) ==>
              t in neighbors
  {
  }

  // ---------------------------------------------------------------------------
  // The search state
  //
  // The invariants of the search are statements about values: the tiles
  // `T`, the walkable positions `W`, the tile `At[p]` at each position `p`,
  // and ghost maps mirroring the scratch fields of the tiles.

  /** `At` maps each position of the grid to the tile there; the walkable positions lie in the grid. */
  ghost predicate Board(T: set<GridTile>, W: set<Pos>, At: map<Pos, GridTile>)
  {
    && (forall t :: t in T ==> t.gridPosition in At && At[t.gridPosition] == t)
    && (forall p :: p in At ==> At[p] in T && At[p].gridPosition == p)
    && W <= At.Keys
  }

  /** The board of a generated grid. */
  lemma GridBoard(gm: GridManager) returns (At: map<Pos, GridTile>)
    requires gm.Valid()
    ensures Board(gm.tiles, WalkablePositions(gm), At)
    ensures forall p :: gm.InBounds(p) ==> p in At && At[p] == gm.GetTileAt(p)
  {
    forall s, t | s in gm.tiles && t in gm.tiles && s.gridPosition == t.gridPosition ensures s == t {
      SamePositionSameTile(gm, s, t);
    }
    At := map t | t in gm.tiles :: t.gridPosition := t;
    forall p | gm.InBounds(p) ensures p in At && At[p] == gm.GetTileAt(p) {
      gm.TileAtOwnPosition(gm.GetTileAt(p));
    }
    forall p | p in WalkablePositions(gm) ensures p in At {
      WalkableAt(gm, p);
    }
  }

  /** Tiles at the same position are the same tile. */
  lemma SamePositionSameTile(gm: GridManager, s: GridTile, t: GridTile)
    requires gm.Valid() && s in gm.tiles && t in gm.tiles && s.gridPosition == t.gridPosition
    ensures s == t
  {
    gm.TileAtOwnPosition(s);
    gm.TileAtOwnPosition(t);
  }

  /** The values of gCost, hCost and parent of every tile. */
  datatype Scratch = Scratch(g: map<GridTile, int>, h: map<GridTile, int>, parent: map<GridTile, GridTile?>)

  ghost predicate Covers(T: set<GridTile>, s: Scratch)
  {
    forall t :: t in T ==> t in s.g && t in s.h && t in s.parent
  }

  /** `s` holds the current scratch fields of the tiles in `T`. */
  ghost predicate Mirrors(T: set<GridTile>, s: Scratch)
    reads T
  {
    && Covers(T, s)
    && forall t :: t in T ==> t.gCost == s.g[t] && t.hCost == s.h[t] && t.parent == s.parent[t]
  }

  /** The open list and the closed set hold grid tiles; the open list has no repeats and no closed tile. */
  ghost predicate Frontier(T: set<GridTile>, openSet: seq<GridTile>, closedSet: set<GridTile>)
  {
    && closedSet <= T
    && (forall t :: t in openSet ==> t in T && t !in closedSet)
    && Distinct(openSet)
  }

  /**
   * The parent pointers of the reached tiles form a tree rooted at the start
   * tile: every other reached tile hangs below a closed tile one unit step
   * away, costs exactly one more, and is walkable.
   */
  ghost predicate SearchTree(T: set<GridTile>, W: set<Pos>, s: Scratch, startTile: GridTile, target: Pos,
                             openSet: seq<GridTile>, closedSet: set<GridTile>)
    requires startTile in T && Frontier(T, openSet, closedSet) && Covers(T, s)
  {
    && s.g[startTile] == 0
    && s.parent[startTile] == null
    && forall t :: t in T && (t in closedSet || t in openSet) ==>
         && s.g[t] >= 0
         && s.h[t] == CalculateHeuristic(t.gridPosition, target)
         && (s.parent[t] == null <==> t == startTile)
         && (s.parent[t] != null ==>
               && s.parent[t] in closedSet
               && s.g[t] == s.g[s.parent[t]] + 1
               && Adjacent(s.parent[t].gridPosition, t.gridPosition)
               && t.gridPosition in W)
  }

  /** Each walkable neighbour of an expanded tile has been reached at a cost at most one more. */
  ghost predicate Expanded(T: set<GridTile>, W: set<Pos>, s: Scratch, expanded: set<GridTile>,
                           openSet: seq<GridTile>, closedSet: set<GridTile>)
    requires expanded <= T && Covers(T, s)
  {
    forall c, n :: c in expanded && n in T && n.gridPosition in W && Adjacent(c.gridPosition, n.gridPosition) ==>
      n in closedSet || (n in openSet && s.g[n] <= s.g[c] + 1)
  }

  /** Every closed tile carries the length of a shortest route to it from the start. */
  ghost predicate ClosedOptimal(W: set<Pos>, s: Scratch, start: Pos, closedSet: set<GridTile>)
    requires forall c :: c in closedSet ==> c in s.g
  {
    forall c, r :: c in closedSet && IsRoute(W, r, start, c.gridPosition) ==> s.g[c] <= |r| - 1
  }

  /**
   * The invariants of the search: those of the main loop when `expanded` is
   * the closed set; while the neighbours of the tile just closed are being
   * processed, `expanded` is the closed set without it.
   */
  ghost predicate SearchState(T: set<GridTile>, W: set<Pos>, At: map<Pos, GridTile>, s: Scratch,
                              start: Pos, target: Pos,
                              openSet: seq<GridTile>, closedSet: set<GridTile>, expanded: set<GridTile>)
  {
    && start in At && At[start] in T
    && Covers(T, s)
    && Frontier(T, openSet, closedSet)
    && ((closedSet == {} && openSet == [At[start]]) || At[start] in closedSet)
    && SearchTree(T, W, s, At[start], target, openSet, closedSet)
    && expanded <= closedSet
    && Expanded(T, W, s, expanded, openSet, closedSet)
    && ClosedOptimal(W, s, start, closedSet)
  }

  /** The state the search starts from: only the start tile is open, at cost zero and without parent. */
  lemma InitialState(T: set<GridTile>, W: set<Pos>, At: map<Pos, GridTile>, s: Scratch, start: Pos, target: Pos)
    requires Board(T, W, At) && Covers(T, s) && start in At
    requires s.g[At[start]] == 0 && s.parent[At[start]] == null
    requires s.h[At[start]] == CalculateHeuristic(start, target)
    ensures SearchState(T, W, At, s, start, target, [At[start]], {}, {})
  {
  }

  /**
   * A route from a closed tile to a tile that is not closed leaves the closed
   * set somewhere: a closed tile `c` at step j - 1 followed by a walkable
   * tile `n` outside the closed set at step j.
   */
  lemma FirstUnclosed(T: set<GridTile>, W: set<Pos>, At: map<Pos, GridTile>, closedSet: set<GridTile>,
                      r: seq<Pos>, a: Pos, b: Pos)
    returns (j: nat, c: GridTile, n: GridTile)
    requires Board(T, W, At) && IsRoute(W, r, a, b)
    requires a in At && b in At && At[a] in closedSet && At[b] !in closedSet
    ensures 0 < j < |r|
    ensures c in closedSet && c.gridPosition == r[j - 1]
    ensures n !in closedSet && n in T && n.gridPosition == r[j] && r[j] in W
    ensures Adjacent(c.gridPosition, n.gridPosition)
  {
    j := 1;
    while At[r[j]] in closedSet
      invariant 0 < j < |r|
      invariant r[j - 1] in At && At[r[j - 1]] in closedSet
      decreases |r| - j
    {
      j := j + 1;
    }
    c := At[r[j - 1]];
    n := At[r[j]];
  }

  /** The bound PopIsOptimal needs, from the facts about the exit step of a route. */
  lemma ExitBound(W: set<Pos>, r: seq<Pos>, start: Pos, target: Pos, cur: GridTile, gCur: int, hCur: int,
                  j: nat, gC: int, gN: int, hN: int)
    requires IsRoute(W, r, start, cur.gridPosition) && 0 < j < |r|
    requires gC <= j - 1 && gN <= gC + 1
    requires hN == CalculateHeuristic(r[j], target) && hCur == CalculateHeuristic(cur.gridPosition, target)
    requires gCur + hCur <= gN + hN
    ensures gCur <= |r| - 1
  {
    RouteHeuristic(W, r, start, cur.gridPosition, j, target);
  }

  /**
   * The tile taken from the open list with the least fCost already carries
   * the length of a shortest route: any shorter route would leave the closed
   * set through an open tile whose fCost is smaller.
   */
  lemma PopIsOptimal(T: set<GridTile>, W: set<Pos>, At: map<Pos, GridTile>, s: Scratch, start: Pos, target: Pos,
                     openSet: seq<GridTile>, closedSet: set<GridTile>, i: nat, r: seq<Pos>)
    requires Board(T, W, At) && SearchState(T, W, At, s, start, target, openSet, closedSet, closedSet)
    requires i < |openSet|
    requires forall k :: 0 <= k < |openSet| ==>
               s.g[openSet[i]] + s.h[openSet[i]] <= s.g[openSet[k]] + s.h[openSet[k]]
    requires IsRoute(W, r, start, openSet[i].gridPosition)
    ensures s.g[openSet[i]] <= |r| - 1
  {
    var current := openSet[i];
    if closedSet == {} {
      return;
    }
    var j, c, n := FirstUnclosed(T, W, At, closedSet, r, start, current.gridPosition);
    assert n in openSet && s.g[n] <= s.g[c] + 1;
    RoutePrefix(W, r, start, current.gridPosition, j);
    assert s.g[c] <= j - 1;
    var k :| 0 <= k < |openSet| && openSet[k] == n;
    ExitBound(W, r, start, target, current, s.g[current], s.h[current], j, s.g[c], s.g[n], s.h[n]);
  }

  /** PopIsOptimal, for every route at once. */
  lemma PopIsOptimalAll(T: set<GridTile>, W: set<Pos>, At: map<Pos, GridTile>, s: Scratch, start: Pos, target: Pos,
                        openSet: seq<GridTile>, closedSet: set<GridTile>, i: nat)
    requires Board(T, W, At) && SearchState(T, W, At, s, start, target, openSet, closedSet, closedSet)
    requires i < |openSet|
    requires forall k :: 0 <= k < |openSet| ==>
               s.g[openSet[i]] + s.h[openSet[i]] <= s.g[openSet[k]] + s.h[openSet[k]]
    ensures forall r :: IsRoute(W, r, start, openSet[i].gridPosition) ==> s.g[openSet[i]] <= |r| - 1
  {
    forall r | IsRoute(W, r, start, openSet[i].gridPosition) ensures s.g[openSet[i]] <= |r| - 1 {
      PopIsOptimal(T, W, At, s, start, target, openSet, closedSet, i, r);
    }
  }

  /**
   * Taking an open tile that already carries its shortest distance into the
   * closed set keeps the invariants, with the new tile not yet expanded.
   */
  lemma PopPreserves(T: set<GridTile>, W: set<Pos>, At: map<Pos, GridTile>, s: Scratch, start: Pos, target: Pos,
                     openSet: seq<GridTile>, closedSet: set<GridTile>, i: nat)
    requires SearchState(T, W, At, s, start, target, openSet, closedSet, closedSet)
    requires i < |openSet|
    requires forall r :: IsRoute(W, r, start, openSet[i].gridPosition) ==> s.g[openSet[i]] <= |r| - 1
    ensures SearchState(T, W, At, s, start, target, Remove(openSet, openSet[i]), closedSet + {openSet[i]}, closedSet)
  {
    var current := openSet[i];
    ClosedOptimalAdd(W, s, start, closedSet, current);
    PopKeepsTree(T, W, At[start], s, target, openSet, closedSet, current);
  }

  /** A tile whose cost is at most that of every route to it may join the closed set. */
  lemma ClosedOptimalAdd(W: set<Pos>, s: Scratch, start: Pos, closedSet: set<GridTile>, current: GridTile)
    requires forall c :: c in closedSet + {current} ==> c in s.g
    requires ClosedOptimal(W, s, start, closedSet)
    requires forall r :: IsRoute(W, r, start, current.gridPosition) ==> s.g[current] <= |r| - 1
    ensures ClosedOptimal(W, s, start, closedSet + {current})
  {
  }

  /** Moving an open tile to the closed set keeps the open list well formed, the tree, and what was expanded. */
  lemma PopKeepsTree(T: set<GridTile>, W: set<Pos>, startTile: GridTile, s: Scratch, target: Pos,
                     openSet: seq<GridTile>, closedSet: set<GridTile>, current: GridTile)
    requires startTile in T && Covers(T, s) && Frontier(T, openSet, closedSet) && current in openSet
    requires SearchTree(T, W, s, startTile, target, openSet, closedSet)
    requires Expanded(T, W, s, closedSet, openSet, closedSet)
    ensures Frontier(T, Remove(openSet, current), closedSet + {current})
    ensures SearchTree(T, W, s, startTile, target, Remove(openSet, current), closedSet + {current})
    ensures Expanded(T, W, s, closedSet, Remove(openSet, current), closedSet + {current})
  {
    assert Frontier(T, Remove(openSet, current), closedSet + {current});
  }

  /** The scratch values after `neighbor` is reached through `current`. */
  ghost function Relaxed(s: Scratch, current: GridTile, neighbor: GridTile, target: Pos): Scratch
    requires current in s.g
  {
    Scratch(s.g[neighbor := s.g[current] + 1],
            s.h[neighbor := CalculateHeuristic(neighbor.gridPosition, target)],
            s.parent[neighbor := current])
  }

  /**
   * Relaxing the edge from the tile being expanded to a walkable neighbour
   * outside the closed set, when the neighbour is new or the edge is
   * shorter, keeps the invariants.
   */
  lemma RelaxPreserves(T: set<GridTile>, W: set<Pos>, At: map<Pos, GridTile>, s: Scratch, start: Pos, target: Pos,
                       openSet: seq<GridTile>, closedSet: set<GridTile>, expanded: set<GridTile>,
                       current: GridTile, neighbor: GridTile)
    requires SearchState(T, W, At, s, start, target, openSet, closedSet, expanded)
    requires current in closedSet && neighbor in T && neighbor !in closedSet
    requires neighbor.gridPosition in W && Adjacent(current.gridPosition, neighbor.gridPosition)
    requires neighbor !in openSet || s.g[current] + 1 < s.g[neighbor]
    ensures SearchState(T, W, At, Relaxed(s, current, neighbor, target), start, target,
                        if neighbor in openSet then openSet else openSet + [neighbor], closedSet, expanded)
  {
    RelaxTree(T, W, At[start], s, target, openSet, closedSet, current, neighbor);
    RelaxExpanded(T, W, s, target, openSet, closedSet, expanded, current, neighbor);
  }

  /** Relaxing an edge keeps the open list well formed and the parent pointers a search tree. */
  lemma RelaxTree(T: set<GridTile>, W: set<Pos>, startTile: GridTile, s: Scratch, target: Pos,
                  openSet: seq<GridTile>, closedSet: set<GridTile>, current: GridTile, neighbor: GridTile)
    requires startTile in T && Covers(T, s) && Frontier(T, openSet, closedSet) && startTile in closedSet
    requires SearchTree(T, W, s, startTile, target, openSet, closedSet)
    requires current in closedSet && neighbor in T && neighbor !in closedSet
    requires neighbor.gridPosition in W && Adjacent(current.gridPosition, neighbor.gridPosition)
    ensures Covers(T, Relaxed(s, current, neighbor, target))
    ensures Frontier(T, if neighbor in openSet then openSet else openSet + [neighbor], closedSet)
    ensures SearchTree(T, W, Relaxed(s, current, neighbor, target), startTile, target,
                       if neighbor in openSet then openSet else openSet + [neighbor], closedSet)
  {
    var open' := if neighbor in openSet then openSet else openSet + [neighbor];
    assert Frontier(T, open', closedSet);
  }

  /** Relaxing an edge only lowers a cost or opens a tile, so expanded tiles stay expanded. */
  lemma RelaxExpanded(T: set<GridTile>, W: set<Pos>, s: Scratch, target: Pos,
                      openSet: seq<GridTile>, closedSet: set<GridTile>, expanded: set<GridTile>,
                      current: GridTile, neighbor: GridTile)
    requires Covers(T, s) && expanded <= closedSet <= T && current in closedSet
    requires neighbor in T && neighbor !in closedSet
    requires Expanded(T, W, s, expanded, openSet, closedSet)
    requires neighbor !in openSet || s.g[current] + 1 < s.g[neighbor]
    ensures Covers(T, Relaxed(s, current, neighbor, target))
    ensures Expanded(T, W, Relaxed(s, current, neighbor, target), expanded,
                     if neighbor in openSet then openSet else openSet + [neighbor], closedSet)
  {
  }

  /** Once every walkable neighbour of the new closed tile has been reached, it counts as expanded. */
  lemma ExpansionDone(T: set<GridTile>, W: set<Pos>, At: map<Pos, GridTile>, s: Scratch, start: Pos, target: Pos,
                      openSet: seq<GridTile>, closedSet: set<GridTile>, current: GridTile, neighbors: seq<GridTile>)
    requires SearchState(T, W, At, s, start, target, openSet, closedSet + {current}, closedSet)
    requires forall t :: t in T && t.gridPosition in W && Adjacent(current.gridPosition, t.gridPosition) ==>
               t in neighbors
    requires forall j :: 0 <= j < |neighbors| ==> Reached(neighbors[j], closedSet + {current}, openSet, s.g, s.g[current] + 1)
    ensures SearchState(T, W, At, s, start, target, openSet, closedSet + {current}, closedSet + {current})
  {
    forall n | n in T && n.gridPosition in W && Adjacent(current.gridPosition, n.gridPosition)
      ensures n in closedSet + {current} || (n in openSet && s.g[n] <= s.g[current] + 1)
    {
      var j :| 0 <= j < |neighbors| && neighbors[j] == n;
    }
  }

  /** When the open list runs dry, the closed set contains every tile some route reaches. */
  lemma {:induction false} ClosedUnderRoutes(T: set<GridTile>, W: set<Pos>, At: map<Pos, GridTile>, s: Scratch,
                                             closedSet: set<GridTile>, r: seq<Pos>, a: Pos, b: Pos, k: nat)
    requires Board(T, W, At) && closedSet <= T && Covers(T, s)
    requires IsRoute(W, r, a, b) && k < |r|
    requires a in At && At[a] in closedSet
    requires Expanded(T, W, s, closedSet, [], closedSet)
    ensures r[k] in At && At[r[k]] in closedSet
  {
    if k > 0 {
      ClosedUnderRoutes(T, W, At, s, closedSet, r, a, b, k - 1);
      var c := At[r[k - 1]];
      var n := At[r[k]];
      assert c in closedSet && n in T && n.gridPosition in W && Adjacent(c.gridPosition, n.gridPosition);
    }
  }

  /** The parent pointers of `reached` lead, one unit step and one cost unit at a time, down to the start tile. */
  ghost predicate ParentChain(reached: set<GridTile>, W: set<Pos>, startTile: GridTile)
    reads reached
  {
    forall t :: t in reached ==>
      && t.gCost >= 0
      && (t.parent == null ==> t == startTile)
      && (t.parent != null ==>
            && t.parent in reached
            && t.gCost == t.parent.gCost + 1
            && Adjacent(t.parent.gridPosition, t.gridPosition)
            && t.gridPosition in W)
  }

  /** The search tree, read off the tiles, is a parent chain over the closed set. */
  lemma TreeIsChain(T: set<GridTile>, W: set<Pos>, At: map<Pos, GridTile>, s: Scratch, start: Pos, target: Pos,
                    openSet: seq<GridTile>, closedSet: set<GridTile>, expanded: set<GridTile>)
    requires SearchState(T, W, At, s, start, target, openSet, closedSet, expanded) && Mirrors(T, s)
    ensures ParentChain(closedSet, W, At[start])
  {
  }

  // The operations

  /** The open tile the search expands next is strictly ahead of `b` by (fCost, hCost). */
  predicate Precedes(a: GridTile, b: GridTile)
    reads a, b
  {
    a.FCost() < b.FCost() || (a.FCost() == b.FCost() && a.hCost < b.hCost)
  }

  /**
   * `OrderBy(fCost).ThenBy(hCost).First()`: the index of the first tile of
   * the open list whose (fCost, hCost) is least.
   */
  function SelectLowest(openSet: seq<GridTile>): (i: nat)
    reads openSet
    requires |openSet| > 0
    ensures i < |openSet|
    ensures forall j :: 0 <= j < |openSet| ==> !Precedes(openSet[j], openSet[i])
    ensures forall j :: 0 <= j < i ==> Precedes(openSet[i], openSet[j])
  {
    if |openSet| == 1 then 0
    else
      var k := SelectLowest(openSet[..|openSet| - 1]);
      if Precedes(openSet[|openSet| - 1], openSet[k]) then |openSet| - 1 else k
  }

  /** Clears the search scratch state of every tile of the grid, touching nothing else. */
  method ResetTiles(gm: GridManager)
    requires gm.Valid()
    modifies gm.tiles`gCost, gm.tiles`parent
    ensures forall t :: t in gm.tiles ==> t.gCost == IntMax && t.parent == null
  {
    for x := 0 to gm.width
      invariant forall i, j :: 0 <= i < x && 0 <= j < gm.height ==>
                  gm.grid[i, j].gCost == IntMax && gm.grid[i, j].parent == null
    {
      for y := 0 to gm.height
        invariant forall i, j :: 0 <= i < x && 0 <= j < gm.height ==>
                    gm.grid[i, j].gCost == IntMax && gm.grid[i, j].parent == null
        invariant forall j :: 0 <= j < y ==> gm.grid[x, j].gCost == IntMax && gm.grid[x, j].parent == null
      {
        var tile := gm.GetTileAt(Pos(x, y));
        tile.gCost := IntMax;
        tile.parent := null;
      }
    }
  }


  /** `b` lists cells walked backwards from `e`: each cell is a unit step before the one listed ahead of it. */
  ghost predicate WalkedBack(W: set<Pos>, b: seq<Pos>, e: Pos)
  {
    && (b != [] ==> b[0] == e)
    && forall i :: 0 <= i < |b| - 1 ==> Adjacent(b[i + 1], b[i]) && b[i] in W
  }

  /** Stepping back once more, to a cell adjacent to the last one. */
  lemma WalkBackStep(W: set<Pos>, b: seq<Pos>, e: Pos, p: Pos)
    requires WalkedBack(W, b, e) && (b == [] ==> p == e)
    requires b != [] ==> Adjacent(p, b[|b| - 1]) && b[|b| - 1] in W
    ensures WalkedBack(W, b + [p], e)
  {
  }

  /** A backward walk from `e` that ends at `a`, read in reverse, is a route from `a` to `e`. */
  lemma WalkedBackReversed(W: set<Pos>, b: seq<Pos>, a: Pos, e: Pos)
    requires WalkedBack(W, b, e) && b != [] && b[|b| - 1] == a
    ensures IsRoute(W, Reverse(b), a, e)
  {
    var r := Reverse(b);
    forall i | 0 <= i < |r| - 1 ensures Adjacent(r[i], r[i + 1]) {
      assert r[i] == b[|b| - 1 - i] && r[i + 1] == b[|b| - 2 - i];
    }
  }

  /**
   * Follows the parent pointers from `endTile` back to the root, then
   * reverses: a route from the start tile to `endTile` with gCost + 1 cells.
   */
  method ReconstructPath(endTile: GridTile, ghost reached: set<GridTile>, ghost W: set<Pos>,
                         ghost startTile: GridTile)
    returns (path: seq<Pos>)
    requires endTile in reached && startTile.gCost == 0 && ParentChain(reached, W, startTile)
    ensures IsRoute(W, path, startTile.gridPosition, endTile.gridPosition)
    ensures |path| == endTile.gCost + 1
  {
    var backwards: seq<Pos> := [];
    var current: GridTile? := endTile;
    while current != null
      invariant current != null ==> current in reached && |backwards| + current.gCost == endTile.gCost
      invariant WalkedBack(W, backwards, endTile.gridPosition)
      invariant current != null && backwards != [] ==>
                  Adjacent(current.gridPosition, backwards[|backwards| - 1]) && backwards[|backwards| - 1] in W
      invariant current == null ==>
                  backwards != [] && backwards[|backwards| - 1] == startTile.gridPosition
                  && |backwards| == endTile.gCost + 1
      invariant backwards == [] ==> current == endTile
      decreases if current == null then 0 else current.gCost + 1
    {
      WalkBackStep(W, backwards, endTile.gridPosition, current.gridPosition);
      backwards := backwards + [current.gridPosition];
      current := current.parent;
    }
    WalkedBackReversed(W, backwards, startTile.gridPosition, endTile.gridPosition);
    path := Reverse(backwards);
  }

  /** `t` is closed, or open at a cost of at most `bound`. */
  ghost predicate Reached(t: GridTile, closedSet: set<GridTile>, openSet: seq<GridTile>, g: map<GridTile, int>, bound: int)
  {
    t in closedSet || (t in openSet && t in g && g[t] <= bound)
  }

  /** Processing neighbour k keeps the neighbours before it reached. */
  lemma ReachedKept(neighbors: seq<GridTile>, k: nat, closedSet: set<GridTile>,
                    open0: seq<GridTile>, open1: seq<GridTile>, g0: map<GridTile, int>, g1: map<GridTile, int>, bound: int)
    requires k < |neighbors|
    requires forall j :: 0 <= j < k ==> Reached(neighbors[j], closedSet, open0, g0, bound)
    requires forall x :: x in open0 ==> x in open1
    requires forall x :: x in g0 && x != neighbors[k] ==> x in g1 && g1[x] == g0[x]
    requires Reached(neighbors[k], closedSet, open1, g1, bound)
    ensures forall j :: 0 <= j < k + 1 ==> Reached(neighbors[j], closedSet, open1, g1, bound)
  {
  }

  /** The tile SelectLowest picks has the least gCost + hCost by the mirrored values. */
  lemma LowestByScratch(T: set<GridTile>, s: Scratch, openSet: seq<GridTile>, i: nat)
    requires Mirrors(T, s) && (forall t :: t in openSet ==> t in T) && i < |openSet|
    requires forall j :: 0 <= j < |openSet| ==> !Precedes(openSet[j], openSet[i])
    ensures forall k :: 0 <= k < |openSet| ==>
              s.g[openSet[i]] + s.h[openSet[i]] <= s.g[openSet[k]] + s.h[openSet[k]]
  {
  }

  /**
   * The fCost of a tile the search has reached is its cost from the start plus
   * its Manhattan distance to the target; for a closed tile it is at most the
   * length of any route to it plus that distance.
   */
  lemma ReachedFCost(T: set<GridTile>, W: set<Pos>, At: map<Pos, GridTile>, s: Scratch, start: Pos, target: Pos,
                     openSet: seq<GridTile>, closedSet: set<GridTile>, expanded: set<GridTile>, t: GridTile)
    requires SearchState(T, W, At, s, start, target, openSet, closedSet, expanded) && Mirrors(T, s)
    requires t in openSet || t in closedSet
    ensures t.FCost() == t.gCost + CalculateHeuristic(t.gridPosition, target) && 0 <= t.gCost <= t.FCost()
    ensures t in closedSet ==>
              forall r :: IsRoute(W, r, start, t.gridPosition) ==>
                t.FCost() <= |r| - 1 + CalculateHeuristic(t.gridPosition, target)
  {
  }

  /** Hangs `neighbor` below `current`, one step further from the start, with its estimate to the target. */
  method Relax(current: GridTile, neighbor: GridTile, target: Pos, ghost T: set<GridTile>, ghost W: set<Pos>,
               ghost s: Scratch)
    returns (ghost s': Scratch)
    requires Mirrors(T, s) && current in T && neighbor in T && current != neighbor
    requires Walkability(T, W)
    modifies neighbor`parent, neighbor`gCost, neighbor`hCost
    ensures s' == Relaxed(s, current, neighbor, target) && Mirrors(T, s') && Walkability(T, W)
  {
    neighbor.parent := current;
    neighbor.gCost := current.gCost + 1;
    neighbor.hCost := CalculateHeuristic(neighbor.gridPosition, target);
    s' := Relaxed(s, current, neighbor, target);
  }

  /**
   * One step of the inner loop: a neighbour outside the closed set is hung
   * below `current` when it is not yet open or the way through `current` is
   * shorter, and is added to the open list when not yet in it.
   */
  method ProcessNeighbor(current: GridTile, neighbor: GridTile, target: Pos,
                         openSet: seq<GridTile>, closedSet: set<GridTile>,
                         ghost T: set<GridTile>, ghost W: set<Pos>, ghost At: map<Pos, GridTile>,
                         ghost s: Scratch, ghost start: Pos, ghost expanded: set<GridTile>, ghost gCur: int)
    returns (openSet': seq<GridTile>, ghost s': Scratch)
    requires SearchState(T, W, At, s, start, target, openSet, closedSet, expanded) && Mirrors(T, s)
    requires Walkability(T, W)
    requires current in closedSet && s.g[current] == gCur
    requires neighbor in T && neighbor.gridPosition in W && Adjacent(current.gridPosition, neighbor.gridPosition)
    modifies neighbor`parent, neighbor`gCost, neighbor`hCost
    ensures SearchState(T, W, At, s', start, target, openSet', closedSet, expanded) && Mirrors(T, s')
    ensures Walkability(T, W)
    ensures s'.g[current] == gCur
    ensures forall x :: x in openSet ==> x in openSet'
    ensures forall x :: x in s.g && x != neighbor ==> x in s'.g && s'.g[x] == s.g[x]
    ensures Reached(neighbor, closedSet, openSet', s'.g, gCur + 1)
    ensures openSet' == if neighbor in openSet || neighbor in closedSet then openSet else openSet + [neighbor]
    ensures var rewritten := neighbor !in closedSet && (neighbor !in openSet || gCur + 1 < s.g[neighbor]);
            && (rewritten ==> s' == Relaxed(s, current, neighbor, target)
                              && neighbor.parent == current && neighbor.gCost == gCur + 1
                              && neighbor.hCost == CalculateHeuristic(neighbor.gridPosition, target))
            && (!rewritten ==> s' == s && unchanged(neighbor))
  {
    openSet', s' := openSet, s;
    if neighbor !in closedSet {
      var tentativeGCost := current.gCost + 1;
      if tentativeGCost < neighbor.gCost || neighbor !in openSet {
        RelaxPreserves(T, W, At, s, start, target, openSet, closedSet, expanded, current, neighbor);
        s' := Relax(current, neighbor, target, T, W, s);
        if neighbor !in openSet {
          openSet' := openSet + [neighbor];
        }
      }
    }
  }

  /**
   * The inner loop of the search: relaxes the edge from `current`, just
   * closed, to each of its walkable neighbours in turn, adding to the open
   * list the ones not yet in it. Afterwards `current` counts as expanded.
   */
  method ExpandNeighbors(current: GridTile, neighbors: seq<GridTile>, target: Pos,
                         openSet: seq<GridTile>, closedSet: set<GridTile>,
                         ghost T: set<GridTile>, ghost W: set<Pos>, ghost At: map<Pos, GridTile>,
                         ghost s: Scratch, ghost start: Pos, ghost closedBefore: set<GridTile>)
    returns (openSet': seq<GridTile>, ghost s': Scratch)
    requires SearchState(T, W, At, s, start, target, openSet, closedSet, closedBefore) && Mirrors(T, s)
    requires Walkability(T, W)
    requires closedSet == closedBefore + {current}
    requires forall i :: 0 <= i < |neighbors| ==>
               neighbors[i] in T && neighbors[i].gridPosition in W
               && Adjacent(current.gridPosition, neighbors[i].gridPosition)
    requires forall t :: t in T && t.gridPosition in W && Adjacent(current.gridPosition, t.gridPosition) ==>
               t in neighbors
    modifies T`gCost, T`hCost, T`parent
    ensures SearchState(T, W, At, s', start, target, openSet', closedSet, closedSet) && Mirrors(T, s')
    ensures Walkability(T, W)
  {
    ghost var gCur := s.g[current];
    openSet', s' := openSet, s;
    for k := 0 to |neighbors|
      invariant Mirrors(T, s') && Walkability(T, W)
      invariant SearchState(T, W, At, s', start, target, openSet', closedSet, closedBefore)
      invariant s'.g[current] == gCur
      invariant forall j :: 0 <= j < k ==> Reached(neighbors[j], closedSet, openSet', s'.g, gCur + 1)
    {
      ghost var open0, g0 := openSet', s'.g;
      openSet', s' := ProcessNeighbor(current, neighbors[k], target, openSet', closedSet,
                                      T, W, At, s', start, closedBefore, gCur);
      ReachedKept(neighbors, k, closedSet, open0, openSet', g0, s'.g, gCur + 1);
    }
    ExpansionDone(T, W, At, s', start, target, openSet', closedBefore, current, neighbors);
  }

  /**
   * Takes the first open tile of least (fCost, hCost) out of the open list
   * and into the closed set.
   */
  method PopLowest(openSet: seq<GridTile>, closedSet: set<GridTile>,
                   ghost T: set<GridTile>, ghost W: set<Pos>, ghost At: map<Pos, GridTile>, ghost s: Scratch,
                   ghost start: Pos, ghost target: Pos)
    returns (current: GridTile, openSet': seq<GridTile>, closedSet': set<GridTile>)
    requires Board(T, W, At) && SearchState(T, W, At, s, start, target, openSet, closedSet, closedSet)
    requires Mirrors(T, s) && |openSet| > 0
    ensures current == openSet[SelectLowest(openSet)]
    ensures current in openSet && current in T && current !in closedSet
    ensures forall t :: t in openSet ==> !Precedes(t, current)
    ensures openSet' == Remove(openSet, current) && closedSet' == closedSet + {current}
    ensures SearchState(T, W, At, s, start, target, openSet', closedSet', closedSet)
  {
    var i := SelectLowest(openSet);
    current := openSet[i];
    LowestByScratch(T, s, openSet, i);
    PopIsOptimalAll(T, W, At, s, start, target, openSet, closedSet, i);
    PopPreserves(T, W, At, s, start, target, openSet, closedSet, i);
    openSet' := Remove(openSet, current);
    closedSet' := closedSet + {current};
  }

  /** A search whose open list ran dry without closing the target proves that no route reaches it. */
  lemma Exhausted(T: set<GridTile>, W: set<Pos>, At: map<Pos, GridTile>, s: Scratch, start: Pos, target: Pos,
                  closedSet: set<GridTile>)
    requires Board(T, W, At) && SearchState(T, W, At, s, start, target, [], closedSet, closedSet)
    requires target in At && At[target] !in closedSet
    ensures forall r :: !IsRoute(W, r, start, target)
  {
    forall r | IsRoute(W, r, start, target) ensures false {
      ClosedUnderRoutes(T, W, At, s, closedSet, r, start, target, |r| - 1);
    }
  }

  /**
   * The search proper, once both ends are known to be in the grid and the
   * tiles are reset: opens the start tile, then repeatedly closes the best
   * open tile, returning the route when it is the target and expanding it
   * otherwise; [] when the open list runs dry.
   */
  /** The neighbour loop of one expansion, with the neighbours taken from the grid. */
  method Expand(gm: GridManager, current: GridTile, target: Pos, openSet: seq<GridTile>, closedSet: set<GridTile>,
                ghost T: set<GridTile>, ghost W: set<Pos>, ghost At: map<Pos, GridTile>,
                ghost s: Scratch, ghost start: Pos, ghost closedBefore: set<GridTile>)
    returns (openSet': seq<GridTile>, ghost s': Scratch)
    requires gm.Valid() && T == gm.tiles && current in T
    requires SearchState(T, W, At, s, start, target, openSet, closedSet, closedBefore) && Mirrors(T, s)
    requires Walkability(T, W)
    requires closedSet == closedBefore + {current}
    modifies T`gCost, T`hCost, T`parent
    ensures SearchState(T, W, At, s', start, target, openSet', closedSet, closedSet) && Mirrors(T, s')
    ensures Walkability(T, W)
  {
    var neighbors := gm.GetNeighbors(current);
    NeighborsByPosition(T, W, current, neighbors);
    openSet', s' := ExpandNeighbors(current, neighbors, target, openSet, closedSet, T, W, At, s, start, closedBefore);
  }

  /** Changing tile scratch fields leaves the grid itself as it was. */
  twostate lemma GridKept(gm: GridManager)
    requires old(gm.Valid()) && unchanged(gm) && unchanged(old(gm.grid))
    ensures gm.Valid() && gm.tiles == old(gm.tiles)
  {
  }

  /** The search begins with only the start tile open, at distance 0 and with its heuristic to the target. */
  method OpenStart(startTile: GridTile, target: Pos, ghost T: set<GridTile>, ghost W: set<Pos>,
                   ghost At: map<Pos, GridTile>, ghost start: Pos)
    returns (openSet: seq<GridTile>, closedSet: set<GridTile>, ghost s: Scratch)
    requires Board(T, W, At) && Walkability(T, W)
    requires start in At && At[start] == startTile && startTile.parent == null
    modifies startTile`gCost, startTile`hCost
    ensures openSet == [startTile] && closedSet == {}
    ensures startTile.gCost == 0 && startTile.hCost == CalculateHeuristic(start, target)
    ensures Walkability(T, W) && Mirrors(T, s)
    ensures SearchState(T, W, At, s, start, target, openSet, closedSet, closedSet)
  {
    openSet := [startTile];
    closedSet := {};
    startTile.gCost := 0;
    startTile.hCost := CalculateHeuristic(startTile.gridPosition, target);
    s := Scratch(map t: GridTile | t in T :: t.gCost, map t: GridTile | t in T :: t.hCost,
                 map t: GridTile | t in T :: t.parent);
    InitialState(T, W, At, s, start, target);
  }

  /**
   * One iteration of the search loop: close the lowest open tile and, unless it
   * is the target, relax its walkable neighbours.
   */
  method Step(gm: GridManager, targetTile: GridTile, target: Pos, openSet: seq<GridTile>, closedSet: set<GridTile>,
              ghost T: set<GridTile>, ghost W: set<Pos>, ghost At: map<Pos, GridTile>, ghost s: Scratch, ghost start: Pos)
    returns (current: GridTile, openSet': seq<GridTile>, closedSet': set<GridTile>, ghost s': Scratch)
    requires gm.Valid() && T == gm.tiles && Board(T, W, At) && Walkability(T, W) && Mirrors(T, s)
    requires SearchState(T, W, At, s, start, target, openSet, closedSet, closedSet) && |openSet| > 0
    modifies T`gCost, T`hCost, T`parent
    ensures Walkability(T, W) && Mirrors(T, s')
    ensures current in T && current !in closedSet && closedSet' == closedSet + {current}
    ensures current == targetTile ==> SearchState(T, W, At, s', start, target, openSet', closedSet', closedSet)
    ensures current != targetTile ==> SearchState(T, W, At, s', start, target, openSet', closedSet', closedSet')
  {
    current, openSet', closedSet' := PopLowest(openSet, closedSet, T, W, At, s, start, target);
    s' := s;
    if current != targetTile {
      openSet', s' := Expand(gm, current, target, openSet', closedSet', T, W, At, s, start, closedSet);
    }
  }

  method Search(gm: GridManager, startTile: GridTile, targetTile: GridTile, start: Pos, target: Pos,
                ghost T: set<GridTile>, ghost W: set<Pos>, ghost At: map<Pos, GridTile>)
    returns (path: seq<Pos>)
    requires gm.Valid() && T == gm.tiles && Board(T, W, At) && Walkability(T, W)
    requires start in At && At[start] == startTile && target in At && At[target] == targetTile
    requires startTile.parent == null
    modifies T`gCost, T`hCost, T`parent
    ensures path != [] ==> IsRoute(W, path, start, target) && forall r :: IsRoute(W, r, start, target) ==> |path| <= |r|
    ensures path == [] ==> forall r :: !IsRoute(W, r, start, target)
  {
    var openSet, closedSet, s := OpenStart(startTile, target, T, W, At, start);

    while |openSet| > 0
      invariant Walkability(T, W)
      invariant Mirrors(T, s)
      invariant SearchState(T, W, At, s, start, target, openSet, closedSet, closedSet)
      invariant targetTile !in closedSet
      decreases T - closedSet
    {
      GridKept(gm);
      var current;
      ghost var closedBefore := closedSet;
      current, openSet, closedSet, s := Step(gm, targetTile, target, openSet, closedSet, T, W, At, s, start);
      if current == targetTile {
        TreeIsChain(T, W, At, s, start, target, openSet, closedSet, closedBefore);
        path := ReconstructPath(current, closedSet, W, startTile);
        return;
      }
    }

    Exhausted(T, W, At, s, start, target, closedSet);
    return [];
  }

  /**
   * A* from `start` to `target`. Returns [] when either end lies outside the
   * grid or the target is not walkable (without touching any tile), or when
   * no route exists; otherwise a shortest route from `start` to `target`.
   */
  method FindPath(gm: GridManager, start: Pos, target: Pos) returns (path: seq<Pos>)
    requires gm.Valid()
    modifies gm.tiles`gCost, gm.tiles`hCost, gm.tiles`parent
    ensures gm.GetTileAt(start) == null || gm.GetTileAt(target) == null || !gm.GetTileAt(target).isWalkable ==>
              path == [] && unchanged(gm.tiles)
    ensures path != [] ==> IsRoute(WalkablePositions(gm), path, start, target)
    ensures path != [] ==> forall r :: IsRoute(WalkablePositions(gm), r, start, target) ==> |path| <= |r|
    ensures path == [] && gm.InBounds(start) && gm.InBounds(target) && gm.GetTileAt(target).isWalkable ==>
              forall r :: !IsRoute(WalkablePositions(gm), r, start, target)
    ensures AllWalkable(gm) && gm.InBounds(start) && gm.InBounds(target) ==>
              |path| == CalculateHeuristic(start, target) + 1
  {
    var startTile := gm.GetTileAt(start);
    var targetTile := gm.GetTileAt(target);
    if startTile == null || targetTile == null || !targetTile.isWalkable {
      return [];
    }
    ResetTiles(gm);
    ghost var W := WalkablePositions(gm);
    ghost var At := GridBoard(gm);
    GridWalkability(gm);
    path := Search(gm, startTile, targetTile, start, target, gm.tiles, W, At);
    if AllWalkable(gm) {
      StaircaseIsRoute(gm, start, target);
      RouteLowerBound(W, path, start, target);
    }
  }
}
