/**
 * The waypoint graph of the final project: BuildGraph links every pair of
 * waypoints whose connecting segment is clear of walls, and an A* over that
 * graph (with real distances, a linear-scan open list and dictionaries for the
 * scores) finds a chain of waypoints that CalculatePath turns into positions.
 */
module WaypointGraph {
  import opened Collections

  datatype Option<T> = None | Some(value: T)

  /** A point of the scene, with real coordinates. */
  datatype Vec3 = Vec3(x: real, y: real, z: real)

  /**
   * The scene queries that are not modelled: the distance between two points,
   * and the physics sweep along a segment against the wall colliders (sphere
   * cast, parallel ray casts and the bounds check of the cached colliders).
   */
  datatype Geometry = Geometry(distance: (Vec3, Vec3) -> real, sweepClear: (Vec3, Vec3) -> bool)

  /** Segments shorter than this never count as clear. */
  const MinEdgeLength: real := 0.1

  /** float.MaxValue, the distance GetNearestPoint starts from. */
  const FloatMax: real := 340282346638528859811704183484516925440.0

  /** A waypoint of the scene; two waypoints are the same only if they are the same object. */
  class Waypoint {
    const position: Vec3

    constructor (position: Vec3)
      ensures this.position == position
    {
      this.position := position;
    }
  }

  /** What BuildGraph reports: the number of nodes, of clear and of blocked pairs, and of nodes without edges. */
  datatype BuildReport = BuildReport(nodes: nat, totalConnections: nat, blockedConnections: nat, isolatedNodes: nat)

  /** `w` walks from `a` to `b` along edges of `g`. */
  ghost predicate IsWalk(g: map<Waypoint, seq<Waypoint>>, w: seq<Waypoint>, a: Waypoint, b: Waypoint)
  {
    && |w| > 0
    && w[0] == a
    && w[|w| - 1] == b
    && forall i :: 0 <= i < |w| - 1 ==> w[i] in g && w[i + 1] in g[w[i]]
  }

  /** The nodes of `g` without outgoing edges. */
  ghost function Isolated(g: map<Waypoint, seq<Waypoint>>): set<Waypoint>
  {
    set p | p in g && g[p] == []
  }

  /** The number of non-null entries of `qs` other than `p`: the pairs BuildGraph tests for `p`. */
  function OthersCount(p: Waypoint, qs: seq<Waypoint?>): nat
  {
    if qs == [] then 0
    else OthersCount(p, qs[..|qs| - 1]) + (if qs[|qs| - 1] != null && qs[|qs| - 1] != p then 1 else 0)
  }

  /** The number of present (non-null) entries of `qs`. */
  function PresentCount(qs: seq<Waypoint?>): nat
  {
    if qs == [] then 0
    else PresentCount(qs[..|qs| - 1]) + (if qs[|qs| - 1] != null then 1 else 0)
  }

  /** No waypoint is present twice in `qs`; missing entries may repeat. */
  predicate DistinctPresent(qs: seq<Waypoint?>)
  {
    forall i, j :: 0 <= i < j < |qs| && qs[i] != null ==> qs[i] != qs[j]
  }

  /** In a list whose present waypoints are distinct and include `p`, every present entry but `p` is another waypoint. */
  lemma {:induction false} OthersOfDistinct(p: Waypoint, qs: seq<Waypoint?>)
    requires DistinctPresent(qs) && p in qs
    ensures OthersCount(p, qs) == PresentCount(qs) - 1
  {
    var last := qs[|qs| - 1];
    var init := qs[..|qs| - 1];
    assert qs == init + [last];
    if last == p {
      assert p !in init;
      OthersAbsent(p, init);
    } else {
      assert DistinctPresent(init);
      OthersOfDistinct(p, init);
    }
  }

  /** When `p` does not occur in `qs`, every present entry is another waypoint. */
  lemma {:induction false} OthersAbsent(p: Waypoint, qs: seq<Waypoint?>)
    requires p !in qs
    ensures OthersCount(p, qs) == PresentCount(qs)
  {
    if qs != [] {
      assert qs == qs[..|qs| - 1] + [qs[|qs| - 1]];
      OthersAbsent(p, qs[..|qs| - 1]);
    }
  }

  // ---------------------------------------------------------------------------
  // The graph search, stated on values

  /** Every node of `g`: the keys and the nodes they are linked to. */
  ghost function Nodes(g: map<Waypoint, seq<Waypoint>>): set<Waypoint>
  {
    g.Keys + set p, n | p in g && n in g[p] :: n
  }

  /** Every reached node has a gScore, and every node with a gScore has an fScore. */
  ghost predicate Scored(openSet: seq<Waypoint>, closedSet: set<Waypoint>,
                         gScore: map<Waypoint, real>, fScore: map<Waypoint, real>)
  {
    && (forall n :: n in openSet ==> n in gScore)
    && (forall n :: n in closedSet ==> n in gScore)
    && (forall n :: n in gScore ==> n in fScore)
  }

  /** Each fScore is the gScore plus the distance `d` still to go to `end`. */
  ghost predicate Estimated(d: (Vec3, Vec3) -> real, end: Waypoint, gScore: map<Waypoint, real>, fScore: map<Waypoint, real>)
  {
    forall n :: n in gScore ==> n in fScore && fScore[n] == gScore[n] + d(n.position, end.position)
  }

  /**
   * The cameFrom links form a tree over the reached nodes (those open or
   * closed) rooted at `start`: every other reached node has a link to a closed
   * node it is an edge from, closed earlier (lower `rank`), and `start` has no
   * link.
   */
  ghost predicate Tree(g: map<Waypoint, seq<Waypoint>>, start: Waypoint, openSet: seq<Waypoint>,
                       closedSet: set<Waypoint>, cameFrom: map<Waypoint, Waypoint>, rank: map<Waypoint, nat>)
  {
    Reach(openSet, closedSet, rank) && Links(g, start, closedSet, cameFrom, rank) && Ranks(closedSet, rank)
  }

  /** The ranked nodes are exactly the reached ones. */
  ghost predicate Reach(openSet: seq<Waypoint>, closedSet: set<Waypoint>, rank: map<Waypoint, nat>)
  {
    && (forall n :: n in rank ==> n in openSet || n in closedSet)
    && (forall n :: n in openSet ==> n in rank)
    && (forall n :: n in closedSet ==> n in rank)
  }

  /** Each reached node but `start` links back along an edge to a closed node of lower rank. */
  ghost predicate Links(g: map<Waypoint, seq<Waypoint>>, start: Waypoint, closedSet: set<Waypoint>,
                        cameFrom: map<Waypoint, Waypoint>, rank: map<Waypoint, nat>)
  {
    && start !in cameFrom
    && (forall n :: n in rank && n != start ==> n in cameFrom)
    && (forall n :: n in cameFrom ==>
          && n in rank && cameFrom[n] in closedSet && cameFrom[n] in rank
          && cameFrom[n] in g && n in g[cameFrom[n]]
          && rank[cameFrom[n]] < rank[n])
  }

  /** Ranks count closings: a closed node's rank is below the number closed, an open one's at most that. */
  ghost predicate Ranks(closedSet: set<Waypoint>, rank: map<Waypoint, nat>)
  {
    forall n :: n in rank ==> rank[n] <= |closedSet| && (n in closedSet ==> rank[n] < |closedSet|)
  }

  /** Every node linked from an expanded node has been reached. */
  ghost predicate Expanded(g: map<Waypoint, seq<Waypoint>>, expanded: set<Waypoint>,
                           openSet: seq<Waypoint>, closedSet: set<Waypoint>)
  {
    forall c, n :: c in expanded && c in g && n in g[c] ==> n in closedSet || n in openSet
  }

  /**
   * The open list holds each node once and none that is closed; the search
   * starts from `start` alone and stays among the nodes of `g`; `end` is never
   * closed (the search returns when it selects `end`).
   */
  ghost predicate Lists(g: map<Waypoint, seq<Waypoint>>, start: Waypoint, end: Waypoint,
                        openSet: seq<Waypoint>, closedSet: set<Waypoint>)
  {
    && Distinct(openSet) && (forall n :: n in openSet ==> n !in closedSet)
    && ((closedSet == {} && openSet == [start]) || start in closedSet)
    && end !in closedSet
    && (forall n :: n in openSet ==> n in Nodes(g) + {start})
    && closedSet <= Nodes(g) + {start}
  }

  /**
   * The invariants of the graph search; `expanded` is the closed set, except
   * while the links of the node just closed are being followed.
   */
  ghost predicate GraphSearch(g: map<Waypoint, seq<Waypoint>>, start: Waypoint, end: Waypoint,
                              openSet: seq<Waypoint>, closedSet: set<Waypoint>, gScore: map<Waypoint, real>,
                              fScore: map<Waypoint, real>, cameFrom: map<Waypoint, Waypoint>,
                              rank: map<Waypoint, nat>, expanded: set<Waypoint>)
  {
    && Lists(g, start, end, openSet, closedSet)
    && Scored(openSet, closedSet, gScore, fScore)
    && Tree(g, start, openSet, closedSet, cameFrom, rank)
    && expanded <= closedSet
    && Expanded(g, expanded, openSet, closedSet)
  }

  /** A walk that leaves from a closed set that holds everything linked from it never leaves the set. */
  lemma {:induction false} WalkStaysClosed(g: map<Waypoint, seq<Waypoint>>, closedSet: set<Waypoint>,
                                           w: seq<Waypoint>, a: Waypoint, b: Waypoint, k: nat)
    requires Expanded(g, closedSet, [], closedSet)
    requires IsWalk(g, w, a, b) && a in closedSet && k < |w|
    ensures w[k] in closedSet
  {
    if k > 0 {
      WalkStaysClosed(g, closedSet, w, a, b, k - 1);
    }
  }

  /** When the open list runs dry before `end` is closed, no walk reaches `end` from `start`. */
  lemma Exhausted(g: map<Waypoint, seq<Waypoint>>, start: Waypoint, end: Waypoint,
                  closedSet: set<Waypoint>, gScore: map<Waypoint, real>, fScore: map<Waypoint, real>,
                  cameFrom: map<Waypoint, Waypoint>, rank: map<Waypoint, nat>)
    requires GraphSearch(g, start, end, [], closedSet, gScore, fScore, cameFrom, rank, closedSet)
    ensures forall w :: !IsWalk(g, w, start, end)
  {
    forall w | IsWalk(g, w, start, end) ensures false {
      WalkStaysClosed(g, closedSet, w, start, end, |w| - 1);
    }
  }

  /** The search begins with `start` open at gScore 0 and the straight distance to `end` as fScore. */
  lemma InitialSearch(g: map<Waypoint, seq<Waypoint>>, d: (Vec3, Vec3) -> real, start: Waypoint, end: Waypoint)
    ensures GraphSearch(g, start, end, [start], {}, map[start := 0.0], map[start := d(start.position, end.position)],
                        map[], map[start := 0], {})
  {
  }

  /** Closing the open node `current` (not `end`) keeps the invariants; its own links are still to be followed. */
  lemma CloseKeeps(g: map<Waypoint, seq<Waypoint>>, start: Waypoint, end: Waypoint,
                   openSet: seq<Waypoint>, closedSet: set<Waypoint>, gScore: map<Waypoint, real>,
                   fScore: map<Waypoint, real>, cameFrom: map<Waypoint, Waypoint>, rank: map<Waypoint, nat>,
                   current: Waypoint)
    requires GraphSearch(g, start, end, openSet, closedSet, gScore, fScore, cameFrom, rank, closedSet)
    requires current in openSet && current != end
    ensures GraphSearch(g, start, end, Remove(openSet, current), closedSet + {current}, gScore, fScore,
                        cameFrom, rank[current := |closedSet|], closedSet)
    ensures current !in g ==>
              GraphSearch(g, start, end, Remove(openSet, current), closedSet + {current}, gScore, fScore,
                          cameFrom, rank[current := |closedSet|], closedSet + {current})
  {
    CloseLists(g, start, end, openSet, closedSet, current);
    CloseTree(g, start, openSet, closedSet, cameFrom, rank, current);
    CloseExpanded(g, openSet, closedSet, current);
  }

  lemma CloseLists(g: map<Waypoint, seq<Waypoint>>, start: Waypoint, end: Waypoint,
                   openSet: seq<Waypoint>, closedSet: set<Waypoint>, current: Waypoint)
    requires Lists(g, start, end, openSet, closedSet) && current in openSet && current != end
    ensures Lists(g, start, end, Remove(openSet, current), closedSet + {current})
  {
  }

  lemma CloseTree(g: map<Waypoint, seq<Waypoint>>, start: Waypoint, openSet: seq<Waypoint>, closedSet: set<Waypoint>,
                  cameFrom: map<Waypoint, Waypoint>, rank: map<Waypoint, nat>, current: Waypoint)
    requires Tree(g, start, openSet, closedSet, cameFrom, rank) && current in openSet && current !in closedSet
    ensures Tree(g, start, Remove(openSet, current), closedSet + {current}, cameFrom, rank[current := |closedSet|])
  {
    CloseReach(openSet, closedSet, rank, current);
    CloseLinks(g, start, closedSet, cameFrom, rank, current);
    CloseRanks(closedSet, rank, current);
  }

  lemma CloseReach(openSet: seq<Waypoint>, closedSet: set<Waypoint>, rank: map<Waypoint, nat>, current: Waypoint)
    requires Reach(openSet, closedSet, rank) && current in openSet
    ensures Reach(Remove(openSet, current), closedSet + {current}, rank[current := |closedSet|])
  {
  }

  lemma CloseLinks(g: map<Waypoint, seq<Waypoint>>, start: Waypoint, closedSet: set<Waypoint>,
                   cameFrom: map<Waypoint, Waypoint>, rank: map<Waypoint, nat>, current: Waypoint)
    requires Links(g, start, closedSet, cameFrom, rank) && Ranks(closedSet, rank) && current in rank && current !in closedSet
    ensures Links(g, start, closedSet + {current}, cameFrom, rank[current := |closedSet|])
  {
  }

  lemma CloseRanks(closedSet: set<Waypoint>, rank: map<Waypoint, nat>, current: Waypoint)
    requires Ranks(closedSet, rank) && current !in closedSet
    ensures Ranks(closedSet + {current}, rank[current := |closedSet|])
  {
    assert |closedSet + {current}| == |closedSet| + 1;
  }

  lemma CloseExpanded(g: map<Waypoint, seq<Waypoint>>, openSet: seq<Waypoint>, closedSet: set<Waypoint>, current: Waypoint)
    requires Expanded(g, closedSet, openSet, closedSet)
    ensures Expanded(g, closedSet, Remove(openSet, current), closedSet + {current})
    ensures current !in g ==> Expanded(g, closedSet + {current}, Remove(openSet, current), closedSet + {current})
  {
  }

  /** A walk stays a walk when a node linked to its first node is put in front. */
  lemma WalkPrepend(g: map<Waypoint, seq<Waypoint>>, w: seq<Waypoint>, a: Waypoint, b: Waypoint, p: Waypoint)
    requires IsWalk(g, w, a, b) && p in g && a in g[p]
    ensures IsWalk(g, [p] + w, p, b)
  {
    var w' := [p] + w;
    forall i | 0 <= i < |w'| - 1
      ensures w'[i] in g && w'[i + 1] in g[w'[i]]
    {
      if i > 0 {
        assert w'[i] == w[i - 1] && w'[i + 1] == w[i];
      }
    }
  }

  lemma RelinkLists(g: map<Waypoint, seq<Waypoint>>, start: Waypoint, end: Waypoint, current: Waypoint, neighbor: Waypoint,
                    openSet: seq<Waypoint>, openSet': seq<Waypoint>, closedSet: set<Waypoint>)
    requires Lists(g, start, end, openSet, closedSet)
    requires current in closedSet && current in g && neighbor in g[current] && neighbor !in closedSet
    requires openSet' == if neighbor in openSet then openSet else openSet + [neighbor]
    ensures Lists(g, start, end, openSet', closedSet)
  {
    assert neighbor in Nodes(g);
  }

  lemma RelinkTree(g: map<Waypoint, seq<Waypoint>>, start: Waypoint, current: Waypoint, neighbor: Waypoint,
                   openSet: seq<Waypoint>, openSet': seq<Waypoint>, closedSet: set<Waypoint>,
                   cameFrom: map<Waypoint, Waypoint>, rank: map<Waypoint, nat>)
    requires Tree(g, start, openSet, closedSet, cameFrom, rank) && start in closedSet
    requires current in closedSet && current in g && neighbor in g[current] && neighbor !in closedSet
    requires rank[current] + 1 == |closedSet|
    requires openSet' == if neighbor in openSet then openSet else openSet + [neighbor]
    ensures Tree(g, start, openSet', closedSet, cameFrom[neighbor := current], rank[neighbor := |closedSet|])
  {
  }

  /** Every node reached from the lists is in one of them. */
  ghost predicate AllReached(ns: seq<Waypoint>, openSet: seq<Waypoint>, closedSet: set<Waypoint>)
  {
    forall n :: n in ns ==> n in closedSet || n in openSet
  }

  /** Once every link of `current` is reached, `current` counts as expanded too. */
  lemma ExpandedAdd(g: map<Waypoint, seq<Waypoint>>, expanded: set<Waypoint>, openSet: seq<Waypoint>,
                    closedSet: set<Waypoint>, current: Waypoint)
    requires Expanded(g, expanded, openSet, closedSet) && current in g && AllReached(g[current], openSet, closedSet)
    ensures Expanded(g, expanded + {current}, openSet, closedSet)
  {
  }

  /**
   * One link `current` -> `neighbor` of the expansion: a closed neighbour is
   * skipped; a new one is opened; an open one is kept unless the route through
   * `current` is strictly shorter, in which case it is relinked and rescored.
   */
  method Relax(g: map<Waypoint, seq<Waypoint>>, d: (Vec3, Vec3) -> real, start: Waypoint, end: Waypoint, current: Waypoint, neighbor: Waypoint, closedSet: set<Waypoint>,
               openSet: seq<Waypoint>, gScore: map<Waypoint, real>, fScore: map<Waypoint, real>,
               cameFrom: map<Waypoint, Waypoint>, ghost rank: map<Waypoint, nat>, ghost expanded: set<Waypoint>,
               ghost done: seq<Waypoint>)
    returns (openSet': seq<Waypoint>, gScore': map<Waypoint, real>, fScore': map<Waypoint, real>,
             cameFrom': map<Waypoint, Waypoint>, ghost rank': map<Waypoint, nat>)
    requires GraphSearch(g, start, end, openSet, closedSet, gScore, fScore, cameFrom, rank, expanded)
    requires current in closedSet && current in g && neighbor in g[current]
    requires current in rank && rank[current] + 1 == |closedSet|
    requires AllReached(done, openSet, closedSet) && Estimated(d, end, gScore, fScore)
    ensures GraphSearch(g, start, end, openSet', closedSet, gScore', fScore', cameFrom', rank', expanded)
    ensures Estimated(d, end, gScore', fScore')
    ensures AllReached(done + [neighbor], openSet', closedSet)
    ensures current in rank' && rank'[current] == rank[current]
    ensures neighbor in closedSet ==> openSet' == openSet && gScore' == gScore && fScore' == fScore && cameFrom' == cameFrom
    ensures neighbor !in closedSet ==>
              var tentative := gScore[current] + d(current.position, neighbor.position);
              var relinked := neighbor !in openSet || tentative < gScore[neighbor];
              && openSet' == (if neighbor in openSet then openSet else openSet + [neighbor])
              && (!relinked ==> gScore' == gScore && fScore' == fScore && cameFrom' == cameFrom)
              && (relinked ==>
                    && gScore' == gScore[neighbor := tentative]
                    && fScore' == fScore[neighbor := tentative + d(neighbor.position, end.position)]
                    && cameFrom' == cameFrom[neighbor := current])
  {
    openSet', gScore', fScore', cameFrom', rank' := openSet, gScore, fScore, cameFrom, rank;
    if neighbor in closedSet {
      return;
    }
    var tentativeGScore := gScore[current] + d(current.position, neighbor.position);
    if neighbor !in openSet {
      openSet' := openSet + [neighbor];
    } else if neighbor in gScore && tentativeGScore >= gScore[neighbor] {
      return;
    }
    cameFrom' := cameFrom[neighbor := current];
    gScore' := gScore[neighbor := tentativeGScore];
    fScore' := fScore[neighbor := gScore'[neighbor] + d(neighbor.position, end.position)];
    rank' := rank[neighbor := |closedSet|];
    RelinkKeeps(g, d, start, end, current, neighbor, closedSet, openSet, openSet', gScore, fScore, cameFrom, rank, expanded);
  }

  /** Opening or relinking a neighbour of the node closed last keeps the search invariants. */
  lemma RelinkKeeps(g: map<Waypoint, seq<Waypoint>>, d: (Vec3, Vec3) -> real, start: Waypoint, end: Waypoint, current: Waypoint, neighbor: Waypoint, closedSet: set<Waypoint>,
                    openSet: seq<Waypoint>, openSet': seq<Waypoint>, gScore: map<Waypoint, real>,
                    fScore: map<Waypoint, real>, cameFrom: map<Waypoint, Waypoint>, rank: map<Waypoint, nat>,
                    expanded: set<Waypoint>)
    requires GraphSearch(g, start, end, openSet, closedSet, gScore, fScore, cameFrom, rank, expanded)
    requires current in closedSet && current in g && neighbor in g[current]
    requires current in rank && rank[current] + 1 == |closedSet|
    requires neighbor !in closedSet && current in gScore
    requires openSet' == if neighbor in openSet then openSet else openSet + [neighbor]
    ensures var tentative := gScore[current] + d(current.position, neighbor.position);
            GraphSearch(g, start, end, openSet', closedSet, gScore[neighbor := tentative],
                        fScore[neighbor := tentative + d(neighbor.position, end.position)],
                        cameFrom[neighbor := current], rank[neighbor := |closedSet|], expanded)
  {
    RelinkLists(g, start, end, current, neighbor, openSet, openSet', closedSet);
    RelinkTree(g, start, current, neighbor, openSet, openSet', closedSet, cameFrom, rank);
  }

  /**
   * The foreach over the links of `current`, just closed: afterwards every
   * node it links to has been reached, so `current` counts as expanded.
   */
  method FollowLinks(g: map<Waypoint, seq<Waypoint>>, d: (Vec3, Vec3) -> real, start: Waypoint, end: Waypoint, current: Waypoint, closedSet: set<Waypoint>,
                     openSet: seq<Waypoint>, gScore: map<Waypoint, real>, fScore: map<Waypoint, real>,
                     cameFrom: map<Waypoint, Waypoint>, ghost rank: map<Waypoint, nat>, ghost closedBefore: set<Waypoint>)
    returns (openSet': seq<Waypoint>, gScore': map<Waypoint, real>, fScore': map<Waypoint, real>,
             cameFrom': map<Waypoint, Waypoint>, ghost rank': map<Waypoint, nat>)
    requires current in g && current !in closedBefore && closedSet == closedBefore + {current}
    requires GraphSearch(g, start, end, openSet, closedSet, gScore, fScore, cameFrom, rank, closedBefore)
    requires current in rank && rank[current] == |closedBefore| && Estimated(d, end, gScore, fScore)
    ensures GraphSearch(g, start, end, openSet', closedSet, gScore', fScore', cameFrom', rank', closedSet)
    ensures Estimated(d, end, gScore', fScore')
  {
    openSet', gScore', fScore', cameFrom', rank' := openSet, gScore, fScore, cameFrom, rank;
    var links := g[current];
    for k := 0 to |links|
      invariant GraphSearch(g, start, end, openSet', closedSet, gScore', fScore', cameFrom', rank', closedBefore)
      invariant current in rank' && rank'[current] == |closedBefore| && Estimated(d, end, gScore', fScore')
      invariant AllReached(links[..k], openSet', closedSet)
    {
      openSet', gScore', fScore', cameFrom', rank' :=
        Relax(g, d, start, end, current, links[k], closedSet, openSet', gScore', fScore', cameFrom', rank', closedBefore, links[..k]);
      PrefixGrows(links, k);
    }
    assert links[..|links|] == links;
    ExpandedAdd(g, closedBefore, openSet', closedSet, current);
  }

  /** The prefix of length k + 1 is the prefix of length k and the k-th element. */
  lemma PrefixGrows<T>(s: seq<T>, k: nat)
    requires k < |s|
    ensures s[..k + 1] == s[..k] + [s[k]]
  {
  }

  class SimplePathfinding {
    /** The waypoints set up in the scene; entries may be missing (null). */
    const points: seq<Waypoint?>
    const raycastOffset: real
    const geometry: Geometry
    var wallLayerMask: int
    /** Each node with the nodes it is linked to. */
    var graph: map<Waypoint, seq<Waypoint>>

    /** The component as set up in the scene, before any graph is built. */
    constructor (points: seq<Waypoint?>, raycastOffset: real, geometry: Geometry, wallLayerMask: int)
      ensures this.points == points && this.raycastOffset == raycastOffset && this.geometry == geometry
      ensures this.wallLayerMask == wallLayerMask && graph == map[]
    {
      this.points, this.raycastOffset, this.geometry := points, raycastOffset, geometry;
      this.wallLayerMask := wallLayerMask;
      graph := map[];
    }

    /**
     * Whether the segment from `start` to `end` is free of walls. Points closer
     * than MinEdgeLength never are; when the segment is no longer than twice the
     * offset that keeps the casts off the waypoints' own colliders, it always is;
     * otherwise the physics sweep decides.
     */
    function IsPathClear(start: Vec3, end: Vec3): (clear: bool)
      ensures clear ==> geometry.distance(start, end) >= MinEdgeLength
      ensures MinEdgeLength <= geometry.distance(start, end) <= raycastOffset * 2.0 ==> clear
    {
      var distance := geometry.distance(start, end);
      if distance < MinEdgeLength then false
      else if distance - raycastOffset * 2.0 <= 0.0 then true
      else geometry.sweepClear(start, end)
    }

    /** The entries of `qs` that BuildGraph links `p` to, in their order: present, not `p`, and clear. */
    function Edges(p: Waypoint, qs: seq<Waypoint?>): seq<Waypoint>
    {
      if qs == [] then []
      else
        var q := qs[|qs| - 1];
        Edges(p, qs[..|qs| - 1]) + (if q != null && q != p && IsPathClear(p.position, q.position) then [q] else [])
    }

    /** The number of entries of `qs` that BuildGraph tests against `p` and finds blocked. */
    function BlockedCount(p: Waypoint, qs: seq<Waypoint?>): nat
    {
      if qs == [] then 0
      else
        var q := qs[|qs| - 1];
        BlockedCount(p, qs[..|qs| - 1]) + (if q != null && q != p && !IsPathClear(p.position, q.position) then 1 else 0)
    }

    /** An edge of `p` is exactly another present waypoint of `qs` with a clear segment to it. */
    lemma {:induction false} EdgesMembership(p: Waypoint, qs: seq<Waypoint?>, q: Waypoint)
      ensures q in Edges(p, qs) <==> q in qs && q != p && IsPathClear(p.position, q.position)
    {
      if qs != [] {
        EdgesMembership(p, qs[..|qs| - 1], q);
        assert qs == qs[..|qs| - 1] + [qs[|qs| - 1]];
      }
    }

    /** Every tested pair is either clear or blocked. */
    lemma {:induction false} EdgesPlusBlocked(p: Waypoint, qs: seq<Waypoint?>)
      ensures |Edges(p, qs)| + BlockedCount(p, qs) == OthersCount(p, qs)
    {
      if qs != [] {
        EdgesPlusBlocked(p, qs[..|qs| - 1]);
      }
    }

    /** The graph BuildGraph makes from the waypoints `ps`: each present one with its edges among all waypoints. */
    ghost function Built(ps: seq<Waypoint?>): map<Waypoint, seq<Waypoint>>
    {
      map q: Waypoint | q in ps :: Edges(q, points)
    }

    /** The clear pairs BuildGraph counts for the waypoints `ps`. */
    function TotalEdges(ps: seq<Waypoint?>): nat
    {
      if ps == [] then 0
      else
        var p := ps[|ps| - 1];
        TotalEdges(ps[..|ps| - 1]) + (if p != null then |Edges(p, points)| else 0)
    }

    /** The blocked pairs BuildGraph counts for the waypoints `ps`. */
    function TotalBlocked(ps: seq<Waypoint?>): nat
    {
      if ps == [] then 0
      else
        var p := ps[|ps| - 1];
        TotalBlocked(ps[..|ps| - 1]) + (if p != null then BlockedCount(p, points) else 0)
    }

    /** The pairs BuildGraph tests for the waypoints `ps`. */
    function TotalPairs(ps: seq<Waypoint?>): nat
    {
      if ps == [] then 0
      else
        var p := ps[|ps| - 1];
        TotalPairs(ps[..|ps| - 1]) + (if p != null then OthersCount(p, points) else 0)
    }

    /** The counts of clear and blocked pairs add up to the number of pairs tested. */
    lemma {:induction false} ConnectionsAddUp(ps: seq<Waypoint?>)
      ensures TotalEdges(ps) + TotalBlocked(ps) == TotalPairs(ps)
    {
      if ps != [] {
        ConnectionsAddUp(ps[..|ps| - 1]);
        if ps[|ps| - 1] != null {
          EdgesPlusBlocked(ps[|ps| - 1], points);
        }
      }
    }

    /**
     * Rebuilds the graph: unless the wall layer mask is unset (then nothing
     * changes), every present waypoint becomes a node linked, in waypoint order,
     * to every other present waypoint with a clear segment to it. The counts
     * that are logged are returned.
     */
    method BuildGraph() returns (report: Option<BuildReport>)
      modifies this`graph
      ensures wallLayerMask == 0 ==> report == None && graph == old(graph)
      ensures wallLayerMask != 0 ==> graph == Built(points)
      ensures wallLayerMask != 0 ==>
                report == Some(BuildReport(|graph|, TotalEdges(points), TotalBlocked(points), |Isolated(graph)|))
    {
      if wallLayerMask == 0 {
        return None;
      }
      graph := map[];
      var totalConnections, blockedConnections := 0, 0;
      for i := 0 to |points|
        invariant forall q: Waypoint :: q in graph <==> q in points[..i]
        invariant forall q :: q in graph ==> graph[q] == Edges(q, points)
        invariant totalConnections == TotalEdges(points[..i]) && blockedConnections == TotalBlocked(points[..i])
      {
        var point := points[i];
        assert points[..i + 1] == points[..i] + [point];
        if point == null {
          continue;
        }
        var clear, blocked := LinkPoint(point);
        totalConnections, blockedConnections := totalConnections + clear, blockedConnections + blocked;
      }
      assert points[..|points|] == points;
      assert graph == Built(points);

      var isolatedNodes := CountIsolated();
      report := Some(BuildReport(|graph|, totalConnections, blockedConnections, isolatedNodes));
    }

    /**
     * The inner loop of BuildGraph: makes `point` a node and links it, in
     * waypoint order, to every other present waypoint with a clear segment to
     * it; returns how many pairs were clear and how many blocked.
     */
    method LinkPoint(point: Waypoint) returns (clear: nat, blocked: nat)
      modifies this`graph
      ensures graph == old(graph)[point := Edges(point, points)]
      ensures clear == |Edges(point, points)| && blocked == BlockedCount(point, points)
    {
      graph := graph[point := []];
      clear, blocked := 0, 0;
      for j := 0 to |points|
        invariant graph == old(graph)[point := Edges(point, points[..j])]
        invariant clear == |Edges(point, points[..j])| && blocked == BlockedCount(point, points[..j])
      {
        var otherPoint := points[j];
        assert points[..j + 1][..j] == points[..j];
        if point == otherPoint || otherPoint == null {
          assert Edges(point, points[..j + 1]) == Edges(point, points[..j]);
          continue;
        }
        if IsPathClear(point.position, otherPoint.position) {
          graph := graph[point := graph[point] + [otherPoint]];
          clear := clear + 1;
        } else {
          assert Edges(point, points[..j + 1]) == Edges(point, points[..j]);
          blocked := blocked + 1;
        }
      }
      assert points[..|points|] == points;
    }

    /** The number of nodes without edges, counted over the entries of the graph. */
    method CountIsolated() returns (isolatedNodes: nat)
      ensures isolatedNodes == |Isolated(graph)|
    {
      isolatedNodes := 0;
      var remaining := graph.Keys;
      while remaining != {}
        invariant remaining <= graph.Keys
        invariant isolatedNodes == |Isolated(graph) - remaining|
        decreases |remaining|
      {
        var node :| node in remaining;
        if graph[node] == [] {
          assert Isolated(graph) - (remaining - {node}) == (Isolated(graph) - remaining) + {node};
          isolatedNodes := isolatedNodes + 1;
        } else {
          assert Isolated(graph) - (remaining - {node}) == Isolated(graph) - remaining;
        }
        remaining := remaining - {node};
      }
    }

    /** Each present waypoint is a node of the built graph, and nothing else is. */
    lemma BuiltNodes(q: Waypoint)
      ensures q in Built(points) <==> q in points
    {
    }

    /**
     * For n distinct present waypoints (missing entries being skipped),
     * BuildGraph tests each of the n·(n−1) ordered pairs once.
     */
    lemma ConnectionCount()
      requires DistinctPresent(points)
      ensures var n := PresentCount(points);
              TotalEdges(points) + TotalBlocked(points) == n * (n - 1)
    {
      ConnectionsAddUp(points);
      PairsOfDistinct(points);
    }

    /** Each present waypoint of `ps` is tested against the n − 1 other present waypoints. */
    lemma {:induction false} PairsOfDistinct(ps: seq<Waypoint?>)
      requires DistinctPresent(points) && forall p :: p in ps && p != null ==> p in points
      ensures TotalPairs(ps) == PresentCount(ps) * (PresentCount(points) - 1)
    {
      if ps != [] {
        var init, last := ps[..|ps| - 1], ps[|ps| - 1];
        assert forall p :: p in init ==> p in ps;
        PairsOfDistinct(init);
        if last != null {
          OthersOfDistinct(last, points);
          var k, m := PresentCount(init), PresentCount(points) - 1;
          assert (k + 1) * m == k * m + m;
        }
      }
    }

    // -------------------------------------------------------------------------
    // The A* search over the waypoint graph

    /**
     * The open node with the lowest fScore. The scan replaces its choice only
     * on a strictly lower score, so on ties the earliest entry wins.
     */
    method SelectLowest(openSet: seq<Waypoint>, fScore: map<Waypoint, real>) returns (current: Waypoint, at: nat)
      requires |openSet| > 0 && forall n :: n in openSet ==> n in fScore
      ensures at < |openSet| && current == openSet[at]
      ensures forall n :: n in openSet ==> fScore[current] <= fScore[n]
      ensures forall j :: 0 <= j < at ==> fScore[current] < fScore[openSet[j]]
    {
      current, at := openSet[0], 0;
      var lowestF := fScore[current];
      for i := 1 to |openSet|
        invariant at < i && current == openSet[at] && lowestF == fScore[current]
        invariant forall j :: 0 <= j < i ==> lowestF <= fScore[openSet[j]]
        invariant forall j :: 0 <= j < at ==> lowestF < fScore[openSet[j]]
      {
        if fScore[openSet[i]] < lowestF {
          current, at := openSet[i], i;
          lowestF := fScore[current];
        }
      }
    }

    /**
     * Follows the cameFrom links back from `current` to the start, putting each
     * node in front. The ranks, which fall along every link, show that this ends.
     */
    method ReconstructPath(cameFrom: map<Waypoint, Waypoint>, current: Waypoint, ghost g: map<Waypoint, seq<Waypoint>>,
                           ghost rank: map<Waypoint, nat>, ghost start: Waypoint) returns (path: seq<Waypoint>)
      requires current in rank && start !in cameFrom
      requires forall n :: n in rank && n != start ==> n in cameFrom
      requires forall n :: n in cameFrom ==>
                 && n in rank && cameFrom[n] in rank
                 && cameFrom[n] in g && n in g[cameFrom[n]]
                 && rank[cameFrom[n]] < rank[n]
      ensures IsWalk(g, path, start, current)
    {
      var node := current;
      path := [current];
      while node in cameFrom
        invariant node in rank && IsWalk(g, path, node, current)
        decreases rank[node]
      {
        var previous := cameFrom[node];
        WalkPrepend(g, path, node, current, previous);
        node := previous;
        path := [node] + path;
      }
    }

    /**
     * A* from `start` to `end` over the graph: no path when either is not a
     * node of the graph; otherwise a walk along the links from `start` to
     * `end`, or no path exactly when no such walk exists.
     */
    method FindPath(start: Waypoint, end: Waypoint) returns (path: Option<seq<Waypoint>>)
      ensures start !in graph || end !in graph ==> path == None
      ensures path.Some? ==> IsWalk(graph, path.value, start, end)
      ensures path.None? && start in graph && end in graph ==> forall w :: !IsWalk(graph, w, start, end)
    {
      if start !in graph || end !in graph {
        return None;
      }
      var gScore: map<Waypoint, real> := map[start := 0.0];
      var fScore: map<Waypoint, real> := map[start := geometry.distance(start.position, end.position)];
      var cameFrom: map<Waypoint, Waypoint> := map[];
      var openSet: seq<Waypoint> := [start];
      var closedSet: set<Waypoint> := {};
      ghost var rank: map<Waypoint, nat> := map[start := 0];
      InitialSearch(graph, geometry.distance, start, end);
      while |openSet| > 0
        invariant GraphSearch(graph, start, end, openSet, closedSet, gScore, fScore, cameFrom, rank, closedSet)
        invariant Estimated(geometry.distance, end, gScore, fScore)
        decreases Nodes(graph) + {start} - closedSet
      {
        var current, _ := SelectLowest(openSet, fScore);
        if current == end {
          var route := ReconstructPath(cameFrom, current, graph, rank, start);
          return Some(route);
        }
        ghost var closedBefore := closedSet;
        CloseKeeps(graph, start, end, openSet, closedSet, gScore, fScore, cameFrom, rank, current);
        openSet := Remove(openSet, current);
        closedSet := closedSet + {current};
        rank := rank[current := |closedBefore|];
        if current !in graph {
          continue;
        }
        openSet, gScore, fScore, cameFrom, rank :=
          FollowLinks(graph, geometry.distance, start, end, current, closedSet, openSet, gScore, fScore, cameFrom, rank, closedBefore);
      }
      Exhausted(graph, start, end, closedSet, gScore, fScore, cameFrom, rank);
      return None;
    }

    // -------------------------------------------------------------------------
    // Snapping positions to waypoints and assembling the route

    /**
     * The scan of GetNearestPoint over `ps`, as a value: the index of the
     * nearest present waypoint (-1 when none is nearer than the float maximum)
     * and the running minimum distance. Only a strictly smaller distance
     * replaces the choice, so the earliest of equally near waypoints wins.
     */
    function Nearest(position: Vec3, ps: seq<Waypoint?>): (r: (int, real))
      ensures -1 <= r.0 < |ps|
      ensures r.0 == -1 <==> forall j :: 0 <= j < |ps| && ps[j] != null ==> geometry.distance(position, ps[j].position) >= FloatMax
      ensures r.0 == -1 ==> r.1 == FloatMax
      ensures r.0 >= 0 ==> ps[r.0] != null && r.1 == geometry.distance(position, ps[r.0].position) && r.1 < FloatMax
      ensures forall j :: 0 <= j < |ps| && ps[j] != null ==> r.1 <= geometry.distance(position, ps[j].position)
      ensures forall j :: 0 <= j < r.0 && ps[j] != null ==> r.1 < geometry.distance(position, ps[j].position)
    {
      if ps == [] then (-1, FloatMax)
      else
        var previous := Nearest(position, ps[..|ps| - 1]);
        var last := ps[|ps| - 1];
        if last != null && geometry.distance(position, last.position) < previous.1 then
          (|ps| - 1, geometry.distance(position, last.position))
        else
          previous
    }

    /** The waypoint GetNearestPoint snaps `position` to, or null. */
    function Snap(position: Vec3): Waypoint?
    {
      var r := Nearest(position, points);
      if r.0 < 0 then null else points[r.0]
    }

    /** The nearest present waypoint to `position`, found by a linear scan from float.MaxValue. */
    method GetNearestPoint(position: Vec3) returns (nearest: Waypoint?)
      ensures nearest == Snap(position)
    {
      nearest := null;
      var minDistance := FloatMax;
      ghost var at := -1;
      for i := 0 to |points|
        invariant (at, minDistance) == Nearest(position, points[..i])
        invariant nearest == if at < 0 then null else points[at]
      {
        assert points[..i + 1][..i] == points[..i];
        var point := points[i];
        if point == null {
          continue;
        }
        var distance := geometry.distance(position, point.position);
        if distance < minDistance {
          minDistance := distance;
          nearest := point;
          at := i;
        }
      }
      assert points[..|points|] == points;
    }

    /**
     * The route from `startPos` to `targetPos`: empty when the graph is empty,
     * when either position snaps to no waypoint, when the start waypoint is
     * not clear from `startPos`, or when the waypoint search finds nothing;
     * otherwise `startPos`, the positions of the waypoint walk, and `targetPos`
     * when it is clear from the last waypoint.
     */
    method CalculatePath(startPos: Vec3, targetPos: Vec3) returns (vectorPath: seq<Vec3>, ghost route: seq<Waypoint>)
      ensures |graph| == 0 ==> vectorPath == []
      ensures Snap(startPos) == null || Snap(targetPos) == null ==> vectorPath == []
      ensures Snap(startPos) != null && !IsPathClear(startPos, Snap(startPos).position) ==> vectorPath == []
      ensures vectorPath != [] ==>
                && Snap(startPos) != null && Snap(targetPos) != null
                && IsWalk(graph, route, Snap(startPos), Snap(targetPos))
                && var clearToTarget := IsPathClear(route[|route| - 1].position, targetPos);
                   && |vectorPath| == |route| + 1 + (if clearToTarget then 1 else 0)
                   && vectorPath[0] == startPos
                   && (forall i :: 0 <= i < |route| ==> vectorPath[i + 1] == route[i].position)
                   && (clearToTarget ==> vectorPath[|vectorPath| - 1] == targetPos)
      ensures vectorPath == [] && Snap(startPos) in graph && Snap(targetPos) in graph
              && IsPathClear(startPos, Snap(startPos).position) ==>
                forall w :: !IsWalk(graph, w, Snap(startPos), Snap(targetPos))
    {
      route := [];
      if |graph| == 0 {
        return [], route;
      }
      var startPoint := GetNearestPoint(startPos);
      var endPoint := GetNearestPoint(targetPos);
      if startPoint == null || endPoint == null {
        return [], route;
      }
      if !IsPathClear(startPos, startPoint.position) {
        return [], route;
      }
      // A path FindPath returns is a walk, so it is never empty.
      var path := FindPath(startPoint, endPoint);
      if path.None? {
        return [], route;
      }
      var waypoints := path.value;
      route := waypoints;
      vectorPath := [startPos];
      for i := 0 to |waypoints|
        invariant |vectorPath| == i + 1 && vectorPath[0] == startPos
        invariant forall j :: 0 <= j < i ==> vectorPath[j + 1] == waypoints[j].position
      {
        vectorPath := vectorPath + [waypoints[i].position];
      }
      if IsPathClear(waypoints[|waypoints| - 1].position, targetPos) {
        vectorPath := vectorPath + [targetPos];
      }
    }
  }
}
