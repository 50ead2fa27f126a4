/** The uniform width-by-height grid of tiles and its 4-connected neighbourhood. */
module Grid {
  import opened GridTiles

  /** The offsets GetNeighbors probes, in its order: up, right, down, left. */
  const Directions: seq<Pos> := [Pos(0, 1), Pos(1, 0), Pos(0, -1), Pos(-1, 0)]

  function Add(p: Pos, d: Pos): Pos
  {
    Pos(p.x + d.x, p.y + d.y)
  }

  /** The offset that leads from `a` to `b`. */
  function Offset(a: Pos, b: Pos): Pos
  {
    Pos(b.x - a.x, b.y - a.y)
  }

  /** `b` is one of the four unit steps away from `a`. */
  predicate Adjacent(a: Pos, b: Pos)
  {
    Offset(a, b) in Directions
  }

  /** Where an offset stands in the probing order of GetNeighbors. */
  function DirectionIndex(d: Pos): (i: nat)
    requires d in Directions
    ensures i < |Directions| && Directions[i] == d
  {
    if d == Directions[0] then 0
    else if d == Directions[1] then 1
    else if d == Directions[2] then 2
    else 3
  }

  class GridManager {
    const width: nat
    const height: nat
    var grid: array2<GridTile?>
    /** The set of all tiles of the generated grid. */
    ghost var tiles: set<GridTile>

    /** The grid has been generated: every cell holds the tile whose position is that cell. */
    ghost predicate Valid()
      reads this, grid
    {
      && grid.Length0 == width
      && grid.Length1 == height
      && (forall x, y :: 0 <= x < width && 0 <= y < height ==>
            grid[x, y] != null && grid[x, y].gridPosition == Pos(x, y))
      && (forall x, y :: 0 <= x < width && 0 <= y < height ==> grid[x, y] in tiles)
      && (forall t :: t in tiles ==> InBounds(t.gridPosition) && grid[t.gridPosition.x, t.gridPosition.y] == t)
    }

    predicate InBounds(p: Pos)
    {
      0 <= p.x < width && 0 <= p.y < height
    }

    /** A grid of the given size; its cells are filled by GenerateGrid (run from Awake). */
    constructor (width: nat, height: nat)
      ensures this.width == width && this.height == height
      ensures Valid() && fresh(grid) && fresh(tiles)
      ensures forall t :: t in tiles ==> t.isWalkable && t.parent == null
    {
      this.width, this.height := width, height;
      grid := new GridTile?[0, 0];
      new;
      GenerateGrid();
    }

    /**
     * Fills every cell (x, y) of a new width-by-height array with a new tile
     * at position (x, y). Instantiating the tile prefab in the scene is not
     * modelled: the tile takes its field defaults.
     */
    method GenerateGrid()
      modifies this`grid, this`tiles
      ensures Valid() && fresh(grid) && fresh(tiles)
      ensures forall t :: t in tiles ==> t.isWalkable && t.parent == null
    {
      grid := new GridTile?[width, height];
      tiles := {};
      for x := 0 to width
        invariant grid.Length0 == width && grid.Length1 == height && fresh(grid) && fresh(tiles)
        invariant forall i, j :: 0 <= i < x && 0 <= j < height ==>
                    grid[i, j] != null && grid[i, j].gridPosition == Pos(i, j) && grid[i, j] in tiles
        invariant forall t :: t in tiles ==>
                    t.gridPosition.x < x && InBounds(t.gridPosition)
                    && grid[t.gridPosition.x, t.gridPosition.y] == t && t.isWalkable && t.parent == null
      {
        for y := 0 to height
          invariant grid.Length0 == width && grid.Length1 == height && fresh(grid) && fresh(tiles)
          invariant forall i, j :: 0 <= i < x && 0 <= j < height ==>
                      grid[i, j] != null && grid[i, j].gridPosition == Pos(i, j) && grid[i, j] in tiles
          invariant forall j :: 0 <= j < y ==>
                      grid[x, j] != null && grid[x, j].gridPosition == Pos(x, j) && grid[x, j] in tiles
          invariant forall t :: t in tiles ==>
                      (t.gridPosition.x < x || (t.gridPosition.x == x && t.gridPosition.y < y))
                      && InBounds(t.gridPosition)
                      && grid[t.gridPosition.x, t.gridPosition.y] == t && t.isWalkable && t.parent == null
        {
          var tile := new GridTile(Pos(x, y));
          grid[x, y] := tile;
          tiles := tiles + {tile};
        }
      }
    }

    /** Every tile sits in the cell named by its own position. */
    lemma TileAtOwnPosition(t: GridTile)
      requires Valid()
      ensures t in tiles <==> InBounds(t.gridPosition) && grid[t.gridPosition.x, t.gridPosition.y] == t
    {
    }

    /** The probe in direction `k` from `pos` finds every tile lying in that direction. */
    lemma ProbeFinds(pos: Pos, k: nat)
      requires Valid() && k < |Directions|
      ensures forall t :: t in tiles && Adjacent(pos, t.gridPosition) && DirectionIndex(Offset(pos, t.gridPosition)) == k ==>
                GetTileAt(Add(pos, Directions[k])) == t
    {
      forall t | t in tiles && Adjacent(pos, t.gridPosition) && DirectionIndex(Offset(pos, t.gridPosition)) == k
        ensures GetTileAt(Add(pos, Directions[k])) == t
      {
        TileAtOwnPosition(t);
        assert Add(pos, Directions[k]) == t.gridPosition;
      }
    }

    /** The bounds-checked lookup: the tile at `pos`, or null outside the grid. */
    function GetTileAt(pos: Pos): (t: GridTile?)
      reads this, grid
      requires Valid()
      ensures t != null <==> InBounds(pos)
      ensures t != null ==> t in tiles && t.gridPosition == pos
    {
      if 0 <= pos.x < width && 0 <= pos.y < height then grid[pos.x, pos.y] else null
    }

    /**
     * The walkable tiles one step up, right, down and left of `tile`, in that
     * order. Only the position of `tile` is consulted, not its own flag.
     */
    method GetNeighbors(tile: GridTile) returns (neighbors: seq<GridTile>)
      requires Valid()
      ensures |neighbors| <= |Directions|
      ensures forall i :: 0 <= i < |neighbors| ==>
                neighbors[i] in tiles && neighbors[i].isWalkable
                && Adjacent(tile.gridPosition, neighbors[i].gridPosition)
      ensures forall t :: t in tiles && t.isWalkable && Adjacent(tile.gridPosition, t.gridPosition) ==>
                t in neighbors
      ensures forall i, j :: 0 <= i < j < |neighbors| ==>
                Adjacent(tile.gridPosition, neighbors[i].gridPosition)
                && Adjacent(tile.gridPosition, neighbors[j].gridPosition)
                && DirectionIndex(Offset(tile.gridPosition, neighbors[i].gridPosition))
                   < DirectionIndex(Offset(tile.gridPosition, neighbors[j].gridPosition))
    {
      var pos := tile.gridPosition;
      neighbors := [];
      for k := 0 to |Directions|
        invariant Probed(pos, neighbors, k)
      {
        neighbors := Probe(pos, k, neighbors);
      }
    }

    /**
     * The neighbours found by probing directions 0 .. k-1 from `pos`: sound,
     * complete for those directions, and in probing order.
     */
    ghost predicate Probed(pos: Pos, neighbors: seq<GridTile>, k: nat)
      reads this, grid, tiles`isWalkable
      requires Valid()
    {
      && |neighbors| <= k
      && (forall i :: 0 <= i < |neighbors| ==>
            neighbors[i] in tiles && neighbors[i].isWalkable && Adjacent(pos, neighbors[i].gridPosition)
            && DirectionIndex(Offset(pos, neighbors[i].gridPosition)) < k)
      && (forall t :: (t in tiles && t.isWalkable && Adjacent(pos, t.gridPosition)
            && DirectionIndex(Offset(pos, t.gridPosition)) < k) ==> t in neighbors)
      && (forall i, j :: 0 <= i < j < |neighbors| ==>
            DirectionIndex(Offset(pos, neighbors[i].gridPosition))
            < DirectionIndex(Offset(pos, neighbors[j].gridPosition)))
    }

    /** One probe of GetNeighbors: appends the tile in direction `k` when it exists and is walkable. */
    method Probe(pos: Pos, k: nat, neighbors: seq<GridTile>) returns (neighbors': seq<GridTile>)
      requires Valid() && k < |Directions| && Probed(pos, neighbors, k)
      ensures Probed(pos, neighbors', k + 1)
    {
      neighbors' := neighbors;
      var neighbor := GetTileAt(Add(pos, Directions[k]));
      if neighbor != null && neighbor.isWalkable {
        assert Offset(pos, neighbor.gridPosition) == Directions[k];
        assert DirectionIndex(Directions[k]) == k;
        neighbors' := neighbors + [neighbor];
      }
      ProbeFinds(pos, k);
    }
  }
}
