/** One cell of the uniform grid (a GridTile component in the scene). */
module GridTiles {

  /** An integer grid coordinate (Unity's Vector2Int). */
  datatype Pos = Pos(x: int, y: int)

  /** C#'s int.MaxValue: the running cost of a tile the current search has not reached. */
  const IntMax: int := 0x7FFF_FFFF

  /**
   * A grid cell. The walkability flag and the position are its data; gCost,
   * hCost and parent are the scratch fields the A* search writes in place.
   * The position is written once, when the grid is generated, so it is a
   * constant here.
   */
  class GridTile {
    var isWalkable: bool
    const gridPosition: Pos
    var gCost: int
    var hCost: int
    var parent: GridTile?

    /** A freshly instantiated tile: walkable by default, zeroed scratch fields, no parent. */
    constructor (pos: Pos)
      ensures gridPosition == pos && isWalkable
      ensures gCost == 0 && hCost == 0 && parent == null
    {
      gridPosition := pos;
      isWalkable := true;
      gCost, hCost := 0, 0;
      parent := null;
    }

    /** The total score is derived from the two costs and never stored. */
    function FCost(): int
      reads this`gCost, this`hCost
    {
      gCost + hCost
    }
  }
}
