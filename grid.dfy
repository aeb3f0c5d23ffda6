/**
 * The walkability grid the route planner searches: a stand-in for the
 * `pathfinding.Grid` object that `calculatePath` creates and then updates
 * cell by cell with `setWalkableAt`.
 */
module Grid {

  /** A grid coordinate; `x` indexes the width and `y` the height. */
  datatype Cell = Cell(x: int, y: int)

  /** A value snapshot of a grid: the set of its walkable cells (what `grid.clone()` hands to a search). */
  type Snapshot = set<Cell>

  class Grid {
    const width: nat
    const height: nat
    /** `nodes[x, y]` is the walkable flag of `Cell(x, y)`. */
    const nodes: array2<bool>

    ghost predicate Valid()
      reads this
    {
      nodes.Length0 == width && nodes.Length1 == height
    }

    predicate IsInside(x: int, y: int)
    {
      0 <= x < width && 0 <= y < height
    }

    /** Outside the grid nothing is walkable. */
    predicate IsWalkableAt(x: int, y: int)
      reads this, nodes
      requires Valid()
      ensures IsWalkableAt(x, y) ==> IsInside(x, y)
    {
      IsInside(x, y) && nodes[x, y]
    }

    /** The walkable cells, as a value that later updates cannot reach. */
    function Walkable(): (s: Snapshot)
      reads this, nodes
      requires Valid()
      ensures forall c :: c in s <==> IsWalkableAt(c.x, c.y)
    {
      set x: int, y: int | 0 <= x < width && 0 <= y < height && nodes[x, y] :: Cell(x, y)
    }

    /** A new grid starts with every cell walkable. */
    constructor (width: nat, height: nat)
      ensures Valid() && fresh(nodes)
      ensures this.width == width && this.height == height
      ensures forall x, y :: IsWalkableAt(x, y) <==> IsInside(x, y)
    {
      this.width := width;
      this.height := height;
      nodes := new bool[width, height]((x, y) => true);
    }

    /** Sets the flag of one cell inside the grid and leaves every other cell as it was. */
    method SetWalkableAt(x: int, y: int, walkable: bool)
      requires Valid() && IsInside(x, y)
      modifies nodes
      ensures Valid()
      ensures IsWalkableAt(x, y) == walkable
      ensures forall i, j :: (i, j) != (x, y) ==> IsWalkableAt(i, j) == old(IsWalkableAt(i, j))
    {
      nodes[x, y] := walkable;
    }
  }
}
