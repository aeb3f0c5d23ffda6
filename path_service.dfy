/**
 * The in-store route planner of `PathService`: build the walkability grid
 * from the store map, find the entrance, resolve every shelf to an access
 * point, choose the cheapest visiting order by trying every permutation,
 * and assemble the route leg by leg.
 *
 * The A* search of the `pathfinding` library is not part of this model: it
 * is the parameter `find`, and `FinderContract` states what the planner
 * relies on from it.
 */
module PathService {
  import opened Wrappers
  import opened Grid
  import Permutations

  /** `new pathfinding.Grid(10, 10)`. */
  const GridWidth: nat := 10
  const GridHeight: nat := 10

  type ProductId = nat

  /** `MapCellTypes`. */
  datatype CellType = Entrance | Shelf | Fridge | CheckoutCounter | Obstacle

  /** A registered cell of the store map; its type is optional in the schema. */
  datatype MapItem = MapItem(at: Cell, kind: Option<CellType>)

  /** `CellCoordinates`: a cell, with the id of the product it stands for, if any. */
  datatype Point = Point(at: Cell, productId: Option<ProductId>)

  /** A product of the shopping list and its registered shelf location. */
  datatype ShelfTarget = ShelfTarget(productId: ProductId, location: Cell)

  /** The ways `calculatePath` fails. */
  datatype PlanError =
    | MapWithoutItems      // 404 "Mapa sem locais": the store has no map
    | NoEntrance           // 404 "Loja não possui entrada cadastrada"
    | CellOutOfBounds      // `setWalkableAt` on a cell outside the 10x10 grid throws
    | InvalidLocations     // a shelf with no walkable cell to aim for
    | EntranceOutOfBounds  // the first search starts at an entrance outside the grid, where the library throws
    | NoFeasibleOrder      // `calculateShortestPath` found no feasible order and returned null

  /** `finder.findPath(from.x, from.y, to.x, to.y, grid.clone())`: the search gets a snapshot of the grid. */
  type Finder = (Snapshot, Cell, Cell) -> seq<Cell>

  /**
   * What the planner relies on from the search: a path is either empty (no
   * way through) or starts at `from`, ends at `to` and steps only on
   * walkable cells after its first.
   */
  ghost predicate LegShape(open: Snapshot, from: Cell, to: Cell, path: seq<Cell>)
  {
    path == [] ||
    (path[0] == from && path[|path| - 1] == to &&
     forall i :: 0 < i < |path| ==> path[i] in open)
  }

  ghost predicate FinderContract(find: Finder)
  {
    forall open, from, to :: LegShape(open, from, to, find(open, from, to))
  }

  // -------------------------------------------------------------------------
  // Entrance

  predicate IsEntrance(item: MapItem)
  {
    item.kind == Some(Entrance)
  }

  /** Some item of the map is an entrance. */
  ghost predicate HasEntrance(items: seq<MapItem>)
  {
    exists i :: 0 <= i < |items| && IsEntrance(items[i])
  }

  /** Item `i` is an entrance and no later item is. */
  ghost predicate IsLastEntrance(items: seq<MapItem>, i: int)
  {
    0 <= i < |items| && IsEntrance(items[i]) &&
    forall j :: i < j < |items| ==> !IsEntrance(items[j])
  }

  /** There is only one last entrance. */
  lemma LastEntranceUnique(items: seq<MapItem>, e1: int, e2: int)
    requires IsLastEntrance(items, e1) && IsLastEntrance(items, e2)
    ensures e1 == e2
  {
  }

  /** The entrance `findEntrance` picks lies on the grid. */
  ghost predicate EntranceOnGrid(items: seq<MapItem>)
  {
    forall e :: IsLastEntrance(items, e) ==> InBounds(items[e].at)
  }

  /**
   * `findEntrance`: every entrance item overwrites the location found so
   * far, so the last entrance in list order wins.
   */
  method FindEntrance(items: seq<MapItem>) returns (r: Result<Cell, PlanError>)
    ensures r.Failure? <==> !HasEntrance(items)
    ensures r.Failure? ==> r.error == NoEntrance
    ensures r.Success? ==> exists i :: IsLastEntrance(items, i) && r.value == items[i].at
  {
    var location: Option<Cell> := None;
    ghost var found := -1;
    for i := 0 to |items|
      invariant location.None? <==> forall j :: 0 <= j < i ==> !IsEntrance(items[j])
      invariant location.Some? ==>
        0 <= found < i && IsEntrance(items[found]) && location.value == items[found].at &&
        forall j :: found < j < i ==> !IsEntrance(items[j])
    {
      if IsEntrance(items[i]) {
        location := Some(items[i].at);
        found := i;
      }
    }
    if location.None? {
      return Failure(NoEntrance);
    }
    r := Success(location.value);
  }

  // -------------------------------------------------------------------------
  // Grid

  predicate InBounds(c: Cell)
  {
    0 <= c.x < GridWidth && 0 <= c.y < GridHeight
  }

  /** Every item other than an entrance lies on the grid. */
  ghost predicate CellsInBounds(items: seq<MapItem>)
  {
    forall i :: 0 <= i < |items| && !IsEntrance(items[i]) ==> InBounds(items[i].at)
  }

  /** Some item other than an entrance is registered at `c`. */
  ghost predicate Blocked(items: seq<MapItem>, c: Cell)
  {
    exists i :: 0 <= i < |items| && items[i].at == c && !IsEntrance(items[i])
  }

  /** The walkable cells of the grid built from `items`. */
  ghost function Navigable(items: seq<MapItem>): Snapshot
  {
    set x: int, y: int | 0 <= x < GridWidth && 0 <= y < GridHeight && !Blocked(items, Cell(x, y)) :: Cell(x, y)
  }

  /**
   * The grid of `calculatePath`: a 10x10 grid, all walkable, on which every
   * item that is not an entrance is set unwalkable in list order. The grid
   * throws on the first such item outside its bounds.
   */
  method BuildGrid(items: seq<MapItem>) returns (r: Result<Grid, PlanError>)
    ensures r.Failure? <==> !CellsInBounds(items)
    ensures r.Failure? ==> r.error == CellOutOfBounds
    ensures r.Success? ==> fresh(r.value.nodes) && r.value.Valid()
    ensures r.Success? ==> r.value.width == GridWidth && r.value.height == GridHeight
    ensures r.Success? ==> forall x, y ::
      r.value.IsWalkableAt(x, y) <==> InBounds(Cell(x, y)) && !Blocked(items, Cell(x, y))
    ensures r.Success? ==> r.value.Walkable() == Navigable(items)
  {
    var grid := new Grid(GridWidth, GridHeight);
    for i := 0 to |items|
      invariant grid.Valid() && fresh(grid.nodes)
      invariant grid.width == GridWidth && grid.height == GridHeight
      invariant forall j :: 0 <= j < i && !IsEntrance(items[j]) ==> InBounds(items[j].at)
      invariant forall x, y ::
        grid.IsWalkableAt(x, y) <==> InBounds(Cell(x, y)) && !Blocked(items[..i], Cell(x, y))
    {
      var cell := items[i];
      if !IsEntrance(cell) {
        if !grid.IsInside(cell.at.x, cell.at.y) {
          return Failure(CellOutOfBounds);
        }
        grid.SetWalkableAt(cell.at.x, cell.at.y, false);
      }
      BlockedPrefix(items, i);
    }
    assert items[..|items|] == items;
    r := Success(grid);
    assert forall c :: c in grid.Walkable() <==> c in Navigable(items);
  }

  /** What the next item adds to the cells blocked so far. */
  lemma BlockedPrefix(items: seq<MapItem>, i: nat)
    requires i < |items|
    ensures forall c :: Blocked(items[..i + 1], c) <==>
      Blocked(items[..i], c) || (c == items[i].at && !IsEntrance(items[i]))
  {
    forall c | Blocked(items[..i + 1], c)
      ensures Blocked(items[..i], c) || (c == items[i].at && !IsEntrance(items[i]))
    {
      var j :| 0 <= j < i + 1 && items[..i + 1][j].at == c && !IsEntrance(items[..i + 1][j]);
      if j < i {
        assert items[..i][j] == items[j];
      }
    }
    forall c | Blocked(items[..i], c)
      ensures Blocked(items[..i + 1], c)
    {
      var j :| 0 <= j < i && items[..i][j].at == c && !IsEntrance(items[..i][j]);
      assert items[..i + 1][j] == items[j];
    }
    if !IsEntrance(items[i]) {
      assert items[..i + 1][i] == items[i];
    }
  }

  /** The grid-building invariant: a cell is walkable exactly when it is in bounds and every item registered there is an entrance. */
  lemma NavigableCells(items: seq<MapItem>, c: Cell)
    ensures c in Navigable(items) <==>
      InBounds(c) && forall i :: 0 <= i < |items| && items[i].at == c ==> IsEntrance(items[i])
  {
    if InBounds(c) && !Blocked(items, c) {
      assert c == Cell(c.x, c.y);
    }
  }

  // -------------------------------------------------------------------------
  // Access points

  /** The four neighbours in evaluation order: up and down change `x`, left and right change `y`. */
  function Neighbours(t: Cell): (n: seq<Cell>)
    ensures |n| == 4
    ensures n[0].x < t.x < n[1].x && n[0].y == t.y == n[1].y
    ensures n[2].y < t.y < n[3].y && n[2].x == t.x == n[3].x
    ensures forall k :: 0 <= k < 4 ==> SquaredDistance(t, n[k]) == 1
  {
    [Cell(t.x - 1, t.y), Cell(t.x + 1, t.y), Cell(t.x, t.y - 1), Cell(t.x, t.y + 1)]
  }

  /** `calculateDiagonalDistance` without the square root, which preserves every comparison. */
  function SquaredDistance(a: Cell, b: Cell): (d: nat)
    ensures d == 0 <==> a == b
  {
    var dx := a.x - b.x;
    var dy := a.y - b.y;
    dx * dx + dy * dy
  }

  /**
   * Neighbour `k` of `t` is walkable, no walkable neighbour is nearer to
   * `ref`, and every walkable neighbour evaluated before it is farther
   * (the comparisons are strict, so the first nearest wins).
   */
  ghost predicate NearestNeighbour(open: Snapshot, ref: Cell, t: Cell, k: int)
  {
    0 <= k < 4 && Neighbours(t)[k] in open &&
    (forall j :: 0 <= j < 4 && Neighbours(t)[j] in open ==>
       SquaredDistance(ref, Neighbours(t)[k]) <= SquaredDistance(ref, Neighbours(t)[j])) &&
    (forall j :: 0 <= j < k && Neighbours(t)[j] in open ==>
       SquaredDistance(ref, Neighbours(t)[j]) > SquaredDistance(ref, Neighbours(t)[k]))
  }

  /** A shelf at `t` can be reached: it is walkable itself or has a walkable neighbour. */
  ghost predicate Accessible(open: Snapshot, t: Cell)
  {
    t in open || exists k :: 0 <= k < 4 && Neighbours(t)[k] in open
  }

  /** `c` is the cell to aim for to reach a shelf at `t`. */
  ghost predicate IsAccessPoint(open: Snapshot, ref: Cell, t: Cell, c: Cell)
  {
    if t in open then c == t
    else exists k :: NearestNeighbour(open, ref, t, k) && c == Neighbours(t)[k]
  }

  /**
   * `findNearestAccessiblePoint(grid, x, y, targetX, targetY)`: the target
   * itself when walkable, otherwise its walkable neighbour nearest to
   * `(x, y)`; "invalid locations" when there is none.
   */
  method FindNearestAccessiblePoint(grid: Grid, x: int, y: int, targetX: int, targetY: int)
    returns (r: Result<Cell, PlanError>)
    requires grid.Valid()
    ensures r.Success? <==> Accessible(grid.Walkable(), Cell(targetX, targetY))
    ensures r.Failure? ==> r.error == InvalidLocations
    ensures r.Success? ==> IsAccessPoint(grid.Walkable(), Cell(x, y), Cell(targetX, targetY), r.value)
  {
    ghost var open := grid.Walkable();
    ghost var n := Neighbours(Cell(targetX, targetY));
    if grid.IsWalkableAt(targetX, targetY) {
      return Success(Cell(targetX, targetY));
    }
    var up := Cell(targetX - 1, targetY);
    var down := Cell(targetX + 1, targetY);
    var left := Cell(targetX, targetY - 1);
    var right := Cell(targetX, targetY + 1);
    assert n[0] == up && n[1] == down && n[2] == left && n[3] == right;

    var distance: int := -1;
    var nearestPoint: Option<Cell> := None;
    ghost var k := -1;

    if grid.IsWalkableAt(up.x, up.y) {
      var dist := SquaredDistance(Cell(x, y), up);
      if distance == -1 || dist < distance {
        distance := dist;
        nearestPoint := Some(up);
        k := 0;
      }
    }
    assert Scanned(open, Cell(x, y), n, 1, distance, nearestPoint, k);

    if grid.IsWalkableAt(down.x, down.y) {
      var dist := SquaredDistance(Cell(x, y), down);
      if distance == -1 || dist < distance {
        distance := dist;
        nearestPoint := Some(down);
        k := 1;
      }
    }
    assert Scanned(open, Cell(x, y), n, 2, distance, nearestPoint, k);

    if grid.IsWalkableAt(left.x, left.y) {
      var dist := SquaredDistance(Cell(x, y), left);
      if distance == -1 || dist < distance {
        distance := dist;
        nearestPoint := Some(left);
        k := 2;
      }
    }
    assert Scanned(open, Cell(x, y), n, 3, distance, nearestPoint, k);

    if grid.IsWalkableAt(right.x, right.y) {
      var dist := SquaredDistance(Cell(x, y), right);
      if distance == -1 || dist < distance {
        distance := dist;
        nearestPoint := Some(right);
        k := 3;
      }
    }
    assert Scanned(open, Cell(x, y), n, 4, distance, nearestPoint, k);

    if nearestPoint.None? {
      return Failure(InvalidLocations);
    }
    assert NearestNeighbour(open, Cell(x, y), Cell(targetX, targetY), k);
    r := Success(nearestPoint.value);
  }

  /** The state of `findNearestAccessiblePoint` after the first `m` neighbours `n[..m]`. */
  ghost predicate Scanned(open: Snapshot, ref: Cell, n: seq<Cell>, m: nat, distance: int,
                          nearest: Option<Cell>, k: int)
    requires m <= |n|
  {
    (nearest.None? <==> forall j :: 0 <= j < m ==> n[j] !in open) &&
    (nearest.None? ==> distance == -1) &&
    (nearest.Some? ==>
       0 <= k < m && n[k] in open && nearest.value == n[k] &&
       distance == SquaredDistance(ref, n[k]) &&
       (forall j :: 0 <= j < m && n[j] in open ==> distance <= SquaredDistance(ref, n[j])) &&
       (forall j :: 0 <= j < k && n[j] in open ==> SquaredDistance(ref, n[j]) > distance))
  }

  /** The access point of a shelf is determined: it is walkable and is the shelf itself or one of its four neighbours. */
  lemma AccessPointUnique(open: Snapshot, ref: Cell, t: Cell, c1: Cell, c2: Cell)
    requires IsAccessPoint(open, ref, t, c1) && IsAccessPoint(open, ref, t, c2)
    ensures c1 == c2
    ensures c1 in open
    ensures c1 == t || c1 in Neighbours(t)
  {
    if t !in open {
      var k1 :| NearestNeighbour(open, ref, t, k1) && c1 == Neighbours(t)[k1];
      var k2 :| NearestNeighbour(open, ref, t, k2) && c2 == Neighbours(t)[k2];
      assert k1 == k2;
    }
  }

  // -------------------------------------------------------------------------
  // Cost of a visiting order

  /** Where leg `k` of a walk from `entrance` through `order` starts. */
  function LegSource(entrance: Cell, order: seq<Point>, k: nat): Cell
    requires k <= |order|
  {
    if k == 0 then entrance else order[k - 1].at
  }

  /** The path searched for leg `k`: from its source to `order[k]`. */
  function Leg(open: Snapshot, find: Finder, entrance: Cell, order: seq<Point>, k: nat): seq<Cell>
    requires k < |order|
  {
    find(open, LegSource(entrance, order, k), order[k].at)
  }

  /** The path searched for the way back to the entrance. */
  function ReturnLeg(open: Snapshot, find: Finder, entrance: Cell, order: seq<Point>): seq<Cell>
  {
    find(open, LegSource(entrance, order, |order|), entrance)
  }

  /** The summed node counts of the first `j` legs; `None` (the source's `Infinity`) once a leg is empty. */
  function CostUpTo(open: Snapshot, find: Finder, entrance: Cell, order: seq<Point>, j: nat): (r: Option<nat>)
    requires j <= |order|
    ensures r.Some? ==> r.value >= j
  {
    if j == 0 then Some(0)
    else match CostUpTo(open, find, entrance, order, j - 1)
      case None => None
      case Some(n) =>
        var path := Leg(open, find, entrance, order, j - 1);
        if |path| == 0 then None else Some(n + |path|)
  }

  /** The total an order is scored with: every leg and, with `returnTrip`, the way back. */
  function TourCost(open: Snapshot, find: Finder, entrance: Cell, order: seq<Point>, returnTrip: bool): (r: Option<nat>)
    ensures r.Some? ==> r.value >= |order| + (if returnTrip then 1 else 0)
    ensures r.Some? ==> CostUpTo(open, find, entrance, order, |order|).Some?
  {
    var legs := CostUpTo(open, find, entrance, order, |order|);
    if !returnTrip || legs.None? then legs
    else
      var back := ReturnLeg(open, find, entrance, order);
      if |back| == 0 then None else Some(legs.value + |back|)
  }

  /** The first `j` legs have a finite total exactly when none of them is empty. */
  lemma {:induction false} CostUpToFinite(open: Snapshot, find: Finder, entrance: Cell, order: seq<Point>, j: nat)
    requires j <= |order|
    ensures CostUpTo(open, find, entrance, order, j).Some? <==>
      forall k :: 0 <= k < j ==> |Leg(open, find, entrance, order, k)| > 0
  {
    if j > 0 {
      CostUpToFinite(open, find, entrance, order, j - 1);
    }
  }

  /** An order with an empty leg is infeasible: its total is `None`, so it never wins. */
  lemma FeasibleOrderHasNoEmptyLeg(open: Snapshot, find: Finder, entrance: Cell, order: seq<Point>, returnTrip: bool)
    ensures TourCost(open, find, entrance, order, returnTrip).Some? <==>
      (forall k :: 0 <= k < |order| ==> |Leg(open, find, entrance, order, k)| > 0) &&
      (returnTrip ==> |ReturnLeg(open, find, entrance, order)| > 0)
  {
    CostUpToFinite(open, find, entrance, order, |order|);
  }

  /** Legs before position `j` do not depend on what follows the order's first `j` stops. */
  lemma {:induction false} CostUpToPrefix(open: Snapshot, find: Finder, entrance: Cell, order: seq<Point>, tail: seq<Point>, j: nat)
    requires j <= |order|
    ensures CostUpTo(open, find, entrance, order + tail, j) == CostUpTo(open, find, entrance, order, j)
  {
    if j > 0 {
      CostUpToPrefix(open, find, entrance, order, tail, j - 1);
      assert LegSource(entrance, order + tail, j - 1) == LegSource(entrance, order, j - 1);
      assert (order + tail)[j - 1] == order[j - 1];
    }
  }

  /** The entrance copy `calculateShortestPath` appends to the winning order when the return trip is on. */
  function EntranceCopy(entrance: Cell): (p: Point)
    ensures p.at == entrance && p.productId.None?
  {
    Point(entrance, None)
  }

  /** Scoring with the return trip is scoring the order extended by the entrance copy without it. */
  lemma ReturnTripIsFinalLeg(open: Snapshot, find: Finder, entrance: Cell, order: seq<Point>)
    ensures TourCost(open, find, entrance, order, true) ==
            TourCost(open, find, entrance, order + [EntranceCopy(entrance)], false)
  {
    var ext := order + [EntranceCopy(entrance)];
    CostUpToPrefix(open, find, entrance, order, [EntranceCopy(entrance)], |order|);
    assert ext[|order|] == EntranceCopy(entrance);
    assert LegSource(entrance, ext, |order|) == LegSource(entrance, order, |order|);
  }

  // -------------------------------------------------------------------------
  // Optimiser

  /** `a < b` on totals where `None` is `Infinity`. */
  predicate Shorter(a: Option<nat>, b: Option<nat>)
  {
    a.Some? && (b.None? || a.value < b.value)
  }

  /**
   * Order `k` of `perms` is feasible, no feasible order is cheaper, and every
   * earlier order is infeasible or strictly dearer: the first minimum.
   */
  ghost predicate FirstCheapest(open: Snapshot, find: Finder, entrance: Cell, perms: seq<seq<Point>>,
                                returnTrip: bool, k: int)
  {
    0 <= k < |perms| &&
    TourCost(open, find, entrance, perms[k], returnTrip).Some? &&
    (forall j :: 0 <= j < |perms| && TourCost(open, find, entrance, perms[j], returnTrip).Some? ==>
       TourCost(open, find, entrance, perms[k], returnTrip).value <= TourCost(open, find, entrance, perms[j], returnTrip).value) &&
    (forall j :: 0 <= j < k && TourCost(open, find, entrance, perms[j], returnTrip).Some? ==>
       TourCost(open, find, entrance, perms[j], returnTrip).value > TourCost(open, find, entrance, perms[k], returnTrip).value)
  }

  /** No order of `perms` is feasible: each has an empty leg. */
  ghost predicate NoneFeasible(open: Snapshot, find: Finder, entrance: Cell, perms: seq<seq<Point>>, returnTrip: bool)
  {
    forall k :: 0 <= k < |perms| ==> TourCost(open, find, entrance, perms[k], returnTrip).None?
  }

  /** The stop list `calculateShortestPath` returns for a winning order. */
  function Stops(order: seq<Point>, entrance: Cell, returnTrip: bool): (s: seq<Point>)
    ensures |s| == |order| + (if returnTrip then 1 else 0)
    ensures s[..|order|] == order
    ensures returnTrip ==> s[|order|].at == entrance && s[|order|].productId.None?
  {
    if returnTrip then order + [EntranceCopy(entrance)] else order
  }

  /**
   * One iteration of `calculateShortestPath`'s outer loop: walks the legs of
   * `permutation` from the entrance, stops at the first empty leg, then
   * adds the way back when `returnTrip` is on.
   */
  method ScorePermutation(grid: Grid, find: Finder, entranceNode: Cell, permutation: seq<Point>, returnTrip: bool)
    returns (totalLength: Option<nat>)
    requires grid.Valid()
    ensures totalLength == TourCost(grid.Walkable(), find, entranceNode, permutation, returnTrip)
  {
    ghost var open := grid.Walkable();
    totalLength := Some(0);
    var startNode := entranceNode;
    var i := 0;
    while i < |permutation|
      invariant 0 <= i <= |permutation|
      invariant totalLength == CostUpTo(open, find, entranceNode, permutation, i)
      invariant startNode == LegSource(entranceNode, permutation, i)
      invariant totalLength.Some?
    {
      var path := find(grid.Walkable(), startNode, permutation[i].at);
      if |path| > 0 {
        totalLength := Some(totalLength.value + |path|);
        startNode := permutation[i].at;
        i := i + 1;
      } else {
        totalLength := None;
        break;
      }
    }
    if totalLength.None? {
      CostUpToStaysInfinite(open, find, entranceNode, permutation, i + 1, |permutation|);
    }

    if returnTrip {
      var back := find(grid.Walkable(), startNode, entranceNode);
      if |back| > 0 {
        totalLength := if totalLength.Some? then Some(totalLength.value + |back|) else None;
      } else {
        totalLength := None;
      }
    }
  }

  /**
   * `calculateShortestPath`: scores every permutation of `shelfNodes` and
   * keeps the first one strictly cheaper than all before it; `None` (the
   * source's `null`) when no order is feasible.
   */
  method CalculateShortestPath(grid: Grid, find: Finder, entranceNode: Cell, shelfNodes: seq<Point>, returnTrip: bool)
    returns (r: Option<seq<Point>>)
    requires grid.Valid()
    ensures r.None? <==> NoneFeasible(grid.Walkable(), find, entranceNode, Permutations.AllOrders(shelfNodes), returnTrip)
    ensures var perms := Permutations.AllOrders(shelfNodes);
      r.Some? ==> exists k :: FirstCheapest(grid.Walkable(), find, entranceNode, perms, returnTrip, k) &&
                              r.value == Stops(perms[k], entranceNode, returnTrip)
  {
    ghost var open := grid.Walkable();
    var shortestPath: Option<seq<Point>> := None;
    var shortestLength: Option<nat> := None;
    var permutations := Permutations.GeneratePermutations(shelfNodes);
    ghost var best := -1;

    for p := 0 to |permutations|
      invariant shortestLength.None? <==>
        forall k :: 0 <= k < p ==> TourCost(open, find, entranceNode, permutations[k], returnTrip).None?
      invariant shortestLength.None? ==> shortestPath.None?
      invariant shortestLength.Some? ==>
        FirstCheapest(open, find, entranceNode, permutations[..p], returnTrip, best) &&
        shortestLength == TourCost(open, find, entranceNode, permutations[best], returnTrip) &&
        shortestPath == Some(Stops(permutations[best], entranceNode, returnTrip))
    {
      var permutation := permutations[p];
      var totalLength := ScorePermutation(grid, find, entranceNode, permutation, returnTrip);
      FirstCheapestStep(open, find, entranceNode, permutations, returnTrip, p, best, shortestLength);
      if Shorter(totalLength, shortestLength) {
        shortestLength := totalLength;
        shortestPath := Some(if returnTrip then permutation + [EntranceCopy(entranceNode)] else permutation);
        best := p;
      }
    }
    assert permutations[..|permutations|] == permutations;
    r := shortestPath;
  }

  /** How one more scored order updates the first minimum of the orders scored so far. */
  lemma FirstCheapestStep(open: Snapshot, find: Finder, entrance: Cell, perms: seq<seq<Point>>,
                          returnTrip: bool, p: nat, best: int, shortest: Option<nat>)
    requires p < |perms|
    requires shortest.None? <==> forall k :: 0 <= k < p ==> TourCost(open, find, entrance, perms[k], returnTrip).None?
    requires shortest.Some? ==>
      FirstCheapest(open, find, entrance, perms[..p], returnTrip, best) &&
      shortest == TourCost(open, find, entrance, perms[best], returnTrip)
    ensures var c := TourCost(open, find, entrance, perms[p], returnTrip);
      Shorter(c, shortest) ==> FirstCheapest(open, find, entrance, perms[..p + 1], returnTrip, p)
    ensures var c := TourCost(open, find, entrance, perms[p], returnTrip);
      !Shorter(c, shortest) && shortest.Some? ==> FirstCheapest(open, find, entrance, perms[..p + 1], returnTrip, best)
  {
    assert forall k :: 0 <= k < p ==> perms[..p + 1][k] == perms[..p][k] == perms[k];
    assert perms[..p + 1][p] == perms[p];
  }

  /** Once a leg is empty the total stays `Infinity` for the rest of the order. */
  lemma {:induction false} CostUpToStaysInfinite(open: Snapshot, find: Finder, entrance: Cell, order: seq<Point>, j: nat, j': nat)
    requires j <= j' <= |order|
    requires CostUpTo(open, find, entrance, order, j).None?
    ensures CostUpTo(open, find, entrance, order, j').None?
    decreases j' - j
  {
    if j < j' {
      CostUpToStaysInfinite(open, find, entrance, order, j + 1, j');
    }
  }

  /**
   * The winner is optimal over every visiting order of the shelves, not
   * only over the enumeration: each rearrangement is among the permutations.
   */
  lemma CheapestOverAllOrders(open: Snapshot, find: Finder, entrance: Cell, shelves: seq<Point>,
                              returnTrip: bool, k: int, q: seq<Point>)
    requires FirstCheapest(open, find, entrance, Permutations.AllOrders(shelves), returnTrip, k)
    requires multiset(q) == multiset(shelves)
    requires TourCost(open, find, entrance, q, returnTrip).Some?
    ensures multiset(Permutations.AllOrders(shelves)[k]) == multiset(shelves)
    ensures TourCost(open, find, entrance, Permutations.AllOrders(shelves)[k], returnTrip).value <=
            TourCost(open, find, entrance, q, returnTrip).value
  {
    var perms := Permutations.AllOrders(shelves);
    Permutations.AllOrdersSound(shelves, perms[k]);
    Permutations.AllOrdersComplete(shelves, q);
    var j :| 0 <= j < |perms| && perms[j] == q;
  }

  /**
   * When every enumerated order is infeasible (the `null` result), so is
   * every visiting order of the shelves whatsoever.
   */
  lemma NoOrderFeasible(open: Snapshot, find: Finder, entrance: Cell, shelves: seq<Point>,
                        returnTrip: bool, q: seq<Point>)
    requires NoneFeasible(open, find, entrance, Permutations.AllOrders(shelves), returnTrip)
    requires multiset(q) == multiset(shelves)
    ensures TourCost(open, find, entrance, q, returnTrip).None?
  {
    var perms := Permutations.AllOrders(shelves);
    Permutations.AllOrdersComplete(shelves, q);
    var j :| 0 <= j < |perms| && perms[j] == q;
  }

  // -------------------------------------------------------------------------
  // Route assembly

  /** The formatting `map`: every waypoint of a path, labelled with the product its leg leads to. */
  function Labelled(path: seq<Cell>, productId: Option<ProductId>): (leg: seq<Point>)
    ensures |leg| == |path|
    ensures forall i :: 0 <= i < |leg| ==> leg[i].at == path[i] && leg[i].productId == productId
  {
    seq(|path|, i requires 0 <= i < |path| => Point(path[i], productId))
  }

  /** The route along `order`: leg `k` searched from the previous stop (the entrance first) to `order[k]`. */
  ghost function RouteAlong(open: Snapshot, find: Finder, entrance: Cell, order: seq<Point>): seq<seq<Point>>
  {
    seq(|order|, k requires 0 <= k < |order| =>
      Labelled(Leg(open, find, entrance, order, k), order[k].productId))
  }

  /**
   * The `result.map` of `calculatePath`: searches each leg again along the
   * chosen stops, moving `start` to each stop in turn, and labels it.
   */
  method AssembleRoute(grid: Grid, find: Finder, entranceNode: Cell, result: seq<Point>)
    returns (route: seq<seq<Point>>)
    requires grid.Valid()
    ensures route == RouteAlong(grid.Walkable(), find, entranceNode, result)
  {
    ghost var open := grid.Walkable();
    var start := entranceNode;
    route := [];
    for k := 0 to |result|
      invariant start == LegSource(entranceNode, result, k)
      invariant |route| == k
      invariant forall j :: 0 <= j < k ==>
        route[j] == Labelled(Leg(open, find, entranceNode, result, j), result[j].productId)
    {
      var shelfNode := result[k];
      var path := find(grid.Walkable(), start, shelfNode.at);
      start := shelfNode.at;
      route := route + [Labelled(path, shelfNode.productId)];
    }
  }

  function Last<T>(s: seq<T>): T
    requires |s| > 0
  {
    s[|s| - 1]
  }

  /**
   * `leg` is a walk from `from` to the stop `to`: non-empty, ending at the
   * stop, stepping on walkable cells after its first, and carrying the
   * stop's product id on every waypoint.
   */
  ghost predicate Walk(open: Snapshot, from: Cell, to: Point, leg: seq<Point>)
  {
    |leg| > 0 && leg[0].at == from && Last(leg).at == to.at &&
    (forall i :: 0 <= i < |leg| ==> leg[i].productId == to.productId) &&
    (forall i :: 0 < i < |leg| ==> leg[i].at in open)
  }

  /** Every leg is non-empty, the first starts at `start`, and each later one starts where the previous one ended. */
  ghost predicate Connected(route: seq<seq<Point>>, start: Cell)
  {
    (forall k :: 0 <= k < |route| ==> |route[k]| > 0) &&
    (|route| > 0 ==> route[0][0].at == start) &&
    (forall k :: 0 < k < |route| ==> route[k][0].at == Last(route[k - 1]).at)
  }

  /** A non-empty search result, labelled, is a walk between the ends the search was asked for. */
  lemma LabelledLegWalks(open: Snapshot, find: Finder, from: Cell, to: Point)
    requires FinderContract(find)
    requires |find(open, from, to.at)| > 0
    ensures Walk(open, from, to, Labelled(find(open, from, to.at), to.productId))
  {
    assert LegShape(open, from, to.at, find(open, from, to.at));
  }

  /**
   * Along an order whose legs are all non-empty, the route has one leg per
   * stop, and leg `k` is a walk from the previous stop (the entrance
   * first) to `order[k]`, labelled with its product id.
   */
  lemma RouteFollowsOrder(open: Snapshot, find: Finder, entrance: Cell, order: seq<Point>)
    requires FinderContract(find)
    requires CostUpTo(open, find, entrance, order, |order|).Some?
    ensures |RouteAlong(open, find, entrance, order)| == |order|
    ensures forall k :: 0 <= k < |order| ==>
      Walk(open, LegSource(entrance, order, k), order[k], RouteAlong(open, find, entrance, order)[k])
  {
    CostUpToFinite(open, find, entrance, order, |order|);
    forall k | 0 <= k < |order|
      ensures Walk(open, LegSource(entrance, order, k), order[k], RouteAlong(open, find, entrance, order)[k])
    {
      assert |Leg(open, find, entrance, order, k)| > 0;
      LabelledLegWalks(open, find, LegSource(entrance, order, k), order[k]);
    }
  }

  /** Walks that go from stop to stop in turn, starting at `start`, form a connected route. */
  lemma WalksConnect(open: Snapshot, start: Cell, stops: seq<Point>, route: seq<seq<Point>>)
    requires |route| == |stops|
    requires forall k :: 0 <= k < |stops| ==> Walk(open, LegSource(start, stops, k), stops[k], route[k])
    ensures Connected(route, start)
  {
    forall k | 0 < k < |route|
      ensures route[k][0].at == Last(route[k - 1]).at
    {
      assert Walk(open, LegSource(start, stops, k - 1), stops[k - 1], route[k - 1]);
      assert Walk(open, LegSource(start, stops, k), stops[k], route[k]);
    }
  }

  // -------------------------------------------------------------------------
  // calculatePath

  /** `shelfNodesWalkable`: `aps[i]` is product `i`'s access point (aimed for from `(0, 0)`), labelled with its id. */
  ghost predicate AccessPoints(open: Snapshot, products: seq<ShelfTarget>, aps: seq<Point>)
  {
    |aps| == |products| &&
    forall i :: 0 <= i < |products| ==>
      aps[i].productId == Some(products[i].productId) &&
      IsAccessPoint(open, Cell(0, 0), products[i].location, aps[i].at)
  }

  /** The route `calculatePath` returns: along the first cheapest order of the access points, back to the entrance. */
  ghost predicate IsPlannedRoute(open: Snapshot, find: Finder, entrance: Cell, aps: seq<Point>, route: seq<seq<Point>>)
  {
    exists k :: FirstCheapest(open, find, entrance, Permutations.AllOrders(aps), true, k) &&
      route == RouteAlong(open, find, entrance, Stops(Permutations.AllOrders(aps)[k], entrance, true))
  }

  /** Every product's shelf can be reached. */
  ghost predicate AllAccessible(open: Snapshot, products: seq<ShelfTarget>)
  {
    forall i :: 0 <= i < |products| ==> Accessible(open, products[i].location)
  }

  /**
   * The `shelfNodesWalkable` mapping of `calculatePath`: each product's
   * access point, aimed for from `(0, 0)`, labelled with the product's id;
   * the first product without one makes it throw.
   */
  method ResolveAccessPoints(grid: Grid, products: seq<ShelfTarget>) returns (r: Result<seq<Point>, PlanError>)
    requires grid.Valid()
    ensures r.Success? <==> AllAccessible(grid.Walkable(), products)
    ensures r.Failure? ==> r.error == InvalidLocations
    ensures r.Success? ==> AccessPoints(grid.Walkable(), products, r.value)
  {
    ghost var open := grid.Walkable();
    var shelfNodesWalkable: seq<Point> := [];
    for i := 0 to |products|
      invariant AccessPoints(open, products[..i], shelfNodesWalkable)
      invariant AllAccessible(open, products[..i])
    {
      var node := products[i];
      var point := FindNearestAccessiblePoint(grid, 0, 0, node.location.x, node.location.y);
      assert grid.Walkable() == open;
      if point.Failure? {
        assert !Accessible(open, products[i].location);
        return Failure(point.error);
      }
      AccessPointsStep(open, products, i, shelfNodesWalkable, point.value);
      shelfNodesWalkable := shelfNodesWalkable + [Point(point.value, Some(node.productId))];
    }
    assert products[..|products|] == products;
    r := Success(shelfNodesWalkable);
  }

  /** One more product resolved: its access point, labelled with its id, extends the prefix's. */
  lemma AccessPointsStep(open: Snapshot, products: seq<ShelfTarget>, i: nat, aps: seq<Point>, c: Cell)
    requires i < |products|
    requires AccessPoints(open, products[..i], aps) && AllAccessible(open, products[..i])
    requires Accessible(open, products[i].location)
    requires IsAccessPoint(open, Cell(0, 0), products[i].location, c)
    ensures AccessPoints(open, products[..i + 1], aps + [Point(c, Some(products[i].productId))])
    ensures AllAccessible(open, products[..i + 1])
  {
  }

  /**
   * `calculatePath`: the store's map items (`None` when the store has no
   * map) and the shopping list's products in, the labelled legs out, with
   * the return trip always requested.
   */
  method CalculatePath(items: Option<seq<MapItem>>, products: seq<ShelfTarget>, find: Finder)
    returns (r: Result<seq<seq<Point>>, PlanError>)
    ensures r == Failure(MapWithoutItems) <==> items.None?
    ensures r == Failure(NoEntrance) <==> items.Some? && !HasEntrance(items.value)
    ensures r == Failure(CellOutOfBounds) <==>
      items.Some? && HasEntrance(items.value) && !CellsInBounds(items.value)
    ensures r == Failure(InvalidLocations) <==>
      items.Some? && HasEntrance(items.value) && CellsInBounds(items.value) &&
      !AllAccessible(Navigable(items.value), products)
    ensures r == Failure(EntranceOutOfBounds) <==>
      items.Some? && HasEntrance(items.value) && CellsInBounds(items.value) &&
      AllAccessible(Navigable(items.value), products) && !EntranceOnGrid(items.value)
    ensures r == Failure(NoFeasibleOrder) ==>
      items.Some? &&
      exists e, aps ::
        IsLastEntrance(items.value, e) && InBounds(items.value[e].at) &&
        AccessPoints(Navigable(items.value), products, aps) &&
        NoneFeasible(Navigable(items.value), find, items.value[e].at, Permutations.AllOrders(aps), true)
    ensures r.Success? ==>
      items.Some? &&
      exists e, aps ::
        IsLastEntrance(items.value, e) && InBounds(items.value[e].at) &&
        AccessPoints(Navigable(items.value), products, aps) &&
        IsPlannedRoute(Navigable(items.value), find, items.value[e].at, aps, r.value)
  {
    if items.None? {
      return Failure(MapWithoutItems);
    }
    var coordinates := items.value;
    var entrance := FindEntrance(coordinates);
    if entrance.Failure? {
      return Failure(entrance.error);
    }
    ghost var e :| IsLastEntrance(coordinates, e) && entrance.value == coordinates[e].at;
    var built := BuildGrid(coordinates);
    if built.Failure? {
      return Failure(built.error);
    }
    var grid := built.value;
    ghost var open := grid.Walkable();
    assert open == Navigable(coordinates);
    var entranceNode := entrance.value;

    var resolved := ResolveAccessPoints(grid, products);
    if resolved.Failure? {
      return Failure(resolved.error);
    }
    var shelfNodesWalkable := resolved.value;
    assert grid.Walkable() == open;

    // Every order's first search, or its way back when there are no
    // products, starts at the entrance; the library throws on a start cell
    // outside the grid.
    if !grid.IsInside(entranceNode.x, entranceNode.y) {
      return Failure(EntranceOutOfBounds);
    }
    forall e' | IsLastEntrance(coordinates, e')
      ensures InBounds(coordinates[e'].at)
    {
      LastEntranceUnique(coordinates, e, e');
    }

    var result := CalculateShortestPath(grid, find, entranceNode, shelfNodesWalkable, true);
    assert grid.Walkable() == open;
    if result.None? {
      return Failure(NoFeasibleOrder);
    }
    var route := AssembleRoute(grid, find, entranceNode, result.value);
    assert grid.Walkable() == open;
    r := Success(route);
  }

  /** The route `calculatePath` assembles along `order` with the return trip: the stops, then the entrance copy. */
  ghost function RoundTrip(open: Snapshot, find: Finder, entrance: Cell, order: seq<Point>): seq<seq<Point>>
  {
    RouteAlong(open, find, entrance, Stops(order, entrance, true))
  }

  /**
   * `route` leaves `entrance`, walks to every stop of `order` in turn and
   * comes back: one walk per stop, then an unlabelled walk to the entrance.
   */
  ghost predicate IsRoundTrip(open: Snapshot, entrance: Cell, order: seq<Point>, route: seq<seq<Point>>)
  {
    |route| == |order| + 1 &&
    (forall k :: 0 <= k < |order| ==> Walk(open, LegSource(entrance, order, k), order[k], route[k])) &&
    Walk(open, LegSource(entrance, order, |order|), EntranceCopy(entrance), route[|order|])
  }

  /**
   * The route along a feasible order followed by the way back is a round
   * trip from the entrance: each leg reaches its stop, the way back
   * reaches the entrance.
   */
  lemma RoundTripShape(open: Snapshot, find: Finder, entrance: Cell, order: seq<Point>)
    requires FinderContract(find)
    requires TourCost(open, find, entrance, order, true).Some?
    ensures IsRoundTrip(open, entrance, order, RoundTrip(open, find, entrance, order))
  {
    var stops := Stops(order, entrance, true);
    ReturnTripIsFinalLeg(open, find, entrance, order);
    RouteFollowsOrder(open, find, entrance, stops);
    var route := RoundTrip(open, find, entrance, order);
    forall k | 0 <= k <= |order|
      ensures LegSource(entrance, stops, k) == LegSource(entrance, order, k)
    {
      if k > 0 {
        assert stops[k - 1] == order[k - 1];
      }
    }
    forall k | 0 <= k < |order|
      ensures Walk(open, LegSource(entrance, order, k), order[k], route[k])
    {
      assert stops[k] == order[k];
    }
    assert stops[|order|] == EntranceCopy(entrance);
  }

  /**
   * A round trip is connected, starts and ends at the entrance, its way
   * back carries no product id, and its legs to the stops carry the stops'
   * labels in order.
   */
  lemma RoundTripConnected(open: Snapshot, entrance: Cell, order: seq<Point>, route: seq<seq<Point>>)
    requires IsRoundTrip(open, entrance, order, route)
    ensures Connected(route, entrance)
    ensures Last(route[|order|]).at == entrance
    ensures forall i :: 0 <= i < |route[|order|]| ==> route[|order|][i].productId == None
    ensures LegLabels(route[..|order|]) == PointLabels(order)
  {
    var stops := order + [EntranceCopy(entrance)];
    forall k | 0 <= k < |stops|
      ensures Walk(open, LegSource(entrance, stops, k), stops[k], route[k])
    {
      if k > 0 {
        assert stops[k - 1] == if k - 1 < |order| then order[k - 1] else EntranceCopy(entrance);
        assert LegSource(entrance, stops, k) == LegSource(entrance, order, k);
      }
      if k < |order| {
        assert stops[k] == order[k];
      } else {
        assert stops[k] == EntranceCopy(entrance);
      }
    }
    WalksConnect(open, entrance, stops, route);
    assert Walk(open, LegSource(entrance, order, |order|), EntranceCopy(entrance), route[|order|]);
    forall k | 0 <= k < |order|
      ensures LegLabels(route[..|order|])[k] == PointLabels(order)[k]
    {
      assert route[..|order|][k] == route[k];
      assert Walk(open, LegSource(entrance, order, k), order[k], route[k]);
    }
  }

  /**
   * The shape of a planned route: one non-empty leg per product plus the
   * way back, starting at the entrance and ending there, each leg starting
   * where the previous one ended, the way back unlabelled.
   */
  lemma PlannedRouteShape(open: Snapshot, find: Finder, entrance: Cell, products: seq<ShelfTarget>,
                          aps: seq<Point>, route: seq<seq<Point>>)
    requires FinderContract(find)
    requires AccessPoints(open, products, aps)
    requires IsPlannedRoute(open, find, entrance, aps, route)
    ensures |route| == |products| + 1
    ensures Connected(route, entrance)
    ensures Last(route[|products|]).at == entrance
    ensures forall i :: 0 <= i < |route[|products|]| ==> route[|products|][i].productId == None
  {
    var order := PlannedOrder(open, find, entrance, aps, route);
    RoundTripShape(open, find, entrance, order);
    RoundTripConnected(open, entrance, order, route);
  }

  /**
   * Each leg to a shelf is labelled throughout with one product's id and
   * ends at that product's access point.
   */
  lemma PlannedLegsReachProducts(open: Snapshot, find: Finder, entrance: Cell, products: seq<ShelfTarget>,
                                 aps: seq<Point>, route: seq<seq<Point>>, k: nat)
    requires FinderContract(find)
    requires AccessPoints(open, products, aps)
    requires IsPlannedRoute(open, find, entrance, aps, route)
    requires k < |products|
    ensures k < |route| && |route[k]| > 0
    ensures exists j ::
      0 <= j < |products| &&
      (forall i :: 0 <= i < |route[k]| ==> route[k][i].productId == Some(products[j].productId)) &&
      IsAccessPoint(open, Cell(0, 0), products[j].location, Last(route[k]).at)
  {
    var order := PlannedOrder(open, find, entrance, aps, route);
    RoundTripShape(open, find, entrance, order);
    assert Walk(open, LegSource(entrance, order, k), order[k], route[k]);
    assert order[k] in multiset(aps) by { assert order[k] in multiset(order); }
    var j :| 0 <= j < |aps| && aps[j] == order[k];
    assert aps[j].productId == Some(products[j].productId);
  }

  /** The legs to the shelves carry every product's id exactly as often as the shopping list holds it. */
  lemma PlannedLabelsArePermutation(open: Snapshot, find: Finder, entrance: Cell, products: seq<ShelfTarget>,
                                    aps: seq<Point>, route: seq<seq<Point>>)
    requires FinderContract(find)
    requires AccessPoints(open, products, aps)
    requires IsPlannedRoute(open, find, entrance, aps, route)
    ensures |products| <= |route|
    ensures multiset(LegLabels(route[..|products|])) == multiset(ProductLabels(products))
  {
    var order := PlannedOrder(open, find, entrance, aps, route);
    RoundTripShape(open, find, entrance, order);
    AccessPointLabels(open, products, aps);
    RoundTripLabels(open, entrance, order, aps, route);
  }

  /** The access points carry the shopping list's product ids, in list order. */
  lemma AccessPointLabels(open: Snapshot, products: seq<ShelfTarget>, aps: seq<Point>)
    requires AccessPoints(open, products, aps)
    ensures PointLabels(aps) == ProductLabels(products)
  {
  }

  /** The legs of a round trip through a rearrangement of `aps` carry the labels of `aps`, rearranged. */
  lemma RoundTripLabels(open: Snapshot, entrance: Cell, order: seq<Point>, aps: seq<Point>, route: seq<seq<Point>>)
    requires IsRoundTrip(open, entrance, order, route)
    requires multiset(order) == multiset(aps)
    ensures |aps| < |route|
    ensures multiset(LegLabels(route[..|aps|])) == multiset(PointLabels(aps))
  {
    assert |order| == |aps| by { assert |multiset(order)| == |multiset(aps)|; }
    RoundTripConnected(open, entrance, order, route);
    LabelsPermutation(order, aps);
  }

  /** The visiting order behind a planned route: a feasible rearrangement of the access points. */
  lemma PlannedOrder(open: Snapshot, find: Finder, entrance: Cell, aps: seq<Point>, route: seq<seq<Point>>)
    returns (order: seq<Point>)
    requires IsPlannedRoute(open, find, entrance, aps, route)
    ensures multiset(order) == multiset(aps) && |order| == |aps|
    ensures TourCost(open, find, entrance, order, true).Some?
    ensures route == RoundTrip(open, find, entrance, order)
  {
    var perms := Permutations.AllOrders(aps);
    var k :| FirstCheapest(open, find, entrance, perms, true, k) &&
             route == RouteAlong(open, find, entrance, Stops(perms[k], entrance, true));
    order := perms[k];
    Permutations.AllOrdersSound(aps, order);
    assert |multiset(order)| == |multiset(aps)|;
  }

  /** The label of a leg: the product id its waypoints carry. */
  function LegLabels(legs: seq<seq<Point>>): seq<Option<ProductId>>
  {
    seq(|legs|, k requires 0 <= k < |legs| => if legs[k] == [] then None else legs[k][0].productId)
  }

  function PointLabels(points: seq<Point>): seq<Option<ProductId>>
  {
    seq(|points|, k requires 0 <= k < |points| => points[k].productId)
  }

  function ProductLabels(products: seq<ShelfTarget>): seq<Option<ProductId>>
  {
    seq(|products|, k requires 0 <= k < |products| => Some(products[k].productId))
  }

  /** Rearranging points rearranges their labels. */
  lemma {:induction false} LabelsPermutation(a: seq<Point>, b: seq<Point>)
    requires multiset(a) == multiset(b)
    ensures multiset(PointLabels(a)) == multiset(PointLabels(b))
    decreases |a|
  {
    if |a| > 0 {
      var i := Permutations.FirstMatches(b, a);
      var b' := Permutations.RemoveAt(b, i);
      LabelsPermutation(a[1..], b');
      assert PointLabels(a) == [a[0].productId] + PointLabels(a[1..]);
      assert b == b[..i] + [b[i]] + b[i + 1..];
      assert PointLabels(b) == PointLabels(b[..i]) + [b[i].productId] + PointLabels(b[i + 1..]);
      assert PointLabels(b') == PointLabels(b[..i]) + PointLabels(b[i + 1..]);
    } else {
      assert |b| == 0 by { assert |multiset(b)| == 0; }
    }
  }
}
