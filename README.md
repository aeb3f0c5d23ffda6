# LocalShop route planner and user-record rules, in Dafny

This project models two parts of the LocalShop system.

**The in-store route planner** (`PathService.calculatePath` of the map
service). It turns a store map and a shopping list into a walking route:

1. Build a 10×10 walkability grid where every registered cell except the
   entrance is blocked.
2. Find the entrance. When there are several, the last one in the list wins.
3. Resolve every product's shelf to an access point. That is the shelf
   itself if it is walkable, otherwise its walkable 4-neighbour nearest to
   `(0, 0)`.
4. Score every visiting order (all `n!` of them), always including the way
   back to the entrance, and keep the first cheapest.
5. Search every leg again along the winning order and label each waypoint
   with its leg's product id.

The A* search of the `pathfinding` library is a parameter `find` of type
`Finder`. `FinderContract` states what the planner relies on from it: a
path is empty (unreachable) or runs from the source to the goal over
walkable cells.

**The user controller's record rules**:
- `validateCPF`, the modulo-11 check of a Brazilian CPF number, modelled
  exactly as written (see Findings).
- The four favourites handlers, which append to or splice out of the
  user's `favoriteProducts` / `favoriteStores` lists.

Modules:
- `Wrappers`: the `Option`, `Result` and `Outcome` types.
- `Grid`: the mutable grid class over an `array2<bool>`.
- `Permutations`: `generatePermutations`.
- `PathService`: the planner.
- `Cpf`: `validateCPF`.
- `Favourites`: the favourites lists.

Modelling choices:
- `grid.clone()` is the value `Grid.Walkable()`, the set of walkable cells
  at the moment of the call.
- The cost `Infinity` is `None`.
- `Math.sqrt` is dropped: squared distance orders neighbours the same way.
- The `null` that `calculateShortestPath` returns when no order is feasible
  is the failure `NoFeasibleOrder`. The source goes on to crash on `null.map`.
- A `setWalkableAt` outside the grid is the failure `CellOutOfBounds`. The
  library does not check its bounds and fails there.
- An entrance outside the grid is the failure `EntranceOutOfBounds`. Every
  scored order's first search starts there, and the library fails on a start
  cell it has no node for.

## Model

| member | source | states |
|---|---|---|
| Grid.Grid.constructor | LocalShopAPI-Map/src/services/pathService.ts:208 | a new grid has the given size and every cell inside it walkable |
| Grid.Grid.SetWalkableAt | LocalShopAPI-Map/src/services/pathService.ts:212 | sets the flag of exactly one cell and leaves every other cell as it was |
| Grid.Grid.Walkable | LocalShopAPI-Map/src/services/pathService.ts:157 | the snapshot a search receives holds exactly the cells walkable at that moment |
| PathService.FindEntrance | LocalShopAPI-Map/src/services/pathService.ts:104-114 | fails with `NoEntrance` exactly when no item is an entrance; otherwise returns the cell of the last entrance in list order |
| PathService.BuildGrid | LocalShopAPI-Map/src/services/pathService.ts:208-213 | fails exactly when a non-entrance item lies outside the 10×10 grid; otherwise a fresh 10×10 grid where a cell is walkable iff it is in bounds and no non-entrance item is registered there |
| PathService.NavigableCells | LocalShopAPI-Map/src/services/pathService.ts:210-213 | a cell of the built grid is walkable iff it is in bounds and every item registered on it is an entrance |
| PathService.SquaredDistance | LocalShopAPI-Map/src/services/pathService.ts:44-51 | the squared Euclidean distance between two cells is zero exactly when they are the same cell |
| Grid.Grid.IsWalkableAt | LocalShopAPI-Map/src/services/pathService.ts:60-93 | a cell outside the grid is never walkable |
| PathService.FindNearestAccessiblePoint | LocalShopAPI-Map/src/services/pathService.ts:53-102 | succeeds iff the target or one of its four neighbours is walkable, otherwise fails with `InvalidLocations`; a walkable target is returned unchanged; otherwise the result is the walkable neighbour with the least distance to `(x, y)`, and every walkable neighbour before it in the order up, down, left, right is strictly farther |
| PathService.Neighbours | LocalShopAPI-Map/src/services/pathService.ts:61-64 | the four neighbours in evaluation order: up and down change `x` (up the smaller), left and right change `y` (left the smaller); each is one step from the target |
| PathService.AccessPointUnique | LocalShopAPI-Map/src/services/pathService.ts:60-101 | the access point is determined by the grid and the target, is walkable, and is the target or one of its four neighbours |
| Permutations.RemoveAt | LocalShopAPI-Map/src/services/pathService.ts:124-125 | `slice` then `splice(i, 1)` leaves one element fewer, the multiset without `arr[i]` |
| Permutations.PermuteInto | LocalShopAPI-Map/src/services/pathService.ts:119-129 | the recursive `permute` appends to the accumulator exactly the orders `Permute(arr, m)` lists |
| Permutations.GeneratePermutations | LocalShopAPI-Map/src/services/pathService.ts:116-133 | returns `AllOrders(arr)`: `n!` orders, each a rearrangement of the input |
| Permutations.AllOrdersCount | LocalShopAPI-Map/src/services/pathService.ts:116-133 | there are exactly `n!` orders; an empty input gives one empty order |
| Permutations.AllOrdersSound | LocalShopAPI-Map/src/services/pathService.ts:119-129 | every generated order is a rearrangement of the input |
| Permutations.AllOrdersComplete | LocalShopAPI-Map/src/services/pathService.ts:119-129 | every rearrangement of the input is among the generated orders |
| PathService.CostUpTo | LocalShopAPI-Map/src/services/pathService.ts:148-167 | the running total of the first `j` legs, `None` once a leg is empty; a finite total is at least `j`, since each leg counts at least one node |
| PathService.TourCost | LocalShopAPI-Map/src/services/pathService.ts:148-183 | the score of an order: finite only if all its legs are, and then at least one node per leg plus one for the way back when it is requested |
| PathService.CostUpToFinite | LocalShopAPI-Map/src/services/pathService.ts:151-167 | the running total of the first `j` legs is finite iff none of those legs is empty |
| PathService.FeasibleOrderHasNoEmptyLeg | LocalShopAPI-Map/src/services/pathService.ts:151-183 | an order scores finite iff no leg and (with the return trip) no way back is empty, so an order with an empty leg is never selected |
| PathService.ReturnTripIsFinalLeg | LocalShopAPI-Map/src/services/pathService.ts:169-186 | scoring with the return trip equals scoring the order followed by the entrance copy without it |
| PathService.EntranceCopy | LocalShopAPI-Map/src/services/pathService.ts:186 | the `{ ...entranceNode }` copy stands at the entrance and carries no product id |
| PathService.Stops | LocalShopAPI-Map/src/services/pathService.ts:184-192 | the stop list of a winning order is the order itself, followed with the return trip by one stop at the entrance without a product id |
| PathService.ScorePermutation | LocalShopAPI-Map/src/services/pathService.ts:148-183 | the inner loop with its `break` and the return leg computes `TourCost` of the permutation |
| PathService.CalculateShortestPath | LocalShopAPI-Map/src/services/pathService.ts:135-197 | `None` iff every generated order is infeasible; otherwise the first order of least total cost, followed by an unlabelled entrance copy when the return trip is on |
| PathService.CheapestOverAllOrders | LocalShopAPI-Map/src/services/pathService.ts:135-197 | the winning order is a rearrangement of the shelves and costs no more than any feasible rearrangement whatsoever |
| PathService.NoOrderFeasible | LocalShopAPI-Map/src/services/pathService.ts:142-196 | when the result is `None`, no rearrangement of the shelves is feasible |
| PathService.Labelled | LocalShopAPI-Map/src/services/pathService.ts:260-268 | the formatted leg has the path's waypoints, in order, each carrying the leg's product id |
| PathService.AssembleRoute | LocalShopAPI-Map/src/services/pathService.ts:238-268 | leg `k` of the route is the search from the previous stop (the entrance first) to stop `k`, labelled with stop `k`'s product id |
| PathService.RouteFollowsOrder | LocalShopAPI-Map/src/services/pathService.ts:238-268 | along an order with no empty leg there is one leg per stop, and leg `k` is a walk from the previous stop (the entrance first) to stop `k`: non-empty, stepping on walkable cells, every waypoint carrying stop `k`'s product id |
| PathService.ResolveAccessPoints | LocalShopAPI-Map/src/services/pathService.ts:229-236 | succeeds iff every product's shelf is accessible, otherwise fails with `InvalidLocations`; entry `i` is product `i`'s access point from `(0, 0)`, labelled with its id |
| PathService.CalculatePath | LocalShopAPI-Map/src/services/pathService.ts:199-271 | each failure (no map, no entrance, cell out of bounds, inaccessible shelf, entrance outside the grid) happens exactly under its condition, in that order; `NoFeasibleOrder` means every order of the access points is infeasible; success returns the route along the first cheapest round trip from the last entrance, which lies on the grid |
| PathService.PlannedOrder | LocalShopAPI-Map/src/services/pathService.ts:239-258 | the route follows a feasible rearrangement of the access points |
| PathService.RoundTripShape | LocalShopAPI-Map/src/services/pathService.ts:184-186 | the route along a feasible order and the appended entrance copy is one walk per stop followed by an unlabelled walk back to the entrance |
| PathService.RoundTripConnected | LocalShopAPI-Map/src/services/pathService.ts:238-268 | such a round trip is connected (each leg starts where the previous one ended), starts and ends at the entrance, carries no product id on the way back, and its legs to the stops carry the stops' labels in order |
| PathService.PlannedRouteShape | LocalShopAPI-Map/src/services/pathService.ts:238-268 | a planned route has one leg per product plus one; it starts and ends at the entrance, is connected, and its last leg carries no product id |
| PathService.PlannedLegsReachProducts | LocalShopAPI-Map/src/services/pathService.ts:229-258 | each leg to a shelf is labelled throughout with one product's id and ends at that product's access point |
| PathService.PlannedLabelsArePermutation | LocalShopAPI-Map/src/services/pathService.ts:229-268 | the leg labels are the shopping list's product ids, each exactly as often as it appears |
| Cpf.DigitsOnly | LocalShopAPI/src/controller/userController.ts:36 | the result holds only digits, each digit as often as in the input; an all-digit input is unchanged |
| Cpf.DigitsOnlyAppend | LocalShopAPI/src/controller/userController.ts:36 | stripping distributes over concatenation, so the digits keep their order |
| Cpf.AllSame | LocalShopAPI/src/controller/userController.ts:42-44 | `/^(\d)\1+$/`: every digit equals the first, which is the same as every two digits being equal |
| Cpf.WeightedSum | LocalShopAPI/src/controller/userController.ts:46-57 | the sum of the first `n` digits weighted `top - i`; with positive weights it lies between 0 and `9 * n * top` |
| Cpf.CheckDigit | LocalShopAPI/src/controller/userController.ts:50-51 | the check digit lies in 0..9; it is 0 when the sum mod 11 is below 2, and otherwise makes digit plus sum a multiple of 11 |
| Cpf.ValidateCpf | LocalShopAPI/src/controller/userController.ts:35-70 | fails with `InvalidLength` iff the stripped string does not have 11 digits; otherwise true iff the digits are not all equal and digits 9 and 10 equal the two check digits as written (both sums over the first nine digits) |
| Cpf.WrittenSecondDigitIgnoresFirst | LocalShopAPI/src/controller/userController.ts:55-60 | the as-written second check digit depends only on the first nine digits |
| Cpf.WrittenRuleRejectsGenuineCpf | LocalShopAPI/src/controller/userController.ts:53-66 | 529.982.247-25 satisfies the published rule but not the as-written one |
| Cpf.ValidateCpfStandard | LocalShopAPI/src/controller/userController.ts:35-70 | the corrected validator: like `ValidateCpf`, with the second sum over the first ten digits |
| Cpf.StandardCompletionAccepted | LocalShopAPI/src/controller/userController.ts:46-66 | nine digits, not all equal, completed with the published check digits pass the corrected rule |
| Favourites.IndexOf | LocalShopAPI/src/controller/userController.ts:326 | -1 iff the id is absent; otherwise the position of its first occurrence |
| Favourites.RemoveFirst | LocalShopAPI/src/controller/userController.ts:326-330 | an absent id leaves the list unchanged; otherwise exactly the first occurrence is taken out and the rest keep their order |
| Favourites.AddThenRemove | LocalShopAPI/src/controller/userController.ts:229-233 | removing an id just appended to a list without it restores the list |
| Favourites.User.constructor | LocalShopAPI/src/controller/userController.ts:223 | a user record with the given favourites lists |
| Favourites.User.FavoriteProduct | LocalShopAPI/src/controller/userController.ts:229-233 | a product already in the list is `AlreadyFavourited` and changes nothing; otherwise it is appended; the stores list is untouched |
| Favourites.User.FavoriteStore | LocalShopAPI/src/controller/userController.ts:260-264 | a store already in the list is `AlreadyFavourited` and changes nothing; otherwise it is appended; the products list is untouched |
| Favourites.User.UnFavoriteProduct | LocalShopAPI/src/controller/userController.ts:326-330 | the products list loses its first occurrence of the id and is unchanged when the id is absent; the stores list is untouched |
| Favourites.User.UnFavoriteStore | LocalShopAPI/src/controller/userController.ts:357-365 | an absent store is `NotAFavourite` and changes nothing; otherwise its first occurrence is taken out; the products list is untouched |

## Left out

- The A* search (`AStarFinder`, diagonal movement when no obstacles block it) comes from the `pathfinding` library, whose code is not part of this model. It is the parameter `find`, constrained only by `FinderContract`. The model therefore says nothing about path lengths being shortest.
- `grid.clone()` is not modelled as a copy in memory. A search receives the value `Walkable()`, so it cannot change the grid.
- `Math.sqrt` and floating point: distances are squared integers. Both are monotone, so every `<` comparison comes out the same.
- Loading the map and the user (`MapModel.findOne`, `UserModel.findById`, `user.save`), the HTTP errors and status codes, `isValidObjectId` and the user-not-found checks are I/O or request handling. The errors become the `PlanError`, `CpfError` and `FavouriteError` values.
- A product without a location (the spread of `undefined` at pathService.ts:223) is not representable: every `ShelfTarget` carries a cell.
- `PathService.CalculatePath` returns `NoFeasibleOrder` where the source dereferences `null` and throws a `TypeError`.
- `PathService.CalculatePath` returns `EntranceOutOfBounds` where the first search of `calculateShortestPath` starts at an entrance outside the grid and the `pathfinding` library throws a `TypeError` reading its node. The source throws there only after the access points are resolved, and the model checks at the same point.
- `PathService.BuildGrid` fails with `CellOutOfBounds` where the library throws on an item outside the grid.
- `PathService.ScorePermutation` and `PathService.ResolveAccessPoints` are the bodies of two loops of the source, given names of their own.
- `validateEmail`, the report, stock and sale logic, and the other handlers of the user controller are not part of this model.
- With several entrances, `findEntrance` keeps the last one in list order. `calculatePath` always passes `returnTrip = true`, so a route has one leg more than the shopping list has products, and its last leg carries no product id.

## Findings

| source | as written | input that shows it | evidently intended | confidence | as-written member | corrected member |
|---|---|---|---|---|---|---|
| LocalShopAPI/src/controller/userController.ts:55-57 | the second check digit sums only the first nine digits, weights `11 - i` | 529.982.247-25, a valid CPF number: the second sum is 343, check digit 9, not 5, so it is rejected | the sum runs over the first ten digits (the first check digit weighted 2), giving 347 and check digit 5 | high, not executed | Cpf.WrittenRuleRejectsGenuineCpf | Cpf.ValidateCpfStandard |
