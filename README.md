# Waste-collection planner: a verified model

This project models the core of a waste-collection planner for a city split into districts.

- **Districts** hold waste bins and know their neighbouring districts.
- **Bins** have a location, a fill level and a waste type ("Recyclable", "Non Recyclable" or "Mixed").
- **Trucks** have a capacity and may specialise in one waste type.

The planner does three things:

- **Route search.** It plans a truck's route through the bins of a district with an exhaustive
  depth-first backtracking search. The search stops a partial route once every bin is on it or
  the truck is at least 90 % full, and keeps the shortest complete route it meets.
- **Truck assignment.** It assigns trucks to districts in two passes over the districts, largest
  urgent waste volume first:
  1. Each district with a dominant recyclable or non-recyclable volume gets the first truck
     specialised in that type that the planner can route.
  2. Each district still without a truck takes the next remaining truck, and keeps it only if
     the planner finds a route.
- **Map colouring.** It colours the district map greedily, giving each district the first
  palette colour none of its neighbours holds.

Modules:

- **`Models`** (models.dfy): the three entities as classes. Fields the planner reassigns are
  `var`; the rest are `const`.
- **`Geometry`**: points, Euclidean distance and path length.
- **`Sequences`**: list comprehensions, selection by position, and Python's stable
  `sorted(..., reverse=True)` as an index order `Order`.
- **`RouteSearch`**: a pure value model of the depth-first search, `Search`, over index paths.
  Its lemmas prove what the search returns:
  - it returns nothing exactly when no complete route exists;
  - otherwise it returns a complete, feasible route whose recorded distance is its length;
  - no complete route is shorter;
  - among equally short routes, it returns the first one in depth-first order.
- **`RouteOptimization`**: the route-distance loop, the choice of bins a truck works on, and the
  backtracker as a `Backtracker` class. The class mirrors the closure state of
  `optimize_route_backtracking` (`visited`, `current_route`, `current_load`, best route and
  distance). Its methods are proved to compute exactly what `Search` computes. The module also
  holds the two assignment passes as loops whose invariants say, district by district, what has
  been assigned and why the other districts have no truck. Each pass has a reference definition
  as a fold over the districts (`FirstPassUpTo`, `SecondPassUpTo`), and the whole assignment one
  as `Plan`. The loops are proved to produce exactly these values, and lemmas about the folds
  state which trucks are taken and in what order the rest stay.
- **`MapColoring`**: the greedy colouring. It updates only the `color` fields and is proved to
  preserve a proper colouring of a symmetric map.

## Model

| member | source | states |
|---|---|---|
| Geometry.SquaredDistance | route_optimization.py:4-8 | the radicand of the Euclidean distance is never negative and does not depend on the order of the two points |
| Geometry.Distance | route_optimization.py:4-8 | the Euclidean distance as the square root of `SquaredDistance`, whose contract states the radicand's properties |
| Geometry.PathLength | route_optimization.py:10-15 | the sum of consecutive distances; `TotalRouteDistance` is proved to compute it and `PathLengthNonNegative` bounds it |
| Models.District.constructor | models.py:2-7 | a new district has its id, name and given neighbours, no colour and no bins |
| Models.District.AddAdjacentDistrict | models.py:9-12 | a district not yet listed is added as a neighbour and the district itself is added to its list; an already listed one changes nothing; in a symmetric map without self-loops or repeated neighbours, the map stays symmetric and simple and both districts list each other |
| Models.District.AddWasteBin | models.py:14-15 | the bin is appended to the district's bins; neighbours and colour are untouched |
| Models.WasteBin.constructor | models.py:19-26 | the bin keeps its arguments and needs emptying exactly when its fill level is above 65 |
| Models.WasteBin.FillPercentage | models.py:28-30 | the percentage times the capacity is one hundred times the fill level |
| Models.Truck.constructor | models.py:34-39 | a new truck is empty, has no route and keeps its capacity and specialty |
| Models.Truck.CanHandle | models.py:47-51 | a specialised truck refuses a bin of another type unless it is "Mixed"; a bin whose type the truck accepts is handled exactly when it fits in the remaining capacity |
| Models.Truck.AddBinToRoute | models.py:41-45 | the bin is appended to the route exactly when the truck can handle it, and the answer says which; the load is unchanged |
| Models.Truck.CollectWaste | models.py:53-58 | when the truck can handle the bin, the bin's level moves into the truck's load and the bin is emptied; otherwise nothing changes; a truck within capacity stays within capacity |
| Sequences.Filter | route_optimization.py:31 | every kept element is an input element meeting the condition, every input element meeting it is kept, and nothing is added |
| Sequences.FilterCount | route_optimization.py:31 | each element meeting the condition is kept as often as it occurs in the input, and no other element is kept |
| Sequences.FilterAppend | route_optimization.py:31 | filtering a concatenation filters each part and keeps the parts in order |
| Sequences.FilterNone | route_optimization.py:31 | nothing is kept when no element meets the condition |
| Sequences.OrderSpec | route_optimization.py:45 | the order lists every position once, keys never increase along it, and equal keys keep their input order |
| Sequences.OrderPermutes | route_optimization.py:45 | sorting rearranges the list without adding or losing elements |
| RouteOptimization.TotalRouteDistance | route_optimization.py:10-15 | the loop's total is the path length through the bins' locations, and zero for a route of at most one bin |
| RouteOptimization.PathLengthNonNegative | route_optimization.py:10-15 | with a square root that is never negative, a route's length is never negative |
| RouteOptimization.SortByLevel | route_optimization.py:44-45 | sorting the working set by fill level keeps the same bins |
| RouteOptimization.SortByLevelSorted | route_optimization.py:44-45 | after sorting, fuller bins come first, each entry is the input bin at its sorted position, and bins of equal level keep their input order |
| RouteOptimization.Chosen | route_optimization.py:30-42 | the bins chosen before sorting all come from the input |
| RouteOptimization.WorkingSet | route_optimization.py:30-45 | every bin of the working set is an input bin; the lemmas below characterise which ones and in what order |
| RouteOptimization.WorkingSetFromInput | route_optimization.py:30-45 | the working set draws from the input without repeats beyond it, is non-empty for non-empty input, and is the whole input when no bin needs emptying |
| RouteOptimization.WorkingSetUrgent | route_optimization.py:30-42 | when some bin needs emptying, every bin of the working set needs emptying |
| RouteOptimization.WorkingSetCovers | route_optimization.py:30-42 | a bin needing emptying is in the working set when its type is accepted by the truck, and always for a general-purpose truck |
| RouteOptimization.WorkingSetFallback | route_optimization.py:33-42 | when some bin needs emptying but the specialised truck accepts none of those bins, the working set holds exactly the bins needing emptying |
| RouteOptimization.ChosenTypeRule | route_optimization.py:33-38 | when a bin needing emptying matches the truck's type rule, only matching bins are chosen |
| RouteOptimization.WorkingSetTypeRule | route_optimization.py:33-45 | when some bin needing emptying matches the truck's type rule, every bin of the working set matches it |
| RouteOptimization.LoadIsTotalLevel | route_optimization.py:89 | the load along a path of the search is the total fill level of the bins on it |
| RouteSearch.SearchFindsCandidate | route_optimization.py:53-101 | the search returns nothing exactly when no complete route exists, and otherwise a complete route together with its length |
| RouteSearch.SearchIsOptimal | route_optimization.py:53-101 | no complete route is shorter than the one found, and an equally short one comes later in depth-first order |
| RouteSearch.Search | route_optimization.py:53-101 | the call `backtrack(start_point, 0)` with nothing recorded; characterised by `SearchFindsCandidate` and `SearchIsOptimal` |
| RouteSearch.Visit | route_optimization.py:53-73 | one call of `backtrack`: records a complete route or tries every bin in turn; whatever it keeps is a valid index path |
| RouteSearch.Children | route_optimization.py:64-97 | the loop of `backtrack` over the remaining bins, skipping the visited, too heavy or refused ones; whatever it keeps is a valid index path |
| RouteSearch.VisitSpec | route_optimization.py:53-73 | from a reachable partial route, the call returns the earliest shortest complete route below it, or the best so far when that is not beaten |
| RouteSearch.ChildrenSpec | route_optimization.py:64-97 | the loop from bin `i` on returns the earliest shortest complete route through bins `i` and later, or the best so far when that is not beaten |
| RouteSearch.CandidateFeasible | route_optimization.py:56-73 | a complete route visits no bin twice, takes only bins the truck accepts, stays within capacity when non-empty, and either visits every bin or fills the truck to at least 90 % |
| RouteSearch.PathDistSplit | route_optimization.py:75-92 | a route's distance is the leg from the start point, if given, to the first bin plus the path length through the bins |
| RouteOptimization.CandidateRoute | route_optimization.py:56-73 | a complete route, read as bins, is drawn from the working set, obeys the type rule and the capacity, and visits every bin or fills the truck to 90 % |
| RouteOptimization.PlannedRouteFeasible | route_optimization.py:17-101 | a route the planner returns with a finite distance satisfies everything a complete route does |
| RouteOptimization.PlannedRouteDistance | route_optimization.py:75-101 | the distance returned is the start leg plus the path length through the returned bins |
| RouteOptimization.PlannedRouteOptimal | route_optimization.py:17-101 | the distance is infinite exactly when no complete route exists, and otherwise no complete route is shorter |
| RouteOptimization.PlannedRouteNonEmpty | route_optimization.py:27-28 | a non-empty returned route comes from non-empty input with a finite distance |
| RouteOptimization.PlannedRoute | route_optimization.py:17-101 | the planner's answer for one truck; characterised by `PlannedRouteFeasible`, `PlannedRouteDistance`, `PlannedRouteOptimal`, `PlannedRouteNonEmpty` and `PlannedRouteFound` |
| RouteOptimization.PlannedRouteFound | route_optimization.py:53-101 | a finite answer is the search's best complete route, read as bins of the working set, with the search's recorded distance |
| RouteOptimization.Backtracker.constructor | route_optimization.py:47-51 | the search starts with nothing visited, an empty route and load, and no best route |
| RouteOptimization.Backtracker.Push | route_optimization.py:86-89 | marking a bin visited appends it to the current route and adds its level to the load |
| RouteOptimization.Backtracker.Pop | route_optimization.py:94-97 | undoing a step removes the last bin from the route and its level from the load |
| RouteOptimization.Backtracker.RecordIfShorter | route_optimization.py:57-62 | a complete route replaces the best one only when strictly shorter |
| RouteOptimization.Backtracker.Backtrack | route_optimization.py:53-73 | one call leaves the current route and load as it found them and updates the best route exactly as the search specification does |
| RouteOptimization.Backtracker.Descend | route_optimization.py:64-97 | trying bin `i` either skips it when visited, too heavy or of a refused type, or explores every route continuing through it |
| RouteOptimization.OptimizeRouteBacktracking | route_optimization.py:17-101 | the returned route and distance are the specified planner's: `([], 0)` for no bins, otherwise the best complete route of the sorted working set, or `([], inf)` when there is none |
| RouteOptimization.StatsTotalIsUrgentVolume | route_optimization.py:116-123 | when every bin needing emptying has one of the three types, a district's total is its urgent volume |
| RouteOptimization.UrgentVolume | route_optimization.py:110 | the sorting key: the total level of the bins needing emptying; `StatsTotalIsUrgentVolume` relates it to the statistics |
| RouteOptimization.TypeVolume | route_optimization.py:117-122 | the total level of the bins of one type needing emptying; the statistics are built from it |
| RouteOptimization.StatsOf | route_optimization.py:116-131 | one district's volumes per type and their total; `StatsTotalIsUrgentVolume` and `DominantType` state what is drawn from them |
| RouteOptimization.DominantType | route_optimization.py:144-159 | the dominant type is "Recyclable" exactly when that volume strictly exceeds both others, likewise "Non Recyclable", and there is none otherwise |
| RouteOptimization.DistrictsByVolume | route_optimization.py:107-112 | sorting districts by urgent volume keeps the same districts |
| RouteOptimization.DistrictsByVolumeSorted | route_optimization.py:107-112 | districts with more urgent volume come first and equal volumes keep their input order |
| RouteOptimization.TrucksByCapacity | route_optimization.py:134 | trucks are rearranged, largest capacity first, equal capacities in input order |
| RouteOptimization.DistrictStats | route_optimization.py:114-132 | the loop builds exactly `StatsMap`: one entry per district id, holding the statistics of the last district in the list with that id |
| RouteOptimization.StatsMapKeys | route_optimization.py:115-131 | the dictionary has an entry for an id exactly when some district has that id |
| RouteOptimization.StatsMapLast | route_optimization.py:115-131 | the entry for an id holds the statistics of the last district with that id |
| RouteOptimization.FindSpecialisedTruck | route_optimization.py:146-157 | the position found is `FirstRoutable`'s: the first available truck specialised in the type for which the planner finds a non-empty route, with that route; none when every such truck gets an empty route |
| RouteOptimization.FirstRoutable | route_optimization.py:146-157 | the reference answer of the inner loop: a position at or after `from` holding a truck of the wanted specialty |
| RouteOptimization.FirstRoutableIsFirst | route_optimization.py:146-157 | the reference answer is position `n` when no truck before `n` fits and the truck at `n` does, and none when no truck fits |
| RouteOptimization.SpecialisedStep | route_optimization.py:137-172 | the reference effect of one district in the first pass: skip, or take the first routable specialised truck out of the list and assign it with its route |
| RouteOptimization.FirstPassUpTo | route_optimization.py:136-172 | the reference first pass: the assignments and truck list after the first `k` districts, starting from no assignments and the sorted trucks |
| RouteOptimization.TakeOutKeepsOrder | route_optimization.py:156 | `pop(i)` keeps the other trucks, in their capacity order |
| RouteOptimization.SpecialisedStepTakesOut | route_optimization.py:137-172 | one step takes at most one truck out, keeps the rest in capacity order, and assigns that truck only to the district it serves, matching its dominant type |
| RouteOptimization.FirstPassTakesOutStep | route_optimization.py:137-172 | each district of the first pass keeps `TakenOut`: leftover trucks come from the input in capacity order, each assignment has a specialised truck of the input of the district's dominant type, and assignments plus leftover trucks number the input trucks |
| RouteOptimization.FirstPassTakesOut | route_optimization.py:136-172 | `TakenOut` holds after any number of districts of the reference first pass |
| RouteOptimization.PassUnassigned | route_optimization.py:137-159 | a district skipped by the first pass, or one for which no specialised truck finds a route, keeps the first-pass invariant |
| RouteOptimization.PassAssigned | route_optimization.py:146-157 | assigning the truck found keeps the first-pass invariant, removes only that truck from the available list, and with distinct trucks that truck serves no other district |
| RouteOptimization.StoreRoute | route_optimization.py:150 | only the truck's `route` field is written; every stored route is kept and no truck that is not assigned is touched |
| RouteOptimization.TakeTruck | route_optimization.py:150-156 | the assignment is recorded, exactly position `i` leaves the available list, only the truck's `route` field is written, and the first-pass invariant advances |
| RouteOptimization.OfferSpecialisedTruck | route_optimization.py:146-157 | the new state is the reference first pass one district further; when a truck was found at `i` the district gets `Assignment(available[i], route, distance)` and exactly that truck leaves the list; otherwise nothing changes |
| RouteOptimization.SearchSpecialisedTruck | route_optimization.py:144-172 | the new state is the reference first pass one district further, which takes the first routable truck of the dominant type in list order |
| RouteOptimization.AssignSpecialisedTruck | route_optimization.py:137-172 | one district of the first pass: the new state is the reference first pass one district further; assignments only grow |
| RouteOptimization.AssignSpecialisedTrucks | route_optimization.py:136-172 | the result is the reference first pass over all districts; every assignment serves its district with a specialised truck of the district's dominant type and a non-empty planned route; no unassigned district with a dominant type has an available specialised truck that can route it |
| RouteOptimization.RemainingSkip | route_optimization.py:175-179 | a district already assigned, or met when no truck is left, keeps the second-pass invariant |
| RouteOptimization.RemainingRejected | route_optimization.py:179-183 | a truck taken for a district it cannot route is used up and the second-pass invariant advances |
| RouteOptimization.RemainingAssigned | route_optimization.py:179-189 | a truck that routes the district is assigned and the second-pass invariant advances; with distinct trucks it serves no other district |
| RouteOptimization.StoreRemainingRoute | route_optimization.py:184 | only the truck's `route` field is written; every stored route is kept and no unassigned truck is touched |
| RouteOptimization.TakeRemainingTruck | route_optimization.py:183-189 | the assignment is recorded with the first remaining truck, which leaves the list; only its `route` field is written |
| RouteOptimization.OfferRemainingTruck | route_optimization.py:180-189 | the first remaining truck is used up either way; with a non-empty route the district gets `Assignment(available[0], route, distance)`, with an empty one nothing is assigned; the new state is the reference second pass one district further |
| RouteOptimization.PlanRemainingTruck | route_optimization.py:180-189 | the first remaining truck is used up, and the district gets it with its planned route exactly when that route is non-empty; the new state is the reference second pass one district further |
| RouteOptimization.AssignRemainingTruck | route_optimization.py:175-189 | one district of the second pass: an unassigned district, while trucks remain, uses up the first truck and gets it exactly when its planned route is non-empty; otherwise nothing changes; the new state is the reference second pass one district further |
| RouteOptimization.RemainingStep | route_optimization.py:175-189 | the reference effect of one district in the second pass: skip, or pop the first truck and assign it when its route is non-empty |
| RouteOptimization.SecondPassUpTo | route_optimization.py:174-189 | the reference second pass: the assignments and truck list after the first `k` districts, from the first pass's result |
| RouteOptimization.RemainingStepFromFront | route_optimization.py:175-189 | one step takes at most the first truck, keeps every assignment, and a new assignment uses that truck |
| RouteOptimization.SecondPassFromFrontStep | route_optimization.py:175-189 | each district of the second pass keeps `FromFront`: the trucks left are a suffix of the trucks it started with, earlier assignments are kept, and every new one uses a truck taken from the front |
| RouteOptimization.SecondPassFromFront | route_optimization.py:174-189 | `FromFront` holds after any number of districts of the reference second pass |
| RouteOptimization.AssignRemainingTrucks | route_optimization.py:174-189 | the result is the reference second pass over all districts; the first-pass assignments are kept, every assignment serves its district, and when trucks are left at the end every unassigned district was offered a truck that could not route it |
| RouteOptimization.SecondPassStart | route_optimization.py:172-175 | the state the first pass leaves is a valid start for the second pass |
| RouteOptimization.AssignInOrder | route_optimization.py:136-189 | for the district and truck orders it is given, the result is the reference first pass followed by the reference second pass, and the second-pass invariant holds at the end |
| RouteOptimization.AssignBothPasses | route_optimization.py:136-189 | the result is `PlanInOrder` for the given orders, evaluated before any route is written |
| RouteOptimization.SortAndAssign | route_optimization.py:103-191 | the districts are put in volume order and the trucks in capacity order, and the result and leftover trucks are `Plan`'s |
| RouteOptimization.PassesOutcome | route_optimization.py:103-191 | the invariants at the end of both passes give the result's guarantees over the caller's districts and trucks |
| RouteOptimization.AssignTrucksToDistricts | route_optimization.py:103-191 | the assignments and the leftover trucks are exactly `Plan`'s: both passes over districts by urgent volume and trucks by capacity. Every assignment uses a given truck and carries the planner's non-empty route for a district with that id; there are no more assignments than trucks; with trucks left over, every unassigned district was refused by some truck; with distinct trucks, no truck serves two districts and each assigned truck stores its route; unassigned trucks keep their routes |
| RouteOptimization.Plan | route_optimization.py:103-191 | the reference result of `assign_trucks_to_districts`: districts sorted by urgent volume, statistics per id, trucks sorted by capacity, then both passes |
| RouteOptimization.PlanInOrder | route_optimization.py:136-189 | the reference first pass followed by the reference second pass from its result |
| RouteOptimization.VolumeOrderCovers | route_optimization.py:107-131 | every district of the volume order is an input district whose id has statistics, and its bins are input bins |
| RouteOptimization.PlanUnused | route_optimization.py:103-191 | the leftover trucks are input trucks, each at most as often as given, in capacity order, and every assigned truck is an input truck |
| RouteOptimization.BothPassesKeepTrucks | route_optimization.py:136-189 | `TakenOut` after the first pass and `FromFront` after the second give `PlanUnused`'s facts |
| MapColoring.ColoringOrderSorted | map_coloring.py:30-34 | the colouring order rearranges the districts, those with more neighbours first, ties in input order |
| MapColoring.Palette | map_coloring.py:25-26 | the caller's colours, or red, green, blue and yellow when none are given |
| MapColoring.ColoringOrder | map_coloring.py:30-34 | the districts by number of neighbours; characterised by `ColoringOrderSorted` |
| MapColoring.ColorsOf | map_coloring.py:38-41 | the set of colours held by the given districts; bounded by `ColorsOfBound` |
| MapColoring.ColorsOfBound | map_coloring.py:38-41 | the neighbours of a district hold at most as many colours as there are neighbours |
| MapColoring.FirstFree | map_coloring.py:43-47 | the colour chosen is the first palette entry not held by a neighbour; when every entry is held, none is chosen |
| MapColoring.FreeColorExists | map_coloring.py:43-47 | a palette with more distinct colours than a district has neighbours always has a free colour |
| MapColoring.UncoloredProper | map_coloring.py:21-23 | a map with no colours is properly coloured |
| MapColoring.ColorDistrict | map_coloring.py:37-47 | the district takes the first colour free among its neighbours, or keeps its colour when none is free; in a symmetric map, a proper colouring stays proper |
| MapColoring.ColorNext | map_coloring.py:36-47 | one loop step keeps the colouring proper and gives out only palette colours |
| MapColoring.MapColoring | map_coloring.py:20-49 | the same list comes back; in a symmetric map, a proper colouring stays proper; every colour given out comes from the palette, the default one when none is passed; when the palette has more colours than any district has neighbours, every district ends up coloured |

## Left out

- `main.py` (data loading, printing and plotting) is not part of this model.
- The assignments are a `map<int, Assignment>`, which has no order. The Python dict keeps insertion order, which only `main.py` uses, for printing and plotting.
- `create_district_graph` and `visualize_districts` are not part of this model. `map_coloring` builds the graph but never uses it.
- `math.sqrt` is a parameter `sqrt: real -> real`. Lemmas that need a square root that is never negative say so.
- Floating point is modelled as exact `real` arithmetic. `float('inf')` is modelled as `None`.
- The empty-input result `([], 0)` is `([], Some(0.0))`.
- The search has no time budget, no cap on the number of bins, no nearest-neighbour fallback and no best-first child order, because the code has none.
- The search can hit a dead end: bins remain unvisited, none of them fits and the truck is below 90 %. A dead end records nothing, so `([], inf)` can come back even though a shorter, non-complete route exists. The model keeps this behaviour.
- The `"district"` entry of the per-district statistics is left out. Only the four volumes are used.
- Printing, plotting and the districts' `name` field play no part in planning.
- RouteOptimization.AssignTrucksToDistricts: no-double-use and stored routes are stated only for truck lists without repeated trucks. A truck listed twice can be assigned twice.
- MapColoring.MapColoring: properness is kept only for maps whose adjacency is symmetric. Each district's final colour is stated step by step on MapColoring.ColorDistrict rather than for the whole loop.
- Models.WasteBin.FillPercentage: requires a non-zero capacity, where Python raises `ZeroDivisionError`.
- A truck's `bin_type_specialty` is an `Option<string>`. The truck counts as specialised when the specialty is present and non-empty, which is Python's truthiness rule.
