# Traveling-salesman route extraction, modelled in Dafny

This project models the sequential logic of `traveling_salesman.py`, a script
that orders a package's delivery hubs (origin, drone hubs or warehouses,
destination) into the shortest route. It does the search by handing a distance
callback to an external routing solver, then reads the route back. The model
covers the three parts that do not depend on that solver:

- **The distance callback** (`DistanceMatrix.DistanceCallback`). When it is
  created, it fills a dictionary of dictionaries with one row per hub and one
  cell per hub in each row. A diagonal cell holds 0. Any other cell holds the
  distance between the two hubs, with component 0 of a hub as its latitude and
  component 1 as its longitude. Its `Distance` accessor gives the solver the
  stored miles, truncated toward zero (Python's `int()`).
- **The size guard** of `computeShortestPath` (`TravelingSalesman.ComputeShortestPath`).
  An empty hub list raises `ValueError` before any matrix is built.
- **The route walk** of `extractShortestPath` (`RouteExtraction.ExtractShortestPath`).
  A missing solution raises `RuntimeError`. Otherwise the walk starts at the
  route's start index and follows successors until it reaches an end index. At
  each step it appends the hub it visits, plus one leg distance for every hub
  after the first. After the loop it always appends the last hub of the input,
  and one more leg from `hubs[len - 2]` to `hubs[len - 1]`.

The haversine distance is a parameter of type `Hubs.DistanceFn`. The model
assumes only that it is never negative (`Hubs.NonNegative`). The routing model
and the solver's answer are also parameters:

- `Routing(start, isEnd)` stands for `routing.Start(0)` and `routing.IsEnd`.
- `Option<Assignment(next)>` stands for the solution, or its absence, and
  `shortest_path.Value(routing.NextVar(i))`.

Indices are hub indices, as the source uses them. The walk's precondition
`Visits` says that the successor chain reaches an end index within `|hubs|`
steps, and that it visits only valid hub indices. The solver's routes satisfy
this; without it, the source's loop may not end, or it may index outside `hubs`.

Three details of the source that the model keeps as they are:

- The matrix stores the untruncated distance. `Distance` truncates it when the
  solver reads a cell (traveling_salesman.py:56, 59).
- The last reported leg is measured from `hubs[len - 2]`, not from the last
  visited hub (traveling_salesman.py:125-128; see Findings).
- An empty hub list raises Python's `ValueError` with the source's message
  (traveling_salesman.py:74-75).

## Model

| member | source | states |
|---|---|---|
| DistanceMatrix.Trunc | traveling_salesman.py:59 | `int()` truncates toward zero. For x >= 0 the result r satisfies 0 <= r <= x < r + 1. For x < 0 it satisfies r - 1 < x <= r <= 0. |
| DistanceMatrix.DistanceCallback.constructor | traveling_salesman.py:34-56 | The nested loops leave exactly rows 0..n-1, each with exactly columns 0..n-1. Diagonal cells are 0 and cell (i, j) is `distance(hubs[i][0], hubs[i][1], hubs[j][0], hubs[j][1])`. The stored hubs are the given ones. |
| DistanceMatrix.DistanceCallback.Distance | traveling_salesman.py:58-59 | The arc cost is never negative and is 0 on the diagonal. Off the diagonal it is the distance truncated: r <= distance < r + 1. |
| DistanceMatrix.DistanceMatrixUnique | traveling_salesman.py:46-56 | Shape, diagonal and cell contents determine the matrix completely. Any two matrices that meet them are equal. |
| DistanceMatrix.DistanceMatrixSymmetric | traveling_salesman.py:46-56 | If the distance function is symmetric in its two points, then the matrix is symmetric. |
| RouteExtraction.VisitedFromIsChain | traveling_salesman.py:105-120 | The walk returns p exactly when p is the successor chain from the start. That chain has node_0 = start and node_{k+1} = next(node_k), no end index among its nodes, and an end index after it. The walk also needs at most its fuel in steps. Both directions are proved. |
| RouteExtraction.ChainFollowsSuccessors | traveling_salesman.py:105-120 | The k-th index of a chain is the start after k successor steps. |
| RouteExtraction.ExtractShortestPath | traveling_salesman.py:92-132 | A missing solution gives `RuntimeError` and no lists. Otherwise the loop appends the visited hubs and the legs between them, then the last hub and the leg from `hubs[len-2]`. |
| RouteExtraction.ShortestPathShape | traveling_salesman.py:107-128 | `hub_order` has one more entry than the walk visited, and its last entry is `hubs[len-1]`. There is one leg fewer than hubs if the walk visited anything, else one hub and one leg. Each loop leg joins consecutive visited hubs. The final leg runs from `hubs[len-2]` to `hubs[len-1]`. |
| RouteExtraction.ExtractedVisitingOrder | traveling_salesman.py:105-120 | Entry k of `hub_order` is the hub of the start after k successor steps, and that index is not an end index. The index after the last visited one is an end index. |
| RouteExtraction.FinalLegAgrees | traveling_salesman.py:122-128 | If the last visited index is len-2, then the final leg joins the last two reported hubs. |
| FinalLegExample.FinalLegMismatch | traveling_salesman.py:125-128 | Take four hubs on a line and the route 0, 2, 1. The reported final leg (1 mile) differs from the leg between the last two reported hubs (2 miles). |
| RouteExtraction.IntendedLegsConsecutive | traveling_salesman.py:122-128 | The corrected result reports the same hubs. It has one leg fewer than hubs, and every leg joins two consecutive reported hubs. It differs from the source's legs only in the last one. |
| TravelingSalesman.ComputeShortestPath | traveling_salesman.py:63-90 | An empty hub list gives `ValueError`, and then no callback or matrix is built. Otherwise a fresh, valid callback is built over the hubs, and the result is the extraction's. The route starts at hub 0 (start location `[0]`), so when the walk visits anything, the first reported hub is `hubs[0]`. |

## Findings

| source | as written | input that shows it | evidently intended | confidence | as-written member | corrected member |
|---|---|---|---|---|---|---|
| traveling_salesman.py:125-128 | The final leg is `distance(hubs[len-2], hubs[len-1])`, whatever hub the walk visited last. | Hubs at latitudes 0, 1, 2 and 3 with distance \|lat1 - lat2\|, route 0, 2, 1, then end 3. `hub_order` is hubs 0, 2, 1, 3 and the legs are 2, 1, 1, but hub 1 to hub 3 is 2 miles. | The final leg runs from the last visited hub (`previous_index`) to `hubs[len-1]`, so every leg joins consecutive reported hubs. | not executed | FinalLegExample.FinalLegMismatch | RouteExtraction.IntendedLegsConsecutive |

`ExtractShortestPath` and `ComputeShortestPath` keep the behaviour as written,
because that is what callers of the source receive.
`RouteExtraction.IntendedShortestPathOf` is the corrected result.
`IntendedLegsConsecutive` relates it to the as-written one.

## Left out

- The haversine formula (`distance`, `haversine`, traveling_salesman.py:6-28) is floating-point trigonometry. It is a parameter that is assumed non-negative, and reals stand in for floats.
- The routing model and its search (traveling_salesman.py:61-62, 78-89) belong to a foreign library. Their outcome is a parameter, so no route is checked for optimality, and the callback is built but is not connected to the search.
- The routing library's conversion between variable indices and node indices is not modelled. The source does not call it either; it uses variable indices as hub indices.
- Loading `hubs.json` and printing the result (traveling_salesman.py:134-143) are file and console I/O.
- DistanceMatrix.DistanceCallback.Distance: requires indices inside the matrix. The source raises `KeyError` for any other index, and only the solver calls it.
- RouteExtraction.ExtractShortestPath: requires that the solver's chain ends within `|hubs|` steps and visits only indices in 0..len-1. It does not model a non-terminating walk, the `IndexError` on an index of len or more, or the wrap-around Python applies to an index in -len..-1.
- RouteExtraction.ExtractShortestPath: takes the hub list as a parameter. The source reads the module-level global `hubs` (traveling_salesman.py:110, 114, 123-126, bound at 138), not the list given to `computeShortestPath`. The model passes `ComputeShortestPath`'s own list, which is the same list at the only call site (traveling_salesman.py:143).
- TravelingSalesman.ComputeShortestPath: the end location `[len(hubs) - 1]` (traveling_salesman.py:72) is not tied to `routing.isEnd`, because the routing library's end index need not be a hub index. Only the start location `[0]` is modelled, as `routing.start == 0`.
- The closed-loop script `ADC Traveling Salesman Problem.py` is not part of this model. It is a copy of the same code without the fixed end and without the final-hub step.
