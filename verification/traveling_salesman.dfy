/**
 * `computeShortestPath` of traveling_salesman.py: refuse an empty hub list,
 * build the distance callback for the routing solver, and extract the route
 * from the solver's answer.
 *
 * The routing model and its search belong to a foreign library; their
 * outcome (the routing model's start and end test, and the solution or its
 * absence) is a parameter here.
 */
module TravelingSalesman {
  import opened Wrappers
  import opened Hubs
  import opened DistanceMatrix
  import opened RouteExtraction

  const EmptyHubsMessage :=
    "There needs to be at least 1 point for TSP to work. Make sure to at least input the origin and destination."

  /**
   * On an empty hub list: ValueError, and no callback (no matrix) is built.
   * Otherwise: a fresh callback whose matrix is the distance matrix of the
   * hubs, and the extraction's result for the solver's answer.
   *
   * The routing model is created with start location 0 and end location
   * len(hubs) - 1, so its start index is hub 0, the origin: a route that
   * visits anything reports the origin first.
   */
  method ComputeShortestPath(hubs: seq<Hub>, dist: DistanceFn, routing: Routing, solution: Option<Assignment>)
    returns (r: Result<ShortestPath, Error>, callback: DistanceCallback?)
    requires NonNegative(dist)
    requires |hubs| > 0 ==> routing.start == 0
    requires |hubs| > 0 && solution.Some? ==> Visits(hubs, routing, solution.value)
    ensures |hubs| == 0 <==> r == Failure(ValueError(EmptyHubsMessage))
    ensures |hubs| == 0 <==> callback == null
    ensures callback != null ==> fresh(callback) && callback.Valid() && callback.hubs == hubs && callback.dist == dist
    ensures |hubs| > 0 && solution.None? ==> r == Failure(RuntimeError(NoSolutionMessage))
    ensures |hubs| > 0 && solution.Some? ==>
              r == Success(ShortestPathOf(dist, hubs, Path(hubs, routing, solution.value)))
    ensures |hubs| > 0 && solution.Some? && |Path(hubs, routing, solution.value)| > 0 ==>
              r.value.hubOrder[0] == hubs[0]
  {
    var tspSize := |hubs|;
    if tspSize <= 0 {
      return Failure(ValueError(EmptyHubsMessage)), null;
    }
    callback := new DistanceCallback(hubs, dist);
    r := ExtractShortestPath(hubs, dist, routing, solution);
    if solution.Some? {
      ExtractedVisitingOrder(dist, hubs, routing, solution.value);
    }
  }
}
