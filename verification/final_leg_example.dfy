/**
 * A concrete walk showing that the final leg reported by the route
 * extraction is not measured from the last visited hub.
 */
module FinalLegExample {
  import opened Wrappers
  import opened Hubs
  import opened RouteExtraction

  /** Miles along the first coordinate only: a simple non-negative distance for the example below. */
  function LineDistance(lat1: real, lon1: real, lat2: real, lon2: real): (d: real)
    ensures 0.0 <= d
  {
    if lat1 <= lat2 then lat2 - lat1 else lat1 - lat2
  }

  function ExampleNext(i: int): int
  {
    if i == 0 then 2 else if i == 2 then 1 else 3
  }

  function ExampleIsEnd(i: int): bool
  {
    i == 3
  }

  /**
   * The final leg does not come from the last visited hub. Four hubs on a
   * line at 0, 1, 2, 3 and the route 0, 2, 1 before the end 3: the result
   * lists hubs 0, 2, 1, 3 but its last leg is measured from hub 2 (1 mile),
   * not from hub 1 (2 miles).
   */
  lemma FinalLegMismatch()
    ensures var hubs := [Hub(0.0, 0.0), Hub(1.0, 0.0), Hub(2.0, 0.0), Hub(3.0, 0.0)];
      var routing := Routing(0, ExampleIsEnd);
      var a := Assignment(ExampleNext);
      && NonNegative(LineDistance)
      && Visits(hubs, routing, a)
      && Path(hubs, routing, a) == [0, 2, 1]
      && var r := ShortestPathOf(LineDistance, hubs, [0, 2, 1]);
      && r.hubOrder == [hubs[0], hubs[2], hubs[1], hubs[3]]
      && r.distances == [2.0, 1.0, 1.0]
      && Leg(LineDistance, r.hubOrder[2], r.hubOrder[3]) == 2.0
  {
    var hubs := [Hub(0.0, 0.0), Hub(1.0, 0.0), Hub(2.0, 0.0), Hub(3.0, 0.0)];
    assert ExampleIsEnd(3) && !ExampleIsEnd(1) && !ExampleIsEnd(2) && !ExampleIsEnd(0);
    assert ExampleNext(0) == 2 && ExampleNext(2) == 1 && ExampleNext(1) == 3;
    assert VisitedFrom(3, ExampleIsEnd, ExampleNext, 1) == Some([]);
    assert [1] + [] == [1] && [2] + [1] == [2, 1] && [0] + [2, 1] == [0, 2, 1];
    assert VisitedFrom(1, ExampleIsEnd, ExampleNext, 2) == Some([1]);
    assert VisitedFrom(2, ExampleIsEnd, ExampleNext, 3) == Some([2, 1]);
    assert VisitedFrom(0, ExampleIsEnd, ExampleNext, 4) == Some([0, 2, 1]);
    var r := ShortestPathOf(LineDistance, hubs, [0, 2, 1]);
    assert r.distances == [2.0, 1.0, 1.0];
  }
}
