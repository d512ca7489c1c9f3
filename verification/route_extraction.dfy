/**
 * `extractShortestPath` of traveling_salesman.py: walk the solver's
 * successor chain from the route's start until an end index, collecting the
 * visited hubs and the distance of every leg between two visited hubs, then
 * append the last hub of the input and one more leg.
 *
 * The routing model and the solver's assignment are foreign objects; here
 * they are plain data: a start index and an `isEnd` test for the routing
 * model, a successor function for the assignment. Indices are hub indices.
 */
module RouteExtraction {
  import opened Wrappers
  import opened Hubs

  /** What the walk asks of the routing model: `Start(0)` and `IsEnd(index)`. */
  datatype Routing = Routing(start: int, isEnd: int -> bool)

  /** What the walk asks of a solution: `Value(NextVar(index))`. */
  datatype Assignment = Assignment(next: int -> int)

  /** The pair the source returns: the hubs in visiting order and the leg distances. */
  datatype ShortestPath = ShortestPath(hubOrder: seq<Hub>, distances: seq<real>)

  datatype Error = ValueError(message: string) | RuntimeError(message: string)

  const NoSolutionMessage := "No solution found for these hubs."

  // ---------------------------------------------------------------------------
  // The successor chain
  // ---------------------------------------------------------------------------

  /**
   * The indices visited from `index` up to, not including, the first end
   * index, provided at most `fuel` of them come before it.
   */
  function VisitedFrom(index: int, isEnd: int -> bool, next: int -> int, fuel: nat): Option<seq<int>>
    decreases fuel
  {
    if isEnd(index) then Some([])
    else if fuel == 0 then None
    else match VisitedFrom(next(index), isEnd, next, fuel - 1)
      case None => None
      case Some(rest) => Some([index] + rest)
  }

  /**
   * `p` is the chain node_0 = index, node_{k+1} = next(node_k), none of its
   * nodes an end index, and the successor of its last node (or `index`
   * itself when `p` is empty) an end index.
   */
  ghost predicate IsChain(index: int, isEnd: int -> bool, next: int -> int, p: seq<int>)
  {
    if p == [] then isEnd(index)
    else
      && p[0] == index
      && (forall k :: 0 <= k < |p| ==> !isEnd(p[k]))
      && (forall k :: 0 < k < |p| ==> p[k] == next(p[k - 1]))
      && isEnd(next(p[|p| - 1]))
  }

  /** The walk finds exactly the chain, and finds it when it is no longer than the fuel. */
  lemma {:induction false} VisitedFromIsChain(index: int, isEnd: int -> bool, next: int -> int, fuel: nat, p: seq<int>)
    ensures VisitedFrom(index, isEnd, next, fuel) == Some(p) <==> IsChain(index, isEnd, next, p) && |p| <= fuel
    decreases fuel
  {
    if isEnd(index) {
    } else if fuel == 0 {
    } else if p == [] {
      assert !IsChain(index, isEnd, next, p);
      assert VisitedFrom(index, isEnd, next, fuel) != Some(p);
    } else {
      VisitedFromIsChain(next(index), isEnd, next, fuel - 1, p[1..]);
      if IsChain(index, isEnd, next, p) {
        if |p| > 1 {
          assert p[1..][0] == next(index) by { assert p[1] == next(p[0]); }
          assert forall k :: 0 < k < |p[1..]| ==> p[1..][k] == next(p[1..][k - 1]) by {
            forall k | 0 < k < |p[1..]| ensures p[1..][k] == next(p[1..][k - 1]) {
              assert p[k + 1] == next(p[k]);
            }
          }
          assert IsChain(next(index), isEnd, next, p[1..]);
        } else {
          assert IsChain(next(index), isEnd, next, p[1..]);
        }
        assert p == [index] + p[1..];
      }
      if VisitedFrom(index, isEnd, next, fuel) == Some(p) {
        var rest := VisitedFrom(next(index), isEnd, next, fuel - 1).value;
        assert p == [index] + rest;
        assert p[1..] == rest;
        assert IsChain(next(index), isEnd, next, p[1..]);
        if |p| > 1 {
          assert forall k :: 0 < k < |p| ==> p[k] == next(p[k - 1]) by {
            forall k | 0 < k < |p| ensures p[k] == next(p[k - 1]) {
              if k > 1 { assert p[1..][k - 1] == next(p[1..][k - 2]); }
            }
          }
        }
        assert IsChain(index, isEnd, next, p);
      }
    }
  }

  /** One step of the walk: a non-end index is visited, then the walk goes on from its successor. */
  lemma WalkStep(index: int, isEnd: int -> bool, next: int -> int, fuel: nat, rest: seq<int>)
    requires VisitedFrom(index, isEnd, next, fuel) == Some(rest) && !isEnd(index)
    ensures fuel > 0 && |rest| > 0 && rest[0] == index
    ensures VisitedFrom(next(index), isEnd, next, fuel - 1) == Some(rest[1..])
  {
    var tail := VisitedFrom(next(index), isEnd, next, fuel - 1).value;
    assert rest == [index] + tail;
    assert rest[1..] == tail;
  }

  /** node_k: the index reached from `start` after `k` successor steps. */
  function Successor(next: int -> int, start: int, k: nat): int
  {
    if k == 0 then start else next(Successor(next, start, k - 1))
  }

  /** The k-th visited index is node_k. */
  lemma {:induction false} ChainFollowsSuccessors(index: int, isEnd: int -> bool, next: int -> int, p: seq<int>, k: nat)
    requires IsChain(index, isEnd, next, p)
    requires k < |p|
    ensures p[k] == Successor(next, index, k)
  {
    if k > 0 {
      ChainFollowsSuccessors(index, isEnd, next, p, k - 1);
    }
  }

  /** The walk's precondition: it ends within |hubs| steps on valid hub indices. */
  ghost predicate Visits(hubs: seq<Hub>, routing: Routing, a: Assignment)
  {
    match VisitedFrom(routing.start, routing.isEnd, a.next, |hubs|)
    case None => false
    case Some(p) => forall k :: 0 <= k < |p| ==> 0 <= p[k] < |hubs|
  }

  /** The indices the walk visits. */
  ghost function Path(hubs: seq<Hub>, routing: Routing, a: Assignment): (p: seq<int>)
    requires Visits(hubs, routing, a)
    ensures |p| <= |hubs|
    ensures forall k :: 0 <= k < |p| ==> 0 <= p[k] < |hubs|
  {
    var p := VisitedFrom(routing.start, routing.isEnd, a.next, |hubs|).value;
    VisitedFromIsChain(routing.start, routing.isEnd, a.next, |hubs|, p);
    p
  }

  // ---------------------------------------------------------------------------
  // What the walk collects
  // ---------------------------------------------------------------------------

  ghost predicate InRange(hubs: seq<Hub>, path: seq<int>)
  {
    forall k :: 0 <= k < |path| ==> 0 <= path[k] < |hubs|
  }

  /** `hubs[path[0]], hubs[path[1]], ...` */
  function HubsAlong(hubs: seq<Hub>, path: seq<int>): (r: seq<Hub>)
    requires InRange(hubs, path)
  {
    seq(|path|, k requires 0 <= k < |path| => hubs[path[k]])
  }

  /** One leg for each pair of consecutive indices of `path`. */
  function LegsAlong(dist: DistanceFn, hubs: seq<Hub>, path: seq<int>): (r: seq<real>)
    requires InRange(hubs, path)
  {
    if |path| == 0 then []
    else seq(|path| - 1, k requires 0 <= k < |path| - 1 => Leg(dist, hubs[path[k]], hubs[path[k + 1]]))
  }

  lemma HubsAlongSnoc(hubs: seq<Hub>, path: seq<int>, k: nat)
    requires InRange(hubs, path) && k < |path|
    ensures HubsAlong(hubs, path[..k + 1]) == HubsAlong(hubs, path[..k]) + [hubs[path[k]]]
  {
    assert InRange(hubs, path[..k + 1]) && InRange(hubs, path[..k]);
  }

  lemma LegsAlongSnoc(dist: DistanceFn, hubs: seq<Hub>, path: seq<int>, k: nat)
    requires InRange(hubs, path) && k < |path|
    ensures LegsAlong(dist, hubs, path[..k + 1]) ==
            LegsAlong(dist, hubs, path[..k]) + (if k == 0 then [] else [Leg(dist, hubs[path[k - 1]], hubs[path[k]])])
  {
    assert InRange(hubs, path[..k + 1]) && InRange(hubs, path[..k]);
  }

  /**
   * The source's result for a walk that visited `path`: the visited hubs,
   * then `hubs[len(hubs) - 1]`; the legs between visited hubs, then one leg
   * from `hubs[len(hubs) - 2]` to `hubs[len(hubs) - 1]` (Python indexing, so
   * with a single hub that leg runs from hub 0 to hub 0).
   */
  function ShortestPathOf(dist: DistanceFn, hubs: seq<Hub>, path: seq<int>): ShortestPath
    requires |hubs| >= 1 && InRange(hubs, path)
  {
    var last := |hubs| - 1;
    ShortestPath(HubsAlong(hubs, path) + [hubs[last]],
                 LegsAlong(dist, hubs, path) + [Leg(dist, At(hubs, last - 1), hubs[last])])
  }

  // ---------------------------------------------------------------------------
  // The walk
  // ---------------------------------------------------------------------------

  /**
   * The state of the walk after `k` steps along `path`: `index` is where the
   * walk goes on from, the lists hold the first `k` hubs and their legs, and
   * `previous` is the last visited index.
   */
  ghost predicate WalkState(dist: DistanceFn, hubs: seq<Hub>, isEnd: int -> bool, next: int -> int, path: seq<int>,
                            k: nat, index: int, hubOrder: seq<Hub>, distances: seq<real>, previous: Option<int>)
  {
    && |path| <= |hubs|
    && InRange(hubs, path)
    && k <= |path|
    && VisitedFrom(index, isEnd, next, |hubs| - k) == Some(path[k..])
    && hubOrder == HubsAlong(hubs, path[..k])
    && distances == LegsAlong(dist, hubs, path[..k])
    && previous == if k == 0 then None else Some(path[k - 1])
  }

  /** One iteration of the loop keeps the walk's state. */
  lemma WalkAdvance(dist: DistanceFn, hubs: seq<Hub>, isEnd: int -> bool, next: int -> int, path: seq<int>,
                    k: nat, index: int, hubOrder: seq<Hub>, distances: seq<real>, previous: Option<int>)
    requires WalkState(dist, hubs, isEnd, next, path, k, index, hubOrder, distances, previous)
    requires !isEnd(index)
    ensures k < |path| && path[k] == index && 0 <= index < |hubs|
    ensures previous.Some? ==> 0 <= previous.value < |hubs|
    ensures WalkState(dist, hubs, isEnd, next, path, k + 1, next(index),
                      hubOrder + [hubs[index]],
                      distances + (if previous.Some? then [Leg(dist, hubs[previous.value], hubs[index])] else []),
                      Some(index))
  {
    WalkStep(index, isEnd, next, |hubs| - k, path[k..]);
    assert path[k..][1..] == path[k + 1..];
    HubsAlongSnoc(hubs, path, k);
    LegsAlongSnoc(dist, hubs, path, k);
  }

  /** When the walk reaches an end index, it has visited the whole path. */
  lemma WalkDone(dist: DistanceFn, hubs: seq<Hub>, isEnd: int -> bool, next: int -> int, path: seq<int>,
                 k: nat, index: int, hubOrder: seq<Hub>, distances: seq<real>, previous: Option<int>)
    requires WalkState(dist, hubs, isEnd, next, path, k, index, hubOrder, distances, previous)
    requires isEnd(index)
    ensures hubOrder == HubsAlong(hubs, path) && distances == LegsAlong(dist, hubs, path)
  {
    assert path[..k] == path;
  }

  method ExtractShortestPath(hubs: seq<Hub>, dist: DistanceFn, routing: Routing, solution: Option<Assignment>)
    returns (r: Result<ShortestPath, Error>)
    requires |hubs| >= 1
    requires solution.Some? ==> Visits(hubs, routing, solution.value)
    ensures solution.None? ==> r == Failure(RuntimeError(NoSolutionMessage))
    ensures solution.Some? ==> r == Success(ShortestPathOf(dist, hubs, Path(hubs, routing, solution.value)))
  {
    if solution.None? {
      return Failure(RuntimeError(NoSolutionMessage));
    }
    var a := solution.value;
    ghost var path := Path(hubs, routing, a);
    ghost var k := 0;

    var hubOrder: seq<Hub> := [];
    var distances: seq<real> := [];
    var previous: Option<int> := None;
    var index := routing.start;
    while !routing.isEnd(index)
      invariant WalkState(dist, hubs, routing.isEnd, a.next, path, k, index, hubOrder, distances, previous)
      decreases |hubs| - k
    {
      WalkAdvance(dist, hubs, routing.isEnd, a.next, path, k, index, hubOrder, distances, previous);
      hubOrder := hubOrder + [hubs[index]];
      if previous.Some? {
        var fromHub := hubs[previous.value];
        var toHub := hubs[index];
        var distanceBetweenNodes := dist(fromHub.lat, fromHub.lon, toHub.lat, toHub.lon);
        distances := distances + [distanceBetweenNodes];
      }
      previous := Some(index);
      index := a.next(index);
      k := k + 1;
    }
    WalkDone(dist, hubs, routing.isEnd, a.next, path, k, index, hubOrder, distances, previous);

    var last := |hubs| - 1;
    hubOrder := hubOrder + [hubs[last]];
    var fromHub := At(hubs, last - 1);
    var toHub := hubs[last];
    var distanceBetweenNodes := dist(fromHub.lat, fromHub.lon, toHub.lat, toHub.lon);
    distances := distances + [distanceBetweenNodes];
    return Success(ShortestPath(hubOrder, distances));
  }

  // ---------------------------------------------------------------------------
  // Properties of the result
  // ---------------------------------------------------------------------------

  /**
   * Shape of the result: one hub per visited index and then the last hub of
   * the input; one leg fewer than hubs when the walk visited anything (one
   * hub and one leg when it did not); each loop leg joins two consecutive
   * visited hubs; the final leg runs from hubs[len - 2] to hubs[len - 1].
   */
  lemma ShortestPathShape(dist: DistanceFn, hubs: seq<Hub>, path: seq<int>)
    requires |hubs| >= 1 && InRange(hubs, path)
    ensures var r := ShortestPathOf(dist, hubs, path);
      && |r.hubOrder| == |path| + 1
      && (|path| > 0 ==> |r.distances| == |r.hubOrder| - 1)
      && (|path| == 0 ==> |r.distances| == |r.hubOrder| == 1)
      && (forall k :: 0 <= k < |path| ==> r.hubOrder[k] == hubs[path[k]])
      && r.hubOrder[|path|] == hubs[|hubs| - 1]
      && (forall k :: 0 <= k < |path| - 1 ==> r.distances[k] == Leg(dist, r.hubOrder[k], r.hubOrder[k + 1]))
      && r.distances[|r.distances| - 1] == Leg(dist, At(hubs, |hubs| - 2), hubs[|hubs| - 1])
  {
    var r := ShortestPathOf(dist, hubs, path);
    var visited := HubsAlong(hubs, path);
    var legs := LegsAlong(dist, hubs, path);
    assert r.hubOrder == visited + [hubs[|hubs| - 1]];
    assert r.distances == legs + [Leg(dist, At(hubs, |hubs| - 2), hubs[|hubs| - 1])];
    assert |legs| == if |path| == 0 then 0 else |path| - 1;
    forall k | 0 <= k < |path|
      ensures r.hubOrder[k] == hubs[path[k]]
    {
      assert r.hubOrder[k] == visited[k];
    }
    forall k | 0 <= k < |path| - 1
      ensures r.distances[k] == Leg(dist, r.hubOrder[k], r.hubOrder[k + 1])
    {
      assert r.distances[k] == legs[k];
      assert r.hubOrder[k] == visited[k] && r.hubOrder[k + 1] == visited[k + 1];
    }
  }

  /**
   * Visiting order: the k-th hub of the result is the hub of node_k, the
   * index reached from the start after k successor steps; none of those
   * nodes is an end index and the node after them is one.
   */
  lemma ExtractedVisitingOrder(dist: DistanceFn, hubs: seq<Hub>, routing: Routing, a: Assignment)
    requires |hubs| >= 1 && Visits(hubs, routing, a)
    ensures var path := Path(hubs, routing, a);
      && (forall k :: 0 <= k < |path| ==>
            && path[k] == Successor(a.next, routing.start, k)
            && !routing.isEnd(path[k])
            && ShortestPathOf(dist, hubs, path).hubOrder[k] == hubs[path[k]])
      && routing.isEnd(Successor(a.next, routing.start, |path|))
  {
    var path := Path(hubs, routing, a);
    VisitedFromIsChain(routing.start, routing.isEnd, a.next, |hubs|, path);
    forall k | 0 <= k < |path|
      ensures path[k] == Successor(a.next, routing.start, k)
    {
      ChainFollowsSuccessors(routing.start, routing.isEnd, a.next, path, k);
    }
    if |path| > 0 {
      assert Successor(a.next, routing.start, |path|) == a.next(path[|path| - 1]);
    }
  }

  /** The final leg is the leg from the last visited hub when that hub is hubs[len - 2]. */
  lemma FinalLegAgrees(dist: DistanceFn, hubs: seq<Hub>, path: seq<int>)
    requires |hubs| >= 2 && InRange(hubs, path)
    requires |path| > 0 && path[|path| - 1] == |hubs| - 2
    ensures var r := ShortestPathOf(dist, hubs, path);
      r.distances[|path| - 1] == Leg(dist, r.hubOrder[|path| - 1], r.hubOrder[|path|])
  {
    ShortestPathShape(dist, hubs, path);
    var r := ShortestPathOf(dist, hubs, path);
    assert At(hubs, |hubs| - 2) == hubs[|hubs| - 2] == r.hubOrder[|path| - 1];
  }

  /**
   * The evidently intended result: the visited hubs then the last hub, and
   * one leg between every two consecutive hubs of that list.
   */
  function IntendedShortestPathOf(dist: DistanceFn, hubs: seq<Hub>, path: seq<int>): ShortestPath
    requires |hubs| >= 1 && InRange(hubs, path)
  {
    var full := path + [|hubs| - 1];
    assert InRange(hubs, full);
    ShortestPath(HubsAlong(hubs, full), LegsAlong(dist, hubs, full))
  }

  /** Every leg along a path joins two consecutive hubs along it. */
  lemma LegsJoinConsecutiveHubs(dist: DistanceFn, hubs: seq<Hub>, p: seq<int>)
    requires InRange(hubs, p) && |p| > 0
    ensures |LegsAlong(dist, hubs, p)| == |HubsAlong(hubs, p)| - 1
    ensures forall k :: 0 <= k < |p| - 1 ==>
              LegsAlong(dist, hubs, p)[k] == Leg(dist, HubsAlong(hubs, p)[k], HubsAlong(hubs, p)[k + 1])
  {
    var visited := HubsAlong(hubs, p);
    var legs := LegsAlong(dist, hubs, p);
    assert |visited| == |p| && |legs| == |p| - 1;
    forall k | 0 <= k < |p| - 1
      ensures legs[k] == Leg(dist, visited[k], visited[k + 1])
    {
      assert legs[k] == Leg(dist, hubs[p[k]], hubs[p[k + 1]]);
      assert visited[k] == hubs[p[k]] && visited[k + 1] == hubs[p[k + 1]];
    }
  }

  /** Extending a path at its end keeps the legs already there. */
  lemma LegsAlongExtend(dist: DistanceFn, hubs: seq<Hub>, p: seq<int>, i: int)
    requires InRange(hubs, p + [i]) && |p| > 0
    ensures InRange(hubs, p)
    ensures LegsAlong(dist, hubs, p + [i])[..|p| - 1] == LegsAlong(dist, hubs, p)
  {
    assert InRange(hubs, p) by {
      forall k | 0 <= k < |p| ensures 0 <= p[k] < |hubs| {
        assert p[k] == (p + [i])[k];
      }
    }
    var full := p + [i];
    forall k | 0 <= k < |p| - 1
      ensures LegsAlong(dist, hubs, full)[k] == LegsAlong(dist, hubs, p)[k]
    {
      assert full[k] == p[k] && full[k + 1] == p[k + 1];
    }
  }

  /** Extending a path at its end appends the hub of the new index. */
  lemma HubsAlongExtend(hubs: seq<Hub>, p: seq<int>, i: int)
    requires InRange(hubs, p + [i])
    ensures InRange(hubs, p) && 0 <= i < |hubs|
    ensures HubsAlong(hubs, p + [i]) == HubsAlong(hubs, p) + [hubs[i]]
  {
    assert (p + [i])[|p|] == i;
    assert InRange(hubs, p) by {
      forall k | 0 <= k < |p| ensures 0 <= p[k] < |hubs| {
        assert p[k] == (p + [i])[k];
      }
    }
    HubsAlongSnoc(hubs, p + [i], |p|);
    assert (p + [i])[..|p|] == p && (p + [i])[..|p| + 1] == p + [i];
  }

  /**
   * The intended result reports the same hubs as the source, one leg fewer
   * than hubs, every leg between consecutive reported hubs, and differs from
   * the source's legs at most in the last one.
   */
  lemma IntendedLegsConsecutive(dist: DistanceFn, hubs: seq<Hub>, path: seq<int>)
    requires |hubs| >= 1 && InRange(hubs, path)
    ensures var r := IntendedShortestPathOf(dist, hubs, path);
      var w := ShortestPathOf(dist, hubs, path);
      && r.hubOrder == w.hubOrder
      && |r.distances| == |r.hubOrder| - 1
      && (forall k :: 0 <= k < |r.distances| ==> r.distances[k] == Leg(dist, r.hubOrder[k], r.hubOrder[k + 1]))
      && (|path| > 0 ==> r.distances[..|path| - 1] == w.distances[..|path| - 1])
  {
    var full := path + [|hubs| - 1];
    assert InRange(hubs, full);
    HubsAlongExtend(hubs, path, |hubs| - 1);
    LegsJoinConsecutiveHubs(dist, hubs, full);
    LegsAlongExtend(dist, hubs, full, |hubs| - 1);
    if |path| > 0 {
      LegsAlongExtend(dist, hubs, path, |hubs| - 1);
      var w := ShortestPathOf(dist, hubs, path);
      assert w.distances[..|path| - 1] == LegsAlong(dist, hubs, path);
    }
  }
}
