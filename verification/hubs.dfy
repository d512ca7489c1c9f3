/**
 * Hubs and the distance between two of them.
 *
 * A hub is a (latitude, longitude) pair; in traveling_salesman.py it is a
 * tuple whose component 0 is the latitude and component 1 the longitude.
 * The haversine formula itself (floating-point trigonometry) is not part of
 * this model: the distance function is a parameter of every operation that
 * uses it, and the one thing the model assumes of it is that it never
 * returns a negative value.
 */
module Hubs {

  datatype Hub = Hub(lat: real, lon: real)

  /** distance(lat1, long1, lat2, long2) in miles. */
  type DistanceFn = (real, real, real, real) -> real

  /** The haversine distance is `radius * c` with `c` an angle in [0, pi]. */
  ghost predicate NonNegative(dist: DistanceFn)
  {
    forall lat1, lon1, lat2, lon2 :: 0.0 <= dist(lat1, lon1, lat2, lon2)
  }

  /** `distance(from[0], from[1], to[0], to[1])`: latitude first, longitude second. */
  function Leg(dist: DistanceFn, from: Hub, to: Hub): real
  {
    dist(from.lat, from.lon, to.lat, to.lon)
  }

  /** Python list indexing, where a negative index counts from the end. */
  function At(hubs: seq<Hub>, i: int): Hub
    requires -|hubs| <= i < |hubs|
  {
    if i < 0 then hubs[|hubs| + i] else hubs[i]
  }
}
