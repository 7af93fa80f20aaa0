/**
 * Locating the road under a GPS fix on the map screen: one pass over the
 * catalog keeping the smallest point-to-line distance, the first road
 * winning ties, and a match accepted only within 20 metres.
 *
 * The point-to-line distance comes from a geodesy library; here it is the
 * parameter `dist`, any function from a point and a record to metres.
 */
module NearestRoad {
  import opened Wrappers
  import opened Geo
  import opened RoadCatalog

  /** A fix farther than this many metres from every road is on no road. */
  const MaxMatchDistance: real := 20.0
  const UnknownRoadName: string := "Unknown road"
  const DefaultSpeedLimit: real := 40.0

  /** The point-to-line distance in metres from a point to a record's line. */
  type Distance = (Position, Record) -> real

  /** The road reported for a fix: its name and its posted limit. */
  datatype Located = Located(name: string, speedLimit: real)

  /** The reported name and limit, with `?? "Unknown road"` and `?? 40` for missing fields. */
  function Describe(road: Record): (loc: Located)
    ensures NameOf(road).Some? ==> loc.name == NameOf(road).value
    ensures NameOf(road).None? ==> loc.name == UnknownRoadName
    ensures LimitOf(road).Some? ==> loc.speedLimit == LimitOf(road).value
    ensures LimitOf(road).None? ==> loc.speedLimit == DefaultSpeedLimit
  {
    Located(NameOf(road).GetOr(UnknownRoadName), LimitOf(road).GetOr(DefaultSpeedLimit))
  }

  /** Among the first `n` roads, road `k` is nearest to `p` and strictly nearer than every road before it. */
  ghost predicate IsFirstNearestAmong(roads: seq<Record>, p: Position, dist: Distance, k: int, n: int)
    requires 0 <= n <= |roads|
  {
    && 0 <= k < n
    && (forall j :: 0 <= j < n ==> dist(p, roads[k]) <= dist(p, roads[j]))
    && (forall j :: 0 <= j < k ==> dist(p, roads[k]) < dist(p, roads[j]))
  }

  /**
   * What locating `p` must report: nothing when every road is farther than
   * 20 m (in particular when the catalog is empty), and otherwise the first
   * road in catalog order among those at the least distance.
   */
  ghost predicate IsNearestResult(roads: seq<Record>, p: Position, dist: Distance, r: Option<Located>) {
    if forall i :: 0 <= i < |roads| ==> dist(p, roads[i]) > MaxMatchDistance then r == None
    else exists k :: IsFirstNearestAmong(roads, p, dist, k, |roads|) && r == Some(Describe(roads[k]))
  }

  /** An empty catalog locates no road. */
  lemma EmptyCatalogLocatesNothing(p: Position, dist: Distance, r: Option<Located>)
    requires IsNearestResult([], p, dist, r)
    ensures r == None
  {
  }

  /** `findNearestRoad(lat, lon)` */
  method FindNearestRoad(roads: seq<Record>, lat: real, lon: real, dist: Distance) returns (r: Option<Located>)
    ensures IsNearestResult(roads, Position(lon, lat), dist, r)
  {
    var p := Position(lon, lat);
    var nearest: Option<Record> := None;
    var min: Option<real> := None;  // None stands for the initial Infinity
    ghost var best := 0;
    for i := 0 to |roads|
      invariant nearest.None? <==> i == 0
      invariant min.None? <==> i == 0
      invariant i > 0 ==> IsFirstNearestAmong(roads, p, dist, best, i)
      invariant i > 0 ==> nearest == Some(roads[best]) && min == Some(dist(p, roads[best]))
    {
      var d := dist(p, roads[i]);
      if min.None? || d < min.value {
        min := Some(d);
        nearest := Some(roads[i]);
        best := i;
      }
    }
    if nearest.Some? && min.value <= MaxMatchDistance {
      r := Some(Describe(nearest.value));
      assert IsFirstNearestAmong(roads, p, dist, best, |roads|);
    } else {
      r := None;
    }
  }

  /** The result is determined: two results that both meet the specification are equal. */
  lemma NearestResultUnique(roads: seq<Record>, p: Position, dist: Distance, r1: Option<Located>, r2: Option<Located>)
    requires IsNearestResult(roads, p, dist, r1) && IsNearestResult(roads, p, dist, r2)
    ensures r1 == r2
  {
    if !forall i :: 0 <= i < |roads| ==> dist(p, roads[i]) > MaxMatchDistance {
      var k1 :| IsFirstNearestAmong(roads, p, dist, k1, |roads|) && r1 == Some(Describe(roads[k1]));
      var k2 :| IsFirstNearestAmong(roads, p, dist, k2, |roads|) && r2 == Some(Describe(roads[k2]));
      FirstNearestUnique(roads, p, dist, k1, k2);
    }
  }

  lemma FirstNearestUnique(roads: seq<Record>, p: Position, dist: Distance, k1: int, k2: int)
    requires IsFirstNearestAmong(roads, p, dist, k1, |roads|)
    requires IsFirstNearestAmong(roads, p, dist, k2, |roads|)
    ensures k1 == k2
  {
    // both are minimal, so they are equally near; being first forbids the other being earlier
    assert dist(p, roads[k1]) == dist(p, roads[k2]);
  }

  /**
   * A road that is within 20 m and strictly nearer than every other road
   * is the one reported, under its described name and limit.
   */
  lemma ClosestRoadReported(roads: seq<Record>, p: Position, dist: Distance, r: Option<Located>, k: int)
    requires IsNearestResult(roads, p, dist, r)
    requires 0 <= k < |roads| && dist(p, roads[k]) <= MaxMatchDistance
    requires forall j :: 0 <= j < |roads| && j != k ==> dist(p, roads[k]) < dist(p, roads[j])
    ensures r == Some(Describe(roads[k]))
  {
    assert IsFirstNearestAmong(roads, p, dist, k, |roads|);
    assert !forall i :: 0 <= i < |roads| ==> dist(p, roads[i]) > MaxMatchDistance;
    var k' :| IsFirstNearestAmong(roads, p, dist, k', |roads|) && r == Some(Describe(roads[k']));
    FirstNearestUnique(roads, p, dist, k, k');
  }

  /** Of two roads at the same least distance, within 20 m, the earlier one is reported. */
  lemma TieGoesToEarlierRoad(roads: seq<Record>, p: Position, dist: Distance, r: Option<Located>, i: int, j: int)
    requires IsNearestResult(roads, p, dist, r)
    requires 0 <= i < j < |roads| && dist(p, roads[i]) == dist(p, roads[j]) <= MaxMatchDistance
    requires forall m :: 0 <= m < |roads| && m != i && m != j ==> dist(p, roads[i]) < dist(p, roads[m])
    ensures r == Some(Describe(roads[i]))
  {
    assert IsFirstNearestAmong(roads, p, dist, i, |roads|);
    assert !forall m :: 0 <= m < |roads| ==> dist(p, roads[m]) > MaxMatchDistance;
    var k :| IsFirstNearestAmong(roads, p, dist, k, |roads|) && r == Some(Describe(roads[k]));
    FirstNearestUnique(roads, p, dist, i, k);
  }
}
