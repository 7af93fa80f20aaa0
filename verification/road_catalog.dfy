/**
 * The road records the map screen loads, the load-time filter and the
 * colour each road is drawn in.
 *
 * A record is a GeoJSON feature read from the document store: its
 * `geometry` and its `properties` block may each be missing, and inside the
 * properties `name` and `speed_limit` may be missing too.
 */
module RoadCatalog {
  import opened Wrappers
  import opened Geo

  datatype Properties = Properties(name: Option<string>, speedLimit: Option<real>)

  datatype Record = Record(geometry: Option<seq<Position>>, properties: Option<Properties>)

  /** `r.properties?.name` */
  function NameOf(r: Record): Option<string> {
    if r.properties.Some? then r.properties.value.name else None
  }

  /** `r.properties?.speed_limit` */
  function LimitOf(r: Record): Option<real> {
    if r.properties.Some? then r.properties.value.speedLimit else None
  }

  /** The load filter's test `r.geometry && r.properties`. */
  predicate IsRoad(r: Record) {
    r.geometry.Some? && r.properties.Some?
  }

  /** The records kept at load: those with both a geometry and a properties block. */
  function FilterRoads(records: seq<Record>): (roads: seq<Record>)
    ensures |roads| <= |records|
    ensures forall r :: r in roads <==> r in records && IsRoad(r)
  {
    if records == [] then []
    else
      assert records == [records[0]] + records[1..];
      (if IsRoad(records[0]) then [records[0]] else []) + FilterRoads(records[1..])
  }

  /** The filter works record by record, so it keeps catalog order. */
  lemma {:induction false} FilterRoadsAppend(a: seq<Record>, b: seq<Record>)
    ensures FilterRoads(a + b) == FilterRoads(a) + FilterRoads(b)
  {
    if a != [] {
      assert (a + b)[0] == a[0];
      assert (a + b)[1..] == a[1..] + b;
      FilterRoadsAppend(a[1..], b);
      var head := if IsRoad(a[0]) then [a[0]] else [];
      calc {
        FilterRoads(a + b);
        head + FilterRoads(a[1..] + b);
        head + (FilterRoads(a[1..]) + FilterRoads(b));
        (head + FilterRoads(a[1..])) + FilterRoads(b);
      }
    } else {
      assert a + b == b;
    }
  }

  /** A catalog of complete records passes the filter unchanged, so filtering twice is filtering once. */
  lemma {:induction false} FilterRoadsKeepsComplete(records: seq<Record>)
    requires forall i :: 0 <= i < |records| ==> IsRoad(records[i])
    ensures FilterRoads(records) == records
  {
    if records != [] {
      FilterRoadsKeepsComplete(records[1..]);
    }
  }

  lemma FilterRoadsIdempotent(records: seq<Record>)
    ensures FilterRoads(FilterRoads(records)) == FilterRoads(records)
  {
    var roads := FilterRoads(records);
    forall i | 0 <= i < |roads| ensures IsRoad(roads[i]) {
      assert roads[i] in roads;
    }
    FilterRoadsKeepsComplete(roads);
  }

  /** The stroke colours of the legend. */
  datatype Colour = Grey | Yellow | Orange | Red | Green {
    function Hex(): string {
      match this
      case Grey => "#808080"
      case Yellow => "#FFFF00"
      case Orange => "#FFA500"
      case Red => "#FF0000"
      case Green => "#008000"
    }

    /** Position in the legend, slowest band first; grey is not in the legend. */
    function Rank(): nat {
      match this
      case Grey => 0
      case Yellow => 1
      case Orange => 2
      case Red => 3
      case Green => 4
    }
  }

  /** A limit is falsy (`!limit`) when it is missing or zero. */
  predicate IsKnownLimit(limit: Option<real>) {
    limit.Some? && limit.value != 0.0
  }

  /** The colour a road is stroked in, by its speed limit. */
  function ColourForSpeed(limit: Option<real>): (c: Colour)
    ensures c == Grey <==> !IsKnownLimit(limit)
    ensures c == Yellow <==> IsKnownLimit(limit) && limit.value <= 20.0
    ensures c == Orange <==> IsKnownLimit(limit) && 20.0 < limit.value <= 30.0
    ensures c == Red <==> IsKnownLimit(limit) && 30.0 < limit.value <= 40.0
    ensures c == Green <==> IsKnownLimit(limit) && 40.0 < limit.value
  {
    if !IsKnownLimit(limit) then Grey
    else if limit.value <= 20.0 then Yellow
    else if limit.value <= 30.0 then Orange
    else if limit.value <= 40.0 then Red
    else Green
  }

  /** A faster posted limit never gets a slower legend band. */
  lemma ColourMonotone(a: real, b: real)
    requires 0.0 < a <= b
    ensures ColourForSpeed(Some(a)).Rank() <= ColourForSpeed(Some(b)).Rank()
  {
  }

  /** The legend's four entries (20, 30, 40 and 50+ km/h) agree with the classifier. */
  lemma LegendAgrees(fast: real)
    requires fast >= 50.0
    ensures ColourForSpeed(Some(20.0)).Hex() == "#FFFF00"
    ensures ColourForSpeed(Some(30.0)).Hex() == "#FFA500"
    ensures ColourForSpeed(Some(40.0)).Hex() == "#FF0000"
    ensures ColourForSpeed(Some(fast)).Hex() == "#008000"
  {
  }

  /** The polyline drawn for a record: its GeoJSON path with each pair swapped. */
  function DrawnPath(road: Record): (path: seq<LatLng>)
    requires road.geometry.Some?
    ensures ToPositionPath(path) == road.geometry.value
  {
    PathRoundTrip(road.geometry.value);
    ToLatLngPath(road.geometry.value)
  }
}
