/**
 * Coordinates and units shared by both screens.
 *
 * GeoJSON stores a position as `[longitude, latitude]`; the map widget wants
 * `{ latitude, longitude }`. The location service reports speed in metres per
 * second, possibly `null`.
 */
module Geo {
  import opened Wrappers

  /** A GeoJSON position, longitude first, in degrees. */
  datatype Position = Position(lon: real, lat: real)

  /** The map widget's coordinate object. */
  datatype LatLng = LatLng(latitude: real, longitude: real)

  /** Metres per second to kilometres per hour. */
  const KmhPerMps: real := 3.6

  /** `[lon, lat]` destructured into `{ latitude: lat, longitude: lon }`. */
  function ToLatLng(p: Position): LatLng {
    LatLng(p.lat, p.lon)
  }

  /** The inverse direction, back to GeoJSON order. */
  function ToPosition(c: LatLng): Position {
    Position(c.longitude, c.latitude)
  }

  /** The whole polyline converted point by point (an array `map`). */
  function ToLatLngPath(path: seq<Position>): (r: seq<LatLng>)
    ensures |r| == |path|
    ensures forall i :: 0 <= i < |path| ==> r[i].latitude == path[i].lat && r[i].longitude == path[i].lon
  {
    if path == [] then [] else [ToLatLng(path[0])] + ToLatLngPath(path[1..])
  }

  function ToPositionPath(path: seq<LatLng>): (r: seq<Position>)
    ensures |r| == |path|
  {
    if path == [] then [] else [ToPosition(path[0])] + ToPositionPath(path[1..])
  }

  /** Swapping the pair loses nothing: converting back restores the GeoJSON path. */
  lemma {:induction false} PathRoundTrip(path: seq<Position>)
    ensures ToPositionPath(ToLatLngPath(path)) == path
  {
    if path != [] {
      PathRoundTrip(path[1..]);
    }
  }

  /** Converting a concatenation converts each part, so order is kept. */
  lemma {:induction false} ToLatLngPathAppend(a: seq<Position>, b: seq<Position>)
    ensures ToLatLngPath(a + b) == ToLatLngPath(a) + ToLatLngPath(b)
  {
    if a != [] {
      assert (a + b)[1..] == a[1..] + b;
      ToLatLngPathAppend(a[1..], b);
    }
  }

  /** `(speed ?? 0) * 3.6`; in JavaScript `null * 3.6` is also 0. */
  function Kmh(speedMps: Option<real>): (kmh: real)
    ensures speedMps.None? ==> kmh == 0.0
    ensures speedMps.Some? ==> kmh == speedMps.value * KmhPerMps
    ensures speedMps.Some? && speedMps.value >= 0.0 ==> kmh >= speedMps.value
  {
    speedMps.GetOr(0.0) * KmhPerMps
  }

  /** The conversion keeps the order of speeds. */
  lemma KmhMonotone(v1: real, v2: real)
    requires v1 <= v2
    ensures Kmh(Some(v1)) <= Kmh(Some(v2))
  {
  }
}
