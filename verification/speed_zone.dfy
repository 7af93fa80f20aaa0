/**
 * The earlier prototype screen: roads come from a bundled GeoJSON file, a
 * fix is matched to the first road, in file order, having a vertex within
 * 0.01 degrees (plain Euclidean distance on longitude and latitude), and
 * every name change and every fix above the limit sends a notification,
 * with no tolerance and no debounce.
 *
 * The square root of the distance is not taken: for a non-negative
 * distance, being below 0.01 is the same as its square being below 0.0001
 * (`BelowToleranceOnSquares`).
 */
module SpeedZone {
  import opened Wrappers
  import opened Geo

  const ToleranceDeg: real := 0.01

  /** A feature of the bundled file: its line and the `name` and `speed_limit` properties. */
  datatype ZoneFeature = ZoneFeature(line: seq<Position>, name: string, speedLimit: real)

  /** The road `getCurrentRoad` returns. */
  datatype Zone = Zone(name: string, speedLimit: real)

  /** The square of `getDistance`: the Euclidean distance in degrees. */
  function SquaredDistance(a: Position, b: Position): (d: real)
    ensures d >= 0.0
  {
    (a.lon - b.lon) * (a.lon - b.lon) + (a.lat - b.lat) * (a.lat - b.lat)
  }

  /** The distance does not depend on the order of its arguments. */
  lemma DistanceSymmetric(a: Position, b: Position)
    ensures SquaredDistance(a, b) == SquaredDistance(b, a)
  {
  }

  /** A point is at distance 0 from itself. */
  lemma DistanceToSelfZero(a: Position)
    ensures SquaredDistance(a, a) == 0.0
  {
  }

  lemma ProductPositive(x: real, y: real)
    requires x > 0.0 && y > 0.0
    ensures x * y > 0.0
  {
  }

  /** Squaring keeps the order of non-negative numbers. */
  lemma SquareMonotone(d: real, e: real)
    requires 0.0 <= d < e
    ensures d * d < e * e
  {
    ProductPositive(e - d, e + d);
    assert (e - d) * (e + d) == e * e - d * d;
  }

  /** For a distance `d >= 0`, `d < 0.01` holds exactly when `d * d < 0.0001`. */
  lemma BelowToleranceOnSquares(d: real)
    requires d >= 0.0
    ensures d < ToleranceDeg <==> d * d < ToleranceDeg * ToleranceDeg
  {
    if d < ToleranceDeg {
      SquareMonotone(d, ToleranceDeg);
    } else if d > ToleranceDeg {
      SquareMonotone(ToleranceDeg, d);
    }
  }

  /** `getDistance(coords, point) < 0.01` */
  predicate IsNear(coords: Position, point: Position) {
    SquaredDistance(coords, point) < ToleranceDeg * ToleranceDeg
  }

  /** Some vertex of the feature's line is near the fix. */
  predicate HasVertexNear(f: ZoneFeature, coords: Position) {
    exists j :: 0 <= j < |f.line| && IsNear(coords, f.line[j])
  }

  function ZoneOf(f: ZoneFeature): Zone {
    Zone(f.name, f.speedLimit)
  }

  /**
   * What `getCurrentRoad` must return: nothing when no feature has a vertex
   * near the fix, and otherwise the first feature in file order that has one.
   */
  ghost predicate IsCurrentRoadResult(features: seq<ZoneFeature>, coords: Position, r: Option<Zone>) {
    if forall i :: 0 <= i < |features| ==> !HasVertexNear(features[i], coords) then r == None
    else exists i ::
      (0 <= i < |features| && HasVertexNear(features[i], coords)
       && (forall k :: 0 <= k < i ==> !HasVertexNear(features[k], coords))
       && r == Some(ZoneOf(features[i])))
  }

  /** `getCurrentRoad(coords)`: the nested scan over features and their vertices. */
  method GetCurrentRoad(features: seq<ZoneFeature>, coords: Position) returns (r: Option<Zone>)
    ensures IsCurrentRoadResult(features, coords, r)
  {
    for i := 0 to |features|
      invariant forall k :: 0 <= k < i ==> !HasVertexNear(features[k], coords)
    {
      var line := features[i].line;
      for j := 0 to |line|
        invariant forall m :: 0 <= m < j ==> !IsNear(coords, line[m])
      {
        if SquaredDistance(coords, line[j]) < ToleranceDeg * ToleranceDeg {
          r := Some(ZoneOf(features[i]));
          assert HasVertexNear(features[i], coords);
          return;
        }
      }
    }
    r := None;
  }

  /** The result is determined: two results that both meet the specification are equal. */
  lemma CurrentRoadResultUnique(features: seq<ZoneFeature>, coords: Position, r1: Option<Zone>, r2: Option<Zone>)
    requires IsCurrentRoadResult(features, coords, r1) && IsCurrentRoadResult(features, coords, r2)
    ensures r1 == r2
  {
    if !forall i :: 0 <= i < |features| ==> !HasVertexNear(features[i], coords) {
      var i1 :| 0 <= i1 < |features| && HasVertexNear(features[i1], coords)
        && (forall k :: 0 <= k < i1 ==> !HasVertexNear(features[k], coords)) && r1 == Some(ZoneOf(features[i1]));
      var i2 :| 0 <= i2 < |features| && HasVertexNear(features[i2], coords)
        && (forall k :: 0 <= k < i2 ==> !HasVertexNear(features[k], coords)) && r2 == Some(ZoneOf(features[i2]));
      assert !(i1 < i2) && !(i2 < i1);
    }
  }

  /**
   * Only vertices are tested: a fix lying on a straight road halfway
   * between its two vertices, a whole degree apart, matches nothing.
   */
  lemma MidSegmentNotMatched(r: Option<Zone>)
    requires IsCurrentRoadResult([ZoneFeature([Position(0.0, 0.0), Position(1.0, 0.0)], "Long Road", 30.0)],
                                 Position(0.5, 0.0), r)
    ensures r == None
  {
    var f := ZoneFeature([Position(0.0, 0.0), Position(1.0, 0.0)], "Long Road", 30.0);
    var p := Position(0.5, 0.0);
    assert !IsNear(p, f.line[0]) && !IsNear(p, f.line[1]);
    assert !HasVertexNear(f, p);
  }

  /** What the prototype notifies. */
  datatype Notification = Entered(name: string, speedLimit: real) | SlowDown(name: string, speedLimit: real)

  datatype ZoneOutcome = ZoneOutcome(current: Option<Zone>, notes: seq<Notification>)

  /** `road.name !== currentRoad?.name`: with no current road the test always holds. */
  predicate IsNewRoad(current: Option<Zone>, road: Zone) {
    current.None? || current.value.name != road.name
  }

  /** The current road and the notifications after one fix on which `road` was found. */
  function ZoneNext(current: Option<Zone>, road: Option<Zone>, speedMps: Option<real>): (o: ZoneOutcome)
    ensures |o.notes| <= 2
    ensures o.current == current || o.current == road
    ensures current.Some? ==> o.current.Some?
    ensures road.None? ==> o.notes == []
  {
    if road.None? then ZoneOutcome(current, [])
    else
      var entered := IsNewRoad(current, road.value);
      ZoneOutcome(
        if entered then road else current,
        (if entered then [Entered(road.value.name, road.value.speedLimit)] else [])
        + (if Kmh(speedMps) > road.value.speedLimit then [SlowDown(road.value.name, road.value.speedLimit)] else []))
  }

  /**
   * The entry notification is sent exactly when a road is found under a
   * name different from the current one, and the current road is then
   * replaced by it; otherwise the current road stays.
   */
  lemma ZoneEntry(current: Option<Zone>, road: Option<Zone>, speedMps: Option<real>)
    ensures var o := ZoneNext(current, road, speedMps);
      (exists n :: n in o.notes && n.Entered?) <==> road.Some? && IsNewRoad(current, road.value)
    ensures var o := ZoneNext(current, road, speedMps);
      o.current == if road.Some? && IsNewRoad(current, road.value) then road else current
  {
    var o := ZoneNext(current, road, speedMps);
    if road.Some? && IsNewRoad(current, road.value) {
      assert o.notes[0] in o.notes;
    }
  }

  /**
   * The callback registered at mount always sees the first render's current
   * road, which is none, so every fix on which a road is found announces
   * that road again, even when it is the road already entered.
   */
  lemma StaleZoneReannounces(road: Zone, speedMps: Option<real>)
    ensures Entered(road.name, road.speedLimit) in ZoneNext(None, Some(road), speedMps).notes
    ensures Entered(road.name, road.speedLimit) !in ZoneNext(Some(road), Some(road), speedMps).notes
  {
    var o := ZoneNext(None, Some(road), speedMps);
    assert o.notes[0] == Entered(road.name, road.speedLimit);
  }

  /**
   * The overspeed notification is sent exactly when a road is found and the
   * speed is above its limit: no tolerance band and nothing remembered
   * between fixes.
   */
  lemma ZoneOverspeed(current: Option<Zone>, road: Option<Zone>, speedMps: Option<real>)
    ensures var o := ZoneNext(current, road, speedMps);
      (exists n :: n in o.notes && n.SlowDown?) <==> road.Some? && Kmh(speedMps) > road.value.speedLimit
  {
    var o := ZoneNext(current, road, speedMps);
    if road.Some? && Kmh(speedMps) > road.value.speedLimit {
      assert o.notes[|o.notes| - 1] in o.notes;
    }
  }

  /** One fix of a run: the road found for it and its speed. */
  datatype ZoneFix = ZoneFix(road: Option<Zone>, speedMps: Option<real>)

  /** The number of overspeed notifications a run of fixes sends. */
  function SlowDownCount(current: Option<Zone>, fixes: seq<ZoneFix>): nat
    decreases |fixes|
  {
    if fixes == [] then 0
    else
      var o := ZoneNext(current, fixes[0].road, fixes[0].speedMps);
      |set n | n in o.notes && n.SlowDown?| + SlowDownCount(o.current, fixes[1..])
  }

  /** With no debounce, a run that is over the limit on a found road at every fix is warned at every fix. */
  lemma {:induction false} WarnedAtEveryFix(current: Option<Zone>, fixes: seq<ZoneFix>)
    requires forall i :: 0 <= i < |fixes| ==> fixes[i].road.Some? && Kmh(fixes[i].speedMps) > fixes[i].road.value.speedLimit
    ensures SlowDownCount(current, fixes) == |fixes|
    decreases |fixes|
  {
    if fixes != [] {
      var f := fixes[0];
      var o := ZoneNext(current, f.road, f.speedMps);
      var warning := SlowDown(f.road.value.name, f.road.value.speedLimit);
      assert (set n | n in o.notes && n.SlowDown?) == {warning};
      WarnedAtEveryFix(o.current, fixes[1..]);
    }
  }

  /** The prototype's state: the road last entered, updated in place by the callback. */
  class ZoneTracker {
    var currentRoad: Option<Zone>

    constructor ()
      ensures currentRoad == None
    {
      currentRoad := None;
    }

    /** The `watchPositionAsync` callback for one fix. */
    method OnLocation(features: seq<ZoneFeature>, lon: real, lat: real, speedMps: Option<real>)
      returns (notes: seq<Notification>)
      modifies this
      ensures exists road ::
        (IsCurrentRoadResult(features, Position(lon, lat), road)
         && ZoneOutcome(currentRoad, notes) == ZoneNext(old(currentRoad), road, speedMps))
    {
      var userSpeed := Kmh(speedMps);
      var road := GetCurrentRoad(features, Position(lon, lat));
      notes := [];
      if road.Some? && IsNewRoad(currentRoad, road.value) {
        currentRoad := road;
        notes := notes + [Entered(road.value.name, road.value.speedLimit)];
      }
      if road.Some? && userSpeed > road.value.speedLimit {
        notes := notes + [SlowDown(road.value.name, road.value.speedLimit)];
      }
      assert ZoneOutcome(currentRoad, notes) == ZoneNext(old(currentRoad), road, speedMps);
    }
  }
}
