/**
 * The map screen's per-fix alert step: on each location update it converts
 * the speed, locates the road, announces a road entry when the located
 * road's name differs from the current one, and warns of overspeeding when
 * the stored limit is set, the speed is more than 3 km/h above it and more
 * than 8000 ms have passed since the last warning.
 *
 * The overspeed test reads the limit held when the fix arrived, before this
 * fix's own entry update: the callback sees the `speedLimit` of the render
 * that registered it, and the state setter does not change that value.
 */
module SpeedAlerts {
  import opened Wrappers
  import opened Geo
  import opened RoadCatalog
  import opened NearestRoad

  const SpeedToleranceKmh: real := 3.0
  const SpeechDebounceMs: int := 8000

  /** What is spoken: a road entry with its limit, or an overspeed warning with the limit. */
  datatype Alert = Entering(name: string, speedLimit: real) | Overspeeding(speedLimit: real)

  /** The screen's tracking state; times are milliseconds since the epoch. */
  datatype Tracking = Tracking(currentRoad: Option<string>, speedLimit: real, lastSpeech: int, userSpeed: real)

  /** The state when the screen mounts: no road, limit 0, no warning spoken yet. */
  const Initial: Tracking := Tracking(None, 0.0, 0, 0.0)

  /** `speed_limit || 40`: a zero limit is replaced by 40 as well as a missing one. */
  function LimitOrDefault(limit: real): (l: real)
    ensures l != 0.0
    ensures limit != 0.0 ==> l == limit
    ensures limit == 0.0 ==> l == DefaultSpeedLimit
  {
    if limit != 0.0 then limit else DefaultSpeedLimit
  }

  /** A road is located and its name is not the current road's. */
  predicate EntersRoad(s: Tracking, nearest: Option<Located>) {
    nearest.Some? && s.currentRoad != Some(nearest.value.name)
  }

  /** The stored limit is set, the speed exceeds it by more than 3 km/h, and the last warning is more than 8 s old. */
  predicate OverspeedDue(s: Tracking, kmh: real, now: int) {
    s.speedLimit != 0.0 && kmh > s.speedLimit + SpeedToleranceKmh && now - s.lastSpeech > SpeechDebounceMs
  }

  datatype Outcome = Outcome(state: Tracking, alerts: seq<Alert>)

  /** The state after one fix and the alerts it speaks, in order. */
  function Next(s: Tracking, nearest: Option<Located>, speedMps: Option<real>, now: int): (o: Outcome)
    ensures |o.alerts| <= 2
    ensures o.state.lastSpeech >= s.lastSpeech
    ensures s.speedLimit != 0.0 ==> o.state.speedLimit != 0.0
    ensures s.currentRoad.Some? ==> o.state.currentRoad.Some?
  {
    var kmh := Kmh(speedMps);
    var entry := if EntersRoad(s, nearest)
      then [Entering(nearest.value.name, LimitOrDefault(nearest.value.speedLimit))] else [];
    var warning := if OverspeedDue(s, kmh, now) then [Overspeeding(s.speedLimit)] else [];
    var s1 := if EntersRoad(s, nearest)
      then s.(currentRoad := Some(nearest.value.name), speedLimit := LimitOrDefault(nearest.value.speedLimit))
      else s;
    Outcome(s1.(userSpeed := kmh, lastSpeech := if OverspeedDue(s, kmh, now) then now else s.lastSpeech),
            entry + warning)
  }

  /**
   * A road-entry alert is spoken exactly when a road is located under a
   * different name, and it is the first alert; the current road and the
   * limit then change together, the limit never to 0.
   */
  lemma EntryAlert(s: Tracking, nearest: Option<Located>, speedMps: Option<real>, now: int)
    ensures var o := Next(s, nearest, speedMps, now);
      (exists a :: a in o.alerts && a.Entering?) <==> EntersRoad(s, nearest)
    ensures var o := Next(s, nearest, speedMps, now);
      EntersRoad(s, nearest) ==>
        && o.alerts[0] == Entering(nearest.value.name, LimitOrDefault(nearest.value.speedLimit))
        && o.state.currentRoad == Some(nearest.value.name)
        && o.state.speedLimit == LimitOrDefault(nearest.value.speedLimit)
        && o.state.speedLimit != 0.0
    ensures var o := Next(s, nearest, speedMps, now);
      !EntersRoad(s, nearest) ==> o.state.currentRoad == s.currentRoad && o.state.speedLimit == s.speedLimit
  {
    var o := Next(s, nearest, speedMps, now);
    if EntersRoad(s, nearest) {
      assert o.alerts[0] in o.alerts;
    } else {
      assert forall a :: a in o.alerts ==> a.Overspeeding?;
    }
  }

  /**
   * An overspeed warning is spoken exactly when the limit held before the
   * fix is set, the speed is above it plus 3 km/h and more than 8000 ms
   * have passed; it names that limit, and its time becomes the last warning time.
   */
  lemma OverspeedAlert(s: Tracking, nearest: Option<Located>, speedMps: Option<real>, now: int)
    ensures var o := Next(s, nearest, speedMps, now);
      (exists a :: a in o.alerts && a.Overspeeding?) <==>
        s.speedLimit != 0.0 && Kmh(speedMps) > s.speedLimit + 3.0 && now - s.lastSpeech > 8000
    ensures var o := Next(s, nearest, speedMps, now);
      Overspeeding(s.speedLimit) in o.alerts <==> OverspeedDue(s, Kmh(speedMps), now)
    ensures var o := Next(s, nearest, speedMps, now);
      o.state.lastSpeech == if OverspeedDue(s, Kmh(speedMps), now) then now else s.lastSpeech
    ensures Next(s, nearest, speedMps, now).state.userSpeed == Kmh(speedMps)
  {
    var o := Next(s, nearest, speedMps, now);
    if OverspeedDue(s, Kmh(speedMps), now) {
      assert o.alerts[|o.alerts| - 1] == Overspeeding(s.speedLimit);
    } else {
      assert forall a :: a in o.alerts ==> a.Entering?;
    }
  }

  /** A faster fix never escapes a warning that a slower fix in the same state gets. */
  lemma FasterNeverEscapesWarning(s: Tracking, v1: real, v2: real, now: int)
    requires v1 <= v2
    requires OverspeedDue(s, Kmh(Some(v1)), now)
    ensures OverspeedDue(s, Kmh(Some(v2)), now)
  {
    KmhMonotone(v1, v2);
  }

  /** At most two alerts per fix, the entry before the warning. */
  lemma AlertOrder(s: Tracking, nearest: Option<Located>, speedMps: Option<real>, now: int)
    ensures var o := Next(s, nearest, speedMps, now);
      |o.alerts| <= 2 && (|o.alerts| == 2 ==> o.alerts[0].Entering? && o.alerts[1].Overspeeding?)
  {
  }

  /** The stored limit is 0 exactly while no road has been entered. */
  ghost predicate Consistent(s: Tracking) {
    s.currentRoad.None? <==> s.speedLimit == 0.0
  }

  lemma InitialConsistent()
    ensures Consistent(Initial)
  {
  }

  lemma NextKeepsConsistent(s: Tracking, nearest: Option<Located>, speedMps: Option<real>, now: int)
    requires Consistent(s)
    ensures Consistent(Next(s, nearest, speedMps, now).state)
  {
  }

  /**
   * Because the warning reads the limit from before the fix, the fix that
   * first enters a road never warns, however fast the user is going.
   */
  lemma FirstEntryNeverWarns(s: Tracking, nearest: Option<Located>, speedMps: Option<real>, now: int)
    requires Consistent(s) && s.currentRoad.None?
    ensures forall a :: a in Next(s, nearest, speedMps, now).alerts ==> a.Entering?
  {
  }

  /** One fix of a run: the road located for it, its speed and its time. */
  datatype Fix = Fix(nearest: Option<Located>, speedMps: Option<real>, now: int)

  /** The state after a run of fixes. */
  function Run(s: Tracking, fixes: seq<Fix>): Tracking
    decreases |fixes|
  {
    if fixes == [] then s
    else Run(Next(s, fixes[0].nearest, fixes[0].speedMps, fixes[0].now).state, fixes[1..])
  }

  /** The times at which a run of fixes speaks an overspeed warning, in order. */
  function WarningTimes(s: Tracking, fixes: seq<Fix>): seq<int>
    decreases |fixes|
  {
    if fixes == [] then []
    else
      var f := fixes[0];
      (if OverspeedDue(s, Kmh(f.speedMps), f.now) then [f.now] else [])
      + WarningTimes(Next(s, f.nearest, f.speedMps, f.now).state, fixes[1..])
  }

  /** Every time in `t` is more than 8000 ms after `last`. */
  ghost predicate AllLaterThan(t: seq<int>, last: int) {
    forall i :: 0 <= i < |t| ==> t[i] > last + SpeechDebounceMs
  }

  /** Any two times in `t` are more than 8000 ms apart, in order. */
  ghost predicate SpacedOut(t: seq<int>) {
    forall i, j :: 0 <= i < j < |t| ==> t[j] - t[i] > SpeechDebounceMs
  }

  /**
   * The debounce: every warning of a run comes more than 8000 ms after the
   * last warning before the run, and any two warnings of the run are more
   * than 8000 ms apart, however often fixes arrive.
   */
  lemma {:induction false} WarningsSpacedOut(s: Tracking, fixes: seq<Fix>)
    ensures AllLaterThan(WarningTimes(s, fixes), s.lastSpeech)
    ensures SpacedOut(WarningTimes(s, fixes))
    decreases |fixes|
  {
    if fixes != [] {
      var f := fixes[0];
      var s1 := Next(s, f.nearest, f.speedMps, f.now).state;
      WarningsSpacedOut(s1, fixes[1..]);
      var rest := WarningTimes(s1, fixes[1..]);
      var t := WarningTimes(s, fixes);
      if OverspeedDue(s, Kmh(f.speedMps), f.now) {
        assert s1.lastSpeech == f.now;
        assert t == [f.now] + rest;
        forall i, j | 0 <= i < j < |t| ensures t[j] - t[i] > SpeechDebounceMs {
          assert t[j] == rest[j - 1];
          if i > 0 {
            assert t[i] == rest[i - 1];
          }
        }
      } else {
        assert s1.lastSpeech == s.lastSpeech;
        assert t == rest;
      }
    }
  }

  /** While no road is located, the current road and its limit stay as they were, and no entry is spoken. */
  lemma {:induction false} LostRoadKeepsContext(s: Tracking, fixes: seq<Fix>)
    requires forall i :: 0 <= i < |fixes| ==> fixes[i].nearest.None?
    ensures Run(s, fixes).currentRoad == s.currentRoad
    ensures Run(s, fixes).speedLimit == s.speedLimit
    ensures forall a :: a in Spoken(s, fixes) ==> !a.Entering?
    decreases |fixes|
  {
    if fixes != [] {
      var f := fixes[0];
      EntryAlert(s, f.nearest, f.speedMps, f.now);
      LostRoadKeepsContext(Next(s, f.nearest, f.speedMps, f.now).state, fixes[1..]);
    }
  }

  /** Staying on the road already announced never announces it again. */
  lemma {:induction false} SameRoadNoReentry(s: Tracking, fixes: seq<Fix>, name: string)
    requires s.currentRoad == Some(name)
    requires forall i :: 0 <= i < |fixes| ==> fixes[i].nearest.None? || fixes[i].nearest.value.name == name
    ensures Run(s, fixes).currentRoad == Some(name)
    ensures Run(s, fixes).speedLimit == s.speedLimit
    ensures forall a :: a in Spoken(s, fixes) ==> !a.Entering?
    decreases |fixes|
  {
    if fixes != [] {
      var f := fixes[0];
      EntryAlert(s, f.nearest, f.speedMps, f.now);
      SameRoadNoReentry(Next(s, f.nearest, f.speedMps, f.now).state, fixes[1..], name);
    }
  }

  /** Every alert a run of fixes speaks, in order. */
  function Spoken(s: Tracking, fixes: seq<Fix>): (alerts: seq<Alert>)
    ensures |alerts| <= 2 * |fixes|
    decreases |fixes|
  {
    if fixes == [] then []
    else
      var o := Next(s, fixes[0].nearest, fixes[0].speedMps, fixes[0].now);
      o.alerts + Spoken(o.state, fixes[1..])
  }

  /**
   * The callback registered at mount searches the catalog of that render,
   * which is still empty, so it locates no road on any fix. From the mount
   * state such a run never enters a road, never sets a limit, and speaks
   * nothing at all.
   */
  lemma {:induction false} MountCatalogNeverAlerts(s: Tracking, fixes: seq<Fix>)
    requires s.currentRoad.None? && s.speedLimit == 0.0
    requires forall i :: 0 <= i < |fixes| ==> fixes[i].nearest.None?
    ensures Spoken(s, fixes) == []
    ensures Run(s, fixes).currentRoad.None? && Run(s, fixes).speedLimit == 0.0
    decreases |fixes|
  {
    if fixes != [] {
      var o := Next(s, fixes[0].nearest, fixes[0].speedMps, fixes[0].now);
      assert o.alerts == [];
      MountCatalogNeverAlerts(o.state, fixes[1..]);
    }
  }

  /** The screen's tracking state, updated in place by the location callback. */
  class SpeedTracker {
    var currentRoad: Option<string>
    var speedLimit: real
    var lastSpeech: int
    var userSpeed: real

    function State(): Tracking
      reads this
    {
      Tracking(currentRoad, speedLimit, lastSpeech, userSpeed)
    }

    constructor ()
      ensures State() == Initial
    {
      currentRoad := None;
      speedLimit := 0.0;
      lastSpeech := 0;
      userSpeed := 0.0;
    }

    /**
     * The `watchPositionAsync` callback for one fix at `now`: the located
     * road is whatever `FindNearestRoad` reports, and the new state and
     * the spoken alerts are those of `Next`.
     */
    method OnLocation(roads: seq<Record>, dist: Distance, lat: real, lon: real, speedMps: Option<real>, now: int)
      returns (alerts: seq<Alert>)
      modifies this
      ensures exists nearest ::
        (IsNearestResult(roads, Position(lon, lat), dist, nearest)
         && Outcome(State(), alerts) == Next(old(State()), nearest, speedMps, now))
    {
      var kmh := Kmh(speedMps);
      userSpeed := kmh;
      var nearest := FindNearestRoad(roads, lat, lon, dist);
      var limitAtFix := speedLimit;
      alerts := [];
      if nearest.Some? && currentRoad != Some(nearest.value.name) {
        currentRoad := Some(nearest.value.name);
        speedLimit := LimitOrDefault(nearest.value.speedLimit);
        alerts := alerts + [Entering(nearest.value.name, speedLimit)];
      }
      if limitAtFix != 0.0 && kmh > limitAtFix + SpeedToleranceKmh && now - lastSpeech > SpeechDebounceMs {
        alerts := alerts + [Overspeeding(limitAtFix)];
        lastSpeech := now;
      }
      assert Outcome(State(), alerts) == Next(old(State()), nearest, speedMps, now);
    }
  }
}
