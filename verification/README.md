# Speed notifier: road matching and alerts, in Dafny

A model of the decision logic of a mobile speed-limit notifier. The app
shows Baguio road segments coloured by speed limit, follows the user's GPS
fixes, and speaks an alert when the user enters a new road or goes over
its limit. The logic sits in two screens:

- `MapScreen.tsx`, the current screen. It loads the road records and keeps
  those with a geometry and a properties block. It offers up to five
  name suggestions for a typed query. It finds the nearest road to each
  fix with a single scan that keeps the running minimum; a match must be
  within 20 m and ties go to the first road. Its location callback is
  written to announce road entries and warn of overspeeding, with a 3 km/h
  tolerance and an 8000 ms debounce. As written, the callback only ever
  searches an empty catalog, so it never speaks (see "## Findings").
- `SpeedZoneApp.js`, the earlier prototype. It picks the first road, in
  file order, that has a vertex within 0.01 degrees of the fix. It is
  written to notify on every name change and on every fix over the limit.
  As written, its callback always compares against the first render's
  empty current road, so it announces the road again on every fix on
  which a road is found (see "## Findings").

Modules, one per component:

- `Wrappers`: the `Option` type. It stands for JavaScript's `null` and
  `undefined`.
- `Geo`: GeoJSON `[lon, lat]` positions, the map's `{latitude,
  longitude}` objects, the swap between them, and the m/s to km/h
  conversion.
- `RoadCatalog`: road records, the load filter, and the colour of each
  limit.
- `Search`: the suggestion list, including JavaScript's `trim`,
  `toLowerCase` and `includes`.
- `NearestRoad`: `findNearestRoad`. It is an imperative scan proved
  against the predicate `IsNearestResult`.
- `SpeedAlerts`: the map screen's per-fix step. The pure function `Next`
  is its specification. The class `SpeedTracker` holds the screen's
  tracking state (`currentRoad`, `speedLimit`, `lastSpeech`,
  `userSpeed`), and its `OnLocation` method updates that state in place.
- `SpeedZone`: the prototype's distance, its nested-loop matcher, its
  step function `ZoneNext`, and the class `ZoneTracker`.

The point-to-line distance comes from a geodesy library. Here it is a
parameter `dist` that gives metres from a point to a record. The clock
reading (`Date.now()`), the fix's position and the fix's speed are also
parameters. The spoken or pushed alerts are returned as values (`Alert`,
`Notification`) rather than sent.

In these places the model follows the code as written:

- The overspeed test reads the limit held when the fix arrived, not the
  limit just set by this fix's road entry. The callback's `speedLimit` is
  the value captured when it was registered. So the fix that first
  enters a road never warns (`SpeedAlerts.FirstEntryNeverWarns`).
- The overspeed test also runs on fixes where no road is located.
- The debounce is strict: more than 8000 ms, not 8000 ms or more.
- The load filter tests only that `geometry` and `properties` are
  present. It does not look inside the properties block.
- Suggestions are matched against the lower-cased query as typed,
  untrimmed. Only the length guard uses the trimmed text
  (`Search.UntrimmedQuery`).

## Model

| member | source | states |
|---|---|---|
| `Geo.ToLatLngPath` | MapScreen.tsx:146 | the route path has the same length, and each point's latitude and longitude are the GeoJSON pair's second and first entries |
| `Geo.PathRoundTrip` | MapScreen.tsx:239-242 | the `[lon, lat]` to `{latitude, longitude}` conversion loses nothing: converting back gives the original path |
| `Geo.ToLatLngPathAppend` | MapScreen.tsx:239-242 | the conversion goes point by point and keeps the order of the path |
| `Geo.Kmh` | MapScreen.tsx:89 | a missing speed counts as 0 km/h; a present speed is multiplied by 3.6; a non-negative m/s speed never shrinks when converted |
| `Geo.KmhMonotone` | MapScreen.tsx:89 | a faster fix never converts to fewer km/h |
| `RoadCatalog.FilterRoads` | MapScreen.tsx:56 | a record is kept exactly when it is in the input and has both a geometry and a properties block; the result is no longer than the input |
| `RoadCatalog.FilterRoadsAppend` | MapScreen.tsx:56 | the filter keeps the records' original order: filtering a concatenation concatenates the filtered parts |
| `RoadCatalog.FilterRoadsKeepsComplete` | MapScreen.tsx:56 | a catalog whose records are all complete passes through unchanged |
| `RoadCatalog.FilterRoadsIdempotent` | MapScreen.tsx:56 | filtering an already filtered catalog changes nothing |
| `RoadCatalog.ColourForSpeed` | MapScreen.tsx:24-30 | grey exactly for a missing or zero limit; otherwise yellow up to 20, orange up to 30, red up to 40, green above 40 |
| `RoadCatalog.ColourMonotone` | MapScreen.tsx:24-30 | for positive limits, a higher limit never gets a lower legend band |
| `RoadCatalog.LegendAgrees` | MapScreen.tsx:257-260 | the legend's 20, 30, 40 and 50+ km/h entries get the colours the classifier gives |
| `RoadCatalog.DrawnPath` | MapScreen.tsx:238-243 | the polyline drawn for a road converts back to the road's GeoJSON geometry |
| `Search.TrimStart` | MapScreen.tsx:111 | only leading ECMAScript whitespace is removed, and the result does not start with whitespace |
| `Search.TrimEnd` | MapScreen.tsx:111 | only trailing ECMAScript whitespace is removed, and the result does not end with whitespace |
| `Search.Trim` | MapScreen.tsx:111 | the result is a contiguous part of the text, only whitespace is cut on either side, and it neither starts nor ends with whitespace |
| `Search.LowerChar` | MapScreen.tsx:114 | the result is never a capital letter; a non-capital is kept; a capital becomes its small letter |
| `Search.Lower` | MapScreen.tsx:114 | lower-casing keeps the length, leaves no capital letter, and keeps every character that is not a capital |
| `Search.LowerIdempotent` | MapScreen.tsx:114 | lower-casing a lower-cased text changes nothing |
| `Search.LowerKeepsWhitespace` | MapScreen.tsx:111-114 | lower-casing neither creates nor removes whitespace |
| `Search.Utf16Length` | MapScreen.tsx:111 | `length` counts UTF-16 code units: between one and two per character, one per character when all lie below U+10000 |
| `Search.LowerKeepsUtf16Length` | MapScreen.tsx:111-114 | lower-casing keeps the UTF-16 length |
| `Search.TrimStartCaseless` | MapScreen.tsx:111 | texts equal up to case lose the same leading whitespace |
| `Search.TrimEndCaseless` | MapScreen.tsx:111 | texts equal up to case lose the same trailing whitespace |
| `Search.TrimLengthCaseless` | MapScreen.tsx:111 | texts equal up to case have trimmed forms of the same UTF-16 length, so the guard treats them alike |
| `Search.Includes` | MapScreen.tsx:114 | `includes` holds exactly when the query occurs at some index of the name |
| `Search.Matches` | MapScreen.tsx:112-114 | no more matches than roads; every match is a non-empty name whose lower-case form contains the query |
| `Search.MatchesComplete` | MapScreen.tsx:112-114 | a name is among the matches exactly when some catalog road carries it, it is non-empty, and its lower-case form contains the query |
| `Search.MatchesAppend` | MapScreen.tsx:112-114 | matches come in catalog order |
| `Search.Suggestions` | MapScreen.tsx:109-116 | empty when the trimmed text is shorter than 2 UTF-16 units; at most 5 entries; otherwise the catalog-order prefix of all matches, of length min(5, number of matches) |
| `Search.Shown` | MapScreen.tsx:115 | `slice(0, 5)` is a prefix of the matches of length min(5, number of matches) |
| `Search.SuggestionsIgnoreCase` | MapScreen.tsx:111-115 | two texts that lower-case alike get the same suggestions |
| `Search.SuggestionsMatch` | MapScreen.tsx:112-115 | every suggestion is a non-empty catalog name that contains the lower-cased, untrimmed query |
| `Search.UntrimmedQuery` | MapScreen.tsx:111-114 | "ab " passes the length guard, but "Abra" is not suggested for it because the trailing blank is matched too |
| `Search.TrimmedQuery` | MapScreen.tsx:111-115 | "Abra" is suggested for "ab" |
| `Search.AstralQueryLongEnough` | MapScreen.tsx:111 | a single emoji is two UTF-16 units, so it passes the length guard |
| `NearestRoad.Describe` | MapScreen.tsx:174-177 | the reported name is the record's name, or "Unknown road" when missing; the limit is the record's limit, or 40 when missing |
| `NearestRoad.EmptyCatalogLocatesNothing` | MapScreen.tsx:166-180 | a scan over an empty catalog reports no road |
| `NearestRoad.FindNearestRoad` | MapScreen.tsx:163-180 | nothing when the catalog is empty or every road is farther than 20 m; otherwise the described first road in catalog order among those at the least distance |
| `NearestRoad.NearestResultUnique` | MapScreen.tsx:163-180 | the scan's specification determines the result: two results that meet it are equal |
| `NearestRoad.ClosestRoadReported` | MapScreen.tsx:166-177 | a road within 20 m that is strictly nearer than every other road is the one reported |
| `NearestRoad.TieGoesToEarlierRoad` | MapScreen.tsx:168-171 | of two roads at the same least distance, the earlier one in the catalog is reported (strict `<`) |
| `SpeedAlerts.LimitOrDefault` | MapScreen.tsx:95 | the entry limit is 40 for a zero limit, so it is never 0, and keeps any non-zero limit |
| `SpeedAlerts.Next` | MapScreen.tsx:87-103 | one fix speaks at most two alerts; the last warning time never goes back; a set limit never returns to 0; a current road is never lost |
| `SpeedAlerts.EntryAlert` | MapScreen.tsx:92-97 | an entry alert is spoken exactly when a road is located under a name other than the current road; it comes first; the current road and the limit then change together, the limit to a non-zero value; otherwise both stay |
| `SpeedAlerts.OverspeedAlert` | MapScreen.tsx:99-102 | a warning is spoken exactly when the limit held before the fix is non-zero, km/h exceeds limit + 3, and now - lastSpeech > 8000; it names that limit; lastSpeech becomes now exactly then; the shown speed is the converted speed |
| `SpeedAlerts.FasterNeverEscapesWarning` | MapScreen.tsx:89-99 | if a fix at some speed is warned, the same fix at a higher speed is warned too |
| `SpeedAlerts.AlertOrder` | MapScreen.tsx:92-102 | at most two alerts per fix, and the entry comes before the warning |
| `SpeedAlerts.InitialConsistent` | MapScreen.tsx:41-42 | the initial state (no road, limit 0) satisfies the invariant that the limit is 0 exactly while no road is current |
| `SpeedAlerts.NextKeepsConsistent` | MapScreen.tsx:92-97 | every fix preserves that invariant |
| `SpeedAlerts.FirstEntryNeverWarns` | MapScreen.tsx:99 | from a state with no current road, a fix speaks no warning, because the test reads the previous limit |
| `SpeedAlerts.WarningsSpacedOut` | MapScreen.tsx:99-101 | over any run of fixes, every warning comes more than 8000 ms after the last earlier warning, and any two warnings are more than 8000 ms apart |
| `SpeedAlerts.LostRoadKeepsContext` | MapScreen.tsx:93 | fixes on which no road is located leave the current road and its limit unchanged, and none of them announces an entry |
| `SpeedAlerts.SameRoadNoReentry` | MapScreen.tsx:93 | staying on the current road never changes the current road or its limit, and no fix of the run announces an entry |
| `SpeedAlerts.Spoken` | MapScreen.tsx:87-103 | a run of fixes speaks at most two alerts per fix |
| `SpeedAlerts.MountCatalogNeverAlerts` | MapScreen.tsx:43-106 | from the mount state, a run on which no road is located (as the mount-time callback's empty catalog gives) speaks nothing and never sets a road or a limit |
| `SpeedAlerts.SpeedTracker.constructor` | MapScreen.tsx:40-48 | a new tracker has no road, limit 0, last speech at time 0 and speed 0 |
| `SpeedAlerts.SpeedTracker.OnLocation` | MapScreen.tsx:87-103 | the new tracking state and the alerts are those `Next` gives for the road the nearest-road scan reports |
| `SpeedZone.SquaredDistance` | SpeedZoneApp.js:60-62 | the squared Euclidean distance in degrees is non-negative |
| `SpeedZone.DistanceSymmetric` | SpeedZoneApp.js:60-62 | the distance does not depend on argument order |
| `SpeedZone.DistanceToSelfZero` | SpeedZoneApp.js:60-62 | a point is at distance 0 from itself |
| `SpeedZone.BelowToleranceOnSquares` | SpeedZoneApp.js:51-61 | for a non-negative distance, below 0.01 is the same as its square being below 0.0001 |
| `SpeedZone.GetCurrentRoad` | SpeedZoneApp.js:44-57 | nothing when no feature has a vertex within 0.01; otherwise the first feature in file order that has one |
| `SpeedZone.CurrentRoadResultUnique` | SpeedZoneApp.js:44-57 | the matcher's specification determines the result |
| `SpeedZone.MidSegmentNotMatched` | SpeedZoneApp.js:48-54 | only vertices are tested: a fix on a road halfway between two vertices one degree apart matches nothing |
| `SpeedZone.ZoneNext` | SpeedZoneApp.js:22-38 | at most two notifications per fix; the new current road is the old one or the one found; a current road is never lost; no road found means no notification |
| `SpeedZone.ZoneEntry` | SpeedZoneApp.js:29-32 | the entry notification is sent exactly when a road is found and there is no current road or its name differs; the current road is then replaced, and otherwise kept |
| `SpeedZone.StaleZoneReannounces` | SpeedZoneApp.js:8-41 | with the first render's empty current road, every fix on which a road is found announces it again; with that road current, no entry is announced |
| `SpeedZone.ZoneOverspeed` | SpeedZoneApp.js:34-37 | the overspeed notification is sent exactly when a road is found and km/h exceeds its limit, with no tolerance |
| `SpeedZone.WarnedAtEveryFix` | SpeedZoneApp.js:35-37 | with no debounce, a run over the limit on a found road at every fix gets one warning per fix |
| `SpeedZone.ZoneTracker.constructor` | SpeedZoneApp.js:8 | a new tracker has no current road |
| `SpeedZone.ZoneTracker.OnLocation` | SpeedZoneApp.js:22-38 | the new current road and the notifications are those `ZoneNext` gives for the road the matcher reports |

## Left out

- Fetching the road records from the document store (MapScreen.tsx:52-64) is left out. Loading is modelled only as the filter applied to the fetched records.
- The location permission request and the `watchPositionAsync` subscriptions (MapScreen.tsx:68-106, SpeedZoneApp.js:10-21) are left out. Each fix is a call to `OnLocation`, with its position, speed and time as arguments.
- Speech and push notifications are left out. Alerts are returned as values, and their message texts and number formatting are not built.
- React's stale closures are left out. The callback registered at mount (MapScreen.tsx:68-106) keeps the `currentRoad`, `speedLimit` and `findNearestRoad` of that render, and so the `roadFeatures` of that render, which is the initial empty list (MapScreen.tsx:43). The model passes the loaded catalog and the current state to every `OnLocation` instead. The prototype's callback is registered once (SpeedZoneApp.js:10-41), so it keeps the first render's `currentRoad`, which is `null` (SpeedZoneApp.js:8), and the test at SpeedZoneApp.js:29 holds on every fix on which a road is found. The model's `ZoneTracker.OnLocation` compares against the road last entered instead. What both screens do as written is recorded under "## Findings".
- MapScreen.tsx:106 registers another watcher on each limit change without removing the old ones. The model processes each fix once, in order.
- `Date.now()` is read twice in the overspeed branch (MapScreen.tsx:99-101). The model reads one `now` per fix.
- Turf's `pointToLineDistance` (MapScreen.tsx:167) is a foreign, floating-point computation. It is the parameter `dist`. NaN and infinite distances are not modelled.
- All numbers are exact reals and times are integers. Floating-point rounding, NaN and `undefined` arithmetic are not modelled.
- Search.Lower: maps only the ASCII letters. JavaScript's `toLowerCase` applies full Unicode case mapping, which can also change a string's length.
- A record whose `geometry` is present but has no `coordinates` list passes the load filter (MapScreen.tsx:56) and then fails when drawn (MapScreen.tsx:239) or measured (MapScreen.tsx:167). The model's `geometry` is the coordinate list itself, so such records are not modelled.
- Road names and limits that are neither missing nor of the expected type (JavaScript truthiness on other values) are not modelled.
- Route selection (`handleSelectRoad`, MapScreen.tsx:119-160) is left out: the lookup by exact name, the routing-service request and the map region. Only its coordinate swap (MapScreen.tsx:146) is modelled.
- The JSX rendering, the styles, the legend animation (MapScreen.tsx:183-192), the loading flag and the `userLoc`/`region` display state are presentation only.
- The prototype's features always carry a `name` and a `speed_limit`. A bundled feature without them is not modelled.
- SpeedZone.SquaredDistance: the square root of `getDistance` is not taken. The model compares the square with 0.0001, which `SpeedZone.BelowToleranceOnSquares` shows is equivalent.
- SpeedZone.DistanceToSelfZero: only "identical points are at distance 0" is proved. The converse, that distance 0 means identical points, is not stated.

## Findings

| source | as written | input that shows it | evidently intended | confidence | as-written member | corrected member |
|---|---|---|---|---|---|---|
| MapScreen.tsx:43-106 | the location callback is registered once at mount and its `findNearestRoad` reads that render's `roadFeatures`, the initial `[]`; no road is ever located, `speedLimit` never changes, so the `[speedLimit]` effect never registers a fresh callback | any run of fixes after the roads have loaded: no entry alert and no warning is spoken | each fix is matched against the loaded catalog and the current state | high, not executed | `SpeedAlerts.MountCatalogNeverAlerts` | `SpeedAlerts.SpeedTracker.OnLocation` |
| SpeedZoneApp.js:8-41 | the callback is registered once with no dependencies and reads the first render's `currentRoad`, `null`, so `road.name !== currentRoad?.name` always holds | any two fixes near the same road: the "entered" notification is sent at both | announce a road only when its name differs from the road last entered | high, not executed | `SpeedZone.StaleZoneReannounces` | `SpeedZone.ZoneTracker.OnLocation` |
