# Railway operations dashboard: verified model of the train motion core

This project models, in Dafny, the logic of a railway operations dashboard that moves trains. The dashboard is written in TypeScript and React. The model covers five areas:

- **Geometry.** The projection of a train onto a track segment (`nearestPointOnSegment`).
- **The railway network.** Snapping a free train to the nearest segment of the network (`snapToNearestTrack`). Finding the segment that follows the current one (`findNextSegment`).
- **The engine tick** (`updateTrainPosition` with its inner `switchToNextSegment`):
  - progress advances along the current segment;
  - the train changes segment when its progress leaves [0, 1];
  - it turns round at the ends of a route;
  - it clamps when there is no neighbouring segment;
  - with no segment at all, it dead-reckons inside a box around India.
- **The generator** of the initial fleet (`generateTrainData`).
- **The views' per-tick state updates:**
  - the live map's initial trains, its percent-progress tick, and its filter and type toggles (`LiveTrainMap.tsx`);
  - the schematic track view's dictionary of animated positions, its track lookup and the point where a train is drawn (`TrackMap.tsx`);
  - the dashboard's jitter of trains and KPIs, and the accept and reject of recommendations (`App.tsx`).

The modules are:

| module | models |
|---|---|
| `Common` | `Option`; `Math.min`, `Math.max` and the clamp idiom; JavaScript's truncating `%` on numbers (`JsRem`); decimal rendering inside template strings; `toLowerCase` and `includes` |
| `TrainTypes` | the records of `src/types/train.ts`: points, tracks, trains, recommendations, KPIs |
| `Geometry` | `nearestPointOnSegment`; the `Geo` record of geometric primitives |
| `Network` | `findNextSegment`; `snapToNearestTrack` as a scan that keeps a running minimum |
| `Motion` | `updateTrainPosition`, `switchToNextSegment`, the compass-heading formula, the dead-reckoning fallback |
| `Generator` | `generateTrainData` with its do-while redraw of the destination |
| `LiveTrainMap` | `generateInitialTrains`, `updateTrainPositions`, the filter, `toggleTrainType` |
| `TrackMap` | the `animatedPositions` dictionary as a class, `calculateTrainPosition`, `getTrackForTrain` |
| `App` | `handleAcceptRecommendation`, `handleRejectRecommendation`, the five-second jitter of trains and KPIs |

**Modelling choices:**

- JavaScript numbers are modelled as `real`.
- The snapping scan compares squared distances instead of distances. The square root is strictly increasing, so the strict `<` minimum it finds is the same.
- `Math.sqrt`, `Math.atan2`, and the trigonometric dead-reckoning step are opaque. They are the three fields of a `Geo` value passed into every operation that uses them, so every property holds whatever those functions return.
- Every `Math.random()` draw is a parameter, usually restricted to [0, 1) by `IsRandom`.
- The engine's network (`RAILWAY_ROUTES`) is a parameter `routes`, so the network properties hold for any network.
- The live map's seven lines are the constant `LiveTrainMap.MapLines`.

**Behaviour as written.** The model follows the code, and states its less obvious behaviour as lemmas:

- **Snapping always records segment 0.** A snapped train records `currentSegment` 0 and `nextSegment` 1, whichever segment it was snapped to (`SnapProperties`).
- **Runs off the last segment.** An eastbound train running off the last segment of a route of three or more waypoints does not turn round on that segment. It is moved to the segment before it (`LastSegmentJumpsBack`).
- **Westbound switches land a segment away.** An eastbound train that runs off segment `i` lands on segment `i + 1` at the overshoot from the waypoint it crossed, so its move is continuous (`EastboundSwitchContinues`). A westbound train that runs off the start of segment `i` crosses waypoint `i`, but the overshoot is measured from the start of segment `i - 1`, waypoint `i - 1`. It is placed near the far end of the segment behind, not next to the waypoint it crossed (`WestboundSwitchSkipsBack`). At the start of a route it turns round onto segment 1 (`FirstSegmentTurnsRound`). So a westbound train hops about one segment per switch: at 72 km/h on the route (0, 0) - (0, 1) - (0, 2), from progress 0.01 of segment 1 (the point (0, 1.01)), one tick takes it to (0, 0.01) and the next back to (0, 1.01), now eastbound (`WestboundHopsBackAndForth`). Since snapping records segment 0, a train snapped to a later segment switches as if it were on segment 0.
- **Routes of one segment.** A train on a one-segment route clamps at the end it reached: an eastbound train at the segment's end, a westbound one at its start. It then stays there on every later tick (`SingleSegmentClamps`, `ClampedTrainStaysPut`). It does not bounce back.
- **Progress range.** Progress stays in [0, 1], on a segment of the same route, after any number of ticks, as long as one tick's step is at most 1 on every segment of the route (`TickKeepsProgressInRange`, `TicksKeepProgressInRange`). A larger step breaks this: a switch carries the whole overshoot into the next segment, so progress can be above 1 after the switch (`FastSwitchLeavesRange`: 7200 km/h on a segment of length 1 from progress 0.5 lands at 1.5).
- **Generated trains start at (0, 0).** A generated train's first tick moves it to latitude 0, longitude 0. The reason is the placeholder track from (0, 0) to (0, 0) it is generated with (`GeneratedTrainFirstTick`).
- **Compass heading.** The in-range heading is `270 - raw` brought into [0, 360) (`CompassHeadingFormula`). The fallback's bounce rules keep the component of travel that crossed the bound (`BounceKeepsCrossingHeading`).

The code does not bounce a train back along a one-segment route, and does not carry progress over at every end of a route; the model does the same.

## Model

| member | source | states |
|---|---|---|
| Geometry.NearestPointOnSegment | src/utils/trainDataGenerator.ts:89-132 | the result is the segment's point at the projection parameter clamped to [0, 1]; position in [0, 1]; a parameter below 0 gives exactly the start with position 0; a parameter above 1 gives exactly the end with position 1; a zero-length segment gives the start with position 0, without dividing |
| Geometry.Project | src/utils/trainDataGenerator.ts:89-132 | the segment's point at the clamped projection parameter, the specification `NearestPointOnSegment` is proved equal to; its optimality is `ProjectIsClosest` |
| Geometry.ProjectIsClosest | src/utils/trainDataGenerator.ts:101-131 | no point of the segment is nearer to the train than the projected point |
| Network.Reverse | src/utils/trainDataGenerator.ts:156 | the reversed route has the same length and holds waypoint `n-1-k` at index `k` |
| Network.FirstMatchFrom | src/utils/trainDataGenerator.ts:136-141 | the first index at or after `i` whose segment equals (from, to), or none when no later segment does |
| Network.FindNextSegment | src/utils/trainDataGenerator.ts:135-162 | nothing exactly when no segment matches; for the first matching segment `i`: segment `i+1` of the same route when `i+2 < length`, otherwise (last waypoint, second-last waypoint) as segment 0 of the reversed route with `isEnd` set |
| Network.NextSegmentOf | src/utils/trainDataGenerator.ts:135-162 | the specification of `findNextSegment` that `FindNextSegment` is proved equal to; stated by `FirstMatchUnique` and `NextSegmentContinues` |
| Network.FirstMatchUnique | src/utils/trainDataGenerator.ts:136-159 | the scan's answer is the unique matching index with no matching index before it |
| Network.NextSegmentContinues | src/utils/trainDataGenerator.ts:142-158 | the next segment starts where the current one ends, and is segment `segmentIndex` of the route returned with it; at the end it runs back over the current segment |
| Network.ScanRouteKeeps | src/utils/trainDataGenerator.ts:173-194 | the inner loop keeps the running minimum: the first segment at the least distance among those scanned |
| Network.ScanRoutesKeeps | src/utils/trainDataGenerator.ts:172-195 | the outer loop keeps the same invariant across routes |
| Network.NearestSegmentIsFirstMinimum | src/utils/trainDataGenerator.ts:165-197 | the scan finds nothing exactly when no route has a segment; otherwise it finds a segment at the least distance, strictly nearer than every segment before it in route-then-index order |
| Network.NearestSegmentUnique | src/utils/trainDataGenerator.ts:187-193 | the segment found is determined by the distances alone: the first minimal segment in scan order |
| Network.NearestSegmentIsClosestPoint | src/utils/trainDataGenerator.ts:172-197 | no point of any segment of the network is nearer to the train than the snapped point |
| Network.SnapToNearestTrack | src/utils/trainDataGenerator.ts:165-233 | the nested loops return the snapped coordinates and attachment built from the first nearest segment |
| Network.SnapOf | src/utils/trainDataGenerator.ts:165-233 | the specification of `snapToNearestTrack` that `SnapToNearestTrack` is proved equal to; stated by `SnapProperties` and `NearestSegmentIsClosestPoint` |
| Network.SnapProperties | src/utils/trainDataGenerator.ts:197-232 | snapping fails only on a network without segments; a snapped train sits at its projection onto the segment, runs East with progress in [0, 1], and records segment 0 and next segment 1 |
| Motion.NewPosition | src/utils/trainDataGenerator.ts:273-283 | the progress after one tick, before any switch; its direction and size are stated by `StepFollowsDirection` and `ProgressStep` |
| Motion.SwitchToNextSegment | src/utils/trainDataGenerator.ts:286-313 | `switchToNextSegment`; its cases are stated by `SwitchToNextSegmentCases` and `SwitchTurnsOnlyAtEnds` |
| Motion.DeadReckon | src/utils/trainDataGenerator.ts:386-417 | the dead-reckoning fallback; its box, kept coordinates and heading rules are stated by `DeadReckonBounds` and `BounceKeepsCrossingHeading` |
| Motion.MoveAlongTrack | src/utils/trainDataGenerator.ts:258-383 | the attached branch of the tick: in range, switched or clamped; stated by `InRangeAdvances`, `SwitchLandsOnNeighbour`, `EastboundSwitchContinues`, `WestboundSwitchSkipsBack`, `FirstSegmentTurnsRound`, `LastSegmentJumpsBack`, `SingleSegmentClamps` and the progress-range lemmas |
| Motion.UpdateTrainPosition | src/utils/trainDataGenerator.ts:240-418 | `updateTrainPosition`: attached trains move along their track, free trains snap or dead-reckon; stated by `UpdateKeepsIdentity`, `UpdateKeepsAttachment` and the lemmas after them |
| Motion.SegmentLength | src/utils/trainDataGenerator.ts:279 | the divisor is at least 1e-6; a zero length counts as 1; a length of at least 1e-6 is kept |
| Motion.ProgressStep | src/utils/trainDataGenerator.ts:280 | the step has the sign of the speed: at least 0 for a speed of at least 0, positive for a positive speed |
| Motion.Overshoot | src/utils/trainDataGenerator.ts:317 | the overshoot is positive: `p - 1` past the end, `-p` before the start |
| Motion.Flip | src/utils/trainDataGenerator.ts:309 | turning round negates the direction sign |
| Motion.StepFollowsDirection | src/utils/trainDataGenerator.ts:280-283 | a moving train's progress goes up for East and down otherwise, by the same amount either way |
| Motion.SwitchToNextSegmentCases | src/utils/trainDataGenerator.ts:286-313 | the segment ahead when it exists; otherwise the segment behind with the direction flipped; nothing when neither exists; any result is a segment of the route in [0, n-2] carrying the overshoot as its progress |
| Motion.SwitchTurnsOnlyAtEnds | src/utils/trainDataGenerator.ts:287-293 | with a segment ahead, the direction is kept and the index moves by the direction sign |
| Motion.CompassHeading | src/utils/trainDataGenerator.ts:370 | the heading is in [0, 360) |
| Motion.CompassHeadingFormula | src/utils/trainDataGenerator.ts:369-370 | for a raw bearing in (-180, 180] the heading is `270 - raw` or `-90 - raw`: a northbound segment gives 180 and an eastbound one 270 |
| Motion.UpdateKeepsIdentity | src/utils/trainDataGenerator.ts:240-418 | a tick changes only the coordinates, the heading and the attachment |
| Motion.UpdateKeepsAttachment | src/utils/trainDataGenerator.ts:242-383 | an attached train stays attached to the same route with the same next-segment index and speed limit; a free train becomes attached exactly when the network has a segment |
| Motion.InRangeAdvances | src/utils/trainDataGenerator.ts:363-382 | progress within [0, 1] is stored as computed, the train sits at that fraction of its segment, and its heading is in [0, 360) |
| Motion.SwitchLandsOnNeighbour | src/utils/trainDataGenerator.ts:316-343 | on a switch the new segment is a neighbour of the old one on the same route, the progress is the positive overshoot, and the train sits at that fraction of the new segment with its heading |
| Motion.LastSegmentJumpsBack | src/utils/trainDataGenerator.ts:286-310 | an eastbound train running off the last segment of a route of three or more waypoints moves to segment `n-3`, heading West, at the overshoot |
| Motion.EastboundSwitchContinues | src/utils/trainDataGenerator.ts:286-343 | an eastbound train running off segment `i` with a segment ahead lands on segment `i + 1`, from waypoint `i + 1` to `i + 2`, on the same route and still East, at progress `p - 1`, and sits at that fraction of the new segment |
| Motion.WestboundSwitchSkipsBack | src/utils/trainDataGenerator.ts:286-343 | a westbound train running off the start of segment `i >= 1` lands on segment `i - 1`, from waypoint `i - 1` to `i`, on the same route and still westbound, at progress `-p` measured from waypoint `i - 1`, with the recorded length of that segment, and sits at that fraction of it |
| Motion.FirstSegmentTurnsRound | src/utils/trainDataGenerator.ts:286-343 | a westbound train running off the start of the first segment of a route of three or more waypoints moves to segment 1, heading East, at the overshoot from waypoint 1 |
| Motion.WestboundHopsBackAndForth | src/utils/trainDataGenerator.ts:273-343 | at 72 km/h from progress 0.01 of segment 1 of the route (0, 0) - (0, 1) - (0, 2), westbound, one tick puts the train at (0, 0.01) on segment 0, still westbound, and the next puts it back at (0, 1.01) on segment 1 at progress 0.01, heading East |
| Motion.SingleSegmentClamps | src/utils/trainDataGenerator.ts:346-360 | on a route of at most one segment, progress leaving [0, 1] is clamped to the end crossed, the direction is kept, and the train sits at that end |
| Motion.ClampedTrainStaysPut | src/utils/trainDataGenerator.ts:346-360 | an eastbound train clamped at progress 1, or a westbound one at progress 0, on a one-segment route keeps its attachment and sits at that end (the segment's end or start) on the next tick, and its attachment is unchanged on the tick after; since speed and attachment do not change, this repeats for every later tick |
| Motion.TickKeepsProgressInRange | src/utils/trainDataGenerator.ts:273-383 | with progress in [0, 1], speed at least 0 and a step of at most 1 on every segment of the route, one tick leaves progress in [0, 1] on a segment of the same route, and keeps those conditions |
| Motion.TicksKeepProgressInRange | src/utils/trainDataGenerator.ts:240-383 | under the same conditions, progress is in [0, 1] on a segment of the same route after any number of ticks |
| Motion.FastSwitchLeavesRange | src/utils/trainDataGenerator.ts:316-343 | without the step bound the range is lost: 7200 km/h on a segment of length 1 at progress 0.5, East, with a segment ahead, switches to segment 1 at progress 1.5 |
| Motion.DeadReckonBounds | src/utils/trainDataGenerator.ts:386-417 | the fallback keeps the train within INDIA_BOUNDS widened by one degree; coordinates inside that box are kept; the heading changes only when a bound is hit, by the longitude rule when that bound is hit and by the latitude rule otherwise; a heading in [0, 360) stays in [0, 360) |
| Motion.BounceKeepsCrossingHeading | src/utils/trainDataGenerator.ts:402-408 | a heading of 0 is kept by the latitude rule and a heading of 90 by the longitude rule |
| Generator.Pick | src/utils/trainDataGenerator.ts:437 | `Math.floor(r * n)` for a draw in [0, 1) is an index below `n` |
| Generator.FirstDestination | src/utils/trainDataGenerator.ts:439-441 | the destination is a city other than the origin, picked by the first draw that leaves the origin; every draw before it stays at the origin |
| Generator.DrawDestination | src/utils/trainDataGenerator.ts:438-441 | the do-while loop returns the first destination draw that differs from the origin |
| Generator.DelayOf | src/utils/trainDataGenerator.ts:446 | the delay is a whole number of minutes in [0, 60), and 0 unless the first draw exceeds 0.7 |
| Generator.StatusOf | src/utils/trainDataGenerator.ts:447 | Critical exactly when the delay is over 30, Delayed exactly when it is in (0, 30], On Time exactly when it is 0 or less |
| Generator.GeneratedTrain | src/utils/trainDataGenerator.ts:435-488 | the train pushed for index `i` from its draws; stated by `GeneratedTrainProperties`, `GeneratedIdsDistinct` and `GeneratedTrainFirstTick` |
| Generator.BuildTrain | src/utils/trainDataGenerator.ts:436-488 | one pass of the loop body builds exactly the train specified for that index and its draws |
| Generator.FleetAt | src/utils/trainDataGenerator.ts:435-489 | the list pushed in index order has one element per draw record, element `i` built from index `i` and its draws |
| Generator.GeneratedFleetStep | src/utils/trainDataGenerator.ts:436-489 | one pass of the loop turns the first `i` trains of the fleet into its first `i + 1` |
| Generator.GenerateTrainData | src/utils/trainDataGenerator.ts:426-492 | exactly `count` trains; train `i` is the one built from index `i` and its draws |
| Generator.CitiesDistinct | src/utils/trainDataGenerator.ts:428-431 | the ten city names are pairwise different |
| Generator.GeneratedTrainProperties | src/utils/trainDataGenerator.ts:435-488 | id `TRAIN-(10000+i)`, name from type and `1000+i`, destination other than origin, status Critical above 30 minutes, Delayed above 0, On Time otherwise, speed in [80, 120), priority in [1, 5], position within ten degrees of (20.5937, 78.9629), heading in [0, 360), the placeholder track |
| Generator.GeneratedIdsDistinct | src/utils/trainDataGenerator.ts:454 | generated trains with different indices have different ids |
| Generator.GeneratedTrainFirstTick | src/utils/trainDataGenerator.ts:468-483 | a generated train's first tick leaves it on its placeholder track, with every field of that track unchanged except progress, which becomes speed/3600; the train is at latitude 0, longitude 0 |
| LiveTrainMap.MapLinesWellFormed | src/components/TrainMovement/LiveTrainMap.tsx:44-109 | the map has seven lines, each with at least two waypoints |
| LiveTrainMap.InitialTrains | src/components/TrainMovement/LiveTrainMap.tsx:187-222 | one map train per generated train |
| LiveTrainMap.InitialTrain | src/components/TrainMovement/LiveTrainMap.tsx:190-220 | the map train made from generated train `i`; stated by `InitialTrainsProperties` |
| LiveTrainMap.InitialTrainsProperties | src/components/TrainMovement/LiveTrainMap.tsx:188-220 | train `i` gets id `TRAIN-(i+1)`, line `i` modulo the line count, the next line after it, direction East, a percent in [0, 100), coordinates at that percent of its line's first segment, and keeps its generated name and type |
| LiveTrainMap.InitialIdsDistinct | src/components/TrainMovement/LiveTrainMap.tsx:208 | the initial trains have distinct ids |
| LiveTrainMap.UpdateTrainPositions | src/components/TrainMovement/LiveTrainMap.tsx:224-278 | one train out per train in |
| LiveTrainMap.Tick | src/components/TrainMovement/LiveTrainMap.tsx:226-276 | one train's percent-progress tick; stated by `TickStep` and `TickKeepsInvariant` |
| LiveTrainMap.TickStep | src/components/TrainMovement/LiveTrainMap.tsx:226-276 | the percent moves by +0.1 for East and -0.1 otherwise, with coordinates at that percent; past 100 it resets to 0 on the next line, whose successor modulo the line count becomes the next line; nothing else changes |
| LiveTrainMap.TickKeepsInvariant | src/components/TrainMovement/LiveTrainMap.tsx:228-237 | a tick keeps a train running East with its percent in [0, 100] and its line indices valid and consecutive |
| LiveTrainMap.UpdateKeepsInvariant | src/components/TrainMovement/LiveTrainMap.tsx:224-278 | the tick maps the list one to one, keeping count, order and ids, and every train keeps the invariant |
| LiveTrainMap.TicksKeepInvariant | src/components/TrainMovement/LiveTrainMap.tsx:280-291 | after any number of ticks the fleet keeps its size and ids, and every train keeps the invariant |
| LiveTrainMap.FilteredTrains | src/components/TrainMovement/LiveTrainMap.tsx:293-303 | a train is in the result exactly when it is in the list, the search is empty or matches its lowercased name or id, and its type is on |
| LiveTrainMap.FilterDistributes | src/components/TrainMovement/LiveTrainMap.tsx:294-302 | the filter keeps list order: filtering a concatenation concatenates the filtered parts |
| LiveTrainMap.FilterShowsAllByDefault | src/components/TrainMovement/LiveTrainMap.tsx:176-181 | with the initial empty search and every type on, every train is shown |
| LiveTrainMap.IdSearchFinds | src/components/TrainMovement/LiveTrainMap.tsx:295-301 | a train whose id contains the search text in any ASCII letter case is shown when its type is on |
| LiveTrainMap.ToggleTrainType | src/components/TrainMovement/LiveTrainMap.tsx:352-357 | the chosen flag flips and the other two are unchanged |
| LiveTrainMap.ToggleTwice | src/components/TrainMovement/LiveTrainMap.tsx:352-357 | toggling a type twice restores the flags |
| TrackMap.Step | src/components/TrainMovement/TrackMap.tsx:26-29 | a moving train's new animated position is in [0, 100] |
| TrackMap.StepCases | src/components/TrainMovement/TrackMap.tsx:26-29 | a step landing in [0, 100) keeps its value; one in [100, 200) wraps by 100; one in (-100, 0) jumps to 100 |
| TrackMap.AdvanceAll | src/components/TrainMovement/TrackMap.tsx:21-33 | the callback keeps the dictionary's key set |
| TrackMap.InitialPositions | src/components/TrainMovement/TrackMap.tsx:14-17 | every train's id is a key, and every key is some train's id |
| TrackMap.InitialPositionsLastWins | src/components/TrainMovement/TrackMap.tsx:14-17 | an id's entry is the position of the last train with that id |
| TrackMap.AdvanceAllKeepsOthers | src/components/TrainMovement/TrackMap.tsx:23-31 | the entries of stopped trains and of ids of no listed train are unchanged |
| TrackMap.AdvanceAllMovesOnce | src/components/TrainMovement/TrackMap.tsx:24-30 | a moving train listed once has its entry moved by exactly one step |
| TrackMap.AdvanceAllInRange | src/components/TrainMovement/TrackMap.tsx:28-29 | a dictionary with every entry in [0, 100] keeps every entry in [0, 100] |
| TrackMap.AnimatedPositions.constructor | src/components/TrainMovement/TrackMap.tsx:13-18 | the `reduce` loop builds the initial dictionary from the trains |
| TrackMap.AnimatedPositions.Tick | src/components/TrainMovement/TrackMap.tsx:21-33 | the `forEach` loop over a copy of the dictionary leaves it as the entry-by-entry update in list order, keeping every train's key |
| TrackMap.AnimatedPositions.DrawnProgress | src/components/TrainMovement/TrackMap.tsx:58 | the animated value when present and non-zero, otherwise the train's own position |
| TrackMap.AnimatedPositions.CalculateTrainPosition | src/components/TrainMovement/TrackMap.tsx:57-61 | the point drawn for a train on its track; stated by `DrawnBetweenEnds` |
| TrackMap.DrawnBetweenEnds | src/components/TrainMovement/TrackMap.tsx:57-61 | a train drawn at a progress in [0, 100] lies between its track's ends on both axes, at the start for 0 and at the end for 100 |
| TrackMap.FindTrain | src/components/TrainMovement/TrackMap.tsx:53 | the first train with the id, or nothing exactly when no train has it |
| TrackMap.FindTrack | src/components/TrainMovement/TrackMap.tsx:54 | the first track whose id is the train's track id, or nothing exactly when none is |
| TrackMap.GetTrackForTrain | src/components/TrainMovement/TrackMap.tsx:52-55 | the track of a train looked up by id; stated by `GetTrackForTrainCases` |
| TrackMap.GetTrackForTrainCases | src/components/TrainMovement/TrackMap.tsx:52-55 | no track for an unknown train or a train without a track id; otherwise the track found carries the train's track id |
| App.SetAccepted | src/App.tsx:49-63 | the handlers keep the list's length |
| App.HandleAcceptRecommendation | src/App.tsx:49-55 | accepting a recommendation by id; stated by `AcceptChangesOnlyMatching` and `DecisionsCompose` |
| App.HandleRejectRecommendation | src/App.tsx:57-63 | rejecting a recommendation by id; stated by `RejectChangesOnlyMatching` and `DecisionsCompose` |
| App.AcceptChangesOnlyMatching | src/App.tsx:49-55 | every recommendation with the id becomes accepted; all others stay identical; no other field changes; order is kept |
| App.RejectChangesOnlyMatching | src/App.tsx:57-63 | every recommendation with the id becomes rejected; all others stay identical; no other field changes; order is kept |
| App.DecisionsCompose | src/App.tsx:49-63 | a repeated click changes nothing; the last decision on an id stands; decisions on different ids commute |
| App.JitterTrains | src/App.tsx:28-34 | the tick keeps the number of trains |
| App.JitterTrain | src/App.tsx:29-34 | one train's jitter leaves speed and delay at least 0, a non-negative position in [0, 100), and every field other than speed, delay and position unchanged |
| App.JitterKeepsTrains | src/App.tsx:28-34 | every train has speed and delay at least 0 after a tick; only speed, delay and position change |
| App.JitterDrift | src/App.tsx:31-32 | the speed moves by at most 5 and the delay by -1.4 to +0.6, except where held at 0 |
| App.JitterPositionUsesOldSpeed | src/App.tsx:33 | the new position does not depend on the speed draw; it is in [0, 100) for a non-negative position and speed, and is `position + speed/100` when that is below 100 |
| App.KpiTick | src/App.tsx:38-43 | one KPI tick leaves average delay and throughput at least 0, utilization in [0, 100] and the train count unchanged |
| App.KpiTickRanges | src/App.tsx:38-43 | after a KPI tick average delay and throughput are at least 0 and utilization is in [0, 100]; the train count is unchanged |
| App.KpiTicksInRange | src/App.tsx:25-44 | the ranges hold after any number of KPI ticks |
| App.KpiTickDrift | src/App.tsx:38-43 | with draws in [0, 1) and indicators in range, one tick moves utilization by at most 1.5 either way, raises the average delay by less than 0.4 and the throughput by less than 1 |
| App.KpiTicksDrift | src/App.tsx:25-44 | over `n` ticks with draws in [0, 1), from indicators in range, utilization stays within `1.5 n` of its start, the average delay grows by at most `0.4 n` and the throughput by at most `n` |
| Common.JsRem | src/components/TrainMovement/TrackMap.tsx:28 | JavaScript's `%` for a positive divisor: the result has the dividend's sign, lies within one divisor of 0, and is the dividend itself when that is already within |
| Common.Clamp | src/utils/trainDataGenerator.ts:347 | `Math.max(lo, Math.min(hi, x))` lies in [lo, hi], is `x` inside, and is the bound crossed outside |
| Common.Includes | src/components/TrainMovement/LiveTrainMap.tsx:296-297 | `includes` is true exactly when the text occurs at some position |
| Common.Lower | src/components/TrainMovement/LiveTrainMap.tsx:296-297 | lowercasing keeps the length and lowercases each ASCII letter |
| Common.PrefixedDecimalInjective | src/utils/trainDataGenerator.ts:454 | ids built from a fixed prefix and different numbers differ |

## Left out

- **Floating point.** Numbers are exact reals. Rounding, NaN and Infinity are not modelled. The `isFinite` fallback of the in-range heading (src/utils/trainDataGenerator.ts:376) can never apply, because the modelled heading is always finite.
- **Opaque geometry.** `Math.sqrt`, `Math.atan2` and the sine, cosine and metres-per-degree step of the fallback are the `Geo` parameter. So are the raw bearing used as the heading of a switched or snapped train and the live map's heading. Properties about those headings are stated in terms of that parameter.
- **Randomness, clocks and timers.** `Math.random` draws are parameters. `lastUpdated`, `estimatedArrival` and the `setInterval`/`useEffect` scheduling are not modelled.
- **Track ids and names.** The snapped track's random id and name string, and its canvas fields (`startX`… `endY`, `isOccupied`, `type`), are not modelled. Neither are the generated placeholder track's `track-${i}` id and `${origin} Main Line` name (src/utils/trainDataGenerator.ts:469-470). The engine never reads them.
- **Default count.** `generateTrainData`'s default `count = 10` (src/utils/trainDataGenerator.ts:426) is not modelled: `count` is always a parameter. Its one caller (src/components/TrainMovement/LiveTrainMap.tsx:187) passes a count.
- **Unbounded redraw.** The do-while redraw of the destination could in principle run for ever. The model takes a finite list of draws per train and requires that one of them leaves the origin.
- **Dynamic defaults.** The `as any` default-filling of an attachment (src/utils/trainDataGenerator.ts:260-271) is not modelled dynamically. An attachment is a typed `Track` with those defaults already applied. For a generated train this is `Generator.PlaceholderTrack`: direction East, an empty route, segments 0, heading 0.
- **The engine's network.** `RAILWAY_ROUTES` is the parameter `routes` and `MAJOR_CITIES` is not used. Every network property is stated for any network.
- **The live map's attachment.** A map train's attachment is kept as its `from`/`to` fields, and its `currentTrack` is unset. The map only reads those end points.
- **TrackMap key ids.** The schematic view compares a train's `currentTrack` with a track id. The model gives the train a `trackId` string, as the dashboard's data supplies.
- **TrackMap missing entries.** A missing dictionary entry would make the update produce NaN. That cannot arise, because the dictionary is built from the same trains the callback walks. The class invariant `Valid` states that the trains are all keys.
- **Letter case.** `toLowerCase` is modelled on ASCII letters only.
- **Search-box interaction.** `handleSearch` in `LiveTrainMap.tsx` only moves the map view and reports a selection. It is not modelled.
- **Rendering.** All JSX rendering is not modelled: the Leaflet map, markers, icons, clusters, charts and the other panels.
