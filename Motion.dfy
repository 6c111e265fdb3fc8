/** One tick of a train's movement (updateTrainPosition in
    src/utils/trainDataGenerator.ts).

    A train without an attachment is snapped to the nearest segment of the
    network; failing that it dead-reckons inside a box around India. A train
    with an attachment advances its progress along the current segment by
    its speed and, when the progress leaves [0, 1], moves to the neighbouring
    segment of its route, turning round at either end of the route, or stays
    clamped at the end of its segment when there is no neighbour. */
module Motion {
  import opened Common
  import opened TrainTypes
  import opened Geometry
  import opened Network

  // ----- the bounds of the dead-reckoning fallback (INDIA_BOUNDS) -----

  const IndiaNorth: real := 37.6
  const IndiaSouth: real := 6.4
  const IndiaEast: real := 97.25
  const IndiaWest: real := 68.7

  // ----- advancing along the current segment -----

  /** The smallest segment length the step divides by. */
  const MinSegmentLength: real := 0.000001

  /** `Math.max(length || 1, 0.000001)`: a zero length counts as 1. */
  function SegmentLength(length: real): (l: real)
    ensures l >= MinSegmentLength
    ensures length == 0.0 ==> l == 1.0
    ensures length >= MinSegmentLength ==> l == length
  {
    Max(if length == 0.0 then 1.0 else length, MinSegmentLength)
  }

  /** +1 along the route for 'East', -1 for any other direction. */
  function DirectionSign(d: Compass): int
  {
    if d == East then 1 else -1
  }

  /** The progress one tick adds: the speed per hour read per second,
      divided by the segment length. */
  function ProgressStep(speedKmh: real, length: real): (s: real)
    ensures speedKmh >= 0.0 ==> s >= 0.0
    ensures speedKmh > 0.0 ==> s > 0.0
  {
    var segmentLength := SegmentLength(length);
    PositiveReciprocal(segmentLength);
    (speedKmh / 3600.0) * (1.0 / segmentLength)
  }

  lemma PositiveReciprocal(l: real)
    requires l > 0.0
    ensures 1.0 / l > 0.0
  {
  }

  /** The progress after one tick, before any change of segment. */
  function NewPosition(track: Track, speedKmh: real): real
  {
    track.position + DirectionSign(track.direction) as real * ProgressStep(speedKmh, track.length)
  }

  /** How far the progress went past the end it crossed. */
  function Overshoot(newPosition: real): (o: real)
    ensures newPosition > 1.0 ==> o > 0.0 && o == newPosition - 1.0
    ensures newPosition < 0.0 ==> o > 0.0 && o == -newPosition
  {
    if newPosition > 1.0 then newPosition - 1.0 else -newPosition
  }

  /** The turned-round direction: 'East' becomes 'West', anything else 'East'. */
  function Flip(d: Compass): (f: Compass)
    ensures DirectionSign(f) == -DirectionSign(d)
  {
    if d == East then West else East
  }

  /** What switchToNextSegment produces. */
  datatype Switched = Switched(
    from: Point,
    to: Point,
    currentSegment: int,
    position: real,
    heading: real,
    length: real,
    direction: Compass)

  /** switchToNextSegment: the neighbouring segment in the direction of
      travel, or, when there is none, the neighbouring segment on the other
      side with the direction flipped; nothing when neither exists. */
  function SwitchToNextSegment(route: Route, currentIdx: int, sign: int, overshoot: real,
                               direction: Compass, geo: Geo): Option<Switched>
  {
    var ahead := currentIdx + sign;
    var reversed := ahead < 0 || ahead >= |route| - 1;
    var nextIdx := if reversed then currentIdx - sign else ahead;
    if 0 <= nextIdx < |route| - 1 then
      var from, to := route[nextIdx], route[nextIdx + 1];
      var length := geo.length(from, to);
      Some(Switched(from, to, nextIdx, overshoot, geo.bearing(from, to),
                    if length == 0.0 then 1.0 else length,
                    if reversed then Flip(direction) else direction))
    else
      None
  }

  /** switchToNextSegment keeps going when the segment ahead exists, turns
      round onto the segment behind when only that one exists, and gives up
      when neither does; what it returns is a segment of the route, carrying
      the overshoot as its progress. */
  lemma SwitchToNextSegmentCases(route: Route, idx: int, sign: int, overshoot: real, direction: Compass, geo: Geo)
    ensures var s := SwitchToNextSegment(route, idx, sign, overshoot, direction, geo);
            && (0 <= idx + sign < |route| - 1 ==>
                  s.Some? && s.value.currentSegment == idx + sign && s.value.direction == direction)
            && (!(0 <= idx + sign < |route| - 1) && 0 <= idx - sign < |route| - 1 ==>
                  s.Some? && s.value.currentSegment == idx - sign && s.value.direction == Flip(direction))
            && (s.None? <==> !(0 <= idx + sign < |route| - 1) && !(0 <= idx - sign < |route| - 1))
            && (s.Some? ==>
                  && 0 <= s.value.currentSegment <= |route| - 2
                  && SegmentIs(route, s.value.currentSegment, s.value.from, s.value.to)
                  && s.value.position == overshoot
                  && s.value.length != 0.0
                  && s.value.heading == geo.bearing(s.value.from, s.value.to))
  {
  }

  /** The compass heading the in-range branch derives from the raw bearing,
      `(360 - (raw + 90) % 360) % 360` with JavaScript's remainder. */
  function CompassHeading(raw: real): (h: real)
    ensures 0.0 <= h < 360.0
  {
    JsRem(360.0 - JsRem(raw + 90.0, 360.0), 360.0)
  }

  // ----- the fallback -----

  /** Dead reckoning from the heading, kept one degree outside INDIA_BOUNDS;
      a train pushed back across the latitude bounds gets heading
      `(360 - h) % 360`, one pushed back across the longitude bounds
      `(180 - h + 360) % 360`, the longitude rule winning. */
  function DeadReckon(train: Train, geo: Geo): Train
  {
    var moved := geo.deadReckon(Point(train.lat, train.lng), train.currentSpeed, train.heading);
    var lat := Clamp(IndiaSouth - 1.0, IndiaNorth + 1.0, moved.lat);
    var lng := Clamp(IndiaWest - 1.0, IndiaEast + 1.0, moved.lng);
    var heading :=
      if moved.lng != lng then JsRem(180.0 - train.heading + 360.0, 360.0)
      else if moved.lat != lat then JsRem(360.0 - train.heading, 360.0)
      else train.heading;
    train.(lat := lat, lng := lng, heading := heading)
  }

  // ----- the tick -----

  /** Movement of a train attached to `track`. */
  function MoveAlongTrack(train: Train, track: Track, geo: Geo): Train
  {
    var newPosition := NewPosition(track, train.currentSpeed);
    if newPosition > 1.0 || newPosition < 0.0 then
      var overshoot := Overshoot(newPosition);
      match SwitchToNextSegment(track.route, track.currentSegment, DirectionSign(track.direction),
                                overshoot, track.direction, geo)
      case Some(sw) =>
        var at := Lerp(sw.from, sw.to, sw.position);
        train.(lat := at.lat, lng := at.lng, heading := sw.heading,
               currentTrack := Some(track.(from := sw.from, to := sw.to, currentSegment := sw.currentSegment,
                                           position := sw.position, length := sw.length,
                                           heading := sw.heading, direction := sw.direction)))
      case None =>
        var clamped := Clamp(0.0, 1.0, newPosition);
        var at := Lerp(track.from, track.to, clamped);
        train.(lat := at.lat, lng := at.lng,
               heading := if track.heading != 0.0 then track.heading else train.heading,
               currentTrack := Some(track.(position := clamped)))
    else
      var at := Lerp(track.from, track.to, newPosition);
      train.(lat := at.lat, lng := at.lng,
             heading := CompassHeading(geo.bearing(track.from, track.to)),
             currentTrack := Some(track.(position := newPosition)))
  }

  /** updateTrainPosition over the network `routes`. */
  function UpdateTrainPosition(train: Train, routes: seq<Route>, geo: Geo): Train
  {
    match train.currentTrack
    case Some(track) => MoveAlongTrack(train, track, geo)
    case None =>
      match SnapOf(Point(train.lat, train.lng), train.kind, routes, geo)
      case Some(s) => train.(lat := s.lat, lng := s.lng, heading := s.heading, currentTrack := Some(s.track))
      case None => DeadReckon(train, geo)
  }

  // ----- properties -----

  /** A tick changes only the coordinates, the heading and the attachment. */
  lemma UpdateKeepsIdentity(train: Train, routes: seq<Route>, geo: Geo)
    ensures UpdateTrainPosition(train, routes, geo).(lat := train.lat, lng := train.lng, heading := train.heading,
                                                    currentTrack := train.currentTrack) == train
  {
  }

  /** A train that has an attachment keeps one, on the same route, with the
      same next-segment index and speed limit; a train without one gets one
      exactly when the network has a segment. */
  lemma UpdateKeepsAttachment(train: Train, routes: seq<Route>, geo: Geo)
    ensures var r := UpdateTrainPosition(train, routes, geo);
            train.currentTrack.Some? ==>
              && r.currentTrack.Some?
              && r.currentTrack.value.route == train.currentTrack.value.route
              && r.currentTrack.value.nextSegment == train.currentTrack.value.nextSegment
              && r.currentTrack.value.maxSpeed == train.currentTrack.value.maxSpeed
    ensures var r := UpdateTrainPosition(train, routes, geo);
            train.currentTrack.None? ==>
              (r.currentTrack.Some? <==> exists k, i :: IsSegment(routes, k, i))
  {
    SnapProperties(Point(train.lat, train.lng), train.kind, routes, geo);
  }

  /** Within the segment the new progress is stored as computed, the train
      sits at that fraction of its segment and its heading is a compass
      angle in [0, 360). */
  lemma InRangeAdvances(train: Train, track: Track, routes: seq<Route>, geo: Geo)
    requires train.currentTrack == Some(track)
    requires 0.0 <= NewPosition(track, train.currentSpeed) <= 1.0
    ensures var r := UpdateTrainPosition(train, routes, geo);
            var t := r.currentTrack.value;
            && r.currentTrack.Some?
            && t == track.(position := NewPosition(track, train.currentSpeed))
            && Point(r.lat, r.lng) == Lerp(track.from, track.to, t.position)
            && 0.0 <= r.heading < 360.0
  {
  }

  /** An eastbound train advances and a westbound one goes back, by the
      same step for the same speed and segment length. */
  lemma StepFollowsDirection(track: Track, speedKmh: real)
    requires speedKmh > 0.0
    ensures track.direction == East ==> NewPosition(track, speedKmh) > track.position
    ensures track.direction != East ==> NewPosition(track, speedKmh) < track.position
    ensures NewPosition(track.(direction := Flip(track.direction)), speedKmh) - track.position
            == track.position - NewPosition(track, speedKmh)
  {
  }

  /** The progress the engine keeps across a tick moves only by its step:
      when it changes segment the overshoot is what lies beyond the end it
      crossed, and the new segment is a neighbour of the old one on the
      route. */
  lemma SwitchLandsOnNeighbour(train: Train, track: Track, routes: seq<Route>, geo: Geo)
    requires train.currentTrack == Some(track)
    requires var p := NewPosition(track, train.currentSpeed); p > 1.0 || p < 0.0
    requires SwitchToNextSegment(track.route, track.currentSegment, DirectionSign(track.direction),
                                 Overshoot(NewPosition(track, train.currentSpeed)), track.direction, geo).Some?
    ensures var r := UpdateTrainPosition(train, routes, geo);
            var p := NewPosition(track, train.currentSpeed);
            var t := r.currentTrack.value;
            && r.currentTrack.Some?
            && SegmentIs(track.route, t.currentSegment, t.from, t.to)
            && (t.currentSegment == track.currentSegment + 1 || t.currentSegment == track.currentSegment - 1)
            && t.position > 0.0
            && (p > 1.0 ==> t.position == p - 1.0)
            && (p < 0.0 ==> t.position == -p)
            && Point(r.lat, r.lng) == Lerp(t.from, t.to, t.position)
            && r.heading == t.heading
            && t.route == track.route
  {
  }

  /** The direction flips exactly when the segment ahead does not exist:
      with a segment ahead the train keeps its direction and moves one
      segment along it. */
  lemma SwitchTurnsOnlyAtEnds(route: Route, idx: int, direction: Compass, overshoot: real, geo: Geo)
    requires 0 <= idx + DirectionSign(direction) < |route| - 1
    ensures var s := SwitchToNextSegment(route, idx, DirectionSign(direction), overshoot, direction, geo);
            && s.Some?
            && s.value.direction == direction
            && s.value.currentSegment == idx + DirectionSign(direction)
  {
  }

  /** An eastbound train that runs off segment `i` with a segment ahead
      lands on segment `i + 1`, which starts at the waypoint `route[i + 1]`
      it crossed, at the overshoot from that waypoint: the move is
      continuous. */
  lemma EastboundSwitchContinues(train: Train, track: Track, routes: seq<Route>, geo: Geo)
    requires train.currentTrack == Some(track) && track.direction == East
    requires 0 <= track.currentSegment && track.currentSegment + 2 < |track.route|
    requires NewPosition(track, train.currentSpeed) > 1.0
    ensures var r := UpdateTrainPosition(train, routes, geo);
            var t := r.currentTrack.value;
            var i := track.currentSegment;
            var p := NewPosition(track, train.currentSpeed);
            && r.currentTrack.Some?
            && t.route == track.route
            && t.currentSegment == i + 1
            && t.from == track.route[i + 1] && t.to == track.route[i + 2]
            && t.direction == East
            && t.position == p - 1.0
            && Point(r.lat, r.lng) == Lerp(track.route[i + 1], track.route[i + 2], p - 1.0)
  {
    SwitchTurnsOnlyAtEnds(track.route, track.currentSegment, East, Overshoot(NewPosition(track, train.currentSpeed)), geo);
  }

  /** A westbound train that runs off the start of segment `i >= 1` crosses
      the waypoint `route[i]`, but lands on segment `i - 1` at the overshoot
      measured from that segment's start `route[i - 1]`: it is placed near
      the far end of the segment behind, not next to the waypoint it
      crossed, and keeps heading West. */
  lemma WestboundSwitchSkipsBack(train: Train, track: Track, routes: seq<Route>, geo: Geo)
    requires train.currentTrack == Some(track) && track.direction != East
    requires 1 <= track.currentSegment <= |track.route| - 2
    requires NewPosition(track, train.currentSpeed) < 0.0
    ensures var r := UpdateTrainPosition(train, routes, geo);
            var t := r.currentTrack.value;
            var i := track.currentSegment;
            var p := NewPosition(track, train.currentSpeed);
            && r.currentTrack.Some?
            && t.route == track.route
            && t.currentSegment == i - 1
            && t.from == track.route[i - 1] && t.to == track.route[i]
            && t.direction == track.direction
            && t.position == -p
            && t.length == (if geo.length(t.from, t.to) == 0.0 then 1.0 else geo.length(t.from, t.to))
            && Point(r.lat, r.lng) == Lerp(track.route[i - 1], track.route[i], -p)
  {
    SwitchTurnsOnlyAtEnds(track.route, track.currentSegment, track.direction,
                          Overshoot(NewPosition(track, train.currentSpeed)), geo);
  }

  /** A westbound train running off the start of the first segment of a
      route of three or more waypoints turns round onto segment 1, heading
      'East', at the overshoot from that segment's start. */
  lemma FirstSegmentTurnsRound(train: Train, track: Track, routes: seq<Route>, geo: Geo)
    requires train.currentTrack == Some(track) && track.direction != East
    requires |track.route| >= 3 && track.currentSegment == 0
    requires NewPosition(track, train.currentSpeed) < 0.0
    ensures var r := UpdateTrainPosition(train, routes, geo);
            var t := r.currentTrack.value;
            var p := NewPosition(track, train.currentSpeed);
            && r.currentTrack.Some?
            && t.currentSegment == 1
            && t.from == track.route[1] && t.to == track.route[2]
            && t.direction == East
            && t.position == -p
            && Point(r.lat, r.lng) == Lerp(track.route[1], track.route[2], -p)
  {
  }

  /** Two ticks of a westbound train at 72 km/h on the route
      (0, 0) - (0, 1) - (0, 2), at progress
      0.01 of segment 1 (the point (0, 1.01)): the first tick puts it at
      (0, 0.01), on segment 0 next to the route's start, a segment away
      from the waypoint (0, 1) it crossed; the second runs it off the
      route's start, turns it round and puts it back at (0, 1.01) on
      segment 1, now heading East. */
  lemma WestboundHopsBackAndForth(train: Train, track: Track, routes: seq<Route>, geo: Geo)
    requires train.currentTrack == Some(track) && train.currentSpeed == 72.0
    requires track.route == [Point(0.0, 0.0), Point(0.0, 1.0), Point(0.0, 2.0)] && track.currentSegment == 1 && track.direction == West
    requires track.position == 0.01 && track.length == 1.0
    requires geo.length(Point(0.0, 0.0), Point(0.0, 1.0)) == 1.0
    ensures Lerp(track.route[1], track.route[2], track.position) == Point(0.0, 1.01)
    ensures var r1 := UpdateTrainPosition(train, routes, geo);
            && r1.lat == 0.0 && r1.lng == 0.01
            && r1.currentTrack.Some? && r1.currentTrack.value.currentSegment == 0
            && r1.currentTrack.value.direction == West
    ensures var r2 := UpdateTrainPosition(UpdateTrainPosition(train, routes, geo), routes, geo);
            && r2.lat == 0.0 && r2.lng == 1.01
            && r2.currentTrack.Some? && r2.currentTrack.value.currentSegment == 1
            && r2.currentTrack.value.direction == East
            && r2.currentTrack.value.position == 0.01
  {
    assert |track.route| == 3 && track.route[1] == Point(0.0, 1.0) && track.route[2] == Point(0.0, 2.0);
    HopLerp();
    HopFirstTick(train, track, routes, geo);
    var r1 := UpdateTrainPosition(train, routes, geo);
    HopSecondTick(r1, r1.currentTrack.value, routes, geo);
  }

  /** The points of progress 0.01 on the two segments of the example's route. */
  lemma HopLerp()
    ensures Lerp(Point(0.0, 0.0), Point(0.0, 1.0), 0.01) == Point(0.0, 0.01)
    ensures Lerp(Point(0.0, 1.0), Point(0.0, 2.0), 0.01) == Point(0.0, 1.01)
  {
    LerpDueNorth(Point(0.0, 0.0), Point(0.0, 1.0), 0.01);
    LerpDueNorth(Point(0.0, 1.0), Point(0.0, 2.0), 0.01);
  }

  /** Along a segment one degree due north, fraction `t` is `t` degrees. */
  lemma LerpDueNorth(a: Point, b: Point, t: real)
    requires b.lat == a.lat && b.lng == a.lng + 1.0
    ensures Lerp(a, b, t).lat == a.lat && Lerp(a, b, t).lng == a.lng + t
  {
  }

  /** The step of 72 km/h on a segment of length 1 takes progress 0.01 to
      -0.01 going West. */
  lemma HopStep(track: Track)
    requires track.direction == West && track.position == 0.01 && track.length == 1.0
    ensures NewPosition(track, 72.0) == -0.01
  {
    assert SegmentLength(1.0) == 1.0;
    assert ProgressStep(72.0, 1.0) == 0.02;
  }

  /** The first tick of the example: from segment 1 to (0, 0.01) on segment 0. */
  lemma HopFirstTick(train: Train, track: Track, routes: seq<Route>, geo: Geo)
    requires train.currentTrack == Some(track) && train.currentSpeed == 72.0
    requires track.route == [Point(0.0, 0.0), Point(0.0, 1.0), Point(0.0, 2.0)] && track.currentSegment == 1 && track.direction == West
    requires track.position == 0.01 && track.length == 1.0
    requires geo.length(Point(0.0, 0.0), Point(0.0, 1.0)) == 1.0
    ensures var r1 := UpdateTrainPosition(train, routes, geo);
            && r1.lat == 0.0 && r1.lng == 0.01 && r1.currentSpeed == 72.0
            && r1.currentTrack.Some?
            && r1.currentTrack.value.route == [Point(0.0, 0.0), Point(0.0, 1.0), Point(0.0, 2.0)]
            && r1.currentTrack.value.currentSegment == 0
            && r1.currentTrack.value.direction == West
            && r1.currentTrack.value.position == 0.01
            && r1.currentTrack.value.length == 1.0
  {
    assert |track.route| == 3 && track.route[0] == Point(0.0, 0.0) && track.route[1] == Point(0.0, 1.0);
    HopStep(track);
    HopLerp();
    WestboundSwitchSkipsBack(train, track, routes, geo);
    UpdateKeepsIdentity(train, routes, geo);
  }

  /** The second tick of the example: off the start of segment 0, turned
      round onto segment 1 at (0, 1.01). */
  lemma HopSecondTick(train: Train, track: Track, routes: seq<Route>, geo: Geo)
    requires train.currentTrack == Some(track) && train.currentSpeed == 72.0
    requires track.route == [Point(0.0, 0.0), Point(0.0, 1.0), Point(0.0, 2.0)] && track.currentSegment == 0 && track.direction == West
    requires track.position == 0.01 && track.length == 1.0
    ensures var r2 := UpdateTrainPosition(train, routes, geo);
            && r2.lat == 0.0 && r2.lng == 1.01
            && r2.currentTrack.Some? && r2.currentTrack.value.currentSegment == 1
            && r2.currentTrack.value.direction == East
            && r2.currentTrack.value.position == 0.01
  {
    assert |track.route| == 3 && track.route[1] == Point(0.0, 1.0) && track.route[2] == Point(0.0, 2.0);
    HopStep(track);
    HopLerp();
    FirstSegmentTurnsRound(train, track, routes, geo);
  }

  /** An eastbound train running off the last segment of a route of three
      or more waypoints does not turn round on that segment: it is moved
      back to the segment before it, two waypoints behind the end, at the
      overshoot from that segment's start, now heading 'West'. */
  lemma LastSegmentJumpsBack(train: Train, track: Track, routes: seq<Route>, geo: Geo)
    requires train.currentTrack == Some(track)
    requires track.direction == East
    requires |track.route| >= 3 && track.currentSegment == |track.route| - 2
    requires NewPosition(track, train.currentSpeed) > 1.0
    ensures var r := UpdateTrainPosition(train, routes, geo);
            var t := r.currentTrack.value;
            var n := |track.route|;
            && r.currentTrack.Some?
            && t.currentSegment == n - 3
            && t.from == track.route[n - 3] && t.to == track.route[n - 2]
            && t.direction == West
            && t.position == NewPosition(track, train.currentSpeed) - 1.0
  {
  }

  /** On a route with fewer than three waypoints (one segment, or none, as
      for a generated train) a train on segment 0 has no neighbour: progress that leaves
      [0, 1] is clamped to the end it crossed and the direction is kept, so
      the train stops there for good. */
  lemma SingleSegmentClamps(train: Train, track: Track, routes: seq<Route>, geo: Geo)
    requires train.currentTrack == Some(track)
    requires |track.route| <= 2 && track.currentSegment == 0
    requires var p := NewPosition(track, train.currentSpeed); p > 1.0 || p < 0.0
    ensures var r := UpdateTrainPosition(train, routes, geo);
            var p := NewPosition(track, train.currentSpeed);
            var t := r.currentTrack.value;
            && r.currentTrack.Some?
            && t == track.(position := if p > 1.0 then 1.0 else 0.0)
            && Point(r.lat, r.lng) == (if p > 1.0 then track.to else track.from)
            && r.heading == (if track.heading != 0.0 then track.heading else train.heading)
  {
  }

  /** A clamped train stays put: once an eastbound train is held at the
      end of a segment with no neighbour, or a westbound one at its start,
      a further tick keeps its attachment as it is and leaves it at that
      end; since the attachment and the speed do not change, the same holds
      for every later tick. */
  lemma ClampedTrainStaysPut(train: Train, track: Track, routes: seq<Route>, geo: Geo)
    requires train.currentTrack == Some(track)
    requires |track.route| <= 2 && track.currentSegment == 0 && train.currentSpeed > 0.0
    requires (track.direction == East && track.position == 1.0) || (track.direction != East && track.position == 0.0)
    ensures var r := UpdateTrainPosition(train, routes, geo);
            && r.currentTrack == train.currentTrack
            && Point(r.lat, r.lng) == (if track.direction == East then track.to else track.from)
            && UpdateTrainPosition(r, routes, geo).currentTrack == train.currentTrack
  {
    var p := NewPosition(track, train.currentSpeed);
    assert track.direction == East ==> p > 1.0;
    assert track.direction != East ==> p < 0.0;
    var r := UpdateTrainPosition(train, routes, geo);
    assert r.currentTrack == train.currentTrack;
    assert r.currentSpeed == train.currentSpeed;
  }

  // ----- the range of progress over many ticks -----

  /** What keeps an attached train's progress in [0, 1]: its progress is in
      [0, 1] on a segment of its route, its speed is at least 0, and one
      tick's step is at most 1 on its current segment and on every segment
      of its route it may switch to. */
  predicate ProgressInvariant(train: Train, geo: Geo)
  {
    match train.currentTrack
    case None => false
    case Some(t) =>
      && 0.0 <= t.position <= 1.0
      && 0 <= t.currentSegment <= |t.route| - 2
      && 0.0 <= train.currentSpeed
      && ProgressStep(train.currentSpeed, t.length) <= 1.0
      && forall i :: 0 <= i < |t.route| - 1 ==>
           ProgressStep(train.currentSpeed, geo.length(t.route[i], t.route[i + 1])) <= 1.0
  }

  /** The length a switch records for a segment has the same step as the
      length the oracle measured: a length of 0 counts as 1 either way. */
  lemma SwitchedLengthStep(speedKmh: real, length: real)
    ensures ProgressStep(speedKmh, if length == 0.0 then 1.0 else length) == ProgressStep(speedKmh, length)
  {
    assert SegmentLength(if length == 0.0 then 1.0 else length) == SegmentLength(length);
  }

  /** One tick keeps the invariant: with a step of at most 1 from progress
      in [0, 1], the progress after the tick is in [0, 1] again and the
      segment index stays within the route, whether the train stays on its
      segment, switches to a neighbour or is clamped. */
  lemma TickKeepsProgressInRange(train: Train, routes: seq<Route>, geo: Geo)
    requires ProgressInvariant(train, geo)
    ensures var r := UpdateTrainPosition(train, routes, geo);
            && ProgressInvariant(r, geo)
            && r.currentTrack.value.route == train.currentTrack.value.route
  {
    var track := train.currentTrack.value;
    assert UpdateTrainPosition(train, routes, geo) == MoveAlongTrack(train, track, geo);
    var p := NewPosition(track, train.currentSpeed);
    if p > 1.0 || p < 0.0 {
      var sign := DirectionSign(track.direction);
      if SwitchToNextSegment(track.route, track.currentSegment, sign, Overshoot(p), track.direction, geo).Some? {
        SwitchKeepsProgressInRange(train, track, geo);
      } else {
        ClampKeepsProgressInRange(train, track, geo);
      }
    } else {
      assert MoveAlongTrack(train, track, geo).currentTrack == Some(track.(position := p));
    }
  }

  /** The switch branch keeps the invariant: the overshoot carried to the
      neighbouring segment is in (0, 1], and that segment's recorded length
      gives the step the invariant bounds. */
  lemma SwitchKeepsProgressInRange(train: Train, track: Track, geo: Geo)
    requires train.currentTrack == Some(track) && ProgressInvariant(train, geo)
    requires var p := NewPosition(track, train.currentSpeed); p > 1.0 || p < 0.0
    requires SwitchToNextSegment(track.route, track.currentSegment, DirectionSign(track.direction),
                                 Overshoot(NewPosition(track, train.currentSpeed)), track.direction, geo).Some?
    ensures var r := MoveAlongTrack(train, track, geo);
            && ProgressInvariant(r, geo)
            && r.currentTrack.value.route == track.route
  {
    var speed := train.currentSpeed;
    var p := NewPosition(track, speed);
    OvershootAtMostOne(track, speed);
    var o := Overshoot(p);
    var sign := DirectionSign(track.direction);
    var sw := SwitchToNextSegment(track.route, track.currentSegment, sign, o, track.direction, geo).value;
    SwitchToNextSegmentCases(track.route, track.currentSegment, sign, o, track.direction, geo);
    var k := sw.currentSegment;
    var l := geo.length(track.route[k], track.route[k + 1]);
    assert sw.length == (if l == 0.0 then 1.0 else l);
    SwitchedLengthStep(speed, l);
  }

  /** The clamp branch keeps the invariant: the progress is clamped into
      [0, 1] on the same segment. */
  lemma ClampKeepsProgressInRange(train: Train, track: Track, geo: Geo)
    requires train.currentTrack == Some(track) && ProgressInvariant(train, geo)
    requires var p := NewPosition(track, train.currentSpeed); p > 1.0 || p < 0.0
    requires SwitchToNextSegment(track.route, track.currentSegment, DirectionSign(track.direction),
                                 Overshoot(NewPosition(track, train.currentSpeed)), track.direction, geo).None?
    ensures var r := MoveAlongTrack(train, track, geo);
            && ProgressInvariant(r, geo)
            && r.currentTrack.value.route == track.route
  {
  }

  /** A step of at most 1 from progress in [0, 1] overshoots by at most 1. */
  lemma OvershootAtMostOne(track: Track, speedKmh: real)
    requires 0.0 <= track.position <= 1.0 && 0.0 <= speedKmh
    requires ProgressStep(speedKmh, track.length) <= 1.0
    ensures var p := NewPosition(track, speedKmh);
            p > 1.0 || p < 0.0 ==> 0.0 < Overshoot(p) <= 1.0
  {
    var step := ProgressStep(speedKmh, track.length);
    assert track.direction == East ==> NewPosition(track, speedKmh) == track.position + step;
    assert track.direction != East ==> NewPosition(track, speedKmh) == track.position - step;
  }

  /** The tick applied `n` times over the same network. */
  function Ticks(train: Train, routes: seq<Route>, geo: Geo, n: nat): Train
    decreases n
  {
    if n == 0 then train else Ticks(UpdateTrainPosition(train, routes, geo), routes, geo, n - 1)
  }

  /** After any number of ticks a train that starts within the invariant
      still has its progress in [0, 1] on a segment of the same route. */
  lemma {:induction false} TicksKeepProgressInRange(train: Train, routes: seq<Route>, geo: Geo, n: nat)
    requires ProgressInvariant(train, geo)
    ensures var r := Ticks(train, routes, geo, n);
            && r.currentTrack.Some?
            && 0.0 <= r.currentTrack.value.position <= 1.0
            && 0 <= r.currentTrack.value.currentSegment <= |r.currentTrack.value.route| - 2
            && r.currentTrack.value.route == train.currentTrack.value.route
    decreases n
  {
    if n > 0 {
      TickKeepsProgressInRange(train, routes, geo);
      TicksKeepProgressInRange(UpdateTrainPosition(train, routes, geo), routes, geo, n - 1);
    }
  }

  /** Without the bound on the step the range is not kept: a switch carries
      the whole overshoot into the next segment, so a train at 7200 km/h on
      a segment of length 1 at progress 0.5, heading East with a segment
      ahead, lands on that segment at progress 1.5. */
  lemma FastSwitchLeavesRange(train: Train, track: Track, routes: seq<Route>, geo: Geo)
    requires train.currentTrack == Some(track) && train.currentSpeed == 7200.0
    requires track.length == 1.0 && track.position == 0.5 && track.direction == East
    requires |track.route| == 3 && track.currentSegment == 0
    ensures var r := UpdateTrainPosition(train, routes, geo);
            && r.currentTrack.Some?
            && r.currentTrack.value.currentSegment == 1
            && r.currentTrack.value.position == 1.5
  {
    assert SegmentLength(1.0) == 1.0;
    assert ProgressStep(7200.0, 1.0) == 2.0;
    assert NewPosition(track, 7200.0) == 2.5;
  }

  /** The compass heading of the in-range branch is `270 - raw` brought
      into [0, 360): a northbound segment (raw bearing 90) gives 180 and an
      eastbound one (raw bearing 0) gives 270. */
  lemma CompassHeadingFormula(raw: real)
    requires -180.0 < raw <= 180.0
    ensures CompassHeading(raw) == if raw > -90.0 then 270.0 - raw else -90.0 - raw
    ensures CompassHeading(90.0) == 180.0 && CompassHeading(0.0) == 270.0
  {
    var inner := JsRem(raw + 90.0, 360.0);
    assert inner == raw + 90.0;
    var outer := 360.0 - inner;
    if raw > -90.0 {
      assert JsRem(outer, 360.0) == outer;
    } else {
      assert 360.0 <= outer < 720.0;
      JsRemShift(outer);
    }
    assert JsRem(0.0 + 90.0, 360.0) == 90.0;
    assert JsRem(90.0 + 90.0, 360.0) == 180.0;
  }

  /** Removing one full turn from a heading in [360, 720). */
  lemma JsRemShift(x: real)
    requires 360.0 <= x < 720.0
    ensures JsRem(x, 360.0) == x - 360.0
  {
  }

  /** The fallback keeps the train inside INDIA_BOUNDS widened by one
      degree; it turns the train only when a bound was hit, by the
      longitude rule when that bound was hit and by the latitude rule
      otherwise, and a heading in [0, 360) stays in [0, 360). */
  lemma DeadReckonBounds(train: Train, geo: Geo)
    ensures var r := DeadReckon(train, geo);
            var moved := geo.deadReckon(Point(train.lat, train.lng), train.currentSpeed, train.heading);
            && 5.4 <= r.lat <= 38.6
            && 67.7 <= r.lng <= 98.25
            && (5.4 <= moved.lat <= 38.6 ==> r.lat == moved.lat)
            && (67.7 <= moved.lng <= 98.25 ==> r.lng == moved.lng)
            && (5.4 <= moved.lat <= 38.6 && 67.7 <= moved.lng <= 98.25 ==> r.heading == train.heading)
            && (!(67.7 <= moved.lng <= 98.25) ==> r.heading == JsRem(540.0 - train.heading, 360.0))
            && (67.7 <= moved.lng <= 98.25 && !(5.4 <= moved.lat <= 38.6) ==>
                  r.heading == JsRem(360.0 - train.heading, 360.0))
            && (0.0 <= train.heading < 360.0 ==> 0.0 <= r.heading < 360.0)
  {
  }

  /** A northbound train (heading 0) pushed back across a latitude bound
      keeps heading 0, and an eastbound one (heading 90) pushed back across a
      longitude bound keeps heading 90: the rules leave the component of
      travel that crossed the bound unchanged. */
  lemma BounceKeepsCrossingHeading(train: Train, geo: Geo)
    ensures var r := DeadReckon(train.(heading := 0.0), geo);
            var moved := geo.deadReckon(Point(train.lat, train.lng), train.currentSpeed, 0.0);
            67.7 <= moved.lng <= 98.25 ==> r.heading == 0.0
    ensures var r := DeadReckon(train.(heading := 90.0), geo);
            var moved := geo.deadReckon(Point(train.lat, train.lng), train.currentSpeed, 90.0);
            !(67.7 <= moved.lng <= 98.25) ==> r.heading == 90.0
  {
    JsRemShift(450.0);
  }
}
