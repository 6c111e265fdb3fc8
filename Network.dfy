/** The railway network of src/utils/trainDataGenerator.ts: finding the
    segment that follows the current one (findNextSegment) and snapping a
    train to the nearest segment of the network (snapToNearestTrack).

    The network is a sequence of routes, each an ordered list of waypoints;
    segment `i` of a route joins waypoints `i` and `i + 1`. The engine scans
    the routes it was built with; here they are a parameter, so every
    property holds for any network. */
module Network {
  import opened Common
  import opened TrainTypes
  import opened Geometry

  // ----- findNextSegment -----

  /** The route read backwards, as `[...route].reverse()` builds it. */
  function Reverse(r: Route): (rr: Route)
    ensures |rr| == |r|
    ensures forall k :: 0 <= k < |r| ==> rr[k] == r[|r| - 1 - k]
  {
    if r == [] then [] else Reverse(r[1..]) + [r[0]]
  }

  /** Segment `i` of `route` runs from `from` to `to` (both coordinates equal). */
  predicate SegmentIs(route: Route, i: int, from: Point, to: Point)
  {
    0 <= i < |route| - 1 && route[i] == from && route[i + 1] == to
  }

  /** The first index at or after `i` whose segment runs from `from` to `to`. */
  function FirstMatchFrom(route: Route, from: Point, to: Point, i: nat): (m: Option<nat>)
    ensures m.None? ==> forall j :: i <= j ==> !SegmentIs(route, j, from, to)
    ensures m.Some? ==> i <= m.value && SegmentIs(route, m.value, from, to)
    ensures m.Some? ==> forall j :: i <= j < m.value ==> !SegmentIs(route, j, from, to)
    decreases |route| - i
  {
    if i + 1 >= |route| then None
    else if route[i] == from && route[i + 1] == to then Some(i)
    else FirstMatchFrom(route, from, to, i + 1)
  }

  /** What findNextSegment returns when the current segment is found. */
  datatype NextSegment = NextSegment(from: Point, to: Point, isEnd: bool, route: Route, segmentIndex: int)

  /** findNextSegment as a specification: the segment after the first one
      that runs from `from` to `to`; past the last segment, the first
      segment of the reversed route. */
  function NextSegmentOf(route: Route, from: Point, to: Point): Option<NextSegment>
  {
    match FirstMatchFrom(route, from, to, 0)
    case None => None
    case Some(i) =>
      if i + 2 < |route| then Some(NextSegment(route[i + 1], route[i + 2], false, route, i + 1))
      else Some(NextSegment(route[|route| - 1], route[|route| - 2], true, Reverse(route), 0))
  }

  /** findNextSegment: a scan with an early return at the first match. */
  method FindNextSegment(route: Route, currentFrom: Point, currentTo: Point) returns (r: Option<NextSegment>)
    ensures r == NextSegmentOf(route, currentFrom, currentTo)
    ensures r.None? <==> forall j :: !SegmentIs(route, j, currentFrom, currentTo)
    ensures forall i :: SegmentIs(route, i, currentFrom, currentTo)
                        && (forall j :: 0 <= j < i ==> !SegmentIs(route, j, currentFrom, currentTo)) ==>
              r == if i + 2 < |route|
                   then Some(NextSegment(route[i + 1], route[i + 2], false, route, i + 1))
                   else Some(NextSegment(route[|route| - 1], route[|route| - 2], true, Reverse(route), 0))
  {
    var i := 0;
    while i < |route| - 1
      invariant 0 <= i <= |route|
      invariant FirstMatchFrom(route, currentFrom, currentTo, 0) == FirstMatchFrom(route, currentFrom, currentTo, i)
    {
      var from, to := route[i], route[i + 1];
      if from == currentFrom && to == currentTo {
        if i + 2 < |route| {
          r := Some(NextSegment(route[i + 1], route[i + 2], false, route, i + 1));
        } else {
          r := Some(NextSegment(route[|route| - 1], route[|route| - 2], true, Reverse(route), 0));
        }
        FirstMatchUnique(route, currentFrom, currentTo);
        return;
      }
      i := i + 1;
    }
    FirstMatchUnique(route, currentFrom, currentTo);
    r := None;
  }

  /** The first match is the only index that matches with no match before it. */
  lemma FirstMatchUnique(route: Route, from: Point, to: Point)
    ensures FirstMatchFrom(route, from, to, 0).None? <==> forall j :: !SegmentIs(route, j, from, to)
    ensures forall i :: SegmentIs(route, i, from, to) && (forall j :: 0 <= j < i ==> !SegmentIs(route, j, from, to)) ==>
              FirstMatchFrom(route, from, to, 0) == Some(i)
  {
    var m := FirstMatchFrom(route, from, to, 0);
    forall i | SegmentIs(route, i, from, to) && (forall j :: 0 <= j < i ==> !SegmentIs(route, j, from, to))
      ensures m == Some(i)
    {
      assert m.Some?;
    }
  }

  /** The next segment always starts where the current one ends, and it is
      segment `segmentIndex` of the route it comes with; at the end it runs
      back over the current segment as the first segment of the reversed
      route. */
  lemma NextSegmentContinues(route: Route, from: Point, to: Point)
    ensures var r := NextSegmentOf(route, from, to);
            r.Some? ==> r.value.from == to
                        && SegmentIs(r.value.route, r.value.segmentIndex, r.value.from, r.value.to)
                        && (r.value.isEnd ==> r.value.to == from && r.value.segmentIndex == 0)
                        && (!r.value.isEnd ==> r.value.route == route && r.value.segmentIndex >= 1)
  {
  }

  // ----- snapToNearestTrack -----

  /** The running minimum of the scan: the segment, the projection of the
      train onto it and the squared distance to that projection. */
  datatype Nearest = Nearest(
    routeIndex: nat,
    segment: nat,
    from: Point,
    to: Point,
    route: Route,
    point: Point,
    position: real,
    dist2: real)

  /** `(k, i)` names segment `i` of route `k`. */
  predicate IsSegment(routes: seq<Route>, k: int, i: int)
  {
    0 <= k < |routes| && 0 <= i < |routes[k]| - 1
  }

  /** The scan order: route by route, segment by segment. */
  predicate Before(k1: int, i1: int, k2: int, i2: int)
  {
    k1 < k2 || (k1 == k2 && i1 < i2)
  }

  /** The candidate the scan builds for segment `(k, i)`. */
  function CandidateAt(p: Point, routes: seq<Route>, k: nat, i: nat): Nearest
    requires IsSegment(routes, k, i)
  {
    var from, to := routes[k][i], routes[k][i + 1];
    var proj := Project(p, from, to);
    Nearest(k, i, from, to, routes[k], proj.point, proj.position, Dist2(p, proj.point))
  }

  /** The squared distance from `p` to segment `(k, i)`. */
  function SegDist2(p: Point, routes: seq<Route>, k: nat, i: nat): real
    requires IsSegment(routes, k, i)
  {
    CandidateAt(p, routes, k, i).dist2
  }

  /** One step of the scan: a candidate replaces the minimum only when it
      is strictly nearer (`distance < minDistance`, starting from Infinity). */
  function Consider(best: Option<Nearest>, c: Nearest): Option<Nearest>
  {
    if best.None? || c.dist2 < best.value.dist2 then Some(c) else best
  }

  /** The inner loop over the segments of route `k`, from segment `i` on. */
  function ScanRoute(p: Point, routes: seq<Route>, k: nat, i: nat, best: Option<Nearest>): Option<Nearest>
    requires k < |routes|
    decreases |routes[k]| - i
  {
    if i + 1 < |routes[k]| then ScanRoute(p, routes, k, i + 1, Consider(best, CandidateAt(p, routes, k, i)))
    else best
  }

  /** The outer loop over the routes, from route `k` on. */
  function ScanRoutes(p: Point, routes: seq<Route>, k: nat, best: Option<Nearest>): Option<Nearest>
    decreases |routes| - k
  {
    if k < |routes| then ScanRoutes(p, routes, k + 1, ScanRoute(p, routes, k, 0, best)) else best
  }

  /** The whole scan. */
  function NearestSegment(p: Point, routes: seq<Route>): Option<Nearest>
  {
    ScanRoutes(p, routes, 0, None)
  }

  /** What the scan knows once every segment before `(k, i)` has been seen:
      nothing if there was none, otherwise the first segment at the least
      distance. */
  ghost predicate ScannedUpTo(p: Point, routes: seq<Route>, k: int, i: int, best: Option<Nearest>)
  {
    match best
    case None => forall k2, i2 :: IsSegment(routes, k2, i2) ==> !Before(k2, i2, k, i)
    case Some(n) =>
      && IsSegment(routes, n.routeIndex, n.segment)
      && Before(n.routeIndex, n.segment, k, i)
      && n == CandidateAt(p, routes, n.routeIndex, n.segment)
      && (forall k2, i2 :: IsSegment(routes, k2, i2) && Before(k2, i2, k, i) ==> n.dist2 <= SegDist2(p, routes, k2, i2))
      && (forall k2, i2 :: IsSegment(routes, k2, i2) && Before(k2, i2, n.routeIndex, n.segment) ==>
            n.dist2 < SegDist2(p, routes, k2, i2))
  }

  lemma {:induction false} ScanRouteKeeps(p: Point, routes: seq<Route>, k: nat, i: nat, best: Option<Nearest>)
    requires k < |routes| && ScannedUpTo(p, routes, k, i, best)
    ensures ScannedUpTo(p, routes, k + 1, 0, ScanRoute(p, routes, k, i, best))
    decreases |routes[k]| - i
  {
    if i + 1 < |routes[k]| {
      var c := CandidateAt(p, routes, k, i);
      var next := Consider(best, c);
      assert ScannedUpTo(p, routes, k, i + 1, next) by {
        if next == Some(c) {
          if best.Some? {
            var n := best.value;
            forall k2, i2 | IsSegment(routes, k2, i2) && Before(k2, i2, k, i)
              ensures c.dist2 < SegDist2(p, routes, k2, i2)
            {
            }
          }
        }
      }
      ScanRouteKeeps(p, routes, k, i + 1, next);
    } else {
      assert forall k2, i2 :: Before(k2, i2, k + 1, 0) && IsSegment(routes, k2, i2) ==> Before(k2, i2, k, i);
    }
  }

  lemma {:induction false} ScanRoutesKeeps(p: Point, routes: seq<Route>, k: nat, best: Option<Nearest>)
    requires ScannedUpTo(p, routes, k, 0, best)
    ensures ScannedUpTo(p, routes, |routes|, 0, ScanRoutes(p, routes, k, best))
    decreases |routes| - k
  {
    if k < |routes| {
      ScanRouteKeeps(p, routes, k, 0, best);
      ScanRoutesKeeps(p, routes, k + 1, ScanRoute(p, routes, k, 0, best));
    } else {
      assert forall k2, i2 :: IsSegment(routes, k2, i2) ==> (Before(k2, i2, k, 0) <==> Before(k2, i2, |routes|, 0));
    }
  }

  /** The scan finds nothing exactly when no route has two waypoints;
      otherwise it finds the first segment, in route-then-index order, at
      the least distance from `p`. */
  lemma NearestSegmentIsFirstMinimum(p: Point, routes: seq<Route>)
    ensures NearestSegment(p, routes).None? <==> forall k, i :: !IsSegment(routes, k, i)
    ensures NearestSegment(p, routes).Some? ==>
              var n := NearestSegment(p, routes).value;
              && IsSegment(routes, n.routeIndex, n.segment)
              && n == CandidateAt(p, routes, n.routeIndex, n.segment)
              && (forall k, i :: IsSegment(routes, k, i) ==> n.dist2 <= SegDist2(p, routes, k, i))
              && (forall k, i :: IsSegment(routes, k, i) && Before(k, i, n.routeIndex, n.segment) ==>
                    n.dist2 < SegDist2(p, routes, k, i))
  {
    ScanRoutesKeeps(p, routes, 0, None);
    var r := NearestSegment(p, routes);
    assert forall k, i :: IsSegment(routes, k, i) ==> Before(k, i, |routes|, 0);
    if r.Some? {
      var n := r.value;
      assert IsSegment(routes, n.routeIndex, n.segment);
    }
  }

  /** Two scans of the same point over the same network give the same
      segment: ties go to the earlier segment, so the answer is determined by
      the distances alone. */
  lemma NearestSegmentUnique(p: Point, routes: seq<Route>, k: nat, i: nat)
    requires IsSegment(routes, k, i)
    requires forall k2, i2 :: IsSegment(routes, k2, i2) ==> SegDist2(p, routes, k, i) <= SegDist2(p, routes, k2, i2)
    requires forall k2, i2 :: IsSegment(routes, k2, i2) && Before(k2, i2, k, i) ==>
               SegDist2(p, routes, k, i) < SegDist2(p, routes, k2, i2)
    ensures NearestSegment(p, routes) == Some(CandidateAt(p, routes, k, i))
  {
    NearestSegmentIsFirstMinimum(p, routes);
    var n := NearestSegment(p, routes).value;
    assert SegDist2(p, routes, n.routeIndex, n.segment) == n.dist2;
    if Before(n.routeIndex, n.segment, k, i) {
      assert false;
    } else if Before(k, i, n.routeIndex, n.segment) {
      assert false;
    }
  }

  /** The snapped point is a closest point of the whole network: no point
      of any segment is nearer to the train. */
  lemma NearestSegmentIsClosestPoint(p: Point, routes: seq<Route>, k: nat, i: nat, t: real)
    requires IsSegment(routes, k, i) && 0.0 <= t <= 1.0
    ensures NearestSegment(p, routes).Some?
    ensures Dist2(p, NearestSegment(p, routes).value.point) <= Dist2(p, Lerp(routes[k][i], routes[k][i + 1], t))
  {
    NearestSegmentIsFirstMinimum(p, routes);
    ProjectIsClosest(p, routes[k][i], routes[k][i + 1], t);
  }

  /** What snapToNearestTrack hands back: the snapped coordinates, the raw
      bearing of the segment and the new attachment. */
  datatype Snapped = Snapped(lat: real, lng: real, heading: real, track: Track)

  /** The track speed limit the engine assigns by kind of train. */
  function TrackMaxSpeed(kind: Kind): real
  {
    match kind
    case Express => 120.0
    case Freight => 80.0
    case Local => 100.0
  }

  /** snapToNearestTrack as a specification. */
  function SnapOf(p: Point, kind: Kind, routes: seq<Route>, geo: Geo): Option<Snapped>
  {
    match NearestSegment(p, routes)
    case None => None
    case Some(n) =>
      var next := NextSegmentOf(n.route, n.from, n.to);
      var heading := geo.bearing(n.from, n.to);
      Some(Snapped(n.point.lat, n.point.lng, heading,
        Track(n.from, n.to, n.position, geo.length(n.from, n.to), TrackMaxSpeed(kind), heading,
              East, n.route, 0, if next.Some? then 1 else 0)))
  }

  /** snapToNearestTrack: the nested scan keeping a running minimum, then
      the attachment to the segment it found. */
  method SnapToNearestTrack(p: Point, kind: Kind, routes: seq<Route>, geo: Geo) returns (r: Option<Snapped>)
    ensures r == SnapOf(p, kind, routes, geo)
  {
    var best: Option<Nearest> := None;
    var k := 0;
    while k < |routes|
      invariant 0 <= k <= |routes|
      invariant ScanRoutes(p, routes, k, best) == NearestSegment(p, routes)
    {
      var route := routes[k];
      var i := 0;
      while i < |route| - 1
        invariant 0 <= i <= |route|
        invariant ScanRoutes(p, routes, k + 1, ScanRoute(p, routes, k, i, best)) == NearestSegment(p, routes)
      {
        var from, to := route[i], route[i + 1];
        var result := NearestPointOnSegment(p, from, to);
        var distance := Dist2(p, result.point);
        if best.None? || distance < best.value.dist2 {
          best := Some(Nearest(k, i, from, to, route, result.point, result.position, distance));
        }
        i := i + 1;
      }
      k := k + 1;
    }
    if best.None? {
      return None;
    }
    var n := best.value;
    var next := FindNextSegment(n.route, n.from, n.to);
    var heading := geo.bearing(n.from, n.to);
    r := Some(Snapped(n.point.lat, n.point.lng, heading,
      Track(n.from, n.to, n.position, geo.length(n.from, n.to), TrackMaxSpeed(kind), heading,
            East, n.route, 0, if next.Some? then 1 else 0)));
  }

  /** Snapping fails only on a network without segments. A snapped train
      sits at the projection onto the nearest segment, heads East with
      progress in [0, 1], and always records segment 0 with next segment 1,
      whichever segment of the route it was snapped to. */
  lemma SnapProperties(p: Point, kind: Kind, routes: seq<Route>, geo: Geo)
    ensures SnapOf(p, kind, routes, geo).None? <==> forall k, i :: !IsSegment(routes, k, i)
    ensures SnapOf(p, kind, routes, geo).Some? ==>
              var s := SnapOf(p, kind, routes, geo).value;
              var n := NearestSegment(p, routes).value;
              && s.track.currentSegment == 0
              && s.track.nextSegment == 1
              && s.track.direction == East
              && 0.0 <= s.track.position <= 1.0
              && SegmentIs(s.track.route, n.segment, s.track.from, s.track.to)
              && Point(s.lat, s.lng) == Lerp(s.track.from, s.track.to, s.track.position)
              && s.heading == s.track.heading
  {
    NearestSegmentIsFirstMinimum(p, routes);
    var r := NearestSegment(p, routes);
    if r.Some? {
      var n := r.value;
      FirstMatchUnique(n.route, n.from, n.to);
      assert SegmentIs(n.route, n.segment, n.from, n.to);
    }
  }
}
