/** The live map's own demo fleet (src/components/TrainMovement/LiveTrainMap.tsx):
    the trains it places on its track lines, its half-second tick, the
    search-and-type filter and the type toggles.

    The map keeps its own list of lines (each a route of waypoints) and
    moves every train by a fixed 0.1 percent per tick along the first two
    waypoints of its line; a train that passes 100 percent starts again at
    0 on the next line, cyclically. */
module LiveTrainMap {
  import opened Common
  import opened TrainTypes
  import opened Geometry

  /** A train as the map holds it: the generated record (with the map's id,
      coordinates, heading, percent progress and direction written into it)
      plus the segment it is drawn on and the indices of its current and
      next line. */
  datatype MapTrain = MapTrain(
    train: Train,
    from: Point,
    to: Point,
    currentSegment: int,
    nextSegment: int)

  /** The map's lines, from Delhi, Mumbai, Chennai and Bangalore. */
  const MapLines: seq<Route> := [
    [Point(28.6139, 77.2090), Point(27.0238, 74.2179), Point(26.9124, 75.7873), Point(24.5854, 73.7125),
     Point(23.0225, 72.5714), Point(22.3072, 73.1812), Point(20.4283, 72.8397), Point(19.0760, 72.8777)],
    [Point(28.6139, 77.2090), Point(27.1767, 78.0081), Point(26.4499, 80.3319), Point(25.4358, 81.8463),
     Point(25.5941, 85.1376), Point(24.6336, 87.8493), Point(23.3441, 88.2461), Point(22.5726, 88.3639)],
    [Point(19.0760, 72.8777), Point(18.5204, 73.8567), Point(17.6599, 75.9064), Point(16.5186, 80.4970),
     Point(13.0827, 80.2707)],
    [Point(13.0827, 80.2707), Point(12.9716, 77.5946)],
    [Point(12.9716, 77.5946), Point(14.4222, 77.7115), Point(15.8281, 78.0373), Point(17.3850, 78.4867)],
    [Point(19.0760, 72.8777), Point(18.5204, 73.8567), Point(17.6599, 75.9064), Point(17.6868, 77.5996),
     Point(17.3850, 78.4867)],
    [Point(28.6139, 77.2090), Point(27.4924, 77.6737), Point(26.9124, 75.7873)]
  ]

  /** Every line the map destructures has at least two waypoints. */
  predicate LinesWellFormed(lines: seq<Route>)
  {
    |lines| > 0 && forall k :: 0 <= k < |lines| ==> |lines[k]| >= 2
  }

  lemma MapLinesWellFormed()
    ensures LinesWellFormed(MapLines) && |MapLines| == 7
  {
  }

  /** The map train built from the `index`-th generated train and its
      position draw `r` in [0, 1). */
  function InitialTrain(index: nat, base: Train, r: real, lines: seq<Route>, geo: Geo): MapTrain
    requires LinesWellFormed(lines)
  {
    var segmentIndex := index % |lines|;
    var from, to := lines[segmentIndex][0], lines[segmentIndex][1];
    var position := r * 100.0;
    var at := Lerp(from, to, position / 100.0);
    MapTrain(
      base.(id := "TRAIN-" + DecimalString(index + 1), lat := at.lat, lng := at.lng,
            heading := geo.bearing(from, to), position := position, currentTrack := None, direction := East),
      from, to, segmentIndex, (segmentIndex + 1) % |lines|)
  }

  /** generateInitialTrains: one map train per generated train. */
  function InitialTrains(fleet: seq<Train>, draws: seq<real>, lines: seq<Route>, geo: Geo): (ts: seq<MapTrain>)
    requires LinesWellFormed(lines) && |draws| == |fleet|
    ensures |ts| == |fleet|
  {
    seq(|fleet|, i requires 0 <= i < |fleet| => InitialTrain(i, fleet[i], draws[i], lines, geo))
  }

  /** What the map keeps true of a train: it runs East, its percent lies in
      [0, 100], its line indices are valid and the next line follows the
      current one cyclically. */
  predicate MapInvariant(t: MapTrain, lines: seq<Route>)
  {
    && t.train.direction == East
    && 0.0 <= t.train.position <= 100.0
    && 0 <= t.currentSegment < |lines|
    && ValidNext(t, lines)
    && t.nextSegment == (t.currentSegment + 1) % |lines|
  }

  /** The next line index names a line. */
  predicate ValidNext(t: MapTrain, lines: seq<Route>)
  {
    0 <= t.nextSegment < |lines|
  }

  /** The fixed step of a tick. */
  const Speed: real := 0.1

  /** One tick of one map train. */
  function Tick(t: MapTrain, lines: seq<Route>, geo: Geo): MapTrain
    requires LinesWellFormed(lines) && ValidNext(t, lines)
  {
    var newPosition := t.train.position + (if t.train.direction == East then Speed else -Speed);
    if newPosition > 100.0 then
      var newCurrent := t.nextSegment;
      var newFrom, newTo := lines[newCurrent][0], lines[newCurrent][1];
      var at := Lerp(newFrom, newTo, 0.0 / 100.0);
      MapTrain(
        t.train.(lat := at.lat, lng := at.lng, heading := geo.bearing(newFrom, newTo), position := 0.0),
        newFrom, newTo, newCurrent, (newCurrent + 1) % |lines|)
    else
      var at := Lerp(t.from, t.to, newPosition / 100.0);
      t.(train := t.train.(lat := at.lat, lng := at.lng, position := newPosition))
  }

  /** updateTrainPositions: every train takes one tick. */
  function UpdateTrainPositions(ts: seq<MapTrain>, lines: seq<Route>, geo: Geo): (r: seq<MapTrain>)
    requires LinesWellFormed(lines)
    requires forall i :: 0 <= i < |ts| ==> ValidNext(ts[i], lines)
    ensures |r| == |ts|
  {
    seq(|ts|, i requires 0 <= i < |ts| => Tick(ts[i], lines, geo))
  }

  /** `n` ticks in a row, for trains that keep the map invariant. */
  function Ticks(ts: seq<MapTrain>, lines: seq<Route>, geo: Geo, n: nat): seq<MapTrain>
    requires LinesWellFormed(lines)
    requires forall i {:trigger ts[i]} :: 0 <= i < |ts| ==> MapInvariant(ts[i], lines)
    decreases n
  {
    if n == 0 then ts
    else
      UpdateKeepsInvariant(ts, lines, geo);
      Ticks(UpdateTrainPositions(ts, lines, geo), lines, geo, n - 1)
  }

  // ----- properties -----

  /** The initial trains are numbered from 1, sit on line `index` modulo the
      number of lines with the next line after it, run East, and are drawn
      at their percent of the line's first segment. */
  lemma InitialTrainsProperties(fleet: seq<Train>, draws: seq<real>, lines: seq<Route>, geo: Geo)
    requires LinesWellFormed(lines) && |draws| == |fleet|
    requires forall i :: 0 <= i < |draws| ==> 0.0 <= draws[i] < 1.0
    ensures var ts := InitialTrains(fleet, draws, lines, geo);
            forall i :: 0 <= i < |ts| ==>
              && ts[i].train.id == "TRAIN-" + DecimalString(i + 1)
              && ts[i].currentSegment == i % |lines|
              && ts[i].nextSegment == (ts[i].currentSegment + 1) % |lines|
              && ts[i].from == lines[i % |lines|][0] && ts[i].to == lines[i % |lines|][1]
              && 0.0 <= ts[i].train.position < 100.0
              && Point(ts[i].train.lat, ts[i].train.lng) == Lerp(ts[i].from, ts[i].to, ts[i].train.position / 100.0)
              && MapInvariant(ts[i], lines)
              && ts[i].train.name == fleet[i].name && ts[i].train.kind == fleet[i].kind
  {
    var ts := InitialTrains(fleet, draws, lines, geo);
    forall i | 0 <= i < |ts|
      ensures 0.0 <= ts[i].train.position < 100.0
    {
      MulLt(draws[i], 1.0, 100.0);
      MulLe(0.0, draws[i], 100.0);
    }
  }

  /** The map's trains have distinct ids. */
  lemma InitialIdsDistinct(fleet: seq<Train>, draws: seq<real>, lines: seq<Route>, geo: Geo, i: nat, j: nat)
    requires LinesWellFormed(lines) && |draws| == |fleet|
    requires i < |fleet| && j < |fleet| && i != j
    ensures InitialTrains(fleet, draws, lines, geo)[i].train.id != InitialTrains(fleet, draws, lines, geo)[j].train.id
  {
    PrefixedDecimalInjective("TRAIN-", i + 1, j + 1);
  }

  /** A tick moves the percent by exactly 0.1, forward for East and back
      otherwise; past 100 it restarts at 0 on the next line (no carry of
      the excess), whose successor becomes the next line. */
  lemma TickStep(t: MapTrain, lines: seq<Route>, geo: Geo)
    requires LinesWellFormed(lines) && ValidNext(t, lines)
    ensures var r := Tick(t, lines, geo);
            var p := t.train.position + (if t.train.direction == East then 0.1 else -0.1);
            && (p <= 100.0 ==> r.train.position == p && r.currentSegment == t.currentSegment
                               && r.nextSegment == t.nextSegment && r.from == t.from && r.to == t.to
                               && Point(r.train.lat, r.train.lng) == Lerp(t.from, t.to, p / 100.0)
                               && r.train.heading == t.train.heading)
            && (p > 100.0 ==> r.train.position == 0.0 && r.currentSegment == t.nextSegment
                              && r.nextSegment == (t.nextSegment + 1) % |lines|
                              && r.from == lines[t.nextSegment][0] && r.to == lines[t.nextSegment][1]
                              && Point(r.train.lat, r.train.lng) == r.from)
            && r.train.(lat := t.train.lat, lng := t.train.lng, heading := t.train.heading,
                        position := t.train.position) == t.train
  {
  }

  /** A tick keeps the map invariant of every train. */
  lemma TickKeepsInvariant(t: MapTrain, lines: seq<Route>, geo: Geo)
    requires LinesWellFormed(lines) && MapInvariant(t, lines)
    ensures MapInvariant(Tick(t, lines, geo), lines)
  {
    var p := t.train.position + 0.1;
    if p > 100.0 {
      assert Tick(t, lines, geo).currentSegment == t.nextSegment;
    }
  }

  /** updateTrainPositions maps the list one to one: same length, same
      order, same ids, and every train keeps the invariant. */
  lemma UpdateKeepsInvariant(ts: seq<MapTrain>, lines: seq<Route>, geo: Geo)
    requires LinesWellFormed(lines)
    requires forall i {:trigger ts[i]} :: 0 <= i < |ts| ==> MapInvariant(ts[i], lines)
    ensures forall i :: 0 <= i < |ts| ==> ValidNext(ts[i], lines)
    ensures var r := UpdateTrainPositions(ts, lines, geo);
            && |r| == |ts|
            && (forall i :: 0 <= i < |r| ==> r[i] == Tick(ts[i], lines, geo) && r[i].train.id == ts[i].train.id)
            && (forall i :: 0 <= i < |r| ==> MapInvariant(r[i], lines))
  {
    var r := UpdateTrainPositions(ts, lines, geo);
    forall i | 0 <= i < |r|
      ensures MapInvariant(r[i], lines)
    {
      TickKeepsInvariant(ts[i], lines, geo);
    }
  }

  /** After any number of ticks the fleet has the same size and ids, and
      every train still runs East within [0, 100] on valid lines. */
  lemma {:induction false} TicksKeepInvariant(ts: seq<MapTrain>, lines: seq<Route>, geo: Geo, n: nat)
    requires LinesWellFormed(lines)
    requires forall i {:trigger ts[i]} :: 0 <= i < |ts| ==> MapInvariant(ts[i], lines)
    ensures var r := Ticks(ts, lines, geo, n);
            && |r| == |ts|
            && (forall i :: 0 <= i < |r| ==> r[i].train.id == ts[i].train.id && MapInvariant(r[i], lines))
    decreases n
  {
    if n > 0 {
      UpdateKeepsInvariant(ts, lines, geo);
      TicksKeepInvariant(UpdateTrainPositions(ts, lines, geo), lines, geo, n - 1);
    }
  }

  // ----- the filter and the type toggles -----

  /** Which kinds of train the map shows. */
  datatype VisibleTypes = VisibleTypes(express: bool, freight: bool, local: bool)

  function IsVisible(v: VisibleTypes, k: Kind): bool
  {
    match k
    case Express => v.express
    case Freight => v.freight
    case Local => v.local
  }

  /** The search matches when it is empty or when the lowercased name or id
      contains the lowercased search text. */
  predicate MatchesSearch(t: MapTrain, search: string)
  {
    search == [] || Includes(Lower(t.train.name), Lower(search)) || Includes(Lower(t.train.id), Lower(search))
  }

  predicate Shown(t: MapTrain, search: string, v: VisibleTypes)
  {
    MatchesSearch(t, search) && IsVisible(v, t.train.kind)
  }

  /** filteredTrains: the trains shown, in list order. */
  function FilteredTrains(ts: seq<MapTrain>, search: string, v: VisibleTypes): (r: seq<MapTrain>)
    ensures |r| <= |ts|
    ensures forall t :: t in r <==> t in ts && Shown(t, search, v)
  {
    if ts == [] then []
    else (if Shown(ts[0], search, v) then [ts[0]] else []) + FilteredTrains(ts[1..], search, v)
  }

  /** The filter keeps the list order: filtering a concatenation filters
      each part. */
  lemma {:induction false} FilterDistributes(a: seq<MapTrain>, b: seq<MapTrain>, search: string, v: VisibleTypes)
    ensures FilteredTrains(a + b, search, v) == FilteredTrains(a, search, v) + FilteredTrains(b, search, v)
  {
    if a == [] {
      assert a + b == b;
    } else {
      assert (a + b)[0] == a[0];
      assert (a + b)[1..] == a[1..] + b;
      FilterDistributes(a[1..], b, search, v);
    }
  }

  /** With an empty search and every type on, every train is shown. */
  lemma {:induction false} FilterShowsAllByDefault(ts: seq<MapTrain>)
    ensures FilteredTrains(ts, [], VisibleTypes(true, true, true)) == ts
  {
    if ts != [] {
      FilterShowsAllByDefault(ts[1..]);
    }
  }

  /** A train whose id contains the search text, in any letter case, is
      shown when its type is on. */
  lemma IdSearchFinds(t: MapTrain, search: string, v: VisibleTypes, i: nat)
    requires OccursAt(Lower(t.train.id), Lower(search), i) && IsVisible(v, t.train.kind)
    ensures Shown(t, search, v)
  {
  }

  /** toggleTrainType: flip the one flag. */
  function ToggleTrainType(v: VisibleTypes, k: Kind): (r: VisibleTypes)
    ensures IsVisible(r, k) == !IsVisible(v, k)
    ensures forall k2 :: k2 != k ==> IsVisible(r, k2) == IsVisible(v, k2)
  {
    match k
    case Express => v.(express := !v.express)
    case Freight => v.(freight := !v.freight)
    case Local => v.(local := !v.local)
  }

  /** Toggling the same type twice restores the flags. */
  lemma ToggleTwice(v: VisibleTypes, k: Kind)
    ensures ToggleTrainType(ToggleTrainType(v, k), k) == v
  {
  }
}
