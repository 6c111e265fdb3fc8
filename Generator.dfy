/** The demo fleet of src/utils/trainDataGenerator.ts (generateTrainData).

    Every call of Math.random is a parameter: each train is built from one
    `TrainDraws` record whose fields are the values the source draws for
    it, each in [0, 1). The destination is redrawn until it differs from the
    origin; the record carries the whole sequence of destination draws. */
module Generator {
  import opened Common
  import opened TrainTypes
  import opened Geometry
  import opened Motion

  /** The cities origins and destinations are drawn from. */
  const Cities: seq<string> :=
    ["Mumbai", "Delhi", "Bangalore", "Hyderabad", "Chennai",
     "Kolkata", "Pune", "Ahmedabad", "Jaipur", "Lucknow"]

  const TrainKinds: seq<Kind> := [Express, Freight, Local]

  const Zones: seq<string> := ["Central", "Western", "Northern", "Southern", "Eastern"]

  /** The values drawn for one train, in the order of the fields. */
  datatype TrainDraws = TrainDraws(
    origin: real,
    destinations: seq<real>,
    kind: real,
    delayChance: real,
    delayAmount: real,
    lat: real,
    lng: real,
    heading: real,
    zone: real,
    speed: real,
    priority: real,
    direction: real)

  /** A destination draw that lands on another city than `originIndex`. */
  predicate LeavesOrigin(originIndex: nat, rs: seq<real>, j: int)
  {
    0 <= j < |rs| && IsRandom(rs[j]) && Pick(rs[j], |Cities|) != originIndex
  }

  /** A destination draw that lands on the origin again. */
  predicate StaysAtOrigin(originIndex: nat, rs: seq<real>, j: int)
  {
    0 <= j < |rs| && IsRandom(rs[j]) && Pick(rs[j], |Cities|) == originIndex
  }

  /** Every draw lies in [0, 1), and some destination draw differs from the
      origin, so that the redraw loop ends. */
  predicate ValidDraws(d: TrainDraws)
  {
    && IsRandom(d.origin) && IsRandom(d.kind) && IsRandom(d.delayChance) && IsRandom(d.delayAmount)
    && IsRandom(d.lat) && IsRandom(d.lng) && IsRandom(d.heading) && IsRandom(d.zone)
    && IsRandom(d.speed) && IsRandom(d.priority) && IsRandom(d.direction)
    && (forall j :: 0 <= j < |d.destinations| ==> IsRandom(d.destinations[j]))
    && (exists j :: 0 <= j < |d.destinations| && LeavesOrigin(Pick(d.origin, |Cities|), d.destinations, j))
  }

  /** `Math.floor(r * n)`: an index into a list of `n` entries. */
  function Pick(r: real, n: nat): (k: nat)
    requires 0.0 <= r < 1.0 && n > 0
    ensures k < n
  {
    var x := r * n as real;
    ScaledDraw(r, n as real);
    assert x.Floor as real <= x < n as real;
    assert x.Floor < n;
    x.Floor
  }

  /** A draw in [0, 1) scaled by a positive `m` lies in [0, m). */
  lemma ScaledDraw(r: real, m: real)
    requires 0.0 <= r < 1.0 && m > 0.0
    ensures 0.0 <= r * m < m
  {
    MulLt(r, 1.0, m);
    MulLe(0.0, r, m);
    assert 1.0 * m == m;
  }

  /** The do-while redraw as a specification: the first destination draw
      that lands on another city. */
  function FirstDestination(originIndex: nat, rs: seq<real>): (k: nat)
    requires forall j :: 0 <= j < |rs| ==> IsRandom(rs[j])
    requires exists j :: LeavesOrigin(originIndex, rs, j)
    ensures k < |Cities| && k != originIndex
    ensures exists j :: LeavesOrigin(originIndex, rs, j) && k == Pick(rs[j], |Cities|)
                        && forall j2 :: 0 <= j2 < j ==> StaysAtOrigin(originIndex, rs, j2)
    decreases |rs|
  {
    var j0 :| LeavesOrigin(originIndex, rs, j0);
    assert IsRandom(rs[0]) && |Cities| == 10;
    var k := Pick(rs[0], |Cities|);
    if k != originIndex then
      assert LeavesOrigin(originIndex, rs, 0);
      k
    else
      var j :| LeavesOrigin(originIndex, rs, j);
      assert LeavesOrigin(originIndex, rs[1..], j - 1);
      var r := FirstDestination(originIndex, rs[1..]);
      var j1 :| LeavesOrigin(originIndex, rs[1..], j1) && r == Pick(rs[1..][j1], |Cities|)
                && forall j2 :: 0 <= j2 < j1 ==> StaysAtOrigin(originIndex, rs[1..], j2);
      assert LeavesOrigin(originIndex, rs, j1 + 1);
      assert forall j2 :: 0 <= j2 < j1 + 1 ==> StaysAtOrigin(originIndex, rs, j2) by {
        forall j2 | 0 <= j2 < j1 + 1 ensures StaysAtOrigin(originIndex, rs, j2) {
          if j2 > 0 { assert StaysAtOrigin(originIndex, rs[1..], j2 - 1); }
        }
      }
      r
  }

  /** The do-while loop: draw, and draw again while the city is the origin. */
  method DrawDestination(originIndex: nat, rs: seq<real>) returns (destIndex: nat)
    requires forall j :: 0 <= j < |rs| ==> IsRandom(rs[j])
    requires exists j :: LeavesOrigin(originIndex, rs, j)
    ensures destIndex == FirstDestination(originIndex, rs)
  {
    var j := 0;
    var w :| LeavesOrigin(originIndex, rs, w);
    assert IsRandom(rs[0]) && rs[0..] == rs;
    destIndex := Pick(rs[0], |Cities|);
    while destIndex == originIndex
      invariant 0 <= j < |rs|
      invariant destIndex == Pick(rs[j], |Cities|)
      invariant exists w :: LeavesOrigin(originIndex, rs[j..], w)
      invariant FirstDestination(originIndex, rs[j..]) == FirstDestination(originIndex, rs)
      decreases |rs| - j
    {
      assert rs[j..][0] == rs[j];
      assert rs[j..][1..] == rs[j + 1..];
      var w :| LeavesOrigin(originIndex, rs[j..], w);
      assert w > 0;
      assert LeavesOrigin(originIndex, rs[j + 1..], w - 1);
      j := j + 1;
      destIndex := Pick(rs[j], |Cities|);
    }
    assert rs[j..][0] == rs[j];
  }

  /** `Math.floor(Math.random() * 60)` when the first draw exceeds 0.7, else 0. */
  function DelayOf(d: TrainDraws): (delay: int)
    requires IsRandom(d.delayChance) && IsRandom(d.delayAmount)
    ensures 0 <= delay < 60
    ensures d.delayChance <= 0.7 ==> delay == 0
  {
    if d.delayChance > 0.7 then Pick(d.delayAmount, 60) else 0
  }

  /** The status rule: over 30 minutes is critical, any delay is delayed. */
  function StatusOf(delay: int): (s: Status)
    ensures s == Critical <==> delay > 30
    ensures s == Delayed <==> 0 < delay <= 30
    ensures s == OnTime <==> delay <= 0
  {
    if delay > 30 then Critical else if delay > 0 then Delayed else OnTime
  }

  /** The attachment every generated train starts with: a segment from
      (0, 0) to (0, 0) of length 0 with progress 0 and no route; the fields
      the source leaves out carry the engine's defaults. */
  const PlaceholderTrack: Track :=
    Track(Point(0.0, 0.0), Point(0.0, 0.0), 0.0, 0.0, 130.0, 0.0, East, [], 0, 0)

  /** The `i`-th train of a generated fleet. */
  function GeneratedTrain(i: nat, d: TrainDraws): Train
    requires ValidDraws(d)
  {
    var originIndex := Pick(d.origin, |Cities|);
    var destIndex := FirstDestination(originIndex, d.destinations);
    var kind := TrainKinds[Pick(d.kind, |TrainKinds|)];
    var delay := DelayOf(d);
    Train(
      "TRAIN-" + DecimalString(10000 + i),
      KindName(kind) + " " + DecimalString(1000 + i),
      kind,
      StatusOf(delay),
      Zones[Pick(d.zone, |Zones|)],
      Cities[originIndex] + " - " + Cities[destIndex],
      80.0 + d.speed * 40.0,
      130.0,
      delay as real,
      Pick(d.priority, 5) + 1,
      Cities[destIndex],
      "",
      Some(PlaceholderTrack),
      0.0,
      if d.direction > 0.5 then North else South,
      20.5937 + (d.lat * 20.0 - 10.0),
      78.9629 + (d.lng * 20.0 - 10.0),
      d.heading * 360.0)
  }

  /** The body of the loop: the `i`-th train, built from its draws. */
  method BuildTrain(i: nat, d: TrainDraws) returns (train: Train)
    requires ValidDraws(d)
    ensures train == GeneratedTrain(i, d)
  {
    var originIndex := Pick(d.origin, |Cities|);
    var destIndex := DrawDestination(originIndex, d.destinations);
    var origin := Cities[originIndex];
    var destination := Cities[destIndex];
    var kind := TrainKinds[Pick(d.kind, |TrainKinds|)];
    var delay := DelayOf(d);
    var status := StatusOf(delay);
    var lat := 20.5937 + (d.lat * 20.0 - 10.0);
    var lng := 78.9629 + (d.lng * 20.0 - 10.0);
    var heading := d.heading * 360.0;
    train := Train(
      "TRAIN-" + DecimalString(10000 + i),
      KindName(kind) + " " + DecimalString(1000 + i),
      kind,
      status,
      Zones[Pick(d.zone, |Zones|)],
      origin + " - " + destination,
      80.0 + d.speed * 40.0,
      130.0,
      delay as real,
      Pick(d.priority, 5) + 1,
      destination,
      "",
      Some(PlaceholderTrack),
      0.0,
      if d.direction > 0.5 then North else South,
      lat,
      lng,
      heading);
  }

  /** The list built by applying `build` to each index and its draw record,
      in index order, as the generating loop pushes them. */
  function Fleet<T>(draws: seq<TrainDraws>, build: (nat, TrainDraws) --> T): seq<T>
    requires forall i :: 0 <= i < |draws| ==> build.requires(i, draws[i])
    decreases |draws|
  {
    if draws == [] then []
    else
      var front := draws[..|draws| - 1];
      assert forall i :: 0 <= i < |front| ==> front[i] == draws[i];
      Fleet(front, build) + [build(|front|, draws[|front|])]
  }

  /** Element `i` of the fleet is the one built from index `i` and its draws. */
  lemma {:induction false} FleetAt<T>(draws: seq<TrainDraws>, build: (nat, TrainDraws) --> T)
    requires forall i :: 0 <= i < |draws| ==> build.requires(i, draws[i])
    ensures |Fleet(draws, build)| == |draws|
    ensures forall i :: 0 <= i < |draws| ==> Fleet(draws, build)[i] == build(i, draws[i])
    decreases |draws|
  {
    if draws != [] {
      var front := draws[..|draws| - 1];
      assert forall i :: 0 <= i < |front| ==> front[i] == draws[i];
      FleetAt(front, build);
    }
  }

  /** Building one more element extends the fleet by exactly that element. */
  lemma FleetSnoc<T>(draws: seq<TrainDraws>, i: nat, build: (nat, TrainDraws) --> T)
    requires i < |draws|
    requires forall k :: 0 <= k <= i ==> build.requires(k, draws[k])
    ensures Fleet(draws[..i + 1], build) == Fleet(draws[..i], build) + [build(i, draws[i])]
  {
    assert draws[..i + 1][..i] == draws[..i];
  }

  /** The generated fleet of `count` trains holds train `i` at index `i`. */
  lemma GeneratedFleet(draws: seq<TrainDraws>, count: nat)
    requires |draws| >= count
    requires forall i :: 0 <= i < count ==> ValidDraws(draws[i])
    ensures |Fleet(draws[..count], GeneratedTrain)| == count
    ensures forall i :: 0 <= i < count ==> Fleet(draws[..count], GeneratedTrain)[i] == GeneratedTrain(i, draws[i])
  {
    var front := draws[..count];
    FleetAt(front, GeneratedTrain);
    forall i | 0 <= i < count
      ensures Fleet(front, GeneratedTrain)[i] == GeneratedTrain(i, draws[i])
    {
      assert front[i] == draws[i];
    }
  }

  /** One pass of the generating loop: pushing train `i` onto the first `i`
      trains of the fleet gives its first `i + 1` trains. */
  lemma GeneratedFleetStep(draws: seq<TrainDraws>, i: nat, trains: seq<Train>, train: Train)
    requires i < |draws|
    requires forall k :: 0 <= k <= i ==> ValidDraws(draws[k])
    requires trains == Fleet(draws[..i], GeneratedTrain)
    requires train == GeneratedTrain(i, draws[i])
    ensures trains + [train] == Fleet(draws[..i + 1], GeneratedTrain)
  {
    FleetSnoc(draws, i, GeneratedTrain);
  }

  /** generateTrainData: a loop that pushes one train per index. */
  method GenerateTrainData(count: nat, draws: seq<TrainDraws>) returns (trains: seq<Train>)
    requires |draws| >= count
    requires forall i :: 0 <= i < count ==> ValidDraws(draws[i])
    ensures |trains| == count
    ensures forall i :: 0 <= i < count ==> trains[i] == GeneratedTrain(i, draws[i])
  {
    trains := [];
    var i := 0;
    while i < count
      invariant 0 <= i <= count
      invariant trains == Fleet(draws[..i], GeneratedTrain)
    {
      var train := BuildTrain(i, draws[i]);
      GeneratedFleetStep(draws, i, trains, train);
      trains := trains + [train];
      i := i + 1;
    }
    GeneratedFleet(draws, count);
  }

  /** The city names are pairwise different (their initials already are). */
  lemma CitiesDistinct(a: nat, b: nat)
    requires a < |Cities| && b < |Cities| && a != b
    ensures Cities[a] != Cities[b]
  {
    assert Cities[a][0] != Cities[b][0];
  }

  /** What a generated train promises: its id and name from its index, a
      destination other than its origin, the status rule, a speed in
      [80, 120), a priority in [1, 5], a delay in whole minutes below 60, a
      position within ten degrees of the centre of India, and the
      placeholder attachment. */
  lemma GeneratedTrainProperties(i: nat, d: TrainDraws)
    requires ValidDraws(d)
    ensures var t := GeneratedTrain(i, d);
            && t.id == "TRAIN-" + DecimalString(10000 + i)
            && t.name == KindName(t.kind) + " " + DecimalString(1000 + i)
            && t.destination != Cities[Pick(d.origin, |Cities|)]
            && t.routeName == Cities[Pick(d.origin, |Cities|)] + " - " + t.destination
            && (t.status == Critical <==> t.delay > 30.0)
            && (t.status == Delayed <==> 0.0 < t.delay <= 30.0)
            && (t.status == OnTime <==> t.delay == 0.0)
            && 0.0 <= t.delay < 60.0 && t.delay == t.delay.Floor as real
            && 80.0 <= t.currentSpeed < 120.0
            && 1 <= t.priority <= 5
            && 10.5937 <= t.lat < 30.5937 && 68.9629 <= t.lng < 88.9629
            && 0.0 <= t.heading < 360.0
            && t.currentTrack == Some(PlaceholderTrack)
            && t.position == 0.0
  {
    var originIndex := Pick(d.origin, |Cities|);
    var destIndex := FirstDestination(originIndex, d.destinations);
    CitiesDistinct(originIndex, destIndex);
    MulLt(d.speed, 1.0, 40.0);
    MulLe(0.0, d.speed, 40.0);
    MulLt(d.lat, 1.0, 20.0);
    MulLe(0.0, d.lat, 20.0);
    MulLt(d.lng, 1.0, 20.0);
    MulLe(0.0, d.lng, 20.0);
    MulLt(d.heading, 1.0, 360.0);
    MulLe(0.0, d.heading, 360.0);
  }

  /** Every generated train has its own id. */
  lemma GeneratedIdsDistinct(i: nat, j: nat, d: TrainDraws, e: TrainDraws)
    requires ValidDraws(d) && ValidDraws(e) && i != j
    ensures GeneratedTrain(i, d).id != GeneratedTrain(j, e).id
  {
    GeneratedId(i, d);
    GeneratedId(j, e);
    PrefixedDecimalInjective("TRAIN-", 10000 + i, 10000 + j);
  }

  /** The id of train `i` is "TRAIN-" followed by `10000 + i`. */
  lemma GeneratedId(i: nat, d: TrainDraws)
    requires ValidDraws(d)
    ensures GeneratedTrain(i, d).id == "TRAIN-" + DecimalString(10000 + i)
  {
  }

  /** The placeholder attachment decides a generated train's first tick:
      with its speed of 80 to 120 the progress stays inside the segment from
      (0, 0) to (0, 0), so the train is moved to latitude 0, longitude 0,
      far outside the network, whatever its drawn position was. */
  lemma GeneratedTrainFirstTick(i: nat, d: TrainDraws, routes: seq<Route>, geo: Geo)
    requires ValidDraws(d)
    ensures var t := UpdateTrainPosition(GeneratedTrain(i, d), routes, geo);
            && t.lat == 0.0 && t.lng == 0.0
            && t.currentTrack == Some(PlaceholderTrack.(position := GeneratedTrain(i, d).currentSpeed / 3600.0))
  {
    var t := GeneratedTrain(i, d);
    GeneratedTrainProperties(i, d);
    assert SegmentLength(PlaceholderTrack.length) == 1.0;
    assert ProgressStep(t.currentSpeed, 0.0) == t.currentSpeed / 3600.0;
    assert 0.0 <= NewPosition(PlaceholderTrack, t.currentSpeed) <= 1.0;
    InRangeAdvances(t, PlaceholderTrack, routes, geo);
  }
}
