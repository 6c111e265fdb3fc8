/** The schematic track view (src/components/TrainMovement/TrackMap.tsx):
    the per-train animated positions it keeps and advances every 100 ms,
    the lookup of a train's track and the point at which a train is drawn.

    The dashboard's trains carry the id of their track segment in
    `currentTrack`; here that id is the field `trackId`. */
module TrackMap {
  import opened Common
  import opened TrainTypes

  /** The fields of a train this view reads. */
  datatype ScheduledTrain = ScheduledTrain(
    id: string,
    currentSpeed: real,
    direction: Compass,
    position: real,
    trackId: Option<string>)

  /** A drawn track segment: its id and its end points on the canvas. */
  datatype TrackSegment = TrackSegment(id: string, startX: real, startY: real, endX: real, endY: real)

  // ----- the animation step -----

  /** The unwrapped new position: speed / 1000 forward for East, backward
      otherwise. */
  function Moved(p: real, t: ScheduledTrain): real
  {
    p + (t.currentSpeed / 1000.0) * (if t.direction == East then 1.0 else -1.0)
  }

  /** One train's step, `(p + delta) % 100` with JavaScript's remainder and a
      negative result replaced by 100. */
  function Step(p: real, t: ScheduledTrain): (q: real)
    ensures 0.0 <= q <= 100.0
  {
    var v := JsRem(Moved(p, t), 100.0);
    if v < 0.0 then 100.0 else v
  }

  /** A step inside [0, 100) keeps the moved value, a step past 100 (by
      less than a full lap) wraps to the start, and a step below 0 jumps to
      100 rather than wrapping by the excess. */
  lemma StepCases(p: real, t: ScheduledTrain)
    ensures 0.0 <= Moved(p, t) < 100.0 ==> Step(p, t) == Moved(p, t)
    ensures 100.0 <= Moved(p, t) < 200.0 ==> Step(p, t) == Moved(p, t) - 100.0
    ensures -100.0 < Moved(p, t) < 0.0 ==> Step(p, t) == 100.0
  {
    var x := Moved(p, t);
    if 100.0 <= x < 200.0 {
      WrapOnce(x);
    }
  }

  /** One lap off a value in [100, 200). */
  lemma WrapOnce(x: real)
    requires 100.0 <= x < 200.0
    ensures JsRem(x, 100.0) == x - 100.0
  {
    assert 1.0 <= x / 100.0 < 2.0 by {
      BelowQuotient(1.0, x, 100.0);
      AboveQuotient(x, 2.0, 100.0);
    }
  }

  /** The update of one dictionary entry: only a moving train's entry
      changes. */
  function StepEntry(m: map<string, real>, t: ScheduledTrain): map<string, real>
    requires t.id in m
  {
    if t.currentSpeed > 0.0 then m[t.id := Step(m[t.id], t)] else m
  }

  /** The trains' ids are keys of the dictionary. */
  predicate HasAll(m: map<string, real>, ts: seq<ScheduledTrain>)
  {
    forall i :: 0 <= i < |ts| ==> ts[i].id in m
  }

  /** The whole interval callback as a specification: the entries updated
      train by train, in list order. */
  function AdvanceAll(m: map<string, real>, ts: seq<ScheduledTrain>): (r: map<string, real>)
    requires HasAll(m, ts)
    ensures r.Keys == m.Keys
    decreases |ts|
  {
    if ts == [] then m
    else
      var prev := AdvanceAll(m, ts[..|ts| - 1]);
      StepEntry(prev, ts[|ts| - 1])
  }

  /** The initial dictionary, as the `reduce` builds it: each id maps to the
      position of the last train with that id. */
  function InitialPositions(ts: seq<ScheduledTrain>): (m: map<string, real>)
    ensures HasAll(m, ts)
    ensures forall k :: k in m ==> exists i :: 0 <= i < |ts| && ts[i].id == k
    decreases |ts|
  {
    if ts == [] then map[]
    else
      var prev := InitialPositions(ts[..|ts| - 1]);
      var last := ts[|ts| - 1];
      assert forall i :: 0 <= i < |ts| - 1 ==> ts[..|ts| - 1][i] == ts[i];
      prev[last.id := last.position]
  }

  /** A train listed last among those with its id gives its entry its own
      position. */
  lemma {:induction false} InitialPositionsLastWins(ts: seq<ScheduledTrain>, i: nat)
    requires i < |ts|
    requires forall j :: i < j < |ts| ==> ts[j].id != ts[i].id
    ensures InitialPositions(ts)[ts[i].id] == ts[i].position
    decreases |ts|
  {
    if i < |ts| - 1 {
      var front := ts[..|ts| - 1];
      assert front[i] == ts[i];
      InitialPositionsLastWins(front, i);
    }
  }

  /** An entry whose id belongs to no moving train keeps its value: the
      entries of stopped trains and of ids no longer listed. */
  lemma {:induction false} AdvanceAllKeepsOthers(m: map<string, real>, ts: seq<ScheduledTrain>, k: string)
    requires HasAll(m, ts) && k in m
    requires forall i :: 0 <= i < |ts| && ts[i].id == k ==> ts[i].currentSpeed <= 0.0
    ensures AdvanceAll(m, ts)[k] == m[k]
    decreases |ts|
  {
    if ts != [] {
      var front := ts[..|ts| - 1];
      assert forall i :: 0 <= i < |front| ==> front[i] == ts[i];
      AdvanceAllKeepsOthers(m, front, k);
    }
  }

  /** A moving train listed once has its entry moved by exactly one step. */
  lemma {:induction false} AdvanceAllMovesOnce(m: map<string, real>, ts: seq<ScheduledTrain>, i: nat)
    requires HasAll(m, ts) && i < |ts| && ts[i].currentSpeed > 0.0
    requires forall j :: 0 <= j < |ts| && j != i ==> ts[j].id != ts[i].id
    ensures AdvanceAll(m, ts)[ts[i].id] == Step(m[ts[i].id], ts[i])
    decreases |ts|
  {
    var front := ts[..|ts| - 1];
    assert forall j :: 0 <= j < |front| ==> front[j] == ts[j];
    if i < |ts| - 1 {
      AdvanceAllMovesOnce(m, front, i);
    } else {
      AdvanceAllKeepsOthers(m, front, ts[i].id);
    }
  }

  /** Every entry in [0, 100] before the callback is in [0, 100] after it. */
  predicate AllInRange(m: map<string, real>)
  {
    forall k :: k in m ==> 0.0 <= m[k] <= 100.0
  }

  lemma {:induction false} AdvanceAllInRange(m: map<string, real>, ts: seq<ScheduledTrain>)
    requires HasAll(m, ts) && AllInRange(m)
    ensures AllInRange(AdvanceAll(m, ts))
    decreases |ts|
  {
    if ts != [] {
      var front := ts[..|ts| - 1];
      assert forall j :: 0 <= j < |front| ==> front[j] == ts[j];
      AdvanceAllInRange(m, front);
    }
  }

  /** The component's animated positions, initialised from `trains` and
      advanced by the interval callback. */
  class AnimatedPositions {
    const trains: seq<ScheduledTrain>
    var positions: map<string, real>

    ghost predicate Valid()
      reads this
    {
      HasAll(positions, trains)
    }

    /** The effect's initial `reduce` over the trains. */
    constructor (trains: seq<ScheduledTrain>)
      ensures this.trains == trains
      ensures positions == InitialPositions(trains)
      ensures Valid()
    {
      var acc: map<string, real> := map[];
      var i := 0;
      while i < |trains|
        invariant 0 <= i <= |trains|
        invariant acc == InitialPositions(trains[..i])
      {
        assert trains[..i + 1][..i] == trains[..i];
        acc := acc[trains[i].id := trains[i].position];
        i := i + 1;
      }
      assert trains[..|trains|] == trains;
      this.trains := trains;
      positions := acc;
    }

    /** The interval callback: copy the dictionary, update each moving
      train's entry in list order, publish the copy. */
    method Tick()
      requires Valid()
      modifies this
      ensures Valid()
      ensures positions == AdvanceAll(old(positions), trains)
    {
      var newPositions := positions;
      var i := 0;
      while i < |trains|
        invariant 0 <= i <= |trains|
        invariant HasAll(positions, trains[..i])
        invariant newPositions == AdvanceAll(positions, trains[..i])
      {
        var train := trains[i];
        assert trains[..i + 1][..i] == trains[..i];
        assert HasAll(positions, trains[..i + 1]);
        if train.currentSpeed > 0.0 {
          var speedFactor := train.currentSpeed / 1000.0;
          var direction := if train.direction == East then 1.0 else -1.0;
          var moved := JsRem(newPositions[train.id] + speedFactor * direction, 100.0);
          newPositions := newPositions[train.id := if moved < 0.0 then 100.0 else moved];
        }
        i := i + 1;
      }
      assert trains[..|trains|] == trains;
      positions := newPositions;
    }

    /** The position a train is drawn at: its animated value, or its own
      position when that value is missing or 0. */
    function DrawnProgress(t: ScheduledTrain): (p: real)
      reads this
      ensures t.id in positions && positions[t.id] != 0.0 ==> p == positions[t.id]
      ensures !(t.id in positions) || positions[t.id] == 0.0 ==> p == t.position
    {
      if t.id in positions && positions[t.id] != 0.0 then positions[t.id] else t.position
    }

    /** calculateTrainPosition: that fraction of the way along the track. */
    function CalculateTrainPosition(t: ScheduledTrain, track: TrackSegment): (xy: (real, real))
      reads this
    {
      var p := DrawnProgress(t);
      (track.startX + (track.endX - track.startX) * (p / 100.0),
       track.startY + (track.endY - track.startY) * (p / 100.0))
    }
  }

  /** A point drawn at a progress in [0, 100] lies between the ends of its
      track on both axes: at the start for 0, at the end for 100. */
  lemma DrawnBetweenEnds(a: AnimatedPositions, t: ScheduledTrain, track: TrackSegment)
    requires 0.0 <= a.DrawnProgress(t) <= 100.0
    ensures var xy := a.CalculateTrainPosition(t, track);
            && Min(track.startX, track.endX) <= xy.0 <= Max(track.startX, track.endX)
            && Min(track.startY, track.endY) <= xy.1 <= Max(track.startY, track.endY)
            && (a.DrawnProgress(t) == 0.0 ==> xy == (track.startX, track.startY))
            && (a.DrawnProgress(t) == 100.0 ==> xy == (track.endX, track.endY))
  {
    var p := a.DrawnProgress(t);
    var f := p / 100.0;
    var xy := a.CalculateTrainPosition(t, track);
    assert xy.0 == track.startX + (track.endX - track.startX) * f;
    assert xy.1 == track.startY + (track.endY - track.startY) * f;
    assert 0.0 <= f <= 1.0;
    BetweenEnds(track.startX, track.endX, f);
    BetweenEnds(track.startY, track.endY, f);
    if p == 0.0 {
      assert f == 0.0;
      assert xy.0 == track.startX && xy.1 == track.startY;
    } else if p == 100.0 {
      assert f == 1.0;
      assert xy.0 == track.endX && xy.1 == track.endY;
    }
  }

  /** `s + (e - s) * f` for `f` in [0, 1] lies between `s` and `e`. */
  lemma BetweenEnds(s: real, e: real, f: real)
    requires 0.0 <= f <= 1.0
    ensures Min(s, e) <= s + (e - s) * f <= Max(s, e)
    ensures f == 0.0 ==> s + (e - s) * f == s
    ensures f == 1.0 ==> s + (e - s) * f == e
  {
    Share(e - s, f, (e - s) * f);
    OffsetBetween(s, e, e - s, (e - s) * f);
  }

  /** `m == d * f`, for `f` in [0, 1], lies between 0 and `d`, and is 0 or all
      of `d` at the two ends of [0, 1]. */
  lemma Share(d: real, f: real, m: real)
    requires 0.0 <= f <= 1.0 && m == d * f
    ensures 0.0 <= d ==> 0.0 <= m <= d
    ensures d < 0.0 ==> d <= m <= 0.0
    ensures f == 0.0 ==> m == 0.0
    ensures f == 1.0 ==> m == d
  {
    if 0.0 <= d {
      ScaleLe(d, 0.0, f);
      ScaleLe(d, f, 1.0);
    } else {
      ScaleLe(-d, 0.0, f);
      ScaleLe(-d, f, 1.0);
    }
    ScaleEnds(d, f);
  }

  /** An offset `m` between 0 and `d == e - s` moves `s` to a point between
      `s` and `e`. */
  lemma OffsetBetween(s: real, e: real, d: real, m: real)
    requires d == e - s
    requires 0.0 <= d ==> 0.0 <= m <= d
    requires d < 0.0 ==> d <= m <= 0.0
    ensures Min(s, e) <= s + m <= Max(s, e)
  {
  }

  lemma ScaleEnds(m: real, f: real)
    ensures f == 0.0 ==> m * f == 0.0
    ensures f == 1.0 ==> m * f == m
  {
  }

  lemma ScaleLe(m: real, a: real, b: real)
    requires m >= 0.0 && a <= b
    ensures m * a <= m * b
  {
  }

  // ----- getTrackForTrain -----

  /** `trains.find(t => t.id === trainId)`. */
  function FindTrain(trains: seq<ScheduledTrain>, trainId: string): (r: Option<ScheduledTrain>)
    ensures r.None? <==> forall i :: 0 <= i < |trains| ==> trains[i].id != trainId
    ensures r.Some? ==> exists i :: 0 <= i < |trains| && trains[i] == r.value && r.value.id == trainId
                                    && forall j :: 0 <= j < i ==> trains[j].id != trainId
  {
    if trains == [] then None
    else if trains[0].id == trainId then Some(trains[0])
    else
      var r := FindTrain(trains[1..], trainId);
      assert forall i :: 1 <= i < |trains| ==> trains[i] == trains[1..][i - 1];
      r
  }

  /** `tracks.find(track => track.id === trackId)`; a missing id matches no
      track. */
  function FindTrack(tracks: seq<TrackSegment>, trackId: Option<string>): (r: Option<TrackSegment>)
    ensures r.None? <==> forall i :: 0 <= i < |tracks| ==> Some(tracks[i].id) != trackId
    ensures r.Some? ==> exists i :: 0 <= i < |tracks| && tracks[i] == r.value && Some(r.value.id) == trackId
                                    && forall j :: 0 <= j < i ==> Some(tracks[j].id) != trackId
  {
    if tracks == [] then None
    else if Some(tracks[0].id) == trackId then Some(tracks[0])
    else
      var r := FindTrack(tracks[1..], trackId);
      assert forall i :: 1 <= i < |tracks| ==> tracks[i] == tracks[1..][i - 1];
      r
  }

  /** getTrackForTrain: the track of the first train with the id. */
  function GetTrackForTrain(trains: seq<ScheduledTrain>, tracks: seq<TrackSegment>, trainId: string): Option<TrackSegment>
  {
    match FindTrain(trains, trainId)
    case None => FindTrack(tracks, None)
    case Some(t) => FindTrack(tracks, t.trackId)
  }

  /** No track is found for an unknown train or a train without a track id;
      otherwise the track found is the first one whose id is the train's
      track id. */
  lemma GetTrackForTrainCases(trains: seq<ScheduledTrain>, tracks: seq<TrackSegment>, trainId: string)
    ensures FindTrain(trains, trainId).None? ==> GetTrackForTrain(trains, tracks, trainId).None?
    ensures FindTrain(trains, trainId).Some? && FindTrain(trains, trainId).value.trackId.None? ==>
              GetTrackForTrain(trains, tracks, trainId).None?
    ensures GetTrackForTrain(trains, tracks, trainId).Some? ==>
              var t := FindTrain(trains, trainId).value;
              t.id == trainId && Some(GetTrackForTrain(trains, tracks, trainId).value.id) == t.trackId
  {
  }
}
