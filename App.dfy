/** The dashboard's state updates (src/App.tsx): the five-second jitter of
    the trains and the key performance indicators, and the dispatcher's
    accept and reject of a recommendation. Every Math.random draw is a
    parameter in [0, 1). */
module App {
  import opened Common
  import opened TrainTypes

  // ----- accepting and rejecting recommendations -----

  /** Sets `isAccepted` on every recommendation with the id, leaving the
      others as they were. */
  function SetAccepted(recs: seq<Recommendation>, id: string, accepted: bool): (r: seq<Recommendation>)
    ensures |r| == |recs|
  {
    seq(|recs|, i requires 0 <= i < |recs| =>
      if recs[i].id == id then recs[i].(isAccepted := Some(accepted)) else recs[i])
  }

  /** handleAcceptRecommendation. */
  function HandleAcceptRecommendation(recs: seq<Recommendation>, id: string): seq<Recommendation>
  {
    SetAccepted(recs, id, true)
  }

  /** handleRejectRecommendation. */
  function HandleRejectRecommendation(recs: seq<Recommendation>, id: string): seq<Recommendation>
  {
    SetAccepted(recs, id, false)
  }

  /** Accept marks exactly the recommendations with the id as accepted; all
      other recommendations, and every other field, stay as they were, in
      the same order. */
  lemma AcceptChangesOnlyMatching(recs: seq<Recommendation>, id: string)
    ensures var r := HandleAcceptRecommendation(recs, id);
            && |r| == |recs|
            && (forall i :: 0 <= i < |r| ==> r[i].(isAccepted := recs[i].isAccepted) == recs[i])
            && (forall i :: 0 <= i < |r| && recs[i].id != id ==> r[i] == recs[i])
            && (forall i :: 0 <= i < |r| && recs[i].id == id ==> r[i].isAccepted == Some(true))
  {
  }

  /** Reject marks exactly the recommendations with the id as rejected and
      leaves the rest unchanged, in the same order. */
  lemma RejectChangesOnlyMatching(recs: seq<Recommendation>, id: string)
    ensures var r := HandleRejectRecommendation(recs, id);
            && |r| == |recs|
            && (forall i :: 0 <= i < |r| ==> r[i].(isAccepted := recs[i].isAccepted) == recs[i])
            && (forall i :: 0 <= i < |r| && recs[i].id != id ==> r[i] == recs[i])
            && (forall i :: 0 <= i < |r| && recs[i].id == id ==> r[i].isAccepted == Some(false))
  {
  }

  /** A second click changes nothing, the last decision on an id is the one
      that stands, and decisions on different ids do not interfere. */
  lemma DecisionsCompose(recs: seq<Recommendation>, id: string, other: string, a: bool, b: bool)
    ensures SetAccepted(SetAccepted(recs, id, a), id, a) == SetAccepted(recs, id, a)
    ensures SetAccepted(SetAccepted(recs, id, a), id, b) == SetAccepted(recs, id, b)
    ensures id != other ==>
              SetAccepted(SetAccepted(recs, id, a), other, b) == SetAccepted(SetAccepted(recs, other, b), id, a)
  {
  }

  // ----- the five-second jitter -----

  /** The two draws for one train: speed, then delay. */
  datatype JitterDraw = JitterDraw(speed: real, delay: real)

  /** The new speed, delay and position of one train: the speed drifts by
      up to 5 either way and the delay by -1.4 to +0.6, neither going below
      0; the position advances by the old speed / 100, modulo 100. */
  function JitterTrain(t: Train, d: JitterDraw): (r: Train)
    ensures r.currentSpeed >= 0.0 && r.delay >= 0.0
    ensures 0.0 <= t.position && 0.0 <= t.currentSpeed ==> 0.0 <= r.position < 100.0
    ensures r.(currentSpeed := t.currentSpeed, delay := t.delay, position := t.position) == t
  {
    t.(currentSpeed := Max(0.0, t.currentSpeed + (d.speed - 0.5) * 10.0),
       delay := Max(0.0, t.delay + (d.delay - 0.7) * 2.0),
       position := JsRem(t.position + t.currentSpeed / 100.0, 100.0))
  }

  /** The tick over the whole list. */
  function JitterTrains(ts: seq<Train>, draws: seq<JitterDraw>): (r: seq<Train>)
    requires |draws| == |ts|
    ensures |r| == |ts|
  {
    seq(|ts|, i requires 0 <= i < |ts| => JitterTrain(ts[i], draws[i]))
  }

  /** After a tick every train has a speed and a delay of at least 0, the
      list keeps its length and order, and only the speed, the delay and
      the position of a train change. */
  lemma JitterKeepsTrains(ts: seq<Train>, draws: seq<JitterDraw>)
    requires |draws| == |ts|
    ensures var r := JitterTrains(ts, draws);
            && |r| == |ts|
            && (forall i :: 0 <= i < |r| ==> r[i].currentSpeed >= 0.0 && r[i].delay >= 0.0)
            && (forall i :: 0 <= i < |r| ==>
                  r[i].(currentSpeed := ts[i].currentSpeed, delay := ts[i].delay, position := ts[i].position) == ts[i])
  {
  }

  /** The drifts are bounded by the draws' range: speed within 5 of the old
      speed and delay within [-1.4, +0.6] of the old delay, unless held at
      0. */
  lemma JitterDrift(t: Train, d: JitterDraw)
    requires IsRandom(d.speed) && IsRandom(d.delay)
    ensures var r := JitterTrain(t, d);
            && Max(0.0, t.currentSpeed - 5.0) <= r.currentSpeed
            && r.currentSpeed <= Max(0.0, t.currentSpeed + 5.0)
            && (r.currentSpeed == 0.0 || r.currentSpeed < t.currentSpeed + 5.0)
            && r.delay <= Max(0.0, t.delay + 0.6)
            && (r.delay == 0.0 || t.delay - 1.4 <= r.delay)
  {
  }

  /** The position step uses the speed from before the tick: the speed draw
      has no effect on it, and for a train at a position in [0, 100) with a
      speed of at least 0 the new position is in [0, 100). */
  lemma JitterPositionUsesOldSpeed(t: Train, d1: JitterDraw, d2: JitterDraw)
    ensures JitterTrain(t, d1).position == JitterTrain(t, d2).position
    ensures 0.0 <= t.position && 0.0 <= t.currentSpeed ==> 0.0 <= JitterTrain(t, d1).position < 100.0
    ensures 0.0 <= t.position && 0.0 <= t.currentSpeed && t.position + t.currentSpeed / 100.0 < 100.0 ==>
              JitterTrain(t, d1).position == t.position + t.currentSpeed / 100.0
  {
  }

  // ----- the KPI tick -----

  /** The three draws for the indicators. */
  datatype KpiDraw = KpiDraw(delay: real, throughput: real, utilization: real)

  /** The indicators' tick: average delay and throughput drift without going
      below 0, utilization drifts within [0, 100]; the train count stays. */
  function KpiTick(k: KpiData, d: KpiDraw): (r: KpiData)
    ensures r.averageDelay >= 0.0 && r.throughput >= 0.0
    ensures 0.0 <= r.utilization <= 100.0
    ensures r.totalTrains == k.totalTrains
  {
    k.(averageDelay := Max(0.0, k.averageDelay + (d.delay - 0.6) * 1.0),
       throughput := Max(0.0, k.throughput + (d.throughput - 0.5) * 2.0),
       utilization := Min(100.0, Max(0.0, k.utilization + (d.utilization - 0.5) * 3.0)))
  }

  /** After a KPI tick the average delay and throughput are at least 0 and
      utilization is in [0, 100], whatever the draws; the train count is
      unchanged, and a utilization that stays inside the range moves by less
      than 1.5 either way. */
  lemma KpiTickRanges(k: KpiData, d: KpiDraw)
    ensures var r := KpiTick(k, d);
            && r.averageDelay >= 0.0
            && r.throughput >= 0.0
            && 0.0 <= r.utilization <= 100.0
            && r.totalTrains == k.totalTrains
    ensures IsRandom(d.utilization) && 0.0 < KpiTick(k, d).utilization < 100.0 ==>
              k.utilization - 1.5 <= KpiTick(k, d).utilization < k.utilization + 1.5
  {
  }

  /** The KPI tick applied once per draw, in order. */
  function KpiTicks(k: KpiData, draws: seq<KpiDraw>): KpiData
    decreases |draws|
  {
    if draws == [] then k else KpiTicks(KpiTick(k, draws[0]), draws[1..])
  }

  /** Ticks keep the indicators in range for ever: from any start, the
      ranges hold after every tick. */
  lemma {:induction false} KpiTicksInRange(k: KpiData, draws: seq<KpiDraw>)
    requires draws != []
    ensures var r := KpiTicks(k, draws);
            r.averageDelay >= 0.0 && r.throughput >= 0.0 && 0.0 <= r.utilization <= 100.0
            && r.totalTrains == k.totalTrains
    decreases |draws|
  {
    if |draws| > 1 {
      KpiTicksInRange(KpiTick(k, draws[0]), draws[1..]);
    }
  }

  /** Every draw of a KPI tick comes from `Math.random()`. */
  predicate RandomKpiDraw(d: KpiDraw)
  {
    IsRandom(d.delay) && IsRandom(d.throughput) && IsRandom(d.utilization)
  }

  /** With random draws one tick from indicators in range moves utilization
      by at most 1.5 either way, raises the average delay by less than 0.4
      and the throughput by less than 1. */
  lemma KpiTickDrift(k: KpiData, d: KpiDraw)
    requires RandomKpiDraw(d)
    requires k.averageDelay >= 0.0 && k.throughput >= 0.0 && 0.0 <= k.utilization <= 100.0
    ensures var r := KpiTick(k, d);
            && k.utilization - 1.5 <= r.utilization <= k.utilization + 1.5
            && r.averageDelay < k.averageDelay + 0.4
            && r.throughput < k.throughput + 1.0
  {
  }

  /** Over `n` ticks with random draws, from indicators in range, utilization
      stays within `1.5 n` of where it started, the average delay grows by
      at most `0.4 n` and the throughput by at most `n`. */
  lemma {:induction false} KpiTicksDrift(k: KpiData, draws: seq<KpiDraw>)
    requires forall i :: 0 <= i < |draws| ==> RandomKpiDraw(draws[i])
    requires k.averageDelay >= 0.0 && k.throughput >= 0.0 && 0.0 <= k.utilization <= 100.0
    ensures var r := KpiTicks(k, draws);
            var n := |draws| as real;
            && k.utilization - 1.5 * n <= r.utilization <= k.utilization + 1.5 * n
            && r.averageDelay <= k.averageDelay + 0.4 * n
            && r.throughput <= k.throughput + n
    decreases |draws|
  {
    if draws != [] {
      KpiTickDrift(k, draws[0]);
      KpiTicksDrift(KpiTick(k, draws[0]), draws[1..]);
    }
  }
}
