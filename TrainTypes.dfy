/** The records of the application (src/types/train.ts) as Dafny values.

    A train's `currentTrack` is the engine's attachment to the network. The
    engine reads it through a normalisation that fills in missing fields
    (direction 'East', an empty route, segment indices 0, heading 0,
    progress 0.5, length 1); here the attachment is an explicit record in
    which every one of those fields is present, and a record built by a
    source that left a field out carries that default. */
module TrainTypes {
  import opened Common

  /** A geographic coordinate; waypoints of a route are `[lat, lng]` pairs. */
  datatype Point = Point(lat: real, lng: real)

  /** An ordered list of waypoints; segment `i` joins waypoints `i` and `i + 1`. */
  type Route = seq<Point>

  datatype Kind = Express | Freight | Local

  datatype Status = OnTime | Delayed | Critical

  /** The direction strings of the source. The engine only asks whether a
      direction is 'East'; every other value travels as 'West'. */
  datatype Compass = North | South | East | West

  /** A train's attachment to a network segment: the segment's end points,
      the progress along it in segment units (0 at `from`, 1 at `to`), the
      segment length in coordinate units, the route it belongs to and the
      index of the segment the engine believes it is on. */
  datatype Track = Track(
    from: Point,
    to: Point,
    position: real,
    length: real,
    maxSpeed: real,
    heading: real,
    direction: Compass,
    route: Route,
    currentSegment: int,
    nextSegment: int)

  /** A train as the generator and the tick functions see it. `position` is
      the 0-100 percentage used by the dashboard; progress along the network
      lives in `currentTrack`. */
  datatype Train = Train(
    id: string,
    name: string,
    kind: Kind,
    status: Status,
    zone: string,
    routeName: string,
    currentSpeed: real,
    maxSpeed: real,
    delay: real,
    priority: int,
    destination: string,
    nextStation: string,
    currentTrack: Option<Track>,
    position: real,
    direction: Compass,
    lat: real,
    lng: real,
    heading: real)

  datatype RecommendationKind = Hold | Reroute | Priority | Speed

  /** A recommendation shown to the dispatcher; `isAccepted` is absent until
      the dispatcher accepts or rejects it. */
  datatype Recommendation = Recommendation(
    id: string,
    kind: RecommendationKind,
    trainId: string,
    description: string,
    impact: string,
    confidence: real,
    estimatedDelay: real,
    isAccepted: Option<bool>)

  /** The dashboard's key performance indicators. */
  datatype KpiData = KpiData(
    totalTrains: int,
    averageDelay: real,
    throughput: real,
    utilization: real)

  /** The text the source writes for each kind of train. */
  function KindName(k: Kind): (s: string)
    ensures |s| > 0
  {
    match k
    case Express => "Express"
    case Freight => "Freight"
    case Local => "Local"
  }
}
