/** Planar geometry of src/utils/trainDataGenerator.ts: projecting a point
    onto a segment (nearestPointOnSegment) and squared distances.

    Coordinates are exact reals. Where the source calls `Math.sqrt`,
    `Math.atan2` or `Math.sin`/`Math.cos`, the model takes the result from a
    `Geo` record of functions supplied by the caller, because those are
    floating-point library routines the model does not define. Distances
    are compared squared: the square root is strictly increasing, so a
    strict `<` between roots holds exactly when it holds between squares. */
module Geometry {
  import opened Common
  import opened TrainTypes

  /** The floating-point library routines the engine calls:
      - `length(a, b)`: `Math.sqrt(dx*dx + dy*dy)` for the segment from `a` to `b`;
      - `bearing(a, b)`: `Math.atan2(dy, dx) * 180 / Math.PI` from `a` to `b`;
      - `deadReckon(p, speedKmh, headingDeg)`: the flat-earth step of the
        fallback motion, before it is clamped to the bounding box. */
  datatype Geo = Geo(
    length: (Point, Point) -> real,
    bearing: (Point, Point) -> real,
    deadReckon: (Point, real, real) -> Point)

  /** The closest point on a segment and its normalised position there. */
  datatype Projection = Projection(point: Point, position: real)

  /** Squared planar distance, longitude as x and latitude as y. */
  function Dist2(p: Point, q: Point): (d: real)
    ensures d >= 0.0
  {
    var dx := q.lng - p.lng;
    var dy := q.lat - p.lat;
    SumOfSquaresNonNegative(dx, dy, dx, dy, dx * dx + dy * dy);
    dx * dx + dy * dy
  }

  /** The squared length of the segment from `a` to `b` (`len_sq`). */
  function LenSq(a: Point, b: Point): real
  {
    (b.lng - a.lng) * (b.lng - a.lng) + (b.lat - a.lat) * (b.lat - a.lat)
  }

  /** The dot product of `p - a` with `b - a` (`dot`). */
  function DotAlong(p: Point, a: Point, b: Point): real
  {
    (p.lng - a.lng) * (b.lng - a.lng) + (p.lat - a.lat) * (b.lat - a.lat)
  }

  /** A segment has squared length zero exactly when its ends coincide. */
  lemma LenSqZero(a: Point, b: Point)
    ensures LenSq(a, b) >= 0.0
    ensures LenSq(a, b) == 0.0 <==> a == b
  {
    var c, d := b.lng - a.lng, b.lat - a.lat;
    SumOfSquaresNonNegative(c, d, c, d, LenSq(a, b));
    if LenSq(a, b) == 0.0 {
      SumOfSquaresZero(c, d, c, d);
    }
  }

  // The three facts below are stated with each factor named twice (`c`
  // and `c2` with `c2 == c`): the solver handles products of two names
  // reliably and squares of one name poorly.

  lemma SumOfSquaresNonNegative(c: real, d: real, c2: real, d2: real, l: real)
    requires c2 == c && d2 == d && l == c * c2 + d * d2
    ensures l >= 0.0
  {
    SameSignProduct(c, c2);
    SameSignProduct(d, d2);
  }

  lemma SumOfSquaresZero(c: real, d: real, c2: real, d2: real)
    requires c2 == c && d2 == d && c * c2 + d * d2 == 0.0
    ensures c == 0.0 && d == 0.0
  {
    SameSignProduct(c, c2);
    SameSignProduct(d, d2);
    if c != 0.0 {
      StrictSameSignProduct(c, c2);
    } else if d != 0.0 {
      StrictSameSignProduct(d, d2);
    }
  }

  lemma SameSignProduct(a: real, b: real)
    requires (a >= 0.0 && b >= 0.0) || (a <= 0.0 && b <= 0.0)
    ensures a * b >= 0.0
  {
  }

  lemma StrictSameSignProduct(a: real, b: real)
    requires (a > 0.0 && b > 0.0) || (a < 0.0 && b < 0.0)
    ensures a * b > 0.0
  {
  }

  /** The point at fraction `t` of the way from `a` to `b`. */
  function Lerp(a: Point, b: Point, t: real): (q: Point)
    ensures t == 0.0 ==> q == a
    ensures t == 1.0 ==> q == b
  {
    Point(a.lat + t * (b.lat - a.lat), a.lng + t * (b.lng - a.lng))
  }

  /** The projection parameter `dot / len_sq`, or -1 for a segment of
      length zero, where the source skips the division. */
  function Param(p: Point, a: Point, b: Point): real
  {
    var lenSq := LenSq(a, b);
    if lenSq != 0.0 then DotAlong(p, a, b) / lenSq else -1.0
  }

  /** The projection as a specification: the point of the segment at the
      projection parameter clamped to [0, 1]. */
  function Project(p: Point, a: Point, b: Point): Projection
  {
    var t := Clamp(0.0, 1.0, Param(p, a, b));
    Projection(Lerp(a, b, t), t)
  }

  /** nearestPointOnSegment: the source's branches on the projection
      parameter, proved to agree with `Project`. */
  method NearestPointOnSegment(p: Point, lineStart: Point, lineEnd: Point) returns (r: Projection)
    ensures r == Project(p, lineStart, lineEnd)
    ensures 0.0 <= r.position <= 1.0
    ensures Param(p, lineStart, lineEnd) < 0.0 ==> r == Projection(lineStart, 0.0)
    ensures Param(p, lineStart, lineEnd) > 1.0 ==> r == Projection(lineEnd, 1.0)
    ensures lineStart == lineEnd ==> r == Projection(lineStart, 0.0)
  {
    var x, y := p.lng, p.lat;
    var x1, y1 := lineStart.lng, lineStart.lat;
    var x2, y2 := lineEnd.lng, lineEnd.lat;
    var a, b := x - x1, y - y1;
    var c, d := x2 - x1, y2 - y1;
    var dot := a * c + b * d;
    var lenSq := c * c + d * d;
    var param := -1.0;
    if lenSq != 0.0 {
      param := dot / lenSq;
    }
    assert param == Param(p, lineStart, lineEnd);
    var xx: real, yy: real;
    var position := param;
    if param < 0.0 {
      xx, yy := x1, y1;
      position := 0.0;
    } else if param > 1.0 {
      xx, yy := x2, y2;
      position := 1.0;
    } else {
      xx, yy := x1 + param * c, y1 + param * d;
    }
    r := Projection(Point(yy, xx), Max(0.0, Min(1.0, position)));
  }

  /** The projection is a closest point of the segment: no point of the
      segment is nearer to `p`. */
  lemma ProjectIsClosest(p: Point, a: Point, b: Point, t: real)
    requires 0.0 <= t <= 1.0
    ensures Dist2(p, Project(p, a, b).point) <= Dist2(p, Lerp(a, b, t))
  {
    var s := Project(p, a, b).position;
    LenSqZero(a, b);
    if LenSq(a, b) == 0.0 {
      assert Lerp(a, b, t) == a == Lerp(a, b, s);
    } else {
      assert s == Clamp(0.0, 1.0, DotAlong(p, a, b) / LenSq(a, b));
      assert Project(p, a, b).point == Lerp(a, b, s);
      DistAlong(p, a, b, t);
      DistAlong(p, a, b, s);
      QuadraticMin(Dist2(p, a), t, s, DotAlong(p, a, b), LenSq(a, b));
    }
  }

  /** `base - 2 t dot + t^2 lenSq`: the squared distance from `p` to the
      point at fraction `t` of a segment, in terms of the segment's
      `dot` and `len_sq` and the squared distance `base` to its start. */
  function AlongQuadratic(base: real, t: real, dot: real, lenSq: real): real
  {
    base - 2.0 * t * dot + t * t * lenSq
  }

  /** On [0, 1] the quadratic `-2 t dot + t^2 lenSq` is smallest at the
      clamped vertex `dot / lenSq`. */
  lemma QuadraticMin(base: real, t: real, s: real, dot: real, lenSq: real)
    requires 0.0 <= t <= 1.0 && lenSq > 0.0
    requires s == Clamp(0.0, 1.0, dot / lenSq)
    ensures AlongQuadratic(base, t, dot, lenSq) >= AlongQuadratic(base, s, dot, lenSq)
  {
    var param := dot / lenSq;
    if param < 0.0 {
      assert s == 0.0;
      assert AlongQuadratic(base, s, dot, lenSq) == base;
      NegativeRatio(dot, lenSq);
      AwayFromStart(t, dot, lenSq);
    } else if param > 1.0 {
      assert s == 1.0;
      assert AlongQuadratic(base, s, dot, lenSq) == base - 2.0 * dot + lenSq;
      RatioAboveOne(dot, lenSq);
      AwayFromEnd(t, dot, lenSq);
    } else {
      assert s == param;
      RatioTimes(dot, lenSq);
      AwayFromFoot(t, param, dot, lenSq);
    }
  }

  /** The squared distance from `p` to the point at fraction `t`, as a
      quadratic in `t`. */
  lemma DistAlong(p: Point, a: Point, b: Point, t: real)
    ensures Dist2(p, Lerp(a, b, t)) == AlongQuadratic(Dist2(p, a), t, DotAlong(p, a, b), LenSq(a, b))
  {
    LerpOffset(p, a, b, t);
    Quadratic(p, a, b, t);
  }

  lemma LerpOffset(p: Point, a: Point, b: Point, t: real)
    ensures var dx, dy := a.lng + t * (b.lng - a.lng) - p.lng, a.lat + t * (b.lat - a.lat) - p.lat;
            Dist2(p, Lerp(a, b, t)) == dx * dx + dy * dy
  {
  }

  /** `DistAlong` on the coordinates: a polynomial identity. */
  lemma Quadratic(p: Point, a: Point, b: Point, t: real)
    ensures var dx, dy := a.lng + t * (b.lng - a.lng) - p.lng, a.lat + t * (b.lat - a.lat) - p.lat;
            dx * dx + dy * dy == AlongQuadratic(Dist2(p, a), t, DotAlong(p, a, b), LenSq(a, b))
  {
  }

  /** Moving away from the start does not help when the foot of the
      perpendicular lies before the start (`dot < 0`). */
  lemma AwayFromStart(t: real, dot: real, lenSq: real)
    requires 0.0 <= t && lenSq >= 0.0 && dot < 0.0
    ensures -2.0 * t * dot + t * t * lenSq >= 0.0
  {
    NonNegProduct(t, -2.0 * dot + t * lenSq);
    NonNegProduct(t, lenSq);
  }

  /** Moving back from the end does not help when the foot lies beyond it. */
  lemma AwayFromEnd(t: real, dot: real, lenSq: real)
    requires 0.0 <= t <= 1.0 && lenSq >= 0.0 && dot > lenSq
    ensures -2.0 * t * dot + t * t * lenSq >= -2.0 * dot + lenSq
  {
    NonNegProduct(t + 1.0, lenSq);
    NonNegProduct(1.0 - t, 2.0 * dot - (t + 1.0) * lenSq);
    assert (1.0 - t) * (2.0 * dot - (t + 1.0) * lenSq)
        == (-2.0 * t * dot + t * t * lenSq) - (-2.0 * dot + lenSq);
  }

  /** Within the segment the foot of the perpendicular is the minimum. */
  lemma AwayFromFoot(t: real, s: real, dot: real, lenSq: real)
    requires lenSq >= 0.0 && dot == s * lenSq
    ensures -2.0 * t * dot + t * t * lenSq >= -2.0 * s * dot + s * s * lenSq
  {
    SameSignProduct(t - s, t - s);
    NonNegProduct(lenSq, (t - s) * (t - s));
    assert lenSq * ((t - s) * (t - s))
        == (-2.0 * t * dot + t * t * lenSq) - (-2.0 * s * dot + s * s * lenSq);
  }

  lemma NonNegProduct(u: real, v: real)
    requires u >= 0.0 && v >= 0.0
    ensures u * v >= 0.0
  {
  }

  lemma NegativeRatio(n: real, m: real)
    requires m > 0.0 && n / m < 0.0
    ensures n < 0.0
  {
    var q := n / m;
    assert n == q * m;
    NonNegProduct(-q, m);
  }

  lemma RatioAboveOne(n: real, m: real)
    requires m > 0.0 && n / m > 1.0
    ensures n > m
  {
    var q := n / m;
    assert n == q * m;
    NonNegProduct(q - 1.0, m);
    assert (q - 1.0) * m == q * m - m;
    assert (q - 1.0) * m != 0.0;
  }

  lemma RatioTimes(n: real, m: real)
    requires m != 0.0
    ensures n == (n / m) * m
  {
  }
}
