/** Geometry helpers of the canvas (DimensioningUI/src/components/Canvas/utils.ts):
    segment length, grid snapping, rectangle hit tests, distance from a point
    to a line, duplicate-point and connection tests, and the z-order of
    selected segments. */
module CanvasGeometry {
  import opened Opt
  import opened CanvasTypes

  // ---- calculateSegmentLength ----

  /** Sum of the distances between consecutive points of a polyline. */
  function PathLength(points: seq<Point>, dist: (Point, Point) -> real): real
    decreases |points|
  {
    if |points| < 2 then 0.0
    else PathLength(points[..|points| - 1], dist) + dist(points[|points| - 2], points[|points| - 1])
  }

  /** The length in metres stored for a polyline drawn at `scale` pixels per
      metre; fewer than two points have length 0. */
  function SegmentLength(points: seq<Point>, scale: real, dist: (Point, Point) -> real): real
    requires |points| >= 2 ==> scale != 0.0
  {
    if |points| < 2 then 0.0 else PathLength(points, dist) / scale
  }

  method CalculateSegmentLength(points: seq<Point>, scale: real, dist: (Point, Point) -> real)
    returns (length: real)
    requires |points| >= 2 ==> scale != 0.0
    ensures length == SegmentLength(points, scale, dist)
  {
    if |points| < 2 {
      return 0.0;
    }
    var total := 0.0;
    var i := 1;
    while i < |points|
      invariant 1 <= i <= |points|
      invariant total == PathLength(points[..i], dist)
    {
      assert points[..i + 1][..i] == points[..i];
      total := total + dist(points[i - 1], points[i]);
      i := i + 1;
    }
    assert points[..|points|] == points;
    return total / scale;
  }

  lemma {:induction false} PathLengthNonNegative(points: seq<Point>, dist: (Point, Point) -> real)
    requires IsDistance(dist)
    ensures PathLength(points, dist) >= 0.0
    decreases |points|
  {
    if |points| >= 2 {
      PathLengthNonNegative(points[..|points| - 1], dist);
    }
  }

  /** A stored length is never negative on a positive scale. */
  lemma SegmentLengthNonNegative(points: seq<Point>, scale: real, dist: (Point, Point) -> real)
    requires IsDistance(dist) && scale > 0.0
    ensures SegmentLength(points, scale, dist) >= 0.0
  {
    PathLengthNonNegative(points, dist);
  }

  function TranslatePoints(points: seq<Point>, dx: real, dy: real): (r: seq<Point>)
    ensures |r| == |points|
    ensures forall k | 0 <= k < |r| :: r[k] == Translate(points[k], dx, dy)
  {
    seq(|points|, k requires 0 <= k < |points| => Translate(points[k], dx, dy))
  }

  /** Moving a whole polyline does not change its length. */
  lemma {:induction false} PathLengthTranslated(points: seq<Point>, dx: real, dy: real, dist: (Point, Point) -> real)
    requires IsDistance(dist)
    ensures PathLength(TranslatePoints(points, dx, dy), dist) == PathLength(points, dist)
    decreases |points|
  {
    if |points| >= 2 {
      var n := |points|;
      var moved := TranslatePoints(points, dx, dy);
      assert moved[..n - 1] == TranslatePoints(points[..n - 1], dx, dy);
      PathLengthTranslated(points[..n - 1], dx, dy, dist);
      DistanceAxioms(dist, points[n - 2], points[n - 1], dx, dy);
    }
  }

  lemma SegmentLengthTranslated(points: seq<Point>, scale: real, dx: real, dy: real, dist: (Point, Point) -> real)
    requires IsDistance(dist)
    requires |points| >= 2 ==> scale != 0.0
    ensures SegmentLength(TranslatePoints(points, dx, dy), scale, dist) == SegmentLength(points, scale, dist)
  {
    PathLengthTranslated(points, dx, dy, dist);
  }

  /** Lengths add up when two polylines share their junction point. */
  lemma {:induction false} PathLengthJoin(xs: seq<Point>, ys: seq<Point>, dist: (Point, Point) -> real)
    requires |xs| > 0 && |ys| > 0 && xs[|xs| - 1] == ys[0]
    ensures PathLength(xs[..|xs| - 1] + ys, dist) == PathLength(xs, dist) + PathLength(ys, dist)
    decreases |ys|
  {
    var zs := xs[..|xs| - 1] + ys;
    if |ys| == 1 {
      assert zs == xs;
    } else {
      var m := |ys| - 1;
      assert zs[..|zs| - 1] == xs[..|xs| - 1] + ys[..m];
      PathLengthJoin(xs, ys[..m], dist);
    }
  }

  // ---- snapToGridPoint ----

  /** `Math.round`: halves round towards +infinity. */
  function Round(v: real): int {
    (v + 0.5).Floor
  }

  /** The grid spacing, 0.1 m in pixels. */
  function GridSize(scale: real): real {
    scale * 0.1
  }

  function SnapCoordinate(v: real, g: real): real
    requires g > 0.0
  {
    Round(v / g) as real * g
  }

  function SnapToGridPoint(point: Point, scale: real, snapToGrid: bool): (r: Point)
    ensures !snapToGrid || scale <= 0.0 ==> r == point
  {
    if !snapToGrid then point
    else if scale <= 0.0 then point
    else
      var g := GridSize(scale);
      Point(SnapCoordinate(point.x, g), SnapCoordinate(point.y, g))
  }

  lemma SnapCoordinateNearest(v: real, g: real)
    requires g > 0.0
    ensures Abs(SnapCoordinate(v, g) - v) <= g / 2.0
  {
    var k := Round(v / g);
    var q := v / g;
    assert q * g == v;
    assert k as real <= q + 0.5 < k as real + 1.0;
    var e := k as real - q;
    assert SnapCoordinate(v, g) - v == e * g;
    MulNonNeg(0.5 - e, g);
    MulNonNeg(e + 0.5, g);
  }

  lemma SnapCoordinateIdempotent(v: real, g: real)
    requires g > 0.0
    ensures SnapCoordinate(SnapCoordinate(v, g), g) == SnapCoordinate(v, g)
  {
    var k := Round(v / g);
    var snapped := k as real * g;
    assert SnapCoordinate(v, g) == snapped;
    assert snapped / g == k as real;
    RoundOfInteger(k);
    assert Round(snapped / g) == k;
  }

  lemma RoundOfInteger(k: int)
    ensures Round(k as real) == k
  {
    assert k as real <= k as real + 0.5 < (k + 1) as real;
  }

  /** With snapping on, each coordinate moves to a grid line at most half a
      grid step away, and snapping again changes nothing. */
  lemma SnapToGridPointMeaning(point: Point, scale: real)
    requires scale > 0.0
    ensures Abs(SnapToGridPoint(point, scale, true).x - point.x) <= GridSize(scale) / 2.0
    ensures Abs(SnapToGridPoint(point, scale, true).y - point.y) <= GridSize(scale) / 2.0
    ensures SnapToGridPoint(SnapToGridPoint(point, scale, true), scale, true)
            == SnapToGridPoint(point, scale, true)
  {
    SnapCoordinateNearest(point.x, GridSize(scale));
    SnapCoordinateNearest(point.y, GridSize(scale));
    SnapCoordinateIdempotent(point.x, GridSize(scale));
    SnapCoordinateIdempotent(point.y, GridSize(scale));
  }

  // ---- rectangles and intersections ----

  /** A selection box given by two opposite corners, in either order. */
  datatype Rect = Rect(start: Point, end: Point)

  datatype Bounds = Bounds(minX: real, maxX: real, minY: real, maxY: real)

  function Min(a: real, b: real): real { if a <= b then a else b }

  function Max(a: real, b: real): real { if a >= b then a else b }

  /** The normalised rectangle: it depends on the two corners only as a set
      of x values and a set of y values, so the order of the corners does
      not matter. */
  function BoundsOf(rect: Rect): (b: Bounds)
    ensures b.minX <= b.maxX && b.minY <= b.maxY
    ensures {b.minX, b.maxX} == {rect.start.x, rect.end.x}
    ensures {b.minY, b.maxY} == {rect.start.y, rect.end.y}
  {
    Bounds(Min(rect.start.x, rect.end.x), Max(rect.start.x, rect.end.x),
           Min(rect.start.y, rect.end.y), Max(rect.start.y, rect.end.y))
  }

  predicate InBounds(p: Point, b: Bounds) {
    b.minX <= p.x <= b.maxX && b.minY <= p.y <= b.maxY
  }

  /** The point at parameter `t` on the line from `a` to `b`. */
  function Lerp(a: Point, b: Point, t: real): Point {
    Point(a.x + t * (b.x - a.x), a.y + t * (b.y - a.y))
  }

  function Denominator(p1: Point, p2: Point, p3: Point, p4: Point): real {
    (p4.y - p3.y) * (p2.x - p1.x) - (p4.x - p3.x) * (p2.y - p1.y)
  }

  function ParamA(p1: Point, p2: Point, p3: Point, p4: Point): real
    requires Denominator(p1, p2, p3, p4) != 0.0
  {
    ((p4.x - p3.x) * (p1.y - p3.y) - (p4.y - p3.y) * (p1.x - p3.x)) / Denominator(p1, p2, p3, p4)
  }

  function ParamB(p1: Point, p2: Point, p3: Point, p4: Point): real
    requires Denominator(p1, p2, p3, p4) != 0.0
  {
    ((p2.x - p1.x) * (p1.y - p3.y) - (p2.y - p1.y) * (p1.x - p3.x)) / Denominator(p1, p2, p3, p4)
  }

  /** The segments p1-p2 and p3-p4 meet at parameters u and v. */
  predicate MeetAt(p1: Point, p2: Point, p3: Point, p4: Point, u: real, v: real) {
    0.0 <= u <= 1.0 && 0.0 <= v <= 1.0 && Lerp(p1, p2, u) == Lerp(p3, p4, v)
  }

  function LinesIntersect(p1: Point, p2: Point, p3: Point, p4: Point): (r: bool)
    ensures Denominator(p1, p2, p3, p4) == 0.0 ==> !r
  {
    var denom := Denominator(p1, p2, p3, p4);
    if denom == 0.0 then false
    else
      var ua := ParamA(p1, p2, p3, p4);
      var ub := ParamB(p1, p2, p3, p4);
      0.0 <= ua <= 1.0 && 0.0 <= ub <= 1.0
  }

  lemma CancelNonZero(a: real, b: real, c: real)
    requires c != 0.0 && a * c == b * c
    ensures a == b
  {
    assert (a - b) * c == 0.0;
  }

  /** Cramer's rule along one axis, before dividing by the determinant:
      with A and B the two numerators, e + (A / den) * d1 == (B / den) * d2
      once multiplied out by den. */
  lemma CrossMultiplied(d1: real, d1o: real, d2: real, d2o: real, e: real, eo: real, den: real, a: real, b: real)
    requires den == d2o * d1 - d2 * d1o
    requires a == d2 * eo - d2o * e && b == d1 * eo - d1o * e
    ensures e * den + a * d1 == b * d2
  {
    assert e * den == e * d2o * d1 - e * d2 * d1o;
    assert a * d1 == d2 * eo * d1 - d2o * e * d1;
    assert b * d2 == d1 * eo * d2 - d1o * e * d2;
  }

  /** Dividing a cross-multiplied equation by a non-zero determinant. */
  lemma DivideThrough(e: real, a: real, b: real, d1: real, d2: real, den: real)
    requires den != 0.0 && e * den + a * d1 == b * d2
    ensures e + (a / den) * d1 == (b / den) * d2
  {
    var ua, ub := a / den, b / den;
    assert ua * den == a && ub * den == b;
    assert (e + ua * d1) * den == e * den + (ua * den) * d1;
    assert (ub * d2) * den == (ub * den) * d2;
    CancelNonZero(e + ua * d1, ub * d2, den);
  }

  /** Cramer's rule for the two crossing equations, on the coordinate
      differences: d1 and d2 are the directions of the lines, e the offset of
      the first start from the second. */
  lemma CramerScalar(dx1: real, dy1: real, dx2: real, dy2: real, ex: real, ey: real)
    requires dy2 * dx1 - dx2 * dy1 != 0.0
    ensures var den := dy2 * dx1 - dx2 * dy1;
            ex + ((dx2 * ey - dy2 * ex) / den) * dx1 == ((dx1 * ey - dy1 * ex) / den) * dx2
    ensures var den := dy2 * dx1 - dx2 * dy1;
            ey + ((dx2 * ey - dy2 * ex) / den) * dy1 == ((dx1 * ey - dy1 * ex) / den) * dy2
  {
    var den := dy2 * dx1 - dx2 * dy1;
    var a, b := dx2 * ey - dy2 * ex, dx1 * ey - dy1 * ex;
    CrossMultiplied(dx1, dy1, dx2, dy2, ex, ey, den, a, b);
    DivideThrough(ex, a, b, dx1, dx2, den);
    CrossMultiplied(dy1, dx1, dy2, dx2, ey, ex, -den, -a, -b);
    DivideThrough(ey, -a, -b, dy1, dy2, -den);
    NegatedQuotient(a, den);
    NegatedQuotient(b, den);
  }

  /** The two parameters solve the crossing equations of the two lines. */
  lemma CramerSolves(p1: Point, p2: Point, p3: Point, p4: Point)
    requires Denominator(p1, p2, p3, p4) != 0.0
    ensures Lerp(p1, p2, ParamA(p1, p2, p3, p4)) == Lerp(p3, p4, ParamB(p1, p2, p3, p4))
  {
    CramerScalar(p2.x - p1.x, p2.y - p1.y, p4.x - p3.x, p4.y - p3.y, p1.x - p3.x, p1.y - p3.y);
    LerpsMeet(p1, p2, p3, p4, ParamA(p1, p2, p3, p4), ParamB(p1, p2, p3, p4));
  }

  lemma NegatedQuotient(a: real, den: real)
    requires den != 0.0
    ensures -a / -den == a / den
  {
  }

  /** Two points on the lines coincide when their offsets from p3 agree. */
  lemma LerpsMeet(p1: Point, p2: Point, p3: Point, p4: Point, u: real, v: real)
    requires (p1.x - p3.x) + u * (p2.x - p1.x) == v * (p4.x - p3.x)
    requires (p1.y - p3.y) + u * (p2.y - p1.y) == v * (p4.y - p3.y)
    ensures Lerp(p1, p2, u) == Lerp(p3, p4, v)
  {
  }

  /** Non-parallel lines cross at one pair of parameters only. */
  lemma CramerUnique(p1: Point, p2: Point, p3: Point, p4: Point, u: real, v: real)
    requires Denominator(p1, p2, p3, p4) != 0.0
    requires Lerp(p1, p2, u) == Lerp(p3, p4, v)
    ensures u == ParamA(p1, p2, p3, p4) && v == ParamB(p1, p2, p3, p4)
  {
    var den := Denominator(p1, p2, p3, p4);
    var dx1, dy1 := p2.x - p1.x, p2.y - p1.y;
    var dx2, dy2 := p4.x - p3.x, p4.y - p3.y;
    var ex, ey := p1.x - p3.x, p1.y - p3.y;
    assert ex + u * dx1 == v * dx2;
    assert ey + u * dy1 == v * dy2;
    assert u * den == dy2 * (u * dx1) - dx2 * (u * dy1);
    assert u * den == dx2 * ey - dy2 * ex;
    assert v * den == dx1 * (v * dy2) - dy1 * (v * dx2);
    assert v * den == dx1 * ey - dy1 * ex;
    assert ParamA(p1, p2, p3, p4) * den == dx2 * ey - dy2 * ex;
    assert ParamB(p1, p2, p3, p4) * den == dx1 * ey - dy1 * ex;
    CancelNonZero(u, ParamA(p1, p2, p3, p4), den);
    CancelNonZero(v, ParamB(p1, p2, p3, p4), den);
  }

  /** linesIntersect holds exactly when the two lines are not parallel and
      the two closed segments have a common point. */
  lemma LinesIntersectMeaning(p1: Point, p2: Point, p3: Point, p4: Point)
    ensures LinesIntersect(p1, p2, p3, p4) <==>
              Denominator(p1, p2, p3, p4) != 0.0 && exists u, v :: MeetAt(p1, p2, p3, p4, u, v)
  {
    if Denominator(p1, p2, p3, p4) != 0.0 {
      var ua, ub := ParamA(p1, p2, p3, p4), ParamB(p1, p2, p3, p4);
      CramerSolves(p1, p2, p3, p4);
      if LinesIntersect(p1, p2, p3, p4) {
        assert MeetAt(p1, p2, p3, p4, ua, ub);
      }
      forall u, v | MeetAt(p1, p2, p3, p4, u, v)
        ensures LinesIntersect(p1, p2, p3, p4)
      {
        CramerUnique(p1, p2, p3, p4, u, v);
      }
    }
  }

  /** Both ends lie past the same side of the rectangle, so the line cannot
      meet it. */
  predicate BeyondOneSide(a: Point, b: Point, bounds: Bounds) {
    (a.x < bounds.minX && b.x < bounds.minX) ||
    (a.x > bounds.maxX && b.x > bounds.maxX) ||
    (a.y < bounds.minY && b.y < bounds.minY) ||
    (a.y > bounds.maxY && b.y > bounds.maxY)
  }

  /** lineIntersectsRect: reject a line wholly beyond one side, accept one
      with an endpoint inside, else test the four edges in order. */
  function LineIntersectsRect(a: Point, b: Point, rect: Rect): bool {
    var bd := BoundsOf(rect);
    if BeyondOneSide(a, b, bd) then false
    else if InBounds(a, bd) || InBounds(b, bd) then true
    else
      var c1, c2 := Point(bd.minX, bd.minY), Point(bd.maxX, bd.minY);
      var c3, c4 := Point(bd.maxX, bd.maxY), Point(bd.minX, bd.maxY);
      LinesIntersect(a, b, c1, c2) || LinesIntersect(a, b, c2, c3)
      || LinesIntersect(a, b, c3, c4) || LinesIntersect(a, b, c4, c1)
  }

  /** A point of the line from a to b at parameter t lies in the rectangle. */
  predicate HitsAt(a: Point, b: Point, bd: Bounds, t: real) {
    0.0 <= t <= 1.0 && InBounds(Lerp(a, b, t), bd)
  }

  lemma BetweenEither(u: real, c: real, d: real, lo: real, hi: real)
    requires 0.0 <= u <= 1.0 && lo <= c <= hi && lo <= d <= hi
    ensures lo <= c + u * (d - c) <= hi
  {
    var w := d - c;
    if c <= d {
      MulNonNeg(u, w);
      MulNonNeg(1.0 - u, w);
      assert (1.0 - u) * w == w - u * w;
    } else {
      MulNonNeg(u, -w);
      MulNonNeg(1.0 - u, -w);
      assert u * (-w) == -(u * w);
      assert (1.0 - u) * (-w) == u * w - w;
    }
  }

  /** An edge of the rectangle that the line crosses gives a point of the
      line inside the rectangle. */
  lemma EdgeHit(a: Point, b: Point, bd: Bounds, c: Point, d: Point)
    requires InBounds(c, bd) && InBounds(d, bd)
    requires LinesIntersect(a, b, c, d)
    ensures exists t :: HitsAt(a, b, bd, t)
  {
    var ua, ub := ParamA(a, b, c, d), ParamB(a, b, c, d);
    CramerSolves(a, b, c, d);
    var m := Lerp(c, d, ub);
    BetweenEither(ub, c.x, d.x, bd.minX, bd.maxX);
    BetweenEither(ub, c.y, d.y, bd.minY, bd.maxY);
    assert InBounds(m, bd);
    assert HitsAt(a, b, bd, ua);
  }

  /** lineIntersectsRect never reports a line that misses the rectangle. */
  lemma LineIntersectsRectSound(a: Point, b: Point, rect: Rect)
    requires LineIntersectsRect(a, b, rect)
    ensures exists t :: HitsAt(a, b, BoundsOf(rect), t)
  {
    var bd := BoundsOf(rect);
    if InBounds(a, bd) {
      assert HitsAt(a, b, bd, 0.0);
    } else if InBounds(b, bd) {
      assert Lerp(a, b, 1.0) == b;
      assert HitsAt(a, b, bd, 1.0);
    } else {
      var c1, c2 := Point(bd.minX, bd.minY), Point(bd.maxX, bd.minY);
      var c3, c4 := Point(bd.maxX, bd.maxY), Point(bd.minX, bd.maxY);
      if LinesIntersect(a, b, c1, c2) {
        EdgeHit(a, b, bd, c1, c2);
      } else if LinesIntersect(a, b, c2, c3) {
        EdgeHit(a, b, bd, c2, c3);
      } else if LinesIntersect(a, b, c3, c4) {
        EdgeHit(a, b, bd, c3, c4);
      } else {
        EdgeHit(a, b, bd, c4, c1);
      }
    }
  }

  /** segmentIntersectsRect: some point of the polyline inside the rectangle,
      or some edge of it crossing the rectangle. */
  method SegmentIntersectsRect(points: seq<Point>, rect: Rect) returns (r: bool)
    ensures r <==> (exists k | 0 <= k < |points| :: InBounds(points[k], BoundsOf(rect)))
                   || (exists k | 0 <= k < |points| - 1 :: LineIntersectsRect(points[k], points[k + 1], rect))
  {
    var bd := BoundsOf(rect);
    var i := 0;
    while i < |points|
      invariant 0 <= i <= |points|
      invariant forall k | 0 <= k < i :: !InBounds(points[k], bd)
    {
      if InBounds(points[i], bd) {
        return true;
      }
      i := i + 1;
    }
    var j := 0;
    while j < |points| - 1
      invariant 0 <= j <= |points| || |points| == 0
      invariant forall k | 0 <= k < j && k < |points| - 1 :: !LineIntersectsRect(points[k], points[k + 1], rect)
    {
      if LineIntersectsRect(points[j], points[j + 1], rect) {
        return true;
      }
      j := j + 1;
    }
    return false;
  }

  // ---- getPointOnLineDistance ----

  /** The projection parameter of `p` on the line a-b, -1 for a degenerate
      line. */
  function ProjectionParam(p: Point, a: Point, b: Point): real {
    var c, d := b.x - a.x, b.y - a.y;
    var lenSq := c * c + d * d;
    if lenSq != 0.0 then ((p.x - a.x) * c + (p.y - a.y) * d) / lenSq else -1.0
  }

  /** The parameter actually used: the projection clamped into [0, 1]. */
  function FootParam(p: Point, a: Point, b: Point): (t: real)
    ensures 0.0 <= t <= 1.0
  {
    var param := ProjectionParam(p, a, b);
    if param < 0.0 then 0.0 else if param > 1.0 then 1.0 else param
  }

  /** The point of the segment a-b the distance is measured to. */
  function FootPoint(p: Point, a: Point, b: Point): (f: Point)
    ensures f == Lerp(a, b, FootParam(p, a, b))
    ensures a == b ==> f == a
  {
    var param := ProjectionParam(p, a, b);
    if param < 0.0 then a
    else if param > 1.0 then b
    else Lerp(a, b, param)
  }

  /** getPointOnLineDistance. */
  function PointOnLineDistance(p: Point, a: Point, b: Point, dist: (Point, Point) -> real): real {
    dist(p, FootPoint(p, a, b))
  }

  function LenSq(a: Point, b: Point): real {
    (b.x - a.x) * (b.x - a.x) + (b.y - a.y) * (b.y - a.y)
  }

  function Dot(p: Point, a: Point, b: Point): real {
    (p.x - a.x) * (b.x - a.x) + (p.y - a.y) * (b.y - a.y)
  }

  /** The squared distance from p to the point at parameter t, as a
      quadratic in t. */
  function Quad(len: real, dot: real, c0: real, t: real): real {
    t * t * len - 2.0 * t * dot + c0
  }

  lemma SquareAlong(u: real, d: real, t: real)
    ensures (t * d - u) * (t * d - u) == t * t * (d * d) - 2.0 * t * (u * d) + u * u
  {
  }

  lemma QuadExpand(dx: real, dy: real, ux: real, uy: real, t: real)
    ensures (t * dx - ux) * (t * dx - ux) + (t * dy - uy) * (t * dy - uy)
            == Quad(dx * dx + dy * dy, ux * dx + uy * dy, ux * ux + uy * uy, t)
  {
    SquareAlong(ux, dx, t);
    SquareAlong(uy, dy, t);
    assert t * t * (dx * dx + dy * dy) == t * t * (dx * dx) + t * t * (dy * dy);
    assert 2.0 * t * (ux * dx + uy * dy) == 2.0 * t * (ux * dx) + 2.0 * t * (uy * dy);
  }

  lemma SquareSumCongruent(e1: real, e2: real, f1: real, f2: real)
    requires e1 == f1 && e2 == f2
    ensures e1 * e1 + e2 * e2 == f1 * f1 + f2 * f2
  {
  }

  /** DistSqAlongLine on coordinates. */
  lemma LerpQuad(x0: real, y0: real, x1: real, y1: real, x2: real, y2: real, t: real)
    ensures ((x1 + t * (x2 - x1)) - x0) * ((x1 + t * (x2 - x1)) - x0)
            + ((y1 + t * (y2 - y1)) - y0) * ((y1 + t * (y2 - y1)) - y0)
            == Quad((x2 - x1) * (x2 - x1) + (y2 - y1) * (y2 - y1),
                    (x0 - x1) * (x2 - x1) + (y0 - y1) * (y2 - y1),
                    (x0 - x1) * (x0 - x1) + (y0 - y1) * (y0 - y1), t)
  {
    QuadExpand(x2 - x1, y2 - y1, x0 - x1, y0 - y1, t);
    SquareSumCongruent((x1 + t * (x2 - x1)) - x0, (y1 + t * (y2 - y1)) - y0,
                       t * (x2 - x1) - (x0 - x1), t * (y2 - y1) - (y0 - y1));
  }

  lemma DistSqOfLerp(p: Point, a: Point, b: Point, t: real)
    ensures DistSq(p, Lerp(a, b, t))
            == ((a.x + t * (b.x - a.x)) - p.x) * ((a.x + t * (b.x - a.x)) - p.x)
               + ((a.y + t * (b.y - a.y)) - p.y) * ((a.y + t * (b.y - a.y)) - p.y)
  {
  }

  lemma QuadOfPoints(p: Point, a: Point, b: Point, t: real)
    ensures Quad(LenSq(a, b), Dot(p, a, b), DistSq(a, p), t)
            == Quad((b.x - a.x) * (b.x - a.x) + (b.y - a.y) * (b.y - a.y),
                    (p.x - a.x) * (b.x - a.x) + (p.y - a.y) * (b.y - a.y),
                    (p.x - a.x) * (p.x - a.x) + (p.y - a.y) * (p.y - a.y), t)
  {
  }

  lemma DistSqAlongLine(p: Point, a: Point, b: Point, t: real)
    ensures DistSq(p, Lerp(a, b, t)) == Quad(LenSq(a, b), Dot(p, a, b), DistSq(a, p), t)
  {
    DistSqOfLerp(p, a, b, t);
    LerpQuad(p.x, p.y, a.x, a.y, b.x, b.y, t);
    QuadOfPoints(p, a, b, t);
  }

  lemma InteriorMinimum(len: real, dot: real, c0: real, s: real, t: real)
    requires len > 0.0 && s * len == dot
    ensures Quad(len, dot, c0, s) <= Quad(len, dot, c0, t)
  {
    assert Quad(len, dot, c0, t) - Quad(len, dot, c0, s) == len * ((t - s) * (t - s));
    assert (t - s) * (t - s) >= 0.0;
  }

  lemma StartMinimum(len: real, dot: real, c0: real, t: real)
    requires len >= 0.0 && dot < 0.0 && t >= 0.0
    ensures Quad(len, dot, c0, 0.0) <= Quad(len, dot, c0, t)
  {
    assert Quad(len, dot, c0, t) - Quad(len, dot, c0, 0.0) == t * (t * len - 2.0 * dot);
    assert t * len >= 0.0;
  }

  lemma EndMinimum(len: real, dot: real, c0: real, t: real)
    requires len >= 0.0 && dot > len && t <= 1.0
    ensures Quad(len, dot, c0, 1.0) <= Quad(len, dot, c0, t)
  {
    assert Quad(len, dot, c0, t) - Quad(len, dot, c0, 1.0) == (1.0 - t) * (2.0 * dot - (t + 1.0) * len);
    assert (t + 1.0) * len <= 2.0 * len;
  }

  lemma QuotientSign(a: real, b: real)
    requires b > 0.0
    ensures a / b < 0.0 <==> a < 0.0
    ensures a / b > 1.0 <==> a > b
  {
    var q := a / b;
    assert q * b == a;
    if q < 0.0 { assert (0.0 - q) * b > 0.0; }
    if q >= 0.0 { assert q * b >= 0.0; }
    if q > 1.0 { assert (q - 1.0) * b > 0.0; }
    if q <= 1.0 { assert (1.0 - q) * b >= 0.0; }
  }

  /** A number limited to [0, 1]. */
  function Clamp01(q: real): real {
    if q < 0.0 then 0.0 else if q > 1.0 then 1.0 else q
  }

  /** The parameter in [0, 1] nearest to the unconstrained minimum dot / len
      minimises the quadratic over [0, 1]. */
  lemma ClampedMinimum(len: real, dot: real, c0: real, t: real)
    requires len > 0.0 && 0.0 <= t <= 1.0
    ensures Quad(len, dot, c0, Clamp01(dot / len)) <= Quad(len, dot, c0, t)
  {
    var q := dot / len;
    assert q * len == dot;
    QuotientSign(dot, len);
    if q < 0.0 {
      StartMinimum(len, dot, c0, t);
    } else if q > 1.0 {
      EndMinimum(len, dot, c0, t);
    } else {
      InteriorMinimum(len, dot, c0, q, t);
    }
  }

  /** For a segment of positive length the foot parameter is the projection
      clamped into [0, 1]. */
  lemma FootParamClamped(p: Point, a: Point, b: Point)
    requires LenSq(a, b) != 0.0
    ensures LenSq(a, b) > 0.0
    ensures FootParam(p, a, b) == Clamp01(Dot(p, a, b) / LenSq(a, b))
  {
    LenSqNonNeg(a, b);
    ProjectionIsQuotient(p, a, b);
  }

  lemma LenSqNonNeg(a: Point, b: Point)
    ensures LenSq(a, b) >= 0.0
  {
    SquareNonNeg(b.x - a.x);
    SquareNonNeg(b.y - a.y);
  }

  lemma ProjectionIsQuotient(p: Point, a: Point, b: Point)
    requires LenSq(a, b) != 0.0
    ensures ProjectionParam(p, a, b) == Dot(p, a, b) / LenSq(a, b)
  {
  }

  /** For a segment of zero length every point of it, and the foot point,
      is its start. */
  lemma DegenerateFoot(p: Point, a: Point, b: Point, t: real)
    requires LenSq(a, b) == 0.0
    ensures Lerp(a, b, t) == a && FootPoint(p, a, b) == a
  {
    SquaresVanish(b.x - a.x, b.y - a.y);
  }

  /** The foot point is the point of the segment nearest to `p`, so the
      reported distance is the distance from `p` to the segment. */
  lemma FootIsNearest(p: Point, a: Point, b: Point, t: real)
    requires 0.0 <= t <= 1.0
    ensures DistSq(p, FootPoint(p, a, b)) <= DistSq(p, Lerp(a, b, t))
  {
    if LenSq(a, b) == 0.0 {
      DegenerateFoot(p, a, b, t);
    } else {
      DistSqAlongLine(p, a, b, t);
      DistSqAlongLine(p, a, b, FootParam(p, a, b));
      FootParamClamped(p, a, b);
      ClampedMinimum(LenSq(a, b), Dot(p, a, b), DistSq(a, p), t);
    }
  }

  // ---- pointExistsAtLocation ----

  /** pointExistsAtLocation: some point of some segment is closer than
      `threshold`. */
  method PointExistsAtLocation(point: Point, segments: seq<CableSegment>, threshold: real)
    returns (found: bool)
    ensures found <==> exists i, j :: 0 <= i < |segments| && 0 <= j < |segments[i].points|
                                      && Within(point, segments[i].points[j], threshold)
  {
    var i := 0;
    while i < |segments|
      invariant 0 <= i <= |segments|
      invariant forall i', j' :: 0 <= i' < i && 0 <= j' < |segments[i'].points|
                                 ==> !Within(point, segments[i'].points[j'], threshold)
    {
      var pts := segments[i].points;
      var j := 0;
      while j < |pts|
        invariant 0 <= j <= |pts|
        invariant forall j' :: 0 <= j' < j ==> !Within(point, pts[j'], threshold)
      {
        if Within(point, pts[j], threshold) {
          return true;
        }
        j := j + 1;
      }
      i := i + 1;
    }
    return false;
  }

  // ---- isConnectionPoint / findConnectionPoint ----

  /** The tolerance of the connection tests: under one pixel on each axis. */
  predicate Near(p: Point, q: Point) {
    Abs(p.x - q.x) < 1.0 && Abs(p.y - q.y) < 1.0
  }

  function First(points: seq<Point>): Point
    requires |points| > 0
  {
    points[0]
  }

  function Last(points: seq<Point>): Point
    requires |points| > 0
  {
    points[|points| - 1]
  }

  /** isConnectionPoint: the last point meets the partner's start, or the
      first point meets the partner's end. */
  function IsConnectionPoint(segment: CableSegment, pointIndex: int, connected: CableSegment): (r: bool)
    requires |segment.points| > 0 && |connected.points| > 0
    ensures r ==> pointIndex == 0 || pointIndex == |segment.points| - 1
  {
    (pointIndex == |segment.points| - 1 && Near(Last(segment.points), First(connected.points)))
    || (pointIndex == 0 && Near(First(segment.points), Last(connected.points)))
  }

  /** findConnectionPoint: end-to-start is tried before start-to-end. */
  function FindConnectionPoint(segment: CableSegment, connected: CableSegment): (r: Option<Point>)
    requires |segment.points| > 0 && |connected.points| > 0
    ensures r.None? <==> !Near(Last(segment.points), First(connected.points))
                         && !Near(First(segment.points), Last(connected.points))
    ensures Near(Last(segment.points), First(connected.points)) ==> r == Some(Last(segment.points))
    ensures r.Some? && r.value != Last(segment.points) ==>
              r.value == First(segment.points) && Near(First(segment.points), Last(connected.points))
  {
    if Near(Last(segment.points), First(connected.points)) then Some(Last(segment.points))
    else if Near(First(segment.points), Last(connected.points)) then Some(First(segment.points))
    else None
  }

  /** The two connection tests agree: a connection point exists exactly when
      findConnectionPoint finds one, and it is the point found unless both
      ends connect. */
  lemma ConnectionTestsAgree(segment: CableSegment, connected: CableSegment)
    requires |segment.points| > 0 && |connected.points| > 0
    ensures FindConnectionPoint(segment, connected).Some? <==>
              exists k | 0 <= k < |segment.points| :: IsConnectionPoint(segment, k, connected)
    ensures forall k | 0 <= k < |segment.points| && IsConnectionPoint(segment, k, connected) ::
              segment.points[k] == FindConnectionPoint(segment, connected).value
              || (Near(Last(segment.points), First(connected.points))
                  && Near(First(segment.points), Last(connected.points)))
  {
    var n := |segment.points|;
    if Near(Last(segment.points), First(connected.points)) {
      assert IsConnectionPoint(segment, n - 1, connected);
    } else if Near(First(segment.points), Last(connected.points)) {
      assert IsConnectionPoint(segment, 0, connected);
    }
  }

  // ---- getSortedSegmentIndices ----

  /** The indices below n whose membership in `chosen` is `inside`, in
      ascending order. */
  function IndicesWhere(n: nat, chosen: set<int>, inside: bool): (r: seq<int>)
    ensures forall k | 0 <= k < |r| :: 0 <= r[k] < n && (r[k] in chosen) == inside
    decreases n
  {
    if n == 0 then []
    else IndicesWhere(n - 1, chosen, inside) + (if ((n - 1) in chosen) == inside then [n - 1] else [])
  }

  /** The collected indices ascend. */
  lemma {:induction false} IndicesWhereAscending(n: nat, chosen: set<int>, inside: bool)
    ensures forall k, l | 0 <= k < l < |IndicesWhere(n, chosen, inside)| ::
              IndicesWhere(n, chosen, inside)[k] < IndicesWhere(n, chosen, inside)[l]
    decreases n
  {
    if n > 0 {
      IndicesWhereAscending(n - 1, chosen, inside);
      var p := IndicesWhere(n - 1, chosen, inside);
      var last := if ((n - 1) in chosen) == inside then [n - 1] else [];
      var r := IndicesWhere(n, chosen, inside);
      assert r == p + last;
      forall k, l | 0 <= k < l < |r|
        ensures r[k] < r[l]
      {
        assert r[k] == p[k] && p[k] < n - 1;
        if l < |p| { assert r[l] == p[l]; } else { assert r[l] == n - 1; }
      }
    }
  }

  /** Every index below n with the given membership is collected. */
  lemma {:induction false} IndicesWhereComplete(n: nat, chosen: set<int>, inside: bool)
    ensures forall i | 0 <= i < n && (i in chosen) == inside :: i in IndicesWhere(n, chosen, inside)
    decreases n
  {
    if n > 0 {
      IndicesWhereComplete(n - 1, chosen, inside);
      var p := IndicesWhere(n - 1, chosen, inside);
      var last := if ((n - 1) in chosen) == inside then [n - 1] else [];
      assert IndicesWhere(n, chosen, inside) == p + last;
      forall i | 0 <= i < n && (i in chosen) == inside
        ensures i in p + last
      {
        if i < n - 1 {
          assert i in p;
        } else {
          assert (p + last)[|p|] == i;
        }
      }
    }
  }

  lemma {:induction false} IndicesWhereSplit(n: nat, chosen: set<int>)
    ensures |IndicesWhere(n, chosen, false)| + |IndicesWhere(n, chosen, true)| == n
    decreases n
  {
    if n > 0 {
      IndicesWhereSplit(n - 1, chosen);
    }
  }

  /** The draw order: unselected segments first, then selected ones, each
      group in index order, so selected segments are drawn on top. */
  function DrawOrder(n: nat, selected: seq<int>): seq<int> {
    var chosen := set x | x in selected;
    IndicesWhere(n, chosen, false) + IndicesWhere(n, chosen, true)
  }

  method GetSortedSegmentIndices(segments: seq<CableSegment>, selectedSegmentIndices: seq<int>)
    returns (order: seq<int>)
    ensures order == DrawOrder(|segments|, selectedSegmentIndices)
  {
    var chosen := set x | x in selectedSegmentIndices;
    var nonSelected: seq<int> := [];
    var selected: seq<int> := [];
    var index := 0;
    while index < |segments|
      invariant 0 <= index <= |segments|
      invariant nonSelected == IndicesWhere(index, chosen, false)
      invariant selected == IndicesWhere(index, chosen, true)
    {
      if index in chosen {
        selected := selected + [index];
      } else {
        nonSelected := nonSelected + [index];
      }
      index := index + 1;
    }
    return nonSelected + selected;
  }

  /** The draw order is a permutation of 0..n-1 that puts every unselected
      index before every selected one and keeps index order in each group. */
  lemma DrawOrderIsPartition(n: nat, selected: seq<int>)
    ensures |DrawOrder(n, selected)| == n
    ensures forall i | 0 <= i < n :: i in DrawOrder(n, selected)
    ensures forall k | 0 <= k < n :: 0 <= DrawOrder(n, selected)[k] < n
    ensures forall k, l | 0 <= k < l < n :: DrawOrder(n, selected)[k] != DrawOrder(n, selected)[l]
    ensures forall k, l | 0 <= k < l < n && DrawOrder(n, selected)[k] in selected ::
              DrawOrder(n, selected)[l] in selected
    ensures forall k, l | 0 <= k < l < n && (DrawOrder(n, selected)[k] in selected) == (DrawOrder(n, selected)[l] in selected) ::
              DrawOrder(n, selected)[k] < DrawOrder(n, selected)[l]
  {
    var chosen := set x | x in selected;
    var lo, hi := IndicesWhere(n, chosen, false), IndicesWhere(n, chosen, true);
    IndicesWhereSplit(n, chosen);
    IndicesWhereAscending(n, chosen, false);
    IndicesWhereAscending(n, chosen, true);
    IndicesWhereComplete(n, chosen, false);
    IndicesWhereComplete(n, chosen, true);
    var r := DrawOrder(n, selected);
    assert r == lo + hi;
    forall k | 0 <= k < n
      ensures (r[k] in selected) == (k >= |lo|)
    {
      if k < |lo| { assert r[k] == lo[k]; } else { assert r[k] == hi[k - |lo|]; }
    }
  }
}
