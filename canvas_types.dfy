/** The canvas data model (DimensioningUI/src/components/Canvas/types.ts and
    the defaults and ranges the canvas uses), with the planar distance the
    canvas measures everything by. */
module CanvasTypes {
  import opened Opt

  datatype Point = Point(x: real, y: real)

  /** The three installation temperatures a segment can be tagged with. */
  datatype TemperaturePreset = NormalIndoor | WarmSpace | HotArea

  /** A drawn cable run: its polyline in stage pixels, its length in metres
      and its optional per-segment properties. `connectedTo` is the index of
      the other half of a split segment. */
  datatype CableSegment = CableSegment(
    points: seq<Point>,
    length: real,
    crossSection: Option<real>,
    isCopper: Option<bool>,
    temperature: Option<TemperaturePreset>,
    connectedTo: Option<int>)

  /** A point of the canvas: point `point` of segment `segment`. */
  datatype HoveredPoint = HoveredPoint(segment: int, point: int)

  datatype Tool = Select | Line | Erase | Calibrate | CrossSection

  /** The key `${low}-${high}` of the cross-section map. The template string
      is injective on pairs of integers, so the pair stands for the string. */
  datatype ConnectionKey = ConnectionKey(low: int, high: int)

  /** The key a split writes and a merge deletes: the smaller index first. */
  function SortedKey(a: int, b: int): (k: ConnectionKey)
    ensures k.low <= k.high
    ensures {k.low, k.high} == {a, b}
  {
    if a <= b then ConnectionKey(a, b) else ConnectionKey(b, a)
  }

  /** What a JavaScript access through `undefined` does: the caller gets
      either a value or a thrown TypeError. */
  datatype Thrown<T> = Returned(value: T) | TypeError

  // ---- defaults and ranges ----

  const DefaultCrossSection: real := 2.5
  const DefaultIsCopper: bool := true
  const DefaultTemperature: TemperaturePreset := NormalIndoor
  const DefaultScale: real := 300.0

  const CrossSectionMin: real := 1.5
  const CrossSectionMax: real := 35.0

  const MinScale: real := 100.0
  const MaxScale: real := 1500.0

  // ---- distance ----

  function Abs(r: real): real { if r < 0.0 then -r else r }

  function DistSq(p: Point, q: Point): real {
    (q.x - p.x) * (q.x - p.x) + (q.y - p.y) * (q.y - p.y)
  }

  /** `Math.sqrt` of the squared distance, which the model cannot compute:
      any function returning the non-negative square root qualifies. */
  ghost predicate IsDistance(dist: (Point, Point) -> real) {
    forall p, q :: dist(p, q) >= 0.0 && dist(p, q) * dist(p, q) == DistSq(p, q)
  }

  /** `distance(p, q) < t`, decided on squares. */
  predicate Within(p: Point, q: Point, t: real) {
    t > 0.0 && DistSq(p, q) < t * t
  }

  function Translate(p: Point, dx: real, dy: real): (r: Point)
    ensures r.x - p.x == dx && r.y - p.y == dy
  {
    Point(p.x + dx, p.y + dy)
  }

  lemma MulNonNeg(a: real, b: real)
    requires a >= 0.0 && b >= 0.0
    ensures a * b >= 0.0
  {
  }

  lemma SquareNonNeg(a: real)
    ensures a * a >= 0.0
  {
    if a < 0.0 {
      MulNonNeg(-a, -a);
      assert (-a) * (-a) == a * a;
    } else {
      MulNonNeg(a, a);
    }
  }

  /** Squaring is strictly monotone on the non-negative numbers. */
  lemma SquareLess(a: real, b: real)
    requires a >= 0.0 && b >= 0.0
    ensures a < b <==> a * a < b * b
  {
    var d := b - a;
    assert b * b == a * a + d * (a + b);
    if a < b {
      assert d * (a + b) > 0.0;
    } else {
      assert d * (a + b) <= 0.0;
    }
  }

  /** Two non-negative numbers with the same square are equal. */
  lemma SquareInjective(a: real, b: real)
    requires a >= 0.0 && b >= 0.0 && a * a == b * b
    ensures a == b
  {
    SquareLess(a, b);
    SquareLess(b, a);
  }

  /** The squared test agrees with comparing the distance itself. */
  lemma WithinIsDistanceBelow(dist: (Point, Point) -> real, p: Point, q: Point, t: real)
    requires IsDistance(dist)
    ensures Within(p, q, t) <==> dist(p, q) < t
  {
    var d := dist(p, q);
    if t > 0.0 {
      SquareLess(d, t);
    }
  }

  /** Comparing two distances is comparing their squares. */
  lemma CloserIsSmallerSquare(dist: (Point, Point) -> real, p: Point, q: Point, r: Point, s: Point)
    requires IsDistance(dist)
    ensures dist(p, q) < dist(r, s) <==> DistSq(p, q) < DistSq(r, s)
  {
    SquareLess(dist(p, q), dist(r, s));
  }

  lemma SquaresVanish(ex: real, ey: real)
    requires ex * ex + ey * ey == 0.0
    ensures ex == 0.0 && ey == 0.0
  {
    SquareLess(0.0, Abs(ex));
    SquareLess(0.0, Abs(ey));
    assert Abs(ex) * Abs(ex) == ex * ex && Abs(ey) * Abs(ey) == ey * ey;
  }

  /** A distance is symmetric, zero exactly on equal points and unchanged by
      moving both points by the same offset. */
  lemma DistanceAxioms(dist: (Point, Point) -> real, p: Point, q: Point, dx: real, dy: real)
    requires IsDistance(dist)
    ensures dist(p, q) == dist(q, p)
    ensures dist(p, q) == 0.0 <==> p == q
    ensures dist(Translate(p, dx, dy), Translate(q, dx, dy)) == dist(p, q)
  {
    SquareInjective(dist(p, q), dist(q, p));
    SquareInjective(dist(Translate(p, dx, dy), Translate(q, dx, dy)), dist(p, q));
    if dist(p, q) == 0.0 {
      SquaresVanish(q.x - p.x, q.y - p.y);
    } else if p == q {
      SquareInjective(dist(p, q), 0.0);
    }
  }
}
