/** Hit detection on the canvas (DimensioningUI/src/components/Canvas/hooks/useCanvasDetection.ts):
    the first point under the cursor, the segment with the nearest edge and
    the nearest segment endpoint. Distances are compared through their
    squares, which orders them the same way (CanvasTypes.CloserIsSmallerSquare). */
module CanvasDetection {
  import opened Opt
  import opened CanvasTypes
  import opened CanvasGeometry

  /** Default thresholds, in stage pixels. */
  const PointThreshold: real := 10.0
  const SegmentThreshold: real := 10.0
  const EndpointThreshold: real := 15.0

  // ---- getNearestPoint ----

  /** Point (i', j') is visited before point (i, j): segments in order, and
      the points of one segment in order. */
  predicate VisitedBefore(i': int, j': int, i: int, j: int) {
    i' < i || (i' == i && j' < j)
  }

  predicate PointHit(segments: seq<CableSegment>, point: Point, threshold: real, i: int, j: int) {
    0 <= i < |segments| && 0 <= j < |segments[i].points| && Within(point, segments[i].points[j], threshold)
  }

  /** getNearestPoint: the first point in visiting order that is closer than
      the threshold, or none when no point is. */
  method GetNearestPoint(segments: seq<CableSegment>, point: Point, threshold: real)
    returns (r: Option<HoveredPoint>)
    ensures r.None? <==> forall i, j :: !PointHit(segments, point, threshold, i, j)
    ensures r.Some? ==> PointHit(segments, point, threshold, r.value.segment, r.value.point)
    ensures r.Some? ==> forall i, j | VisitedBefore(i, j, r.value.segment, r.value.point) ::
                          !PointHit(segments, point, threshold, i, j)
  {
    var i := 0;
    while i < |segments|
      invariant 0 <= i <= |segments|
      invariant forall i', j' | i' < i :: !PointHit(segments, point, threshold, i', j')
    {
      var seg := segments[i];
      var j := 0;
      while j < |seg.points|
        invariant 0 <= j <= |seg.points|
        invariant forall i', j' | VisitedBefore(i', j', i, j) :: !PointHit(segments, point, threshold, i', j')
      {
        if Within(point, seg.points[j], threshold) {
          assert PointHit(segments, point, threshold, i, j);
          return Some(HoveredPoint(i, j));
        }
        j := j + 1;
      }
      i := i + 1;
    }
    return None;
  }

  // ---- getNearestSegment ----

  /** Squared distance from `point` to edge j of a segment. */
  function EdgeDistSq(point: Point, s: CableSegment, j: int): real
    requires 0 <= j < |s.points| - 1
  {
    DistSq(point, FootPoint(point, s.points[j], s.points[j + 1]))
  }

  /** Edge j of segment i exists and is closer than the threshold. */
  predicate EdgeHit(segments: seq<CableSegment>, point: Point, threshold: real, i: int, j: int) {
    0 <= i < |segments| && 0 <= j < |segments[i].points| - 1
    && Within(point, FootPoint(point, segments[i].points[j], segments[i].points[j + 1]), threshold)
  }

  /** Edge j of segment n is a nearest edge within the threshold, and every
      segment before n is strictly farther away. */
  ghost predicate NearestEdge(segments: seq<CableSegment>, point: Point, threshold: real, n: int, e: int) {
    EdgeHit(segments, point, threshold, n, e)
    && (forall i, j | EdgeHit(segments, point, threshold, i, j) ::
          EdgeDistSq(point, segments[i], j) >= EdgeDistSq(point, segments[n], e))
    && (forall i, j | EdgeHit(segments, point, threshold, i, j) && i < n ::
          EdgeDistSq(point, segments[i], j) > EdgeDistSq(point, segments[n], e))
  }

  /** getNearestSegment: the segment with an edge at the least distance
      below the threshold, the earliest one on ties; none when no edge is
      close enough. Segments with fewer than two points have no edges. */
  method GetNearestSegment(segments: seq<CableSegment>, point: Point, threshold: real)
    returns (r: Option<int>)
    ensures r.None? <==> forall i, j :: !EdgeHit(segments, point, threshold, i, j)
    ensures r.Some? ==> 0 <= r.value < |segments| && |segments[r.value].points| >= 2
    ensures r.Some? ==> exists e :: NearestEdge(segments, point, threshold, r.value, e)
  {
    var nearestIndex: Option<int> := None;
    var minDist: real := 0.0;
    ghost var bestEdge: int := 0;
    var i := 0;
    while i < |segments|
      invariant 0 <= i <= |segments|
      invariant nearestIndex.None? ==> forall i', j' | i' < i :: !EdgeHit(segments, point, threshold, i', j')
      invariant nearestIndex.Some? ==>
        nearestIndex.value < i && EdgeHit(segments, point, threshold, nearestIndex.value, bestEdge)
        && minDist == EdgeDistSq(point, segments[nearestIndex.value], bestEdge)
        && (forall i', j' | i' < i && EdgeHit(segments, point, threshold, i', j') ::
              EdgeDistSq(point, segments[i'], j') >= minDist)
        && (forall i', j' | i' < nearestIndex.value && EdgeHit(segments, point, threshold, i', j') ::
              EdgeDistSq(point, segments[i'], j') > minDist)
    {
      var seg := segments[i];
      if |seg.points| < 2 {
        i := i + 1;
        continue;
      }
      var j := 0;
      while j < |seg.points| - 1
        invariant 0 <= j <= |seg.points| - 1
        invariant nearestIndex.None? ==>
          forall i', j' | VisitedBefore(i', j', i, j) :: !EdgeHit(segments, point, threshold, i', j')
        invariant nearestIndex.Some? ==>
          nearestIndex.value <= i && EdgeHit(segments, point, threshold, nearestIndex.value, bestEdge)
          && (nearestIndex.value == i ==> bestEdge < j)
          && minDist == EdgeDistSq(point, segments[nearestIndex.value], bestEdge)
          && (forall i', j' | VisitedBefore(i', j', i, j) && EdgeHit(segments, point, threshold, i', j') ::
                EdgeDistSq(point, segments[i'], j') >= minDist)
          && (forall i', j' | i' < nearestIndex.value && EdgeHit(segments, point, threshold, i', j') ::
                EdgeDistSq(point, segments[i'], j') > minDist)
      {
        var foot := FootPoint(point, seg.points[j], seg.points[j + 1]);
        var d := DistSq(point, foot);
        if Within(point, foot, threshold) && (nearestIndex.None? || d < minDist) {
          minDist := d;
          nearestIndex := Some(i);
          bestEdge := j;
        }
        j := j + 1;
      }
      i := i + 1;
    }
    if nearestIndex.Some? {
      assert NearestEdge(segments, point, threshold, nearestIndex.value, bestEdge);
    }
    return nearestIndex;
  }

  // ---- getNearestSegmentEndpoint ----

  datatype Endpoint = Endpoint(segmentIndex: int, point: Point, isStart: bool)

  function EndpointOf(s: CableSegment, isStart: bool): Point
    requires |s.points| >= 2
  {
    if isStart then s.points[0] else s.points[|s.points| - 1]
  }

  /** The endpoint (i, isStart) is tested before (i', isStart'): segments in
      order, the start before the end. */
  predicate TestedBefore(i: int, isStart: bool, i': int, isStart': bool) {
    i < i' || (i == i' && isStart && !isStart')
  }

  /** Endpoint (i, isStart) belongs to a segment with at least two points and
      is closer than the threshold. */
  predicate EndpointHit(segments: seq<CableSegment>, point: Point, threshold: real, i: int, isStart: bool) {
    0 <= i < |segments| && |segments[i].points| >= 2 && Within(point, EndpointOf(segments[i], isStart), threshold)
  }

  /** getNearestSegmentEndpoint: the nearest endpoint below the threshold,
      the first one tested on ties; none when no endpoint is close enough. */
  method GetNearestSegmentEndpoint(segments: seq<CableSegment>, point: Point, threshold: real)
    returns (r: Option<Endpoint>)
    ensures r.None? <==> forall i, b :: !EndpointHit(segments, point, threshold, i, b)
    ensures r.Some? ==> EndpointHit(segments, point, threshold, r.value.segmentIndex, r.value.isStart)
                        && r.value.point == EndpointOf(segments[r.value.segmentIndex], r.value.isStart)
    ensures r.Some? ==> forall i, b | EndpointHit(segments, point, threshold, i, b) ::
                          DistSq(point, EndpointOf(segments[i], b)) >= DistSq(point, r.value.point)
    ensures r.Some? ==> forall i, b | EndpointHit(segments, point, threshold, i, b)
                                      && TestedBefore(i, b, r.value.segmentIndex, r.value.isStart) ::
                          DistSq(point, EndpointOf(segments[i], b)) > DistSq(point, r.value.point)
  {
    var nearest: Option<Endpoint> := None;
    var minDist: real := 0.0;
    var i := 0;
    while i < |segments|
      invariant 0 <= i <= |segments|
      invariant nearest.None? ==> forall i', b | i' < i :: !EndpointHit(segments, point, threshold, i', b)
      invariant nearest.Some? ==>
        nearest.value.segmentIndex < i
        && EndpointHit(segments, point, threshold, nearest.value.segmentIndex, nearest.value.isStart)
        && nearest.value.point == EndpointOf(segments[nearest.value.segmentIndex], nearest.value.isStart)
        && minDist == DistSq(point, nearest.value.point)
        && (forall i', b | i' < i && EndpointHit(segments, point, threshold, i', b) ::
              DistSq(point, EndpointOf(segments[i'], b)) >= minDist)
        && (forall i', b | EndpointHit(segments, point, threshold, i', b)
                           && TestedBefore(i', b, nearest.value.segmentIndex, nearest.value.isStart) ::
              DistSq(point, EndpointOf(segments[i'], b)) > minDist)
    {
      var seg := segments[i];
      if |seg.points| < 2 {
        i := i + 1;
        continue;
      }
      var startPoint := seg.points[0];
      var endPoint := seg.points[|seg.points| - 1];
      var startDist := DistSq(point, startPoint);
      var endDist := DistSq(point, endPoint);
      if Within(point, startPoint, threshold) && (nearest.None? || startDist < minDist) {
        minDist := startDist;
        nearest := Some(Endpoint(i, startPoint, true));
      }
      if Within(point, endPoint, threshold) && (nearest.None? || endDist < minDist) {
        minDist := endDist;
        nearest := Some(Endpoint(i, endPoint, false));
      }
      i := i + 1;
    }
    return nearest;
  }
}
