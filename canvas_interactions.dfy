/** Panning and dragging on the canvas
    (DimensioningUI/src/components/Canvas/hooks/useCanvasInteractions.ts).
    Each handler computes a new value from the current state and returns it;
    the caller stores it. */
module CanvasInteractions {
  import opened Opt
  import opened CanvasTypes
  import opened CanvasGeometry
  import NumberInput

  /** handlePanMove: the new stage position, the pointer minus the drag
      start. */
  function HandlePanMove(dragStart: Point, point: Point): (r: Point)
    ensures Translate(dragStart, r.x, r.y) == point
    ensures r == Point(0.0, 0.0) <==> point == dragStart
  {
    Point(point.x - dragStart.x, point.y - dragStart.y)
  }

  /** The segment the drag handlers write back for the dragged segment: new
      points, their length, the cross-section and the connection; material
      and temperature are not carried over. */
  function Reshaped(seg: CableSegment, points: seq<Point>, scaleValue: real, dist: (Point, Point) -> real): (r: CableSegment)
    requires scaleValue != 0.0
    ensures r.points == points && r.length == SegmentLength(points, scaleValue, dist)
    ensures r.crossSection == seg.crossSection && r.connectedTo == seg.connectedTo
    ensures r.isCopper.None? && r.temperature.None?
  {
    CableSegment(points, SegmentLength(points, scaleValue, dist), seg.crossSection, None, None, seg.connectedTo)
  }

  /** The first point within one pixel on each axis of `q`, if any. */
  function FirstNear(points: seq<Point>, q: Point): (r: Option<nat>)
    ensures r.Some? ==> r.value < |points| && Near(q, points[r.value])
    ensures r.Some? ==> forall k | 0 <= k < r.value :: !Near(q, points[k])
    ensures r.None? ==> forall k | 0 <= k < |points| :: !Near(q, points[k])
    decreases |points|
  {
    if |points| == 0 then None
    else if Near(q, points[0]) then Some(0)
    else match FirstNear(points[1..], q)
         case None => None
         case Some(k) => Some(k + 1)
  }

  /** handlePointDrag. Without a selected segment or a hovered point the
      list is returned unchanged. Otherwise the hovered point of the
      selected segment moves to the snapped pointer; if the segment names a
      partner, the partner's first point that sat on the original point moves
      with it. The partner is read from the list after the selected segment
      was replaced. Reading a missing segment throws. */
  method HandlePointDrag(segments: seq<CableSegment>, scale: string, snapToGrid: bool,
                         selectedSegmentIndex: Option<int>, hoveredPointIndex: Option<HoveredPoint>,
                         stagePoint: Point, dist: (Point, Point) -> real)
    returns (r: Thrown<seq<CableSegment>>)
    requires NumberInput.ParseNumber(scale) != 0.0
    requires selectedSegmentIndex.Some? && hoveredPointIndex.Some? && 0 <= selectedSegmentIndex.value < |segments| ==>
               0 <= hoveredPointIndex.value.point < |segments[selectedSegmentIndex.value].points|
    ensures selectedSegmentIndex.None? || hoveredPointIndex.None? ==> r == Returned(segments)
    ensures selectedSegmentIndex.Some? && hoveredPointIndex.Some? ==>
              (r.TypeError? <==>
                 !(0 <= selectedSegmentIndex.value < |segments|)
                 || (segments[selectedSegmentIndex.value].connectedTo.Some?
                     && !(0 <= segments[selectedSegmentIndex.value].connectedTo.value < |segments|)))
    ensures r.Returned? && selectedSegmentIndex.Some? && hoveredPointIndex.Some? ==>
              var s, pi := selectedSegmentIndex.value, hoveredPointIndex.value.point;
              var sc := NumberInput.ParseNumber(scale);
              var q := SnapToGridPoint(stagePoint, sc, snapToGrid);
              var seg := segments[s];
              var first := segments[s := Reshaped(seg, seg.points[pi := q], sc, dist)];
              var out := r.value;
              |out| == |segments|
              && (forall k | 0 <= k < |segments| && k != s && (seg.connectedTo.None? || k != seg.connectedTo.value) ::
                    out[k] == segments[k])
              && (seg.connectedTo.None? ==> out == first)
              && (seg.connectedTo.Some? ==>
                    var j := seg.connectedTo.value;
                    (forall k | 0 <= k < |segments| && k != j :: out[k] == first[k])
                    && (FirstNear(first[j].points, seg.points[pi]).None? ==> out[j] == first[j])
                    && (FirstNear(first[j].points, seg.points[pi]).Some? ==>
                          var c := FirstNear(first[j].points, seg.points[pi]).value;
                          out[j] == first[j].(points := first[j].points[c := q],
                                              length := SegmentLength(first[j].points[c := q], sc, dist))))
  {
    if selectedSegmentIndex.None? || hoveredPointIndex.None? {
      return Returned(segments);
    }
    var s := selectedSegmentIndex.value;
    if !(0 <= s < |segments|) {
      return TypeError;
    }
    var scaleValue := NumberInput.ParseNumber(scale);
    var snappedPoint := SnapToGridPoint(stagePoint, scaleValue, snapToGrid);
    var newSegments := segments;
    var seg := newSegments[s];
    var pointIndex := hoveredPointIndex.value.point;
    var originalPoint := seg.points[pointIndex];
    var newPoints := seg.points[pointIndex := snappedPoint];
    var newLength := CalculateSegmentLength(newPoints, scaleValue, dist);
    newSegments := newSegments[s := CableSegment(newPoints, newLength, seg.crossSection, None, None, seg.connectedTo)];
    ghost var first := newSegments;
    if seg.connectedTo.Some? {
      var connectedIndex := seg.connectedTo.value;
      if !(0 <= connectedIndex < |newSegments|) {
        return TypeError;
      }
      var connectedSeg := newSegments[connectedIndex];
      var connectedPointIndex: Option<nat> := None;
      var i := 0;
      while i < |connectedSeg.points|
        invariant 0 <= i <= |connectedSeg.points|
        invariant forall k | 0 <= k < i :: !Near(originalPoint, connectedSeg.points[k])
        invariant connectedPointIndex.None?
      {
        if Near(originalPoint, connectedSeg.points[i]) {
          connectedPointIndex := Some(i);
          break;
        }
        i := i + 1;
      }
      assert connectedPointIndex == FirstNear(connectedSeg.points, originalPoint);
      if connectedPointIndex.Some? {
        var connectedNewPoints := connectedSeg.points[connectedPointIndex.value := snappedPoint];
        var connectedNewLength := CalculateSegmentLength(connectedNewPoints, scaleValue, dist);
        newSegments := newSegments[connectedIndex := connectedSeg.(points := connectedNewPoints, length := connectedNewLength)];
      }
    }
    return Returned(newSegments);
  }

  /** handleSegmentDrag: every point of the selected segment moves by the
      pointer's offset from the drag start, and the pointer becomes the new
      drag start. Without a selection nothing changes. */
  datatype SegmentDrag = SegmentDrag(segments: seq<CableSegment>, newDragStart: Point)

  function HandleSegmentDrag(segments: seq<CableSegment>, scale: string, selectedSegmentIndex: Option<int>,
                             dragStart: Point, stagePoint: Point, dist: (Point, Point) -> real): (r: Thrown<SegmentDrag>)
    requires NumberInput.ParseNumber(scale) != 0.0
    ensures selectedSegmentIndex.None? ==> r == Returned(SegmentDrag(segments, dragStart))
    ensures selectedSegmentIndex.Some? ==>
              (r.TypeError? <==> !(0 <= selectedSegmentIndex.value < |segments|))
    ensures r.Returned? && selectedSegmentIndex.Some? ==>
              var s := selectedSegmentIndex.value;
              var out := r.value.segments;
              r.value.newDragStart == stagePoint
              && |out| == |segments|
              && (forall k | 0 <= k < |segments| && k != s :: out[k] == segments[k])
              && |out[s].points| == |segments[s].points|
              && (forall k | 0 <= k < |out[s].points| ::
                    out[s].points[k].x - segments[s].points[k].x == stagePoint.x - dragStart.x
                    && out[s].points[k].y - segments[s].points[k].y == stagePoint.y - dragStart.y)
              && out[s].crossSection == segments[s].crossSection
              && out[s].connectedTo == segments[s].connectedTo
  {
    if selectedSegmentIndex.None? then Returned(SegmentDrag(segments, dragStart))
    else
      var s := selectedSegmentIndex.value;
      if !(0 <= s < |segments|) then TypeError
      else
        var dx, dy := stagePoint.x - dragStart.x, stagePoint.y - dragStart.y;
        var seg := segments[s];
        var moved := Reshaped(seg, TranslatePoints(seg.points, dx, dy), NumberInput.ParseNumber(scale), dist);
        Returned(SegmentDrag(segments[s := moved], stagePoint))
  }

  /** Dragging a segment does not change its length: the recomputed length
      is the length computed from the points before the drag. */
  lemma SegmentDragKeepsLength(segments: seq<CableSegment>, scale: string, s: int,
                               dragStart: Point, stagePoint: Point, dist: (Point, Point) -> real)
    requires NumberInput.ParseNumber(scale) != 0.0 && IsDistance(dist)
    requires 0 <= s < |segments|
    ensures HandleSegmentDrag(segments, scale, Some(s), dragStart, stagePoint, dist).value.segments[s].length
              == SegmentLength(segments[s].points, NumberInput.ParseNumber(scale), dist)
  {
    var sc := NumberInput.ParseNumber(scale);
    var dx, dy := stagePoint.x - dragStart.x, stagePoint.y - dragStart.y;
    var moved := TranslatePoints(segments[s].points, dx, dy);
    DraggedLength(segments, scale, s, dragStart, stagePoint, dist);
    SegmentLengthTranslated(segments[s].points, sc, dx, dy, dist);
    assert SegmentLength(moved, sc, dist) == SegmentLength(segments[s].points, sc, dist);
  }

  /** The dragged segment's length is recomputed from its moved points. */
  lemma DraggedLength(segments: seq<CableSegment>, scale: string, s: int,
                      dragStart: Point, stagePoint: Point, dist: (Point, Point) -> real)
    requires NumberInput.ParseNumber(scale) != 0.0
    requires 0 <= s < |segments|
    ensures HandleSegmentDrag(segments, scale, Some(s), dragStart, stagePoint, dist).value.segments[s].length
            == SegmentLength(TranslatePoints(segments[s].points, stagePoint.x - dragStart.x, stagePoint.y - dragStart.y),
                             NumberInput.ParseNumber(scale), dist)
  {
    DraggedSegment(segments, scale, s, dragStart, stagePoint, dist);
  }

  /** The result of a drag of a selected segment that exists. */
  lemma DraggedSegment(segments: seq<CableSegment>, scale: string, s: int,
                       dragStart: Point, stagePoint: Point, dist: (Point, Point) -> real)
    requires NumberInput.ParseNumber(scale) != 0.0
    requires 0 <= s < |segments|
    ensures HandleSegmentDrag(segments, scale, Some(s), dragStart, stagePoint, dist)
            == Returned(SegmentDrag(segments[s := Reshaped(segments[s],
                                                           TranslatePoints(segments[s].points, stagePoint.x - dragStart.x,
                                                                           stagePoint.y - dragStart.y),
                                                           NumberInput.ParseNumber(scale), dist)],
                                    stagePoint))
  {
  }

  /** Translating by b - a and then by c - b is translating by c - a. */
  lemma TranslatePointsSum(points: seq<Point>, a: Point, b: Point, c: Point)
    ensures TranslatePoints(TranslatePoints(points, b.x - a.x, b.y - a.y), c.x - b.x, c.y - b.y)
            == TranslatePoints(points, c.x - a.x, c.y - a.y)
  {
    TranslatePointsCompose(points, b.x - a.x, b.y - a.y, c.x - b.x, c.y - b.y);
    assert (b.x - a.x) + (c.x - b.x) == c.x - a.x && (b.y - a.y) + (c.y - b.y) == c.y - a.y;
  }

  lemma TranslatePointsCompose(points: seq<Point>, dx1: real, dy1: real, dx2: real, dy2: real)
    ensures TranslatePoints(TranslatePoints(points, dx1, dy1), dx2, dy2) == TranslatePoints(points, dx1 + dx2, dy1 + dy2)
  {
  }

  /** Successive drag events compose: dragging from a to b and then, with
      the returned drag start, from b to c moves the points as one drag
      from a to c. */
  lemma SegmentDragsCompose(segments: seq<CableSegment>, scale: string, s: int,
                            a: Point, b: Point, c: Point, dist: (Point, Point) -> real)
    requires NumberInput.ParseNumber(scale) != 0.0
    requires 0 <= s < |segments|
    ensures
      var once := HandleSegmentDrag(segments, scale, Some(s), a, b, dist).value;
      var twice := HandleSegmentDrag(once.segments, scale, Some(s), once.newDragStart, c, dist).value;
      var direct := HandleSegmentDrag(segments, scale, Some(s), a, c, dist).value;
      twice.segments[s].points == direct.segments[s].points
      && twice.newDragStart == direct.newDragStart
  {
    var p := segments[s].points;
    DraggedSegment(segments, scale, s, a, b, dist);
    var once := HandleSegmentDrag(segments, scale, Some(s), a, b, dist).value;
    var p1 := TranslatePoints(p, b.x - a.x, b.y - a.y);
    assert once.segments[s].points == p1 && once.newDragStart == b;
    DraggedSegment(once.segments, scale, s, b, c, dist);
    var twice := HandleSegmentDrag(once.segments, scale, Some(s), b, c, dist).value;
    var p2 := TranslatePoints(p1, c.x - b.x, c.y - b.y);
    assert twice.segments[s].points == p2;
    DraggedSegment(segments, scale, s, a, c, dist);
    var direct := HandleSegmentDrag(segments, scale, Some(s), a, c, dist).value;
    assert direct.segments[s].points == TranslatePoints(p, c.x - a.x, c.y - a.y);
    TranslatePointsSum(p, a, b, c);
  }
}
