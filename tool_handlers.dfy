/** The pointer-down decision rules of the canvas tools
    (DimensioningUI/src/components/Canvas/hooks/toolHandlerHelpers.ts).

    The helpers receive the canvas's queries and setters as callbacks. Here a
    query (nearest point, nearest segment, nearest endpoint, the double-click
    check) is a function parameter, and every call a helper makes for its
    effect is one entry of the returned effect log, in call order. */
module ToolHandlers {
  import opened Opt
  import opened CanvasTypes
  import opened CanvasGeometry
  import CanvasDetection

  /** One callback invocation made by a helper. */
  datatype Effect =
    | DoubleClickCheck(candidate: Option<int>)
    | PointDrag(hovered: HoveredPoint, stage: Point)
    | BodyDrag(stage: Point)
    | Deselect
    | ClearDragTimeout
    | SegmentDoubleClick(segment: int)
    | MergeSegments(segment: int)
    | DeleteSegment(segment: int)
    | SetSelectedSegmentIndex(index: Option<int>)
    | StartDrawing(from: Point)
    | SelectedInteraction(stage: Point, nearestPoint: Option<HoveredPoint>, nearestSegment: Option<int>)
    | SetSelectedSegmentIndices(indices: seq<int>)
    | SetIsSelecting(selecting: bool)
    | SetSelectionBox(start: Point, end: Point)
    | SetDragStart(dragStart: Point)

  /** What a helper returned and the callbacks it invoked. */
  datatype Reaction = Reaction(handled: bool, effects: seq<Effect>)

  /** The hit-test thresholds the tools pass to the detection queries. */
  const EraseThreshold: real := 10.0
  const LineSegmentThreshold: real := 10.0
  const LineEndpointThreshold: real := 15.0
  const SelectThreshold: real := 10.0

  // ---- selection tests ----

  predicate IsSegmentSelected(segmentIndex: Option<int>, selectedIndices: seq<int>) {
    segmentIndex.Some? && segmentIndex.value in selectedIndices
  }

  /** isOnSelectedSegment: the nearest segment is the (single) selected one. */
  function IsOnSelectedSegment(nearestSegment: Option<int>, selectedSegmentIndex: Option<int>): (r: bool)
    ensures r <==> selectedSegmentIndex.Some? && IsSegmentSelected(nearestSegment, [selectedSegmentIndex.value])
  {
    selectedSegmentIndex.Some? && nearestSegment == selectedSegmentIndex
  }

  /** isOnSelectedPoint: the nearest point lies on the selected segment; with
      no selection the strict comparison with null is false. */
  function IsOnSelectedPoint(nearestPoint: Option<HoveredPoint>, selectedSegmentIndex: Option<int>): (r: bool)
    ensures r <==> nearestPoint.Some? && selectedSegmentIndex.Some?
                   && IsSegmentSelected(Some(nearestPoint.value.segment), [selectedSegmentIndex.value])
  {
    nearestPoint.Some? && Some(nearestPoint.value.segment) == selectedSegmentIndex
  }

  // ---- processSelectedSegmentInteraction ----

  /** processSelectedSegmentInteraction. With a selection it tries, in this
      order, the double-click check (on a selected nearest segment), a body
      drag (on a selected segment away from any point) and a point drag (a
      point of a selected segment); when none applies it deselects unless
      the nearest segment is selected, and reports whether it is. */
  function ProcessSelectedSegmentInteraction(stagePoint: Point, nearestPoint: Option<HoveredPoint>,
                                             nearestSegment: Option<int>, selectedSegmentIndices: seq<int>,
                                             checkDoubleClick: Option<int> -> bool): (r: Reaction)
    ensures |selectedSegmentIndices| == 0 ==> r == Reaction(false, [])
    ensures var onSelected := IsSegmentSelected(nearestSegment, selectedSegmentIndices);
            var pointOnSelected := nearestPoint.Some? && IsSegmentSelected(Some(nearestPoint.value.segment), selectedSegmentIndices);
            var doubleClicked := onSelected && checkDoubleClick(nearestSegment);
            |selectedSegmentIndices| > 0 ==>
              (r.handled <==> onSelected || pointOnSelected)
              && (DoubleClickCheck(nearestSegment) in r.effects <==> onSelected)
              && (BodyDrag(stagePoint) in r.effects <==> onSelected && !doubleClicked && nearestPoint.None?)
              && (nearestPoint.Some? ==>
                    (PointDrag(nearestPoint.value, stagePoint) in r.effects <==> pointOnSelected && !doubleClicked))
              && (Deselect in r.effects <==> !onSelected && !pointOnSelected)
              && |r.effects| <= 2
  {
    if |selectedSegmentIndices| == 0 then Reaction(false, [])
    else
      var isOnSelectedSegment := IsSegmentSelected(nearestSegment, selectedSegmentIndices);
      var hasNearestPoint := nearestPoint.Some?;
      var hasNearestSegment := nearestSegment.Some?;
      // tryDoubleClick
      var checked := if isOnSelectedSegment && hasNearestSegment then [DoubleClickCheck(nearestSegment)] else [];
      if isOnSelectedSegment && hasNearestSegment && checkDoubleClick(nearestSegment) then Reaction(true, checked)
      // tryBodyDrag
      else if isOnSelectedSegment && !hasNearestPoint then Reaction(true, checked + [BodyDrag(stagePoint)])
      // tryPointDrag
      else if hasNearestPoint && IsSegmentSelected(Some(nearestPoint.value.segment), selectedSegmentIndices) then
        Reaction(true, checked + [PointDrag(nearestPoint.value, stagePoint)])
      else if !isOnSelectedSegment then Reaction(false, checked + [Deselect])
      else Reaction(true, checked)
  }

  /** At most one interaction fires: a double-click excludes both drags, and
      a body drag and a point drag never happen together. */
  lemma InteractionsExclusive(stagePoint: Point, nearestPoint: Option<HoveredPoint>, nearestSegment: Option<int>,
                              selectedSegmentIndices: seq<int>, checkDoubleClick: Option<int> -> bool,
                              p: HoveredPoint)
    ensures var r := ProcessSelectedSegmentInteraction(stagePoint, nearestPoint, nearestSegment,
                                                       selectedSegmentIndices, checkDoubleClick);
            !(BodyDrag(stagePoint) in r.effects && PointDrag(p, stagePoint) in r.effects)
            && (IsSegmentSelected(nearestSegment, selectedSegmentIndices) && checkDoubleClick(nearestSegment) ==>
                  BodyDrag(stagePoint) !in r.effects && PointDrag(p, stagePoint) !in r.effects)
  {
    var r := ProcessSelectedSegmentInteraction(stagePoint, nearestPoint, nearestSegment,
                                               selectedSegmentIndices, checkDoubleClick);
    if BodyDrag(stagePoint) in r.effects {
      assert nearestPoint.None?;
      assert forall e | e in r.effects :: !e.PointDrag?;
    }
  }

  // ---- calculateSegmentMidpoint ----

  /** The point at an index, or undefined past the end. */
  function PointAt(points: seq<Point>, k: int): Option<Point> {
    if 0 <= k < |points| then Some(points[k]) else None
  }

  /** calculateSegmentMidpoint: the point at index floor(n/2), falling back
      to the first point (undefined for an empty polyline). */
  function CalculateSegmentMidpoint(segment: CableSegment): (r: Option<Point>)
    ensures r.None? <==> |segment.points| == 0
    ensures r.Some? ==>
              exists m | 0 <= m < |segment.points| ::
                r.value == segment.points[m]
                // as many points on each side, or one more before it
                && (|segment.points| - 1 - m == m || |segment.points| - 1 - m == m - 1)
  {
    var midIndex := |segment.points| / 2;
    match PointAt(segment.points, midIndex)
    case Some(p) => Some(p)
    case None => PointAt(segment.points, 0)
  }

  /** The fallback to the first point never decides the result: whenever
      the polyline has a point, the middle index exists. */
  lemma MidpointFallbackUnused(segment: CableSegment)
    requires |segment.points| > 0
    ensures PointAt(segment.points, |segment.points| / 2).Some?
    ensures CalculateSegmentMidpoint(segment) == PointAt(segment.points, |segment.points| / 2)
  {
  }

  // ---- isDoubleClick / processDoubleClick ----

  /** The last recorded click: its time in milliseconds and the segment it
      hit, if any. */
  datatype LastClick = LastClick(time: int, point: Option<HoveredPoint>)

  const DoubleClickWindow: int := 300

  /** isDoubleClick: the last click hit the same segment less than 300 ms
      ago. */
  predicate IsDoubleClick(segmentIndex: int, lastClick: LastClick, now: int) {
    lastClick.point.Some? && lastClick.point.value.segment == segmentIndex
    && now - lastClick.time < DoubleClickWindow
  }

  /** One step of the double-click detector: whether a double-click was
      detected, the new last click and the callbacks invoked. */
  datatype DoubleClickStep = DoubleClickStep(clicked: bool, last: LastClick, effects: seq<Effect>)

  /** processDoubleClick as a transition on the last click; the clock reading
      `now` is a parameter. */
  function StepDoubleClick(last: LastClick, segmentIndex: Option<int>, now: int): (r: DoubleClickStep)
    ensures segmentIndex.None? ==> r == DoubleClickStep(false, last, [])
    ensures segmentIndex.Some? ==> (r.clicked <==> IsDoubleClick(segmentIndex.value, last, now))
    ensures r.clicked ==> segmentIndex.Some? && last.point.Some? && last.point.value.segment == segmentIndex.value
                          && now < last.time + DoubleClickWindow
    ensures r.clicked ==> r.last.point.None? && r.effects == [ClearDragTimeout, SegmentDoubleClick(segmentIndex.value)]
    ensures !r.clicked && segmentIndex.Some? ==>
              r.last == LastClick(now, Some(HoveredPoint(segmentIndex.value, 0))) && r.effects == []
  {
    if segmentIndex.None? then DoubleClickStep(false, last, [])
    else if IsDoubleClick(segmentIndex.value, last, now) then
      DoubleClickStep(true, LastClick(0, None), [ClearDragTimeout, SegmentDoubleClick(segmentIndex.value)])
    else DoubleClickStep(false, LastClick(now, Some(HoveredPoint(segmentIndex.value, 0))), [])
  }

  /** A single click followed, on the same segment, by a second click less
      than 300 ms later is a double-click; a later second click is not. */
  lemma SecondClickIsDouble(last: LastClick, k: int, t1: int, t2: int)
    requires !StepDoubleClick(last, Some(k), t1).clicked
    ensures StepDoubleClick(StepDoubleClick(last, Some(k), t1).last, Some(k), t2).clicked <==> t2 - t1 < DoubleClickWindow
  {
    var s1 := StepDoubleClick(last, Some(k), t1);
    assert s1.last == LastClick(t1, Some(HoveredPoint(k, 0)));
  }

  /** A click on another segment is never a double-click. */
  lemma OtherSegmentIsSingle(last: LastClick, k: int, k': int, t1: int, t2: int)
    requires !StepDoubleClick(last, Some(k), t1).clicked && k' != k
    ensures !StepDoubleClick(StepDoubleClick(last, Some(k), t1).last, Some(k'), t2).clicked
  {
    var s1 := StepDoubleClick(last, Some(k), t1);
    assert s1.last == LastClick(t1, Some(HoveredPoint(k, 0)));
  }

  /** After a double-click the next click starts afresh: a triple click
      fires the double-click callback once. */
  lemma ClickAfterDoubleIsSingle(last: LastClick, k: Option<int>, t1: int, k': Option<int>, t2: int)
    requires StepDoubleClick(last, k, t1).clicked
    ensures !StepDoubleClick(StepDoubleClick(last, k, t1).last, k', t2).clicked
  {
    var s1 := StepDoubleClick(last, k, t1);
    assert s1.last.point.None?;
  }

  /** lastClickRef: the mutable record of the last click, initially
      `{time: 0, point: null}`. */
  class LastClickRef {
    var current: LastClick

    constructor()
      ensures current == LastClick(0, None)
    {
      current := LastClick(0, None);
    }

    /** processDoubleClick: with a segment, a double-click clears the drag
        timeout, resets the record, fires the callback and returns true;
        otherwise the click is recorded and false returned. Without a
        segment nothing happens. */
    method ProcessDoubleClick(segmentIndex: Option<int>, now: int) returns (clicked: bool, effects: seq<Effect>)
      modifies this
      ensures var step := StepDoubleClick(old(current), segmentIndex, now);
              clicked == step.clicked && effects == step.effects && current == step.last
    {
      if segmentIndex.None? {
        return false, [];
      }
      var lastClick := current;
      clicked := IsDoubleClick(segmentIndex.value, lastClick, now);
      if clicked {
        effects := [ClearDragTimeout];
        current := LastClick(0, None);
        effects := effects + [SegmentDoubleClick(segmentIndex.value)];
        return;
      }
      current := LastClick(now, Some(HoveredPoint(segmentIndex.value, 0)));
      effects := [];
    }
  }

  // ---- processEraseTool ----

  /** isConnectionPoint as JavaScript evaluates it: reading a coordinate of
      the missing end of an empty polyline throws. */
  function ConnectionPointChecked(segment: CableSegment, pointIndex: int, connected: CableSegment): (r: Thrown<bool>)
    ensures |segment.points| > 0 && |connected.points| > 0 ==>
              r == Returned(IsConnectionPoint(segment, pointIndex, connected))
    ensures r.TypeError? <==>
              (|segment.points| == 0 || |connected.points| == 0)
              && (pointIndex == |segment.points| - 1 || pointIndex == 0)
  {
    var n, m := |segment.points|, |connected.points|;
    var endToStart: Thrown<bool> :=
      if pointIndex != n - 1 then Returned(false)
      else if n == 0 || m == 0 then TypeError
      else Returned(Near(Last(segment.points), First(connected.points)));
    match endToStart
    case TypeError => TypeError
    case Returned(true) => Returned(true)
    case Returned(false) =>
      if pointIndex != 0 then Returned(false)
      else if n == 0 || m == 0 then TypeError
      else Returned(Near(First(segment.points), Last(connected.points)))
  }

  /** Whether the erase tool merges at the nearest point: the point's
      segment names a partner and the point is where the two meet. Reading
      a missing segment throws. */
  function MergeAtPoint(segments: seq<CableSegment>, nearestPoint: Option<HoveredPoint>): (r: Thrown<bool>)
    ensures r == Returned(true) <==>
              nearestPoint.Some? && 0 <= nearestPoint.value.segment < |segments|
              && var seg := segments[nearestPoint.value.segment];
                 seg.connectedTo.Some? && 0 <= seg.connectedTo.value < |segments|
                 && |seg.points| > 0 && |segments[seg.connectedTo.value].points| > 0
                 && IsConnectionPoint(seg, nearestPoint.value.point, segments[seg.connectedTo.value])
  {
    if nearestPoint.None? then Returned(false)
    else if !(0 <= nearestPoint.value.segment < |segments|) then TypeError
    else
      var segment := segments[nearestPoint.value.segment];
      if segment.connectedTo.None? then Returned(false)
      else if !(0 <= segment.connectedTo.value < |segments|) then TypeError
      else ConnectionPointChecked(segment, nearestPoint.value.point, segments[segment.connectedTo.value])
  }

  /** processEraseTool: merge at a connection point under the cursor;
      otherwise delete the nearest segment; report whether either was done. */
  function ProcessEraseTool(stagePoint: Point, segments: seq<CableSegment>,
                            getNearestPoint: (Point, real) -> Option<HoveredPoint>,
                            getNearestSegment: (Point, real) -> Option<int>): (r: Thrown<Reaction>)
    ensures r.TypeError? <==> MergeAtPoint(segments, getNearestPoint(stagePoint, EraseThreshold)).TypeError?
    ensures r.Returned? ==> (r.value.handled <==> r.value.effects != []) && |r.value.effects| <= 1
    ensures forall i :: r == Returned(Reaction(true, [MergeSegments(i)])) <==>
              MergeAtPoint(segments, getNearestPoint(stagePoint, EraseThreshold)) == Returned(true)
              && i == getNearestPoint(stagePoint, EraseThreshold).value.segment
    ensures forall k :: r == Returned(Reaction(true, [DeleteSegment(k)])) <==>
              MergeAtPoint(segments, getNearestPoint(stagePoint, EraseThreshold)) == Returned(false)
              && getNearestSegment(stagePoint, EraseThreshold) == Some(k)
    ensures r == Returned(Reaction(false, [])) <==>
              MergeAtPoint(segments, getNearestPoint(stagePoint, EraseThreshold)) == Returned(false)
              && getNearestSegment(stagePoint, EraseThreshold).None?
  {
    var nearestPoint := getNearestPoint(stagePoint, EraseThreshold);
    match MergeAtPoint(segments, nearestPoint)
    case TypeError => TypeError
    case Returned(true) => Returned(Reaction(true, [MergeSegments(nearestPoint.value.segment)]))
    case Returned(false) =>
      var nearestSegmentForErase := getNearestSegment(stagePoint, EraseThreshold);
      if nearestSegmentForErase.Some? then Returned(Reaction(true, [DeleteSegment(nearestSegmentForErase.value)]))
      else Returned(Reaction(false, []))
  }

  /** On a canvas whose segments all have points and whose partners exist,
      the erase tool never throws, given a point query that answers with
      existing points. */
  lemma EraseTotalOnWellFormedCanvas(stagePoint: Point, segments: seq<CableSegment>,
                                     getNearestPoint: (Point, real) -> Option<HoveredPoint>,
                                     getNearestSegment: (Point, real) -> Option<int>)
    requires forall s | s in segments :: |s.points| > 0
    requires forall s | s in segments && s.connectedTo.Some? :: 0 <= s.connectedTo.value < |segments|
    requires getNearestPoint(stagePoint, EraseThreshold).Some? ==>
               0 <= getNearestPoint(stagePoint, EraseThreshold).value.segment < |segments|
    ensures ProcessEraseTool(stagePoint, segments, getNearestPoint, getNearestSegment).Returned?
  {
    var np := getNearestPoint(stagePoint, EraseThreshold);
    if np.Some? {
      var seg := segments[np.value.segment];
      assert seg in segments;
      if seg.connectedTo.Some? {
        assert segments[seg.connectedTo.value] in segments;
      }
    }
  }

  // ---- processLineTool ----

  /** processLineTool: clear the selection, let the double-click check on
      the nearest segment take the click, otherwise start drawing at the
      nearest endpoint within 15 or at the click point. */
  function ProcessLineTool(stagePoint: Point, selectedSegmentIndex: Option<int>,
                           getNearestSegment: (Point, real) -> Option<int>,
                           getNearestSegmentEndpoint: (Point, real) -> Option<CanvasDetection.Endpoint>,
                           checkAndHandleDoubleClick: Option<int> -> bool): (r: seq<Effect>)
    ensures var nearestSegment := getNearestSegment(stagePoint, LineSegmentThreshold);
            var endpoint := getNearestSegmentEndpoint(stagePoint, LineEndpointThreshold);
            var doubleClicked := nearestSegment.Some? && checkAndHandleDoubleClick(nearestSegment);
            (SetSelectedSegmentIndex(None) in r <==> selectedSegmentIndex.Some?)
            && (selectedSegmentIndex.Some? ==> r[0] == SetSelectedSegmentIndex(None))
            && (DoubleClickCheck(nearestSegment) in r <==> nearestSegment.Some?)
            && (doubleClicked ==> forall e | e in r :: !e.StartDrawing?)
            && (!doubleClicked ==>
                  |r| > 0 && r[|r| - 1] == StartDrawing(if endpoint.Some? then endpoint.value.point else stagePoint)
                  && forall k | 0 <= k < |r| - 1 :: !r[k].StartDrawing?)
  {
    var cleared := if selectedSegmentIndex.Some? then [SetSelectedSegmentIndex(None)] else [];
    var nearestSegment := getNearestSegment(stagePoint, LineSegmentThreshold);
    var checked := cleared + (if nearestSegment.Some? then [DoubleClickCheck(nearestSegment)] else []);
    if nearestSegment.Some? && checkAndHandleDoubleClick(nearestSegment) then checked
    else
      var nearestEndpoint := getNearestSegmentEndpoint(stagePoint, LineEndpointThreshold);
      if nearestEndpoint.Some? then checked + [StartDrawing(nearestEndpoint.value.point)]
      else checked + [StartDrawing(stagePoint)]
  }

  // ---- processSelectTool ----

  /** processSelectTool: a click on a selected segment goes first to the
      selected-segment interaction; a click that it does not take on a
      segment is a double-click check and otherwise selects that segment
      alone; a click on empty space clears the selection and starts a
      selection box. */
  function ProcessSelectTool(stagePoint: Point, selectedSegmentIndices: seq<int>,
                             getNearestPoint: (Point, real) -> Option<HoveredPoint>,
                             getNearestSegment: (Point, real) -> Option<int>,
                             handleSelectedSegmentInteraction: (Point, Option<HoveredPoint>, Option<int>) -> bool,
                             checkAndHandleDoubleClick: Option<int> -> bool): (r: seq<Effect>)
    ensures var nearestPoint := getNearestPoint(stagePoint, SelectThreshold);
            var nearestSegment := getNearestSegment(stagePoint, SelectThreshold);
            var onSelected := |selectedSegmentIndices| > 0 && IsSegmentSelected(nearestSegment, selectedSegmentIndices);
            var taken := onSelected && handleSelectedSegmentInteraction(stagePoint, nearestPoint, nearestSegment);
            (SelectedInteraction(stagePoint, nearestPoint, nearestSegment) in r <==> onSelected)
            && (taken ==> r == [SelectedInteraction(stagePoint, nearestPoint, nearestSegment)])
            && (nearestSegment.None? ==>
                  r == [SetSelectedSegmentIndices([]), SetIsSelecting(true),
                        SetSelectionBox(stagePoint, stagePoint), SetDragStart(stagePoint)])
            && (nearestSegment.Some? && !taken ==>
                  DoubleClickCheck(nearestSegment) in r
                  && (SetSelectedSegmentIndices([nearestSegment.value]) in r
                      <==> !checkAndHandleDoubleClick(nearestSegment)))
            && (forall s :: SetSelectedSegmentIndices(s) in r ==>
                  (s == [] && nearestSegment.None?) || (nearestSegment.Some? && s == [nearestSegment.value]))
  {
    var nearestPoint := getNearestPoint(stagePoint, SelectThreshold);
    var nearestSegment := getNearestSegment(stagePoint, SelectThreshold);
    var hasSelectedSegments := |selectedSegmentIndices| > 0;
    var isClickingOnSelected := hasSelectedSegments && IsSegmentSelected(nearestSegment, selectedSegmentIndices);
    var asked := if isClickingOnSelected then [SelectedInteraction(stagePoint, nearestPoint, nearestSegment)] else [];
    if isClickingOnSelected && handleSelectedSegmentInteraction(stagePoint, nearestPoint, nearestSegment) then asked
    else if nearestSegment.Some? then
      if checkAndHandleDoubleClick(nearestSegment) then asked + [DoubleClickCheck(nearestSegment)]
      else asked + [DoubleClickCheck(nearestSegment), SetSelectedSegmentIndices([nearestSegment.value]),
                    SetDragStart(stagePoint)]
    else [SetSelectedSegmentIndices([]), SetIsSelecting(true), SetSelectionBox(stagePoint, stagePoint),
          SetDragStart(stagePoint)]
  }

  /** With the canvas's wiring, where the selected-segment interaction is
      processSelectedSegmentInteraction, a click on a selected segment is
      always taken by that interaction: the select tool then neither changes
      the selection nor runs its own double-click check. */
  lemma ClickOnSelectedKeepsSelection(stagePoint: Point, selectedSegmentIndices: seq<int>,
                                      getNearestPoint: (Point, real) -> Option<HoveredPoint>,
                                      getNearestSegment: (Point, real) -> Option<int>,
                                      checkDoubleClick: Option<int> -> bool)
    requires IsSegmentSelected(getNearestSegment(stagePoint, SelectThreshold), selectedSegmentIndices)
    ensures var r := ProcessSelectTool(stagePoint, selectedSegmentIndices, getNearestPoint, getNearestSegment,
                                       (sp, np, ns) => ProcessSelectedSegmentInteraction(sp, np, ns, selectedSegmentIndices, checkDoubleClick).handled,
                                       checkDoubleClick);
            forall e | e in r :: !e.SetSelectedSegmentIndices? && !e.DoubleClickCheck?
  {
    var np := getNearestPoint(stagePoint, SelectThreshold);
    var ns := getNearestSegment(stagePoint, SelectThreshold);
    assert |selectedSegmentIndices| > 0;
    assert ProcessSelectedSegmentInteraction(stagePoint, np, ns, selectedSegmentIndices, checkDoubleClick).handled;
  }
}
