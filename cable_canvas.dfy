/** The editing state of the canvas component
    (DimensioningUI/src/components/Canvas/CableCanvas.tsx): the segment list,
    the undo history, the selection, hover and popover indices, the drawing
    in progress, the scale and the stage position. Each handler's state
    updates are applied together, as React applies them after the handler
    returns. */
module CableCanvas {
  import opened Opt
  import opened CanvasTypes
  import opened CanvasGeometry
  import opened SegmentOperations

  /** The segment properties popover as the canvas keeps it. */
  datatype SegmentPopover = SegmentPopover(
    visible: bool, x: real, y: real, segmentIndex: int,
    crossSection: string, isCopper: bool, temperature: TemperaturePreset)

  // ---- index renumbering after a delete ----

  /** Where index `idx` points once entry k is removed: nowhere if it was k,
      one lower if it was above k, unchanged below. */
  function IndexAfterDelete(idx: int, k: int): (r: Option<int>)
    ensures r.None? <==> idx == k
    ensures r.Some? && idx < k ==> r.value == idx
    ensures r.Some? && idx > k ==> r.value == idx - 1
  {
    if idx == k then None else if idx > k then Some(idx - 1) else Some(idx)
  }

  /** A surviving index still designates the same segment in the shortened
      list. */
  lemma IndexAfterDeleteKeepsTarget(segments: seq<CableSegment>, k: int, idx: int)
    requires 0 <= k < |segments| && 0 <= idx < |segments| && idx != k
    ensures 0 <= IndexAfterDelete(idx, k).value < |segments| - 1
    ensures SegmentOperations.DeleteSegment(segments, k).segments.value[IndexAfterDelete(idx, k).value] == segments[idx]
  {
    if idx > k {
      assert SegmentOperations.DeleteSegment(segments, k).segments.value[idx - 1] == segments[k + 1..][idx - 1 - k];
    }
  }

  /** `prev.filter(idx => idx !== k).map(idx => idx > k ? idx - 1 : idx)`. */
  function RemapSelection(selected: seq<int>, k: int): (r: seq<int>)
    ensures |r| <= |selected|
    decreases |selected|
  {
    if |selected| == 0 then []
    else
      var last := selected[|selected| - 1];
      RemapSelection(selected[..|selected| - 1], k)
        + (match IndexAfterDelete(last, k) case None => [] case Some(j) => [j])
  }

  /** The renumbered selection holds exactly the renumbered survivors. */
  lemma {:induction false} RemapSelectionMembers(selected: seq<int>, k: int)
    ensures forall x :: x in RemapSelection(selected, k) <==>
              exists y :: y in selected && IndexAfterDelete(y, k) == Some(x)
    decreases |selected|
  {
    if |selected| > 0 {
      var init, last := selected[..|selected| - 1], selected[|selected| - 1];
      RemapSelectionMembers(init, k);
      assert selected == init + [last];
      forall x
        ensures x in RemapSelection(selected, k) <==> exists y :: y in selected && IndexAfterDelete(y, k) == Some(x)
      {
        if x in RemapSelection(selected, k) && x !in RemapSelection(init, k) {
          assert IndexAfterDelete(last, k) == Some(x);
        }
        if exists y :: y in selected && IndexAfterDelete(y, k) == Some(x) {
          var y :| y in selected && IndexAfterDelete(y, k) == Some(x);
          if y != last || y in init {
            assert y in init;
          }
        }
      }
    }
  }

  /** The renumbered selection never names the deleted segment's old
      neighbours wrongly: a selected index that was valid is still valid and
      still selects the same segment. */
  lemma RemapSelectionKeepsTargets(segments: seq<CableSegment>, selected: seq<int>, k: int, y: int)
    requires 0 <= k < |segments| && y in selected && 0 <= y < |segments| && y != k
    ensures IndexAfterDelete(y, k).value in RemapSelection(selected, k)
    ensures SegmentOperations.DeleteSegment(segments, k).segments.value[IndexAfterDelete(y, k).value] == segments[y]
  {
    RemapSelectionMembers(selected, k);
    IndexAfterDeleteKeepsTarget(segments, k, y);
  }

  // ---- zoom ----

  /** `Math.max(MIN_SCALE, Math.min(MAX_SCALE, s))`. */
  function ClampScale(s: real): (r: real)
    ensures MinScale <= r <= MaxScale
    ensures MinScale <= s <= MaxScale ==> r == s
    ensures s < MinScale ==> r == MinScale
    ensures s > MaxScale ==> r == MaxScale
  {
    var upper := if MaxScale <= s then MaxScale else s;
    if MinScale >= upper then MinScale else upper
  }

  /** The stage position after zooming from `oldScale` to `newScale` about
      the focal point. */
  function ZoomedPosition(focal: Point, prev: Point, oldScale: real, newScale: real): Point
    requires oldScale != 0.0
  {
    var factor := newScale / oldScale;
    Point(focal.x - (focal.x - prev.x) * factor, focal.y - (focal.y - prev.y) * factor)
  }

  /** The drawing coordinate under the focal point, (focal - position) /
      scale, is the same before and after the zoom: zooming is towards that
      point. */
  lemma ZoomKeepsFocalPoint(focal: Point, prev: Point, oldScale: real, newScale: real)
    requires oldScale != 0.0 && newScale != 0.0
    ensures (focal.x - ZoomedPosition(focal, prev, oldScale, newScale).x) / newScale == (focal.x - prev.x) / oldScale
    ensures (focal.y - ZoomedPosition(focal, prev, oldScale, newScale).y) / newScale == (focal.y - prev.y) / oldScale
  {
    var f := newScale / oldScale;
    assert f * oldScale == newScale;
    var ex := focal.x - prev.x;
    var ey := focal.y - prev.y;
    assert (ex * f) / newScale == ex / oldScale by {
      assert (ex * f) * oldScale == ex * newScale;
    }
    assert (ey * f) / newScale == ey / oldScale by {
      assert (ey * f) * oldScale == ey * newScale;
    }
  }

  class CanvasState {
    var segments: seq<CableSegment>
    var history: seq<seq<CableSegment>>
    var historyIndex: int
    var scale: real
    var baseScale: real
    var isDrawing: bool
    var currentSegment: seq<Point>
    var selectedSegmentIndices: seq<int>
    var hoveredSegmentIndex: Option<int>
    var popover: Option<SegmentPopover>
    var stagePosition: Point

    /** The history cursor is on an entry, and the scale stays within the
        zoom range (only zooming changes it). */
    predicate Valid()
      reads this
    {
      0 <= historyIndex < |history| && MinScale <= scale <= MaxScale
    }

    constructor ()
      ensures Valid()
      ensures segments == [] && history == [[]] && historyIndex == 0
      ensures scale == DefaultScale && baseScale == DefaultScale
      ensures !isDrawing && currentSegment == []
      ensures selectedSegmentIndices == [] && hoveredSegmentIndex.None? && popover.None?
      ensures stagePosition == Point(0.0, 0.0)
    {
      segments := [];
      history := [[]];
      historyIndex := 0;
      scale := DefaultScale;
      baseScale := DefaultScale;
      isDrawing := false;
      currentSegment := [];
      selectedSegmentIndices := [];
      hoveredSegmentIndex := None;
      popover := None;
      stagePosition := Point(0.0, 0.0);
    }

    /** saveToHistory: drop the redo tail, append the new list and move the
        cursor onto it. */
    method SaveToHistory(newSegments: seq<CableSegment>)
      requires Valid()
      modifies this
      ensures Valid()
      ensures history == old(history[..historyIndex + 1]) + [newSegments]
      ensures historyIndex == old(historyIndex) + 1 && history[historyIndex] == newSegments
      ensures segments == old(segments) && scale == old(scale) && baseScale == old(baseScale)
      ensures isDrawing == old(isDrawing) && currentSegment == old(currentSegment)
      ensures selectedSegmentIndices == old(selectedSegmentIndices)
      ensures hoveredSegmentIndex == old(hoveredSegmentIndex) && popover == old(popover)
      ensures stagePosition == old(stagePosition)
    {
      history := history[..historyIndex + 1] + [newSegments];
      historyIndex := |history| - 1;
    }

    /** handleUndo: step back one entry if there is one. */
    method Undo()
      requires Valid()
      modifies this
      ensures Valid() && history == old(history)
      ensures old(historyIndex) > 0 ==> historyIndex == old(historyIndex) - 1 && segments == history[historyIndex]
      ensures old(historyIndex) == 0 ==> historyIndex == 0 && segments == old(segments)
      ensures scale == old(scale) && baseScale == old(baseScale)
      ensures isDrawing == old(isDrawing) && currentSegment == old(currentSegment)
      ensures selectedSegmentIndices == old(selectedSegmentIndices)
      ensures hoveredSegmentIndex == old(hoveredSegmentIndex) && popover == old(popover)
      ensures stagePosition == old(stagePosition)
    {
      if historyIndex > 0 {
        historyIndex := historyIndex - 1;
        segments := history[historyIndex];
      }
    }

    /** handleRedo: step forward one entry if there is one. */
    method Redo()
      requires Valid()
      modifies this
      ensures Valid() && history == old(history)
      ensures old(historyIndex) < |history| - 1 ==>
                historyIndex == old(historyIndex) + 1 && segments == history[historyIndex]
      ensures old(historyIndex) == |history| - 1 ==> historyIndex == old(historyIndex) && segments == old(segments)
      ensures scale == old(scale) && baseScale == old(baseScale)
      ensures isDrawing == old(isDrawing) && currentSegment == old(currentSegment)
      ensures selectedSegmentIndices == old(selectedSegmentIndices)
      ensures hoveredSegmentIndex == old(hoveredSegmentIndex) && popover == old(popover)
      ensures stagePosition == old(stagePosition)
    {
      if historyIndex < |history| - 1 {
        historyIndex := historyIndex + 1;
        segments := history[historyIndex];
      }
    }

    /** handleClear: no segments, no drawing in progress, a history holding
        only the empty list. Selection, hover and popover are left as they
        are. */
    method Clear()
      requires Valid()
      modifies this
      ensures Valid()
      ensures segments == [] && currentSegment == [] && history == [[]] && historyIndex == 0
      ensures scale == old(scale) && baseScale == old(baseScale) && isDrawing == old(isDrawing)
      ensures selectedSegmentIndices == old(selectedSegmentIndices)
      ensures hoveredSegmentIndex == old(hoveredSegmentIndex) && popover == old(popover)
      ensures stagePosition == old(stagePosition)
    {
      segments := [];
      currentSegment := [];
      history := [[]];
      historyIndex := 0;
    }

    /** deleteSegment: remove segment k, record the new list, and renumber
        the selection, the hovered segment and the popover's segment. */
    method DeleteSegment(k: int)
      requires Valid()
      modifies this
      ensures Valid()
      ensures segments == SegmentOperations.DeleteSegment(old(segments), k).segments.value
      ensures history == old(history[..historyIndex + 1]) + [segments] && historyIndex == old(historyIndex) + 1
      ensures selectedSegmentIndices == RemapSelection(old(selectedSegmentIndices), k)
      ensures old(hoveredSegmentIndex).None? ==> hoveredSegmentIndex.None?
      ensures old(hoveredSegmentIndex).Some? ==> hoveredSegmentIndex == IndexAfterDelete(old(hoveredSegmentIndex).value, k)
      ensures old(popover).None? ==> popover.None?
      ensures old(popover).Some? && old(popover).value.segmentIndex == k ==> popover.None?
      ensures old(popover).Some? && old(popover).value.segmentIndex != k ==>
                popover == Some(old(popover).value.(segmentIndex := IndexAfterDelete(old(popover).value.segmentIndex, k).value))
      ensures scale == old(scale) && baseScale == old(baseScale)
      ensures isDrawing == old(isDrawing) && currentSegment == old(currentSegment)
      ensures stagePosition == old(stagePosition)
    {
      var newSegments := SegmentOperations.DeleteSegment(segments, k).segments.value;
      segments := newSegments;
      SaveToHistory(newSegments);
      selectedSegmentIndices := RemapSelection(selectedSegmentIndices, k);
      if hoveredSegmentIndex.Some? {
        hoveredSegmentIndex := IndexAfterDelete(hoveredSegmentIndex.value, k);
      }
      if popover.Some? {
        var p := popover.value;
        popover := match IndexAfterDelete(p.segmentIndex, k)
                   case None => None
                   case Some(j) => Some(p.(segmentIndex := j));
      }
    }

    /** deleteSelectedSegments: with a selection, remove every selected
        segment at once, record the new list, clear the selection, close the
        popover and drop a hover on a removed segment. */
    method DeleteSelectedSegments()
      requires Valid()
      modifies this
      ensures Valid()
      ensures old(selectedSegmentIndices) == [] ==>
                segments == old(segments) && history == old(history) && historyIndex == old(historyIndex)
                && popover == old(popover) && hoveredSegmentIndex == old(hoveredSegmentIndex)
                && selectedSegmentIndices == []
      ensures old(selectedSegmentIndices) != [] ==>
                var removed := set x | x in old(selectedSegmentIndices);
                segments == Without(old(segments), removed)
                && history == old(history[..historyIndex + 1]) + [segments] && historyIndex == old(historyIndex) + 1
                && selectedSegmentIndices == [] && popover.None?
                && (old(hoveredSegmentIndex).Some? && old(hoveredSegmentIndex).value in removed ==> hoveredSegmentIndex.None?)
                && (old(hoveredSegmentIndex).None? || old(hoveredSegmentIndex).value !in removed ==>
                      hoveredSegmentIndex == old(hoveredSegmentIndex))
      ensures scale == old(scale) && baseScale == old(baseScale)
      ensures isDrawing == old(isDrawing) && currentSegment == old(currentSegment)
      ensures stagePosition == old(stagePosition)
    {
      if |selectedSegmentIndices| == 0 {
        return;
      }
      var indicesSet := set x | x in selectedSegmentIndices;
      var newSegments := Without(segments, indicesSet);
      segments := newSegments;
      SaveToHistory(newSegments);
      selectedSegmentIndices := [];
      popover := None;
      if hoveredSegmentIndex.Some? && hoveredSegmentIndex.value in indicesSet {
        hoveredSegmentIndex := None;
      }
    }

    /** handleUpdateSegment: an index out of range is ignored; otherwise
        only the cross-section, material and temperature of that segment
        change, and the new list is recorded. */
    method UpdateSegment(k: int, crossSection: real, isCopper: bool, temperature: TemperaturePreset)
      requires Valid()
      modifies this
      ensures Valid()
      ensures !(0 <= k < |old(segments)|) ==>
                segments == old(segments) && history == old(history) && historyIndex == old(historyIndex)
      ensures 0 <= k < |old(segments)| ==>
                |segments| == |old(segments)|
                && (forall i | 0 <= i < |segments| && i != k :: segments[i] == old(segments)[i])
                && segments[k].points == old(segments)[k].points
                && segments[k].length == old(segments)[k].length
                && segments[k].connectedTo == old(segments)[k].connectedTo
                && segments[k].crossSection == Some(crossSection)
                && segments[k].isCopper == Some(isCopper)
                && segments[k].temperature == Some(temperature)
                && history == old(history[..historyIndex + 1]) + [segments] && historyIndex == old(historyIndex) + 1
      ensures scale == old(scale) && baseScale == old(baseScale)
      ensures isDrawing == old(isDrawing) && currentSegment == old(currentSegment)
      ensures selectedSegmentIndices == old(selectedSegmentIndices)
      ensures hoveredSegmentIndex == old(hoveredSegmentIndex) && popover == old(popover)
      ensures stagePosition == old(stagePosition)
    {
      if k < 0 || k >= |segments| {
        return;
      }
      var newSegments := segments[k := segments[k].(crossSection := Some(crossSection),
                                                   isCopper := Some(isCopper),
                                                   temperature := Some(temperature))];
      segments := newSegments;
      SaveToHistory(newSegments);
    }

    /** handleDrawingComplete: a drawing of at least two points with a
        positive length becomes a new segment with the default properties;
        in every case the drawing ends. The base scale follows the scale for
        the first segment or after a change of more than 1. */
    method DrawingComplete(dist: (Point, Point) -> real)
      requires Valid()
      modifies this
      ensures Valid()
      ensures !isDrawing && currentSegment == []
      ensures var appended := old(isDrawing) && |old(currentSegment)| >= 2
                             && SegmentLength(old(currentSegment), old(scale), dist) > 0.0;
              (!appended ==>
                 segments == old(segments) && history == old(history) && historyIndex == old(historyIndex)
                 && baseScale == old(baseScale))
              && (appended ==>
                    segments == old(segments) + [CableSegment(old(currentSegment),
                                                             SegmentLength(old(currentSegment), old(scale), dist),
                                                             Some(DefaultCrossSection), Some(DefaultIsCopper),
                                                             Some(DefaultTemperature), None)]
                    && history == old(history[..historyIndex + 1]) + [segments]
                    && historyIndex == old(historyIndex) + 1
                    && (|old(segments)| == 0 || Abs(old(scale) - old(baseScale)) > 1.0 ==> baseScale == old(scale))
                    && (|old(segments)| > 0 && Abs(old(scale) - old(baseScale)) <= 1.0 ==> baseScale == old(baseScale)))
      ensures scale == old(scale)
      ensures selectedSegmentIndices == old(selectedSegmentIndices)
      ensures hoveredSegmentIndex == old(hoveredSegmentIndex) && popover == old(popover)
      ensures stagePosition == old(stagePosition)
    {
      if !isDrawing || |currentSegment| < 2 {
        isDrawing := false;
        currentSegment := [];
        return;
      }
      var length := CalculateSegmentLength(currentSegment, scale, dist);
      if length <= 0.0 {
        isDrawing := false;
        currentSegment := [];
        return;
      }
      if |segments| == 0 || Abs(scale - baseScale) > 1.0 {
        baseScale := scale;
      }
      var newSegments := segments + [CableSegment(currentSegment, length, Some(DefaultCrossSection),
                                                  Some(DefaultIsCopper), Some(DefaultTemperature), None)];
      segments := newSegments;
      SaveToHistory(newSegments);
      isDrawing := false;
      currentSegment := [];
    }

    /** zoomTowardsPoint: clamp the requested scale to the zoom range; if
        that changes the scale, move the stage so the focal point stays put. */
    method ZoomTowardsPoint(focalPoint: Point, newScale: real)
      requires Valid()
      modifies this
      ensures Valid()
      ensures ClampScale(newScale) == old(scale) ==> scale == old(scale) && stagePosition == old(stagePosition)
      ensures ClampScale(newScale) != old(scale) ==>
                scale == ClampScale(newScale)
                && stagePosition == ZoomedPosition(focalPoint, old(stagePosition), old(scale), scale)
      ensures segments == old(segments) && history == old(history) && historyIndex == old(historyIndex)
      ensures baseScale == old(baseScale)
      ensures isDrawing == old(isDrawing) && currentSegment == old(currentSegment)
      ensures selectedSegmentIndices == old(selectedSegmentIndices)
      ensures hoveredSegmentIndex == old(hoveredSegmentIndex) && popover == old(popover)
    {
      var oldScale := scale;
      var clampedScale := ClampScale(newScale);
      if clampedScale == oldScale {
        return;
      }
      ghost var zoomed := ZoomedPosition(focalPoint, stagePosition, oldScale, clampedScale);
      var scaleFactor := clampedScale / oldScale;
      stagePosition := Point(focalPoint.x - (focalPoint.x - stagePosition.x) * scaleFactor,
                             focalPoint.y - (focalPoint.y - stagePosition.y) * scaleFactor);
      assert stagePosition == zoomed;
      scale := clampedScale;
    }
  }
}
