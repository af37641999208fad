/** The canvas cursor (DimensioningUI/src/components/Canvas/hooks/useCursor.ts):
    a priority table from the interaction state to a CSS cursor. */
module Cursor {
  import opened Opt
  import opened CanvasTypes

  /** The cursors the canvas shows; the datatype is the set of possible
      results. */
  datatype CursorStyle = Grab | Grabbing | Pointer | NotAllowed | Crosshair | Move | Default

  /** The CSS keyword of each cursor. */
  function CssName(c: CursorStyle): (r: string)
    ensures r in {"grab", "grabbing", "pointer", "not-allowed", "crosshair", "move", "default"}
  {
    match c
    case Grab => "grab"
    case Grabbing => "grabbing"
    case Pointer => "pointer"
    case NotAllowed => "not-allowed"
    case Crosshair => "crosshair"
    case Move => "move"
    case Default => "default"
  }

  /** Distinct cursors have distinct keywords. */
  lemma CssNameInjective(a: CursorStyle, b: CursorStyle)
    requires CssName(a) == CssName(b)
    ensures a == b
  {
  }

  /** What the erase tool can delete under the pointer. */
  datatype Deletable = SegmentItem | CrossSectionItem

  /** The inputs of useCursor; `engineLoaded` is the truthiness of the
      cable engine handle. */
  datatype CursorInput = CursorInput(
    isSpacePressed: bool, isPanning: bool, isDraggingSegment: bool, isDraggingPoint: bool,
    activeTool: Tool, hoveredDeletable: Option<Deletable>, hoveredPointIndex: Option<HoveredPoint>,
    hoveredSegmentIndex: Option<int>, isDrawing: bool, engineLoaded: bool)

  predicate Panning(i: CursorInput) { i.isSpacePressed || i.isPanning }

  predicate Dragging(i: CursorInput) { i.isDraggingSegment || i.isDraggingPoint }

  /** useCursor. */
  function UseCursor(i: CursorInput): (r: CursorStyle)
    // grab wins over everything
    ensures r == Grab <==> Panning(i)
    // then grabbing while something is dragged
    ensures r == Grabbing <==> !Panning(i) && Dragging(i)
    // the erase tool: pointer exactly over something deletable
    ensures !Panning(i) && !Dragging(i) && i.activeTool == Erase ==>
              r == (if i.hoveredDeletable.Some? then Pointer else NotAllowed)
    ensures r == Pointer || r == NotAllowed ==> i.activeTool == Erase
    // the calibrate and cross-section tools always show a crosshair
    ensures !Panning(i) && !Dragging(i) && (i.activeTool == Calibrate || i.activeTool == CrossSection) ==>
              r == Crosshair
    // move only for the select tool over a segment and no point
    ensures r == Move <==>
              !Panning(i) && !Dragging(i) && i.activeTool == Select
              && i.hoveredPointIndex.None? && i.hoveredSegmentIndex.Some?
  {
    if i.isSpacePressed || i.isPanning then Grab
    else if i.isDraggingSegment || i.isDraggingPoint then Grabbing
    else if i.activeTool == Erase then
      if i.hoveredDeletable.Some? then Pointer else NotAllowed
    else if i.activeTool == Calibrate then Crosshair
    else if i.activeTool == CrossSection then Crosshair
    else if i.hoveredPointIndex.Some? then
      if i.activeTool == Select then Crosshair
      else if i.activeTool == Line then Crosshair
      else Default
    else if i.hoveredSegmentIndex.Some? then
      if i.activeTool == Select then Move
      else if i.activeTool == Line then Crosshair
      else Default
    else if i.isDrawing then Crosshair
    else
      var isNotHovering := i.hoveredPointIndex.None? && i.hoveredSegmentIndex.None?;
      if i.engineLoaded && isNotHovering && i.activeTool == Line then Crosshair
      else if i.activeTool == Select then Default
      else Default
  }

  /** The line tool shows a crosshair over anything it can draw from, and
      over empty space once the engine is loaded; over empty space without
      the engine and not drawing it shows the default cursor. */
  lemma LineToolCursor(i: CursorInput)
    requires !Panning(i) && !Dragging(i) && i.activeTool == Line
    ensures i.hoveredPointIndex.Some? || i.hoveredSegmentIndex.Some? || i.isDrawing ==> UseCursor(i) == Crosshair
    ensures i.hoveredPointIndex.None? && i.hoveredSegmentIndex.None? && !i.isDrawing ==>
              (UseCursor(i) == Crosshair <==> i.engineLoaded)
              && (UseCursor(i) == Default <==> !i.engineLoaded)
  {
  }

  /** With the select tool the cursor is a crosshair over a point or while
      drawing, a move cursor over a segment, and the default otherwise. */
  lemma SelectToolCursor(i: CursorInput)
    requires !Panning(i) && !Dragging(i) && i.activeTool == Select
    ensures UseCursor(i) == (if i.hoveredPointIndex.Some? then Crosshair
                             else if i.hoveredSegmentIndex.Some? then Move
                             else if i.isDrawing then Crosshair
                             else Default)
  {
  }
}
