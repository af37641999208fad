# Cable dimensioning: engine formulas, number input and canvas editing

This project models the core of the cable-dimensioning application in Dafny and proves
properties of the model. The application has two parts.

The first part is the calculation engine, `emsdk/cable_dimensioning.c`. It holds the
closed-form cable formulas: temperature-corrected resistivity, single-phase, three-phase and
chained voltage drop, required cross-section, power loss, derating and rounding to a standard
conductor size. The model states these over `real`. The invalid-input sentinel -1 is kept as
it is (`CableMath.Invalid`).

The second part is the drawing canvas of the web interface. The model covers:

- the locale-tolerant number grammar and parser (`numberInput.ts`);
- the geometry helpers (`utils.ts`);
- hit detection (`useCanvasDetection.ts`);
- split, merge and delete of cable segments, together with their connection-keyed
  cross-section map (`useSegmentOperations.ts`);
- panning and dragging (`useCanvasInteractions.ts`);
- the editing state of the canvas with its undo history (`CableCanvas.tsx`);
- the pointer-down rules of the tools (`toolHandlerHelpers.ts`);
- the cross-section popover helpers;
- the cursor table (`useCursor.ts`);
- the assembly of the arrays that the live voltage-drop figure hands to the engine
  (`useVoltageDrop.ts`).

Each source file keeps its own form in the model:

- The engine's formulas are functions. Its loops (`voltage_drop_chain`, `round_to_standard`)
  and `apply_derating`'s reassignments are methods proved against specification functions.
- The canvas's scans are methods with loop invariants, proved against what they find:
  `calculateSegmentLength`, `pointExistsAtLocation`, `getSortedSegmentIndices`, the three
  nearest-hit queries and `handlePointDrag`.
- The canvas component's state is the class `CableCanvas.CanvasState`. Its fields are the
  segments, the history and its cursor, the scales, the drawing in progress, the selection,
  the hover, the popover and the stage position. Each handler is a method on it.
- The mutable `lastClickRef` of the double-click detector is the class
  `ToolHandlers.LastClickRef`.
- The tool handlers act by invoking callbacks. Their model returns the list of invocations,
  in call order, as values of `ToolHandlers.Effect`. The callbacks whose answers they read
  become function parameters.
- A property access through `undefined` throws in JavaScript. It is the `TypeError` case of
  `CanvasTypes.Thrown`.

Distances are `Math.sqrt` of squared coordinate differences. The model takes the distance
function as a parameter `dist`. Where a property needs it, `dist` is required to satisfy
`CanvasTypes.IsDistance`: it is non-negative and its square is the squared Euclidean
distance. The threshold tests `distance < t` are decided on squares (`CanvasTypes.Within`),
and `CanvasTypes.WithinIsDistanceBelow` proves the two readings agree.

`sqrt(3.0)` is the double that the C library returns, 1.7320508075688772.

## Model

| member | source | states |
|---|---|---|
| CableMath.StandardSizesShape | emsdk/cable_dimensioning.c:12-15 | the table has 15 sizes, strictly increasing, the largest being 240 mm² |
| CableMath.SqrtThreeIsSquareRoot | emsdk/cable_dimensioning.c:38 | the constant used for `sqrt(3.0)` is positive and its square is within 1e-15 of 3 |
| CableMath.GetResistivity | emsdk/cable_dimensioning.c:6-23 | at 20 °C the result is the material's base resistivity (0.017241 copper, 0.028265 aluminium); above 20 °C it is larger and below it smaller |
| CableMath.ResistivityStrictlyIncreasing | emsdk/cable_dimensioning.c:19-23 | for either material, resistivity strictly increases with temperature |
| CableMath.VoltageDropSingle | emsdk/cable_dimensioning.c:29-32 | -1 exactly for a non-positive cross-section; otherwise the drop times the cross-section is 2·I·L·ρ |
| CableMath.VoltageDropThree | emsdk/cable_dimensioning.c:36-39 | -1 exactly for a non-positive cross-section; otherwise the drop times the cross-section is √3·I·L·ρ |
| CableMath.SentinelIsAmbiguous | emsdk/cable_dimensioning.c:29-32 | -1 is also a legitimate single-phase drop (I = -1, L = 0.5, ρ = S = 1), so a caller cannot tell it from the error |
| CableMath.VoltageDropChain | emsdk/cable_dimensioning.c:43-50 | -1 for a null array or a non-positive count; otherwise the sum of the single-phase drops of the first `count` entries, including -1 terms for bad cross-sections |
| CableMath.ChainSumValid | emsdk/cable_dimensioning.c:43-50 | with every cross-section positive, the chain is 2·I·ρ times the sum of length/section |
| CableMath.ChainSumAllInvalid | emsdk/cable_dimensioning.c:43-50 | with every cross-section non-positive, the chain is minus the number of segments, not an error |
| CableMath.ChainSumConcat | emsdk/cable_dimensioning.c:43-50 | the chain of two consecutive runs is the sum of their chains |
| CableMath.ChainSumNonNegative | emsdk/cable_dimensioning.c:43-50 | non-negative current, resistivity and lengths with valid cross-sections give a non-negative drop |
| CableMath.CrossSectionSingle | emsdk/cable_dimensioning.c:56-59 | -1 exactly for a non-positive drop limit; otherwise the size times the limit is 2·L·ρ·I |
| CableMath.CrossSectionThree | emsdk/cable_dimensioning.c:63-66 | -1 exactly for a non-positive drop limit; otherwise the size times the limit is √3·L·ρ·I |
| CableMath.SingleSizeThenDrop | emsdk/cable_dimensioning.c:29-59 | sizing for a drop D (D > 0, I·L·ρ > 0) and computing the drop of that size gives back D |
| CableMath.SingleDropThenSize | emsdk/cable_dimensioning.c:29-59 | computing the drop of a size S > 0 and sizing for that drop gives back S |
| CableMath.ThreeSizeThenDrop | emsdk/cable_dimensioning.c:36-66 | the three-phase sizing and drop formulas are inverse in the first direction |
| CableMath.ThreeDropThenSize | emsdk/cable_dimensioning.c:36-66 | the three-phase drop and sizing formulas are inverse in the second direction |
| CableMath.PowerLoss | emsdk/cable_dimensioning.c:72-76 | -1 exactly for a non-positive cross-section; otherwise the current times the single-phase drop (I²·R) |
| CableMath.ApplyDerating | emsdk/cable_dimensioning.c:80-84 | the base current times each factor, a non-positive factor counting as 1, in all four cases |
| CableMath.FirstAtLeastIsCeiling | emsdk/cable_dimensioning.c:88-92 | in a strictly increasing table the scan's result is at least x, is a table entry with no smaller entry at least x when x fits, and is x itself otherwise |
| CableMath.FirstAtLeastIdempotent | emsdk/cable_dimensioning.c:88-92 | rounding a rounded value changes nothing |
| CableMath.RoundToStandard | emsdk/cable_dimensioning.c:88-92 | the loop returns the first standard size at least the request, or the request past the table |
| CableMath.RoundToStandardSpec | emsdk/cable_dimensioning.c:88-92 | the rounded size is at least the request, is the least standard size at least it when the request is at most 240, is the request itself above 240, and rounding is idempotent |
| NumberInput.Decompose | DimensioningUI/src/lib/numberInput.ts:25 | cutting a string at its first separator after an optional minus recomposes to the same string |
| NumberInput.DecomposeCompose | DimensioningUI/src/lib/numberInput.ts:25 | decomposing a composed numeral gives the numeral back |
| NumberInput.GrammarAccepted | DimensioningUI/src/lib/numberInput.ts:23-26 | every string of the form optional minus, digits, at most one `.` or `,`, digits is accepted (the empty string included) |
| NumberInput.AcceptedInGrammar | DimensioningUI/src/lib/numberInput.ts:23-26 | every accepted string is of that form |
| NumberInput.MinusOnlyFirst | DimensioningUI/src/lib/numberInput.ts:25 | in an accepted string a minus sign stands only at position 0 |
| NumberInput.SeparatorUnique | DimensioningUI/src/lib/numberInput.ts:25 | an accepted string holds at most one separator |
| NumberInput.TwoSeparatorsRejected | DimensioningUI/src/lib/numberInput.ts:25 | a string with two separators ("1.2.3", "1,2.3") is rejected |
| NumberInput.ParseNumber | DimensioningUI/src/lib/numberInput.ts:8-16 | "", "-", "." and "," give 0, and a normalised text `Number` cannot read gives 0 rather than NaN |
| NumberInput.NormalisedText | DimensioningUI/src/lib/numberInput.ts:13 | replacing the first comma of a numeral of the grammar gives the same numeral with its separator written as a point |
| NumberInput.MinusSeparatorReadsZero | DimensioningUI/src/lib/numberInput.ts:8-16 | "-." and "-," pass the early return, `Number` cannot read "-.", so both parse to 0 |
| NumberInput.JsNumberOfNumeral | DimensioningUI/src/lib/numberInput.ts:13-15 | `Number` reads a normalised numeral with a digit as its decimal value |
| NumberInput.ParseAcceptedWithDigit | DimensioningUI/src/lib/numberInput.ts:8-26 | an accepted string with a digit parses to its decimal value, with a comma read as a point |
| NumberInput.ParseAcceptedWithoutDigit | DimensioningUI/src/lib/numberInput.ts:8-26 | an accepted string without a digit ("-." and "-," included) parses to 0 |
| NumberInput.HandleNumberInputChange | DimensioningUI/src/lib/numberInput.ts:35-44 | the setter receives the value exactly when it is accepted, and the parsed value is returned in both branches |
| CanvasTypes.SortedKey | DimensioningUI/src/components/Canvas/hooks/useSegmentOperations.ts:130-133 | the key has the smaller index first and names exactly the two indices |
| CanvasTypes.Translate | DimensioningUI/src/components/Canvas/hooks/useCanvasInteractions.ts:140-144 | the moved point differs from the original by exactly the offset |
| CanvasTypes.WithinIsDistanceBelow | DimensioningUI/src/components/Canvas/utils.ts:4-6 | deciding `distance < t` on squares agrees with comparing the distance |
| CanvasTypes.CloserIsSmallerSquare | DimensioningUI/src/components/Canvas/hooks/useCanvasDetection.ts:33-46 | comparing two distances is comparing their squares |
| CanvasTypes.DistanceAxioms | DimensioningUI/src/components/Canvas/utils.ts:4-6 | the distance is symmetric, zero exactly on equal points and unchanged by translation |
| CanvasGeometry.CalculateSegmentLength | DimensioningUI/src/components/Canvas/utils.ts:9-19 | the loop computes 0 for fewer than two points, else the sum of consecutive distances divided by the scale |
| CanvasGeometry.PathLengthNonNegative | DimensioningUI/src/components/Canvas/utils.ts:9-19 | the polyline length is never negative |
| CanvasGeometry.SegmentLengthNonNegative | DimensioningUI/src/components/Canvas/utils.ts:9-19 | on a positive scale a stored length is never negative |
| CanvasGeometry.TranslatePoints | DimensioningUI/src/components/Canvas/hooks/useCanvasInteractions.ts:140-144 | every point moves by the same offset and none is added or lost |
| CanvasGeometry.PathLengthTranslated | DimensioningUI/src/components/Canvas/utils.ts:9-19 | moving a whole polyline leaves its length unchanged |
| CanvasGeometry.SegmentLengthTranslated | DimensioningUI/src/components/Canvas/utils.ts:9-19 | moving a whole polyline leaves its stored length unchanged |
| CanvasGeometry.PathLengthJoin | DimensioningUI/src/components/Canvas/utils.ts:9-19 | two polylines sharing their junction have the sum of their lengths |
| CanvasGeometry.SnapToGridPoint | DimensioningUI/src/components/Canvas/utils.ts:22-37 | with snapping off or a non-positive scale the point is returned unchanged |
| CanvasGeometry.SnapToGridPointMeaning | DimensioningUI/src/components/Canvas/utils.ts:22-37 | with snapping on, each coordinate moves at most half a grid step (0.1 m) and snapping again changes nothing |
| CanvasGeometry.BoundsOf | DimensioningUI/src/components/Canvas/utils.ts:44-47 | the normalised rectangle is ordered and depends on the two corners only as a set, so not on which is the start |
| CanvasGeometry.LinesIntersect | DimensioningUI/src/components/Canvas/utils.ts:117-130 | parallel lines never intersect |
| CanvasGeometry.CramerSolves | DimensioningUI/src/components/Canvas/utils.ts:117-130 | the two parameters computed name the same point on both lines |
| CanvasGeometry.CramerUnique | DimensioningUI/src/components/Canvas/utils.ts:117-130 | non-parallel lines meet at those parameters only |
| CanvasGeometry.LinesIntersectMeaning | DimensioningUI/src/components/Canvas/utils.ts:117-130 | the test holds exactly when the lines are not parallel and both segments meet at parameters in [0, 1] |
| CanvasGeometry.LineIntersectsRectSound | DimensioningUI/src/components/Canvas/utils.ts:71-114 | a line the test accepts has a point inside the rectangle |
| CanvasGeometry.SegmentIntersectsRect | DimensioningUI/src/components/Canvas/utils.ts:40-68 | true exactly when some point of the polyline lies in the normalised rectangle or some edge passes the line-rectangle test |
| CanvasGeometry.FootParam | DimensioningUI/src/components/Canvas/utils.ts:143-155 | the projection parameter is clamped into [0, 1] |
| CanvasGeometry.FootPoint | DimensioningUI/src/components/Canvas/utils.ts:143-159 | the measured point lies on the segment, and for a degenerate line it is the line start |
| CanvasGeometry.FootIsNearest | DimensioningUI/src/components/Canvas/utils.ts:133-164 | no point of the segment is closer than the measured point, so the distance is the distance to the segment |
| CanvasGeometry.PointExistsAtLocation | DimensioningUI/src/components/Canvas/utils.ts:167-181 | true exactly when some point of some segment is closer than the threshold |
| CanvasGeometry.IsConnectionPoint | DimensioningUI/src/components/Canvas/utils.ts:184-202 | only the first or last point index can be a connection point |
| CanvasGeometry.FindConnectionPoint | DimensioningUI/src/components/Canvas/utils.ts:205-227 | end-to-start is tried first and gives the segment's last point; start-to-end gives the first point; otherwise null |
| CanvasGeometry.ConnectionTestsAgree | DimensioningUI/src/components/Canvas/utils.ts:184-227 | a connection point is found exactly when the first or last index is a connection point |
| CanvasGeometry.IndicesWhere | DimensioningUI/src/components/Canvas/utils.ts:235-245 | every collected index is below n and has the given membership |
| CanvasGeometry.IndicesWhereAscending | DimensioningUI/src/components/Canvas/utils.ts:235-245 | the collected indices ascend, so each is collected once |
| CanvasGeometry.IndicesWhereComplete | DimensioningUI/src/components/Canvas/utils.ts:235-245 | every index below n with the given membership is collected |
| CanvasGeometry.GetSortedSegmentIndices | DimensioningUI/src/components/Canvas/utils.ts:231-250 | the loop builds the draw order: unselected indices, then selected ones |
| CanvasGeometry.DrawOrderIsPartition | DimensioningUI/src/components/Canvas/utils.ts:231-250 | the draw order is a permutation of 0..n-1, every unselected index precedes every selected one, and each group is ascending |
| CanvasDetection.GetNearestPoint | DimensioningUI/src/components/Canvas/hooks/useCanvasDetection.ts:7-19 | null exactly when no point is closer than the threshold; otherwise a valid point within it, and no earlier point in segment-major order is |
| CanvasDetection.GetNearestSegment | DimensioningUI/src/components/Canvas/hooks/useCanvasDetection.ts:24-46 | null exactly when no edge is within the threshold; otherwise a segment of at least two points with an edge at the least distance, ties keeping the earliest |
| CanvasDetection.GetNearestSegmentEndpoint | DimensioningUI/src/components/Canvas/hooks/useCanvasDetection.ts:52-77 | null exactly when no endpoint is within the threshold; otherwise an endpoint within it that no endpoint beats, and every endpoint tested before it is strictly farther |
| SegmentOperations.WithoutIsKept | DimensioningUI/src/components/Canvas/CableCanvas.tsx:191-193 | the filter keeps exactly the entries whose index is not removed, in order |
| SegmentOperations.WithoutNothing | DimensioningUI/src/components/Canvas/CableCanvas.tsx:191-193 | removing no index leaves the list unchanged |
| SegmentOperations.WithoutOnly | DimensioningUI/src/components/Canvas/hooks/useSegmentOperations.ts:159-166 | removing one index is the list without that entry |
| SegmentOperations.WithoutTwo | DimensioningUI/src/components/Canvas/hooks/useSegmentOperations.ts:136-145 | removing two indices is the list without those two entries |
| SegmentOperations.Insert | DimensioningUI/src/components/Canvas/hooks/useSegmentOperations.ts:145 | `splice(k, 0, x)` puts x at k and shifts the rest by one |
| SegmentOperations.RemovePair | DimensioningUI/src/components/Canvas/hooks/useSegmentOperations.ts:136-145 | the intended removal drops entries i and j once each and keeps the rest in order |
| SegmentOperations.SpliceOut | DimensioningUI/src/components/Canvas/hooks/useSegmentOperations.ts:139-143 | `splice(k, 1)` drops entry k, and an index past the end drops nothing |
| SegmentOperations.RemovePairAsWrittenDistinct | DimensioningUI/src/components/Canvas/hooks/useSegmentOperations.ts:136-145 | for two distinct indices the written removal is the intended one |
| SegmentOperations.RemovePairAsWrittenSelf | DimensioningUI/src/components/Canvas/hooks/useSegmentOperations.ts:136-145 | when the partner index is the segment's own, the written removal also drops the next segment |
| SegmentOperations.Half | DimensioningUI/src/components/Canvas/hooks/useSegmentOperations.ts:41-53 | each half is a straight two-point segment with the original cross-section, naming its partner, its length the distance over the scale |
| SegmentOperations.SplitSegmentAtPoint | DimensioningUI/src/components/Canvas/hooks/useSegmentOperations.ts:23-67 | a missing segment throws; no change for fewer than two points or a snapped point within 5 of an existing point; otherwise the list grows by one, halves [start, p] and [p, end] at i and i+1 keep the cross-section and name each other, the rest shift; key i-(i+1) is written only if absent, with the default cross-section |
| SegmentOperations.MergedPoints | DimensioningUI/src/components/Canvas/hooks/useSegmentOperations.ts:98-120 | the merged polyline has one point fewer than the two together (the junction once) |
| SegmentOperations.MergedPathLength | DimensioningUI/src/components/Canvas/hooks/useSegmentOperations.ts:98-127 | where the two polylines share the junction, the merged length is the sum of the two |
| SegmentOperations.OrElse | DimensioningUI/src/components/Canvas/hooks/useSegmentOperations.ts:126 | `a ?? b` picks a when present, else b |
| SegmentOperations.MergeSegments | DimensioningUI/src/components/Canvas/hooks/useSegmentOperations.ts:80-148 | no change unless the partner is defined, in range and reciprocal; a missing segment or empty polyline throws; otherwise the merged segment stands at the smaller index without partner, the two are removed once each, and the sorted key leaves the map while other entries stay |
| SegmentOperations.MergeHalves | DimensioningUI/src/components/Canvas/hooks/useSegmentOperations.ts:80-148 | two fresh halves at i and i+1 merge into the three-point segment through the split point |
| SegmentOperations.ThreePointLength | DimensioningUI/src/components/Canvas/utils.ts:9-19 | the length through three points is the sum of the two halves' lengths |
| SegmentOperations.SplitShape | DimensioningUI/src/components/Canvas/hooks/useSegmentOperations.ts:41-66 | a successful split hands over exactly the prefix, the two halves and the suffix |
| SegmentOperations.SplitThenMerge | DimensioningUI/src/components/Canvas/hooks/useSegmentOperations.ts:23-148 | merging the halves of a fresh split restores the list, with the split point kept inside the segment, its length the sum of the halves, and the map as before when it did not hold the key |
| SegmentOperations.DeleteSegment | DimensioningUI/src/components/Canvas/hooks/useSegmentOperations.ts:159-166 | exactly the entry at the index is removed and the rest keep their order; the map is untouched |
| CanvasInteractions.HandlePanMove | DimensioningUI/src/components/Canvas/hooks/useCanvasInteractions.ts:57-64 | the new position is the pointer minus the drag start, so zero exactly when they coincide |
| CanvasInteractions.Reshaped | DimensioningUI/src/components/Canvas/hooks/useCanvasInteractions.ts:77-85 | a dragged segment gets the new points and their length and keeps cross-section and partner |
| CanvasInteractions.FirstNear | DimensioningUI/src/components/Canvas/hooks/useCanvasInteractions.ts:92-103 | the first partner point within one pixel on each axis, or none when no point is |
| CanvasInteractions.HandlePointDrag | DimensioningUI/src/components/Canvas/hooks/useCanvasInteractions.ts:66-130 | no change without a selection or hovered point; a missing segment or partner throws; otherwise only the hovered point moves to the snapped pointer (length recomputed), the partner's first point on the old point follows, and every other segment is unchanged |
| CanvasInteractions.HandleSegmentDrag | DimensioningUI/src/components/Canvas/hooks/useCanvasInteractions.ts:132-154 | no change without a selection; otherwise every point of the selected segment moves by the pointer's offset, the pointer becomes the drag start, and other segments are unchanged |
| CanvasInteractions.SegmentDragKeepsLength | DimensioningUI/src/components/Canvas/hooks/useCanvasInteractions.ts:140-144 | the length after a drag is the length computed before it |
| CanvasInteractions.SegmentDragsCompose | DimensioningUI/src/components/Canvas/hooks/useCanvasInteractions.ts:132-154 | two successive drag events move the segment as one drag from the first start to the last pointer |
| CableCanvas.IndexAfterDelete | DimensioningUI/src/components/Canvas/CableCanvas.tsx:155-175 | an index equal to the deleted one is cleared, a larger one decremented, a smaller one kept |
| CableCanvas.IndexAfterDeleteKeepsTarget | DimensioningUI/src/components/Canvas/CableCanvas.tsx:145-175 | a renumbered index designates the same segment in the shortened list |
| CableCanvas.RemapSelectionMembers | DimensioningUI/src/components/Canvas/CableCanvas.tsx:150-153 | the renumbered selection holds exactly the renumbered survivors |
| CableCanvas.RemapSelectionKeepsTargets | DimensioningUI/src/components/Canvas/CableCanvas.tsx:145-153 | every surviving selected segment is still selected, under its new index |
| CableCanvas.ClampScale | DimensioningUI/src/components/Canvas/CableCanvas.tsx:775 | the scale lands in [100, 1500] and is unchanged inside that range |
| CableCanvas.ZoomKeepsFocalPoint | DimensioningUI/src/components/Canvas/CableCanvas.tsx:772-787 | the drawing coordinate under the focal point is the same before and after the zoom |
| CableCanvas.CanvasState.constructor | DimensioningUI/src/components/Canvas/CableCanvas.tsx:39-80 | the initial state: no segments, history [[]] at index 0, scale 300, nothing selected, hovered or drawn |
| CableCanvas.CanvasState.SaveToHistory | DimensioningUI/src/components/Canvas/CableCanvas.tsx:126-134 | the redo tail is dropped, the new list appended and the cursor moved onto it; the cursor stays on an entry |
| CableCanvas.CanvasState.Undo | DimensioningUI/src/components/Canvas/CableCanvas.tsx:728-734 | acts only when the cursor is past the first entry: moves back one and restores that entry |
| CableCanvas.CanvasState.Redo | DimensioningUI/src/components/Canvas/CableCanvas.tsx:736-742 | acts only when the cursor is before the last entry: moves forward one and restores that entry |
| CableCanvas.CanvasState.Clear | DimensioningUI/src/components/Canvas/CableCanvas.tsx:744-749 | no segments, no drawing, history [[]] at index 0 |
| CableCanvas.CanvasState.DeleteSegment | DimensioningUI/src/components/Canvas/CableCanvas.tsx:145-184 | the segment is removed and recorded; selection, hover and popover indices are cleared if equal to it and decremented if larger |
| CableCanvas.CanvasState.DeleteSelectedSegments | DimensioningUI/src/components/Canvas/CableCanvas.tsx:186-210 | nothing with an empty selection; otherwise exactly the selected segments are removed in order, the result recorded, the selection cleared, the popover closed and a hover on a removed segment dropped |
| CableCanvas.CanvasState.UpdateSegment | DimensioningUI/src/components/Canvas/CableCanvas.tsx:245-271 | an index out of range is ignored; otherwise only that segment's cross-section, material and temperature change and the list is recorded |
| CableCanvas.CanvasState.DrawingComplete | DimensioningUI/src/components/Canvas/CableCanvas.tsx:673-707 | a drawing of at least two points and positive length is appended with the default properties and recorded; the drawing always ends; the base scale follows the scale for the first segment or after a change of more than 1 |
| CableCanvas.CanvasState.ZoomTowardsPoint | DimensioningUI/src/components/Canvas/CableCanvas.tsx:772-787 | the clamped scale is taken and the stage moved so the focal point keeps its drawing coordinate; no change when the clamped scale equals the current one |
| ToolHandlers.IsOnSelectedSegment | DimensioningUI/src/components/Canvas/hooks/toolHandlerHelpers.ts:6-9 | true exactly when the nearest segment is the selected one |
| ToolHandlers.IsOnSelectedPoint | DimensioningUI/src/components/Canvas/hooks/toolHandlerHelpers.ts:12-15 | true exactly when the nearest point lies on the selected segment |
| ToolHandlers.ProcessSelectedSegmentInteraction | DimensioningUI/src/components/Canvas/hooks/toolHandlerHelpers.ts:29-106 | false on an empty selection; double-click, body drag and point drag are tried in that order; handled exactly when the click is on a selected segment or a point of one; deselect exactly when neither |
| ToolHandlers.InteractionsExclusive | DimensioningUI/src/components/Canvas/hooks/toolHandlerHelpers.ts:74-79 | a double-click excludes both drags, and the body drag excludes the point drag |
| ToolHandlers.CalculateSegmentMidpoint | DimensioningUI/src/components/Canvas/hooks/toolHandlerHelpers.ts:109-113 | undefined exactly for an empty polyline; otherwise the point at index ⌊n/2⌋ |
| ToolHandlers.MidpointFallbackUnused | DimensioningUI/src/components/Canvas/hooks/toolHandlerHelpers.ts:109-113 | on a non-empty polyline the fallback to the first point never decides the result |
| ToolHandlers.StepDoubleClick | DimensioningUI/src/components/Canvas/hooks/toolHandlerHelpers.ts:228-242 | no segment leaves the record unchanged; a click on the last-clicked segment within 300 ms resets the record, clears the drag timeout and fires the callback; any other click records the segment and time |
| ToolHandlers.SecondClickIsDouble | DimensioningUI/src/components/Canvas/hooks/toolHandlerHelpers.ts:228-242 | a second click on the same segment is a double-click exactly when it comes within 300 ms |
| ToolHandlers.OtherSegmentIsSingle | DimensioningUI/src/components/Canvas/hooks/toolHandlerHelpers.ts:228-242 | a click on another segment is never a double-click |
| ToolHandlers.ClickAfterDoubleIsSingle | DimensioningUI/src/components/Canvas/hooks/toolHandlerHelpers.ts:234-238 | after a double-click the next click is single, so a triple click is one double-click |
| ToolHandlers.LastClickRef.constructor | DimensioningUI/src/components/Canvas/hooks/useMouseHandlers.ts:72-75 | the record starts at time 0 with no point |
| ToolHandlers.LastClickRef.ProcessDoubleClick | DimensioningUI/src/components/Canvas/hooks/toolHandlerHelpers.ts:228-242 | the result, the callbacks and the new record are one step of the detector |
| ToolHandlers.ConnectionPointChecked | DimensioningUI/src/components/Canvas/utils.ts:184-202 | throws exactly when a coordinate of a missing end point is read; otherwise agrees with isConnectionPoint |
| ToolHandlers.MergeAtPoint | DimensioningUI/src/components/Canvas/hooks/toolHandlerHelpers.ts:257-267 | merge exactly when the nearest point's segment has a partner in range and the point is a connection point to it |
| ToolHandlers.ProcessEraseTool | DimensioningUI/src/components/Canvas/hooks/toolHandlerHelpers.ts:254-274 | merge at a connection point under the cursor, else delete the nearest segment, else nothing; handled exactly when one callback fires |
| ToolHandlers.EraseTotalOnWellFormedCanvas | DimensioningUI/src/components/Canvas/hooks/toolHandlerHelpers.ts:254-274 | on a canvas of non-empty segments with partners in range, erasing never throws |
| ToolHandlers.ProcessLineTool | DimensioningUI/src/components/Canvas/hooks/toolHandlerHelpers.ts:287-298 | the selection is cleared first if any; unless a double-click was handled, drawing starts at the nearest endpoint within 15, else at the click |
| ToolHandlers.ProcessSelectTool | DimensioningUI/src/components/Canvas/hooks/toolHandlerHelpers.ts:314-343 | a click on a selected segment goes first to the interaction; an untaken click on a segment is a double-click check and otherwise selects that segment alone; a click on empty space clears the selection and starts a selection box |
| ToolHandlers.ClickOnSelectedKeepsSelection | DimensioningUI/src/components/Canvas/hooks/toolHandlerHelpers.ts:314-343 | with the canvas's wiring, a click on a selected segment never changes the selection |
| PopoverHelpers.IsCompleteValue | DimensioningUI/src/components/Canvas/components/SegmentPropertiesPopover.helpers.ts:6-10 | false exactly for "", ".", "," and "-" |
| PopoverHelpers.IncompleteValuesAccepted | DimensioningUI/src/components/Canvas/components/SegmentPropertiesPopover.helpers.ts:6-10 | every incomplete value is accepted by the grammar and reads as 0 |
| PopoverHelpers.ClampCrossSection | DimensioningUI/src/components/Canvas/components/SegmentPropertiesPopover.helpers.ts:12-17 | the result is in [1.5, 35], the identity inside, the nearer bound outside |
| PopoverHelpers.ClampIdempotent | DimensioningUI/src/components/Canvas/components/SegmentPropertiesPopover.helpers.ts:12-17 | clamping twice is clamping once |
| PopoverHelpers.ClampMonotone | DimensioningUI/src/components/Canvas/components/SegmentPropertiesPopover.helpers.ts:12-17 | clamping preserves order |
| PopoverHelpers.ApplySegmentUpdate | DimensioningUI/src/components/Canvas/components/SegmentPropertiesPopover.helpers.ts:31-48 | the popover's value when positive, else the current cross-section if given, else 2.5, always clamped, with the popover's segment, material and temperature |
| PopoverHelpers.HandleCrossSectionChange | DimensioningUI/src/components/Canvas/components/SegmentPropertiesPopover.helpers.ts:50-63 | nothing without a popover or for rejected input; otherwise the popover takes the text, and an update is sent exactly for a complete value |
| PopoverHelpers.TypedValueApplied | DimensioningUI/src/components/Canvas/components/SegmentPropertiesPopover.helpers.ts:50-63 | a complete value with a digit and positive reading sets the segment to that reading, clamped |
| PopoverHelpers.DigitlessValueFallsBack | DimensioningUI/src/components/Canvas/components/SegmentPropertiesPopover.helpers.ts:50-63 | the complete digitless values "-." and "-," set the segment to the default 2.5 |
| Cursor.CssName | DimensioningUI/src/components/Canvas/hooks/useCursor.ts:16-50 | the cursor is one of grab, grabbing, pointer, not-allowed, crosshair, move, default |
| Cursor.CssNameInjective | DimensioningUI/src/components/Canvas/hooks/useCursor.ts:16-50 | distinct cursors have distinct keywords |
| Cursor.UseCursor | DimensioningUI/src/components/Canvas/hooks/useCursor.ts:4-51 | grab exactly while panning; grabbing exactly while dragging otherwise; with the erase tool pointer exactly over something deletable, else not-allowed; calibrate and cross-section tools crosshair; move exactly for the select tool over a segment and no point |
| Cursor.LineToolCursor | DimensioningUI/src/components/Canvas/hooks/useCursor.ts:25-50 | the line tool shows a crosshair over a point, a segment or while drawing, and over empty space exactly once the engine is loaded |
| Cursor.SelectToolCursor | DimensioningUI/src/components/Canvas/hooks/useCursor.ts:25-50 | the select tool shows a crosshair over a point or while drawing, move over a segment, default otherwise |
| VoltageDropHook.AllSegments | DimensioningUI/src/components/Canvas/hooks/useVoltageDrop.ts:39-52 | the drawn segments, followed by the drawing in progress exactly when it has two points and a positive length |
| VoltageDropHook.SectionOf | DimensioningUI/src/components/Canvas/hooks/useVoltageDrop.ts:59-72 | a connected segment uses the map entry under its sorted key when present, otherwise its own cross-section, else the default |
| VoltageDropHook.Lengths | DimensioningUI/src/components/Canvas/hooks/useVoltageDrop.ts:55 | the segment lengths in order, one per segment |
| VoltageDropHook.Sections | DimensioningUI/src/components/Canvas/hooks/useVoltageDrop.ts:59-72 | one cross-section per segment, in order, so the two arrays have equal length |
| VoltageDropHook.ToFloat64Array | DimensioningUI/src/components/Canvas/hooks/useVoltageDrop.ts:74-75 | a fresh array holding the values in order |
| VoltageDropHook.CalculateVoltageDrop | DimensioningUI/src/components/Canvas/hooks/useVoltageDrop.ts:19-89 | null without an engine, with a non-positive input, or with no segments; -1 when the engine fails; otherwise the chain over the assembled lengths and sections with count the number of segments |
| VoltageDropHook.SectionsPositive | DimensioningUI/src/components/Canvas/hooks/useVoltageDrop.ts:59-72 | with positive stored values and cross-sections every section handed over is positive |
| VoltageDropHook.AllSegmentsWellFormed | DimensioningUI/src/components/Canvas/hooks/useVoltageDrop.ts:39-52 | the appended drawing keeps the drawn segments' non-negative lengths and positive cross-sections |
| VoltageDropHook.FigureHasNoSentinelTerms | DimensioningUI/src/components/Canvas/hooks/useVoltageDrop.ts:55-89 | on such a canvas the figure is 2·I·ρ times the sum of length/section and is not negative |

## Left out

- The WebAssembly and worker plumbing is not part of this model. This covers `cableWorker.ts`,
  `workerManager.ts`, `moduleLoader.ts`, `memoryUtils.ts`, `voltageDropChain.ts` and
  `cable_dimensioning.ts`. The only trace of the asynchronous engine call in
  `useVoltageDrop.ts` is the `engineFails` parameter, which stands for a rejected call.
- React rendering, effects and the state setters' scheduling are not modelled. Each
  `CableCanvas` handler applies its updates at once.
- The timer-driven `useMouseHandlers.ts` (drag delays, event objects) is not modelled.
  Neither is `usePopoverRounding.ts` (async cancellation).
- `Date.now()` is the `now` parameter of `ToolHandlers.LastClickRef.ProcessDoubleClick`.
- The wiring helpers of `toolHandlerHelpers.ts` (`createToolHandlers`, `createDragHandlers`,
  `createPanningHandler`, `createDrawingStarter` and the `create*ToolHandler` /
  `createDoubleClickHandler` wrappers, lines 126-226) are not modelled. They only bind
  configuration objects to the process* functions, which are modelled.
- The callbacks that the tool handlers invoke are recorded as `ToolHandlers.Effect` values,
  not executed.
- Floating point is not modelled. All arithmetic is over `real`, and `Math.round`, `toFixed`
  and IEEE rounding are not reproduced.
- `sqrt(3.0)` is the constant 1.7320508075688772, not the exact root.
- `Math.sqrt` distances are the parameter `dist`.
- `useGrid.ts` and `emsdk/dimensioning.c` are not part of this model.
- `NumberInput.JsNumber`: `Number()` is modelled on decimal strings only. These are an
  optional sign, digits, an optional point and digits. Exponents, whitespace, "Infinity"
  and hexadecimal read as not-a-number and so as 0. This never matters for strings the
  grammar accepts. It does change `NumberInput.ParseNumber` and
  `NumberInput.HandleNumberInputChange` on rejected text: `numberInput.ts:43` parses the
  value even when it is rejected, so "1e5" and " 5" give 0 in the model but 100000 and 5
  in the program.
- `CanvasTypes` follows the code, not the older `types.ts`. The code tags segments with a
  temperature preset and uses the tools select, line, erase, calibrate and crossSection;
  `types.ts` declares only line and erase.
- `CableCanvas.tsx:136-143` passes `useSegmentOperations` five arguments, but the hook
  declares eight (`useSegmentOperations.ts:11-20`). In the shipped canvas the hook's
  `setSegments` is therefore undefined. `SegmentOperations` models the hook as it is
  declared and returns its updates as values.
- `CableCanvas.CanvasState.DeleteSegment` assumes the segment-operations hook is wired as
  declared. In the shipped canvas `deleteSegmentInternal` calls the undefined `setSegments`
  (`useSegmentOperations.ts:162`) and throws a TypeError. The selection, hover and popover
  renumbering of `CableCanvas.tsx:149-175` then never runs, and nothing is saved to history.
- `SegmentOperations.MergeSegments` and `CableCanvas.CanvasState.DeleteSegment` do not
  renumber the `connectedTo` of other segments after a removal. Neither does the source, so
  a partner index can go stale.
- `SegmentOperations.SplitSegmentAtPoint` requires the scale text to parse to a non-zero
  number. `SegmentOperations.MergeSegments` and `CanvasInteractions.HandleSegmentDrag`
  require the same. The source divides by it, and the canvas keeps the scale in
  [100, 1500].
- `CanvasInteractions.HandlePointDrag` requires the same non-zero scale. It also requires
  the hovered point index to be valid for the selected segment. The hook does not check
  this: it never compares `hoveredPointIndex.segment` with `selectedSegmentIndex`
  (`useCanvasInteractions.ts:66-74`), so a point hovered on a longer segment can be out of
  range. The model leaves out what the source then does:
  - an index equal to the point count appends the snapped point;
  - in that case, a partner with at least one point throws on `originalPoint.x`;
  - an index past the point count leaves a hole, and computing the length throws on it;
  - a negative index sets no element, and a partner with points throws as above.

  No canvas calls this hook: `CableCanvas.tsx` has its own inline point drag (line 417),
  which does check the segment.
- `ToolHandlers.IsOnSelectedSegment` and `ToolHandlers.IsOnSelectedPoint` are modelled but
  not used by the dispatch, as in the source.

## Findings

| source | as written | input that shows it | evidently intended | confidence | as-written member | corrected member |
|---|---|---|---|---|---|---|
| DimensioningUI/src/components/Canvas/hooks/useSegmentOperations.ts:136-145 | the merge sorts the pair [segmentIndex, connectedIndex] descending and splices each index once, so a segment whose `connectedTo` is its own index is spliced twice and the segment after it is lost | split segment 1 of [X, S, Y] into halves F and G (F names 2, G names 1), then delete X: [F(connectedTo 2), G(connectedTo 1), Y]; G is reciprocal with itself, and merging 1 removes G and Y, leaving [F, GG] | remove each of the two indices once, keeping every other segment; the loss is reachable only with the hook wired as declared, since in the shipped canvas (`CableCanvas.tsx:136-143`) `new Map(crossSectionValues)` receives the `saveToHistory` function and throws first | not executed | SegmentOperations.RemovePairAsWrittenSelf | SegmentOperations.MergeSegments |
