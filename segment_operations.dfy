/** Split, merge and delete of cable segments
    (DimensioningUI/src/components/Canvas/hooks/useSegmentOperations.ts).
    Each operation reads the current segment list and cross-section map and
    hands new values to the state setters; an `Update` records what the
    setters receive. The segment list handed to `setSegments` is the one
    saved to history. */
module SegmentOperations {
  import opened Opt
  import opened CanvasTypes
  import opened CanvasGeometry
  import NumberInput

  /** The cross-section map, keyed by connection (`"${a}-${b}"`). */
  type CrossSectionValues = map<ConnectionKey, real>

  /** The values passed to `setSegments` (and `saveToHistory`) and to
      `setCrossSectionValues`; None where that setter is not called. */
  datatype Update = Update(segments: Option<seq<CableSegment>>, crossSectionValues: Option<CrossSectionValues>)

  const NoUpdate: Update := Update(None, None)

  /** A split point closer than this to any existing point is refused. */
  const DuplicateThreshold: real := 5.0

  // ---- removing indices from a list ----

  /** `s.filter((_, index) => !removed.has(index))`. */
  function Without<T>(s: seq<T>, removed: set<int>): (r: seq<T>)
    ensures |r| <= |s|
    decreases |s|
  {
    if |s| == 0 then []
    else Without(s[..|s| - 1], removed) + (if |s| - 1 in removed then [] else [s[|s| - 1]])
  }

  /** The filter keeps exactly the entries whose index is not removed, in
      index order: entry k of the result is entry `Kept[k]` of `s`, where
      `Kept` lists the surviving indices in ascending order. */
  lemma {:induction false} WithoutIsKept<T>(s: seq<T>, removed: set<int>)
    ensures |Without(s, removed)| == |IndicesWhere(|s|, removed, false)|
    ensures forall k | 0 <= k < |Without(s, removed)| ::
              Without(s, removed)[k] == s[IndicesWhere(|s|, removed, false)[k]]
    decreases |s|
  {
    if |s| > 0 {
      var n := |s| - 1;
      WithoutIsKept(s[..n], removed);
      var w, kept := Without(s[..n], removed), IndicesWhere(n, removed, false);
      PrefixLookup(s, w, kept);
      WithoutLast(s, removed);
      IndicesLast(n, removed);
      if n in removed {
        AppendLookup(s, w, kept, [], []);
      } else {
        AppendLookup(s, w, kept, [s[n]], [n]);
      }
    }
  }

  /** Looking up through indices below |s| - 1 reads the same in s and in
      s without its last entry. */
  lemma PrefixLookup<T>(s: seq<T>, w: seq<T>, kept: seq<int>)
    requires |s| > 0 && |w| == |kept|
    requires forall k | 0 <= k < |kept| :: 0 <= kept[k] < |s| - 1
    requires forall k | 0 <= k < |w| :: w[k] == s[..|s| - 1][kept[k]]
    ensures forall k | 0 <= k < |w| :: w[k] == s[kept[k]]
  {
  }

  /** Entries read through indices stay in step when both lists are
      extended. */
  lemma AppendLookup<T>(s: seq<T>, w: seq<T>, kept: seq<int>, x: seq<T>, last: seq<int>)
    requires |w| == |kept| && |x| == |last|
    requires forall k | 0 <= k < |w| :: 0 <= kept[k] < |s| && w[k] == s[kept[k]]
    requires forall k | 0 <= k < |x| :: 0 <= last[k] < |s| && x[k] == s[last[k]]
    ensures |w + x| == |kept + last|
    ensures forall k | 0 <= k < |w + x| :: (w + x)[k] == s[(kept + last)[k]]
  {
  }

  lemma WithoutLast<T>(s: seq<T>, removed: set<int>)
    requires |s| > 0
    ensures Without(s, removed)
            == Without(s[..|s| - 1], removed) + (if |s| - 1 in removed then [] else [s[|s| - 1]])
  {
  }

  lemma IndicesLast(n: nat, removed: set<int>)
    ensures IndicesWhere(n + 1, removed, false)
            == IndicesWhere(n, removed, false) + (if n in removed then [] else [n])
  {
  }

  lemma {:induction false} WithoutNothing<T>(s: seq<T>, removed: set<int>)
    requires forall k | 0 <= k < |s| :: k !in removed
    ensures Without(s, removed) == s
    decreases |s|
  {
    if |s| > 0 {
      WithoutNothing(s[..|s| - 1], removed);
    }
  }

  /** Removing the one index of `s` that is in `removed`. */
  lemma {:induction false} WithoutOnly<T>(s: seq<T>, removed: set<int>, i: int)
    requires 0 <= i < |s| && i in removed
    requires forall k | 0 <= k < |s| && k != i :: k !in removed
    ensures Without(s, removed) == s[..i] + s[i + 1..]
    decreases |s|
  {
    var n := |s| - 1;
    if n == i {
      WithoutNothing(s[..n], removed);
    } else {
      WithoutOnly(s[..n], removed, i);
      assert s[..n][..i] == s[..i];
      assert s[..n][i + 1..] + [s[n]] == s[i + 1..];
    }
  }

  /** Removing the two indices lo < hi of `s` that are in `removed`. */
  lemma {:induction false} WithoutTwo<T>(s: seq<T>, removed: set<int>, lo: int, hi: int)
    requires 0 <= lo < hi < |s| && lo in removed && hi in removed
    requires forall k | 0 <= k < |s| && k != lo && k != hi :: k !in removed
    ensures Without(s, removed) == s[..lo] + s[lo + 1..hi] + s[hi + 1..]
    decreases |s|
  {
    var n := |s| - 1;
    if n == hi {
      WithoutOnly(s[..n], removed, lo);
      assert s[..n][..lo] == s[..lo];
      assert s[..n][lo + 1..] == s[lo + 1..hi];
    } else {
      WithoutTwo(s[..n], removed, lo, hi);
      assert s[..n][..lo] == s[..lo];
      assert s[..n][lo + 1..hi] == s[lo + 1..hi];
      assert s[..n][hi + 1..] + [s[n]] == s[hi + 1..];
    }
  }

  /** `splice(k, 0, x)`. */
  function Insert<T>(s: seq<T>, k: int, x: T): (r: seq<T>)
    requires 0 <= k <= |s|
    ensures |r| == |s| + 1 && r[k] == x
    ensures r[..k] == s[..k] && r[k + 1..] == s[k..]
  {
    s[..k] + [x] + s[k..]
  }

  /** Replacing entry i by the entries of xs: the prefix and suffix stay,
      xs sits at i. */
  lemma SpliceShape<T>(s: seq<T>, i: int, xs: seq<T>)
    requires 0 <= i < |s|
    ensures var r := s[..i] + xs + s[i + 1..];
            |r| == |s| - 1 + |xs| && r[..i] == s[..i] && r[i + |xs|..] == s[i + 1..]
            && forall k | 0 <= k < |xs| :: r[i + k] == xs[k]
  {
    var r := s[..i] + xs + s[i + 1..];
    assert r[i + |xs|..] == s[i + 1..];
  }

  function MinIndex(a: int, b: int): int { if a <= b then a else b }

  function MaxIndex(a: int, b: int): int { if a >= b then a else b }

  /** Remove the entries at i and j, each once, preserving the order of the
      rest: what the merge's removal step is evidently meant to do. */
  function RemovePair<T>(s: seq<T>, i: int, j: int): (r: seq<T>)
    requires 0 <= i < |s| && 0 <= j < |s|
    ensures r == Without(s, {i, j})
    ensures i == j ==> r == s[..i] + s[i + 1..]
    ensures i != j ==> r == s[..MinIndex(i, j)] + s[MinIndex(i, j) + 1..MaxIndex(i, j)] + s[MaxIndex(i, j) + 1..]
  {
    if i == j then
      WithoutOnly(s, {i, j}, i);
      Without(s, {i, j})
    else
      WithoutTwo(s, {i, j}, MinIndex(i, j), MaxIndex(i, j));
      Without(s, {i, j})
  }

  /** `splice(k, 1)` for k >= 0: an index past the end removes nothing. */
  function SpliceOut<T>(s: seq<T>, k: nat): (r: seq<T>)
    ensures k < |s| ==> r == s[..k] + s[k + 1..]
    ensures k >= |s| ==> r == s
  {
    if k < |s| then s[..k] + s[k + 1..] else s
  }

  /** The removal step as written: the pair [i, j] sorted descending, then
      `splice(idx, 1)` for each entry. */
  function RemovePairAsWritten<T>(s: seq<T>, i: nat, j: nat): seq<T> {
    SpliceOut(SpliceOut(s, MaxIndex(i, j)), MinIndex(i, j))
  }

  /** For two distinct indices the written removal does what is intended. */
  lemma RemovePairAsWrittenDistinct<T>(s: seq<T>, i: nat, j: nat)
    requires i < |s| && j < |s| && i != j
    ensures RemovePairAsWritten(s, i, j) == RemovePair(s, i, j)
  {
    var lo, hi := MinIndex(i, j), MaxIndex(i, j);
    var t := SpliceOut(s, hi);
    assert t[..lo] == s[..lo];
    assert t[lo + 1..] == s[lo + 1..hi] + s[hi + 1..];
  }

  /** When a segment's `connectedTo` is its own index, the written removal
      splices that index twice and so also drops the segment after it. */
  lemma RemovePairAsWrittenSelf<T>(s: seq<T>, i: nat)
    requires i + 1 < |s|
    ensures RemovePairAsWritten(s, i, i) == s[..i] + s[i + 2..]
    ensures |RemovePairAsWritten(s, i, i)| == |RemovePair(s, i, i)| - 1
  {
    var t := SpliceOut(s, i);
    assert t[..i] == s[..i];
    assert t[i + 1..] == s[i + 2..];
  }

  // ---- splitSegmentAtPoint ----

  /** `pointExistsAtLocation`'s condition (CanvasGeometry.PointExistsAtLocation). */
  predicate PointTaken(point: Point, segments: seq<CableSegment>, threshold: real) {
    exists i, j :: 0 <= i < |segments| && 0 <= j < |segments[i].points|
                   && Within(point, segments[i].points[j], threshold)
  }

  /** One half of a split: a straight two-point segment that keeps the
      original cross-section and names its partner. */
  function Half(a: Point, b: Point, crossSection: Option<real>, partner: int, scaleValue: real,
                dist: (Point, Point) -> real): (h: CableSegment)
    requires scaleValue != 0.0
    ensures h.points == [a, b] && h.crossSection == crossSection && h.connectedTo == Some(partner)
    ensures h.length == dist(a, b) / scaleValue
  {
    assert [a, b][..1] == [a];
    assert PathLength([a], dist) == 0.0;
    CableSegment([a, b], SegmentLength([a, b], scaleValue, dist), crossSection, None, None, Some(partner))
  }

  /** The point the split actually uses. */
  function SplitPoint(point: Point, scale: string, snapToGrid: bool): Point {
    SnapToGridPoint(point, NumberInput.ParseNumber(scale), snapToGrid)
  }

  /** splitSegmentAtPoint. Reading `segments[segmentIndex].points` of a
      missing segment throws. */
  function SplitSegmentAtPoint(segments: seq<CableSegment>, scale: string, snapToGrid: bool,
                               crossSection: string, values: CrossSectionValues,
                               dist: (Point, Point) -> real, segmentIndex: int, point: Point): (r: Thrown<Update>)
    requires NumberInput.ParseNumber(scale) != 0.0
    ensures r.TypeError? <==> !(0 <= segmentIndex < |segments|)
    ensures r.Returned? ==>
              (r.value.segments.None? <==>
                 |segments[segmentIndex].points| < 2
                 || PointTaken(SplitPoint(point, scale, snapToGrid), segments, DuplicateThreshold))
    ensures r.Returned? && r.value.segments.None? ==> r.value.crossSectionValues.None?
    ensures r.Returned? && r.value.segments.Some? ==>
              var s, old_, p := r.value.segments.value, segments[segmentIndex], SplitPoint(point, scale, snapToGrid);
              |s| == |segments| + 1
              && s[..segmentIndex] == segments[..segmentIndex]
              && s[segmentIndex + 2..] == segments[segmentIndex + 1..]
              && s[segmentIndex].points == [First(old_.points), p]
              && s[segmentIndex + 1].points == [p, Last(old_.points)]
              && s[segmentIndex].crossSection == old_.crossSection == s[segmentIndex + 1].crossSection
              && s[segmentIndex].connectedTo == Some(segmentIndex + 1)
              && s[segmentIndex + 1].connectedTo == Some(segmentIndex)
    ensures r.Returned? && r.value.segments.Some? ==>
              (r.value.crossSectionValues.Some? <==> ConnectionKey(segmentIndex, segmentIndex + 1) !in values)
    ensures r.Returned? && r.value.crossSectionValues.Some? ==>
              var m := r.value.crossSectionValues.value;
              m.Keys == values.Keys + {ConnectionKey(segmentIndex, segmentIndex + 1)}
              && (forall k | k in values :: m[k] == values[k])
              && m[ConnectionKey(segmentIndex, segmentIndex + 1)] == NumberInput.ParseNumber(crossSection)
  {
    if !(0 <= segmentIndex < |segments|) then TypeError
    else
      var segment := segments[segmentIndex];
      if |segment.points| < 2 then Returned(NoUpdate)
      else
        var scaleValue := NumberInput.ParseNumber(scale);
        var startPoint := First(segment.points);
        var endPoint := Last(segment.points);
        var snapped := SnapToGridPoint(point, scaleValue, snapToGrid);
        if PointTaken(snapped, segments, DuplicateThreshold) then Returned(NoUpdate)
        else
          var key := ConnectionKey(segmentIndex, segmentIndex + 1);
          var first := Half(startPoint, snapped, segment.crossSection, segmentIndex + 1, scaleValue, dist);
          var second := Half(snapped, endPoint, segment.crossSection, segmentIndex, scaleValue, dist);
          var newValues := if key in values then None
                           else Some(values[key := NumberInput.ParseNumber(crossSection)]);
          var newSegments := segments[..segmentIndex] + [first, second] + segments[segmentIndex + 1..];
          SpliceShape(segments, segmentIndex, [first, second]);
          Returned(Update(Some(newSegments), newValues))
  }

  // ---- mergeSegments ----

  /** The merged polyline: the shared junction appears once. End-to-start
      is tried first, then start-to-end, and the default joins end to start. */
  function MergedPoints(p1: seq<Point>, p2: seq<Point>): (m: seq<Point>)
    requires |p1| > 0 && |p2| > 0
    ensures |m| == |p1| + |p2| - 1
  {
    if Near(Last(p1), First(p2)) then p1[..|p1| - 1] + p2
    else if Near(First(p1), Last(p2)) then p2[..|p2| - 1] + p1
    else p1[..|p1| - 1] + p2
  }

  /** Where the two polylines really share their junction point, the merged
      polyline is exactly as long as the two together. */
  lemma MergedPathLength(p1: seq<Point>, p2: seq<Point>, dist: (Point, Point) -> real)
    requires |p1| > 0 && |p2| > 0
    ensures Last(p1) == First(p2) ==>
              PathLength(MergedPoints(p1, p2), dist) == PathLength(p1, dist) + PathLength(p2, dist)
    ensures !Near(Last(p1), First(p2)) && First(p1) == Last(p2) ==>
              PathLength(MergedPoints(p1, p2), dist) == PathLength(p1, dist) + PathLength(p2, dist)
  {
    if Last(p1) == First(p2) {
      assert Near(Last(p1), First(p2));
      PathLengthJoin(p1, p2, dist);
    } else if !Near(Last(p1), First(p2)) && First(p1) == Last(p2) {
      assert Near(First(p1), Last(p2));
      PathLengthJoin(p2, p1, dist);
    }
  }

  /** mergeSegments' guards: segment i names a partner in range that names
      i back. */
  predicate Reciprocal(segments: seq<CableSegment>, i: int) {
    0 <= i < |segments| && segments[i].connectedTo.Some?
    && 0 <= segments[i].connectedTo.value < |segments|
    && segments[segments[i].connectedTo.value].connectedTo == Some(i)
  }

  /** `a ?? b` on optional values. */
  function OrElse<T>(a: Option<T>, b: Option<T>): (r: Option<T>)
    ensures a.Some? ==> r == a
    ensures a.None? ==> r == b
  {
    if a.Some? then a else b
  }

  /** mergeSegments, with the removal step corrected (see
      RemovePairAsWrittenSelf). Reading a field of a missing segment or of
      the missing end point of an empty polyline throws. */
  function MergeSegments(segments: seq<CableSegment>, scale: string, values: CrossSectionValues,
                         dist: (Point, Point) -> real, segmentIndex: int): (r: Thrown<Update>)
    requires NumberInput.ParseNumber(scale) != 0.0
    ensures r.TypeError? <==>
              !(0 <= segmentIndex < |segments|)
              || (Reciprocal(segments, segmentIndex)
                  && (|segments[segmentIndex].points| == 0
                      || |segments[segments[segmentIndex].connectedTo.value].points| == 0))
    ensures r.Returned? ==> (r.value.segments.Some? <==> Reciprocal(segments, segmentIndex))
    ensures r.Returned? ==> (r.value.crossSectionValues.Some? <==> r.value.segments.Some?)
    ensures r.Returned? && r.value.segments.Some? ==>
              var i, j := segmentIndex, segments[segmentIndex].connectedTo.value;
              var s, lo := r.value.segments.value, MinIndex(i, j);
              |s| == |segments| - (if i == j then 0 else 1)
              && s[..lo] == segments[..lo]
              && s[lo].points == MergedPoints(segments[i].points, segments[j].points)
              && s[lo].crossSection == OrElse(segments[i].crossSection, segments[j].crossSection)
              && s[lo].connectedTo.None?
              && s[lo + 1..] == RemovePair(segments, i, j)[lo..]
    ensures r.Returned? && r.value.crossSectionValues.Some? ==>
              var key := SortedKey(segmentIndex, segments[segmentIndex].connectedTo.value);
              var m := r.value.crossSectionValues.value;
              m.Keys == values.Keys - {key} && forall k | k in m :: m[k] == values[k]
  {
    if !(0 <= segmentIndex < |segments|) then TypeError
    else if !Reciprocal(segments, segmentIndex) then Returned(NoUpdate)
    else
      var connectedIndex := segments[segmentIndex].connectedTo.value;
      var segment, connectedSegment := segments[segmentIndex], segments[connectedIndex];
      if |segment.points| == 0 || |connectedSegment.points| == 0 then TypeError
      else
        var mergedPoints := MergedPoints(segment.points, connectedSegment.points);
        var merged := CableSegment(mergedPoints,
                                   SegmentLength(mergedPoints, NumberInput.ParseNumber(scale), dist),
                                   OrElse(segment.crossSection, connectedSegment.crossSection),
                                   None, None, None);
        var newValues := values - {SortedKey(segmentIndex, connectedIndex)};
        var rest := RemovePair(segments, segmentIndex, connectedIndex);
        var newSegments := Insert(rest, MinIndex(segmentIndex, connectedIndex), merged);
        Returned(Update(Some(newSegments), Some(newValues)))
  }

  /** Merging two fresh halves at i and i + 1 puts one segment through their
      three points in their place. */
  lemma MergeHalves(t: seq<CableSegment>, scale: string, values: CrossSectionValues, dist: (Point, Point) -> real,
                    i: nat, a: Point, p: Point, b: Point, cs: Option<real>)
    requires NumberInput.ParseNumber(scale) != 0.0
    requires i + 1 < |t|
    requires t[i] == Half(a, p, cs, i + 1, NumberInput.ParseNumber(scale), dist)
    requires t[i + 1] == Half(p, b, cs, i, NumberInput.ParseNumber(scale), dist)
    ensures MergeSegments(t, scale, values, dist, i).Returned?
    ensures MergeSegments(t, scale, values, dist, i).value ==
              Update(Some(t[..i] + [CableSegment([a, p, b], SegmentLength([a, p, b], NumberInput.ParseNumber(scale), dist),
                                                 cs, None, None, None)] + t[i + 2..]),
                     Some(values - {ConnectionKey(i, i + 1)}))
  {
    assert Reciprocal(t, i);
    assert Near(p, p);
    assert MergedPoints(t[i].points, t[i + 1].points) == [a, p, b];
    var rest := RemovePair(t, i, i + 1);
    assert rest == t[..i] + t[i + 2..];
    assert Insert(rest, i, CableSegment([a, p, b], SegmentLength([a, p, b], NumberInput.ParseNumber(scale), dist),
                                        cs, None, None, None))
        == t[..i] + [CableSegment([a, p, b], SegmentLength([a, p, b], NumberInput.ParseNumber(scale), dist),
                                  cs, None, None, None)] + t[i + 2..];
  }

  /** The length through three points is the sum of the two halves' lengths. */
  lemma ThreePointLength(a: Point, p: Point, b: Point, sc: real, dist: (Point, Point) -> real)
    requires sc != 0.0
    ensures SegmentLength([a, p, b], sc, dist) == dist(a, p) / sc + dist(p, b) / sc
  {
    assert [a, p, b][..2] == [a, p];
    assert [a, p][..1] == [a];
    assert PathLength([a], dist) == 0.0;
    assert PathLength([a, p], dist) == dist(a, p);
    assert PathLength([a, p, b], dist) == PathLength([a, p], dist) + dist(p, b);
  }

  /** The list a successful split hands over, spelled out. */
  lemma SplitShape(segments: seq<CableSegment>, scale: string, snapToGrid: bool, crossSection: string,
                   values: CrossSectionValues, dist: (Point, Point) -> real, i: int, point: Point)
    requires NumberInput.ParseNumber(scale) != 0.0
    requires SplitSegmentAtPoint(segments, scale, snapToGrid, crossSection, values, dist, i, point).Returned?
    requires SplitSegmentAtPoint(segments, scale, snapToGrid, crossSection, values, dist, i, point).value.segments.Some?
    ensures 0 <= i < |segments| && |segments[i].points| >= 2
    ensures
      var sc, cs, p := NumberInput.ParseNumber(scale), segments[i].crossSection, SplitPoint(point, scale, snapToGrid);
      SplitSegmentAtPoint(segments, scale, snapToGrid, crossSection, values, dist, i, point).value.segments.value
        == segments[..i] + [Half(First(segments[i].points), p, cs, i + 1, sc, dist),
                            Half(p, Last(segments[i].points), cs, i, sc, dist)] + segments[i + 1..]
  {
  }

  /** Merging the halves of a fresh split restores the segment list with the
      split point kept as an interior point, the length of the merged
      segment is the sum of the halves, and the connection key is gone from
      the map again (so a map that did not hold it comes back unchanged). */
  lemma SplitThenMerge(segments: seq<CableSegment>, scale: string, snapToGrid: bool, crossSection: string,
                       values: CrossSectionValues, dist: (Point, Point) -> real, i: int, point: Point)
    requires NumberInput.ParseNumber(scale) != 0.0
    requires SplitSegmentAtPoint(segments, scale, snapToGrid, crossSection, values, dist, i, point).Returned?
    requires SplitSegmentAtPoint(segments, scale, snapToGrid, crossSection, values, dist, i, point).value.segments.Some?
    ensures
      var split := SplitSegmentAtPoint(segments, scale, snapToGrid, crossSection, values, dist, i, point).value;
      var halves := split.segments.value;
      var values' := split.crossSectionValues.GetOr(values);
      var merge := MergeSegments(halves, scale, values', dist, i);
      var p := SplitPoint(point, scale, snapToGrid);
      merge.Returned? && merge.value.segments.Some?
      && |merge.value.segments.value| == |segments|
      && merge.value.segments.value[..i] == segments[..i]
      && merge.value.segments.value[i + 1..] == segments[i + 1..]
      && merge.value.segments.value[i].points == [First(segments[i].points), p, Last(segments[i].points)]
      && merge.value.segments.value[i].crossSection == segments[i].crossSection
      && merge.value.segments.value[i].length == halves[i].length + halves[i + 1].length
      && merge.value.crossSectionValues == Some(values - {ConnectionKey(i, i + 1)})
      && (ConnectionKey(i, i + 1) !in values ==> merge.value.crossSectionValues == Some(values))
  {
    var split := SplitSegmentAtPoint(segments, scale, snapToGrid, crossSection, values, dist, i, point).value;
    var halves := split.segments.value;
    var values' := split.crossSectionValues.GetOr(values);
    var p := SplitPoint(point, scale, snapToGrid);
    var a, b := First(segments[i].points), Last(segments[i].points);
    var sc := NumberInput.ParseNumber(scale);
    var cs := segments[i].crossSection;
    var h1, h2 := Half(a, p, cs, i + 1, sc, dist), Half(p, b, cs, i, sc, dist);
    SplitShape(segments, scale, snapToGrid, crossSection, values, dist, i, point);
    SpliceShape(segments, i, [h1, h2]);
    MergeHalves(halves, scale, values', dist, i, a, p, b, cs);
    var m := CableSegment([a, p, b], SegmentLength([a, p, b], sc, dist), cs, None, None, None);
    SpliceShape(segments, i, [m]);
    ThreePointLength(a, p, b, sc, dist);
    SplitValuesRestored(segments, scale, snapToGrid, crossSection, values, dist, i, point);
  }

  /** Removing the connection key from the map a successful split hands
      over gives the original map without that key. */
  lemma SplitValuesRestored(segments: seq<CableSegment>, scale: string, snapToGrid: bool, crossSection: string,
                            values: CrossSectionValues, dist: (Point, Point) -> real, i: int, point: Point)
    requires NumberInput.ParseNumber(scale) != 0.0
    requires SplitSegmentAtPoint(segments, scale, snapToGrid, crossSection, values, dist, i, point).Returned?
    requires SplitSegmentAtPoint(segments, scale, snapToGrid, crossSection, values, dist, i, point).value.segments.Some?
    ensures var split := SplitSegmentAtPoint(segments, scale, snapToGrid, crossSection, values, dist, i, point).value;
            split.crossSectionValues.GetOr(values) - {ConnectionKey(i, i + 1)} == values - {ConnectionKey(i, i + 1)}
    ensures ConnectionKey(i, i + 1) !in values ==> values - {ConnectionKey(i, i + 1)} == values
  {
  }

  // ---- deleteSegment ----

  /** deleteSegment: the list without the entry at the index (unchanged for
      an index out of range); the map is not touched. */
  function DeleteSegment(segments: seq<CableSegment>, segmentIndex: int): (r: Update)
    ensures r.crossSectionValues.None? && r.segments.Some?
    ensures 0 <= segmentIndex < |segments| ==>
              r.segments.value == segments[..segmentIndex] + segments[segmentIndex + 1..]
    ensures !(0 <= segmentIndex < |segments|) ==> r.segments.value == segments
  {
    if 0 <= segmentIndex < |segments| then
      WithoutOnly(segments, {segmentIndex}, segmentIndex);
      Update(Some(Without(segments, {segmentIndex})), None)
    else
      WithoutNothing(segments, {segmentIndex});
      Update(Some(Without(segments, {segmentIndex})), None)
  }
}
