/** The canvas's live voltage-drop figure
    (DimensioningUI/src/components/Canvas/hooks/useVoltageDrop.ts): input
    validation, the lengths and sections arrays handed to the engine's chain
    computation, and the engine call. */
module VoltageDropHook {
  import opened Opt
  import opened CanvasTypes
  import opened CanvasGeometry
  import NumberInput
  import CableMath
  import SegmentOperations

  /** The segments the figure covers: the drawn segments, then the drawing
      in progress when it has at least two points and a positive length. The
      appended entry has neither a partner nor its own cross-section. */
  function AllSegments(segments: seq<CableSegment>, currentSegment: seq<Point>, scaleValue: real,
                       dist: (Point, Point) -> real): (r: seq<CableSegment>)
    requires scaleValue > 0.0
    ensures |segments| <= |r| <= |segments| + 1 && r[..|segments|] == segments
    ensures |r| == |segments| + 1 <==>
              |currentSegment| >= 2 && SegmentLength(currentSegment, scaleValue, dist) > 0.0
    ensures |r| == |segments| + 1 ==>
              r[|segments|] == CableSegment(currentSegment, SegmentLength(currentSegment, scaleValue, dist),
                                            None, None, None, None)
  {
    if |currentSegment| >= 2 && SegmentLength(currentSegment, scaleValue, dist) > 0.0 then
      segments + [CableSegment(currentSegment, SegmentLength(currentSegment, scaleValue, dist), None, None, None, None)]
    else segments
  }

  /** The cross-section used for the segment at `index`: the value stored
      under its connection key when it has a partner and the key is present,
      else its own cross-section, else the default. */
  function SectionOf(seg: CableSegment, index: int, values: SegmentOperations.CrossSectionValues,
                     defaultSection: real): (r: real)
    ensures seg.connectedTo.Some? && SortedKey(index, seg.connectedTo.value) in values ==>
              r == values[SortedKey(index, seg.connectedTo.value)]
    ensures seg.connectedTo.None? || SortedKey(index, seg.connectedTo.value) !in values ==>
              r == seg.crossSection.GetOr(defaultSection)
  {
    if seg.connectedTo.Some? && SortedKey(index, seg.connectedTo.value) in values then
      values[SortedKey(index, seg.connectedTo.value)]
    else seg.crossSection.GetOr(defaultSection)
  }

  /** The lengths array: segment lengths in order. */
  function Lengths(all: seq<CableSegment>): (r: seq<real>)
    ensures |r| == |all|
    ensures forall k | 0 <= k < |all| :: r[k] == all[k].length
  {
    seq(|all|, k requires 0 <= k < |all| => all[k].length)
  }

  /** The sections array: one cross-section per segment, in order. */
  function Sections(all: seq<CableSegment>, values: SegmentOperations.CrossSectionValues,
                    defaultSection: real): (r: seq<real>)
    ensures |r| == |all|
    ensures forall k | 0 <= k < |all| :: r[k] == SectionOf(all[k], k, values, defaultSection)
  {
    seq(|all|, k requires 0 <= k < |all| => SectionOf(all[k], k, values, defaultSection))
  }

  /** A fresh array holding the values in order (the Float64Array copy). */
  method ToFloat64Array(values: seq<real>) returns (a: array<real>)
    ensures fresh(a) && a[..] == values
  {
    a := new real[|values|];
    var i := 0;
    while i < |values|
      invariant 0 <= i <= |values|
      invariant a[..i] == values[..i]
    {
      a[i] := values[i];
      i := i + 1;
    }
  }

  /** The guard of calculateVoltageDrop: an engine, and positive current,
      resistivity, default cross-section and scale. */
  predicate InputsUsable(engineLoaded: bool, current: string, resistivity: string, crossSection: string, scale: string) {
    engineLoaded
    && NumberInput.ParseNumber(current) > 0.0 && NumberInput.ParseNumber(resistivity) > 0.0
    && NumberInput.ParseNumber(crossSection) > 0.0 && NumberInput.ParseNumber(scale) > 0.0
  }

  /** calculateVoltageDrop. Null without an engine, with a non-positive
      input or with nothing to measure; otherwise the engine's chain
      computation over the assembled arrays, or -1 when the engine call
      fails (`engineFails` stands for a rejected call). */
  method CalculateVoltageDrop(engineLoaded: bool, segments: seq<CableSegment>, currentSegment: seq<Point>,
                              current: string, resistivity: string, crossSection: string, scale: string,
                              crossSectionValues: SegmentOperations.CrossSectionValues,
                              dist: (Point, Point) -> real, engineFails: bool)
    returns (r: Option<real>)
    ensures !InputsUsable(engineLoaded, current, resistivity, crossSection, scale) ==> r.None?
    ensures InputsUsable(engineLoaded, current, resistivity, crossSection, scale) ==>
              var all := AllSegments(segments, currentSegment, NumberInput.ParseNumber(scale), dist);
              (r.None? <==> |all| == 0)
              && (r.Some? && engineFails ==> r.value == CableMath.Invalid)
              && (r.Some? && !engineFails ==>
                    r.value == CableMath.ChainSum(NumberInput.ParseNumber(current), NumberInput.ParseNumber(resistivity),
                                                  Lengths(all),
                                                  Sections(all, crossSectionValues, NumberInput.ParseNumber(crossSection))))
  {
    if !engineLoaded {
      return None;
    }
    var currentValue := NumberInput.ParseNumber(current);
    var resistivityValue := NumberInput.ParseNumber(resistivity);
    var crossSectionValue := NumberInput.ParseNumber(crossSection);
    var scaleValue := NumberInput.ParseNumber(scale);
    if currentValue <= 0.0 || resistivityValue <= 0.0 || crossSectionValue <= 0.0 || scaleValue <= 0.0 {
      return None;
    }
    var allSegments := segments;
    if |currentSegment| >= 2 {
      var currentLength := CalculateSegmentLength(currentSegment, scaleValue, dist);
      if currentLength > 0.0 {
        allSegments := allSegments + [CableSegment(currentSegment, currentLength, None, None, None, None)];
      }
    }
    assert allSegments == AllSegments(segments, currentSegment, scaleValue, dist);
    if |allSegments| == 0 {
      return None;
    }
    var lengths := Lengths(allSegments);
    var sections := Sections(allSegments, crossSectionValues, crossSectionValue);
    var lengthsArray := ToFloat64Array(lengths);
    var sectionsArray := ToFloat64Array(sections);
    if engineFails {
      return Some(CableMath.Invalid);
    }
    var voltageDrop := CableMath.VoltageDropChain(currentValue, resistivityValue, lengthsArray, sectionsArray,
                                                  |allSegments|);
    assert lengthsArray[..|allSegments|] == lengthsArray[..];
    assert sectionsArray[..|allSegments|] == sectionsArray[..];
    return Some(voltageDrop);
  }

  /** Every section handed to the engine is positive when the stored
      connection values and the segments' own cross-sections are. */
  lemma SectionsPositive(all: seq<CableSegment>, values: SegmentOperations.CrossSectionValues, defaultSection: real)
    requires defaultSection > 0.0
    requires forall key | key in values :: values[key] > 0.0
    requires forall s | s in all && s.crossSection.Some? :: s.crossSection.value > 0.0
    ensures forall k | 0 <= k < |all| :: Sections(all, values, defaultSection)[k] > 0.0
  {
    forall k | 0 <= k < |all|
      ensures Sections(all, values, defaultSection)[k] > 0.0
    {
      assert all[k] in all;
    }
  }

  /** The drawing in progress, when appended, keeps the properties of the
      drawn segments: a non-negative length and no non-positive
      cross-section of its own. */
  lemma AllSegmentsWellFormed(segments: seq<CableSegment>, currentSegment: seq<Point>, scaleValue: real,
                              dist: (Point, Point) -> real)
    requires scaleValue > 0.0
    requires forall s | s in segments :: s.length >= 0.0 && (s.crossSection.Some? ==> s.crossSection.value > 0.0)
    ensures var all := AllSegments(segments, currentSegment, scaleValue, dist);
            forall s | s in all :: s.length >= 0.0 && (s.crossSection.Some? ==> s.crossSection.value > 0.0)
  {
    var all := AllSegments(segments, currentSegment, scaleValue, dist);
    forall s | s in all
      ensures s.length >= 0.0 && (s.crossSection.Some? ==> s.crossSection.value > 0.0)
    {
      var k :| 0 <= k < |all| && all[k] == s;
      if k < |segments| {
        assert all[k] == all[..|segments|][k];
        assert s in segments;
      }
    }
  }

  /** With positive stored values and cross-sections and non-negative
      lengths, no term of the chain is the sentinel: the figure is the
      weighted length times twice the current and resistivity, and it is not
      negative. */
  lemma FigureHasNoSentinelTerms(segments: seq<CableSegment>, currentSegment: seq<Point>,
                                 currentA: real, resistivity: real, defaultSection: real, scaleValue: real,
                                 values: SegmentOperations.CrossSectionValues, dist: (Point, Point) -> real)
    requires currentA > 0.0 && resistivity > 0.0 && defaultSection > 0.0 && scaleValue > 0.0
    requires forall key | key in values :: values[key] > 0.0
    requires forall s | s in segments :: s.length >= 0.0 && (s.crossSection.Some? ==> s.crossSection.value > 0.0)
    ensures var all := AllSegments(segments, currentSegment, scaleValue, dist);
            var lengths, sections := Lengths(all), Sections(all, values, defaultSection);
            CableMath.ChainSum(currentA, resistivity, lengths, sections)
              == 2.0 * currentA * resistivity * CableMath.WeightedLength(lengths, sections)
            && CableMath.ChainSum(currentA, resistivity, lengths, sections) >= 0.0
  {
    var all := AllSegments(segments, currentSegment, scaleValue, dist);
    var lengths, sections := Lengths(all), Sections(all, values, defaultSection);
    AllSegmentsWellFormed(segments, currentSegment, scaleValue, dist);
    SectionsPositive(all, values, defaultSection);
    forall k | 0 <= k < |all|
      ensures lengths[k] >= 0.0
    {
      assert all[k] in all;
    }
    CableMath.ChainSumValid(currentA, resistivity, lengths, sections);
    CableMath.ChainSumNonNegative(currentA, resistivity, lengths, sections);
  }
}
