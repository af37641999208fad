/** Editing the cross-section in the segment properties popover
    (DimensioningUI/src/components/Canvas/components/SegmentPropertiesPopover.helpers.ts):
    which typed values are complete, the clamp to the allowed range, and the
    update handed to the canvas. */
module PopoverHelpers {
  import opened Opt
  import opened CanvasTypes
  import CableCanvas
  import NumberInput

  type PopoverData = CableCanvas.SegmentPopover

  /** isCompleteValue: everything except the values met while typing the
      first characters of a number. */
  function IsCompleteValue(value: string): (r: bool)
    ensures !r <==> value == "" || value == "." || value == "," || value == "-"
  {
    value !in {"", ".", ",", "-"}
  }

  /** Every incomplete value is an input the popover accepts, and it reads
      as 0. */
  lemma IncompleteValuesAccepted(value: string)
    requires !IsCompleteValue(value)
    ensures NumberInput.IsValidNumberInput(value)
    ensures NumberInput.ParseNumber(value) == 0.0
  {
    if value != "" {
      var n := NumberInput.Decompose(value, NumberInput.Separators);
      assert n.whole == "" && n.fraction == "";
    }
  }

  /** clampCrossSection: the value limited to [1.5, 35] mm². */
  function ClampCrossSection(value: real): (r: real)
    ensures CrossSectionMin <= r <= CrossSectionMax
    ensures CrossSectionMin <= value <= CrossSectionMax ==> r == value
    ensures value < CrossSectionMin ==> r == CrossSectionMin
    ensures value > CrossSectionMax ==> r == CrossSectionMax
  {
    var upper := if CrossSectionMax < value then CrossSectionMax else value;
    if CrossSectionMin > upper then CrossSectionMin else upper
  }

  lemma ClampIdempotent(value: real)
    ensures ClampCrossSection(ClampCrossSection(value)) == ClampCrossSection(value)
  {
  }

  lemma ClampMonotone(a: real, b: real)
    requires a <= b
    ensures ClampCrossSection(a) <= ClampCrossSection(b)
  {
  }

  /** The call applySegmentUpdate makes to the canvas's segment update. */
  datatype SegmentUpdate = SegmentUpdate(segmentIndex: int, crossSection: real, isCopper: bool,
                                         temperature: TemperaturePreset)

  /** applySegmentUpdate: the popover's value when it reads as a positive
      number, else the segment's current cross-section if given, else the
      default 2.5; always clamped, and sent with the popover's segment,
      material and temperature. */
  function ApplySegmentUpdate(popover: PopoverData, currentCrossSection: Option<real>): (u: SegmentUpdate)
    ensures u.segmentIndex == popover.segmentIndex
    ensures u.isCopper == popover.isCopper && u.temperature == popover.temperature
    ensures CrossSectionMin <= u.crossSection <= CrossSectionMax
    ensures NumberInput.ParseNumber(popover.crossSection) > 0.0 ==>
              u.crossSection == ClampCrossSection(NumberInput.ParseNumber(popover.crossSection))
    ensures NumberInput.ParseNumber(popover.crossSection) <= 0.0 ==>
              u.crossSection == ClampCrossSection(currentCrossSection.GetOr(DefaultCrossSection))
  {
    var numValue := NumberInput.ParseNumber(popover.crossSection);
    var crossSectionToUse := if numValue > 0.0 then numValue else currentCrossSection.GetOr(DefaultCrossSection);
    var clampedValue := ClampCrossSection(crossSectionToUse);
    SegmentUpdate(popover.segmentIndex, clampedValue, popover.isCopper, popover.temperature)
  }

  /** What handleCrossSectionChange does: the popover it stores (if it calls
      the setter) and the segment update it sends (if any). */
  datatype CrossSectionChange = CrossSectionChange(storedPopover: Option<PopoverData>, update: Option<SegmentUpdate>)

  /** handleCrossSectionChange: nothing without a popover or for an input
      the grammar rejects; otherwise the popover takes the typed text, and a
      complete value is applied at once (without a current cross-section,
      so the fallback is the default). */
  function HandleCrossSectionChange(value: string, popover: Option<PopoverData>): (r: CrossSectionChange)
    ensures popover.None? || !NumberInput.IsValidNumberInput(value) ==> r == CrossSectionChange(None, None)
    ensures popover.Some? && NumberInput.IsValidNumberInput(value) ==>
              r.storedPopover == Some(popover.value.(crossSection := value))
    ensures r.update.Some? <==> popover.Some? && NumberInput.IsValidNumberInput(value) && IsCompleteValue(value)
    ensures r.update.Some? ==>
              r.update.value.segmentIndex == popover.value.segmentIndex
              && CrossSectionMin <= r.update.value.crossSection <= CrossSectionMax
  {
    if popover.None? || !NumberInput.IsValidNumberInput(value) then CrossSectionChange(None, None)
    else
      var updatedPopover := popover.value.(crossSection := value);
      if IsCompleteValue(value) then CrossSectionChange(Some(updatedPopover), Some(ApplySegmentUpdate(updatedPopover, None)))
      else CrossSectionChange(Some(updatedPopover), None)
  }

  /** A complete accepted value with a digit whose decimal reading is
      positive updates the segment to that reading, clamped. */
  lemma TypedValueApplied(value: string, popover: PopoverData)
    requires NumberInput.IsValidNumberInput(value) && NumberInput.HasDigit(value)
    requires NumberInput.NumeralValue(NumberInput.Decompose(value, NumberInput.Separators)) > 0.0
    ensures HandleCrossSectionChange(value, Some(popover)).update
            == Some(SegmentUpdate(popover.segmentIndex,
                                  ClampCrossSection(NumberInput.NumeralValue(NumberInput.Decompose(value, NumberInput.Separators))),
                                  popover.isCopper, popover.temperature))
  {
    NumberInput.ParseAcceptedWithDigit(value);
    var i :| 0 <= i < |value| && NumberInput.IsDigit(value[i]);
    NumberInput.DigitNotDegenerate(value, i);
    CompleteValueSent(value, popover);
  }

  /** A complete accepted value is applied to the popover's segment at once. */
  lemma CompleteValueSent(value: string, popover: PopoverData)
    requires NumberInput.IsValidNumberInput(value) && IsCompleteValue(value)
    ensures HandleCrossSectionChange(value, Some(popover)).update
            == Some(ApplySegmentUpdate(popover.(crossSection := value), None))
  {
  }

  /** The complete accepted values without a digit ("-." and "-,") read as
      0, so they set the segment to the default cross-section. */
  lemma DigitlessValueFallsBack(value: string, popover: PopoverData)
    requires NumberInput.IsValidNumberInput(value) && !NumberInput.HasDigit(value) && IsCompleteValue(value)
    ensures HandleCrossSectionChange(value, Some(popover)).update
            == Some(SegmentUpdate(popover.segmentIndex, DefaultCrossSection, popover.isCopper, popover.temperature))
  {
    NumberInput.ParseAcceptedWithoutDigit(value);
  }
}
