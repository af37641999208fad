/** The calculation engine (emsdk/cable_dimensioning.c): closed-form cable
    formulas over real numbers. Invalid input is signalled, as in the engine,
    by the sentinel value -1. */
module CableMath {

  // ---- Material constants ----

  const TempCoeffCopper: real := 0.00393
  const TempCoeffAluminium: real := 0.00403
  const RhoCopper20: real := 0.017241     // ohm mm^2 / m at 20 degrees C
  const RhoAluminium20: real := 0.028265  // ohm mm^2 / m at 20 degrees C

  /** The value `sqrt(3.0)` yields in IEEE double precision (correctly rounded).
      Only `Sqrt3 > 0` is needed by the formulas below; SqrtThreeIsSquareRoot
      shows how close its square is to 3. */
  const Sqrt3: real := 1.7320508075688772

  /** The sentinel every guarded formula returns on invalid input. */
  const Invalid: real := -1.0

  /** Standard conductor cross-sections in mm^2, in ascending order. */
  const StandardSizes: seq<real> :=
    [1.5, 2.5, 4.0, 6.0, 10.0, 16.0, 25.0, 35.0, 50.0, 70.0, 95.0, 120.0, 150.0, 185.0, 240.0]

  const LargestStandardSize: real := 240.0

  ghost predicate StrictlyIncreasing(t: seq<real>) {
    forall i, j | 0 <= i < j < |t| :: t[i] < t[j]
  }

  lemma StandardSizesShape()
    ensures |StandardSizes| == 15
    ensures StrictlyIncreasing(StandardSizes)
    ensures StandardSizes[|StandardSizes| - 1] == LargestStandardSize
  {
  }

  lemma SqrtThreeIsSquareRoot()
    ensures Sqrt3 > 0.0
    ensures 3.0 - 0.000000000000001 < Sqrt3 * Sqrt3 < 3.0 + 0.000000000000001
  {
  }

  // ---- Material properties ----

  function BaseResistivity(isCopper: bool): real {
    if isCopper then RhoCopper20 else RhoAluminium20
  }

  function TempCoefficient(isCopper: bool): real {
    if isCopper then TempCoeffCopper else TempCoeffAluminium
  }

  /** Resistivity corrected linearly for the conductor temperature. */
  function GetResistivity(isCopper: bool, temperatureC: real): (r: real)
    ensures temperatureC == 20.0 ==> r == BaseResistivity(isCopper)
    ensures temperatureC > 20.0 ==> r > BaseResistivity(isCopper)
    ensures temperatureC < 20.0 ==> r < BaseResistivity(isCopper)
  {
    var rho := BaseResistivity(isCopper);
    var alpha := TempCoefficient(isCopper);
    rho * (1.0 + alpha * (temperatureC - 20.0))
  }

  /** For each material, resistivity strictly increases with temperature. */
  lemma ResistivityStrictlyIncreasing(isCopper: bool, t1: real, t2: real)
    requires t1 < t2
    ensures GetResistivity(isCopper, t1) < GetResistivity(isCopper, t2)
  {
  }

  // ---- Voltage drop ----

  /** Single-phase drop: the conductor is traversed twice (out and back). */
  function VoltageDropSingle(currentA: real, lengthM: real, resistivity: real, crossSection: real): (r: real)
    ensures crossSection <= 0.0 ==> r == Invalid
    ensures crossSection > 0.0 ==> r * crossSection == 2.0 * currentA * lengthM * resistivity
  {
    if crossSection <= 0.0 then Invalid
    else currentA * 2.0 * lengthM * resistivity / crossSection
  }

  /** Three-phase drop. */
  function VoltageDropThree(currentA: real, lengthM: real, resistivity: real, crossSection: real): (r: real)
    ensures crossSection <= 0.0 ==> r == Invalid
    ensures crossSection > 0.0 ==> r * crossSection == Sqrt3 * currentA * lengthM * resistivity
  {
    if crossSection <= 0.0 then Invalid
    else Sqrt3 * currentA * lengthM * resistivity / crossSection
  }

  /** The sentinel is also a legitimate value of the formula: a caller cannot
      tell the error apart from a drop of exactly -1 V. */
  lemma SentinelIsAmbiguous()
    ensures VoltageDropSingle(-1.0, 0.5, 1.0, 1.0) == Invalid
  {
  }

  /** Specification of the chain: the single-phase drops of the segments
      summed in order, each with the shared current and resistivity. A
      segment with a non-positive cross-section contributes the sentinel. */
  function ChainSum(currentA: real, resistivity: real, lengths: seq<real>, sections: seq<real>): real
    requires |lengths| == |sections|
    decreases |lengths|
  {
    if |lengths| == 0 then 0.0
    else
      var n := |lengths| - 1;
      ChainSum(currentA, resistivity, lengths[..n], sections[..n])
        + VoltageDropSingle(currentA, lengths[n], resistivity, sections[n])
  }

  /** voltage_drop_chain: null arrays and a non-positive count give the
      sentinel; otherwise the loop accumulates the first `count` drops. The
      caller must supply at least `count` elements in each array. */
  method VoltageDropChain(currentA: real, resistivity: real, lengths: array?<real>, sections: array?<real>, count: int)
    returns (total: real)
    requires lengths != null && sections != null && count > 0 ==>
               count <= lengths.Length && count <= sections.Length
    ensures lengths == null || sections == null || count <= 0 ==> total == Invalid
    ensures lengths != null && sections != null && count > 0 ==>
              total == ChainSum(currentA, resistivity, lengths[..count], sections[..count])
  {
    if lengths == null || sections == null || count <= 0 {
      return Invalid;
    }
    total := 0.0;
    var i := 0;
    while i < count
      invariant 0 <= i <= count
      invariant total == ChainSum(currentA, resistivity, lengths[..i], sections[..i])
    {
      assert lengths[..i + 1][..i] == lengths[..i];
      assert sections[..i + 1][..i] == sections[..i];
      total := total + VoltageDropSingle(currentA, lengths[i], resistivity, sections[i]);
      i := i + 1;
    }
  }

  /** Sum of length / cross-section over the segments. */
  function WeightedLength(lengths: seq<real>, sections: seq<real>): real
    requires |lengths| == |sections|
    requires forall k | 0 <= k < |sections| :: sections[k] > 0.0
    decreases |lengths|
  {
    if |lengths| == 0 then 0.0
    else
      var n := |lengths| - 1;
      WeightedLength(lengths[..n], sections[..n]) + lengths[n] / sections[n]
  }

  /** With valid cross-sections the chain is the single-phase formula applied
      to the total weighted length. */
  lemma {:induction false} ChainSumValid(currentA: real, resistivity: real, lengths: seq<real>, sections: seq<real>)
    requires |lengths| == |sections|
    requires forall k | 0 <= k < |sections| :: sections[k] > 0.0
    ensures ChainSum(currentA, resistivity, lengths, sections)
              == 2.0 * currentA * resistivity * WeightedLength(lengths, sections)
  {
    if |lengths| > 0 {
      var n := |lengths| - 1;
      ChainSumValid(currentA, resistivity, lengths[..n], sections[..n]);
      var s := sections[n];
      var d := VoltageDropSingle(currentA, lengths[n], resistivity, s);
      assert d * s == (2.0 * currentA * resistivity * (lengths[n] / s)) * s;
      assert d == 2.0 * currentA * resistivity * (lengths[n] / s);
    }
  }

  /** A chain of bad cross-sections is not reported as an error: every
      segment silently adds the sentinel to the total. */
  lemma {:induction false} ChainSumAllInvalid(currentA: real, resistivity: real, lengths: seq<real>, sections: seq<real>)
    requires |lengths| == |sections|
    requires forall k | 0 <= k < |sections| :: sections[k] <= 0.0
    ensures ChainSum(currentA, resistivity, lengths, sections) == -(|lengths| as real)
  {
    if |lengths| > 0 {
      var n := |lengths| - 1;
      ChainSumAllInvalid(currentA, resistivity, lengths[..n], sections[..n]);
    }
  }

  /** The chain of two consecutive runs is the sum of their chains. */
  lemma {:induction false} ChainSumConcat(currentA: real, resistivity: real,
                                         l1: seq<real>, s1: seq<real>, l2: seq<real>, s2: seq<real>)
    requires |l1| == |s1| && |l2| == |s2|
    ensures ChainSum(currentA, resistivity, l1 + l2, s1 + s2)
              == ChainSum(currentA, resistivity, l1, s1) + ChainSum(currentA, resistivity, l2, s2)
    decreases |l2|
  {
    if |l2| == 0 {
      assert l1 + l2 == l1 && s1 + s2 == s1;
    } else {
      var n := |l2| - 1;
      var m := |l1 + l2| - 1;
      assert (l1 + l2)[..m] == l1 + l2[..n];
      assert (s1 + s2)[..m] == s1 + s2[..n];
      ChainSumConcat(currentA, resistivity, l1, s1, l2[..n], s2[..n]);
    }
  }

  /** Non-negative inputs with valid cross-sections give a non-negative drop. */
  lemma {:induction false} ChainSumNonNegative(currentA: real, resistivity: real, lengths: seq<real>, sections: seq<real>)
    requires |lengths| == |sections|
    requires currentA >= 0.0 && resistivity >= 0.0
    requires forall k | 0 <= k < |sections| :: sections[k] > 0.0 && lengths[k] >= 0.0
    ensures ChainSum(currentA, resistivity, lengths, sections) >= 0.0
  {
    if |lengths| > 0 {
      var n := |lengths| - 1;
      ChainSumNonNegative(currentA, resistivity, lengths[..n], sections[..n]);
      var d := VoltageDropSingle(currentA, lengths[n], resistivity, sections[n]);
      assert currentA * lengths[n] >= 0.0;
      assert 2.0 * currentA * lengths[n] * resistivity >= 0.0;
      assert d * sections[n] >= 0.0;
    }
  }

  // ---- Sizing ----

  /** Required cross-section so that the single-phase drop is `maxDropV`. */
  function CrossSectionSingle(currentA: real, lengthM: real, resistivity: real, maxDropV: real): (r: real)
    ensures maxDropV <= 0.0 ==> r == Invalid
    ensures maxDropV > 0.0 ==> r * maxDropV == 2.0 * currentA * lengthM * resistivity
  {
    if maxDropV <= 0.0 then Invalid
    else (2.0 * lengthM * resistivity * currentA) / maxDropV
  }

  /** Required cross-section so that the three-phase drop is `maxDropV`. */
  function CrossSectionThree(currentA: real, lengthM: real, resistivity: real, maxDropV: real): (r: real)
    ensures maxDropV <= 0.0 ==> r == Invalid
    ensures maxDropV > 0.0 ==> r * maxDropV == Sqrt3 * currentA * lengthM * resistivity
  {
    if maxDropV <= 0.0 then Invalid
    else (Sqrt3 * lengthM * resistivity * currentA) / maxDropV
  }

  /** x * a == k == y * a with a != 0 gives x == y. */
  lemma CancelFactor(x: real, y: real, a: real)
    requires a != 0.0 && x * a == y * a
    ensures x == y
  {
    assert (x - y) * a == 0.0;
  }

  /** Sizing for a drop and then computing the drop of that size gives the
      drop back (single phase). */
  lemma SingleSizeThenDrop(currentA: real, lengthM: real, resistivity: real, maxDropV: real)
    requires maxDropV > 0.0
    requires currentA * lengthM * resistivity > 0.0
    ensures CrossSectionSingle(currentA, lengthM, resistivity, maxDropV) > 0.0
    ensures VoltageDropSingle(currentA, lengthM, resistivity,
              CrossSectionSingle(currentA, lengthM, resistivity, maxDropV)) == maxDropV
  {
    var k := 2.0 * currentA * lengthM * resistivity;
    var s := CrossSectionSingle(currentA, lengthM, resistivity, maxDropV);
    assert s * maxDropV == k;
    PositiveQuotient(s, maxDropV, k);
    var d := VoltageDropSingle(currentA, lengthM, resistivity, s);
    assert d * s == k;
    CancelFactor(d, maxDropV, s);
  }

  /** Computing the drop of a size and then sizing for that drop gives the
      size back (single phase). */
  lemma SingleDropThenSize(currentA: real, lengthM: real, resistivity: real, crossSection: real)
    requires crossSection > 0.0
    requires currentA * lengthM * resistivity > 0.0
    ensures VoltageDropSingle(currentA, lengthM, resistivity, crossSection) > 0.0
    ensures CrossSectionSingle(currentA, lengthM, resistivity,
              VoltageDropSingle(currentA, lengthM, resistivity, crossSection)) == crossSection
  {
    var k := 2.0 * currentA * lengthM * resistivity;
    var d := VoltageDropSingle(currentA, lengthM, resistivity, crossSection);
    assert d * crossSection == k;
    PositiveQuotient(d, crossSection, k);
    var s := CrossSectionSingle(currentA, lengthM, resistivity, d);
    assert s * d == k;
    CancelFactor(s, crossSection, d);
  }

  /** The three-phase pair is inverse in the same way. */
  lemma ThreeSizeThenDrop(currentA: real, lengthM: real, resistivity: real, maxDropV: real)
    requires maxDropV > 0.0
    requires currentA * lengthM * resistivity > 0.0
    ensures CrossSectionThree(currentA, lengthM, resistivity, maxDropV) > 0.0
    ensures VoltageDropThree(currentA, lengthM, resistivity,
              CrossSectionThree(currentA, lengthM, resistivity, maxDropV)) == maxDropV
  {
    var k := Sqrt3 * currentA * lengthM * resistivity;
    assert k == Sqrt3 * (currentA * lengthM * resistivity);
    var s := CrossSectionThree(currentA, lengthM, resistivity, maxDropV);
    assert s * maxDropV == k;
    PositiveQuotient(s, maxDropV, k);
    var d := VoltageDropThree(currentA, lengthM, resistivity, s);
    assert d * s == k;
    CancelFactor(d, maxDropV, s);
  }

  lemma ThreeDropThenSize(currentA: real, lengthM: real, resistivity: real, crossSection: real)
    requires crossSection > 0.0
    requires currentA * lengthM * resistivity > 0.0
    ensures VoltageDropThree(currentA, lengthM, resistivity, crossSection) > 0.0
    ensures CrossSectionThree(currentA, lengthM, resistivity,
              VoltageDropThree(currentA, lengthM, resistivity, crossSection)) == crossSection
  {
    var k := Sqrt3 * currentA * lengthM * resistivity;
    assert k == Sqrt3 * (currentA * lengthM * resistivity);
    var d := VoltageDropThree(currentA, lengthM, resistivity, crossSection);
    assert d * crossSection == k;
    PositiveQuotient(d, crossSection, k);
    var s := CrossSectionThree(currentA, lengthM, resistivity, d);
    assert s * d == k;
    CancelFactor(s, crossSection, d);
  }

  /** q * b == k with b, k positive forces q positive. */
  lemma PositiveQuotient(q: real, b: real, k: real)
    requires b > 0.0 && k > 0.0 && q * b == k
    ensures q > 0.0
  {
  }

  // ---- Power loss ----

  /** Loss I^2 R with R = 2 L rho / S: the current times the single-phase drop. */
  function PowerLoss(currentA: real, lengthM: real, resistivity: real, crossSection: real): (r: real)
    ensures crossSection <= 0.0 ==> r == Invalid
    ensures crossSection > 0.0 ==> r == currentA * VoltageDropSingle(currentA, lengthM, resistivity, crossSection)
  {
    if crossSection <= 0.0 then Invalid
    else
      var resistance := (2.0 * lengthM * resistivity) / crossSection;
      currentA * currentA * resistance
  }

  // ---- Derating ----

  /** apply_derating: a non-positive factor is replaced by 1 (no derating). */
  method ApplyDerating(baseCurrent: real, kTemp: real, kGroup: real) returns (r: real)
    ensures kTemp > 0.0 && kGroup > 0.0 ==> r == baseCurrent * kTemp * kGroup
    ensures kTemp <= 0.0 && kGroup > 0.0 ==> r == baseCurrent * kGroup
    ensures kTemp > 0.0 && kGroup <= 0.0 ==> r == baseCurrent * kTemp
    ensures kTemp <= 0.0 && kGroup <= 0.0 ==> r == baseCurrent
  {
    var kt, kg := kTemp, kGroup;
    if kt <= 0.0 { kt := 1.0; }
    if kg <= 0.0 { kg := 1.0; }
    r := baseCurrent * kt * kg;
  }

  // ---- Standard size rounding ----

  /** The first entry of `table` that is at least `x`, or `x` itself when
      there is none. */
  function FirstAtLeast(table: seq<real>, x: real): real
    decreases |table|
  {
    if |table| == 0 then x
    else if table[0] >= x then table[0]
    else FirstAtLeast(table[1..], x)
  }

  /** In a strictly increasing table the first entry at least `x` is the least
      such entry; past the last entry the request comes back unchanged. */
  lemma {:induction false} FirstAtLeastIsCeiling(table: seq<real>, x: real)
    requires StrictlyIncreasing(table)
    ensures FirstAtLeast(table, x) >= x
    ensures |table| > 0 && x <= table[|table| - 1] ==>
              FirstAtLeast(table, x) in table
              && forall e | e in table && e >= x :: FirstAtLeast(table, x) <= e
    ensures |table| == 0 || x > table[|table| - 1] ==> FirstAtLeast(table, x) == x
    decreases |table|
  {
    if |table| > 0 && table[0] < x {
      var rest := table[1..];
      FirstAtLeastIsCeiling(rest, x);
      forall e | e in table && e >= x
        ensures e in rest
      {
        var k :| 0 <= k < |table| && table[k] == e;
        assert k != 0;
        assert rest[k - 1] == e;
      }
    }
  }

  /** Rounding an already rounded value changes nothing. */
  lemma {:induction false} FirstAtLeastIdempotent(table: seq<real>, x: real)
    requires StrictlyIncreasing(table)
    ensures FirstAtLeast(table, FirstAtLeast(table, x)) == FirstAtLeast(table, x)
    decreases |table|
  {
    if |table| > 0 && table[0] < x {
      FirstAtLeastIdempotent(table[1..], x);
      FirstAtLeastIsCeiling(table[1..], x);
      assert FirstAtLeast(table, x) == FirstAtLeast(table[1..], x);
    }
  }

  /** round_to_standard: scan the table and return the first size at least
      `requested`; past the largest size the request is returned as is. */
  method RoundToStandard(requested: real) returns (r: real)
    ensures r == FirstAtLeast(StandardSizes, requested)
  {
    var i := 0;
    while i < |StandardSizes|
      invariant 0 <= i <= |StandardSizes|
      invariant FirstAtLeast(StandardSizes[i..], requested) == FirstAtLeast(StandardSizes, requested)
    {
      assert StandardSizes[i..][1..] == StandardSizes[i + 1..];
      if StandardSizes[i] >= requested {
        return StandardSizes[i];
      }
      i := i + 1;
    }
    assert StandardSizes[i..] == [];
    r := requested;
  }

  /** What round_to_standard promises, stated on its specification. */
  lemma RoundToStandardSpec(requested: real)
    ensures FirstAtLeast(StandardSizes, requested) >= requested
    ensures requested <= LargestStandardSize ==>
              FirstAtLeast(StandardSizes, requested) in StandardSizes
              && forall e | e in StandardSizes && e >= requested ::
                   FirstAtLeast(StandardSizes, requested) <= e
    ensures requested > LargestStandardSize ==> FirstAtLeast(StandardSizes, requested) == requested
    ensures FirstAtLeast(StandardSizes, FirstAtLeast(StandardSizes, requested))
              == FirstAtLeast(StandardSizes, requested)
  {
    StandardSizesShape();
    FirstAtLeastIsCeiling(StandardSizes, requested);
    FirstAtLeastIdempotent(StandardSizes, requested);
  }
}
