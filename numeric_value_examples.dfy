/** The behaviour the CSSNumericValueType test suite expects, stated on the model:
    each `it` block becomes a lemma (for the value-level operations) or a method
    that drives a CssNumericValueType object and returns what the test observes. */
module CssNumericValueExamples {
  import opened Wrappers
  import opened CssTyping
  import opened CssUnitValue

  /** Types of `new CSSUnitValue(10)`, `(10, 'px')`, `(10, 'deg')` and `(10, '%')`. */
  lemma TypesOfUnitValues()
    ensures NewUnitValue(10, "number") == Ok(UnitValue(10, Number))
    ensures NewUnitValue(10, "px") == Ok(UnitValue(10, Pixels))
    ensures NewUnitValue(10, "deg") == Ok(UnitValue(10, Degrees))
    ensures NewUnitValue(10, "%") == Ok(UnitValue(10, Percentage))
    ensures TypeOf(Single(UnitValue(10, Number))) == NumericType([0, 0, 0, 0, 0, 0, 0], Length, false)
    ensures TypeOf(Single(UnitValue(10, Pixels))) == NumericType([1, 0, 0, 0, 0, 0, 0], Length, false)
    ensures TypeOf(Single(UnitValue(10, Degrees))) == NumericType([0, 1, 0, 0, 0, 0, 0], Length, false)
    ensures TypeOf(Single(UnitValue(10, Percentage))) == NumericType([0, 0, 0, 0, 0, 0, 1], Length, false)
  {
    assert SingleEntry(Length).exponents == [1, 0, 0, 0, 0, 0, 0];
    assert SingleEntry(Angle).exponents == [0, 1, 0, 0, 0, 0, 0];
    assert SingleEntry(Percent).exponents == [0, 0, 0, 0, 0, 0, 1];
  }

  const TenPercent := UnitValue(10, Percentage)
  const TenPixels := UnitValue(10, Pixels)

  /** `10% + 10px` is a sum of type length -> 1 whose percent hint is length. */
  lemma TypeOfPercentPlusLength()
    ensures Add(Single(TenPercent), [TenPixels]) == Ok(MathSum([TenPercent, TenPixels], NumericType([1, 0, 0, 0, 0, 0, 0], Length, true)))
  {
    AddDifferentUnits(TenPercent, TenPixels);
    AddPercentageAndBase(Length);
    assert SingleEntry(Length).exponents == [1, 0, 0, 0, 0, 0, 0];
  }

  const PercentPlusLength := MathSum([TenPercent, TenPixels], NumericType([1, 0, 0, 0, 0, 0, 0], Length, true))

  lemma TenText()
    ensures IntToString(10) == "10"
  {
    assert NatToString(1) == "1";
    assert NatToString(10) == NatToString(1) + [Digit(0)];
  }

  /** `(10% + 10px).toString()` is `calc(10% + 10px)`. */
  lemma ToStringOfPercentPlusLength()
    ensures ToString(PercentPlusLength) == "calc(10% + 10px)"
  {
    TypeOfPercentPlusLength();
    TenText();
    AddThenToString(TenPercent, TenPixels);
  }

  /** The sum value of `10% + 10px` is its two terms as they are. */
  lemma SumValueOfPercentPlusLength()
    ensures SumValue(PercentPlusLength) == Some([TenPercent, TenPixels])
  {
    var terms := [TenPercent, TenPixels];
    CollectLikeTermsOfDistinct(terms);
    UnitTypesAdd(Percentage, Percentage);
    UnitTypesAdd(Percentage, Pixels);
  }

  /** Reading one or two target names. */
  lemma ReadName(name: string, u: UnitType)
    requires UnitFromName(name) == Some(u)
    ensures UnitsFromNames([name]) == Some([u])
  {
    var names := [name];
    assert names[1..] == [];
    assert UnitsFromNames(names[1..]) == Some([]);
    assert [u] + [] == [u];
  }

  lemma ReadNames(first: string, u: UnitType, second: string, w: UnitType)
    requires UnitFromName(first) == Some(u) && UnitFromName(second) == Some(w)
    ensures UnitsFromNames([first, second]) == Some([u, w])
  {
    var names := [first, second];
    assert names[1..] == [second];
    ReadName(second, w);
    assert [u] + [w] == [u, w];
  }

  lemma GatherOne(v: UnitValue)
    ensures Gather([v], [v.unit]) == ([v], [])
    ensures Gather([v], []) == ([], [v])
  {
    var vs, targets := [v], [v.unit];
    assert vs[1..] == [] && targets[1..] == [];
    assert WithoutUnit(vs, v.unit) == [];
    assert TotalOf([], v.unit) == 0;
    assert TotalOf(vs, v.unit) == v.value;
    assert Gather([], []) == ([], []);
    assert UnitValue(v.value, v.unit) == v;
    assert [v] + [] == [v];
  }

  /** Gathering two terms in distinct units into their two units, in either order. */
  lemma GatherTwo(a: UnitValue, b: UnitValue)
    requires a.unit != b.unit
    ensures Gather([a, b], [a.unit, b.unit]) == ([a, b], [])
    ensures Gather([a, b], [b.unit, a.unit]) == ([b, a], [])
  {
    var terms := [a, b];
    assert terms[1..] == [b] && [b][1..] == [];
    assert TotalOf([], a.unit) == 0 && TotalOf([], b.unit) == 0;
    assert TotalOf([b], a.unit) == 0 && TotalOf(terms, a.unit) == a.value;
    assert TotalOf([b], b.unit) == b.value && TotalOf(terms, b.unit) == b.value;
    assert WithoutUnit([b], a.unit) == [b] && WithoutUnit([b], b.unit) == [];
    assert WithoutUnit(terms, a.unit) == [b];
    assert WithoutUnit(terms, b.unit) == [a];
    GatherOne(a);
    GatherOne(b);
    var ab, ba := [a.unit, b.unit], [b.unit, a.unit];
    assert ab[1..] == [b.unit] && ba[1..] == [a.unit];
    assert UnitValue(a.value, a.unit) == a && UnitValue(b.value, b.unit) == b;
    assert [a] + [b] == [a, b] && [b] + [a] == [b, a];
  }

  const LengthPlusPercent := MathSum([TenPixels, TenPercent], NumericType([1, 0, 0, 0, 0, 0, 0], Length, true))

  /** `10px + 10%`: the mirror sum, of the same type, serialised in its own order. */
  lemma LengthPlusPercentSum()
    ensures CreateSum([TenPixels, TenPercent]) == Ok(LengthPlusPercent)
    ensures ToString(LengthPlusPercent) == "calc(10px + 10%)"
  {
    LengthPlusPercentAdded();
    TenText();
    AddThenToString(TenPixels, TenPercent);
  }

  lemma LengthPlusPercentAdded()
    ensures CreateSum([TenPixels, TenPercent]) == Ok(LengthPlusPercent)
    ensures Add(Single(TenPixels), [TenPercent]) == Ok(LengthPlusPercent)
  {
    AddDifferentUnits(TenPixels, TenPercent);
    AddPercentageAndBase(Length);
    assert SingleEntry(Length).exponents == [1, 0, 0, 0, 0, 0, 0];
    assert CreateSum([TenPixels, TenPercent]) == Add(Single(TenPixels), [TenPercent]);
  }

  /** `toSum('px', 'percent')` reorders the terms as named. */
  lemma ToSumPixelsPercent()
    ensures ToSum(PercentPlusLength, ["px", "percent"]) == Ok(LengthPlusPercent)
    ensures ToString(ToSum(PercentPlusLength, ["px", "percent"]).value) == "calc(10px + 10%)"
  {
    ReadNames("px", Pixels, "percent", Percentage);
    SumValueOfPercentPlusLength();
    GatherTwo(TenPercent, TenPixels);
    LengthPlusPercentSum();
  }

  /** `toSum('percent', 'px')` keeps the original order. */
  lemma ToSumPercentPixels()
    ensures ToSum(PercentPlusLength, ["percent", "px"]) == Ok(PercentPlusLength)
    ensures ToString(ToSum(PercentPlusLength, ["percent", "px"]).value) == "calc(10% + 10px)"
  {
    ReadNames("percent", Percentage, "px", Pixels);
    SumValueOfPercentPlusLength();
    GatherTwo(TenPercent, TenPixels);
    TypeOfPercentPlusLength();
    assert CreateSum([TenPercent, TenPixels]) == Add(Single(TenPercent), [TenPixels]);
    ToStringOfPercentPlusLength();
  }

  /** `toSum('px')` leaves the percentage over. */
  lemma ToSumPixelsOnly()
    ensures ToSum(PercentPlusLength, ["px"]) == Err(TypeError(LeftoverTermsMessage))
  {
    ReadName("px", Pixels);
    SumValueOfPercentPlusLength();
    ToSumLeftover(PercentPlusLength, ["px"]);
    assert TenPercent in Terms(PercentPlusLength);
  }

  /** ApplyingPercentHintMovesPowerAndSetsPercentHint. */
  method ApplyingPercentHintMovesPower() returns (percentBefore: int, lengthBefore: int, hintBefore: bool,
                                                  percentAfter: int, lengthAfter: int, hintAfter: bool, hint: BaseType)
    ensures percentBefore == 5 && lengthBefore == 1 && !hintBefore
    ensures percentAfter == 0 && lengthAfter == 6 && hintAfter && hint == Length
  {
    var t := new CssNumericValueType(Pixels);
    t.SetExponent(Percent, 5);
    percentBefore, lengthBefore, hintBefore := t.Exponent(Percent), t.Exponent(Length), t.hasPercentHint;
    t.ApplyPercentHint(Length);
    percentAfter, lengthAfter, hintAfter, hint := t.Exponent(Percent), t.Exponent(Length), t.hasPercentHint, t.percentHint;
  }

  /** MatchesBaseTypePercentage: what matchesBaseType(length) and
      matchesBaseTypePercentage(length) report after each step. */
  method MatchesBaseTypePercentageSteps() returns (base: seq<bool>, basePercentage: seq<bool>)
    ensures base == [false, true, false, true, false]
    ensures basePercentage == [false, true, false, true, true]
  {
    var t := new CssNumericValueType(Number);
    base, basePercentage := [t.MatchesBaseType(Length)], [t.MatchesBaseTypePercentage(Length)];
    t.SetExponent(Length, 1);
    base, basePercentage := base + [t.MatchesBaseType(Length)], basePercentage + [t.MatchesBaseTypePercentage(Length)];
    t.SetExponent(Length, 2);
    base, basePercentage := base + [t.MatchesBaseType(Length)], basePercentage + [t.MatchesBaseTypePercentage(Length)];
    t.SetExponent(Length, 1);
    base, basePercentage := base + [t.MatchesBaseType(Length)], basePercentage + [t.MatchesBaseTypePercentage(Length)];
    t.ApplyPercentHint(Length);
    base, basePercentage := base + [t.MatchesBaseType(Length)], basePercentage + [t.MatchesBaseTypePercentage(Length)];
  }

  /** MatchesPercentage: what matchesPercentage reports after each step. */
  method MatchesPercentageSteps() returns (percentage: seq<bool>)
    ensures percentage == [false, true, false, false, true]
  {
    var t := new CssNumericValueType(Number);
    percentage := [t.MatchesPercentage()];
    t.SetExponent(Percent, 1);
    percentage := percentage + [t.MatchesPercentage()];
    t.SetExponent(Percent, 2);
    percentage := percentage + [t.MatchesPercentage()];
    t.ApplyPercentHint(Length);
    percentage := percentage + [t.MatchesPercentage()];
    t.SetExponent(Length, 0);
    t.SetExponent(Percent, 1);
    percentage := percentage + [t.MatchesPercentage()];
  }

  /** MatchesNumberPercentage: what matchesNumber and matchesNumberPercentage
      report after each step. */
  method MatchesNumberPercentageSteps() returns (number: seq<bool>, numberPercentage: seq<bool>)
    ensures number == [true, false, true, false]
    ensures numberPercentage == [true, false, true, true]
  {
    var t := new CssNumericValueType(Number);
    number, numberPercentage := [t.MatchesNumber()], [t.MatchesNumberPercentage()];
    t.SetExponent(Length, 1);
    number, numberPercentage := number + [t.MatchesNumber()], numberPercentage + [t.MatchesNumberPercentage()];
    t.SetExponent(Length, 0);
    number, numberPercentage := number + [t.MatchesNumber()], numberPercentage + [t.MatchesNumberPercentage()];
    t.SetExponent(Percent, 1);
    number, numberPercentage := number + [t.MatchesNumber()], numberPercentage + [t.MatchesNumberPercentage()];
  }
}
