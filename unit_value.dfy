/** CSSUnitValue and the sums `add` builds from it (CSSMathSum): their type,
    their serialisation and their regrouping by toSum. Magnitudes are integers. */
module CssUnitValue {
  import opened Wrappers
  import opened CssTyping

  /** The name `unit` reports for a unit, and that toSum accepts. */
  function UnitName(u: UnitType): string {
    match u
    case Number => "number"
    case Percentage => "percent"
    case Pixels => "px"
    case Ems => "em"
    case Rems => "rem"
    case Degrees => "deg"
    case Seconds => "s"
    case Hertz => "hz"
    case DotsPerPixel => "dppx"
    case Fraction => "fr"
  }

  /** What follows the number when a value is serialised. */
  function UnitSuffix(u: UnitType): string {
    match u
    case Number => ""
    case Percentage => "%"
    case _ => UnitName(u)
  }

  /** Reads a unit name: "number", "percent" or "%", or the name of a unit. */
  function UnitFromName(name: string): (r: Option<UnitType>)
    ensures r.Some? ==> name == UnitName(r.value) || name == UnitSuffix(r.value)
  {
    if name == "number" then Some(Number)
    else if name == "percent" || name == "%" then Some(Percentage)
    else if name == "px" then Some(Pixels)
    else if name == "em" then Some(Ems)
    else if name == "rem" then Some(Rems)
    else if name == "deg" then Some(Degrees)
    else if name == "s" then Some(Seconds)
    else if name == "hz" then Some(Hertz)
    else if name == "dppx" then Some(DotsPerPixel)
    else if name == "fr" then Some(Fraction)
    else None
  }

  /** Every unit is read back from the name it reports and from its suffix. */
  lemma UnitNameRoundTrip(u: UnitType)
    ensures UnitFromName(UnitName(u)) == Some(u)
    ensures u != Number ==> UnitFromName(UnitSuffix(u)) == Some(u)
  {
  }

  datatype CssError = SyntaxError(message: string) | TypeError(message: string)

  const InvalidUnitMessage := "Invalid unit"
  const EmptyArgumentsMessage := "Arguments can't be empty"
  const IncompatibleTypesMessage := "Incompatible types"
  const InvalidConversionUnitMessage := "Invalid unit for conversion"
  const InvalidConversionValueMessage := "Invalid value for conversion"
  const LeftoverTermsMessage := "There were leftover terms that were not converted"

  datatype UnitValue = UnitValue(value: int, unit: UnitType)

  /** A CSS numeric value: a single unit value, or a sum of unit values
      together with the type computed when the sum was created. */
  datatype NumericValue = Single(unitValue: UnitValue) | MathSum(values: seq<UnitValue>, sumType: NumericType)

  /** `new CSSUnitValue(value, unit)`; the unit defaults to "number". */
  function NewUnitValue(value: int, unitName: string): (r: Result<UnitValue, CssError>)
    ensures r.Ok? <==> UnitFromName(unitName).Some?
    ensures r.Ok? ==> r.value.value == value && UnitFromName(unitName) == Some(r.value.unit)
  {
    match UnitFromName(unitName)
    case None => Err(TypeError(InvalidUnitMessage))
    case Some(u) => Ok(UnitValue(value, u))
  }

  /** `value.type()`. */
  function TypeOf(v: NumericValue): NumericType {
    match v
    case Single(u) => TypeOfUnit(u.unit)
    case MathSum(_, t) => t
  }

  /** Left fold of type addition over the terms of a sum. */
  function FoldTypes(acc: NumericType, rest: seq<UnitValue>): Option<NumericType>
    decreases |rest|
  {
    if rest == [] then Some(acc)
    else
      match AddTypes(acc, TypeOfUnit(rest[0].unit))
      case None => None
      case Some(t) => FoldTypes(t, rest[1..])
  }

  /** Creating a sum: refused when empty or when the terms' types cannot be added. */
  function CreateSum(values: seq<UnitValue>): Result<NumericValue, CssError> {
    if values == [] then Err(SyntaxError(EmptyArgumentsMessage))
    else
      match FoldTypes(TypeOfUnit(values[0].unit), values[1..])
      case None => Err(TypeError(IncompatibleTypesMessage))
      case Some(t) => Ok(MathSum(values, t))
  }

  /** The operands `add` sees for its receiver: a sum contributes its terms. */
  function Terms(v: NumericValue): seq<UnitValue> {
    match v
    case Single(u) => [u]
    case MathSum(vs, _) => vs
  }

  predicate AllSameUnit(values: seq<UnitValue>) {
    forall i :: 0 <= i < |values| ==> values[i].unit == values[0].unit
  }

  function Total(values: seq<UnitValue>): int {
    if values == [] then 0 else values[0].value + Total(values[1..])
  }

  /** Sum of the magnitudes of the terms measured in unit u. */
  function TotalOf(values: seq<UnitValue>, u: UnitType): int {
    if values == [] then 0
    else (if values[0].unit == u then values[0].value else 0) + TotalOf(values[1..], u)
  }

  /** `v.add(args...)`: operands all in one unit give one unit value with the
      summed magnitude; otherwise a sum of the operands in order. */
  function Add(v: NumericValue, args: seq<UnitValue>): Result<NumericValue, CssError> {
    var values := Terms(v) + args;
    if |values| > 0 && AllSameUnit(values) then Ok(Single(UnitValue(Total(values), values[0].unit)))
    else CreateSum(values)
  }

  function Digit(d: nat): char
    requires d < 10
  {
    "0123456789"[d]
  }

  function NatToString(n: nat): string
    decreases n
  {
    if n < 10 then [Digit(n)] else NatToString(n / 10) + [Digit(n % 10)]
  }

  function IntToString(n: int): string {
    if n < 0 then "-" + NatToString(-n) else NatToString(n)
  }

  function UnitValueText(u: UnitValue): string {
    IntToString(u.value) + UnitSuffix(u.unit)
  }

  function JoinTerms(vs: seq<UnitValue>): string {
    if |vs| == 0 then ""
    else if |vs| == 1 then UnitValueText(vs[0])
    else UnitValueText(vs[0]) + " + " + JoinTerms(vs[1..])
  }

  /** `value.toString()`: a unit value as number and suffix, a sum as
      `calc(t1 + t2 + ...)` in the order of its terms. */
  function ToString(v: NumericValue): string {
    match v
    case Single(u) => UnitValueText(u)
    case MathSum(vs, _) => "calc(" + JoinTerms(vs) + ")"
  }

  /** Reads back the decimal digits NatToString writes. */
  function ParseNat(s: string): nat
    decreases |s|
  {
    if s == [] then 0
    else
      var d := s[|s| - 1];
      10 * ParseNat(s[..|s| - 1]) + (if '0' <= d <= '9' then (d as int) - ('0' as int) else 0)
  }

  /** The serialisation of a count is non-empty, made of digits, and reads back as the count. */
  lemma {:induction false} NatToStringRoundTrip(n: nat)
    ensures |NatToString(n)| > 0
    ensures forall i :: 0 <= i < |NatToString(n)| ==> '0' <= NatToString(n)[i] <= '9'
    ensures ParseNat(NatToString(n)) == n
    decreases n
  {
    if n >= 10 {
      NatToStringRoundTrip(n / 10);
      var s := NatToString(n);
      assert s[..|s| - 1] == NatToString(n / 10);
    }
  }

  /** Units whose types can be added: the same base type (or both plain
      numbers), or a percentage together with any unit that has a base type. */
  predicate Compatible(u1: UnitType, u2: UnitType) {
    BaseTypeOf(u1) == BaseTypeOf(u2)
    || (u1 == Percentage && u2 != Number)
    || (u2 == Percentage && u1 != Number)
  }

  /** Adding the types of two units succeeds exactly for compatible units. */
  lemma UnitTypesAdd(u1: UnitType, u2: UnitType)
    ensures AddTypes(TypeOfUnit(u1), TypeOfUnit(u2)).Some? <==> Compatible(u1, u2)
  {
    var t1, t2 := TypeOfUnit(u1), TypeOfUnit(u2);
    if BaseTypeOf(u1) == BaseTypeOf(u2) {
      AddTypeToItself(t1);
    } else if u1 == Percentage && u2 != Number {
      AddPercentageAndBase(BaseTypeOf(u2).value);
    } else if u2 == Percentage && u1 != Number {
      AddPercentageAndBase(BaseTypeOf(u1).value);
    } else if u1 == Percentage || u2 == Percentage {
      AddPercentageAndEmpty();
    } else {
      assert t1.Exponent(Percent) == 0 && t2.Exponent(Percent) == 0;
      AddFoldedTypes(t1, t2);
      match BaseTypeOf(u1)
      case None =>
        assert t1.Exponent(BaseTypeOf(u2).value) != t2.Exponent(BaseTypeOf(u2).value);
      case Some(b) =>
        assert t1.Exponent(b) != t2.Exponent(b);
    }
  }

  /** Adding a unit value in the same unit gives one unit value with the summed magnitude. */
  lemma AddSameUnit(a: UnitValue, b: UnitValue)
    requires a.unit == b.unit
    ensures Add(Single(a), [b]) == Ok(Single(UnitValue(a.value + b.value, a.unit)))
  {
    assert Total([a, b][1..]) == b.value;
  }

  /** The type of a two-term sum is the sum of the two terms' types. */
  lemma FoldTwo(a: UnitValue, b: UnitValue)
    ensures FoldTypes(TypeOfUnit(a.unit), [b]) == AddTypes(TypeOfUnit(a.unit), TypeOfUnit(b.unit))
  {
    assert [b][1..] == [];
  }

  /** Adding two unit values in different units gives the sum of both, in order,
      typed by the sum of their types, or "Incompatible types" when those do not add. */
  lemma AddTwoUnits(a: UnitValue, b: UnitValue)
    requires a.unit != b.unit
    ensures var sum := AddTypes(TypeOfUnit(a.unit), TypeOfUnit(b.unit));
      Add(Single(a), [b]) == if sum.Some? then Ok(MathSum([a, b], sum.value)) else Err(TypeError(IncompatibleTypesMessage))
  {
    var values := Terms(Single(a)) + [b];
    assert values == [a, b];
    assert !AllSameUnit(values) by { assert values[1].unit != values[0].unit; }
    assert Add(Single(a), [b]) == CreateSum([a, b]);
    assert [a, b][1..] == [b];
    FoldTwo(a, b);
  }

  /** The same, with compatibility of units spelt out. */
  lemma AddDifferentUnits(a: UnitValue, b: UnitValue)
    requires a.unit != b.unit
    ensures AddTypes(TypeOfUnit(a.unit), TypeOfUnit(b.unit)).Some? <==> Compatible(a.unit, b.unit)
    ensures Compatible(a.unit, b.unit) ==>
      Add(Single(a), [b]) == Ok(MathSum([a, b], AddTypes(TypeOfUnit(a.unit), TypeOfUnit(b.unit)).value))
    ensures !Compatible(a.unit, b.unit) ==> Add(Single(a), [b]) == Err(TypeError(IncompatibleTypesMessage))
  {
    UnitTypesAdd(a.unit, b.unit);
    AddTwoUnits(a, b);
  }

  /** A two-term sum serialises as `calc(a + b)`. */
  lemma AddThenToString(a: UnitValue, b: UnitValue)
    requires a.unit != b.unit && Compatible(a.unit, b.unit)
    ensures Add(Single(a), [b]).Ok?
    ensures ToString(Add(Single(a), [b]).value) == "calc(" + UnitValueText(a) + " + " + UnitValueText(b) + ")"
  {
    AddDifferentUnits(a, b);
    assert [a, b][1..] == [b];
    assert JoinTerms([a, b]) == UnitValueText(a) + " + " + UnitValueText(b);
  }

  /** `10% + 10px` and its mirror: percent is absorbed into the other unit's base
      type, which becomes the percent hint. */
  lemma AddPercentageToBase(a: UnitValue, b: UnitValue)
    requires a.unit == Percentage && b.unit != Number && b.unit != Percentage
    ensures Add(Single(a), [b]).Ok? && Add(Single(b), [a]).Ok?
    ensures
      var expected := NumericType(TypeOfUnit(b.unit).exponents, BaseTypeOf(b.unit).value, true);
      TypeOf(Add(Single(a), [b]).value) == expected && TypeOf(Add(Single(b), [a]).value) == expected
  {
    AddPercentageAndBase(BaseTypeOf(b.unit).value);
    AddDifferentUnits(a, b);
    AddDifferentUnits(b, a);
  }

  lemma {:induction false} TotalOfAppend(a: seq<UnitValue>, b: seq<UnitValue>, u: UnitType)
    ensures TotalOf(a + b, u) == TotalOf(a, u) + TotalOf(b, u)
    decreases |a|
  {
    if a == [] {
      assert a + b == b;
    } else {
      assert (a + b)[0] == a[0] && (a + b)[1..] == a[1..] + b;
      TotalOfAppend(a[1..], b, u);
    }
  }

  lemma {:induction false} TotalOfOneUnit(values: seq<UnitValue>, w: UnitType, u: UnitType)
    requires forall i :: 0 <= i < |values| ==> values[i].unit == w
    ensures TotalOf(values, u) == if u == w then Total(values) else 0
    decreases |values|
  {
    if values != [] {
      TotalOfOneUnit(values[1..], w, u);
    }
  }

  /** `add` changes how the operands are grouped, never how much of each unit there is. */
  lemma AddKeepsTotals(v: NumericValue, args: seq<UnitValue>)
    requires Add(v, args).Ok?
    ensures forall u :: TotalOf(Terms(Add(v, args).value), u) == TotalOf(Terms(v) + args, u)
  {
    var values := Terms(v) + args;
    if |values| > 0 && AllSameUnit(values) {
      forall u ensures TotalOf(Terms(Add(v, args).value), u) == TotalOf(values, u) {
        TotalOfOneUnit(values, values[0].unit, u);
        assert Terms(Add(v, args).value)[1..] == [];
      }
    }
  }

  /** Position of the first term in unit u, or |terms| when there is none. */
  function IndexOfUnit(terms: seq<UnitValue>, u: UnitType): (i: nat)
    ensures i <= |terms|
    ensures i < |terms| ==> terms[i].unit == u
    ensures forall j :: 0 <= j < i ==> terms[j].unit != u
  {
    if terms == [] then 0
    else if terms[0].unit == u then 0
    else 1 + IndexOfUnit(terms[1..], u)
  }

  /** Adds one term to a list of like-terms: into the term of its unit if there is one, else at the end. */
  function AddLikeTerm(acc: seq<UnitValue>, v: UnitValue): seq<UnitValue> {
    var i := IndexOfUnit(acc, v.unit);
    if i < |acc| then acc[i := UnitValue(acc[i].value + v.value, v.unit)] else acc + [v]
  }

  function CollectInto(acc: seq<UnitValue>, rest: seq<UnitValue>): seq<UnitValue>
    decreases |rest|
  {
    if rest == [] then acc else CollectInto(AddLikeTerm(acc, rest[0]), rest[1..])
  }

  /** Like-term collection: one term per unit, in order of first appearance. */
  function CollectLikeTerms(values: seq<UnitValue>): seq<UnitValue> {
    CollectInto([], values)
  }

  predicate DistinctUnits(vs: seq<UnitValue>) {
    forall i, j :: 0 <= i < j < |vs| ==> vs[i].unit != vs[j].unit
  }

  function UnitSet(vs: seq<UnitValue>): set<UnitType> {
    set i | 0 <= i < |vs| :: vs[i].unit
  }

  lemma {:induction false} TotalOfUpdate(s: seq<UnitValue>, i: nat, w: UnitValue, u: UnitType)
    requires i < |s| && w.unit == s[i].unit
    ensures TotalOf(s[i := w], u) == TotalOf(s, u) + (if w.unit == u then w.value - s[i].value else 0)
    decreases |s|
  {
    if i > 0 {
      assert s[i := w][1..] == s[1..][i - 1 := w];
      TotalOfUpdate(s[1..], i - 1, w, u);
    } else {
      assert s[i := w][1..] == s[1..];
    }
  }

  lemma AddLikeTermFacts(acc: seq<UnitValue>, v: UnitValue)
    requires DistinctUnits(acc)
    ensures DistinctUnits(AddLikeTerm(acc, v))
    ensures UnitSet(AddLikeTerm(acc, v)) == UnitSet(acc) + {v.unit}
    ensures forall u :: TotalOf(AddLikeTerm(acc, v), u) == TotalOf(acc, u) + (if v.unit == u then v.value else 0)
  {
    var i := IndexOfUnit(acc, v.unit);
    var r := AddLikeTerm(acc, v);
    if i < |acc| {
      var w := UnitValue(acc[i].value + v.value, v.unit);
      forall u ensures TotalOf(r, u) == TotalOf(acc, u) + (if v.unit == u then v.value else 0) {
        TotalOfUpdate(acc, i, w, u);
      }
      assert UnitSet(r) == UnitSet(acc) + {v.unit} by {
        forall k | 0 <= k < |r| ensures r[k].unit == acc[k].unit { }
        assert v.unit in UnitSet(acc) by { assert acc[i].unit == v.unit; }
      }
    } else {
      forall u ensures TotalOf(r, u) == TotalOf(acc, u) + (if v.unit == u then v.value else 0) {
        TotalOfAppend(acc, [v], u);
      }
      assert UnitSet(r) == UnitSet(acc) + {v.unit} by {
        assert r[|acc|].unit == v.unit;
        forall x | x in UnitSet(r) ensures x in UnitSet(acc) + {v.unit} {
          var k :| 0 <= k < |r| && r[k].unit == x;
          if k < |acc| { assert acc[k].unit == x; }
        }
        forall x | x in UnitSet(acc) ensures x in UnitSet(r) {
          var k :| 0 <= k < |acc| && acc[k].unit == x;
          assert r[k].unit == x;
        }
      }
    }
  }

  lemma {:induction false} CollectIntoFacts(acc: seq<UnitValue>, rest: seq<UnitValue>)
    requires DistinctUnits(acc)
    ensures DistinctUnits(CollectInto(acc, rest))
    ensures UnitSet(CollectInto(acc, rest)) == UnitSet(acc) + UnitSet(rest)
    ensures forall u :: TotalOf(CollectInto(acc, rest), u) == TotalOf(acc, u) + TotalOf(rest, u)
    decreases |rest|
  {
    if rest != [] {
      AddLikeTermFacts(acc, rest[0]);
      CollectIntoFacts(AddLikeTerm(acc, rest[0]), rest[1..]);
      assert UnitSet(rest) == {rest[0].unit} + UnitSet(rest[1..]) by {
        forall x | x in UnitSet(rest) ensures x in {rest[0].unit} + UnitSet(rest[1..]) {
          var k :| 0 <= k < |rest| && rest[k].unit == x;
          if k > 0 { assert rest[1..][k - 1].unit == x; }
        }
        forall x | x in UnitSet(rest[1..]) ensures x in UnitSet(rest) {
          var k :| 0 <= k < |rest[1..]| && rest[1..][k].unit == x;
          assert rest[k + 1].unit == x;
        }
      }
    }
  }

  /** Like-term collection leaves one term per unit, covers the same units and
      keeps the total of every unit. */
  lemma CollectLikeTermsFacts(values: seq<UnitValue>)
    ensures DistinctUnits(CollectLikeTerms(values))
    ensures UnitSet(CollectLikeTerms(values)) == UnitSet(values)
    ensures forall u :: TotalOf(CollectLikeTerms(values), u) == TotalOf(values, u)
  {
    CollectIntoFacts([], values);
    assert UnitSet([]) == {};
  }

  lemma {:induction false} CollectIntoDistinct(acc: seq<UnitValue>, rest: seq<UnitValue>)
    requires DistinctUnits(acc + rest)
    ensures CollectInto(acc, rest) == acc + rest
    decreases |rest|
  {
    if rest != [] {
      assert (acc + rest)[|acc|] == rest[0];
      assert forall j :: 0 <= j < |acc| ==> acc[j] == (acc + rest)[j];
      assert IndexOfUnit(acc, rest[0].unit) == |acc|;
      assert acc + [rest[0]] + rest[1..] == acc + rest;
      CollectIntoDistinct(acc + [rest[0]], rest[1..]);
    }
  }

  /** Terms already in distinct units are left exactly as they are. */
  lemma CollectLikeTermsOfDistinct(values: seq<UnitValue>)
    requires DistinctUnits(values)
    ensures CollectLikeTerms(values) == values
  {
    assert [] + values == values;
    CollectIntoDistinct([], values);
  }

  /** The sum value of a numeric value: its like-terms collected, provided
      there is at least one and each term's type adds to the first term's. */
  function SumValue(v: NumericValue): (r: Option<seq<UnitValue>>)
    ensures r.Some? ==> |r.value| > 0
  {
    var terms := CollectLikeTerms(Terms(v));
    if |terms| > 0 && forall i :: 0 <= i < |terms| ==> AddTypes(TypeOfUnit(terms[0].unit), TypeOfUnit(terms[i].unit)).Some?
    then Some(terms)
    else None
  }

  /** Reads all target unit names; one unknown name spoils the lot. */
  function UnitsFromNames(names: seq<string>): (r: Option<seq<UnitType>>)
    ensures r.Some? <==> forall i :: 0 <= i < |names| ==> UnitFromName(names[i]).Some?
    ensures r.Some? ==> |r.value| == |names| && forall i :: 0 <= i < |names| ==> UnitFromName(names[i]) == Some(r.value[i])
  {
    if names == [] then Some([])
    else
      match UnitFromName(names[0])
      case None => None
      case Some(u) =>
        match UnitsFromNames(names[1..])
        case None => None
        case Some(us) => Some([u] + us)
  }

  /** Code-unit (lexicographic) order on strings. */
  predicate StringLess(a: string, b: string) {
    if a == [] then b != []
    else if b == [] then false
    else if a[0] != b[0] then a[0] < b[0]
    else StringLess(a[1..], b[1..])
  }

  lemma {:induction false} StringLessTotal(a: string, b: string)
    ensures a != b ==> StringLess(a, b) || StringLess(b, a)
    ensures !(StringLess(a, b) && StringLess(b, a))
    decreases |a|
  {
    if a != [] && b != [] && a[0] == b[0] {
      StringLessTotal(a[1..], b[1..]);
      if a != b { assert a == [a[0]] + a[1..] && b == [b[0]] + b[1..]; }
    }
  }

  lemma {:induction false} StringLessTransitive(a: string, b: string, c: string)
    requires StringLess(a, b) && StringLess(b, c)
    ensures StringLess(a, c)
    decreases |a|
  {
    if a != [] && b != [] && c != [] && a[0] == b[0] && b[0] == c[0] {
      StringLessTransitive(a[1..], b[1..], c[1..]);
    }
  }

  lemma UnitNameInjective(u: UnitType, w: UnitType)
    requires UnitName(u) == UnitName(w)
    ensures u == w
  {
    UnitNameRoundTrip(u);
    UnitNameRoundTrip(w);
  }

  predicate UnitLess(a: UnitValue, b: UnitValue) {
    StringLess(UnitName(a.unit), UnitName(b.unit))
  }

  /** Strictly increasing unit names, pairwise. */
  predicate SortedByUnitName(vs: seq<UnitValue>) {
    forall i, j :: 0 <= i < j < |vs| ==> UnitLess(vs[i], vs[j])
  }

  function InsertByUnitName(v: UnitValue, vs: seq<UnitValue>): seq<UnitValue> {
    if vs == [] then [v]
    else if UnitLess(vs[0], v) then [vs[0]] + InsertByUnitName(v, vs[1..])
    else [v] + vs
  }

  /** Terms ordered by the names of their units. */
  function SortByUnitName(vs: seq<UnitValue>): seq<UnitValue> {
    if vs == [] then [] else InsertByUnitName(vs[0], SortByUnitName(vs[1..]))
  }

  lemma UnitSetCons(vs: seq<UnitValue>)
    requires vs != []
    ensures UnitSet(vs) == {vs[0].unit} + UnitSet(vs[1..])
  {
    forall x | x in UnitSet(vs) ensures x in {vs[0].unit} + UnitSet(vs[1..]) {
      var k :| 0 <= k < |vs| && vs[k].unit == x;
      if k > 0 { assert vs[1..][k - 1].unit == x; }
    }
    forall x | x in UnitSet(vs[1..]) ensures x in UnitSet(vs) {
      var k :| 0 <= k < |vs[1..]| && vs[1..][k].unit == x;
      assert vs[k + 1].unit == x;
    }
  }

  lemma {:induction false} InsertKeeps(v: UnitValue, vs: seq<UnitValue>, u: UnitType)
    ensures multiset(InsertByUnitName(v, vs)) == multiset(vs) + multiset{v}
    ensures TotalOf(InsertByUnitName(v, vs), u) == TotalOf(vs, u) + (if v.unit == u then v.value else 0)
  {
    InsertKeepsTerms(v, vs);
    InsertKeepsTotal(v, vs, u);
  }

  lemma {:induction false} InsertKeepsTerms(v: UnitValue, vs: seq<UnitValue>)
    ensures multiset(InsertByUnitName(v, vs)) == multiset(vs) + multiset{v}
    decreases |vs|
  {
    if vs != [] && UnitLess(vs[0], v) {
      InsertKeepsTerms(v, vs[1..]);
      assert vs == [vs[0]] + vs[1..];
    }
  }

  lemma {:induction false} InsertKeepsTotal(v: UnitValue, vs: seq<UnitValue>, u: UnitType)
    ensures TotalOf(InsertByUnitName(v, vs), u) == TotalOf(vs, u) + (if v.unit == u then v.value else 0)
    decreases |vs|
  {
    var r := InsertByUnitName(v, vs);
    if vs != [] && UnitLess(vs[0], v) {
      InsertKeepsTotal(v, vs[1..], u);
      assert r[1..] == InsertByUnitName(v, vs[1..]);
    } else if vs != [] {
      assert r[1..] == vs;
    }
  }

  lemma {:induction false} InsertSorted(v: UnitValue, vs: seq<UnitValue>)
    requires SortedByUnitName(vs) && v.unit !in UnitSet(vs)
    ensures SortedByUnitName(InsertByUnitName(v, vs))
    decreases |vs|
  {
    var r := InsertByUnitName(v, vs);
    if vs == [] {
    } else if UnitLess(vs[0], v) {
      UnitSetCons(vs);
      InsertSorted(v, vs[1..]);
      var tail := InsertByUnitName(v, vs[1..]);
      InsertKeeps(v, vs[1..], v.unit);
      forall j | 0 <= j < |tail| ensures UnitLess(vs[0], tail[j]) {
        assert tail[j] in multiset(vs[1..]) + multiset{v};
        if tail[j] != v {
          var k :| 0 <= k < |vs[1..]| && vs[1..][k] == tail[j];
          assert vs[k + 1] == tail[j];
        }
      }
      assert r == [vs[0]] + tail;
    } else {
      PrependSorted(v, vs);
    }
  }

  /** A term whose unit is absent and does not sort after the head goes in front. */
  lemma PrependSorted(v: UnitValue, vs: seq<UnitValue>)
    requires SortedByUnitName(vs) && v.unit !in UnitSet(vs)
    requires vs != [] && !UnitLess(vs[0], v)
    ensures SortedByUnitName([v] + vs)
  {
    var r := [v] + vs;
    StringLessTotal(UnitName(vs[0].unit), UnitName(v.unit));
    assert v.unit != vs[0].unit by { assert vs[0].unit in UnitSet(vs); }
    if UnitName(v.unit) == UnitName(vs[0].unit) { UnitNameInjective(v.unit, vs[0].unit); }
    assert UnitLess(v, vs[0]);
    forall j | 0 < j < |r| ensures UnitLess(r[0], r[j]) {
      if j > 1 { StringLessTransitive(UnitName(v.unit), UnitName(vs[0].unit), UnitName(vs[j - 1].unit)); }
    }
  }

  /** Sorting terms in distinct units orders them strictly by unit name and
      keeps every term and every unit's total. */
  lemma {:induction false} SortFacts(vs: seq<UnitValue>)
    requires DistinctUnits(vs)
    ensures SortedByUnitName(SortByUnitName(vs))
    ensures multiset(SortByUnitName(vs)) == multiset(vs)
    ensures UnitSet(SortByUnitName(vs)) == UnitSet(vs)
    ensures forall u :: TotalOf(SortByUnitName(vs), u) == TotalOf(vs, u)
    decreases |vs|
  {
    if vs != [] {
      var rest := SortByUnitName(vs[1..]);
      SortFacts(vs[1..]);
      UnitSetCons(vs);
      forall k | 0 <= k < |vs[1..]| ensures vs[1..][k].unit != vs[0].unit {
        assert vs[1..][k] == vs[k + 1];
      }
      InsertSorted(vs[0], rest);
      forall u ensures TotalOf(SortByUnitName(vs), u) == TotalOf(vs, u) {
        InsertKeeps(vs[0], rest, u);
      }
      InsertKeeps(vs[0], rest, vs[0].unit);
      assert vs == [vs[0]] + vs[1..];
      UnitSetOfMultiset(SortByUnitName(vs), vs);
    }
  }

  /** The unit set depends only on which terms there are. */
  lemma UnitSetOfMultiset(a: seq<UnitValue>, b: seq<UnitValue>)
    requires multiset(a) == multiset(b)
    ensures UnitSet(a) == UnitSet(b)
  {
    forall x | x in UnitSet(a) ensures x in UnitSet(b) {
      var k :| 0 <= k < |a| && a[k].unit == x;
      assert a[k] in multiset(b);
      var m :| 0 <= m < |b| && b[m] == a[k];
    }
    forall x | x in UnitSet(b) ensures x in UnitSet(a) {
      var k :| 0 <= k < |b| && b[k].unit == x;
      assert b[k] in multiset(a);
      var m :| 0 <= m < |a| && a[m] == b[k];
    }
  }

  /** The terms not in unit u, in order. */
  function WithoutUnit(terms: seq<UnitValue>, u: UnitType): seq<UnitValue> {
    if terms == [] then []
    else (if terms[0].unit == u then [] else [terms[0]]) + WithoutUnit(terms[1..], u)
  }

  /** For each target unit in turn, the total of the terms still unused in that
      unit (which uses them up); then the terms no target used. */
  function Gather(terms: seq<UnitValue>, targets: seq<UnitType>): (seq<UnitValue>, seq<UnitValue>)
    decreases |targets|
  {
    if targets == [] then ([], terms)
    else
      var (rest, leftover) := Gather(WithoutUnit(terms, targets[0]), targets[1..]);
      ([UnitValue(TotalOf(terms, targets[0]), targets[0])] + rest, leftover)
  }

  /** `value.toSum(...units)`: the value as a sum over the named units, in the
      order named; with no names, one term per unit, ordered by unit name. */
  function ToSum(v: NumericValue, unitNames: seq<string>): Result<NumericValue, CssError> {
    match UnitsFromNames(unitNames)
    case None => Err(SyntaxError(InvalidConversionUnitMessage))
    case Some(targets) =>
      match SumValue(v)
      case None => Err(TypeError(InvalidConversionValueMessage))
      case Some(terms) =>
        if targets == [] then CreateSum(SortByUnitName(terms))
        else
          var (gathered, leftover) := Gather(terms, targets);
          if leftover != [] then Err(TypeError(LeftoverTermsMessage))
          else CreateSum(gathered)
  }

  lemma {:induction false} WithoutUnitFacts(terms: seq<UnitValue>, u: UnitType, w: UnitType)
    ensures TotalOf(WithoutUnit(terms, u), w) == if w == u then 0 else TotalOf(terms, w)
    ensures forall x :: x in WithoutUnit(terms, u) <==> x in terms && x.unit != u
    decreases |terms|
  {
    if terms != [] {
      WithoutUnitFacts(terms[1..], u, w);
      var head := if terms[0].unit == u then [] else [terms[0]];
      TotalOfAppend(head, WithoutUnit(terms[1..], u), w);
      assert terms == [terms[0]] + terms[1..];
    }
  }

  lemma {:induction false} TotalOfAbsent(terms: seq<UnitValue>, u: UnitType)
    requires forall x :: x in terms ==> x.unit != u
    ensures TotalOf(terms, u) == 0
    decreases |terms|
  {
    if terms != [] {
      assert terms[0] in terms;
      assert forall x :: x in terms[1..] ==> x in terms;
      TotalOfAbsent(terms[1..], u);
    }
  }

  /** Gathering makes one term per target, in target order; a unit's total goes
      to its first target and nowhere else; exactly the terms in no target unit
      are left over. */
  lemma {:induction false} GatherFacts(terms: seq<UnitValue>, targets: seq<UnitType>)
    ensures var (gathered, _) := Gather(terms, targets);
      |gathered| == |targets| && forall i :: 0 <= i < |targets| ==> gathered[i].unit == targets[i]
    ensures forall u :: TotalOf(Gather(terms, targets).0, u) == if u in targets then TotalOf(terms, u) else 0
    ensures forall x :: x in Gather(terms, targets).1 <==> x in terms && x.unit !in targets
    decreases |targets|
  {
    if targets != [] {
      var t := targets[0];
      var rest := WithoutUnit(terms, t);
      GatherFacts(rest, targets[1..]);
      var gathered := Gather(terms, targets).0;
      assert gathered[1..] == Gather(rest, targets[1..]).0;
      forall u ensures TotalOf(gathered, u) == if u in targets then TotalOf(terms, u) else 0 {
        WithoutUnitFacts(terms, t, u);
        assert u in targets <==> u == t || u in targets[1..];
      }
      forall x ensures x in Gather(terms, targets).1 <==> x in terms && x.unit !in targets {
        WithoutUnitFacts(terms, t, t);
        assert x.unit in targets <==> x.unit == t || x.unit in targets[1..];
      }
    }
  }

  /** toSum keeps the value: every unit's total in the result is its total in the input. */
  lemma ToSumKeepsTotals(v: NumericValue, unitNames: seq<string>)
    requires ToSum(v, unitNames).Ok?
    ensures forall u :: TotalOf(Terms(ToSum(v, unitNames).value), u) == TotalOf(Terms(v), u)
  {
    var targets := UnitsFromNames(unitNames).value;
    var terms := SumValue(v).value;
    CollectLikeTermsFacts(Terms(v));
    if targets == [] {
      SortFacts(terms);
    } else {
      GatherFacts(terms, targets);
      var (gathered, leftover) := Gather(terms, targets);
      forall u ensures TotalOf(gathered, u) == TotalOf(terms, u) {
        if u !in targets {
          TotalOfAbsent(terms, u);
        }
      }
    }
  }

  /** With target units, the result has one term per target, in the order named. */
  lemma ToSumFollowsTargets(v: NumericValue, unitNames: seq<string>)
    requires ToSum(v, unitNames).Ok? && unitNames != []
    ensures var vs := Terms(ToSum(v, unitNames).value);
      |vs| == |unitNames| && forall i :: 0 <= i < |unitNames| ==> UnitFromName(unitNames[i]) == Some(vs[i].unit)
  {
    GatherFacts(SumValue(v).value, UnitsFromNames(unitNames).value);
  }

  /** Without target units, the result has one term per unit of the input,
      ordered by unit name. */
  lemma ToSumWithoutTargets(v: NumericValue)
    requires ToSum(v, []).Ok?
    ensures SortedByUnitName(Terms(ToSum(v, []).value))
    ensures UnitSet(Terms(ToSum(v, []).value)) == UnitSet(Terms(v))
  {
    CollectLikeTermsFacts(Terms(v));
    SortFacts(SumValue(v).value);
  }

  /** Gathering the sum value leaves terms over exactly when some unit of the
      value is not a target. */
  lemma LeftoverIff(v: NumericValue, targets: seq<UnitType>)
    requires SumValue(v).Some?
    ensures Gather(SumValue(v).value, targets).1 != [] <==> exists x :: x in Terms(v) && x.unit !in targets
  {
    var terms := SumValue(v).value;
    CollectLikeTermsFacts(Terms(v));
    GatherFacts(terms, targets);
    var leftover := Gather(terms, targets).1;
    if exists x :: x in Terms(v) && x.unit !in targets {
      var x :| x in Terms(v) && x.unit !in targets;
      var k :| 0 <= k < |Terms(v)| && Terms(v)[k] == x;
      assert x.unit in UnitSet(terms);
      var m :| 0 <= m < |terms| && terms[m].unit == x.unit;
      assert terms[m] in leftover;
    }
    if leftover != [] {
      var y := leftover[0];
      var m :| 0 <= m < |terms| && terms[m] == y;
      assert y.unit in UnitSet(Terms(v));
      var k :| 0 <= k < |Terms(v)| && Terms(v)[k].unit == y.unit;
      assert Terms(v)[k] in Terms(v) && Terms(v)[k].unit !in targets;
    }
  }

  /** The leftover error is raised exactly when some unit of the value is not a target. */
  lemma ToSumLeftover(v: NumericValue, unitNames: seq<string>)
    requires UnitsFromNames(unitNames).Some? && unitNames != [] && SumValue(v).Some?
    ensures ToSum(v, unitNames) == Err(TypeError(LeftoverTermsMessage))
      <==> exists x :: x in Terms(v) && x.unit !in UnitsFromNames(unitNames).value
  {
    var targets := UnitsFromNames(unitNames).value;
    LeftoverIff(v, targets);
    var (gathered, leftover) := Gather(SumValue(v).value, targets);
    assert ToSum(v, unitNames) == if leftover != [] then Err(TypeError(LeftoverTermsMessage)) else CreateSum(gathered);
    assert CreateSum(gathered) != Err(TypeError(LeftoverTermsMessage));
  }

  /** A unit name toSum cannot read is a syntax error, whatever the value. */
  lemma ToSumUnknownUnit(v: NumericValue, unitNames: seq<string>, i: nat)
    requires i < |unitNames| && UnitFromName(unitNames[i]).None?
    ensures ToSum(v, unitNames) == Err(SyntaxError(InvalidConversionUnitMessage))
  {
  }

  /** Every pair of terms is in compatible units. */
  predicate CompatibleUnits(vs: seq<UnitValue>) {
    forall i, j :: 0 <= i < |vs| && 0 <= j < |vs| ==> Compatible(vs[i].unit, vs[j].unit)
  }

  /** The type a percentage folds into once it meets base type h. */
  function HintedType(h: BaseType): NumericType {
    NumericType(SingleEntry(h).exponents, h, true)
  }

  /** What a left fold of unit types holds, with `anchor` one unit it has seen:
      the anchor's own type, or, once a percentage has met the anchor's base
      type h, the type h -> 1 with hint h. */
  ghost predicate FoldState(acc: NumericType, anchor: UnitType) {
    if acc.hasPercentHint then
      acc.percentHint != Percent && acc == HintedType(acc.percentHint) && BaseTypeOf(anchor) == Some(acc.percentHint)
    else acc == TypeOfUnit(anchor)
  }

  /** The units whose type a fold state takes in without changing. */
  ghost predicate Absorbs(acc: NumericType, u: UnitType) {
    if acc.hasPercentHint then u == Percentage || BaseTypeOf(u) == Some(acc.percentHint)
    else TypeOfUnit(u) == acc
  }

  /** Two units have the same type exactly when they measure the same base type. */
  lemma TypeOfUnitIff(u: UnitType, w: UnitType)
    ensures TypeOfUnit(u) == TypeOfUnit(w) <==> BaseTypeOf(u) == BaseTypeOf(w)
  {
    if BaseTypeOf(u) != BaseTypeOf(w) {
      var b := if BaseTypeOf(u).Some? then BaseTypeOf(u).value else BaseTypeOf(w).value;
      assert TypeOfUnit(u).Exponent(b) != TypeOfUnit(w).Exponent(b);
    }
  }

  /** A hinted sum takes in a percentage or a unit of its hint's base type, and
      refuses every other unit. */
  lemma AddToHinted(h: BaseType, u: UnitType)
    requires h != Percent
    ensures AddTypes(HintedType(h), TypeOfUnit(u))
      == if u == Percentage || BaseTypeOf(u) == Some(h) then Some(HintedType(h)) else None
  {
    var t1 := HintedType(h);
    var t2 := TypeOfUnit(u).ApplyPercentHint(h);
    assert t1.Exponent(Percent) == 0 by { assert SingleEntry(h).OnlyNonZeroEntryIsOne(h); }
    MatchUpFolded(t1, t2, 0);
    if u == Percentage || BaseTypeOf(u) == Some(h) {
      FoldSingleEntries(h);
      assert t2.exponents == t1.exponents;
    } else {
      HintedRefuses(h, u);
    }
  }

  lemma HintedRefuses(h: BaseType, u: UnitType)
    requires h != Percent && u != Percentage && BaseTypeOf(u) != Some(h)
    ensures !AgreeOn(HintedType(h), TypeOfUnit(u).ApplyPercentHint(h), 0, NumBaseTypes)
  {
    var t1 := HintedType(h);
    var t2 := TypeOfUnit(u).ApplyPercentHint(h);
    var e := SingleEntry(h);
    assert e.OnlyNonZeroEntryIsOne(h);
    match BaseTypeOf(u)
    case None =>
      assert TypeOfUnit(u) == EmptyType;
      assert t2.Exponent(h) == 0 && t1.Exponent(h) == 1;
      assert t1.exponents[Index(h)] != t2.exponents[Index(h)];
    case Some(b) =>
      assert SingleEntry(b).OnlyNonZeroEntryIsOne(b);
      assert t2.Exponent(b) == 1 && t1.Exponent(b) == 0;
      assert t1.exponents[Index(b)] != t2.exponents[Index(b)];
  }

  /** Units a fold state takes in are pairwise compatible. */
  lemma AbsorbedCompatible(acc: NumericType, u: UnitType, w: UnitType)
    requires acc.hasPercentHint ==> acc.percentHint != Percent
    requires Absorbs(acc, u) && Absorbs(acc, w)
    ensures Compatible(u, w)
  {
    if !acc.hasPercentHint {
      TypeOfUnitIff(u, w);
    }
  }

  /** The unit a fold state is anchored to after it takes in u. */
  function NextAnchor(acc: NumericType, anchor: UnitType, u: UnitType): UnitType {
    if acc.hasPercentHint || anchor != Percentage then anchor else u
  }

  /** One step of the fold: a unit compatible with the anchor is always taken
      in; whenever a step succeeds, the new state takes in the new unit and
      every unit the old state took in. */
  lemma FoldStep(acc: NumericType, anchor: UnitType, u: UnitType)
    requires FoldState(acc, anchor)
    ensures Compatible(anchor, u) ==> AddTypes(acc, TypeOfUnit(u)).Some?
    ensures AddTypes(acc, TypeOfUnit(u)).Some? ==>
      var t := AddTypes(acc, TypeOfUnit(u)).value;
      FoldState(t, NextAnchor(acc, anchor, u)) && Absorbs(t, u)
      && forall w :: Absorbs(acc, w) ==> Absorbs(t, w)
  {
    if acc.hasPercentHint {
      AddToHinted(acc.percentHint, u);
    } else {
      UnitTypesAdd(anchor, u);
      forall w | Absorbs(acc, w) ensures BaseTypeOf(w) == BaseTypeOf(anchor) {
        TypeOfUnitIff(w, anchor);
      }
      if BaseTypeOf(anchor) == BaseTypeOf(u) {
        AddTypeToItself(acc);
      } else if anchor == Percentage {
        if u != Number {
          AddPercentageAndBase(BaseTypeOf(u).value);
        }
      } else if u == Percentage && anchor != Number {
        AddPercentageAndBase(BaseTypeOf(anchor).value);
      }
    }
  }

  /** A fold that succeeds ends in a state that takes in every unit it met. */
  lemma {:induction false} FoldAbsorbs(acc: NumericType, anchor: UnitType, rest: seq<UnitValue>)
    requires FoldState(acc, anchor)
    ensures FoldTypes(acc, rest).Some? ==>
      var r := FoldTypes(acc, rest).value;
      (r.hasPercentHint ==> r.percentHint != Percent)
      && (forall i :: 0 <= i < |rest| ==> Absorbs(r, rest[i].unit))
      && (forall w :: Absorbs(acc, w) ==> Absorbs(r, w))
    decreases |rest|
  {
    if rest != [] {
      var u := rest[0].unit;
      FoldStep(acc, anchor, u);
      if AddTypes(acc, TypeOfUnit(u)).Some? {
        var t := AddTypes(acc, TypeOfUnit(u)).value;
        FoldAbsorbs(t, NextAnchor(acc, anchor, u), rest[1..]);
        assert forall i :: 1 <= i < |rest| ==> rest[i] == rest[1..][i - 1];
      }
    }
  }

  /** A fold over units compatible with each other and with the anchor succeeds. */
  lemma {:induction false} FoldSucceeds(acc: NumericType, anchor: UnitType, rest: seq<UnitValue>)
    requires FoldState(acc, anchor)
    requires forall i :: 0 <= i < |rest| ==> Compatible(anchor, rest[i].unit)
    requires CompatibleUnits(rest)
    ensures FoldTypes(acc, rest).Some?
    decreases |rest|
  {
    if rest != [] {
      var u := rest[0].unit;
      FoldStep(acc, anchor, u);
      var t := AddTypes(acc, TypeOfUnit(u)).value;
      var next := NextAnchor(acc, anchor, u);
      forall i | 0 <= i < |rest[1..]| ensures Compatible(next, rest[1..][i].unit) {
        assert rest[1..][i] == rest[i + 1];
      }
      FoldSucceeds(t, next, rest[1..]);
    }
  }

  /** Creating a sum succeeds exactly when its terms are pairwise compatible. */
  lemma CreateSumIff(values: seq<UnitValue>)
    requires values != []
    ensures CreateSum(values).Ok? <==> CompatibleUnits(values)
  {
    var u0 := values[0].unit;
    var acc := TypeOfUnit(u0);
    assert FoldState(acc, u0);
    assert forall i :: 1 <= i < |values| ==> values[i] == values[1..][i - 1];
    if CompatibleUnits(values) {
      FoldSucceeds(acc, u0, values[1..]);
    }
    FoldAbsorbs(acc, u0, values[1..]);
    if CreateSum(values).Ok? {
      var r := FoldTypes(acc, values[1..]).value;
      forall i, j | 0 <= i < |values| && 0 <= j < |values| ensures Compatible(values[i].unit, values[j].unit) {
        AbsorbedCompatible(r, values[i].unit, values[j].unit);
      }
    }
  }

  /** `add` only ever builds a value whose terms are pairwise compatible. */
  lemma AddCompatible(v: NumericValue, args: seq<UnitValue>)
    requires Add(v, args).Ok?
    ensures Terms(Add(v, args).value) != [] && CompatibleUnits(Terms(Add(v, args).value))
  {
    var values := Terms(v) + args;
    if !(|values| > 0 && AllSameUnit(values)) {
      CreateSumIff(values);
    }
  }

  /** A value whose terms are pairwise compatible has a sum value: its terms
      with like terms collected. */
  lemma SumValueOfCompatible(v: NumericValue)
    requires Terms(v) != [] && CompatibleUnits(Terms(v))
    ensures SumValue(v) == Some(CollectLikeTerms(Terms(v)))
  {
    var terms := CollectLikeTerms(Terms(v));
    CollectLikeTermsFacts(Terms(v));
    assert Terms(v)[0].unit in UnitSet(terms);
    forall i | 0 <= i < |terms| ensures AddTypes(TypeOfUnit(terms[0].unit), TypeOfUnit(terms[i].unit)).Some? {
      assert terms[0].unit in UnitSet(Terms(v)) && terms[i].unit in UnitSet(Terms(v));
      var a :| 0 <= a < |Terms(v)| && Terms(v)[a].unit == terms[0].unit;
      var b :| 0 <= b < |Terms(v)| && Terms(v)[b].unit == terms[i].unit;
      UnitTypesAdd(terms[0].unit, terms[i].unit);
    }
  }

  /** Target units that are pairwise compatible. */
  predicate CompatibleTargets(targets: seq<UnitType>) {
    forall i, j :: 0 <= i < |targets| && 0 <= j < |targets| ==> Compatible(targets[i], targets[j])
  }

  /** With target units, toSum succeeds exactly when every unit of the value is
      a target and the targets are pairwise compatible. */
  lemma ToSumOkIff(v: NumericValue, unitNames: seq<string>)
    requires UnitsFromNames(unitNames).Some? && unitNames != [] && SumValue(v).Some?
    ensures ToSum(v, unitNames).Ok? <==>
      (forall x :: x in Terms(v) ==> x.unit in UnitsFromNames(unitNames).value)
      && CompatibleTargets(UnitsFromNames(unitNames).value)
  {
    var targets := UnitsFromNames(unitNames).value;
    LeftoverIff(v, targets);
    var terms := SumValue(v).value;
    GatherFacts(terms, targets);
    var gathered := Gather(terms, targets).0;
    CreateSumIff(gathered);
    assert CompatibleUnits(gathered) <==> CompatibleTargets(targets);
  }

  /** Gathering over distinct targets gives term i the whole total of target i. */
  lemma {:induction false} GatherTotals(terms: seq<UnitValue>, targets: seq<UnitType>)
    requires forall i, j :: 0 <= i < j < |targets| ==> targets[i] != targets[j]
    ensures |Gather(terms, targets).0| == |targets|
    ensures forall i :: 0 <= i < |targets| ==>
      Gather(terms, targets).0[i] == UnitValue(TotalOf(terms, targets[i]), targets[i])
    decreases |targets|
  {
    GatherFacts(terms, targets);
    if targets != [] {
      var t := targets[0];
      var rest := WithoutUnit(terms, t);
      GatherTotals(rest, targets[1..]);
      forall i | 1 <= i < |targets|
        ensures Gather(terms, targets).0[i] == UnitValue(TotalOf(terms, targets[i]), targets[i])
      {
        assert targets[1..][i - 1] == targets[i];
        WithoutUnitFacts(terms, t, targets[i]);
      }
    }
  }

  /** With distinct target units, term i of toSum's result holds the value's
      whole total in target unit i. */
  lemma ToSumTerms(v: NumericValue, unitNames: seq<string>)
    requires ToSum(v, unitNames).Ok? && unitNames != []
    requires forall i, j :: 0 <= i < j < |unitNames| ==> UnitFromName(unitNames[i]) != UnitFromName(unitNames[j])
    ensures var targets := UnitsFromNames(unitNames).value;
      var vs := Terms(ToSum(v, unitNames).value);
      |vs| == |targets| && forall i :: 0 <= i < |targets| ==> vs[i] == UnitValue(TotalOf(Terms(v), targets[i]), targets[i])
  {
    var targets := UnitsFromNames(unitNames).value;
    var terms := SumValue(v).value;
    CollectLikeTermsFacts(Terms(v));
    GatherTotals(terms, targets);
  }

  /** A value built by `add` converts to any compatible, covering list of
      distinct target units, each term holding that unit's whole total. */
  lemma AddThenToSum(x: NumericValue, args: seq<UnitValue>, unitNames: seq<string>)
    requires Add(x, args).Ok?
    requires UnitsFromNames(unitNames).Some? && unitNames != []
    requires forall i, j :: 0 <= i < j < |unitNames| ==> UnitFromName(unitNames[i]) != UnitFromName(unitNames[j])
    requires forall y :: y in Terms(Add(x, args).value) ==> y.unit in UnitsFromNames(unitNames).value
    requires CompatibleTargets(UnitsFromNames(unitNames).value)
    ensures ToSum(Add(x, args).value, unitNames).Ok?
    ensures var v := Add(x, args).value;
      var targets := UnitsFromNames(unitNames).value;
      var vs := Terms(ToSum(v, unitNames).value);
      |vs| == |targets| && forall i :: 0 <= i < |targets| ==> vs[i] == UnitValue(TotalOf(Terms(v), targets[i]), targets[i])
  {
    var v := Add(x, args).value;
    AddCompatible(x, args);
    SumValueOfCompatible(v);
    ToSumOkIff(v, unitNames);
    ToSumTerms(v, unitNames);
  }
}
