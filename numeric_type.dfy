/** The numeric type of a CSS value (CSSNumericValueType): a vector of integer
    exponents over the seven base dimensions of CSS Typed OM, plus a percent hint.
    The value-level algebra is the datatype NumericType; the mutable object the
    tests drive is the class CssNumericValueType, proved against it. */
module CssTyping {
  import opened Wrappers

  /** The base dimensions, in the order the exponent vector stores them. */
  datatype BaseType = Length | Angle | Time | Frequency | Resolution | Flex | Percent

  const NumBaseTypes: nat := 7
  const AllBaseTypes: seq<BaseType> := [Length, Angle, Time, Frequency, Resolution, Flex, Percent]

  /** Position of a base type in the exponent vector. */
  function Index(b: BaseType): (i: nat)
    ensures i < NumBaseTypes && |AllBaseTypes| == NumBaseTypes
    ensures AllBaseTypes[i] == b
  {
    match b
    case Length => 0
    case Angle => 1
    case Time => 2
    case Frequency => 3
    case Resolution => 4
    case Flex => 5
    case Percent => 6
  }

  /** Every slot of the exponent vector belongs to exactly one base type. */
  lemma IndexOfSlot(i: nat)
    requires i < NumBaseTypes
    ensures Index(AllBaseTypes[i]) == i
  {
  }

  type Exponents = s: seq<int> | |s| == NumBaseTypes witness [0, 0, 0, 0, 0, 0, 0]

  /** The CSS units the model knows: a fixed set, several of them (px, em,
      rem) measuring the same dimension; no unit is converted to another. */
  datatype UnitType =
    | Number | Percentage
    | Pixels | Ems | Rems
    | Degrees | Seconds | Hertz | DotsPerPixel | Fraction

  /** The base type a unit measures; a plain number measures none. */
  function BaseTypeOf(u: UnitType): (r: Option<BaseType>)
    ensures r == None <==> u == Number
    ensures r == Some(Percent) <==> u == Percentage
  {
    match u
    case Number => None
    case Percentage => Some(Percent)
    case Pixels => Some(Length)
    case Ems => Some(Length)
    case Rems => Some(Length)
    case Degrees => Some(Angle)
    case Seconds => Some(Time)
    case Hertz => Some(Frequency)
    case DotsPerPixel => Some(Resolution)
    case Fraction => Some(Flex)
  }

  datatype NumericType = NumericType(exponents: Exponents, percentHint: BaseType, hasPercentHint: bool)
  {
    function Exponent(b: BaseType): int {
      exponents[Index(b)]
    }

    /** The raw setter: one exponent changes, nothing else does. */
    function SetExponent(b: BaseType, n: int): (r: NumericType)
      ensures r.Exponent(b) == n
      ensures forall o :: o != b ==> r.Exponent(o) == Exponent(o)
      ensures r.percentHint == percentHint && r.hasPercentHint == hasPercentHint
    {
      NumericType(exponents[Index(b) := n], percentHint, hasPercentHint)
    }

    /** Folds the percent exponent into `hint` and records the hint. */
    function ApplyPercentHint(hint: BaseType): (r: NumericType)
      ensures hint != Percent ==> r.Exponent(hint) == Exponent(hint) + Exponent(Percent)
      ensures r.Exponent(Percent) == 0
      ensures forall o :: o != hint && o != Percent ==> r.Exponent(o) == Exponent(o)
      ensures r.hasPercentHint && r.percentHint == hint
    {
      var moved := SetExponent(hint, Exponent(hint) + Exponent(Percent));
      var folded := moved.SetExponent(Percent, 0);
      NumericType(folded.exponents, hint, true)
    }

    /** The only non-zero entry of the type is `b` with exponent 1. */
    ghost predicate OnlyNonZeroEntryIsOne(b: BaseType) {
      Exponent(b) == 1 && forall o :: o != b ==> Exponent(o) == 0
    }

    ghost predicate HasNonZeroEntries() {
      exists b :: Exponent(b) != 0
    }

    /** Matches <length>, <angle>, ...: the only non-zero entry is b -> 1 and there is no percent hint. */
    ghost predicate MatchesBaseType(b: BaseType) {
      OnlyNonZeroEntryIsOne(b) && !hasPercentHint
    }

    /** Matches <percentage>, whatever the percent hint. */
    ghost predicate MatchesPercentage() {
      OnlyNonZeroEntryIsOne(Percent)
    }

    /** Matches <length-percentage>, <angle-percentage>, ...: the only non-zero entry is b -> 1 or percent -> 1. */
    ghost predicate MatchesBaseTypePercentage(b: BaseType) {
      OnlyNonZeroEntryIsOne(b) || OnlyNonZeroEntryIsOne(Percent)
    }

    /** Matches <number>: no non-zero entry and no percent hint. */
    ghost predicate MatchesNumber() {
      !HasNonZeroEntries() && !hasPercentHint
    }

    /** Matches <number-percentage>: no non-zero entry, or only percent -> 1. */
    ghost predicate MatchesNumberPercentage() {
      !HasNonZeroEntries() || OnlyNonZeroEntryIsOne(Percent)
    }

    /** Once a hint is recorded, the percent exponent has been folded away. */
    ghost predicate PercentFolded() {
      hasPercentHint ==> Exponent(Percent) == 0
    }
  }

  /** The type of `new CSSNumericValueType()`: all exponents 0, no hint (the
      hint slot reads `length`). */
  const EmptyType: NumericType := NumericType([0, 0, 0, 0, 0, 0, 0], Length, false)

  /** The type of a unit value: exponent 1 on the unit's base type, 0 elsewhere. */
  function TypeOfUnit(u: UnitType): (r: NumericType)
    ensures !r.hasPercentHint && r.percentHint == Length
    ensures BaseTypeOf(u) == None ==> forall o :: r.Exponent(o) == 0
    ensures BaseTypeOf(u).Some? ==> r.OnlyNonZeroEntryIsOne(BaseTypeOf(u).value)
  {
    match BaseTypeOf(u)
    case None => EmptyType
    case Some(b) => SingleEntry(b)
  }

  /** Adding two types (the typing of `a + b`): a recorded hint on one side is
      applied to the other; then, at the first base type where the exponents
      differ, percent is folded into that base type on both sides; the sum
      exists only if the exponents then agree everywhere. */
  function AddTypes(type1: NumericType, type2: NumericType): Option<NumericType>
  {
    if type1.hasPercentHint && type2.hasPercentHint && type1.percentHint != type2.percentHint then None
    else
      var t1 := if !type1.hasPercentHint && type2.hasPercentHint then type1.ApplyPercentHint(type2.percentHint) else type1;
      var t2 := if type1.hasPercentHint then type2.ApplyPercentHint(type1.percentHint) else type2;
      MatchUp(t1, t2, 0)
  }

  /** The matching loop of AddTypes, from slot `i` of the exponent vector on. */
  function MatchUp(t1: NumericType, t2: NumericType, i: nat): Option<NumericType>
    requires i <= NumBaseTypes
    decreases NumBaseTypes - i
  {
    if i == NumBaseTypes then Some(t1)
    else if t1.exponents[i] == t2.exponents[i] then MatchUp(t1, t2, i + 1)
    else
      var b := AllBaseTypes[i];
      var u1 := if b != Percent then t1.ApplyPercentHint(b) else t1;
      var u2 := if b != Percent then t2.ApplyPercentHint(b) else t2;
      if u1.exponents[i] != u2.exponents[i] then None else MatchUp(u1, u2, i + 1)
  }

  /** The two types have the same exponents in slots lo .. hi-1. */
  ghost predicate AgreeOn(t1: NumericType, t2: NumericType, lo: nat, hi: nat)
    requires hi <= NumBaseTypes
  {
    forall k :: lo <= k < hi ==> t1.exponents[k] == t2.exponents[k]
  }

  /** Addition as section 4.3.2 of CSS Typed OM Level 1 states it: two
      different percent hints cannot be added; a hint on only one side is
      applied to the other; then the two types are matched. */
  ghost function TypedOmAdd(type1: NumericType, type2: NumericType): Option<NumericType>
  {
    if type1.hasPercentHint && type2.hasPercentHint && type1.percentHint != type2.percentHint then None
    else
      var t1 := if type2.hasPercentHint && !type1.hasPercentHint then type1.ApplyPercentHint(type2.percentHint) else type1;
      var t2 := if type1.hasPercentHint && !type2.hasPercentHint then type2.ApplyPercentHint(type1.percentHint) else type2;
      TypedOmMatch(t1, t2)
  }

  /** The matching step of that addition: types with equal entries add to the
      first; otherwise the sum exists when folding percent into some base type
      other than percent, on both sides, makes the entries equal. */
  ghost function TypedOmMatch(t1: NumericType, t2: NumericType): Option<NumericType>
  {
    if t1.exponents == t2.exponents then Some(t1)
    else if exists d :: d != Percent && t1.ApplyPercentHint(d).exponents == t2.ApplyPercentHint(d).exponents then
      var d :| d != Percent && t1.ApplyPercentHint(d).exponents == t2.ApplyPercentHint(d).exponents;
      Some(t1.ApplyPercentHint(d))
    else None
  }

  lemma {:induction false} MatchUpAgreeing(t1: NumericType, t2: NumericType, i: nat)
    requires i <= NumBaseTypes && AgreeOn(t1, t2, i, NumBaseTypes)
    ensures MatchUp(t1, t2, i) == Some(t1)
    decreases NumBaseTypes - i
  {
    if i < NumBaseTypes {
      MatchUpAgreeing(t1, t2, i + 1);
    }
  }

  /** With percent already folded away on both sides, the loop folds nothing
      more: it succeeds exactly when the remaining slots agree. */
  lemma {:induction false} MatchUpFolded(t1: NumericType, t2: NumericType, i: nat)
    requires i <= NumBaseTypes
    requires t1.Exponent(Percent) == 0 && t2.Exponent(Percent) == 0
    ensures MatchUp(t1, t2, i) == if AgreeOn(t1, t2, i, NumBaseTypes) then Some(t1) else None
    decreases NumBaseTypes - i
  {
    if i < NumBaseTypes {
      MatchUpFolded(t1, t2, i + 1);
      if t1.exponents[i] != t2.exponents[i] {
        var b := AllBaseTypes[i];
        IndexOfSlot(i);
        assert b != Percent;
        var u1 := t1.ApplyPercentHint(b);
        var u2 := t2.ApplyPercentHint(b);
        assert u1.Exponent(b) == t1.Exponent(b) && u2.Exponent(b) == t2.Exponent(b);
        assert u1.exponents[i] != u2.exponents[i];
      }
    }
  }

  /** The loop's outcome is decided at the first slot j where the two sides differ. */
  lemma {:induction false} MatchUpFirstDifference(t1: NumericType, t2: NumericType, i: nat, j: nat)
    requires i <= j < NumBaseTypes
    requires AgreeOn(t1, t2, i, j) && t1.exponents[j] != t2.exponents[j]
    ensures AllBaseTypes[j] == Percent ==> MatchUp(t1, t2, i) == None
    ensures AllBaseTypes[j] != Percent ==>
      var u1 := t1.ApplyPercentHint(AllBaseTypes[j]);
      var u2 := t2.ApplyPercentHint(AllBaseTypes[j]);
      MatchUp(t1, t2, i) == if AgreeOn(u1, u2, j, NumBaseTypes) then Some(u1) else None
    decreases j - i
  {
    if i < j {
      MatchUpFirstDifference(t1, t2, i + 1, j);
    } else if AllBaseTypes[j] != Percent {
      var u1 := t1.ApplyPercentHint(AllBaseTypes[j]);
      var u2 := t2.ApplyPercentHint(AllBaseTypes[j]);
      MatchUpFolded(u1, u2, j + 1);
    }
  }

  /** The first slot where two different exponent vectors differ. */
  lemma FirstDifference(t1: NumericType, t2: NumericType) returns (j: nat)
    requires t1.exponents != t2.exponents
    ensures j < NumBaseTypes && AgreeOn(t1, t2, 0, j) && t1.exponents[j] != t2.exponents[j]
  {
    j := 0;
    while t1.exponents[j] == t2.exponents[j]
      invariant j < NumBaseTypes && AgreeOn(t1, t2, 0, j)
      invariant exists k :: j <= k < NumBaseTypes && t1.exponents[k] != t2.exponents[k]
      decreases NumBaseTypes - j
    {
      j := j + 1;
    }
  }

  /** The matching loop computes exactly the matching step CSS Typed OM defines. */
  lemma MatchUpIsTypedOmMatch(t1: NumericType, t2: NumericType)
    ensures MatchUp(t1, t2, 0) == TypedOmMatch(t1, t2)
  {
    if t1.exponents == t2.exponents {
      MatchUpAgreeing(t1, t2, 0);
    } else {
      var j := FirstDifference(t1, t2);
      MatchUpFirstDifference(t1, t2, 0, j);
      var bj := AllBaseTypes[j];
      IndexOfSlot(j);
      if bj == Percent {
        forall d | d != Percent
          ensures t1.ApplyPercentHint(d).exponents != t2.ApplyPercentHint(d).exponents
        {
          assert Index(d) < j;
          assert t1.ApplyPercentHint(d).Exponent(d) != t2.ApplyPercentHint(d).Exponent(d);
        }
      } else {
        var u1 := t1.ApplyPercentHint(bj);
        var u2 := t2.ApplyPercentHint(bj);
        forall d | d != Percent && d != bj
          ensures t1.ApplyPercentHint(d).exponents != t2.ApplyPercentHint(d).exponents
        {
          assert t1.ApplyPercentHint(d).Exponent(bj) != t2.ApplyPercentHint(d).Exponent(bj);
        }
        assert AgreeOn(u1, u2, j, NumBaseTypes) <==> u1.exponents == u2.exponents by {
          forall k | 0 <= k < j ensures u1.exponents[k] == u2.exponents[k] {
            IndexOfSlot(k);
            assert u1.Exponent(AllBaseTypes[k]) == t1.Exponent(AllBaseTypes[k]);
            assert u2.Exponent(AllBaseTypes[k]) == t2.Exponent(AllBaseTypes[k]);
          }
        }
      }
    }
  }

  /** AddTypes computes exactly the sum CSS Typed OM defines, whenever the
      second operand keeps the folded-percent invariant (as every unit's type
      and every computed sum does). Without it the two can part: AddTypes also
      applies the first operand's hint to a second operand carrying the same
      hint, where CSS Typed OM leaves that operand as it is. */
  lemma AddTypesIsTypedOmAdd(type1: NumericType, type2: NumericType)
    requires type2.PercentFolded()
    ensures AddTypes(type1, type2) == TypedOmAdd(type1, type2)
  {
    if !(type1.hasPercentHint && type2.hasPercentHint && type1.percentHint != type2.percentHint) {
      var t1 := if !type1.hasPercentHint && type2.hasPercentHint then type1.ApplyPercentHint(type2.percentHint) else type1;
      if type1.hasPercentHint && type2.hasPercentHint {
        var t2 := type2.ApplyPercentHint(type1.percentHint);
        EqualExponents(t2, type2);
        assert t2 == type2;
      }
      MatchUpIsTypedOmMatch(t1, if type1.hasPercentHint then type2.ApplyPercentHint(type1.percentHint) else type2);
    }
  }

  /** Adding a type to itself gives it back, once any hint has folded percent away. */
  lemma AddTypeToItself(t: NumericType)
    requires t.PercentFolded()
    ensures AddTypes(t, t) == Some(t)
  {
    if t.hasPercentHint {
      var t2 := t.ApplyPercentHint(t.percentHint);
      assert t2.exponents == t.exponents by {
        forall k | 0 <= k < NumBaseTypes ensures t2.exponents[k] == t.exponents[k] {
          IndexOfSlot(k);
          assert t2.Exponent(AllBaseTypes[k]) == t.Exponent(AllBaseTypes[k]);
        }
      }
      MatchUpAgreeing(t, t2, 0);
    } else {
      MatchUpAgreeing(t, t, 0);
    }
  }

  /** The matching loop ends in a folded type, even from a first type whose
      hint has not folded percent away, as long as the second type has no
      percent left: the two then differ at percent unless a hint is applied
      on the way, and a difference at percent makes the loop fail. */
  lemma {:induction false} MatchUpKeepsFolded(t1: NumericType, t2: NumericType, i: nat)
    requires i <= NumBaseTypes
    requires t1.PercentFolded() || (t2.Exponent(Percent) == 0 && i <= Index(Percent))
    ensures MatchUp(t1, t2, i).Some? ==> MatchUp(t1, t2, i).value.PercentFolded()
    decreases NumBaseTypes - i
  {
    if i < NumBaseTypes {
      var b := AllBaseTypes[i];
      if t1.exponents[i] == t2.exponents[i] {
        MatchUpKeepsFolded(t1, t2, i + 1);
      } else if b != Percent {
        MatchUpKeepsFolded(t1.ApplyPercentHint(b), t2.ApplyPercentHint(b), i + 1);
      }
    }
  }

  /** A sum's type keeps the invariant that a recorded hint has folded percent away. */
  lemma AddTypesKeepsFolded(type1: NumericType, type2: NumericType)
    ensures AddTypes(type1, type2).Some? ==> AddTypes(type1, type2).value.PercentFolded()
  {
    if !(type1.hasPercentHint && type2.hasPercentHint && type1.percentHint != type2.percentHint) {
      var t1 := if !type1.hasPercentHint && type2.hasPercentHint then type1.ApplyPercentHint(type2.percentHint) else type1;
      var t2 := if type1.hasPercentHint then type2.ApplyPercentHint(type1.percentHint) else type2;
      MatchUpKeepsFolded(t1, t2, 0);
    }
  }

  /** The type with the single entry b -> 1. */
  function SingleEntry(b: BaseType): (t: NumericType)
    ensures t.OnlyNonZeroEntryIsOne(b) && !t.hasPercentHint
  {
    EmptyType.SetExponent(b, 1)
  }

  lemma EqualExponents(t1: NumericType, t2: NumericType)
    requires forall o :: t1.Exponent(o) == t2.Exponent(o)
    ensures t1.exponents == t2.exponents
  {
    forall k | 0 <= k < NumBaseTypes ensures t1.exponents[k] == t2.exponents[k] {
      IndexOfSlot(k);
      assert t1.Exponent(AllBaseTypes[k]) == t2.Exponent(AllBaseTypes[k]);
    }
  }

  /** Folding percent into b turns a percentage into b -> 1, and leaves b -> 1 as it is. */
  lemma FoldSingleEntries(b: BaseType)
    requires b != Percent
    ensures SingleEntry(Percent).ApplyPercentHint(b) == NumericType(SingleEntry(b).exponents, b, true)
    ensures SingleEntry(b).ApplyPercentHint(b) == NumericType(SingleEntry(b).exponents, b, true)
  {
    var p, q := SingleEntry(Percent), SingleEntry(b);
    assert forall o :: p.ApplyPercentHint(b).Exponent(o) == q.Exponent(o) by {
      forall o ensures p.ApplyPercentHint(b).Exponent(o) == q.Exponent(o) {
        if o != b && o != Percent { assert p.Exponent(o) == 0; }
      }
    }
    EqualExponents(p.ApplyPercentHint(b), q);
    EqualExponents(q.ApplyPercentHint(b), q);
  }

  /** The type of a percentage plus a value of base type b, in either order:
      percent is absorbed into b and b becomes the hint. */
  lemma AddPercentageAndBase(b: BaseType)
    requires b != Percent
    ensures AddTypes(SingleEntry(Percent), SingleEntry(b)) == Some(NumericType(SingleEntry(b).exponents, b, true))
    ensures AddTypes(SingleEntry(b), SingleEntry(Percent)) == Some(NumericType(SingleEntry(b).exponents, b, true))
  {
    var p, q := SingleEntry(Percent), SingleEntry(b);
    var j := Index(b);
    assert AgreeOn(p, q, 0, j) by {
      forall k | 0 <= k < j ensures p.exponents[k] == q.exponents[k] {
        IndexOfSlot(k);
        assert p.Exponent(AllBaseTypes[k]) == 0 == q.Exponent(AllBaseTypes[k]);
      }
    }
    assert p.Exponent(b) == 0;
    FoldSingleEntries(b);
    MatchUpFirstDifference(p, q, 0, j);
    MatchUpFirstDifference(q, p, 0, j);
  }

  /** Two types without a hint and without a percent entry add only when equal. */
  lemma AddFoldedTypes(t1: NumericType, t2: NumericType)
    requires !t1.hasPercentHint && !t2.hasPercentHint
    requires t1.Exponent(Percent) == 0 && t2.Exponent(Percent) == 0
    ensures AddTypes(t1, t2) == if t1.exponents == t2.exponents then Some(t1) else None
  {
    MatchUpFolded(t1, t2, 0);
    if AgreeOn(t1, t2, 0, NumBaseTypes) {
      assert t1.exponents == t2.exponents;
    }
  }

  /** A percentage and a plain number cannot be added, in either order: they
      first differ at percent, where no hint can be applied. */
  lemma AddPercentageAndEmpty()
    ensures AddTypes(SingleEntry(Percent), EmptyType) == None
    ensures AddTypes(EmptyType, SingleEntry(Percent)) == None
  {
    var p := SingleEntry(Percent);
    var j := Index(Percent);
    assert AgreeOn(p, EmptyType, 0, j) && AgreeOn(EmptyType, p, 0, j) by {
      forall k | 0 <= k < j ensures p.exponents[k] == 0 {
        IndexOfSlot(k);
        assert p.Exponent(AllBaseTypes[k]) == 0;
      }
    }
    MatchUpFirstDifference(p, EmptyType, 0, j);
    MatchUpFirstDifference(EmptyType, p, 0, j);
  }

  /** Matching rules of CSS Typed OM: how the match predicates relate. */
  lemma MatchesBaseTypeAfterHint(t: NumericType, b: BaseType)
    requires b != Percent && t.MatchesBaseType(b)
    ensures t.MatchesBaseTypePercentage(b)
    ensures t.ApplyPercentHint(b).MatchesBaseTypePercentage(b)
    ensures !t.ApplyPercentHint(b).MatchesBaseType(b)
  {
    var h := t.ApplyPercentHint(b);
    assert h.OnlyNonZeroEntryIsOne(b) by {
      forall o | o != b ensures h.Exponent(o) == 0 {
        if o != Percent { assert h.Exponent(o) == t.Exponent(o); }
      }
    }
  }

  lemma MatchesPercentageRelations(t: NumericType)
    requires t.MatchesPercentage()
    ensures t.MatchesNumberPercentage() && !t.MatchesNumber()
    ensures forall b :: b != Percent ==> t.MatchesBaseTypePercentage(b) && !t.MatchesBaseType(b)
    ensures forall hint: BaseType, has: bool :: NumericType(t.exponents, hint, has).MatchesPercentage()
  {
    assert t.Exponent(Percent) != 0;
    forall hint: BaseType, has: bool ensures NumericType(t.exponents, hint, has).MatchesPercentage() {
      var h := NumericType(t.exponents, hint, has);
      assert forall o :: h.Exponent(o) == t.Exponent(o);
    }
  }

  lemma MatchesNumberRelations(t: NumericType)
    ensures t.MatchesNumber() ==> t.MatchesNumberPercentage()
    ensures t.MatchesNumberPercentage() ==> forall b :: b != Percent ==> !t.MatchesBaseType(b)
    ensures !t.hasPercentHint ==> (t.MatchesNumber() <==> forall b :: t.Exponent(b) == 0)
  {
    if t.MatchesNumberPercentage() {
      forall b | b != Percent ensures !t.MatchesBaseType(b) {
        assert t.Exponent(b) == 0;
      }
    }
  }

  /** A type matches at most one base type. */
  lemma MatchesOneBaseType(t: NumericType, b: BaseType, c: BaseType)
    requires t.MatchesBaseType(b) && t.MatchesBaseType(c)
    ensures b == c
  {
    assert t.Exponent(b) == 1;
  }

  /** Number of non-zero entries of an exponent vector. */
  function CountNonZero(s: seq<int>): (n: nat)
    ensures n <= |s|
  {
    if s == [] then 0 else (if s[0] != 0 then 1 else 0) + CountNonZero(s[1..])
  }

  lemma {:induction false} CountNonZeroUpdate(s: seq<int>, i: nat, n: int)
    requires i < |s|
    ensures CountNonZero(s[i := n])
         == CountNonZero(s) - (if s[i] != 0 then 1 else 0) + (if n != 0 then 1 else 0)
  {
    if i == 0 {
      assert s[i := n][1..] == s[1..];
    } else {
      assert s[i := n][1..] == s[1..][i - 1 := n];
      CountNonZeroUpdate(s[1..], i - 1, n);
    }
  }

  lemma {:induction false} CountNonZeroNone(s: seq<int>)
    ensures CountNonZero(s) == 0 <==> forall k :: 0 <= k < |s| ==> s[k] == 0
  {
    if s != [] {
      CountNonZeroNone(s[1..]);
      assert forall k :: 1 <= k < |s| ==> s[k] == s[1..][k - 1];
    }
  }

  lemma {:induction false} CountNonZeroOnly(s: seq<int>, i: nat)
    requires i < |s|
    ensures s[i] != 0 ==> (CountNonZero(s) == 1 <==> forall k :: 0 <= k < |s| && k != i ==> s[k] == 0)
  {
    assert forall k :: 1 <= k < |s| ==> s[k] == s[1..][k - 1];
    CountNonZeroNone(s[1..]);
    if i > 0 {
      CountNonZeroOnly(s[1..], i - 1);
    }
  }

  /** The entry-wise facts the object's counter answers, stated over slots. */
  lemma OnlyEntryOverSlots(t: NumericType, b: BaseType)
    ensures t.OnlyNonZeroEntryIsOne(b)
        <==> t.exponents[Index(b)] == 1 && forall k :: 0 <= k < NumBaseTypes && k != Index(b) ==> t.exponents[k] == 0
  {
    if forall k :: 0 <= k < NumBaseTypes && k != Index(b) ==> t.exponents[k] == 0 {
      forall o | o != b ensures t.Exponent(o) == 0 {
        assert Index(o) != Index(b);
      }
    }
    if forall o :: o != b ==> t.Exponent(o) == 0 {
      forall k | 0 <= k < NumBaseTypes && k != Index(b) ensures t.exponents[k] == 0 {
        IndexOfSlot(k);
        assert t.Exponent(AllBaseTypes[k]) == 0;
      }
    }
  }

  lemma NoEntryOverSlots(t: NumericType)
    ensures !t.HasNonZeroEntries() <==> forall k :: 0 <= k < NumBaseTypes ==> t.exponents[k] == 0
  {
    if !t.HasNonZeroEntries() {
      forall k | 0 <= k < NumBaseTypes ensures t.exponents[k] == 0 {
        IndexOfSlot(k);
        assert t.Exponent(AllBaseTypes[k]) == 0;
      }
    }
    if forall k :: 0 <= k < NumBaseTypes ==> t.exponents[k] == 0 {
      forall o ensures t.Exponent(o) == 0 {
        assert t.exponents[Index(o)] == 0;
      }
    }
  }

  /** CSSNumericValueType: the exponents live in an array, beside a count of
      their non-zero entries so that the match predicates need no scan. */
  class CssNumericValueType {
    var exponents: array<int>
    var numNonZeroEntries: nat
    var percentHint: BaseType
    var hasPercentHint: bool

    ghost predicate Valid()
      reads this, exponents
    {
      exponents.Length == NumBaseTypes && numNonZeroEntries == CountNonZero(exponents[..])
    }

    /** The type this object stands for. */
    ghost function Value(): NumericType
      reads this, exponents
      requires Valid()
    {
      NumericType(exponents[..], percentHint, hasPercentHint)
    }

    /** `new CSSNumericValueType(unit)`; with no argument the unit is Number. */
    constructor (unit: UnitType)
      ensures Valid() && fresh(exponents)
      ensures Value() == TypeOfUnit(unit)
    {
      exponents := new int[NumBaseTypes](_ => 0);
      numNonZeroEntries := 0;
      percentHint := Length;
      hasPercentHint := false;
      new;
      assert exponents[..] == [0, 0, 0, 0, 0, 0, 0];
      match BaseTypeOf(unit)
      case Some(b) => SetExponent(b, 1);
      case None =>
    }

    function Exponent(b: BaseType): (e: int)
      reads this, exponents
      requires Valid()
      ensures e == Value().Exponent(b)
    {
      exponents[Index(b)]
    }

    method SetExponent(b: BaseType, n: int)
      requires Valid()
      modifies this, exponents
      ensures Valid() && exponents == old(exponents)
      ensures Value() == old(Value()).SetExponent(b, n)
    {
      var i := Index(b);
      CountNonZeroUpdate(exponents[..], i, n);
      numNonZeroEntries := numNonZeroEntries - (if exponents[i] != 0 then 1 else 0) + (if n != 0 then 1 else 0);
      exponents[i] := n;
      assert exponents[..] == old(exponents[..])[i := n];
    }

    method ApplyPercentHint(hint: BaseType)
      requires Valid()
      modifies this, exponents
      ensures Valid() && exponents == old(exponents)
      ensures Value() == old(Value()).ApplyPercentHint(hint)
    {
      SetExponent(hint, Exponent(hint) + Exponent(Percent));
      SetExponent(Percent, 0);
      percentHint := hint;
      hasPercentHint := true;
    }

    function IsOnlyNonZeroEntry(b: BaseType): (r: bool)
      reads this, exponents
      requires Valid()
      ensures r == Value().OnlyNonZeroEntryIsOne(b)
    {
      OnlyEntryOverSlots(Value(), b);
      CountNonZeroOnly(exponents[..], Index(b));
      numNonZeroEntries == 1 && exponents[Index(b)] == 1
    }

    function HasNonZeroEntries(): (r: bool)
      reads this, exponents
      requires Valid()
      ensures r == Value().HasNonZeroEntries()
    {
      NoEntryOverSlots(Value());
      CountNonZeroNone(exponents[..]);
      numNonZeroEntries != 0
    }

    function MatchesBaseType(b: BaseType): (r: bool)
      reads this, exponents
      requires Valid()
      ensures r == Value().MatchesBaseType(b)
    {
      IsOnlyNonZeroEntry(b) && !hasPercentHint
    }

    function MatchesPercentage(): (r: bool)
      reads this, exponents
      requires Valid()
      ensures r == Value().MatchesPercentage()
    {
      IsOnlyNonZeroEntry(Percent)
    }

    function MatchesBaseTypePercentage(b: BaseType): (r: bool)
      reads this, exponents
      requires Valid()
      ensures r == Value().MatchesBaseTypePercentage(b)
    {
      IsOnlyNonZeroEntry(b) || IsOnlyNonZeroEntry(Percent)
    }

    function MatchesNumber(): (r: bool)
      reads this, exponents
      requires Valid()
      ensures r == Value().MatchesNumber()
    {
      !HasNonZeroEntries() && !hasPercentHint
    }

    function MatchesNumberPercentage(): (r: bool)
      reads this, exponents
      requires Valid()
      ensures r == Value().MatchesNumberPercentage()
    {
      !HasNonZeroEntries() || IsOnlyNonZeroEntry(Percent)
    }
  }
}
