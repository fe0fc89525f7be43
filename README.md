# G rendering core, modelled in Dafny

This project models three small pieces of the G 2D/3D rendering engine and proves
properties of them.

- **CSS numeric typing** (`numeric_type.dfy`, `unit_value.dfy`, `numeric_value_examples.dfy`).
  - A numeric type is a vector of integer exponents over the seven base types of CSS Typed OM
    Level 1: length, angle, time, frequency, resolution, flex and percent. It also carries a
    percent hint.
  - `CssTyping.CssNumericValueType` is the mutable type object. It is a class over an exponent
    array, with `setExponent`, `applyPercentHint` and the `matches*` predicates. Each of its
    methods is proved against the pure `NumericType` value it holds.
  - `CssUnitValue` models `CSSUnitValue`:
    - its `type()`;
    - `add`, with the type addition of section 4.3.2 of CSS Typed OM Level 1 and its
      percent-hint loop;
    - `toString`, which serialises a sum as `calc(a + b)`;
    - `toSum` (section 4.3.1), which collects like terms, checks the sum's type, gathers the
      terms per requested unit in argument order, rejects leftover terms, and sorts by unit name
      when no unit is named.
  - `CssNumericValueExamples` replays each `it` block of the test file: as lemmas for the value
    operations, and as methods that drive a `CssNumericValueType` object and return what the
    test observes.
- **SDF instanced mesh** (`sdf_mesh.dfy`). This is the device renderer's mesh for circles and
  ellipses.
  - It covers the merge rule and the two stroke rules.
  - It covers `getSize` and the 6-float packed style record.
  - `SdfMesh.Mesh.CreateGeometry` fills the quad, index and packed-style buffers with a loop.
  - `SdfMesh.Mesh.UpdateAttribute` rewrites the packed records of a range of objects.
  - Both hand their buffers to a `Geometry` object that records what it receives.
- **Rough.js options** (`rough_options.dfy`). `generateRoughOptions` builds a 23-entry option
  record from a parsed style. A loop then deletes every undefined entry.

`wrappers.dfy` holds the `Option` and `Result` types.

## Model

| member | source | states |
|---|---|---|
| CssTyping.TypeOfUnit | packages/g-lite/src/css/cssom/__tests__/css-numeric-value.spec.ts:7-56 | a unit's type has no hint (the hint slot reads length); a unitless value has every exponent 0; otherwise the unit's base type has exponent 1 and every other exponent is 0 |
| CssTyping.BaseTypeOf | packages/g-lite/src/css/cssom/__tests__/css-numeric-value.spec.ts:7-56 | only `number` has no base type; only `%` has base type percent |
| CssTyping.NumericType.SetExponent | packages/g-lite/src/css/cssom/__tests__/css-numeric-value.spec.ts:87-92 | the named exponent becomes n; every other exponent and the hint are unchanged |
| CssTyping.NumericType.ApplyPercentHint | packages/g-lite/src/css/cssom/__tests__/css-numeric-value.spec.ts:94-99 | the percent exponent is added to the hinted base type and becomes 0; other exponents are unchanged; the hint is recorded |
| CssTyping.CssNumericValueType.constructor | packages/g-lite/src/css/cssom/__tests__/css-numeric-value.spec.ts:87 | a new type object holds the type of its unit |
| CssTyping.CssNumericValueType.Exponent | packages/g-lite/src/css/cssom/__tests__/css-numeric-value.spec.ts:90-91 | reads the exponent of the value the object holds |
| CssTyping.CssNumericValueType.SetExponent | packages/g-lite/src/css/cssom/__tests__/css-numeric-value.spec.ts:89 | in place: the held value becomes the old value with one exponent set; the non-zero counter stays consistent |
| CssTyping.CssNumericValueType.ApplyPercentHint | packages/g-lite/src/css/cssom/__tests__/css-numeric-value.spec.ts:94 | in place: the held value becomes the old value with the percent exponent folded into the hint |
| CssTyping.CssNumericValueType.IsOnlyNonZeroEntry | packages/g-lite/src/css/cssom/__tests__/css-numeric-value.spec.ts:102-123 | answered from the non-zero counter; equals "b -> 1 is the only non-zero entry" of the held value |
| CssTyping.CssNumericValueType.HasNonZeroEntries | packages/g-lite/src/css/cssom/__tests__/css-numeric-value.spec.ts:143-159 | answered from the non-zero counter; equals "some exponent is non-zero" |
| CssTyping.CssNumericValueType.MatchesBaseType | packages/g-lite/src/css/cssom/__tests__/css-numeric-value.spec.ts:105-121 | true iff the only non-zero entry is b -> 1 and no hint is set |
| CssTyping.CssNumericValueType.MatchesBaseTypePercentage | packages/g-lite/src/css/cssom/__tests__/css-numeric-value.spec.ts:106-122 | true iff the only non-zero entry is b -> 1 or percent -> 1, whatever the hint |
| CssTyping.CssNumericValueType.MatchesPercentage | packages/g-lite/src/css/cssom/__tests__/css-numeric-value.spec.ts:125-141 | true iff the only non-zero entry is percent -> 1, whatever the hint |
| CssTyping.CssNumericValueType.MatchesNumber | packages/g-lite/src/css/cssom/__tests__/css-numeric-value.spec.ts:145-157 | true iff every exponent is 0 and no hint is set |
| CssTyping.CssNumericValueType.MatchesNumberPercentage | packages/g-lite/src/css/cssom/__tests__/css-numeric-value.spec.ts:146-158 | true iff every exponent is 0, or the only non-zero entry is percent -> 1 |
| CssTyping.MatchesBaseTypeAfterHint | packages/g-lite/src/css/cssom/__tests__/css-numeric-value.spec.ts:116-122 | a type matching base type b also matches b-percentage; after the hint b is applied it still matches b-percentage but no longer matches b |
| CssTyping.MatchesPercentageRelations | packages/g-lite/src/css/cssom/__tests__/css-numeric-value.spec.ts:125-141 | a percentage type matches number-percentage and every b-percentage, but not number and no base type; whether it matches percentage does not depend on the hint |
| CssTyping.MatchesNumberRelations | packages/g-lite/src/css/cssom/__tests__/css-numeric-value.spec.ts:143-159 | number implies number-percentage; number-percentage excludes every base type other than percent; without a hint, number holds iff every exponent is 0 |
| CssTyping.MatchesOneBaseType | packages/g-lite/src/css/cssom/__tests__/css-numeric-value.spec.ts:102-123 | a type matches at most one base type |
| CssTyping.AddTypes | packages/g-lite/src/css/cssom/__tests__/css-numeric-value.spec.ts:58-69 | the type of `a + b`; what it computes is stated by AddTypesIsTypedOmAdd, AddTypeToItself, AddPercentageAndBase, AddPercentageAndEmpty and AddTypesKeepsFolded |
| CssTyping.MatchUp | packages/g-lite/src/css/cssom/__tests__/css-numeric-value.spec.ts:58-69 | the matching loop of the addition; MatchUpIsTypedOmMatch, MatchUpFolded and MatchUpFirstDifference state its outcome |
| CssTyping.MatchUpIsTypedOmMatch | packages/g-lite/src/css/cssom/__tests__/css-numeric-value.spec.ts:58-69 | for any two types, the matching loop returns exactly what Typed OM matching defines: the first type when the vectors are equal, else the first type with some non-percent hint applied that makes both vectors equal, else failure |
| CssTyping.AddTypesIsTypedOmAdd | packages/g-lite/src/css/cssom/__tests__/css-numeric-value.spec.ts:58-69 | AddTypes equals the addition of Typed OM (two different hints fail, a hint on one side only is applied to the other, then the types are matched) whenever the second operand has percent folded away under its hint, as every unit type and every computed sum does |
| CssTyping.MatchUpFolded | packages/g-lite/src/css/cssom/__tests__/css-numeric-value.spec.ts:58-69 | with no percent exponents, the add loop succeeds iff the remaining exponents agree |
| CssTyping.MatchUpFirstDifference | packages/g-lite/src/css/cssom/__tests__/css-numeric-value.spec.ts:58-69 | at the first differing exponent the loop fails on percent; on any other base type it applies that hint to both sides and then needs agreement |
| CssTyping.AddTypeToItself | packages/g-lite/src/css/cssom/__tests__/css-numeric-value.spec.ts:58-69 | a type whose percent is folded away under its hint (every unit type and every computed sum), added to itself, gives that type |
| CssTyping.MatchUpKeepsFolded | packages/g-lite/src/css/cssom/__tests__/css-numeric-value.spec.ts:58-69 | the matching loop ends in a folded type when the first type is folded, or when the second has no percent left and the percent slot is still ahead |
| CssTyping.AddTypesKeepsFolded | packages/g-lite/src/css/cssom/__tests__/css-numeric-value.spec.ts:58-69 | whatever the operands, a sum type whose hint is set has percent exponent 0 |
| CssTyping.AddFoldedTypes | packages/g-lite/src/css/cssom/__tests__/css-numeric-value.spec.ts:58-69 | without percent and hints, addition succeeds exactly for equal vectors |
| CssTyping.AddPercentageAndBase | packages/g-lite/src/css/cssom/__tests__/css-numeric-value.spec.ts:58-69 | percent plus base type b (either order) is b -> 1 with hint b |
| CssTyping.AddPercentageAndEmpty | packages/g-lite/src/css/cssom/__tests__/css-numeric-value.spec.ts:58-69 | percent cannot be added to a unitless type |
| CssTyping.CountNonZeroUpdate | packages/g-lite/src/css/cssom/__tests__/css-numeric-value.spec.ts:89 | setting one exponent changes the non-zero count by what the old and new values say |
| CssTyping.CountNonZeroOnly | packages/g-lite/src/css/cssom/__tests__/css-numeric-value.spec.ts:102-141 | if entry i is non-zero, the count is 1 iff every other entry is 0 |
| CssUnitValue.UnitFromName | packages/g-lite/src/css/cssom/__tests__/css-numeric-value.spec.ts:7-46 | a name is read only as a unit's name or its serialised suffix |
| CssUnitValue.UnitNameRoundTrip | packages/g-lite/src/css/cssom/__tests__/css-numeric-value.spec.ts:7-46 | every unit's name, and every suffix except the empty one, reads back as that unit |
| CssUnitValue.NewUnitValue | packages/g-lite/src/css/cssom/__tests__/css-numeric-value.spec.ts:7-46 | the constructor succeeds iff the unit name is known, and keeps the value |
| CssUnitValue.UnitTypesAdd | packages/g-lite/src/css/cssom/__tests__/css-numeric-value.spec.ts:58-69 | two units' types add iff the units have the same base type, or one is `%` and the other is not unitless |
| CssUnitValue.Add | packages/g-lite/src/css/cssom/__tests__/css-numeric-value.spec.ts:58-69 | `add`; AddSameUnit, AddDifferentUnits, AddKeepsTotals and AddCompatible state what it returns |
| CssUnitValue.CreateSum | packages/g-lite/src/css/cssom/__tests__/css-numeric-value.spec.ts:58-69 | creating a sum; CreateSumIff states when it succeeds |
| CssUnitValue.TypeOfUnitIff | packages/g-lite/src/css/cssom/__tests__/css-numeric-value.spec.ts:7-56 | two units have the same type iff they measure the same base type |
| CssUnitValue.AddToHinted | packages/g-lite/src/css/cssom/__tests__/css-numeric-value.spec.ts:58-69 | a sum carrying hint h takes in `%` and every unit of base type h and stays the same; every other unit makes the addition fail |
| CssUnitValue.FoldStep | packages/g-lite/src/css/cssom/__tests__/css-numeric-value.spec.ts:58-69 | a unit compatible with a unit already summed always adds; a successful step keeps every unit already taken in and takes in the new one |
| CssUnitValue.FoldAbsorbs | packages/g-lite/src/css/cssom/__tests__/css-numeric-value.spec.ts:58-69 | a successful type fold ends in a type that takes in every unit it met |
| CssUnitValue.FoldSucceeds | packages/g-lite/src/css/cssom/__tests__/css-numeric-value.spec.ts:58-69 | a type fold over pairwise compatible units succeeds |
| CssUnitValue.CreateSumIff | packages/g-lite/src/css/cssom/__tests__/css-numeric-value.spec.ts:58-69 | creating a sum from a non-empty list succeeds iff every two of its terms are in compatible units |
| CssUnitValue.AddCompatible | packages/g-lite/src/css/cssom/__tests__/css-numeric-value.spec.ts:58-69 | every value `add` returns has at least one term, and its terms are pairwise compatible |
| CssUnitValue.AddSameUnit | packages/g-lite/src/css/cssom/__tests__/css-numeric-value.spec.ts:59 | adding values in one unit gives one value of the summed magnitude |
| CssUnitValue.AddTwoUnits | packages/g-lite/src/css/cssom/__tests__/css-numeric-value.spec.ts:59 | adding two different units gives the sum of both terms in order with the added type, or an incompatible-types error |
| CssUnitValue.AddDifferentUnits | packages/g-lite/src/css/cssom/__tests__/css-numeric-value.spec.ts:58-69 | for different units: a sum in operand order exactly when the units are compatible, a TypeError otherwise |
| CssUnitValue.AddPercentageToBase | packages/g-lite/src/css/cssom/__tests__/css-numeric-value.spec.ts:58-69 | `%` plus a dimension, in either order, succeeds with that dimension's vector and the hint on it |
| CssUnitValue.ToString | packages/g-lite/src/css/cssom/__tests__/css-numeric-value.spec.ts:77 | `toString`; AddThenToString states the `calc(a + b)` form of a two-term sum |
| CssUnitValue.AddThenToString | packages/g-lite/src/css/cssom/__tests__/css-numeric-value.spec.ts:77 | a sum of two compatible units serialises as `calc(a + b)` in operand order |
| CssUnitValue.AddKeepsTotals | packages/g-lite/src/css/cssom/__tests__/css-numeric-value.spec.ts:59 | a successful add keeps the total magnitude of every unit |
| CssUnitValue.NatToStringRoundTrip | packages/g-lite/src/css/cssom/__tests__/css-numeric-value.spec.ts:77-79 | a magnitude is written as a non-empty string of decimal digits that reads back as the same number |
| CssUnitValue.IndexOfUnit | packages/g-lite/src/css/cssom/__tests__/css-numeric-value.spec.ts:72-84 | the position of the first term in a unit, or the length if there is none |
| CssUnitValue.CollectLikeTermsFacts | packages/g-lite/src/css/cssom/__tests__/css-numeric-value.spec.ts:72-84 | collecting like terms leaves one term per unit, the same set of units and the same total per unit |
| CssUnitValue.CollectLikeTermsOfDistinct | packages/g-lite/src/css/cssom/__tests__/css-numeric-value.spec.ts:72-84 | terms already in distinct units are left as they are, in order |
| CssUnitValue.SumValue | packages/g-lite/src/css/cssom/__tests__/css-numeric-value.spec.ts:72-84 | a sum value, when it exists, has at least one term; SumValueOfCompatible states when it exists and what it is |
| CssUnitValue.UnitsFromNames | packages/g-lite/src/css/cssom/__tests__/css-numeric-value.spec.ts:78-83 | the requested units are read iff every name is known, one unit per name in order |
| CssUnitValue.StringLessTotal | packages/g-lite/src/css/cssom/__tests__/css-numeric-value.spec.ts:72 | code-unit order on names is total and asymmetric |
| CssUnitValue.StringLessTransitive | packages/g-lite/src/css/cssom/__tests__/css-numeric-value.spec.ts:72 | code-unit order on names is transitive |
| CssUnitValue.UnitNameInjective | packages/g-lite/src/css/cssom/__tests__/css-numeric-value.spec.ts:72 | different units have different names |
| CssUnitValue.SortFacts | packages/g-lite/src/css/cssom/__tests__/css-numeric-value.spec.ts:72 | sorting by unit name yields a strictly ordered permutation with the same units and totals |
| CssUnitValue.GatherFacts | packages/g-lite/src/css/cssom/__tests__/css-numeric-value.spec.ts:78-83 | one gathered term per target, in target order; each unit's total is kept; exactly the terms in no target's unit are left over |
| CssUnitValue.ToSum | packages/g-lite/src/css/cssom/__tests__/css-numeric-value.spec.ts:72-84 | `toSum`; ToSumOkIff, ToSumTerms, ToSumKeepsTotals, ToSumFollowsTargets, ToSumLeftover and ToSumUnknownUnit state its outcome |
| CssUnitValue.SumValueOfCompatible | packages/g-lite/src/css/cssom/__tests__/css-numeric-value.spec.ts:72-84 | a value whose terms are pairwise compatible has a sum value: its terms with like terms collected |
| CssUnitValue.ToSumOkIff | packages/g-lite/src/css/cssom/__tests__/css-numeric-value.spec.ts:78-83 | with units named, toSum succeeds iff every unit of the value is named and the named units are pairwise compatible |
| CssUnitValue.GatherTotals | packages/g-lite/src/css/cssom/__tests__/css-numeric-value.spec.ts:78-83 | gathering over distinct targets gives term i the whole total of target unit i |
| CssUnitValue.ToSumTerms | packages/g-lite/src/css/cssom/__tests__/css-numeric-value.spec.ts:78-79 | with distinct named units, term i of the result is the value's whole total in the i-th named unit |
| CssUnitValue.AddThenToSum | packages/g-lite/src/css/cssom/__tests__/css-numeric-value.spec.ts:72-79 | a value built by `add` converts to any list of distinct, pairwise compatible named units that covers its units, each term holding that unit's total |
| CssUnitValue.ToSumKeepsTotals | packages/g-lite/src/css/cssom/__tests__/css-numeric-value.spec.ts:78-79 | a successful toSum keeps every unit's total magnitude |
| CssUnitValue.ToSumFollowsTargets | packages/g-lite/src/css/cssom/__tests__/css-numeric-value.spec.ts:78-79 | a successful toSum with units named has one term per named unit, in argument order |
| CssUnitValue.ToSumWithoutTargets | packages/g-lite/src/css/cssom/__tests__/css-numeric-value.spec.ts:72 | toSum with no units named sorts the terms by unit name and keeps the set of units |
| CssUnitValue.LeftoverIff | packages/g-lite/src/css/cssom/__tests__/css-numeric-value.spec.ts:81-83 | when the sum value exists, gathering leaves terms over iff some term's unit is not among the targets |
| CssUnitValue.ToSumLeftover | packages/g-lite/src/css/cssom/__tests__/css-numeric-value.spec.ts:81-83 | with at least one unit named, every name known and the sum value existing, toSum fails with "There were leftover terms that were not converted" iff some term's unit was not named |
| CssUnitValue.ToSumUnknownUnit | packages/g-lite/src/css/cssom/__tests__/css-numeric-value.spec.ts:72-84 | an unknown unit name makes toSum fail with a SyntaxError |
| CssNumericValueExamples.TypesOfUnitValues | packages/g-lite/src/css/cssom/__tests__/css-numeric-value.spec.ts:7-56 | the exact exponent vectors of `10`, `10px`, `10deg` and `10%` |
| CssNumericValueExamples.TypeOfPercentPlusLength | packages/g-lite/src/css/cssom/__tests__/css-numeric-value.spec.ts:58-69 | `10% + 10px` has length 1, percent 0 and hint length |
| CssNumericValueExamples.ToStringOfPercentPlusLength | packages/g-lite/src/css/cssom/__tests__/css-numeric-value.spec.ts:77 | `10% + 10px` serialises as `calc(10% + 10px)` |
| CssNumericValueExamples.ToSumPixelsPercent | packages/g-lite/src/css/cssom/__tests__/css-numeric-value.spec.ts:78 | `toSum('px', 'percent')` gives `calc(10px + 10%)` |
| CssNumericValueExamples.ToSumPercentPixels | packages/g-lite/src/css/cssom/__tests__/css-numeric-value.spec.ts:79 | `toSum('percent', 'px')` gives `calc(10% + 10px)` |
| CssNumericValueExamples.ToSumPixelsOnly | packages/g-lite/src/css/cssom/__tests__/css-numeric-value.spec.ts:81-83 | `toSum('px')` fails with the leftover-terms TypeError |
| CssNumericValueExamples.ApplyingPercentHintMovesPower | packages/g-lite/src/css/cssom/__tests__/css-numeric-value.spec.ts:86-100 | percent 5 and length 1 with no hint, then percent 0 and length 6 with hint length |
| CssNumericValueExamples.MatchesBaseTypePercentageSteps | packages/g-lite/src/css/cssom/__tests__/css-numeric-value.spec.ts:102-123 | the five observations of matchesBaseType and matchesBaseTypePercentage |
| CssNumericValueExamples.MatchesPercentageSteps | packages/g-lite/src/css/cssom/__tests__/css-numeric-value.spec.ts:125-141 | the five observations of matchesPercentage |
| CssNumericValueExamples.MatchesNumberPercentageSteps | packages/g-lite/src/css/cssom/__tests__/css-numeric-value.spec.ts:143-159 | the four observations of matchesNumber and matchesNumberPercentage |
| SdfMesh.ShouldOmitStroke | packages/g-plugin-device-renderer/src/meshes/SDF.ts:183-189 | whether the instance leaves its stroke out; SeparateStrokeIsOmitted and VisibleStrokeDrawnOnce state it |
| SdfMesh.NeedDrawStrokeSeparately | packages/g-plugin-device-renderer/src/meshes/SDF.ts:191-197 | whether the stroke is drawn in a separate pass; SeparateStrokeIsOmitted and VisibleStrokeDrawnOnce state it |
| SdfMesh.SeparateStrokeIsOmitted | packages/g-plugin-device-renderer/src/meshes/SDF.ts:183-197 | a stroke drawn in a separate pass is always omitted from the instance; with no visible stroke, neither draws it |
| SdfMesh.VisibleStrokeDrawnOnce | packages/g-plugin-device-renderer/src/meshes/SDF.ts:183-197 | a visible stroke of positive width is omitted iff it is drawn separately iff it is dashed (non-empty, no zero entry) or its opacity is below 1 |
| SdfMesh.ShouldMerge | packages/g-plugin-device-renderer/src/meshes/SDF.ts:33-54 | the merge test; ShouldMergeSymmetric, ShouldMergeEquivalence and MergedObjectsAgree state it |
| SdfMesh.ShouldMergeSymmetric | packages/g-plugin-device-renderer/src/meshes/SDF.ts:33-54 | for a given verdict of the generic instanced check, the SDF part of the merge test does not depend on which object leads the batch |
| SdfMesh.ShouldMergeEquivalence | packages/g-plugin-device-renderer/src/meshes/SDF.ts:33-54 | with the base check passing, an object merges with itself iff it draws no separate stroke, and merging is transitive |
| SdfMesh.MergedObjectsAgree | packages/g-plugin-device-renderer/src/meshes/SDF.ts:33-54 | a merge needs the base check; neither merged object draws its stroke separately; merged objects agree on fill `isNone`; a merged object's omitted stroke has no width or is absent |
| SdfMesh.IndexOf | packages/g-plugin-device-renderer/src/meshes/SDF.ts:25 | `indexOf`: -1 iff absent, otherwise the first position holding the name |
| SdfMesh.GetSize | packages/g-plugin-device-renderer/src/meshes/SDF.ts:170-181 | the size pair of a shape; PackedRecordFields states it as the record's first two floats |
| SdfMesh.PackedRecord | packages/g-plugin-device-renderer/src/meshes/SDF.ts:72-85 | one object's 6-float style record; PackedRecordFields states its fields |
| SdfMesh.PackedRecords | packages/g-plugin-device-renderer/src/meshes/SDF.ts:72-85 | the records of a list of objects; PackedRecordsLayout and PackedRecordsAppend state their layout |
| SdfMesh.PackedRecordFields | packages/g-plugin-device-renderer/src/meshes/SDF.ts:72-85 | a record is [r, r, 0] for a circle, [rx, ry, 1] for an ellipse, [0, 0, -1] otherwise, then `radius \|\| 0`, the omit flag and 0 |
| SdfMesh.PackedRecordsLayout | packages/g-plugin-device-renderer/src/meshes/SDF.ts:72-85 | N objects give 6N floats, with object i's record at 6i |
| SdfMesh.QuadsLayout | packages/g-plugin-device-renderer/src/meshes/SDF.ts:86 | N objects give 16N floats, with the unit quad at 16i |
| SdfMesh.IndicesLayout | packages/g-plugin-device-renderer/src/meshes/SDF.ts:87 | N objects give 6N indices; quad i's are 4i + {0, 2, 1, 0, 3, 2}; all are below 4N |
| SdfMesh.BufferLayoutsAgree | packages/g-plugin-device-renderer/src/meshes/SDF.ts:92-129 | the attributes tile each declared stride; 16 bytes per vertex is 4 floats and 24 bytes per instance is 6 floats; the data sizes match |
| SdfMesh.PackedRecordsAppend | packages/g-plugin-device-renderer/src/meshes/SDF.ts:72-85 | the records of two object lists are the two record lists, concatenated |
| SdfMesh.PartialUpdateIsLocal | packages/g-plugin-device-renderer/src/meshes/SDF.ts:132-168 | writing the records of a changed range at its start index gives exactly the buffer the new object list would build |
| SdfMesh.Geometry.SetIndexBuffer | packages/g-plugin-device-renderer/src/meshes/SDF.ts:90 | records the index buffer and changes nothing else |
| SdfMesh.Geometry.SetVertexBuffer | packages/g-plugin-device-renderer/src/meshes/SDF.ts:92-129 | records the buffer under its index and changes nothing else |
| SdfMesh.Geometry.UpdateVertexBuffer | packages/g-plugin-device-renderer/src/meshes/SDF.ts:161-166 | appends the partial update and changes nothing else |
| SdfMesh.Mesh.CreateGeometry | packages/g-plugin-device-renderer/src/meshes/SDF.ts:65-130 | the geometry gets the indices of N quads, vertex count 6, the per-vertex quad buffer and the per-instance record buffer; nothing else changes |
| SdfMesh.Mesh.UpdateAttribute | packages/g-plugin-device-renderer/src/meshes/SDF.ts:132-168 | for `r`, `rx`, `ry`, `lineWidth`, `stroke`, `lineDash` or `strokeOpacity`, one update of the objects' records at startIndex is recorded; for any other name nothing changes |
| RoughOptions.SeedOrEntity | packages/g-plugin-rough-canvas-renderer/src/util.ts:35 | the style's seed when it is present and non-zero, otherwise the entity id |
| RoughOptions.OptionKeysComplete | packages/g-plugin-rough-canvas-renderer/src/util.ts:32-56 | the key list names each of the 23 options |
| RoughOptions.Entry | packages/g-plugin-rough-canvas-renderer/src/util.ts:32-56 | the value the record gives one option; AlwaysPresentOptions, UnitOptions and PassThroughOptions state it per option |
| RoughOptions.OptionLiteral | packages/g-plugin-rough-canvas-renderer/src/util.ts:32-56 | the record before deletion, one entry per option; GenerateRoughOptions starts its loop from it |
| RoughOptions.RoughOptionsOf | packages/g-plugin-rough-canvas-renderer/src/util.ts:32-63 | the returned options; OptionsDefinedAndKept, AlwaysPresentOptions, UnitOptions, PassThroughOptions and OtherFieldsIgnored state them |
| RoughOptions.WithoutUndefined | packages/g-plugin-rough-canvas-renderer/src/util.ts:58-63 | keeps exactly the defined entries, with their values |
| RoughOptions.GenerateRoughOptions | packages/g-plugin-rough-canvas-renderer/src/util.ts:32-63 | after the deletion loop an option is present iff the record gave it a defined value, and it holds that value |
| RoughOptions.DeleteUndefined | packages/g-plugin-rough-canvas-renderer/src/util.ts:58-63 | walking the keys deletes exactly the keys whose value is undefined; every other entry keeps its value |
| RoughOptions.OptionsDefinedAndKept | packages/g-plugin-rough-canvas-renderer/src/util.ts:58-63 | no option in the result is undefined; every defined option is kept |
| RoughOptions.AlwaysPresentOptions | packages/g-plugin-rough-canvas-renderer/src/util.ts:35-45 | `seed`, `fill`, `stroke` and `strokeLineDash` are always present; the seed falls back to the entity id; the dash list falls back to [] |
| RoughOptions.UnitOptions | packages/g-plugin-rough-canvas-renderer/src/util.ts:38-46 | `strokeWidth` and `strokeLineDashOffset` are present iff the line width and dash offset are, with their values |
| RoughOptions.PassThroughOptions | packages/g-plugin-rough-canvas-renderer/src/util.ts:32-56 | each of the 17 pass-through options is present iff the style defines it, with the style's value |
| RoughOptions.OtherFieldsIgnored | packages/g-plugin-rough-canvas-renderer/src/util.ts:5-29 | style fields outside the pass-through names do not affect the options |

## Left out

- The implementation of `CSSNumericValueType` and `CSSUnitValue` is not part of this model. Their behaviour is taken from the test file and from CSS Typed OM Level 1. The `matches*` predicates follow the Typed OM "match" definitions. A reading where `matchesBaseTypePercentage(d)` means `matchesBaseType(d)` or (a hint is set and it is `d`) fits the same tests; the model does not adopt it.
- Units: a fixed set of units is modelled (`number`, `%`, `px`, `em`, `rem`, `deg`, `s`, `hz`, `dppx`, `fr`); `px`, `em` and `rem` all measure length. No unit is converted to another, and unit names are matched case-sensitively.
- Other numeric operations: `sub`, `mul`, `div`, `min`, `max`, `equals` and `to` are not modelled.
- Magnitudes are integers. Floating-point values and their serialisation are not modelled.
- `add` arguments are unit values. An argument that is itself a sum is not flattened.
- CssUnitValue.SumValue: its own contract states only that a sum value is non-empty. When it exists and what it is are stated by `SumValueOfCompatible`; its like terms by `CollectLikeTermsFacts`.
- CssTyping.AddTypeToItself: it requires percent to be folded away under any hint. A hinted type that still has a percent exponent, added to itself, has that exponent folded into the hint by `AddTypes` (Typed OM would return it unchanged); no unit type and no computed sum is such a type.
- CssTyping.AddTypesIsTypedOmAdd: it requires the second operand to have percent folded away under its hint. On a second operand with the same hint and a non-zero percent exponent, `AddTypes` folds that exponent and Typed OM does not. No unit type and no computed sum is such an operand.
- `toSum()` with no unit named follows section 4.3.1 of CSS Typed OM Level 1 (terms sorted by unit name); the test file does not call it that way.
- The `Instanced` base class is not part of this model. Its merge check is the `baseMerge` parameter of `SdfMesh.ShouldMerge`. `super.createGeometry`, `super.updateAttribute` and `updateBatchedAttribute` are not modelled.
- `createMaterial` is not modelled: shader sources and the `enumToObject` defines.
- Buffer contents are sequences of reals. The `Float32Array`/`Uint32Array` storage and the byte reinterpretation in `updateAttribute` are not modelled.
- Style numbers are reals, not IEEE floats. NaN, which JavaScript treats as false in `radius || 0` and `seed || entity`, is not modelled.
- An SDF object always has a fill. An undefined fill, which makes the source throw, is not modelled.
- `fill.toString()` and `stroke.toString()` are outside the model. The style carries the text they return, so the model has no case where the fill or stroke is undefined. There `generateRoughOptions` throws (packages/g-plugin-rough-canvas-renderer/src/util.ts:36-37), and the model does not capture that error.
- Rough option values are limited to numbers, strings, booleans and number lists.
- The result is a map keyed by option name. The order of an object's keys is not modelled; `Name` gives each key's property name.
