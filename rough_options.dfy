/** The rough.js option record the rough canvas renderer builds from a shape's
    parsed style: 23 named options, from which every undefined entry is then
    deleted. */
module RoughOptions {
  import opened Wrappers

  /** A JavaScript value an option can hold; `Undefined` is the missing value. */
  datatype Value = Undefined | Num(n: real) | Text(s: string) | Flag(b: bool) | Nums(ns: seq<real>)

  /** The 23 options the record names, in the order it lists them. */
  datatype OptionName =
    | Bowing | Roughness | Seed | Fill | Stroke | StrokeWidth | FillStyle | FillWeight
    | HachureAngle | HachureGap | CurveStepCount | CurveFitting | StrokeLineDash
    | StrokeLineDashOffset | FillLineDash | FillLineDashOffset | DisableMultiStroke
    | DisableMultiStrokeFill | Simplification | DashOffset | DashGap | ZigzagOffset
    | PreserveVertices

  /** The property name rough.js reads each option under. */
  function Name(k: OptionName): string {
    match k
    case Bowing => "bowing"
    case Roughness => "roughness"
    case Seed => "seed"
    case Fill => "fill"
    case Stroke => "stroke"
    case StrokeWidth => "strokeWidth"
    case FillStyle => "fillStyle"
    case FillWeight => "fillWeight"
    case HachureAngle => "hachureAngle"
    case HachureGap => "hachureGap"
    case CurveStepCount => "curveStepCount"
    case CurveFitting => "curveFitting"
    case StrokeLineDash => "strokeLineDash"
    case StrokeLineDashOffset => "strokeLineDashOffset"
    case FillLineDash => "fillLineDash"
    case FillLineDashOffset => "fillLineDashOffset"
    case DisableMultiStroke => "disableMultiStroke"
    case DisableMultiStrokeFill => "disableMultiStrokeFill"
    case Simplification => "simplification"
    case DashOffset => "dashOffset"
    case DashGap => "dashGap"
    case ZigzagOffset => "zigzagOffset"
    case PreserveVertices => "preserveVertices"
  }

  /** The options, in the order the record lists them (the order of `Object.keys`). */
  const OptionKeys: seq<OptionName> := [
    Bowing, Roughness, Seed, Fill, Stroke, StrokeWidth, FillStyle, FillWeight,
    HachureAngle, HachureGap, CurveStepCount, CurveFitting, StrokeLineDash,
    StrokeLineDashOffset, FillLineDash, FillLineDashOffset, DisableMultiStroke,
    DisableMultiStrokeFill, Simplification, DashOffset, DashGap, ZigzagOffset,
    PreserveVertices]

  /** The options copied from the style field of the same name; the other six
      are computed. */
  predicate IsPassThrough(k: OptionName) {
    !(k.Seed? || k.Fill? || k.Stroke? || k.StrokeWidth? || k.StrokeLineDash? || k.StrokeLineDashOffset?)
  }

  /** The parsed style as the option builder reads it. `fillText` and
      `strokeText` are what the fill and stroke paints' `toString()` return;
      `lineWidth` and `lineDashOffset` are the `.value` of the unit values they
      hold, `lineDash` the `.value` of each dash; `fields` holds the style's
      other fields by name (absent means undefined). */
  datatype RoughStyle = RoughStyle(
    fillText: string,
    strokeText: string,
    lineWidth: Option<real>,
    lineDash: Option<seq<real>>,
    lineDashOffset: Option<real>,
    seed: Option<real>,
    fields: map<string, Value>)

  /** `style[name]`, undefined when the style has no such field. */
  function Read(fields: map<string, Value>, name: string): Value {
    if name in fields then fields[name] else Undefined
  }

  /** `x?.value` for an optional number. */
  function NumOrUndefined(x: Option<real>): Value {
    match x
    case None => Undefined
    case Some(v) => Num(v)
  }

  /** `seed || entity`: a missing or zero seed falls back to the entity id. */
  function SeedOrEntity(seed: Option<real>, entity: nat): (r: real)
    ensures r == entity as real || (seed.Some? && r == seed.value && r != 0.0)
    ensures seed.Some? && seed.value != 0.0 ==> r == seed.value
  {
    if seed.Some? && seed.value != 0.0 then seed.value else entity as real
  }

  /** The value the record gives option k. */
  function Entry(style: RoughStyle, entity: nat, k: OptionName): Value {
    match k
    case Seed => Num(SeedOrEntity(style.seed, entity))
    case Fill => Text(style.fillText)
    case Stroke => Text(style.strokeText)
    case StrokeWidth => NumOrUndefined(style.lineWidth)
    case StrokeLineDash => Nums(style.lineDash.GetOr([]))
    case StrokeLineDashOffset => NumOrUndefined(style.lineDashOffset)
    case _ => Read(style.fields, Name(k))
  }

  /** The option record before undefined entries are removed: every option, undefined ones included. */
  function OptionLiteral(style: RoughStyle, entity: nat): map<OptionName, Value> {
    map k: OptionName | true :: Entry(style, entity, k)
  }

  /** The record with its undefined entries deleted. */
  function WithoutUndefined(m: map<OptionName, Value>): (r: map<OptionName, Value>)
    ensures forall k :: k in r <==> k in m && m[k] != Undefined
    ensures forall k :: k in r ==> r[k] == m[k]
  {
    map k | k in m && m[k] != Undefined :: m[k]
  }

  /** The options generateRoughOptions returns. */
  function RoughOptionsOf(style: RoughStyle, entity: nat): map<OptionName, Value> {
    WithoutUndefined(OptionLiteral(style, entity))
  }

  /** Every option is listed, each once. */
  lemma OptionKeysComplete()
    ensures forall k: OptionName :: k in OptionKeys
    ensures |OptionKeys| == 23
  {
    forall k: OptionName ensures k in OptionKeys {
      match k
      case Bowing => assert OptionKeys[0] == k;
      case Roughness => assert OptionKeys[1] == k;
      case Seed => assert OptionKeys[2] == k;
      case Fill => assert OptionKeys[3] == k;
      case Stroke => assert OptionKeys[4] == k;
      case StrokeWidth => assert OptionKeys[5] == k;
      case FillStyle => assert OptionKeys[6] == k;
      case FillWeight => assert OptionKeys[7] == k;
      case HachureAngle => assert OptionKeys[8] == k;
      case HachureGap => assert OptionKeys[9] == k;
      case CurveStepCount => assert OptionKeys[10] == k;
      case CurveFitting => assert OptionKeys[11] == k;
      case StrokeLineDash => assert OptionKeys[12] == k;
      case StrokeLineDashOffset => assert OptionKeys[13] == k;
      case FillLineDash => assert OptionKeys[14] == k;
      case FillLineDashOffset => assert OptionKeys[15] == k;
      case DisableMultiStroke => assert OptionKeys[16] == k;
      case DisableMultiStrokeFill => assert OptionKeys[17] == k;
      case Simplification => assert OptionKeys[18] == k;
      case DashOffset => assert OptionKeys[19] == k;
      case DashGap => assert OptionKeys[20] == k;
      case ZigzagOffset => assert OptionKeys[21] == k;
      case PreserveVertices => assert OptionKeys[22] == k;
    }
  }

  /** Builds the record, then deletes each of its keys whose value is undefined. */
  method GenerateRoughOptions(style: RoughStyle, entity: nat) returns (options: map<OptionName, Value>)
    ensures forall k :: k in options <==> Entry(style, entity, k) != Undefined
    ensures forall k :: k in options ==> options[k] == Entry(style, entity, k)
    ensures options == RoughOptionsOf(style, entity)
  {
    OptionKeysComplete();
    options := DeleteUndefined(OptionLiteral(style, entity), OptionKeys);
  }

  /** Walks `keys` over the record, deleting each key whose value is undefined
      (or that is already gone). */
  method DeleteUndefined(record: map<OptionName, Value>, keys: seq<OptionName>) returns (options: map<OptionName, Value>)
    ensures forall k :: k in options <==> k in record && (k in keys ==> record[k] != Undefined)
    ensures forall k :: k in options ==> options[k] == record[k]
  {
    options := record;
    var i := 0;
    while i < |keys|
      invariant 0 <= i <= |keys|
      invariant forall k :: k in options <==> k in record && (k in keys[..i] ==> record[k] != Undefined)
      invariant forall k :: k in options ==> options[k] == record[k]
    {
      var key := keys[i];
      if key !in options || options[key] == Undefined {
        options := options - {key};
      }
      assert keys[..i + 1] == keys[..i] + [key];
      i := i + 1;
    }
    assert keys[..i] == keys;
  }

  /** No option is left undefined; every option defined in the record is kept. */
  lemma OptionsDefinedAndKept(style: RoughStyle, entity: nat)
    ensures forall k :: k in RoughOptionsOf(style, entity) ==> RoughOptionsOf(style, entity)[k] != Undefined
    ensures forall k :: Entry(style, entity, k) != Undefined ==> k in RoughOptionsOf(style, entity)
  {
  }

  /** `seed`, `fill`, `stroke` and `strokeLineDash` are always present: the seed
      falls back to the entity id, the dash list to the empty list. */
  lemma AlwaysPresentOptions(style: RoughStyle, entity: nat)
    ensures Seed in RoughOptionsOf(style, entity) && Fill in RoughOptionsOf(style, entity)
    ensures Stroke in RoughOptionsOf(style, entity) && StrokeLineDash in RoughOptionsOf(style, entity)
    ensures RoughOptionsOf(style, entity)[Seed] == Num(SeedOrEntity(style.seed, entity))
    ensures style.seed.None? || style.seed == Some(0.0) ==> RoughOptionsOf(style, entity)[Seed] == Num(entity as real)
    ensures RoughOptionsOf(style, entity)[Fill] == Text(style.fillText)
    ensures RoughOptionsOf(style, entity)[Stroke] == Text(style.strokeText)
    ensures style.lineDash.Some? ==> RoughOptionsOf(style, entity)[StrokeLineDash] == Nums(style.lineDash.value)
    ensures style.lineDash.None? ==> RoughOptionsOf(style, entity)[StrokeLineDash] == Nums([])
  {
  }

  /** `strokeWidth` and `strokeLineDashOffset` are present exactly when the
      line width and dash offset are, and then hold their values. */
  lemma UnitOptions(style: RoughStyle, entity: nat)
    ensures StrokeWidth in RoughOptionsOf(style, entity) <==> style.lineWidth.Some?
    ensures style.lineWidth.Some? ==> RoughOptionsOf(style, entity)[StrokeWidth] == Num(style.lineWidth.value)
    ensures StrokeLineDashOffset in RoughOptionsOf(style, entity) <==> style.lineDashOffset.Some?
    ensures style.lineDashOffset.Some? ==> RoughOptionsOf(style, entity)[StrokeLineDashOffset] == Num(style.lineDashOffset.value)
  {
  }

  /** Each pass-through option is present exactly when the style defines the
      field of that name, with the style's value unchanged. */
  lemma PassThroughOptions(style: RoughStyle, entity: nat)
    ensures forall k :: IsPassThrough(k) ==>
      (k in RoughOptionsOf(style, entity) <==> Read(style.fields, Name(k)) != Undefined)
    ensures forall k :: IsPassThrough(k) && k in RoughOptionsOf(style, entity) ==>
      RoughOptionsOf(style, entity)[k] == Read(style.fields, Name(k))
  {
  }

  /** Style fields under names that are not pass-through options never reach the options. */
  lemma OtherFieldsIgnored(style: RoughStyle, entity: nat, extra: map<string, Value>)
    requires forall k :: IsPassThrough(k) ==> Name(k) !in extra
    ensures RoughOptionsOf(style.(fields := style.fields + extra), entity)
         == RoughOptionsOf(style.(fields := map n | n in style.fields && n !in extra :: style.fields[n]), entity)
  {
    var a := style.(fields := style.fields + extra);
    var b := style.(fields := map n | n in style.fields && n !in extra :: style.fields[n]);
    forall k ensures Entry(a, entity, k) == Entry(b, entity, k) {
    }
    assert OptionLiteral(a, entity) == OptionLiteral(b, entity);
  }
}
