/**
 * Local mirrors of the waveform viewer's translation types: the value tree a
 * translation returns, the shape description of a variable, the variable's
 * metadata and the translation preference. Only the variants the plugin
 * produces are kept.
 */
module Surfer {
  import opened Wrappers

  datatype ValueKind = Normal | Error

  datatype ValueRepr =
    | BitsValue(width: nat, digits: string)
    | StringValue(s: string)
    | StructValue

  datatype TranslationResult = TranslationResult(
    val: ValueRepr,
    subfields: seq<SubFieldTranslationResult>,
    kind: ValueKind)

  datatype SubFieldTranslationResult = SubFieldTranslationResult(name: string, result: TranslationResult)

  /** The shape of a variable: a compound of named sub-shapes, raw bits, or a string. */
  datatype VariableInfo =
    | Compound(subfields: seq<(string, VariableInfo)>)
    | BitsInfo
    | StringInfo

  datatype TranslationPreference = Prefer | No

  /** A variable as the viewer describes it: its scope path, its leaf name and, if known, its width. */
  datatype VariableMeta = VariableMeta(path: seq<string>, name: string, numBits: Option<nat>)

  /** A leaf result holding raw digits. */
  function BitsResult(width: nat, digits: string): (r: TranslationResult)
    ensures r.val.BitsValue? && r.val.width == width && r.val.digits == digits
    ensures r.subfields == [] && r.kind == Normal
  {
    TranslationResult(BitsValue(width, digits), [], Normal)
  }

  /**
   * The shape a value tree has: structs become compounds with the same field
   * names in the same order, strings become strings, raw digits become bits.
   * This is how the shape of a decoded value is compared with the shape the
   * projector reports.
   */
  function ShapeOf(r: TranslationResult): (info: VariableInfo)
    ensures r.val.StructValue? <==> info.Compound?
    ensures info.Compound? ==> |info.subfields| == |r.subfields|
    decreases r, 1
  {
    match r.val
    case StructValue => Compound(ShapeOfFields(r.subfields))
    case StringValue(_) => StringInfo
    case BitsValue(_, _) => BitsInfo
  }

  function ShapeOfFields(fields: seq<SubFieldTranslationResult>): (shapes: seq<(string, VariableInfo)>)
    ensures |shapes| == |fields|
    ensures forall i :: 0 <= i < |fields| ==> shapes[i].0 == fields[i].name
    decreases fields, 0
  {
    seq(|fields|, i requires 0 <= i < |fields| => (fields[i].name, ShapeOf(fields[i].result)))
  }
}
