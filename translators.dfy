/**
 * src/translators.rs: decoding a string of binary digits against a type
 * structure into a value tree, and projecting a structure to the shape the
 * viewer is told about.
 *
 * The decoder follows registry struct references through the typedef
 * registry, which can be cyclic. Every such lookup spends one unit of
 * `fuel`; with none left the field is shown as raw bits, as it is when the
 * typedef is missing. Inline nested structures are followed without fuel.
 */
module Translators {
  import opened Wrappers
  import opened Types
  import opened Surfer

  // ---------------------------------------------------------------------
  // Binary and decimal numerals
  // ---------------------------------------------------------------------

  predicate IsBinaryDigit(c: char)
  {
    c == '0' || c == '1'
  }

  predicate AllBinary(s: string)
  {
    forall i :: 0 <= i < |s| ==> IsBinaryDigit(s[i])
  }

  /** The value of a string of binary digits, most significant first. */
  function BinaryValue(s: string): (n: nat)
    ensures n < Pow2(|s|)
  {
    if |s| == 0 then 0
    else 2 * BinaryValue(s[..|s| - 1]) + (if s[|s| - 1] == '1' then 1 else 0)
  }

  /** The low `w` bits of `n` as `w` binary digits, most significant first. */
  function ToBinary(n: nat, w: nat): (s: string)
    ensures |s| == w && AllBinary(s)
  {
    if w == 0 then "" else ToBinary(n / 2, w - 1) + [if n % 2 == 1 then '1' else '0']
  }

  /** Any value below `2^w` is read back from its `w` binary digits. */
  lemma {:induction false} BinaryRoundTrip(n: nat, w: nat)
    requires n < Pow2(w)
    ensures BinaryValue(ToBinary(n, w)) == n
  {
    if w > 0 {
      BinaryRoundTrip(n / 2, w - 1);
      var s := ToBinary(n, w);
      assert s[..|s| - 1] == ToBinary(n / 2, w - 1);
    }
  }

  /**
   * Rust's `u64::from_str_radix(s, 2)`: an empty string, a lone sign, a
   * leading `-`, any other non-binary character, or a value of `2^64` or
   * more is rejected; a leading `+` is skipped and leading zeros are fine.
   */
  function ParseBinaryU64(s: string): Option<U64>
  {
    if |s| == 0 then None
    else if (s[0] == '+' || s[0] == '-') && |s| == 1 then None
    else
      var body := if s[0] == '+' then s[1..] else s;
      if AllBinary(body) && BinaryValue(body) < U64_LIMIT then Some(BinaryValue(body)) else None
  }

  /** A 64-bit value is parsed back from its binary digits at any width that holds it. */
  lemma ParseBinaryRoundTrip(n: U64, w: nat)
    requires 0 < w && n < Pow2(w)
    ensures ParseBinaryU64(ToBinary(n, w)) == Some(n)
    ensures ParseBinaryU64("+" + ToBinary(n, w)) == Some(n)
  {
    BinaryRoundTrip(n, w);
    assert ("+" + ToBinary(n, w))[1..] == ToBinary(n, w);
  }

  /** Values of `2^64` and more, signs on their own and a leading minus are all rejected. */
  lemma ParseBinaryRejects(n: nat, w: nat, s: string)
    requires U64_LIMIT <= n < Pow2(w)
    ensures ParseBinaryU64(ToBinary(n, w)) == None
    ensures ParseBinaryU64("") == None && ParseBinaryU64("+") == None && ParseBinaryU64("-") == None
    ensures ParseBinaryU64("-" + s) == None
  {
    BinaryRoundTrip(n, w);
    var m := "-" + s;
    assert !IsBinaryDigit(m[0]);
  }

  /** A sampled value such as `1x0` has a non-binary digit and is rejected. */
  lemma ParseBinaryRejectsUnknownDigits(s: string, i: nat)
    requires 0 < i < |s| && !IsBinaryDigit(s[i])
    ensures ParseBinaryU64(s) == None
  {
    if |s| > 1 && s[0] == '+' {
      assert s[1..][i - 1] == s[i];
    }
  }

  function DigitChar(d: nat): char
    requires d < 10
  {
    "0123456789"[d]
  }

  /** The value of a string of decimal digits. */
  function DecimalValue(s: string): nat
  {
    if |s| == 0 then 0
    else
      var c := s[|s| - 1];
      10 * DecimalValue(s[..|s| - 1]) + (if '0' <= c <= '9' then (c as int - '0' as int) else 0)
  }

  /** Rust's `{}` formatting of an unsigned integer. */
  function NatToDecimal(n: nat): (s: string)
    ensures 0 < |s|
    ensures forall i :: 0 <= i < |s| ==> '0' <= s[i] <= '9'
    ensures |s| > 1 ==> s[0] != '0'
    ensures DecimalValue(s) == n
  {
    if n < 10 then [DigitChar(n)]
    else
      var s := NatToDecimal(n / 10) + [DigitChar(n % 10)];
      assert s[..|s| - 1] == NatToDecimal(n / 10);
      s
  }

  // ---------------------------------------------------------------------
  // Enum values
  // ---------------------------------------------------------------------

  /** The tag-to-name table registered for `typeName`, empty when there is none. */
  function EnumMembers(typedefs: map<string, TypeStructure>, typeName: string): map<U64, string>
  {
    if typeName in typedefs && typedefs[typeName].enumDefinition.Some? then typedefs[typeName].enumDefinition.value.members
    else map[]
  }

  /** The name shown for a tag that has no member. */
  function UnknownName(tag: nat): string
  {
    "Unknown(" + NatToDecimal(tag) + ")"
  }

  /**
   * Decodes an enum value: the digits are read as a binary number (0 when
   * they do not parse) and shown by member name, or as `Unknown(<tag>)`.
   * The width the plugin passes here is unused and not modelled.
   */
  function TranslateEnum(typedefs: map<string, TypeStructure>, typeName: string, digits: string): (r: TranslationResult)
    ensures r.val.StringValue? && r.subfields == [] && r.kind == Normal
  {
    var members := EnumMembers(typedefs, typeName);
    var val := ParseBinaryU64(digits).GetOr(0);
    var name := if val in members then members[val] else UnknownName(val);
    TranslationResult(StringValue(name), [], Normal)
  }

  /** A member's tag written at any width that holds it decodes to that member's name. */
  lemma EnumRoundTrip(typedefs: map<string, TypeStructure>, typeName: string, tag: U64, w: nat)
    requires tag in EnumMembers(typedefs, typeName)
    requires 0 < w && tag < Pow2(w)
    ensures TranslateEnum(typedefs, typeName, ToBinary(tag, w)).val == StringValue(EnumMembers(typedefs, typeName)[tag])
  {
    ParseBinaryRoundTrip(tag, w);
  }

  /** A tag without a member is shown as `Unknown(<tag>)`, which is never empty. */
  lemma EnumUnknownTag(typedefs: map<string, TypeStructure>, typeName: string, tag: U64, w: nat)
    requires tag !in EnumMembers(typedefs, typeName)
    requires 0 < w && tag < Pow2(w)
    ensures TranslateEnum(typedefs, typeName, ToBinary(tag, w)).val == StringValue(UnknownName(tag))
    ensures |UnknownName(tag)| > 9
  {
    ParseBinaryRoundTrip(tag, w);
  }

  /** Digits that do not parse are read as tag 0. */
  lemma EnumUnparsedReadsZero(typedefs: map<string, TypeStructure>, typeName: string, digits: string)
    requires ParseBinaryU64(digits).None?
    ensures TranslateEnum(typedefs, typeName, digits) == TranslateEnum(typedefs, typeName, "0")
  {
    assert ParseBinaryU64("0") == Some(0) by {
      assert BinaryValue("0") == 2 * BinaryValue("") + 0;
    }
  }

  /** `11` against an enum without tag 3 reads `Unknown(3)`. */
  lemma EnumUnknownExample(typedefs: map<string, TypeStructure>, typeName: string)
    requires 3 !in EnumMembers(typedefs, typeName)
    ensures TranslateEnum(typedefs, typeName, "11").val == StringValue("Unknown(3)")
  {
    assert BinaryValue("11") == 3 by {
      assert "11"[..1] == "1";
      assert BinaryValue("1") == 1 by { assert "1"[..0] == ""; }
    }
    assert NatToDecimal(3) == "3";
  }

  // ---------------------------------------------------------------------
  // The decoder, as functions
  // ---------------------------------------------------------------------

  /** A field's label: its name, or `unnamed`. */
  function FieldName(name: Option<string>): string
  {
    name.GetOr("unnamed")
  }

  /**
   * The `w` digits starting at `processedWidth`, with the position after
   * them, or None when they run past the end of the digits.
   */
  function ExtractBitChunk(digits: string, segmentWidth: nat, processedWidth: nat): (r: Option<(string, nat)>)
    ensures r.None? <==> processedWidth + segmentWidth > |digits|
    ensures r.Some? ==> r.value.1 == processedWidth + segmentWidth && |r.value.0| == segmentWidth
    ensures r.Some? ==> r.value.0 == digits[processedWidth..processedWidth + segmentWidth]
  {
    var endIdx := processedWidth + segmentWidth;
    if endIdx > |digits| then None else Some((digits[processedWidth..endIdx], endIdx))
  }

  /** The value of `digits` read against structure `s` (translate_recursive). */
  function Decode(t: TypeRegistry, fuel: nat, s: TypeStructure, totalWidth: nat, digits: string): (r: TranslationResult)
    ensures s.enumDefinition.Some? && |s.segments| > 0 ==> r.val.StringValue?
    ensures s.enumDefinition.Some? && |s.segments| > 0 ==> r == TranslateEnum(t.typedefs, s.segments[0].typeName, digits)
    ensures s.enumDefinition.None? || |s.segments| == 0 ==> r.val.StructValue? && r.kind == Normal && |r.subfields| <= |s.segments|
    decreases fuel, s, 4
  {
    if s.enumDefinition.Some? && |s.segments| > 0 then TranslateEnum(t.typedefs, s.segments[0].typeName, digits)
    else TranslationResult(StructValue, DecodeFields(t, fuel, s, digits, 0, 0), Normal)
  }

  /** The fields for segments `i..` with `processedWidth` digits already consumed; stops at the first that does not fit. */
  function DecodeFields(t: TypeRegistry, fuel: nat, s: TypeStructure, digits: string, i: nat, processedWidth: nat)
    : (fields: seq<SubFieldTranslationResult>)
    requires i <= |s.segments|
    ensures |fields| <= |s.segments| - i
    ensures forall k :: 0 <= k < |fields| ==> fields[k].name == FieldName(s.segments[i + k].name)
    decreases fuel, s, 3, |s.segments| - i
  {
    if i == |s.segments| then []
    else
      var segment := s.segments[i];
      var segmentWidth := SegmentWidth(segment);
      match ExtractBitChunk(digits, segmentWidth, processedWidth)
      case None => []
      case Some((chunk, next)) =>
        [SubFieldTranslationResult(FieldName(segment.name), DecodeSegment(t, fuel, segment, segmentWidth, chunk))]
          + DecodeFields(t, fuel, s, digits, i + 1, next)
  }

  /** One field: an inline structure first, then the category of its type name, else raw bits. */
  function DecodeSegment(t: TypeRegistry, fuel: nat, segment: TypeSegment, segmentWidth: nat, chunk: string): TranslationResult
    decreases fuel, segment, 2
  {
    if segment.nestedStructure.Some? then Decode(t, fuel, segment.nestedStructure.value, segmentWidth, chunk)
    else if segment.typeName in t.lookup then DecodeByCategory(t, fuel, segment, t.lookup[segment.typeName], chunk, segmentWidth)
    else BitsResult(segmentWidth, chunk)
  }

  /** A field by category (translate_data_by_category). */
  function DecodeByCategory(t: TypeRegistry, fuel: nat, segment: TypeSegment, typeCategory: TypeCategory, chunk: string, segmentWidth: nat)
    : TranslationResult
    decreases fuel, segment, 1
  {
    match typeCategory
    case Enum =>
      var enumResult := TranslateEnum(t.typedefs, segment.typeName, chunk);
      if enumResult.val == StringValue("") then TranslationResult(StringValue("Error"), [], Error) else enumResult
    case Struct => DecodeCompound(t, fuel, segment, chunk, segmentWidth)
    case _ => BitsResult(segmentWidth, chunk)
  }

  /** A struct field: its registered typedef, or raw bits when it is missing or the fuel is spent. */
  function DecodeCompound(t: TypeRegistry, fuel: nat, segment: TypeSegment, chunk: string, segmentWidth: nat): TranslationResult
    decreases fuel, segment, 0
  {
    if segment.typeName in t.typedefs && fuel > 0 then Decode(t, fuel - 1, t.typedefs[segment.typeName], segmentWidth, chunk)
    else BitsResult(segmentWidth, chunk)
  }

  /** One step of the field loop: a segment that fits contributes one field, one that does not ends the fields. */
  lemma DecodeFieldsStep(t: TypeRegistry, fuel: nat, s: TypeStructure, digits: string, i: nat, processedWidth: nat)
    requires i < |s.segments|
    ensures var segment := s.segments[i];
            var w := SegmentWidth(segment);
            DecodeFields(t, fuel, s, digits, i, processedWidth) ==
              if processedWidth + w > |digits| then []
              else [SubFieldTranslationResult(FieldName(segment.name),
                      DecodeSegment(t, fuel, segment, w, digits[processedWidth..processedWidth + w]))]
                   + DecodeFields(t, fuel, s, digits, i + 1, processedWidth + w)
  {
  }

  /**
   * How one field is decoded, case by case: an inline structure decodes the
   * chunk against itself; a Struct type decodes it against its registered
   * typedef one fuel level down, or is raw bits without one; an Enum type is
   * the enum name of the chunk, or `Error` when that name is empty; every
   * other category, and a type name with no category, is raw bits.
   */
  lemma DecodeSegmentDispatch(t: TypeRegistry, fuel: nat, segment: TypeSegment, w: nat, chunk: string)
    ensures var r := DecodeSegment(t, fuel, segment, w, chunk);
            segment.nestedStructure.Some? ==> r == Decode(t, fuel, segment.nestedStructure.value, w, chunk)
    ensures var r := DecodeSegment(t, fuel, segment, w, chunk);
            segment.nestedStructure.None? && segment.typeName in t.lookup && t.lookup[segment.typeName] == Struct ==>
              r == if segment.typeName in t.typedefs && fuel > 0 then Decode(t, fuel - 1, t.typedefs[segment.typeName], w, chunk)
                   else BitsResult(w, chunk)
    ensures var r := DecodeSegment(t, fuel, segment, w, chunk);
            var e := TranslateEnum(t.typedefs, segment.typeName, chunk);
            segment.nestedStructure.None? && segment.typeName in t.lookup && t.lookup[segment.typeName] == Enum ==>
              r == if e.val == StringValue("") then TranslationResult(StringValue("Error"), [], Error) else e
    ensures var r := DecodeSegment(t, fuel, segment, w, chunk);
            segment.nestedStructure.None? && (segment.typeName !in t.lookup || t.lookup[segment.typeName] !in {Enum, Struct}) ==>
              r == BitsResult(w, chunk)
  {
    if segment.nestedStructure.None? && segment.typeName in t.lookup {
      var c := t.lookup[segment.typeName];
      assert DecodeSegment(t, fuel, segment, w, chunk) == DecodeByCategory(t, fuel, segment, c, chunk, w);
      if c == Struct {
        assert DecodeByCategory(t, fuel, segment, c, chunk, w) == DecodeCompound(t, fuel, segment, chunk, w);
      }
    }
  }

  /**
   * An enum field is an error, shown as `Error`, exactly when the member
   * name its digits select is empty; otherwise the enum result is shown as is.
   */
  lemma EnumFieldErrorIffEmptyName(t: TypeRegistry, fuel: nat, segment: TypeSegment, chunk: string, w: nat)
    ensures var enumResult := TranslateEnum(t.typedefs, segment.typeName, chunk);
            var r := DecodeByCategory(t, fuel, segment, Enum, chunk, w);
            && (r.kind == Error <==> enumResult.val == StringValue(""))
            && (r.kind == Error ==> r == TranslationResult(StringValue("Error"), [], Error))
            && (r.kind != Error ==> r == enumResult)
  {
  }

  /** A segment whose type name has no category, or a category other than Enum and Struct, is raw bits of its chunk. */
  lemma DecodeSegmentBitsFallback(t: TypeRegistry, fuel: nat, segment: TypeSegment, w: nat, chunk: string)
    requires segment.nestedStructure.None?
    requires segment.typeName !in t.lookup || t.lookup[segment.typeName] !in {Enum, Struct}
    ensures DecodeSegment(t, fuel, segment, w, chunk) == BitsResult(w, chunk)
  {
    if segment.typeName in t.lookup {
      var c := t.lookup[segment.typeName];
      assert c == Bits || c == Bool || c == Union || c == Interface;
    }
  }

  /** A struct-typed segment without a registered typedef degrades to raw bits of its chunk. */
  lemma DecodeSegmentMissingStruct(t: TypeRegistry, fuel: nat, segment: TypeSegment, w: nat, chunk: string)
    requires segment.nestedStructure.None?
    requires segment.typeName in t.lookup && t.lookup[segment.typeName] == Struct
    requires segment.typeName !in t.typedefs
    ensures DecodeSegment(t, fuel, segment, w, chunk) == BitsResult(w, chunk)
  {
    assert DecodeSegment(t, fuel, segment, w, chunk) == DecodeByCategory(t, fuel, segment, Struct, chunk, w);
    assert DecodeByCategory(t, fuel, segment, Struct, chunk, w) == DecodeCompound(t, fuel, segment, chunk, w);
  }

  /** A raw-bits field of all-zero digits shows exactly that many zeros at that width. */
  lemma AllZeroBitsLeaf(t: TypeRegistry, fuel: nat, segment: TypeSegment, n: nat)
    requires segment.nestedStructure.None? && segment.typeName !in t.lookup
    ensures var r := DecodeSegment(t, fuel, segment, n, seq(n, i => '0'));
            r.val.BitsValue? && r.val.width == n && |r.val.digits| == n
            && forall i :: 0 <= i < n ==> r.val.digits[i] == '0'
  {
  }

  /** The two-member enum {0: A, 1: B} read from one digit. */
  lemma EnumMembersExample(fuel: nat)
    ensures var e := TypeStructure(1, [TypeSegment(None, 0, 0, "E", None)], Some(EnumDefinition(map[0 := "A", 1 := "B"])));
            var t := TypeRegistry(map["E" := e], map["E" := Enum]);
            && Decode(t, fuel, e, 1, "0").val == StringValue("A")
            && Decode(t, fuel, e, 1, "1").val == StringValue("B")
            && Decode(t, fuel, e, 2, "11").val == StringValue("Unknown(3)")
  {
    var e := TypeStructure(1, [TypeSegment(None, 0, 0, "E", None)], Some(EnumDefinition(map[0 := "A", 1 := "B"])));
    var t := TypeRegistry(map["E" := e], map["E" := Enum]);
    assert EnumMembers(t.typedefs, "E") == map[0 := "A", 1 := "B"];
    assert ParseBinaryU64("0") == Some(0) by {
      assert "0"[..0] == "";
    }
    assert ParseBinaryU64("1") == Some(1) by {
      assert "1"[..0] == "";
    }
    EnumUnknownExample(t.typedefs, "E");
  }

  /**
   * A three-digit structure: a one-digit `flag` followed by an inline
   * compound `sub` holding the two-digit `x`. The digits `101` decode to
   * flag = `1` and sub.x = `01`.
   */
  lemma NestedDecodeExample(t: TypeRegistry, fuel: nat)
    requires "Bits" !in t.lookup
    ensures var sub := TypeStructure(2, [TypeSegment(Some("x"), 1, 0, "Bits", None)], None);
            var outer := TypeStructure(3, [TypeSegment(Some("flag"), 2, 2, "Bits", None),
                                           TypeSegment(Some("sub"), 1, 0, "Compound", Some(sub))], None);
            Decode(t, fuel, outer, 3, "101") ==
              TranslationResult(StructValue, [
                SubFieldTranslationResult("flag", BitsResult(1, "1")),
                SubFieldTranslationResult("sub", TranslationResult(StructValue, [
                  SubFieldTranslationResult("x", BitsResult(2, "01"))], Normal))], Normal)
  {
    var sub := TypeStructure(2, [TypeSegment(Some("x"), 1, 0, "Bits", None)], None);
    var outer := TypeStructure(3, [TypeSegment(Some("flag"), 2, 2, "Bits", None),
                                   TypeSegment(Some("sub"), 1, 0, "Compound", Some(sub))], None);
    var digits := "101";
    DecodeFieldsStep(t, fuel, outer, digits, 0, 0);
    DecodeFieldsStep(t, fuel, outer, digits, 1, 1);
    assert digits[0..1] == "1" && digits[1..3] == "01";
    DecodeFieldsStep(t, fuel, sub, "01", 0, 0);
    assert "01"[0..2] == "01";
    assert DecodeFields(t, fuel, sub, "01", 1, 2) == [];
    assert DecodeFields(t, fuel, outer, digits, 2, 3) == [];
    var x := DecodeSegment(t, fuel, sub.segments[0], 2, "01");
    assert x == BitsResult(2, "01");
    var subResult := TranslationResult(StructValue, [SubFieldTranslationResult("x", x)], Normal);
    assert Decode(t, fuel, sub, 2, "01") == subResult;
    assert DecodeSegment(t, fuel, outer.segments[1], 2, "01") == subResult;
    assert DecodeSegment(t, fuel, outer.segments[0], 1, "1") == BitsResult(1, "1");
  }

  // ---------------------------------------------------------------------
  // The decoder, as the plugin runs it
  // ---------------------------------------------------------------------

  /** Decodes `digits` against `structure`, field by field, stopping at the first field that does not fit. */
  method TranslateRecursive(t: TypeRegistry, fuel: nat, structure: TypeStructure, totalWidth: nat, digits: string)
    returns (r: TranslationResult)
    ensures r == Decode(t, fuel, structure, totalWidth, digits)
  {
    if structure.enumDefinition.Some? && |structure.segments| > 0 {
      var segment := structure.segments[0];
      return TranslateEnum(t.typedefs, segment.typeName, digits);
    }
    var subfields: seq<SubFieldTranslationResult> := [];
    var processedWidth := 0;
    var i := 0;
    ghost var target := DecodeFields(t, fuel, structure, digits, 0, 0);
    while i < |structure.segments|
      invariant 0 <= i <= |structure.segments|
      invariant subfields + DecodeFields(t, fuel, structure, digits, i, processedWidth) == target
    {
      var segment := structure.segments[i];
      var segmentWidth := SegmentWidth(segment);
      DecodeFieldsStep(t, fuel, structure, digits, i, processedWidth);
      var extracted := ExtractBitChunk(digits, segmentWidth, processedWidth);
      if extracted.None? {
        break;
      }
      var (chunkSlice, newProcessedWidth) := extracted.value;
      ghost var rest := DecodeFields(t, fuel, structure, digits, i + 1, newProcessedWidth);
      var name := segment.name.GetOr("unnamed");
      var result := DecodeSegment(t, fuel, segment, segmentWidth, chunkSlice);
      assert subfields + [SubFieldTranslationResult(name, result)] + rest == subfields + ([SubFieldTranslationResult(name, result)] + rest);
      subfields := subfields + [SubFieldTranslationResult(name, result)];
      processedWidth := newProcessedWidth;
      i := i + 1;
    }
    r := TranslationResult(StructValue, subfields, Normal);
  }

  // ---------------------------------------------------------------------
  // The shape projector
  // ---------------------------------------------------------------------

  /** The shape of structure `s` (get_struct_fields_info). */
  function GetStructFieldsInfo(t: TypeRegistry, fuel: nat, s: TypeStructure): (info: VariableInfo)
    ensures info.Compound? && |info.subfields| == |s.segments|
    ensures forall k :: 0 <= k < |s.segments| ==> info.subfields[k].0 == FieldName(s.segments[k].name)
    decreases fuel, s, 1
  {
    Compound(seq(|s.segments|, k requires 0 <= k < |s.segments| =>
      (FieldName(s.segments[k].name), SegmentInfo(t, fuel, s.segments[k]))))
  }

  /**
   * The shape of one field: a compound exactly for an inline structure or a
   * Struct type whose typedef is registered (fuel permitting), a string
   * exactly for an Enum type, raw bits otherwise.
   */
  function SegmentInfo(t: TypeRegistry, fuel: nat, segment: TypeSegment): (info: VariableInfo)
    ensures info.Compound? <==>
              segment.nestedStructure.Some?
              || (segment.typeName in t.lookup && t.lookup[segment.typeName] == Struct && segment.typeName in t.typedefs && fuel > 0)
    ensures info == StringInfo <==>
              segment.nestedStructure.None? && segment.typeName in t.lookup && t.lookup[segment.typeName] == Enum
    decreases fuel, segment, 0
  {
    if segment.nestedStructure.Some? then GetStructFieldsInfo(t, fuel, segment.nestedStructure.value)
    else
      var category := if segment.typeName in t.lookup then t.lookup[segment.typeName] else Bits;
      match category
      case Struct =>
        if segment.typeName in t.typedefs && fuel > 0 then GetStructFieldsInfo(t, fuel - 1, t.typedefs[segment.typeName])
        else BitsInfo
      case Enum => StringInfo
      case _ => BitsInfo
  }

  // ---------------------------------------------------------------------
  // Properties of the decoder
  // ---------------------------------------------------------------------

  /** Where segment `k` starts: the widths of the segments before it, summed. */
  function Offset(segs: seq<TypeSegment>, k: nat): nat
    requires k <= |segs|
  {
    if k == 0 then 0 else Offset(segs, k - 1) + SegmentWidth(segs[k - 1])
  }

  lemma {:induction false} OffsetMonotone(segs: seq<TypeSegment>, a: nat, b: nat)
    requires a <= b <= |segs|
    ensures Offset(segs, a) <= Offset(segs, b)
    decreases b - a
  {
    if a < b {
      OffsetMonotone(segs, a, b - 1);
    }
  }

  /**
   * The fields from segment `i` on stop at the first segment that runs past
   * the digits: segment `k` gets a field iff it ends within the digits.
   */
  lemma {:induction false} DecodeFieldsCount(t: TypeRegistry, fuel: nat, s: TypeStructure, digits: string, i: nat)
    requires i <= |s.segments| && Offset(s.segments, i) <= |digits|
    ensures forall k :: i <= k <= |s.segments| ==>
              (i + |DecodeFields(t, fuel, s, digits, i, Offset(s.segments, i))| >= k <==> Offset(s.segments, k) <= |digits|)
    decreases |s.segments| - i
  {
    var segs := s.segments;
    if i < |segs| {
      DecodeFieldsStep(t, fuel, s, digits, i, Offset(segs, i));
      if Offset(segs, i + 1) > |digits| {
        forall k | i < k <= |segs|
          ensures Offset(segs, k) > |digits|
        {
          OffsetMonotone(segs, i + 1, k);
        }
      } else {
        DecodeFieldsCount(t, fuel, s, digits, i + 1);
      }
    }
  }

  /** The fields from segment `i` on, when there are any: segment `i`'s field, then those from `i + 1` on. */
  lemma DecodeFieldsSplit(t: TypeRegistry, fuel: nat, s: TypeStructure, digits: string, i: nat)
    requires i < |s.segments|
    requires |DecodeFields(t, fuel, s, digits, i, Offset(s.segments, i))| > 0
    ensures SegmentField(t, fuel, s, digits, i, DecodeFields(t, fuel, s, digits, i, Offset(s.segments, i))[0])
    ensures DecodeFields(t, fuel, s, digits, i, Offset(s.segments, i))[1..]
            == DecodeFields(t, fuel, s, digits, i + 1, Offset(s.segments, i + 1))
  {
    DecodeFieldsStep(t, fuel, s, digits, i, Offset(s.segments, i));
  }

  /** Digits that cover every segment give every segment its field. */
  lemma DecodeFieldsComplete(t: TypeRegistry, fuel: nat, s: TypeStructure, digits: string)
    requires Offset(s.segments, |s.segments|) <= |digits|
    ensures |DecodeFields(t, fuel, s, digits, 0, 0)| == |s.segments|
  {
    DecodeFieldsCount(t, fuel, s, digits, 0);
  }

  /** Field `k` decodes exactly the digits of segment `k`, the segments being laid end to end from the left. */
  lemma {:induction false} DecodeFieldAt(t: TypeRegistry, fuel: nat, s: TypeStructure, digits: string, i: nat, k: nat)
    requires i <= k < |s.segments|
    requires k < i + |DecodeFields(t, fuel, s, digits, i, Offset(s.segments, i))|
    ensures SegmentField(t, fuel, s, digits, k, DecodeFields(t, fuel, s, digits, i, Offset(s.segments, i))[k - i])
    decreases k - i
  {
    if k == i {
      DecodeFieldsSplit(t, fuel, s, digits, i);
    } else {
      DecodeFieldsShift(t, fuel, s, digits, i, k);
      DecodeFieldAt(t, fuel, s, digits, i + 1, k);
    }
  }

  /** Field `k` from segment `i` on is field `k` from segment `i + 1` on, for `k` past `i`. */
  lemma DecodeFieldsShift(t: TypeRegistry, fuel: nat, s: TypeStructure, digits: string, i: nat, k: nat)
    requires i < k < |s.segments|
    requires k < i + |DecodeFields(t, fuel, s, digits, i, Offset(s.segments, i))|
    ensures k < i + 1 + |DecodeFields(t, fuel, s, digits, i + 1, Offset(s.segments, i + 1))|
    ensures DecodeFields(t, fuel, s, digits, i, Offset(s.segments, i))[k - i]
            == DecodeFields(t, fuel, s, digits, i + 1, Offset(s.segments, i + 1))[k - (i + 1)]
  {
    var fields := DecodeFields(t, fuel, s, digits, i, Offset(s.segments, i));
    DecodeFieldsSplit(t, fuel, s, digits, i);
    assert fields[k - i] == fields[1..][k - (i + 1)];
  }

  /** `f` is the field segment `k` yields: its name, and its digits (laid after those of segments `0..k`) decoded. */
  ghost predicate SegmentField(t: TypeRegistry, fuel: nat, s: TypeStructure, digits: string, k: nat, f: SubFieldTranslationResult)
  {
    && k < |s.segments|
    && Offset(s.segments, k) + SegmentWidth(s.segments[k]) <= |digits|
    && f == SubFieldTranslationResult(FieldName(s.segments[k].name),
              DecodeSegment(t, fuel, s.segments[k], SegmentWidth(s.segments[k]),
                            digits[Offset(s.segments, k)..Offset(s.segments, k) + SegmentWidth(s.segments[k])]))
  }

  /**
   * A decoded struct has one field per segment, in order, for as long as the
   * segments fit, and all of them exactly when the digits cover every segment.
   */
  lemma DecodeLayout(t: TypeRegistry, fuel: nat, s: TypeStructure, totalWidth: nat, digits: string)
    requires s.enumDefinition.None?
    ensures |Decode(t, fuel, s, totalWidth, digits).subfields| == |s.segments| <==> Offset(s.segments, |s.segments|) <= |digits|
    ensures forall k :: 0 <= k < |Decode(t, fuel, s, totalWidth, digits).subfields| ==>
              SegmentField(t, fuel, s, digits, k, Decode(t, fuel, s, totalWidth, digits).subfields[k])
  {
    var fields := DecodeFields(t, fuel, s, digits, 0, 0);
    assert Decode(t, fuel, s, totalWidth, digits).subfields == fields;
    DecodeFieldsCount(t, fuel, s, digits, 0);
    forall k | 0 <= k < |fields|
      ensures SegmentField(t, fuel, s, digits, k, fields[k])
    {
      DecodeFieldAt(t, fuel, s, digits, 0, k);
    }
  }

  /** Every raw-bits leaf of a value tree holds exactly as many digits as its width. */
  ghost predicate LeavesExact(r: TranslationResult)
    decreases r
  {
    && (r.val.BitsValue? ==> |r.val.digits| == r.val.width)
    && forall k :: 0 <= k < |r.subfields| ==> LeavesExact(r.subfields[k].result)
  }

  /** Whatever the digits, every raw-bits leaf the decoder produces is exactly one field's width. */
  lemma {:induction false} DecodeLeavesExact(t: TypeRegistry, fuel: nat, s: TypeStructure, totalWidth: nat, digits: string)
    ensures LeavesExact(Decode(t, fuel, s, totalWidth, digits))
    decreases fuel, s, 4
  {
    if !(s.enumDefinition.Some? && |s.segments| > 0) {
      var r := Decode(t, fuel, s, totalWidth, digits);
      assert r.subfields == DecodeFields(t, fuel, s, digits, 0, 0);
      DecodeFieldsLeavesExact(t, fuel, s, digits, 0, 0);
    }
  }

  lemma {:induction false} DecodeFieldsLeavesExact(t: TypeRegistry, fuel: nat, s: TypeStructure, digits: string, i: nat, processedWidth: nat)
    requires i <= |s.segments|
    ensures forall k :: 0 <= k < |DecodeFields(t, fuel, s, digits, i, processedWidth)| ==>
              LeavesExact(DecodeFields(t, fuel, s, digits, i, processedWidth)[k].result)
    decreases fuel, s, 3, |s.segments| - i
  {
    if i < |s.segments| {
      var segment := s.segments[i];
      var w := SegmentWidth(segment);
      var extracted := ExtractBitChunk(digits, w, processedWidth);
      if extracted.Some? {
        var chunk := extracted.value.0;
        var next := extracted.value.1;
        DecodeSegmentLeavesExact(t, fuel, segment, w, chunk);
        DecodeFieldsLeavesExact(t, fuel, s, digits, i + 1, next);
        var fields := DecodeFields(t, fuel, s, digits, i, processedWidth);
        var rest := DecodeFields(t, fuel, s, digits, i + 1, next);
        var head := SubFieldTranslationResult(FieldName(segment.name), DecodeSegment(t, fuel, segment, w, chunk));
        assert fields == [head] + rest;
        forall k | 0 <= k < |fields|
          ensures LeavesExact(fields[k].result)
        {
          if k > 0 {
            assert fields[k] == rest[k - 1];
            assert LeavesExact(rest[k - 1].result);
          } else {
            assert fields[0].result == DecodeSegment(t, fuel, segment, w, chunk);
          }
        }
      }
    }
  }

  lemma {:induction false} DecodeSegmentLeavesExact(t: TypeRegistry, fuel: nat, segment: TypeSegment, w: nat, chunk: string)
    requires |chunk| == w
    ensures LeavesExact(DecodeSegment(t, fuel, segment, w, chunk))
    decreases fuel, segment, 2
  {
    var r := DecodeSegment(t, fuel, segment, w, chunk);
    if segment.nestedStructure.Some? {
      DecodeLeavesExact(t, fuel, segment.nestedStructure.value, w, chunk);
    } else if segment.typeName in t.lookup {
      var category := t.lookup[segment.typeName];
      assert r == DecodeByCategory(t, fuel, segment, category, chunk, w);
      if category == Struct {
        assert r == DecodeCompound(t, fuel, segment, chunk, w);
        if segment.typeName in t.typedefs && fuel > 0 {
          DecodeLeavesExact(t, fuel - 1, t.typedefs[segment.typeName], w, chunk);
        }
      }
    }
  }

  /**
   * The digits cover structure `s` at every level: it has no enum table,
   * its segments laid end to end fit in `n` digits, and the same holds for
   * every inline structure and every registry struct the decoder follows.
   */
  ghost predicate Covers(t: TypeRegistry, fuel: nat, s: TypeStructure, n: nat)
    decreases fuel, s, 1
  {
    && s.enumDefinition.None?
    && Offset(s.segments, |s.segments|) <= n
    && forall k :: 0 <= k < |s.segments| ==> SegmentCovers(t, fuel, s.segments[k])
  }

  ghost predicate SegmentCovers(t: TypeRegistry, fuel: nat, segment: TypeSegment)
    decreases fuel, segment, 0
  {
    if segment.nestedStructure.Some? then Covers(t, fuel, segment.nestedStructure.value, SegmentWidth(segment))
    else if segment.typeName in t.lookup && t.lookup[segment.typeName] == Struct
            && segment.typeName in t.typedefs && fuel > 0 then
      Covers(t, fuel - 1, t.typedefs[segment.typeName], SegmentWidth(segment))
    else true
  }

  /**
   * When the digits cover the structure, the decoded value has exactly the
   * shape the projector reports: the same field names in the same order,
   * strings for enums and raw bits for everything else.
   */
  lemma {:induction false} ShapeAgreement(t: TypeRegistry, fuel: nat, s: TypeStructure, totalWidth: nat, digits: string)
    requires Covers(t, fuel, s, |digits|)
    ensures ShapeOf(Decode(t, fuel, s, totalWidth, digits)) == GetStructFieldsInfo(t, fuel, s)
    decreases fuel, s, 4
  {
    var fields := DecodeFields(t, fuel, s, digits, 0, 0);
    assert Decode(t, fuel, s, totalWidth, digits) == TranslationResult(StructValue, fields, Normal);
    DecodeFieldsComplete(t, fuel, s, digits);
    ShapeAgreementFields(t, fuel, s, digits);
    assert ShapeOf(TranslationResult(StructValue, fields, Normal)) == Compound(ShapeOfFields(fields));
  }

  lemma ShapeAgreementFields(t: TypeRegistry, fuel: nat, s: TypeStructure, digits: string)
    requires Covers(t, fuel, s, |digits|)
    requires |DecodeFields(t, fuel, s, digits, 0, 0)| == |s.segments|
    ensures ShapeOfFields(DecodeFields(t, fuel, s, digits, 0, 0)) == GetStructFieldsInfo(t, fuel, s).subfields
    decreases fuel, s, 3, 1
  {
    var shapes := ShapeOfFields(DecodeFields(t, fuel, s, digits, 0, 0));
    var info := GetStructFieldsInfo(t, fuel, s);
    forall k | 0 <= k < |s.segments|
      ensures shapes[k] == info.subfields[k]
    {
      ShapeAgreementField(t, fuel, s, digits, k);
    }
  }

  /** Under the same cover, field `k` of the decoded struct has the shape the projector gives segment `k`. */
  lemma {:induction false} ShapeAgreementField(t: TypeRegistry, fuel: nat, s: TypeStructure, digits: string, k: nat)
    requires Covers(t, fuel, s, |digits|)
    requires k < |DecodeFields(t, fuel, s, digits, 0, 0)|
    ensures k < |s.segments|
    ensures ShapeOfFields(DecodeFields(t, fuel, s, digits, 0, 0))[k]
            == GetStructFieldsInfo(t, fuel, s).subfields[k]
    decreases fuel, s, 3, 0
  {
    var segs := s.segments;
    var fields := DecodeFields(t, fuel, s, digits, 0, 0);
    assert Offset(segs, 0) == 0;
    DecodeFieldAt(t, fuel, s, digits, 0, k);
    assert SegmentCovers(t, fuel, segs[k]);
    SegmentFieldShape(t, fuel, s, digits, k, fields[k]);
    assert ShapeOfFields(fields)[k] == (fields[k].name, ShapeOf(fields[k].result));
    assert GetStructFieldsInfo(t, fuel, s).subfields[k] == (FieldName(segs[k].name), SegmentInfo(t, fuel, segs[k]));
  }

  /** The field a covered segment yields has the segment's name and the shape the projector gives the segment. */
  lemma {:induction false} SegmentFieldShape(t: TypeRegistry, fuel: nat, s: TypeStructure, digits: string, k: nat, f: SubFieldTranslationResult)
    requires SegmentField(t, fuel, s, digits, k, f)
    requires SegmentCovers(t, fuel, s.segments[k])
    ensures f.name == FieldName(s.segments[k].name)
    ensures ShapeOf(f.result) == SegmentInfo(t, fuel, s.segments[k])
    decreases fuel, s.segments[k], 4
  {
    var segment := s.segments[k];
    var start := Offset(s.segments, k);
    ShapeAgreementSegment(t, fuel, segment, digits[start..start + SegmentWidth(segment)]);
  }

  lemma {:induction false} ShapeAgreementSegment(t: TypeRegistry, fuel: nat, segment: TypeSegment, chunk: string)
    requires |chunk| == SegmentWidth(segment)
    requires SegmentCovers(t, fuel, segment)
    ensures ShapeOf(DecodeSegment(t, fuel, segment, SegmentWidth(segment), chunk)) == SegmentInfo(t, fuel, segment)
    decreases fuel, segment, 3
  {
    var w := SegmentWidth(segment);
    var r := DecodeSegment(t, fuel, segment, w, chunk);
    if segment.nestedStructure.Some? {
      ShapeAgreement(t, fuel, segment.nestedStructure.value, w, chunk);
    } else if segment.typeName in t.lookup {
      var category := t.lookup[segment.typeName];
      assert r == DecodeByCategory(t, fuel, segment, category, chunk, w);
      if category == Struct {
        assert r == DecodeCompound(t, fuel, segment, chunk, w);
        if segment.typeName in t.typedefs && fuel > 0 {
          ShapeAgreement(t, fuel - 1, t.typedefs[segment.typeName], w, chunk);
        }
      }
    }
  }
}
