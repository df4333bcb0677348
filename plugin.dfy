/**
 * src/lib.rs: the plugin's entry points. Each one resolves the variable's
 * type name from the module registry, looks the name up in the category
 * table (a miss counts as raw bits) and dispatches on the category. The
 * registries are parameters here; the plugin keeps them in locked globals.
 */
module Plugin {
  import opened Wrappers
  import opened Types
  import opened Surfer
  import opened Helper
  import opened Translators

  // ---------------------------------------------------------------------
  // Digits and width
  // ---------------------------------------------------------------------

  /** `n` zero digits. */
  function Zeros(n: nat): (z: string)
    ensures |z| == n && forall i :: 0 <= i < n ==> z[i] == '0'
  {
    seq(n, i => '0')
  }

  /**
   * The sampled digits left-padded with zeros up to `width`; digits longer
   * than `width` are kept whole.
   */
  function PadDigits(digits: string, width: nat): (p: string)
    ensures |p| == if width > |digits| then width else |digits|
    ensures p[|p| - |digits|..] == digits
    ensures forall i :: 0 <= i < |p| - |digits| ==> p[i] == '0'
  {
    Zeros(if width > |digits| then width - |digits| else 0) + digits
  }

  /** The width a variable is shown at: its declared bit count, else the number of digits sampled. */
  function Width(variable: VariableMeta, digits: string): nat
  {
    variable.numBits.GetOr(|digits|)
  }

  /** The category of a type name; a name missing from the table counts as raw bits. */
  function CategoryOf(t: TypeRegistry, typeName: string): TypeCategory
  {
    if typeName in t.lookup then t.lookup[typeName] else Bits
  }

  const UnresolvedPrefix: string := "Failed to determine type for variable: "
  const MissingStructPrefix: string := "Struct definition missing for: "

  // ---------------------------------------------------------------------
  // The entry points
  // ---------------------------------------------------------------------

  /**
   * translates: the plugin claims exactly the variables whose type name it
   * can resolve. A variable whose scope, module or instance is unknown, or
   * whose name has no recognised form, is declined; a ported variable is
   * claimed iff its instance has a port of that name; a full variable is
   * claimed iff its instance has a port that is not ignored.
   */
  function Translates(blocks: BlockRegistry, variable: VariableMeta): (r: TranslationPreference)
    ensures var cm := CurrentModule(blocks.maps, blocks.modules, variable.path);
            var (instance, format) := ParseSignalName(variable.name);
            var resolved := cm.Success? && cm.value in blocks.modules && instance in blocks.modules[cm.value].blocks;
            && (!resolved ==> r == No)
            && (format.Unknown? ==> r == No)
            && (resolved && format.PortedVar? ==>
                  (r == Prefer <==> exists j :: 0 <= j < |blocks.modules[cm.value].blocks[instance].ports|
                                                && blocks.modules[cm.value].blocks[instance].ports[j].name == format.port))
            && (resolved && format.FullVar? ==>
                  (r == Prefer <==> exists j :: 0 <= j < |blocks.modules[cm.value].blocks[instance].ports|
                                                && blocks.modules[cm.value].blocks[instance].ports[j].name !in IGNORED_PORTS))
  {
    if VariableTypeName(blocks, variable.path, variable.name).Some? then Prefer else No
  }

  /**
   * translate: decodes the padded digits by the category of the variable's
   * type. Every value it returns is of kind Normal.
   */
  function Translate(reg: Registry, fuel: nat, variable: VariableMeta, digits: string): (r: Result<TranslationResult, string>)
    ensures r.Success? ==> r.value.kind == Normal
  {
    match VariableTypeName(reg.blocks, variable.path, variable.name)
    case None => Failure(UnresolvedPrefix + variable.name)
    case Some(typeName) =>
      var width := Width(variable, digits);
      var padded := PadDigits(digits, width);
      match CategoryOf(reg.types, typeName)
      case Struct =>
        if typeName in reg.types.typedefs then Success(Decode(reg.types, fuel, reg.types.typedefs[typeName], width, padded))
        else Failure(MissingStructPrefix + typeName)
      case Enum => Success(TranslateEnum(reg.types.typedefs, typeName, padded))
      case _ => Success(BitsResult(width, padded))
  }

  /** variable_info: the shape of the variable, by the category of its type. */
  function VariableInfoOf(reg: Registry, fuel: nat, variable: VariableMeta): (r: Result<VariableInfo, string>)
    ensures r.Success? && r.value.Compound? ==>
              exists n :: VariableTypeName(reg.blocks, variable.path, variable.name) == Some(n)
                          && CategoryOf(reg.types, n) == Struct && n in reg.types.typedefs
  {
    match VariableTypeName(reg.blocks, variable.path, variable.name)
    case None => Failure(UnresolvedPrefix + variable.name)
    case Some(typeName) =>
      match CategoryOf(reg.types, typeName)
      case Enum => Success(StringInfo)
      case Struct =>
        if typeName in reg.types.typedefs then Success(GetStructFieldsInfo(reg.types, fuel, reg.types.typedefs[typeName]))
        else Failure(MissingStructPrefix + typeName)
      case _ => Success(BitsInfo)
  }

  // ---------------------------------------------------------------------
  // Padding
  // ---------------------------------------------------------------------

  /** Padding twice to the same width is padding once. */
  lemma PadDigitsIdempotent(digits: string, width: nat)
    ensures PadDigits(PadDigits(digits, width), width) == PadDigits(digits, width)
  {
    assert Zeros(0) == [];
  }

  /** Leading zeros add nothing to a binary value. */
  lemma {:induction false} ZerosValue(k: nat, digits: string)
    ensures BinaryValue(Zeros(k) + digits) == BinaryValue(digits)
    decreases |digits|, k
  {
    if |digits| == 0 {
      assert Zeros(k) + digits == Zeros(k);
      if k > 0 {
        assert Zeros(k)[..k - 1] == Zeros(k - 1) + digits;
        ZerosValue(k - 1, digits);
      }
    } else {
      var p := Zeros(k) + digits;
      var init := digits[..|digits| - 1];
      assert p[..|p| - 1] == Zeros(k) + init;
      ZerosValue(k, init);
    }
  }

  /** Leading zeros keep a string binary exactly when it was. */
  lemma ZerosBinary(k: nat, digits: string)
    ensures AllBinary(Zeros(k) + digits) <==> AllBinary(digits)
  {
    var p := Zeros(k) + digits;
    assert forall i :: 0 <= i < |digits| ==> p[k + i] == digits[i];
  }

  /** Padding keeps the digits binary exactly when they were, and keeps their value. */
  lemma PadDigitsKeepsValue(digits: string, width: nat)
    ensures AllBinary(PadDigits(digits, width)) <==> AllBinary(digits)
    ensures BinaryValue(PadDigits(digits, width)) == BinaryValue(digits)
  {
    var k := if width > |digits| then width - |digits| else 0;
    ZerosValue(k, digits);
    ZerosBinary(k, digits);
  }

  /**
   * The enum tag read from the padded digits is the one read from the
   * sampled digits, unless these start with `+`, which the parser skips
   * only in first position.
   */
  lemma PadDigitsKeepsTag(digits: string, width: nat)
    requires |digits| == 0 || digits[0] != '+'
    ensures ParseBinaryU64(PadDigits(digits, width)).GetOr(0) == ParseBinaryU64(digits).GetOr(0)
  {
    var k := if width > |digits| then width - |digits| else 0;
    var p := PadDigits(digits, width);
    PadDigitsKeepsValue(digits, width);
    if k == 0 {
      assert p == digits;
    } else if |digits| == 0 {
      assert p == Zeros(k);
    } else if |digits| == 1 && digits[0] == '-' {
      assert !IsBinaryDigit(p[k]);
    }
  }

  /** With a `+` in front the tag is lost once padding puts a zero before it. */
  lemma PadDigitsPlusSign()
    ensures ParseBinaryU64("+1") == Some(1)
    ensures PadDigits("+1", 3) == "0+1"
    ensures ParseBinaryU64(PadDigits("+1", 3)) == None
  {
    assert BinaryValue("1") == 1;
    assert ("+1")[1..] == "1";
    assert PadDigits("+1", 3) == "0+1";
    assert !IsBinaryDigit(("0+1")[1]);
  }

  // ---------------------------------------------------------------------
  // Properties of the entry points
  // ---------------------------------------------------------------------

  /** translate and variable_info fail on the same variables, with the same message. */
  lemma TranslateFailsWithVariableInfo(reg: Registry, fuel: nat, variable: VariableMeta, digits: string)
    ensures Translate(reg, fuel, variable, digits).Failure? <==> VariableInfoOf(reg, fuel, variable).Failure?
    ensures Translate(reg, fuel, variable, digits).Failure? ==>
              Translate(reg, fuel, variable, digits).error == VariableInfoOf(reg, fuel, variable).error
  {
  }

  /** The plugin prefers a variable exactly when translate does not fail to resolve its type. */
  lemma TranslatesIffResolved(reg: Registry, fuel: nat, variable: VariableMeta, digits: string)
    ensures Translates(reg.blocks, variable) == Prefer
            <==> Translate(reg, fuel, variable, digits) != Failure(UnresolvedPrefix + variable.name)
  {
    var n := VariableTypeName(reg.blocks, variable.path, variable.name);
    if n.Some? {
      var r := Translate(reg, fuel, variable, digits);
      if r.Failure? {
        assert r.error == MissingStructPrefix + n.value;
        assert r.error[0] != (UnresolvedPrefix + variable.name)[0];
      }
    }
  }

  /**
   * A raw-bits variable shows the padded digits at its width; without a
   * declared width it shows the sampled digits unchanged.
   */
  lemma TranslateBits(reg: Registry, fuel: nat, variable: VariableMeta, digits: string, typeName: string)
    requires VariableTypeName(reg.blocks, variable.path, variable.name) == Some(typeName)
    requires CategoryOf(reg.types, typeName) != Struct && CategoryOf(reg.types, typeName) != Enum
    ensures Translate(reg, fuel, variable, digits) == Success(BitsResult(Width(variable, digits), PadDigits(digits, Width(variable, digits))))
    ensures variable.numBits.None? ==> Translate(reg, fuel, variable, digits) == Success(BitsResult(|digits|, digits))
  {
    assert Zeros(0) == [];
  }

  /**
   * An enum variable sampled as the binary digits of a tag shows that tag's
   * member name, or `Unknown(<tag>)`, whatever width it is declared with.
   */
  lemma TranslateEnumTag(reg: Registry, fuel: nat, variable: VariableMeta, typeName: string, tag: U64, n: nat)
    requires VariableTypeName(reg.blocks, variable.path, variable.name) == Some(typeName)
    requires CategoryOf(reg.types, typeName) == Enum
    requires 0 < n && tag < Pow2(n)
    ensures var members := EnumMembers(reg.types.typedefs, typeName);
            Translate(reg, fuel, variable, ToBinary(tag, n))
            == Success(TranslationResult(StringValue(if tag in members then members[tag] else UnknownName(tag)), [], Normal))
  {
    var digits := ToBinary(tag, n);
    assert IsBinaryDigit(digits[0]);
    PadDigitsKeepsTag(digits, Width(variable, digits));
    ParseBinaryRoundTrip(tag, n);
  }

  /**
   * A struct variable shows one field per segment of its typedef, for as
   * long as the padded digits hold the segments, each decoding its own
   * digits; all of them exactly when the padded digits cover the typedef.
   */
  lemma TranslateStructFields(reg: Registry, fuel: nat, variable: VariableMeta, digits: string, typeName: string)
    requires VariableTypeName(reg.blocks, variable.path, variable.name) == Some(typeName)
    requires CategoryOf(reg.types, typeName) == Struct && typeName in reg.types.typedefs
    requires reg.types.typedefs[typeName].enumDefinition.None?
    ensures Translate(reg, fuel, variable, digits).Success?
    ensures var s := reg.types.typedefs[typeName];
            var padded := PadDigits(digits, Width(variable, digits));
            var r := Translate(reg, fuel, variable, digits).value;
            && r.val == StructValue
            && (|r.subfields| == |s.segments| <==> Offset(s.segments, |s.segments|) <= |padded|)
            && forall k :: 0 <= k < |r.subfields| ==> SegmentField(reg.types, fuel, s, padded, k, r.subfields[k])
  {
    var s := reg.types.typedefs[typeName];
    var width := Width(variable, digits);
    DecodeLayout(reg.types, fuel, s, width, PadDigits(digits, width));
  }

  /**
   * What translate shows has the shape variable_info reports, whenever the
   * padded digits cover a struct variable's typedef.
   */
  lemma TranslateShapeAgreement(reg: Registry, fuel: nat, variable: VariableMeta, digits: string, typeName: string)
    requires VariableTypeName(reg.blocks, variable.path, variable.name) == Some(typeName)
    requires CategoryOf(reg.types, typeName) == Struct && typeName in reg.types.typedefs ==>
               Covers(reg.types, fuel, reg.types.typedefs[typeName], |PadDigits(digits, Width(variable, digits))|)
    ensures Translate(reg, fuel, variable, digits).Success? <==> VariableInfoOf(reg, fuel, variable).Success?
    ensures Translate(reg, fuel, variable, digits).Success? ==>
              ShapeOf(Translate(reg, fuel, variable, digits).value) == VariableInfoOf(reg, fuel, variable).value
  {
    if CategoryOf(reg.types, typeName) == Struct && typeName in reg.types.typedefs {
      var width := Width(variable, digits);
      ShapeAgreement(reg.types, fuel, reg.types.typedefs[typeName], width, PadDigits(digits, width));
    }
  }
}
