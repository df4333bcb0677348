/**
 * The datatypes of src/helper.rs: type categories, segments, structures,
 * enum definitions and block definitions, together with the registries that
 * the plugin keeps in global read-write locks. Here the registries are plain
 * immutable values handed to every operation.
 */
module Types {
  import opened Wrappers

  /** The coarse kind of a type name; governs decode dispatch. */
  datatype TypeCategory = Bits | Enum | Bool | Struct | Union | Interface

  /** An unsigned 64-bit integer (enum tags). */
  const U64_LIMIT: nat := 0x1_0000_0000_0000_0000
  type U64 = n: nat | n < U64_LIMIT

  /**
   * One field of a structure: an optional name, inclusive bit bounds, the
   * name of its type and, for a compound field built from dotted names, the
   * inner structure it owns.
   */
  datatype TypeSegment = TypeSegment(
    name: Option<string>,
    msb: nat,
    lsb: nat,
    typeName: string,
    nestedStructure: Option<TypeStructure>)

  datatype TypeStructure = TypeStructure(
    totalWidth: nat,
    segments: seq<TypeSegment>,
    enumDefinition: Option<EnumDefinition>)

  datatype EnumDefinition = EnumDefinition(members: map<U64, string>)

  datatype RawBlockPort = RawBlockPort(name: string, typeName: string)

  datatype RawBlockDefinition = RawBlockDefinition(blockTypeName: string, ports: seq<RawBlockPort>)

  /** The sub-instances of one module, keyed by instance name. */
  datatype ModuleData = ModuleData(blocks: map<string, RawBlockDefinition>)

  /**
   * The scope alias table {instance: {implementation name: alias path}}.
   * Both levels are hash maps in the plugin; the sequences here fix the
   * (unspecified) order in which they are iterated.
   */
  datatype AliasMapping = AliasMapping(implName: string, origNames: seq<string>)
  datatype AliasGroup = AliasGroup(instance: string, mappings: seq<AliasMapping>)

  /** The typedef registry and the category lookup table. */
  datatype TypeRegistry = TypeRegistry(
    typedefs: map<string, TypeStructure>,
    lookup: map<string, TypeCategory>)

  /** The module registry and the scope alias table. */
  datatype BlockRegistry = BlockRegistry(
    modules: map<string, ModuleData>,
    maps: seq<AliasGroup>)

  /** Everything the plugin loads at start-up. */
  datatype Registry = Registry(types: TypeRegistry, blocks: BlockRegistry)

  /** Two to the power `k`. */
  function Pow2(k: nat): (p: nat)
    ensures p >= 1
  {
    if k == 0 then 1 else 2 * Pow2(k - 1)
  }

  /** The number of digits a segment occupies: `(msb + 1)` minus `lsb`, saturating at 0. */
  function SegmentWidth(seg: TypeSegment): (w: nat)
    ensures seg.lsb <= seg.msb ==> w == seg.msb - seg.lsb + 1
    ensures seg.lsb > seg.msb ==> w == 0
  {
    if seg.lsb <= seg.msb + 1 then seg.msb + 1 - seg.lsb else 0
  }

  /** Largest `msb` among the segments, 0 for none (`iter().map(msb).max().unwrap_or(0)`). */
  function MaxMsb(segs: seq<TypeSegment>): (m: nat)
    ensures forall i :: 0 <= i < |segs| ==> segs[i].msb <= m
    ensures |segs| > 0 ==> exists i :: 0 <= i < |segs| && segs[i].msb == m
    ensures |segs| == 0 ==> m == 0
  {
    if |segs| == 0 then 0
    else
      var rest := MaxMsb(segs[1..]);
      if segs[0].msb >= rest then segs[0].msb else rest
  }

  /** Smallest `lsb` among the segments, 0 for none (`iter().map(lsb).min().unwrap_or(0)`). */
  function MinLsb(segs: seq<TypeSegment>): (m: nat)
    ensures forall i :: 0 <= i < |segs| ==> m <= segs[i].lsb
    ensures |segs| > 0 ==> exists i :: 0 <= i < |segs| && segs[i].lsb == m
    ensures |segs| == 0 ==> m == 0
  {
    if |segs| == 0 then 0
    else if |segs| == 1 then segs[0].lsb
    else
      var rest := MinLsb(segs[1..]);
      if segs[0].lsb <= rest then segs[0].lsb else rest
  }

  /**
   * A composite structure as type-registry construction builds it: no enum
   * definition, total width one past the largest segment msb, and every
   * compound segment owning a non-empty well-built structure whose bounds
   * its own msb/lsb summarise.
   */
  ghost predicate WellBuilt(s: TypeStructure)
    decreases s, 1
  {
    && s.enumDefinition.None?
    && s.totalWidth == MaxMsb(s.segments) + 1
    && forall i :: 0 <= i < |s.segments| ==> SegmentWellBuilt(s.segments[i])
  }

  ghost predicate SegmentWellBuilt(seg: TypeSegment)
    decreases seg, 0
  {
    seg.nestedStructure.Some? ==>
      var inner := seg.nestedStructure.value;
      && WellBuilt(inner)
      && |inner.segments| > 0
      && seg.typeName == "Compound"
      && seg.msb == MaxMsb(inner.segments)
      && seg.lsb == MinLsb(inner.segments)
  }

  /** An enumerated structure as registered for the type name `name`. */
  ghost predicate IsEnumStructure(s: TypeStructure, name: string)
  {
    && s.enumDefinition.Some?
    && |s.segments| == 1
    && s.segments[0].name.None?
    && s.segments[0].lsb == 0
    && s.segments[0].typeName == name
    && s.segments[0].nestedStructure.None?
  }

  /**
   * The invariant type-registry construction keeps: a Struct category always
   * has a well-built composite typedef, an Enum category an enumerated one,
   * and every typedef has a category.
   */
  ghost predicate Consistent(t: TypeRegistry)
  {
    && (forall n :: n in t.lookup && t.lookup[n] == Struct ==> n in t.typedefs && WellBuilt(t.typedefs[n]))
    && (forall n :: n in t.lookup && t.lookup[n] == Enum ==> n in t.typedefs && IsEnumStructure(t.typedefs[n], n))
    && (forall n :: n in t.typedefs ==> n in t.lookup && (WellBuilt(t.typedefs[n]) || IsEnumStructure(t.typedefs[n], n)))
  }
}
