# Bluespec signal decoder — a Dafny model

This project models the core of a waveform-viewer plugin for Bluespec
designs. The plugin turns a recorded signal value (a string of binary
digits) into a named, nested field tree, guided by type information taken
from the design's metadata. The model covers four parts:

- **Type-registry construction** (`ingest.dfy`, from `src/ingest.rs`). A flat
  list of segments with dotted field names (`a.b.c`) is grouped into a tree
  of compound segments. Each typedef is then classified as primitive,
  struct or enum, and recorded in the typedef map and the category lookup.
- **The recursive bit decoder and the shape projector** (`translators.dfy`,
  from `src/translators.rs`). The digits are cut into consecutive chunks,
  one per segment, in stored order. Each chunk is decoded by the
  segment's inline structure or by the category of its type name. The
  projector gives the same field names and nesting without any digits.
- **Scope resolution and signal-name matching** (`helper.dfy`, from
  `src/helper.rs`). A scope path is anchored in the alias table and walked
  through the module registry. A leaf signal name is split into an
  instance and an optional port, and a port is chosen to give the type name.
- **The entry points** (`plugin.dfy`, from `src/lib.rs`): `translates`,
  `translate` and `variable_info`. They zero-pad the digits and dispatch on
  the category.

`types.dfy` holds the datatypes of `src/helper.rs` and the registry
invariants. `surfer.dfy` mirrors the viewer's translation types.
`wrappers.dfy` holds Option and Result.

The plugin keeps its registries in global read-write locks. Here they are
immutable values passed to every operation: a `TypeRegistry` (typedefs and
categories) and a `BlockRegistry` (modules and the scope alias table). The
alias table is a hash map of hash maps in the plugin. Here it is a sequence
of groups of mappings, which fixes one iteration order; every property
about it holds for whichever order that sequence gives.

Loops in the source are methods here (`ProcessNestedSegments`,
`ProcessTypedef`, `TranslateRecursive`, `GetCurrentModule`,
`GetVariableTypeName`, ...). Each is proved equal to a specification
function (`NestedSegments`, `ApplyTypedef`, `Decode`, `CurrentModule`,
`VariableTypeName`), and the properties are proved as lemmas about those
functions.

A struct can name itself in its own fields through the registry, so the
decoder and the projector take a `fuel` bound. Each lookup of a registered
struct spends one unit of fuel; with none left the field is raw bits, as
when the typedef is missing. Inline nested structures are followed without
fuel, because they are finite trees.

### Where the design description and the code differ (the model follows the code)

- Enum width: the code computes `ceil(log2(max_tag))`, not
  `ceil(log2(max_tag + 1))`. So a largest tag of 1 gives width 0, and a
  power of two gets one bit too few (`Ingest.EnumWidthPowerOfTwo`). The
  decoder never reads an enum's recorded width, so nothing decoded changes.
- Segment position: the description places a segment by its absolute
  `msb`/`lsb`. The code only uses each segment's width `(msb + 1) - lsb`.
  It takes consecutive chunks from the left, in stored order, and ignores
  `total_width`.
- Short values: the description asks for a placeholder per missing segment.
  The code stops at the first segment that does not fit and drops it and
  every later segment.
- Scope descent: the description says a missed component stops the
  descent. The code skips it and carries on with the next component.
- Preferred ports: the description says the comparison is case-insensitive.
  The code upper-cases the port name and compares it with the list entry
  exactly, so the mixed-case `Probe` entry never matches anything.
- Ported signal names: the example comment beside the name formats shows
  `rb_D_OUT` selecting port `D_OUT`. The port part of the pattern admits
  only letters and digits, so a split always falls at the last separator
  and the port never holds `_`. Only `PROBE`, `WGET` and `WHAS` (in any
  case) can make a name ported; `rb_D_OUT` is read as the full variable
  `rb_D_OUT` (`Helper.PortedVarPortsHaveNoUnderscore`).

## Model

| member | source | states |
|---|---|---|
| `Helper.CreateNoTranslationResult` | src/helper.rs:119-125 | the placeholder result is an empty string of kind Normal with no subfields, shaped as a string |
| `Helper.ProbeEntryNeverMatches` | src/helper.rs:129 | no upper-cased port name equals the mixed-case `Probe` entry of the preferred list |
| `Helper.ParseSignalName` | src/helper.rs:138-155 | never Unknown; a full variable is the whole name; a ported variable is a split `base`, `_`/`$`, `port` with word-character base, alphanumeric port and upper-cased port in the preferred list |
| `Helper.ParseSignalNameComplete` | src/helper.rs:140-149 | every name matching the pattern with a preferred port yields exactly that base and port (original case); the split is at the last separator |
| `Helper.ParseSignalNameFullVar` | src/helper.rs:150-155 | a name none of whose pattern splits has a preferred port yields the whole name as a full variable |
| `Helper.PortedVarPortsHaveNoUnderscore` | src/helper.rs:130-149 | a ported variable's port, upper-cased, is `PROBE`, `WGET` or `WHAS`: the port class admits no `_`, so `Q_OUT`, `D_OUT` and `D_IN` never select one |
| `Helper.FindInGroupFirstMatch` | src/helper.rs:167-172 | the search of one alias group returns the first mapping whose alias path is a prefix of the scope path, and fails only when there is none |
| `Helper.FindAnchorNoneIff` | src/helper.rs:166-177 | anchoring fails exactly when no alias path of any group is a prefix of the scope path |
| `Helper.FindAnchorFirstMatch` | src/helper.rs:166-177 | a found anchor is the implementation name and alias length of a prefix mapping with no prefix mapping before it in its group nor in any earlier group |
| `Helper.CurrentModule` | src/helper.rs:159-189 | resolution fails with "scope not found" exactly when no alias path is a prefix of the scope path; otherwise the module is the descent, from the implementation of the first prefix mapping (first group, then first mapping in it), along the path left after its alias |
| `Helper.EmptyAliasAnchorsEverything` | src/helper.rs:168 | an empty alias path makes every scope path resolve |
| `Helper.DescendResult` | src/helper.rs:179-186 | the descent ends at the anchor module or at the declared type of some block of some module |
| `Helper.DescendSkipsMiss` | src/helper.rs:180-185 | a component that names no block of the current module is skipped and the walk continues |
| `Helper.ScopeExample` | src/helper.rs:17-25 | with `top: {mkTop: [main, top]}` and `mkTop` holding `rb: mkFifo`, the path `main.top.rb` resolves to `mkFifo` |
| `Helper.GetCurrentModule` | src/helper.rs:159-189 | the nested first-match loops and the descent loop compute exactly `CurrentModule` |
| `Helper.FindPort` | src/helper.rs:204-206 | the port search returns the first accepted port from the start index, or none exists |
| `Helper.FirstPreferred` | src/helper.rs:211-216 | the chosen port is the first one matching the highest-priority preferred entry that any port matches; none when no upper-cased port name is in the list |
| `Helper.IgnoredNeverPreferred` | src/helper.rs:127-128 | no ignored port name, upper-cased, is a preferred entry, so a preferred port is never an ignored one |
| `Helper.SelectPortType` | src/helper.rs:201-223 | a selected type is the type of some port; a ported variable selects the type of a port with exactly its name, and nothing only when no port has that name; a full variable selects a type exactly when some port is not ignored; an unknown format selects nothing |
| `Helper.VariableTypeName` | src/helper.rs:191-224 | a resolved type is the type of a port of the instance's block in the resolved module; any failed lookup gives none |
| `Helper.PortedVarSelectsExactName` | src/helper.rs:202-207 | a ported variable takes the type of the first port whose name equals the port exactly |
| `Helper.PortedVarMissingPort` | src/helper.rs:202-207 | a ported variable with no port of that exact name has no type |
| `Helper.FullVarPrefersPreferredPorts` | src/helper.rs:208-216 | a full variable takes the first port matching the highest-priority preferred entry any port matches |
| `Helper.FullVarFallsBackToFirstNonIgnored` | src/helper.rs:217-220 | without a preferred port, a full variable takes the first port not in the ignored list, or none |
| `Helper.GetVariableTypeName` | src/helper.rs:191-224 | the search loop with early return computes exactly `VariableTypeName` |
| `Types.SegmentWidth` | src/translators.rs:256 | a segment's width is `msb - lsb + 1`, and 0 when `lsb > msb` (saturating) |
| `Types.MaxMsb` | src/ingest.rs:144 | the largest segment msb bounds every msb and is attained; 0 for no segments |
| `Types.MinLsb` | src/ingest.rs:145 | the smallest segment lsb bounds every lsb and is attained; 0 for no segments |
| `Ingest.StripCutsFirstComponent` | src/ingest.rs:132-139 | stripping removes the name up to and including its first dot, whose left part has no dot; an undotted segment is unchanged |
| `Ingest.StripShrinks` | src/ingest.rs:130-141 | stripping never lengthens names and strictly shortens a group with a dotted name, so the recursion terminates |
| `Ingest.GroupOf` | src/ingest.rs:120 | a group only holds segments with its key, never more segments or name characters than the input |
| `Ingest.GroupOfDrawsFromInput` | src/ingest.rs:111-121 | every segment of a group is an input segment |
| `Ingest.GroupOfIsFilter` | src/ingest.rs:111-121 | a group is the input filtered by key: its segments are the input segments at ascending positions, and every position whose segment has the key is among them, so the group keeps input order and misses none |
| `Ingest.GroupOfComplete` | src/ingest.rs:111-121 | every input segment is in the group of its own key |
| `Ingest.TopNamesComplete` | src/ingest.rs:111-118 | the keys are exactly the first name components of the input (`""` for no name) |
| `Ingest.TopNamesDistinct` | src/ingest.rs:116-118 | each key appears once |
| `Ingest.TopNamesFirstSeen` | src/ingest.rs:111-118 | keys are in first-seen order: an earlier key occurs in the input before the later key first does |
| `Ingest.NestedSegmentsNonEmpty` | src/ingest.rs:194-196 | a non-empty input always yields segments, so the "No valid segments" error is unreachable |
| `Ingest.GroupSegments` | src/ingest.rs:128-173 | an undotted group yields one leaf per segment with `abs` bounds, name and type unchanged; a dotted group yields one `Compound` segment named by the key that owns a structure of width max msb + 1, no enum table, and whose own bounds are the inner max msb and min lsb |
| `Ingest.NestedSegmentsWellBuilt` | src/ingest.rs:107-178 | every compound segment built, down to the innermost, owns a well-built non-empty structure |
| `Ingest.GroupByTopName` | src/ingest.rs:108-121 | the first pass records the keys in first-seen order, has a bucket exactly for each key, and each bucket is that key's group: the input filtered by key, in input order |
| `Ingest.ProcessNestedSegments` | src/ingest.rs:107-178 | the grouping loops, with the recursion into dotted groups, compute exactly `NestedSegments` |
| `Ingest.LeafSegments` | src/ingest.rs:164-172 | one leaf per raw segment of an undotted group, in order |
| `Ingest.CeilLog2` | src/ingest.rs:217 | the result is the least `k` with `2^k` at least the argument |
| `Ingest.EnumWidthBounds` | src/ingest.rs:216-220 | the enum width is ceil(log2(max tag)) for a positive largest tag and 1 otherwise; tag 1 gives 0, tag 2 gives 1 |
| `Ingest.EnumWidthPowerOfTwo` | src/ingest.rs:216-220 | a largest tag `2^k` gets width `k`, one bit too few to hold that tag |
| `Ingest.MaxTag` | src/ingest.rs:215 | the largest tag bounds every tag and is attained; 0 for no members |
| `Ingest.MembersMapKeys` | src/ingest.rs:222-225 | the enum table has exactly the members' tags |
| `Ingest.MembersMapLastWins` | src/ingest.rs:222-225 | a tag maps to the name of its last member; a later duplicate overwrites an earlier one |
| `Ingest.ApplyTypedefRecords` | src/ingest.rs:182-259 | every typedef records a category for its name; a primitive name, or a value that is neither a non-empty segment list nor a non-empty member list, records Bits; Struct exactly for a non-primitive non-empty segment list and Enum exactly for a non-primitive non-empty member list; every other name is untouched |
| `Ingest.TypedefEntryShape` | src/ingest.rs:189-246 | a Struct typedef is well built (total width max msb + 1, no enum table); an Enum typedef is one unnamed segment from bit 0 with the type's own name and an enum table |
| `Ingest.ApplyTypedefConsistent` | src/ingest.rs:182-259 | processing a typedef keeps the registry consistent: every Struct/Enum category has a matching typedef |
| `Ingest.ProcessTypedef` | src/ingest.rs:182-259 | always returns Ok, and the new maps are exactly `ApplyTypedef` of the old ones |
| `Ingest.ProcessModuleTypedefs` | src/ingest.rs:293-297 | the typedef loop of one module leaves exactly the registry of its typedefs applied in order, each through ProcessTypedef |
| `Ingest.ApplyTypedefsRecords` | src/ingest.rs:293-297 | processing a module's typedefs keeps a consistent registry consistent; afterwards the names with a category are those before plus every typedef name of the module |
| `Ingest.ApplyModuleTypedefsRecords` | src/ingest.rs:292-302 | the registry built from all modules is consistent and gives every typedef name of every module a category |
| `Ingest.RecordModule` | src/ingest.rs:299-301 | recording one more module keeps, for every module name, the converted blocks of its last module so far |
| `Ingest.RecordedModulesNamed` | src/ingest.rs:292-302 | after the last module every module name is recorded, only module names are recorded, and each with the blocks of its last module |
| `Ingest.ProcessModuleBlocks` | src/ingest.rs:261-275 | always succeeds with exactly the block definitions of the raw blocks: every instance name kept with its type and ports, and no other |
| `Ingest.InitializeRegistries` | src/ingest.rs:287-302 | the type registry is exactly every module's typedefs applied in module order, so it is consistent and records a category for every typedef name; the module map holds exactly the given module names, each with the converted blocks of the last module with that name; the alias table is the one given |
| `Translators.BinaryRoundTrip` | src/translators.rs:114 | a value below `2^w` is read back from its `w` binary digits |
| `Translators.ParseBinaryRoundTrip` | src/translators.rs:114 | a 64-bit value is parsed back from its binary digits at any width holding it, with or without a leading `+` |
| `Translators.ParseBinaryRejects` | src/translators.rs:114 | values of `2^64` or more, the empty string, a lone sign and a leading `-` are rejected |
| `Translators.ParseBinaryRejectsUnknownDigits` | src/translators.rs:114 | a non-binary digit after the first position is rejected |
| `Translators.NatToDecimal` | src/translators.rs:115 | the decimal numeral has no leading zero and reads back as the number |
| `Translators.TranslateEnum` | src/translators.rs:100-123 | an enum value is a string with no subfields and kind Normal, whatever the table |
| `Translators.EnumRoundTrip` | src/translators.rs:100-123 | a member's tag written at any width holding it decodes to that member's name |
| `Translators.EnumUnknownTag` | src/translators.rs:114-115 | a tag with no member decodes to `Unknown(<tag>)`, which is never empty |
| `Translators.EnumUnparsedReadsZero` | src/translators.rs:114 | digits that do not parse are read as tag 0 |
| `Translators.EnumUnknownExample` | src/translators.rs:114-115 | `11` against a table without tag 3 reads `Unknown(3)` |
| `Translators.EnumFieldErrorIffEmptyName` | src/translators.rs:150-167 | an enum field is `Error` of kind Error exactly when its member name is empty; otherwise the enum result passes through |
| `Translators.DecodeSegmentBitsFallback` | src/translators.rs:286-295 | a field with no category, or with a category other than Enum and Struct, is raw bits of its chunk at its width |
| `Translators.DecodeSegmentMissingStruct` | src/translators.rs:218-228 | a Struct field whose typedef is missing is raw bits of its chunk |
| `Translators.AllZeroBitsLeaf` | src/translators.rs:286-295 | an all-zero raw-bits field of width N shows N zeros at width N |
| `Translators.EnumMembersExample` | src/translators.rs:240-245 | the enum {0: A, 1: B} reads `0` as A, `1` as B and `11` as `Unknown(3)` |
| `Translators.NestedDecodeExample` | src/translators.rs:255-307 | `101` against flag(1 digit) then sub{x(2 digits)} decodes to flag = `1`, sub.x = `01` |
| `Translators.ExtractBitChunk` | src/translators.rs:310-331 | the chunk is `digits[p..p+w]` with next position `p+w` when it fits, and none exactly when `p+w` runs past the digits |
| `Translators.Decode` | src/translators.rs:233-308 | a root with an enum table and a segment is exactly the enum translation of the first segment's type name; an enum root gives a string; any other root is a Normal struct with at most one field per segment |
| `Translators.DecodeFields` | src/translators.rs:255-300 | the fields are a prefix of the segments, in order, each named by its segment or `unnamed` |
| `Translators.DecodeFieldsStep` | src/translators.rs:255-299 | a segment that fits adds its field and moves past its chunk; one that does not ends the fields |
| `Translators.DecodeSegmentDispatch` | src/translators.rs:138-230 | one field is its inline structure decoded against the chunk; else a Struct type is its typedef decoded one fuel level down, or raw bits when the typedef is missing; an Enum type is the member name, or `Error` when that is empty; any other category, or no category, is raw bits |
| `Translators.TranslateRecursive` | src/translators.rs:233-308 | the field loop with its early `break` computes exactly `Decode`, so it has all the properties proved of `Decode` |
| `Translators.GetStructFieldsInfo` | src/translators.rs:28-61 | the shape is always a compound with one subfield per segment, in order, named by the segment or `unnamed` |
| `Translators.SegmentInfo` | src/translators.rs:38-55 | a field's shape is a compound exactly for an inline structure or a Struct type whose typedef is registered (fuel permitting), a string exactly for an Enum type, and raw bits otherwise |
| `Translators.DecodeFieldsCount` | src/translators.rs:259-263 | segment `k` gets a field exactly when the widths of segments `0..k` fit in the digits |
| `Translators.DecodeFieldsComplete` | src/translators.rs:255-264 | digits at least as long as the sum of the widths give every segment a field |
| `Translators.DecodeFieldAt` | src/translators.rs:316-330 | field `k` decodes exactly the digits of segment `k`, the segments laid end to end from index 0 |
| `Translators.DecodeLayout` | src/translators.rs:251-307 | a decoded struct has one field per segment for as long as they fit, all of them exactly when the digits cover the widths, each from its own consecutive chunk |
| `Translators.DecodeLeavesExact` | src/translators.rs:256-296 | every raw-bits leaf of a decoded value holds exactly as many digits as its width |
| `Translators.ShapeAgreement` | src/translators.rs:28-61 | when the digits cover the structure, the decoded value's shape equals the projector's shape: same names, order and nesting |
| `Translators.ShapeAgreementSegment` | src/translators.rs:38-55 | a covered field's decoded shape is the projector's shape for its segment |
| `Plugin.PadDigits` | src/lib.rs:93-94 | padded digits have length max(width, digits), end with the digits and start with zeros; nothing is truncated |
| `Plugin.PadDigitsIdempotent` | src/lib.rs:93-94 | padding twice to one width is padding once |
| `Plugin.PadDigitsKeepsValue` | src/lib.rs:93-94 | padding keeps the digits binary exactly when they were, and keeps their value |
| `Plugin.PadDigitsKeepsTag` | src/lib.rs:114-116 | the enum tag read from the padded digits is the one from the sampled digits unless they start with `+` |
| `Plugin.PadDigitsPlusSign` | src/lib.rs:93-94 | a leading `+` is parsed alone but lost once a padding zero comes before it |
| `Plugin.Translate` | src/lib.rs:74-127 | every successful translation is of kind Normal |
| `Plugin.Translates` | src/lib.rs:63-71 | a variable whose scope, module or instance is unknown is declined; a ported variable is claimed exactly when its instance has a port of that name; a full variable is claimed exactly when its instance has a port that is not ignored |
| `Plugin.VariableInfoOf` | src/lib.rs:130-155 | a compound shape comes only from a resolved type of category Struct with a typedef present |
| `Plugin.TranslateFailsWithVariableInfo` | src/lib.rs:80-81 | translate and variable_info fail on the same variables, with the same message |
| `Plugin.TranslatesIffResolved` | src/lib.rs:63-71 | the plugin prefers a variable exactly when its type name resolves, which is exactly when translate does not fail to resolve it |
| `Plugin.TranslateBits` | src/lib.rs:118-125 | any category other than Struct and Enum (or a lookup miss) shows the padded digits as raw bits at the width; without a declared width, the digits unchanged |
| `Plugin.TranslateEnumTag` | src/lib.rs:114-117 | an enum variable sampled as a tag's digits shows the tag's member name or `Unknown(<tag>)`, at any declared width |
| `Plugin.TranslateStructFields` | src/lib.rs:100-113 | a struct variable decodes one field per segment for as long as the padded digits hold them, all of them exactly when they cover the widths |
| `Plugin.TranslateShapeAgreement` | src/lib.rs:140-154 | when the padded digits cover a struct variable's typedef, translate's value has the shape variable_info reports, and both succeed or fail together |

## Left out

- Reading `bluespec.json` and `bluespec_map.json` through the host, and JSON deserialisation. The model starts from already-parsed values: a typedef value is a segment list, an enum-member list or anything else.
- The global locks and the assignment of the registries into them. The registries are immutable parameters.
- Hash-map iteration order. The alias table, the modules of the design file and each module's typedefs are sequences in some order. Which of two same-named typedefs in different modules wins the global overwrite is not claimed.
- The regular-expression engine. The split of a signal name is specified over characters, and upper-casing is ASCII-only.
- Converting a big unsigned integer to binary digits in `translate`. The digit string is the input.
- Logging, and the entry points `name`, `new` and `variable_name_info`, which do no decoding.
- `bin/update_enum.py`, an offline script that scrapes a compiler log and rewrites a JSON file.
- `Ingest.CeilLog2`: the code takes a floating-point `log2` and rounds it up. This equals the integer ceiling of log2 for the tag sizes enums have, but not for tags near `2^49` and above, where the float rounds.
- `Translators.Decode`: a registry struct reference is followed at most `fuel` levels deep. Past that the field is raw bits, where the code keeps recursing. Each nested call gets only its segment's chunk, so a struct that reaches itself through a narrower segment runs out of digits and stops; the code never ends only when a struct reaches itself through a segment as wide as the data it is given (or through a zero-width segment).
- `Translators.GetStructFieldsInfo`: the same `fuel` bound as the decoder.
- `Translators.TranslateEnum`: the width argument the code passes is unused there and is not modelled.
- `Plugin.Width`: the digit string is taken to be ASCII, one character per byte. The code uses its UTF-8 byte length as the default width. The two agree on the binary digits of a numeric value, but a string value with non-ASCII characters gets a larger width in the code.
- `Plugin.PadDigits`: counts characters where the code's padding subtracts the UTF-8 byte length, so for a non-ASCII string value the code pads less than the model.
- `Plugin.Translate`: `num_bits` is a 32-bit count in the code; the model does not truncate a digit-string length that does not fit in 32 bits.
- `Ingest.LeafSegments`: `abs` of the most negative machine integer, and `msb + 1` overflow in the width, are not modelled.
