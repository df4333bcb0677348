/**
 * src/ingest.rs: building the type registry from already-parsed typedef
 * values. A flat list of segments with dotted names is grouped into a tree
 * of compound segments; each typedef is classified as primitive, struct or
 * enum and recorded in the typedef registry and the category lookup.
 */
module Ingest {
  import opened Wrappers
  import opened Types

  /** One raw segment as the design description lists it. */
  datatype RawSegment = RawSegment(varName: Option<string>, typeName: string, min: int, max: int, width: nat)

  datatype RawEnumMember = RawEnumMember(tag: U64, name: string)

  /** An already-parsed typedef value: a segment list, an enum-member list, or anything else. */
  datatype TypedefValue =
    | SegmentList(segments: seq<RawSegment>)
    | MemberList(members: seq<RawEnumMember>)
    | OtherValue

  datatype ModuleBlockJson = ModuleBlockJson(typeName: string, ports: seq<RawBlockPort>)

  /** One module of the design description; its typedef map is given in iteration order. */
  datatype ModuleContent = ModuleContent(typedefs: seq<(string, TypedefValue)>, blocks: map<string, ModuleBlockJson>)

  function Abs(x: int): (r: nat)
    ensures r == x || r == -x
  {
    if x < 0 then -x else x
  }

  // ---------------------------------------------------------------------
  // Dotted names
  // ---------------------------------------------------------------------

  /** Index of the first `.` in `s` at or after `i`. */
  function FindDot(s: string, i: nat): (r: Option<nat>)
    ensures r.Some? ==> i <= r.value < |s| && s[r.value] == '.' && forall j :: i <= j < r.value ==> s[j] != '.'
    ensures r.None? ==> forall j :: i <= j < |s| ==> s[j] != '.'
    decreases |s| - i
  {
    if i >= |s| then None
    else if s[i] == '.' then Some(i)
    else FindDot(s, i + 1)
  }

  /** The text before the first dot (`splitn(2, '.')`'s first part). */
  function FirstComponent(s: string): string
  {
    match FindDot(s, 0)
    case None => s
    case Some(k) => s[..k]
  }

  /** The text after the first dot; a name without a dot is kept. */
  function AfterFirstDot(s: string): string
  {
    match FindDot(s, 0)
    case None => s
    case Some(k) => s[k + 1..]
  }

  function NameOrEmpty(seg: RawSegment): string
  {
    seg.varName.GetOr("")
  }

  /** The grouping key of a segment: the first component of its name, `""` without a name. */
  function TopName(seg: RawSegment): string
  {
    FirstComponent(NameOrEmpty(seg))
  }

  predicate HasDot(seg: RawSegment)
  {
    seg.varName.Some? && FindDot(seg.varName.value, 0).Some?
  }

  /** Removes a segment name's first component and its dot. */
  function Strip(seg: RawSegment): RawSegment
  {
    if HasDot(seg) then seg.(varName := Some(AfterFirstDot(seg.varName.value))) else seg
  }

  /** Stripping cuts exactly through the first dot; undotted segments are unchanged. */
  lemma StripCutsFirstComponent(seg: RawSegment)
    ensures HasDot(seg) ==> (NameOrEmpty(seg) == TopName(seg) + "." + NameOrEmpty(Strip(seg)) && '.' !in TopName(seg))
    ensures !HasDot(seg) ==> Strip(seg) == seg && TopName(seg) == NameOrEmpty(seg)
  {
    if HasDot(seg) {
      var n := seg.varName.value;
      var k := FindDot(n, 0).value;
      assert n == n[..k] + "." + n[k + 1..];
    }
  }

  // ---------------------------------------------------------------------
  // Grouping by first component
  // ---------------------------------------------------------------------

  function NameLen(seg: RawSegment): nat
  {
    |NameOrEmpty(seg)|
  }

  /** The total length of all names; recursion on stripped groups decreases it. */
  function TotalNameLen(raw: seq<RawSegment>): nat
  {
    if |raw| == 0 then 0 else TotalNameLen(raw[..|raw| - 1]) + NameLen(raw[|raw| - 1])
  }

  /** Distinct grouping keys in first-seen order. */
  function TopNames(raw: seq<RawSegment>): seq<string>
  {
    if |raw| == 0 then []
    else
      var names := TopNames(raw[..|raw| - 1]);
      var t := TopName(raw[|raw| - 1]);
      if t in names then names else names + [t]
  }

  /** The segments whose key is `k`, in input order. */
  function GroupOf(raw: seq<RawSegment>, k: string): (g: seq<RawSegment>)
    ensures forall i :: 0 <= i < |g| ==> TopName(g[i]) == k
    ensures |g| <= |raw| && TotalNameLen(g) <= TotalNameLen(raw)
  {
    if |raw| == 0 then []
    else
      var last := raw[|raw| - 1];
      var init := GroupOf(raw[..|raw| - 1], k);
      if TopName(last) == k then
        assert (init + [last])[..|init|] == init;
        init + [last]
      else init
  }

  /** A group only holds input segments. */
  lemma {:induction false} GroupOfDrawsFromInput(raw: seq<RawSegment>, k: string)
    ensures forall i :: 0 <= i < |GroupOf(raw, k)| ==> GroupOf(raw, k)[i] in raw
  {
    if |raw| > 0 {
      var init := raw[..|raw| - 1];
      GroupOfDrawsFromInput(init, k);
      assert forall i :: 0 <= i < |GroupOf(init, k)| ==> GroupOf(init, k)[i] in init && GroupOf(init, k)[i] in raw;
    }
  }

  /** The positions of the input segments whose key is `k`, ascending. */
  function GroupIndices(raw: seq<RawSegment>, k: string): seq<nat>
  {
    if |raw| == 0 then []
    else GroupIndices(raw[..|raw| - 1], k) + (if TopName(raw[|raw| - 1]) == k then [|raw| - 1] else [])
  }

  /** Position `m` of a group holds the input segment at the `m`-th matching position. */
  lemma {:induction false} GroupIndicesSelect(raw: seq<RawSegment>, k: string)
    ensures |GroupIndices(raw, k)| == |GroupOf(raw, k)|
    ensures forall m :: 0 <= m < |GroupIndices(raw, k)| ==>
              GroupIndices(raw, k)[m] < |raw| && GroupOf(raw, k)[m] == raw[GroupIndices(raw, k)[m]]
  {
    if |raw| > 0 {
      var n := |raw| - 1;
      var init := raw[..n];
      GroupIndicesSelect(init, k);
      var idx0 := GroupIndices(init, k);
      forall m | 0 <= m < |idx0|
        ensures GroupIndices(raw, k)[m] == idx0[m] < |raw| && GroupOf(raw, k)[m] == raw[idx0[m]]
      {
        assert init[idx0[m]] == raw[idx0[m]];
      }
    }
  }

  /** The matching positions are strictly ascending, so a group keeps input order. */
  lemma {:induction false} GroupIndicesAscending(raw: seq<RawSegment>, k: string)
    ensures forall m :: 0 <= m < |GroupIndices(raw, k)| ==> GroupIndices(raw, k)[m] < |raw|
    ensures forall m, m' :: 0 <= m < m' < |GroupIndices(raw, k)| ==> GroupIndices(raw, k)[m] < GroupIndices(raw, k)[m']
  {
    if |raw| > 0 {
      GroupIndicesAscending(raw[..|raw| - 1], k);
    }
  }

  /** Every position whose segment has key `k` is a matching position. */
  lemma {:induction false} GroupIndicesComplete(raw: seq<RawSegment>, k: string)
    ensures forall i :: 0 <= i < |raw| && TopName(raw[i]) == k ==> i in GroupIndices(raw, k)
  {
    if |raw| > 0 {
      var n := |raw| - 1;
      var init := raw[..n];
      GroupIndicesComplete(init, k);
      forall i | 0 <= i < |raw| && TopName(raw[i]) == k
        ensures i in GroupIndices(raw, k)
      {
        if i < n {
          assert init[i] == raw[i];
        } else {
          assert GroupIndices(raw, k) == GroupIndices(init, k) + [n];
        }
      }
    }
  }

  /**
   * A group is the input filtered by key: its segments are those at the
   * ascending positions of all input segments with that key, so every
   * segment with key `k` is in the group, in input order.
   */
  lemma GroupOfIsFilter(raw: seq<RawSegment>, k: string)
    ensures var g := GroupOf(raw, k);
            var idx := GroupIndices(raw, k);
            && |idx| == |g|
            && (forall m :: 0 <= m < |idx| ==> idx[m] < |raw| && g[m] == raw[idx[m]])
            && (forall m, m' :: 0 <= m < m' < |idx| ==> idx[m] < idx[m'])
            && (forall i :: 0 <= i < |raw| && TopName(raw[i]) == k ==> i in idx)
  {
    GroupIndicesSelect(raw, k);
    GroupIndicesAscending(raw, k);
    GroupIndicesComplete(raw, k);
  }

  /** Every input segment is in the group of its own key. */
  lemma GroupOfComplete(raw: seq<RawSegment>, i: nat)
    requires i < |raw|
    ensures raw[i] in GroupOf(raw, TopName(raw[i]))
  {
    var k := TopName(raw[i]);
    GroupOfIsFilter(raw, k);
    var idx := GroupIndices(raw, k);
    var m :| 0 <= m < |idx| && idx[m] == i;
    assert GroupOf(raw, k)[m] == raw[i];
  }

  predicate IsNested(group: seq<RawSegment>)
  {
    exists i :: 0 <= i < |group| && HasDot(group[i])
  }

  function StripAll(group: seq<RawSegment>): (r: seq<RawSegment>)
    ensures |r| == |group|
  {
    seq(|group|, i requires 0 <= i < |group| => Strip(group[i]))
  }

  /** Stripping never lengthens names, and shortens at least one in a nested group. */
  lemma {:induction false} StripShrinks(group: seq<RawSegment>)
    ensures TotalNameLen(StripAll(group)) <= TotalNameLen(group)
    ensures IsNested(group) ==> TotalNameLen(StripAll(group)) < TotalNameLen(group)
  {
    if |group| > 0 {
      var init := group[..|group| - 1];
      var last := group[|group| - 1];
      StripShrinks(init);
      StripCutsFirstComponent(last);
      assert StripAll(group)[..|group| - 1] == StripAll(init);
      if IsNested(group) && !HasDot(last) {
        var d :| 0 <= d < |group| && HasDot(group[d]);
        assert init[d] == group[d];
      }
    }
  }

  /** A raw segment of a group without dots, as a leaf segment. */
  function LeafSegment(seg: RawSegment): TypeSegment
  {
    TypeSegment(seg.varName, Abs(seg.max), Abs(seg.min), seg.typeName, None)
  }

  /** The compound segment owning the structure built from a group's stripped segments. */
  function CompoundSegment(key: string, inner: seq<TypeSegment>): TypeSegment
  {
    var innerMaxMsb := MaxMsb(inner);
    TypeSegment(Some(key), innerMaxMsb, MinLsb(inner), "Compound",
                Some(TypeStructure(innerMaxMsb + 1, inner, None)))
  }

  /** The two shapes of a group's contribution. */
  lemma BuildGroupCases(key: string, group: seq<RawSegment>)
    ensures TotalNameLen(StripAll(group)) <= TotalNameLen(group)
    ensures IsNested(group) ==> TotalNameLen(StripAll(group)) < TotalNameLen(group)
    ensures IsNested(group) ==> BuildGroup(key, group) == [CompoundSegment(key, NestedSegments(StripAll(group)))]
    ensures !IsNested(group) ==> BuildGroup(key, group) == seq(|group|, i requires 0 <= i < |group| => LeafSegment(group[i]))
  {
    StripShrinks(group);
  }

  /** The segments one group contributes. */
  function BuildGroup(key: string, group: seq<RawSegment>): seq<TypeSegment>
    decreases TotalNameLen(group), 1
  {
    if IsNested(group) then
      StripShrinks(group);
      [CompoundSegment(key, NestedSegments(StripAll(group)))]
    else
      seq(|group|, i requires 0 <= i < |group| => LeafSegment(group[i]))
  }

  /** The groups for keys `names[i..]`, concatenated. */
  function BuildAll(raw: seq<RawSegment>, names: seq<string>, i: nat): seq<TypeSegment>
    decreases TotalNameLen(raw), 2, |names| - i
  {
    if i >= |names| then []
    else
      BuildGroup(names[i], GroupOf(raw, names[i])) + BuildAll(raw, names, i + 1)
  }

  /** The segment tree of a flat list of raw segments with dotted names. */
  function NestedSegments(raw: seq<RawSegment>): seq<TypeSegment>
    decreases TotalNameLen(raw), 3
  {
    BuildAll(raw, TopNames(raw), 0)
  }

  // ---------------------------------------------------------------------
  // Properties of the grouping
  // ---------------------------------------------------------------------

  /** Every key is the key of some input segment, and every input segment's key is present. */
  lemma {:induction false} TopNamesComplete(raw: seq<RawSegment>)
    ensures forall a :: 0 <= a < |TopNames(raw)| ==> exists i :: 0 <= i < |raw| && TopName(raw[i]) == TopNames(raw)[a]
    ensures forall i :: 0 <= i < |raw| ==> TopName(raw[i]) in TopNames(raw)
  {
    if |raw| == 0 {
      assert TopNames(raw) == [];
    } else {
      var init := raw[..|raw| - 1];
      TopNamesComplete(init);
      assert forall i :: 0 <= i < |init| ==> raw[i] == init[i];
      var p := TopNames(init);
      var t := TopName(raw[|raw| - 1]);
      forall a | 0 <= a < |TopNames(raw)|
        ensures exists i :: 0 <= i < |raw| && TopName(raw[i]) == TopNames(raw)[a]
      {
        if a == |p| {
          assert TopName(raw[|raw| - 1]) == TopNames(raw)[a];
        } else {
          assert TopNames(raw)[a] == p[a];
          assert exists i :: 0 <= i < |init| && TopName(init[i]) == TopNames(init)[a];
          var i :| 0 <= i < |init| && TopName(init[i]) == p[a];
          assert raw[i] == init[i];
        }
      }
    }
  }

  lemma {:induction false} TopNamesDistinct(raw: seq<RawSegment>)
    ensures forall a, b :: 0 <= a < b < |TopNames(raw)| ==> TopNames(raw)[a] != TopNames(raw)[b]
  {
    if |raw| > 0 {
      TopNamesDistinct(raw[..|raw| - 1]);
    }
  }

  /** Some segment with key `x` comes before every segment with key `y`. */
  ghost predicate SeenBefore(raw: seq<RawSegment>, x: string, y: string)
  {
    exists i :: 0 <= i < |raw| && TopName(raw[i]) == x && forall q :: 0 <= q <= i ==> TopName(raw[q]) != y
  }

  /** Keys appear in first-seen order: key `a` occurs in the input before key `b` first does. */
  lemma TopNamesFirstSeen(raw: seq<RawSegment>)
    ensures forall a, b :: 0 <= a < b < |TopNames(raw)| ==> SeenBefore(raw, TopNames(raw)[a], TopNames(raw)[b])
  {
    forall a, b | 0 <= a < b < |TopNames(raw)|
      ensures SeenBefore(raw, TopNames(raw)[a], TopNames(raw)[b])
    {
      FirstSeenPair(raw, a, b);
    }
  }

  lemma {:induction false} FirstSeenPair(raw: seq<RawSegment>, a: nat, b: nat)
    requires a < b < |TopNames(raw)|
    ensures SeenBefore(raw, TopNames(raw)[a], TopNames(raw)[b])
  {
    var init := raw[..|raw| - 1];
    var p := TopNames(init);
    var t := TopName(raw[|raw| - 1]);
    var names := TopNames(raw);
    if b < |p| {
      FirstSeenPair(init, a, b);
      assert names[a] == p[a] && names[b] == p[b];
      var i :| 0 <= i < |init| && TopName(init[i]) == p[a]
               && forall q :: 0 <= q <= i ==> TopName(init[q]) != p[b];
      assert raw[i] == init[i];
      assert forall q :: 0 <= q <= i ==> raw[q] == init[q];
    } else {
      TopNamesComplete(init);
      assert t !in p && names == p + [t] && b == |p|;
      assert names[a] == p[a];
      var i :| 0 <= i < |init| && TopName(init[i]) == p[a];
      assert raw[i] == init[i];
      assert forall q :: 0 <= q <= i ==> raw[q] == init[q] && TopName(init[q]) in p;
    }
  }

  /** A key's group is non-empty. */
  lemma {:induction false} GroupOfNonEmpty(raw: seq<RawSegment>, i: nat)
    requires i < |raw|
    ensures |GroupOf(raw, TopName(raw[i]))| > 0
  {
    if i < |raw| - 1 {
      GroupOfNonEmpty(raw[..|raw| - 1], i);
    }
  }

  /** A non-empty input always yields at least one segment. */
  lemma NestedSegmentsNonEmpty(raw: seq<RawSegment>)
    requires |raw| > 0
    ensures |NestedSegments(raw)| > 0
  {
    TopNamesComplete(raw);
    var names := TopNames(raw);
    assert TopName(raw[0]) in names;
    GroupOfNonEmpty(raw, 0);
    var a :| 0 <= a < |names| && names[a] == TopName(raw[0]);
    BuildAllContains(raw, names, 0, a);
  }

  lemma {:induction false} BuildAllContains(raw: seq<RawSegment>, names: seq<string>, i: nat, a: nat)
    requires i <= a < |names| && |GroupOf(raw, names[a])| > 0
    ensures |BuildAll(raw, names, i)| > 0
    decreases a - i
  {
    var key := names[i];
    var head := BuildGroup(key, GroupOf(raw, key));
    var rest := BuildAll(raw, names, i + 1);
    assert BuildAll(raw, names, i) == head + rest;
    if i < a {
      BuildAllContains(raw, names, i + 1, a);
      assert |rest| > 0;
    } else {
      BuildGroupNonEmpty(key, GroupOf(raw, key));
      assert |head| > 0;
    }
  }

  lemma BuildGroupNonEmpty(key: string, group: seq<RawSegment>)
    requires |group| > 0
    ensures |BuildGroup(key, group)| > 0
  {
  }

  /**
   * A group without dotted names gives one leaf per raw segment, in order,
   * with absolute bounds and the name and type unchanged; a group with a
   * dotted name gives one compound segment named by the key, whose owned
   * structure has a total width one past its largest msb and no enum
   * definition, and whose own bounds are the largest msb and smallest lsb
   * of the inner segments.
   */
  lemma GroupSegments(key: string, group: seq<RawSegment>)
    ensures var out := BuildGroup(key, group);
            !IsNested(group) ==>
              && |out| == |group|
              && forall i :: 0 <= i < |group| ==>
                   out[i] == TypeSegment(group[i].varName, Abs(group[i].max), Abs(group[i].min), group[i].typeName, None)
    ensures var out := BuildGroup(key, group);
            IsNested(group) ==>
              && |out| == 1
              && out[0].name == Some(key)
              && out[0].typeName == "Compound"
              && out[0].nestedStructure.Some?
              && var inner := out[0].nestedStructure.value;
              && inner.segments == NestedSegments(StripAll(group))
              && |inner.segments| > 0
              && inner.enumDefinition.None?
              && inner.totalWidth == MaxMsb(inner.segments) + 1
              && (forall j :: 0 <= j < |inner.segments| ==> inner.segments[j].lsb >= out[0].lsb && inner.segments[j].msb <= out[0].msb)
              && (exists j :: 0 <= j < |inner.segments| && inner.segments[j].msb == out[0].msb)
              && (exists j :: 0 <= j < |inner.segments| && inner.segments[j].lsb == out[0].lsb)
  {
    if IsNested(group) {
      NestedSegmentsNonEmpty(StripAll(group));
    }
  }

  /** Every structure the grouping builds is well built, down to the innermost compound. */
  lemma {:induction false} NestedSegmentsWellBuilt(raw: seq<RawSegment>)
    ensures forall i :: 0 <= i < |NestedSegments(raw)| ==> SegmentWellBuilt(NestedSegments(raw)[i])
    decreases TotalNameLen(raw), 3
  {
    BuildAllWellBuilt(raw, TopNames(raw), 0);
  }

  lemma {:induction false} BuildAllWellBuilt(raw: seq<RawSegment>, names: seq<string>, i: nat)
    ensures forall j :: 0 <= j < |BuildAll(raw, names, i)| ==> SegmentWellBuilt(BuildAll(raw, names, i)[j])
    decreases TotalNameLen(raw), 2, |names| - i
  {
    if i < |names| {
      BuildGroupWellBuilt(names[i], GroupOf(raw, names[i]));
      BuildAllWellBuilt(raw, names, i + 1);
    }
  }

  lemma {:induction false} BuildGroupWellBuilt(key: string, group: seq<RawSegment>)
    ensures forall j :: 0 <= j < |BuildGroup(key, group)| ==> SegmentWellBuilt(BuildGroup(key, group)[j])
    decreases TotalNameLen(group), 1
  {
    if IsNested(group) {
      StripShrinks(group);
      var inner := NestedSegments(StripAll(group));
      NestedSegmentsWellBuilt(StripAll(group));
      NestedSegmentsNonEmpty(StripAll(group));
      assert WellBuilt(TypeStructure(MaxMsb(inner) + 1, inner, None));
    }
  }

  /** The first pass: buckets segments by key and remembers keys in first-seen order. */
  method GroupByTopName(rawSegments: seq<RawSegment>) returns (groups: map<string, seq<RawSegment>>, topLevelNames: seq<string>)
    ensures topLevelNames == TopNames(rawSegments)
    ensures forall k :: k in groups <==> k in topLevelNames
    ensures forall k :: k in groups ==> groups[k] == GroupOf(rawSegments, k)
  {
    groups := map[];
    topLevelNames := [];
    for i := 0 to |rawSegments|
      invariant topLevelNames == TopNames(rawSegments[..i])
      invariant forall k :: k in groups <==> k in topLevelNames
      invariant forall k :: k in groups ==> groups[k] == GroupOf(rawSegments[..i], k)
      invariant forall k :: k !in groups ==> GroupOf(rawSegments[..i], k) == []
    {
      var seg := rawSegments[i];
      var varName := seg.varName.GetOr("");
      var topName := FirstComponent(varName);
      assert rawSegments[..i + 1][..i] == rawSegments[..i];
      if topName !in topLevelNames {
        topLevelNames := topLevelNames + [topName];
      }
      var existing := if topName in groups then groups[topName] else [];
      groups := groups[topName := existing + [seg]];
    }
    assert rawSegments[..|rawSegments|] == rawSegments;
  }

  /** Appending group `j`'s contribution to the segments of groups before it moves the loop on by one key. */
  lemma BuildAllExtend(raw: seq<RawSegment>, names: seq<string>, j: nat, done: seq<TypeSegment>, part: seq<TypeSegment>)
    requires j < |names|
    requires part == BuildGroup(names[j], GroupOf(raw, names[j]))
    ensures done + BuildAll(raw, names, j) == (done + part) + BuildAll(raw, names, j + 1)
  {
    assert BuildAll(raw, names, j) == part + BuildAll(raw, names, j + 1);
    assert done + (part + BuildAll(raw, names, j + 1)) == (done + part) + BuildAll(raw, names, j + 1);
  }

  /** Removing one key from the buckets leaves the buckets of the keys after it. */
  lemma RemoveKeepsLaterGroups(raw: seq<RawSegment>, names: seq<string>, j: nat, groups: map<string, seq<RawSegment>>)
    requires j < |names|
    requires forall a, b :: 0 <= a < b < |names| ==> names[a] != names[b]
    requires forall q :: j <= q < |names| ==> names[q] in groups && groups[names[q]] == GroupOf(raw, names[q])
    ensures forall q :: j + 1 <= q < |names| ==> names[q] in groups - {names[j]} && (groups - {names[j]})[names[q]] == GroupOf(raw, names[q])
  {
    forall q | j + 1 <= q < |names|
      ensures names[q] in groups - {names[j]} && (groups - {names[j]})[names[q]] == GroupOf(raw, names[q])
    {
      assert names[q] != names[j];
    }
  }

  /**
   * Groups the raw segments by first name component and recurses into
   * dotted groups. The function this models returns a `Result` that is
   * always `Ok`, so the model returns the segments.
   */
  method ProcessNestedSegments(rawSegments: seq<RawSegment>) returns (finalSegments: seq<TypeSegment>)
    ensures finalSegments == NestedSegments(rawSegments)
    decreases TotalNameLen(rawSegments)
  {
    var groups, topLevelNames := GroupByTopName(rawSegments);
    TopNamesDistinct(rawSegments);
    ghost var target := BuildAll(rawSegments, topLevelNames, 0);

    finalSegments := [];
    assert finalSegments + BuildAll(rawSegments, topLevelNames, 0) == target;
    for j := 0 to |topLevelNames|
      invariant finalSegments + BuildAll(rawSegments, topLevelNames, j) == target
      invariant forall q :: j <= q < |topLevelNames| ==> topLevelNames[q] in groups && groups[topLevelNames[q]] == GroupOf(rawSegments, topLevelNames[q])
    {
      var topName := topLevelNames[j];
      // every key was bucketed by the first pass, so removing it always yields its group
      var group := groups[topName];
      RemoveKeepsLaterGroups(rawSegments, topLevelNames, j, groups);
      groups := groups - {topName};
      var part: seq<TypeSegment>;
      BuildGroupCases(topName, group);
      if IsNested(group) {
        // the nested case: strip the first component and recurse into a compound segment
        var remainingSegments := StripAll(group);
        var innerSegments := ProcessNestedSegments(remainingSegments);
        // bounds and width of the compound come from the inner segments
        part := [CompoundSegment(topName, innerSegments)];
      } else {
        // the leaf case: every segment of the group, unchanged but for absolute bounds
        part := LeafSegments(group);
        assert part == seq(|group|, i requires 0 <= i < |group| => LeafSegment(group[i]));
      }
      BuildAllExtend(rawSegments, topLevelNames, j, finalSegments, part);
      finalSegments := finalSegments + part;
    }
    assert finalSegments + [] == finalSegments;
  }

  /** One leaf segment per raw segment of an undotted group, in order. */
  method LeafSegments(group: seq<RawSegment>) returns (segments: seq<TypeSegment>)
    ensures |segments| == |group|
    ensures forall t :: 0 <= t < |group| ==> segments[t] == LeafSegment(group[t])
  {
    segments := [];
    for t := 0 to |group|
      invariant |segments| == t
      invariant forall x :: 0 <= x < t ==> segments[x] == LeafSegment(group[x])
    {
      var seg := group[t];
      segments := segments + [TypeSegment(seg.varName, Abs(seg.max), Abs(seg.min), seg.typeName, None)];
    }
  }

  // ---------------------------------------------------------------------
  // Typedef classification
  // ---------------------------------------------------------------------

  /** Type names always recorded as plain bit vectors. */
  predicate IsPrimitiveName(typeName: string)
  {
    "Bit#(" <= typeName || typeName == "Bool" || typeName == "Clock" || typeName == "Reset"
  }

  /** The least `k` with `2^k >= n`. */
  function CeilLog2(n: nat): (k: nat)
    requires n >= 1
    ensures Pow2(k) >= n
    ensures k > 0 ==> Pow2(k - 1) < n
  {
    if n == 1 then 0 else 1 + CeilLog2((n + 1) / 2)
  }

  /**
   * The recorded width of an enum with largest tag `maxTag`: the ceiling of
   * `log2(maxTag)` for a positive tag, 1 otherwise.
   */
  function EnumWidth(maxTag: nat): nat
  {
    if maxTag > 0 then CeilLog2(maxTag) else 1
  }

  /**
   * The width is the least `k` with `2^k` at least the largest tag (1 for
   * tag 0): largest tag 1 gives 0 bits, 2 gives 1, 3 gives 2.
   */
  lemma EnumWidthBounds(maxTag: nat)
    ensures maxTag == 0 ==> EnumWidth(maxTag) == 1
    ensures maxTag > 0 ==> Pow2(EnumWidth(maxTag)) >= maxTag
    ensures maxTag > 0 && EnumWidth(maxTag) > 0 ==> Pow2(EnumWidth(maxTag) - 1) < maxTag
    ensures EnumWidth(1) == 0 && EnumWidth(2) == 1 && EnumWidth(3) == 2
  {
    assert CeilLog2(2) == 1 + CeilLog2(1);
    assert CeilLog2(3) == 1 + CeilLog2(2);
  }

  /** A largest tag that is a power of two gets exactly that exponent, one bit too few to hold it. */
  lemma {:induction false} EnumWidthPowerOfTwo(k: nat)
    ensures EnumWidth(Pow2(k)) == k
    ensures Pow2(k) >= Pow2(EnumWidth(Pow2(k)))
  {
    if k > 0 {
      EnumWidthPowerOfTwo(k - 1);
      assert (Pow2(k) + 1) / 2 == Pow2(k - 1);
    }
  }

  /** The largest tag, 0 for no members. */
  function MaxTag(members: seq<RawEnumMember>): (m: U64)
    ensures forall i :: 0 <= i < |members| ==> members[i].tag <= m
    ensures |members| > 0 ==> exists i :: 0 <= i < |members| && members[i].tag == m
    ensures |members| == 0 ==> m == 0
  {
    if |members| == 0 then 0
    else
      var rest := MaxTag(members[1..]);
      if members[0].tag >= rest then members[0].tag else rest
  }

  /** The tag-to-name table; a later member with the same tag overwrites an earlier one. */
  function MembersMap(members: seq<RawEnumMember>): map<U64, string>
  {
    if |members| == 0 then map[]
    else MembersMap(members[..|members| - 1])[members[|members| - 1].tag := members[|members| - 1].name]
  }

  /** The table has exactly the members' tags. */
  lemma {:induction false} MembersMapKeys(members: seq<RawEnumMember>)
    ensures MembersMap(members).Keys == set i | 0 <= i < |members| :: members[i].tag
  {
    if |members| > 0 {
      var init := members[..|members| - 1];
      MembersMapKeys(init);
      assert forall i :: 0 <= i < |init| ==> init[i] == members[i];
      var lhs := MembersMap(members).Keys;
      var rhs := set i | 0 <= i < |members| :: members[i].tag;
      forall t | t in rhs ensures t in lhs {
        var i :| 0 <= i < |members| && members[i].tag == t;
        if i < |init| {
          assert init[i].tag == t;
        }
      }
    }
  }

  /** The name a tag maps to is that of its last member. */
  lemma {:induction false} MembersMapLastWins(members: seq<RawEnumMember>, i: nat)
    requires i < |members|
    requires forall j :: i < j < |members| ==> members[j].tag != members[i].tag
    ensures members[i].tag in MembersMap(members)
    ensures MembersMap(members)[members[i].tag] == members[i].name
  {
    if i < |members| - 1 {
      var init := members[..|members| - 1];
      assert init[i] == members[i];
      MembersMapLastWins(init, i);
    }
  }

  /** The structure registered for an enum typedef. */
  function EnumStructure(typeName: string, members: seq<RawEnumMember>): TypeStructure
  {
    var totalWidth := EnumWidth(MaxTag(members));
    var segment := TypeSegment(None, if totalWidth >= 1 then totalWidth - 1 else 0, 0, typeName, None);
    TypeStructure(totalWidth, [segment], Some(EnumDefinition(MembersMap(members))))
  }

  /** The structure registered for a struct typedef. */
  function StructStructure(rawSegments: seq<RawSegment>): TypeStructure
  {
    var segments := NestedSegments(rawSegments);
    TypeStructure(MaxMsb(segments) + 1, segments, None)
  }

  /** The typedef a value registers, if any. */
  function TypedefEntry(typeName: string, value: TypedefValue): Option<TypeStructure>
  {
    if IsPrimitiveName(typeName) then None
    else match value
      case SegmentList(raw) => if |raw| > 0 then Some(StructStructure(raw)) else None
      case MemberList(ms) => if |ms| > 0 then Some(EnumStructure(typeName, ms)) else None
      case OtherValue => None
  }

  /** The category a value records. */
  function TypedefCategory(typeName: string, value: TypedefValue): TypeCategory
  {
    if IsPrimitiveName(typeName) then Bits
    else match value
      case SegmentList(raw) => if |raw| > 0 then Struct else Bits
      case MemberList(ms) => if |ms| > 0 then Enum else Bits
      case OtherValue => Bits
  }

  /** The registry after processing one typedef. */
  function ApplyTypedef(t: TypeRegistry, typeName: string, value: TypedefValue): TypeRegistry
  {
    var typedefs := match TypedefEntry(typeName, value)
      case Some(s) => t.typedefs[typeName := s]
      case None => t.typedefs;
    TypeRegistry(typedefs, t.lookup[typeName := TypedefCategory(typeName, value)])
  }

  /** Every typedef value gets a category; only non-primitive, non-empty struct or enum values a typedef. */
  lemma ApplyTypedefRecords(t: TypeRegistry, typeName: string, value: TypedefValue)
    ensures var t' := ApplyTypedef(t, typeName, value);
            && typeName in t'.lookup
            && (t'.lookup[typeName] in {Struct, Enum} <==> TypedefEntry(typeName, value).Some?)
            && (TypedefEntry(typeName, value).Some? ==> t'.typedefs[typeName] == TypedefEntry(typeName, value).value)
            && (IsPrimitiveName(typeName) || TypedefEntry(typeName, value).None? ==> t'.lookup[typeName] == Bits)
            && (t'.lookup[typeName] == Struct <==> !IsPrimitiveName(typeName) && value.SegmentList? && |value.segments| > 0)
            && (t'.lookup[typeName] == Enum <==> !IsPrimitiveName(typeName) && value.MemberList? && |value.members| > 0)
            && (forall n :: n != typeName ==> (n in t'.lookup <==> n in t.lookup) && (n in t'.typedefs <==> n in t.typedefs))
            && (forall n :: n != typeName && n in t.lookup ==> t'.lookup[n] == t.lookup[n])
            && (forall n :: n != typeName && n in t.typedefs ==> t'.typedefs[n] == t.typedefs[n])
  {
  }

  /** A struct typedef is well built and an enum typedef enumerated. */
  lemma TypedefEntryShape(typeName: string, value: TypedefValue)
    ensures TypedefCategory(typeName, value) == Struct ==>
              TypedefEntry(typeName, value).Some? && WellBuilt(TypedefEntry(typeName, value).value)
    ensures TypedefCategory(typeName, value) == Enum ==>
              TypedefEntry(typeName, value).Some? && IsEnumStructure(TypedefEntry(typeName, value).value, typeName)
    ensures TypedefEntry(typeName, value).Some? ==>
              WellBuilt(TypedefEntry(typeName, value).value) || IsEnumStructure(TypedefEntry(typeName, value).value, typeName)
  {
    if !IsPrimitiveName(typeName) && value.SegmentList? && |value.segments| > 0 {
      NestedSegmentsWellBuilt(value.segments);
    }
  }

  /** Processing a typedef keeps the registry consistent. */
  lemma ApplyTypedefConsistent(t: TypeRegistry, typeName: string, value: TypedefValue)
    requires Consistent(t)
    ensures Consistent(ApplyTypedef(t, typeName, value))
  {
    TypedefEntryShape(typeName, value);
  }

  /**
   * Classifies one typedef: a primitive name records Bits and no typedef; a
   * non-empty segment list records a struct; a non-empty member list an enum
   * whose single segment spans the enum width; anything else records Bits.
   */
  method ProcessTypedef(typeName: string, rawValue: TypedefValue, typedefs: map<string, TypeStructure>, lookup: map<string, TypeCategory>)
    returns (typedefs': map<string, TypeStructure>, lookup': map<string, TypeCategory>, r: Result<(), string>)
    ensures r == Success(())
    ensures TypeRegistry(typedefs', lookup') == ApplyTypedef(TypeRegistry(typedefs, lookup), typeName, rawValue)
  {
    typedefs', lookup', r := typedefs, lookup, Success(());
    ghost var t := TypeRegistry(typedefs, lookup);
    if "Bit#(" <= typeName || typeName == "Bool" || typeName == "Clock" || typeName == "Reset" {
      lookup' := lookup[typeName := Bits];
      assert ApplyTypedef(t, typeName, rawValue) == TypeRegistry(typedefs, lookup');
      return;
    }
    assert !IsPrimitiveName(typeName);
    if rawValue.SegmentList? && |rawValue.segments| > 0 {
      var segments := ProcessNestedSegments(rawValue.segments);
      var totalWidth := MaxMsb(segments) + 1;
      NestedSegmentsNonEmpty(rawValue.segments);
      if |segments| == 0 {
        // the "No valid segments" error: a non-empty segment list never yields an empty tree
        assert false;
      }
      typedefs' := typedefs[typeName := TypeStructure(totalWidth, segments, None)];
      lookup' := lookup[typeName := Struct];
      assert TypeStructure(totalWidth, segments, None) == StructStructure(rawValue.segments);
      assert ApplyTypedef(t, typeName, rawValue) == TypeRegistry(typedefs', lookup');
      return;
    }
    if rawValue.MemberList? && |rawValue.members| > 0 {
      var members := rawValue.members;
      var maxVal := MaxTag(members);
      var totalWidth := if maxVal > 0 then CeilLog2(maxVal) else 1;
      var enumMembers: map<U64, string> := map[];
      for i := 0 to |members|
        invariant enumMembers == MembersMap(members[..i])
      {
        assert members[..i + 1][..i] == members[..i];
        enumMembers := enumMembers[members[i].tag := members[i].name];
      }
      assert members[..|members|] == members;
      ghost var expected := EnumStructure(typeName, members);
      var segment := TypeSegment(None, if totalWidth >= 1 then totalWidth - 1 else 0, 0, typeName, None);
      typedefs' := typedefs[typeName := TypeStructure(totalWidth, [segment], Some(EnumDefinition(enumMembers)))];
      lookup' := lookup[typeName := Enum];
      assert typedefs'[typeName] == expected;
      assert ApplyTypedef(t, typeName, rawValue) == TypeRegistry(typedefs', lookup');
      return;
    }
    lookup' := lookup[typeName := Bits];
    assert ApplyTypedef(t, typeName, rawValue) == TypeRegistry(typedefs, lookup');
  }

  // ---------------------------------------------------------------------
  // Blocks and start-up
  // ---------------------------------------------------------------------

  /** The block definitions of one module's raw blocks, under the same instance names. */
  function BlockDefinitions(rawBlocks: map<string, ModuleBlockJson>): map<string, RawBlockDefinition>
  {
    map k | k in rawBlocks :: RawBlockDefinition(rawBlocks[k].typeName, rawBlocks[k].ports)
  }

  /** Module `i` is the last of the first `n` modules named `m`. */
  ghost predicate LastNamed(modules: seq<(string, ModuleContent)>, n: nat, m: string, i: nat)
  {
    && i < n <= |modules|
    && modules[i].0 == m
    && forall q :: i < q < n ==> modules[q].0 != m
  }

  /** Every recorded module holds the blocks of the last of the first `n` modules with its name. */
  ghost predicate RecordsLastModules(modules: seq<(string, ModuleContent)>, n: nat, recorded: map<string, ModuleData>)
    requires n <= |modules|
  {
    && (forall i :: 0 <= i < n ==> modules[i].0 in recorded)
    && (forall m :: m in recorded ==>
          exists i: nat :: LastNamed(modules, n, m, i) && recorded[m] == ModuleData(BlockDefinitions(modules[i].1.blocks)))
  }

  /** Recording module `n` over the first `n` keeps every module's data from its last occurrence. */
  lemma RecordModule(modules: seq<(string, ModuleContent)>, n: nat, recorded: map<string, ModuleData>)
    requires n < |modules|
    requires RecordsLastModules(modules, n, recorded)
    ensures RecordsLastModules(modules, n + 1, recorded[modules[n].0 := ModuleData(BlockDefinitions(modules[n].1.blocks))])
  {
    var after := recorded[modules[n].0 := ModuleData(BlockDefinitions(modules[n].1.blocks))];
    assert forall i :: 0 <= i < n + 1 ==> modules[i].0 in after;
    forall m | m in after
      ensures exists i: nat :: LastNamed(modules, n + 1, m, i) && after[m] == ModuleData(BlockDefinitions(modules[i].1.blocks))
    {
      if m == modules[n].0 {
        assert LastNamed(modules, n + 1, m, n);
      } else {
        var i: nat :| LastNamed(modules, n, m, i) && recorded[m] == ModuleData(BlockDefinitions(modules[i].1.blocks));
        assert LastNamed(modules, n + 1, m, i);
      }
    }
  }

  /** A recorded module name is the name of one of the modules. */
  lemma RecordedModulesNamed(modules: seq<(string, ModuleContent)>, recorded: map<string, ModuleData>)
    requires RecordsLastModules(modules, |modules|, recorded)
    ensures forall i :: 0 <= i < |modules| ==> modules[i].0 in recorded
    ensures forall m :: m in recorded ==> exists i :: 0 <= i < |modules| && modules[i].0 == m
    ensures forall m :: m in recorded ==>
              exists i: nat :: LastNamed(modules, |modules|, m, i) && recorded[m] == ModuleData(BlockDefinitions(modules[i].1.blocks))
  {
    forall m | m in recorded
      ensures exists i :: 0 <= i < |modules| && modules[i].0 == m
    {
      var i: nat :| LastNamed(modules, |modules|, m, i) && recorded[m] == ModuleData(BlockDefinitions(modules[i].1.blocks));
    }
  }

  /** One module's typedefs processed in order. */
  function ApplyTypedefs(t: TypeRegistry, defs: seq<(string, TypedefValue)>): TypeRegistry
  {
    if |defs| == 0 then t
    else ApplyTypedef(ApplyTypedefs(t, defs[..|defs| - 1]), defs[|defs| - 1].0, defs[|defs| - 1].1)
  }

  /**
   * Processing a module's typedefs keeps the registry consistent, and the
   * names with a category afterwards are those before plus every typedef name.
   */
  lemma {:induction false} ApplyTypedefsRecords(t: TypeRegistry, defs: seq<(string, TypedefValue)>)
    requires Consistent(t)
    ensures Consistent(ApplyTypedefs(t, defs))
    ensures forall n :: n in ApplyTypedefs(t, defs).lookup <==> n in t.lookup || exists j :: 0 <= j < |defs| && defs[j].0 == n
  {
    if |defs| > 0 {
      var init := defs[..|defs| - 1];
      var last := defs[|defs| - 1];
      ApplyTypedefsRecords(t, init);
      ApplyTypedefConsistent(ApplyTypedefs(t, init), last.0, last.1);
      ApplyTypedefRecords(ApplyTypedefs(t, init), last.0, last.1);
      forall n | n in ApplyTypedefs(t, defs).lookup
        ensures n in t.lookup || exists j :: 0 <= j < |defs| && defs[j].0 == n
      {
        if n != last.0 && n !in t.lookup {
          var j :| 0 <= j < |init| && init[j].0 == n;
          assert defs[j] == init[j];
        }
      }
      forall n | exists j :: 0 <= j < |defs| && defs[j].0 == n
        ensures n in ApplyTypedefs(t, defs).lookup
      {
        var j :| 0 <= j < |defs| && defs[j].0 == n;
        if j < |init| {
          assert init[j] == defs[j];
        }
      }
    }
  }

  /** The typedef loop of one module: every typedef through ProcessTypedef, in order. */
  method ProcessModuleTypedefs(defs: seq<(string, TypedefValue)>, typedefs: map<string, TypeStructure>, lookup: map<string, TypeCategory>)
    returns (typedefs': map<string, TypeStructure>, lookup': map<string, TypeCategory>)
    ensures TypeRegistry(typedefs', lookup') == ApplyTypedefs(TypeRegistry(typedefs, lookup), defs)
  {
    typedefs', lookup' := typedefs, lookup;
    for j := 0 to |defs|
      invariant TypeRegistry(typedefs', lookup') == ApplyTypedefs(TypeRegistry(typedefs, lookup), defs[..j])
    {
      var (typeName, rawValue) := defs[j];
      // a failing typedef is only logged, and ProcessTypedef never fails
      var r;
      typedefs', lookup', r := ProcessTypedef(typeName, rawValue, typedefs', lookup');
      assert defs[..j + 1][..j] == defs[..j];
    }
    assert defs[..|defs|] == defs;
  }

  /** The typedefs of every module processed in module order, starting from empty maps. */
  function ApplyModuleTypedefs(modules: seq<(string, ModuleContent)>): TypeRegistry
  {
    if |modules| == 0 then TypeRegistry(map[], map[])
    else ApplyTypedefs(ApplyModuleTypedefs(modules[..|modules| - 1]), modules[|modules| - 1].1.typedefs)
  }

  /** Every typedef name of the modules has a category. */
  ghost predicate TypedefsRecorded(modules: seq<(string, ModuleContent)>, lookup: map<string, TypeCategory>)
  {
    forall i, j :: 0 <= i < |modules| && 0 <= j < |modules[i].1.typedefs| ==> modules[i].1.typedefs[j].0 in lookup
  }

  /**
   * The registry built from all modules is consistent and gives every
   * typedef name of every module a category.
   */
  lemma {:induction false} ApplyModuleTypedefsRecords(modules: seq<(string, ModuleContent)>)
    ensures Consistent(ApplyModuleTypedefs(modules))
    ensures TypedefsRecorded(modules, ApplyModuleTypedefs(modules).lookup)
  {
    if |modules| > 0 {
      var init := modules[..|modules| - 1];
      var defs := modules[|modules| - 1].1.typedefs;
      ApplyModuleTypedefsRecords(init);
      ApplyTypedefsRecords(ApplyModuleTypedefs(init), defs);
      var lookup := ApplyModuleTypedefs(modules).lookup;
      forall i, j | 0 <= i < |modules| && 0 <= j < |modules[i].1.typedefs|
        ensures modules[i].1.typedefs[j].0 in lookup
      {
        if i < |init| {
          assert init[i] == modules[i];
        } else {
          assert defs[j].0 == modules[i].1.typedefs[j].0;
        }
      }
    }
  }

  /** Processing one more module's typedefs. */
  lemma ApplyModuleTypedefsStep(modules: seq<(string, ModuleContent)>, n: nat)
    requires n < |modules|
    ensures ApplyModuleTypedefs(modules[..n + 1]) == ApplyTypedefs(ApplyModuleTypedefs(modules[..n]), modules[n].1.typedefs)
  {
    assert modules[..n + 1][..n] == modules[..n];
  }

  /** Converts each raw block to a block definition, keeping instance names. */
  method ProcessModuleBlocks(rawBlocks: map<string, ModuleBlockJson>) returns (r: Result<map<string, RawBlockDefinition>, string>)
    ensures r.Success?
    ensures r.value.Keys == rawBlocks.Keys
    ensures forall k :: k in rawBlocks ==> r.value[k] == RawBlockDefinition(rawBlocks[k].typeName, rawBlocks[k].ports)
    ensures r.value == BlockDefinitions(rawBlocks)
  {
    var blockDefsMap: map<string, RawBlockDefinition> := map[];
    var remaining := rawBlocks.Keys;
    while remaining != {}
      invariant remaining <= rawBlocks.Keys
      invariant blockDefsMap.Keys == rawBlocks.Keys - remaining
      invariant forall k :: k in blockDefsMap ==> blockDefsMap[k] == RawBlockDefinition(rawBlocks[k].typeName, rawBlocks[k].ports)
      decreases remaining
    {
      var instanceName :| instanceName in remaining;
      var block := rawBlocks[instanceName];
      blockDefsMap := blockDefsMap[instanceName := RawBlockDefinition(block.typeName, block.ports)];
      remaining := remaining - {instanceName};
    }
    r := Success(blockDefsMap);
  }

  /**
   * Builds the registries from the modules of a design description (in
   * iteration order) and the scope alias table: every typedef of every module
   * goes through ProcessTypedef and every module's blocks are recorded.
   */
  method InitializeRegistries(modules: seq<(string, ModuleContent)>, maps: seq<AliasGroup>) returns (reg: Registry)
    ensures reg.types == ApplyModuleTypedefs(modules)
    ensures Consistent(reg.types)
    ensures forall i, j :: 0 <= i < |modules| && 0 <= j < |modules[i].1.typedefs| ==> modules[i].1.typedefs[j].0 in reg.types.lookup
    ensures forall i :: 0 <= i < |modules| ==> modules[i].0 in reg.blocks.modules
    ensures forall m :: m in reg.blocks.modules ==> exists i :: 0 <= i < |modules| && modules[i].0 == m
    ensures forall m :: m in reg.blocks.modules ==>
              exists i: nat :: LastNamed(modules, |modules|, m, i)
                               && reg.blocks.modules[m] == ModuleData(BlockDefinitions(modules[i].1.blocks))
    ensures reg.blocks.maps == maps
  {
    var modulesMap: map<string, ModuleData> := map[];
    var typedefs: map<string, TypeStructure> := map[];
    var lookup: map<string, TypeCategory> := map[];
    for i := 0 to |modules|
      invariant TypeRegistry(typedefs, lookup) == ApplyModuleTypedefs(modules[..i])
      invariant RecordsLastModules(modules, i, modulesMap)
    {
      var (moduleName, moduleContent) := modules[i];
      ApplyModuleTypedefsStep(modules, i);
      typedefs, lookup := ProcessModuleTypedefs(moduleContent.typedefs, typedefs, lookup);
      var moduleBlocks := ProcessModuleBlocks(moduleContent.blocks);
      RecordModule(modules, i, modulesMap);
      modulesMap := modulesMap[moduleName := ModuleData(moduleBlocks.value)];
    }
    RecordedModulesNamed(modules, modulesMap);
    assert modules[..|modules|] == modules;
    ApplyModuleTypedefsRecords(modules);
    reg := Registry(TypeRegistry(typedefs, lookup), BlockRegistry(modulesMap, maps));
  }
}
