/**
 * src/helper.rs: the port-priority constants, the signal-name matcher, scope
 * resolution through the alias table and the module registry, and the
 * port-selection policy that yields a variable's type name.
 */
module Helper {
  import opened Wrappers
  import opened Types
  import opened Surfer

  /** Ports that never represent an instance: clock, reset, enable and FIFO control. */
  const IGNORED_PORTS: seq<string> := ["CLK", "RST", "EN", "CLR", "FULL_N", "EMPTY_N", "ENQ", "DEQ"]

  /** Ports that represent an instance's value, highest priority first. */
  const PREFERRED_PORTS: seq<string> := ["Q_OUT", "D_OUT", "Probe", "PROBE", "D_IN", "WGET", "WHAS"]

  datatype SignalNameFormat =
    | FullVar(full: string)
    | PortedVar(port: string)
    | Unknown

  /** The placeholder result for a value the plugin does not translate: an empty string. */
  function CreateNoTranslationResult(): (r: TranslationResult)
    ensures r.val == StringValue("") && r.subfields == [] && r.kind == Normal
    ensures ShapeOf(r) == StringInfo
  {
    TranslationResult(StringValue(""), [], Normal)
  }

  // ---------------------------------------------------------------------
  // Characters
  // ---------------------------------------------------------------------

  predicate IsAsciiAlnum(c: char)
  {
    ('a' <= c <= 'z') || ('A' <= c <= 'Z') || ('0' <= c <= '9')
  }

  predicate IsWordChar(c: char)
  {
    IsAsciiAlnum(c) || c == '_'
  }

  predicate IsSeparator(c: char)
  {
    c == '_' || c == '$'
  }

  /** ASCII upper-casing of one character. */
  function ToUpperChar(c: char): (u: char)
    ensures !('a' <= u <= 'z')
    ensures IsAsciiAlnum(c) ==> IsAsciiAlnum(u)
  {
    if 'a' <= c <= 'z' then (c as int - 32) as char else c
  }

  function ToUpper(s: string): (u: string)
    ensures |u| == |s|
  {
    seq(|s|, i requires 0 <= i < |s| => ToUpperChar(s[i]))
  }

  /** The mixed-case `"Probe"` entry of the preferred list equals no upper-cased name. */
  lemma ProbeEntryNeverMatches(s: string)
    ensures ToUpper(s) != PREFERRED_PORTS[2]
  {
    if |s| == 5 {
      assert ToUpper(s)[1] == ToUpperChar(s[1]);
      assert PREFERRED_PORTS[2][1] == 'r';
    }
  }

  // ---------------------------------------------------------------------
  // Signal names: ^(?P<base>[a-zA-Z0-9_]+)[_$](?P<port>[a-zA-Z0-9]+)$
  // ---------------------------------------------------------------------

  /** Index of the last `_` or `$` in `name`, if any. */
  function LastSeparator(name: string): (r: Option<nat>)
    ensures r.Some? ==> r.value < |name| && IsSeparator(name[r.value])
    ensures r.Some? ==> forall j :: r.value < j < |name| ==> !IsSeparator(name[j])
    ensures r.None? ==> forall j :: 0 <= j < |name| ==> !IsSeparator(name[j])
  {
    if |name| == 0 then None
    else if IsSeparator(name[|name| - 1]) then Some(|name| - 1)
    else LastSeparator(name[..|name| - 1])
  }

  /** `name` is `base`, one separator, then `port`, with the character classes of the pattern. */
  predicate SplitsAsSignal(name: string, base: string, port: string)
  {
    && |base| > 0
    && |port| > 0
    && |name| == |base| + 1 + |port|
    && name[..|base|] == base
    && IsSeparator(name[|base|])
    && name[|base| + 1..] == port
    && (forall i :: 0 <= i < |base| ==> IsWordChar(base[i]))
    && (forall i :: 0 <= i < |port| ==> IsAsciiAlnum(port[i]))
  }

  /**
   * Splits a signal token into an instance name and a format: a ported
   * variable when the token matches the pattern and its upper-cased port is
   * a preferred port, and the whole token otherwise.
   */
  function ParseSignalName(name: string): (r: (string, SignalNameFormat))
    ensures !r.1.Unknown?
    ensures r.1.FullVar? ==> r == (name, FullVar(name))
    ensures r.1.PortedVar? ==> SplitsAsSignal(name, r.0, r.1.port) && ToUpper(r.1.port) in PREFERRED_PORTS
  {
    match LastSeparator(name)
    case None => (name, FullVar(name))
    case Some(k) =>
      var base := name[..k];
      var port := name[k + 1..];
      if SplitsAsSignal(name, base, port) && ToUpper(port) in PREFERRED_PORTS then
        (base, PortedVar(port))
      else
        (name, FullVar(name))
  }

  /**
   * Every match of the pattern with a preferred port is found, and the split
   * is at the last separator (the port cannot contain one).
   */
  lemma ParseSignalNameComplete(name: string, base: string, port: string)
    requires SplitsAsSignal(name, base, port)
    requires ToUpper(port) in PREFERRED_PORTS
    ensures ParseSignalName(name) == (base, PortedVar(port))
  {
    var k := |base|;
    forall j | k < j < |name|
      ensures !IsSeparator(name[j])
    {
      assert name[j] == port[j - k - 1];
    }
    var r := LastSeparator(name);
    assert r == Some(k);
    assert name[..k] == base && name[k + 1..] == port;
  }

  /**
   * The port of a ported variable has no underscore, so of the preferred
   * ports only `PROBE`, `WGET` and `WHAS` (in any case) can select one;
   * `Q_OUT`, `D_OUT` and `D_IN` never do.
   */
  lemma PortedVarPortsHaveNoUnderscore(name: string)
    ensures ParseSignalName(name).1.PortedVar? ==> ToUpper(ParseSignalName(name).1.port) in ["PROBE", "WGET", "WHAS"]
  {
    var r := ParseSignalName(name);
    if r.1.PortedVar? {
      var port := r.1.port;
      var u := ToUpper(port);
      forall i | 0 <= i < |u|
        ensures u[i] != '_'
      {
        assert u[i] == ToUpperChar(port[i]);
        assert IsAsciiAlnum(port[i]);
      }
      ProbeEntryNeverMatches(port);
      assert u != "Q_OUT" by { if |u| == 5 { assert u[1] != '_'; } }
      assert u != "D_OUT" by { if |u| == 5 { assert u[1] != '_'; } }
      assert u != "D_IN" by { if |u| == 4 { assert u[1] != '_'; } }
    }
  }

  /** A token whose split is not a preferred port stays whole. */
  lemma ParseSignalNameFullVar(name: string)
    requires forall base, port :: SplitsAsSignal(name, base, port) ==> ToUpper(port) !in PREFERRED_PORTS
    ensures ParseSignalName(name) == (name, FullVar(name))
  {
  }

  // ---------------------------------------------------------------------
  // Scope resolution
  // ---------------------------------------------------------------------

  /** The first mapping of one alias group whose alias path is a prefix of `path`. */
  function FindInGroup(ms: seq<AliasMapping>, path: seq<string>): (r: Option<(string, nat)>)
    ensures r.Some? ==> r.value.1 <= |path|
  {
    if |ms| == 0 then None
    else if ms[0].origNames <= path then Some((ms[0].implName, |ms[0].origNames|))
    else FindInGroup(ms[1..], path)
  }

  /** The anchor of a scope path: the first prefix match over all groups, in table order. */
  function FindAnchor(maps: seq<AliasGroup>, path: seq<string>): (r: Option<(string, nat)>)
    ensures r.Some? ==> r.value.1 <= |path|
  {
    if |maps| == 0 then None
    else
      match FindInGroup(maps[0].mappings, path)
      case Some(a) => Some(a)
      case None => FindAnchor(maps[1..], path)
  }

  /** The group search returns the first mapping whose alias path is a prefix, and fails only when there is none. */
  lemma {:induction false} FindInGroupFirstMatch(ms: seq<AliasMapping>, path: seq<string>)
    ensures var r := FindInGroup(ms, path);
            && (r.None? <==> forall j :: 0 <= j < |ms| ==> !(ms[j].origNames <= path))
            && (r.Some? ==> exists j :: 0 <= j < |ms| && ms[j].origNames <= path
                             && r.value == (ms[j].implName, |ms[j].origNames|)
                             && forall j' :: 0 <= j' < j ==> !(ms[j'].origNames <= path))
  {
    if |ms| > 0 && !(ms[0].origNames <= path) {
      FindInGroupFirstMatch(ms[1..], path);
      assert forall j :: 1 <= j < |ms| ==> ms[j] == ms[1..][j - 1];
      var r := FindInGroup(ms, path);
      if r.Some? {
        var j :| 0 <= j < |ms[1..]| && ms[1..][j].origNames <= path
                 && r.value == (ms[1..][j].implName, |ms[1..][j].origNames|)
                 && forall j' :: 0 <= j' < j ==> !(ms[1..][j'].origNames <= path);
        assert ms[j + 1] == ms[1..][j];
        assert forall j' :: 1 <= j' < j + 1 ==> ms[j'] == ms[1..][j' - 1];
      }
    }
  }

  /** Anchoring fails exactly when no alias path of any group is a prefix of the scope path. */
  lemma {:induction false} FindAnchorNoneIff(maps: seq<AliasGroup>, path: seq<string>)
    ensures FindAnchor(maps, path).None? <==>
            forall g, j :: 0 <= g < |maps| && 0 <= j < |maps[g].mappings| ==> !(maps[g].mappings[j].origNames <= path)
  {
    if |maps| > 0 {
      FindInGroupFirstMatch(maps[0].mappings, path);
      FindAnchorNoneIff(maps[1..], path);
      assert forall g :: 1 <= g < |maps| ==> maps[g] == maps[1..][g - 1];
    }
  }

  /**
   * Mapping `j` of group `g` is the first whose alias path is a prefix of
   * `path`: no earlier group has one, and no earlier mapping of group `g`.
   */
  ghost predicate FirstPrefixAt(maps: seq<AliasGroup>, path: seq<string>, g: nat, j: nat)
  {
    && g < |maps| && j < |maps[g].mappings|
    && maps[g].mappings[j].origNames <= path
    && (forall j' :: 0 <= j' < j ==> !(maps[g].mappings[j'].origNames <= path))
    && (forall g', j' :: 0 <= g' < g && 0 <= j' < |maps[g'].mappings| ==> !(maps[g'].mappings[j'].origNames <= path))
  }

  /**
   * A found anchor is the first mapping, in table order, whose alias path is
   * a prefix of the scope path: its module name and the length of its path.
   */
  lemma {:induction false} FindAnchorFirstMatch(maps: seq<AliasGroup>, path: seq<string>)
    ensures var r := FindAnchor(maps, path);
            r.Some? ==> exists g: nat, j: nat :: FirstPrefixAt(maps, path, g, j)
                          && r.value == (maps[g].mappings[j].implName, |maps[g].mappings[j].origNames|)
  {
    if |maps| > 0 {
      var r := FindAnchor(maps, path);
      FindInGroupFirstMatch(maps[0].mappings, path);
      if FindInGroup(maps[0].mappings, path).Some? {
        var ms := maps[0].mappings;
        var j :| 0 <= j < |ms| && ms[j].origNames <= path
                 && FindInGroup(ms, path).value == (ms[j].implName, |ms[j].origNames|)
                 && forall j' :: 0 <= j' < j ==> !(ms[j'].origNames <= path);
        assert FirstPrefixAt(maps, path, 0, j);
      } else if r.Some? {
        var rest := maps[1..];
        FindAnchorFirstMatch(rest, path);
        var g: nat, j: nat :| FirstPrefixAt(rest, path, g, j)
                    && r.value == (rest[g].mappings[j].implName, |rest[g].mappings[j].origNames|);
        assert rest[g] == maps[g + 1];
        forall g', j' | 0 <= g' < g + 1 && 0 <= j' < |maps[g'].mappings|
          ensures !(maps[g'].mappings[j'].origNames <= path)
        {
          if g' > 0 {
            assert maps[g'] == rest[g' - 1];
          }
        }
        assert FirstPrefixAt(maps, path, g + 1, j);
      }
    }
  }

  /** One descent step: a component naming a block of the current module switches to its type. */
  function DescendStep(modules: map<string, ModuleData>, current: string, component: string): string
  {
    if current in modules && component in modules[current].blocks then
      modules[current].blocks[component].blockTypeName
    else
      current
  }

  function Descend(modules: map<string, ModuleData>, current: string, rest: seq<string>): string
    decreases |rest|
  {
    if |rest| == 0 then current
    else Descend(modules, DescendStep(modules, current, rest[0]), rest[1..])
  }

  /** The module a scope path resolves to, or the "scope not found" failure. */
  function CurrentModule(maps: seq<AliasGroup>, modules: map<string, ModuleData>, path: seq<string>): (r: Result<string, string>)
    ensures r.Failure? <==> forall g, j :: 0 <= g < |maps| && 0 <= j < |maps[g].mappings| ==>
                                          !(maps[g].mappings[j].origNames <= path)
    ensures r.Success? ==> exists g: nat, j: nat :: FirstPrefixAt(maps, path, g, j)
                             && r.value == Descend(modules, maps[g].mappings[j].implName, path[|maps[g].mappings[j].origNames|..])
  {
    FindAnchorNoneIff(maps, path);
    FindAnchorFirstMatch(maps, path);
    match FindAnchor(maps, path)
    case None => Failure("Initial scope not found in maps")
    case Some(anchor) => Success(Descend(modules, anchor.0, path[anchor.1..]))
  }

  /** An empty alias path anchors every scope path. */
  lemma EmptyAliasAnchorsEverything(maps: seq<AliasGroup>, modules: map<string, ModuleData>, path: seq<string>, g: nat, j: nat)
    requires g < |maps| && j < |maps[g].mappings| && maps[g].mappings[j].origNames == []
    ensures CurrentModule(maps, modules, path).Success?
  {
    assert maps[g].mappings[j].origNames <= path;
  }

  /**
   * Descent ends at the starting module or at the declared type of some block
   * of some registered module.
   */
  lemma {:induction false} DescendResult(modules: map<string, ModuleData>, current: string, rest: seq<string>)
    ensures var d := Descend(modules, current, rest);
            d == current || exists m, b :: m in modules && b in modules[m].blocks && d == modules[m].blocks[b].blockTypeName
    decreases |rest|
  {
    if |rest| > 0 {
      DescendResult(modules, DescendStep(modules, current, rest[0]), rest[1..]);
    }
  }

  /** A component that names no block of the current module is skipped. */
  lemma DescendSkipsMiss(modules: map<string, ModuleData>, current: string, c: string, rest: seq<string>)
    requires current !in modules || c !in modules[current].blocks
    ensures Descend(modules, current, [c] + rest) == Descend(modules, current, rest)
  {
    assert ([c] + rest)[1..] == rest;
  }

  /** The scope example: `main.top.rb` with `top -> mkTop` aliased to `[main, top]` resolves to `mkFifo`. */
  lemma ScopeExample()
    ensures var maps := [AliasGroup("top", [AliasMapping("mkTop", ["main", "top"])])];
            var modules := map["mkTop" := ModuleData(map["rb" := RawBlockDefinition("mkFifo", [])])];
            CurrentModule(maps, modules, ["main", "top", "rb"]) == Success("mkFifo")
  {
    var maps := [AliasGroup("top", [AliasMapping("mkTop", ["main", "top"])])];
    var modules := map["mkTop" := ModuleData(map["rb" := RawBlockDefinition("mkFifo", [])])];
    var path: seq<string> := ["main", "top", "rb"];
    assert maps[0].mappings[0].origNames <= path;
    assert FindAnchor(maps, path) == Some(("mkTop", 2));
    assert path[2..] == ["rb"];
    assert Descend(modules, "mkTop", ["rb"]) == Descend(modules, "mkFifo", []);
  }

  /** Resolves a scope path with the nested first-match loops and the descent loop. */
  method GetCurrentModule(blocks: BlockRegistry, scopePath: seq<string>) returns (r: Result<string, string>)
    ensures r == CurrentModule(blocks.maps, blocks.modules, scopePath)
  {
    var maps := blocks.maps;
    var moduleName: Option<string> := None;
    var pathStartIndex: nat := 0;
    var i := 0;
    while i < |maps|
      invariant 0 <= i <= |maps|
      invariant moduleName.None?
      invariant FindAnchor(maps, scopePath) == FindAnchor(maps[i..], scopePath)
    {
      var mappings := maps[i].mappings;
      var j := 0;
      while j < |mappings|
        invariant 0 <= j <= |mappings|
        invariant moduleName.None?
        invariant FindInGroup(mappings, scopePath) == FindInGroup(mappings[j..], scopePath)
      {
        if mappings[j].origNames <= scopePath {
          moduleName := Some(mappings[j].implName);
          pathStartIndex := |mappings[j].origNames|;
          assert FindInGroup(mappings, scopePath) == Some((moduleName.value, pathStartIndex));
          break;
        }
        assert mappings[j..][1..] == mappings[j + 1..];
        j := j + 1;
      }
      if moduleName.Some? {
        assert maps[i..][0] == maps[i];
        assert FindAnchor(maps, scopePath) == Some((moduleName.value, pathStartIndex));
        break;
      }
      assert maps[i..][1..] == maps[i + 1..];
      i := i + 1;
    }
    if moduleName.None? {
      return Failure("Initial scope not found in maps");
    }
    var currentModule := moduleName.value;
    ghost var start := currentModule;
    for k := pathStartIndex to |scopePath|
      invariant Descend(blocks.modules, currentModule, scopePath[k..]) == Descend(blocks.modules, start, scopePath[pathStartIndex..])
    {
      var nextInstance := scopePath[k];
      if currentModule in blocks.modules {
        var moduleData := blocks.modules[currentModule];
        if nextInstance in moduleData.blocks {
          currentModule := moduleData.blocks[nextInstance].blockTypeName;
        }
      }
      assert scopePath[k..][1..] == scopePath[k + 1..];
    }
    r := Success(currentModule);
  }

  // ---------------------------------------------------------------------
  // Port selection
  // ---------------------------------------------------------------------

  /** The three searches over a block's ports. */
  datatype PortFilter =
    | NameIs(exact: string)
    | UpperNameIs(upper: string)
    | NotIgnored

  predicate Accepts(f: PortFilter, p: RawBlockPort)
  {
    match f
    case NameIs(n) => p.name == n
    case UpperNameIs(u) => ToUpper(p.name) == u
    case NotIgnored => p.name !in IGNORED_PORTS
  }

  /** The first port from index `i` on that the filter accepts (iterator `find`). */
  function FindPort(ports: seq<RawBlockPort>, f: PortFilter, i: nat): (r: Option<nat>)
    ensures r.Some? ==> i <= r.value < |ports| && Accepts(f, ports[r.value])
                        && forall j :: i <= j < r.value ==> !Accepts(f, ports[j])
    ensures r.None? ==> forall j :: i <= j < |ports| ==> !Accepts(f, ports[j])
    decreases |ports| - i
  {
    if i >= |ports| then None
    else if Accepts(f, ports[i]) then Some(i)
    else FindPort(ports, f, i + 1)
  }

  /**
   * The port chosen by the preferred list from entry `k` on: the first port
   * matching the highest-priority entry that any port matches.
   */
  function FirstPreferred(ports: seq<RawBlockPort>, k: nat): (r: Option<nat>)
    ensures r.Some? ==> r.value < |ports|
    ensures r.Some? ==> exists e :: k <= e < |PREFERRED_PORTS| && FindPort(ports, UpperNameIs(PREFERRED_PORTS[e]), 0) == Some(r.value)
                          && forall e' :: k <= e' < e ==> FindPort(ports, UpperNameIs(PREFERRED_PORTS[e']), 0).None?
    ensures r.None? ==> forall e, j :: k <= e < |PREFERRED_PORTS| && 0 <= j < |ports| ==> ToUpper(ports[j].name) != PREFERRED_PORTS[e]
    decreases |PREFERRED_PORTS| - k
  {
    if k >= |PREFERRED_PORTS| then None
    else
      match FindPort(ports, UpperNameIs(PREFERRED_PORTS[k]), 0)
      case Some(j) => Some(j)
      case None => FirstPreferred(ports, k + 1)
  }

  function TypeOf(ports: seq<RawBlockPort>, found: Option<nat>): Option<string>
    requires found.Some? ==> found.value < |ports|
  {
    match found
    case Some(j) => Some(ports[j].typeName)
    case None => None
  }

  /** An ignored port name, upper-cased, is never a preferred entry. */
  lemma IgnoredNeverPreferred(name: string)
    ensures name in IGNORED_PORTS ==> ToUpper(name) !in PREFERRED_PORTS
  {
    if name in IGNORED_PORTS {
      assert ToUpper(name) == name;
    }
  }

  /**
   * The port-selection policy for one instance's ports. A selected type is
   * that of some port (for a ported variable, a port with exactly that
   * name); a full variable selects nothing only when every port is ignored,
   * and a ported variable only when no port has its name.
   */
  function SelectPortType(ports: seq<RawBlockPort>, format: SignalNameFormat): (r: Option<string>)
    ensures r.Some? ==> exists j :: 0 <= j < |ports| && ports[j].typeName == r.value
    ensures format.PortedVar? && r.Some? ==>
              exists j :: 0 <= j < |ports| && ports[j].name == format.port && ports[j].typeName == r.value
    ensures format.PortedVar? && r.None? ==> forall j :: 0 <= j < |ports| ==> ports[j].name != format.port
    ensures format.FullVar? && r.None? ==> forall j :: 0 <= j < |ports| ==> ports[j].name in IGNORED_PORTS
    ensures format.FullVar? && r.Some? ==> exists j :: 0 <= j < |ports| && ports[j].name !in IGNORED_PORTS
    ensures format.Unknown? ==> r.None?
  {
    match format
    case PortedVar(p) => TypeOf(ports, FindPort(ports, NameIs(p), 0))
    case FullVar(_) =>
      var preferred := FirstPreferred(ports, 0);
      if preferred.Some? then
        // a preferred port is never an ignored one
        var j := preferred.value;
        IgnoredNeverPreferred(ports[j].name);
        assert ToUpper(ports[j].name) in PREFERRED_PORTS;
        TypeOf(ports, preferred)
      else TypeOf(ports, FindPort(ports, NotIgnored, 0))
    case Unknown => None
  }

  /**
   * The type name of a variable: resolve its module, find its instance,
   * select a port. Any resolved type is the type of a port of the instance's
   * block in the resolved module; every lookup miss gives None.
   */
  function VariableTypeName(blocks: BlockRegistry, path: seq<string>, name: string): (r: Option<string>)
    ensures var cm := CurrentModule(blocks.maps, blocks.modules, path);
            var instance := ParseSignalName(name).0;
            r.Some? ==> && cm.Success? && cm.value in blocks.modules
                        && instance in blocks.modules[cm.value].blocks
                        && exists j :: 0 <= j < |blocks.modules[cm.value].blocks[instance].ports|
                             && blocks.modules[cm.value].blocks[instance].ports[j].typeName == r.value
  {
    match CurrentModule(blocks.maps, blocks.modules, path)
    case Failure(_) => None
    case Success(m) =>
      if m !in blocks.modules then None
      else
        var (instance, format) := ParseSignalName(name);
        if instance !in blocks.modules[m].blocks then None
        else SelectPortType(blocks.modules[m].blocks[instance].ports, format)
  }

  /** A ported variable takes the type of the first port with exactly that name (case-sensitive). */
  lemma PortedVarSelectsExactName(ports: seq<RawBlockPort>, p: string, j: nat)
    requires j < |ports| && ports[j].name == p
    requires forall j' :: 0 <= j' < j ==> ports[j'].name != p
    ensures SelectPortType(ports, PortedVar(p)) == Some(ports[j].typeName)
  {
    assert Accepts(NameIs(p), ports[j]);
  }

  lemma PortedVarMissingPort(ports: seq<RawBlockPort>, p: string)
    requires forall j :: 0 <= j < |ports| ==> ports[j].name != p
    ensures SelectPortType(ports, PortedVar(p)) == None
  {
  }

  /**
   * A full variable takes, for the highest-priority preferred entry some
   * port's upper-cased name equals, the first such port.
   */
  lemma {:induction false} FullVarPrefersPreferredPorts(ports: seq<RawBlockPort>, v: string, e: nat, j: nat)
    requires e < |PREFERRED_PORTS| && j < |ports| && ToUpper(ports[j].name) == PREFERRED_PORTS[e]
    requires forall j' :: 0 <= j' < j ==> ToUpper(ports[j'].name) != PREFERRED_PORTS[e]
    requires forall e', j' :: 0 <= e' < e && 0 <= j' < |ports| ==> ToUpper(ports[j'].name) != PREFERRED_PORTS[e']
    ensures SelectPortType(ports, FullVar(v)) == Some(ports[j].typeName)
  {
    FirstPreferredFrom(ports, 0, e, j);
  }

  lemma {:induction false} FirstPreferredFrom(ports: seq<RawBlockPort>, k: nat, e: nat, j: nat)
    requires k <= e < |PREFERRED_PORTS| && j < |ports| && ToUpper(ports[j].name) == PREFERRED_PORTS[e]
    requires forall j' :: 0 <= j' < j ==> ToUpper(ports[j'].name) != PREFERRED_PORTS[e]
    requires forall e', j' :: k <= e' < e && 0 <= j' < |ports| ==> ToUpper(ports[j'].name) != PREFERRED_PORTS[e']
    ensures FirstPreferred(ports, k) == Some(j)
    decreases e - k
  {
    if k == e {
      assert Accepts(UpperNameIs(PREFERRED_PORTS[k]), ports[j]);
    } else {
      FirstPreferredFrom(ports, k + 1, e, j);
    }
  }

  /** Without a preferred port, a full variable takes the first port not in the ignored list. */
  lemma FullVarFallsBackToFirstNonIgnored(ports: seq<RawBlockPort>, v: string)
    requires forall e, j :: 0 <= e < |PREFERRED_PORTS| && 0 <= j < |ports| ==> ToUpper(ports[j].name) != PREFERRED_PORTS[e]
    ensures var f := FindPort(ports, NotIgnored, 0);
            SelectPortType(ports, FullVar(v)) == if f.Some? then Some(ports[f.value].typeName) else None
  {
  }

  /** Resolves a variable's type name with the preferred-port search loop and early return. */
  method GetVariableTypeName(blocks: BlockRegistry, variable: VariableMeta) returns (r: Option<string>)
    ensures r == VariableTypeName(blocks, variable.path, variable.name)
  {
    var cm := GetCurrentModule(blocks, variable.path);
    if cm.Failure? {
      return None;
    }
    var moduleName := cm.value;
    if moduleName !in blocks.modules {
      return None;
    }
    var moduleData := blocks.modules[moduleName];
    var (instanceName, format) := ParseSignalName(variable.name);
    if instanceName !in moduleData.blocks {
      return None;
    }
    var ports := moduleData.blocks[instanceName].ports;
    match format {
      case PortedVar(portName) =>
        r := TypeOf(ports, FindPort(ports, NameIs(portName), 0));
      case FullVar(_) =>
        var k := 0;
        while k < |PREFERRED_PORTS|
          invariant 0 <= k <= |PREFERRED_PORTS|
          invariant FirstPreferred(ports, 0) == FirstPreferred(ports, k)
        {
          var found := FindPort(ports, UpperNameIs(PREFERRED_PORTS[k]), 0);
          if found.Some? {
            return Some(ports[found.value].typeName);
          }
          k := k + 1;
        }
        r := TypeOf(ports, FindPort(ports, NotIgnored, 0));
      case Unknown =>
        r := None;
    }
  }
}
