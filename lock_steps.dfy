/**
 * The line-driven state machine of `GemfileLockParser`
 * (src/packagedcode2/gemfile_lock.py), one pure function per handler. The
 * parser object's fields are gathered in a `ParserState` value; the class in
 * lock_parser.dfy updates the same fields in place and is proved to follow
 * these functions line by line.
 *
 * The registry `all_gems` is a map from names to `Gem` nodes; a node's
 * `dependencies` and the root list `dependencies` hold registry keys, in
 * insertion order, which is what the source's name-keyed `OrderedDict`s of
 * shared `Gem` objects amount to: a name is bound to its node once and for
 * all, so the object under a key is always the registry's.
 */
module LockSteps {
  import opened Wrappers
  import opened Gems
  import opened LockLines
  import PyStr

  /** `self.state`: which handler the next line goes to. */
  datatype Mode = Options | Specs | Dependencies | Platforms

  /** What the parser prints when `print_errors` is set. */
  datatype Diagnostic =
    | DependencyNotMatched(line: string)
    | UnknownGem(name: Name, line: string)
    | DuplicateDependency(name: Name, line: string)
    | PlatformNotMatched(line: string)

  /** The exceptions that escape the constructor. */
  datatype ParseError =
    | NoOpenSpec(line: string)            // `None.dependencies` on a sub-dependency before any spec
    | DuplicateWarningKeyError(line: string)  // the duplicate warning's format string (see HandleDependencyAsWritten)

  type Registry = map<Name, Gem>

  datatype ParserState = ParserState(
    mode: Option<Mode>,
    currentOptions: map<OptionKey, Option<Value>>,
    currentGem: Option<Name>,
    currentType: Option<GemType>,
    allGems: Registry,
    dependencies: seq<Name>,
    platforms: seq<string>,
    diagnostics: seq<Diagnostic>,
    printErrors: bool)

  /** Every child reference in the registry names a registry node. */
  predicate Closed(gems: Registry) {
    forall n, i :: n in gems && 0 <= i < |gems[n].dependencies| ==> gems[n].dependencies[i] in gems
  }

  /**
   * The registry's invariant: one node per name, filed under its own name;
   * children resolve; no node lists a child twice and none lists `bundler`.
   */
  predicate RegistryOk(gems: Registry) {
    && Closed(gems)
    && (forall n :: n in gems ==> gems[n].name == n)
    && (forall n :: n in gems ==> NoDup(gems[n].dependencies))
    && (forall n :: n in gems ==> Some("bundler") !in gems[n].dependencies)
  }

  /** Every reference the state holds names a registry node. */
  predicate Linked(st: ParserState) {
    && (st.currentGem.Some? ==> st.currentGem.value in st.allGems)
    && (forall i :: 0 <= i < |st.dependencies| ==> st.dependencies[i] in st.allGems)
    && Closed(st.allGems)
  }

  /** The parser's invariant: a sound registry, resolving references and distinct roots. */
  predicate WellFormed(st: ParserState) {
    Linked(st) && RegistryOk(st.allGems) && NoDup(st.dependencies)
  }

  /** The state after `__init__` has set its fields and called `reset_state`. */
  function Initial(printErrors: bool): (st: ParserState)
    ensures WellFormed(st) && st.allGems == map[] && st.dependencies == [] && st.platforms == []
  {
    ParserState(None, map[], None, None, map[], [], [], [], printErrors)
  }

  /** `reset_state`: forget the handler, the options, the open spec and the section type. */
  function Reset(st: ParserState): (r: ParserState)
    ensures r.mode.None? && r.currentOptions == map[] && r.currentGem.None? && r.currentType.None?
    ensures r.allGems == st.allGems && r.dependencies == st.dependencies && r.platforms == st.platforms
    ensures r.diagnostics == st.diagnostics && r.printErrors == st.printErrors
  {
    st.(mode := None, currentOptions := map[], currentGem := None, currentType := None)
  }

  /** A printed message, when messages are printed. */
  function Report(st: ParserState, d: Diagnostic): (r: ParserState)
    ensures r.diagnostics == if st.printErrors then st.diagnostics + [d] else st.diagnostics
    ensures r.(diagnostics := st.diagnostics) == st
  {
    if st.printErrors then st.(diagnostics := st.diagnostics + [d]) else st
  }

  // ---------------------------------------------------------------------------
  // get_or_create
  // ---------------------------------------------------------------------------

  /**
   * `get_or_create(name, version, platform)`: the node filed under `name`
   * afterwards. An existing node keeps a truthy `version`/`platform` and
   * takes the given one otherwise; a missing one is created.
   */
  function GetOrCreate(gems: Registry, name: Name, version: Option<Value>, platform: Option<string>): (r: Registry)
    ensures r.Keys == gems.Keys + {name}
    ensures forall n :: n in gems && n != name ==> r[n] == gems[n]
    ensures name !in gems ==> r[name] == NewGem(name, version, platform)
    ensures name in gems ==> r[name].(version := gems[name].version, platform := gems[name].platform) == gems[name]
    ensures name in gems ==> r[name].version == if Truthy(gems[name].version) then gems[name].version else version
    ensures name in gems ==> r[name].platform == if NonEmpty(gems[name].platform) then gems[name].platform else platform
  {
    if name in gems then
      var g := gems[name];
      gems[name := g.(version := Or(g.version, version), platform := OrStr(g.platform, platform))]
    else
      gems[name := NewGem(name, version, platform)]
  }

  /** A second `get_or_create` with the same arguments finds the node the first one left. */
  lemma GetOrCreateAgain(gems: Registry, name: Name, version: Option<Value>, platform: Option<string>)
    ensures var r := GetOrCreate(gems, name, version, platform);
      GetOrCreate(r, name, version, platform) == r
  {
    var r := GetOrCreate(gems, name, version, platform);
    assert GetOrCreate(r, name, version, platform)[name] == r[name];
  }

  // ---------------------------------------------------------------------------
  // Handlers
  // ---------------------------------------------------------------------------

  /** `parse_options`: remember a supported option of the current section. */
  function HandleOptions(st: ParserState, line: string): (r: ParserState)
    ensures GetOption(line).0.None? ==> r == st
    ensures GetOption(line).0.Some? ==>
              r == st.(currentOptions := st.currentOptions[GetOption(line).0.value := GetOption(line).1])
  {
    var opt := GetOption(line);
    if opt.0.Some? then st.(currentOptions := st.currentOptions[opt.0.value := opt.1]) else st
  }

  /** `[d.strip() for d in version.split(',')]` when the captured version is non-empty, else no constraint. */
  function Constraints(version: Option<string>): (cs: seq<string>)
    ensures !NonEmpty(version) ==> cs == []
    ensures NonEmpty(version) ==> |cs| == |PyStr.Split(version.value, ',')|
    ensures forall i :: 0 <= i < |cs| ==> ',' !in cs[i] && PyStr.Strip(cs[i]) == cs[i]
    ensures NonEmpty(version) ==> forall i :: 0 <= i < |cs| ==> cs[i] == PyStr.Strip(PyStr.Split(version.value, ',')[i])
  {
    if NonEmpty(version) then
      var parts := PyStr.Split(version.value, ',');
      seq(|parts|, i requires 0 <= i < |parts| => StripPiece(parts[i]))
    else []
  }

  /** One stripped piece of a comma split: still free of commas. */
  function StripPiece(p: string): (r: string)
    requires ',' !in p
    ensures ',' !in r && PyStr.Strip(r) == r
  {
    var r := PyStr.Strip(p);
    StripSubstring(p);
    PyStr.StripTrimmed(r);
    r
  }

  lemma StripSubstring(p: string)
    ensures multiset(PyStr.Strip(p)) <= multiset(p)
  {
    var r := PyStr.RStrip(p);
    assert p == r + p[|r|..];
    var l := PyStr.LStrip(r);
    assert r == r[..|r| - |l|] + l;
  }

  /** `for v in cs: if v not in vc: vc.append(v)`. */
  function AppendAbsent(vc: seq<string>, cs: seq<string>): (r: seq<string>)
    decreases |cs|
  {
    if cs == [] then vc
    else AppendAbsent(if cs[0] in vc then vc else vc + [cs[0]], cs[1..])
  }

  /** `for v in cs: vc.insert(0, v)`. */
  function PrependEach(vc: seq<string>, cs: seq<string>): seq<string>
    decreases |cs|
  {
    if cs == [] then vc else PrependEach([cs[0]] + vc, cs[1..])
  }

  /** `list(reversed(xs))`, independently of the insertion loop. */
  function Reverse<T>(xs: seq<T>): (r: seq<T>)
    ensures |r| == |xs|
    ensures forall i :: 0 <= i < |xs| ==> r[i] == xs[|xs| - 1 - i]
  {
    if xs == [] then [] else Reverse(xs[1..]) + [xs[0]]
  }

  /** Inserting each constraint at index 0 puts them, reversed, ahead of the earlier ones. */
  lemma {:induction false} PrependEachReverses(vc: seq<string>, cs: seq<string>)
    ensures PrependEach(vc, cs) == Reverse(cs) + vc
    decreases |cs|
  {
    if cs != [] {
      PrependEachReverses([cs[0]] + vc, cs[1..]);
      assert Reverse(cs) == Reverse(cs[1..]) + [cs[0]];
    }
  }

  /** Appending the absent constraints keeps the old list as a prefix. */
  lemma {:induction false} AppendAbsentPrefix(vc: seq<string>, cs: seq<string>)
    ensures |vc| <= |AppendAbsent(vc, cs)| && AppendAbsent(vc, cs)[..|vc|] == vc
    decreases |cs|
  {
    if cs != [] {
      var vc1 := if cs[0] in vc then vc else vc + [cs[0]];
      AppendAbsentPrefix(vc1, cs[1..]);
      var r := AppendAbsent(vc, cs);
      assert r == AppendAbsent(vc1, cs[1..]);
      assert r[..|vc|] == r[..|vc1|][..|vc|];
    }
  }

  /** Appending the absent constraints leaves exactly the union. */
  lemma {:induction false} AppendAbsentMembers(vc: seq<string>, cs: seq<string>)
    ensures forall x :: x in AppendAbsent(vc, cs) <==> x in vc || x in cs
    decreases |cs|
  {
    if cs != [] {
      var vc1 := if cs[0] in vc then vc else vc + [cs[0]];
      AppendAbsentMembers(vc1, cs[1..]);
      assert AppendAbsent(vc, cs) == AppendAbsent(vc1, cs[1..]);
      assert forall x :: x in cs <==> x == cs[0] || x in cs[1..];
    }
  }

  /** The appended entries are distinct and none was in the old list. */
  lemma {:induction false} AppendAbsentFresh(vc: seq<string>, cs: seq<string>)
    ensures |vc| <= |AppendAbsent(vc, cs)|
    ensures NoDup(AppendAbsent(vc, cs)[|vc|..])
    ensures forall x :: x in AppendAbsent(vc, cs)[|vc|..] ==> x !in vc
    decreases |cs|
  {
    AppendAbsentPrefix(vc, cs);
    if cs != [] {
      var vc1 := if cs[0] in vc then vc else vc + [cs[0]];
      AppendAbsentFresh(vc1, cs[1..]);
      AppendAbsentPrefix(vc1, cs[1..]);
      var r := AppendAbsent(vc, cs);
      assert r == AppendAbsent(vc1, cs[1..]);
      var tail := r[|vc1|..];
      if cs[0] !in vc {
        FreshTail(vc, cs[0], r);
      } else {
        assert r[|vc|..] == tail;
      }
    }
  }

  /** One step of `AppendAbsentFresh`: a fresh entry followed by entries fresh for it too. */
  lemma FreshTail(vc: seq<string>, x: string, r: seq<string>)
    requires x !in vc && |vc| + 1 <= |r| && r[..|vc| + 1] == vc + [x]
    requires NoDup(r[|vc| + 1..]) && forall y :: y in r[|vc| + 1..] ==> y !in vc + [x]
    ensures NoDup(r[|vc|..]) && forall y :: y in r[|vc|..] ==> y !in vc
  {
    var tail := r[|vc| + 1..];
    assert r[|vc|..] == [x] + tail;
    assert x !in tail by {
      assert x in vc + [x];
    }
    NoDupCons(x, tail);
    forall y | y in r[|vc|..]
      ensures y !in vc
    {
      if y != x {
        assert y in tail;
        assert y !in vc + [x];
      }
    }
  }

  /**
   * Appending the absent constraints keeps the old list as a prefix and adds
   * only new, distinct entries: exactly the constraints not already present.
   */
  lemma AppendAbsentAdds(vc: seq<string>, cs: seq<string>)
    ensures |vc| <= |AppendAbsent(vc, cs)| && AppendAbsent(vc, cs)[..|vc|] == vc
    ensures NoDup(AppendAbsent(vc, cs)[|vc|..])
    ensures forall x :: x in AppendAbsent(vc, cs)[|vc|..] ==> x !in vc
    ensures forall x :: x in AppendAbsent(vc, cs) <==> x in vc || x in cs
  {
    AppendAbsentPrefix(vc, cs);
    AppendAbsentMembers(vc, cs);
    AppendAbsentFresh(vc, cs);
  }

  lemma NoDupCons<T>(x: T, t: seq<T>)
    requires x !in t && NoDup(t)
    ensures NoDup([x] + t)
  {
    var s := [x] + t;
    forall i, j | 0 <= i < j < |s|
      ensures s[i] != s[j]
    {
      assert s[j] == t[j - 1];
      if i > 0 {
        assert s[i] == t[i - 1];
      }
    }
  }

  /** So the sub-dependency path never duplicates a constraint in a list that had none. */
  lemma AppendAbsentNoDup(vc: seq<string>, cs: seq<string>)
    requires NoDup(vc)
    ensures NoDup(AppendAbsent(vc, cs))
  {
    AppendAbsentAdds(vc, cs);
    var r := AppendAbsent(vc, cs);
    assert r == vc + r[|vc|..];
    forall i, j | 0 <= i < j < |r|
      ensures r[i] != r[j]
    {
      if j >= |vc| {
        assert r[j] in r[|vc|..];
        if i >= |vc| {
          assert r[i] == r[|vc|..][i - |vc|] && r[j] == r[|vc|..][j - |vc|];
        } else {
          assert r[i] in vc;
        }
      }
    }
  }

  /** The platform of a spec entry: the captured one, or `'ruby'` when it is missing or empty. */
  function SpecPlatform(nv: NameVersion): (p: string)
    ensures p != ""
    ensures NonEmpty(nv.platform) ==> p == nv.platform.value
  {
    if NonEmpty(nv.platform) then nv.platform.value else "ruby"
  }

  /** The open spec's node after a 4-space entry, from the node `get_or_create` returned. */
  function SpecNode(g: Gem, st: ParserState, nv: NameVersion): (r: Gem)
    ensures r.name == g.name && r.dependencies == g.dependencies
  {
    var g1 := g.(gemType := st.currentType);
    var g2 := if NonEmpty(nv.version) then g1.(version := StrValue(nv.version)) else g1;
    ApplyOptions(g2.(platform := Some(SpecPlatform(nv))), st.currentOptions)
  }

  /** `parse_spec` on a 4-space entry: create or update the gem and make it the open spec. */
  function SpecEntry(st: ParserState, nv: NameVersion): (r: ParserState)
  {
    var gems := GetOrCreate(st.allGems, nv.name, StrValue(nv.version), Some(SpecPlatform(nv)));
    st.(allGems := gems[nv.name := SpecNode(gems[nv.name], st, nv)], currentGem := Some(nv.name))
  }

  lemma ClosedChild(gems: Registry, n: Name, d: Name)
    requires Closed(gems) && n in gems && d in gems[n].dependencies
    ensures d in gems
  {
    var i :| 0 <= i < |gems[n].dependencies| && gems[n].dependencies[i] == d;
  }

  /** `current_gem.dependencies[name] = get_or_create(name)`, unless `name` is listed already. */
  function Attach(gems: Registry, cur: Name, child: Name): (r: Registry)
    requires Closed(gems) && cur in gems
    ensures r.Keys == gems.Keys + {child}
    ensures r[cur].dependencies ==
              if child in gems[cur].dependencies then gems[cur].dependencies else gems[cur].dependencies + [child]
    ensures forall n :: n in gems && n != cur && n != child ==> r[n] == gems[n]
  {
    if child in gems[cur].dependencies then ClosedChild(gems, cur, child); gems
    else
      var g := GetOrCreate(gems, child, None, None);
      g[cur := g[cur].(dependencies := g[cur].dependencies + [child])]
  }

  /** The child's node after a sub-dependency line: typed GEM if untyped, new constraints appended. */
  function SubNode(dep: Gem, cs: seq<string>): (r: Gem)
    ensures r.name == dep.name && r.dependencies == dep.dependencies
  {
    var d1 := if dep.gemType.None? then dep.(gemType := Some(GEM)) else dep;
    d1.(versionConstraints := AppendAbsent(d1.versionConstraints, cs))
  }

  /**
   * `parse_spec` on a 6-space sub-dependency of the open spec `cur`: file
   * the child under `cur` unless it is already there, default its type to
   * GEM and add the constraints it does not have yet.
   */
  function SubDependency(st: ParserState, cur: Name, nv: NameVersion): (r: ParserState)
    requires Linked(st) && cur in st.allGems
  {
    var gems := Attach(st.allGems, cur, nv.name);
    st.(allGems := gems[nv.name := SubNode(gems[nv.name], Constraints(nv.version))])
  }

  lemma LinkedChild(st: ParserState, n: Name, d: Name)
    requires Linked(st) && n in st.allGems && d in st.allGems[n].dependencies
    ensures d in st.allGems
  {
    ClosedChild(st.allGems, n, d);
  }

  /** `parse_spec`: a spec entry, a sub-dependency of the open spec, or nothing. */
  function HandleSpec(st: ParserState, line: string): (r: Result<ParserState, ParseError>)
    requires Linked(st)
    ensures r.Failure? <==> MatchSpecDeps(line).None? && MatchSpecSubDeps(line).Some?
                            && MatchSpecSubDeps(line).value.name != Some("bundler") && st.currentGem.None?
  {
    match MatchSpecDeps(line)
    case Some(nv) => Success(SpecEntry(st, nv))
    case None =>
      match MatchSpecSubDeps(line)
      case None => Success(st)
      case Some(nv) =>
        if nv.name == Some("bundler") then Success(st)
        else if st.currentGem.None? then Failure(NoOpenSpec(line))
        else Success(SubDependency(st, st.currentGem.value, nv))
  }

  /** The registry entry for a declared dependency: an unknown name gets a fresh node. */
  function DeclareGem(st: ParserState, name: Name, line: string): (r: ParserState)
    ensures r.allGems.Keys == st.allGems.Keys + {name}
    ensures r.dependencies == st.dependencies
  {
    if name in st.allGems then st
    else
      var s := st.(allGems := st.allGems[name := NewGem(name, None, None)]);
      if name != Some("bundler") then Report(s, UnknownGem(name, line)) else s
  }

  /** The constraints and pin of a declared dependency, set on its node. */
  function Declare(st: ParserState, e: Entry): (r: ParserState)
    requires e.nv.name in st.allGems
  {
    st.(allGems := st.allGems[e.nv.name := DeclaredNode(st.allGems[e.nv.name], e)])
  }

  /** The declared gem's node: each constraint inserted at index 0, the pin from the trailing `!`. */
  function DeclaredNode(g: Gem, e: Entry): (r: Gem)
    ensures r.name == g.name && r.dependencies == g.dependencies
  {
    g.(versionConstraints := PrependEach(g.versionConstraints, Constraints(e.nv.version)), pinned := e.pinned)
  }

  /**
   * `parse_dependency`, as evidently intended: a name already declared is
   * reported and not declared again.
   */
  function HandleDependency(st: ParserState, line: string): (r: ParserState)
  {
    match MatchDeps(line)
    case None => Report(st, DependencyNotMatched(line))
    case Some(e) => DeclareDependency(st, e, line)
  }

  /** `parse_dependency` once `line` matched as `e`. */
  function DeclareDependency(st: ParserState, e: Entry, line: string): (r: ParserState)
  {
    var name := e.nv.name;
    var st1 := DeclareGem(st, name, line);
    var st2 := if name in st1.dependencies then Report(st1, DuplicateDependency(name, line))
               else st1.(dependencies := st1.dependencies + [name]);
    Declare(st2, e)
  }

  /**
   * `parse_dependency` as written: the duplicate warning is formatted from
   * `locals()` before `version` is bound, so with `print_errors` set a
   * repeated declaration raises `KeyError` instead of printing.
   */
  function HandleDependencyAsWritten(st: ParserState, line: string): (r: Result<ParserState, ParseError>)
  {
    match MatchDeps(line)
    case None => Success(Report(st, DependencyNotMatched(line)))
    case Some(e) =>
      var name := e.nv.name;
      var st1 := DeclareGem(st, name, line);
      if name in st1.dependencies && st1.printErrors then Failure(DuplicateWarningKeyError(line))
      else
        var st2 := if name in st1.dependencies then st1 else st1.(dependencies := st1.dependencies + [name]);
        Success(Declare(st2, e))
  }

  /** `parse_platform`: keep the stripped platform, in order. */
  function HandlePlatform(st: ParserState, line: string): (r: ParserState)
    ensures MatchPlats(line).Some? ==> r == st.(platforms := st.platforms + [PyStr.Strip(MatchPlats(line).value)])
    ensures MatchPlats(line).None? ==> r == Report(st, PlatformNotMatched(line))
  {
    match MatchPlats(line)
    case None => Report(st, PlatformNotMatched(line))
    case Some(p) => st.(platforms := st.platforms + [PyStr.Strip(p)])
  }

  // ---------------------------------------------------------------------------
  // The dispatch loop
  // ---------------------------------------------------------------------------

  /** `self.STATES`: the handler a heading switches to. */
  function HeaderMode(line: string): (m: Option<Mode>)
  {
    if line == "DEPENDENCIES" then Some(Dependencies)
    else if line == "PLATFORMS" then Some(Platforms)
    else if line == "GIT" || line == "PATH" || line == "SVN" || line == "GEM" then Some(Options)
    else if line == "  specs:" then Some(Specs)
    else None
  }

  /** `GEM_TYPES`: the headings that also set the section type. */
  function HeaderType(line: string): (t: Option<GemType>)
    ensures t.Some? ==> HeaderMode(line) == Some(Options)
  {
    if line == "GEM" then Some(GEM)
    else if line == "PATH" then Some(PATH)
    else if line == "GIT" then Some(GIT)
    else if line == "SVN" then Some(SVN)
    else None
  }

  /** One iteration of the `for line` loop of `__init__`. */
  function Step(st: ParserState, raw: string): (r: Result<ParserState, ParseError>)
    requires Linked(st)
  {
    var line := PyStr.RStrip(raw);
    if line == "" then Success(Reset(st))
    else if HeaderMode(line).Some? then
      Success(st.(mode := HeaderMode(line),
                  currentType := if HeaderType(line).Some? then HeaderType(line) else st.currentType))
    else
      match st.mode
      case None => Success(st)
      case Some(Options) => Success(HandleOptions(st, line))
      case Some(Specs) => HandleSpec(st, line)
      case Some(Dependencies) => Success(HandleDependency(st, line))
      case Some(Platforms) => Success(HandlePlatform(st, line))
  }

  // ---------------------------------------------------------------------------
  // The invariant holds after every line
  // ---------------------------------------------------------------------------

  /** Replacing a node by one with the same name and children keeps the registry sound. */
  lemma UpdateNodeOk(gems: Registry, n: Name, g: Gem)
    requires RegistryOk(gems) && n in gems && g.name == n && g.dependencies == gems[n].dependencies
    ensures RegistryOk(gems[n := g])
  {
    var r := gems[n := g];
    forall m, i | m in r && 0 <= i < |r[m].dependencies|
      ensures r[m].dependencies[i] in r
    {
      assert r[m].dependencies[i] == gems[m].dependencies[i];
    }
  }

  /** Filing a fresh childless node under its own name keeps the registry sound. */
  lemma AddNodeOk(gems: Registry, n: Name, g: Gem)
    requires RegistryOk(gems) && n !in gems && g.name == n && g.dependencies == []
    ensures RegistryOk(gems[n := g])
  {
    var r := gems[n := g];
    forall m, i | m in r && 0 <= i < |r[m].dependencies|
      ensures r[m].dependencies[i] in r
    {
      assert r[m].dependencies[i] == gems[m].dependencies[i];
    }
  }

  /** Listing a registered child that is new to `cur` and is not `bundler` keeps the registry sound. */
  lemma AttachOk(gems: Registry, cur: Name, child: Name)
    requires RegistryOk(gems) && cur in gems && child in gems && child != Some("bundler")
    requires child !in gems[cur].dependencies
    ensures RegistryOk(gems[cur := gems[cur].(dependencies := gems[cur].dependencies + [child])])
  {
    var ds := gems[cur].dependencies;
    var r := gems[cur := gems[cur].(dependencies := ds + [child])];
    forall m, i | m in r && 0 <= i < |r[m].dependencies|
      ensures r[m].dependencies[i] in r
    {
      if m != cur || i < |ds| {
        assert r[m].dependencies[i] == gems[m].dependencies[i];
      }
    }
    assert NoDup(ds + [child]) by {
      forall i, j | 0 <= i < j < |ds| + 1
        ensures (ds + [child])[i] != (ds + [child])[j]
      {
        if j == |ds| {
          assert (ds + [child])[i] == ds[i];
        }
      }
    }
  }

  /** `get_or_create` keeps the registry sound and files the node under its own name. */
  lemma GetOrCreateOk(gems: Registry, name: Name, version: Option<Value>, platform: Option<string>)
    requires RegistryOk(gems)
    ensures var r := GetOrCreate(gems, name, version, platform);
      RegistryOk(r) && r[name].name == name && r[name].dependencies == (if name in gems then gems[name].dependencies else [])
  {
    if name in gems {
      var g := gems[name];
      UpdateNodeOk(gems, name, g.(version := Or(g.version, version), platform := OrStr(g.platform, platform)));
    } else {
      AddNodeOk(gems, name, NewGem(name, version, platform));
    }
  }

  lemma SpecEntryWellFormed(st: ParserState, nv: NameVersion)
    requires WellFormed(st)
    ensures WellFormed(SpecEntry(st, nv))
  {
    var gems := GetOrCreate(st.allGems, nv.name, StrValue(nv.version), Some(SpecPlatform(nv)));
    GetOrCreateOk(st.allGems, nv.name, StrValue(nv.version), Some(SpecPlatform(nv)));
    UpdateNodeOk(gems, nv.name, SpecNode(gems[nv.name], st, nv));
  }

  lemma AttachRegistryOk(gems: Registry, cur: Name, child: Name)
    requires RegistryOk(gems) && cur in gems && child != Some("bundler")
    ensures RegistryOk(Attach(gems, cur, child)) && Attach(gems, cur, child)[child].name == child
  {
    if child !in gems[cur].dependencies {
      var g := GetOrCreate(gems, child, None, None);
      GetOrCreateOk(gems, child, None, None);
      assert g[cur].dependencies == gems[cur].dependencies;
      AttachOk(g, cur, child);
    } else {
      ClosedChild(gems, cur, child);
    }
  }

  lemma SubDependencyWellFormed(st: ParserState, cur: Name, nv: NameVersion)
    requires WellFormed(st) && cur in st.allGems && nv.name != Some("bundler")
    ensures WellFormed(SubDependency(st, cur, nv))
  {
    var gems := Attach(st.allGems, cur, nv.name);
    AttachRegistryOk(st.allGems, cur, nv.name);
    UpdateNodeOk(gems, nv.name, SubNode(gems[nv.name], Constraints(nv.version)));
  }

  lemma DeclareGemWellFormed(st: ParserState, name: Name, line: string)
    requires WellFormed(st)
    ensures WellFormed(DeclareGem(st, name, line)) && name in DeclareGem(st, name, line).allGems
    ensures DeclareGem(st, name, line).dependencies == st.dependencies
  {
    if name !in st.allGems {
      AddNodeOk(st.allGems, name, NewGem(name, None, None));
    }
  }

  lemma DeclareWellFormed(st: ParserState, e: Entry)
    requires WellFormed(st) && e.nv.name in st.allGems
    ensures WellFormed(Declare(st, e))
  {
    UpdateNodeOk(st.allGems, e.nv.name, DeclaredNode(st.allGems[e.nv.name], e));
  }

  lemma AddRootWellFormed(st: ParserState, name: Name)
    requires WellFormed(st) && name in st.allGems && name !in st.dependencies
    ensures WellFormed(st.(dependencies := st.dependencies + [name]))
  {
    var ds := st.dependencies + [name];
    forall i, j | 0 <= i < j < |ds|
      ensures ds[i] != ds[j]
    {
      if j == |ds| - 1 {
        assert ds[i] == st.dependencies[i];
      }
    }
  }

  lemma HandleDependencyWellFormed(st: ParserState, line: string)
    requires WellFormed(st)
    ensures WellFormed(HandleDependency(st, line))
  {
    match MatchDeps(line)
    case None =>
    case Some(e) =>
      var name := e.nv.name;
      var st1 := DeclareGem(st, name, line);
      DeclareGemWellFormed(st, name, line);
      if name !in st1.dependencies {
        AddRootWellFormed(st1, name);
      }
      var st2 := if name in st1.dependencies then Report(st1, DuplicateDependency(name, line))
                 else st1.(dependencies := st1.dependencies + [name]);
      DeclareWellFormed(st2, e);
  }

  lemma HandleSpecWellFormed(st: ParserState, line: string)
    requires WellFormed(st)
    ensures HandleSpec(st, line).Success? ==> WellFormed(HandleSpec(st, line).value)
  {
    var spec := MatchSpecDeps(line);
    var sub := MatchSpecSubDeps(line);
    if spec.Some? {
      SpecEntryWellFormed(st, spec.value);
    } else if sub.Some? && sub.value.name != Some("bundler") && st.currentGem.Some? {
      SubDependencyWellFormed(st, st.currentGem.value, sub.value);
    }
  }

  /** Every line keeps the parser's invariant. */
  lemma StepWellFormed(st: ParserState, raw: string)
    requires WellFormed(st)
    ensures Step(st, raw).Success? ==> WellFormed(Step(st, raw).value)
  {
    var line := PyStr.RStrip(raw);
    if line != "" && HeaderMode(line).None? {
      match st.mode {
        case None =>
        case Some(Options) =>
        case Some(Specs) => HandleSpecWellFormed(st, line);
        case Some(Dependencies) => HandleDependencyWellFormed(st, line);
        case Some(Platforms) =>
      }
    }
  }

  // ---------------------------------------------------------------------------
  // The whole parse
  // ---------------------------------------------------------------------------

  /** The `for line` loop of `__init__` over `lines`; an exception ends the parse. */
  function Run(st: ParserState, lines: seq<string>): (r: Result<ParserState, ParseError>)
    requires WellFormed(st)
    ensures r.Success? ==> WellFormed(r.value)
    decreases |lines|
  {
    if lines == [] then Success(st)
    else
      match Run(st, lines[..|lines| - 1])
      case Failure(e) => Failure(e)
      case Success(s) =>
        StepWellFormed(s, lines[|lines| - 1]);
        Step(s, lines[|lines| - 1])
  }

  /** The parse of one more line: the next step from the state the earlier lines left. */
  lemma RunNext(st: ParserState, lines: seq<string>, i: nat)
    requires WellFormed(st) && i < |lines| && Run(st, lines[..i]).Success?
    ensures WellFormed(Run(st, lines[..i]).value)
    ensures Run(st, lines[..i + 1]) == Step(Run(st, lines[..i]).value, lines[i])
  {
    assert lines[..i + 1][..i] == lines[..i];
  }

  /** An exception ends the parse: the lines after it are never read. */
  lemma {:induction false} RunStops(st: ParserState, lines: seq<string>, i: nat)
    requires WellFormed(st) && i <= |lines| && Run(st, lines[..i]).Failure?
    ensures Run(st, lines) == Run(st, lines[..i])
    decreases |lines| - i
  {
    if i < |lines| {
      assert lines[..i + 1][..i] == lines[..i];
      RunStops(st, lines, i + 1);
    } else {
      assert lines[..i] == lines;
    }
  }

  /** `GemfileLockParser.refine`: every node refined on its own; the graph is untouched. */
  function RefineAll(gems: Registry): (r: Registry)
    ensures r.Keys == gems.Keys
    ensures forall n :: n in gems ==> r[n] == RefineGem(gems[n])
  {
    map n | n in gems :: RefineGem(gems[n])
  }

  /** Refining keeps every node's name and children, so the registry stays sound. */
  lemma RefineAllOk(gems: Registry)
    requires RegistryOk(gems)
    ensures RegistryOk(RefineAll(gems))
  {
    var r := RefineAll(gems);
    forall n, i | n in r && 0 <= i < |r[n].dependencies|
      ensures r[n].dependencies[i] in r
    {
      assert r[n].dependencies[i] == gems[n].dependencies[i];
    }
  }

  /** `GemfileLockParser(lockfile, print_errors)`: every line, then `refine`. */
  function Parse(lines: seq<string>, printErrors: bool): (r: Result<ParserState, ParseError>)
    ensures r.Success? ==> WellFormed(r.value) && r.value.printErrors == printErrors
  {
    match Run(Initial(printErrors), lines)
    case Failure(e) => Failure(e)
    case Success(s) =>
      RefineAllOk(s.allGems);
      RunGrows(Initial(printErrors), lines);
      Success(s.(allGems := RefineAll(s.allGems)))
  }

  /** An empty lockfile parses to the initial state: no gems, roots, platforms or messages. */
  lemma ParseEmpty(printErrors: bool)
    ensures Parse([], printErrors) == Success(Initial(printErrors))
    ensures var st := Parse([], printErrors).value;
      st.allGems == map[] && st.dependencies == [] && st.platforms == [] && st.diagnostics == []
  {
    assert RefineAll(map[]) == map[];
  }

  // ---------------------------------------------------------------------------
  // Properties of the dispatch loop
  // ---------------------------------------------------------------------------

  /**
   * A blank line resets the state; a heading switches the handler and sets
   * the section type only for GEM/PATH/GIT/SVN, keeping the options and the
   * open spec; with no handler, any other line is ignored.
   */
  lemma StepDispatch(st: ParserState, raw: string)
    requires WellFormed(st)
    ensures PyStr.RStrip(raw) == "" ==> Step(st, raw) == Success(Reset(st))
    ensures var line := PyStr.RStrip(raw);
      line != "" && HeaderMode(line).Some? ==>
        && Step(st, raw).Success?
        && Step(st, raw).value.mode == HeaderMode(line)
        && Step(st, raw).value.currentType == (if line in {"GEM", "PATH", "GIT", "SVN"} then HeaderType(line) else st.currentType)
        && Step(st, raw).value.(mode := st.mode, currentType := st.currentType) == st
    ensures var line := PyStr.RStrip(raw);
      line != "" && HeaderMode(line).None? && st.mode.None? ==> Step(st, raw) == Success(st)
  {
  }

  predicate IsPrefix<T(==)>(a: seq<T>, b: seq<T>) {
    |a| <= |b| && b[..|a|] == a
  }

  /** What a line can do to the collected data: only add. */
  predicate Grows(st: ParserState, r: ParserState) {
    && st.allGems.Keys <= r.allGems.Keys
    && IsPrefix(st.dependencies, r.dependencies)
    && IsPrefix(st.platforms, r.platforms)
    && IsPrefix(st.diagnostics, r.diagnostics)
    && r.printErrors == st.printErrors
  }

  lemma GrowsTrans(a: ParserState, b: ParserState, c: ParserState)
    requires Grows(a, b) && Grows(b, c)
    ensures Grows(a, c)
  {
    assert c.dependencies[..|a.dependencies|] == c.dependencies[..|b.dependencies|][..|a.dependencies|];
    assert c.platforms[..|a.platforms|] == c.platforms[..|b.platforms|][..|a.platforms|];
    assert c.diagnostics[..|a.diagnostics|] == c.diagnostics[..|b.diagnostics|][..|a.diagnostics|];
  }

  lemma ReportGrows(st: ParserState, d: Diagnostic)
    ensures Grows(st, Report(st, d)) && Report(st, d).currentOptions == st.currentOptions
  {
  }

  /** A step that only adds registry keys, and leaves every list and option alone. */
  lemma KeysOnlyGrows(st: ParserState, r: ParserState)
    requires st.allGems.Keys <= r.allGems.Keys
    requires r.dependencies == st.dependencies && r.platforms == st.platforms
    requires r.diagnostics == st.diagnostics && r.printErrors == st.printErrors
    ensures Grows(st, r)
  {
    assert st.dependencies[..|st.dependencies|] == st.dependencies;
    assert st.platforms[..|st.platforms|] == st.platforms;
    assert st.diagnostics[..|st.diagnostics|] == st.diagnostics;
  }

  lemma HandleSpecGrows(st: ParserState, line: string)
    requires WellFormed(st)
    ensures HandleSpec(st, line).Success? ==> Grows(st, HandleSpec(st, line).value)
    ensures HandleSpec(st, line).Success? ==> HandleSpec(st, line).value.currentOptions == st.currentOptions
  {
    var spec := MatchSpecDeps(line);
    var sub := MatchSpecSubDeps(line);
    if spec.Some? {
      var r := SpecEntry(st, spec.value);
      assert HandleSpec(st, line) == Success(r);
      KeysOnlyGrows(st, r);
    } else if sub.Some? && sub.value.name != Some("bundler") && st.currentGem.Some? {
      var r := SubDependency(st, st.currentGem.value, sub.value);
      assert HandleSpec(st, line) == Success(r);
      assert r.allGems.Keys >= st.allGems.Keys;
      KeysOnlyGrows(st, r);
    } else if sub.None? || sub.value.name == Some("bundler") {
      assert HandleSpec(st, line) == Success(st);
      KeysOnlyGrows(st, st);
    }
  }

  lemma DeclareGemGrows(st: ParserState, name: Name, line: string)
    ensures Grows(st, DeclareGem(st, name, line))
    ensures DeclareGem(st, name, line).currentOptions == st.currentOptions
  {
    if name !in st.allGems && name != Some("bundler") {
      ReportGrows(st.(allGems := st.allGems[name := NewGem(name, None, None)]), UnknownGem(name, line));
    }
  }

  lemma AddRootGrows(st: ParserState, name: Name, line: string)
    ensures var r := if name in st.dependencies then Report(st, DuplicateDependency(name, line))
                     else st.(dependencies := st.dependencies + [name]);
      Grows(st, r) && r.currentOptions == st.currentOptions && r.allGems == st.allGems
  {
    if name in st.dependencies {
      ReportGrows(st, DuplicateDependency(name, line));
    }
  }

  lemma HandleDependencyGrows(st: ParserState, line: string)
    ensures Grows(st, HandleDependency(st, line))
    ensures HandleDependency(st, line).currentOptions == st.currentOptions
  {
    var m := MatchDeps(line);
    if m.None? {
      ReportGrows(st, DependencyNotMatched(line));
    } else {
      DeclareDependencyGrows(st, m.value, line);
    }
  }

  lemma DeclareDependencyGrows(st: ParserState, e: Entry, line: string)
    ensures Grows(st, DeclareDependency(st, e, line))
    ensures DeclareDependency(st, e, line).currentOptions == st.currentOptions
  {
    var name := e.nv.name;
    var st1 := DeclareGem(st, name, line);
    DeclareGemGrows(st, name, line);
    var st2 := if name in st1.dependencies then Report(st1, DuplicateDependency(name, line))
               else st1.(dependencies := st1.dependencies + [name]);
    AddRootGrows(st1, name, line);
    GrowsTrans(st, st1, st2);
    var r := Declare(st2, e);
    assert r == st2.(allGems := r.allGems) && r.allGems.Keys == st2.allGems.Keys;
    GrowsTrans(st, st2, r);
  }

  lemma HandlePlatformGrows(st: ParserState, line: string)
    ensures Grows(st, HandlePlatform(st, line))
    ensures HandlePlatform(st, line).currentOptions == st.currentOptions
  {
    var m := MatchPlats(line);
    if m.None? {
      ReportGrows(st, PlatformNotMatched(line));
    } else {
      AddPlatformGrows(st, PyStr.Strip(m.value));
    }
  }

  lemma AddPlatformGrows(st: ParserState, p: string)
    ensures Grows(st, st.(platforms := st.platforms + [p]))
  {
    var ps := st.platforms + [p];
    assert ps[..|st.platforms|] == st.platforms;
    assert st.dependencies[..|st.dependencies|] == st.dependencies;
    assert st.diagnostics[..|st.diagnostics|] == st.diagnostics;
  }

  /** What a line does to the collected data and to the options. */
  lemma StepGrows(st: ParserState, raw: string)
    requires WellFormed(st)
    ensures Step(st, raw).Success? ==> Grows(st, Step(st, raw).value)
    ensures PyStr.RStrip(raw) != "" && Step(st, raw).Success? ==>
              st.currentOptions.Keys <= Step(st, raw).value.currentOptions.Keys
  {
    var line := PyStr.RStrip(raw);
    if line != "" && HeaderMode(line).None? {
      match st.mode {
        case None =>
        case Some(Options) =>
        case Some(Specs) => HandleSpecGrows(st, line);
        case Some(Dependencies) => HandleDependencyGrows(st, line);
        case Some(Platforms) => HandlePlatformGrows(st, line);
      }
    }
  }

  /** Registry names, roots, platforms and messages are only ever added to, in order. */
  lemma {:induction false} RunGrows(st: ParserState, lines: seq<string>)
    requires WellFormed(st)
    ensures Run(st, lines).Success? ==> Grows(st, Run(st, lines).value)
    decreases |lines|
  {
    if lines != [] {
      var init := lines[..|lines| - 1];
      RunGrows(st, init);
      if Run(st, init).Success? {
        var s := Run(st, init).value;
        StepGrows(s, lines[|lines| - 1]);
      }
    }
  }

  /**
   * Headings do not clear the options: until a blank line, every option key
   * gathered so far is still there after any run of lines.
   */
  lemma {:induction false} OptionsSurviveHeaders(st: ParserState, lines: seq<string>)
    requires WellFormed(st)
    requires forall i :: 0 <= i < |lines| ==> PyStr.RStrip(lines[i]) != ""
    ensures Run(st, lines).Success? ==> st.currentOptions.Keys <= Run(st, lines).value.currentOptions.Keys
    decreases |lines|
  {
    if lines != [] {
      var init := lines[..|lines| - 1];
      OptionsSurviveHeaders(st, init);
      if Run(st, init).Success? {
        StepGrows(Run(st, init).value, lines[|lines| - 1]);
      }
    }
  }

  // ---------------------------------------------------------------------------
  // What each kind of line does
  // ---------------------------------------------------------------------------

  /** The node a line works on as it was before the line, or what `Gem(name)` would start from. */
  function Before(gems: Registry, name: Name): (g: Gem)
    ensures name in gems ==> g == gems[name]
    ensures name !in gems ==> g == NewGem(name, None, None)
  {
    if name in gems then gems[name] else NewGem(name, None, None)
  }

  /**
   * A 4-space spec entry makes its gem the open spec and touches no other
   * node and no other field of the state.
   */
  lemma SpecEntryState(st: ParserState, nv: NameVersion)
    ensures var r := SpecEntry(st, nv);
      && r.currentGem == Some(nv.name)
      && r.allGems.Keys == st.allGems.Keys + {nv.name}
      && r.(allGems := st.allGems, currentGem := st.currentGem) == st
    ensures forall n :: n in st.allGems && n != nv.name ==> SpecEntry(st, nv).allGems[n] == st.allGems[n]
  {
  }

  /**
   * The spec entry's node: its type is the section's, its version is
   * overwritten when one is given (else a truthy one is kept), its platform
   * is the captured one or `ruby`, every gathered option is copied onto it,
   * and nothing else about it changes.
   */
  lemma SpecEntryNode(st: ParserState, nv: NameVersion)
    ensures var g := SpecEntry(st, nv).allGems[nv.name];
      var old_ := Before(st.allGems, nv.name);
      && g.gemType == st.currentType
      && g.platform == Some(SpecPlatform(nv))
      && g.version == (if NonEmpty(nv.version) || !Truthy(old_.version) then StrValue(nv.version) else old_.version)
    ensures var g := SpecEntry(st, nv).allGems[nv.name];
      var old_ := Before(st.allGems, nv.name);
      && (forall k :: OptionOf(g, k) == if k in st.currentOptions then st.currentOptions[k] else OptionOf(old_, k))
      && g.(version := old_.version, platform := old_.platform, gemType := old_.gemType,
            remote := old_.remote, ref := old_.ref, revision := old_.revision, branch := old_.branch,
            submodules := old_.submodules, tag := old_.tag) == old_
  {
    var got := GotNode(st, nv);
    var old_ := Before(st.allGems, nv.name);
    SpecNodeEffect(got, st, nv);
    assert SpecEntry(st, nv).allGems[nv.name] == SpecNode(got, st, nv);
    assert forall k :: OptionOf(got, k) == OptionOf(old_, k) by {
      assert got.(version := old_.version, platform := old_.platform) == old_;
    }
  }

  /** The node `get_or_create` returns to a spec entry. */
  function GotNode(st: ParserState, nv: NameVersion): (g: Gem)
    ensures var old_ := Before(st.allGems, nv.name);
      && g.(version := old_.version, platform := old_.platform) == old_
      && g.version == (if Truthy(old_.version) then old_.version else StrValue(nv.version))
  {
    GetOrCreate(st.allGems, nv.name, StrValue(nv.version), Some(SpecPlatform(nv)))[nv.name]
  }

  lemma SpecNodeEffect(g: Gem, st: ParserState, nv: NameVersion)
    ensures var r := SpecNode(g, st, nv);
      && r.gemType == st.currentType
      && r.platform == Some(SpecPlatform(nv))
      && r.version == (if NonEmpty(nv.version) then StrValue(nv.version) else g.version)
      && (forall k :: OptionOf(r, k) == if k in st.currentOptions then st.currentOptions[k] else OptionOf(g, k))
      && r.(version := g.version, platform := g.platform, gemType := g.gemType,
            remote := g.remote, ref := g.ref, revision := g.revision, branch := g.branch,
            submodules := g.submodules, tag := g.tag) == g
  {
  }

  /**
   * A 6-space sub-dependency of the open spec `cur` reuses a child already
   * listed under `cur` and lists a new one once, at the end; no other node
   * and no other field of the state changes, except the child's own node.
   */
  lemma SubDependencyState(st: ParserState, cur: Name, nv: NameVersion)
    requires Linked(st) && cur in st.allGems
    ensures var r := SubDependency(st, cur, nv);
      && r.allGems.Keys == st.allGems.Keys + {nv.name}
      && r.(allGems := st.allGems) == st
      && r.allGems[cur].dependencies ==
           (if nv.name in st.allGems[cur].dependencies then st.allGems[cur].dependencies
            else st.allGems[cur].dependencies + [nv.name])
    ensures nv.name != cur ==>
              var r := SubDependency(st, cur, nv);
              r.allGems[cur] == st.allGems[cur].(dependencies := r.allGems[cur].dependencies)
    ensures forall n :: n in st.allGems && n != cur && n != nv.name ==> SubDependency(st, cur, nv).allGems[n] == st.allGems[n]
  {
  }

  /**
   * The child's node: typed GEM only if it had no type, and only the
   * constraints it does not have yet appended, in order. A child not yet
   * listed under `cur` goes through `get_or_create(name)`, which turns a
   * falsy version or platform into `None`; every other field stays.
   */
  lemma SubDependencyNode(st: ParserState, cur: Name, nv: NameVersion)
    requires Linked(st) && cur in st.allGems
    ensures var d := SubDependency(st, cur, nv).allGems[nv.name];
      var old_ := Before(st.allGems, nv.name);
      var listed := nv.name in st.allGems[cur].dependencies;
      && d.gemType == (if old_.gemType.None? then Some(GEM) else old_.gemType)
      && d.versionConstraints == AppendAbsent(old_.versionConstraints, Constraints(nv.version))
      && d.version == (if listed || Truthy(old_.version) then old_.version else None)
      && d.platform == (if listed || NonEmpty(old_.platform) then old_.platform else None)
      && d.(gemType := old_.gemType, versionConstraints := old_.versionConstraints, version := old_.version,
            platform := old_.platform, dependencies := old_.dependencies) == old_
  {
    var gems := Attach(st.allGems, cur, nv.name);
    AttachChildNode(st.allGems, cur, nv.name);
  }

  lemma AttachChildNode(gems: Registry, cur: Name, child: Name)
    requires Closed(gems) && cur in gems
    ensures var d := Attach(gems, cur, child)[child];
      var old_ := Before(gems, child);
      var listed := child in gems[cur].dependencies;
      && d.version == (if listed || Truthy(old_.version) then old_.version else None)
      && d.platform == (if listed || NonEmpty(old_.platform) then old_.platform else None)
      && d.(version := old_.version, platform := old_.platform, dependencies := old_.dependencies) == old_
  {
    if child in gems[cur].dependencies {
      ClosedChild(gems, cur, child);
    }
  }

  /** A sub-dependency named `bundler` changes nothing. */
  lemma BundlerSubDependencyIgnored(st: ParserState, line: string)
    requires Linked(st)
    requires MatchSpecDeps(line).None? && MatchSpecSubDeps(line).Some?
    requires MatchSpecSubDeps(line).value.name == Some("bundler")
    ensures HandleSpec(st, line) == Success(st)
  {
  }

  /** The messages a top-level dependency line prints. */
  function DependencyReports(st: ParserState, name: Name, line: string): seq<Diagnostic>
  {
    if !st.printErrors then []
    else
      (if name !in st.allGems && name != Some("bundler") then [UnknownGem(name, line)] else [])
      + (if name in st.dependencies then [DuplicateDependency(name, line)] else [])
  }

  /**
   * A top-level dependency line files an unknown name as a fresh node and
   * declares a name only once, at the end of the roots; it prints about an
   * unknown name other than `bundler` and about a repeated declaration; no
   * other node and no other field of the state changes.
   */
  lemma DependencyState(st: ParserState, e: Entry, line: string)
    requires WellFormed(st)
    ensures var r := DeclareDependency(st, e, line);
      && r.allGems.Keys == st.allGems.Keys + {e.nv.name}
      && r.dependencies == (if e.nv.name in st.dependencies then st.dependencies else st.dependencies + [e.nv.name])
      && r.diagnostics == st.diagnostics + DependencyReports(st, e.nv.name, line)
      && r.(allGems := st.allGems, dependencies := st.dependencies, diagnostics := st.diagnostics) == st
    ensures forall n :: n in st.allGems && n != e.nv.name ==> DeclareDependency(st, e, line).allGems[n] == st.allGems[n]
  {
    var name := e.nv.name;
    if name in st.dependencies {
      RootsRegistered(st, name);
    }
    var st1 := DeclareGem(st, name, line);
    DeclareGemEffect(st, name, line);
    var st2 := if name in st1.dependencies then Report(st1, DuplicateDependency(name, line))
               else st1.(dependencies := st1.dependencies + [name]);
    AddRootEffect(st1, name, line);
    assert DeclareDependency(st, e, line) == Declare(st2, e);
  }

  lemma RootsRegistered(st: ParserState, name: Name)
    requires Linked(st) && name in st.dependencies
    ensures name in st.allGems
  {
    var i :| 0 <= i < |st.dependencies| && st.dependencies[i] == name;
  }

  lemma DeclareGemEffect(st: ParserState, name: Name, line: string)
    ensures var r := DeclareGem(st, name, line);
      && r.allGems.Keys == st.allGems.Keys + {name}
      && (forall n :: n in st.allGems ==> r.allGems[n] == st.allGems[n])
      && r.diagnostics == st.diagnostics +
           (if st.printErrors && name !in st.allGems && name != Some("bundler") then [UnknownGem(name, line)] else [])
      && r.(allGems := st.allGems, diagnostics := st.diagnostics) == st
  {
  }

  lemma AddRootEffect(st: ParserState, name: Name, line: string)
    ensures var r := if name in st.dependencies then Report(st, DuplicateDependency(name, line))
                     else st.(dependencies := st.dependencies + [name]);
      && r.dependencies == (if name in st.dependencies then st.dependencies else st.dependencies + [name])
      && r.diagnostics == st.diagnostics +
           (if st.printErrors && name in st.dependencies then [DuplicateDependency(name, line)] else [])
      && r.(dependencies := st.dependencies, diagnostics := st.diagnostics) == st
  {
  }

  /**
   * The declared gem's node: each constraint is inserted at the front, so
   * they end up reversed ahead of all earlier ones, and the pin is whether
   * the trailing `!` is present; nothing else about it changes.
   */
  lemma DependencyNode(st: ParserState, e: Entry, line: string)
    ensures var g := DeclareDependency(st, e, line).allGems[e.nv.name];
      var old_ := Before(st.allGems, e.nv.name);
      && g.versionConstraints == Reverse(Constraints(e.nv.version)) + old_.versionConstraints
      && g.pinned == e.pinned
      && g.(versionConstraints := old_.versionConstraints, pinned := old_.pinned) == old_
  {
    var name := e.nv.name;
    var old_ := Before(st.allGems, name);
    var st1 := DeclareGem(st, name, line);
    assert st1.allGems[name] == old_;
    var st2 := if name in st1.dependencies then Report(st1, DuplicateDependency(name, line))
               else st1.(dependencies := st1.dependencies + [name]);
    assert st2.allGems == st1.allGems;
    assert DeclareDependency(st, e, line).allGems[name] == DeclaredNode(old_, e);
    PrependEachReverses(old_.versionConstraints, Constraints(e.nv.version));
  }

  /**
   * The source as written fails exactly on a repeated declaration while
   * messages are printed; otherwise it does what the corrected handler does.
   */
  lemma DependencyAsWrittenAgrees(st: ParserState, line: string)
    requires WellFormed(st)
    ensures HandleDependencyAsWritten(st, line).Failure? <==>
              st.printErrors && MatchDeps(line).Some? && MatchDeps(line).value.nv.name in st.dependencies
    ensures HandleDependencyAsWritten(st, line).Success? ==>
              HandleDependencyAsWritten(st, line).value == HandleDependency(st, line)
  {
    if MatchDeps(line).Some? {
      DeclareGemWellFormed(st, MatchDeps(line).value.nv.name, line);
    }
  }

  /** A lockfile state with `rake` declared once, messages on. */
  function RakeDeclared(): (st: ParserState)
    ensures WellFormed(st)
  {
    var rake: Name := Some("rake");
    Initial(true).(allGems := map[rake := NewGem(rake, None, None)], dependencies := [rake])
  }

  /**
   * Declaring `rake` a second time: the source raises `KeyError` while
   * formatting its warning; the corrected handler prints the warning and
   * keeps the first declaration.
   */
  lemma DuplicateDeclarationRaises()
    ensures HandleDependencyAsWritten(RakeDeclared(), "  rake").Failure?
    ensures HandleDependency(RakeDeclared(), "  rake").dependencies == [Some("rake")]
    ensures HandleDependency(RakeDeclared(), "  rake").diagnostics == [DuplicateDependency(Some("rake"), "  rake")]
  {
    var nv := NameVersion(Some("rake"), None, None);
    assert WellFormedEntry(nv);
    MatchDepsRender(nv, false);
    assert "  " + RenderEntry(nv, false) == "  rake";
    DependencyAsWrittenAgrees(RakeDeclared(), "  rake");
    DependencyState(RakeDeclared(), Entry(nv, false), "  rake");
  }

  // ---------------------------------------------------------------------------
  // The whole parse with `parse_dependency` as written
  // ---------------------------------------------------------------------------

  /** A line on which `parse_dependency` as written raises: a repeated declaration while messages are on. */
  predicate DuplicateRaises(st: ParserState, raw: string) {
    var line := PyStr.RStrip(raw);
    && line != "" && HeaderMode(line).None? && st.mode == Some(Dependencies)
    && st.printErrors && MatchDeps(line).Some? && MatchDeps(line).value.nv.name in st.dependencies
  }

  /** One line as the `for line` loop dispatches it, with `parse_dependency` as written. */
  function StepAsWritten(st: ParserState, raw: string): (r: Result<ParserState, ParseError>)
    requires Linked(st)
  {
    var line := PyStr.RStrip(raw);
    if line != "" && HeaderMode(line).None? && st.mode == Some(Dependencies) then HandleDependencyAsWritten(st, line)
    else Step(st, raw)
  }

  /** As written, a line raises `KeyError` exactly where the duplicate warning is due, and otherwise agrees. */
  lemma StepAsWrittenAgrees(st: ParserState, raw: string)
    requires WellFormed(st)
    ensures StepAsWritten(st, raw) ==
              if DuplicateRaises(st, raw) then Failure(DuplicateWarningKeyError(PyStr.RStrip(raw))) else Step(st, raw)
  {
    var line := PyStr.RStrip(raw);
    if line != "" && HeaderMode(line).None? && st.mode == Some(Dependencies) {
      DependencyAsWrittenAgrees(st, line);
      assert Step(st, raw) == Success(HandleDependency(st, line));
    }
  }

  /**
   * `__init__`'s loop with `parse_dependency` as written. Where it does not
   * raise the duplicate-warning `KeyError` it computes what `Run` computes,
   * and without messages it never differs from `Run`.
   */
  function RunAsWritten(st: ParserState, lines: seq<string>): (r: Result<ParserState, ParseError>)
    requires WellFormed(st)
    ensures r.Success? ==> r == Run(st, lines)
    ensures r.Failure? && !r.error.DuplicateWarningKeyError? ==> r == Run(st, lines)
    ensures !st.printErrors ==> r == Run(st, lines)
    decreases |lines|
  {
    if lines == [] then Success(st)
    else
      var init := lines[..|lines| - 1];
      match RunAsWritten(st, init)
      case Failure(e) => Failure(e)
      case Success(s) =>
        RunGrows(st, init);
        StepAsWrittenAgrees(s, lines[|lines| - 1]);
        StepAsWritten(s, lines[|lines| - 1])
  }

  /** As written, the first repeated declaration with messages on ends the parse in `KeyError`. */
  lemma RunAsWrittenRaises(st: ParserState, lines: seq<string>, i: nat)
    requires WellFormed(st) && i < |lines| && RunAsWritten(st, lines[..i]).Success?
    requires DuplicateRaises(RunAsWritten(st, lines[..i]).value, lines[i])
    ensures RunAsWritten(st, lines) == Failure(DuplicateWarningKeyError(PyStr.RStrip(lines[i])))
  {
    var s := RunAsWritten(st, lines[..i]).value;
    assert lines[..i + 1][..i] == lines[..i];
    StepAsWrittenAgrees(s, lines[i]);
    assert RunAsWritten(st, lines[..i + 1]) == Failure(DuplicateWarningKeyError(PyStr.RStrip(lines[i])));
    RunAsWrittenStops(st, lines, i + 1);
  }

  /** As written too, an exception ends the parse. */
  lemma {:induction false} RunAsWrittenStops(st: ParserState, lines: seq<string>, i: nat)
    requires WellFormed(st) && i <= |lines| && RunAsWritten(st, lines[..i]).Failure?
    ensures RunAsWritten(st, lines) == RunAsWritten(st, lines[..i])
    decreases |lines| - i
  {
    if i < |lines| {
      assert lines[..i + 1][..i] == lines[..i];
      RunAsWrittenStops(st, lines, i + 1);
    } else {
      assert lines[..i] == lines;
    }
  }

  /** `GemfileLockParser(lockfile, print_errors)` as written: the loop above, then `refine`. */
  function ParseAsWritten(lines: seq<string>, printErrors: bool): (r: Result<ParserState, ParseError>)
    ensures r.Success? ==> r == Parse(lines, printErrors)
    ensures r.Failure? && !r.error.DuplicateWarningKeyError? ==> r == Parse(lines, printErrors)
    ensures !printErrors ==> r == Parse(lines, printErrors)
  {
    match RunAsWritten(Initial(printErrors), lines)
    case Failure(e) => Failure(e)
    case Success(s) => Success(s.(allGems := RefineAll(s.allGems)))
  }
}
