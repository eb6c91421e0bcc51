/**
 * `GemfileLockParser` (src/packagedcode2/gemfile_lock.py) as an object whose
 * methods update its fields in place. Each method is proved to leave the
 * fields as the matching function of LockSteps computes them, so every
 * property proved there about the parse holds of the object.
 */
module LockParser {
  import opened Wrappers
  import opened Gems
  import opened LockLines
  import opened LockSteps
  import LockGraph
  import PyStr

  class GemfileLockParser {
    const lockfile: seq<string>
    const printErrors: bool

    /** `self.state`: the handler for the next line. */
    var mode: Option<Mode>
    var currentOptions: map<OptionKey, Option<Value>>
    var currentGem: Option<Name>
    var currentType: Option<GemType>
    var allGems: Registry
    /** The declared dependencies, in declaration order. */
    var dependencies: seq<Name>
    var platforms: seq<string>
    /** The messages printed when `printErrors` is set. */
    var diagnostics: seq<Diagnostic>
    /** The exception `__init__` raised, if any; the object is not usable after one. */
    var error: Option<ParseError>

    /** The fields as a LockSteps state. */
    function Snapshot(): ParserState
      reads this
    {
      ParserState(mode, currentOptions, currentGem, currentType, allGems, dependencies,
                  platforms, diagnostics, printErrors)
    }

    /**
     * `__init__`: every line of `lockfile` through the state machine, then
     * `refine`. The object ends in the state `Parse` computes, or holds the
     * exception `Parse` fails with.
     */
    constructor (lockfile: seq<string>, printErrors: bool)
      ensures this.lockfile == lockfile && this.printErrors == printErrors
      ensures error.None? ==> Parse(lockfile, printErrors) == Success(Snapshot())
      ensures error.Some? ==> Parse(lockfile, printErrors) == Failure(error.value)
    {
      this.lockfile := lockfile;
      this.printErrors := printErrors;
      dependencies := [];
      allGems := map[];
      platforms := [];
      diagnostics := [];
      mode := None;
      currentOptions := map[];
      currentGem := None;
      currentType := None;
      error := None;
      new;
      ResetState();
      ParseLines();
      if error.None? {
        Refine();
      }
    }

    /**
     * The `for line` loop of `__init__`: the lines are read in order until
     * one raises, and the state is the one `Run` computes for them.
     */
    method ParseLines()
      requires Snapshot() == Initial(printErrors) && error.None?
      modifies this
      ensures error.None? ==> Run(Initial(printErrors), lockfile) == Success(Snapshot())
      ensures error.Some? ==> Run(Initial(printErrors), lockfile) == Failure(error.value)
    {
      var i := 0;
      while i < |lockfile| && error.None?
        invariant 0 <= i <= |lockfile|
        invariant error.None? ==> Run(Initial(printErrors), lockfile[..i]) == Success(Snapshot())
        invariant error.Some? ==> Run(Initial(printErrors), lockfile[..i]) == Failure(error.value)
        decreases |lockfile| - i
      {
        RunNext(Initial(printErrors), lockfile, i);
        error := ParseLine(lockfile[i]);
        i := i + 1;
      }
      if error.Some? {
        RunStops(Initial(printErrors), lockfile, i);
      } else {
        assert lockfile[..i] == lockfile;
      }
    }

    /** The body of the `for line` loop of `__init__`: dispatch one line. */
    method ParseLine(raw: string) returns (err: Option<ParseError>)
      requires WellFormed(Snapshot())
      modifies this
      ensures Step(old(Snapshot()), raw) == if err.None? then Success(Snapshot()) else Failure(err.value)
      ensures error == old(error)
    {
      err := None;
      var line := PyStr.RStrip(raw);
      if line == "" {
        ResetState();
        return;
      }
      if HeaderMode(line).Some? {
        if HeaderType(line).Some? {
          currentType := HeaderType(line);
        }
        mode := HeaderMode(line);
        return;
      }
      match mode {
        case None =>
        case Some(Options) => ParseOptions(line);
        case Some(Specs) => err := ParseSpec(line);
        case Some(Dependencies) => ParseDependency(line);
        case Some(Platforms) => ParsePlatform(line);
      }
    }

    /** `reset_state`. */
    method ResetState()
      modifies this
      ensures Snapshot() == Reset(old(Snapshot())) && error == old(error)
    {
      mode := None;
      currentOptions := map[];
      currentGem := None;
      currentType := None;
    }

    /** `get_or_create`: the node is left in the registry under `name`. */
    method GetOrCreate(name: Name, version: Option<Value>, platform: Option<string>)
      modifies this
      ensures allGems == LockSteps.GetOrCreate(old(allGems), name, version, platform)
      ensures Snapshot() == old(Snapshot()).(allGems := allGems) && error == old(error)
    {
      if name in allGems {
        var gem := allGems[name];
        gem := gem.(version := Or(gem.version, version));
        gem := gem.(platform := OrStr(gem.platform, platform));
        allGems := allGems[name := gem];
      } else {
        allGems := allGems[name := NewGem(name, version, platform)];
      }
    }

    /** `parse_options`. */
    method ParseOptions(line: string)
      modifies this
      ensures Snapshot() == HandleOptions(old(Snapshot()), line) && error == old(error)
    {
      var (key, value) := GetOption(line);
      if key.Some? {
        currentOptions := currentOptions[key.value := value];
      }
    }

    /** `parse_spec`; a sub-dependency with no open spec raises before changing anything. */
    method ParseSpec(line: string) returns (err: Option<ParseError>)
      requires Linked(Snapshot())
      modifies this
      ensures HandleSpec(old(Snapshot()), line) == if err.None? then Success(Snapshot()) else Failure(err.value)
      ensures error == old(error)
    {
      err := None;
      var specDep := MatchSpecDeps(line);
      if specDep.Some? {
        ParseSpecEntry(specDep.value);
        return;
      }
      var specSubDep := MatchSpecSubDeps(line);
      if specSubDep.Some? {
        var nv := specSubDep.value;
        if nv.name == Some("bundler") {
          return;
        }
        if currentGem.None? {
          return Some(NoOpenSpec(line));
        }
        ParseSpecSubDependency(currentGem.value, nv);
      }
    }

    /** The 4-space branch of `parse_spec`: the gem becomes the open spec and takes the section's options. */
    method ParseSpecEntry(nv: NameVersion)
      modifies this
      ensures Snapshot() == SpecEntry(old(Snapshot()), nv) && error == old(error)
    {
      ghost var st := Snapshot();
      var platform := SpecPlatform(nv);
      GetOrCreate(nv.name, StrValue(nv.version), Some(platform));
      ghost var gems := allGems;
      currentGem := Some(nv.name);
      var gem := allGems[nv.name];
      gem := gem.(gemType := currentType);
      if NonEmpty(nv.version) {
        gem := gem.(version := StrValue(nv.version));
      }
      gem := gem.(platform := Some(platform));
      gem := CopyOptions(gem, currentOptions);
      assert gem == SpecNode(gems[nv.name], st, nv);
      allGems := allGems[nv.name := gem];
    }

    /** The 6-space branch of `parse_spec`: file the child under the open spec `cur` and add its constraints. */
    method ParseSpecSubDependency(cur: Name, nv: NameVersion)
      requires Linked(Snapshot()) && cur in allGems
      modifies this
      ensures Snapshot() == SubDependency(old(Snapshot()), cur, nv) && error == old(error)
    {
      ghost var attached := Attach(allGems, cur, nv.name);
      var versionConstraints := Constraints(nv.version);
      if nv.name in allGems[cur].dependencies {
        ClosedChild(allGems, cur, nv.name);
      } else {
        GetOrCreate(nv.name, None, None);
        allGems := allGems[cur := allGems[cur].(dependencies := allGems[cur].dependencies + [nv.name])];
      }
      assert allGems == attached;
      var dep := allGems[nv.name];
      if dep.gemType.None? {
        dep := dep.(gemType := Some(GEM));
      }
      var vc := AppendMissing(dep.versionConstraints, versionConstraints);
      assert dep.(versionConstraints := vc) == SubNode(attached[nv.name], versionConstraints);
      allGems := allGems[nv.name := dep.(versionConstraints := vc)];
    }

    /**
     * `parse_dependency`, with a repeated declaration reported and skipped
     * as evidently intended (see `HandleDependencyAsWritten`).
     */
    method ParseDependency(line: string)
      modifies this
      ensures Snapshot() == HandleDependency(old(Snapshot()), line) && error == old(error)
    {
      ghost var st := Snapshot();
      var deps := MatchDeps(line);
      if deps.None? {
        diagnostics := if printErrors then diagnostics + [DependencyNotMatched(line)] else diagnostics;
        assert Snapshot() == Report(st, DependencyNotMatched(line));
        return;
      }
      var e := deps.value;
      assert HandleDependency(st, line) == DeclareDependency(st, e, line);
      var name := e.nv.name;
      DeclareGem(name, line);
      ghost var st1 := Snapshot();
      AddRoot(name, line);
      ghost var st2 := Snapshot();
      assert name in allGems;
      var version := Constraints(e.nv.version);
      var gem := allGems[name];
      var vc := InsertEachAtFront(gem.versionConstraints, version);
      allGems := allGems[name := gem.(versionConstraints := vc, pinned := e.pinned)];
      assert Snapshot() == Declare(st2, e);
      assert Snapshot() == DeclareDependency(st, e, line);
    }

    /** The `try`/`except KeyError` of `parse_dependency`: an unknown name gets a fresh gem. */
    method DeclareGem(name: Name, line: string)
      modifies this
      ensures Snapshot() == LockSteps.DeclareGem(old(Snapshot()), name, line) && error == old(error)
    {
      if name !in allGems {
        allGems := allGems[name := NewGem(name, None, None)];
        diagnostics := if name != Some("bundler") && printErrors then diagnostics + [UnknownGem(name, line)] else diagnostics;
      }
    }

    /** The root declaration of `parse_dependency`: a repeated name is reported, a new one appended. */
    method AddRoot(name: Name, line: string)
      modifies this
      ensures Snapshot() == if name in old(dependencies) then Report(old(Snapshot()), DuplicateDependency(name, line))
                            else old(Snapshot()).(dependencies := old(dependencies) + [name])
      ensures error == old(error)
    {
      if name in dependencies {
        diagnostics := if printErrors then diagnostics + [DuplicateDependency(name, line)] else diagnostics;
      } else {
        dependencies := dependencies + [name];
      }
    }

    /** `parse_platform`. */
    method ParsePlatform(line: string)
      modifies this
      ensures Snapshot() == HandlePlatform(old(Snapshot()), line) && error == old(error)
    {
      ghost var st := Snapshot();
      var plat := MatchPlats(line);
      if plat.None? {
        diagnostics := if printErrors then diagnostics + [PlatformNotMatched(line)] else diagnostics;
        assert Snapshot() == Report(st, PlatformNotMatched(line));
        return;
      }
      var platform := PyStr.Strip(plat.value);
      platforms := platforms + [platform];
    }

    /** `refine`: every registered gem refined on its own. */
    method Refine()
      modifies this
      ensures allGems == RefineAll(old(allGems))
      ensures Snapshot() == old(Snapshot()).(allGems := allGems) && error == old(error)
    {
      ghost var before := allGems;
      var keys := allGems.Keys;
      while keys != {}
        invariant keys <= before.Keys && allGems.Keys == before.Keys
        invariant forall n :: n in before ==> allGems[n] == if n in keys then before[n] else RefineGem(before[n])
        invariant Snapshot() == old(Snapshot()).(allGems := allGems) && error == old(error)
        decreases keys
      {
        var n :| n in keys;
        allGems := allGems[n := RefineGem(allGems[n])];
        keys := keys - {n};
      }
    }

    /**
     * `flatten`: `(None, root)` for every declared dependency and the
     * flattening of each, sorted and without repeats, with gem recursion
     * bounded by `fuel`.
     */
    method Flatten(fuel: nat) returns (r: seq<LockGraph.Edge>)
      requires Linked(Snapshot())
      ensures r == LockGraph.Flatten(Snapshot(), fuel)
      ensures LockGraph.StrictlySorted(r)
    {
      var flattened := [];
      var i := 0;
      while i < |dependencies|
        invariant 0 <= i <= |dependencies|
        invariant flattened + LockGraph.RootEdges(allGems, dependencies[i..], fuel)
                  == LockGraph.RootEdges(allGems, dependencies, fuel)
      {
        var direct := dependencies[i];
        LockGraph.RootEdgesStep(allGems, dependencies, i, fuel);
        flattened := flattened + [LockGraph.Root(direct)] + LockGraph.GemFlatten(allGems, direct, fuel);
        i := i + 1;
      }
      assert dependencies[i..] == [];
      assert flattened == LockGraph.RootEdges(allGems, dependencies, fuel);
      r := LockGraph.SortUnique(flattened);
    }
  }

  /** `for k, v in options.items(): setattr(gem, k, v)`. */
  method CopyOptions(gem: Gem, options: map<OptionKey, Option<Value>>) returns (r: Gem)
    ensures r == ApplyOptions(gem, options)
  {
    r := gem;
    ghost var done: map<OptionKey, Option<Value>> := map[];
    var keys := options.Keys;
    while keys != {}
      invariant keys <= options.Keys
      invariant forall k :: k in options ==> (k in done <==> k !in keys)
      invariant forall k :: k in done ==> k in options && done[k] == options[k]
      invariant r == ApplyOptions(gem, done)
      decreases keys
    {
      var k :| k in keys;
      ApplyOptionsStep(gem, done, k, options[k]);
      r := SetOption(r, k, options[k]);
      done := done[k := options[k]];
      keys := keys - {k};
    }
    assert done == options;
  }

  /** `for v in cs: vc.insert(0, v)`: the constraints end up reversed, ahead of the old ones. */
  method InsertEachAtFront(vc: seq<string>, cs: seq<string>) returns (r: seq<string>)
    ensures r == Reverse(cs) + vc
    ensures r == PrependEach(vc, cs)
  {
    r := vc;
    var i := 0;
    while i < |cs|
      invariant 0 <= i <= |cs|
      invariant PrependEach(r, cs[i..]) == PrependEach(vc, cs)
    {
      assert cs[i..][1..] == cs[i + 1..];
      r := [cs[i]] + r;
      i := i + 1;
    }
    assert cs[i..] == [];
    PrependEachReverses(vc, cs);
  }

  /** `for v in cs: if v not in vc: vc.append(v)`. */
  method AppendMissing(vc: seq<string>, cs: seq<string>) returns (r: seq<string>)
    ensures r == AppendAbsent(vc, cs)
    ensures |vc| <= |r| && r[..|vc|] == vc
    ensures forall x :: x in r <==> x in vc || x in cs
  {
    r := vc;
    var i := 0;
    while i < |cs|
      invariant 0 <= i <= |cs|
      invariant AppendAbsent(r, cs[i..]) == AppendAbsent(vc, cs)
    {
      assert cs[i..][1..] == cs[i + 1..];
      if cs[i] !in r {
        r := r + [cs[i]];
      }
      i := i + 1;
    }
    assert cs[i..] == [];
    AppendAbsentAdds(vc, cs);
  }
}
