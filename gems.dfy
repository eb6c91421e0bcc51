/**
 * The `Gem` node of a Gemfile.lock graph (src/packagedcode2/gemfile_lock.py,
 * class `Gem`) and its post-parse refinement.
 *
 * Nodes live in an arena keyed by name: a child reference in `dependencies`
 * is the child's name, and the node itself is looked up in the registry.
 */
module Gems {
  import opened Wrappers

  /** A gem's key in the registry; Python lets it be `None`. */
  type Name = Option<string>

  /** An attribute value: a string, or a boolean coerced from `true`/`false`. */
  datatype Value = Str(s: string) | Bool(b: bool)

  /** Where a gem is provisioned from: the four section headings. */
  datatype GemType = GEM | PATH | GIT | SVN

  /** `Gem.supported_opts`: the option keys a section may carry, one per gem attribute. */
  datatype OptionKey = Remote | Ref | Revision | Branch | Submodules | Tag {
    /** The key as a lockfile spells it. */
    function Spelling(): string {
      match this
      case Remote => "remote"
      case Ref => "ref"
      case Revision => "revision"
      case Branch => "branch"
      case Submodules => "submodules"
      case Tag => "tag"
    }
  }

  /** `key in Gem.supported_opts`: the supported key spelled `s`, if there is one. */
  function KeyOf(s: string): (k: Option<OptionKey>)
    ensures k.Some? ==> k.value.Spelling() == s
    ensures k.None? ==> forall key: OptionKey :: key.Spelling() != s
  {
    if s == "remote" then Some(Remote)
    else if s == "ref" then Some(Ref)
    else if s == "revision" then Some(Revision)
    else if s == "branch" then Some(Branch)
    else if s == "submodules" then Some(Submodules)
    else if s == "tag" then Some(Tag)
    else None
  }

  /** Python truthiness of an optional value: `None`, `''` and `False` are false. */
  predicate Truthy(v: Option<Value>) {
    v.Some? && match v.value
               case Str(s) => s != ""
               case Bool(b) => b
  }

  /** Python truthiness of an optional string. */
  predicate NonEmpty(s: Option<string>) {
    s.Some? && s.value != ""
  }

  /** Python `a or b` on optional values. */
  function Or(a: Option<Value>, b: Option<Value>): (r: Option<Value>)
    ensures Truthy(a) ==> r == a
    ensures !Truthy(a) ==> r == b
  {
    if Truthy(a) then a else b
  }

  /** Python `a or b` on optional strings. */
  function OrStr(a: Option<string>, b: Option<string>): (r: Option<string>)
    ensures NonEmpty(a) ==> r == a
    ensures !NonEmpty(a) ==> r == b
  {
    if NonEmpty(a) then a else b
  }

  /** An optional string as an optional attribute value. */
  function StrValue(s: Option<string>): (r: Option<Value>)
    ensures r.Some? <==> s.Some?
    ensures s.Some? ==> r.value.Str? && r.value.s == s.value
    ensures Truthy(r) <==> NonEmpty(s)
  {
    match s
    case None => None
    case Some(v) => Some(Str(v))
  }

  datatype Gem = Gem(
    name: Name,
    version: Option<Value>,
    platform: Option<string>,
    remote: Option<Value>,
    gemType: Option<GemType>,
    pinned: bool,
    specVersion: Option<Value>,
    path: Option<Value>,
    revision: Option<Value>,
    ref: Option<Value>,
    branch: Option<Value>,
    submodules: Option<Value>,
    tag: Option<Value>,
    versionConstraints: seq<string>,
    dependencies: seq<Name>)

  /** `Gem(name, version, platform)`: every other field at its initial value. */
  function NewGem(name: Name, version: Option<Value>, platform: Option<string>): (g: Gem)
    ensures g.name == name && g.version == version && g.platform == platform
    ensures g.gemType.None? && !g.pinned && g.versionConstraints == [] && g.dependencies == []
    ensures g.remote.None? && g.revision.None? && g.ref.None? && g.specVersion.None? && g.path.None?
    ensures g.branch.None? && g.submodules.None? && g.tag.None?
  {
    Gem(name, version, platform, None, None, false, None, None, None, None, None, None, None, [], [])
  }

  /** `setattr(gem, key, value)` for one of the supported option keys. */
  function SetOption(g: Gem, key: OptionKey, v: Option<Value>): Gem
  {
    match key
    case Remote => g.(remote := v)
    case Ref => g.(ref := v)
    case Revision => g.(revision := v)
    case Branch => g.(branch := v)
    case Submodules => g.(submodules := v)
    case Tag => g.(tag := v)
  }

  /** `getattr(gem, key)` for one of the supported option keys. */
  function OptionOf(g: Gem, key: OptionKey): Option<Value>
  {
    match key
    case Remote => g.remote
    case Ref => g.ref
    case Revision => g.revision
    case Branch => g.branch
    case Submodules => g.submodules
    case Tag => g.tag
  }

  /** Gems that agree everywhere except, possibly, on their option attributes. */
  predicate SameBesidesOptions(a: Gem, b: Gem) {
    a.(remote := b.remote, ref := b.ref, revision := b.revision, branch := b.branch,
       submodules := b.submodules, tag := b.tag) == b
  }

  /** `setattr` then `getattr`: the attribute set is read back, the others are untouched. */
  lemma SetOptionThenGet(g: Gem, key: OptionKey, v: Option<Value>, other: OptionKey)
    ensures OptionOf(SetOption(g, key, v), other) == if other == key then v else OptionOf(g, other)
    ensures SameBesidesOptions(SetOption(g, key, v), g)
  {
  }

  /** The gem after every option of `opts` has been copied onto it. */
  function ApplyOptions(g: Gem, opts: map<OptionKey, Option<Value>>): (r: Gem)
    ensures forall k :: OptionOf(r, k) == if k in opts then opts[k] else OptionOf(g, k)
    ensures SameBesidesOptions(r, g)
  {
    g.(remote := if Remote in opts then opts[Remote] else g.remote,
       ref := if Ref in opts then opts[Ref] else g.ref,
       revision := if Revision in opts then opts[Revision] else g.revision,
       branch := if Branch in opts then opts[Branch] else g.branch,
       submodules := if Submodules in opts then opts[Submodules] else g.submodules,
       tag := if Tag in opts then opts[Tag] else g.tag)
  }

  /**
   * Copying the options one `setattr` at a time, in any order, builds
   * `ApplyOptions`: adding or replacing one option is setting that attribute last.
   */
  lemma ApplyOptionsStep(g: Gem, opts: map<OptionKey, Option<Value>>, key: OptionKey, v: Option<Value>)
    ensures ApplyOptions(g, opts[key := v]) == SetOption(ApplyOptions(g, opts), key, v)
  {
  }

  /** With no options nothing changes. */
  lemma ApplyNoOptions(g: Gem)
    ensures ApplyOptions(g, map[]) == g
  {
  }

  /**
   * `Gem.refine`: a PATH gem takes its `remote` as `path`; a GIT or SVN gem
   * keeps its spec version in `specVersion` and takes its revision, else its
   * ref, as `version`. The fourth branch of the source repeats the third and
   * can never be taken.
   */
  function RefineGem(g: Gem): (r: Gem)
    ensures r.name == g.name && r.dependencies == g.dependencies
    ensures r.versionConstraints == g.versionConstraints && r.gemType == g.gemType
    ensures r.path == (if g.gemType == Some(PATH) then g.remote else g.path)
    ensures g.gemType == Some(GIT) || g.gemType == Some(SVN) ==>
              && r.specVersion == g.version
              && r.version == (if Truthy(g.revision) then g.revision
                               else if Truthy(g.ref) then g.ref
                               else g.version)
    ensures g.gemType != Some(GIT) && g.gemType != Some(SVN) ==>
              r.version == g.version && r.specVersion == g.specVersion
    ensures g.gemType.None? || g.gemType == Some(GEM) ==> r == g
    ensures r == g.(path := r.path, version := r.version, specVersion := r.specVersion)
  {
    var g1 := if g.gemType == Some(PATH) then g.(path := g.remote) else g;
    if g1.gemType == Some(GIT) || g1.gemType == Some(SVN) then
      var g2 := g1.(specVersion := g1.version);
      if Truthy(g2.revision) && !Truthy(g2.ref) then g2.(version := g2.revision)
      else if Truthy(g2.revision) && Truthy(g2.ref) then g2.(version := g2.revision)
      else if !Truthy(g2.revision) && Truthy(g2.ref) then g2.(version := g2.ref)
      else if !Truthy(g2.revision) && Truthy(g2.ref) then assert false; g2.(version := g2.ref)
      else g2
    else g1
  }

  /** Refining twice changes nothing more for registry and path gems. */
  lemma RefineGemIdempotentOutsideVcs(g: Gem)
    requires g.gemType != Some(GIT) && g.gemType != Some(SVN)
    ensures RefineGem(RefineGem(g)) == RefineGem(g)
  {
  }
}
