# Gemfile.lock parser and RubyGems spec helpers, in Dafny

This project models two parts of the `packagedcode2` package.

**The Gemfile.lock parser** (`src/packagedcode2/gemfile_lock.py`) is a
line-driven state machine. It reads a Bundler lockfile and builds a graph of
`Gem` nodes. The model has five modules:

- `LockLines` holds the line classifiers. These are `get_option` and the
  `OPTIONS`, `NAME_VERSION`, `DEPS`, `SPEC_DEPS`, `SPEC_SUB_DEPS` and `PLATS`
  patterns, written as hand-made matchers over strings. Each matcher is proved
  to be the inverse of a renderer.
- `Gems` holds the `Gem` node and `Gem.refine`.
- `LockSteps` holds one pure function per handler over a `ParserState` value:
  - `reset_state`, `get_or_create`, `parse_options`, `parse_spec`,
    `parse_dependency` and `parse_platform`;
  - the dispatch of one line (`Step`);
  - the whole parse (`Run`, `Parse`).

  It also holds the registry invariant those handlers keep, and lemmas about
  the effect of each handler.
- `LockParser` holds the class `GemfileLockParser`. Its fields are those of the
  source object. Its methods update them in place, each proved to follow the
  matching `LockSteps` function. The loops that copy options, insert
  constraints at the front, append missing constraints, refine every gem and
  collect the flattened edges are real loops with invariants.
- `LockGraph` holds the derived views `Gem.flatten`, `GemfileLockParser.flatten`
  and `Gem.as_nv_tree`.

The nodes live in an arena. `allGems` maps a gem name to its node. A node's
`dependencies` and the parser's `dependencies` list the children's names in
insertion order. This arena stands for the source's name-keyed `OrderedDict`s
of shared `Gem` objects. A gem name may be `None`: a `DEPENDENCIES` line `  !`
matches with no name.

**The RubyGems spec helpers** (`src/packagedcode2/rubygems.py`) are modelled in
`RubyGems` over a spec given as a map from field names to JSON values. They are:

- `is_gem_file`;
- `filter_fields` over `known_fields`;
- `LICENSE_KEYS_MAPPING`;
- `get_download_url`;
- `GemSpec.make_unique`, `get_description`, `get_email` and `map_licenses`.

`PyStr` models the Python string operations the source relies on: `rstrip`,
`strip`, `split`, `split()` with no separator, `join` and string ordering.
Whitespace is Python's `unicode.isspace` set.

## Model

| member | source | states |
|---|---|---|
| `Gems.KeyOf` | src/packagedcode2/gemfile_lock.py:111 | a key is supported exactly when it is one of `remote ref revision branch submodules tag`; the option key found spells the input |
| `Gems.Or` | src/packagedcode2/gemfile_lock.py:413 | Python `a or b`: `a` when it is truthy (not `None`, `''` or `False`), else `b` |
| `Gems.OrStr` | src/packagedcode2/gemfile_lock.py:414 | Python `a or b` on optional strings |
| `Gems.StrValue` | src/packagedcode2/gemfile_lock.py:430 | a matched group as an attribute value keeps its presence, its text and its truthiness |
| `Gems.NewGem` | src/packagedcode2/gemfile_lock.py:113-138 | a new gem has the given name, version and platform; no type, not pinned, no constraints, no children, no remote, revision, ref, branch, submodules, tag, spec version or path |
| `Gems.SetOptionThenGet` | src/packagedcode2/gemfile_lock.py:441-442 | `setattr` of one option key is read back by `getattr`, leaves the other option keys and every other attribute alone |
| `Gems.ApplyOptions` | src/packagedcode2/gemfile_lock.py:441-442 | after copying an options dict, each option attribute is the dict's value where the key is present and unchanged otherwise; nothing else changes |
| `Gems.ApplyOptionsStep` | src/packagedcode2/gemfile_lock.py:441-442 | copying options one `setattr` at a time, in any order, builds the same gem |
| `Gems.ApplyNoOptions` | src/packagedcode2/gemfile_lock.py:441-442 | with no options the gem is unchanged |
| `Gems.RefineGem` | src/packagedcode2/gemfile_lock.py:140-162 | a PATH gem gets `path = remote`; a GIT or SVN gem gets `spec_version` = the old version, then `version` = the revision if truthy, else the ref if truthy, else unchanged; a GEM or untyped gem is unchanged; name, children, constraints and type never change, and no field other than `path`, `version` and `spec_version` does |
| `Gems.RefineGemIdempotentOutsideVcs` | src/packagedcode2/gemfile_lock.py:140-162 | refining a non-GIT, non-SVN gem twice is refining it once |
| `LockLines.LowerLen` | src/packagedcode2/gemfile_lock.py:242 | the `[a-z]+` key run is the longest lower-case prefix |
| `LockLines.MatchRestOfLine` | src/packagedcode2/gemfile_lock.py:242 | `.*$` takes the rest of the line without a newline, allowing one final newline before the end |
| `LockLines.OptionValue` | src/packagedcode2/gemfile_lock.py:255-260 | an empty value becomes `None`, `'true'`/`'false'` become booleans, any other text is kept |
| `LockLines.GetOption` | src/packagedcode2/gemfile_lock.py:245-266 | no key means no value; a key is found only on a line indented by two spaces |
| `LockLines.GetOptionLine` | src/packagedcode2/gemfile_lock.py:242-266 | on `  key: value` with a lower-case key, the result is the supported key and the coerced value, else `(None, None)` |
| `LockLines.GetOptionInverse` | src/packagedcode2/gemfile_lock.py:242-266 | every line that yields a key is `  key: value`, optionally newline-terminated, with the value coerced from that text |
| `LockLines.OptionRawOf` | src/packagedcode2/gemfile_lock.py:242-266 | returns the raw value text that a key-bearing line carries |
| `LockLines.OptionShape` | src/packagedcode2/gemfile_lock.py:242-266 | a key-bearing line is two spaces, the key's spelling, `: ` and the value |
| `LockLines.OptionSplit` | src/packagedcode2/gemfile_lock.py:242 | a line with that shape is the option line of its key and value |
| `LockLines.LowerLenPrefix` | src/packagedcode2/gemfile_lock.py:242 | the key run stops exactly at the first non-lower-case character |
| `LockLines.NameLen` | src/packagedcode2/gemfile_lock.py:274 | the name group is the longest prefix free of space, parentheses, comma, `!` and `:` |
| `LockLines.NameLenPrefix` | src/packagedcode2/gemfile_lock.py:274 | the name run stops exactly at the first excluded character |
| `LockLines.MatchPlats` | src/packagedcode2/gemfile_lock.py:317 | a platform line is two spaces and the platform text, optionally newline-terminated |
| `LockLines.MatchVersionRender` | src/packagedcode2/gemfile_lock.py:278-283 | `version[-platform]` with no dash in the version and no `!` in the platform is read back as that version and platform |
| `LockLines.MatchTailRender` | src/packagedcode2/gemfile_lock.py:276-297 | the text after a name, ` (version-platform)` and an optional `!`, is read back exactly |
| `LockLines.MatchEntryRender` | src/packagedcode2/gemfile_lock.py:270-298 | a rendered `name (version-platform)!` entry is matched back to its name, version, platform and pin |
| `LockLines.MatchVersionInverse` | src/packagedcode2/gemfile_lock.py:278-283 | whatever the version group matches renders back to the same text |
| `LockLines.BodyInverse` | src/packagedcode2/gemfile_lock.py:276-285 | a matched ` (…)` group renders back to itself |
| `LockLines.RenderVersionOf` | src/packagedcode2/gemfile_lock.py:276-285 | a matched version text renders as ` (` text `)` |
| `LockLines.MatchTailInverse` | src/packagedcode2/gemfile_lock.py:276-297 | a matched tail renders back to itself, a platform implies a version, and a pin needs a pattern that allows it |
| `LockLines.MatchEntryExactInverse` | src/packagedcode2/gemfile_lock.py:270-298 | every matched entry is well formed and renders back to the matched text |
| `LockLines.MatchEntryRetry` | src/packagedcode2/gemfile_lock.py:298 | `$` also matches before one final newline; then the entry is matched on the text without it |
| `LockLines.MatchEntryInverse` | src/packagedcode2/gemfile_lock.py:270-298 | every matched entry renders back to the text, up to one final newline |
| `LockLines.MatchDepsRender` | src/packagedcode2/gemfile_lock.py:291-298 | a two-space dependency line with an optional `!` is read back exactly |
| `LockLines.EntryOfParts` | src/packagedcode2/gemfile_lock.py:270-298 | a name followed by a tail that was read back is a well-formed entry, written out |
| `LockLines.Indented` | src/packagedcode2/gemfile_lock.py:291-306 | a line that is an indentation followed by a text, possibly newline-terminated, is their concatenation |
| `LockLines.MatchDepsInverse` | src/packagedcode2/gemfile_lock.py:291-298 | every matched dependency line is two spaces and a rendered entry |
| `LockLines.MatchSpecDepsRender` | src/packagedcode2/gemfile_lock.py:302-314 | a four-space entry is a spec entry and not a sub-dependency |
| `LockLines.MatchSpecSubDepsRender` | src/packagedcode2/gemfile_lock.py:302-314 | a six-space entry is a sub-dependency and not a spec entry |
| `LockLines.MatchEntryLeadingSpace` | src/packagedcode2/gemfile_lock.py:272 | the `(?! )` lookahead rejects any entry that starts with a space |
| `LockLines.IndentedEntryHasName` | src/packagedcode2/gemfile_lock.py:274-306 | an entry matched after the indentation of a line that does not end in whitespace has a name |
| `LockLines.SpecEntryHasName` | src/packagedcode2/gemfile_lock.py:274-306 | a matched spec or sub-dependency line whose last character is not whitespace has a name |
| `LockSteps.Initial` | src/packagedcode2/gemfile_lock.py:345-371 | a fresh parser has no gems, no dependencies, no platforms and satisfies the registry invariant |
| `LockSteps.Reset` | src/packagedcode2/gemfile_lock.py:396-400 | `reset_state` clears the handler, the options, the current gem and the current type; the collected data stays |
| `LockSteps.Report` | src/packagedcode2/gemfile_lock.py:472-474 | a message is recorded only when `print_errors` is set, and nothing else changes |
| `LockSteps.GetOrCreate` | src/packagedcode2/gemfile_lock.py:406-418 | one node per name: a new name gets `Gem(name, version, platform)`; an existing node keeps its version and platform when truthy, else takes the given ones; no other node changes |
| `LockSteps.GetOrCreateAgain` | src/packagedcode2/gemfile_lock.py:406-418 | a second call with the same arguments changes nothing |
| `LockSteps.GetOrCreateOk` | src/packagedcode2/gemfile_lock.py:406-418 | `get_or_create` keeps the registry invariant, files the node under its name and keeps its children |
| `LockSteps.HandleOptions` | src/packagedcode2/gemfile_lock.py:420-423 | a supported option sets that key in the current options; anything else changes nothing |
| `LockSteps.Constraints` | src/packagedcode2/gemfile_lock.py:451-453 | no constraints without a version; otherwise piece i is part i of the comma split, stripped, so it is comma-free and trimmed |
| `LockSteps.StripPiece` | src/packagedcode2/gemfile_lock.py:453 | a stripped piece has no comma and nothing left to strip |
| `LockSteps.StripSubstring` | src/packagedcode2/gemfile_lock.py:453 | stripping only removes characters |
| `LockSteps.Reverse` | src/packagedcode2/gemfile_lock.py:506-507 | a reversal has the same length and the mirrored elements |
| `LockSteps.PrependEachReverses` | src/packagedcode2/gemfile_lock.py:506-507 | inserting each constraint at index 0 puts them in reverse order ahead of all earlier ones |
| `LockSteps.AppendAbsentPrefix` | src/packagedcode2/gemfile_lock.py:464-466 | appending absent constraints keeps the old list as a prefix |
| `LockSteps.AppendAbsentMembers` | src/packagedcode2/gemfile_lock.py:464-466 | after appending, the list holds exactly the old constraints and the new ones |
| `LockSteps.AppendAbsentFresh` | src/packagedcode2/gemfile_lock.py:464-466 | the appended constraints are distinct and none was in the old list |
| `LockSteps.FreshTail` | src/packagedcode2/gemfile_lock.py:465-466 | a fresh constraint followed by constraints fresh for it too keeps the appended part distinct and new |
| `LockSteps.AppendAbsentAdds` | src/packagedcode2/gemfile_lock.py:464-466 | appending absent constraints keeps the old list as a prefix, adds only new and distinct ones, and leaves exactly the union |
| `LockSteps.NoDupCons` | src/packagedcode2/gemfile_lock.py:455-459 | a fresh element at the front keeps a list duplicate-free |
| `LockSteps.AppendAbsentNoDup` | src/packagedcode2/gemfile_lock.py:464-466 | a duplicate-free constraint list stays duplicate-free along this path |
| `LockSteps.SpecPlatform` | src/packagedcode2/gemfile_lock.py:431 | the platform is the parsed suffix when truthy, else `'ruby'`; never empty |
| `LockSteps.SpecNode` | src/packagedcode2/gemfile_lock.py:434-442 | the spec entry's update keeps the gem's name and children |
| `LockSteps.ClosedChild` | src/packagedcode2/gemfile_lock.py:455-459 | every child of a registry node is itself registered |
| `LockSteps.Attach` | src/packagedcode2/gemfile_lock.py:455-459 | the child is registered and added under the current gem only when not already there; no other node changes |
| `LockSteps.SubNode` | src/packagedcode2/gemfile_lock.py:461-466 | the sub-dependency's update keeps the child's name and children |
| `LockSteps.LinkedChild` | src/packagedcode2/gemfile_lock.py:455-459 | a child reference of a registered node resolves |
| `LockSteps.HandleSpec` | src/packagedcode2/gemfile_lock.py:425-466 | a spec line fails exactly when it is a non-`bundler` sub-dependency with no open spec (`None.dependencies`) |
| `LockSteps.DeclareGem` | src/packagedcode2/gemfile_lock.py:481-490 | a declaration registers its name, and only its name, and leaves the roots alone |
| `LockSteps.DeclaredNode` | src/packagedcode2/gemfile_lock.py:500-510 | a declaration keeps the gem's name and children |
| `LockSteps.HandlePlatform` | src/packagedcode2/gemfile_lock.py:512-520 | a platform line appends its stripped text, in order; an unmatched line only reports |
| `LockSteps.HeaderType` | src/packagedcode2/gemfile_lock.py:383-386 | a section type is set only by a heading that switches to the options handler |
| `LockSteps.UpdateNodeOk` | src/packagedcode2/gemfile_lock.py:411-418 | replacing a node with one of the same name and children keeps the registry invariant |
| `LockSteps.AddNodeOk` | src/packagedcode2/gemfile_lock.py:415-417 | adding a childless node under its own name keeps the registry invariant |
| `LockSteps.AttachOk` | src/packagedcode2/gemfile_lock.py:455-459 | adding a registered, non-`bundler`, absent child keeps the registry invariant |
| `LockSteps.SpecEntryWellFormed` | src/packagedcode2/gemfile_lock.py:425-443 | a spec entry keeps the parser invariant |
| `LockSteps.AttachRegistryOk` | src/packagedcode2/gemfile_lock.py:455-459 | attaching a non-`bundler` child keeps the registry invariant |
| `LockSteps.SubDependencyWellFormed` | src/packagedcode2/gemfile_lock.py:445-466 | a sub-dependency line keeps the parser invariant |
| `LockSteps.DeclareGemWellFormed` | src/packagedcode2/gemfile_lock.py:481-490 | a declaration keeps the parser invariant and registers the name |
| `LockSteps.DeclareWellFormed` | src/packagedcode2/gemfile_lock.py:500-510 | updating a declared gem's constraints and pin keeps the parser invariant |
| `LockSteps.AddRootWellFormed` | src/packagedcode2/gemfile_lock.py:492-498 | adding a registered, new root keeps the roots distinct and resolving |
| `LockSteps.HandleDependencyWellFormed` | src/packagedcode2/gemfile_lock.py:469-510 | a dependency line keeps the parser invariant |
| `LockSteps.HandleSpecWellFormed` | src/packagedcode2/gemfile_lock.py:425-466 | a spec line that does not raise keeps the parser invariant |
| `LockSteps.StepWellFormed` | src/packagedcode2/gemfile_lock.py:374-391 | any line that does not raise keeps the parser invariant |
| `LockSteps.Run` | src/packagedcode2/gemfile_lock.py:374-391 | every state reached by the loop satisfies the parser invariant |
| `LockSteps.RunNext` | src/packagedcode2/gemfile_lock.py:374-391 | reading one more line is one step from the state the earlier lines left, which is sound |
| `LockSteps.RunStops` | src/packagedcode2/gemfile_lock.py:374-391 | once a line raises, the rest of the lockfile is not read |
| `LockSteps.RefineAll` | src/packagedcode2/gemfile_lock.py:402-404 | `refine` refines every registered gem and keeps the registry's names |
| `LockSteps.RefineAllOk` | src/packagedcode2/gemfile_lock.py:402-404 | refining keeps the registry invariant |
| `LockSteps.Parse` | src/packagedcode2/gemfile_lock.py:345-394 | a parse that does not raise ends in a state satisfying the parser invariant, with the given `print_errors` |
| `LockSteps.ParseEmpty` | src/packagedcode2/gemfile_lock.py:345-394 | an empty lockfile gives the initial state, with no gems, roots, platforms or messages |
| `LockSteps.StepDispatch` | src/packagedcode2/gemfile_lock.py:374-391 | a blank line resets the state; a heading switches the handler, sets the type only for GEM/PATH/GIT/SVN and keeps the options and the open spec; with no handler, other lines are ignored |
| `LockSteps.GrowsTrans` | src/packagedcode2/gemfile_lock.py:374-391 | growth composes over consecutive lines |
| `LockSteps.ReportGrows` | src/packagedcode2/gemfile_lock.py:472-474 | reporting only appends a message |
| `LockSteps.KeysOnlyGrows` | src/packagedcode2/gemfile_lock.py:425-466 | a step that only adds registry keys and keeps every list counts as growth |
| `LockSteps.HandleSpecGrows` | src/packagedcode2/gemfile_lock.py:425-466 | a spec line only adds gems, children and nothing to the options |
| `LockSteps.DeclareGemGrows` | src/packagedcode2/gemfile_lock.py:481-490 | a declaration only adds |
| `LockSteps.AddRootGrows` | src/packagedcode2/gemfile_lock.py:492-498 | adding a root only appends to the roots or reports |
| `LockSteps.DeclareDependencyGrows` | src/packagedcode2/gemfile_lock.py:477-510 | declaring a matched dependency only adds gems, roots and messages, and keeps the options |
| `LockSteps.HandleDependencyGrows` | src/packagedcode2/gemfile_lock.py:469-510 | a dependency line only adds gems, roots and messages |
| `LockSteps.AddPlatformGrows` | src/packagedcode2/gemfile_lock.py:518-520 | appending a platform keeps the earlier ones as a prefix |
| `LockSteps.HandlePlatformGrows` | src/packagedcode2/gemfile_lock.py:512-520 | a platform line only appends |
| `LockSteps.StepGrows` | src/packagedcode2/gemfile_lock.py:374-391 | no line removes a gem, a root, a platform or a message; only a blank line removes options |
| `LockSteps.RunGrows` | src/packagedcode2/gemfile_lock.py:374-391 | over the whole lockfile, gems, roots, platforms and messages only grow |
| `LockSteps.OptionsSurviveHeaders` | src/packagedcode2/gemfile_lock.py:383-387 | without a blank line, accumulated options survive headings and every other line |
| `LockSteps.Before` | src/packagedcode2/gemfile_lock.py:406-418 | the node a name refers to before a line: the registered one, or a fresh gem |
| `LockSteps.SpecEntryState` | src/packagedcode2/gemfile_lock.py:425-443 | a spec entry makes its gem the current gem, registers only that name, changes no other node and no other field |
| `LockSteps.SpecEntryNode` | src/packagedcode2/gemfile_lock.py:425-443 | the gem gets the current type (possibly `None`), the parsed platform or `'ruby'`, the given version when truthy (else the old one when truthy), every accumulated option, and nothing else changes |
| `LockSteps.GotNode` | src/packagedcode2/gemfile_lock.py:406-418 | the node `get_or_create` hands the spec entry fills only an unset version |
| `LockSteps.SpecNodeEffect` | src/packagedcode2/gemfile_lock.py:435-442 | the spec entry's update sets type, platform, version and options as listed and nothing else |
| `LockSteps.SubDependencyState` | src/packagedcode2/gemfile_lock.py:445-466 | a sub-dependency registers only the child, adds it under the current gem only when absent, changes no other field of the current gem when the child is another gem, and changes no other node or field |
| `LockSteps.SubDependencyNode` | src/packagedcode2/gemfile_lock.py:455-466 | the child's type becomes GEM only when unset and its constraints gain only the absent ones; a child not yet listed goes through `get_or_create(name)`, so a falsy version or platform becomes `None`; every other field of the child stays |
| `LockSteps.AttachChildNode` | src/packagedcode2/gemfile_lock.py:455-459 | attaching a child not yet listed turns its falsy version or platform into `None`; its other fields, children apart, stay |
| `LockSteps.BundlerSubDependencyIgnored` | src/packagedcode2/gemfile_lock.py:445-449 | a `bundler` sub-dependency changes nothing |
| `LockSteps.DependencyState` | src/packagedcode2/gemfile_lock.py:469-510 | a declaration registers its name, adds it to the roots only when new, records exactly the expected messages, and changes no other node or field |
| `LockSteps.RootsRegistered` | src/packagedcode2/gemfile_lock.py:492-498 | every root is a registered gem |
| `LockSteps.DeclareGemEffect` | src/packagedcode2/gemfile_lock.py:481-490 | an unknown name gets a fresh node, with a message unless the name is `bundler`; known nodes are untouched |
| `LockSteps.AddRootEffect` | src/packagedcode2/gemfile_lock.py:492-498 | a name already among the roots is not added again and only reports (corrected; as written this raises `KeyError`) |
| `LockSteps.DependencyNode` | src/packagedcode2/gemfile_lock.py:500-510 | the declared constraints end up reversed ahead of all earlier ones, the pin is whether `!` is present, and nothing else about the gem changes |
| `LockSteps.DependencyAsWrittenAgrees` | src/packagedcode2/gemfile_lock.py:492-498 | as written, a dependency line raises exactly on a repeated declaration with `print_errors`; otherwise it agrees with the corrected handler |
| `LockSteps.RakeDeclared` | src/packagedcode2/gemfile_lock.py:469-510 | a state with `rake` declared once satisfies the parser invariant |
| `LockSteps.DuplicateDeclarationRaises` | src/packagedcode2/gemfile_lock.py:492-498 | declaring `rake` twice raises as written; the corrected handler keeps one root and records the warning |
| `LockSteps.StepAsWrittenAgrees` | src/packagedcode2/gemfile_lock.py:374-391 | with `parse_dependency` as written, a line raises `KeyError` exactly when it repeats a declared root in the DEPENDENCIES section with messages on, and otherwise does what the corrected step does |
| `LockSteps.RunAsWritten` | src/packagedcode2/gemfile_lock.py:374-391 | the loop with `parse_dependency` as written agrees with `Run` whenever it succeeds or raises something other than the duplicate-warning `KeyError`, and always when messages are off |
| `LockSteps.RunAsWrittenRaises` | src/packagedcode2/gemfile_lock.py:374-391 | as written, the first repeated declaration with messages on ends the parse in `KeyError` |
| `LockSteps.RunAsWrittenStops` | src/packagedcode2/gemfile_lock.py:374-391 | as written, an exception ends the parse and later lines are not read |
| `LockSteps.ParseAsWritten` | src/packagedcode2/gemfile_lock.py:345-394 | `__init__` as written agrees with `Parse` except where it raises the duplicate-warning `KeyError`, and always when `print_errors` is off |
| `LockParser.GemfileLockParser.ParseLines` | src/packagedcode2/gemfile_lock.py:374-391 | the `for line` loop leaves the state `Run` computes for the lockfile, or the exception of the first line that raises |
| `LockParser.GemfileLockParser.constructor` | src/packagedcode2/gemfile_lock.py:345-394 | the object ends in the state the whole parse computes, or holds the exception it raises |
| `LockParser.GemfileLockParser.ParseLine` | src/packagedcode2/gemfile_lock.py:374-391 | one loop iteration updates the fields as `Step` does |
| `LockParser.GemfileLockParser.ResetState` | src/packagedcode2/gemfile_lock.py:396-400 | the fields are reset as `Reset` does |
| `LockParser.GemfileLockParser.GetOrCreate` | src/packagedcode2/gemfile_lock.py:406-418 | the registry is updated as `LockSteps.GetOrCreate` does; nothing else changes |
| `LockParser.GemfileLockParser.ParseOptions` | src/packagedcode2/gemfile_lock.py:420-423 | the fields are updated as `HandleOptions` does |
| `LockParser.GemfileLockParser.ParseSpec` | src/packagedcode2/gemfile_lock.py:425-466 | the fields are updated, or the exception raised, as `HandleSpec` does |
| `LockParser.GemfileLockParser.ParseSpecEntry` | src/packagedcode2/gemfile_lock.py:427-443 | the fields are updated as `SpecEntry` does |
| `LockParser.GemfileLockParser.ParseSpecSubDependency` | src/packagedcode2/gemfile_lock.py:445-466 | the fields are updated as `SubDependency` does |
| `LockParser.GemfileLockParser.ParseDependency` | src/packagedcode2/gemfile_lock.py:469-510 | the fields are updated as the corrected `HandleDependency` does |
| `LockParser.GemfileLockParser.DeclareGem` | src/packagedcode2/gemfile_lock.py:481-490 | the fields are updated as `LockSteps.DeclareGem` does |
| `LockParser.GemfileLockParser.AddRoot` | src/packagedcode2/gemfile_lock.py:492-498 | a new name is appended to the roots; a repeated one only reports (corrected; as written this raises `KeyError`) |
| `LockParser.GemfileLockParser.ParsePlatform` | src/packagedcode2/gemfile_lock.py:512-520 | the fields are updated as `HandlePlatform` does |
| `LockParser.GemfileLockParser.Refine` | src/packagedcode2/gemfile_lock.py:402-404 | every gem is refined in place, as `RefineAll` does; nothing else changes |
| `LockParser.GemfileLockParser.Flatten` | src/packagedcode2/gemfile_lock.py:522-530 | the loop computes `LockGraph.Flatten` of the fields, a strictly sorted list |
| `LockParser.CopyOptions` | src/packagedcode2/gemfile_lock.py:441-442 | the `setattr` loop over the options builds `ApplyOptions` |
| `LockParser.InsertEachAtFront` | src/packagedcode2/gemfile_lock.py:506-507 | the `insert(0, v)` loop leaves the constraints reversed ahead of the old list |
| `LockParser.AppendMissing` | src/packagedcode2/gemfile_lock.py:464-466 | the append-if-absent loop keeps the old list as a prefix and leaves exactly the union |
| `LockGraph.NameLessIrreflexive` | src/packagedcode2/gemfile_lock.py:530 | no name sorts before itself |
| `LockGraph.NameLessTransitive` | src/packagedcode2/gemfile_lock.py:530 | the name order is transitive |
| `LockGraph.NameLessTotal` | src/packagedcode2/gemfile_lock.py:530 | any two distinct names are ordered |
| `LockGraph.NameLessAsymmetric` | src/packagedcode2/gemfile_lock.py:530 | the name order is asymmetric |
| `LockGraph.EdgeLessIrreflexive` | src/packagedcode2/gemfile_lock.py:530 | no edge sorts before itself |
| `LockGraph.EdgeLessAsymmetric` | src/packagedcode2/gemfile_lock.py:530 | the edge order is asymmetric |
| `LockGraph.EdgeLessTransitive` | src/packagedcode2/gemfile_lock.py:530 | the edge order is transitive |
| `LockGraph.EdgeLessTotal` | src/packagedcode2/gemfile_lock.py:530 | any two distinct edges are ordered |
| `LockGraph.InsertEdge` | src/packagedcode2/gemfile_lock.py:185 | inserting into a strictly sorted list keeps it strictly sorted and adds exactly the new edge |
| `LockGraph.InsertFrontSorted` | src/packagedcode2/gemfile_lock.py:185 | an edge below the head can be placed in front |
| `LockGraph.InsertAfterSorted` | src/packagedcode2/gemfile_lock.py:185 | a head below every edge of a sorted tail stays sorted |
| `LockGraph.SortUnique` | src/packagedcode2/gemfile_lock.py:185 | `sorted(set(xs))` is strictly sorted, so without duplicates, and has exactly the elements of `xs` |
| `LockGraph.StrictlySortedUnique` | src/packagedcode2/gemfile_lock.py:185 | two strictly sorted lists with the same elements are equal, so `sorted(set(…))` is unique |
| `LockGraph.SameElementsEmpty` | src/packagedcode2/gemfile_lock.py:185 | of two lists with the same elements, both or neither are empty |
| `LockGraph.HeadsEqual` | src/packagedcode2/gemfile_lock.py:185 | two strictly sorted lists with the same elements start alike |
| `LockGraph.TailMember` | src/packagedcode2/gemfile_lock.py:185 | an edge in the tail of a strictly sorted list is not its head |
| `LockGraph.TailMember2` | src/packagedcode2/gemfile_lock.py:185 | an edge of a list other than its head is in its tail |
| `LockGraph.GemFlatten` | src/packagedcode2/gemfile_lock.py:177-185 | `Gem.flatten` returns a strictly sorted list |
| `LockGraph.ClosedChildren` | src/packagedcode2/gemfile_lock.py:182 | every child of a node is registered |
| `LockGraph.GemFlattenEdges` | src/packagedcode2/gemfile_lock.py:177-185 | an edge is in `Gem.flatten` exactly when it is `(parent, child)` for a child of a parent reachable from the gem within the depth bound |
| `LockGraph.ChildEdgesEdges` | src/packagedcode2/gemfile_lock.py:181-184 | the loop collects each `(self, child)` and exactly the edges of each child's flattening |
| `LockGraph.FlattenEdges` | src/packagedcode2/gemfile_lock.py:522-530 | `flatten` is strictly sorted and holds exactly `(None, root)` for each declared dependency and every `(parent, child)` edge reachable from a root |
| `LockGraph.RootEdgesStep` | src/packagedcode2/gemfile_lock.py:527-529 | one iteration appends `(None, direct)` and the flattening of `direct` |
| `LockGraph.RootEdgesEdges` | src/packagedcode2/gemfile_lock.py:526-529 | the loop collects exactly the root edges and the edges of each root's flattening |
| `LockGraph.AsNvTreeChildren` | src/packagedcode2/gemfile_lock.py:164-175 | `as_nv_tree` has the single key `(name, version)`; its value has exactly one key per child, holding that child's subtree |
| `LockGraph.MergedEntries` | src/packagedcode2/gemfile_lock.py:173-174 | merging the children's trees keeps exactly one key per child, holding that child's subtree |
| `PyStr.RStrip` | src/packagedcode2/gemfile_lock.py:375 | `rstrip` leaves no trailing whitespace and removes only whitespace |
| `PyStr.LStrip` | src/packagedcode2/rubygems.py:256 | `lstrip` leaves no leading whitespace and removes only whitespace |
| `PyStr.Strip` | src/packagedcode2/gemfile_lock.py:453 | `strip` leaves no whitespace at either end |
| `PyStr.StripTrims` | src/packagedcode2/gemfile_lock.py:453 | `strip` gives a substring of its input with only whitespace removed before and after it |
| `PyStr.StripTrimmed` | src/packagedcode2/rubygems.py:256 | a string without whitespace at its ends strips to itself |
| `PyStr.Split` | src/packagedcode2/gemfile_lock.py:453 | `split(sep)` gives at least one piece, none containing the separator |
| `PyStr.JoinSplit` | src/packagedcode2/rubygems.py:264 | joining the pieces of a split gives back the string |
| `PyStr.SplitJoin` | src/packagedcode2/rubygems.py:264 | splitting a join of separator-free pieces gives back the pieces |
| `PyStr.JoinCons` | src/packagedcode2/rubygems.py:264 | a join of several items is the first, the separator and the join of the rest |
| `PyStr.IndexOfPrefix` | src/packagedcode2/gemfile_lock.py:453 | the first separator of `a + sep + b` is the one after `a` when `a` has none |
| `PyStr.SpaceIndex` | src/packagedcode2/rubygems.py:255 | the first word ends at the first whitespace |
| `PyStr.WordsAreWords` | src/packagedcode2/rubygems.py:255 | every piece of `split()` is non-empty and has no whitespace |
| `PyStr.JoinWordsCollapsed` | src/packagedcode2/rubygems.py:255 | `' '.join` of words has single spaces only between words |
| `PyStr.WordsJoin` | src/packagedcode2/rubygems.py:255 | `' '.join(words).split()` gives back the words |
| `PyStr.WordsLeadingSpace` | src/packagedcode2/rubygems.py:255 | leading whitespace does not change the words |
| `PyStr.CollapsedConcat` | src/packagedcode2/rubygems.py:255 | a word, a space and a collapsed string make a collapsed string |
| `PyStr.JoinHead` | src/packagedcode2/rubygems.py:255 | a join of several words is the first word, a space and the join of the rest |
| `PyStr.WordsOfWord` | src/packagedcode2/rubygems.py:255 | a word followed by whitespace splits off as the first word |
| `PyStr.SpaceIndexOfWord` | src/packagedcode2/rubygems.py:255 | the first whitespace after a word is right after it |
| `PyStr.StrLessIrreflexive` | src/packagedcode2/gemfile_lock.py:530 | no string sorts before itself |
| `PyStr.StrLessAsymmetric` | src/packagedcode2/gemfile_lock.py:530 | string order is asymmetric |
| `PyStr.StrLessTransitive` | src/packagedcode2/gemfile_lock.py:530 | string order is transitive |
| `PyStr.StrLessTotal` | src/packagedcode2/gemfile_lock.py:530 | any two distinct strings are ordered |
| `RubyGems.Get` | src/packagedcode2/rubygems.py:248-249 | `dict.get` gives the stored value, else the default |
| `RubyGems.IsGemFileExactly` | src/packagedcode2/rubygems.py:48-49 | a path is a gem file exactly when it is some stem followed by `.gem` or `.gemspec` |
| `RubyGems.FilterFields` | src/packagedcode2/rubygems.py:123-148 | exactly the known fields that were present remain, each with its value unchanged |
| `RubyGems.GetDownloadUrl` | src/packagedcode2/rubygems.py:187-188 | the URL is `https://rubygems.org/downloads/` followed by the file name |
| `RubyGems.GetDownloadUrlInjective` | src/packagedcode2/rubygems.py:187-188 | distinct file names give distinct URLs |
| `RubyGems.Normalize` | src/packagedcode2/rubygems.py:255 | `' '.join(s.split())` is collapsed and has the same words as `s` |
| `RubyGems.StripCollapsed` | src/packagedcode2/rubygems.py:256 | a collapsed text has nothing to strip |
| `RubyGems.Clean` | src/packagedcode2/rubygems.py:255-256 | the cleaned text is single-spaced, keeps the words of the input in order, and the final strip changes nothing |
| `RubyGems.DescribeStrings` | src/packagedcode2/rubygems.py:243-256 | for string fields the result never raises, keeps the words of the summary when it is strictly longer and of the description otherwise, single-spaced, with no whitespace at either end |
| `RubyGems.Strings` | src/packagedcode2/rubygems.py:264 | the texts of a list of strings, in order |
| `RubyGems.GetEmail` | src/packagedcode2/rubygems.py:258-265 | a missing email gives `''`; a non-list passes through; a list joins only when all its items are strings, and gives a string |
| `RubyGems.JoinCommaSpace` | src/packagedcode2/rubygems.py:264 | `', '.join` is `','.join` of the same items, each after the first led by a space |
| `RubyGems.Spaced` | src/packagedcode2/rubygems.py:264 | each item led by one space |
| `RubyGems.GetEmailRoundTrip` | src/packagedcode2/rubygems.py:258-265 | a list of comma-free addresses joins with `', '` and splits back to the same list |
| `RubyGems.SplitEmailsJoin` | src/packagedcode2/rubygems.py:264 | splitting the joined addresses at `', '` gives them back |
| `RubyGems.UnspaceAll` | src/packagedcode2/rubygems.py:264 | each piece with a leading space dropped, in order |
| `RubyGems.UnspaceSpaced` | src/packagedcode2/rubygems.py:264 | dropping the leading space of each spaced item gives the items back |
| `RubyGems.SplitEmailsOf` | src/packagedcode2/rubygems.py:264 | splitting at `', '` keeps the first comma-separated piece and drops a leading space of each later one |
| `RubyGems.SplitCommaSpace` | src/packagedcode2/rubygems.py:264 | the joined addresses split at commas into the first address and the others each led by a space |
| `RubyGems.LicensesOf` | src/packagedcode2/rubygems.py:268-270 | a missing entry gives `[]`, a list is kept, anything else is wrapped in a list |
| `RubyGems.MapLicense` | src/packagedcode2/rubygems.py:274 | the lookup fails exactly on an unhashable list or dict, and a key found comes from the table entry for that name |
| `RubyGems.MappedLicenses` | src/packagedcode2/rubygems.py:272-279 | every kept key is non-empty and is a value of the table; the loop raises exactly when some license is unhashable or is an unmapped name with a non-ASCII character, whose warning cannot be formatted |
| `RubyGems.MapLicenses` | src/packagedcode2/rubygems.py:267-279 | the result is `MappedLicenses` over `LICENSE_KEYS_MAPPING` and the wrapped licenses |
| `RubyGems.MapEach` | src/packagedcode2/rubygems.py:272-279 | the `for lic in licenses` loop computes `MappedLicenses` over the given table, stopping at the first unhashable license or the first unmapped non-ASCII name (`UnicodeEncodeError` from the warning) |
| `RubyGems.MappedLicensesStops` | src/packagedcode2/rubygems.py:273-276 | once a license raises, the rest does not matter |
| `RubyGems.MappedLicensesAppend` | src/packagedcode2/rubygems.py:273-276 | mapping a concatenation concatenates the results, so input order is kept |
| `RubyGems.MappedLicenseSingle` | src/packagedcode2/rubygems.py:274-276 | one name on which the loop does not raise gives its key when it maps to a truthy one, and nothing otherwise |
| `RubyGems.LicenseKeysLookups` | src/packagedcode2/rubygems.py:152-185 | `'None'` maps to nothing, `'Proprietary'` is absent and `'MIT'` maps to `mit` |
| `RubyGems.UnmappedLicensesDropped` | src/packagedcode2/rubygems.py:273-278 | an ASCII name (or non-string) with no truthy key is dropped and leaves the others in order |
| `RubyGems.UnmappedNonAsciiRaises` | src/packagedcode2/rubygems.py:273-278 | an unmapped name with a non-ASCII character makes the whole loop raise `UnicodeEncodeError`, whatever follows |
| `RubyGems.NonAsciiNameAbsent` | src/packagedcode2/rubygems.py:152-185 | `LICENSE_KEYS_MAPPING` has no entry for `Licen\u00e7a` |
| `RubyGems.NonAsciiLicenseRaises` | src/packagedcode2/rubygems.py:272-278 | `['MIT', 'Licen\u00e7a']` over `LICENSE_KEYS_MAPPING` raises `UnicodeEncodeError` |
| `RubyGems.Dedup` | src/packagedcode2/rubygems.py:234-238 | the deduplicated list has no duplicates and exactly the elements of the input |
| `RubyGems.AppendFresh` | src/packagedcode2/rubygems.py:236-237 | appending an absent item keeps a list duplicate-free |
| `RubyGems.FirstIndex` | src/packagedcode2/rubygems.py:235-237 | the first occurrence of an item |
| `RubyGems.FirstIndexPrefix` | src/packagedcode2/rubygems.py:235-237 | an item's first occurrence is found in any prefix that holds it |
| `RubyGems.FirstIndexUnique` | src/packagedcode2/rubygems.py:235-237 | an occurrence with no earlier one is the first |
| `RubyGems.NotInPrefix` | src/packagedcode2/rubygems.py:236 | an item absent from a prefix differs from each element of it |
| `RubyGems.DedupFirstOccurrenceOrder` | src/packagedcode2/rubygems.py:228-238 | the deduplicated items appear in the order of their first occurrences |
| `RubyGems.DedupNoDup` | src/packagedcode2/rubygems.py:234-238 | a list without duplicates is unchanged |
| `RubyGems.MakeUnique` | src/packagedcode2/rubygems.py:227-241 | the new spec has the same keys; list values are deduplicated and other values pass through |
| `RubyGems.UniqueItems` | src/packagedcode2/rubygems.py:234-238 | the append-if-absent loop computes `Dedup` |
| `RubyGems.MakeUniqueAsWritten` | src/packagedcode2/rubygems.py:232 | as written, iterating the bound method `self.spec.items` (not its result) always raises `TypeError`, since a method object is not iterable |
| `RubyGems.MakeUniqueAsWrittenFails` | src/packagedcode2/rubygems.py:227-241 | on a spec with a repeated author the code as written raises, where the intended algorithm keeps one author |

## Left out

- Text decoding (`analysis.unicode_text_lines`) is not part of this model. The lockfile is given as its sequence of lines.
- The messages printed when `print_errors` is set are recorded as a sequence of diagnostics. Their exact wording is not modelled.
- `Gem.urn`, `gem_name`, `flatten_urn`, `pformat` and `__repr__` rely on `commoncode.urn` or only format text for display. `commoncode.urn` is not part of this model.
- `GemSpec.as_dict`, `__str__` and `FIELD_MAPPING` only format or name data and are left out.
- `Gem.location` is never set in the parser, and the `gemfile_lock_location` argument of `refine` does nothing. Both are left out.
- The parser's `sources` and `specs` fields are never used and are left out.
- `LockGraph.GemFlatten`, `LockGraph.Flatten`, `LockParser.GemfileLockParser.Flatten`: edges are ordered by parent name, then child name, with `None` first. Python 2 orders `Gem` objects by type and address instead. Sortedness is stated for the name order, and uniqueness and edge membership for any order.
- `LockGraph.GemFlatten`, `LockGraph.AsNvTree`, `LockParser.GemfileLockParser.Flatten`: recursion is bounded by a `fuel` depth. With a cycle the source recurses without end, and the model then stops after `fuel` levels.
- `all_gems` is a map, so its `OrderedDict` insertion order is not modelled. Nothing in the core reads that order: `refine` treats each gem on its own.
- `RubyGems.FilterFields`: the source deletes keys from the caller's dict in place and returns it. The model returns the filtered map, so aliasing of the caller's dict is not captured.
- `get_spec`, `spec_defaults`, `get_specs`, `get_index` and the wiring in `GemSpec.__init__` run a Ruby script through `subprocess` and decode JSON. They are not part of this model; a spec is an input map.
- The logger warning of `map_licenses` for a name without a key is not logged; only its formatting is modelled, which raises `UnicodeEncodeError` (Python 2) for a name with a non-ASCII character. `self.filename` in that message is taken to format without error.
- `LockSteps.Step`, `LockSteps.Run`, `LockSteps.Parse`, `LockParser.GemfileLockParser.constructor`, `LockParser.GemfileLockParser.ParseLines`, `LockParser.GemfileLockParser.ParseLine`: these use the corrected `parse_dependency`. With `print_errors` set, which is the default, the source's `__init__` raises `KeyError` on a repeated declaration (gemfile_lock.py:492-496). That behaviour is modelled separately by `LockSteps.StepAsWritten`, `LockSteps.RunAsWritten` and `LockSteps.ParseAsWritten`, which are proved to agree with the corrected parse everywhere else.
- `RubyGems.Dedup`, `RubyGems.MakeUnique`: `item not in newlist` uses Python `==`, under which `True == 1` and `False == 0`. The model compares JSON values structurally, so for `[1, true]` it keeps both items where Python keeps only `1`. JSON reals are not modelled at all (`Json` has no real case), so `1 == 1.0`, under which Python keeps `1` and drops a later `1.0`, is not captured either. Python equality is not modelled here because it would also have to compare nested lists and dicts element by element.
- `RubyGems.MakeUnique`: the constructor discards the result of `make_unique` (rubygems.py:222). The model states the result and leaves that wiring out.
- `LockSteps.DependencyNode`: `parse_dependency` inserts each declared constraint at index 0 (gemfile_lock.py:503-507), so a line's constraints end up reversed ahead of the earlier ones, although the comment there calls them the main constraint. The model follows the code.

## Findings

| source | as written | input that shows it | evidently intended | confidence | as-written member | corrected member |
|---|---|---|---|---|---|---|
| src/packagedcode2/gemfile_lock.py:492-496 | the duplicate-declaration warning formats `%(version)r` from `locals()` before `version` is assigned, so it raises `KeyError` | `print_errors=True` and a `DEPENDENCIES` section listing `  rake` twice | print the warning and keep the first declaration | not executed | `LockSteps.HandleDependencyAsWritten` / `LockSteps.DuplicateDeclarationRaises` | `LockSteps.HandleDependency` / `LockSteps.DependencyState` |
| src/packagedcode2/rubygems.py:232 | `for key, value in self.spec.items:` iterates the bound method object instead of calling it, and a method object is not iterable, so it raises `TypeError` whatever the spec holds; `MakeUniqueAsWrittenFails` puts that beside the result of `MakeUnique` on the same spec | any spec, e.g. `{'authors': ['a', 'a']}` | iterate `self.spec.items()` and deduplicate each list value keeping first occurrences | not executed | `RubyGems.MakeUniqueAsWritten` / `RubyGems.MakeUniqueAsWrittenFails` | `RubyGems.MakeUnique` / `RubyGems.DedupFirstOccurrenceOrder` |
