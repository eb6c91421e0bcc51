/**
 * The line classifiers of a Gemfile.lock (src/packagedcode2/gemfile_lock.py,
 * `OPTIONS`/`get_option`, `NAME_VERSION`, `DEPS`, `SPEC_DEPS`,
 * `SPEC_SUB_DEPS` and `PLATS`), written as matchers over `seq<char>` that
 * return what the regular expressions capture. Python's `$` also matches
 * just before one final newline, and `.` does not match a newline; both are
 * modelled.
 */
module LockLines {
  import opened Wrappers
  import opened Gems
  import PyStr

  // ---------------------------------------------------------------------------
  // Option lines: `^  (?P<key>[a-z]+): (?P<value>.*)$`
  // ---------------------------------------------------------------------------

  predicate IsLower(c: char) { 'a' <= c <= 'z' }

  /** Length of the longest prefix of `s` made of `[a-z]`. */
  function LowerLen(s: string): (n: nat)
    ensures n <= |s|
    ensures forall i :: 0 <= i < n ==> IsLower(s[i])
    ensures n < |s| ==> !IsLower(s[n])
  {
    if s == [] || !IsLower(s[0]) then 0 else 1 + LowerLen(s[1..])
  }

  /** `.*$` against `s`: the captured text, when `s` has no newline except possibly a final one. */
  function MatchRestOfLine(s: string): (r: Option<string>)
    ensures r.Some? ==> '\n' !in r.value && (s == r.value || s == r.value + "\n")
    ensures '\n' !in s ==> r == Some(s)
    ensures |s| > 0 && s[|s| - 1] == '\n' && '\n' !in s[..|s| - 1] ==> r == Some(s[..|s| - 1])
  {
    var k := PyStr.IndexOf(s, '\n');
    if k + 1 >= |s| then (assert s == s[..k] || s == s[..k] + "\n"; Some(s[..k])) else None
  }

  /** The value of an option: an empty value is `None`, `true`/`false` are booleans. */
  function OptionValue(raw: string): (v: Option<Value>)
    ensures v.None? <==> raw == ""
    ensures v == Some(Bool(true)) <==> raw == "true"
    ensures v == Some(Bool(false)) <==> raw == "false"
    ensures v.Some? && v.value.Str? ==> v.value.s == raw
  {
    if raw == "" then None
    else if raw == "true" then Some(Bool(true))
    else if raw == "false" then Some(Bool(false))
    else Some(Str(raw))
  }

  /** `get_option`: the key and value of an option line; unknown keys give `(None, None)`. */
  function GetOption(s: string): (r: (Option<OptionKey>, Option<Value>))
    ensures r.0.None? ==> r.1.None?
    ensures r.0.Some? ==> |s| > 2 && s[..2] == "  "
  {
    if |s| < 2 || s[..2] != "  " then (None, None)
    else
      var n := LowerLen(s[2..]);
      var after := s[2 + n..];
      if n == 0 || |after| < 2 || after[..2] != ": " then (None, None)
      else match MatchRestOfLine(after[2..])
        case None => (None, None)
        case Some(raw) =>
          var key := KeyOf(s[2..2 + n]);
          if key.Some? then (key, OptionValue(raw)) else (None, None)
  }

  /** An option line as Bundler writes it. */
  function OptionLine(key: string, raw: string): string {
    "  " + key + ": " + raw
  }

  /** Reading back an option line gives its key, if supported, and its coerced value. */
  lemma GetOptionLine(key: string, raw: string)
    requires key != [] && forall i :: 0 <= i < |key| ==> IsLower(key[i])
    requires '\n' !in raw
    ensures GetOption(OptionLine(key, raw)) ==
              if KeyOf(key).Some? then (KeyOf(key), OptionValue(raw)) else (None, None)
  {
    var s := OptionLine(key, raw);
    assert s[..2] == "  ";
    assert s[2..] == key + (": " + raw);
    LowerLenPrefix(key, ": " + raw);
    var n := LowerLen(s[2..]);
    assert n == |key|;
    var after := s[2 + n..];
    assert after == ": " + raw;
    assert after[..2] == ": " && after[2..] == raw;
    assert MatchRestOfLine(after[2..]) == Some(raw);
    assert s[2..2 + n] == key;
  }

  lemma {:induction false} LowerLenPrefix(w: string, rest: string)
    requires forall i :: 0 <= i < |w| ==> IsLower(w[i])
    requires rest != [] && !IsLower(rest[0])
    ensures LowerLen(w + rest) == |w|
  {
    if w != [] {
      assert (w + rest)[1..] == w[1..] + rest;
      LowerLenPrefix(w[1..], rest);
    }
  }

  /** Any option line that yields a key is an option line of that key, possibly newline-terminated. */
  lemma GetOptionInverse(s: string)
    requires GetOption(s).0.Some?
    ensures exists raw :: '\n' !in raw && GetOption(s).1 == OptionValue(raw)
                          && (s == OptionLine(GetOption(s).0.value.Spelling(), raw) || s == OptionLine(GetOption(s).0.value.Spelling(), raw) + "\n")
  {
    var raw := OptionRawOf(s);
  }

  lemma OptionRawOf(s: string) returns (raw: string)
    requires GetOption(s).0.Some?
    ensures '\n' !in raw && GetOption(s).1 == OptionValue(raw)
    ensures s == OptionLine(GetOption(s).0.value.Spelling(), raw) || s == OptionLine(GetOption(s).0.value.Spelling(), raw) + "\n"
  {
    var n := OptionShape(s);
    var key := s[2..2 + n];
    var text := s[2 + n + 2..];
    raw := MatchRestOfLine(text).value;
    OptionSplit(s, n);
    assert s == OptionLine(key, text);
    if text != raw {
      assert text == raw + "\n";
      assert OptionLine(key, text) == OptionLine(key, raw) + "\n";
    }
  }

  /** The parts `get_option` found in a line it accepted. */
  lemma OptionShape(s: string) returns (n: nat)
    requires GetOption(s).0.Some?
    ensures |s| >= 2 + n + 2 && s[..2] == "  " && s[2 + n..2 + n + 2] == ": "
    ensures GetOption(s).0.value.Spelling() == s[2..2 + n]
    ensures MatchRestOfLine(s[2 + n + 2..]).Some?
    ensures GetOption(s).1 == OptionValue(MatchRestOfLine(s[2 + n + 2..]).value)
  {
    n := LowerLen(s[2..]);
    var after := s[2 + n..];
    assert after[..2] == s[2 + n..2 + n + 2];
    assert after[2..] == s[2 + n + 2..];
  }

  lemma OptionSplit(s: string, n: nat)
    requires |s| >= 2 + n + 2 && s[..2] == "  " && s[2 + n..2 + n + 2] == ": "
    ensures s == OptionLine(s[2..2 + n], s[2 + n + 2..])
  {
    assert s == s[..2] + s[2..2 + n] + s[2 + n..2 + n + 2] + s[2 + n + 2..];
  }

  // ---------------------------------------------------------------------------
  // Name/version entries: `(?! )(?P<name>[^ (),!:]+)?(?: \((?P<version>[^-]*)(?:-(?P<platform>[^!]*))?\))?`
  // ---------------------------------------------------------------------------

  /** What `NAME_VERSION` captures; a group that did not participate is `None`. */
  datatype NameVersion = NameVersion(name: Option<string>, version: Option<string>, platform: Option<string>)

  /** A `DEPS` match: a name/version and whether the trailing `!` was present. */
  datatype Entry = Entry(nv: NameVersion, pinned: bool)

  predicate IsNameChar(c: char) {
    c != ' ' && c != '(' && c != ')' && c != ',' && c != '!' && c != ':'
  }

  /** Length of the longest prefix of `s` made of name characters. */
  function NameLen(s: string): (n: nat)
    ensures n <= |s|
    ensures forall i :: 0 <= i < n ==> IsNameChar(s[i])
    ensures n < |s| ==> !IsNameChar(s[n])
  {
    if s == [] || !IsNameChar(s[0]) then 0 else 1 + NameLen(s[1..])
  }

  /** `(?P<version>[^-]*)(?:-(?P<platform>[^!]*))?` against the whole of `x`. */
  function MatchVersion(x: string): Option<(string, Option<string>)>
  {
    var k := PyStr.IndexOf(x, '-');
    if k == |x| then Some((x, None))
    else if '!' in x[k + 1..] then None
    else Some((x[..k], Some(x[k + 1..])))
  }

  /** What follows the name: an optional ` (version[-platform])`, an optional `!`, then the end. */
  function MatchTail(r: string, pinAllowed: bool): Option<(Option<string>, Option<string>, bool)>
  {
    var pinned := pinAllowed && |r| > 0 && r[|r| - 1] == '!';
    var body := if pinned then r[..|r| - 1] else r;
    if body == "" then Some((None, None, pinned))
    else if |body| >= 3 && body[..2] == " (" && body[|body| - 1] == ')' then
      match MatchVersion(body[2..|body| - 1])
      case None => None
      case Some(vp) => Some((Some(vp.0), vp.1, pinned))
    else None
  }

  /** The entry grammar anchored at the very end of `s`. */
  function MatchEntryExact(s: string, pinAllowed: bool): Option<Entry>
  {
    if |s| > 0 && s[0] == ' ' then None
    else
      var n := NameLen(s);
      var name := if n == 0 then None else Some(s[..n]);
      match MatchTail(s[n..], pinAllowed)
      case None => None
      case Some(t) => Some(Entry(NameVersion(name, t.0, t.1), t.2))
  }

  /**
   * The entry grammar followed by `$`. A final newline can only be consumed by
   * the name group, so a match that fails on all of `s` is retried without it.
   */
  function MatchEntry(s: string, pinAllowed: bool): Option<Entry>
  {
    var m := MatchEntryExact(s, pinAllowed);
    if m.Some? then m
    else if |s| > 0 && s[|s| - 1] == '\n' then MatchEntryExact(s[..|s| - 1], pinAllowed)
    else None
  }

  /** `DEPS`: a top-level dependency, indented by two spaces, possibly pinned. */
  function MatchDeps(line: string): Option<Entry>
  {
    if |line| >= 2 && line[..2] == "  " then MatchEntry(line[2..], true) else None
  }

  /** `SPEC_DEPS`: a spec entry, indented by four spaces. */
  function MatchSpecDeps(line: string): Option<NameVersion>
  {
    if |line| >= 4 && line[..4] == "    " then
      match MatchEntry(line[4..], false)
      case None => None
      case Some(e) => Some(e.nv)
    else None
  }

  /** `SPEC_SUB_DEPS`: a dependency of the open spec entry, indented by six spaces. */
  function MatchSpecSubDeps(line: string): Option<NameVersion>
  {
    if |line| >= 6 && line[..6] == "      " then
      match MatchEntry(line[6..], false)
      case None => None
      case Some(e) => Some(e.nv)
    else None
  }

  /** `PLATS`: two spaces then anything. */
  function MatchPlats(line: string): (r: Option<string>)
    ensures r.Some? ==> |line| >= 2 && line[..2] == "  " && (line[2..] == r.value || line[2..] == r.value + "\n")
  {
    if |line| >= 2 && line[..2] == "  " then MatchRestOfLine(line[2..]) else None
  }

  // ---------------------------------------------------------------------------
  // Entries as Bundler writes them, and the round trip through the matchers.
  // ---------------------------------------------------------------------------

  /** A name/version that `NAME_VERSION` can produce. */
  predicate WellFormedEntry(nv: NameVersion) {
    && (nv.name.Some? ==> nv.name.value != [] && forall i :: 0 <= i < |nv.name.value| ==> IsNameChar(nv.name.value[i]))
    && (nv.version.Some? ==> nv.name.Some? && '-' !in nv.version.value)
    && (nv.platform.Some? ==> nv.version.Some? && '!' !in nv.platform.value)
  }

  /** ` (version-platform)`, or nothing when there is no version. */
  function RenderVersion(nv: NameVersion): string {
    if nv.version.Some? then
      " (" + nv.version.value + (if nv.platform.Some? then "-" + nv.platform.value else "") + ")"
    else ""
  }

  /** The part of an entry after its name. */
  function RenderTail(nv: NameVersion, pinned: bool): string {
    RenderVersion(nv) + (if pinned then "!" else "")
  }

  /** `name (version-platform)` followed by `!` when pinned. */
  function RenderEntry(nv: NameVersion, pinned: bool): string {
    nv.name.GetOr("") + RenderTail(nv, pinned)
  }

  lemma {:induction false} NameLenPrefix(w: string, rest: string)
    requires forall i :: 0 <= i < |w| ==> IsNameChar(w[i])
    requires rest == [] || !IsNameChar(rest[0])
    ensures NameLen(w + rest) == |w|
  {
    if w != [] {
      assert (w + rest)[1..] == w[1..] + rest;
      NameLenPrefix(w[1..], rest);
    }
  }

  lemma MatchVersionRender(v: string, p: Option<string>)
    requires '-' !in v
    requires p.Some? ==> '!' !in p.value
    ensures MatchVersion(v + (if p.Some? then "-" + p.value else "")) == Some((v, p))
  {
    var x := v + (if p.Some? then "-" + p.value else "");
    if p.Some? {
      PyStr.IndexOfPrefix(v, '-', p.value);
      assert x == v + ['-'] + p.value;
      assert x[..|v|] == v && x[|v| + 1..] == p.value;
    } else {
      PyStr.IndexOfPrefix(v, '-', []);
      assert x == v;
    }
  }

  lemma MatchTailRender(nv: NameVersion, pinned: bool, pinAllowed: bool)
    requires WellFormedEntry(nv) && (pinned ==> pinAllowed)
    ensures MatchTail(RenderTail(nv, pinned), pinAllowed) == Some((nv.version, nv.platform, pinned))
  {
    var r := RenderTail(nv, pinned);
    var body := RenderVersion(nv);
    assert r == body + (if pinned then "!" else "");
    if pinned {
      assert r[..|r| - 1] == body;
    }
    if nv.version.Some? {
      var x := nv.version.value + (if nv.platform.Some? then "-" + nv.platform.value else "");
      assert body == " (" + x + ")";
      assert |body| >= 3 && body[..2] == " (" && body[|body| - 1] == ')';
      assert body[2..|body| - 1] == x;
      assert !pinned ==> r == body && r[|r| - 1] == ')';
      assert (pinAllowed && |r| > 0 && r[|r| - 1] == '!') == pinned;
      MatchVersionRender(nv.version.value, nv.platform);
    }
  }

  /** A well-formed entry, written out, is matched back to itself. */
  lemma MatchEntryRender(nv: NameVersion, pinned: bool, pinAllowed: bool)
    requires WellFormedEntry(nv) && (pinned ==> pinAllowed)
    ensures MatchEntryExact(RenderEntry(nv, pinned), pinAllowed) == Some(Entry(nv, pinned))
    ensures MatchEntry(RenderEntry(nv, pinned), pinAllowed) == Some(Entry(nv, pinned))
  {
    var s := RenderEntry(nv, pinned);
    var t := RenderTail(nv, pinned);
    var w := nv.name.GetOr("");
    assert s == w + t;
    assert t == [] || t[0] == ' ' || t[0] == '!';
    NameLenPrefix(w, t);
    assert s[..|w|] == w && s[|w|..] == t;
    MatchTailRender(nv, pinned, pinAllowed);
  }

  lemma MatchVersionInverse(x: string)
    requires MatchVersion(x).Some?
    ensures var vp := MatchVersion(x).value;
      && '-' !in vp.0 && (vp.1.Some? ==> '!' !in vp.1.value)
      && x == vp.0 + (if vp.1.Some? then "-" + vp.1.value else "")
  {
    var k := PyStr.IndexOf(x, '-');
    if k < |x| {
      assert x == x[..k] + "-" + x[k + 1..];
    }
  }

  lemma BodyInverse(body: string)
    requires |body| >= 3 && body[..2] == " (" && body[|body| - 1] == ')'
    requires MatchVersion(body[2..|body| - 1]).Some?
    ensures var vp := MatchVersion(body[2..|body| - 1]).value;
      && '-' !in vp.0 && (vp.1.Some? ==> '!' !in vp.1.value)
      && RenderVersion(NameVersion(None, Some(vp.0), vp.1)) == body
  {
    var x := body[2..|body| - 1];
    assert body == " (" + x + ")";
    MatchVersionInverse(x);
    RenderVersionOf(x);
  }

  lemma RenderVersionOf(x: string)
    requires MatchVersion(x).Some?
    ensures var vp := MatchVersion(x).value;
      RenderVersion(NameVersion(None, Some(vp.0), vp.1)) == " (" + x + ")"
  {
    var vp := MatchVersion(x).value;
    MatchVersionInverse(x);
    var suffix := if vp.1.Some? then "-" + vp.1.value else "";
    assert x == vp.0 + suffix;
  }

  lemma MatchTailInverse(r: string, pinAllowed: bool)
    requires MatchTail(r, pinAllowed).Some?
    ensures var t := MatchTail(r, pinAllowed).value;
      && (t.1.Some? ==> t.0.Some? && '!' !in t.1.value)
      && (t.0.Some? ==> '-' !in t.0.value)
      && (t.2 ==> pinAllowed)
      && RenderTail(NameVersion(None, t.0, t.1), t.2) == r
      && (r != [] ==> r[0] == ' ' || r[0] == '!')
      && (r != [] && r[0] == ' ' ==> t.0.Some?)
  {
    var t := MatchTail(r, pinAllowed).value;
    var pinned := pinAllowed && |r| > 0 && r[|r| - 1] == '!';
    var body := if pinned then r[..|r| - 1] else r;
    assert t.2 == pinned;
    assert r == body + (if pinned then "!" else "");
    if body != "" {
      BodyInverse(body);
    }
  }

  /** Whatever the entry grammar matches is the written form of a well-formed entry. */
  lemma MatchEntryExactInverse(s: string, pinAllowed: bool)
    requires MatchEntryExact(s, pinAllowed).Some?
    ensures var e := MatchEntryExact(s, pinAllowed).value;
      WellFormedEntry(e.nv) && (e.pinned ==> pinAllowed) && RenderEntry(e.nv, e.pinned) == s
  {
    var n := NameLen(s);
    var r := s[n..];
    var t := MatchTail(r, pinAllowed).value;
    var name := if n == 0 then None else Some(s[..n]);
    assert MatchEntryExact(s, pinAllowed) == Some(Entry(NameVersion(name, t.0, t.1), t.2));
    MatchTailInverse(r, pinAllowed);
    if n == 0 {
      assert r == s;
    } else {
      assert s == s[..n] + r;
    }
    EntryOfParts(name, r, t.0, t.1, t.2, pinAllowed);
  }

  /** A name followed by a tail that `MatchTail` read back is a well-formed entry written out. */
  lemma EntryOfParts(name: Option<string>, r: string, version: Option<string>, platform: Option<string>,
                     pinned: bool, pinAllowed: bool)
    requires name.Some? ==> name.value != [] && forall i :: 0 <= i < |name.value| ==> IsNameChar(name.value[i])
    requires platform.Some? ==> version.Some? && '!' !in platform.value
    requires version.Some? ==> '-' !in version.value
    requires pinned ==> pinAllowed
    requires RenderTail(NameVersion(None, version, platform), pinned) == r
    requires name.None? ==> r == [] || r[0] != ' '
    requires r != [] && r[0] == ' ' ==> version.Some?
    ensures WellFormedEntry(NameVersion(name, version, platform))
    ensures RenderEntry(NameVersion(name, version, platform), pinned) == name.GetOr("") + r
  {
    var nv := NameVersion(name, version, platform);
    assert RenderTail(nv, pinned) == RenderTail(NameVersion(None, version, platform), pinned);
    if version.Some? {
      assert r[0] == ' ';
    }
  }

  /** When only the retry matched, the line ends in the newline that `$` allows. */
  lemma MatchEntryRetry(s: string, pinAllowed: bool)
    requires MatchEntry(s, pinAllowed).Some? && MatchEntryExact(s, pinAllowed).None?
    ensures |s| > 0 && s == s[..|s| - 1] + "\n"
    ensures MatchEntry(s, pinAllowed) == MatchEntryExact(s[..|s| - 1], pinAllowed)
  {
  }

  /** Whatever `$`-anchored matching accepts is an entry, written out, with at most one final newline. */
  lemma MatchEntryInverse(s: string, pinAllowed: bool)
    requires MatchEntry(s, pinAllowed).Some?
    ensures var e := MatchEntry(s, pinAllowed).value;
      && WellFormedEntry(e.nv) && (e.pinned ==> pinAllowed)
      && (s == RenderEntry(e.nv, e.pinned) || s == RenderEntry(e.nv, e.pinned) + "\n")
  {
    if MatchEntryExact(s, pinAllowed).Some? {
      MatchEntryExactInverse(s, pinAllowed);
    } else {
      MatchEntryRetry(s, pinAllowed);
      MatchEntryExactInverse(s[..|s| - 1], pinAllowed);
    }
  }

  /** A top-level dependency line as Bundler writes it is read back exactly. */
  lemma MatchDepsRender(nv: NameVersion, pinned: bool)
    requires WellFormedEntry(nv)
    ensures MatchDeps("  " + RenderEntry(nv, pinned)) == Some(Entry(nv, pinned))
  {
    MatchEntryRender(nv, pinned, true);
    assert ("  " + RenderEntry(nv, pinned))[2..] == RenderEntry(nv, pinned);
  }

  /** Every line `DEPS` accepts is a written top-level dependency. */
  lemma MatchDepsInverse(line: string)
    requires MatchDeps(line).Some?
    ensures var e := MatchDeps(line).value;
      && WellFormedEntry(e.nv)
      && (line == "  " + RenderEntry(e.nv, e.pinned) || line == "  " + RenderEntry(e.nv, e.pinned) + "\n")
  {
    var rest := line[2..];
    var e := MatchEntry(rest, true).value;
    assert MatchDeps(line) == Some(e);
    MatchEntryInverse(rest, true);
    Indented(line, "  ", RenderEntry(e.nv, e.pinned));
  }

  /** A line made of an indentation and a text, possibly newline-terminated. */
  lemma Indented(line: string, indent: string, text: string)
    requires |indent| <= |line| && line[..|indent|] == indent
    requires line[|indent|..] == text || line[|indent|..] == text + "\n"
    ensures line == indent + text || line == indent + text + "\n"
  {
    assert line == indent + line[|indent|..];
  }

  /** A spec entry as Bundler writes it is read back exactly. */
  lemma MatchSpecDepsRender(nv: NameVersion)
    requires WellFormedEntry(nv)
    ensures MatchSpecDeps("    " + RenderEntry(nv, false)) == Some(nv)
    ensures MatchSpecSubDeps("    " + RenderEntry(nv, false)).None?
  {
    MatchEntryRender(nv, false, false);
    var text := RenderEntry(nv, false);
    var line := "    " + text;
    assert line[..4] == "    " && line[4..] == text;
    if nv.name.Some? {
      assert line[4] == nv.name.value[0] != ' ';
      assert |line| < 6 || line[..6] != "      ";
    } else {
      assert text == "";
      assert |line| == 4;
    }
  }

  /** A spec sub-dependency as Bundler writes it is read back exactly, and is not a spec entry. */
  lemma MatchSpecSubDepsRender(nv: NameVersion)
    requires WellFormedEntry(nv)
    ensures MatchSpecSubDeps("      " + RenderEntry(nv, false)) == Some(nv)
    ensures MatchSpecDeps("      " + RenderEntry(nv, false)).None?
  {
    MatchEntryRender(nv, false, false);
    var line := "      " + RenderEntry(nv, false);
    assert line[6..] == RenderEntry(nv, false);
    MatchEntryLeadingSpace(line[4..], false);
  }

  /** The `(?! )` lookahead: an entry never starts with a space. */
  lemma MatchEntryLeadingSpace(s: string, pinAllowed: bool)
    requires |s| > 0 && s[0] == ' '
    ensures MatchEntry(s, pinAllowed).None?
  {
    if |s| > 1 {
      assert s[..|s| - 1][0] == ' ';
    }
  }

  /** Every line `SPEC_DEPS` or `SPEC_SUB_DEPS` accepts carries a name unless it is blank after its indentation. */
  lemma SpecEntryHasName(line: string)
    requires |line| > 0 && !PyStr.IsSpace(line[|line| - 1])
    ensures MatchSpecDeps(line).Some? ==> MatchSpecDeps(line).value.name.Some?
    ensures MatchSpecSubDeps(line).Some? ==> MatchSpecSubDeps(line).value.name.Some?
  {
    if MatchSpecDeps(line).Some? {
      IndentedEntryHasName(line, 4);
    }
    if MatchSpecSubDeps(line).Some? {
      IndentedEntryHasName(line, 6);
    }
  }

  /** An entry matched after `k` spaces of indentation, in a line not ending in blank, has a name. */
  lemma IndentedEntryHasName(line: string, k: nat)
    requires |line| > k && !PyStr.IsSpace(line[|line| - 1])
    requires MatchEntry(line[k..], false).Some?
    ensures MatchEntry(line[k..], false).value.nv.name.Some?
  {
    var rest := line[k..];
    MatchEntryInverse(rest, false);
    var e := MatchEntry(rest, false).value;
    assert rest[|rest| - 1] == line[|line| - 1];
  }
}
