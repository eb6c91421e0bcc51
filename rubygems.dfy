/**
 * The RubyGems spec helpers of src/packagedcode2/rubygems.py. A gem spec is
 * the dict decoded from the JSON a Ruby script prints; here it is a map from
 * field names to JSON values, given as input. The `GemSpec` methods only read
 * `self.spec`, so each is modelled on that map.
 */
module RubyGems {
  import opened Wrappers
  import PyStr

  /** A decoded JSON value. */
  datatype Json =
    | JNull
    | JBool(b: bool)
    | JNum(n: int)
    | JStr(s: string)
    | JList(items: seq<Json>)
    | JObject(fields: map<string, Json>)

  /** A gem spec dict. */
  type Spec = map<string, Json>

  /** The Python exceptions the helpers can raise on ill-typed spec values. */
  datatype PyError = TypeError | AttributeError | UnicodeEncodeError

  /** `dict.get(key, default)`. */
  function Get(spec: Spec, key: string, default: Json): (v: Json)
    ensures key in spec ==> v == spec[key]
    ensures key !in spec ==> v == default
  {
    if key in spec then spec[key] else default
  }

  // ---------------------------------------------------------------------------
  // is_gem_file
  // ---------------------------------------------------------------------------

  /** `s.endswith(suffix)`. */
  predicate EndsWith(s: string, suffix: string) {
    |suffix| <= |s| && s[|s| - |suffix|..] == suffix
  }

  /** `is_gem_file`: the path ends with `.gem` or `.gemspec`. */
  predicate IsGemFile(path: string) {
    EndsWith(path, ".gem") || EndsWith(path, ".gemspec")
  }

  /** A path is a gem file exactly when it is some stem followed by `.gem` or `.gemspec`. */
  lemma IsGemFileExactly(path: string)
    ensures IsGemFile(path) <==> exists stem :: path == stem + ".gem" || path == stem + ".gemspec"
  {
    if EndsWith(path, ".gem") {
      assert path == path[..|path| - 4] + ".gem";
    } else if EndsWith(path, ".gemspec") {
      assert path == path[..|path| - 8] + ".gemspec";
    }
    if exists stem :: path == stem + ".gem" || path == stem + ".gemspec" {
      var stem :| path == stem + ".gem" || path == stem + ".gemspec";
      if path == stem + ".gem" {
        assert path[|path| - 4..] == ".gem";
      } else {
        assert path[|path| - 8..] == ".gemspec";
      }
    }
  }

  // ---------------------------------------------------------------------------
  // filter_fields
  // ---------------------------------------------------------------------------

  /** `known_fields`. */
  const KnownFields: set<string> := {
    "authors", "date", "dependencies", "description", "email", "files", "homepage",
    "licenses", "name", "requirements", "summary", "version", "test_files"
  }

  /**
   * `filter_fields`: delete every key that is not a known field. Exactly the
   * known keys that were present remain, with their values.
   */
  method FilterFields(gem: Spec) returns (r: Spec)
    ensures r.Keys == gem.Keys * KnownFields
    ensures forall k :: k in r ==> r[k] == gem[k]
  {
    r := gem;
    var unsupportedFields := gem.Keys - KnownFields;
    while unsupportedFields != {}
      invariant unsupportedFields <= gem.Keys - KnownFields
      invariant r.Keys == gem.Keys * KnownFields + unsupportedFields
      invariant forall k :: k in r ==> r[k] == gem[k]
      decreases unsupportedFields
    {
      var f :| f in unsupportedFields;
      r := r - {f};
      unsupportedFields := unsupportedFields - {f};
    }
  }

  // ---------------------------------------------------------------------------
  // LICENSE_KEYS_MAPPING and get_download_url
  // ---------------------------------------------------------------------------

  /** `LICENSE_KEYS_MAPPING`: a spec's license name to a license key, `'None'` to nothing. */
  const LicenseKeysMapping: map<string, Option<string>> := map[
    "None" := None,
    "Apache 2.0" := Some("apache-2.0"),
    "Apache License 2.0" := Some("apache-2.0"),
    "Apache-2.0" := Some("apache-2.0"),
    "Apache" := Some("apache-2.0"),
    "GPL" := Some("gpl-2.0"),
    "GPL-2" := Some("gpl-2.0"),
    "GNU GPL v2" := Some("gpl-2.0"),
    "GPLv2+" := Some("gpl-2.0-plus"),
    "GPLv2" := Some("gpl-2.0"),
    "GPLv3" := Some("gpl-3.0"),
    "MIT" := Some("mit"),
    "Ruby" := Some("ruby"),
    "same as ruby" := Some("ruby"),
    "same as ruby's" := Some("ruby"),
    "Ruby 1.8" := Some("ruby"),
    "Artistic 2.0" := Some("artistic-2.0"),
    "Perl Artistic v2" := Some("artistic-2.0"),
    "2-clause BSDL" := Some("bsd-simplified"),
    "BSD" := Some("bsd-new"),
    "BSD-3" := Some("bsd-new"),
    "ISC" := Some("isc"),
    "SIL Open Font License" := Some("ofl-1.0"),
    "New Relic" := Some("new-relic"),
    "GPL2" := Some("gpl-2.0"),
    "BSD-2-Clause" := Some("bsd-simplified"),
    "BSD 2-Clause" := Some("bsd-simplified"),
    "LGPL-3" := Some("lgpl-3.0"),
    "LGPL-2.1+" := Some("lgpl-2.1-plus"),
    "LGPLv2.1+" := Some("lgpl-2.1-plus"),
    "LGPL" := Some("lgpl"),
    "Unlicense" := Some("unlicense")
  ]

  const DownloadsPrefix: string := "https://rubygems.org/downloads/"

  /** `get_download_url`: the file name appended to the RubyGems downloads URL. */
  function GetDownloadUrl(gemFilename: string): (url: string)
    ensures |url| == |DownloadsPrefix| + |gemFilename|
    ensures url[..|DownloadsPrefix|] == DownloadsPrefix
    ensures url[|DownloadsPrefix|..] == gemFilename
  {
    DownloadsPrefix + gemFilename
  }

  /** Distinct file names give distinct URLs: the file name is recovered from its URL. */
  lemma GetDownloadUrlInjective(a: string, b: string)
    requires GetDownloadUrl(a) == GetDownloadUrl(b)
    ensures a == b
  {
    calc {
      a;
      GetDownloadUrl(a)[|DownloadsPrefix|..];
      GetDownloadUrl(b)[|DownloadsPrefix|..];
      b;
    }
  }

  // ---------------------------------------------------------------------------
  // GemSpec.get_description
  // ---------------------------------------------------------------------------

  /** `len(v)`; `None` where Python raises `TypeError`. */
  function Len(v: Json): Option<nat>
  {
    match v
    case JStr(s) => Some(|s|)
    case JList(items) => Some(|items|)
    case JObject(fields) => Some(|fields|)
    case _ => None
  }

  /** `' '.join(s.split())`: the words of `s`, single-spaced. */
  function Normalize(s: string): (r: string)
    ensures PyStr.Collapsed(r)
    ensures PyStr.Words(r) == PyStr.Words(s)
  {
    PyStr.WordsAreWords(s);
    PyStr.JoinWordsCollapsed(PyStr.Words(s));
    PyStr.WordsJoin(PyStr.Words(s));
    PyStr.Join(" ", PyStr.Words(s))
  }

  /**
   * `' '.join(content.split()).strip()`: the words of `content`,
   * single-spaced; the final `strip` has nothing left to remove.
   */
  function Clean(content: string): (r: string)
    ensures r == Normalize(content)
    ensures PyStr.Collapsed(r) && PyStr.Words(r) == PyStr.Words(content)
  {
    StripCollapsed(Normalize(content));
    PyStr.Strip(Normalize(content))
  }

  /** A collapsed string has nothing to strip. */
  lemma StripCollapsed(s: string)
    requires PyStr.Collapsed(s)
    ensures PyStr.Strip(s) == s
  {
    if s != [] {
      assert !PyStr.IsSpace(s[0]) && !PyStr.IsSpace(s[|s| - 1]);
    }
    PyStr.StripTrimmed(s);
  }

  /**
   * `get_description` on the spec's `description` and `summary`, each
   * defaulting to `''`.
   */
  function GetDescription(spec: Spec): (r: Result<string, PyError>)
  {
    Describe(Get(spec, "description", JStr("")), Get(spec, "summary", JStr("")))
  }

  /**
   * The body of `get_description`: the summary when it is strictly longer
   * than the description, else the description, with its whitespace
   * collapsed and stripped. `len` of a value without a length raises
   * `TypeError`, and `split` of a non-string raises `AttributeError`.
   */
  function Describe(description: Json, summary: Json): (r: Result<string, PyError>)
  {
    if Len(summary).None? || Len(description).None? then Failure(TypeError)
    else
      var content := if Len(summary).value > Len(description).value then summary else description;
      if content.JStr? then Success(Clean(content.s))
      else Failure(AttributeError)
  }

  /**
   * For string fields, the description keeps the words of the summary when
   * the summary is strictly longer and those of the description otherwise,
   * in order, separated by single spaces, with no whitespace at either end.
   */
  lemma DescribeStrings(description: string, summary: string)
    ensures Describe(JStr(description), JStr(summary)).Success?
    ensures var chosen := if |summary| > |description| then summary else description;
      PyStr.Words(Describe(JStr(description), JStr(summary)).value) == PyStr.Words(chosen)
    ensures PyStr.Collapsed(Describe(JStr(description), JStr(summary)).value)
  {
    assert Len(JStr(description)) == Some(|description|);
    assert Len(JStr(summary)) == Some(|summary|);
  }

  // ---------------------------------------------------------------------------
  // GemSpec.get_email
  // ---------------------------------------------------------------------------

  predicate AllStrings(items: seq<Json>) {
    forall i :: 0 <= i < |items| ==> items[i].JStr?
  }

  function Strings(items: seq<Json>): (r: seq<string>)
    requires AllStrings(items)
    ensures |r| == |items| && forall i :: 0 <= i < |items| ==> r[i] == items[i].s
  {
    seq(|items|, i requires 0 <= i < |items| => items[i].s)
  }

  /**
   * `get_email`: a list of addresses joined with `', '`; any other value as
   * it is; `''` when there is none. Joining a non-string raises `TypeError`.
   */
  function GetEmail(spec: Spec): (r: Result<Json, PyError>)
    ensures "email" !in spec ==> r == Success(JStr(""))
    ensures "email" in spec && !spec["email"].JList? ==> r == Success(spec["email"])
    ensures "email" in spec && spec["email"].JList? ==>
              (r.Success? <==> AllStrings(spec["email"].items)) && (r.Success? ==> r.value.JStr?)
  {
    var email := Get(spec, "email", JStr(""));
    if email.JList? then
      if AllStrings(email.items) then Success(JStr(PyStr.Join(", ", Strings(email.items))))
      else Failure(TypeError)
    else Success(email)
  }

  /** The addresses of a joined string: split at commas, dropping the space after each comma. */
  function SplitEmails(s: string): (r: seq<string>)
  {
    var parts := PyStr.Split(s, ',');
    [parts[0]] + UnspaceAll(parts[1..])
  }

  function Unspace(p: string): string {
    if |p| > 0 && p[0] == ' ' then p[1..] else p
  }

  function UnspaceAll(ps: seq<string>): (r: seq<string>)
    ensures |r| == |ps| && forall i :: 0 <= i < |ps| ==> r[i] == Unspace(ps[i])
  {
    if ps == [] then [] else [Unspace(ps[0])] + UnspaceAll(ps[1..])
  }

  /** `', '.join(xs)` is `','.join` of the same pieces, each after the first led by a space. */
  lemma {:induction false} JoinCommaSpace(xs: seq<string>)
    requires |xs| >= 1
    ensures PyStr.Join(", ", xs) == PyStr.Join([','], [xs[0]] + Spaced(xs[1..]))
  {
    if |xs| > 1 {
      JoinCommaSpace(xs[1..]);
      var t := Spaced(xs[2..]);
      assert Spaced(xs[1..]) == [" " + xs[1]] + t;
      assert xs[1..][1..] == xs[2..];
      if |xs| > 2 {
        PyStr.JoinCons([','], xs[1], t);
        PyStr.JoinCons([','], " " + xs[1], t);
      }
      PyStr.JoinCons([','], xs[0], [" " + xs[1]] + t);
      PyStr.JoinCons(", ", xs[0], xs[1..]);
    }
  }

  function Spaced(xs: seq<string>): (r: seq<string>)
    ensures |r| == |xs| && forall i :: 0 <= i < |xs| ==> r[i] == " " + xs[i]
  {
    if xs == [] then [] else [" " + xs[0]] + Spaced(xs[1..])
  }

  /**
   * A non-empty list of addresses without commas is recovered from the
   * string `get_email` joins it into.
   */
  lemma GetEmailRoundTrip(spec: Spec, emails: seq<string>)
    requires |emails| >= 1 && forall i :: 0 <= i < |emails| ==> ',' !in emails[i]
    requires "email" in spec && spec["email"] == JList(seq(|emails|, i requires 0 <= i < |emails| => JStr(emails[i])))
    ensures GetEmail(spec) == Success(JStr(PyStr.Join(", ", emails)))
    ensures SplitEmails(PyStr.Join(", ", emails)) == emails
  {
    assert Strings(spec["email"].items) == emails;
    SplitEmailsJoin(emails);
  }

  lemma SplitEmailsJoin(emails: seq<string>)
    requires |emails| >= 1 && forall i :: 0 <= i < |emails| ==> ',' !in emails[i]
    ensures SplitEmails(PyStr.Join(", ", emails)) == emails
  {
    var joined := PyStr.Join(", ", emails);
    var pieces := SplitCommaSpace(emails);
    assert pieces[1..] == Spaced(emails[1..]);
    UnspaceSpaced(emails[1..]);
    SplitEmailsOf(joined, pieces);
  }

  /** `SplitEmails` in terms of the comma-separated pieces. */
  lemma SplitEmailsOf(s: string, parts: seq<string>)
    requires PyStr.Split(s, ',') == parts
    ensures SplitEmails(s) == [parts[0]] + UnspaceAll(parts[1..])
  {
  }

  /** Dropping the leading space from each spaced item restores the items. */
  lemma UnspaceSpaced(xs: seq<string>)
    ensures UnspaceAll(Spaced(xs)) == xs
  {
    var r := UnspaceAll(Spaced(xs));
    forall i | 0 <= i < |xs|
      ensures r[i] == xs[i]
    {
      assert (" " + xs[i])[1..] == xs[i];
    }
  }

  /** Splitting `', '.join(emails)` at commas gives the addresses, each after the first led by a space. */
  lemma SplitCommaSpace(emails: seq<string>) returns (pieces: seq<string>)
    requires |emails| >= 1 && forall i :: 0 <= i < |emails| ==> ',' !in emails[i]
    ensures pieces == [emails[0]] + Spaced(emails[1..])
    ensures PyStr.Split(PyStr.Join(", ", emails), ',') == pieces
  {
    pieces := [emails[0]] + Spaced(emails[1..]);
    forall i | 0 <= i < |pieces|
      ensures ',' !in pieces[i]
    {
      if i > 0 {
        assert pieces[i] == " " + emails[i];
      }
    }
    JoinCommaSpace(emails);
    PyStr.SplitJoin(pieces, ',');
  }

  // ---------------------------------------------------------------------------
  // GemSpec.map_licenses
  // ---------------------------------------------------------------------------

  /** `licenses`, wrapped in a list when it is not one; no licenses when the field is missing. */
  function LicensesOf(spec: Spec): (ls: seq<Json>)
    ensures "licenses" !in spec ==> ls == []
    ensures "licenses" in spec && spec["licenses"].JList? ==> ls == spec["licenses"].items
    ensures "licenses" in spec && !spec["licenses"].JList? ==> ls == [spec["licenses"]]
  {
    var licenses := Get(spec, "licenses", JList([]));
    if licenses.JList? then licenses.items else [licenses]
  }

  /** `mapping.get(lic, None)`; a list or dict is unhashable and raises. */
  function MapLicense(mapping: map<string, Option<string>>, lic: Json): (r: Result<Option<string>, PyError>)
    ensures r.Failure? <==> lic.JList? || lic.JObject?
    ensures r.Success? && r.value.Some? ==> lic.JStr? && lic.s in mapping && mapping[lic.s] == r.value
  {
    match lic
    case JList(_) => Failure(TypeError)
    case JObject(_) => Failure(TypeError)
    case JStr(s) => Success(if s in mapping then mapping[s] else None)
    case _ => Success(None)
  }

  /** The name maps to a non-empty license key. */
  predicate Maps(mapping: map<string, Option<string>>, lic: Json) {
    lic.JStr? && lic.s in mapping && mapping[lic.s].Some? && mapping[lic.s].value != ""
  }

  /** Every character is in the ASCII range. */
  predicate IsAscii(s: string) {
    forall i :: 0 <= i < |s| ==> s[i] as int < 128
  }

  /**
   * The warning for an unmapped name is a byte-string template formatted
   * with the name; Python 2 encodes a `unicode` argument as ASCII there, so
   * a name with a non-ASCII character raises `UnicodeEncodeError`.
   */
  predicate WarningRaises(lic: Json) {
    lic.JStr? && !IsAscii(lic.s)
  }

  /** `key` is the value of some entry of `mapping`. */
  predicate IsKeyOf(mapping: map<string, Option<string>>, key: string) {
    exists k :: k in mapping && mapping[k] == Some(key)
  }

  /** A license on which the loop raises: unhashable, or unmapped with a warning that cannot be formatted. */
  predicate LicenseRaises(mapping: map<string, Option<string>>, lic: Json) {
    lic.JList? || lic.JObject? || (!Maps(mapping, lic) && WarningRaises(lic))
  }

  /** The keys the loop of `map_licenses` keeps, in input order. */
  function MappedLicenses(mapping: map<string, Option<string>>, ls: seq<Json>): (r: Result<seq<string>, PyError>)
    ensures r.Success? ==> forall i :: 0 <= i < |r.value| ==>
              r.value[i] != "" && IsKeyOf(mapping, r.value[i])
    ensures r.Success? <==> forall i :: 0 <= i < |ls| ==> !LicenseRaises(mapping, ls[i])
    decreases |ls|
  {
    if ls == [] then Success([])
    else
      var init := ls[..|ls| - 1];
      var lic := ls[|ls| - 1];
      assert forall i :: 0 <= i < |init| ==> init[i] == ls[i];
      assert ls == init + [lic];
      RaisesSplit(mapping, init, lic);
      match MappedLicenses(mapping, init)
      case Failure(e) => Failure(e)
      case Success(acc) =>
        match MapLicense(mapping, lic)
        case Failure(e) => Failure(e)
        case Success(m) =>
          if m.Some? && m.value != "" then
            assert mapping[lic.s] == Some(m.value);
            assert !LicenseRaises(mapping, lic);
            Success(acc + [m.value])
          else if WarningRaises(lic) then Failure(UnicodeEncodeError)
          else
            assert !LicenseRaises(mapping, lic);
            Success(acc)
  }

  /** No license of `ls` raises exactly when none of its init does and its last does not. */
  lemma RaisesSplit(mapping: map<string, Option<string>>, init: seq<Json>, lic: Json)
    ensures (forall i :: 0 <= i < |init + [lic]| ==> !LicenseRaises(mapping, (init + [lic])[i])) <==>
            (forall i :: 0 <= i < |init| ==> !LicenseRaises(mapping, init[i])) && !LicenseRaises(mapping, lic)
  {
    var ls := init + [lic];
    assert forall i :: 0 <= i < |init| ==> ls[i] == init[i];
    assert ls[|init|] == lic;
  }

  /**
   * `map_licenses` over `spec["licenses"]`: the non-empty keys the names map
   * to in `LICENSE_KEYS_MAPPING`, in order; unmapped names and `'None'`
   * contribute nothing.
   */
  method MapLicenses(spec: Spec) returns (r: Result<seq<string>, PyError>)
    ensures r == MappedLicenses(LicenseKeysMapping, LicensesOf(spec))
  {
    var licenses := LicensesOf(spec);
    r := MapEach(LicenseKeysMapping, licenses);
  }

  /** The `for lic in licenses` loop of `map_licenses`, over a given table. */
  method MapEach(mapping: map<string, Option<string>>, licenses: seq<Json>) returns (r: Result<seq<string>, PyError>)
    ensures r == MappedLicenses(mapping, licenses)
  {
    var mappedLicenses := [];
    var i := 0;
    while i < |licenses|
      invariant 0 <= i <= |licenses|
      invariant MappedLicenses(mapping, licenses[..i]) == Success(mappedLicenses)
    {
      assert licenses[..i + 1][..i] == licenses[..i];
      var mapped := MapLicense(mapping, licenses[i]);
      if mapped.Failure? {
        MappedLicensesStops(mapping, licenses, i + 1);
        return Failure(mapped.error);
      }
      if mapped.value.Some? && mapped.value.value != "" {
        mappedLicenses := mappedLicenses + [mapped.value.value];
      } else if WarningRaises(licenses[i]) {
        // formatting the warning fails before it is logged
        MappedLicensesStops(mapping, licenses, i + 1);
        return Failure(UnicodeEncodeError);
      }
      i := i + 1;
    }
    assert licenses[..i] == licenses;
    r := Success(mappedLicenses);
  }

  /** Once a license raises, the rest of the list does not matter. */
  lemma {:induction false} MappedLicensesStops(mapping: map<string, Option<string>>, ls: seq<Json>, i: nat)
    requires i <= |ls| && MappedLicenses(mapping, ls[..i]).Failure?
    ensures MappedLicenses(mapping, ls) == MappedLicenses(mapping, ls[..i])
    decreases |ls| - i
  {
    if i < |ls| {
      assert ls[..i + 1][..i] == ls[..i];
      MappedLicensesStops(mapping, ls, i + 1);
    } else {
      assert ls[..i] == ls;
    }
  }

  /** Mapping a concatenation maps each part: the input order is kept. */
  lemma {:induction false} MappedLicensesAppend(mapping: map<string, Option<string>>, a: seq<Json>, b: seq<Json>)
    requires MappedLicenses(mapping, a).Success? && MappedLicenses(mapping, b).Success?
    ensures MappedLicenses(mapping, a + b) == Success(MappedLicenses(mapping, a).value + MappedLicenses(mapping, b).value)
    decreases |b|
  {
    if b == [] {
      assert a + b == a;
      assert MappedLicenses(mapping, a).value + [] == MappedLicenses(mapping, a).value;
    } else {
      var init := b[..|b| - 1];
      assert (a + b)[..|a + b| - 1] == a + init;
      assert (a + b)[|a + b| - 1] == b[|b| - 1];
      MappedLicensesAppend(mapping, a, init);
      var ra, ri := MappedLicenses(mapping, a).value, MappedLicenses(mapping, init).value;
      var last := b[|b| - 1];
      assert !last.JList? && !last.JObject?;
      var m := MapLicense(mapping, last).value;
      if m.Some? && m.value != "" {
        assert MappedLicenses(mapping, b) == Success(ri + [m.value]);
        assert MappedLicenses(mapping, a + b) == Success(ra + ri + [m.value]);
        assert ra + ri + [m.value] == ra + (ri + [m.value]);
      } else {
        assert MappedLicenses(mapping, b) == Success(ri);
        assert MappedLicenses(mapping, a + b) == Success(ra + ri);
      }
    }
  }

  /** One license name on its own: its key when it maps to one, nothing otherwise. */
  lemma MappedLicenseSingle(mapping: map<string, Option<string>>, lic: Json)
    requires !LicenseRaises(mapping, lic)
    ensures MappedLicenses(mapping, [lic]) == Success(if Maps(mapping, lic) then [mapping[lic.s].value] else [])
  {
    assert [lic][..0] == [];
    assert MappedLicenses(mapping, []) == Success([]);
    var m := MapLicense(mapping, lic).value;
    assert m.Some? && m.value != "" <==> Maps(mapping, lic);
    if m.Some? && m.value != "" {
      assert MappedLicenses(mapping, [lic]) == Success([] + [m.value]);
      assert [] + [m.value] == [m.value];
    }
  }

  /** Three entries of `LICENSE_KEYS_MAPPING`: `'None'` maps to nothing, `'Proprietary'` is absent, `'MIT'` maps to `mit`. */
  lemma LicenseKeysLookups()
    ensures "None" in LicenseKeysMapping && LicenseKeysMapping["None"] == None
    ensures !Maps(LicenseKeysMapping, JStr("None"))
    ensures "Proprietary" !in LicenseKeysMapping && !Maps(LicenseKeysMapping, JStr("Proprietary"))
    ensures Maps(LicenseKeysMapping, JStr("MIT")) && LicenseKeysMapping["MIT"] == Some("mit")
  {
  }

  /** `LICENSE_KEYS_MAPPING` has no key `Licen\U{E7}a`. */
  lemma NonAsciiNameAbsent()
    ensures "Licen\U{E7}a" !in LicenseKeysMapping
  {
  }

  /** A gem listing `MIT` and then the unmapped `Licen\U{E7}a` gets no licenses: formatting the warning raises. */
  lemma NonAsciiLicenseRaises()
    ensures MappedLicenses(LicenseKeysMapping, [JStr("MIT"), JStr("Licen\U{E7}a")]) == Failure(UnicodeEncodeError)
  {
    var lic := JStr("Licen\U{E7}a");
    assert lic.s[5] as int >= 128;
    NonAsciiNameAbsent();
    MappedLicenseSingle(LicenseKeysMapping, JStr("MIT"));
    UnmappedNonAsciiRaises(LicenseKeysMapping, [JStr("MIT")], lic, []);
    assert [JStr("MIT")] + [lic] + [] == [JStr("MIT"), lic];
  }

  /** A name that maps to no key (unmapped, or mapped to `None`) drops out and leaves the rest in order. */
  lemma UnmappedLicensesDropped(mapping: map<string, Option<string>>, a: seq<Json>, lic: Json, b: seq<Json>)
    requires MappedLicenses(mapping, a).Success? && MappedLicenses(mapping, b).Success?
    requires !lic.JList? && !lic.JObject? && !Maps(mapping, lic) && !WarningRaises(lic)
    ensures MappedLicenses(mapping, a + [lic] + b) == MappedLicenses(mapping, a + b)
  {
    MappedLicenseSingle(mapping, lic);
    MappedLicensesAppend(mapping, a, [lic]);
    assert MappedLicenses(mapping, a).value + [] == MappedLicenses(mapping, a).value;
    MappedLicensesAppend(mapping, a + [lic], b);
    MappedLicensesAppend(mapping, a, b);
  }

  /** An unmapped name with a non-ASCII character ends the loop in `UnicodeEncodeError`, whatever follows. */
  lemma UnmappedNonAsciiRaises(mapping: map<string, Option<string>>, a: seq<Json>, lic: Json, b: seq<Json>)
    requires MappedLicenses(mapping, a).Success?
    requires !Maps(mapping, lic) && WarningRaises(lic)
    ensures MappedLicenses(mapping, a + [lic] + b) == Failure(UnicodeEncodeError)
  {
    var ls := a + [lic] + b;
    assert ls[..|a| + 1][..|a|] == a;
    assert ls[..|a| + 1][|a|] == lic;
    assert MappedLicenses(mapping, ls[..|a| + 1]) == Failure(UnicodeEncodeError);
    MappedLicensesStops(mapping, ls, |a| + 1);
  }

  // ---------------------------------------------------------------------------
  // GemSpec.make_unique
  // ---------------------------------------------------------------------------

  /** `newlist` after `for item in xs: if item not in newlist: newlist.append(item)`. */
  function Dedup(xs: seq<Json>): (r: seq<Json>)
    ensures NoDup(r)
    ensures forall x :: x in r <==> x in xs
    decreases |xs|
  {
    if xs == [] then []
    else
      var d := Dedup(xs[..|xs| - 1]);
      var last := xs[|xs| - 1];
      assert forall x :: x in xs <==> x in xs[..|xs| - 1] || x == last by {
        assert xs == xs[..|xs| - 1] + [last];
      }
      if last in d then d else AppendFresh(d, last); d + [last]
  }

  lemma AppendFresh(d: seq<Json>, x: Json)
    requires NoDup(d) && x !in d
    ensures NoDup(d + [x])
  {
    var r := d + [x];
    forall i, j | 0 <= i < j < |r|
      ensures r[i] != r[j]
    {
      assert r[i] == d[i];
      if j < |d| {
        assert r[j] == d[j];
      }
    }
  }

  /** The index of the first occurrence of `x` in `xs`. */
  function FirstIndex(xs: seq<Json>, x: Json): (k: nat)
    requires x in xs
    ensures k < |xs| && xs[k] == x && x !in xs[..k]
  {
    if xs[0] == x then 0
    else
      assert x in xs[1..];
      var k := FirstIndex(xs[1..], x);
      assert xs[..k + 1] == [xs[0]] + xs[1..][..k];
      k + 1
  }

  /** A first occurrence is unaffected by what follows it. */
  lemma FirstIndexPrefix(xs: seq<Json>, n: nat, x: Json)
    requires n <= |xs| && x in xs[..n]
    ensures x in xs && FirstIndex(xs, x) == FirstIndex(xs[..n], x)
  {
    var k := FirstIndex(xs[..n], x);
    assert xs[..n][..k] == xs[..k];
    FirstIndexUnique(xs, x, k);
  }

  lemma FirstIndexUnique(xs: seq<Json>, x: Json, k: nat)
    requires k < |xs| && xs[k] == x && x !in xs[..k]
    ensures FirstIndex(xs, x) == k
  {
    var f := FirstIndex(xs, x);
    NotInPrefix(xs, x, k);
    NotInPrefix(xs, x, f);
  }

  lemma NotInPrefix(xs: seq<Json>, x: Json, k: nat)
    requires k <= |xs| && x !in xs[..k]
    ensures forall i :: 0 <= i < k ==> xs[i] != x
  {
    forall i | 0 <= i < k
      ensures xs[i] != x
    {
      assert xs[..k][i] == xs[i];
    }
  }

  /** The deduplicated list keeps the order of first occurrences. */
  lemma {:induction false} DedupFirstOccurrenceOrder(xs: seq<Json>)
    ensures forall i, j :: 0 <= i < j < |Dedup(xs)| ==> FirstIndex(xs, Dedup(xs)[i]) < FirstIndex(xs, Dedup(xs)[j])
    decreases |xs|
  {
    if xs != [] {
      var init := xs[..|xs| - 1];
      var last := xs[|xs| - 1];
      var d := Dedup(init);
      DedupFirstOccurrenceOrder(init);
      var r := Dedup(xs);
      assert xs[..|xs| - 1] == init;
      forall x | x in d
        ensures FirstIndex(xs, x) == FirstIndex(init, x) < |init|
      {
        FirstIndexPrefix(xs, |xs| - 1, x);
      }
      if last in d {
        assert r == d;
      } else {
        assert r == d + [last];
        FirstIndexUnique(xs, last, |xs| - 1);
        FirstOrderAppend(xs, d, last);
      }
    }
  }

  /** Appending an element first seen after all of `d` keeps `d` ordered by first occurrence in `xs`. */
  lemma FirstOrderAppend(xs: seq<Json>, d: seq<Json>, last: Json)
    requires last in xs && forall x :: x in d ==> x in xs && FirstIndex(xs, x) < FirstIndex(xs, last)
    requires forall i, j :: 0 <= i < j < |d| ==> FirstIndex(xs, d[i]) < FirstIndex(xs, d[j])
    ensures forall i, j :: 0 <= i < j < |d + [last]| ==>
              FirstIndex(xs, (d + [last])[i]) < FirstIndex(xs, (d + [last])[j])
  {
    var r := d + [last];
    forall i, j | 0 <= i < j < |r|
      ensures FirstIndex(xs, r[i]) < FirstIndex(xs, r[j])
    {
      assert r[i] == d[i];
      if j < |d| {
        assert r[j] == d[j];
      }
    }
  }

  /** A list without repeats is left as it is; so deduplicating twice changes nothing more. */
  lemma {:induction false} DedupNoDup(xs: seq<Json>)
    requires NoDup(xs)
    ensures Dedup(xs) == xs
    decreases |xs|
  {
    if xs != [] {
      var init := xs[..|xs| - 1];
      assert NoDup(init) by {
        forall i, j | 0 <= i < j < |init|
          ensures init[i] != init[j]
        {
          assert init[i] == xs[i] && init[j] == xs[j];
        }
      }
      DedupNoDup(init);
      assert xs[|xs| - 1] !in init by {
        forall i | 0 <= i < |init|
          ensures init[i] != xs[|xs| - 1]
        {
          assert init[i] == xs[i];
        }
      }
      assert xs == init + [xs[|xs| - 1]];
    }
  }

  /** A spec value after `make_unique`: lists deduplicated, anything else unchanged. */
  function UniqueValue(v: Json): Json
  {
    if v.JList? then JList(Dedup(v.items)) else v
  }

  /**
   * `make_unique`, iterating `self.spec.items()`: a new spec with the same
   * keys, every list value without repeats in first-occurrence order, every
   * other value unchanged.
   */
  method MakeUnique(spec: Spec) returns (newSpec: Spec)
    ensures newSpec.Keys == spec.Keys
    ensures forall k :: k in spec ==> newSpec[k] == UniqueValue(spec[k])
  {
    newSpec := map[];
    var keys := spec.Keys;
    while keys != {}
      invariant keys <= spec.Keys
      invariant newSpec.Keys == spec.Keys - keys
      invariant forall k :: k in newSpec ==> newSpec[k] == UniqueValue(spec[k])
      decreases keys
    {
      var key :| key in keys;
      var value := spec[key];
      if value.JList? {
        var newlist := UniqueItems(value.items);
        newSpec := newSpec[key := JList(newlist)];
      } else {
        newSpec := newSpec[key := value];
      }
      keys := keys - {key};
    }
  }

  /** The inner loop of `make_unique` over one list. */
  method UniqueItems(items: seq<Json>) returns (newlist: seq<Json>)
    ensures newlist == Dedup(items)
  {
    newlist := [];
    var i := 0;
    while i < |items|
      invariant 0 <= i <= |items|
      invariant newlist == Dedup(items[..i])
    {
      assert items[..i + 1][..i] == items[..i];
      if items[i] !in newlist {
        newlist := newlist + [items[i]];
      }
      i := i + 1;
    }
    assert items[..i] == items;
  }

  /**
   * `make_unique` as written: it iterates the bound method `self.spec.items`
   * rather than its result, which Python rejects with `TypeError` whatever
   * the spec holds.
   */
  function MakeUniqueAsWritten(spec: Spec): (r: Result<Spec, PyError>)
    ensures r.Failure?
  {
    Failure(TypeError)
  }

  /** A spec with a repeated author shows the difference: the intended result drops the repeat. */
  lemma MakeUniqueAsWrittenFails()
    ensures var spec := map["authors" := JList([JStr("a"), JStr("a")])];
      && MakeUniqueAsWritten(spec) == Failure(TypeError)
      && UniqueValue(spec["authors"]) == JList([JStr("a")])
  {
    var xs := [JStr("a"), JStr("a")];
    assert xs[..1] == [JStr("a")];
    assert [JStr("a")][..0] == [];
  }
}
