/** The package manifest `pxt.json`, its validation and the legacy-dependency patch applied on parse. */
module Manifest {
  import opened Wrappers
  import opened Strings
  import opened Errors

  const ConfigName := "pxt.json"

  /** A parsed manifest. `name` is None when absent or not a string; `dependencies` is None when
      absent (or null); `files` is None when it is not an array. */
  datatype PackageConfig = PackageConfig(
    name: Option<string>,
    description: Option<string>,
    dependencies: Option<map<string, string>>,
    files: Option<seq<string>>,
    testFiles: Option<seq<string>>,
    public: bool,
    binaryonly: bool,
    minTargetVersion: Option<string>,
    installedVersion: Option<string>)

  /** A file as the host's `readFile` returns it: `pxt.json` in parsed form, any other file as text. */
  datatype Entry = Text(text: string) | Config(config: PackageConfig)

  /** Dependencies removed by the "cloud corrupted configs" patch: `^microbit-(led|music|game|pins|serial)$`. */
  const LegacyDeps: set<string> := {"microbit-led", "microbit-music", "microbit-game", "microbit-pins", "microbit-serial"}

  function StripLegacyDeps(c: PackageConfig): (r: PackageConfig)
    ensures r == c.(dependencies := r.dependencies)
    ensures c.dependencies.None? <==> r.dependencies.None?
    ensures r.dependencies.Some? ==> r.dependencies.value.Keys == c.dependencies.value.Keys - LegacyDeps
    ensures r.dependencies.Some? ==> forall k :: k in r.dependencies.value ==> r.dependencies.value[k] == c.dependencies.value[k]
  {
    match c.dependencies
    case None => c
    case Some(d) => c.(dependencies := Some(d - LegacyDeps))
  }

  predicate IsLetter(ch: char) {
    'a' <= ch <= 'z' || 'A' <= ch <= 'Z'
  }

  predicate IsNameChar(ch: char) {
    IsLetter(ch) || '0' <= ch <= '9' || ch == '-' || ch == '_'
  }

  /** `/^[a-z][a-z0-9\-_]+$/i`: a letter followed by at least one letter, digit, `-` or `_`. */
  predicate IsPublicName(s: string) {
    |s| >= 2 && IsLetter(s[0]) && forall i :: 1 <= i < |s| ==> IsNameChar(s[i])
  }

  /** The name check of `validateConfig`: a non-empty string, and a public name when `public`. */
  predicate NameOk(c: PackageConfig) {
    c.name.Some? && c.name.value != "" && (c.public ==> IsPublicName(c.name.value))
  }

  /** The target-version check: a non-empty `minTargetVersion` must not be newer than the running target. */
  predicate TargetOk(c: PackageConfig, running: string, semverGt: (string, string) -> bool) {
    !(c.minTargetVersion.Some? && c.minTargetVersion.value != "" && semverGt(c.minTargetVersion.value, running))
  }

  /** What every manifest that passed validation has, independently of the order of the checks. */
  predicate IsValid(c: PackageConfig, running: string, semverGt: (string, string) -> bool) {
    c.dependencies.Some? && c.files.Some? && NameOk(c) && TargetOk(c, running, semverGt)
  }

  /** The structural part of validity, which later steps rely on. */
  predicate WellFormed(c: PackageConfig) {
    c.dependencies.Some? && c.files.Some? && c.name.Some? && c.name.value != ""
  }

  /** `validateConfig`: fail-fast, in the order dependencies, files, name, target version. */
  function ValidateConfig(id: string, c: PackageConfig, running: string, semverGt: (string, string) -> bool): (r: Outcome<Error>)
    ensures r.Pass? <==> IsValid(c, running, semverGt)
    ensures c.dependencies.None? ==> r == Fail(MissingDependencies(id))
    ensures c.dependencies.Some? && c.files.None? ==> r == Fail(MissingFiles(id))
    ensures c.dependencies.Some? && c.files.Some? && !NameOk(c) ==> r == Fail(InvalidName(c.name))
    ensures c.dependencies.Some? && c.files.Some? && NameOk(c) && !TargetOk(c, running, semverGt) ==>
      r == Fail(TargetTooOld(c.name.value, c.minTargetVersion.value, running))
  {
    if c.dependencies.None? then Fail(MissingDependencies(id))
    else if c.files.None? then Fail(MissingFiles(id))
    else if !NameOk(c) then Fail(InvalidName(c.name))
    else if !TargetOk(c, running, semverGt) then Fail(TargetTooOld(c.name.value, c.minTargetVersion.value, running))
    else Pass
  }

  lemma ValidIsWellFormed(c: PackageConfig, running: string, semverGt: (string, string) -> bool)
    requires IsValid(c, running, semverGt)
    ensures WellFormed(c)
  {
  }

  /** `parseConfig` on an already decoded manifest: strip the legacy dependencies, then validate. */
  function ParseConfig(id: string, c: PackageConfig, running: string, semverGt: (string, string) -> bool): (r: Result<PackageConfig, Error>)
    ensures r.Ok? <==> IsValid(StripLegacyDeps(c), running, semverGt)
    ensures r.Ok? ==> r.value == StripLegacyDeps(c) && WellFormed(r.value)
    ensures r.Ok? ==> r.value.dependencies.value.Keys !! LegacyDeps
    ensures r.Err? ==> ValidateConfig(id, StripLegacyDeps(c), running, semverGt) == Fail(r.error)
  {
    var s := StripLegacyDeps(c);
    match ValidateConfig(id, s, running, semverGt)
    case Pass => Ok(s)
    case Fail(e) => Err(e)
  }

  /** The dependency ids a stored manifest mentions (none for a missing one). */
  function ConfigKeys(c: Option<PackageConfig>): set<string> {
    if c.Some? && c.value.dependencies.Some? then c.value.dependencies.value.Keys else {}
  }

  lemma ParseKeepsKeys(id: string, c: PackageConfig, running: string, semverGt: (string, string) -> bool)
    requires ParseConfig(id, c, running, semverGt).Ok?
    ensures ConfigKeys(Some(ParseConfig(id, c, running, semverGt).value)) <= ConfigKeys(Some(c))
  {
  }
}
