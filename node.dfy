/** One package of the graph (`Package`) as a value, and the host's file store it reads from. */
module PackageNode {
  import opened Wrappers
  import opened Strings
  import opened Manifest
  import Version

  /** The host's files of one package: `pxt.json` (parsed) and every other file as text. */
  datatype PackageFiles = PackageFiles(config: Option<PackageConfig>, texts: map<string, string>)

  /** The host file store: package id to its files. */
  type Store = map<string, PackageFiles>

  function ReadConfig(store: Store, id: string): (r: Option<PackageConfig>)
    ensures r.Some? ==> id in store && store[id].config == r
  {
    if id in store then store[id].config else None
  }

  function ReadText(store: Store, id: string, f: string): (r: Option<string>)
    ensures r.Some? <==> id in store && f in store[id].texts
  {
    if id in store && f in store[id].texts then Some(store[id].texts[f]) else None
  }

  function TextsOf(store: Store, id: string): map<string, string> {
    if id in store then store[id].texts else map[]
  }

  /** The store after `text` is written to file `f` of package `id`: that file holds `text`, the
      manifest and every other file keep their contents, and writing what is already there
      changes nothing. */
  function WriteText(store: Store, id: string, f: string, text: string): (r: Store)
    ensures ReadText(r, id, f) == Some(text)
    ensures forall k :: ReadConfig(r, k) == ReadConfig(store, k)
    ensures forall k, g :: k != id || g != f ==> ReadText(r, k, g) == ReadText(store, k, g)
    ensures ReadText(store, id, f) == Some(text) ==> r == store
  {
    var r := store[id := PackageFiles(ReadConfig(store, id), TextsOf(store, id)[f := text])];
    assert ReadText(store, id, f) == Some(text) ==> r == store by {
      if ReadText(store, id, f) == Some(text) {
        assert store[id].texts[f := text] == store[id].texts;
        assert r[id] == store[id];
      }
    }
    r
  }

  /** `host.readFile(pkg, f)`: `pxt.json` is the manifest, other names are text files. */
  function Read(store: Store, id: string, f: string): (r: Option<Entry>)
    ensures f == ConfigName ==> (r.Some? <==> ReadConfig(store, id).Some?)
    ensures f == ConfigName && r.Some? ==> r.value == Config(ReadConfig(store, id).value)
    ensures f != ConfigName ==> (r.Some? <==> ReadText(store, id, f).Some?)
    ensures f != ConfigName && r.Some? ==> r.value == Text(ReadText(store, id, f).value)
  {
    if f == ConfigName then
      match ReadConfig(store, id)
      case Some(c) => Some(Config(c))
      case None => None
    else
      match ReadText(store, id, f)
      case Some(t) => Some(Text(t))
      case None => None
  }

  /** The main package registers itself under this id, with this spec. */
  const RootId := "this"
  const RootSpec := "file:."

  /** `Package`: `resolvedVersion` is "" until resolution sets it; `config` is None until loaded. */
  datatype Node = Node(id: string, verspec: string, level: nat, isLoaded: bool, resolvedVersion: string, config: Option<PackageConfig>)

  function NodeVersion(n: Node): string {
    Version.PackageVersion(n.resolvedVersion, n.verspec)
  }

  predicate HasConfig(n: Node) {
    n.config.Some? && WellFormed(n.config.value)
  }

  /** `getFiles()`: the root's files followed by its test files; any other package's files alone. */
  function GetFiles(n: Node): (r: seq<string>)
    requires HasConfig(n)
    ensures Prefix(n.config.value.files.value, r)
    ensures n.level != 0 ==> r == n.config.value.files.value
    ensures n.level == 0 ==> r[|n.config.value.files.value|..] == n.config.value.testFiles.GetOr([])
  {
    var c := n.config.value;
    if n.level == 0 then c.files.value + c.testFiles.GetOr([]) else c.files.value
  }

  /** `ver = ver || "*"`. */
  function NormalizeSpec(v: string): (r: string)
    ensures r != ""
    ensures v != "" ==> r == v
    ensures v == "" ==> r == "*"
  {
    if v == "" then "*" else v
  }

  /** The dependency ids of a loaded package. */
  function DepIds(n: Node): set<string>
    requires HasConfig(n)
  {
    n.config.value.dependencies.value.Keys
  }

  /** Every dependency of `k` is registered, under the spec `k` asks for. */
  ghost predicate ExpandedIn(ds: map<string, Node>, k: string) {
    k in ds && HasConfig(ds[k]) &&
    forall d :: d in DepIds(ds[k]) ==> d in ds && ds[d].verspec == NormalizeSpec(ds[k].config.value.dependencies.value[d])
  }

  /** The download-skip rule: a non-embedded version that equals the recorded `installedVersion`. */
  predicate SkipDownload(v: string, c: Option<PackageConfig>) {
    !StartsWith(v, "embed:") && c.Some? && c.value.installedVersion == Some(v)
  }

  /** The manifest written back after a download: non-root packages get `installedVersion` stamped. */
  function Stamped(c: PackageConfig, level: nat, version: string): (r: PackageConfig)
    ensures level != 0 ==> r.installedVersion == Some(version)
    ensures r == c.(installedVersion := r.installedVersion)
    ensures level == 0 ==> r == c
  {
    if level != 0 then c.(installedVersion := Some(version)) else c
  }
}
