/** The pure parts of `filesToBePublishedAsync`: the sanitised manifest, the collected file map
    and its key-sorted form. */
module Publish {
  import opened Wrappers
  import opened Strings
  import opened Errors
  import opened Manifest
  import opened PackageNode

  /** A spec that names only a local copy: empty, `file:...` or `workspace:...`. */
  predicate IsLocalSpec(v: string) {
    v == "" || StartsWith(v, "file:") || StartsWith(v, "workspace:")
  }

  /** The dependency map with every local-only spec replaced by `*`. */
  function RewrittenSpecs(d: map<string, string>): (r: map<string, string>)
    ensures r.Keys == d.Keys
    ensures forall k :: k in d && IsLocalSpec(d[k]) ==> r[k] == "*"
    ensures forall k :: k in d && !IsLocalSpec(d[k]) ==> r[k] == d[k]
    ensures forall k :: k in r ==> !IsLocalSpec(r[k])
  {
    map k | k in d :: if IsLocalSpec(d[k]) then "*" else d[k]
  }

  /** `U.iterStringMap(cfg.dependencies, ...)`: the specs rewritten one key at a time. */
  method RewriteLocalSpecs(d: map<string, string>) returns (r: map<string, string>)
    ensures r == RewrittenSpecs(d)
  {
    r := d;
    var todo := d.Keys;
    while todo != {}
      invariant todo <= d.Keys && r.Keys == d.Keys
      invariant forall k :: k in todo ==> r[k] == d[k]
      invariant forall k :: k in d && k !in todo ==> r[k] == RewrittenSpecs(d)[k]
      decreases todo
    {
      var k :| k in todo;
      if IsLocalSpec(r[k]) {
        r := r[k := "*"];
      }
      todo := todo - {k};
    }
  }

  /** The manifest that is published: `installedVersion` dropped, no local-only dependency
      spec, every other field as it was. */
  function SanitizedConfig(c: PackageConfig): (r: PackageConfig)
    requires c.dependencies.Some?
    ensures r.installedVersion.None?
    ensures r.dependencies.Some? && r.dependencies.value.Keys == c.dependencies.value.Keys
    ensures forall k :: k in r.dependencies.value && !IsLocalSpec(c.dependencies.value[k]) ==> r.dependencies.value[k] == c.dependencies.value[k]
    ensures forall k :: k in r.dependencies.value ==> !IsLocalSpec(r.dependencies.value[k])
    ensures r.(installedVersion := c.installedVersion, dependencies := c.dependencies) == c
  {
    c.(installedVersion := None, dependencies := Some(RewrittenSpecs(c.dependencies.value)))
  }

  /** The cloned manifest of `filesToBePublishedAsync`. */
  method SanitizeConfig(c: PackageConfig) returns (r: PackageConfig)
    requires c.dependencies.Some?
    ensures r == SanitizedConfig(c)
  {
    var deps := RewriteLocalSpecs(c.dependencies.value);
    r := c.(installedVersion := None, dependencies := Some(deps));
  }

  /** The outcome of the loop over `getFiles()`: it succeeds exactly when every file can be
      read, reports the first file that cannot, and otherwise maps the manifest name and every
      file to its contents, the manifest to `cfg` unless a file of that name is listed. */
  ghost predicate Collected(store: Store, id: string, files: seq<string>, cfg: PackageConfig, r: Result<map<string, Entry>, Error>) {
    && (r.Ok? <==> forall i :: 0 <= i < |files| ==> Read(store, id, files[i]).Some?)
    && (r.Err? ==> exists i :: (0 <= i < |files| && Read(store, id, files[i]).None? && r.error == ReferencedFileMissing(files[i])
          && forall j :: 0 <= j < i ==> Read(store, id, files[j]).Some?))
    && (r.Ok? ==> r.value.Keys == {ConfigName} + Elems(files))
    && (r.Ok? ==> forall f :: f in files ==> Read(store, id, f) == Some(r.value[f]))
    && (r.Ok? && ConfigName !in files ==> r.value[ConfigName] == Config(cfg))
  }

  /** The loop over `getFiles()`: the manifest under `pxt.json`, then every declared file, failing
      on the first one the host cannot read. */
  method CollectFiles(store: Store, id: string, files: seq<string>, cfg: PackageConfig) returns (r: Result<map<string, Entry>, Error>)
    ensures Collected(store, id, files, cfg, r)
  {
    var m := map[ConfigName := Config(cfg)];
    for i := 0 to |files|
      invariant m.Keys == {ConfigName} + Elems(files[..i])
      invariant forall j :: 0 <= j < i ==> Read(store, id, files[j]).Some?
      invariant forall f :: f in files[..i] ==> Read(store, id, f) == Some(m[f])
      invariant ConfigName !in files[..i] ==> m[ConfigName] == Config(cfg)
    {
      var f := files[i];
      assert files[..i + 1] == files[..i] + [f];
      var str := Read(store, id, f);
      if str.None? {
        return Err(ReferencedFileMissing(f));
      }
      m := m[f := str.value];
    }
    assert files[..|files|] == files;
    return Ok(m);
  }

  predicate HasSuffixIn(f: string, exts: seq<string>) {
    exists e :: e in exts && EndsWith(f, e)
  }

  /** The keys `<id>/<f>` for the files `f` of `fs` with one of the suffixes. */
  ghost function Snapped(id: string, fs: seq<string>, exts: seq<string>): set<string> {
    set f | f in fs && HasSuffixIn(f, exts) :: id + "/" + f
  }

  /** The state of `addSnapshot`'s loop after the first `i` files `fs[..i]`. */
  ghost predicate SnapshotAfter(r: map<string, Option<Entry>>, files: map<string, Option<Entry>>, store: Store, id: string, fs: seq<string>, i: int, exts: seq<string>)
    requires 0 <= i <= |fs|
  {
    && r.Keys == files.Keys + Snapped(id, fs[..i], exts)
    && (forall f :: f in fs[..i] && HasSuffixIn(f, exts) ==> r[id + "/" + f] == Read(store, id, f))
    && (forall k :: k in files && k !in Snapped(id, fs[..i], exts) ==> r[k] == files[k])
  }

  lemma SnapshotStep(r: map<string, Option<Entry>>, files: map<string, Option<Entry>>, store: Store, id: string, fs: seq<string>, i: int, exts: seq<string>)
    requires 0 <= i < |fs| && SnapshotAfter(r, files, store, id, fs, i, exts)
    ensures SnapshotAfter(if HasSuffixIn(fs[i], exts) then r[id + "/" + fs[i] := Read(store, id, fs[i])] else r, files, store, id, fs, i + 1, exts)
  {
    assert fs[..i + 1] == fs[..i] + [fs[i]];
    PathInjective(id, fs[i]);
  }

  /** `addSnapshot(files, exts)`: every file of the package with one of the suffixes, and its
      manifest, under `<id>/`; every other entry of `files` stays. */
  method AddSnapshot(store: Store, n: Node, files: map<string, Option<Entry>>, exts: seq<string>) returns (r: map<string, Option<Entry>>)
    requires HasConfig(n)
    ensures r.Keys == files.Keys + Snapped(n.id, GetFiles(n), exts) + {n.id + "/" + ConfigName}
    ensures forall f :: f in GetFiles(n) && HasSuffixIn(f, exts) ==> r[n.id + "/" + f] == Read(store, n.id, f)
    ensures r[n.id + "/" + ConfigName] == Read(store, n.id, ConfigName)
    ensures forall k :: k in files && k !in Snapped(n.id, GetFiles(n), exts) && k != n.id + "/" + ConfigName ==> r[k] == files[k]
  {
    var fs := GetFiles(n);
    r := files;
    assert fs[..0] == [];
    for i := 0 to |fs|
      invariant SnapshotAfter(r, files, store, n.id, fs, i, exts)
    {
      SnapshotStep(r, files, store, n.id, fs, i, exts);
      if HasSuffixIn(fs[i], exts) {
        r := r[n.id + "/" + fs[i] := Read(store, n.id, fs[i])];
      }
    }
    assert fs[..|fs|] == fs;
    PathInjective(n.id, ConfigName);
    r := r[n.id + "/" + ConfigName := Read(store, n.id, ConfigName)];
  }

  lemma PathInjective(id: string, f: string)
    ensures forall g :: id + "/" + g == id + "/" + f ==> g == f
  {
    forall g | id + "/" + g == id + "/" + f ensures g == f {
      assert g == (id + "/" + g)[|id| + 1..];
      assert f == (id + "/" + f)[|id| + 1..];
    }
  }

  function Entries(m: map<string, Entry>, ks: seq<string>): seq<(string, Entry)>
    requires Elems(ks) <= m.Keys
  {
    assert forall i :: 0 <= i < |ks| ==> ks[i] in Elems(ks);
    seq(|ks|, i requires 0 <= i < |ks| => (ks[i], m[ks[i]]))
  }

  lemma EntriesFacts(m: map<string, Entry>, ks: seq<string>)
    requires Elems(ks) == m.Keys && StrictlySorted(ks)
    ensures var r := Entries(m, ks);
      |r| == |ks| &&
      (forall i :: 0 <= i < |r| ==> r[i] == (ks[i], m[ks[i]])) &&
      (forall k :: k in m ==> exists i :: 0 <= i < |r| && r[i].0 == k)
  {
    var r := Entries(m, ks);
    forall k | k in m ensures exists i :: 0 <= i < |r| && r[i].0 == k {
      assert k in Elems(ks);
      var i :| 0 <= i < |ks| && ks[i] == k;
      assert r[i].0 == k;
    }
  }

  /** `U.sortObjectFields`: the entries of a file map in ascending key order. */
  function SortedEntries(m: map<string, Entry>): (r: seq<(string, Entry)>)
    ensures |r| == |m|
    ensures forall i :: 0 <= i < |r| ==> r[i].0 in m && r[i].1 == m[r[i].0]
    ensures forall k :: k in m ==> exists i :: 0 <= i < |r| && r[i].0 == k
    ensures forall i, j :: 0 <= i < j < |r| ==> StrLt(r[i].0, r[j].0)
  {
    var ks := SortedSet(m.Keys);
    EntriesFacts(m, ks);
    Entries(m, ks)
  }

  /** `U.lookup` on a sorted file list: the first entry under `k`. */
  function Lookup(es: seq<(string, Entry)>, k: string): (r: Option<Entry>)
    ensures r.Some? ==> exists i :: 0 <= i < |es| && es[i] == (k, r.value)
    ensures r.None? ==> forall i :: 0 <= i < |es| ==> es[i].0 != k
  {
    if es == [] then None
    else if es[0].0 == k then Some(es[0].1)
    else Lookup(es[1..], k)
  }

  /** Sorting a file map loses nothing: a key finds its own entry, and only keys of the map are found. */
  lemma LookupSorted(m: map<string, Entry>, k: string)
    ensures Lookup(SortedEntries(m), k) == (if k in m then Some(m[k]) else None)
  {
    var es := SortedEntries(m);
    var r := Lookup(es, k);
    if k in m {
      var i :| 0 <= i < |es| && es[i].0 == k;
      var j :| 0 <= j < |es| && es[j] == (k, r.value);
      StrLtIrreflexive(k);
      assert i == j;
    } else {
      assert forall j :: 0 <= j < |es| ==> es[j].0 in m;
    }
  }

  /** What `filesToBePublishedAsync` returns for a loaded package `n`: a private package is
      refused unless `allowPrivate`; otherwise the files are published exactly when every file
      of the package can be read, the first unreadable one is reported, and the published list
      is the package's content. */
  ghost predicate Published(n: Node, store: Store, allowPrivate: bool, r: Result<seq<(string, Entry)>, Error>)
    requires HasConfig(n)
  {
    var fs := GetFiles(n);
    && (!allowPrivate && !n.config.value.public ==> r == Err(NotPublic))
    && ((allowPrivate || n.config.value.public) ==> (r.Ok? <==> AllReadable(store, n.id, fs)))
    && ((allowPrivate || n.config.value.public) && r.Err? ==> FirstMissing(store, n.id, fs, r.error))
    && (r.Ok? ==> PublishedContent(n, store, r.value))
  }

  /** Every file in `fs` of package `id` can be read. */
  ghost predicate AllReadable(store: Store, id: string, fs: seq<string>) {
    forall f :: f in fs ==> Read(store, id, f).Some?
  }

  /** `e` reports the first file of `fs` that package `id` cannot read. */
  ghost predicate FirstMissing(store: Store, id: string, fs: seq<string>, e: Error) {
    exists i :: 0 <= i < |fs| && Read(store, id, fs[i]).None? && e == ReferencedFileMissing(fs[i]) &&
      forall j :: 0 <= j < i ==> Read(store, id, fs[j]).Some?
  }

  /** The published list of a package: sorted by name, holding each file of the package as
      read, the sanitised manifest under `pxt.json` (unless a file of that name is listed), and
      nothing else. */
  ghost predicate PublishedContent(n: Node, store: Store, es: seq<(string, Entry)>)
    requires HasConfig(n)
  {
    var fs := GetFiles(n);
    && (forall f :: f in fs ==> Lookup(es, f) == Read(store, n.id, f))
    && (forall k :: k !in fs && k != ConfigName ==> Lookup(es, k).None?)
    && (ConfigName !in fs ==>
          Lookup(es, ConfigName) == Some(Config(SanitizedConfig(n.config.value))))
    && (forall i, j :: 0 <= i < j < |es| ==> StrLt(es[i].0, es[j].0))
  }

  lemma CollectFailed(n: Node, store: Store, allowPrivate: bool, cfg: PackageConfig, files: Result<map<string, Entry>, Error>)
    requires HasConfig(n) && (allowPrivate || n.config.value.public)
    requires Collected(store, n.id, GetFiles(n), cfg, files) && files.Err?
    ensures Published(n, store, allowPrivate, Err(files.error))
  {
  }

  /** Every key of a sorted file map finds its own entry, and no other key finds one. */
  lemma SortedLookups(m: map<string, Entry>)
    ensures forall k :: Lookup(SortedEntries(m), k) == (if k in m then Some(m[k]) else None)
  {
    forall k ensures Lookup(SortedEntries(m), k) == (if k in m then Some(m[k]) else None) {
      LookupSorted(m, k);
    }
  }

  /** Looking up the sorted collected files finds each file as it was read, the manifest
      entry under its name, and nothing else. */
  lemma SortedFileLookups(m: map<string, Entry>, fs: seq<string>, store: Store, id: string)
    requires m.Keys == {ConfigName} + Elems(fs)
    requires forall f :: f in fs ==> Read(store, id, f) == Some(m[f])
    ensures forall f :: f in fs ==> Lookup(SortedEntries(m), f) == Read(store, id, f)
    ensures forall k :: k !in fs && k != ConfigName ==> Lookup(SortedEntries(m), k).None?
    ensures Lookup(SortedEntries(m), ConfigName) == Some(m[ConfigName])
  {
    SortedLookups(m);
    forall f | f in fs ensures Lookup(SortedEntries(m), f) == Read(store, id, f) {
      assert f in Elems(fs);
    }
    forall k | k !in fs && k != ConfigName ensures Lookup(SortedEntries(m), k).None? {
      assert k !in m;
    }
  }

  lemma CollectSorted(n: Node, store: Store, cfg: PackageConfig, m: map<string, Entry>)
    requires HasConfig(n) && cfg == SanitizedConfig(n.config.value)
    requires m.Keys == {ConfigName} + Elems(GetFiles(n))
    requires forall f :: f in GetFiles(n) ==> Read(store, n.id, f) == Some(m[f])
    requires ConfigName !in GetFiles(n) ==> m[ConfigName] == Config(cfg)
    ensures PublishedContent(n, store, SortedEntries(m))
  {
    SortedFileLookups(m, GetFiles(n), store, n.id);
  }

  /** The body of `filesToBePublishedAsync` once the package is loaded. */
  method PublishedFiles(n: Node, store: Store, allowPrivate: bool) returns (r: Result<seq<(string, Entry)>, Error>)
    requires HasConfig(n)
    ensures Published(n, store, allowPrivate, r)
  {
    var c := n.config.value;
    if !allowPrivate && !c.public {
      return Err(NotPublic);
    }
    var cfg := SanitizeConfig(c);
    var files := CollectFiles(store, n.id, GetFiles(n), cfg);
    if files.Err? {
      CollectFailed(n, store, allowPrivate, cfg, files);
      return Err(files.error);
    }
    CollectSorted(n, store, cfg, files.value);
    r := Ok(SortedEntries(files.value));
  }
}
