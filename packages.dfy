/** `MainPackage`: the package graph rooted at the project being edited, its loader, and the
    build-order, compile and publish views built from it. */
module Packages {
  import opened Wrappers
  import opened Strings
  import opened Errors
  import opened Manifest
  import opened PackageNode
  import Version
  import BuildOrder
  import Compile
  import Publish
  import Locale

  /** The parts of `appTarget` the engine manifests: its id, the running target version, the
      bundled packages and the compile target. */
  datatype AppTarget = AppTarget(id: string, targetVersion: string, bundledpkgs: map<string, map<string, string>>, compile: Option<Compile.CompileTarget>)

  /** The `Host`: a file store it updates, and the packages it can download, by id and version. */
  class Host {
    var store: Store
    const remote: map<(string, string), PackageFiles>

    constructor (store: Store, remote: map<(string, string), PackageFiles>)
      ensures this.store == store && this.remote == remote
    {
      this.store := store;
      this.remote := remote;
    }

    /** `writeFile(pkg, fn, contents)` for a file other than the manifest. */
    method WriteFile(id: string, f: string, cont: string)
      requires f != ConfigName
      modifies this
      ensures store == WriteText(old(store), id, f, cont)
      ensures ReadText(store, id, f) == Some(cont)
      ensures forall g :: g != f ==> ReadText(store, id, g) == ReadText(old(store), id, g)
      ensures ReadConfig(store, id) == ReadConfig(old(store), id)
    {
      store := WriteText(store, id, f, cont);
    }

    /** `saveConfig()`: the manifest written back, the other files kept. */
    method SaveConfig(id: string, c: PackageConfig)
      modifies this
      ensures store == old(store)[id := PackageFiles(Some(c), TextsOf(old(store), id))]
      ensures ReadConfig(store, id) == Some(c)
    {
      store := store[id := PackageFiles(Some(c), TextsOf(store, id))];
    }

    /** `downloadPackageAsync(pkg)`: the package's files become the downloaded ones; a version the
        host cannot fetch fails and leaves the store alone. */
    method DownloadPackage(id: string, version: string) returns (r: Outcome<Error>)
      modifies this
      ensures (id, version) in remote ==> r == Pass && store == old(store)[id := remote[(id, version)]]
      ensures (id, version) !in remote ==> r == Fail(DownloadFailed(id, version)) && store == old(store)
    {
      if (id, version) in remote {
        store := store[id := remote[(id, version)]];
        r := Pass;
      } else {
        r := Fail(DownloadFailed(id, version));
      }
    }
  }

  /** What loading never takes back: no node disappears or changes its spec, and a loaded
      node keeps its manifest. */
  ghost predicate Grew(a: map<string, Node>, b: map<string, Node>) {
    a.Keys <= b.Keys &&
    forall k :: k in a ==> b[k].verspec == a[k].verspec && (a[k].isLoaded ==> b[k].isLoaded && b[k].config == a[k].config)
  }

  /** Loading a main package that was not loaded starts from the graph holding only the root. */
  lemma RootGrew(a: map<string, Node>, b: map<string, Node>)
    requires a.Keys == {RootId} && !a[RootId].isLoaded && RootId in b && b[RootId].verspec == a[RootId].verspec
    ensures Grew(a, b)
  {
  }

  lemma PrefixAppend(a: seq<string>, x: string)
    ensures Prefix(a, a + [x])
  {
    assert (a + [x])[..|a|] == a;
  }

  /** Only levels change: every node of `a` is still in `b`, at most with another level. */
  ghost predicate LevelsOnly(a: map<string, Node>, b: map<string, Node>) {
    a.Keys <= b.Keys && forall k :: k in a ==> b[k] == a[k].(level := b[k].level)
  }

  /** Registering packages and lowering levels keeps every expanded package expanded. */
  lemma LevelsOnlyExpanded(a: map<string, Node>, b: map<string, Node>, k: string)
    requires LevelsOnly(a, b) && ExpandedIn(a, k)
    ensures ExpandedIn(b, k)
  {
    assert b[k].config == a[k].config;
    forall d | d in DepIds(b[k]) ensures d in b && b[d].verspec == NormalizeSpec(b[k].config.value.dependencies.value[d]) {
      assert d in DepIds(a[k]);
    }
  }

  lemma LevelsOnlyTransitive(a: map<string, Node>, b: map<string, Node>, c: map<string, Node>)
    requires LevelsOnly(a, b) && LevelsOnly(b, c)
    ensures LevelsOnly(a, c)
  {
  }

  /** Every id in `done` is registered under the spec `specs` asks for. */
  ghost predicate Registered(ds: map<string, Node>, specs: map<string, string>, done: set<string>) {
    forall d :: d in done && d in specs ==> d in ds && ds[d].verspec == NormalizeSpec(specs[d])
  }

  lemma UpdateTwice(m: map<string, Node>, k: string, a: Node, b: Node)
    ensures m[k := a][k := b] == m[k := b]
  {
  }

  /** Every registered package is marked loaded. */
  ghost predicate AllLoaded(ds: map<string, Node>) {
    forall k :: k in ds ==> ds[k].isLoaded
  }

  /** `k` is a package whose `loadAsync` has run its synchronous part (marked loaded, manifest
      read into `manifests[k]`, a missing one allowed only when installing) and whose continuation
      (parse, download, expansion) has not run: it has no manifest and no resolved version. */
  ghost predicate Waiting(ds: map<string, Node>, k: string, manifests: map<string, Option<PackageConfig>>, U: set<string>, isInstall: bool) {
    && k in ds && k in manifests && ds[k].isLoaded && ds[k].config.None? && ds[k].resolvedVersion == ""
    && ConfigKeys(manifests[k]) <= U && (isInstall || manifests[k].Some?)
  }

  /** The pending continuations, once each, all waiting. */
  ghost predicate Queued(ds: map<string, Node>, queue: seq<string>, manifests: map<string, Option<PackageConfig>>, U: set<string>, isInstall: bool) {
    NoDup(queue) && forall i :: 0 <= i < |queue| ==> Waiting(ds, queue[i], manifests, U, isInstall)
  }

  /** Every registered package outside `except` has all its dependencies registered. */
  ghost predicate ExpandedBut(ds: map<string, Node>, except: set<string>) {
    forall k :: k in ds && k !in except ==> ExpandedIn(ds, k)
  }

  /** Dependency `d` (one of `specs`) of a package expanded against the graph `ds` stops the
      load: it is registered under another spec, or it is new and, without install, has no
      manifest in `store`. */
  ghost predicate Refused(ds: map<string, Node>, store: Store, isInstall: bool, specs: map<string, string>, d: string) {
    d in specs &&
    if d in ds then ds[d].verspec != NormalizeSpec(specs[d]) else !isInstall && ReadConfig(store, d).None?
  }

  /** The error a refused dependency is reported with. */
  function RefusalOf(ds: map<string, Node>, d: string): Error {
    if d in ds then VersionMismatch(d) else NotInstalled(d)
  }

  /** During an expansion against the graph `ds0`: only ids in `done` were added, and none of
      them was refused. */
  ghost predicate Unrefused(ds0: map<string, Node>, ds: map<string, Node>, store: Store, isInstall: bool, specs: map<string, string>, done: set<string>) {
    (forall k :: k in ds && k !in ds0 ==> k in done) && (forall e :: e in done ==> !Refused(ds0, store, isInstall, specs, e))
  }

  /** Taking `d` off the ids still to handle adds it to the handled ones. */
  lemma HandledOne(all: set<string>, todo: set<string>, d: string)
    requires todo <= all && d in todo
    ensures all - todo + {d} == all - (todo - {d})
  {
  }

  /** A dependency not handled before is refused against the current graph exactly when it is
      refused against the graph the expansion started from. */
  lemma RefusedAt(ds0: map<string, Node>, ds: map<string, Node>, store: Store, isInstall: bool, specs: map<string, string>, done: set<string>, d: string)
    requires Unrefused(ds0, ds, store, isInstall, specs, done) && LevelsOnly(ds0, ds) && d in specs && d !in done
    ensures Refused(ds0, store, isInstall, specs, d) == Refused(ds, store, isInstall, specs, d)
    ensures RefusalOf(ds0, d) == RefusalOf(ds, d)
  {
  }

  lemma UnrefusedStep(ds0: map<string, Node>, ds: map<string, Node>, ds': map<string, Node>, store: Store, isInstall: bool,
                      specs: map<string, string>, done: set<string>, d: string)
    requires Unrefused(ds0, ds, store, isInstall, specs, done) && LevelsOnly(ds0, ds) && LevelsOnly(ds, ds')
    requires d in specs && d !in done && ds'.Keys == ds.Keys + {d} && !Refused(ds, store, isInstall, specs, d)
    ensures Unrefused(ds0, ds', store, isInstall, specs, done + {d})
  {
    RefusedAt(ds0, ds, store, isInstall, specs, done, d);
  }

  /** The state between two continuations: every package loaded, the queued ones waiting, every
      other one expanded, and a manifest read only for registered packages. */
  ghost predicate Loading(ds: map<string, Node>, queue: seq<string>, manifests: map<string, Option<PackageConfig>>, U: set<string>, isInstall: bool) {
    AllLoaded(ds) && Queued(ds, queue, manifests, U, isInstall) && ExpandedBut(ds, Elems(queue)) && manifests.Keys <= ds.Keys
  }

  /** The state in which `p`, just settled and taken off the queue, is expanded. */
  ghost predicate ExpandReady(ds: map<string, Node>, queue: seq<string>, manifests: map<string, Option<PackageConfig>>, U: set<string>, isInstall: bool, p: string) {
    AllLoaded(ds) && Queued(ds, queue, manifests, U, isInstall) && ExpandedBut(ds, Elems(queue) + {p}) && manifests.Keys <= ds.Keys
  }

  /** What an expansion does to the state `ds0`, `order0`, `queue0`, `manifests0`: existing nodes
      change at most their level; the new ids are appended, in the same order, to the
      registration order and to the queue; each new id's manifest is read from `store`. */
  ghost predicate ExpandedFrom(ds0: map<string, Node>, order0: seq<string>, queue0: seq<string>, manifests0: map<string, Option<PackageConfig>>,
                               ds: map<string, Node>, order: seq<string>, queue: seq<string>, manifests: map<string, Option<PackageConfig>>, store: Store) {
    && LevelsOnly(ds0, ds) && Prefix(order0, order) && queue == queue0 + order[|order0|..]
    && (forall k :: k in manifests0 ==> k in manifests && manifests[k] == manifests0[k])
    && (forall k :: k in ds && k !in ds0 ==> k in manifests && manifests[k] == ReadConfig(store, k))
  }

  /** The loop state of the expansion of `p` with dependencies `specs`, after handling `done`. */
  ghost predicate Expanding(ds0: map<string, Node>, order0: seq<string>, queue0: seq<string>, manifests0: map<string, Option<PackageConfig>>,
                            ds: map<string, Node>, order: seq<string>, queue: seq<string>, manifests: map<string, Option<PackageConfig>>, store: Store,
                            U: set<string>, isInstall: bool, p: string, specs: map<string, string>, done: set<string>) {
    && ExpandedFrom(ds0, order0, queue0, manifests0, ds, order, queue, manifests, store)
    && ExpandReady(ds, queue, manifests, U, isInstall, p)
    && p in ds0 && Registered(ds, specs, done)
  }

  lemma QueuedLevels(a: map<string, Node>, b: map<string, Node>, queue: seq<string>, manifests: map<string, Option<PackageConfig>>, U: set<string>, isInstall: bool)
    requires LevelsOnly(a, b) && Queued(a, queue, manifests, U, isInstall)
    ensures Queued(b, queue, manifests, U, isInstall)
  {
    forall i | 0 <= i < |queue| ensures Waiting(b, queue[i], manifests, U, isInstall) {
      assert Waiting(a, queue[i], manifests, U, isInstall);
    }
  }

  lemma ExpandedButLevels(a: map<string, Node>, b: map<string, Node>, ex: set<string>, ex': set<string>)
    requires LevelsOnly(a, b) && ExpandedBut(a, ex)
    requires forall k :: k in b && k !in ex' ==> k in a && k !in ex
    ensures ExpandedBut(b, ex')
  {
    forall k | k in b && k !in ex' ensures ExpandedIn(b, k) {
      LevelsOnlyExpanded(a, b, k);
    }
  }

  lemma ExpandingStart(ds: map<string, Node>, order: seq<string>, queue: seq<string>, manifests: map<string, Option<PackageConfig>>, store: Store,
                       U: set<string>, isInstall: bool, p: string, specs: map<string, string>)
    requires ExpandReady(ds, queue, manifests, U, isInstall, p) && p in ds
    ensures Expanding(ds, order, queue, manifests, ds, order, queue, manifests, store, U, isInstall, p, specs, {})
  {
    assert order[|order|..] == [];
    assert queue + [] == queue;
  }

  /** Changing only levels keeps the relation to the state an expansion started from ... */
  lemma LevelsFrom(ds0: map<string, Node>, order0: seq<string>, queue0: seq<string>, manifests0: map<string, Option<PackageConfig>>,
                   ds: map<string, Node>, ds': map<string, Node>, order: seq<string>, queue: seq<string>, manifests: map<string, Option<PackageConfig>>, store: Store)
    requires ExpandedFrom(ds0, order0, queue0, manifests0, ds, order, queue, manifests, store)
    requires LevelsOnly(ds, ds') && ds'.Keys == ds.Keys
    ensures ExpandedFrom(ds0, order0, queue0, manifests0, ds', order, queue, manifests, store)
  {
    LevelsOnlyTransitive(ds0, ds, ds');
  }

  /** ... keeps the queued packages waiting and the others expanded ... */
  lemma LevelsReady(ds: map<string, Node>, ds': map<string, Node>, queue: seq<string>, manifests: map<string, Option<PackageConfig>>,
                    U: set<string>, isInstall: bool, p: string)
    requires ExpandReady(ds, queue, manifests, U, isInstall, p) && LevelsOnly(ds, ds') && ds'.Keys == ds.Keys
    ensures ExpandReady(ds', queue, manifests, U, isInstall, p)
  {
    QueuedLevels(ds, ds', queue, manifests, U, isInstall);
    ExpandedButLevels(ds, ds', Elems(queue) + {p}, Elems(queue) + {p});
  }

  /** ... and keeps the registered dependencies registered. */
  lemma LevelsRegistered(ds: map<string, Node>, ds': map<string, Node>, specs: map<string, string>, done: set<string>)
    requires Registered(ds, specs, done) && LevelsOnly(ds, ds')
    ensures Registered(ds', specs, done)
  {
  }

  /** Lowering the level of a registered dependency `d` whose spec matches. */
  lemma LowerStep(ds0: map<string, Node>, order0: seq<string>, queue0: seq<string>, manifests0: map<string, Option<PackageConfig>>,
                  ds: map<string, Node>, order: seq<string>, queue: seq<string>, manifests: map<string, Option<PackageConfig>>, store: Store,
                  U: set<string>, isInstall: bool, p: string, specs: map<string, string>, done: set<string>, d: string, level: nat)
    requires Expanding(ds0, order0, queue0, manifests0, ds, order, queue, manifests, store, U, isInstall, p, specs, done)
    requires Unrefused(ds0, ds, store, isInstall, specs, done)
    requires d in specs && d !in done && d in ds && ds[d].verspec == NormalizeSpec(specs[d])
    ensures Expanding(ds0, order0, queue0, manifests0, ds[d := ds[d].(level := level)], order, queue, manifests, store, U, isInstall, p, specs, done + {d})
    ensures Unrefused(ds0, ds[d := ds[d].(level := level)], store, isInstall, specs, done + {d})
  {
    var ds' := ds[d := ds[d].(level := level)];
    assert LevelsOnly(ds, ds') && ds'.Keys == ds.Keys;
    UnrefusedStep(ds0, ds, ds', store, isInstall, specs, done, d);
    LevelsFrom(ds0, order0, queue0, manifests0, ds, ds', order, queue, manifests, store);
    LevelsReady(ds, ds', queue, manifests, U, isInstall, p);
    LevelsRegistered(ds, ds', specs, done);
  }

  /** Registering a new dependency `d` as node `n` with the manifest `str` read for it keeps the
      relation to the state the expansion started from. */
  lemma AddFrom(ds0: map<string, Node>, order0: seq<string>, queue0: seq<string>, manifests0: map<string, Option<PackageConfig>>,
                ds: map<string, Node>, order: seq<string>, queue: seq<string>, manifests: map<string, Option<PackageConfig>>, store: Store,
                d: string, n: Node, str: Option<PackageConfig>)
    requires ExpandedFrom(ds0, order0, queue0, manifests0, ds, order, queue, manifests, store)
    requires d !in ds && d !in manifests && str == ReadConfig(store, d)
    ensures ExpandedFrom(ds0, order0, queue0, manifests0, ds[d := n], order + [d], queue + [d], manifests[d := str], store)
  {
    assert LevelsOnly(ds, ds[d := n]);
    LevelsOnlyTransitive(ds0, ds, ds[d := n]);
    PrefixAppend(order, d);
    BuildOrder.PrefixTrans(order0, order, order + [d]);
    assert (order + [d])[|order0|..] == order[|order0|..] + [d];
  }

  /** ... and keeps the queued packages waiting and the others expanded, `d` now queued. */
  lemma AddReady(ds: map<string, Node>, queue: seq<string>, manifests: map<string, Option<PackageConfig>>,
                 U: set<string>, isInstall: bool, p: string, d: string, n: Node, str: Option<PackageConfig>)
    requires ExpandReady(ds, queue, manifests, U, isInstall, p)
    requires d !in ds && n.isLoaded && n.config.None? && n.resolvedVersion == ""
    requires ConfigKeys(str) <= U && (isInstall || str.Some?)
    ensures ExpandReady(ds[d := n], queue + [d], manifests[d := str], U, isInstall, p)
  {
    var ds' := ds[d := n];
    var manifests' := manifests[d := str];
    assert LevelsOnly(ds, ds');
    BuildOrder.AppendFresh(queue, d);
    forall i | 0 <= i < |queue + [d]| ensures Waiting(ds', (queue + [d])[i], manifests', U, isInstall) {
      if i < |queue| {
        assert Waiting(ds, queue[i], manifests, U, isInstall);
      }
    }
    ExpandedButLevels(ds, ds', Elems(queue) + {p}, Elems(queue + [d]) + {p});
  }

  /** Registering a new, unrefused dependency `d` extends the progress of the expansion. */
  lemma AddStep(ds0: map<string, Node>, order0: seq<string>, queue0: seq<string>, manifests0: map<string, Option<PackageConfig>>,
                ds: map<string, Node>, order: seq<string>, queue: seq<string>, manifests: map<string, Option<PackageConfig>>, store: Store,
                U: set<string>, isInstall: bool, p: string, specs: map<string, string>, done: set<string>, d: string, n: Node, str: Option<PackageConfig>)
    requires Expanding(ds0, order0, queue0, manifests0, ds, order, queue, manifests, store, U, isInstall, p, specs, done)
    requires Unrefused(ds0, ds, store, isInstall, specs, done)
    requires d in specs && d !in done && d !in ds && n == Node(d, NormalizeSpec(specs[d]), 1, true, "", None)
    requires str == ReadConfig(store, d) && ConfigKeys(str) <= U && (isInstall || str.Some?)
    ensures Expanding(ds0, order0, queue0, manifests0, ds[d := n], order + [d], queue + [d], manifests[d := str], store, U, isInstall, p, specs, done + {d})
    ensures Unrefused(ds0, ds[d := n], store, isInstall, specs, done + {d})
  {
    assert LevelsOnly(ds, ds[d := n]);
    UnrefusedStep(ds0, ds, ds[d := n], store, isInstall, specs, done, d);
    AddFrom(ds0, order0, queue0, manifests0, ds, order, queue, manifests, store, d, n, str);
    AddReady(ds, queue, manifests, U, isInstall, p, d, n, str);
  }

  /** After every dependency of `p` is handled, `p` is expanded and the loop state holds again. */
  lemma ExpandingDone(ds0: map<string, Node>, order0: seq<string>, queue0: seq<string>, manifests0: map<string, Option<PackageConfig>>,
                      ds: map<string, Node>, order: seq<string>, queue: seq<string>, manifests: map<string, Option<PackageConfig>>, store: Store,
                      U: set<string>, isInstall: bool, p: string, specs: map<string, string>)
    requires Expanding(ds0, order0, queue0, manifests0, ds, order, queue, manifests, store, U, isInstall, p, specs, specs.Keys)
    requires HasConfig(ds0[p]) && ds0[p].config.value.dependencies.value == specs
    ensures ExpandedIn(ds, p) && Loading(ds, queue, manifests, U, isInstall)
  {
    assert ds[p].config == ds0[p].config;
  }

  /** Taking entry `i` off the queue. */
  lemma TakeQueued(ds: map<string, Node>, queue: seq<string>, i: int, manifests: map<string, Option<PackageConfig>>, U: set<string>, isInstall: bool)
    requires Queued(ds, queue, manifests, U, isInstall) && 0 <= i < |queue|
    ensures Queued(ds, queue[..i] + queue[i + 1..], manifests, U, isInstall)
    ensures Elems(queue[..i] + queue[i + 1..]) == Elems(queue) - {queue[i]}
    ensures Waiting(ds, queue[i], manifests, U, isInstall)
  {
    var q := queue[..i] + queue[i + 1..];
    assert forall j :: 0 <= j < |q| ==> q[j] == if j < i then queue[j] else queue[j + 1];
    forall j | 0 <= j < |q| ensures Waiting(ds, q[j], manifests, U, isInstall) {
      if j < i {
        assert Waiting(ds, queue[j], manifests, U, isInstall);
      } else {
        assert Waiting(ds, queue[j + 1], manifests, U, isInstall);
      }
    }
    forall x | x in Elems(queue) - {queue[i]} ensures x in Elems(q) {
      var m :| 0 <= m < |queue| && queue[m] == x;
      if m < i {
        assert q[m] == x;
      } else {
        assert q[m - 1] == x;
      }
    }
  }

  /** Settling `p` (its manifest and resolved version set) keeps the other packages expanded. */
  lemma SettledReady(ds: map<string, Node>, ds': map<string, Node>, q0: seq<string>, queue: seq<string>, manifests: map<string, Option<PackageConfig>>,
                     U: set<string>, isInstall: bool, p: string, n: Node)
    requires Loading(ds, q0, manifests, U, isInstall) && Queued(ds, queue, manifests, U, isInstall)
    requires p in Elems(q0) && Elems(queue) == Elems(q0) - {p}
    requires p in ds && ds' == ds[p := n] && n.verspec == ds[p].verspec && n.isLoaded
    ensures ExpandReady(ds', queue, manifests, U, isInstall, p)
  {
    forall i | 0 <= i < |queue| ensures Waiting(ds', queue[i], manifests, U, isInstall) {
      assert Waiting(ds, queue[i], manifests, U, isInstall);
      assert queue[i] in Elems(queue);
    }
    forall k | k in ds' && k !in Elems(queue) + {p} ensures ExpandedIn(ds', k) {
      assert ExpandedIn(ds, k);
      forall d | d in DepIds(ds'[k]) ensures d in ds' && ds'[d].verspec == NormalizeSpec(ds'[k].config.value.dependencies.value[d]) {
        assert d in DepIds(ds[k]);
      }
    }
  }

  /** The registration order grows exactly by the ids added to the graph. */
  lemma OrderGrowth(ds0: map<string, Node>, o0: seq<string>, ds: map<string, Node>, o: seq<string>, bundled: set<string>)
    requires ValidGraph(ds0, o0, bundled) && ValidGraph(ds, o, bundled) && Prefix(o0, o)
    ensures |o| == |o0| ==> ds.Keys == ds0.Keys
    ensures |o| > |o0| ==> o[|o0|] in ds && o[|o0|] !in ds0
  {
    if |o| == |o0| {
      assert o == o0;
    } else {
      assert o[|o0|] in Elems(o);
    }
  }

  /** A settled package stays loaded. */
  lemma SettledLoaded(ds: map<string, Node>, p: string, n: Node)
    requires AllLoaded(ds) && n.isLoaded
    ensures AllLoaded(ds[p := n])
  {
  }

  /** One round of the load makes progress: either it registered new packages, or it took one
      continuation off the queue and queued none. */
  lemma RoundProgress(U: set<string>, keys0: set<string>, q0: seq<string>, dsB: map<string, Node>, oB: seq<string>, qB: seq<string>,
                      ds: map<string, Node>, o: seq<string>, q: seq<string>, bundled: set<string>)
    requires dsB.Keys == keys0 && |qB| < |q0| && ds.Keys <= U
    requires ValidGraph(dsB, oB, bundled) && ValidGraph(ds, o, bundled) && Prefix(oB, o) && q == qB + o[|oB|..]
    ensures U - ds.Keys < U - keys0 || (U - ds.Keys == U - keys0 && |q| < |q0|)
  {
    OrderGrowth(dsB, oB, ds, o, bundled);
    if |o| == |oB| {
      assert o[|oB|..] == [];
      assert q == qB;
    } else {
      assert o[|oB|] in (U - keys0) - (U - ds.Keys);
    }
  }

  /** The state right after `loadAsync` on the main package ran its synchronous part. */
  lemma StartLoading(ds: map<string, Node>, str: Option<PackageConfig>, U: set<string>, isInstall: bool)
    requires ds.Keys == {RootId} && ds[RootId].isLoaded && ds[RootId].config.None? && ds[RootId].resolvedVersion == ""
    requires ConfigKeys(str) <= U && (isInstall || str.Some?)
    ensures Loading(ds, [RootId], map[RootId := str], U, isInstall)
  {
    assert Waiting(ds, [RootId][0], map[RootId := str], U, isInstall);
  }

  /** A witness makes the store loadable. */
  lemma LoadableIntro(store: Store, S: set<string>, want: map<string, string>, running: string, semverGt: (string, string) -> bool)
    requires LoadableWith(store, S, want, running, semverGt)
    ensures Loadable(store, running, semverGt)
  {
  }

  /** The manifest of `k` as a load without install reads it from `store` and parses it, when
      both succeed. */
  function Parsed(store: Store, k: string, running: string, semverGt: (string, string) -> bool): (r: Option<PackageConfig>)
    ensures r.Some? <==> ReadConfig(store, k).Some? && ParseConfig(k, ReadConfig(store, k).value, running, semverGt).Ok?
    ensures r.Some? ==> WellFormed(r.value)
  {
    var c := ReadConfig(store, k);
    if c.Some? && ParseConfig(k, c.value, running, semverGt).Ok? then Some(ParseConfig(k, c.value, running, semverGt).value) else None
  }

  /** A load without install from `store` can register exactly the packages `S`, each under the
      spec `want` gives it: the main package is in `S` under `file:.`, every package of `S` has
      a stored manifest that parses, and each dependency it declares is in `S` and asked for
      under the spec `want` gives it. */
  ghost predicate LoadableWith(store: Store, S: set<string>, want: map<string, string>, running: string, semverGt: (string, string) -> bool) {
    RootId in S && S <= want.Keys && want[RootId] == RootSpec &&
    forall k :: k in S ==>
      Parsed(store, k, running, semverGt).Some? &&
      var specs := Parsed(store, k, running, semverGt).value.dependencies.value;
      forall d :: d in specs ==> d in S && NormalizeSpec(specs[d]) == want[d]
  }

  /** A load without install from `store` can succeed. */
  ghost predicate Loadable(store: Store, running: string, semverGt: (string, string) -> bool) {
    exists S, want :: LoadableWith(store, S, want, running, semverGt)
  }

  /** The spec each registered package is registered under. */
  function SpecsOf(ds: map<string, Node>): (r: map<string, string>)
    ensures r.Keys == ds.Keys && forall k :: k in ds ==> r[k] == ds[k].verspec
  {
    map k | k in ds :: ds[k].verspec
  }

  /** During a load without install: every package whose continuation has run holds its
      parsed stored manifest, and the manifest read for each queued one is the stored one. */
  ghost predicate OnTrack(ds: map<string, Node>, queue: seq<string>, manifests: map<string, Option<PackageConfig>>, store: Store,
                          running: string, semverGt: (string, string) -> bool) {
    (forall k :: k in ds && k !in queue ==> ds[k].config.Some? && ds[k].config == Parsed(store, k, running, semverGt)) &&
    (forall k :: k in queue ==> k in manifests && manifests[k] == ReadConfig(store, k))
  }

  /** Every registered package is in `S`, under the spec `want` gives it. */
  ghost predicate Within(ds: map<string, Node>, S: set<string>, want: map<string, string>) {
    forall k :: k in ds ==> k in S && k in want && ds[k].verspec == want[k]
  }

  /** A store without a manifest for the main package is not loadable. */
  lemma RootUnreadable(store: Store, running: string, semverGt: (string, string) -> bool)
    requires ReadConfig(store, RootId).None?
    ensures !Loadable(store, running, semverGt)
  {
    forall S, want ensures !LoadableWith(store, S, want, running, semverGt) {
      assert Parsed(store, RootId, running, semverGt).None?;
    }
  }

  /** Settling a queued package `p` with the manifest read for it keeps the load on track. */
  lemma TrackSettled(ds: map<string, Node>, q0: seq<string>, queue: seq<string>, manifests: map<string, Option<PackageConfig>>, store: Store,
                     running: string, semverGt: (string, string) -> bool, p: string, str: Option<PackageConfig>, n: Node)
    requires OnTrack(ds, q0, manifests, store, running, semverGt) && p in ds && p in q0 && Elems(queue) == Elems(q0) - {p}
    requires str == manifests[p] && str.Some? && ParseConfig(p, str.value, running, semverGt).Ok?
    requires n.config == Some(ParseConfig(p, str.value, running, semverGt).value)
    ensures OnTrack(ds[p := n], queue, manifests, store, running, semverGt)
  {
    forall k | k in ds[p := n] && k !in queue ensures ds[p := n][k].config.Some? && ds[p := n][k].config == Parsed(store, k, running, semverGt) {
      if k != p {
        assert k !in Elems(queue);
      }
    }
    forall k | k in queue ensures k in manifests && manifests[k] == ReadConfig(store, k) {
      assert k in Elems(queue);
    }
  }

  /** Settling keeps every package under its spec. */
  lemma WithinSettled(ds: map<string, Node>, S: set<string>, want: map<string, string>, p: string, n: Node)
    requires Within(ds, S, want) && p in ds && n.verspec == ds[p].verspec
    ensures Within(ds[p := n], S, want)
  {
  }

  /** On a loadable store, the manifest read for a queued package is there and parses. */
  lemma TrackParses(ds: map<string, Node>, queue: seq<string>, manifests: map<string, Option<PackageConfig>>, store: Store,
                    S: set<string>, want: map<string, string>, running: string, semverGt: (string, string) -> bool, p: string)
    requires OnTrack(ds, queue, manifests, store, running, semverGt) && Within(ds, S, want) && LoadableWith(store, S, want, running, semverGt)
    requires p in ds && p in queue
    ensures manifests[p].Some? && ParseConfig(p, manifests[p].value, running, semverGt).Ok?
  {
    assert Parsed(store, p, running, semverGt).Some?;
  }

  /** On a loadable store, no dependency of a settled package is refused. */
  lemma NoneRefused(ds: map<string, Node>, store: Store, S: set<string>, want: map<string, string>,
                    running: string, semverGt: (string, string) -> bool, p: string)
    requires Within(ds, S, want) && LoadableWith(store, S, want, running, semverGt)
    requires p in ds && HasConfig(ds[p]) && ds[p].config == Parsed(store, p, running, semverGt)
    ensures var specs := ds[p].config.value.dependencies.value;
      forall d :: d in specs ==> !Refused(ds, store, false, specs, d)
  {
    var specs := ds[p].config.value.dependencies.value;
    forall d | d in specs ensures !Refused(ds, store, false, specs, d) {
      assert d in S;
      assert Parsed(store, d, running, semverGt).Some?;
    }
  }

  /** An expansion keeps the load on track: the packages it registers are queued, with the
      manifests read from the store. */
  lemma TrackExpanded(dsB: map<string, Node>, oB: seq<string>, qB: seq<string>, mB: map<string, Option<PackageConfig>>,
                      ds: map<string, Node>, o: seq<string>, q: seq<string>, m: map<string, Option<PackageConfig>>, store: Store,
                      bundled: set<string>, running: string, semverGt: (string, string) -> bool)
    requires ValidGraph(dsB, oB, bundled) && ValidGraph(ds, o, bundled)
    requires ExpandedFrom(dsB, oB, qB, mB, ds, o, q, m, store)
    requires OnTrack(dsB, qB, mB, store, running, semverGt)
    ensures OnTrack(ds, q, m, store, running, semverGt)
  {
    var added := o[|oB|..];
    assert o == oB + added;
    forall k | k in added ensures k !in dsB && k in ds {
      var j :| 0 <= j < |added| && added[j] == k;
      assert o[|oB| + j] == k;
      forall i | 0 <= i < |oB| ensures oB[i] != k {
        assert oB[i] == o[i];
      }
      assert k !in Elems(oB);
      assert k in Elems(o);
    }
    forall k | k in ds && k !in dsB ensures k in q {
      assert k in Elems(o);
      assert k !in Elems(oB);
    }
    forall k | k in q ensures k in m && m[k] == ReadConfig(store, k) {
      if k in qB {
        assert k in mB;
      } else {
        assert k in added;
      }
    }
  }

  /** An expansion on a loadable store registers every new package under the spec its
      manifest is asked for with. */
  lemma WithinExpanded(dsB: map<string, Node>, ds: map<string, Node>, store: Store, S: set<string>, want: map<string, string>,
                       running: string, semverGt: (string, string) -> bool, p: string)
    requires Within(dsB, S, want) && LoadableWith(store, S, want, running, semverGt)
    requires p in dsB && HasConfig(dsB[p]) && dsB[p].config == Parsed(store, p, running, semverGt)
    requires LevelsOnly(dsB, ds) && ExpandedIn(ds, p)
    requires forall k :: k in ds && k !in dsB ==> k in DepIds(dsB[p])
    ensures Within(ds, S, want)
  {
    forall k | k in ds ensures k in S && k in want && ds[k].verspec == want[k] {
      if k !in dsB {
        assert k in DepIds(ds[p]);
      }
    }
  }

  /** A load without install that succeeded read a loadable store: the registered packages and
      their specs are a witness. */
  lemma TrackDone(ds: map<string, Node>, manifests: map<string, Option<PackageConfig>>, store: Store,
                  running: string, semverGt: (string, string) -> bool)
    requires OnTrack(ds, [], manifests, store, running, semverGt) && AllExpanded(ds)
    requires RootId in ds && ds[RootId].verspec == RootSpec
    ensures LoadableWith(store, ds.Keys, SpecsOf(ds), running, semverGt)
    ensures ParsedFrom(ds, store, running, semverGt)
  {
    forall k | k in ds ensures Parsed(store, k, running, semverGt).Some? {
      assert ExpandedIn(ds, k);
    }
  }

  /** Every registered package is loaded and has all its dependencies registered. */
  ghost predicate AllExpanded(ds: map<string, Node>) {
    forall k :: k in ds ==> ds[k].isLoaded && ExpandedIn(ds, k)
  }

  /** The dependency graph of a fully loaded package map (`p.config.dependencies` for each `p`). */
  function GraphOf(ds: map<string, Node>): (g: BuildOrder.Graph)
    requires AllExpanded(ds)
    ensures g.Keys == ds.Keys && BuildOrder.Closed(g)
    ensures forall k :: k in ds ==> g[k] == DepIds(ds[k])
  {
    map k | k in ds :: DepIds(ds[k])
  }

  /** Each registered package holds the manifest a load without install reads from `store`. */
  ghost predicate ParsedFrom(ds: map<string, Node>, store: Store, running: string, semverGt: (string, string) -> bool) {
    forall k :: k in ds ==> ds[k].config == Parsed(store, k, running, semverGt)
  }

  /** The package at `order[j]` registered the one at `order[i]`: it comes earlier, holds its
      manifest, and declares `order[i]` as a dependency. */
  ghost predicate ParentAt(ds: map<string, Node>, order: seq<string>, i: int, j: int) {
    0 <= j < i < |order| && order[j] in ds && HasConfig(ds[order[j]]) && order[i] in DepIds(ds[order[j]])
  }

  /** Some earlier package registered the one at `order[i]`. */
  ghost predicate HasParent(ds: map<string, Node>, order: seq<string>, i: int) {
    exists j :: ParentAt(ds, order, i, j)
  }

  /** Every id registered after the first was registered as a dependency of an earlier one. */
  ghost predicate Parented(ds: map<string, Node>, order: seq<string>) {
    forall i :: 0 < i < |order| ==> HasParent(ds, order, i)
  }

  /** A loaded graph registers exactly the packages its build order reaches from the root. */
  ghost predicate Reached(ds: map<string, Node>) {
    AllExpanded(ds) && RootId in ds && ds.Keys == Elems(BuildOrder.Order(GraphOf(ds), RootId))
  }

  /** A graph before its first load registers the root alone, once. */
  lemma SingleOrder(order: seq<string>, x: string)
    requires NoDup(order) && Elems(order) == {x}
    ensures order == [x]
  {
    assert x in Elems(order);
    var i :| 0 <= i < |order| && order[i] == x;
    forall j | 0 <= j < |order| ensures order[j] == x {
      assert order[j] in Elems(order);
    }
    assert order[0] == order[i] && order[|order| - 1] == order[i];
    assert 0 == i && |order| - 1 == i;
  }

  /** Registered ids lie in any dependency-closed set holding the root. */
  lemma {:induction false} ParentInOrder(ds: map<string, Node>, order: seq<string>, e: set<string>, i: nat)
    requires Parented(ds, order) && |order| > 0 && order[0] == RootId && i < |order|
    requires RootId in e && forall y :: y in e ==> y in ds && HasConfig(ds[y]) && DepIds(ds[y]) <= e
    ensures order[i] in e
    decreases i
  {
    if i > 0 {
      assert HasParent(ds, order, i);
      var j :| ParentAt(ds, order, i, j);
      ParentInOrder(ds, order, e, j);
    }
  }

  /** A loaded graph whose every registration has a parent is the one the build order reaches. */
  lemma RegisteredReached(ds: map<string, Node>, order: seq<string>, bundled: set<string>)
    requires ValidGraph(ds, order, bundled) && AllExpanded(ds) && Parented(ds, order) && |order| > 0 && order[0] == RootId
    ensures Reached(ds)
  {
    var g := GraphOf(ds);
    BuildOrder.OrderSound(g, RootId);
    var e := Elems(BuildOrder.Order(g, RootId));
    forall y | y in e ensures y in ds && HasConfig(ds[y]) && DepIds(ds[y]) <= e {
      assert ExpandedIn(ds, y);
    }
    forall k | k in ds ensures k in e {
      assert k in Elems(order);
      var i :| 0 <= i < |order| && order[i] == k;
      ParentInOrder(ds, order, e, i);
    }
  }

  /** A load without install from `store` registered exactly the packages `ds` reaches, each
      holding its stored manifest. */
  ghost predicate LoadedFrom(ds: map<string, Node>, store: Store, running: string, semverGt: (string, string) -> bool) {
    Reached(ds) && ParsedFrom(ds, store, running, semverGt)
  }

  /** One loaded graph's ids all lie in another loaded from the same store. */
  lemma ReachedWithin(ds1: map<string, Node>, ds2: map<string, Node>, store: Store, running: string, semverGt: (string, string) -> bool)
    requires LoadedFrom(ds1, store, running, semverGt) && LoadedFrom(ds2, store, running, semverGt)
    ensures ds1.Keys <= ds2.Keys
    ensures forall k :: k in ds1 ==> ds1[k].config == ds2[k].config
  {
    var g := GraphOf(ds1);
    var both := ds1.Keys * ds2.Keys;
    forall y | y in both ensures g[y] <= both {
      assert ds1[y].config == ds2[y].config;
      assert ExpandedIn(ds1, y) && ExpandedIn(ds2, y);
    }
    BuildOrder.OrderReachableOnly(g, RootId, both);
    forall k | k in ds1 ensures ds1[k].config == ds2[k].config {
      assert ds1[k].config == Parsed(store, k, running, semverGt) == ds2[k].config;
    }
  }

  /** The graph a load without install registers is determined by the store: two loaded graphs
      that hold the manifests of the same store register the same packages with the same
      manifests. */
  lemma LoadDetermined(ds1: map<string, Node>, ds2: map<string, Node>, store: Store, running: string, semverGt: (string, string) -> bool)
    requires LoadedFrom(ds1, store, running, semverGt) && LoadedFrom(ds2, store, running, semverGt)
    ensures ds1.Keys == ds2.Keys
    ensures forall k :: k in ds1 ==> ds1[k].config == ds2[k].config
  {
    ReachedWithin(ds1, ds2, store, running, semverGt);
    ReachedWithin(ds2, ds1, store, running, semverGt);
  }

  /** Settling a package that held no manifest keeps every registration's parent. */
  lemma ParentedSettled(ds: map<string, Node>, order: seq<string>, p: string, n: Node)
    requires Parented(ds, order) && p in ds && ds[p].config.None?
    ensures Parented(ds[p := n], order)
  {
    var ds' := ds[p := n];
    forall i | 0 < i < |order| ensures HasParent(ds', order, i) {
      assert HasParent(ds, order, i);
      var j :| ParentAt(ds, order, i, j);
      assert ds'[order[j]] == ds[order[j]];
      assert ParentAt(ds', order, i, j);
    }
  }

  /** An id registered before the expansion keeps its parent. */
  lemma OldParent(ds: map<string, Node>, order: seq<string>, ds': map<string, Node>, order': seq<string>, i: int)
    requires Parented(ds, order) && LevelsOnly(ds, ds') && Prefix(order, order') && 0 < i < |order|
    ensures HasParent(ds', order', i)
  {
    assert HasParent(ds, order, i);
    var j :| ParentAt(ds, order, i, j);
    assert order'[i] == order[i] && order'[j] == order[j];
    assert ds'[order[j]].config == ds[order[j]].config;
    assert ParentAt(ds', order', i, j);
  }

  /** An id the expansion of `order[jp]` registered has that package as its parent. */
  lemma NewParent(ds: map<string, Node>, order: seq<string>, ds': map<string, Node>, order': seq<string>, jp: int, bundled: set<string>, i: int)
    requires ValidGraph(ds, order, bundled) && ValidGraph(ds', order', bundled)
    requires LevelsOnly(ds, ds') && Prefix(order, order') && 0 <= jp < |order| <= i < |order'|
    requires HasConfig(ds[order[jp]]) && forall k :: k in ds' && k !in ds ==> k in DepIds(ds[order[jp]])
    ensures ParentAt(ds', order', i, jp)
  {
    forall m | 0 <= m < |order| ensures order[m] != order'[i] {
      assert order'[m] == order[m];
    }
    assert order'[i] !in Elems(order);
    assert order'[i] in Elems(order');
    assert order'[jp] == order[jp];
    assert ds'[order[jp]].config == ds[order[jp]].config;
  }

  /** An expansion of `p` registers only dependencies of `p`, after `p`, so every registration
      keeps a parent. */
  lemma ParentedExpanded(ds: map<string, Node>, order: seq<string>, ds': map<string, Node>, order': seq<string>, p: string, bundled: set<string>)
    requires ValidGraph(ds, order, bundled) && ValidGraph(ds', order', bundled) && Parented(ds, order)
    requires LevelsOnly(ds, ds') && Prefix(order, order')
    requires p in ds && HasConfig(ds[p]) && forall k :: k in ds' && k !in ds ==> k in DepIds(ds[p])
    ensures Parented(ds', order')
  {
    assert p in Elems(order);
    var jp :| 0 <= jp < |order| && order[jp] == p;
    forall i | 0 < i < |order'| ensures HasParent(ds', order', i) {
      if i < |order| {
        OldParent(ds, order, ds', order', i);
      } else {
        NewParent(ds, order, ds', order', jp, bundled, i);
        assert ParentAt(ds', order', i, jp);
      }
    }
  }

  /** What holds of every node: it sits under its own id; the root is at level 0 and every
      other package at level 1 (each is created with the main package as parent, and a later
      reference only lowers a level); a manifest it holds passed validation; an unloaded node
      has neither manifest nor resolved version; a resolved version is the embedded one. */
  predicate NodeOk(k: string, n: Node, bundled: set<string>) {
    n.id == k && n.level == (if k == RootId then 0 else 1) &&
    (n.config.Some? ==> WellFormed(n.config.value)) &&
    (!n.isLoaded ==> n.config.None? && n.resolvedVersion == "") &&
    (n.resolvedVersion != "" ==> n.resolvedVersion == "embed:" + k && k in bundled)
  }

  /** The shape of `deps`: the root is registered under `this` with spec `file:.`, every node is
      well formed, nothing but the root is registered before the root is loaded, and `order`
      lists every id once. */
  ghost predicate ValidGraph(ds: map<string, Node>, order: seq<string>, bundled: set<string>) {
    RootId in ds && ds[RootId].verspec == RootSpec &&
    (forall k :: k in ds ==> NodeOk(k, ds[k], bundled)) &&
    (!ds[RootId].isLoaded ==> ds.Keys == {RootId}) &&
    NoDup(order) && Elems(order) == ds.Keys
  }

  lemma UpdateValid(ds: map<string, Node>, order: seq<string>, bundled: set<string>, k: string, n: Node)
    requires ValidGraph(ds, order, bundled) && k in ds && NodeOk(k, n, bundled) && n.verspec == ds[k].verspec
    requires k == RootId && !n.isLoaded ==> ds.Keys == {RootId}
    ensures ValidGraph(ds[k := n], order, bundled)
  {
    var ds' := ds[k := n];
    assert ds'.Keys == ds.Keys;
    if k != RootId {
      assert ds.Keys != {RootId};
    }
  }

  lemma InsertValid(ds: map<string, Node>, order: seq<string>, bundled: set<string>, d: string, n: Node)
    requires ValidGraph(ds, order, bundled) && d !in ds && NodeOk(d, n, bundled) && ds[RootId].isLoaded
    ensures ValidGraph(ds[d := n], order + [d], bundled)
  {
    var o := order + [d];
    assert Elems(o) == Elems(order) + {d} by {
      assert forall i :: 0 <= i < |order| ==> o[i] == order[i];
      assert o[|order|] == d;
    }
    assert NoDup(o) by {
      forall i, j | 0 <= i < j < |o| ensures o[i] != o[j] {
        if j == |order| {
          assert o[i] in Elems(order);
        }
      }
    }
  }

  /** Every dependency id that any manifest within reach mentions lies in `U`. */
  ghost predicate BoundedBy(ds: map<string, Node>, store: Store, remote: map<(string, string), PackageFiles>, U: set<string>) {
    ds.Keys <= U &&
    (forall p :: p in ds ==> ConfigKeys(ds[p].config) <= U) &&
    (forall p :: p in store ==> ConfigKeys(store[p].config) <= U) &&
    (forall key :: key in remote ==> ConfigKeys(remote[key].config) <= U)
  }

  lemma UpdateBounded(ds: map<string, Node>, store: Store, remote: map<(string, string), PackageFiles>, U: set<string>, k: string, n: Node)
    requires BoundedBy(ds, store, remote, U) && k in U && ConfigKeys(n.config) <= U
    ensures BoundedBy(ds[k := n], store, remote, U)
  {
  }

  lemma StoreBounded(ds: map<string, Node>, store: Store, remote: map<(string, string), PackageFiles>, U: set<string>, k: string, f: PackageFiles)
    requires BoundedBy(ds, store, remote, U) && ConfigKeys(f.config) <= U
    ensures BoundedBy(ds, store[k := f], remote, U)
  {
  }

  /** The outcome of installing version `version` of package `id` over store `store0`: a version
      the host cannot fetch fails and changes nothing; a download without a manifest fails; a
      manifest that fails validation fails; otherwise the package holds the validated manifest,
      stamped with `version` when it is not the root, and the store holds the downloaded files
      with that manifest. */
  ghost predicate Installed(id: string, version: string, level: nat, remote: map<(string, string), PackageFiles>,
                            store0: Store, store1: Store, config: Option<PackageConfig>, r: Outcome<Error>,
                            running: string, semverGt: (string, string) -> bool)
  {
    && ((id, version) !in remote ==> r == Fail(DownloadFailed(id, version)) && store1 == store0)
    && ((id, version) in remote ==>
          var got := remote[(id, version)];
          && (got.config.None? ==> r == Fail(MissingConfig(id)))
          && (got.config.Some? ==>
                var p := ParseConfig(id, got.config.value, running, semverGt);
                && (p.Err? ==> r == Fail(p.error))
                && (p.Ok? ==> r == Pass && config == Some(Stamped(p.value, level, version))
                              && store1 == store0[id := PackageFiles(config, got.texts)])))
  }

  /** `ids.map(id => this.resolveDep(id))`. */
  function NodesOf(ds: map<string, Node>, ids: seq<string>): (r: seq<Node>)
    requires forall i :: 0 <= i < |ids| ==> ids[i] in ds
    ensures |r| == |ids| && forall i :: 0 <= i < |ids| ==> r[i] == ds[ids[i]]
  {
    seq(|ids|, i requires 0 <= i < |ids| => ds[ids[i]])
  }

  /** What `sortedDeps` promises of its list: the main package last, every entry a loaded
      registered package, no package twice, and every dependency of an entry listed. */
  ghost predicate SortedOk(ds: map<string, Node>, ps: seq<Node>) {
    |ps| > 0 && RootId in ds && ps[|ps| - 1] == ds[RootId] &&
    (forall i :: 0 <= i < |ps| ==> HasConfig(ps[i]) && ps[i].id in ds && ds[ps[i].id] == ps[i]) &&
    (forall i, j :: 0 <= i < j < |ps| ==> ps[i].id != ps[j].id) &&
    (forall i, d :: 0 <= i < |ps| && d in DepIds(ps[i]) ==> exists j :: 0 <= j < |ps| && ps[j].id == d)
  }

  lemma OrderFacts(ds: map<string, Node>, order: seq<string>, bundled: set<string>)
    requires ValidGraph(ds, order, bundled) && AllExpanded(ds)
    ensures forall i :: 0 <= i < |BuildOrder.Order(GraphOf(ds), RootId)| ==> BuildOrder.Order(GraphOf(ds), RootId)[i] in ds
    ensures SortedOk(ds, NodesOf(ds, BuildOrder.Order(GraphOf(ds), RootId)))
  {
    var g := GraphOf(ds);
    var ids := BuildOrder.Order(g, RootId);
    BuildOrder.OrderSound(g, RootId);
    assert forall i :: 0 <= i < |ids| ==> ids[i] in Elems(ids);
    var ps := NodesOf(ds, ids);
    forall i | 0 <= i < |ps| ensures HasConfig(ps[i]) && ps[i].id == ids[i] {
      assert NodeOk(ids[i], ds[ids[i]], bundled);
      assert ExpandedIn(ds, ids[i]);
    }
    forall i, j | 0 <= i < j < |ps| ensures ps[i].id != ps[j].id {
      assert ids[i] != ids[j];
    }
    forall i, d | 0 <= i < |ps| && d in DepIds(ps[i]) ensures exists j :: 0 <= j < |ps| && ps[j].id == d {
      assert d in g[ids[i]];
      var j :| 0 <= j < |ids| && ids[j] == d;
      assert ps[j].id == d;
    }
  }

  /** Every id of `ids` names a loaded package with a manifest. */
  ghost predicate LoadedIn(ds: map<string, Node>, ids: seq<string>) {
    forall i :: 0 <= i < |ids| ==> ids[i] in ds && HasConfig(ds[ids[i]])
  }

  lemma ClosedLoaded(ds: map<string, Node>, order: seq<string>, bundled: set<string>)
    requires ValidGraph(ds, order, bundled) && AllExpanded(ds)
    ensures LoadedIn(ds, order)
    ensures forall i :: 0 <= i < |order| ==> HasConfig(NodesOf(ds, order)[i])
  {
    assert forall i :: 0 <= i < |order| ==> order[i] in Elems(order);
  }

  /** A key has a merged translation exactly when some package has a translation for it. */
  lemma StringsKeys(ds: map<string, Node>, ids: seq<string>, store: Store, lang: string, decode: string -> map<string, string>)
    requires LoadedIn(ds, ids)
    ensures forall k :: k in Locale.AllStrings(NodesOf(ds, ids), store, lang, decode) <==>
      exists i :: 0 <= i < |ids| && k in Locale.PackageStrings(ds[ids[i]], store, lang, decode)
  {
    var ns := NodesOf(ds, ids);
    forall k ensures k in Locale.AllStrings(ns, store, lang, decode) <==> exists i :: 0 <= i < |ids| && k in Locale.PackageStrings(ds[ids[i]], store, lang, decode) {
      Locale.AllStringsKeys(ns, store, lang, decode, k);
    }
  }

  const ShimsName := "shims.d.ts"
  const EnumsName := "enums.d.ts"

  /** Each declaration file there is content for is listed in the main manifest's `files`. */
  predicate Generable(files: seq<string>, ext: Compile.ExtensionInfo) {
    (ext.shimsDTS == "" || ShimsName in files) && (ext.enumsDTS == "" || EnumsName in files)
  }

  /** The generated declaration files of the main package hold their content between the generated-code markers. */
  ghost predicate Generated(store: Store, ext: Compile.ExtensionInfo) {
    (ext.shimsDTS != "" ==> ReadText(store, RootId, ShimsName) == Some(Compile.Wrap(ext.shimsDTS))) &&
    (ext.enumsDTS != "" ==> ReadText(store, RootId, EnumsName) == Some(Compile.Wrap(ext.enumsDTS)))
  }

  /** The store after the generation step: `shims.d.ts` is written when there is content for it
      and it is listed, then `enums.d.ts` likewise, provided the shims step did not fail. Only
      those two files of the main package change; manifests never do; both files are generated
      when each is listed; and a store already generated is left as it is. */
  function GenerateStore(store: Store, files: seq<string>, ext: Compile.ExtensionInfo): (r: Store)
    ensures forall k :: ReadConfig(r, k) == ReadConfig(store, k)
    ensures forall k, g :: k != RootId || (g != ShimsName && g != EnumsName) ==> ReadText(r, k, g) == ReadText(store, k, g)
    ensures Generable(files, ext) ==> Generated(r, ext)
    ensures Generated(store, ext) ==> r == store
    ensures ext.shimsDTS != "" && ShimsName !in files ==> r == store
  {
    var shimsOk := ext.shimsDTS == "" || ShimsName in files;
    var s1 := if ext.shimsDTS != "" && shimsOk then WriteText(store, RootId, ShimsName, Compile.Wrap(ext.shimsDTS)) else store;
    if ext.enumsDTS != "" && EnumsName in files && shimsOk then WriteText(s1, RootId, EnumsName, Compile.Wrap(ext.enumsDTS)) else s1
  }

  /** The embedded snapshot: absent exactly for a binary-only package; otherwise the files
      published with `allowPrivate`, under a header naming the editor by `main.blocks`. */
  ghost predicate Embedded(root: Node, store: Store, targetId: string, embed: Option<Snapshot>)
    requires HasConfig(root)
  {
    (embed.None? <==> root.config.value.binaryonly) &&
    (embed.Some? ==>
      Publish.Published(root, store, true, Ok(embed.value.files)) &&
      embed.value.header == Compile.SnapshotHeader(root.config.value, targetId, Publish.Lookup(embed.value.files, "main.blocks")))
  }

  /** The source list and file system of the compile options: every `.ts`/`.asm` file of every
      package of the build order, in that order. */
  ghost predicate BuiltFrom(ds: map<string, Node>, store: Store, sourceFiles: seq<string>, fileSystem: map<string, Option<string>>)
    requires AllExpanded(ds) && RootId in ds
  {
    var ids := BuildOrder.Order(GraphOf(ds), RootId);
    LoadedIn(ds, ids) &&
    sourceFiles == Compile.AllSources(NodesOf(ds, ids)) &&
    fileSystem == Compile.AllFileSystem(NodesOf(ds, ids), store)
  }

  /** How `getCompileOptionsAsync` ends once the main package `root` is loaded, with `store` as it is
      after the generated files were written: it succeeds exactly when the generated files are
      listed and, unless the package is binary-only, every file can be read; otherwise it
      reports the unlisted `shims.d.ts`, else the unlisted `enums.d.ts`, else the first file
      that cannot be read. */
  ghost predicate CompileOutcome(root: Node, store: Store, ext: Compile.ExtensionInfo, r: Result<CompileOptions, Error>)
    requires HasConfig(root)
  {
    var files := root.config.value.files.value;
    && (r.Ok? <==> Generable(files, ext) && (root.config.value.binaryonly || Publish.AllReadable(store, RootId, GetFiles(root))))
    && (ext.shimsDTS != "" && ShimsName !in files ==> r == Err(NotInFiles(ShimsName)))
    && ((ext.shimsDTS == "" || ShimsName in files) && ext.enumsDTS != "" && EnumsName !in files ==> r == Err(NotInFiles(EnumsName)))
    && (Generable(files, ext) && !root.config.value.binaryonly && r.Err? ==> Publish.FirstMissing(store, RootId, GetFiles(root), r.error))
  }

  /** A `pxtc.CompileOptions` as this engine fills it. `embed` is the publish snapshot before
      its JSON encoding and compression. */
  datatype CompileOptions = CompileOptions(
    sourceFiles: seq<string>,
    fileSystem: map<string, Option<string>>,
    target: Compile.CompileTarget,
    extinfo: Compile.ExtensionInfo,
    hexinfo: Option<string>,
    embed: Option<Snapshot>)

  datatype Snapshot = Snapshot(header: Compile.Header, files: seq<(string, Entry)>)

  /** `MainPackage`. `deps` maps every registered package id to its node (the root under `this`);
      `order` lists the ids in the order they were registered. */
  class MainPackage {
    const host: Host
    const app: AppTarget
    const semverGt: (string, string) -> bool
    var deps: map<string, Node>
    var order: seq<string>

    ghost predicate Valid()
      reads this
    {
      ValidGraph(deps, order, app.bundledpkgs.Keys)
    }

    ghost predicate Closed()
      reads this
    {
      AllExpanded(deps)
    }

    /** Every dependency id any manifest in reach mentions lies in `U`. */
    ghost predicate Bounded(U: set<string>)
      reads this, host
    {
      BoundedBy(deps, host.store, host.remote, U)
    }

    ghost function Universe(): set<string>
      reads this, host
    {
      deps.Keys
      + (set p, k | p in deps && k in ConfigKeys(deps[p].config) :: k)
      + (set p, k | p in host.store && k in ConfigKeys(host.store[p].config) :: k)
      + (set key, k | key in host.remote && k in ConfigKeys(host.remote[key].config) :: k)
    }

    /** The main package registers itself, unloaded, under `this` with spec `file:.` at level 0. */
    constructor (host: Host, app: AppTarget, semverGt: (string, string) -> bool)
      ensures this.host == host && this.app == app && this.semverGt == semverGt
      ensures deps == map[RootId := Node(RootId, RootSpec, 0, false, "", None)] && order == [RootId]
      ensures Valid()
    {
      this.host := host;
      this.app := app;
      this.semverGt := semverGt;
      deps := map[RootId := Node(RootId, RootSpec, 0, false, "", None)];
      order := [RootId];
    }

    /** `resolveDep(id)`: the registered package with that id, if any. */
    function ResolveDep(id: string): (r: Option<Node>)
      reads this
      ensures r.Some? <==> id in deps
      ensures r.Some? ==> r.value == deps[id]
      ensures Valid() && r.Some? ==> r.value.id == id
      ensures Valid() && id == RootId ==> r == Some(deps[RootId]) && r.value.level == 0
    {
      if id in deps then Some(deps[id]) else None
    }

    /** The outcome of `downloadAsync()` on package `id`, from node `n0` and store `store0` to
        node `n` and store `store`: a failed resolution is reported with nothing changed; the
        node's version becomes the resolved one; a skipped download changes nothing else; any
        other download is an install of the resolved version. */
    ghost predicate Downloaded(id: string, n0: Node, n: Node, store0: Store, store: Store, r: Outcome<Error>) {
      var rv := Version.ResolveVersion(app.bundledpkgs, id, n0.verspec);
      && (rv.Err? ==> r == Fail(rv.error) && n == n0 && store == store0)
      && (rv.Ok? ==> NodeVersion(n) == rv.value)
      && (rv.Ok? && SkipDownload(rv.value, n0.config) ==> r == Pass && n.config == n0.config && store == store0)
      && (rv.Ok? && !SkipDownload(rv.value, n0.config) ==>
            Installed(id, rv.value, n.level, host.remote, store0, store, n.config, r, app.targetVersion, semverGt))
    }

    /** `downloadAsync()` for a loaded package that has not been resolved yet: resolve the
        version, skip the download when the version is not embedded and already installed,
        and install it otherwise. */
    method Download(id: string, ghost U: set<string>) returns (r: Outcome<Error>)
      requires Valid() && Bounded(U) && id in deps && deps[id].isLoaded && deps[id].resolvedVersion == ""
      modifies this, host
      ensures Valid() && Bounded(U) && order == old(order)
      ensures id in deps && deps == old(deps)[id := deps[id]]
      ensures deps[id] == old(deps[id]).(resolvedVersion := deps[id].resolvedVersion, config := deps[id].config)
      ensures r.Pass? ==> HasConfig(deps[id])
      ensures Downloaded(id, old(deps[id]), deps[id], old(host.store), host.store, r)
    {
      ghost var deps0 := deps;
      var n := deps[id];
      var rv := Version.ResolveVersion(app.bundledpkgs, id, n.verspec);
      if rv.Err? {
        return Fail(rv.error);
      }
      if id in app.bundledpkgs {
        var n' := n.(resolvedVersion := rv.value);
        UpdateValid(deps, order, app.bundledpkgs.Keys, id, n');
        UpdateBounded(deps, host.store, host.remote, U, id, n');
        deps := deps[id := n'];
      }
      var verNo := NodeVersion(deps[id]);
      assert verNo == rv.value;
      if SkipDownload(verNo, n.config) {
        return Pass;
      }
      ghost var resolved := deps[id];
      r := Install(id, verNo, U);
      UpdateTwice(deps0, id, resolved, deps[id]);
    }

    /** The download proper: fetch the files, re-read and re-validate the manifest, stamp
        `installedVersion` on a non-root package and save the manifest. */
    method Install(id: string, verNo: string, ghost U: set<string>) returns (r: Outcome<Error>)
      requires Valid() && Bounded(U) && id in deps && deps[id].isLoaded
      modifies this, host
      ensures Valid() && Bounded(U) && order == old(order)
      ensures id in deps && deps == old(deps)[id := deps[id]]
      ensures deps[id] == old(deps[id]).(config := deps[id].config)
      ensures r.Pass? ==> HasConfig(deps[id])
      ensures Installed(id, verNo, deps[id].level, host.remote, old(host.store), host.store, deps[id].config, r, app.targetVersion, semverGt)
    {
      if (id, verNo) in host.remote {
        StoreBounded(deps, host.store, host.remote, U, id, host.remote[(id, verNo)]);
      }
      r := host.DownloadPackage(id, verNo);
      if r.Fail? {
        return;
      }
      var got := host.remote[(id, verNo)];
      var confStr := ReadConfig(host.store, id);
      if confStr.None? {
        return Fail(MissingConfig(id));
      }
      var p := ParseConfig(id, confStr.value, app.targetVersion, semverGt);
      if p.Err? {
        return Fail(p.error);
      }
      ParseKeepsKeys(id, confStr.value, app.targetVersion, semverGt);
      var c := Stamped(p.value, deps[id].level, verNo);
      assert ConfigKeys(Some(c)) <= U;
      var loaded := deps[id].(config := Some(c));
      UpdateValid(deps, order, app.bundledpkgs.Keys, id, loaded);
      UpdateBounded(deps, host.store, host.remote, U, id, loaded);
      deps := deps[id := loaded];
      StoreBounded(deps, host.store, host.remote, U, id, PackageFiles(Some(c), TextsOf(host.store, id)));
      host.SaveConfig(id, c);
      r := Pass;
    }

    /** The continuation `loadAsync` queues for a package after its synchronous part: parse the
        manifest `str` read back then (none when it was missing under install), then download
        when installing. */
    method Settle(id: string, str: Option<PackageConfig>, isInstall: bool, ghost U: set<string>) returns (r: Outcome<Error>)
      requires Valid() && Bounded(U) && id in deps && deps[id].isLoaded && deps[id].config.None? && deps[id].resolvedVersion == ""
      requires ConfigKeys(str) <= U && (isInstall || str.Some?)
      modifies this, host
      ensures Valid() && Bounded(U) && order == old(order)
      ensures id in deps && deps == old(deps)[id := deps[id]]
      ensures deps[id] == old(deps[id]).(resolvedVersion := deps[id].resolvedVersion, config := deps[id].config)
      ensures r.Pass? ==> HasConfig(deps[id])
      ensures !isInstall ==> host.store == old(host.store)
      ensures str.Some? ==>
        var p := ParseConfig(id, str.value, app.targetVersion, semverGt);
        && (p.Err? ==> r == Fail(p.error) && deps == old(deps) && host.store == old(host.store))
        && (p.Ok? && !isInstall ==> r == Pass && deps[id].config == Some(p.value))
      ensures isInstall && (str.None? || ParseConfig(id, str.value, app.targetVersion, semverGt).Ok?) ==>
        var n0 := if str.Some? then old(deps[id]).(config := Some(ParseConfig(id, str.value, app.targetVersion, semverGt).value)) else old(deps[id]);
        Downloaded(id, n0, deps[id], old(host.store), host.store, r)
    {
      ghost var deps0 := deps;
      if str.Some? {
        var p := ParseConfig(id, str.value, app.targetVersion, semverGt);
        if p.Err? {
          return Fail(p.error);
        }
        ParseKeepsKeys(id, str.value, app.targetVersion, semverGt);
        var parsed := deps[id].(config := Some(p.value));
        UpdateValid(deps, order, app.bundledpkgs.Keys, id, parsed);
        UpdateBounded(deps, host.store, host.remote, U, id, parsed);
        deps := deps[id := parsed];
      }
      if isInstall {
        ghost var before := deps[id];
        r := Download(id, U);
        UpdateTwice(deps0, id, before, deps[id]);
      } else {
        r := Pass;
      }
    }

    /** The expansion of the settled package `p`: its dependencies are registered in one
        uninterrupted `mapStringMapAsync` pass; every new dependency is registered, marked
        loaded and has its manifest read, and its continuation joins the end of the queue. The
        pass fails exactly when some dependency is refused. */
    method Expand(p: string, isInstall: bool, queue: seq<string>, manifests: map<string, Option<PackageConfig>>, ghost U: set<string>)
        returns (queue': seq<string>, manifests': map<string, Option<PackageConfig>>, r: Outcome<Error>)
      requires Valid() && Bounded(U) && p in deps && HasConfig(deps[p])
      requires ExpandReady(deps, queue, manifests, U, isInstall, p)
      modifies this
      ensures Valid() && Bounded(U) && AllLoaded(deps) && Prefix(old(order), order)
      ensures r.Pass? ==> ExpandedFrom(old(deps), old(order), queue, manifests, deps, order, queue', manifests', host.store)
      ensures r.Pass? ==> ExpandedIn(deps, p) && Loading(deps, queue', manifests', U, isInstall)
      ensures r.Pass? ==> forall k :: k in deps && k !in old(deps) ==> k in DepIds(old(deps[p]))
      ensures var specs := old(deps[p].config.value.dependencies.value);
        r.Pass? <==> forall d :: d in specs ==> !Refused(old(deps), host.store, isInstall, specs, d)
      ensures r.Fail? ==> exists d :: Refused(old(deps), host.store, isInstall, old(deps[p].config.value.dependencies.value), d) && r.error == RefusalOf(old(deps), d)
    {
      var specs := deps[p].config.value.dependencies.value;
      ExpandingStart(deps, order, queue, manifests, host.store, U, isInstall, p, specs);
      queue', manifests', r := ExpandDeps(p, specs, deps[p].level + 1, isInstall, queue, manifests, U);
      if r.Pass? {
        ExpandingDone(old(deps), old(order), queue, manifests, deps, order, queue', manifests', host.store, U, isInstall, p, specs);
      }
    }

    /** The `mapStringMapAsync` over `specs`, one `RegisterDep` per dependency, siblings in no
        particular order, stopping at the first refused one. */
    method ExpandDeps(p: string, specs: map<string, string>, level: nat, isInstall: bool, queue: seq<string>, manifests: map<string, Option<PackageConfig>>, ghost U: set<string>)
        returns (queue': seq<string>, manifests': map<string, Option<PackageConfig>>, r: Outcome<Error>)
      requires Valid() && Bounded(U) && level >= 1
      requires p in deps && HasConfig(deps[p]) && deps[p].config.value.dependencies.value == specs
      requires Expanding(deps, order, queue, manifests, deps, order, queue, manifests, host.store, U, isInstall, p, specs, {})
      modifies this
      ensures Valid() && Bounded(U) && AllLoaded(deps) && Prefix(old(order), order)
      ensures r.Pass? ==> Expanding(old(deps), old(order), queue, manifests, deps, order, queue', manifests', host.store, U, isInstall, p, specs, specs.Keys)
      ensures r.Pass? ==> forall d :: d in specs ==> !Refused(old(deps), host.store, isInstall, specs, d)
      ensures r.Pass? ==> forall k :: k in deps && k !in old(deps) ==> k in specs
      ensures r.Fail? ==> exists d :: Refused(old(deps), host.store, isInstall, specs, d) && r.error == RefusalOf(old(deps), d)
    {
      var todo := specs.Keys;
      queue', manifests' := queue, manifests;
      while todo != {}
        invariant Valid() && Bounded(U) && todo <= specs.Keys
        invariant Expanding(old(deps), old(order), queue, manifests, deps, order, queue', manifests', host.store, U, isInstall, p, specs, specs.Keys - todo)
        invariant Unrefused(old(deps), deps, host.store, isInstall, specs, specs.Keys - todo)
        decreases todo
      {
        var d :| d in todo;
        queue', manifests', r := RegisterDep(d, NormalizeSpec(specs[d]), level, isInstall, queue', manifests', U, old(deps), old(order), queue, manifests, p, specs, specs.Keys - todo);
        if r.Fail? {
          return;
        }
        HandledOne(specs.Keys, todo, d);
        todo := todo - {d};
      }
      r := Pass;
    }

    /** One dependency `d` with normalised spec `ver` of a package at level `level - 1`: a
        registered `d` is rechecked, an unregistered one added. The ghost parameters carry the
        progress of the expansion. */
    method RegisterDep(d: string, ver: string, level: nat, isInstall: bool, queue: seq<string>, manifests: map<string, Option<PackageConfig>>, ghost U: set<string>,
                       ghost deps0: map<string, Node>, ghost order0: seq<string>, ghost queue0: seq<string>, ghost manifests0: map<string, Option<PackageConfig>>,
                       ghost p: string, ghost specs: map<string, string>, ghost done: set<string>)
        returns (queue': seq<string>, manifests': map<string, Option<PackageConfig>>, r: Outcome<Error>)
      requires Valid() && Bounded(U) && level >= 1
      requires Expanding(deps0, order0, queue0, manifests0, deps, order, queue, manifests, host.store, U, isInstall, p, specs, done)
      requires HasConfig(deps0[p]) && deps0[p].config.value.dependencies.value == specs
      requires d in specs && d !in done && ver == NormalizeSpec(specs[d]) && Unrefused(deps0, deps, host.store, isInstall, specs, done)
      modifies this
      ensures Valid() && Bounded(U) && AllLoaded(deps) && Prefix(order0, order)
      ensures d in old(deps) ==> order == old(order) && queue' == queue && manifests' == manifests
      ensures d !in old(deps) ==> order == old(order) + [d] && queue' == queue + [d] && manifests' == manifests[d := ReadConfig(host.store, d)]
      ensures r.Pass? ==> Expanding(deps0, order0, queue0, manifests0, deps, order, queue', manifests', host.store, U, isInstall, p, specs, done + {d})
      ensures r.Pass? ==> Unrefused(deps0, deps, host.store, isInstall, specs, done + {d})
      ensures r.Fail? ==> Refused(deps0, host.store, isInstall, specs, d) && r.error == RefusalOf(deps0, d)
    {
      if d in deps {
        r := Recheck(d, ver, level, isInstall, queue, manifests, U, deps0, order0, queue0, manifests0, p, specs, done);
        queue', manifests' := queue, manifests;
      } else {
        var str;
        str, r := AddDep(d, ver, isInstall, queue, manifests, U, deps0, order0, queue0, manifests0, p, specs, done);
        queue', manifests' := queue + [d], manifests[d := str];
      }
    }

    /** A registered dependency: it must carry the same spec, and its level is lowered to at
        most `level`. */
    method Recheck(d: string, ver: string, level: nat, isInstall: bool, queue: seq<string>, manifests: map<string, Option<PackageConfig>>, ghost U: set<string>,
                   ghost deps0: map<string, Node>, ghost order0: seq<string>, ghost queue0: seq<string>, ghost manifests0: map<string, Option<PackageConfig>>,
                   ghost p: string, ghost specs: map<string, string>, ghost done: set<string>)
        returns (r: Outcome<Error>)
      requires Valid() && Bounded(U) && level >= 1 && d in deps
      requires Expanding(deps0, order0, queue0, manifests0, deps, order, queue, manifests, host.store, U, isInstall, p, specs, done)
      requires d in specs && d !in done && ver == NormalizeSpec(specs[d]) && Unrefused(deps0, deps, host.store, isInstall, specs, done)
      modifies this
      ensures Valid() && Bounded(U) && AllLoaded(deps) && order == old(order)
      ensures old(deps[d].verspec) != ver ==> r == Fail(VersionMismatch(d)) && deps == old(deps)
      ensures old(deps[d].verspec) == ver ==>
        r == Pass && deps == old(deps)[d := old(deps[d]).(level := if old(deps[d].level) < level then old(deps[d].level) else level)]
      ensures r.Pass? ==> Expanding(deps0, order0, queue0, manifests0, deps, order, queue, manifests, host.store, U, isInstall, p, specs, done + {d})
      ensures r.Pass? ==> Unrefused(deps0, deps, host.store, isInstall, specs, done + {d})
      ensures r.Fail? ==> Refused(deps0, host.store, isInstall, specs, d) && r.error == RefusalOf(deps0, d)
    {
      RefusedAt(deps0, deps, host.store, isInstall, specs, done, d);
      if deps[d].verspec != ver {
        return Fail(VersionMismatch(d));
      }
      ghost var before := deps;
      LowerLevel(d, level);
      LowerStep(deps0, order0, queue0, manifests0, before, order, queue, manifests, host.store, U, isInstall, p, specs, done, d, deps[d].level);
      r := Pass;
    }

    /** `mod.level = Math.min(mod.level, this.level + 1)`. */
    method LowerLevel(d: string, level: nat)
      requires Valid() && d in deps && level >= 1
      modifies this
      ensures Valid() && order == old(order) && LevelsOnly(old(deps), deps)
      ensures deps == old(deps)[d := old(deps[d]).(level := if old(deps[d].level) < level then old(deps[d].level) else level)]
    {
      var lowered := if deps[d].level < level then deps[d].level else level;
      var n' := deps[d].(level := lowered);
      UpdateValid(deps, order, app.bundledpkgs.Keys, d, n');
      deps := deps[d := n'];
    }

    /** An unregistered dependency: a new node at level `root.level + 1` stored under `d` and
        appended to the registration order, then the synchronous part of its `loadAsync`: marked
        loaded and its manifest read and returned, which without install must exist. */
    method AddDep(d: string, ver: string, isInstall: bool, queue: seq<string>, manifests: map<string, Option<PackageConfig>>, ghost U: set<string>,
                  ghost deps0: map<string, Node>, ghost order0: seq<string>, ghost queue0: seq<string>, ghost manifests0: map<string, Option<PackageConfig>>,
                  ghost p: string, ghost specs: map<string, string>, ghost done: set<string>)
        returns (str: Option<PackageConfig>, r: Outcome<Error>)
      requires Valid() && Bounded(U) && d !in deps
      requires Expanding(deps0, order0, queue0, manifests0, deps, order, queue, manifests, host.store, U, isInstall, p, specs, done)
      requires HasConfig(deps0[p]) && deps0[p].config.value.dependencies.value == specs
      requires d in specs && d !in done && ver == NormalizeSpec(specs[d]) && Unrefused(deps0, deps, host.store, isInstall, specs, done)
      modifies this
      ensures Valid() && Bounded(U) && AllLoaded(deps) && Prefix(order0, order)
      ensures deps == old(deps)[d := Node(d, ver, 1, true, "", None)] && order == old(order) + [d]
      ensures str == ReadConfig(host.store, d)
      ensures r.Fail? <==> !isInstall && str.None?
      ensures r.Pass? ==> Expanding(deps0, order0, queue0, manifests0, deps, order, queue + [d], manifests[d := str], host.store, U, isInstall, p, specs, done + {d})
      ensures r.Pass? ==> Unrefused(deps0, deps, host.store, isInstall, specs, done + {d})
      ensures r.Fail? ==> Refused(deps0, host.store, isInstall, specs, d) && r.error == RefusalOf(deps0, d)
    {
      RefusedAt(deps0, deps, host.store, isInstall, specs, done, d);
      assert d in ConfigKeys(deps[p].config);
      ghost var before, orderBefore := deps, order;
      Insert(d, ver, U);
      PrefixAppend(orderBefore, d);
      BuildOrder.PrefixTrans(order0, orderBefore, order);
      str := ReadConfig(host.store, d);
      if str.None? && !isInstall {
        return str, Fail(NotInstalled(d));
      }
      AddStep(deps0, order0, queue0, manifests0, before, orderBefore, queue, manifests, host.store, U, isInstall, p, specs, done, d, deps[d], str);
      r := Pass;
    }

    /** `new Package(id, ver, this.parent)` at level `root.level + 1`, stored under `d` and
        appended to the registration order, then marked loaded by its `loadAsync`. */
    method Insert(d: string, ver: string, ghost U: set<string>)
      requires Valid() && Bounded(U) && d in U && d !in deps && deps[RootId].isLoaded
      modifies this
      ensures Valid() && Bounded(U)
      ensures deps == old(deps)[d := Node(d, ver, 1, true, "", None)] && order == old(order) + [d]
      ensures AllLoaded(old(deps)) ==> AllLoaded(deps)
    {
      var added := Node(d, ver, deps[RootId].level + 1, true, "", None);
      InsertValid(deps, order, app.bundledpkgs.Keys, d, added);
      UpdateBounded(deps, host.store, host.remote, U, d, added);
      deps := deps[d := added];
      order := order + [d];
    }

    /** The continuations of the load, run until none is left or one fails. */
    method Drain(queue0: seq<string>, manifests0: map<string, Option<PackageConfig>>, isInstall: bool, ghost U: set<string>,
                 ghost S: set<string>, ghost want: map<string, string>) returns (r: Outcome<Error>)
      requires Valid() && Bounded(U) && Loading(deps, queue0, manifests0, U, isInstall)
      modifies this, host
      ensures Valid() && AllLoaded(deps) && Prefix(old(order), order)
      ensures r.Pass? ==> Closed()
      ensures !isInstall ==> host.store == old(host.store)
      ensures (!isInstall && OnTrack(old(deps), queue0, manifests0, old(host.store), app.targetVersion, semverGt) &&
               Within(old(deps), S, want) && LoadableWith(old(host.store), S, want, app.targetVersion, semverGt)) ==> r.Pass?
      ensures !isInstall && OnTrack(old(deps), queue0, manifests0, old(host.store), app.targetVersion, semverGt) && r.Pass? ==>
              LoadableWith(host.store, deps.Keys, SpecsOf(deps), app.targetVersion, semverGt) && ParsedFrom(deps, host.store, app.targetVersion, semverGt)
      ensures r.Pass? && Parented(old(deps), old(order)) ==> Parented(deps, order)
    {
      ghost var track := !isInstall && OnTrack(deps, queue0, manifests0, host.store, app.targetVersion, semverGt);
      ghost var fine := track && Within(deps, S, want) && LoadableWith(host.store, S, want, app.targetVersion, semverGt);
      ghost var reach := Parented(deps, order);
      var queue, manifests := queue0, manifests0;
      while queue != []
        invariant Valid() && Bounded(U) && Loading(deps, queue, manifests, U, isInstall) && Prefix(old(order), order)
        invariant !isInstall ==> host.store == old(host.store)
        invariant track ==> !isInstall && OnTrack(deps, queue, manifests, host.store, app.targetVersion, semverGt)
        invariant fine ==> track && Within(deps, S, want) && LoadableWith(host.store, S, want, app.targetVersion, semverGt)
        invariant reach ==> Parented(deps, order)
        decreases U - deps.Keys, |queue|
      {
        ghost var o0 := order;
        queue, manifests, r := Step(queue, manifests, isInstall, U, S, want, track, fine);
        BuildOrder.PrefixTrans(old(order), o0, order);
        if r.Fail? {
          return;
        }
      }
      assert Elems(queue) == {};
      if track {
        TrackDone(deps, manifests, host.store, app.targetVersion, semverGt);
      }
      r := Pass;
    }

    /** One continuation: take a queued package off the queue, settle it and expand it. Without
        install the code runs the continuations first in, first out (each is a promise reaction,
        queued when its package registered); with install each waits for its download, which
        may finish in any order, so any queued one may run next. On a load without install that
        is on track, the round keeps it so; on a loadable store it cannot fail. */
    method Step(queue: seq<string>, manifests: map<string, Option<PackageConfig>>, isInstall: bool, ghost U: set<string>,
                ghost S: set<string>, ghost want: map<string, string>, ghost track: bool, ghost fine: bool)
        returns (queue': seq<string>, manifests': map<string, Option<PackageConfig>>, r: Outcome<Error>)
      requires Valid() && Bounded(U) && Loading(deps, queue, manifests, U, isInstall) && queue != []
      requires track ==> !isInstall && OnTrack(deps, queue, manifests, host.store, app.targetVersion, semverGt)
      requires fine ==> track && Within(deps, S, want) && LoadableWith(host.store, S, want, app.targetVersion, semverGt)
      modifies this, host
      ensures Valid() && AllLoaded(deps) && Prefix(old(order), order)
      ensures !isInstall ==> host.store == old(host.store)
      ensures fine ==> r.Pass?
      ensures r.Pass? ==> Bounded(U) && Loading(deps, queue', manifests', U, isInstall)
      ensures r.Pass? ==> U - deps.Keys < U - old(deps).Keys || (U - deps.Keys == U - old(deps).Keys && |queue'| < |queue|)
      ensures r.Pass? && track ==> OnTrack(deps, queue', manifests', host.store, app.targetVersion, semverGt)
      ensures r.Pass? && fine ==> Within(deps, S, want)
      ensures r.Pass? && Parented(old(deps), old(order)) ==> Parented(deps, order)
    {
      var p, rest;
      p, rest, r := SettleNext(queue, manifests, isInstall, U, S, want, track, fine);
      if r.Fail? {
        return queue, manifests, r;
      }
      queue', manifests', r := ExpandNext(p, rest, manifests, isInstall, U, S, want, track, fine, queue);
    }

    /** The second half of a continuation: expand the settled package `p`. On a load without
        install that is on track it stays on track; within a loadable set it cannot fail; every
        package it registers is a dependency of `p`. */
    method ExpandNext(p: string, rest: seq<string>, manifests: map<string, Option<PackageConfig>>, isInstall: bool, ghost U: set<string>,
                      ghost S: set<string>, ghost want: map<string, string>, ghost track: bool, ghost fine: bool, ghost q0: seq<string>)
        returns (queue': seq<string>, manifests': map<string, Option<PackageConfig>>, r: Outcome<Error>)
      requires Valid() && Bounded(U) && p in deps && HasConfig(deps[p]) && ExpandReady(deps, rest, manifests, U, isInstall, p)
      requires |rest| < |q0|
      requires track ==> !isInstall && OnTrack(deps, rest, manifests, host.store, app.targetVersion, semverGt)
      requires fine ==> track && Within(deps, S, want) && LoadableWith(host.store, S, want, app.targetVersion, semverGt)
      requires fine ==> deps[p].config == Parsed(host.store, p, app.targetVersion, semverGt)
      requires fine ==> var specs := deps[p].config.value.dependencies.value;
        forall d :: d in specs ==> !Refused(deps, host.store, false, specs, d)
      modifies this
      ensures Valid() && AllLoaded(deps) && Prefix(old(order), order)
      ensures fine ==> r.Pass?
      ensures r.Pass? ==> Bounded(U) && Loading(deps, queue', manifests', U, isInstall)
      ensures r.Pass? ==> U - deps.Keys < U - old(deps).Keys || (U - deps.Keys == U - old(deps).Keys && |queue'| < |q0|)
      ensures r.Pass? && track ==> OnTrack(deps, queue', manifests', host.store, app.targetVersion, semverGt)
      ensures r.Pass? && fine ==> Within(deps, S, want)
      ensures r.Pass? && Parented(old(deps), old(order)) ==> Parented(deps, order)
    {
      ghost var dsB, oB := deps, order;
      queue', manifests', r := Expand(p, isInstall, rest, manifests, U);
      if r.Fail? {
        return;
      }
      if track {
        TrackExpanded(dsB, oB, rest, manifests, deps, order, queue', manifests', host.store, app.bundledpkgs.Keys, app.targetVersion, semverGt);
      }
      if fine {
        WithinExpanded(dsB, deps, host.store, S, want, app.targetVersion, semverGt, p);
      }
      if Parented(dsB, oB) {
        ParentedExpanded(dsB, oB, deps, order, p, app.bundledpkgs.Keys);
      }
      RoundProgress(U, dsB.Keys, q0, dsB, oB, rest, deps, order, queue', app.bundledpkgs.Keys);
    }

    /** The first half of a continuation: take the package `p` off the queue, leaving `rest`,
        and settle it. */
    method SettleNext(queue: seq<string>, manifests: map<string, Option<PackageConfig>>, isInstall: bool, ghost U: set<string>,
                      ghost S: set<string>, ghost want: map<string, string>, ghost track: bool, ghost fine: bool)
        returns (p: string, rest: seq<string>, r: Outcome<Error>)
      requires Valid() && Bounded(U) && Loading(deps, queue, manifests, U, isInstall) && queue != []
      requires track ==> !isInstall && OnTrack(deps, queue, manifests, host.store, app.targetVersion, semverGt)
      requires fine ==> track && Within(deps, S, want) && LoadableWith(host.store, S, want, app.targetVersion, semverGt)
      modifies this, host
      ensures Valid() && Bounded(U) && AllLoaded(deps) && order == old(order) && deps.Keys == old(deps).Keys
      ensures !isInstall ==> host.store == old(host.store)
      ensures fine ==> r.Pass?
      ensures (!isInstall ==> p == queue[0] && rest == queue[1..]) && |rest| < |queue|
      ensures r.Pass? ==> p in deps && HasConfig(deps[p]) && ExpandReady(deps, rest, manifests, U, isInstall, p)
      ensures r.Pass? && track ==> OnTrack(deps, rest, manifests, host.store, app.targetVersion, semverGt)
      ensures r.Pass? && fine ==> Within(deps, S, want) && deps[p].config == Parsed(host.store, p, app.targetVersion, semverGt)
      ensures r.Pass? && fine ==> var specs := deps[p].config.value.dependencies.value;
        forall d :: d in specs ==> !Refused(deps, host.store, false, specs, d)
      ensures r.Pass? && Parented(old(deps), order) ==> Parented(deps, order)
    {
      var i :| 0 <= i < |queue| && (!isInstall ==> i == 0);
      p := queue[i];
      var str := manifests[p];
      ghost var ds0 := deps;
      TakeQueued(deps, queue, i, manifests, U, isInstall);
      if fine {
        TrackParses(deps, queue, manifests, host.store, S, want, app.targetVersion, semverGt, p);
      }
      rest := queue[..i] + queue[i + 1..];
      r := Settle(p, str, isInstall, U);
      if r.Fail? {
        SettledLoaded(ds0, p, deps[p]);
        return;
      }
      SettledReady(ds0, deps, queue, rest, manifests, U, isInstall, p, deps[p]);
      if Parented(ds0, order) {
        ParentedSettled(ds0, order, p, deps[p]);
      }
      if track {
        TrackSettled(ds0, queue, rest, manifests, host.store, app.targetVersion, semverGt, p, str, deps[p]);
      }
      if fine {
        WithinSettled(ds0, S, want, p, deps[p]);
        NoneRefused(deps, host.store, S, want, app.targetVersion, semverGt, p);
      }
    }

    /** `loadAsync` on the main package, with `installAllAsync` as `LoadRoot(true)`: its
        synchronous part (mark loaded, read the manifest, missing is an error unless
        installing), then the continuations. A main package that loaded before is complete; a
        failed load is not retried. */
    method LoadRoot(isInstall: bool) returns (r: Outcome<Error>)
      requires Valid() && (deps[RootId].isLoaded ==> Closed())
      modifies this, host
      ensures Valid() && Grew(old(deps), deps) && Prefix(old(order), order)
      ensures deps[RootId].isLoaded
      ensures old(deps[RootId].isLoaded) ==> r == Pass && deps == old(deps) && order == old(order) && host.store == old(host.store)
      ensures !old(deps[RootId].isLoaded) && !isInstall && ReadConfig(old(host.store), RootId).None? ==> r == Fail(NotInstalled(RootId))
      ensures r.Pass? ==> Closed()
      ensures !isInstall ==> host.store == old(host.store)
      ensures !old(deps[RootId].isLoaded) && !isInstall ==> (r.Pass? <==> Loadable(old(host.store), app.targetVersion, semverGt))
      ensures !old(deps[RootId].isLoaded) && r.Pass? ==> Reached(deps)
      ensures !old(deps[RootId].isLoaded) && !isInstall && r.Pass? ==> ParsedFrom(deps, old(host.store), app.targetVersion, semverGt)
    {
      if deps[RootId].isLoaded {
        return Pass;
      }
      r := LoadFresh(isInstall);
    }

    /** The first `loadAsync` on the main package. Without install it succeeds exactly when the
        store is loadable. */
    method LoadFresh(isInstall: bool) returns (r: Outcome<Error>)
      requires Valid() && !deps[RootId].isLoaded
      modifies this, host
      ensures Valid() && Grew(old(deps), deps) && Prefix(old(order), order)
      ensures deps[RootId].isLoaded
      ensures !isInstall && ReadConfig(old(host.store), RootId).None? ==> r == Fail(NotInstalled(RootId))
      ensures r.Pass? ==> Closed()
      ensures !isInstall ==> host.store == old(host.store)
      ensures !isInstall ==> (r.Pass? <==> Loadable(old(host.store), app.targetVersion, semverGt))
      ensures r.Pass? ==> Reached(deps)
      ensures !isInstall && r.Pass? ==> ParsedFrom(deps, old(host.store), app.targetVersion, semverGt)
    {
      ghost var store0 := host.store;
      ghost var U := Universe();
      assert Bounded(U);
      var marked := deps[RootId].(isLoaded := true);
      UpdateValid(deps, order, app.bundledpkgs.Keys, RootId, marked);
      UpdateBounded(deps, host.store, host.remote, U, RootId, marked);
      deps := deps[RootId := marked];
      var str := ReadConfig(host.store, RootId);
      if str.None? && !isInstall {
        RootGrew(old(deps), deps);
        RootUnreadable(store0, app.targetVersion, semverGt);
        return Fail(NotInstalled(RootId));
      }
      r := RunLoad(str, isInstall, U);
      RootGrew(old(deps), deps);
    }

    /** The continuations of `loadAsync` on the main package, once its synchronous part has
        marked it loaded and read its manifest `str`. */
    method RunLoad(str: Option<PackageConfig>, isInstall: bool, ghost U: set<string>) returns (r: Outcome<Error>)
      requires Valid() && Bounded(U) && deps.Keys == {RootId}
      requires deps[RootId].isLoaded && deps[RootId].config.None? && deps[RootId].resolvedVersion == ""
      requires str == ReadConfig(host.store, RootId) && ConfigKeys(str) <= U && (isInstall || str.Some?)
      modifies this, host
      ensures Valid() && Prefix(old(order), order) && AllLoaded(deps)
      ensures r.Pass? ==> Closed() && Reached(deps)
      ensures !isInstall ==> host.store == old(host.store)
      ensures !isInstall ==> (r.Pass? <==> Loadable(old(host.store), app.targetVersion, semverGt))
      ensures !isInstall && r.Pass? ==> ParsedFrom(deps, old(host.store), app.targetVersion, semverGt)
    {
      ghost var store0 := host.store;
      StartLoading(deps, str, U, isInstall);
      ghost var S: set<string>, want: map<string, string> := {}, map[];
      ghost var pre := !isInstall && Loadable(store0, app.targetVersion, semverGt);
      if pre {
        S, want :| LoadableWith(store0, S, want, app.targetVersion, semverGt);
        assert Within(deps, S, want);
      }
      assert OnTrack(deps, [RootId], map[RootId := str], store0, app.targetVersion, semverGt);
      SingleOrder(order, RootId);
      assert Parented(deps, order);
      ghost var o0 := order;
      r := Drain([RootId], map[RootId := str], isInstall, U, S, want);
      if r.Pass? {
        assert order[0] == o0[0];
        RegisteredReached(deps, order, app.bundledpkgs.Keys);
      }
      if pre {
        assert r.Pass?;
      }
      if !isInstall && r.Pass? {
        LoadableIntro(store0, deps.Keys, SpecsOf(deps), app.targetVersion, semverGt);
      }
    }

    /** `sortedDeps()`: the walk from the main package, as packages. Every package appears once,
        the main package last, and every dependency of a listed package is listed. */
    method SortedDeps() returns (pkgs: seq<Node>)
      requires Valid() && Closed()
      ensures SortedOk(deps, pkgs)
      ensures forall i :: 0 <= i < |BuildOrder.Order(GraphOf(deps), RootId)| ==> BuildOrder.Order(GraphOf(deps), RootId)[i] in deps
      ensures pkgs == NodesOf(deps, BuildOrder.Order(GraphOf(deps), RootId))
    {
      var visited, ids := BuildOrder.Rec(GraphOf(deps), RootId, {}, []);
      OrderFacts(deps, order, app.bundledpkgs.Keys);
      pkgs := NodesOf(deps, ids);
    }

    /** `generateFile(fn, cont)` of `getCompileOptionsAsync`: a file the main manifest does not
        list is an error; otherwise the file holds `cont` between the generated-code markers,
        and it is written only when it held something else. */
    method GenerateFile(fn: string, cont: string) returns (r: Outcome<Error>)
      requires RootId in deps && HasConfig(deps[RootId]) && fn != ConfigName
      modifies host
      ensures fn !in deps[RootId].config.value.files.value ==> r == Fail(NotInFiles(fn)) && host.store == old(host.store)
      ensures fn in deps[RootId].config.value.files.value ==> r == Pass && ReadText(host.store, RootId, fn) == Some(Compile.Wrap(cont))
      ensures old(ReadText(host.store, RootId, fn)) == Some(Compile.Wrap(cont)) ==> host.store == old(host.store)
      ensures forall g :: g != fn ==> ReadText(host.store, RootId, g) == old(ReadText(host.store, RootId, g))
      ensures r.Pass? ==> host.store == WriteText(old(host.store), RootId, fn, Compile.Wrap(cont))
    {
      if fn !in deps[RootId].config.value.files.value {
        return Fail(NotInFiles(fn));
      }
      var text := Compile.Wrap(cont);
      if ReadText(host.store, RootId, fn) != Some(text) {
        host.WriteFile(RootId, fn, text);
      }
      r := Pass;
    }

    /** `filesToBePublishedAsync(allowPrivate)`: after loading, a private package is refused
        unless `allowPrivate`; otherwise every file of the main package, plus the sanitised
        manifest under `pxt.json`, sorted by name. */
    method FilesToBePublished(allowPrivate: bool) returns (r: Result<seq<(string, Entry)>, Error>)
      requires Valid() && (deps[RootId].isLoaded ==> Closed())
      modifies this, host
      ensures Valid() && Grew(old(deps), deps) && Prefix(old(order), order)
      ensures old(deps[RootId].isLoaded) ==> deps == old(deps) && order == old(order)
      ensures host.store == old(host.store)
      ensures r.Ok? ==> Closed() && Publish.Published(deps[RootId], host.store, allowPrivate, r)
      ensures old(deps[RootId].isLoaded) || Loadable(old(host.store), app.targetVersion, semverGt) ==>
        Closed() && Publish.Published(deps[RootId], host.store, allowPrivate, r)
      ensures !old(deps[RootId].isLoaded) && !Loadable(old(host.store), app.targetVersion, semverGt) ==> r.Err?
      ensures !old(deps[RootId].isLoaded) && Loadable(old(host.store), app.targetVersion, semverGt) ==>
        Reached(deps) && ParsedFrom(deps, host.store, app.targetVersion, semverGt)
    {
      var loaded := LoadRoot(false);
      if loaded.Fail? {
        return Err(loaded.error);
      }
      assert ExpandedIn(deps, RootId);
      r := Publish.PublishedFiles(deps[RootId], host.store, allowPrivate);
    }

    /** The two `generateFile` calls of `getCompileOptionsAsync`, each made only when the
        extension info has content for that file: `shims.d.ts` first, then `enums.d.ts`. */
    method GenerateAll(ext: Compile.ExtensionInfo) returns (r: Outcome<Error>)
      requires RootId in deps && HasConfig(deps[RootId])
      modifies host
      ensures r.Pass? <==> Generable(deps[RootId].config.value.files.value, ext)
      ensures ext.shimsDTS != "" && ShimsName !in deps[RootId].config.value.files.value ==> r == Fail(NotInFiles(ShimsName))
      ensures (ext.shimsDTS == "" || ShimsName in deps[RootId].config.value.files.value) ==>
                ext.enumsDTS != "" && EnumsName !in deps[RootId].config.value.files.value ==> r == Fail(NotInFiles(EnumsName))
      ensures r.Pass? ==> Generated(host.store, ext)
      ensures host.store == GenerateStore(old(host.store), deps[RootId].config.value.files.value, ext)
    {
      if ext.shimsDTS != "" {
        r := GenerateFile(ShimsName, ext.shimsDTS);
        if r.Fail? {
          return;
        }
      }
      if ext.enumsDTS != "" {
        r := GenerateFile(EnumsName, ext.enumsDTS);
        if r.Fail? {
          return;
        }
      }
      r := Pass;
    }

    /** The snapshot `getCompileOptionsAsync` embeds: none for a binary-only package, otherwise
        the publishable files and their header; it fails exactly when a file of the main
        package cannot be read, reporting the first. */
    method Embed() returns (r: Result<Option<Snapshot>, Error>)
      requires Valid() && Closed()
      modifies this, host
      ensures deps == old(deps) && order == old(order) && host.store == old(host.store)
      ensures HasConfig(deps[RootId])
      ensures deps[RootId].config.value.binaryonly ==> r == Ok(None)
      ensures !deps[RootId].config.value.binaryonly ==> (r.Ok? <==> Publish.AllReadable(host.store, RootId, GetFiles(deps[RootId])))
      ensures !deps[RootId].config.value.binaryonly && r.Err? ==> Publish.FirstMissing(host.store, RootId, GetFiles(deps[RootId]), r.error)
      ensures r.Ok? ==> Embedded(deps[RootId], host.store, app.id, r.value)
    {
      assert ExpandedIn(deps, RootId);
      var root := deps[RootId];
      if root.config.value.binaryonly {
        return Ok(None);
      }
      var files := FilesToBePublished(true);
      if files.Err? {
        return Err(files.error);
      }
      var header := Compile.SnapshotHeader(root.config.value, app.id, Publish.Lookup(files.value, "main.blocks"));
      r := Ok(Some(Snapshot(header, files.value)));
    }

    /** The final loop of `getCompileOptionsAsync`, over `sortedDeps()`. */
    method BuildSources() returns (sourceFiles: seq<string>, fileSystem: map<string, Option<string>>)
      requires Valid() && Closed()
      ensures BuiltFrom(deps, host.store, sourceFiles, fileSystem)
    {
      var pkgs := SortedDeps();
      sourceFiles, fileSystem := Compile.CollectSources(pkgs, host.store);
    }

    /** `getCompileOptionsAsync(target)`, with the extension info and the hex info the host
        would compute passed in: load; write the generated `shims.d.ts` and `enums.d.ts` when
        there is content for them; keep the hex info only for a native target; embed the
        publishable snapshot unless the package is binary-only; and list the `.ts`/`.asm`
        files of every package in build order, with their contents. */
    method GetCompileOptions(target: Compile.CompileTarget, ext: Compile.ExtensionInfo, hexinfo: string) returns (r: Result<CompileOptions, Error>)
      requires Valid() && (deps[RootId].isLoaded ==> Closed())
      modifies this, host
      ensures Valid() && Grew(old(deps), deps) && Prefix(old(order), order)
      ensures old(deps[RootId].isLoaded) ==> deps == old(deps) && order == old(order)
      ensures old(deps[RootId].isLoaded) || Loadable(old(host.store), app.targetVersion, semverGt) ==>
        Closed() && HasConfig(deps[RootId]) && CompileOutcome(deps[RootId], host.store, ext, r) &&
        host.store == GenerateStore(old(host.store), deps[RootId].config.value.files.value, ext)
      ensures !old(deps[RootId].isLoaded) && !Loadable(old(host.store), app.targetVersion, semverGt) ==>
        r.Err? && host.store == old(host.store)
      ensures !old(deps[RootId].isLoaded) && Loadable(old(host.store), app.targetVersion, semverGt) ==>
        Reached(deps) && ParsedFrom(deps, old(host.store), app.targetVersion, semverGt)
      ensures r.Ok? ==> Closed() && HasConfig(deps[RootId])
      ensures r.Ok? ==> Generated(host.store, ext) && Embedded(deps[RootId], host.store, app.id, r.value.embed)
      ensures r.Ok? ==> r.value.target == target && r.value.extinfo == Compile.Sanitize(ext)
      ensures r.Ok? ==> r.value.hexinfo == (if target.isNative then Some(hexinfo) else None)
      ensures r.Ok? ==> BuiltFrom(deps, host.store, r.value.sourceFiles, r.value.fileSystem)
    {
      var loaded := LoadRoot(false);
      if loaded.Fail? {
        return Err(loaded.error);
      }
      r := CompileLoaded(target, ext, hexinfo);
    }

    /** The continuation of `getCompileOptionsAsync` once the main package is loaded. */
    method CompileLoaded(target: Compile.CompileTarget, ext: Compile.ExtensionInfo, hexinfo: string) returns (r: Result<CompileOptions, Error>)
      requires Valid() && Closed()
      modifies this, host
      ensures deps == old(deps) && order == old(order) && HasConfig(deps[RootId])
      ensures CompileOutcome(deps[RootId], host.store, ext, r)
      ensures host.store == GenerateStore(old(host.store), deps[RootId].config.value.files.value, ext)
      ensures r.Ok? ==> Generated(host.store, ext) && Embedded(deps[RootId], host.store, app.id, r.value.embed)
      ensures r.Ok? ==> r.value.target == target && r.value.extinfo == Compile.Sanitize(ext)
      ensures r.Ok? ==> r.value.hexinfo == (if target.isNative then Some(hexinfo) else None)
      ensures r.Ok? ==> BuiltFrom(deps, host.store, r.value.sourceFiles, r.value.fileSystem)
    {
      assert ExpandedIn(deps, RootId);
      var written := GenerateAll(ext);
      if written.Fail? {
        return Err(written.error);
      }
      var hex := if target.isNative then Some(hexinfo) else None;
      var embed := Embed();
      if embed.Err? {
        return Err(embed.error);
      }
      var sources, fileSystem := BuildSources();
      r := Ok(CompileOptions(sources, fileSystem, target, Compile.Sanitize(ext), hex, embed.value));
    }

    /** `localizationStrings(lang)`: the strings of every registered package, in registration
        order, merged so that a key keeps the first translation that was not empty. */
    method LocalizationStrings(lang: string, decode: string -> map<string, string>) returns (loc: map<string, string>)
      requires Valid() && Closed()
      ensures LoadedIn(deps, order)
      ensures loc == Locale.AllStrings(NodesOf(deps, order), host.store, lang, decode)
      ensures forall k :: k in loc <==> exists i :: 0 <= i < |order| && k in Locale.PackageStrings(deps[order[i]], host.store, lang, decode)
    {
      ClosedLoaded(deps, order, app.bundledpkgs.Keys);
      loc := Locale.MergeAll(NodesOf(deps, order), host.store, lang, decode);
      StringsKeys(deps, order, host.store, lang, decode);
    }
  }
}
