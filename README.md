# pxt package graph engine, modelled in Dafny

This project models the package engine of PXT (`pxtlib/main.ts`).
- A **main package** is the project being edited. It is registered under the id `this` with the spec `file:.`.
- On load, the main package reads its manifest `pxt.json`, validates it and resolves every dependency it declares.
  - A dependency is identified by id and version spec.
  - A spec may carry a protocol: `pub:`, `github:`, `embed:`, or none.
  - Dependencies come from the host's file store, from a download, or from the packages bundled with the target.
- All packages share one `deps` map.
- From the loaded graph the engine derives:
  - a deterministic build order (`sortedDeps`);
  - the compiler's input (`getCompileOptionsAsync`): the `.ts`/`.asm` sources of every package in build order, the generated declaration files, and an embedded snapshot of the project;
  - the file list that is published (`filesToBePublishedAsync`);
  - the merged localised strings (`localizationStrings`).

The modules follow the structure of the code:
- `Wrappers` and `Errors`: option, result and outcome types, and the user errors the engine raises.
- `Strings`: prefixes, suffixes, `strcmp` order, and sorted listings of key sets.
- `Version`: `version()`, `verProtocol()` and `verArgument()`, the protocol dispatch of `commonDownloadAsync`, and `resolveVersionAsync`.
- `Manifest`: the manifest record, the legacy-dependency patch, `validateConfig` and `parseConfig`.
- `PackageNode`:
  - a `Package` as a value: id, spec, level, loaded flag, resolved version and manifest;
  - the host's file store as a map from package id to its files;
  - `getFiles()`.
- `BuildOrder`: `sortedDeps` as a specification function (`Visit`/`VisitAll`) over the dependency graph, and the recursive method `Rec` with its loop.
- `Compile`:
  - `getTargetOptions`;
  - the generated-file wrapper and the extension-info stripping;
  - the snapshot header;
  - the nested source-collection loops.
- `Publish`: the sanitised manifest, the file-collection loop, `addSnapshot`, and the key-sorted result.
- `Locale`: the locale-file choice of `packageLocalizationStrings` and the first-writer-wins merge.
- `Packages`: the `Host` class (a mutable file store), and the `MainPackage` class.
  - `deps` (id to node) and `order` (registration order) are fields that its methods update.
  - The class holds the loader `loadAsync`. Its synchronous part (mark the package loaded, read its manifest) runs when the package is registered (`AddDep`, `LoadRoot`). What it chains with `.then` becomes a continuation in a queue, which `Drain` runs: `Settle` parses the manifest and, when installing, downloads (`Download`, `Install`); `Expand` then registers every dependency in one pass (`ExpandDeps`, `RegisterDep`, `Recheck`, `LowerLevel`, `AddDep`, `Insert`). So all dependencies of a package are registered before any of them registers its own.
  - It also holds `sortedDeps`, `generateFile`, `filesToBePublishedAsync`, `getCompileOptionsAsync` and `localizationStrings`.

How the loader terminates:
- It carries a ghost set `U` of every id that any reachable manifest mentions.
- Each new registration shrinks `U - deps.Keys`.

When a load without install succeeds:
- A store is `Loadable` when some set of ids holding the main package, each under one wanted spec, is closed: each manifest is stored and parses (`Parsed`), and each dependency it declares is in the set and normalises to the wanted spec.
- `Drain` carries `OnTrack`: a settled package holds its parsed stored manifest, and a queued one the manifest read from the store. It also carries `Within`: every registered id is in the chosen set, under its wanted spec.
- A load on track over a loadable store meets no refusal, so it succeeds. A successful load is itself such a set (`TrackDone`). So `LoadRoot(false)` succeeds exactly when the store is `Loadable`.
- What is loaded is fixed too. Each registered package then holds its parsed stored manifest (`ParsedFrom`).
- Every id registered after the root was registered as a dependency of an earlier package that held its manifest (`Parented`). So the registered ids are exactly those the build order reaches from the root (`Reached`, with or without install).
- Two graphs with both properties over one store are equal in ids and manifests (`LoadDetermined`). So the graph a load without install produces is determined by the store.

The invariant `Valid()` holds throughout:
- The root is under `this` with spec `file:.`.
- Every node sits under its own id.
- The root has level 0 and every other package level 1.
- A held manifest passed validation.
- `order` lists each registered id once.

Two consequences of the code are worth stating:
- **Levels.** Every dependency is constructed with the main package as its parent, so it starts at level 1 (`pxtlib/main.ts:225-228`, `365`). A later reference only lowers a level to the minimum of the two (`362`). Every non-root level is therefore 1, and the model proves it.
- **Compile prefix.** Dependency sources are listed under `pxt_modules/<id>/` (`pxtlib/main.ts:529`).

## Model

| member | source | states |
|---|---|---|
| Strings.StrLtIrreflexive | pxtlib/main.ts:434 | `strcmp` order is irreflexive |
| Strings.StrLtAsymmetric | pxtlib/main.ts:434 | `strcmp` order is asymmetric |
| Strings.StrLtTotal | pxtlib/main.ts:434 | any two distinct strings are ordered one way or the other |
| Strings.StrLtTransitive | pxtlib/main.ts:434 | `strcmp` order is transitive |
| Strings.LeastExists | pxtlib/main.ts:433-434 | every non-empty key set has a least key |
| Strings.LeastUnique | pxtlib/main.ts:433-434 | the least key is unique |
| Strings.SortedSet | pxtlib/main.ts:433-434 | the result lists every key of the set exactly once, in strictly ascending `Strings.StrLt` order |
| Strings.SortedUnique | pxtlib/main.ts:433-434 | two strictly ascending listings of the same keys are equal, so the sort is deterministic |
| Version.ColonIndex | pxtlib/main.ts:236 | the index found holds the first `:`; none is found exactly when there is no `:` |
| Version.PackageVersion | pxtlib/main.ts:231-233 | the resolved version when set, otherwise the declared spec |
| Version.VerProtocol | pxtlib/main.ts:235-239 | the text before the first `:`, or `""` when there is no colon; it never contains `:` |
| Version.VerArgument | pxtlib/main.ts:241-245 | `protocol + ":" + argument` rebuilds the version when the protocol is non-empty, else the argument is the whole version |
| Version.ProtocolOfPrefixed | pxtlib/main.ts:235-245 | for a colon-free non-empty `p`, `p + ":" + a` has protocol `p` and argument `a` |
| Version.DispatchRender | pxtlib/main.ts:247-259 | dispatching a rendered `pub:`/`github:`/`embed:` spec gives back the same variant |
| Version.RenderDispatch | pxtlib/main.ts:247-259 | a spec with a download protocol is exactly the rendering of its dispatch |
| Version.EmbeddedScript | pxtlib/main.ts:215-217 | the bundle entry of a package id, present exactly when the id is bundled |
| Version.CommonDownload | pxtlib/main.ts:247-259 | `pub:` asks the cloud, `github:` asks GitHub, `embed:` reads the bundle under the argument, and every other protocol fetches nothing; each iff |
| Version.ResolveVersion | pxtlib/main.ts:278-287 | a bundled id resolves to `embed:<id>` whatever its spec; otherwise an empty or `*` spec fails with VersionNotSpecified and any other spec is kept |
| Version.EmbeddedResolvesToBundle | pxtlib/main.ts:278-287 | a bundled package always resolves, dispatches to Embed of its own id, and downloads its bundle entry |
| Manifest.StripLegacyDeps | pxtlib/main.ts:331-333 | the dependencies lose exactly the five legacy keys `microbit-led`, `microbit-music`, `microbit-game`, `microbit-pins` and `microbit-serial`; every other field and dependency spec is kept |
| Manifest.ValidateConfig | pxtlib/main.ts:314-326 | passes exactly for a valid manifest; otherwise fails with the first failing check, in the order: dependencies, files, name (non-empty, public-name pattern when `public`), target version |
| Manifest.ValidIsWellFormed | pxtlib/main.ts:314-321 | a validated manifest has dependencies, files and a non-empty name |
| Manifest.ParseConfig | pxtlib/main.ts:328-335 | validation applies to the stripped manifest; the result is that manifest, with no legacy dependency; an error is the validator's first error |
| Manifest.ParseKeepsKeys | pxtlib/main.ts:332-333 | parsing only removes dependency ids |
| PackageNode.Read | pxtlib/main.ts:263-265 | `readFile`: `pxt.json` is the stored manifest, any other name the stored text; absent exactly when the store lacks it |
| PackageNode.GetFiles | pxtlib/main.ts:373-378 | the root's files followed by its test files; any other package's files alone |
| PackageNode.NormalizeSpec | pxtlib/main.ts:358 | an empty spec becomes `*`; a non-empty one is kept |
| PackageNode.Stamped | pxtlib/main.ts:303-304 | a non-root manifest gets `installedVersion` set to the version; the root's is unchanged; nothing else changes |
| Compile.TargetOptions | pxtlib/main.ts:453-461 | a missing target becomes non-native without hex; with hex an undefined `jsRefCounting` becomes true and an undefined `floatingPoint` stays undefined; without hex an undefined `floatingPoint` becomes true and an undefined `jsRefCounting` stays undefined; defined fields are kept |
| Compile.TargetOptionsIdempotent | pxtlib/main.ts:453-461 | defaulting twice is defaulting once |
| Compile.Wrap | pxtlib/main.ts:474 | the generated text starts with the header marker, ends with the footer marker, and holds the content in between |
| Compile.WrapInjective | pxtlib/main.ts:474-475 | equal wrapped texts have equal contents, so "unchanged file" means "unchanged content" |
| Compile.Sanitize | pxtlib/main.ts:489-493 | `compileData`, `generatedFiles` and `extensionFiles` are removed; the other fields are kept |
| Compile.EditorFor | pxtlib/main.ts:506 | `blocksprj` exactly when a non-empty `main.blocks` is among the files, else `tsprj` |
| Compile.SnapshotHeader | pxtlib/main.ts:500-507 | the header carries the manifest's name, description and installed version, status `unpublished`, cloud id `pxt/<target>`, and the editor choice |
| Compile.SourceName | pxtlib/main.ts:527-529 | a root file keeps its path; a level > 0 file is placed under `pxt_modules/<id>/` |
| Compile.SourceNameKeepsSuffix | pxtlib/main.ts:526-529 | prefixing keeps a `.ts`/`.asm` name a source name |
| Compile.SourceNameInjective | pxtlib/main.ts:527-531 | distinct files of one package get distinct compiler paths |
| Compile.PackageSourcesFiltered | pxtlib/main.ts:525-530 | a package contributes exactly the compiler paths of its `.ts`/`.asm` files |
| Compile.PackageFileSystemKeys | pxtlib/main.ts:530-531 | the file-system keys of a package are exactly its listed sources |
| Compile.PackageFileSystemContent | pxtlib/main.ts:531 | each source file's entry holds that file's content |
| Compile.FileSystemMatchesSources | pxtlib/main.ts:524-534 | across all packages, every listed source has a file-system entry and every entry is listed |
| Compile.SourcesAreSourceFiles | pxtlib/main.ts:524-534 | only `.ts`/`.asm` names reach the compiler, and every such file of every package does |
| Compile.LastPackageWins | pxtlib/main.ts:524-534 | a root source file (last in build order) keeps its path and its content |
| Compile.CollectPackage | pxtlib/main.ts:525-533 | the inner loop appends exactly the package's sources and entries to what it was given |
| Compile.CollectSources | pxtlib/main.ts:524-534 | the nested loops produce the source list and file system of the packages in order |
| Locale.ToLower | pxtlib/main.ts:397 | ASCII upper-case letters are lowered, everything else is kept, and the length is the same |
| Locale.LocaleFile | pxtlib/main.ts:396-405 | the full-language file if declared, else the two-letter one when the tag is longer than two characters, else none; a chosen file is always declared |
| Locale.PackageStrings | pxtlib/main.ts:392-409 | the keys of the `-jsdoc` and own strings; own strings win over `-jsdoc` strings |
| Locale.MergeFirst | pxtlib/main.ts:447-448 | a key holding a non-empty translation keeps it; every other key of the new map takes the new translation; no key is lost |
| Locale.MergeInto | pxtlib/main.ts:447-448 | the key loop computes the first-writer-wins merge |
| Locale.MergeAll | pxtlib/main.ts:444-449 | the loop over packages computes their merge in order |
| Locale.AllStringsKeys | pxtlib/main.ts:442-451 | a key is merged exactly when some package translates it |
| Locale.FirstTranslationWins | pxtlib/main.ts:442-451 | once a package has supplied a non-empty translation, later packages do not change it |
| Publish.RewrittenSpecs | pxtlib/main.ts:562-566 | same keys; empty, `file:` and `workspace:` specs become `*`; others are kept; no local spec remains |
| Publish.RewriteLocalSpecs | pxtlib/main.ts:562-566 | the in-place rewrite loop computes the rewritten specs |
| Publish.SanitizedConfig | pxtlib/main.ts:560-566 | the published manifest has no `installedVersion` and no local-only spec; every other field is unchanged |
| Publish.SanitizeConfig | pxtlib/main.ts:560-566 | the clone-and-rewrite computes the sanitised manifest |
| Publish.CollectFiles | pxtlib/main.ts:567-573 | succeeds exactly when every file is readable and reports the first unreadable one; the map holds the manifest and every file as read |
| Publish.AddSnapshot | pxtlib/main.ts:380-387 | adds `<id>/<f>` for each file with a matching suffix, and `<id>/pxt.json`, each holding what the host reads; every other entry, including those of files without a matching suffix, stays |
| Publish.PathInjective | pxtlib/main.ts:383-386 | `<id>/<f>` determines `f` |
| Publish.SortedEntries | pxtlib/main.ts:575 | the entries of the map, each key once, in strictly ascending `strcmp` order |
| Publish.Lookup | pxtlib/main.ts:506 | a found entry is in the list under that key; nothing found means no entry has the key |
| Publish.LookupSorted | pxtlib/main.ts:575 | sorting loses nothing: a key finds its own entry, and only keys of the map are found |
| Publish.SortedLookups | pxtlib/main.ts:575 | every key of the sorted map finds its own entry |
| Publish.SortedFileLookups | pxtlib/main.ts:567-575 | in the sorted result each file finds its content and the manifest its entry; nothing else is found |
| Publish.CollectFailed | pxtlib/main.ts:568-571 | a missing file makes publishing fail with that file |
| Publish.CollectSorted | pxtlib/main.ts:567-575 | the sorted collected files are the package's published content |
| Publish.PublishedFiles | pxtlib/main.ts:558-575 | private without override fails NotPublic; otherwise it succeeds exactly when every file is readable, and a failure reports the first unreadable file in list order; the result is sorted and holds the files as read and the sanitised manifest |
| BuildOrder.PrefixElems | pxtlib/main.ts:436 | a prefix of the pushed ids lists no id the whole list lacks |
| BuildOrder.Visit | pxtlib/main.ts:430-437 | `rec` only adds to the visited set, and always marks its package |
| BuildOrder.VisitAll | pxtlib/main.ts:435 | the walk over sorted siblings only adds to the visited set |
| BuildOrder.Rec | pxtlib/main.ts:430-437 | the recursive closure with its loop over sorted dependencies computes the specified walk |
| BuildOrder.VisitGrows | pxtlib/main.ts:430-437 | one visit extends the order, pushes no id twice, pushes exactly what it newly visits, and leaves every newly visited id with its dependencies visited |
| BuildOrder.VisitAllGrows | pxtlib/main.ts:435 | the same for the sibling loop, which also visits every sibling |
| BuildOrder.OrderSound | pxtlib/main.ts:427-440 | the order has no duplicates, ends with the root, and lists every dependency of a listed id |
| BuildOrder.VisitWithin | pxtlib/main.ts:430-437 | a visit reaches only ids within a dependency-closed set holding its start |
| BuildOrder.VisitAllWithin | pxtlib/main.ts:435 | the same for the sibling loop |
| BuildOrder.OrderReachableOnly | pxtlib/main.ts:427-440 | the order lists only ids reachable from the root |
| BuildOrder.DepsFirstPrefix | pxtlib/main.ts:436 | a prefix of a dependencies-first order is dependencies-first |
| BuildOrder.DepsFirstAppend | pxtlib/main.ts:436 | pushing an id whose dependencies are all listed keeps the order dependencies-first |
| BuildOrder.VisitDepsFirst | pxtlib/main.ts:430-437 | on a ranked (acyclic) graph a visit keeps every dependency before its dependent |
| BuildOrder.VisitAllDepsFirst | pxtlib/main.ts:435 | the same for the sibling loop |
| BuildOrder.OrderDepsFirst | pxtlib/main.ts:427-440 | on an acyclic graph every dependency appears before its dependent |
| Packages.Host.constructor | pxtlib/main.ts:98-105 | the host starts with the given store and download source |
| Packages.Host.WriteFile | pxtlib/main.ts:100 | the new store is `PackageNode.WriteText` of the old: exactly that file of that package holds the new text; its manifest and other files are unchanged |
| PackageNode.WriteText | pxtlib/main.ts:100 | after the write the file holds the text; every manifest and every other file keep their contents; writing what is already there leaves the store as it was |
| Packages.Host.SaveConfig | pxtlib/main.ts:273-276 | the package's manifest is replaced; its other files stay |
| Packages.Host.DownloadPackage | pxtlib/main.ts:297 | a fetchable version replaces the package's files; any other fails with DownloadFailed and changes nothing |
| Packages.GraphOf | pxtlib/main.ts:433 | the dependency graph has one entry per package, its declared ids, and is closed |
| Packages.UpdateValid | pxtlib/main.ts:342-362 | replacing a node by a well-formed one with the same spec keeps the graph valid |
| Packages.InsertValid | pxtlib/main.ts:365-366 | registering a new well-formed node and appending its id keeps the graph valid |
| Packages.LevelsOnlyExpanded | pxtlib/main.ts:362 | lowering levels and registering packages keeps an expanded package expanded |
| Packages.RefusedAt | pxtlib/main.ts:359-367 | a dependency not yet handled is refused against the current graph exactly when it is refused against the graph the pass started from, with the same error |
| Packages.LowerStep | pxtlib/main.ts:359-363 | lowering the level of a registered dependency with a matching spec extends the pass by that id |
| Packages.AddStep | pxtlib/main.ts:364-367 | registering a new, unrefused dependency extends the pass by that id, appended to the order and the queue |
| Packages.ExpandingDone | pxtlib/main.ts:356-369 | once every dependency is handled the package is expanded, and the state between continuations holds again |
| Packages.StartLoading | pxtlib/main.ts:342-352 | after the synchronous part on the main package, its continuation is the only one queued |
| Packages.RoundProgress | pxtlib/main.ts:354-370 | each round of the load registers a new package or shortens the queue, so the load ends |
| Packages.Parsed | pxtlib/main.ts:343-348 | a package's stored manifest as a load without install settles it: present exactly when it is stored and parses, and then well-formed |
| Packages.SpecsOf | pxtlib/main.ts:365-366 | the spec each registered package was registered under |
| Packages.RootUnreadable | pxtlib/main.ts:343-346 | a store without the main manifest is not loadable |
| Packages.TrackParses | pxtlib/main.ts:347-348 | on track over a loadable store, every queued package's manifest is stored and parses |
| Packages.TrackSettled | pxtlib/main.ts:347-348 | settling a queued package with its parsed manifest keeps the load on track |
| Packages.WithinSettled | pxtlib/main.ts:347-352 | settling keeps every registered package within the chosen set under its wanted spec |
| Packages.NoneRefused | pxtlib/main.ts:354-370 | within a loadable set, no dependency of a settled package is refused: a registered one has the same spec, a new one has its manifest stored |
| Packages.TrackExpanded | pxtlib/main.ts:354-370 | an expansion keeps the load on track: each new package is queued with the manifest read from the store |
| Packages.WithinExpanded | pxtlib/main.ts:354-370 | the packages an expansion registers are dependencies of a package of the set, so the graph stays within it |
| Packages.TrackDone | pxtlib/main.ts:337-371 | once the queue is empty, every registered package holds its parsed stored manifest and every dependency is registered under its normalised spec, so the registered ids witness a loadable store |
| Packages.RegisteredReached | pxtlib/main.ts:362-367 | a loaded graph in which every registration has a parent registers exactly the ids the build order reaches from the root |
| Packages.ParentedSettled | pxtlib/main.ts:347-352 | settling a package that held no manifest keeps every registration's parent |
| Packages.ParentedExpanded | pxtlib/main.ts:354-370 | an expansion registers only dependencies of the expanded package, after it, so every registration keeps a parent |
| Packages.ReachedWithin | pxtlib/main.ts:337-371 | of two reached graphs holding one store's manifests, the ids of one lie in the other, with the same manifests |
| Packages.LoadDetermined | pxtlib/main.ts:337-371 | two reached graphs holding one store's manifests register the same ids with the same manifests: the load is determined by the store |
| Packages.NodesOf | pxtlib/main.ts:439 | `ids.map(resolveDep)`: the i-th node is the one under the i-th id |
| Packages.OrderFacts | pxtlib/main.ts:427-440 | on a loaded graph, the build order lists loaded packages once each, the root last, and every dependency of a listed package |
| Packages.ClosedLoaded | pxtlib/main.ts:444 | every registered package of a loaded graph has a manifest |
| Packages.StringsKeys | pxtlib/main.ts:442-451 | a key is merged exactly when some registered package translates it |
| Packages.MainPackage.constructor | pxtlib/main.ts:412-421 | the main package registers itself, unloaded, under `this` with spec `file:.` at level 0 |
| Packages.MainPackage.ResolveDep | pxtlib/main.ts:267-271 | the registered node under the id, present exactly when registered; the root is found at level 0 |
| Packages.MainPackage.Download | pxtlib/main.ts:278-312 | `Downloaded` of the old and new node and store: resolution failure is reported with nothing changed; the resolved version is recorded; an installed version skips the download with manifest and store kept; otherwise the install outcome |
| Packages.MainPackage.Install | pxtlib/main.ts:297-306 | download failure changes nothing; a download without manifest fails; the manifest is re-validated; on success it is stamped (non-root) and saved with the downloaded files |
| Packages.MainPackage.Settle | pxtlib/main.ts:347-352 | a stored manifest is parsed first, and a parse error is reported with nothing changed; without install a parsed manifest becomes the package's; when installing and the parse passed (or there was no manifest), the outcome is that of the download of the parsed node; only that package's manifest and resolved version change, and the store only when installing |
| Packages.MainPackage.Expand | pxtlib/main.ts:354-370 | the pass fails exactly when some dependency is refused (registered under another spec, or new and, without install, without a manifest), with VersionMismatch or NotInstalled for it; on success the package has every dependency registered, the new ids are appended to the order and to the queue in the same order, and existing nodes change at most their level |
| Packages.MainPackage.ExpandDeps | pxtlib/main.ts:356-369 | the loop over the dependencies stops at the first refused one: it passes only when no dependency is refused, and then every dependency is registered under its normalised spec; a failure names a refused dependency with its error |
| Packages.MainPackage.RegisterDep | pxtlib/main.ts:357-368 | a registered id leaves the order and queue alone; an unknown id is appended to the order and the queue, with its manifest as read; a failure means the id is refused, with its error |
| Packages.MainPackage.Recheck | pxtlib/main.ts:358-363 | another spec fails VersionMismatch with nothing changed; the same spec changes only that node's level, to the minimum |
| Packages.MainPackage.LowerLevel | pxtlib/main.ts:362 | the level becomes `min(level, this.level + 1)`; nothing else changes |
| Packages.MainPackage.AddDep | pxtlib/main.ts:364-367 | a new node under the id with the requested spec at level 1, marked loaded and appended to the order; it returns the stored manifest and fails (NotInstalled) exactly when there is none and no install |
| Packages.MainPackage.Insert | pxtlib/main.ts:365-366 | the graph gains exactly the new loaded node under the id, and the order gains exactly that id |
| Packages.MainPackage.Drain | pxtlib/main.ts:348-370 | running the queued continuations keeps every registered package loaded and only extends the order; success leaves every registered package with all its dependencies registered, and keeps every registration parented; without install the store is unchanged, a load on track over a loadable store succeeds, and a successful one registers a loadable set in which each package holds its parsed stored manifest |
| Packages.MainPackage.Step | pxtlib/main.ts:347-370 | one continuation keeps the graph valid and loaded, extends the order, leaves the store alone without install, cannot fail on a loadable store, and on success keeps the load on track and every registration parented, and makes progress: new registrations, or a shorter queue |
| Packages.MainPackage.SettleNext | pxtlib/main.ts:347-352 | taking the head of the queue without install (any entry with install) and settling it leaves the package ready to expand, with every registration still parented; on a loadable store it passes with the manifest read and parsed from the store and no dependency refused |
| Packages.MainPackage.ExpandNext | pxtlib/main.ts:354-370 | expanding the settled package cannot fail within a loadable set; on success it keeps the load on track, within the set and parented, and makes progress: new registrations, or the shorter queue |
| Packages.MainPackage.LoadRoot | pxtlib/main.ts:337-371 | a loaded main package passes with nothing changed; a first load that succeeds registers exactly the packages reached from the root; without install the store is unchanged, a missing manifest fails NotInstalled, a first load succeeds exactly when the store is `Loadable`, and then each package holds its parsed stored manifest; no node is lost or changes its spec |
| Packages.MainPackage.LoadFresh | pxtlib/main.ts:338-371 | a first load grows the graph and marks the main package loaded; on success it registers exactly the packages reached from the root, all loaded; without install the store is unchanged, a missing manifest fails NotInstalled, the load succeeds exactly when the store is `Loadable`, and each package then holds its parsed stored manifest |
| Packages.MainPackage.RunLoad | pxtlib/main.ts:346-371 | from the main package marked loaded and its manifest read, the rest of the first load leaves every registered package loaded; on success the graph is closed and registers exactly the packages reached from the root; without install the store is unchanged, the load succeeds exactly when the store is `Loadable`, and each package then holds its parsed stored manifest |
| Packages.MainPackage.SortedDeps | pxtlib/main.ts:427-440 | the walk's packages: each once, the root last, every dependency of a listed package listed, determined by the dependency graph alone |
| Packages.MainPackage.GenerateFile | pxtlib/main.ts:471-479 | an unlisted file fails and writes nothing; otherwise the new store is the old with the wrapped content written to that file, unchanged when it already held it; other files are untouched |
| Packages.MainPackage.FilesToBePublished | pxtlib/main.ts:553-577 | the store is unchanged; when the main package loaded before or the store is loadable, the publish result of the main package: NotPublic, the first unreadable file, or the sorted published content; on a first load that graph is the reached one and each package holds its parsed stored manifest, so the result is bound to the store; otherwise an error |
| Packages.MainPackage.GenerateAll | pxtlib/main.ts:484-486 | succeeds exactly when each file with non-empty content is listed; an unlisted shims file fails first, then an unlisted enums file; on success both non-empty files are generated; the new store is exactly `GenerateStore` of the old |
| Packages.GenerateStore | pxtlib/main.ts:484-486 | the generation step changes no manifest and no file other than `shims.d.ts` and `enums.d.ts` of the main package; both are generated when listed; an already generated store, or an unlisted shims file, leaves the store as it was |
| Packages.MainPackage.Embed | pxtlib/main.ts:497-507 | a binary-only package gives no snapshot; otherwise it succeeds exactly when every file is readable, fails with the first unreadable one, and on success holds the published files with their header |
| Packages.MainPackage.BuildSources | pxtlib/main.ts:523-534 | the sources and file system of every package in build order |
| Packages.MainPackage.GetCompileOptions | pxtlib/main.ts:463-537 | when the main package loaded before or the store is loadable, the new store is exactly `GenerateStore` of the old and the outcome is decided: success exactly when the generated files are listed and the snapshot files are readable (or the package is binary-only), else the shims, enums or first missing-file error; on a first load the graph is the reached one with each package holding its parsed stored manifest; otherwise an error with the store unchanged; on success the target is kept, the extension info stripped, the hex info only for native targets, the snapshot embedded, and the sources in build order |
| Packages.MainPackage.CompileLoaded | pxtlib/main.ts:481-537 | on a loaded main package nothing but the store changes, the new store is exactly `GenerateStore` of the old, and the outcome, generated files, snapshot, options and sources are as stated for `GetCompileOptions` |
| Packages.MainPackage.LocalizationStrings | pxtlib/main.ts:442-451 | the first-writer-wins merge over the registered packages in registration order; a key is present exactly when some package translates it |

## Left out

- I/O and encodings:
  - JSON stringify/parse is not modelled: the manifest is stored parsed, and locale files are decoded by an abstract `decode` parameter.
  - LZMA compression, `btoa` and `embedMeta` are not modelled; the snapshot is kept as header plus file list.
  - Logging, debug flags and error hooks are not modelled.
- Network and foreign calls:
  - Cloud and GitHub fetches are represented by the request they would make (`Version.CommonDownload`).
  - `host.downloadPackageAsync` is a lookup in a fixed map from (id, version) to files.
  - `cpp.getExtensionInfo` and `getHexInfoAsync` are parameters of `GetCompileOptions`. A failed hex-info fetch, which rejects `getCompileOptionsAsync` in the code (`pxtlib/main.ts:487`), is not modelled. So `CompileOutcome`'s success condition assumes the fetch succeeded.
  - `pxtc.compile` and `pxtc.service` (`buildAsync`, `serviceAsync`) are left out.
- `semver.strcmp` is an abstract comparison `semverGt`.
- Host caching (`cacheStoreAsync`, `cacheGetAsync`) is not used by the engine and is left out.
- Concurrency: without install the continuations run first in, first out, as promise reactions queued at registration do. With install each waits for its download, which may finish in any order, so the model lets any queued continuation run next. In the code a failed continuation rejects the load while the others keep running; the model stops at the first failure.
- Packages.MainPackage.ExpandDeps: dependencies are a map in the model, so siblings register in an unspecified order; the code registers them in the manifest's key order, which is one of the orders the model allows. Which of two refused siblings is reported is therefore not fixed.
- Packages.MainPackage.LocalizationStrings: merges in registration order (`order`). `Util.values(this.deps)` lists integer-like ids first, in numeric order, which is not modelled; and with sibling order unspecified, the model also allows registration orders the code does not produce for a given manifest.
- Strings.StrLt compares characters by Unicode scalar value, while JavaScript's `<` compares UTF-16 code units; the two orders differ exactly when a character above U+FFFF is compared with one in U+E000–U+FFFF.
- Strings.SortedSet: sorts by `Strings.StrLt`, so for such names the sibling order of `sortedDeps` may differ from the code's.
- Publish.SortedEntries: sorts by `Strings.StrLt`, with the same UTF-16 difference. Also, `sortObjectFields` returns an object, and JavaScript enumerates its integer-like keys first, in numeric order (a file `9` before `10`); the model keeps the sorted list instead.
- Locale.MergeFirst: the code tests `!loc[k]` on a plain `{}` (`pxtlib/main.ts:448`). There a key named after an `Object.prototype` member (`constructor`, `toString`, `valueOf`, `hasOwnProperty`, …) reads as already taken, so the code never merges such a key. The model has no prototype and merges it like any other key. `Packages.MainPackage.LocalizationStrings` inherits the difference.
- `jsonMergeFrom` is modelled as a flat map union; locale files hold flat string maps.
- `toLowerCase` is modelled on ASCII letters only.
- `Packages.MainPackage.LoadRoot`: a load that failed leaves the main package marked loaded with an incomplete graph, and the code does not retry it. The model requires a loaded main package to be completely loaded, so operations after a failed load are not modelled.
- `Packages.MainPackage.FilesToBePublished`: when the load fails, only the load error is reported. Without install that happens exactly when the store is not `Loadable`, so the publish properties hold exactly for a main package loaded before or a loadable store.
- `Packages.MainPackage.GetCompileOptions`:
  - `target` is a parameter; its default is `Compile.TargetOptions` of the target's compile settings.
  - `extinfo` and `hexinfo` are reduced to the fields the engine touches.
  - The target's compile settings, `Compile.CompileTarget`, are reduced to four fields: `isNative`, `hasHex`, `jsRefCounting` and `floatingPoint`.
  - The whole graph is loaded first, so a failed `sortedDeps` debug listing is not modelled.
- `Packages.MainPackage.GenerateFile` is stated for names other than `pxt.json`, which are the only names the engine passes (`shims.d.ts`, `enums.d.ts`).
- `Manifest.ValidateConfig`: a manifest whose fields have the wrong JSON type is modelled as absent (None) for `name`, `files` and `dependencies`.
- A failed validation in the code leaves the rejected manifest on the package. The model keeps the earlier (absent) one, since nothing reads it after the error.
