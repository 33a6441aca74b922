/** The pure parts of `getCompileOptionsAsync`: target defaults, the generated-file wrapper,
    the sanitised extension info, the embedded-snapshot header and the compiler's source list. */
module Compile {
  import opened Wrappers
  import opened Strings
  import opened Manifest
  import opened PackageNode

  /** The fields of `pxtc.CompileTarget` this engine reads or defaults. */
  datatype CompileTarget = CompileTarget(isNative: bool, hasHex: bool, jsRefCounting: Option<bool>, floatingPoint: Option<bool>)

  /** `getTargetOptions()` on `appTarget.compile`. */
  function TargetOptions(compile: Option<CompileTarget>): (r: CompileTarget)
    ensures compile.None? ==> !r.isNative && !r.hasHex
    ensures compile.Some? ==> r.isNative == compile.value.isNative && r.hasHex == compile.value.hasHex
    ensures r.hasHex ==> r.jsRefCounting.Some?
    ensures r.hasHex && (compile.None? || compile.value.jsRefCounting.None?) ==> r.jsRefCounting == Some(true)
    ensures !r.hasHex ==> r.floatingPoint.Some?
    ensures !r.hasHex && (compile.None? || compile.value.floatingPoint.None?) ==> r.floatingPoint == Some(true)
    ensures compile.Some? && compile.value.jsRefCounting.Some? ==> r.jsRefCounting == compile.value.jsRefCounting
    ensures compile.Some? && compile.value.floatingPoint.Some? ==> r.floatingPoint == compile.value.floatingPoint
    ensures r.hasHex && (compile.None? || compile.value.floatingPoint.None?) ==> r.floatingPoint.None?
    ensures !r.hasHex && (compile.None? || compile.value.jsRefCounting.None?) ==> r.jsRefCounting.None?
  {
    var res := compile.GetOr(CompileTarget(false, false, None, None));
    var res := if res.hasHex && res.jsRefCounting.None? then res.(jsRefCounting := Some(true)) else res;
    if !res.hasHex && res.floatingPoint.None? then res.(floatingPoint := Some(true)) else res
  }

  /** Defaulting is idempotent: the options it returns need no further defaults. */
  lemma TargetOptionsIdempotent(compile: Option<CompileTarget>)
    ensures TargetOptions(Some(TargetOptions(compile))) == TargetOptions(compile)
  {
  }

  const GeneratedHeader := "// Auto-generated. Do not edit.\n"
  const GeneratedFooter := "\n// Auto-generated. Do not edit. Really.\n"

  /** The content `generateFile` writes for `cont`. */
  function Wrap(cont: string): (r: string)
    ensures StartsWith(r, GeneratedHeader) && EndsWith(r, GeneratedFooter)
    ensures |r| == |GeneratedHeader| + |cont| + |GeneratedFooter|
  {
    GeneratedHeader + cont + GeneratedFooter
  }

  /** The wrapped content determines the content, so "the wrapped text is unchanged" means
      "the generated text is unchanged". */
  lemma WrapInjective(a: string, b: string)
    requires Wrap(a) == Wrap(b)
    ensures a == b
  {
    var h := |GeneratedHeader|;
    assert a == Wrap(a)[h..h + |a|];
    assert b == Wrap(b)[h..h + |b|];
  }

  /** The fields of `pxtc.ExtensionInfo` this engine reads or strips. */
  datatype ExtensionInfo = ExtensionInfo(
    shimsDTS: string, enumsDTS: string, sha: string,
    compileData: Option<string>, generatedFiles: Option<seq<string>>, extensionFiles: Option<seq<string>>)

  /** The extension info attached to the options: `compileData`, `generatedFiles` and
      `extensionFiles` deleted from a shallow clone, everything else as it was. */
  function Sanitize(ext: ExtensionInfo): (r: ExtensionInfo)
    ensures r.compileData.None? && r.generatedFiles.None? && r.extensionFiles.None?
    ensures r.shimsDTS == ext.shimsDTS && r.enumsDTS == ext.enumsDTS && r.sha == ext.sha
  {
    ext.(compileData := None, generatedFiles := None, extensionFiles := None)
  }

  /** The header of the embedded snapshot, before its JSON encoding. */
  datatype Header = Header(name: string, comment: Option<string>, status: string, scriptId: Option<string>, cloudId: string, editor: string)

  /** `U.lookup(files, "main.blocks") ? "blocksprj" : "tsprj"`, given what the lookup found: the
      lookup is taken as a condition, so an empty `main.blocks` counts as absent. */
  function EditorFor(mainBlocks: Option<Entry>): (r: string)
    ensures r == "blocksprj" <==> mainBlocks.Some? && mainBlocks.value != Text("")
    ensures r == "blocksprj" || r == "tsprj"
  {
    if mainBlocks.Some? && mainBlocks.value != Text("") then "blocksprj" else "tsprj"
  }

  function SnapshotHeader(c: PackageConfig, targetId: string, mainBlocks: Option<Entry>): (r: Header)
    requires c.name.Some?
    ensures r.name == c.name.value && r.comment == c.description && r.status == "unpublished"
    ensures r.scriptId == c.installedVersion && r.cloudId == "pxt/" + targetId
    ensures r.editor == EditorFor(mainBlocks)
  {
    Header(c.name.value, c.description, "unpublished", c.installedVersion, "pxt/" + targetId, EditorFor(mainBlocks))
  }

  /** `/\.(ts|asm)$/`. */
  predicate IsSourceFile(f: string) {
    EndsWith(f, ".ts") || EndsWith(f, ".asm")
  }

  const ModulesDir := "pxt_modules/"

  /** Where a package's file lives in the compiler's file system. */
  function SourceName(n: Node, f: string): (r: string)
    ensures n.level == 0 ==> r == f
    ensures n.level > 0 ==> r == ModulesDir + n.id + "/" + f
  {
    if n.level > 0 then ModulesDir + n.id + "/" + f else f
  }

  lemma SourceNameKeepsSuffix(n: Node, f: string)
    requires IsSourceFile(f)
    ensures IsSourceFile(SourceName(n, f))
  {
    var r := SourceName(n, f);
    assert r[|r| - |f|..] == f;
    if EndsWith(f, ".ts") {
      assert r[|r| - 3..] == f[|f| - 3..];
    } else {
      assert r[|r| - 4..] == f[|f| - 4..];
    }
  }

  lemma SourceNameInjective(n: Node, f: string, f': string)
    requires SourceName(n, f) == SourceName(n, f')
    ensures f == f'
  {
    if n.level > 0 {
      var p := ModulesDir + n.id + "/";
      assert f == SourceName(n, f)[|p|..];
      assert f' == SourceName(n, f')[|p|..];
    }
  }

  /** The source names the inner loop pushes for the files `fs` of package `n`, in order. */
  function PackageSources(n: Node, fs: seq<string>): seq<string>
  {
    if fs == [] then []
    else
      var f := fs[|fs| - 1];
      PackageSources(n, fs[..|fs| - 1]) + (if IsSourceFile(f) then [SourceName(n, f)] else [])
  }

  /** The `fileSystem` entries the inner loop writes for `fs`, later writes winning. */
  function PackageFileSystem(n: Node, fs: seq<string>, store: Store): map<string, Option<string>>
  {
    if fs == [] then map[]
    else
      var f := fs[|fs| - 1];
      var m := PackageFileSystem(n, fs[..|fs| - 1], store);
      if IsSourceFile(f) then m[SourceName(n, f) := ReadText(store, n.id, f)] else m
  }

  /** The source list for the packages `ns` in build order. */
  function AllSources(ns: seq<Node>): seq<string>
    requires forall i :: 0 <= i < |ns| ==> HasConfig(ns[i])
  {
    if ns == [] then []
    else AllSources(ns[..|ns| - 1]) + PackageSources(ns[|ns| - 1], GetFiles(ns[|ns| - 1]))
  }

  function AllFileSystem(ns: seq<Node>, store: Store): map<string, Option<string>>
    requires forall i :: 0 <= i < |ns| ==> HasConfig(ns[i])
  {
    if ns == [] then map[]
    else AllFileSystem(ns[..|ns| - 1], store) + PackageFileSystem(ns[|ns| - 1], GetFiles(ns[|ns| - 1]), store)
  }

  lemma {:induction false} PackageSourcesFiltered(n: Node, fs: seq<string>)
    ensures forall s :: s in PackageSources(n, fs) ==> IsSourceFile(s)
    ensures forall f :: f in fs && IsSourceFile(f) ==> SourceName(n, f) in PackageSources(n, fs)
    ensures forall s :: s in PackageSources(n, fs) ==> exists f :: f in fs && IsSourceFile(f) && s == SourceName(n, f)
  {
    if fs != [] {
      var init := fs[..|fs| - 1];
      var f := fs[|fs| - 1];
      PackageSourcesFiltered(n, init);
      if IsSourceFile(f) { SourceNameKeepsSuffix(n, f); }
      assert fs == init + [f];
      forall s | s in PackageSources(n, fs) ensures exists f :: f in fs && IsSourceFile(f) && s == SourceName(n, f) {
        if s in PackageSources(n, init) {
          var g :| g in init && IsSourceFile(g) && s == SourceName(n, g);
          assert g in fs;
        } else {
          assert f in fs;
        }
      }
    }
  }

  lemma {:induction false} PackageFileSystemKeys(n: Node, fs: seq<string>, store: Store)
    ensures PackageFileSystem(n, fs, store).Keys == Elems(PackageSources(n, fs))
  {
    if fs != [] {
      PackageFileSystemKeys(n, fs[..|fs| - 1], store);
    }
  }

  /** Within one package every source file's entry holds that file's content. */
  lemma {:induction false} PackageFileSystemContent(n: Node, fs: seq<string>, store: Store, f: string)
    requires f in fs && IsSourceFile(f)
    ensures SourceName(n, f) in PackageFileSystem(n, fs, store)
    ensures PackageFileSystem(n, fs, store)[SourceName(n, f)] == ReadText(store, n.id, f)
  {
    var last := fs[|fs| - 1];
    var init := fs[..|fs| - 1];
    assert fs == init + [last];
    if f == last {
    } else {
      assert f in init;
      PackageFileSystemContent(n, init, store, f);
      if IsSourceFile(last) && SourceName(n, last) == SourceName(n, f) {
        SourceNameInjective(n, last, f);
      }
    }
  }

  /** Every listed source has a `fileSystem` entry and every entry is listed. */
  lemma {:induction false} FileSystemMatchesSources(ns: seq<Node>, store: Store)
    requires forall i :: 0 <= i < |ns| ==> HasConfig(ns[i])
    ensures AllFileSystem(ns, store).Keys == Elems(AllSources(ns))
  {
    if ns != [] {
      FileSystemMatchesSources(ns[..|ns| - 1], store);
      PackageFileSystemKeys(ns[|ns| - 1], GetFiles(ns[|ns| - 1]), store);
    }
  }

  /** Only `.ts` and `.asm` files reach the compiler, and every one of a package's does. */
  lemma {:induction false} SourcesAreSourceFiles(ns: seq<Node>)
    requires forall i :: 0 <= i < |ns| ==> HasConfig(ns[i])
    ensures forall s :: s in AllSources(ns) ==> IsSourceFile(s)
    ensures forall i, f :: 0 <= i < |ns| && f in GetFiles(ns[i]) && IsSourceFile(f) ==> SourceName(ns[i], f) in AllSources(ns)
  {
    if ns != [] {
      var init := ns[..|ns| - 1];
      SourcesAreSourceFiles(init);
      PackageSourcesFiltered(ns[|ns| - 1], GetFiles(ns[|ns| - 1]));
      forall i, f | 0 <= i < |ns| && f in GetFiles(ns[i]) && IsSourceFile(f) ensures SourceName(ns[i], f) in AllSources(ns) {
        if i < |ns| - 1 {
          assert ns[i] == init[i];
        }
      }
    }
  }

  /** Files of the last package (the root, in build order) keep their path and their content. */
  lemma LastPackageWins(ns: seq<Node>, store: Store, f: string)
    requires forall i :: 0 <= i < |ns| ==> HasConfig(ns[i])
    requires ns != [] && ns[|ns| - 1].level == 0
    requires f in GetFiles(ns[|ns| - 1]) && IsSourceFile(f)
    ensures f in AllFileSystem(ns, store) && AllFileSystem(ns, store)[f] == ReadText(store, ns[|ns| - 1].id, f)
  {
    PackageFileSystemContent(ns[|ns| - 1], GetFiles(ns[|ns| - 1]), store, f);
  }

  /** One more file extends the package's sources and entries by that file alone. */
  lemma PackageStep(n: Node, files: seq<string>, j: nat, store: Store)
    requires j < |files|
    ensures PackageSources(n, files[..j + 1]) ==
      PackageSources(n, files[..j]) + (if IsSourceFile(files[j]) then [SourceName(n, files[j])] else [])
    ensures PackageFileSystem(n, files[..j + 1], store) ==
      (if IsSourceFile(files[j]) then PackageFileSystem(n, files[..j], store)[SourceName(n, files[j]) := ReadText(store, n.id, files[j])]
       else PackageFileSystem(n, files[..j], store))
  {
    assert files[..j + 1][..j] == files[..j];
  }

  lemma UnionUpdate(a: map<string, Option<string>>, b: map<string, Option<string>>, k: string, v: Option<string>)
    ensures (a + b)[k := v] == a + b[k := v]
  {
  }

  /** The inner loop of the compile step: push the sources of `files` and record their content. */
  method CollectPackage(pkg: Node, files: seq<string>, store: Store, sources0: seq<string>, fs0: map<string, Option<string>>)
    returns (sourceFiles: seq<string>, fileSystem: map<string, Option<string>>)
    ensures sourceFiles == sources0 + PackageSources(pkg, files)
    ensures fileSystem == fs0 + PackageFileSystem(pkg, files, store)
  {
    sourceFiles, fileSystem := sources0, fs0;
    for j := 0 to |files|
      invariant sourceFiles == sources0 + PackageSources(pkg, files[..j])
      invariant fileSystem == fs0 + PackageFileSystem(pkg, files[..j], store)
    {
      var f := files[j];
      PackageStep(pkg, files, j, store);
      if IsSourceFile(f) {
        var sn := f;
        if pkg.level > 0 {
          sn := ModulesDir + pkg.id + "/" + f;
        }
        UnionUpdate(fs0, PackageFileSystem(pkg, files[..j], store), sn, ReadText(store, pkg.id, f));
        sourceFiles := sourceFiles + [sn];
        fileSystem := fileSystem[sn := ReadText(store, pkg.id, f)];
      }
    }
    assert files[..|files|] == files;
  }

  /** The nested loops of the compile step: for each package in build order, for each of its files,
      push the sources and record their content. */
  method CollectSources(ns: seq<Node>, store: Store) returns (sourceFiles: seq<string>, fileSystem: map<string, Option<string>>)
    requires forall i :: 0 <= i < |ns| ==> HasConfig(ns[i])
    ensures sourceFiles == AllSources(ns)
    ensures fileSystem == AllFileSystem(ns, store)
  {
    sourceFiles, fileSystem := [], map[];
    for i := 0 to |ns|
      invariant sourceFiles == AllSources(ns[..i])
      invariant fileSystem == AllFileSystem(ns[..i], store)
    {
      assert ns[..i + 1][..i] == ns[..i];
      sourceFiles, fileSystem := CollectPackage(ns[i], GetFiles(ns[i]), store, sourceFiles, fileSystem);
    }
    assert ns[..|ns|] == ns;
  }
}
