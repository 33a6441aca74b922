/** Localised strings: the choice of locale file per package and the merge over all packages. */
module Locale {
  import opened Wrappers
  import opened Strings
  import opened PackageNode

  /** `toLowerCase()` on ASCII letters; other characters are left as they are. */
  function ToLower(s: string): (r: string)
    ensures |r| == |s|
    ensures forall i :: 0 <= i < |s| ==> r[i] == (if 'A' <= s[i] <= 'Z' then (s[i] as int + 32) as char else s[i])
  {
    if s == [] then []
    else [if 'A' <= s[0] <= 'Z' then (s[0] as int + 32) as char else s[0]] + ToLower(s[1..])
  }

  function LocalePath(lang: string, name: string): string {
    "_locales/" + ToLower(lang) + "/" + name + "-strings.json"
  }

  /** The locale file of `packageLocalizationStrings` for `name`: the full language if the package
      declares it, else the two-letter language when the tag is longer than two characters. */
  function LocaleFile(files: seq<string>, name: string, lang: string): (r: Option<string>)
    ensures r.Some? ==> r.value in files
    ensures LocalePath(lang, name) in files ==> r == Some(LocalePath(lang, name))
    ensures LocalePath(lang, name) !in files && |lang| > 2 && LocalePath(lang[..2], name) in files ==>
      r == Some(LocalePath(lang[..2], name))
    ensures r.None? <==> LocalePath(lang, name) !in files && (|lang| <= 2 || LocalePath(lang[..2], name) !in files)
  {
    if LocalePath(lang, name) in files then Some(LocalePath(lang, name))
    else if |lang| > 2 && LocalePath(lang[..2], name) in files then Some(LocalePath(lang[..2], name))
    else None
  }

  /** The decoded strings of one locale file, if one is chosen; a file the host does not have
      parses as `null`, which is dropped. */
  function StringsOf(n: Node, store: Store, name: string, lang: string, decode: string -> map<string, string>): Option<map<string, string>>
    requires HasConfig(n)
  {
    match LocaleFile(n.config.value.files.value, name, lang)
    case None => None
    case Some(fn) =>
      match ReadText(store, n.id, fn)
      case None => None
      case Some(t) => Some(decode(t))
  }

  /** `packageLocalizationStrings(lang)`: the `<id>-jsdoc` strings, overwritten by the `<id>` strings. */
  function PackageStrings(n: Node, store: Store, lang: string, decode: string -> map<string, string>): (r: map<string, string>)
    requires HasConfig(n)
    ensures var doc := StringsOf(n, store, n.id + "-jsdoc", lang, decode).GetOr(map[]);
            var own := StringsOf(n, store, n.id, lang, decode).GetOr(map[]);
            r.Keys == doc.Keys + own.Keys &&
            (forall k :: k in own ==> r[k] == own[k]) &&
            (forall k :: k in doc && k !in own ==> r[k] == doc[k])
  {
    var doc := StringsOf(n, store, n.id + "-jsdoc", lang, decode).GetOr(map[]);
    var own := StringsOf(n, store, n.id, lang, decode).GetOr(map[]);
    doc + own
  }

  /** A translation that is set and non-empty (a truthy `loc[k]`). */
  predicate Taken(loc: map<string, string>, k: string) {
    k in loc && loc[k] != ""
  }

  /** `for (k in depLoc) if (!loc[k]) loc[k] = depLoc[k]`: a key already holding a non-empty
      translation keeps it; every other key of `d` takes `d`'s. */
  function MergeFirst(loc: map<string, string>, d: map<string, string>): (r: map<string, string>)
    ensures r.Keys == loc.Keys + d.Keys
    ensures forall k :: Taken(loc, k) ==> r[k] == loc[k]
    ensures forall k :: k in d && !Taken(loc, k) ==> r[k] == d[k]
    ensures forall k :: k in loc && k !in d ==> r[k] == loc[k]
  {
    map k | k in loc.Keys + d.Keys :: if k in d && !Taken(loc, k) then d[k] else loc[k]
  }

  method MergeInto(loc: map<string, string>, d: map<string, string>) returns (r: map<string, string>)
    ensures r == MergeFirst(loc, d)
  {
    r := loc;
    var todo := d.Keys;
    while todo != {}
      invariant todo <= d.Keys
      invariant r.Keys == loc.Keys + (d.Keys - todo)
      invariant forall k :: k in r && k !in d.Keys - todo ==> r[k] == loc[k]
      invariant forall k :: k in d.Keys - todo ==> r[k] == (if Taken(loc, k) then loc[k] else d[k])
      decreases todo
    {
      var k :| k in todo;
      if !Taken(r, k) {
        r := r[k := d[k]];
      }
      todo := todo - {k};
    }
  }

  /** `localizationStrings(lang)` over the packages `ns` in the order of the dependency map. */
  function AllStrings(ns: seq<Node>, store: Store, lang: string, decode: string -> map<string, string>): map<string, string>
    requires forall i :: 0 <= i < |ns| ==> HasConfig(ns[i])
  {
    if ns == [] then map[]
    else MergeFirst(AllStrings(ns[..|ns| - 1], store, lang, decode), PackageStrings(ns[|ns| - 1], store, lang, decode))
  }

  /** The `forEach` of `localizationStrings`: each package's strings merged in turn. */
  method MergeAll(ns: seq<Node>, store: Store, lang: string, decode: string -> map<string, string>) returns (loc: map<string, string>)
    requires forall i :: 0 <= i < |ns| ==> HasConfig(ns[i])
    ensures loc == AllStrings(ns, store, lang, decode)
  {
    loc := map[];
    for i := 0 to |ns|
      invariant loc == AllStrings(ns[..i], store, lang, decode)
    {
      assert ns[..i + 1][..i] == ns[..i];
      var strings := PackageStrings(ns[i], store, lang, decode);
      loc := MergeInto(loc, strings);
    }
    assert ns[..|ns|] == ns;
  }

  /** The merged keys are exactly the keys some package translates. */
  lemma {:induction false} AllStringsKeys(ns: seq<Node>, store: Store, lang: string, decode: string -> map<string, string>, k: string)
    requires forall i :: 0 <= i < |ns| ==> HasConfig(ns[i])
    ensures k in AllStrings(ns, store, lang, decode) <==> exists i :: 0 <= i < |ns| && k in PackageStrings(ns[i], store, lang, decode)
  {
    if ns != [] {
      var init := ns[..|ns| - 1];
      AllStringsKeys(init, store, lang, decode, k);
      if k in AllStrings(init, store, lang, decode) {
        var i :| 0 <= i < |init| && k in PackageStrings(init[i], store, lang, decode);
        assert ns[i] == init[i];
      }
      if exists i :: 0 <= i < |ns| && k in PackageStrings(ns[i], store, lang, decode) {
        var i :| 0 <= i < |ns| && k in PackageStrings(ns[i], store, lang, decode);
        if i < |ns| - 1 { assert init[i] == ns[i]; }
      }
    }
  }

  /** First writer wins: once a package supplies a non-empty translation, later packages do not change it. */
  lemma {:induction false} FirstTranslationWins(ns: seq<Node>, store: Store, lang: string, decode: string -> map<string, string>, i: nat, k: string)
    requires forall j :: 0 <= j < |ns| ==> HasConfig(ns[j])
    requires i <= |ns| && Taken(AllStrings(ns[..i], store, lang, decode), k)
    ensures k in AllStrings(ns, store, lang, decode)
    ensures AllStrings(ns, store, lang, decode)[k] == AllStrings(ns[..i], store, lang, decode)[k]
    decreases |ns| - i
  {
    if i < |ns| {
      var next := ns[..i + 1];
      assert next[..i] == ns[..i];
      assert Taken(AllStrings(next, store, lang, decode), k);
      FirstTranslationWins(ns, store, lang, decode, i + 1, k);
    } else {
      assert ns[..i] == ns;
    }
  }
}
