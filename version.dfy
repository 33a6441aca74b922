/** Version specs `[protocol:]argument`, protocol dispatch and version resolution. */
module Version {
  import opened Wrappers
  import opened Strings
  import opened Errors

  /** The first index of ':' in `s`, if any. */
  function ColonIndex(s: string): (r: Option<nat>)
    ensures r.Some? ==> r.value < |s| && s[r.value] == ':' && ':' !in s[..r.value]
    ensures r.None? ==> ':' !in s
  {
    if s == [] then None
    else if s[0] == ':' then Some(0)
    else match ColonIndex(s[1..])
      case None => None
      case Some(i) =>
        assert s[..i + 1] == [s[0]] + s[1..][..i];
        Some(i + 1)
  }

  /** `version()`: the resolved version when one was set, else the declared spec. */
  function PackageVersion(resolvedVersion: string, verspec: string): (r: string)
    ensures resolvedVersion != "" ==> r == resolvedVersion
    ensures resolvedVersion == "" ==> r == verspec
  {
    if resolvedVersion != "" then resolvedVersion else verspec
  }

  /** `verProtocol()`: `split(':')` has more than one piece exactly when there is a colon,
      and then the protocol is the first piece. */
  function VerProtocol(v: string): (r: string)
    ensures ':' !in r
    ensures ':' in v ==> |r| < |v| && v[..|r|] == r && v[|r|] == ':'
    ensures ':' !in v ==> r == ""
  {
    match ColonIndex(v)
    case None => ""
    case Some(i) => v[..i]
  }

  /** `verArgument()`: what follows `protocol:`, or the whole version when the protocol is empty. */
  function VerArgument(v: string): (r: string)
    ensures VerProtocol(v) != "" ==> VerProtocol(v) + ":" + r == v
    ensures VerProtocol(v) == "" ==> r == v
  {
    var p := VerProtocol(v);
    if p != "" then
      assert v == v[..|p|] + ":" + v[|p| + 1..];
      v[|p| + 1..]
    else v
  }

  /** The protocol of a version as a closed variant; `Local` covers no protocol, `file:`,
      `workspace:` and every other protocol, for which there is nothing to download. */
  datatype Source = Pub(scriptId: string) | Github(repo: string) | Embed(scriptId: string) | Local

  function Dispatch(v: string): (s: Source)
  {
    var p := VerProtocol(v);
    if p == "pub" then Pub(VerArgument(v))
    else if p == "github" then Github(VerArgument(v))
    else if p == "embed" then Embed(VerArgument(v))
    else Local
  }

  function Render(s: Source): string
    requires !s.Local?
  {
    match s
    case Pub(id) => "pub:" + id
    case Github(repo) => "github:" + repo
    case Embed(id) => "embed:" + id
  }

  /** The protocol of `p + ":" + a` is `p` whenever `p` has no colon. */
  lemma {:induction false} ProtocolOfPrefixed(p: string, a: string)
    requires p != "" && ':' !in p
    ensures VerProtocol(p + ":" + a) == p && VerArgument(p + ":" + a) == a
  {
    var v := p + ":" + a;
    assert v[|p|] == ':' && v[..|p|] == p;
    assert ':' in v;
    assert v[|p| + 1..] == a;
  }

  lemma DispatchRender(s: Source)
    requires !s.Local?
    ensures Dispatch(Render(s)) == s
  {
    match s
    case Pub(id) =>
      assert "pub:" == "pub" + ":";
      ProtocolOfPrefixed("pub", id);
    case Github(repo) =>
      assert "github:" == "github" + ":";
      ProtocolOfPrefixed("github", repo);
    case Embed(id) =>
      assert "embed:" == "embed" + ":";
      ProtocolOfPrefixed("embed", id);
  }

  lemma RenderDispatch(v: string)
    requires !Dispatch(v).Local?
    ensures Render(Dispatch(v)) == v
  {
    var p, a := VerProtocol(v), VerArgument(v);
    assert p != "" && p + ":" + a == v;
    assert Render(Dispatch(v)) == p + ":" + a by {
      if p == "pub" {
        assert "pub:" + a == "pub" + ":" + a;
      } else if p == "github" {
        assert "github:" + a == "github" + ":" + a;
      } else {
        assert "embed:" + a == "embed" + ":" + a;
      }
    }
  }

  /** `getEmbeddedScript(id)`: the target's bundled files for a package id. */
  function EmbeddedScript(bundle: map<string, map<string, string>>, id: string): (r: Option<map<string, string>>)
    ensures r.Some? <==> id in bundle
    ensures r.Some? ==> r.value == bundle[id]
  {
    if id in bundle then Some(bundle[id]) else None
  }

  /** What `commonDownloadAsync` fetches for a version. The cloud and GitHub fetches are network
      calls and are left as the request they would make; `embed:` reads the bundle directly. */
  datatype Download = FromCloud(scriptId: string) | FromGithub(repo: string) | FromBundle(files: Option<map<string, string>>) | NoDownload

  function CommonDownload(bundle: map<string, map<string, string>>, v: string): (r: Download)
    ensures Dispatch(v) == Pub(VerArgument(v)) <==> r == FromCloud(VerArgument(v))
    ensures Dispatch(v) == Github(VerArgument(v)) <==> r == FromGithub(VerArgument(v))
    ensures Dispatch(v).Embed? <==> r.FromBundle?
    ensures r.FromBundle? ==> r.files == EmbeddedScript(bundle, VerArgument(v))
    ensures Dispatch(v).Local? <==> r.NoDownload?
  {
    match Dispatch(v)
    case Pub(id) => FromCloud(id)
    case Github(repo) => FromGithub(repo)
    case Embed(id) => FromBundle(EmbeddedScript(bundle, id))
    case Local => NoDownload
  }

  /** `resolveVersionAsync`: an embedded package resolves to `embed:<id>` whatever its spec;
      otherwise the declared spec, which must not be empty or `*`. */
  function ResolveVersion(bundle: map<string, map<string, string>>, id: string, verspec: string): (r: Result<string, Error>)
    ensures id in bundle ==> r == Ok("embed:" + id)
    ensures id !in bundle ==> (r.Err? <==> verspec == "" || verspec == "*")
    ensures id !in bundle && r.Ok? ==> r.value == verspec
    ensures r.Err? ==> r.error == VersionNotSpecified(verspec)
  {
    if EmbeddedScript(bundle, id).Some? then Ok("embed:" + id)
    else if verspec == "" || verspec == "*" then Err(VersionNotSpecified(verspec))
    else Ok(verspec)
  }

  /** An embedded package downloads from the bundle, under its own id, whatever it declared. */
  lemma EmbeddedResolvesToBundle(bundle: map<string, map<string, string>>, id: string, verspec: string)
    requires id in bundle
    ensures ResolveVersion(bundle, id, verspec).Ok?
    ensures Dispatch(ResolveVersion(bundle, id, verspec).value) == Embed(id)
    ensures CommonDownload(bundle, ResolveVersion(bundle, id, verspec).value) == FromBundle(Some(bundle[id]))
  {
    assert "embed:" == "embed" + ":";
    ProtocolOfPrefixed("embed", id);
  }
}
