/**
 * The decisions the ingestion script (ckp.py) takes for one input item:
 * whether a source is remote, how a GitHub page URL is turned into a raw
 * content URL, which blob name is used, whether a downloaded response is
 * real content, and what `upload_blob` finally does with the item.
 *
 * Everything the script asks of the outside world (HTTP GET, opening a local
 * file, the blob service) is a `World` value: the answers it would give.
 */
module Ingest {
  import opened Wrappers
  import opened PyStr
  import opened PosixPath

  const Github: string := "github.com"
  const RawGithub: string := "raw.githubusercontent.com"
  const BlobSegment: string := "/blob/"
  const HtmlType: string := "text/html"

  // ---------------------------------------------------------------- sources

  /** A source is remote when it starts with `http://` or `https://` (case matters). */
  predicate IsRemote(source: string)
  {
    "http://" <= source || "https://" <= source
  }

  /** The part of an http(s) URL after `scheme://`. */
  function AfterScheme(url: string): (rest: string)
    requires IsRemote(url)
    ensures |rest| < |url| && url[|url| - |rest|..] == rest
    ensures url[..|url| - |rest|] == "http://" || url[..|url| - |rest|] == "https://"
  {
    if "http://" <= url then url[7..] else url[8..]
  }

  /** The characters that end the network location of a URL. */
  predicate EndsNetloc(c: char)
  {
    c == '/' || c == '?' || c == '#'
  }

  /** The longest prefix of `s` holding none of `/`, `?` and `#`. */
  function UntilNetlocEnd(s: string): (host: string)
    ensures host <= s
    ensures forall c :: c in host ==> !EndsNetloc(c)
    ensures |host| < |s| ==> EndsNetloc(s[|host|])
    decreases |s|
  {
    if s == [] || EndsNetloc(s[0]) then []
    else [s[0]] + UntilNetlocEnd(s[1..])
  }

  /**
   * `urlparse(url).netloc` for a URL that starts with `http://` or
   * `https://`: the text after `://` up to the first `/`, `?` or `#`.
   */
  function NetLoc(url: string): (host: string)
    requires IsRemote(url)
  {
    UntilNetlocEnd(AfterScheme(url))
  }

  /**
   * `urlparse` refuses a network location that has a `[` without a `]`, or
   * the other way round, by raising `ValueError("Invalid IPv6 URL")`.
   */
  predicate UnbalancedBrackets(netloc: string)
  {
    ('[' in netloc) != (']' in netloc)
  }

  /**
   * `convert_github_url`: when the network location contains `github.com`,
   * every `github.com` in the WHOLE URL becomes `raw.githubusercontent.com`
   * and then every `/blob/` becomes `/`; otherwise the URL is kept. `None`
   * stands for the `ValueError` that `urlparse` raises.
   */
  function ConvertGithubUrl(url: string): (r: Option<string>)
    requires IsRemote(url)
  {
    var host := NetLoc(url);
    if UnbalancedBrackets(host) then None
    else if Contains(host, Github) then
      Some(ReplaceAll(ReplaceAll(url, Github, RawGithub), BlobSegment, "/"))
    else Some(url)
  }

  // ------------------------------------------------ convert_github_url facts

  /** The network location is a stretch of the URL itself. */
  lemma NetLocIsSlice(url: string) returns (lo: nat)
    requires IsRemote(url)
    ensures lo + |NetLoc(url)| <= |url| && url[lo..lo + |NetLoc(url)|] == NetLoc(url)
  {
    var rest := AfterScheme(url);
    var host := NetLoc(url);
    lo := |url| - |rest|;
    assert rest[..|host|] == host;
    assert url[lo..lo + |host|] == rest[..|host|];
  }

  /** A URL whose host does not mention `github.com` comes back unchanged. */
  lemma ConvertKeepsOtherHosts(url: string)
    requires IsRemote(url)
    requires !UnbalancedBrackets(NetLoc(url))
    requires !Contains(NetLoc(url), Github)
    ensures ConvertGithubUrl(url) == Some(url)
  {
  }

  /**
   * A URL that does not mention `github.com` anywhere is never rewritten:
   * it comes back as it is, unless `urlparse` rejects it.
   */
  lemma ConvertKeepsUrlsWithoutGithub(url: string)
    requires IsRemote(url)
    requires !Contains(url, Github)
    ensures ConvertGithubUrl(url) == if UnbalancedBrackets(NetLoc(url)) then None else Some(url)
  {
    var host := NetLoc(url);
    if Contains(host, Github) {
      var lo := NetLocIsSlice(url);
      ContainsInSlice(url, lo, host, Github);
      assert false;
    }
  }

  /** The network location stops exactly at the first `/`, `?` or `#`. */
  lemma UntilNetlocEndStops(a: string, b: string)
    requires forall c :: c in a ==> !EndsNetloc(c)
    requires b == [] || EndsNetloc(b[0])
    ensures UntilNetlocEnd(a + b) == a
  {
    var host := UntilNetlocEnd(a + b);
    if |host| < |a| {
      assert false;
    } else if |host| > |a| {
      ElementOfPrefix(host, a + b, |a|);
      assert false;
    }
  }

  /** An index of a prefix reads the same character as the whole text. */
  lemma ElementOfPrefix(p: string, s: string, k: nat)
    requires p <= s
    requires k < |p|
    ensures p[k] == s[k] && p[k] in p
  {
  }

  /** No index of `raw.githubusercontent.com` starts an occurrence of `github.com`. */
  lemma RawHostHasNoGithubAt(i: nat)
    requires i + |Github| <= |RawGithub|
    ensures RawGithub[i..i + |Github|] != Github
  {
    var w := RawGithub[i..i + 10];
    assert w[6] == RawGithub[i + 6];
    if RawGithub[i + 6] == '.' {
      assert i == 15;
      assert w[0] == RawGithub[15] == 'o';
    }
  }

  /** `urlparse` accepts the host `raw.githubusercontent.com`. */
  lemma RawHostAccepted()
    ensures !UnbalancedBrackets(RawGithub)
  {
    assert RawGithub == "raw.githubusercontent.com";
  }

  /** `raw.githubusercontent.com` does not itself contain `github.com`. */
  lemma RawHostLacksGithub()
    ensures !Contains(RawGithub, Github)
  {
    if Contains(RawGithub, Github) {
      var i := ContainsHasIndex(RawGithub, Github);
      RawHostHasNoGithubAt(i);
    }
  }

  /** The host of `scheme + "github.com" + rest` is `github.com` when `rest` starts the path. */
  lemma GithubHostNetLoc(scheme: string, host: string, rest: string)
    requires scheme == "http://" || scheme == "https://"
    requires forall c :: c in host ==> !EndsNetloc(c)
    requires rest == [] || EndsNetloc(rest[0])
    ensures IsRemote(scheme + host + rest)
    ensures NetLoc(scheme + host + rest) == host
  {
    var url := scheme + host + rest;
    assert url == scheme + (host + rest);
    assert url[..|scheme|] == scheme;
    if scheme == "https://" {
      assert url[4] == 's';
    }
    assert AfterScheme(url) == url[|scheme|..] == host + rest;
    UntilNetlocEndStops(host, rest);
  }

  /** `urlparse` accepts the host `github.com`, and it contains itself. */
  lemma GithubHostAccepted()
    ensures !UnbalancedBrackets(Github) && Contains(Github, Github)
  {
    assert Github == "github.com";
  }

  /** Neither `github.com` nor `raw.githubusercontent.com` holds a `/`, `?` or `#`. */
  lemma HostsLackNetlocEnds()
    ensures forall c :: c in Github ==> !EndsNetloc(c)
    ensures forall c :: c in RawGithub ==> !EndsNetloc(c)
  {
    assert Github == "github.com";
    assert RawGithub == "raw.githubusercontent.com";
  }

  /**
   * A URL whose host contains `github.com` (`github.com`, `www.github.com`,
   * `github.com:443`, `user@github.com`, ...) goes through both replacements,
   * unless `urlparse` rejects it.
   */
  lemma ConvertOnGithubHost(url: string)
    requires IsRemote(url)
    requires !UnbalancedBrackets(NetLoc(url)) && Contains(NetLoc(url), Github)
    ensures ConvertGithubUrl(url) == Some(ReplaceAll(ReplaceAll(url, Github, RawGithub), BlobSegment, "/"))
  {
  }

  /** The first replacement turns the host and leaves the scheme alone. */
  lemma FirstReplacement(scheme: string, rest: string)
    requires scheme == "http://" || scheme == "https://"
    ensures ReplaceAll(scheme + Github + rest, Github, RawGithub)
         == scheme + RawGithub + ReplaceAll(rest, Github, RawGithub)
  {
    assert scheme + Github + rest == scheme + (Github + rest);
    ReplaceAllSkipsFree(scheme, Github + rest, Github, RawGithub);
    assert (Github + rest)[|Github|..] == rest;
  }

  /** The second replacement leaves the scheme and the new host alone. */
  lemma SecondReplacement(scheme: string, tail: string)
    requires scheme == "http://" || scheme == "https://"
    ensures ReplaceAll(scheme + RawGithub + tail, BlobSegment, "/")
         == scheme + RawGithub + ReplaceAll(tail, BlobSegment, "/")
  {
    SchemeLacksBlobSegment(scheme);
    ReplaceAllAbsent(scheme, BlobSegment, "/");
    RawHostApartFromBlobSegment();
    assert (RawGithub + tail)[0] == RawGithub[0];
    assert scheme + RawGithub + tail == scheme + (RawGithub + tail);
    ReplaceAllConcat(scheme, RawGithub + tail, BlobSegment, "/");
    ReplaceAllSkipsFree(RawGithub, tail, BlobSegment, "/");
  }

  /** Neither scheme holds `/blob/`. */
  lemma SchemeLacksBlobSegment(scheme: string)
    requires scheme == "http://" || scheme == "https://"
    ensures !Contains(scheme, BlobSegment)
  {
    assert BlobSegment[1] == 'b';
    LacksPattern(scheme, BlobSegment, 1);
  }

  /** `raw.githubusercontent.com` has no `/`, and `/blob/` has no `r`. */
  lemma RawHostApartFromBlobSegment()
    ensures BlobSegment[0] !in RawGithub
    ensures RawGithub[0] !in BlobSegment
  {
    assert BlobSegment == "/blob/";
    assert RawGithub == "raw.githubusercontent.com";
  }

  /** Neither replacement moves a `/`, `?` or `#` that starts the rest of the URL. */
  lemma ReplacementsKeepPathStart(rest: string)
    requires rest == [] || EndsNetloc(rest[0])
    ensures var r := ReplaceAll(ReplaceAll(rest, Github, RawGithub), BlobSegment, "/");
      r == [] || EndsNetloc(r[0])
  {
    if rest != [] {
      var r1 := ReplaceAll(rest, Github, RawGithub);
      assert r1[0] == rest[0];
      var r2 := ReplaceAll(r1, BlobSegment, "/");
      if BlobSegment <= r1 {
        assert r2[0] == '/';
      } else {
        assert r2[0] == r1[0];
      }
    }
  }

  /**
   * For a URL whose host is exactly `github.com`, the host becomes
   * `raw.githubusercontent.com` and the rest of the URL (path, query and
   * fragment) goes through both replacements as well.
   */
  lemma ConvertGithubHost(scheme: string, rest: string)
    requires scheme == "http://" || scheme == "https://"
    requires rest == [] || EndsNetloc(rest[0])
    ensures IsRemote(scheme + Github + rest)
    ensures ConvertGithubUrl(scheme + Github + rest)
         == Some(scheme + RawGithub + ReplaceAll(ReplaceAll(rest, Github, RawGithub), BlobSegment, "/"))
    ensures IsRemote(scheme + RawGithub + ReplaceAll(ReplaceAll(rest, Github, RawGithub), BlobSegment, "/"))
    ensures NetLoc(scheme + RawGithub + ReplaceAll(ReplaceAll(rest, Github, RawGithub), BlobSegment, "/")) == RawGithub
  {
    var url := scheme + Github + rest;
    var r1 := ReplaceAll(rest, Github, RawGithub);
    var r2 := ReplaceAll(r1, BlobSegment, "/");
    HostsLackNetlocEnds();
    GithubHostNetLoc(scheme, Github, rest);
    GithubHostAccepted();
    ConvertOnGithubHost(url);
    FirstReplacement(scheme, rest);
    SecondReplacement(scheme, r1);
    assert ReplaceAll(ReplaceAll(url, Github, RawGithub), BlobSegment, "/") == scheme + RawGithub + r2;
    ReplacementsKeepPathStart(rest);
    GithubHostNetLoc(scheme, RawGithub, r2);
  }

  /** Converting an already converted `github.com` URL changes nothing more. */
  lemma ConvertIdempotentOnGithubHost(scheme: string, rest: string)
    requires scheme == "http://" || scheme == "https://"
    requires rest == [] || EndsNetloc(rest[0])
    ensures IsRemote(scheme + Github + rest)
    ensures ConvertGithubUrl(scheme + Github + rest).Some?
    ensures IsRemote(ConvertGithubUrl(scheme + Github + rest).value)
    ensures ConvertGithubUrl(ConvertGithubUrl(scheme + Github + rest).value) == ConvertGithubUrl(scheme + Github + rest)
  {
    ConvertGithubHost(scheme, rest);
    RawHostAccepted();
    RawHostLacksGithub();
  }

  // ------------------------------------------------------------- blob names

  /**
   * The blob name `upload_blob` uses: a given non-empty name verbatim,
   * otherwise `os.path.basename` of the source as it was passed in (before
   * any URL rewriting).
   */
  function BlobName(given: Option<string>, source: string): (name: string)
    ensures given.Some? && given.value != [] ==> name == given.value
    ensures given.None? || given.value == [] ==>
      && '/' !in name
      && |name| <= |source| && source[|source| - |name|..] == name
      && (|name| < |source| ==> source[|source| - |name| - 1] == '/')
  {
    if given.Some? && given.value != [] then given.value else Basename(source)
  }

  /** Without a given name, a source `dir + name` with `dir` ending in `/` is stored under `name`. */
  lemma DefaultNameAfterDir(dir: string, name: string)
    requires dir != [] && dir[|dir| - 1] == '/'
    requires '/' !in name
    ensures BlobName(None, dir + name) == name
  {
    var path := dir + name;
    assert path[|path| - |name|..] == name;
    assert path[|path| - |name| - 1] == '/';
    BasenameUnique(path, name);
  }

  // ---------------------------------------------------- the outside world

  /** What a successful (2xx) GET returns: the Content-Type header, if any, and the body. */
  datatype Response = Response(contentType: Option<string>, body: Bytes)

  /**
   * The answers of the outside world. `web` maps each URL whose GET succeeds
   * to its response; any other URL raises a `RequestException` (connection
   * error or non-2xx status). `files` maps each path that `open(path, "rb")`
   * can read to its bytes; any other path raises. `refused` holds the blob
   * names whose upload the blob service rejects with an exception.
   */
  datatype World = World(web: map<string, Response>, files: map<string, Bytes>, refused: set<string>)

  /**
   * The skip rule: a response is uploaded only when its Content-Type
   * (missing counts as empty) does not contain `text/html` and its body is
   * not empty.
   */
  predicate IsRealContent(resp: Response)
  {
    !Contains(resp.contentType.GetOr(""), HtmlType) && resp.body != []
  }

  // ------------------------------------------------------ one item's fate

  /**
   * What happened to one item, which is also what the one log line written
   * for it reports. `source` is the path or URL as it stands when the line
   * is written (a remote source has been rewritten by then).
   */
  datatype Outcome =
    | Uploaded(source: string, blob: string, content: Bytes, remote: bool)
    | Skipped(url: string)
    | RequestFailed(url: string)
    | Failed(source: string, blob: string)

  /**
   * The outcome of `upload_blob(client, container, source, given)`. Every
   * exception is caught inside it, so it always returns an outcome. The
   * blob client is made before the source is looked at, and the Azure SDK
   * refuses an empty blob name there, so such an item fails unrewritten.
   */
  function UploadOutcome(w: World, source: string, given: Option<string>): (o: Outcome)
    ensures BlobName(given, source) == [] ==> o == Failed(source, [])
    ensures o.Uploaded? ==> o.blob == BlobName(given, source) && o.blob != [] && o.blob !in w.refused
    ensures !IsRemote(source) ==>
      && (o.Uploaded? || o.Failed?)
      && o.source == source
      && (o.Uploaded? <==> BlobName(given, source) != [] && source in w.files && BlobName(given, source) !in w.refused)
      && (o.Uploaded? ==> o.content == w.files[source] && !o.remote)
    ensures IsRemote(source) && o.Uploaded? ==>
      && ConvertGithubUrl(source) == Some(o.source)
      && o.source in w.web
      && IsRealContent(w.web[o.source])
      && o.content == w.web[o.source].body
      && o.remote
    ensures (&& IsRemote(source) && BlobName(given, source) != [] && BlobName(given, source) !in w.refused
             && ConvertGithubUrl(source).Some? && ConvertGithubUrl(source).value in w.web
             && IsRealContent(w.web[ConvertGithubUrl(source).value])) ==>
      o == Uploaded(ConvertGithubUrl(source).value, BlobName(given, source), w.web[ConvertGithubUrl(source).value].body, true)
  {
    var name := BlobName(given, source);
    if name == [] then Failed(source, name)
    else if IsRemote(source) then
      match ConvertGithubUrl(source)
      case None => Failed(source, name)
      case Some(url) =>
        if url !in w.web then RequestFailed(url)
        else if !IsRealContent(w.web[url]) then Skipped(url)
        else if name in w.refused then Failed(url, name)
        else Uploaded(url, name, w.web[url].body, true)
    else if source !in w.files || name in w.refused then Failed(source, name)
    else Uploaded(source, name, w.files[source], false)
  }

  /**
   * The effect of one outcome on the container: an upload writes its blob
   * with `overwrite=True`, replacing any earlier content under that name;
   * every other blob, and the whole container after any other outcome,
   * stays as it was.
   */
  function Apply(store: map<string, Bytes>, o: Outcome): (after: map<string, Bytes>)
    ensures o.Uploaded? ==> after.Keys == store.Keys + {o.blob} && after[o.blob] == o.content
    ensures forall k :: k in store && !(o.Uploaded? && k == o.blob) ==> k in after && after[k] == store[k]
    ensures !o.Uploaded? ==> after == store
  {
    if o.Uploaded? then store[o.blob := o.content] else store
  }

  /** Uploading the same item again leaves the container as the first upload did. */
  lemma ApplyTwice(store: map<string, Bytes>, o: Outcome)
    ensures Apply(Apply(store, o), o) == Apply(store, o)
  {
  }

  /**
   * The skip rule at the container: a remote item whose download is an
   * HTML page or empty is skipped (unless it already failed for an empty
   * name) and leaves every blob as it was.
   */
  lemma NotRealContentLeavesStore(w: World, source: string, given: Option<string>, store: map<string, Bytes>)
    requires IsRemote(source)
    requires ConvertGithubUrl(source).Some? && ConvertGithubUrl(source).value in w.web
    requires !IsRealContent(w.web[ConvertGithubUrl(source).value])
    ensures UploadOutcome(w, source, given)
         == if BlobName(given, source) == [] then Failed(source, [])
            else Skipped(ConvertGithubUrl(source).value)
    ensures Apply(store, UploadOutcome(w, source, given)) == store
  {
  }

  /** A remote item changes the container only with real content fetched from the rewritten URL. */
  lemma RemoteWriteNeedsRealContent(w: World, source: string, given: Option<string>, store: map<string, Bytes>)
    requires IsRemote(source)
    requires Apply(store, UploadOutcome(w, source, given)) != store
    ensures ConvertGithubUrl(source).Some?
    ensures ConvertGithubUrl(source).value in w.web
    ensures IsRealContent(w.web[ConvertGithubUrl(source).value])
    ensures Apply(store, UploadOutcome(w, source, given))
         == store[BlobName(given, source) := w.web[ConvertGithubUrl(source).value].body]
  {
  }

  /**
   * A local item is never rewritten or fetched: it is read from its own
   * path or it fails (also when its name is empty).
   */
  lemma LocalSourceReadAsIs(w: World, source: string, given: Option<string>, store: map<string, Bytes>)
    requires !IsRemote(source)
    ensures Apply(store, UploadOutcome(w, source, given))
         == if BlobName(given, source) != [] && source in w.files && BlobName(given, source) !in w.refused
            then store[BlobName(given, source) := w.files[source]]
            else store
  {
  }
}
