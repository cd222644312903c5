/** The request resolver: the fixed-order decision tree of handleRequest and
  * the helpers it dispatches to. The filesystem, the PHP interpreter and the
  * directory probe of the content root are oracles held in an Env. */
module ServerPlugin {
  import opened Http
  import opened GoStrings
  import HtaccessFunction
  import CacheFunction

  const ContentRoot := "/var/www/html"
  const IndexExtensions: seq<string> := [".php", ".html", ".htmlx"]
  const ProbeExtensions: seq<string> := [".php", ".html", ".htmlx", ".jpg", ".png", ".zip", ".css", ".js"]
  const CustomNotFoundPage := "/var/www/html/404.html"
  const BuiltinNotFoundPage := "serverPlugin/pages/hammy-404.html"
  const NotFoundMessage := "404 - File Not Found"
  const PlaceholderPage := "serverPlugin/pages/hammy-index.html"
  const OctetStream := "application/octet-stream"
  const PhpErrorMessage := "Error executing PHP script"
  const MissingPageMessage := "404 page not found"
  const ErrorPageOpen := "<html><body><h1>"
  const ErrorPageClose := "</h1><p>An error occurred while processing the request.</p></body></html>"

  /** The extension table of setContentType, one entry per case. */
  function TypeForExtension(ext: string): Option<string> {
    match ext
    case ".html" => Some("text/html; charset=utf-8")
    case ".css"  => Some("text/css")
    case ".js"   => Some("application/javascript")
    case ".json" => Some("application/json")
    case ".xml"  => Some("application/xml")
    case ".png"  => Some("image/png")
    case ".jpg"  => Some("image/jpeg")
    case ".jpeg" => Some("image/jpeg")
    case ".gif"  => Some("image/gif")
    case ".svg"  => Some("image/svg+xml")
    case ".txt"  => Some("text/plain; charset=utf-8")
    case ".zip"  => Some("application/zip")
    case _       => None
  }

  /** The four headers securityHeadersMiddleware sets on every response. */
  const SecurityHeaders: map<string, string> := map[
    "Strict-Transport-Security" := "max-age=63072000; includeSubDomains",
    "X-Content-Type-Options"    := "nosniff",
    "X-Frame-Options"           := "DENY",
    "Content-Security-Policy"   := "default-src 'self'; script-src 'self' 'unsafe-eval'; object-src 'none'; style-src 'self' 'unsafe-inline';"]

  /** What isEmptyDir sees when it opens the content root and reads one entry. */
  datatype RootListing = CannotOpen | ListFailed | Listed(atEnd: bool)

  /** The filesystem as the handlers see it: the paths os.Stat does not report
    * as missing, the paths os.ReadFile reads, and the content-root probe. */
  datatype FileSystem = FileSystem(present: set<string>, contents: map<string, seq<byte>>, root: RootListing)

  /** exec.Command("php", path).CombinedOutput(): the output, or any failure. */
  datatype PhpOutcome = PhpOk(output: seq<byte>) | PhpErr

  datatype Env = Env(fs: FileSystem, php: string -> PhpOutcome)

  /** The response written and the cache left by one request. */
  datatype Outcome = Outcome(response: Response, cache: map<string, seq<byte>>)

  // ---------------------------------------------------------------------
  // Middleware

  /** The headers set before handleRequest runs: the security headers, then
    * Content-Encoding when the Accept-Encoding value contains "gzip". */
  function MiddlewareHeaders(acceptEncoding: string): (h: map<string, string>)
    ensures ContentTypeHeader !in h
    ensures ("Content-Encoding" in h) <==> Contains(acceptEncoding, "gzip")
    ensures "Content-Encoding" in h ==> h["Content-Encoding"] == "gzip"
    ensures forall k :: k in SecurityHeaders ==> k in h && h[k] == SecurityHeaders[k]
  {
    if Contains(acceptEncoding, "gzip") then SecurityHeaders["Content-Encoding" := "gzip"] else SecurityHeaders
  }

  function ServerHeader(version: string): string {
    "HAMMY " + version
  }

  // ---------------------------------------------------------------------
  // Helpers of handleRequest

  /** The MIME type setContentType chooses for a path. */
  function ContentType(path: string): string {
    match TypeForExtension(Ext(path))
    case Some(t) => t
    case None => OctetStream
  }

  function SetContentType(w: Response, path: string): Response {
    w.SetHeader(ContentTypeHeader, ContentType(path))
  }

  /** isEmptyDir: true only when the root opens and its first read hits the end. */
  predicate IsEmptyDir(fs: FileSystem)
    ensures fs.root == CannotOpen ==> !IsEmptyDir(fs)
    ensures fs.root == ListFailed ==> !IsEmptyDir(fs)
  {
    fs.root == Listed(true)
  }

  /** The first extension e, in list order, for which prefix + e exists. */
  function FirstExisting(fs: FileSystem, prefix: string, exts: seq<string>): (r: Option<string>)
    ensures r.Some? ==> r.value in exts && prefix + r.value in fs.present
  {
    if exts == [] then None
    else if prefix + exts[0] in fs.present then Some(exts[0])
    else FirstExisting(fs, prefix, exts[1..])
  }

  /** redirectToIndex */
  function IndexRedirect(w: Response, fs: FileSystem): Response {
    match FirstExisting(fs, ContentRoot + "/index", IndexExtensions)
    case Some(ext) => w.Redirect("/index" + ext, StatusMovedPermanently)
    case None => w
  }

  /** redirectToFile: None when it returns false without writing. */
  function FileRedirect(w: Response, fs: FileSystem, path: string): Option<Response> {
    match FirstExisting(fs, ContentRoot + path, ProbeExtensions)
    case Some(ext) => Some(w.Redirect(path + ext, StatusMovedPermanently))
    case None => None
  }

  /** The page serveCustomErrorPage sends: the custom page, else the built-in
    * page, else an inline message. */
  function ErrorPageBody(fs: FileSystem, errorPagePath: string, defaultErrorPage: string, defaultMsg: string): seq<byte> {
    if errorPagePath in fs.contents then fs.contents[errorPagePath]
    else if defaultErrorPage in fs.contents then fs.contents[defaultErrorPage]
    else Utf8(ErrorPageOpen + defaultMsg + ErrorPageClose)
  }

  /** serveCustomErrorPage */
  function ServeCustomErrorPage(w: Response, fs: FileSystem, statusCode: int,
                                errorPagePath: string, defaultErrorPage: string, defaultMsg: string): Response {
    w.SetHeader(ContentTypeHeader, HtmlUtf8)
     .WriteHeader(statusCode)
     .Write(ErrorPageBody(fs, errorPagePath, defaultErrorPage, defaultMsg))
  }

  /** The 404 page, as every call site of serveCustomErrorPage requests it. */
  function NotFoundPage(w: Response, fs: FileSystem): Response {
    ServeCustomErrorPage(w, fs, StatusNotFound, CustomNotFoundPage, BuiltinNotFoundPage, NotFoundMessage)
  }

  /** executePHP: any failure is the same generic 500. */
  function ExecutePHP(w: Response, php: string -> PhpOutcome, filePath: string): Response {
    match php(filePath)
    case PhpErr => w.Error(PhpErrorMessage, StatusInternalServerError)
    case PhpOk(output) => w.SetHeader(ContentTypeHeader, HtmlUtf8).Write(output)
  }

  /** http.ServeFile of the built-in placeholder page: its bytes, typed by
    * extension unless a Content-Type is already set, or net/http's 404. */
  function ServePlaceholder(w: Response, fs: FileSystem): Response {
    if PlaceholderPage in fs.contents then
      (if ContentTypeHeader in w.headers then w else w.SetHeader(ContentTypeHeader, HtmlUtf8))
        .Write(fs.contents[PlaceholderPage])
    else w.Error(MissingPageMessage, StatusNotFound)
  }

  /** The file serveFile reads: plain concatenation, with "/" mapped to index.html. */
  function FilePath(urlPath: string): string {
    if ContentRoot + urlPath == ContentRoot + "/" then ContentRoot + "/index.html" else ContentRoot + urlPath
  }

  /** serveFile */
  function ServedFile(w: Response, env: Env, urlPath: string, entries: map<string, seq<byte>>): Outcome {
    var filePath := FilePath(urlPath);
    if filePath !in env.fs.present then
      Outcome(if IsEmptyDir(env.fs) then ServePlaceholder(w, env.fs) else NotFoundPage(w, env.fs), entries)
    else if filePath !in env.fs.contents then
      Outcome(NotFoundPage(w, env.fs), entries)
    else if HasSuffix(filePath, ".php") then
      Outcome(ExecutePHP(w, env.php, filePath), entries)
    else
      var content := env.fs.contents[filePath];
      Outcome(SetContentType(w, filePath).Write(content), CacheFunction.Insert(entries, urlPath, content))
  }

  // ---------------------------------------------------------------------
  // handleRequest

  /** The response after the Server header and the rule engine. */
  function Screened(rules: seq<HtaccessFunction.Rule>, w: Response, path: string, version: string): Response {
    HtaccessFunction.Enforce(rules, path, w.SetHeader("Server", ServerHeader(version)))
  }

  /** Steps after the early-exit test: root, no-dot path, cache, file. */
  function Dispatch(w: Response, env: Env, path: string, entries: map<string, seq<byte>>): Outcome {
    if path == "/" then
      Outcome(IndexRedirect(w, env.fs), entries)
    else if '.' !in path then
      Outcome(match FileRedirect(w, env.fs, path)
              case Some(r) => r
              case None => NotFoundPage(w, env.fs), entries)
    else if path in entries then
      Outcome(SetContentType(w, path).Write(entries[path]), entries)
    else
      ServedFile(w, env, path, entries)
  }

  /** handleRequest as written: the only early exit after the rule engine is
    * a Content-Type of exactly "text/html; charset=utf-8". */
  function Resolve(rules: seq<HtaccessFunction.Rule>, w: Response, env: Env, path: string,
                   entries: map<string, seq<byte>>, version: string): Outcome {
    var screened := Screened(rules, w, path, version);
    if screened.HasHeader(ContentTypeHeader, HtmlUtf8) then Outcome(screened, entries)
    else Dispatch(screened, env, path, entries)
  }

  /** handleRequest with the early exit taken on a deny, as the test after
    * ApplyHtaccess evidently intends. */
  function ResolveGuarded(rules: seq<HtaccessFunction.Rule>, w: Response, env: Env, path: string,
                          entries: map<string, seq<byte>>, version: string): Outcome {
    var screened := Screened(rules, w, path, version);
    if HtaccessFunction.Decide(rules, path) == HtaccessFunction.Deny || screened.HasHeader(ContentTypeHeader, HtmlUtf8)
    then Outcome(screened, entries)
    else Dispatch(screened, env, path, entries)
  }

  // ---------------------------------------------------------------------
  // The handlers, step by step

  /** The probing loop shared by redirectToIndex and redirectToFile: the first
    * extension, in order, whose file os.Stat finds. */
  method Probe(fs: FileSystem, base: string, extensions: seq<string>) returns (found: Option<string>)
    ensures found == FirstExisting(fs, base, extensions)
  {
    for i := 0 to |extensions|
      invariant FirstExisting(fs, base, extensions) == FirstExisting(fs, base, extensions[i..])
    {
      assert extensions[i..][1..] == extensions[i + 1..];
      if base + extensions[i] in fs.present {
        return Some(extensions[i]);
      }
    }
    return None;
  }

  /** redirectToIndex: probes index.php, index.html, index.htmlx in order. */
  method RedirectToIndex(w: Response, fs: FileSystem) returns (w': Response)
    ensures w' == IndexRedirect(w, fs)
  {
    assert "/var/www/html/index" == ContentRoot + "/index";
    var found := Probe(fs, "/var/www/html/index", IndexExtensions);
    if found.Some? {
      return w.Redirect("/index" + found.value, StatusMovedPermanently);
    }
    return w;
  }

  /** redirectToFile: probes path + ext for the eight extensions in order. */
  method RedirectToFile(w: Response, fs: FileSystem, path: string) returns (w': Response, redirected: bool)
    ensures redirected <==> FileRedirect(w, fs, path).Some?
    ensures w' == if redirected then FileRedirect(w, fs, path).value else w
  {
    var base := "/var/www/html" + path;
    assert base == ContentRoot + path;
    var found := Probe(fs, base, ProbeExtensions);
    if found.Some? {
      return w.Redirect(path + found.value, StatusMovedPermanently), true;
    }
    return w, false;
  }

  /** serveFile: reads the file, runs PHP scripts, writes and caches the rest. */
  method ServeFile(w: Response, env: Env, path: string, cache: CacheFunction.Cache) returns (w': Response)
    modifies cache
    ensures Outcome(w', cache.entries) == ServedFile(w, env, path, old(cache.entries))
  {
    var filePath := "/var/www/html" + path;
    assert "/var/www/html/" == ContentRoot + "/";
    assert "/var/www/html/index.html" == ContentRoot + "/index.html";
    if filePath == "/var/www/html/" {
      filePath := "/var/www/html/index.html";
    }
    assert filePath == FilePath(path);
    if filePath !in env.fs.present {
      if IsEmptyDir(env.fs) {
        return ServePlaceholder(w, env.fs);
      }
      return NotFoundPage(w, env.fs);
    }
    if filePath !in env.fs.contents {
      return NotFoundPage(w, env.fs);
    }
    var content := env.fs.contents[filePath];
    if HasSuffix(filePath, ".php") {
      return ExecutePHP(w, env.php, filePath);
    }
    w' := SetContentType(w, filePath).Write(content);
    cache.AddToCache(path, content);
  }

  /** handleRequest */
  method HandleRequest(w: Response, env: Env, path: string, htaccess: HtaccessFunction.HtaccessPlugin,
                       cache: CacheFunction.Cache, version: string) returns (w': Response)
    modifies cache
    ensures Outcome(w', cache.entries) == Resolve(htaccess.rules, w, env, path, old(cache.entries), version)
  {
    w' := w.SetHeader("Server", ServerHeader(version));
    var _, screened := htaccess.ApplyHtaccess(path, w');
    w' := screened;
    assert w' == Screened(htaccess.rules, w, path, version);
    assert !w'.HasHeader(ContentTypeHeader, HtmlUtf8) ==>
      Resolve(htaccess.rules, w, env, path, cache.entries, version) == Dispatch(w', env, path, cache.entries);
    if w'.HasHeader(ContentTypeHeader, HtmlUtf8) {
      return;
    }
    if path == "/" {
      w' := RedirectToIndex(w', env.fs);
      return;
    }
    if '.' !in path {
      var redirected;
      w', redirected := RedirectToFile(w', env.fs, path);
      if !redirected {
        w' := NotFoundPage(w', env.fs);
      }
      return;
    }
    var cached, found := cache.GetFromCache(path);
    if found {
      w' := SetContentType(w', path).Write(cached);
      return;
    }
    w' := ServeFile(w', env, path, cache);
  }

  // ---------------------------------------------------------------------
  // Properties

  /** The probe stops at the first extension in list order that exists. */
  lemma {:induction false} FirstExistingIsFirst(fs: FileSystem, prefix: string, exts: seq<string>, k: nat)
    requires k < |exts| && prefix + exts[k] in fs.present
    requires forall j :: 0 <= j < k ==> prefix + exts[j] !in fs.present
    ensures FirstExisting(fs, prefix, exts) == Some(exts[k])
  {
    if k > 0 {
      assert prefix + exts[0] !in fs.present;
      assert forall j :: 0 <= j < k - 1 ==> exts[1..][j] == exts[j + 1];
      FirstExistingIsFirst(fs, prefix, exts[1..], k - 1);
    }
  }

  /** The probe finds nothing exactly when no candidate exists. */
  lemma {:induction false} FirstExistingNone(fs: FileSystem, prefix: string, exts: seq<string>)
    ensures FirstExisting(fs, prefix, exts).None? <==> forall i :: 0 <= i < |exts| ==> prefix + exts[i] !in fs.present
  {
    if exts != [] {
      FirstExistingNone(fs, prefix, exts[1..]);
      assert forall i :: 1 <= i < |exts| ==> exts[i] == exts[1..][i - 1];
    }
  }

  /** The content root adds nothing to a path's extension. */
  lemma ExtUnderContentRoot(path: string)
    ensures Ext(ContentRoot + path) == Ext(path)
  {
    ExtOfPrefixed(ContentRoot, path);
  }

  /** A cache hit is typed from the URL path and a file read from disk from
    * the file path; for every path but the root both give the same Content-Type. */
  lemma CachedTypeMatchesServedType(path: string)
    requires path != "/"
    ensures ContentType(FilePath(path)) == ContentType(path)
  {
    FilePathOf(path);
    ExtUnderContentRoot(path);
  }

  /** Exactly the ".html" entry of the table is HTML; PHP sources, ".htmlx"
    * pages and names without an extension are not in the table. */
  lemma TypeTable(ext: string)
    ensures TypeForExtension(ext) == Some(HtmlUtf8) <==> ext == ".html"
    ensures ext == ".php" || ext == ".htmlx" || ext == [] ==> TypeForExtension(ext) == None
  {
    assert ".php"[1] == 'p' && ".php"[2] == 'h';
  }

  /** Exactly the ".html" extension is typed as HTML; PHP sources, ".htmlx"
    * pages and names without an extension are sent as an octet stream. */
  lemma HtmlTypeExactlyForHtml(path: string)
    ensures ContentType(path) == HtmlUtf8 <==> Ext(path) == ".html"
    ensures Ext(path) == ".php" || Ext(path) == ".htmlx" || Ext(path) == []
            ==> ContentType(path) == OctetStream
  {
    TypeTable(Ext(path));
    assert HtmlUtf8[0] != OctetStream[0];
  }

  /** The root path redirects to the first index file that exists and
    * otherwise writes nothing. The cache is neither read nor changed. */
  lemma RootOutcome(w: Response, env: Env, entries: map<string, seq<byte>>, other: map<string, seq<byte>>)
    ensures Dispatch(w, env, "/", entries).cache == entries
    ensures Dispatch(w, env, "/", entries).response == Dispatch(w, env, "/", other).response
    ensures (forall k :: 0 <= k < |IndexExtensions| ==> ContentRoot + "/index" + IndexExtensions[k] !in env.fs.present)
            ==> Dispatch(w, env, "/", entries).response == w
    ensures forall k :: 0 <= k < |IndexExtensions| && ContentRoot + "/index" + IndexExtensions[k] in env.fs.present
                     && (forall j :: 0 <= j < k ==> ContentRoot + "/index" + IndexExtensions[j] !in env.fs.present)
                     ==> Dispatch(w, env, "/", entries).response == w.Redirect("/index" + IndexExtensions[k], StatusMovedPermanently)
  {
    FirstExistingNone(env.fs, ContentRoot + "/index", IndexExtensions);
    forall k | 0 <= k < |IndexExtensions| && ContentRoot + "/index" + IndexExtensions[k] in env.fs.present
             && (forall j :: 0 <= j < k ==> ContentRoot + "/index" + IndexExtensions[j] !in env.fs.present)
      ensures Dispatch(w, env, "/", entries).response == w.Redirect("/index" + IndexExtensions[k], StatusMovedPermanently)
    {
      FirstExistingIsFirst(env.fs, ContentRoot + "/index", IndexExtensions, k);
    }
  }

  /** A path other than "/" without a dot redirects to the first probe
    * extension that exists, or gets the 404 page. The cache is neither read
    * nor changed. */
  lemma NoDotOutcome(w: Response, env: Env, path: string, entries: map<string, seq<byte>>, other: map<string, seq<byte>>)
    requires path != "/" && '.' !in path
    ensures Dispatch(w, env, path, entries).cache == entries
    ensures Dispatch(w, env, path, entries).response == Dispatch(w, env, path, other).response
    ensures (forall k :: 0 <= k < |ProbeExtensions| ==> ContentRoot + path + ProbeExtensions[k] !in env.fs.present)
            ==> Dispatch(w, env, path, entries).response == NotFoundPage(w, env.fs)
    ensures forall k :: 0 <= k < |ProbeExtensions| && ContentRoot + path + ProbeExtensions[k] in env.fs.present
                     && (forall j :: 0 <= j < k ==> ContentRoot + path + ProbeExtensions[j] !in env.fs.present)
                     ==> Dispatch(w, env, path, entries).response == w.Redirect(path + ProbeExtensions[k], StatusMovedPermanently)
  {
    FirstExistingNone(env.fs, ContentRoot + path, ProbeExtensions);
    forall k | 0 <= k < |ProbeExtensions| && ContentRoot + path + ProbeExtensions[k] in env.fs.present
             && (forall j :: 0 <= j < k ==> ContentRoot + path + ProbeExtensions[j] !in env.fs.present)
      ensures Dispatch(w, env, path, entries).response == w.Redirect(path + ProbeExtensions[k], StatusMovedPermanently)
    {
      FirstExistingIsFirst(env.fs, ContentRoot + path, ProbeExtensions, k);
    }
  }

  /** A cached dotted path is answered from the cache alone: the filesystem
    * and the PHP interpreter are not consulted and the cache is unchanged. */
  lemma CacheHitOutcome(w: Response, env: Env, env': Env, path: string, entries: map<string, seq<byte>>)
    requires path != "/" && '.' in path && path in entries
    ensures Dispatch(w, env, path, entries) == Outcome(SetContentType(w, path).Write(entries[path]), entries)
    ensures Dispatch(w, env, path, entries) == Dispatch(w, env', path, entries)
  {
  }

  /** The file path of a URL path other than "/" is the content root followed by it. */
  lemma FilePathOf(path: string)
    ensures path != "/" ==> FilePath(path) == ContentRoot + path
    ensures path == "/" ==> FilePath(path) == ContentRoot + "/index.html"
  {
    if ContentRoot + path == ContentRoot + "/" {
      assert path == (ContentRoot + path)[|ContentRoot|..];
    }
  }

  /** A ".php" URL path keeps its suffix under the content root. */
  lemma PhpSuffixUnderContentRoot(path: string)
    requires HasSuffix(path, ".php")
    ensures HasSuffix(ContentRoot + path, ".php")
  {
    assert (ContentRoot + path)[|ContentRoot + path| - 4..] == path[|path| - 4..];
  }

  /** A dotted path that is not cached is served from the file system:
    * a missing file gets the placeholder or the 404 page, an unreadable one
    * the 404 page, a PHP script its interpreter's output, and any other file
    * its bytes, typed by extension and added to the cache. */
  lemma ServedFileOutcome(w: Response, env: Env, path: string, entries: map<string, seq<byte>>)
    requires path != "/" && '.' in path && path !in entries
    ensures var o := Dispatch(w, env, path, entries);
            var filePath := ContentRoot + path;
            && (filePath !in env.fs.present && IsEmptyDir(env.fs) ==> o == Outcome(ServePlaceholder(w, env.fs), entries))
            && (filePath !in env.fs.present && !IsEmptyDir(env.fs) ==> o == Outcome(NotFoundPage(w, env.fs), entries))
            && (filePath in env.fs.present && filePath !in env.fs.contents ==> o == Outcome(NotFoundPage(w, env.fs), entries))
            && (filePath in env.fs.present && filePath in env.fs.contents && HasSuffix(filePath, ".php")
                ==> o == Outcome(ExecutePHP(w, env.php, filePath), entries))
            && (filePath in env.fs.present && filePath in env.fs.contents && !HasSuffix(filePath, ".php")
                ==> o == Outcome(SetContentType(w, path).Write(env.fs.contents[filePath]),
                                 CacheFunction.Insert(entries, path, env.fs.contents[filePath])))
  {
    FilePathOf(path);
    CachedTypeMatchesServedType(path);
  }

  /** The cache changes only when a readable non-PHP file is served for a
    * dotted, uncached path, and then only by inserting that file's bytes
    * under the URL path. */
  lemma OnlyStaticFilesAreCached(w: Response, env: Env, path: string, entries: map<string, seq<byte>>)
    ensures var o := Dispatch(w, env, path, entries);
            var filePath := ContentRoot + path;
            o.cache != entries ==>
              && path != "/" && '.' in path && path !in entries
              && filePath in env.fs.present && filePath in env.fs.contents && !HasSuffix(filePath, ".php")
              && |entries| < CacheFunction.MaxCacheSize
              && o.cache == entries[path := env.fs.contents[filePath]]
  {
    if path != "/" && '.' in path && path !in entries {
      ServedFileOutcome(w, env, path, entries);
    }
  }

  /** A request for a ".php" path never changes the cache. */
  lemma PhpNeverCached(w: Response, env: Env, path: string, entries: map<string, seq<byte>>)
    requires HasSuffix(path, ".php")
    ensures Dispatch(w, env, path, entries).cache == entries
  {
    PhpSuffixUnderContentRoot(path);
    OnlyStaticFilesAreCached(w, env, path, entries);
  }

  /** On an uncommitted writer the error page carries the requested status,
    * an HTML Content-Type, and the first available of the three pages. */
  lemma ErrorPageOutcome(w: Response, fs: FileSystem, statusCode: int, errorPagePath: string,
                         defaultErrorPage: string, defaultMsg: string)
    requires !w.Committed()
    ensures var r := ServeCustomErrorPage(w, fs, statusCode, errorPagePath, defaultErrorPage, defaultMsg);
            && r.status == Some(statusCode)
            && r.headers == w.headers[ContentTypeHeader := HtmlUtf8]
            && r.redirectTo == w.redirectTo
            && (errorPagePath in fs.contents ==> r.body == w.body + fs.contents[errorPagePath])
            && (errorPagePath !in fs.contents && defaultErrorPage in fs.contents ==> r.body == w.body + fs.contents[defaultErrorPage])
            && (errorPagePath !in fs.contents && defaultErrorPage !in fs.contents ==>
                  r.body == w.body + Utf8(ErrorPageOpen + defaultMsg + ErrorPageClose))
  {
  }

  /** A PHP failure of any kind is a plain-text 500 with a fixed message
    * (the script path is not revealed); success is the output as HTML with
    * status 200. */
  lemma ExecutePHPOutcome(w: Response, php: string -> PhpOutcome, filePath: string)
    requires !w.Committed()
    ensures var r := ExecutePHP(w, php, filePath);
            && (php(filePath).PhpErr? ==>
                  && r.status == Some(StatusInternalServerError)
                  && r.headers == w.headers[ContentTypeHeader := PlainUtf8]["X-Content-Type-Options" := "nosniff"]
                  && r.body == w.body + Utf8(PhpErrorMessage + "\n"))
            && (php(filePath).PhpOk? ==>
                  && r.status == Some(StatusOK)
                  && r.headers == w.headers[ContentTypeHeader := HtmlUtf8]
                  && r.body == w.body + php(filePath).output)
  {
  }

  /** Once the writer is committed, the rest of the request can only append
    * body bytes: status, headers and redirect target stay as they are. */
  lemma DispatchKeepsCommitted(w: Response, env: Env, path: string, entries: map<string, seq<byte>>)
    requires w.Committed()
    ensures var r := Dispatch(w, env, path, entries).response;
            && r.status == w.status && r.headers == w.headers && r.redirectTo == w.redirectTo
            && |w.body| <= |r.body| && r.body[..|w.body|] == w.body
  {
    var r := Dispatch(w, env, path, entries).response;
    if path == "/" {
    } else if '.' !in path {
      assert r == w || r == NotFoundPage(w, env.fs);
    } else if path in entries {
    } else {
      var filePath := FilePath(path);
      if filePath !in env.fs.present {
        assert r == ServePlaceholder(w, env.fs) || r == NotFoundPage(w, env.fs);
      } else if filePath !in env.fs.contents {
      } else if HasSuffix(filePath, ".php") {
        assert r == ExecutePHP(w, env.php, filePath);
      }
    }
  }

  /** On an uncommitted writer the steps after the rule engine commit one of
    * 200, 301, 404 and 500, except for the root path without an index file,
    * which writes nothing at all. */
  lemma DispatchStatus(w: Response, env: Env, path: string, entries: map<string, seq<byte>>)
    requires !w.Committed()
    ensures var s := Dispatch(w, env, path, entries).response.status;
            && (s.None? <==> path == "/" && FirstExisting(env.fs, ContentRoot + "/index", IndexExtensions).None?)
            && (s.Some? ==> s.value in {StatusOK, StatusMovedPermanently, StatusNotFound, StatusInternalServerError})
  {
  }

  /** Behind the middleware the writer never carries a Content-Type when the
    * test after the rule engine runs, so that test never ends the request. */
  lemma EarlyExitNeverTaken(rules: seq<HtaccessFunction.Rule>, acceptEncoding: string, env: Env, path: string,
                            entries: map<string, seq<byte>>, version: string)
    ensures var w := Fresh(MiddlewareHeaders(acceptEncoding));
            Resolve(rules, w, env, path, entries, version) == Dispatch(Screened(rules, w, path, version), env, path, entries)
  {
  }

  /** As written, behind the middleware: the status is 403 exactly for a
    * denied path; nothing is written exactly for an undenied root path
    * without an index file; otherwise one of 200, 301, 404 and 500. */
  lemma ResolveStatus(rules: seq<HtaccessFunction.Rule>, acceptEncoding: string, env: Env, path: string,
                      entries: map<string, seq<byte>>, version: string)
    ensures var s := Resolve(rules, Fresh(MiddlewareHeaders(acceptEncoding)), env, path, entries, version).response.status;
            var denied := HtaccessFunction.Decide(rules, path) == HtaccessFunction.Deny;
            && (s == Some(StatusForbidden) <==> denied)
            && (s.None? <==> !denied && path == "/" && FirstExisting(env.fs, ContentRoot + "/index", IndexExtensions).None?)
            && (s.Some? ==> s.value in {StatusOK, StatusMovedPermanently, StatusForbidden, StatusNotFound, StatusInternalServerError})
  {
    var w := Fresh(MiddlewareHeaders(acceptEncoding));
    EarlyExitNeverTaken(rules, acceptEncoding, env, path, entries, version);
    var screened := Screened(rules, w, path, version);
    if HtaccessFunction.Decide(rules, path) == HtaccessFunction.Deny {
      DispatchKeepsCommitted(screened, env, path, entries);
    } else {
      DispatchStatus(screened, env, path, entries);
    }
  }

  /** As written, a denied request still runs the whole resolution: behind the
    * middleware the client sees 403 and the "403 - Forbidden" body, and
    * whatever the later steps write is appended to it. */
  lemma DenyDoesNotStopResolution(rules: seq<HtaccessFunction.Rule>, acceptEncoding: string, env: Env, path: string,
                                  entries: map<string, seq<byte>>, version: string)
    requires HtaccessFunction.Decide(rules, path) == HtaccessFunction.Deny
    ensures var w := Fresh(MiddlewareHeaders(acceptEncoding));
            var forbidden := HtaccessFunction.Forbid(w.SetHeader("Server", ServerHeader(version)));
            var o := Resolve(rules, w, env, path, entries, version);
            && o == Dispatch(forbidden, env, path, entries)
            && o.response.status == Some(StatusForbidden)
            && |forbidden.body| <= |o.response.body|
            && o.response.body[..|forbidden.body|] == Utf8(HtaccessFunction.ForbiddenMessage)
  {
    var w := Fresh(MiddlewareHeaders(acceptEncoding));
    var forbidden := HtaccessFunction.Forbid(w.SetHeader("Server", ServerHeader(version)));
    assert Screened(rules, w, path, version) == forbidden;
    EarlyExitNeverTaken(rules, acceptEncoding, env, path, entries, version);
    assert forbidden.body == [] + Utf8(HtaccessFunction.ForbiddenMessage);
    assert forbidden.body == Utf8(HtaccessFunction.ForbiddenMessage);
    DispatchKeepsCommitted(forbidden, env, path, entries);
  }

  /** As written, a denied request for a readable static file is still read
    * from disk and added to the cache. */
  lemma DeniedStaticFileIsStillCached(rules: seq<HtaccessFunction.Rule>, acceptEncoding: string, env: Env, path: string,
                                      entries: map<string, seq<byte>>, version: string)
    requires HtaccessFunction.Decide(rules, path) == HtaccessFunction.Deny
    requires path != "/" && '.' in path && path !in entries && |entries| < CacheFunction.MaxCacheSize
    requires ContentRoot + path in env.fs.present && ContentRoot + path in env.fs.contents
    requires !HasSuffix(ContentRoot + path, ".php")
    ensures var o := Resolve(rules, Fresh(MiddlewareHeaders(acceptEncoding)), env, path, entries, version);
            && o.response.status == Some(StatusForbidden)
            && o.cache == entries[path := env.fs.contents[ContentRoot + path]]
  {
    var w := Fresh(MiddlewareHeaders(acceptEncoding));
    var forbidden := HtaccessFunction.Forbid(w.SetHeader("Server", ServerHeader(version)));
    DenyDoesNotStopResolution(rules, acceptEncoding, env, path, entries, version);
    ServedFileOutcome(forbidden, env, path, entries);
  }

  /** One such request: "/a.txt" under the rule "/a deny" is answered 403
    * and its file still enters the cache. */
  lemma DeniedFileIsStillCached()
    ensures var rules := [HtaccessFunction.Rule("/a", "deny")];
            var env := Env(FileSystem({ContentRoot + "/a.txt"}, map[ContentRoot + "/a.txt" := [0x61]], Listed(false)), _ => PhpErr);
            var o := Resolve(rules, Fresh(MiddlewareHeaders("")), env, "/a.txt", map[], "1.0");
            && HtaccessFunction.Decide(rules, "/a.txt") == HtaccessFunction.Deny
            && o.response.status == Some(StatusForbidden)
            && o.cache == map["/a.txt" := [0x61]]
  {
    var rules := [HtaccessFunction.Rule("/a", "deny")];
    var path := "/a.txt";
    assert HasPrefix(path, "/a");
    var env := Env(FileSystem({ContentRoot + path}, map[ContentRoot + path := [0x61]], Listed(false)), _ => PhpErr);
    assert path[2] == '.';
    assert (ContentRoot + path)[|ContentRoot + path| - 1] == 't';
    DeniedStaticFileIsStillCached(rules, "", env, path, map[], "1.0");
  }

  /** Corrected: a denied request ends with the 403 and its body, and the
    * cache is untouched. */
  lemma GuardedDenyStops(rules: seq<HtaccessFunction.Rule>, w: Response, env: Env, path: string,
                         entries: map<string, seq<byte>>, version: string)
    requires !w.Committed()
    requires HtaccessFunction.Decide(rules, path) == HtaccessFunction.Deny
    ensures var o := ResolveGuarded(rules, w, env, path, entries, version);
            && o.cache == entries
            && o.response.status == Some(StatusForbidden)
            && o.response.body == w.body + Utf8(HtaccessFunction.ForbiddenMessage)
            && o.response.headers == w.headers["Server" := ServerHeader(version)]
  {
    HtaccessFunction.EnforceOutcome(rules, path, w.SetHeader("Server", ServerHeader(version)));
  }

  /** Corrected: on every request that is not denied the guarded resolution
    * and the one as written agree. */
  lemma GuardedAgreesUnlessDenied(rules: seq<HtaccessFunction.Rule>, w: Response, env: Env, path: string,
                                  entries: map<string, seq<byte>>, version: string)
    requires HtaccessFunction.Decide(rules, path) != HtaccessFunction.Deny
    ensures ResolveGuarded(rules, w, env, path, entries, version) == Resolve(rules, w, env, path, entries, version)
  {
  }
}
