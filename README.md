# hammy core, modelled in Dafny

This project models the three pieces of logic that the hammy web server
runs for each request. The HTTP and OS plumbing around them is not
modelled.

- **Rule engine** (`HtaccessFunction`, htaccess.dfy):
  - the `.htaccess` loader turns lines into ordered `(pattern, action)` rules;
  - the first-match substring scan follows `deny` / `allow`.
- **Response cache** (`CacheFunction`, cache.dfy):
  - a class whose `entries` map is guarded by an entry count on insertion;
  - `sanitizeFileName`;
  - it saves to and loads from a cache directory, which is an input value.
- **Request resolver** (`ServerPlugin`, server.dfy):
  - `handleRequest`'s fixed branch order: root, no-dot path, cache, file;
  - the helpers `setContentType`, `redirectToIndex`, `redirectToFile`,
    `serveFile`, `serveCustomErrorPage`, `executePHP` and `isEmptyDir`;
  - the headers the middleware sets.

Two shared modules support them:

- `Http` (http.dfy):
  - bytes and `Option`;
  - the status codes, with their RFC 9110 sections;
  - the part of net/http's `ResponseWriter` contract that the handlers rely on.
- `GoStrings` (go_strings.dfy): `strings.TrimSpace`, `strings.IndexByte`,
  `strings.Contains`, `strings.HasPrefix`/`HasSuffix` and `filepath.Ext`.

The response writer is a value (`Http.Response`) that each step takes and
returns. The first `WriteHeader` or `Write` commits the status. A later
status is ignored, and so are later header changes: net/http snapshots the
header map at commit. Body bytes append.

The handlers reach the outside world only through oracles in an `Env`:

- the set of paths `os.Stat` does not report as missing;
- the bytes `os.ReadFile` returns;
- what `isEmptyDir` sees when it opens and reads the content root;
- the outcome of running `php`.

The code is modelled as written, quirks included:

- **A deny does not end the request.** The only early exit after
  `ApplyHtaccess` is a test for Content-Type `text/html; charset=utf-8`,
  and that test can never succeed. Resolution therefore continues after
  the 403 (see Findings).
- **Every PHP failure gets the same generic 500**, with body
  `"Error executing PHP script\n"`, whether the interpreter is missing or
  the script fails.
- **"/" never serves the placeholder page.** It is handled by
  `redirectToIndex` alone, so on a content root without an index file
  nothing at all is written. The placeholder is served only by `serveFile`,
  for a dotted path whose file is missing while the content root is empty.
- **Rule lines are split at the first single space**, as
  `strings.SplitN(line, " ", 2)` does, and not into whitespace-separated
  tokens. A line "p a b" gives the action "a b", and a line with a tab but
  no space is rejected.

## Model

| member | source | states |
|---|---|---|
| Http.EncodeRune | htaccessFunction/htaccessFunction.go:63 | one to four bytes per character, and a single byte, equal to the code point, exactly for ASCII |
| Http.Utf8 | htaccessFunction/htaccessFunction.go:63 | the []byte conversion of a string literal has at least one byte per character |
| Http.Utf8Ascii | htaccessFunction/htaccessFunction.go:63 | an ASCII literal is converted byte for byte |
| Http.Response.SetHeader | serverPlugin/serverPlugin.go:254 | definition: w.Header().Set, which takes effect only while nothing is committed |
| Http.Response.HasHeader | serverPlugin/serverPlugin.go:157 | definition: the header is present with exactly the given value |
| Http.Response.WriteHeader | serverPlugin/serverPlugin.go:255 | definition: only the first status code is committed |
| Http.Response.Write | serverPlugin/serverPlugin.go:256 | definition: appends to the body and commits 200 when nothing was committed |
| Http.Response.Redirect | serverPlugin/serverPlugin.go:195 | definition: http.Redirect, the Location target and the status, both only when nothing was committed |
| Http.Response.Error | serverPlugin/serverPlugin.go:264 | definition: http.Error, the plain-text type, nosniff, the status and the message followed by a newline |
| Http.Fresh | serverPlugin/serverPlugin.go:153 | the writer a handler receives has nothing committed, the given headers and an empty body |
| Http.CommittedIsFinal | serverPlugin/serverPlugin.go:156-179 | after a commit, header changes, status codes and redirects have no effect, and writes only append to the body |
| GoStrings.TrimSpace | htaccessFunction/htaccessFunction.go:32 | the trimmed line is no longer than the input, and when it is non-empty it neither starts nor ends with white space |
| GoStrings.IsSpace | htaccessFunction/htaccessFunction.go:32 | definition: the characters unicode.IsSpace accepts, that is tab to carriage return, space, U+0085, U+00A0 and the Unicode White_Space characters above U+1000 |
| GoStrings.TrimLeftSpace | htaccessFunction/htaccessFunction.go:32 | the result is a suffix of the input that is empty or starts with a non-space |
| GoStrings.TrimRightSpace | htaccessFunction/htaccessFunction.go:32 | the result is a prefix of the input that is empty or ends with a non-space |
| GoStrings.TrimSpaceEmpty | htaccessFunction/htaccessFunction.go:32-33 | a line trims to "" exactly when every character of it is white space |
| GoStrings.TrimLeftSpaceCuts | htaccessFunction/htaccessFunction.go:32 | only white space is removed from the front |
| GoStrings.TrimRightSpaceCuts | htaccessFunction/htaccessFunction.go:32 | only white space is removed from the back |
| GoStrings.Index | htaccessFunction/htaccessFunction.go:37-38 | the position of the first space, with no space before it, or -1 exactly when there is no space (so SplitN yields two parts exactly when the result is not -1) |
| GoStrings.HasPrefix | htaccessFunction/htaccessFunction.go:33 | definition: strings.HasPrefix, the prefix is no longer than the string and equals its start |
| GoStrings.HasSuffix | serverPlugin/serverPlugin.go:234 | definition: strings.HasSuffix, the suffix is no longer than the string and equals its end |
| GoStrings.Contains | htaccessFunction/htaccessFunction.go:59 | definition: strings.Contains, the substring starts at some position of the string; the empty substring occurs in every string |
| GoStrings.DotIndex | serverPlugin/serverPlugin.go:183 | the scan of filepath.Ext: the position found holds '.', and no '.' or '/' lies between it and the end |
| GoStrings.Ext | serverPlugin/serverPlugin.go:183 | definition: filepath.Ext, the suffix that starts at the position DotIndex finds, or the empty string; its shape is stated by ExtShape |
| GoStrings.DotIndexNone | serverPlugin/serverPlugin.go:183 | the scan finds nothing exactly when no '.' follows the last '/' |
| GoStrings.ExtShape | serverPlugin/serverPlugin.go:183 | the extension is a suffix that starts with its only '.' and contains no '/'; it is empty exactly when the final path element has no '.' |
| GoStrings.DotIndexPrefix | serverPlugin/serverPlugin.go:183 | scanning inside a prefix ignores what follows it |
| GoStrings.DotIndexShift | serverPlugin/serverPlugin.go:183 | in a + p where a has no '.', the scan finds what scanning p finds, shifted by the length of a |
| GoStrings.ExtOfPrefixed | serverPlugin/serverPlugin.go:183 | text without a '.' in front of a path leaves its extension unchanged |
| HtaccessFunction.ParseLineCases | htaccessFunction/htaccessFunction.go:31-46 | a line is skipped exactly when it is blank or starts with '#' after trimming, rejected exactly when it is otherwise space-free, and otherwise equals pattern + " " + action, giving a well-formed rule |
| HtaccessFunction.WellFormed | htaccessFunction/htaccessFunction.go:32-46 | definition: a pattern that is non-empty, has no space and starts with neither white space nor '#', and a non-empty action that does not end with white space |
| HtaccessFunction.ParseLine | htaccessFunction/htaccessFunction.go:31-46 | definition: one scanner iteration; the trimmed line is skipped when empty or starting with '#', rejected when it has no space, and otherwise split at its first space into pattern and action; ParseLineCases and ParseFormatted characterise it |
| HtaccessFunction.SplitAtSpace | htaccessFunction/htaccessFunction.go:37-46 | splitting a trimmed line at its first space gives a non-empty, space-free pattern and a non-empty action |
| HtaccessFunction.ParseFormatted | htaccessFunction/htaccessFunction.go:37-46 | round trip: every well-formed rule is read back from pattern + " " + action, so "p a b" gives action "a b" and a double space gives an action that starts with a space |
| HtaccessFunction.ParseLines | htaccessFunction/htaccessFunction.go:31-47 | a file never yields more rules than it has lines |
| HtaccessFunction.Contribution | htaccessFunction/htaccessFunction.go:33-46 | each line adds at most one rule |
| HtaccessFunction.ParseLinesWellFormed | htaccessFunction/htaccessFunction.go:32-46 | every loaded rule has a non-empty pattern without spaces and a non-empty action |
| HtaccessFunction.ParseLinesStep | htaccessFunction/htaccessFunction.go:31-47 | one more line appends exactly that line's contribution |
| HtaccessFunction.ParseLinesAppend | htaccessFunction/htaccessFunction.go:31-47 | the rules of two consecutive parts of a file are the rules of the first part followed by those of the second |
| HtaccessFunction.LineContribution | htaccessFunction/htaccessFunction.go:31-47 | wherever a line stands, it contributes its own rule, or nothing, at its own position |
| HtaccessFunction.ScanRules | htaccessFunction/htaccessFunction.go:30-47 | the scanner loop appends the rules of the lines, in line order, after those already loaded |
| HtaccessFunction.Decisive | htaccessFunction/htaccessFunction.go:59-67 | definition: the pattern occurs in the path and the action is exactly "deny" or "allow" |
| HtaccessFunction.Decide | htaccessFunction/htaccessFunction.go:57-73 | definition: the rule loop of ApplyHtaccess as a decision; the first rule whose pattern occurs in the path and whose action is "deny" or "allow" decides, other actions are skipped, and an exhausted list decides nothing; DecideIsFirstDecisive characterises it |
| HtaccessFunction.Forbid | htaccessFunction/htaccessFunction.go:62-63 | definition: status 403, then the body "403 - Forbidden" |
| HtaccessFunction.Enforce | htaccessFunction/htaccessFunction.go:57-73 | definition: the effect of ApplyHtaccess on the writer, Forbid on a deny and nothing otherwise; EnforceOutcome states it on an uncommitted writer |
| HtaccessFunction.HtaccessPlugin.constructor | htaccessFunction/htaccessFunction.go:76-80 | a new plugin has no rules |
| HtaccessFunction.HtaccessPlugin.LoadHtaccess | htaccessFunction/htaccessFunction.go:23-54 | a file that cannot be opened gives an open error and leaves the rules unchanged; otherwise the file's rules are appended to the earlier ones, which are never removed or reordered; a scan error is reported after the rules read so far have been kept |
| HtaccessFunction.DecideIsFirstDecisive | htaccessFunction/htaccessFunction.go:57-73 | the decision is that of the first rule whose pattern occurs in the path and whose action is exactly "deny" or "allow"; there is no decision exactly when no rule is decisive, and any other action (for example "Deny") is skipped |
| HtaccessFunction.EnforceOutcome | htaccessFunction/htaccessFunction.go:58-72 | on an uncommitted writer a deny gives status 403 and appends the body "403 - Forbidden"; every other outcome leaves the response unchanged; headers are never touched |
| HtaccessFunction.HtaccessPlugin.ApplyHtaccess | htaccessFunction/htaccessFunction.go:57-73 | the loop with early returns computes the first-decisive decision and its effect on the response |
| CacheFunction.SanitizeFileName | cacheFunction/cacheFunction.go:104-106 | same length; every '/' becomes '_'; every other character is kept |
| CacheFunction.SanitizedHasNoSlash | cacheFunction/cacheFunction.go:104-106 | a sanitized name contains no '/' |
| CacheFunction.SanitizeIdempotent | cacheFunction/cacheFunction.go:104-106 | sanitizing twice is the same as sanitizing once |
| CacheFunction.SanitizeNotInjective | cacheFunction/cacheFunction.go:104-106 | "/a_b" and "_a/b" get the same file name |
| CacheFunction.Insert | cacheFunction/cacheFunction.go:58-65 | definition: the guarded store of AddToCache, which stores the data under the key unless the map already has at least 3 * 1024 * 1024 * 1024 entries; InsertOutcome and InsertKeepsBound characterise it |
| CacheFunction.InsertOutcome | cacheFunction/cacheFunction.go:58-65 | below the bound the key maps to the new data, overwriting any old value, and every other key keeps its presence and value; at or above the bound nothing changes, even for a key already present |
| CacheFunction.InsertKeepsBound | cacheFunction/cacheFunction.go:58-65 | an insertion never takes the entry count past 3 * 1024 * 1024 * 1024 |
| CacheFunction.Cache.constructor | cacheFunction/cacheFunction.go:13 | the cache starts empty |
| CacheFunction.Cache.GetFromCache | cacheFunction/cacheFunction.go:50-55 | returns found exactly when the key is present, with its bytes, and nil (empty) bytes otherwise; the cache is not changed |
| CacheFunction.Cache.AddToCache | cacheFunction/cacheFunction.go:58-66 | the new map is the guarded insertion of the old one, and the entry-count bound is preserved |
| CacheFunction.WrittenNames | cacheFunction/cacheFunction.go:72-77 | definition: the sanitized names of the given keys for which os.WriteFile succeeds |
| CacheFunction.SavedKeys | cacheFunction/cacheFunction.go:69-80 | definition: what saving the given keys can leave, the written names added to the directory, each holding the data of a key that sanitizes to it, every other file untouched, and the directory otherwise unchanged |
| CacheFunction.HoldsSaved | cacheFunction/cacheFunction.go:72-77 | definition: every written name holds the data of some key that sanitizes to it |
| CacheFunction.Untouched | cacheFunction/cacheFunction.go:72-77 | definition: every file whose name was not written keeps its contents |
| CacheFunction.Cache.SaveCacheToDisk | cacheFunction/cacheFunction.go:69-80 | always returns nil and leaves the cache alone; each sanitized name that can be written ends up holding the data of a key that sanitizes to it; every other file is untouched |
| CacheFunction.SaveStep | cacheFunction/cacheFunction.go:72-79 | one iteration of the save loop, for any key in any order, keeps the saved-keys relation |
| CacheFunction.SaveStepWritten | cacheFunction/cacheFunction.go:73-77 | after one more iteration every written name still holds the data of a key that sanitizes to it |
| CacheFunction.SaveStepUntouched | cacheFunction/cacheFunction.go:73-77 | after one more iteration every file that was not written is unchanged |
| CacheFunction.WrittenNamesAdd | cacheFunction/cacheFunction.go:73-77 | one more key adds its sanitized name to the written names exactly when that name is writable |
| CacheFunction.ReadableFiles | cacheFunction/cacheFunction.go:92-98 | definition: the files of the directory that os.ReadFile reads, by name; the unreadable ones are skipped |
| CacheFunction.Cache.LoadCacheFromDisk | cacheFunction/cacheFunction.go:83-101 | a directory that cannot be listed returns an error and leaves the cache unchanged; otherwise every readable file is stored under its own name, unreadable files are skipped, and nil is returned |
| CacheFunction.SaveThenLoadRenames | cacheFunction/cacheFunction.go:69-106 | saving into an empty, writable directory and then loading restores the entries under their sanitized names only; a key whose sanitized name no other key shares gets its data back; a request path starting with '/' never hits a restored entry |
| CacheFunction.LoadCanExceedBound | cacheFunction/cacheFunction.go:58-98 | loading skips the guard: a cache already at the bound grows past it |
| ServerPlugin.MiddlewareHeaders | serverPlugin/serverPlugin.go:112-150 | the four security headers are set; Content-Encoding: gzip is set exactly when Accept-Encoding contains "gzip"; no Content-Type is set |
| ServerPlugin.ServerHeader | serverPlugin/serverPlugin.go:154 | definition: "HAMMY " followed by the configured version |
| ServerPlugin.TypeForExtension | serverPlugin/serverPlugin.go:32-45 | definition: the twelve entries of the contentTypes table, and no type for any other extension; TypeTable states what it gives for the extensions the handlers meet |
| ServerPlugin.ContentType | serverPlugin/serverPlugin.go:182-189 | definition: the table's type for filepath.Ext of the path, else application/octet-stream; HtmlTypeExactlyForHtml states when it is the HTML type |
| ServerPlugin.SetContentType | serverPlugin/serverPlugin.go:182-189 | definition: sets the Content-Type header to ContentType of the path |
| ServerPlugin.IsEmptyDir | serverPlugin/serverPlugin.go:271-279 | a content root that cannot be opened, or whose first read fails with an error other than end of directory, is never reported empty |
| ServerPlugin.TypeTable | serverPlugin/serverPlugin.go:32-45 | only ".html" has the HTML type; ".php", ".htmlx" and "" are not in the table |
| ServerPlugin.HtmlTypeExactlyForHtml | serverPlugin/serverPlugin.go:182-189 | a path is typed as HTML exactly when its extension is ".html"; ".php", ".htmlx" and extension-less paths get application/octet-stream |
| ServerPlugin.ExtUnderContentRoot | serverPlugin/serverPlugin.go:213 | putting the content root in front does not change a path's extension |
| ServerPlugin.CachedTypeMatchesServedType | serverPlugin/serverPlugin.go:173-241 | for every path except "/", a cache hit, typed from the URL path, and a file read from disk, typed from the file path, get the same Content-Type |
| ServerPlugin.FirstExisting | serverPlugin/serverPlugin.go:193-197 | an extension that is found is one of the candidates, and the file exists |
| ServerPlugin.FirstExistingIsFirst | serverPlugin/serverPlugin.go:191-210 | the probe returns the first existing candidate in list order |
| ServerPlugin.FirstExistingNone | serverPlugin/serverPlugin.go:191-210 | the probe finds nothing exactly when no candidate exists |
| ServerPlugin.IndexRedirect | serverPlugin/serverPlugin.go:191-199 | definition: the 301 to "/index" + the first index extension whose file exists, or the writer unchanged; RedirectToIndex is proved against it |
| ServerPlugin.FileRedirect | serverPlugin/serverPlugin.go:201-210 | definition: the 301 to path + the first of the eight extensions whose file exists, or None for returning false without writing; RedirectToFile is proved against it |
| ServerPlugin.Probe | serverPlugin/serverPlugin.go:193-197 | the loop over the extensions, with its early return, finds exactly the first existing candidate |
| ServerPlugin.RedirectToIndex | serverPlugin/serverPlugin.go:191-199 | the response is the 301 to "/index" + the first existing index extension, or the unchanged writer |
| ServerPlugin.RedirectToFile | serverPlugin/serverPlugin.go:201-210 | returns true exactly when some path + ext exists, and then gives the 301 to the first one; otherwise the writer is untouched |
| ServerPlugin.RootOutcome | serverPlugin/serverPlugin.go:161-164 | "/" redirects to the first existing index.php, index.html or index.htmlx; with none of them nothing at all is written; the cache is neither read nor changed |
| ServerPlugin.NoDotOutcome | serverPlugin/serverPlugin.go:166-171 | a dot-free path redirects to the first existing path + ext over the eight extensions, or gets the 404 page; the cache is neither read nor changed |
| ServerPlugin.CacheHitOutcome | serverPlugin/serverPlugin.go:173-177 | a cached dotted path gets the cached bytes, typed from the URL path, without consulting the filesystem or PHP, and the cache is unchanged |
| ServerPlugin.FilePath | serverPlugin/serverPlugin.go:212-216 | definition: content root + URL path, with "/" mapped to the content root's index.html; FilePathOf states it |
| ServerPlugin.ErrorPageBody | serverPlugin/serverPlugin.go:244-253 | definition: the custom page when it can be read, else the built-in page when it can be read, else the inline HTML message around the default text |
| ServerPlugin.ServeCustomErrorPage | serverPlugin/serverPlugin.go:244-257 | definition: the HTML Content-Type, the requested status, then the error page body; ErrorPageOutcome states it |
| ServerPlugin.NotFoundPage | serverPlugin/serverPlugin.go:168 | definition: serveCustomErrorPage with status 404, the content root's 404.html, the built-in 404 page and the message "404 - File Not Found", as at every call site |
| ServerPlugin.ExecutePHP | serverPlugin/serverPlugin.go:259-269 | definition: http.Error's 500 when running php fails, else the HTML Content-Type and the output; ExecutePHPOutcome states it |
| ServerPlugin.ServePlaceholder | serverPlugin/serverPlugin.go:219-221 | definition: the placeholder page's bytes, typed as HTML unless a Content-Type is already set, or net/http's plain 404 when the page cannot be read |
| ServerPlugin.ServedFile | serverPlugin/serverPlugin.go:212-242 | definition: serveFile as a decision; missing file, unreadable file, PHP script and static file, in that order, with the cache insertion only for the static file; ServedFileOutcome states it |
| ServerPlugin.FilePathOf | serverPlugin/serverPlugin.go:212-216 | the file path is the plain concatenation of content root and URL path; the index.html special case applies only to "/", which handleRequest never passes |
| ServerPlugin.PhpSuffixUnderContentRoot | serverPlugin/serverPlugin.go:213-234 | a ".php" URL path keeps its suffix under the content root |
| ServerPlugin.ServeFile | serverPlugin/serverPlugin.go:212-242 | the step-by-step serveFile yields the response and cache that the serveFile decision describes |
| ServerPlugin.ServedFileOutcome | serverPlugin/serverPlugin.go:212-242 | missing file: the placeholder when the root is empty, otherwise 404; unreadable file: 404; ".php": the PHP outcome; any other file: its bytes with its type, inserted into the cache under the URL path |
| ServerPlugin.OnlyStaticFilesAreCached | serverPlugin/serverPlugin.go:161-242 | the cache changes only when a readable non-PHP file is served for an uncached dotted path below the bound, and then only by that file under the URL path |
| ServerPlugin.PhpNeverCached | serverPlugin/serverPlugin.go:234-241 | a ".php" request never changes the cache |
| ServerPlugin.ErrorPageOutcome | serverPlugin/serverPlugin.go:244-257 | the requested status, Content-Type text/html; charset=utf-8, and the custom page, else the built-in page, else the inline HTML message |
| ServerPlugin.ExecutePHPOutcome | serverPlugin/serverPlugin.go:259-269 | any failure gives a plain-text 500 with body "Error executing PHP script\n"; success gives the output with status 200 and the HTML type |
| ServerPlugin.DispatchKeepsCommitted | serverPlugin/serverPlugin.go:161-179 | once the writer is committed, the later steps keep status, headers and redirect target and only append to the body |
| ServerPlugin.DispatchStatus | serverPlugin/serverPlugin.go:161-179 | on a fresh writer, nothing is committed exactly for "/" without an index file; otherwise the status is one of 200, 301, 404 and 500 |
| ServerPlugin.Screened | serverPlugin/serverPlugin.go:154-156 | definition: the Server header, then the effect of the rule engine |
| ServerPlugin.Dispatch | serverPlugin/serverPlugin.go:161-179 | definition: root, dot-free path, cache hit and serveFile, in that order, each ending the request |
| ServerPlugin.Resolve | serverPlugin/serverPlugin.go:152-180 | definition: handleRequest as written, the screened response, ended early only when its Content-Type is exactly the HTML type, else Dispatch; ResolveStatus and DenyDoesNotStopResolution state it |
| ServerPlugin.HandleRequest | serverPlugin/serverPlugin.go:152-180 | the handler, step by step, yields the response and cache of the resolution as written |
| ServerPlugin.EarlyExitNeverTaken | serverPlugin/serverPlugin.go:154-159 | behind the middleware, the Content-Type test after the rule engine never ends the request |
| ServerPlugin.ResolveStatus | serverPlugin/serverPlugin.go:152-180 | behind the middleware the status is 403 exactly for a denied path; nothing is written exactly for an undenied "/" without an index file; otherwise the status is one of 200, 301, 404 and 500 |
| ServerPlugin.DenyDoesNotStopResolution | serverPlugin/serverPlugin.go:156-159 | a denied request runs the whole resolution: 403, the body starts with "403 - Forbidden", and whatever the later steps write is appended to it |
| ServerPlugin.DeniedStaticFileIsStillCached | serverPlugin/serverPlugin.go:156-241 | a denied request for a readable static file answers 403 but still adds the file to the cache |
| ServerPlugin.DeniedFileIsStillCached | serverPlugin/serverPlugin.go:156-159 | the rule "/a deny" and the path "/a.txt": the response is 403 and the cache afterwards holds "/a.txt" |
| ServerPlugin.GuardedDenyStops | serverPlugin/serverPlugin.go:156-159 | corrected: a denied request ends with 403 and the forbidden body, and the cache is untouched |
| ServerPlugin.ResolveGuarded | serverPlugin/serverPlugin.go:156-159 | corrected definition: as Resolve, but a deny also ends the request |
| ServerPlugin.GuardedAgreesUnlessDenied | serverPlugin/serverPlugin.go:156-159 | corrected: on every request that is not denied, the corrected resolution and the one as written agree |

## Left out

- LoadConfig: the YAML configuration, the SERVER_PORT override and the per-request reload are file I/O. The version the `Server` header reports is a parameter.
- StartServer, createServer, ListenAndServe, signal handling and shutdownServer are process and network plumbing.
- gzip compression itself is a library call. The model keeps the uncompressed body bytes and models only the decision to set `Content-Encoding: gzip`.
- The cache's RWMutex is not modelled. Every operation is taken as atomic and sequential.
- ensureCacheDirectory and isDirectoryAccessible only set up directories. The cache directory is taken as given, and `filepath.Join(cacheDir, name)` is the file name itself.
- Logging is not modelled.
- bannerPlugin/bannerPlugin.go and main.go hold no modellable logic.
- os.Stat, os.ReadFile, os.ReadDir, os.WriteFile, os.Open/Readdir and exec.Command("php") are oracles. `FileSystem.present` is the set of paths `os.Stat` does not report as missing, so a permission error counts as present. `RootListing` is what isEmptyDir sees.
- ServerPlugin.ServePlaceholder: http.ServeFile is reduced to the page's bytes with the HTML type, or net/http's plain 404. Conditional and range requests, content sniffing, the index.html redirect and the 400 response that http.ServeFile gives to a request path with a ".." element are left out.
- Http.Response.Redirect: the short HTML body and the Content-Type that http.Redirect adds for GET and HEAD are left out, and so is its normalisation of the Location value.
- Http.Response.Error: the removal of Content-Length by http.Error is left out.
- HtaccessFunction.HtaccessPlugin.LoadHtaccess: bufio.Scanner is its output, the lines read plus whether a read error followed. Splitting and line-length limits belong to the scanner and are left out. The scanner loop is the method ScanRules, which collects into a local sequence before the `Rules` field is assigned once. A partial update in place is therefore not observable.
- CacheFunction.Cache.LoadCacheFromDisk: the loop stores into a local map that is assigned to `entries` at the end. The directory's names are distinct, so the order of the loop does not matter.
- CacheFunction.Cache.SaveCacheToDisk: Go's map iteration order is unspecified. The model lets the loop take the keys in any order, and its contract allows any of the colliding keys to win a file.
- ServerPlugin.Probe: the identical probing loops of redirectToIndex and redirectToFile are one method, which both call.
- GoStrings.Ext models filepath.Ext with '/' as the only separator, as on Unix.
- Strings are sequences of Unicode scalar values, while Go strings are bytes. A percent-decoded URL path, a rule line or a file name that is not valid UTF-8 cannot be represented. Only the bytes written to the body are modelled as bytes.
- CacheFunction.Cache.SaveCacheToDisk: os.WriteFile truncates the file before writing, so a write that fails after the open can leave the file empty or partly written. The `unwritable` names model only a write that leaves the file as it was, so the contract's "every other file is untouched" does not cover a partial write.

## Findings

| source | as written | input that shows it | evidently intended | confidence | as-written member | corrected member |
|---|---|---|---|---|---|---|
| serverPlugin/serverPlugin.go:156-159 | after the rule engine, the handler stops only when the Content-Type header is exactly "text/html; charset=utf-8". Nothing before that point sets Content-Type, and a deny writes only the status and body, so a denied request still runs every later step. The file is read and cached, and its bytes are appended after "403 - Forbidden" | rule "/a deny", request "/a.txt", and a readable /var/www/html/a.txt: the response is 403, and the cache afterwards maps "/a.txt" to the file's bytes | a deny ends the request after the 403 and its body, with no cache read or write | not executed | ServerPlugin.DeniedFileIsStillCached | ServerPlugin.GuardedDenyStops |

The as-written resolution is `ServerPlugin.Resolve`, and
`ServerPlugin.HandleRequest` is proved against it, since the handler models
the code. `ServerPlugin.ResolveGuarded` is the corrected resolution. It adds
the deny test to the early exit and is proved to stop after the 403
(`GuardedDenyStops`). It is also proved to agree with the code on every
request that is not denied (`GuardedAgreesUnlessDenied`).
