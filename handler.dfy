/**
 * `handle_http_request` of src/server.c: the status decision for a parsed
 * request against the document root. The file system is a map from the
 * paths `stat` would succeed on to what it reports; `read_file_content` is
 * the `content` each entry delivers.
 */
module Handler {
  import opened Wrappers
  import opened CString
  import opened Http
  import opened HttpRequest

  /**
   * What `stat` reports for a path, and what reading the file delivers
   * (`None` when opening or reading fails).
   */
  datatype FileInfo = FileInfo(isDir: bool, size: nat, mtime: int, content: Option<string>)

  type FileSystem = map<string, FileInfo>

  /** `char file_path[2560]` written by `snprintf`. */
  const FILE_PATH_CAPACITY: nat := 2559

  const GET: string := "GET"
  const HEAD: string := "HEAD"

  predicate MethodAllowed(m: string) {
    m == GET || m == HEAD
  }

  /**
   * Whether the request path ends in '/'. For an empty path the source reads
   * the byte before the array, the NUL ending the method field, so an empty
   * path counts as not ending in '/'.
   */
  predicate EndsWithSlash(path: string) {
    |path| > 0 && path[|path| - 1] == '/'
  }

  /** The file path first tried: "/" means the root's index.html. */
  function ResolvePath(docRoot: string, path: string): (p: string)
    ensures |p| <= FILE_PATH_CAPACITY
  {
    Truncate(if path == "/" then docRoot + "/index.html" else docRoot + path, FILE_PATH_CAPACITY)
  }

  /** The index file tried inside a requested directory. */
  function IndexPath(docRoot: string, path: string): (p: string)
    ensures |p| <= FILE_PATH_CAPACITY
  {
    Truncate(docRoot + path + "/index.html", FILE_PATH_CAPACITY)
  }

  /**
   * The path whose file answers an allowed request: the resolved path, or
   * the index file of a directory requested with a trailing slash. `None`
   * when nothing is found or when a redirect is due.
   */
  function TargetFile(path: string, docRoot: string, fs: FileSystem): (t: Option<string>)
    ensures t.Some? ==> t.value in fs
  {
    var p := ResolvePath(docRoot, path);
    if p !in fs then None
    else if !fs[p].isDir then Some(p)
    else if !EndsWithSlash(path) then None
    else
      var q := IndexPath(docRoot, path);
      if q in fs then Some(q) else None
  }

  /** A directory requested without its trailing slash. */
  predicate NeedsRedirect(path: string, docRoot: string, fs: FileSystem) {
    var p := ResolvePath(docRoot, path);
    p in fs && fs[p].isDir && !EndsWithSlash(path)
  }

  /** The weak validator of a file: its size and modification time in hexadecimal. */
  function FileETag(f: FileInfo): string {
    WeakETag(f.size, f.mtime)
  }

  /** The `If-None-Match` test: a non-empty header that contains the validator anywhere. */
  predicate ValidatorMatches(ifNoneMatch: string, f: FileInfo) {
    ifNoneMatch != "" && Contains(ifNoneMatch, FileETag(f))
  }

  /**
   * `read_file_content` succeeds when the whole file is read; `read` on a
   * directory fails, so a directory is never readable.
   */
  predicate Readable(f: FileInfo) {
    !f.isDir && f.content.Some? && |f.content.value| == f.size
  }

  /** A response carrying one of the fixed plain-text bodies. */
  function TextResponse(keepAlive: bool, code: int, text: string): (r: Response)
    ensures WellFormed(r) && r.statusCode == code && r.contentType == MIME_TEXT && r.keepAlive == keepAlive
    ensures r.body == (if |text| > 0 then Some(text) else None)
  {
    assert text[..|text|] == text;
    BuildHttpResponse(keepAlive, code, MIME_TEXT, Some(text), |text|, true)
  }

  /** A response with no body and length 0, written field by field. */
  function EmptyResponse(keepAlive: bool, code: int, contentType: string): (r: Response)
    ensures WellFormed(r) && r.body.None? && r.contentLength == 0
  {
    Response(code, GetStatusText(code), contentType, 0, None, keepAlive)
  }

  /**
   * `handle_http_request`, with the response's keep-alive preset from the
   * request as `handle_client` does. Allocation is assumed to succeed.
   */
  function HandleHttpRequest(req: Request, docRoot: string, fs: FileSystem): (resp: Response)
    ensures WellFormed(resp)
    ensures resp.keepAlive == req.keepAlive
    ensures resp.statusText == GetStatusText(resp.statusCode)
    ensures resp.statusCode in {200, 301, 304, 404, 405, 500}
    ensures resp.contentType in MIME_TYPES
  {
    var ka := req.keepAlive;
    if !MethodAllowed(req.httpMethod) then TextResponse(ka, 405, "Method Not Allowed")
    else if NeedsRedirect(req.path, docRoot, fs) then EmptyResponse(ka, 301, MIME_TEXT)
    else match TargetFile(req.path, docRoot, fs)
      case None => TextResponse(ka, 404, "Not Found")
      case Some(t) =>
        var f := fs[t];
        var mime := GetMimeType(t);
        if ValidatorMatches(req.ifNoneMatch, f) then EmptyResponse(ka, 304, mime)
        else if !Readable(f) then TextResponse(ka, 500, "Internal Server Error")
        else if req.httpMethod == HEAD then BuildHttpResponse(ka, 200, mime, None, 0, true)
        else BuildHttpResponse(ka, 200, mime, f.content, f.size, true)
  }

  // ---------------------------------------------------------------------
  // Status choices

  /** 405 with the 18-byte text body exactly for methods other than GET and HEAD. */
  lemma MethodNotAllowed(req: Request, docRoot: string, fs: FileSystem)
    ensures var r := HandleHttpRequest(req, docRoot, fs);
            r.statusCode == 405 <==> !MethodAllowed(req.httpMethod)
    ensures var r := HandleHttpRequest(req, docRoot, fs);
            r.statusCode == 405 ==>
              r.body == Some("Method Not Allowed") && r.contentLength == 18 && r.contentType == MIME_TEXT
  {
  }

  /** 404 exactly when an allowed request finds neither the file nor a directory to redirect. */
  lemma NotFound(req: Request, docRoot: string, fs: FileSystem)
    ensures var r := HandleHttpRequest(req, docRoot, fs);
            r.statusCode == 404 <==>
              && MethodAllowed(req.httpMethod)
              && !NeedsRedirect(req.path, docRoot, fs)
              && TargetFile(req.path, docRoot, fs).None?
  {
  }

  /** 301, without a body or a Location, exactly for a directory requested without its trailing slash. */
  lemma MovedPermanently(req: Request, docRoot: string, fs: FileSystem)
    ensures var r := HandleHttpRequest(req, docRoot, fs);
            r.statusCode == 301 <==> MethodAllowed(req.httpMethod) && NeedsRedirect(req.path, docRoot, fs)
    ensures var r := HandleHttpRequest(req, docRoot, fs);
            r.statusCode == 301 ==> r.body.None? && r.contentLength == 0 && r.contentType == MIME_TEXT
  {
  }

  /**
   * 304 exactly when the file is found and a non-empty If-None-Match contains
   * its weak validator as a substring; the response keeps the file's type
   * and has no body.
   */
  lemma NotModified(req: Request, docRoot: string, fs: FileSystem)
    ensures var r := HandleHttpRequest(req, docRoot, fs);
            var t := TargetFile(req.path, docRoot, fs);
            r.statusCode == 304 <==>
              MethodAllowed(req.httpMethod) && t.Some? && ValidatorMatches(req.ifNoneMatch, fs[t.value])
    ensures var r := HandleHttpRequest(req, docRoot, fs);
            var t := TargetFile(req.path, docRoot, fs);
            r.statusCode == 304 ==>
              r.body.None? && r.contentLength == 0 && r.contentType == GetMimeType(t.value)
  {
    var t := TargetFile(req.path, docRoot, fs);
    if MethodAllowed(req.httpMethod) && t.Some? {
      assert !NeedsRedirect(req.path, docRoot, fs);
    }
  }

  /** A served file that cannot be read in full gives 500. */
  lemma InternalError(req: Request, docRoot: string, fs: FileSystem)
    ensures var r := HandleHttpRequest(req, docRoot, fs);
            var t := TargetFile(req.path, docRoot, fs);
            r.statusCode == 500 <==>
              && MethodAllowed(req.httpMethod) && t.Some?
              && !ValidatorMatches(req.ifNoneMatch, fs[t.value]) && !Readable(fs[t.value])
  {
    var t := TargetFile(req.path, docRoot, fs);
    if MethodAllowed(req.httpMethod) && t.Some? {
      assert !NeedsRedirect(req.path, docRoot, fs);
    }
  }

  /**
   * 200 carries the type of the served file; GET carries the whole file,
   * HEAD no body and length 0.
   */
  lemma Success(req: Request, docRoot: string, fs: FileSystem)
    ensures var r := HandleHttpRequest(req, docRoot, fs);
            var t := TargetFile(req.path, docRoot, fs);
            r.statusCode == 200 ==>
              && t.Some? && Readable(fs[t.value])
              && r.contentType == GetMimeType(t.value)
              && (req.httpMethod == HEAD ==> r.body.None? && r.contentLength == 0)
              && (req.httpMethod == GET ==>
                    r.contentLength == fs[t.value].size
                    && r.body == (if fs[t.value].size > 0 then fs[t.value].content else None))
  {
    var t := TargetFile(req.path, docRoot, fs);
    if t.Some? && Readable(fs[t.value]) {
      var c := fs[t.value].content.value;
      assert c[..|c|] == c;
    }
  }

  /**
   * GET "/" serves the root's index.html as HTML, whole, when it is a
   * readable regular file and no validator is sent.
   */
  lemma RootServesIndex(req: Request, docRoot: string, fs: FileSystem)
    requires req.httpMethod == GET && req.path == "/" && req.ifNoneMatch == ""
    requires |docRoot| + |"/index.html"| <= FILE_PATH_CAPACITY
    requires docRoot + "/index.html" in fs
    requires Readable(fs[docRoot + "/index.html"])
    ensures var r := HandleHttpRequest(req, docRoot, fs);
            && r.statusCode == 200 && r.contentType == MIME_HTML
            && r.contentLength == fs[docRoot + "/index.html"].size
  {
    HtmlExtension(docRoot + "/index");
    assert docRoot + "/index" + ".html" == docRoot + "/index.html";
  }
}
