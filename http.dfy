/**
 * The HTTP helpers of src/http.c: MIME lookup by file extension, the status
 * phrase table, response construction and the gzip negotiation guards.
 */
module Http {
  import opened Wrappers
  import opened CString

  const MIME_HTML: string := "text/html; charset=UTF-8"
  const MIME_TEXT: string := "text/plain; charset=UTF-8"
  const MIME_JSON: string := "application/json; charset=UTF-8"
  const MIME_CSS: string := "text/css; charset=UTF-8"
  const MIME_JS: string := "application/javascript; charset=UTF-8"
  const MIME_JPEG: string := "image/jpeg"
  const MIME_PNG: string := "image/png"
  const MIME_GIF: string := "image/gif"
  const MIME_SVG: string := "image/svg+xml"
  const MIME_BINARY: string := "application/octet-stream"

  const MIME_TYPES: set<string> :=
    {MIME_HTML, MIME_TEXT, MIME_JSON, MIME_CSS, MIME_JS, MIME_JPEG, MIME_PNG, MIME_GIF, MIME_SVG, MIME_BINARY}

  /** The position of the last `c` in `s`, as `strrchr` finds it. */
  function LastIndexOf(s: string, c: char): (r: Option<nat>)
    ensures r.Some? ==> r.value < |s| && s[r.value] == c
    ensures r.Some? ==> forall k :: r.value < k < |s| ==> s[k] != c
    ensures r.None? ==> c !in s
  {
    if s == [] then None
    else if s[|s| - 1] == c then Some(|s| - 1)
    else LastIndexOf(s[..|s| - 1], c)
  }

  /** The MIME type of an extension (the text after the dot), compared case-insensitively. */
  function ExtensionMime(ext: string): (m: string)
    ensures m in MIME_TYPES
  {
    var e := LowerStr(ext);
    if e == "html" || e == "htm" then MIME_HTML
    else if e == "txt" then MIME_TEXT
    else if e == "css" then MIME_CSS
    else if e == "js" then MIME_JS
    else if e == "json" then MIME_JSON
    else if e == "jpg" || e == "jpeg" then MIME_JPEG
    else if e == "png" then MIME_PNG
    else if e == "gif" then MIME_GIF
    else if e == "svg" then MIME_SVG
    else MIME_BINARY
  }

  /** `get_mime_type`: the extension is whatever follows the last '.' anywhere in the path. */
  function GetMimeType(path: string): (m: string)
    ensures m in MIME_TYPES
    ensures '.' !in path ==> m == MIME_BINARY
  {
    match LastIndexOf(path, '.')
    case None => MIME_BINARY
    case Some(i) => ExtensionMime(path[i + 1..])
  }

  /** The type of `stem.ext` is decided by `ext` alone, whatever dots `stem` holds. */
  lemma MimeOfExtension(stem: string, ext: string)
    requires '.' !in ext
    ensures GetMimeType(stem + "." + ext) == ExtensionMime(ext)
  {
    var p := stem + "." + ext;
    var r := LastIndexOf(p, '.');
    assert p[|stem|] == '.';
    assert r.Some?;
    assert forall k :: |stem| < k < |p| ==> p[k] == ext[k - |stem| - 1];
    assert r.value == |stem|;
    assert p[|stem| + 1..] == ext;
  }

  /** Upper case in the extension does not change the type: `INDEX.HTML` is HTML. */
  lemma ExtensionCaseInsensitive(e1: string, e2: string)
    requires |e1| == |e2|
    requires forall i :: 0 <= i < |e1| ==> ToLower(e1[i]) == ToLower(e2[i])
    ensures ExtensionMime(e1) == ExtensionMime(e2)
  {
    assert LowerStr(e1) == LowerStr(e2);
  }

  lemma HtmlExtension(stem: string)
    ensures GetMimeType(stem + ".html") == MIME_HTML
  {
    assert stem + ".html" == stem + "." + "html";
    MimeOfExtension(stem, "html");
    assert LowerStr("html") == "html";
  }

  const KNOWN_STATUS_CODES: set<int> :=
    {200, 201, 204, 301, 302, 304, 400, 401, 403, 404, 405, 500, 501, 503}

  /** `get_status_text`: the fixed reason phrase of each listed code, "Unknown" for any other. */
  function GetStatusText(code: int): (text: string)
    ensures text == "Unknown" <==> code !in KNOWN_STATUS_CODES
    ensures code == 200 ==> text == "OK"
    ensures code == 301 ==> text == "Moved Permanently"
    ensures code == 304 ==> text == "Not Modified"
    ensures code == 404 ==> text == "Not Found"
    ensures code == 405 ==> text == "Method Not Allowed"
    ensures code == 500 ==> text == "Internal Server Error"
  {
    match code
    case 200 => "OK"
    case 201 => "Created"
    case 204 => "No Content"
    case 301 => "Moved Permanently"
    case 302 => "Found"
    case 304 => "Not Modified"
    case 400 => "Bad Request"
    case 401 => "Unauthorized"
    case 403 => "Forbidden"
    case 404 => "Not Found"
    case 405 => "Method Not Allowed"
    case 500 => "Internal Server Error"
    case 501 => "Not Implemented"
    case 503 => "Service Unavailable"
    case _ => "Unknown"
  }

  /**
   * An `http_response_t` after the server has filled it in. `body == None`
   * stands for a NULL body pointer.
   */
  datatype Response = Response(
    statusCode: int,
    statusText: string,
    contentType: string,
    contentLength: nat,
    body: Option<string>,
    keepAlive: bool)

  /** The framing every response the server builds keeps: the length is the body's, 0 without one. */
  predicate WellFormed(r: Response) {
    match r.body
    case None => r.contentLength == 0
    case Some(b) => |b| == r.contentLength
  }

  /**
   * `build_http_response` on a response whose `keep_alive` the caller already
   * set. `allocOk` is whether `malloc` of the body copy succeeds.
   */
  function BuildHttpResponse(keepAlive: bool, statusCode: int, contentType: string,
                             body: Option<string>, contentLength: nat, allocOk: bool): (r: Response)
    requires body.Some? ==> contentLength <= |body.value|
    ensures WellFormed(r)
    ensures r.statusCode == statusCode && r.statusText == GetStatusText(statusCode)
    ensures r.contentType == contentType && r.keepAlive == keepAlive
    ensures r.body.Some? <==> body.Some? && contentLength > 0 && allocOk
    ensures r.body.Some? ==> r.body.value == body.value[..contentLength]
  {
    var copy := if body.Some? && contentLength > 0 && allocOk then Some(body.value[..contentLength]) else None;
    Response(statusCode, GetStatusText(statusCode), contentType,
             if copy.Some? then contentLength else 0, copy, keepAlive)
  }

  /** `build_json_response`: the JSON text up to its NUL, typed as JSON. */
  function BuildJsonResponse(keepAlive: bool, statusCode: int, json: string, allocOk: bool): (r: Response)
    ensures WellFormed(r)
    ensures r.statusCode == statusCode && r.contentType == MIME_JSON
    ensures r.body.Some? <==> |UpToNul(json)| > 0 && allocOk
    ensures r.body.Some? ==> r.body.value == UpToNul(json)
  {
    BuildHttpResponse(keepAlive, statusCode, MIME_JSON, Some(json), |UpToNul(json)|, allocOk)
  }

  /** `client_accepts_gzip`: a case-sensitive search for "gzip"; a NULL header accepts nothing. */
  function ClientAcceptsGzip(acceptEncoding: Option<string>): (accepts: bool)
    ensures accepts <==> acceptEncoding.Some? && exists k :: OccursAt(acceptEncoding.value, "gzip", k)
  {
    ContainsIff(if acceptEncoding.Some? then acceptEncoding.value else "", "gzip");
    acceptEncoding.Some? && Contains(acceptEncoding.value, "gzip")
  }

  /**
   * `gzip_compress_data`: `None` is the -1 return. The zlib stream itself is
   * the `compressor` oracle; it is consulted only past the argument guard.
   */
  function GzipCompressData(data: Option<string>, size: nat, outputsPresent: bool,
                            compressor: string -> Option<string>): (r: Option<string>)
    requires data.Some? ==> size <= |data.value|
    ensures data.None? || size == 0 || !outputsPresent ==> r.None?
    ensures r.Some? ==> r == compressor(data.value[..size])
  {
    if data.None? || size == 0 || !outputsPresent then None
    else compressor(data.value[..size])
  }
}
