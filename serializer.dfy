/**
 * The header and policy part of `send_http_response` in src/server.c: the
 * cache policy by content type, the gzip eligibility rule and the header
 * block written before the body. The clock is the parameter `now` and the
 * formatted Date the parameter `date`; the zlib stream is an oracle.
 */
module Serializer {
  import opened Wrappers
  import opened CString
  import opened Http
  import opened HttpRequest
  import opened ServerConfig

  const SERVER_NAME: string := "CServer/1.0"
  const CRLF: string := "\r\n"

  datatype HeaderField = HeaderField(name: string, value: string)

  /** The value of the first field called `name`. */
  function HeaderValue(fields: seq<HeaderField>, name: string): (v: Option<string>)
    ensures v.None? <==> forall i :: 0 <= i < |fields| ==> fields[i].name != name
    ensures v.Some? ==> HeaderField(name, v.value) in fields
  {
    if fields == [] then None
    else if fields[0].name == name then Some(fields[0].value)
    else HeaderValue(fields[1..], name)
  }

  /** A field in front of a list does not hide the fields of other names. */
  lemma HeaderValueAppend(a: seq<HeaderField>, b: seq<HeaderField>, name: string)
    ensures HeaderValue(a + b, name) == if HeaderValue(a, name).Some? then HeaderValue(a, name) else HeaderValue(b, name)
  {
    if a == [] {
      assert a + b == b;
    } else {
      assert (a + b)[0] == a[0];
      assert (a + b)[1..] == a[1..] + b;
      HeaderValueAppend(a[1..], b, name);
    }
  }

  /** `max-age` in seconds by content-type prefix (case-sensitive, as `strncmp`). */
  function MaxAge(contentType: string): (seconds: nat)
    ensures seconds in {3600, 604800, 2592000, 86400}
  {
    if StartsWith(contentType, "text/html") then 3600
    else if StartsWith(contentType, "text/css") || StartsWith(contentType, "application/javascript") then 604800
    else if StartsWith(contentType, "image/") then 2592000
    else 86400
  }

  /**
   * The cache headers: `no-store` for every status but 200; for 200 a public
   * `max-age` and the weak validator of the length and the clock.
   */
  function CacheFields(resp: Response, now: int): (fields: seq<HeaderField>)
    ensures |fields| == (if resp.statusCode == 200 then 2 else 1) && fields[0].name == "Cache-Control"
  {
    if resp.statusCode == 200 then
      [HeaderField("Cache-Control", "public, max-age=" + Decimal(MaxAge(resp.contentType))),
       HeaderField("ETag", WeakETag(resp.contentLength, now))]
    else [HeaderField("Cache-Control", "no-store")]
  }

  const COMPRESSIBLE_PREFIXES: seq<string> :=
    ["text/", "application/json", "application/javascript", "application/xml", "application/x-javascript"]

  /** Textual types worth compressing, by prefix. */
  predicate IsCompressible(contentType: string) {
    exists i :: 0 <= i < |COMPRESSIBLE_PREFIXES| && StartsWith(contentType, COMPRESSIBLE_PREFIXES[i])
  }

  /**
   * Every guard before compression is tried. The minimum size is an `int`
   * compared with a `size_t`, so a negative minimum converts to a huge one.
   */
  predicate GzipEligible(cfg: Config, resp: Response, request: Option<Request>) {
    && cfg.enableGzip
    && resp.body.Some?
    && resp.contentLength > Unsigned64(cfg.gzipMinSize)
    && resp.statusCode == 200
    && request.Some?
    && IsCompressible(resp.contentType)
    && ClientAcceptsGzip(Some(request.value.acceptEncoding))
  }

  /** The compressed body when compression is used. */
  function Compressed(cfg: Config, resp: Response, request: Option<Request>,
                      compressor: string -> Option<string>): (c: Option<string>)
    requires WellFormed(resp)
    ensures c.Some? <==> GzipEligible(cfg, resp, request) && compressor(resp.body.value).Some?
    ensures c.Some? ==> c == compressor(resp.body.value)
  {
    if GzipEligible(cfg, resp, request) then
      assert resp.body.value[..resp.contentLength] == resp.body.value;
      GzipCompressData(resp.body, resp.contentLength, true, compressor)
    else None
  }

  /** The status line of section 3.1.2 of RFC 7230, without its CRLF. */
  function StatusLine(resp: Response): string {
    "HTTP/1.1 " + Decimal(resp.statusCode) + " " + resp.statusText
  }

  /** The header fields in the order they are written. */
  function ResponseFields(resp: Response, cache: seq<HeaderField>, compressed: Option<string>,
                          date: string): seq<HeaderField> {
    LeadingFields(resp, compressed, date)
    + cache
    + (if compressed.Some? then [HeaderField("Content-Encoding", "gzip")] else [])
    + [HeaderField("Connection", if resp.keepAlive then "keep-alive" else "close")]
  }

  /** The four fields written first, before the cache headers. */
  function LeadingFields(resp: Response, compressed: Option<string>, date: string): seq<HeaderField> {
    [HeaderField("Server", SERVER_NAME),
     HeaderField("Date", date),
     HeaderField("Content-Type", resp.contentType),
     HeaderField("Content-Length", Decimal(if compressed.Some? then |compressed.value| else resp.contentLength))]
  }

  lemma ContentLengthField(resp: Response, cache: seq<HeaderField>, compressed: Option<string>, date: string)
    ensures HeaderValue(ResponseFields(resp, cache, compressed, date), "Content-Length")
            == Some(Decimal(if compressed.Some? then |compressed.value| else resp.contentLength))
  {
    var lead := LeadingFields(resp, compressed, date);
    var rest := cache + (if compressed.Some? then [HeaderField("Content-Encoding", "gzip")] else [])
                + [HeaderField("Connection", if resp.keepAlive then "keep-alive" else "close")];
    assert ResponseFields(resp, cache, compressed, date) == lead + rest;
    HeaderValueAppend(lead, rest, "Content-Length");
    assert lead[1..][1..][1..][0].name == "Content-Length";
  }

  lemma ContentTypeField(resp: Response, cache: seq<HeaderField>, compressed: Option<string>, date: string)
    ensures HeaderValue(ResponseFields(resp, cache, compressed, date), "Content-Type") == Some(resp.contentType)
  {
    var lead := LeadingFields(resp, compressed, date);
    var rest := cache + (if compressed.Some? then [HeaderField("Content-Encoding", "gzip")] else [])
                + [HeaderField("Connection", if resp.keepAlive then "keep-alive" else "close")];
    assert ResponseFields(resp, cache, compressed, date) == lead + rest;
    HeaderValueAppend(lead, rest, "Content-Type");
    assert lead[1..][1..][0].name == "Content-Type";
  }

  function RenderField(f: HeaderField): string {
    f.name + ": " + f.value + CRLF
  }

  function RenderFields(fields: seq<HeaderField>): string {
    if fields == [] then "" else RenderField(fields[0]) + RenderFields(fields[1..])
  }

  /** The header block: status line, one line per field, and the empty line. */
  function RenderHead(statusLine: string, fields: seq<HeaderField>): string {
    statusLine + CRLF + RenderFields(fields) + CRLF
  }

  /** What is written to the socket: the header block, then the body bytes. */
  datatype Transmission = Transmission(statusLine: string, fields: seq<HeaderField>, payload: string)

  function Wire(t: Transmission): string {
    RenderHead(t.statusLine, t.fields) + t.payload
  }

  // ---------------------------------------------------------------------
  // Where the header block ends

  const BLANK_LINE: string := "\r\n\r\n"

  predicate NoLineBreak(s: string) {
    forall i :: 0 <= i < |s| ==> s[i] != '\r' && s[i] != '\n'
  }

  predicate SingleLine(f: HeaderField) {
    NoLineBreak(f.name) && NoLineBreak(f.value)
  }

  /** No blank line can start inside a line that holds no line break. */
  lemma BlankNotInLine(line: string, rest: string)
    requires NoLineBreak(line)
    ensures forall k: nat :: k < |line| ==> !OccursAt(line + rest, BLANK_LINE, k)
  {
    forall k: nat | k < |line|
      ensures !OccursAt(line + rest, BLANK_LINE, k)
    {
      if k + 4 <= |line + rest| {
        assert (line + rest)[k..k + 4][0] == line[k];
      }
    }
  }

  /** A line ended by CRLF and followed by a non-blank line adds no blank line. */
  lemma BlankAfterLine(line: string, u: string, bound: nat)
    requires NoLineBreak(line)
    requires |u| > 0 && u[0] != '\r'
    requires forall k: nat :: k < bound ==> !OccursAt(u, BLANK_LINE, k)
    ensures forall k: nat :: k < |line| + 2 + bound ==> !OccursAt(line + CRLF + u, BLANK_LINE, k)
  {
    var s := line + CRLF + u;
    BlankNotInLine(line, CRLF + u);
    assert s == line + (CRLF + u);
    forall k: nat | |line| <= k < |line| + 2 + bound && k + 4 <= |s|
      ensures !OccursAt(s, BLANK_LINE, k)
    {
      if k == |line| {
        assert s[k..k + 4][2] == u[0];
      } else if k == |line| + 1 {
        assert s[k..k + 4][0] == '\n';
      } else {
        var j := k - |line| - 2;
        assert s[k..k + 4] == u[j..j + 4];
        assert !OccursAt(u, BLANK_LINE, j);
      }
    }
  }

  /** After a non-empty status line and single-line fields, the first blank line is the one closing the block. */
  lemma {:induction false} NoBlankLineInHead(first: string, fields: seq<HeaderField>, tail: string)
    requires |first| > 0 && NoLineBreak(first)
    requires forall i :: 0 <= i < |fields| ==> SingleLine(fields[i])
    ensures forall k: nat :: k < |first| + |RenderFields(fields)| ==>
              !OccursAt(first + CRLF + RenderFields(fields) + tail, BLANK_LINE, k)
    decreases |fields|
  {
    if fields == [] {
      assert first + CRLF + RenderFields(fields) + tail == first + (CRLF + tail);
      BlankNotInLine(first, CRLF + tail);
    } else {
      var f := fields[0];
      var line := f.name + ": " + f.value;
      assert line[|f.name|] == ':';
      forall i | 0 <= i < |line| ensures line[i] != '\r' && line[i] != '\n' {
        if i < |f.name| {
          assert line[i] == f.name[i];
        } else if i >= |f.name| + 2 {
          assert line[i] == f.value[i - |f.name| - 2];
        }
      }
      var rest := RenderFields(fields[1..]);
      NoBlankLineInHead(line, fields[1..], tail);
      var u := line + CRLF + rest + tail;
      assert u[0] == line[0];
      BlankAfterLine(first, u, |line| + |rest|);
      assert RenderFields(fields) == line + CRLF + rest;
      assert first + CRLF + RenderFields(fields) + tail == first + CRLF + u;
    }
  }

  /** The status line's CRLF, then the fields' lines, still end in CRLF. */
  lemma {:induction false} FieldLinesEnd(fields: seq<HeaderField>)
    ensures var r := RenderFields(fields); (CRLF + r)[|r|..] == CRLF
    decreases |fields|
  {
    if fields != [] {
      var r' := RenderFields(fields[1..]);
      FieldLinesEnd(fields[1..]);
      var a := RenderField(fields[0]);
      assert CRLF + RenderFields(fields) == (CRLF + a) + r';
      if r' == [] {
        assert (CRLF + a)[|a|..] == CRLF;
      } else {
        assert r' == (CRLF + r')[2..];
        assert r'[|r'| - 2..] == CRLF;
      }
    }
  }

  /**
   * A reader that looks for the first blank line finds the end of the header
   * block, and what follows it is exactly the payload.
   */
  lemma HeaderBlockEnd(t: Transmission)
    requires |t.statusLine| > 0 && NoLineBreak(t.statusLine)
    requires forall i :: 0 <= i < |t.fields| ==> SingleLine(t.fields[i])
    ensures var head := RenderHead(t.statusLine, t.fields);
            && IndexOf(Wire(t), BLANK_LINE) == Some(|head| - 4)
            && Wire(t)[|head|..] == t.payload
  {
    FirstBlankLine(t);
    var head := RenderHead(t.statusLine, t.fields);
    assert Wire(t)[|head|..] == t.payload;
  }

  lemma FirstBlankLine(t: Transmission)
    requires |t.statusLine| > 0 && NoLineBreak(t.statusLine)
    requires forall i :: 0 <= i < |t.fields| ==> SingleLine(t.fields[i])
    ensures IndexOf(Wire(t), BLANK_LINE) == Some(|t.statusLine| + |RenderFields(t.fields)|)
  {
    BlankLineClosesHead(t);
    NoEarlierBlankLine(t);
    FirstOccurrence(Wire(t), BLANK_LINE, |t.statusLine| + |RenderFields(t.fields)|);
  }

  lemma BlankLineClosesHead(t: Transmission)
    ensures OccursAt(Wire(t), BLANK_LINE, |t.statusLine| + |RenderFields(t.fields)|)
  {
    var r := RenderFields(t.fields);
    var lines := t.statusLine + CRLF + r;
    assert lines == t.statusLine + (CRLF + r);
    FieldLinesEnd(t.fields);
    assert lines[|lines| - 2..] == (CRLF + r)[|r|..];
    assert Wire(t) == lines + (CRLF + t.payload);
    CrlfJoin(lines, CRLF + t.payload);
  }

  /** A text ending in CRLF followed by one starting with CRLF holds a blank line at the seam. */
  lemma CrlfJoin(a: string, b: string)
    requires |a| >= 2 && a[|a| - 2..] == CRLF && |b| >= 2 && b[..2] == CRLF
    ensures OccursAt(a + b, BLANK_LINE, |a| - 2)
  {
    assert (a + b)[|a| - 2..|a| + 2] == a[|a| - 2..] + b[..2];
  }

  lemma NoEarlierBlankLine(t: Transmission)
    requires |t.statusLine| > 0 && NoLineBreak(t.statusLine)
    requires forall i :: 0 <= i < |t.fields| ==> SingleLine(t.fields[i])
    ensures forall j: nat :: j < |t.statusLine| + |RenderFields(t.fields)| ==> !OccursAt(Wire(t), BLANK_LINE, j)
  {
    NoBlankLineInHead(t.statusLine, t.fields, CRLF + t.payload);
    assert Wire(t) == t.statusLine + CRLF + RenderFields(t.fields) + (CRLF + t.payload);
  }

  /**
   * `send_http_response`. `request` is the request the response answers
   * (`None` for the rate-limit response); the body goes out, compressed when
   * compression was used, only when there is one of non-zero length.
   */
  function SendHttpResponse(cfg: Config, resp: Response, request: Option<Request>, date: string, now: int,
                            compressor: string -> Option<string>): (t: Transmission)
    requires WellFormed(resp)
    ensures t.statusLine == StatusLine(resp)
    ensures HeaderValue(t.fields, "Content-Length") == Some(Decimal(|t.payload|))
  {
    var compressed := Compressed(cfg, resp, request, compressor);
    var fields := ResponseFields(resp, CacheFields(resp, now), compressed, date);
    var payload :=
      if resp.body.Some? && resp.contentLength > 0 then
        (if compressed.Some? then compressed.value else resp.body.value[..resp.contentLength])
      else "";
    assert resp.body.Some? ==> resp.body.value[..resp.contentLength] == resp.body.value;
    ContentLengthField(resp, CacheFields(resp, now), compressed, date);
    Transmission(StatusLine(resp), fields, payload)
  }

  // ---------------------------------------------------------------------
  // What the header block says

  /** A field named after none of the four leading ones is found after them. */
  lemma AfterLeading(resp: Response, cache: seq<HeaderField>, compressed: Option<string>, date: string,
                     name: string)
    requires name !in {"Server", "Date", "Content-Type", "Content-Length"}
    ensures HeaderValue(ResponseFields(resp, cache, compressed, date), name)
            == HeaderValue(cache + (if compressed.Some? then [HeaderField("Content-Encoding", "gzip")] else [])
                          + [HeaderField("Connection", if resp.keepAlive then "keep-alive" else "close")], name)
  {
    var lead := LeadingFields(resp, compressed, date);
    var rest := cache + (if compressed.Some? then [HeaderField("Content-Encoding", "gzip")] else [])
                + [HeaderField("Connection", if resp.keepAlive then "keep-alive" else "close")];
    assert ResponseFields(resp, cache, compressed, date) == lead + rest;
    HeaderValueAppend(lead, rest, name);
    assert HeaderValue(lead, name).None?;
  }

  /** Every status but 200 is sent with `Cache-Control: no-store` and no validator. */
  lemma NoStoreUnlessOk(cfg: Config, resp: Response, request: Option<Request>, date: string, now: int,
                        compressor: string -> Option<string>)
    requires WellFormed(resp) && resp.statusCode != 200
    ensures var t := SendHttpResponse(cfg, resp, request, date, now, compressor);
            HeaderValue(t.fields, "Cache-Control") == Some("no-store") && HeaderValue(t.fields, "ETag").None?
  {
    var compressed := Compressed(cfg, resp, request, compressor);
    var cache := CacheFields(resp, now);
    var tail := (if compressed.Some? then [HeaderField("Content-Encoding", "gzip")] else [])
                + [HeaderField("Connection", if resp.keepAlive then "keep-alive" else "close")];
    AfterLeading(resp, cache, compressed, date, "Cache-Control");
    AfterLeading(resp, cache, compressed, date, "ETag");
    assert cache + tail == cache + (if compressed.Some? then [HeaderField("Content-Encoding", "gzip")] else [])
                + [HeaderField("Connection", if resp.keepAlive then "keep-alive" else "close")];
    HeaderValueAppend(cache, tail, "Cache-Control");
    HeaderValueAppend(cache, tail, "ETag");
    assert HeaderValue(tail, "ETag").None?;
  }

  /**
   * A 200 response is publicly cacheable for the type's `max-age` and
   * carries the weak validator of its (uncompressed) length and the clock.
   */
  lemma OkCachePolicy(cfg: Config, resp: Response, request: Option<Request>, date: string, now: int,
                      compressor: string -> Option<string>)
    requires WellFormed(resp) && resp.statusCode == 200
    ensures var t := SendHttpResponse(cfg, resp, request, date, now, compressor);
            && HeaderValue(t.fields, "Cache-Control") == Some("public, max-age=" + Decimal(MaxAge(resp.contentType)))
            && HeaderValue(t.fields, "ETag") == Some(WeakETag(resp.contentLength, now))
  {
    var compressed := Compressed(cfg, resp, request, compressor);
    var cache := CacheFields(resp, now);
    var tail := (if compressed.Some? then [HeaderField("Content-Encoding", "gzip")] else [])
                + [HeaderField("Connection", if resp.keepAlive then "keep-alive" else "close")];
    AfterLeading(resp, cache, compressed, date, "Cache-Control");
    AfterLeading(resp, cache, compressed, date, "ETag");
    assert cache + tail == cache + (if compressed.Some? then [HeaderField("Content-Encoding", "gzip")] else [])
                + [HeaderField("Connection", if resp.keepAlive then "keep-alive" else "close")];
    HeaderValueAppend(cache, tail, "Cache-Control");
    HeaderValueAppend(cache, tail, "ETag");
    assert cache[1..][0].name == "ETag";
  }

  /** The Connection field says keep-alive exactly when the response keeps the connection, close otherwise. */
  lemma ConnectionField(cfg: Config, resp: Response, request: Option<Request>, date: string, now: int,
                        compressor: string -> Option<string>)
    requires WellFormed(resp)
    ensures var t := SendHttpResponse(cfg, resp, request, date, now, compressor);
            && (HeaderValue(t.fields, "Connection") == Some("keep-alive") <==> resp.keepAlive)
            && (HeaderValue(t.fields, "Connection") == Some("close") <==> !resp.keepAlive)
  {
    var compressed := Compressed(cfg, resp, request, compressor);
    var cache := CacheFields(resp, now);
    var enc := if compressed.Some? then [HeaderField("Content-Encoding", "gzip")] else [];
    var conn := [HeaderField("Connection", if resp.keepAlive then "keep-alive" else "close")];
    AfterLeading(resp, cache, compressed, date, "Connection");
    HeaderValueAppend(cache + enc, conn, "Connection");
    assert HeaderValue(cache + enc, "Connection").None?;
  }

  /**
   * `Content-Encoding: gzip` is sent exactly when every guard holds and the
   * compressor succeeds; the body sent is then the compressed text, and
   * otherwise the body as built.
   */
  lemma GzipUse(cfg: Config, resp: Response, request: Option<Request>, date: string, now: int,
                compressor: string -> Option<string>)
    requires WellFormed(resp)
    ensures var t := SendHttpResponse(cfg, resp, request, date, now, compressor);
            var gz := GzipEligible(cfg, resp, request) && compressor(resp.body.value).Some?;
            && (HeaderValue(t.fields, "Content-Encoding") == Some("gzip") <==> gz)
            && (HeaderValue(t.fields, "Content-Encoding").None? <==> !gz)
            && (gz ==> t.payload == compressor(resp.body.value).value)
            && (!gz ==> t.payload == if resp.body.Some? then resp.body.value else "")
  {
    GzipField(cfg, resp, request, date, now, compressor);
    GzipPayload(cfg, resp, request, date, now, compressor);
  }

  lemma GzipField(cfg: Config, resp: Response, request: Option<Request>, date: string, now: int,
                  compressor: string -> Option<string>)
    requires WellFormed(resp)
    ensures var t := SendHttpResponse(cfg, resp, request, date, now, compressor);
            var compressed := Compressed(cfg, resp, request, compressor);
            HeaderValue(t.fields, "Content-Encoding") == if compressed.Some? then Some("gzip") else None
  {
    var cache := CacheFields(resp, now);
    assert HeaderValue(cache, "Content-Encoding").None?;
    EncodingField(resp, cache, Compressed(cfg, resp, request, compressor), date);
  }

  /** With no encoding among the cache fields, `Content-Encoding` is there exactly when the body was compressed. */
  lemma EncodingField(resp: Response, cache: seq<HeaderField>, compressed: Option<string>, date: string)
    requires HeaderValue(cache, "Content-Encoding").None?
    ensures HeaderValue(ResponseFields(resp, cache, compressed, date), "Content-Encoding")
            == if compressed.Some? then Some("gzip") else None
  {
    var enc := if compressed.Some? then [HeaderField("Content-Encoding", "gzip")] else [];
    var conn := [HeaderField("Connection", if resp.keepAlive then "keep-alive" else "close")];
    AfterLeading(resp, cache, compressed, date, "Content-Encoding");
    assert cache + enc + conn == cache + (enc + conn);
    HeaderValueAppend(cache, enc + conn, "Content-Encoding");
    HeaderValueAppend(enc, conn, "Content-Encoding");
    assert HeaderValue(conn, "Content-Encoding").None?;
  }

  lemma GzipPayload(cfg: Config, resp: Response, request: Option<Request>, date: string, now: int,
                    compressor: string -> Option<string>)
    requires WellFormed(resp)
    ensures var t := SendHttpResponse(cfg, resp, request, date, now, compressor);
            var compressed := Compressed(cfg, resp, request, compressor);
            && (compressed.Some? ==> t.payload == compressed.value)
            && (compressed.None? ==> t.payload == if resp.body.Some? then resp.body.value else "")
  {
    var compressed := Compressed(cfg, resp, request, compressor);
    if compressed.Some? {
      assert resp.contentLength > 0;
    }
  }

  /** A prefix that differs from `s` at position `k` is not a prefix of `s`. */
  lemma DiffersAt(s: string, p: string, k: nat)
    requires k < |p| && k < |s| && s[k] != p[k]
    ensures !StartsWith(s, p)
  {
    if |s| >= |p| {
      assert s[..|p|][k] == s[k];
      assert s[..|p|] != p;
    }
  }

  /** Of the types the server assigns, the textual ones are compressible and the images and binaries are not. */
  lemma CompressibleServedTypes()
    ensures IsCompressible(MIME_HTML) && IsCompressible(MIME_TEXT) && IsCompressible(MIME_CSS)
    ensures IsCompressible(MIME_JS) && IsCompressible(MIME_JSON)
    ensures !IsCompressible(MIME_JPEG) && !IsCompressible(MIME_PNG) && !IsCompressible(MIME_GIF)
    ensures !IsCompressible(MIME_SVG) && !IsCompressible(MIME_BINARY)
  {
    assert StartsWith(MIME_HTML, COMPRESSIBLE_PREFIXES[0]);
    assert StartsWith(MIME_TEXT, COMPRESSIBLE_PREFIXES[0]);
    assert StartsWith(MIME_CSS, COMPRESSIBLE_PREFIXES[0]);
    assert StartsWith(MIME_JS, COMPRESSIBLE_PREFIXES[2]);
    assert StartsWith(MIME_JSON, COMPRESSIBLE_PREFIXES[1]);
    forall m | m in {MIME_JPEG, MIME_PNG, MIME_GIF, MIME_SVG}
      ensures !IsCompressible(m)
    {
      forall i | 0 <= i < |COMPRESSIBLE_PREFIXES|
        ensures !StartsWith(m, COMPRESSIBLE_PREFIXES[i])
      {
        DiffersAt(m, COMPRESSIBLE_PREFIXES[i], 0);
      }
    }
    forall i | 0 <= i < |COMPRESSIBLE_PREFIXES|
      ensures !StartsWith(MIME_BINARY, COMPRESSIBLE_PREFIXES[i])
    {
      DiffersAt(MIME_BINARY, COMPRESSIBLE_PREFIXES[i], if i == 0 then 0 else 12);
    }
  }

  /** The `max-age` each assigned type gets: an hour, a week, a month, or a day for the rest. */
  lemma MaxAgeOfServedTypes()
    ensures MaxAge(MIME_HTML) == 3600
    ensures MaxAge(MIME_CSS) == 604800 && MaxAge(MIME_JS) == 604800
    ensures MaxAge(MIME_JPEG) == 2592000 && MaxAge(MIME_PNG) == 2592000
    ensures MaxAge(MIME_GIF) == 2592000 && MaxAge(MIME_SVG) == 2592000
    ensures MaxAge(MIME_TEXT) == 86400 && MaxAge(MIME_JSON) == 86400 && MaxAge(MIME_BINARY) == 86400
  {
    assert StartsWith(MIME_HTML, "text/html");
    assert StartsWith(MIME_CSS, "text/css");
    assert StartsWith(MIME_JS, "application/javascript");
    DiffersAt(MIME_CSS, "text/html", 5);
    DiffersAt(MIME_JS, "text/html", 0);
    forall m | m in {MIME_JPEG, MIME_PNG, MIME_GIF, MIME_SVG}
      ensures MaxAge(m) == 2592000
    {
      assert StartsWith(m, "image/");
      DiffersAt(m, "text/html", 0);
      DiffersAt(m, "text/css", 0);
      DiffersAt(m, "application/javascript", 0);
    }
    DiffersAt(MIME_TEXT, "text/html", 5);
    DiffersAt(MIME_TEXT, "text/css", 5);
    DiffersAt(MIME_TEXT, "application/javascript", 0);
    DiffersAt(MIME_TEXT, "image/", 0);
    DiffersAt(MIME_JSON, "text/html", 0);
    DiffersAt(MIME_JSON, "text/css", 0);
    DiffersAt(MIME_JSON, "application/javascript", 13);
    DiffersAt(MIME_JSON, "image/", 0);
    DiffersAt(MIME_BINARY, "text/html", 0);
    DiffersAt(MIME_BINARY, "text/css", 0);
    DiffersAt(MIME_BINARY, "application/javascript", 12);
    DiffersAt(MIME_BINARY, "image/", 0);
  }

  /** The Content-Type field is the response's type. */
  lemma ContentTypeSent(cfg: Config, resp: Response, request: Option<Request>, date: string, now: int,
                        compressor: string -> Option<string>)
    requires WellFormed(resp)
    ensures HeaderValue(SendHttpResponse(cfg, resp, request, date, now, compressor).fields, "Content-Type")
            == Some(resp.contentType)
  {
    ContentTypeField(resp, CacheFields(resp, now), Compressed(cfg, resp, request, compressor), date);
  }

  // ---------------------------------------------------------------------
  // Every field of a sent response is one line

  lemma JoinSingleLine(a: string, b: string)
    requires NoLineBreak(a) && NoLineBreak(b)
    ensures NoLineBreak(a + b)
  {
    forall i | 0 <= i < |a + b| ensures (a + b)[i] != '\r' && (a + b)[i] != '\n' {
      if i >= |a| {
        assert (a + b)[i] == b[i - |a|];
      }
    }
  }

  lemma NumeralSingleLine(n: nat, base: nat)
    requires 2 <= base <= 16
    ensures NoLineBreak(NatToString(n, base))
  {
    var r := NatToString(n, base);
    forall i | 0 <= i < |r| ensures r[i] != '\r' && r[i] != '\n' {
      assert 0 <= DigitValue(r[i]);
    }
  }

  lemma DecimalSingleLine(i: int)
    ensures NoLineBreak(Decimal(i))
  {
    NumeralSingleLine(if i < 0 then -i else i, 10);
    if i < 0 {
      JoinSingleLine("-", NatToString(-i, 10));
    }
  }

  lemma ETagSingleLine(a: nat, b: int)
    ensures NoLineBreak(WeakETag(a, b))
  {
    NumeralSingleLine(a, 16);
    NumeralSingleLine(Unsigned64(b), 16);
    JoinSingleLine("W/\"", Hex(a));
    JoinSingleLine("W/\"" + Hex(a), "-");
    JoinSingleLine("W/\"" + Hex(a) + "-", Hex(Unsigned64(b)));
    JoinSingleLine("W/\"" + Hex(a) + "-" + Hex(Unsigned64(b)), "\"");
  }

  lemma StatusTextSingleLine(code: int)
    ensures NoLineBreak(GetStatusText(code))
  {
    match code
    case 200 => assert NoLineBreak("OK");
    case 201 => assert NoLineBreak("Created");
    case 204 => assert NoLineBreak("No Content");
    case 301 => assert NoLineBreak("Moved Permanently");
    case 302 => assert NoLineBreak("Found");
    case 304 => assert NoLineBreak("Not Modified");
    case 400 => assert NoLineBreak("Bad Request");
    case 401 => assert NoLineBreak("Unauthorized");
    case 403 => assert NoLineBreak("Forbidden");
    case 404 => assert NoLineBreak("Not Found");
    case 405 => assert NoLineBreak("Method Not Allowed");
    case 500 => assert NoLineBreak("Internal Server Error");
    case 501 => assert NoLineBreak("Not Implemented");
    case 503 => assert NoLineBreak("Service Unavailable");
    case _ => assert NoLineBreak("Unknown");
  }

  lemma MimeSingleLine(m: string)
    requires m in MIME_TYPES
    ensures NoLineBreak(m)
  {
    TextMimesSingleLine();
    ImageMimesSingleLine();
  }

  lemma TextMimesSingleLine()
    ensures NoLineBreak(MIME_HTML) && NoLineBreak(MIME_TEXT) && NoLineBreak(MIME_JSON)
    ensures NoLineBreak(MIME_CSS) && NoLineBreak(MIME_JS)
  {
    assert NoLineBreak(MIME_HTML);
    assert NoLineBreak(MIME_TEXT);
    assert NoLineBreak(MIME_JSON);
    assert NoLineBreak(MIME_CSS);
    assert NoLineBreak(MIME_JS);
  }

  lemma ImageMimesSingleLine()
    ensures NoLineBreak(MIME_JPEG) && NoLineBreak(MIME_PNG) && NoLineBreak(MIME_GIF)
    ensures NoLineBreak(MIME_SVG) && NoLineBreak(MIME_BINARY)
  {
    assert NoLineBreak(MIME_JPEG);
    assert NoLineBreak(MIME_PNG);
    assert NoLineBreak(MIME_GIF);
    assert NoLineBreak(MIME_SVG);
    assert NoLineBreak(MIME_BINARY);
  }

  lemma CacheSingleLine(resp: Response, now: int)
    ensures forall i :: 0 <= i < |CacheFields(resp, now)| ==> SingleLine(CacheFields(resp, now)[i])
  {
    CacheWordsSingleLine();
    DecimalSingleLine(MaxAge(resp.contentType));
    JoinSingleLine("public, max-age=", Decimal(MaxAge(resp.contentType)));
    ETagSingleLine(resp.contentLength, now);
  }

  lemma CacheWordsSingleLine()
    ensures NoLineBreak("Cache-Control") && NoLineBreak("public, max-age=")
    ensures NoLineBreak("ETag") && NoLineBreak("no-store")
  {
    assert NoLineBreak("Cache-Control");
    assert NoLineBreak("public, max-age=");
    assert NoLineBreak("ETag");
    assert NoLineBreak("no-store");
  }

  lemma FieldsSingleLine(resp: Response, cache: seq<HeaderField>, compressed: Option<string>, date: string)
    requires NoLineBreak(resp.contentType) && NoLineBreak(date)
    requires forall i :: 0 <= i < |cache| ==> SingleLine(cache[i])
    ensures var fields := ResponseFields(resp, cache, compressed, date);
            forall i :: 0 <= i < |fields| ==> SingleLine(fields[i])
  {
    DecimalSingleLine(if compressed.Some? then |compressed.value| else resp.contentLength);
    FieldWordsSingleLine();
    var lead := LeadingFields(resp, compressed, date);
    assert forall i :: 0 <= i < |lead| ==> SingleLine(lead[i]);
  }

  lemma FieldWordsSingleLine()
    ensures NoLineBreak("Server") && NoLineBreak(SERVER_NAME) && NoLineBreak("Date")
    ensures NoLineBreak("Content-Type") && NoLineBreak("Content-Length")
    ensures NoLineBreak("Content-Encoding") && NoLineBreak("gzip")
    ensures NoLineBreak("Connection") && NoLineBreak("keep-alive") && NoLineBreak("close")
  {
    assert NoLineBreak("Server");
    assert NoLineBreak(SERVER_NAME);
    assert NoLineBreak("Date");
    assert NoLineBreak("Content-Type");
    assert NoLineBreak("Content-Length");
    assert NoLineBreak("Content-Encoding");
    assert NoLineBreak("gzip");
    assert NoLineBreak("Connection");
    assert NoLineBreak("keep-alive");
    assert NoLineBreak("close");
  }

  lemma StatusLineSingleLine(resp: Response)
    requires NoLineBreak(resp.statusText)
    ensures |StatusLine(resp)| > 0 && NoLineBreak(StatusLine(resp))
  {
    DecimalSingleLine(resp.statusCode);
    JoinSingleLine("HTTP/1.1 ", Decimal(resp.statusCode));
    JoinSingleLine("HTTP/1.1 " + Decimal(resp.statusCode), " ");
    JoinSingleLine("HTTP/1.1 " + Decimal(resp.statusCode) + " ", resp.statusText);
  }

  /**
   * The framing a client relies on: the first blank line ends the header
   * block, and what follows it is the payload, exactly as long as
   * Content-Length says.
   */
  predicate Framed(t: Transmission) {
    var w := Wire(t);
    && IndexOf(w, BLANK_LINE).Some?
    && var body := w[IndexOf(w, BLANK_LINE).value + 4..];
       body == t.payload && HeaderValue(t.fields, "Content-Length") == Some(Decimal(|body|))
  }

  /** Every response is framed whenever its phrase, its type and the date hold no line break. */
  lemma SendFraming(cfg: Config, resp: Response, request: Option<Request>, date: string, now: int,
                    compressor: string -> Option<string>)
    requires WellFormed(resp)
    requires NoLineBreak(resp.statusText) && NoLineBreak(resp.contentType) && NoLineBreak(date)
    ensures Framed(SendHttpResponse(cfg, resp, request, date, now, compressor))
  {
    var t := SendHttpResponse(cfg, resp, request, date, now, compressor);
    var compressed := Compressed(cfg, resp, request, compressor);
    var cache := CacheFields(resp, now);
    assert t.fields == ResponseFields(resp, cache, compressed, date);
    CacheSingleLine(resp, now);
    FieldsSingleLine(resp, cache, compressed, date);
    StatusLineSingleLine(resp);
    HeaderBlockEnd(t);
  }
}
