/**
 * `parse_http_request` of src/server.c: one `recv` into a zeroed 8 KiB
 * buffer, `strtok` on CR/LF, `sscanf` of the request line, a chain of
 * case-insensitive header prefixes, and the body lookup. The socket read is
 * the `Recv` parameter; the peer address text is a parameter too.
 */
module HttpRequest {
  import opened Wrappers
  import opened CString

  const METHOD_WIDTH: nat := 15
  const PATH_WIDTH: nat := 2047
  const VERSION_WIDTH: nat := 15
  const HOST_CAPACITY: nat := 254
  const USER_AGENT_CAPACITY: nat := 511
  const IF_NONE_MATCH_CAPACITY: nat := 127
  const ACCEPT_ENCODING_CAPACITY: nat := 127
  const CLIENT_IP_CAPACITY: nat := 49

  /**
   * An `http_request_t`. The fixed arrays hold strings within their
   * capacities; `contentType` and `body` are the `strdup`ed pointers.
   */
  datatype Request = Request(
    httpMethod: string,
    path: string,
    version: string,
    host: string,
    userAgent: string,
    contentLength: nat,
    contentType: Option<string>,
    body: Option<string>,
    keepAlive: bool,
    ifNoneMatch: string,
    acceptEncoding: string,
    clientIp: string)

  /** Every fixed-size field within the capacity of its array. */
  predicate FieldsFit(r: Request) {
    && |r.httpMethod| <= METHOD_WIDTH && |r.path| <= PATH_WIDTH && |r.version| <= VERSION_WIDTH
    && |r.host| <= HOST_CAPACITY && |r.userAgent| <= USER_AGENT_CAPACITY
    && |r.ifNoneMatch| <= IF_NONE_MATCH_CAPACITY && |r.acceptEncoding| <= ACCEPT_ENCODING_CAPACITY
    && |r.clientIp| <= CLIENT_IP_CAPACITY
    && r.contentLength < TWO_TO_64
  }

  /** The request `handle_client` zeroes and stamps with the client address. */
  function Blank(clientIp: string): (r: Request)
    ensures FieldsFit(r)
  {
    Request("", "", "", "", "", 0, None, None, false, "", "", Truncate(clientIp, CLIENT_IP_CAPACITY))
  }

  /** The outcome of one `recv`: its return value and, when positive, the bytes read. */
  datatype Recv = Recv(code: int, data: string)

  // ---------------------------------------------------------------------
  // strtok(..., "\r\n")

  predicate IsDelim(c: char) {
    c == '\r' || c == '\n'
  }

  /** The number of leading delimiters of `s`. */
  function DelimRun(s: string): (n: nat)
    ensures n <= |s|
    ensures forall k :: 0 <= k < n ==> IsDelim(s[k])
    ensures n < |s| ==> !IsDelim(s[n])
  {
    if s != [] && IsDelim(s[0]) then 1 + DelimRun(s[1..]) else 0
  }

  /** The number of leading non-delimiters of `s`. */
  function WordLen(s: string): (n: nat)
    ensures n <= |s|
    ensures forall k :: 0 <= k < n ==> !IsDelim(s[k])
    ensures n < |s| ==> IsDelim(s[n])
  {
    if s != [] && !IsDelim(s[0]) then 1 + WordLen(s[1..]) else 0
  }

  /** A line `strtok` can return: non-empty and free of CR and LF. */
  predicate IsLine(t: string) {
    |t| > 0 && forall k :: 0 <= k < |t| ==> !IsDelim(t[k])
  }

  /**
   * One `strtok` call on the text still ahead of its saved pointer: skip the
   * leading delimiters one by one, take the token up to the next delimiter,
   * overwrite that delimiter with NUL and resume after it. `None` is the NULL
   * return.
   */
  function Strtok(rest: string): (r: Option<(string, string)>)
    ensures r.Some? ==> IsLine(r.value.0) && |r.value.1| < |rest|
    ensures r.None? <==> forall k :: 0 <= k < |rest| ==> IsDelim(rest[k])
  {
    if rest == [] then None
    else if IsDelim(rest[0]) then Strtok(rest[1..])
    else
      var w := WordLen(rest);
      Some((rest[..w], if w < |rest| then rest[w + 1..] else []))
  }

  /** Every token successive `strtok` calls return, in order. */
  function Tokens(rest: string): (ts: seq<string>)
    decreases |rest|
    ensures forall i :: 0 <= i < |ts| ==> IsLine(ts[i])
  {
    match Strtok(rest)
    case None => []
    case Some((t, rest')) => [t] + Tokens(rest')
  }

  /** A delimiter in front of the text does not change what `strtok` returns. */
  lemma StrtokSkipDelim(c: char, x: string)
    requires IsDelim(c)
    ensures Strtok([c] + x) == Strtok(x)
  {
    assert ([c] + x)[1..] == x;
  }

  lemma TokensSkipDelim(c: char, x: string)
    requires IsDelim(c)
    ensures Tokens([c] + x) == Tokens(x)
  {
    StrtokSkipDelim(c, x);
  }

  lemma {:induction false} WordLenOfLine(l: string, y: string)
    requires forall k :: 0 <= k < |l| ==> !IsDelim(l[k])
    requires y == [] || IsDelim(y[0])
    ensures WordLen(l + y) == |l|
    decreases |l|
  {
    if l != [] {
      assert (l + y)[1..] == l[1..] + y;
      WordLenOfLine(l[1..], y);
    }
  }

  /** `strtok` on a line followed by a delimiter returns the line and resumes after the delimiter. */
  lemma StrtokLine(l: string, d: char, x: string)
    requires IsLine(l) && IsDelim(d)
    ensures Strtok(l + [d] + x) == Some((l, x))
  {
    var s := l + [d] + x;
    assert s == l + ([d] + x);
    WordLenOfLine(l, [d] + x);
    assert s[..|l|] == l;
    assert s[|l| + 1..] == x;
  }

  /** The head of a request as a client sends it: each line ended by CR LF, then an empty line. */
  function HeadText(lines: seq<string>): string {
    if lines == [] then "\r\n" else lines[0] + "\r\n" + HeadText(lines[1..])
  }

  /**
   * The lines of a request head come back from `strtok` one by one, and
   * whatever follows the empty line (a body) is split into further lines.
   */
  lemma {:induction false} TokensOfHead(lines: seq<string>, after: string)
    requires forall i :: 0 <= i < |lines| ==> IsLine(lines[i])
    ensures Tokens(HeadText(lines) + after) == lines + Tokens(after)
    decreases |lines|
  {
    if lines == [] {
      TokensAfterBlankLine(after);
    } else {
      TokensOfHead(lines[1..], after);
      TokensOfHeadStep(lines, after);
    }
  }

  lemma TokensOfHeadStep(lines: seq<string>, after: string)
    requires |lines| > 0 && IsLine(lines[0])
    requires Tokens(HeadText(lines[1..]) + after) == lines[1..] + Tokens(after)
    ensures Tokens(HeadText(lines) + after) == lines + Tokens(after)
  {
    var l := lines[0];
    var tail := HeadText(lines[1..]) + after;
    assert HeadText(lines) + after == l + "\r\n" + tail;
    TokensOfLine(l, tail);
    ConsAppend(l, lines[1..], Tokens(after));
    HeadTail(lines);
  }

  // Stated over any element type: equations between sequences of strings are
  // costly for the solver when it sees the strings.
  lemma HeadTail<T>(s: seq<T>)
    requires |s| > 0
    ensures s == [s[0]] + s[1..]
  {
  }

  lemma ConsAppend<T>(x: T, a: seq<T>, b: seq<T>)
    ensures [x] + (a + b) == ([x] + a) + b
  {
  }

  lemma AppendCons<T>(a: seq<T>, x: T, b: seq<T>)
    ensures a + ([x] + b) == (a + [x]) + b
    ensures (a + [x])[..|a|] == a && (a + [x])[|a|] == x
  {
  }

  lemma AppendNil<T>(a: seq<T>)
    ensures a + [] == a && [] + a == a
  {
  }

  lemma DropFirst<T>(a: seq<T>, b: seq<T>)
    requires |a| > 0
    ensures (a + b)[1..] == a[1..] + b && (a + b)[0] == a[0]
  {
  }

  lemma TokensAfterBlankLine(after: string)
    ensures Tokens("\r\n" + after) == Tokens(after)
  {
    assert "\r\n" + after == ['\r'] + (['\n'] + after);
    TokensSkipDelim('\n', after);
    TokensSkipDelim('\r', ['\n'] + after);
  }

  lemma TokensOfLine(l: string, tail: string)
    requires IsLine(l)
    ensures Tokens(l + "\r\n" + tail) == [l] + Tokens(tail)
  {
    assert l + "\r\n" + tail == l + ['\r'] + (['\n'] + tail);
    StrtokLine(l, '\r', ['\n'] + tail);
    TokensSkipDelim('\n', tail);
  }

  // ---------------------------------------------------------------------
  // sscanf(line, "%15s %2047s %15s", ...)

  function WordEnd(s: string, j: nat, width: nat): (k: nat)
    requires j <= |s|
    decreases width
    ensures j <= k <= |s| && k - j <= width
    ensures forall m :: j <= m < k ==> !IsSpace(s[m])
    ensures k < |s| && k - j < width ==> IsSpace(s[k])
  {
    if j < |s| && width > 0 && !IsSpace(s[j]) then WordEnd(s, j + 1, width - 1) else j
  }

  /** One `%Ns` conversion from position `i`: skip white space, then read at most `width` other characters. */
  function ScanWord(s: string, i: nat, width: nat): (r: (string, nat))
    requires i <= |s|
    ensures i <= r.1 <= |s| && |r.0| <= width
    ensures forall m :: 0 <= m < |r.0| ==> !IsSpace(r.0[m])
  {
    var j := SkipSpaces(s, i);
    var k := WordEnd(s, j, width);
    (s[j..k], k)
  }

  /**
   * Method, path and version as `sscanf` fills them. A conversion that finds
   * no word leaves its field (and the later ones) empty, as the zeroed
   * request has them.
   */
  function RequestLine(line: string): (r: (string, string, string))
    ensures |r.0| <= METHOD_WIDTH && |r.1| <= PATH_WIDTH && |r.2| <= VERSION_WIDTH
  {
    var (m, i1) := ScanWord(line, 0, METHOD_WIDTH);
    var (p, i2) := ScanWord(line, i1, PATH_WIDTH);
    var (v, _) := ScanWord(line, i2, VERSION_WIDTH);
    (m, p, v)
  }

  predicate IsWord(w: string, width: nat) {
    0 < |w| <= width && forall m :: 0 <= m < |w| ==> !IsSpace(w[m])
  }

  lemma {:induction false} WordEndOfWord(s: string, j: nat, w: string, width: nat)
    requires j + |w| <= |s| && s[j..j + |w|] == w && |w| <= width
    requires forall m :: 0 <= m < |w| ==> !IsSpace(w[m])
    requires j + |w| == |s| || IsSpace(s[j + |w|])
    ensures WordEnd(s, j, width) == j + |w|
    decreases width
  {
    if w != [] {
      assert s[j] == w[0];
      assert s[j + 1..j + 1 + |w[1..]|] == w[1..];
      WordEndOfWord(s, j + 1, w[1..], width - 1);
    }
  }

  lemma {:induction false} SkipSpacesTo(s: string, i: nat, j: nat)
    requires i <= j <= |s|
    requires forall k :: i <= k < j ==> IsSpace(s[k])
    requires j < |s| ==> !IsSpace(s[j])
    ensures SkipSpaces(s, i) == j
    decreases j - i
  {
    if i < j {
      SkipSpacesTo(s, i + 1, j);
    }
  }

  /** A word at `j`, after white space from `i`, is what one `%Ns` conversion reads. */
  lemma ScanWordAt(s: string, i: nat, j: nat, w: string, width: nat)
    requires i <= j && j + |w| <= |s| && s[j..j + |w|] == w && IsWord(w, width)
    requires forall k :: i <= k < j ==> IsSpace(s[k])
    requires j + |w| == |s| || IsSpace(s[j + |w|])
    ensures ScanWord(s, i, width) == (w, j + |w|)
  {
    assert s[j] == w[0];
    SkipSpacesTo(s, i, j);
    WordEndOfWord(s, j, w, width);
  }

  /** A word behind white space that ends the text or white space is what one `%Ns` conversion reads. */
  lemma ScanWordAfter(line: string, before: string, gap: string, w: string, after: string, width: nat, at: nat, end: nat)
    requires line == before + gap + w + after && at == |before| && end == at + |gap| + |w|
    requires forall k :: 0 <= k < |gap| ==> IsSpace(gap[k])
    requires IsWord(w, width) && (after == [] || IsSpace(after[0]))
    ensures ScanWord(line, at, width) == (w, end)
  {
    var s := line;
    var j := |before| + |gap|;
    assert s[j..j + |w|] == w;
    assert forall k :: |before| <= k < j ==> IsSpace(s[k]) by {
      forall k | |before| <= k < j ensures IsSpace(s[k]) {
        assert s[k] == gap[k - |before|];
      }
    }
    if after != [] {
      assert s[j + |w|] == after[0];
    }
    ScanWordAt(s, |before|, j, w, width);
  }

  /** A run of at least `width` non-space characters at `j` stops the conversion after `width` of them. */
  lemma {:induction false} WordEndOverlong(s: string, j: nat, width: nat)
    requires j + width <= |s|
    requires forall m :: j <= m < j + width ==> !IsSpace(s[m])
    ensures WordEnd(s, j, width) == j + width
    decreases width
  {
    if width > 0 {
      WordEndOverlong(s, j + 1, width - 1);
    }
  }

  /**
   * A word longer than the field: the conversion keeps its first `width`
   * characters and stops in the middle of it, where the next conversion
   * picks up.
   */
  lemma ScanWordOverlong(s: string, i: nat, width: nat)
    requires i <= |s|
    requires SkipSpaces(s, i) + width <= |s|
    requires forall m :: SkipSpaces(s, i) <= m < SkipSpaces(s, i) + width ==> !IsSpace(s[m])
    ensures var j := SkipSpaces(s, i); ScanWord(s, i, width) == (s[j..j + width], j + width)
  {
    WordEndOverlong(s, SkipSpaces(s, i), width);
  }

  /**
   * A method word longer than 15 characters spills: the method is its first
   * 15 characters and the path is the rest of the word.
   */
  lemma MethodSpill(m: string, x: string, rest: string)
    requires |m| == METHOD_WIDTH && IsWord(m + x, METHOD_WIDTH + PATH_WIDTH) && |x| > 0
    requires rest == [] || IsSpace(rest[0])
    ensures RequestLine(m + x + rest).0 == m && RequestLine(m + x + rest).1 == x
  {
    var line := m + x + rest;
    assert IsWord(m, METHOD_WIDTH) && IsWord(x, PATH_WIDTH) by {
      assert forall k :: 0 <= k < |m| ==> m[k] == (m + x)[k];
      assert forall k :: 0 <= k < |x| ==> x[k] == (m + x)[|m| + k];
    }
    assert line[0] == m[0];
    SkipSpacesTo(line, 0, 0);
    assert forall k :: 0 <= k < METHOD_WIDTH ==> line[k] == m[k];
    ScanWordOverlong(line, 0, METHOD_WIDTH);
    assert line[..METHOD_WIDTH] == m;
    ScanWordAfter(line, m, [], x, rest, PATH_WIDTH, |m|, |m| + |x|);
  }

  /** A request line of three space-separated words that fit their fields is read back word for word. */
  lemma RequestLineRoundTrip(m: string, p: string, v: string)
    requires IsWord(m, METHOD_WIDTH) && IsWord(p, PATH_WIDTH) && IsWord(v, VERSION_WIDTH)
    ensures RequestLine(m + " " + p + " " + v) == (m, p, v)
  {
    var s := m + " " + p + " " + v;
    var a, b := |m|, |m| + 1 + |p|;
    ScanWordAfter(s, [], [], m, " " + p + " " + v, METHOD_WIDTH, 0, a);
    ScanWordAfter(s, m, " ", p, " " + v, PATH_WIDTH, a, b);
    AppendNil(s);
    ScanWordAfter(s, m + " " + p, " ", v, [], VERSION_WIDTH, b, |s|);
    RequestLineOf(s, a, b, m, p, v);
  }

  /** `RequestLine` from the three conversions, each resuming where the previous one stopped. */
  lemma RequestLineOf(line: string, i1: nat, i2: nat, m: string, p: string, v: string)
    requires i1 <= i2 <= |line|
    requires ScanWord(line, 0, METHOD_WIDTH) == (m, i1)
    requires ScanWord(line, i1, PATH_WIDTH) == (p, i2)
    requires ScanWord(line, i2, VERSION_WIDTH).0 == v
    ensures RequestLine(line) == (m, p, v)
  {
  }

  // ---------------------------------------------------------------------
  // Headers

  const HOST_PREFIX: string := "Host: "
  const USER_AGENT_PREFIX: string := "User-Agent: "
  const CONTENT_LENGTH_PREFIX: string := "Content-Length: "
  const CONTENT_TYPE_PREFIX: string := "Content-Type: "
  const CONNECTION_PREFIX: string := "Connection: "
  const IF_NONE_MATCH_PREFIX: string := "If-None-Match: "
  const ACCEPT_ENCODING_PREFIX: string := "Accept-Encoding: "

  datatype HeaderKind =
    | HostHeader | UserAgentHeader | ContentLengthHeader | ContentTypeHeader
    | ConnectionHeader | IfNoneMatchHeader | AcceptEncodingHeader | OtherHeader

  function Prefix(k: HeaderKind): string {
    match k
    case HostHeader => HOST_PREFIX
    case UserAgentHeader => USER_AGENT_PREFIX
    case ContentLengthHeader => CONTENT_LENGTH_PREFIX
    case ContentTypeHeader => CONTENT_TYPE_PREFIX
    case ConnectionHeader => CONNECTION_PREFIX
    case IfNoneMatchHeader => IF_NONE_MATCH_PREFIX
    case AcceptEncodingHeader => ACCEPT_ENCODING_PREFIX
    case OtherHeader => ""
  }

  /** The first prefix of the `else if` chain a line matches, case-insensitively. */
  function Classify(line: string): (k: HeaderKind)
    ensures k != OtherHeader ==> StartsWithCI(line, Prefix(k))
  {
    if StartsWithCI(line, HOST_PREFIX) then HostHeader
    else if StartsWithCI(line, USER_AGENT_PREFIX) then UserAgentHeader
    else if StartsWithCI(line, CONTENT_LENGTH_PREFIX) then ContentLengthHeader
    else if StartsWithCI(line, CONTENT_TYPE_PREFIX) then ContentTypeHeader
    else if StartsWithCI(line, CONNECTION_PREFIX) then ConnectionHeader
    else if StartsWithCI(line, IF_NONE_MATCH_PREFIX) then IfNoneMatchHeader
    else if StartsWithCI(line, ACCEPT_ENCODING_PREFIX) then AcceptEncodingHeader
    else OtherHeader
  }

  /** Two prefixes that differ (ignoring case) at position `d` cannot both begin a line. */
  lemma Exclusive(line: string, p: string, q: string, d: nat)
    requires d < |p| && d < |q| && ToLower(p[d]) != ToLower(q[d])
    ensures StartsWithCI(line, p) ==> !StartsWithCI(line, q)
  {
    if StartsWithCI(line, p) && |line| >= |q| {
      assert LowerStr(line[..|p|])[d] == LowerStr(p)[d];
      assert ToLower(line[d]) == ToLower(p[d]);
      assert LowerStr(line[..|q|])[d] == ToLower(line[d]);
      assert LowerStr(line[..|q|])[d] != LowerStr(q)[d];
    }
  }

  /** No line begins with two of the recognised prefixes, so the order of the chain does not matter. */
  lemma ClassifyIff(line: string, k: HeaderKind)
    requires k != OtherHeader
    ensures Classify(line) == k <==> StartsWithCI(line, Prefix(k))
  {
    // first differing positions: h/u/c/i/a at 0, "content-" against "connection" at 3,
    // "content-length" against "content-type" at 8
    Exclusive(line, HOST_PREFIX, USER_AGENT_PREFIX, 0);
    Exclusive(line, HOST_PREFIX, CONTENT_LENGTH_PREFIX, 0);
    Exclusive(line, HOST_PREFIX, CONTENT_TYPE_PREFIX, 0);
    Exclusive(line, HOST_PREFIX, CONNECTION_PREFIX, 0);
    Exclusive(line, HOST_PREFIX, IF_NONE_MATCH_PREFIX, 0);
    Exclusive(line, HOST_PREFIX, ACCEPT_ENCODING_PREFIX, 0);
    Exclusive(line, USER_AGENT_PREFIX, CONTENT_LENGTH_PREFIX, 0);
    Exclusive(line, USER_AGENT_PREFIX, CONTENT_TYPE_PREFIX, 0);
    Exclusive(line, USER_AGENT_PREFIX, CONNECTION_PREFIX, 0);
    Exclusive(line, USER_AGENT_PREFIX, IF_NONE_MATCH_PREFIX, 0);
    Exclusive(line, USER_AGENT_PREFIX, ACCEPT_ENCODING_PREFIX, 0);
    Exclusive(line, CONTENT_LENGTH_PREFIX, CONTENT_TYPE_PREFIX, 8);
    Exclusive(line, CONTENT_LENGTH_PREFIX, CONNECTION_PREFIX, 3);
    Exclusive(line, CONTENT_LENGTH_PREFIX, IF_NONE_MATCH_PREFIX, 0);
    Exclusive(line, CONTENT_LENGTH_PREFIX, ACCEPT_ENCODING_PREFIX, 0);
    Exclusive(line, CONTENT_TYPE_PREFIX, CONNECTION_PREFIX, 3);
    Exclusive(line, CONTENT_TYPE_PREFIX, IF_NONE_MATCH_PREFIX, 0);
    Exclusive(line, CONTENT_TYPE_PREFIX, ACCEPT_ENCODING_PREFIX, 0);
    Exclusive(line, CONNECTION_PREFIX, IF_NONE_MATCH_PREFIX, 0);
    Exclusive(line, CONNECTION_PREFIX, ACCEPT_ENCODING_PREFIX, 0);
    Exclusive(line, IF_NONE_MATCH_PREFIX, ACCEPT_ENCODING_PREFIX, 0);
  }

  /** The text of a header line after its recognised prefix. */
  function ValueOf(line: string, k: HeaderKind): string
    requires StartsWithCI(line, Prefix(k))
  {
    line[|Prefix(k)|..]
  }

  /** `Connection: ` values ask to keep the connection when they mention keep-alive in any case. */
  predicate AsksKeepAlive(line: string) {
    StartsWithCI(line, CONNECTION_PREFIX) && ContainsCI(ValueOf(line, ConnectionHeader), "keep-alive")
  }

  /** What one header line does to the request. */
  function ApplyHeader(r: Request, line: string): (r': Request)
    ensures FieldsFit(r) ==> FieldsFit(r')
  {
    var k := Classify(line);
    match k
    case HostHeader => r.(host := Truncate(ValueOf(line, k), HOST_CAPACITY))
    case UserAgentHeader => r.(userAgent := Truncate(ValueOf(line, k), USER_AGENT_CAPACITY))
    case ContentLengthHeader => r.(contentLength := Unsigned64(Atoi(ValueOf(line, k))))
    case ContentTypeHeader => r.(contentType := Some(ValueOf(line, k)))
    case ConnectionHeader => if ContainsCI(ValueOf(line, k), "keep-alive") then r.(keepAlive := true) else r
    case IfNoneMatchHeader => r.(ifNoneMatch := Truncate(ValueOf(line, k), IF_NONE_MATCH_CAPACITY))
    case AcceptEncodingHeader => r.(acceptEncoding := Truncate(ValueOf(line, k), ACCEPT_ENCODING_CAPACITY))
    case OtherHeader => r
  }

  /** The header lines applied in order. */
  function ApplyHeaders(r: Request, lines: seq<string>): (r': Request)
    ensures FieldsFit(r) ==> FieldsFit(r')
  {
    if lines == [] then r else ApplyHeader(ApplyHeaders(r, lines[..|lines| - 1]), lines[|lines| - 1])
  }

  /** The last line of `lines` that begins with the prefix of `k`. */
  function LastLine(lines: seq<string>, k: HeaderKind): (l: Option<string>)
    ensures l.Some? ==> StartsWithCI(l.value, Prefix(k))
  {
    if lines == [] then None
    else if StartsWithCI(lines[|lines| - 1], Prefix(k)) then Some(lines[|lines| - 1])
    else LastLine(lines[..|lines| - 1], k)
  }

  /** A header field of the request, for the kinds that store a value. */
  datatype FieldValue = Text(text: string) | Number(n: nat) | Pointer(p: Option<string>)

  predicate StoresValue(k: HeaderKind) {
    k != ConnectionHeader && k != OtherHeader
  }

  function FieldOf(r: Request, k: HeaderKind): FieldValue
    requires StoresValue(k)
  {
    match k
    case HostHeader => Text(r.host)
    case UserAgentHeader => Text(r.userAgent)
    case ContentLengthHeader => Number(r.contentLength)
    case ContentTypeHeader => Pointer(r.contentType)
    case IfNoneMatchHeader => Text(r.ifNoneMatch)
    case AcceptEncodingHeader => Text(r.acceptEncoding)
  }

  /** The value a line of kind `k` stores: its text after the prefix, cut to the field's capacity. */
  function LineValue(line: string, k: HeaderKind): FieldValue
    requires StoresValue(k) && StartsWithCI(line, Prefix(k))
  {
    var v := ValueOf(line, k);
    match k
    case HostHeader => Text(Truncate(v, HOST_CAPACITY))
    case UserAgentHeader => Text(Truncate(v, USER_AGENT_CAPACITY))
    case ContentLengthHeader => Number(Unsigned64(Atoi(v)))
    case ContentTypeHeader => Pointer(Some(v))
    case IfNoneMatchHeader => Text(Truncate(v, IF_NONE_MATCH_CAPACITY))
    case AcceptEncodingHeader => Text(Truncate(v, ACCEPT_ENCODING_CAPACITY))
  }

  /** One header line, described by the prefix it begins with rather than by the chain. */
  lemma HeaderStep(r: Request, line: string, k: HeaderKind)
    requires StoresValue(k)
    ensures FieldOf(ApplyHeader(r, line), k) ==
            if StartsWithCI(line, Prefix(k)) then LineValue(line, k) else FieldOf(r, k)
  {
    ClassifyIff(line, k);
  }

  /**
   * Each header field holds the value of the LAST line with its prefix (a
   * repeated header overrides), or keeps its earlier value when there is none.
   */
  lemma {:induction false} HeaderFields(r: Request, lines: seq<string>, k: HeaderKind)
    requires StoresValue(k)
    ensures FieldOf(ApplyHeaders(r, lines), k) ==
            match LastLine(lines, k)
            case None => FieldOf(r, k)
            case Some(l) => LineValue(l, k)
    decreases |lines|
  {
    if lines != [] {
      var init, last := lines[..|lines| - 1], lines[|lines| - 1];
      HeaderFields(r, init, k);
      HeaderStep(ApplyHeaders(r, init), last, k);
    }
  }

  /** Header lines never change the request line's fields, the body or the address. */
  lemma {:induction false} HeadersKeepRequestLine(r: Request, lines: seq<string>)
    ensures var r' := ApplyHeaders(r, lines);
      && r'.httpMethod == r.httpMethod && r'.path == r.path && r'.version == r.version
      && r'.body == r.body && r'.clientIp == r.clientIp
    decreases |lines|
  {
    if lines != [] {
      HeadersKeepRequestLine(r, lines[..|lines| - 1]);
      HeaderKeepsRequestLine(ApplyHeaders(r, lines[..|lines| - 1]), lines[|lines| - 1]);
    }
  }

  lemma HeaderKeepsRequestLine(r: Request, line: string)
    ensures var r' := ApplyHeader(r, line);
      && r'.httpMethod == r.httpMethod && r'.path == r.path && r'.version == r.version
      && r'.body == r.body && r'.clientIp == r.clientIp
  {
  }

  /** The effect of one line on keep-alive. */
  lemma KeepAliveStep(r: Request, line: string)
    ensures ApplyHeader(r, line).keepAlive <==> r.keepAlive || AsksKeepAlive(line)
  {
    ClassifyIff(line, ConnectionHeader);
  }

  /** Some element satisfies `p` exactly when some earlier element or the last one does. */
  lemma SomeInSplit<T>(xs: seq<T>, p: T -> bool)
    requires |xs| > 0
    ensures var init := xs[..|xs| - 1];
            (exists i :: 0 <= i < |xs| && p(xs[i])) <==>
            (exists i :: 0 <= i < |init| && p(init[i])) || p(xs[|xs| - 1])
  {
    var init := xs[..|xs| - 1];
    if exists i :: 0 <= i < |xs| && p(xs[i]) {
      var i :| 0 <= i < |xs| && p(xs[i]);
      if i < |init| {
        assert p(init[i]);
      }
    }
    if exists i :: 0 <= i < |init| && p(init[i]) {
      var i :| 0 <= i < |init| && p(init[i]);
      assert p(xs[i]);
    }
  }

  /** keep-alive is set when ANY `Connection: ` line asks for it, and a later line never clears it. */
  lemma {:induction false} KeepAliveFromAnyLine(r: Request, lines: seq<string>)
    ensures ApplyHeaders(r, lines).keepAlive <==>
            r.keepAlive || exists i :: 0 <= i < |lines| && AsksKeepAlive(lines[i])
    decreases |lines|
  {
    if lines != [] {
      var init, last := lines[..|lines| - 1], lines[|lines| - 1];
      KeepAliveFromAnyLine(r, init);
      KeepAliveStep(ApplyHeaders(r, init), last);
      assert ApplyHeaders(r, lines) == ApplyHeader(ApplyHeaders(r, init), last);
      SomeInSplit(lines, AsksKeepAlive);
    }
  }

  // ---------------------------------------------------------------------
  // The whole parse

  /**
   * The C string `strstr` sees after the tokenizing: the buffer up to the NUL
   * `strtok` wrote at the end of the first token (leading delimiters included).
   */
  function AfterTokenizing(s: string): (view: string)
    ensures |view| <= |s| && view == s[..|view|]
  {
    var j := DelimRun(s);
    s[..j + WordLen(s[j..])]
  }

  /** The `strstr(buffer, "\r\n\r\n")` body capture, taken only with a positive Content-Length. */
  function BodyOf(s: string, contentLength: nat): Option<string> {
    var view := AfterTokenizing(s);
    match IndexOf(view, "\r\n\r\n")
    case Some(at) => if contentLength > 0 then Some(view[at + 4..]) else None
    case None => None
  }

  /**
   * The result and the request `parse_http_request` leaves: the `recv`
   * result when it is not positive, -1 when the text holds no line, and 1
   * otherwise. Bytes past a NUL are invisible to the string functions.
   */
  function ParseSpec(recv: Recv, peer: string): (out: (int, Request))
    ensures recv.code <= 0 ==> out.0 == recv.code
    ensures recv.code > 0 ==> out.0 == -1 || out.0 == 1
    ensures FieldsFit(out.1)
  {
    if recv.code <= 0 then (recv.code, Blank(peer))
    else
      var s := UpToNul(recv.data);
      var lines := Tokens(s);
      if lines == [] then (-1, Blank(peer))
      else
        var (m, p, v) := RequestLine(lines[0]);
        var r := ApplyHeaders(Blank(peer).(httpMethod := m, path := p, version := v), lines[1..]);
        (1, r.(body := BodyOf(s, r.contentLength)))
  }

  /** `parse_http_request`: the `strtok` loop over the received text, line by line. */
  method ParseRequest(recv: Recv, peer: string) returns (result: int, req: Request)
    ensures (result, req) == ParseSpec(recv, peer)
  {
    req := Blank(peer);
    if recv.code <= 0 {
      return recv.code, req;
    }
    var s := UpToNul(recv.data);
    var tok := Strtok(s);
    if tok.None? {
      return -1, req;
    }
    var (line, rest) := tok.value;
    var (m, p, v) := RequestLine(line);
    req := req.(httpMethod := m, path := p, version := v);
    ghost var base := req;
    ghost var seen: seq<string> := [];
    DropFirst([line], Tokens(rest));
    AppendNil(Tokens(rest));
    tok := Strtok(rest);
    while tok.Some? && |tok.value.0| > 0
      invariant tok == Strtok(rest)
      invariant Tokens(s)[1..] == seen + Tokens(rest)
      invariant req == ApplyHeaders(base, seen)
      decreases |rest|
    {
      line, rest := tok.value.0, tok.value.1;
      AppendCons(seen, line, Tokens(rest));
      req := ApplyHeader(req, line);
      seen := seen + [line];
      tok := Strtok(rest);
    }
    AppendNil(seen);
    req := req.(body := BodyOf(s, req.contentLength));
    result := 1;
  }

  // ---------------------------------------------------------------------
  // Properties of the parse

  /** The result is -1 exactly when the received text (up to any NUL) is nothing but CR and LF. */
  lemma ParseResult(recv: Recv, peer: string)
    requires recv.code > 0
    ensures ParseSpec(recv, peer).0 == -1 <==>
            forall k :: 0 <= k < |UpToNul(recv.data)| ==> IsDelim(UpToNul(recv.data)[k])
  {
  }

  /**
   * `keep_alive` is 1 exactly when some line after the request line begins
   * with `Connection: ` (any case) and mentions keep-alive (any case).
   */
  lemma KeepAliveIff(recv: Recv, peer: string)
    requires recv.code > 0
    ensures var lines := Tokens(UpToNul(recv.data));
            ParseSpec(recv, peer).1.keepAlive <==>
            exists i :: 1 <= i < |lines| && AsksKeepAlive(lines[i])
  {
    var lines := Tokens(UpToNul(recv.data));
    if lines != [] {
      var (m, p, v) := RequestLine(lines[0]);
      var hs := lines[1..];
      KeepAliveFromAnyLine(Blank(peer).(httpMethod := m, path := p, version := v), hs);
      SomeInTail(lines, AsksKeepAlive);
    }
  }

  /** Some element after the first satisfies `p` exactly when some element of the tail does. */
  lemma SomeInTail<T>(xs: seq<T>, p: T -> bool)
    requires |xs| > 0
    ensures (exists i :: 0 <= i < |xs[1..]| && p(xs[1..][i])) <==> (exists i :: 1 <= i < |xs| && p(xs[i]))
  {
    if exists i :: 0 <= i < |xs[1..]| && p(xs[1..][i]) {
      var i :| 0 <= i < |xs[1..]| && p(xs[1..][i]);
      assert p(xs[i + 1]);
    }
    if exists i :: 1 <= i < |xs| && p(xs[i]) {
      var i :| 1 <= i < |xs| && p(xs[i]);
      assert p(xs[1..][i - 1]);
    }
  }

  /**
   * For a request whose first byte begins the request line (no leading CR or
   * LF), no body is ever captured: `strstr` only sees the request line.
   */
  lemma NoBodyForNormalInput(recv: Recv, peer: string)
    requires recv.code > 0
    requires |UpToNul(recv.data)| > 0 && !IsDelim(UpToNul(recv.data)[0])
    ensures ParseSpec(recv, peer).1.body == None
  {
    var s := UpToNul(recv.data);
    NoBlankLineInView(s);
    assert IndexOf(AfterTokenizing(s), "\r\n\r\n").None?;
  }

  /** Text that starts with the request line shows `strstr` no blank line. */
  lemma NoBlankLineInView(s: string)
    requires |s| > 0 && !IsDelim(s[0])
    ensures forall k: nat :: !OccursAt(AfterTokenizing(s), "\r\n\r\n", k)
  {
    var view := AfterTokenizing(s);
    assert DelimRun(s) == 0;
    assert forall k :: 0 <= k < |view| ==> !IsDelim(view[k]) by {
      assert s[0..] == s;
    }
    forall k: nat ensures !OccursAt(view, "\r\n\r\n", k) {
      if k + 4 <= |view| {
        assert view[k..k + 4][0] == view[k];
      }
    }
  }


  /** A body is captured only with a positive Content-Length. */
  lemma BodyNeedsLength(recv: Recv, peer: string)
    ensures ParseSpec(recv, peer).1.body.Some? ==> ParseSpec(recv, peer).1.contentLength > 0
  {
  }

  /**
   * A request sent as lines ended by CR LF and an empty line is parsed line
   * by line: the request line gives method, path and version, and every later
   * line, including each line of a body after the empty line, is treated as a
   * header.
   */
  lemma ParseOfWellFormedHead(lines: seq<string>, body: string, peer: string)
    requires |lines| > 0 && forall i :: 0 <= i < |lines| ==> IsLine(lines[i])
    requires NUL !in HeadText(lines) + body
    ensures var text := HeadText(lines) + body;
            var out := ParseSpec(Recv(|text|, text), peer);
            var (m, p, v) := RequestLine(lines[0]);
            && out.0 == 1
            && out.1.httpMethod == m && out.1.path == p && out.1.version == v
            && out.1 == ApplyHeaders(Blank(peer).(httpMethod := m, path := p, version := v),
                                     lines[1..] + Tokens(body)).(body := None)
  {
    var text := HeadText(lines) + body;
    UpToNulWithoutNul(text);
    TokensOfHead(lines, body);
    var ts := Tokens(text);
    DropFirst(lines, Tokens(body));
    assert ts[0] == lines[0] && ts[1..] == lines[1..] + Tokens(body);
    var (m, p, v) := RequestLine(lines[0]);
    var base := Blank(peer).(httpMethod := m, path := p, version := v);
    var r := ApplyHeaders(base, ts[1..]);
    HeadersKeepRequestLine(base, ts[1..]);
    assert ParseSpec(Recv(|text|, text), peer) == (1, r.(body := BodyOf(text, r.contentLength)));
    assert text[0] == lines[0][0];
    NoBodyForNormalInput(Recv(|text|, text), peer);
  }
}
