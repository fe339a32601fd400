# CServer core in Dafny

A model of the sequential core of CServer, a small C web server that serves
static files from a document root. What is modelled:

- the per-address sliding-window **rate limiter**: a 1024-slot table chosen
  by a polynomial hash, each slot with a 1000-entry ring of request times;
- the **worker pool's task queue**: a bounded circular FIFO with a one-way
  shutdown flag;
- the **request parser**: one `recv`, `strtok` on CR/LF, `sscanf` of the
  request line, and the case-insensitive header chain;
- the **request handler**: choosing between 405, 404, 301, 304, 500 and 200
  over a file-system map;
- the **response serializer**: cache policy, gzip eligibility and the header
  block;
- the **connection loop** (`handle_client`);
- the **HTTP helpers**: MIME lookup, status phrases, response building and
  gzip acceptance.

Layout:

| file | module | what it holds |
|---|---|---|
| `wrappers.dfy` | `Wrappers` | `Option` |
| `cstring.dfy` | `CString` | C string helpers (`strncpy` truncation, `strstr`, `strncasecmp`), printf numerals, the weak validator `W/"<hex>-<hex>"`, `atoi` |
| `http.dfy` | `Http` | src/http.c |
| `request.dfy` | `HttpRequest` | `parse_http_request` |
| `config.dfy` | `ServerConfig` | the configuration fields the core reads |
| `ratelimit.dfy` | `RateLimit` | `ip_hash`, `init_rate_limiting`, `check_rate_limit` |
| `handler.dfy` | `Handler` | `handle_http_request` |
| `serializer.dfy` | `Serializer` | `send_http_response` |
| `connection.dfy` | `Connection` | `handle_client` |
| `threadpool.dfy` | `ThreadPool` | src/thread_pool.c |

Modelling choices:

- **State changed in place uses classes.**
  - `RateLimit.RateLimiter` keeps the table in arrays.
  - `ThreadPool.Pool` keeps the queue array and its `head`/`tail`/`count`/`shutdown` fields. A ghost `Contents` holds the pending tasks, oldest first.
  - The counting loop of `check_rate_limit` and the accumulator loop of `ip_hash` are `while` loops.
  - The `strtok` loop of `parse_http_request` and the `while (1)` of `handle_client` and of the worker are also `while` loops.
  - Each of these methods is proved against a function on values: `CheckSlot`, `SlotIndex`, `ParseSpec`, `Outcome` and `Replies`.
- **Branch-only code is pure functions**: the status choice, the cache and compression policy, and the helpers.
- **A Dafny `string` is a C string's characters before its NUL.**
  - Only the receive buffer is cut at the first NUL (`UpToNul`).
  - Fixed-size fields written by `strncpy` or `sscanf` widths are cut explicitly (`Truncate`, `ScanWord`).
  - 32-bit wrap-around in `ip_hash` is written out, and so is the signedness of `char`.
  - The conversion of a `time_t` to `unsigned long` in the validators (`Unsigned64`) is written out too.
- **Outside inputs are parameters.**
  - The file system is a map from path to what `stat` and `read_file_content` report (`Handler.FileInfo`).
  - The clock readings are parameters.
  - The Date text is a function of the clock (`formatDate`).
  - The zlib stream is an oracle `compressor`.
  - Each pass of the connection loop is a `Turn`: the clock at the rate check, what `recv` returned, and the clock when sending.

Behaviour of the source that the model reproduces and states as lemmas:

- **The request body is never captured for ordinary requests.** `strtok` has already ended the buffer after the request line when `strstr` looks for the blank line (`HttpRequest.NoBodyForNormalInput`). Every line after the request line is treated as a header, body lines included (`HttpRequest.ParseOfWellFormedHead`).
- **If-None-Match is a substring test.** Any header text containing the file's validator matches. A validator never contains another one, except itself (`CString.ValidatorInValidator`).
- **Revalidation works only by coincidence.** The validator a 200 response carries is built from the response length and the sending clock, while the handler compares against the file's size and modification time. A client echoing it gets 304 only when the clock equals the file's modification time (`Connection.EchoedValidator`).
- **The 301 redirect carries no Location field.**
- **The 429 phrase is written by hand.** The status-phrase table maps 429 to "Unknown".

## Model

| member | source | states |
|---|---|---|
| CString.Truncate | src/server.c:306 | `strncpy(dst, src, sizeof(dst) - 1)` on a zeroed array keeps the first n characters: the result is a prefix of the input of length exactly min(len, n), and the whole input when it fits |
| CString.UpToNul | src/server.c:421 | the string functions see the received bytes up to the first NUL: a prefix without NUL, the whole text when it has none |
| CString.UpToNulWithoutNul | src/server.c:421 | a text without NUL is seen whole |
| CString.IndexFrom | src/server.c:468 | `strstr` finds the first occurrence at or after the start: it occurs there and nowhere before, and `None` means no occurrence |
| CString.NatToString | src/server.c:549 | printf's `%lx`/`%zu` numeral: non-empty digits of the base, no leading zero |
| CString.NumeralRoundTrip | src/server.c:549 | reading a printed numeral back gives the number |
| CString.NumeralInjective | src/server.c:549 | different numbers print differently |
| CString.Unsigned64 | src/server.c:629 | the `(unsigned long)` conversion lands in [0, 2^64) |
| CString.WeakETagInjective | src/server.c:549 | two weak validators are equal only when the size and the time (modulo 2^64) agree |
| CString.ETagShape | src/server.c:549 | a validator starts with `W/"`, ends with `"`, and holds no other `W` or `"` |
| CString.ValidatorInValidator | src/server.c:556 | one validator contains another exactly when both numbers agree, so the substring test on a lone validator is equality |
| CString.AtoiOfNumeral | src/server.c:449 | `atoi` of a printed non-negative number is that number |
| Http.LastIndexOf | src/http.c:13 | `strrchr`: the found position holds the character and no later one does; `None` when it is absent |
| Http.ExtensionMime | src/http.c:18-40 | the extension table gives one of the ten MIME constants |
| Http.GetMimeType | src/http.c:12-41 | a path without '.' is application/octet-stream; every result is one of the MIME constants |
| Http.MimeOfExtension | src/http.c:12-41 | the type of `stem.ext` depends on `ext` alone, whatever dots `stem` holds |
| Http.ExtensionCaseInsensitive | src/http.c:20-38 | extensions equal up to case give the same type |
| Http.HtmlExtension | src/http.c:20-22 | any `.html` path is served as HTML |
| Http.GetStatusText | src/http.c:44-62 | "Unknown" exactly for codes outside the table (429 included); the phrases of the codes the handler uses |
| Http.BuildHttpResponse | src/http.c:65-82 | status and table phrase set; a body exactly when the input body is non-NULL, the length positive and the copy allocated, and then the first `length` bytes; otherwise NULL and length 0 |
| Http.BuildJsonResponse | src/http.c:119-121 | JSON type, the JSON text up to its NUL as body, length its `strlen` |
| Http.ClientAcceptsGzip | src/http.c:124-130 | false for NULL; otherwise true exactly when "gzip" occurs, case-sensitively |
| Http.GzipCompressData | src/http.c:133-136 | -1 for NULL data, zero size or a missing output pointer; any output is the compressor's output for the first `size` bytes |
| HttpRequest.Blank | src/server.c:343-347 | the zeroed request stamped with the client address fits every field |
| HttpRequest.DelimRun | src/server.c:430 | the run of CR/LF the first `strtok` call skips: all of it is delimiters and the next character is not |
| HttpRequest.WordLen | src/server.c:430 | the token `strtok` takes runs to the next CR/LF |
| HttpRequest.Strtok | src/server.c:430-443 | a token is non-empty and free of CR/LF; `None` exactly when only delimiters remain |
| HttpRequest.Tokens | src/server.c:443 | every token the loop receives is a line, so the `strlen(line) > 0` guard never stops it |
| HttpRequest.TokensOfHead | src/server.c:430-465 | a head sent as CRLF-ended lines and a blank line yields its lines, then the tokens of what follows |
| HttpRequest.ScanWord | src/server.c:435 | one `%Ns` conversion: at most N characters, none of them white space |
| HttpRequest.RequestLine | src/server.c:435 | method, path and version fit 15, 2047 and 15 characters |
| HttpRequest.WordEndOverlong | src/server.c:435 | a conversion facing a run of at least N non-space characters stops after exactly N of them |
| HttpRequest.ScanWordOverlong | src/server.c:435 | a word longer than the field is cut to its first N characters, and the conversion ends in the middle of the word |
| HttpRequest.MethodSpill | src/server.c:435 | a method word longer than 15 characters spills: the method is its first 15 characters and the path is the rest of that word |
| HttpRequest.RequestLineRoundTrip | src/server.c:435 | three space-separated words that fit their fields are read back unchanged |
| HttpRequest.Classify | src/server.c:444-464 | a recognised kind's prefix begins the line, case-insensitively |
| HttpRequest.ClassifyIff | src/server.c:444-464 | a line is of a kind exactly when it begins with that kind's prefix: the prefixes exclude each other |
| HttpRequest.ApplyHeader | src/server.c:444-464 | one header line keeps every field within its capacity |
| HttpRequest.ApplyHeaders | src/server.c:443-465 | the header loop keeps every field within its capacity |
| HttpRequest.HeaderFields | src/server.c:444-464 | each stored header field ends with the value of the last line with its prefix, or its earlier value when there is none |
| HttpRequest.HeadersKeepRequestLine | src/server.c:443-465 | header lines never change method, path, version, body or address |
| HttpRequest.KeepAliveFromAnyLine | src/server.c:452-455 | keep-alive is set when any `Connection: ` line mentions keep-alive; a later line never clears it |
| HttpRequest.AfterTokenizing | src/server.c:430-468 | what `strstr` sees is a prefix of the received text |
| HttpRequest.ParseSpec | src/server.c:411-477 | the `recv` result when it is not positive; otherwise -1 or 1, with every field within capacity |
| HttpRequest.ParseRequest | src/server.c:411-477 | the `strtok` loop computes `ParseSpec` |
| HttpRequest.ParseResult | src/server.c:430-433 | -1 exactly when the received text is nothing but CR and LF |
| HttpRequest.KeepAliveIff | src/server.c:438-455 | keep-alive exactly when a line after the request line begins with `Connection: ` and mentions keep-alive, both case-insensitively |
| HttpRequest.NoBodyForNormalInput | src/server.c:468-472 | a text that starts with its request line never yields a body |
| HttpRequest.BodyNeedsLength | src/server.c:469 | a body is only captured with a positive Content-Length |
| HttpRequest.ParseOfWellFormedHead | src/server.c:411-477 | a well-formed head is parsed line by line; every later line (body lines too) acts as a header; no body |
| RateLimit.HashAccumulator | src/server.c:83-88 | the `unsigned int` accumulator stays below 2^32 |
| RateLimit.IpHash | src/server.c:83-89 | the accumulator loop returns a slot index in [0, 1024), namely `SlotIndex` |
| RateLimit.ZeroSlot | src/server.c:62-75 | a zeroed slot keeps the slot invariant |
| RateLimit.Window | src/server.c:846-850 | the times a slot holds, oldest first, as many as `count` |
| RateLimit.CountRecent | src/server.c:846-850 | the count of times at or after the cutoff never exceeds the number of times |
| RateLimit.Claim | src/server.c:832-836 | claiming keeps the slot invariant |
| RateLimit.Record | src/server.c:858-864 | recording keeps `count <= 1000`, `index < 1000` and `count < 1000 ==> index == count` |
| RateLimit.CheckSlot | src/server.c:832-864 | one check keeps the slot invariant |
| RateLimit.CountRecentAppend | src/server.c:846-850 | counting splits over concatenation |
| RateLimit.WindowCount | src/server.c:846-850 | counting the first `count` entries counts the slot's history |
| RateLimit.RecordWindow | src/server.c:858-864 | recording appends `now` to the history and, past 1000 times, drops the oldest |
| RateLimit.LimitedIffWindowFull | src/server.c:846-856 | refused exactly when at least `max` of the held times are in the window; a refused check records nothing |
| RateLimit.AdmittedAppends | src/server.c:856-864 | an admitted check appends `now` to the address's history, keeping the latest 1000 |
| RateLimit.EvictionDiscardsHistory | src/server.c:832-836 | an empty slot or another address's slot is reset for the new address with no history |
| RateLimit.LongAddressNeverTracked | src/server.c:832-833 | an address longer than 45 characters never matches its stored copy, so it never builds up history |
| RateLimit.QuietPeriodReadmits | src/server.c:842-856 | once all held times have left the window, the address is admitted again |
| RateLimit.RunChecks | src/server.c:813-876 | one verdict per check |
| RateLimit.SlotAfter | src/server.c:813-876 | the slot a run of checks leaves keeps the slot invariant |
| RateLimit.RunChecksSnoc | src/server.c:813-876 | one more check adds its own verdict, taken on the slot the earlier checks left, and leaves that check's slot |
| RateLimit.ExtendRun | src/server.c:813-876 | a table that replays a run of checks on the client's slot, followed by one `CheckSlot` step on that slot, replays the run with that check added |
| RateLimit.BurstFrom | src/server.c:846-864 | within one window, checks are refused exactly from the `max`-th on |
| RateLimit.FreshAddressBurst | src/server.c:813-876 | a new address's first `max` checks in one window are admitted and the next one is refused |
| RateLimit.RateLimiter.Row | src/server.c:47-53 | a row of the timestamp table, element by element |
| RateLimit.RateLimiter.SlotAt | src/server.c:47-55 | a table slot as a value keeps the slot invariant |
| RateLimit.RateLimiter.constructor | src/server.c:55-57 | the zero-filled table, not yet marked initialized |
| RateLimit.RateLimiter.Slots | src/server.c:47-55 | the whole table as values, one slot per hash bucket |
| RateLimit.RateLimiter.InitRateLimiting | src/server.c:62-75 | zeroes every slot once; later calls change nothing |
| RateLimit.RateLimiter.ClaimSlot | src/server.c:832-836 | slot h becomes `Claim` of its old value; other slots and all times unchanged |
| RateLimit.RateLimiter.CountValid | src/server.c:842-850 | the loop returns `CountRecent` of the slot's history |
| RateLimit.RateLimiter.RecordAt | src/server.c:858-864 | slot h becomes `Record` of its old value; other slots unchanged |
| RateLimit.RateLimiter.Check | src/server.c:813-876 | disabled: admitted and nothing touched; enabled: the hashed slot of the (lazily zeroed) table takes the `CheckSlot` step and the other slots keep their contents |
| RateLimit.RateLimiter.CheckTable | src/server.c:825-865 | the hashed slot takes the `CheckSlot` step; the other slots are unchanged |
| ThreadPool.Rotation | src/thread_pool.c:28-30 | the ring read from `head` has the ring's size |
| ThreadPool.Layout | src/thread_pool.c:171-173 | pending tasks followed by empty slots, of the capacity's size |
| ThreadPool.Occupied | src/thread_pool.c:241-246 | the non-NULL slots, no more than the slots |
| ThreadPool.RotationIndex | src/thread_pool.c:28-30 | position i of the rotated ring is slot `(head + i) % size` |
| ThreadPool.RotationUpdate | src/thread_pool.c:171-173 | writing slot `(head + k) % size` changes the rotated view at k only |
| ThreadPool.RotationAdvance | src/thread_pool.c:28-30 | clearing the head slot and advancing `head` drops the oldest task from the view |
| ThreadPool.LayoutPush | src/thread_pool.c:171-173 | storing at `tail` appends the task to the pending ones |
| ThreadPool.LayoutPop | src/thread_pool.c:28-31 | the head slot holds the oldest task, and taking it leaves the rest in order |
| ThreadPool.OccupiedAppend | src/thread_pool.c:241-246 | the non-NULL slots of two parts are those of each part in turn |
| ThreadPool.OccupiedLayout | src/thread_pool.c:241-246 | the non-NULL slots of a laid-out queue are its pending tasks |
| ThreadPool.OccupiedArePending | src/thread_pool.c:241-246 | the non-NULL slots of a well-formed ring are exactly its pending tasks, each once |
| ThreadPool.NextIndex | src/thread_pool.c:30 | C's `(x + 1) % n` on a ring index |
| ThreadPool.Pool.constructor | src/thread_pool.c:81-111 | `head == tail == count == 0`, not shut down, every slot NULL, no pending task |
| ThreadPool.Pool.Add | src/thread_pool.c:148-182 | -1 for a NULL task, a full queue or a shut-down pool, with nothing changed; otherwise 0 with the task stored at `tail`, `tail` advanced modulo the size, `count` incremented and the task appended to the pending ones |
| ThreadPool.Pool.WorkerStep | src/thread_pool.c:14-31 | exit on shutdown even with tasks pending; wait when empty; otherwise take the oldest task, clear its slot and advance `head` |
| ThreadPool.Pool.RunWorker | src/thread_pool.c:12-41 | a worker serves the pending tasks in the order they were added until the queue is empty, or exits at once on shutdown |
| ThreadPool.Pool.Destroy | src/thread_pool.c:208-252 | nothing when already shut down; otherwise sets shutdown for good and closes exactly the pending tasks' sockets |
| ThreadPool.Create | src/thread_pool.c:70-123 | NULL for a negative size or a failed resource; otherwise an empty running pool |
| ThreadPool.PoolAdd | src/thread_pool.c:148-151 | -1 for a NULL pool; otherwise what `Pool.Add` promises: 0 or -1, -1 exactly on a missing task, a full queue or shutdown and then nothing changes, and on 0 the task is stored at the old tail and appended to the pending tasks, tail advances, count grows by one, nothing else changes |
| ThreadPool.PoolDestroy | src/thread_pool.c:208-211 | a NULL pool is left alone; otherwise what `Pool.Destroy` promises: shutdown set, on the first call the closed sockets are the occupied slots in slot order, exactly the pending tasks, on a later call nothing changes, and head, tail, count and pending tasks are kept |
| Handler.ResolvePath | src/server.c:506-511 | the first path tried fits `char file_path[2560]` |
| Handler.IndexPath | src/server.c:537 | the directory index path fits the same buffer |
| Handler.TargetFile | src/server.c:506-541 | a found target is a path the file system knows |
| Handler.TextResponse | src/server.c:500-501 | a plain-text response with the given text as body |
| Handler.EmptyResponse | src/server.c:527-532 | a response written field by field with no body and length 0 |
| Handler.HandleHttpRequest | src/server.c:496-596 | framing kept, keep-alive copied from the request, table phrase, status one of 200/301/304/404/405/500, type one of the MIME constants |
| Handler.MethodNotAllowed | src/server.c:498-502 | 405 exactly for methods other than GET and HEAD, with the 18-byte text |
| Handler.NotFound | src/server.c:515-541 | 404 exactly when an allowed request finds no file and no directory to redirect |
| Handler.MovedPermanently | src/server.c:521-533 | 301 exactly for a directory requested without a trailing '/', with no body and length 0 |
| Handler.NotModified | src/server.c:549-567 | 304 exactly when the file is found and a non-empty If-None-Match contains its validator; the file's type, no body |
| Handler.InternalError | src/server.c:577-581 | 500 exactly when the found file, not matched, cannot be read whole |
| Handler.Success | src/server.c:583-591 | 200 only for a readable file, with its type; GET carries the whole file, HEAD no body and length 0 |
| Handler.RootServesIndex | src/server.c:507-545 | GET "/" serves the root's index.html as HTML, whole |
| Serializer.HeaderValue | src/server.c:701-717 | the value of the first field with a name; `None` exactly when no field has it |
| Serializer.HeaderValueAppend | src/server.c:701-717 | a lookup in two parts takes the first part's field when it has one |
| Serializer.MaxAge | src/server.c:633-657 | one of the four cache lifetimes |
| Serializer.CacheFields | src/server.c:627-663 | `Cache-Control` first; two fields for 200, one otherwise |
| Serializer.Compressed | src/server.c:665-697 | compression is used exactly when every guard holds and the compressor succeeds, and then its output is used |
| Serializer.ContentLengthField | src/server.c:706-714 | Content-Length is the compressed size when compressed, the body length otherwise |
| Serializer.ContentTypeField | src/server.c:705-713 | Content-Type is the response's type |
| Serializer.SendHttpResponse | src/server.c:612-731 | status line `HTTP/1.1 <code> <phrase>`; Content-Length is the length of the bytes sent after the header |
| Serializer.AfterLeading | src/server.c:701-717 | fields other than the four leading ones are found after them |
| Serializer.NoStoreUnlessOk | src/server.c:660-663 | every status but 200 carries `Cache-Control: no-store` and no ETag |
| Serializer.OkCachePolicy | src/server.c:627-659 | 200 carries the type's public max-age and the validator of its length and the clock |
| Serializer.ConnectionField | src/server.c:709-717 | `Connection: keep-alive` exactly when the response keeps the connection, `close` exactly when not |
| Serializer.GzipUse | src/server.c:665-730 | `Content-Encoding: gzip` exactly when every guard holds and compression succeeds; the bytes sent are then the compressed ones, otherwise the body |
| Serializer.DiffersAt | src/server.c:633-683 | a prefix that differs at one position does not match (the `strncmp` tests) |
| Serializer.CompressibleServedTypes | src/server.c:677-686 | HTML, text, CSS, JavaScript and JSON are compressible; images and octet-stream are not |
| Serializer.MaxAgeOfServedTypes | src/server.c:631-657 | HTML an hour; CSS and JavaScript a week; images a month; the rest a day |
| Serializer.ContentTypeSent | src/server.c:705-713 | the Content-Type sent is the response's type |
| Serializer.BlankNotInLine | src/server.c:701-710 | no blank line starts inside a line |
| Serializer.BlankAfterLine | src/server.c:701-710 | a CRLF-ended line before a non-blank line adds no blank line |
| Serializer.NoBlankLineInHead | src/server.c:701-710 | after a status line and single-line fields, no blank line comes before the closing one |
| Serializer.FieldLinesEnd | src/server.c:702-709 | the status line and field lines end in CRLF |
| Serializer.HeaderBlockEnd | src/server.c:699-730 | the first blank line on the wire closes the header block, and what follows it is the payload |
| Serializer.StatusTextSingleLine | src/http.c:44-62 | no phrase of the table holds a line break |
| Serializer.MimeSingleLine | include/http.h:75-120 | no MIME constant holds a line break |
| Serializer.DecimalSingleLine | src/server.c:702-706 | a printed number holds no line break |
| Serializer.ETagSingleLine | src/server.c:629 | a validator holds no line break |
| Serializer.CacheSingleLine | src/server.c:627-663 | every cache field is a single line |
| Serializer.FieldsSingleLine | src/server.c:701-717 | every header field is a single line when the type and the date are |
| Serializer.StatusLineSingleLine | src/server.c:702 | the status line is a non-empty single line when the phrase is |
| Serializer.JoinSingleLine | src/server.c:701-717 | joining two single-line texts gives a single line |
| Serializer.NumeralSingleLine | src/server.c:706 | a numeral holds no line break |
| Serializer.SendFraming | src/server.c:699-730 | the first blank line ends the header, and what follows is exactly the payload, whose length Content-Length states |
| Connection.RateLimitResponse | src/server.c:319-328 | status 429 with the hand-written phrase, the 42-byte message, no keep-alive |
| Connection.Outcome | src/server.c:342-368 | a positive result is 1 and needs a positive receive; a non-positive receive is the result |
| Connection.CheckTimes | src/server.c:314 | the clock readings of the rate checks, one per turn |
| Connection.RateCheck | src/server.c:314 | the check leaves the table valid; with limiting enabled, the verdicts so far plus this one are `RunChecks` over the client's slot from its slot at the start (zeroed when the table was not initialized), and the table is the starting table with only that slot replaced by the slot the run leaves; with limiting disabled, every verdict admits and the table is untouched |
| Connection.Refusal | src/server.c:314-331 | sends what `Outcome` describes for a limited turn |
| Connection.Exchange | src/server.c:342-368 | parse, handle and send compute `Outcome` |
| Connection.Replies | src/server.c:359-368 | one transmission per served turn |
| Connection.ClosingTurn | src/server.c:349-356 | a turn that yields a request received something |
| Connection.Respond | src/server.c:314-390 | after the verdict: a refusal ends the connection as rate limited, a parse result <= 0 ends it, a reply without keep-alive ends it, and otherwise the reply is appended and the loop goes on |
| Connection.Pass | src/server.c:312-390 | one pass of the loop either goes on with one more admitted verdict and reply, or ends as `HandleClient` describes |
| Connection.HandleClient | src/server.c:297-395 | stops at the first refusal, at the first parse result <= 0, or after a request without keep-alive; sends the replies of the served turns, plus the refusal; every earlier turn kept the connection alive; one rate check per pass, all admitting but the last, and the 429 refusal is sent exactly when the last verdict refused; with limiting enabled the verdicts are `RunChecks` over the client's slot at the turns' clock readings and the table is left as that run leaves it, with limiting disabled the table is untouched |
| Connection.DisabledNeverRefuses | src/server.c:314 | with limiting disabled, the connection is never refused and the table is untouched |
| Connection.RepliesAt | src/server.c:359-368 | the j-th transmission answers the j-th turn |
| Connection.KeptAliveIff | src/server.c:387-390 | the loop went on exactly when every turn parsed and asked for keep-alive |
| Connection.ServedConnectionHeader | src/server.c:361 | a reply says keep-alive exactly when its request asked for it, which is when the loop goes on |
| Connection.RefusalNumerals | src/server.c:702-706 | 429 and 42 print as "429" and "42" |
| Connection.RefusalStatusLine | src/server.c:323-324 | the refusal's status line is `HTTP/1.1 429 Too Many Requests` |
| Connection.RefusalBody | src/server.c:322-327 | the refusal carries the message uncompressed, with Content-Length 42 |
| Connection.RefusalPolicy | src/server.c:325-328 | the refusal is text/plain, no-store, and closes the connection |
| Connection.EchoedValidator | src/server.c:549-556 | a 200's validator, echoed back, matches a file exactly when the length and the clock equal the file's size and modification time |
| Connection.ServedFramed | src/server.c:365-368 | every handled request's response is framed |
| Connection.RefusalFramed | src/server.c:331 | the refusal is framed |
| Connection.OutcomeFramed | src/server.c:331-368 | every transmission of the loop is framed, given a Date text without line breaks |

## Left out

- **Sockets:** `server_init`, `server_start`, `server_stop`, `accept`, `setsockopt`, `fcntl`, `getpeername` and `send` are not modelled.
  - `recv` is the `Recv` value of a turn.
  - `recv` reads at most 8191 bytes into `parse_http_request`'s buffer. The model takes each turn's `Recv` as given and does not bound its length; a longer request arrives over several turns, each parsed on its own.
  - The receive timeout (`keep_alive_timeout`) shows up only as a turn whose receive returns 0 or less. `HandleClient` requires the script to hold such a turn, so a client that keeps sending keep-alive requests within the timeout, whose connection never ends, is excluded.
- **Concurrency:** threads, mutexes and condition variables are not modelled. Each pool operation and each rate-limit check is one atomic step.
  - The worker's blocking wait is the `Wait` action.
  - Calling `handle_client` from the worker is left to the connection model.
- **Oracles:** `read_file_content` and `stat` are the `FileSystem` map. The zlib stream is the `compressor` oracle, and the Date text is `formatDate`.
- **Allocation:** `strdup` and `malloc` failures are not modelled, except for the body copy in `build_http_response` (`allocOk`) and the failures folded into `Create`'s `resourcesOk`.
- **Fixed buffers:** the 4096-byte header buffer of `send_http_response` is assumed large enough. Its truncation of very long header blocks is not modelled, and neither is the 1024-byte cache-header buffer's truncation.
- **NULL types:** a response with a NULL content type is not modelled. The handler and the connection loop never produce one.
- **Request fields:** `Content-Type` and `Body` are modelled as strings, not as heap pointers.
  - `atoi` is unbounded. Overflow of `Content-Length` values beyond `int` is not modelled.
- `Http.BuildHttpResponse`: returns the filled response as a value instead of writing the caller's struct in place. The fields it does not write (`keep_alive`, `request`) are passed in.
- **Other files:** `log_message`, src/main.c and src/db.c are not part of this model.
