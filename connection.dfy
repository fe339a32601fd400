/**
 * `handle_client` of src/server.c: the per-connection loop of rate check,
 * receive and parse, handling, and sending, until the client is limited,
 * the receive ends, or a request does not ask to keep the connection.
 * The socket is a script of turns; the clocks of each turn are given.
 */
module Connection {
  import opened Wrappers
  import opened CString
  import opened Http
  import opened HttpRequest
  import opened RateLimit
  import opened Handler
  import opened Serializer
  import opened ServerConfig

  /** `HTTP_TOO_MANY_REQUESTS`, section 4 of RFC 6585. */
  const TOO_MANY_REQUESTS: int := 429
  const RATE_LIMIT_MESSAGE: string := "Too many requests. Please try again later."

  /**
   * The response sent to a limited client: written field by field (so its
   * phrase is not the table's "Unknown"), typed `text/plain` without a
   * charset, and closing the connection.
   */
  function RateLimitResponse(): (r: Response)
    ensures WellFormed(r) && r.statusCode == TOO_MANY_REQUESTS && !r.keepAlive
    ensures r.statusText == "Too Many Requests" && r.contentLength == 42
  {
    Response(TOO_MANY_REQUESTS, "Too Many Requests", "text/plain", |RATE_LIMIT_MESSAGE|,
             Some(RATE_LIMIT_MESSAGE), false)
  }

  /**
   * One pass of the loop as the outside world presents it: the clock at the
   * rate check, what `recv` returns, and the clock when the response is sent.
   */
  datatype Turn = Turn(checkTime: int, recv: Recv, sendTime: int)

  /** Why the loop ended. */
  datatype Close = RateLimited | NoRequest(code: int) | NotKeepAlive

  /** What is sent to a limited client: never compressed, since no request is attached. */
  function Refuse(cfg: Config, turn: Turn, formatDate: int -> string,
                  compressor: string -> Option<string>): Transmission
  {
    SendHttpResponse(cfg, RateLimitResponse(), None, formatDate(turn.sendTime), turn.sendTime, compressor)
  }

  /**
   * What a turn can produce: the parse result, the reply, and whether to go
   * on when the client is served; the refusal when it is limited.
   */
  datatype Exchanged = Exchanged(code: int, reply: Transmission, keepAlive: bool, refusal: Transmission)

  /**
   * The exchange for one turn: the request parsed from what was received,
   * stamped with the client address, handled, and the response sent.
   */
  function Outcome(cfg: Config, fs: FileSystem, ip: string, turn: Turn,
                   formatDate: int -> string, compressor: string -> Option<string>): (x: Exchanged)
    ensures x.code > 0 ==> x.code == 1 && turn.recv.code > 0
    ensures turn.recv.code <= 0 ==> x.code == turn.recv.code
  {
    var (code, req) := ParseSpec(turn.recv, ip);
    var resp := HandleHttpRequest(req, cfg.docRoot, fs);
    Exchanged(code, SendHttpResponse(cfg, resp, Some(req), formatDate(turn.sendTime), turn.sendTime, compressor),
              req.keepAlive, Refuse(cfg, turn, formatDate, compressor))
  }

  /**
   * `outcome` is `Outcome` for this connection. Stated with `Outcome` as the
   * trigger, so that a proof about the loop does not unfold the exchange.
   */
  ghost predicate Describes(outcome: Turn -> Exchanged, cfg: Config, fs: FileSystem, ip: string,
                      formatDate: int -> string, compressor: string -> Option<string>) {
    forall turn {:trigger Outcome(cfg, fs, ip, turn, formatDate, compressor)} ::
      outcome(turn) == Outcome(cfg, fs, ip, turn, formatDate, compressor)
  }

  /** The pass of a limited client: the refusal is sent. */
  method Refusal(cfg: Config, fs: FileSystem, ip: string, turn: Turn,
                 formatDate: int -> string, compressor: string -> Option<string>,
                 ghost outcome: Turn -> Exchanged)
    returns (t: Transmission)
    requires Describes(outcome, cfg, fs, ip, formatDate, compressor)
    ensures t == outcome(turn).refusal
  {
    t := SendHttpResponse(cfg, RateLimitResponse(), None, formatDate(turn.sendTime), turn.sendTime, compressor);
    assert t == Outcome(cfg, fs, ip, turn, formatDate, compressor).refusal;
  }

  /**
   * The part of one pass after the rate check: receive and parse, and when
   * that yields a request, handle it and send the response.
   */
  method Exchange(cfg: Config, fs: FileSystem, ip: string, turn: Turn,
                  formatDate: int -> string, compressor: string -> Option<string>,
                  ghost outcome: Turn -> Exchanged)
    returns (x: Exchanged)
    requires Describes(outcome, cfg, fs, ip, formatDate, compressor)
    ensures x == outcome(turn)
  {
    var result, req := ParseRequest(turn.recv, ip);
    var resp := HandleHttpRequest(req, cfg.docRoot, fs);
    x := Exchanged(result, SendHttpResponse(cfg, resp, Some(req), formatDate(turn.sendTime), turn.sendTime, compressor),
                   req.keepAlive, Refuse(cfg, turn, formatDate, compressor));
    assert x == Outcome(cfg, fs, ip, turn, formatDate, compressor);
  }

  /** The replies of the exchanges of `turns`, in order. */
  function Replies(outcome: Turn -> Exchanged, turns: seq<Turn>): (r: seq<Transmission>)
    ensures |r| == |turns|
  {
    if turns == [] then []
    else Replies(outcome, turns[..|turns| - 1]) + [outcome(turns[|turns| - 1]).reply]
  }

  /** Every turn delivered a request, and every request asked to keep the connection. */
  predicate KeptAlive(outcome: Turn -> Exchanged, turns: seq<Turn>) {
    turns != [] ==>
      && KeptAlive(outcome, turns[..|turns| - 1])
      && outcome(turns[|turns| - 1]).code == 1
      && outcome(turns[|turns| - 1]).keepAlive
  }

  /** A turn whose receive ends the connection yields no request. */
  lemma ClosingTurn(outcome: Turn -> Exchanged, cfg: Config, fs: FileSystem, ip: string,
                    formatDate: int -> string, compressor: string -> Option<string>, turn: Turn)
    requires Describes(outcome, cfg, fs, ip, formatDate, compressor)
    ensures outcome(turn).code > 0 ==> outcome(turn).code == 1 && turn.recv.code > 0
  {
    var x := Outcome(cfg, fs, ip, turn, formatDate, compressor);
  }

  lemma PrefixStep<T>(s: seq<T>, i: nat)
    requires i < |s|
    ensures s[..i + 1][..i] == s[..i] && s[..i + 1][i] == s[i] && |s[..i + 1]| == i + 1
  {
  }

  /** The clocks at the rate checks of `turns`. */
  function CheckTimes(turns: seq<Turn>): (ts: seq<int>)
    ensures |ts| == |turns|
    ensures forall j :: 0 <= j < |turns| ==> ts[j] == turns[j].checkTime
  {
    seq(|turns|, j requires 0 <= j < |turns| => turns[j].checkTime)
  }

  /**
   * The table `table` (marked initialized or not by `initialized`) after
   * the rate checks of `turns` by this connection, with `verdicts` their
   * answers, when it was `table0` (marked `init0`) before the first.
   * Enabled, the answers are `RunChecks` over the client's slot from where it
   * started, and the table holds what those checks leave (`Replayed`);
   * disabled, every answer admits and the table is as it was.
   */
  ghost predicate Tracked(cfg: Config, ip: string, initialized: bool, table: seq<Slot>, init0: bool, table0: seq<Slot>,
                          turns: seq<Turn>, verdicts: seq<bool>)
    requires |table| == TABLE_SIZE && |table0| == TABLE_SIZE
    requires forall g :: 0 <= g < TABLE_SIZE ==> SlotValid(table0[g])
  {
    && |verdicts| == |turns|
    && (cfg.enableRateLimit ==>
          && verdicts == RunChecks(StartSlot(init0, table0[SlotIndex(ip)]), ip, CheckTimes(turns),
                                   cfg.rateLimitInterval, cfg.rateLimitMax)
          && Replayed(initialized, table, init0, table0, ip, CheckTimes(turns), cfg.rateLimitInterval, cfg.rateLimitMax))
    && (!cfg.enableRateLimit ==> Admitted(verdicts) && initialized == init0 && table == table0)
  }

  /** Every answer admitted the request. */
  predicate Admitted(verdicts: seq<bool>) {
    forall j :: 0 <= j < |verdicts| ==> !verdicts[j]
  }

  /**
   * The rate check at the top of each pass: `check_rate_limit` taking one
   * more step of the checks this connection has made (`turns`, leaving
   * `table`). Disabled, it admits and touches nothing.
   */
  method RateCheck(limiter: RateLimiter, cfg: Config, ip: string, turn: Turn,
                   ghost init0: bool, ghost table0: seq<Slot>, ghost table: seq<Slot>,
                   ghost turns: seq<Turn>, ghost verdicts: seq<bool>, ghost turns': seq<Turn>)
    returns (limited: bool, ghost table': seq<Slot>)
    requires limiter.Valid() && table == limiter.Slots()
    requires |table0| == TABLE_SIZE && forall g :: 0 <= g < TABLE_SIZE ==> SlotValid(table0[g])
    requires Tracked(cfg, ip, limiter.initialized, table, init0, table0, turns, verdicts) && turns' == turns + [turn]
    modifies limiter, limiter.ips, limiter.stamps, limiter.indices, limiter.counts
    ensures limiter.Valid() && table' == limiter.Slots()
    ensures Tracked(cfg, ip, limiter.initialized, table', init0, table0, turns', verdicts + [limited])
  {
    ghost var initialized := limiter.initialized;
    limited := limiter.Check(ip, turn.checkTime, cfg.enableRateLimit, cfg.rateLimitInterval, cfg.rateLimitMax);
    table' := limiter.Slots();
    assert CheckTimes(turns') == CheckTimes(turns) + [turn.checkTime];
    if cfg.enableRateLimit {
      forall g | 0 <= g < TABLE_SIZE ensures SlotValid(table[g]) {
      }
      ExtendRun(initialized, table, limited, table', init0, table0, ip, CheckTimes(turns),
                turn.checkTime, cfg.rateLimitInterval, cfg.rateLimitMax);
    }
  }

  /** What the loop does after a pass: go on to the next turn, or stop. */
  datatype Next = Continue | Stop(close: Close, served: nat)

  /**
   * The loop ended with `close` after answering `served` turns: `sent` holds
   * their replies, and the refusal for a limited client; a receive without
   * a request or a request without keep-alive ended it; every earlier turn
   * delivered a request that kept the connection.
   */
  ghost predicate Ended(outcome: Turn -> Exchanged, script: seq<Turn>, sent: seq<Transmission>, close: Close, served: nat) {
    && served < |script|
    && sent == (if close == RateLimited
                then Replies(outcome, script[..served]) + [outcome(script[served]).refusal]
                else Replies(outcome, script[..served]))
    && (close.NoRequest? ==> close.code <= 0 && close.code == outcome(script[served]).code)
    && (close == NotKeepAlive ==>
          served > 0 && outcome(script[served - 1]).code == 1 && !outcome(script[served - 1]).keepAlive)
    && KeptAlive(outcome, script[..if close == NotKeepAlive then served - 1 else served])
  }

  /**
   * The part of pass `i` after the rate check: the refusal for a limited
   * client, otherwise the exchange, and whether the loop goes on.
   */
  method Respond(cfg: Config, fs: FileSystem, ip: string, script: seq<Turn>, i: nat, limited: bool,
                 sent: seq<Transmission>, formatDate: int -> string, compressor: string -> Option<string>,
                 ghost outcome: Turn -> Exchanged, ghost k: nat)
    returns (sent': seq<Transmission>, next: Next)
    requires i <= k < |script| && script[k].recv.code <= 0
    requires Describes(outcome, cfg, fs, ip, formatDate, compressor)
    requires sent == Replies(outcome, script[..i]) && KeptAlive(outcome, script[..i])
    ensures next.Continue? ==>
              !limited && i < k && sent' == Replies(outcome, script[..i + 1]) && KeptAlive(outcome, script[..i + 1])
    ensures next.Stop? ==>
              && Ended(outcome, script, sent', next.close, next.served)
              && (next.close == RateLimited <==> limited)
              && next.served == if next.close == NotKeepAlive then i + 1 else i
  {
    var turn := script[i];
    if limited {
      var t := Refusal(cfg, fs, ip, turn, formatDate, compressor, outcome);
      return sent + [t], Stop(RateLimited, i);
    }
    var x := Exchange(cfg, fs, ip, turn, formatDate, compressor, outcome);
    if x.code <= 0 {
      return sent, Stop(NoRequest(x.code), i);
    }
    ClosingTurn(outcome, cfg, fs, ip, formatDate, compressor, turn);
    assert i != k;
    PrefixStep(script, i);
    assert Replies(outcome, script[..i + 1]) == Replies(outcome, script[..i]) + [x.reply];
    assert KeptAlive(outcome, script[..i + 1]) <== x.keepAlive;
    sent' := sent + [x.reply];
    next := if x.keepAlive then Continue else Stop(NotKeepAlive, i + 1);
  }

  /**
   * Where the loop stands before pass `i`: `sent` holds the replies of the
   * turns before it, all of which kept the connection; their rate checks
   * all admitted, and the limiter table is as those checks leave it.
   */
  ghost predicate Progress(outcome: Turn -> Exchanged, cfg: Config, ip: string, script: seq<Turn>, i: nat,
                           sent: seq<Transmission>, verdicts: seq<bool>,
                           initialized: bool, table: seq<Slot>, init0: bool, table0: seq<Slot>)
    requires |table| == TABLE_SIZE && |table0| == TABLE_SIZE
    requires forall g :: 0 <= g < TABLE_SIZE ==> SlotValid(table0[g])
  {
    && i <= |script|
    && sent == Replies(outcome, script[..i])
    && KeptAlive(outcome, script[..i])
    && |verdicts| == i && Admitted(verdicts)
    && Tracked(cfg, ip, initialized, table, init0, table0, script[..i], verdicts)
  }

  /**
   * How the loop ended: as `Ended` says, with one rate check per pass made
   * (`verdicts`), all admitting but the one that ended the loop, which
   * refused exactly when the client was limited; the limiter table is as
   * those checks leave it.
   */
  ghost predicate Final(outcome: Turn -> Exchanged, cfg: Config, ip: string, script: seq<Turn>,
                        sent: seq<Transmission>, close: Close, served: nat, verdicts: seq<bool>,
                        initialized: bool, table: seq<Slot>, init0: bool, table0: seq<Slot>)
    requires |table| == TABLE_SIZE && |table0| == TABLE_SIZE
    requires forall g :: 0 <= g < TABLE_SIZE ==> SlotValid(table0[g])
  {
    && Ended(outcome, script, sent, close, served)
    && |verdicts| == (if close == NotKeepAlive then served else served + 1)
    && Admitted(verdicts[..served])
    && (close == RateLimited <==> served < |verdicts| && verdicts[served])
    && Tracked(cfg, ip, initialized, table, init0, table0, script[..|verdicts|], verdicts)
  }

  /** One pass of the loop: the rate check, then the refusal or the exchange. */
  method Pass(limiter: RateLimiter, cfg: Config, fs: FileSystem, ip: string, script: seq<Turn>, i: nat,
              sent: seq<Transmission>, formatDate: int -> string, compressor: string -> Option<string>,
              ghost outcome: Turn -> Exchanged, ghost k: nat, ghost verdicts: seq<bool>,
              ghost init0: bool, ghost table0: seq<Slot>, ghost table: seq<Slot>)
    returns (sent': seq<Transmission>, next: Next, ghost verdicts': seq<bool>, ghost table': seq<Slot>)
    requires i <= k < |script| && script[k].recv.code <= 0
    requires Describes(outcome, cfg, fs, ip, formatDate, compressor)
    requires limiter.Valid() && table == limiter.Slots()
    requires |table0| == TABLE_SIZE && forall g :: 0 <= g < TABLE_SIZE ==> SlotValid(table0[g])
    requires Progress(outcome, cfg, ip, script, i, sent, verdicts, limiter.initialized, table, init0, table0)
    modifies limiter, limiter.ips, limiter.stamps, limiter.indices, limiter.counts
    ensures limiter.Valid() && table' == limiter.Slots()
    ensures next.Continue? ==>
              i < k && Progress(outcome, cfg, ip, script, i + 1, sent', verdicts', limiter.initialized, table', init0, table0)
    ensures next.Stop? ==>
              Final(outcome, cfg, ip, script, sent', next.close, next.served, verdicts', limiter.initialized, table', init0, table0)
  {
    assert script[..i + 1] == script[..i] + [script[i]];
    var limited;
    limited, table' := RateCheck(limiter, cfg, ip, script[i], init0, table0, table, script[..i], verdicts, script[..i + 1]);
    verdicts' := verdicts + [limited];
    sent', next := Respond(cfg, fs, ip, script, i, limited, sent, formatDate, compressor, outcome, k);
    assert verdicts'[..i] == verdicts && verdicts'[..i + 1] == verdicts';
  }

  /**
   * `handle_client`. `served` turns were answered; a limited client gets one
   * more transmission, the refusal (see `Final`). The script holds a turn
   * whose receive ends the connection: a client that keeps sending
   * keep-alive requests within the receive timeout is left out.
   */
  method HandleClient(limiter: RateLimiter, cfg: Config, peer: string, fs: FileSystem, script: seq<Turn>,
                      formatDate: int -> string, compressor: string -> Option<string>,
                      ghost outcome: Turn -> Exchanged)
    returns (sent: seq<Transmission>, close: Close, served: nat, ghost verdicts: seq<bool>)
    requires limiter.Valid()
    requires exists k :: 0 <= k < |script| && script[k].recv.code <= 0
    requires Describes(outcome, cfg, fs, Truncate(peer, CLIENT_IP_CAPACITY), formatDate, compressor)
    modifies limiter, limiter.ips, limiter.stamps, limiter.indices, limiter.counts
    ensures limiter.Valid()
    ensures Final(outcome, cfg, Truncate(peer, CLIENT_IP_CAPACITY), script, sent, close, served, verdicts,
                  limiter.initialized, limiter.Slots(), old(limiter.initialized), old(limiter.Slots()))
  {
    var ip := Truncate(peer, CLIENT_IP_CAPACITY);
    ghost var k :| 0 <= k < |script| && script[k].recv.code <= 0;
    ghost var init0 := limiter.initialized;
    ghost var table0 := limiter.Slots();
    ghost var table := table0;
    sent := [];
    verdicts := [];
    var i := 0;
    assert script[..0] == [];
    while true
      invariant 0 <= i <= k
      invariant limiter.Valid() && table == limiter.Slots()
      invariant init0 == old(limiter.initialized) && table0 == old(limiter.Slots())
      invariant Progress(outcome, cfg, ip, script, i, sent, verdicts, limiter.initialized, table, init0, table0)
      decreases k - i
    {
      var next;
      sent, next, verdicts, table := Pass(limiter, cfg, fs, ip, script, i, sent, formatDate, compressor,
                                          outcome, k, verdicts, init0, table0, table);
      if next.Stop? {
        return sent, next.close, next.served, verdicts;
      }
      i := i + 1;
    }
  }

  /** A connection whose limiting is disabled is never refused. */
  lemma DisabledNeverRefuses(outcome: Turn -> Exchanged, cfg: Config, ip: string, script: seq<Turn>,
                             sent: seq<Transmission>, close: Close, served: nat, verdicts: seq<bool>,
                             initialized: bool, table: seq<Slot>, init0: bool, table0: seq<Slot>)
    requires |table| == TABLE_SIZE && |table0| == TABLE_SIZE
    requires forall g :: 0 <= g < TABLE_SIZE ==> SlotValid(table0[g])
    requires Final(outcome, cfg, ip, script, sent, close, served, verdicts, initialized, table, init0, table0)
    requires !cfg.enableRateLimit
    ensures close != RateLimited && initialized == init0 && table == table0
  {
  }

  // ---------------------------------------------------------------------
  // What the connection sends

  /** The j-th transmission of a conversation answers the j-th turn. */
  lemma {:induction false} RepliesAt(outcome: Turn -> Exchanged, turns: seq<Turn>, j: nat)
    requires j < |turns|
    ensures Replies(outcome, turns)[j] == outcome(turns[j]).reply
    decreases |turns|
  {
    var n := |turns| - 1;
    if j < n {
      RepliesAt(outcome, turns[..n], j);
    }
  }

  /** A conversation was kept alive exactly when every one of its turns parsed and asked for keep-alive. */
  lemma {:induction false} KeptAliveIff(outcome: Turn -> Exchanged, turns: seq<Turn>)
    ensures KeptAlive(outcome, turns) <==>
            forall j :: 0 <= j < |turns| ==> outcome(turns[j]).code == 1 && outcome(turns[j]).keepAlive
    decreases |turns|
  {
    if turns != [] {
      var n := |turns| - 1;
      KeptAliveIff(outcome, turns[..n]);
      assert forall j :: 0 <= j < n ==> turns[..n][j] == turns[j];
    }
  }

  /**
   * A served turn's response says `Connection: keep-alive` exactly when its
   * request asked to keep the connection, which is when the loop goes on.
   */
  lemma ServedConnectionHeader(cfg: Config, fs: FileSystem, ip: string, turn: Turn,
                               formatDate: int -> string, compressor: string -> Option<string>)
    ensures var x := Outcome(cfg, fs, ip, turn, formatDate, compressor);
            HeaderValue(x.reply.fields, "Connection") == Some(if x.keepAlive then "keep-alive" else "close")
  {
    var req := ParseSpec(turn.recv, ip).1;
    var resp := HandleHttpRequest(req, cfg.docRoot, fs);
    ConnectionField(cfg, resp, Some(req), formatDate(turn.sendTime), turn.sendTime, compressor);
  }

  lemma RefusalNumerals()
    ensures Decimal(429) == "429" && Decimal(42) == "42"
  {
    assert NatToString(42, 10) == NatToString(4, 10) + [DigitChar(2)];
    assert NatToString(429, 10) == NatToString(42, 10) + [DigitChar(9)];
  }

  /** The refusal's status line is `HTTP/1.1 429 Too Many Requests`. */
  lemma RefusalStatusLine(cfg: Config, turn: Turn, formatDate: int -> string, compressor: string -> Option<string>)
    ensures Refuse(cfg, turn, formatDate, compressor).statusLine == "HTTP/1.1 429 Too Many Requests"
  {
    var line := StatusLine(RateLimitResponse());
    assert line == "HTTP/1.1 429 Too Many Requests" by {
      RefusalNumerals();
      assert line == "HTTP/1.1 " + "429" + " " + "Too Many Requests";
    }
  }

  /** The refusal carries the 42-byte message, uncompressed, with a matching length. */
  lemma RefusalBody(cfg: Config, turn: Turn, formatDate: int -> string, compressor: string -> Option<string>)
    ensures var t := Refuse(cfg, turn, formatDate, compressor);
            && t.payload == RATE_LIMIT_MESSAGE
            && HeaderValue(t.fields, "Content-Length") == Some("42")
            && HeaderValue(t.fields, "Content-Encoding").None?
  {
    GzipUse(cfg, RateLimitResponse(), None, formatDate(turn.sendTime), turn.sendTime, compressor);
    RefusalNumerals();
  }

  /** The refusal is plain text, not to be cached, and closes the connection. */
  lemma RefusalPolicy(cfg: Config, turn: Turn, formatDate: int -> string, compressor: string -> Option<string>)
    ensures var t := Refuse(cfg, turn, formatDate, compressor);
            && HeaderValue(t.fields, "Content-Type") == Some("text/plain")
            && HeaderValue(t.fields, "Cache-Control") == Some("no-store")
            && HeaderValue(t.fields, "Connection") == Some("close")
  {
    var r := RateLimitResponse();
    var date := formatDate(turn.sendTime);
    ContentTypeSent(cfg, r, None, date, turn.sendTime, compressor);
    NoStoreUnlessOk(cfg, r, None, date, turn.sendTime, compressor);
    ConnectionField(cfg, r, None, date, turn.sendTime, compressor);
  }

  /**
   * A client that sends back the validator of a 200 response as
   * If-None-Match gets 304 for that file only when the length and the clock
   * of the 200 equal the file's size and modification time (the clock modulo
   * 2^64): the response's validator is built from the sending clock while
   * the handler compares the file's modification time.
   */
  lemma EchoedValidator(cfg: Config, resp: Response, request: Option<Request>, date: string, now: int,
                        compressor: string -> Option<string>, f: FileInfo)
    requires WellFormed(resp) && resp.statusCode == 200
    ensures var t := SendHttpResponse(cfg, resp, request, date, now, compressor);
            && HeaderValue(t.fields, "ETag").Some?
            && (ValidatorMatches(HeaderValue(t.fields, "ETag").value, f) <==>
                  resp.contentLength == f.size && Unsigned64(now) == Unsigned64(f.mtime))
  {
    OkCachePolicy(cfg, resp, request, date, now, compressor);
    ValidatorInValidator(resp.contentLength, now, f.size, f.mtime);
  }

  /** A handled request's response is framed, given a Date text without line breaks. */
  lemma ServedFramed(cfg: Config, fs: FileSystem, req: Request, date: string, now: int,
                     compressor: string -> Option<string>)
    requires NoLineBreak(date)
    ensures Framed(SendHttpResponse(cfg, HandleHttpRequest(req, cfg.docRoot, fs), Some(req), date, now, compressor))
  {
    var resp := HandleHttpRequest(req, cfg.docRoot, fs);
    StatusTextSingleLine(resp.statusCode);
    MimeSingleLine(resp.contentType);
    SendFraming(cfg, resp, Some(req), date, now, compressor);
  }

  /** The refusal is framed, given a Date text without line breaks. */
  lemma RefusalFramed(cfg: Config, turn: Turn, formatDate: int -> string, compressor: string -> Option<string>)
    requires NoLineBreak(formatDate(turn.sendTime))
    ensures Framed(Refuse(cfg, turn, formatDate, compressor))
  {
    RefusalWordsSingleLine();
    SendFraming(cfg, RateLimitResponse(), None, formatDate(turn.sendTime), turn.sendTime, compressor);
  }

  lemma RefusalWordsSingleLine()
    ensures NoLineBreak(RateLimitResponse().statusText) && NoLineBreak(RateLimitResponse().contentType)
  {
    assert NoLineBreak("Too Many Requests");
    assert NoLineBreak("text/plain");
  }

  /**
   * Both what a served turn sends and what a limited turn sends are framed,
   * given a Date text without line breaks.
   */
  lemma OutcomeFramed(cfg: Config, fs: FileSystem, ip: string, turn: Turn,
                      formatDate: int -> string, compressor: string -> Option<string>)
    requires NoLineBreak(formatDate(turn.sendTime))
    ensures var x := Outcome(cfg, fs, ip, turn, formatDate, compressor);
            Framed(x.reply) && Framed(x.refusal)
  {
    var (code, req) := ParseSpec(turn.recv, ip);
    ServedFramed(cfg, fs, req, formatDate(turn.sendTime), turn.sendTime, compressor);
    RefusalFramed(cfg, turn, formatDate, compressor);
  }
}
