/** The GET and validation protocol. One step takes a parsed request, a clock and whatever the
    origin server answers, and changes the cache and answers the client. */
module Proxy {
  import opened Bytes
  import opened Messages
  import opened Parser
  import opened Options
  import opened Lru
  import opened Headers
  import opened Directives
  import opened Freshness
  import Image
  import Reprint

  type Cache = List<string, Entry>

  /** What one round trip to the origin server brings. */
  datatype Reply = NoReply | Reply(bytes: string)

  /** A GET: the clock is read at the lookup and again when the answer is there, and `clientWritable`
      says whether all of the answer can be written to the client. */
  datatype Get = Get(request: Request, now: int, reply: Reply, later: int, clientWritable: bool)

  /** What the client is sent. `Failed` is an exception, at whatever point: the connection closes
      without a complete answer. */
  datatype Sent = Failed | FromCache(bytes: string) | Forwarded(bytes: string)

  /** What a step stores under the requested URI. */
  datatype Effect = Nothing | Stored(entry: Entry) | Merged(entry: Entry, news: seq<Header>)

  /** `http_response_parse` on a whole buffer. */
  function ParseResponse(bytes: string): Option<Response> {
    var r := Parse(ResponseStart(), bytes);
    if r.outcome.ParsingCompleted? then Some(r.conf.msg) else None
  }

  function ParseRequest(bytes: string): Option<Request> {
    var r := Parse(RequestStart(), bytes);
    if r.outcome.ParsingCompleted? then Some(r.conf.msg) else None
  }

  /** The parse went through chunked mode. */
  predicate ParsedChunked(bytes: string) {
    Parse(ResponseStart(), bytes).conf.chunked
  }

  predicate TextForbids(cacheControl: string) {
    Contains(cacheControl, "no-store") || Contains(cacheControl, "private")
  }

  predicate ForbidsStoring(m: Message) {
    TextForbids(CacheControl(m))
  }

  /** `response_may_store`. */
  predicate MayStore(m: Response) {
    && m.start.code == 200
    && !ForbidsStoring(m)
    && (|| CacheControl(m) != ""
        || HeaderValueOf(m.headers, "Expires") != ""
        || HeaderValueOf(m.headers, "ETag") != ""
        || HeaderValueOf(m.headers, "Last-Modified") != "")
  }

  /** `response_need_validate || request_require_validate`; None when freshness throws. */
  function NeedsValidation(e: Entry, req: Message, date: DateOf, now: int): Option<bool> {
    match IsFresh(e, req, date, now)
    case None => None
    case Some(isFresh) =>
      Some(!isFresh || Contains(CacheControl(e.response), "no-cache") || Contains(CacheControl(req), "no-cache"))
  }

  /** `get_from_server`. Computing the lifetime for the log can throw before anything is stored. */
  function Fetch(g: Get, date: DateOf): (Effect, Sent) {
    if !HasName(g.request.headers, "Host") || g.reply.NoReply? then (Nothing, Failed)
    else if Contains(g.reply.bytes, "chunked") then (Nothing, Forwarded(g.reply.bytes))
    else
      match ParseResponse(g.reply.bytes)
      case None => (Nothing, Failed)
      case Some(m) =>
        if !MayStore(m) || Contains(CacheControl(g.request), "no-store") then (Nothing, Forwarded(g.reply.bytes))
        else if !Contains(CacheControl(m), "no-cache") && FreshnessLifetime(m, g.request, date) == None
        then (Nothing, Failed)
        else (Stored(Entry(m, g.later)), Forwarded(g.reply.bytes))
  }

  /** `validation` of the cached entry `e`. */
  function Validate(e: Entry, g: Get): (Effect, Sent) {
    if !HasName(g.request.headers, "Host") || g.reply.NoReply? then (Nothing, Failed)
    else
      match ParseResponse(g.reply.bytes)
      case None => (Nothing, Failed)
      case Some(m) =>
        if m.start.code == 304 then
          var r: Response := e.response.(headers := Freshen(e.response.headers, m.headers));
          (Merged(Entry(r, g.later), m.headers), FromCache(Print(r)))
        else if m.start.code == 200 then (Stored(Entry(m, g.later)), Forwarded(g.reply.bytes))
        else (Nothing, Forwarded(g.reply.bytes))
  }

  /** What there is to do and to send, given the entry found. */
  function Answer(found: Option<Entry>, g: Get, date: DateOf): (Effect, Sent) {
    match found
    case None => Fetch(g, date)
    case Some(e) =>
      match NeedsValidation(e, g.request, date, g.now)
      case None => (Nothing, Failed)
      case Some(true) => Validate(e, g)
      case Some(false) => (Nothing, FromCache(Print(e.response)))
  }

  /** `send_to` throws when the client takes less than everything. */
  function Delivered(g: Get, sent: Sent): Sent {
    if g.clientWritable then sent else Failed
  }

  /** `http_get`. Whatever is stored is stored before the client is written to, so a client that
      cannot be written to makes the request fail but takes nothing back. */
  function Decide(found: Option<Entry>, g: Get, date: DateOf): (Effect, Sent) {
    var answer := Answer(found, g, date);
    (answer.0, Delivered(g, answer.1))
  }

  function Apply(cache: Cache, capacity: nat, uri: string, effect: Effect): Cache {
    match effect
    case Nothing => cache
    case Stored(e) => Add(cache, capacity, uri, e)
    case Merged(e, _) => Overwrite(cache, uri, e)
  }

  /** One GET: the lookup moves a found entry to the front before anything is decided. */
  function Serve(cache: Cache, capacity: nat, g: Get, date: DateOf): Cache {
    var uri := g.request.start.uri;
    Apply(Touch(cache, uri), capacity, uri, Decide(Lookup(cache, uri), g, date).0)
  }

  function After(capacity: nat, gets: seq<Get>, date: DateOf): Cache {
    if gets == [] then []
    else Serve(After(capacity, gets[..|gets| - 1], date), capacity, gets[|gets| - 1], date)
  }

  // ---- the conditional request ---------------------------------------------------------------------

  /** `construct_conditional_request`. */
  function ConditionalRequest(req: Request, resp: Response): Request {
    var modified, etag := HeaderValueOf(resp.headers, "Last-Modified"), HeaderValueOf(resp.headers, "ETag");
    Message(req.start, req.versionMajor, req.versionMinor,
            [Header("Host", HeaderValueOf(req.headers, "Host"))]
            + (if modified != "" then [Header("If-Modified-Since", modified)] else [])
            + (if etag != "" then [Header("If-None-Match", etag)] else []),
            "", false)
  }

  /** What it has to be: the client's request line, its Host, and each validator of the cached response,
      if it has one, under the name by which an origin server compares it (section 3 of RFC 7232);
      each once, and nothing else. */
  ghost predicate IsConditional(c: Message, req: Message, resp: Message) {
    && c.start == req.start && c.versionMajor == req.versionMajor && c.versionMinor == req.versionMinor && c.content == ""
    && (forall i :: 0 <= i < |c.headers| ==> IsFirst(c.headers, i))
    && (forall x :: HasName(c.headers, x) <==>
                      || x == "Host"
                      || (x == "If-Modified-Since" && HeaderValueOf(resp.headers, "Last-Modified") != "")
                      || (x == "If-None-Match" && HeaderValueOf(resp.headers, "ETag") != ""))
    && HeaderValueOf(c.headers, "Host") == HeaderValueOf(req.headers, "Host")
    && HeaderValueOf(c.headers, "If-Modified-Since") == HeaderValueOf(resp.headers, "Last-Modified")
    && HeaderValueOf(c.headers, "If-None-Match") == HeaderValueOf(resp.headers, "ETag")
  }

  lemma ConditionalNamesDiffer()
    ensures "Host" != "If-Modified-Since" && "Host" != "If-None-Match" && "If-Modified-Since" != "If-None-Match"
  {
    assert "Host"[0] != "If-Modified-Since"[0] && "If-Modified-Since"[3] != "If-None-Match"[3];
  }

  lemma LookupCons(h: Header, hs: seq<Header>, x: string)
    ensures HeaderValueOf([h] + hs, x) == if h.name == x then h.value else HeaderValueOf(hs, x)
    ensures HasName([h] + hs, x) <==> h.name == x || HasName(hs, x)
  {
    assert ([h] + hs)[1..] == hs;
    HasNameCons(h, hs, x);
  }

  /** A header that is there only with a value. */
  function Maybe(name: string, value: string): seq<Header> {
    if value != "" then [Header(name, value)] else []
  }

  lemma LookupMaybe(name: string, value: string, hs: seq<Header>, x: string)
    ensures HasName(Maybe(name, value) + hs, x) <==> (value != "" && x == name) || HasName(hs, x)
    ensures HeaderValueOf(Maybe(name, value) + hs, x) == if value != "" && x == name then value else HeaderValueOf(hs, x)
  {
    hide HasName, HeaderValueOf;
    if value != "" {
      LookupCons(Header(name, value), hs, x);
    } else {
      assert [] + hs == hs;
    }
  }

  lemma ConditionalLookups(req: Request, resp: Response, x: string)
    ensures var hs, modified, etag := ConditionalRequest(req, resp).headers, HeaderValueOf(resp.headers, "Last-Modified"),
                                      HeaderValueOf(resp.headers, "ETag");
            && (HasName(hs, x) <==>
                  x == "Host" || (x == "If-Modified-Since" && modified != "") || (x == "If-None-Match" && etag != ""))
            && (x == "Host" ==> HeaderValueOf(hs, x) == HeaderValueOf(req.headers, "Host"))
            && (x == "If-Modified-Since" ==> HeaderValueOf(hs, x) == modified)
            && (x == "If-None-Match" ==> HeaderValueOf(hs, x) == etag)
  {
    var host := Header("Host", HeaderValueOf(req.headers, "Host"));
    var modified, etag := HeaderValueOf(resp.headers, "Last-Modified"), HeaderValueOf(resp.headers, "ETag");
    var m, n := Maybe("If-Modified-Since", modified), Maybe("If-None-Match", etag);
    assert ConditionalRequest(req, resp).headers == [host] + (m + (n + []));
    hide HeaderValueOf, HasName, Maybe, ConditionalRequest;
    ConditionalNamesDiffer();
    LookupCons(host, m + (n + []), x);
    LookupMaybe("If-Modified-Since", modified, n + [], x);
    LookupMaybe("If-None-Match", etag, [], x);
    NoHeaders(x);
  }

  lemma ConditionalOnce(req: Request, resp: Response)
    ensures var hs := ConditionalRequest(req, resp).headers; forall i :: 0 <= i < |hs| ==> IsFirst(hs, i)
  {
    hide HeaderValueOf;
    ConditionalNamesDiffer();
  }

  /** The built request is what it has to be, for every request and every response. */
  lemma ConditionalRequestMeaning(req: Request, resp: Response)
    ensures IsConditional(ConditionalRequest(req, resp), req, resp)
  {
    hide HeaderValueOf, HasName, IsFirst;
    forall x ensures HasName(ConditionalRequest(req, resp).headers, x) <==>
                     || x == "Host"
                     || (x == "If-Modified-Since" && HeaderValueOf(resp.headers, "Last-Modified") != "")
                     || (x == "If-None-Match" && HeaderValueOf(resp.headers, "ETag") != "") {
      ConditionalLookups(req, resp, x);
    }
    ConditionalLookups(req, resp, "Host");
    ConditionalLookups(req, resp, "If-Modified-Since");
    ConditionalLookups(req, resp, "If-None-Match");
    ConditionalOnce(req, resp);
  }

  lemma {:induction false} LookedUpValueIsClean(hs: seq<Header>, name: string)
    requires AreHeaders(hs)
    ensures NoControls(HeaderValueOf(hs, name))
  {
    if hs != [] {
      assert IsHeader(hs[0]);
      assert forall i :: 0 <= i < |hs[1..]| ==> hs[1..][i] == hs[i + 1];
      LookedUpValueIsClean(hs[1..], name);
    }
  }

  lemma {:induction false} FirstIsLookedUp(hs: seq<Header>, i: nat)
    requires i < |hs| && IsFirst(hs, i)
    ensures HeaderValueOf(hs, hs[i].name) == hs[i].value && HasName(hs, hs[i].name)
  {
    if i > 0 {
      assert hs[1..][i - 1] == hs[i] && forall j :: 0 <= j < i - 1 ==> hs[1..][j] == hs[j + 1];
      FirstIsLookedUp(hs[1..], i - 1);
    }
  }

  lemma ParsedIsPrintable(start: Conf, bytes: string)
    requires start == RequestStart() || start == ResponseStart()
    requires Parse(start, bytes).outcome.ParsingCompleted?
    ensures IsPrintable(Parse(start, bytes).conf.msg)
    ensures !Parse(start, bytes).conf.chunked ==> IsWellFramed(Parse(start, bytes).conf.msg)
  {
    hide Parse, Consume, IsPrintable, IsWellFramed, HasItsKeepAlive;
    assert Image.Inv(start) by { Reprint.StartsInv(); }
    Image.ParseKeepsInv(start, bytes);
  }

  lemma LiteralNamesAreTokens()
    ensures IsToken("Host") && IsToken("If-Modified-Since") && IsToken("If-None-Match")
  {
    hide IsToken;
    PlainTextIsToken("Host");
    PlainTextIsToken("If-Modified-Since");
    PlainTextIsToken("If-None-Match");
  }

  lemma ConditionalHeadersAreHeaders(c: Message, req: Message, resp: Message)
    requires IsConditional(c, req, resp) && AreHeaders(req.headers) && AreHeaders(resp.headers)
    ensures AreHeaders(c.headers)
  {
    hide AreHeaders, HeaderValueOf, HasName, IsFirst, IsToken, NoControls;
    LookedUpValueIsClean(req.headers, "Host");
    LookedUpValueIsClean(resp.headers, "Last-Modified");
    LookedUpValueIsClean(resp.headers, "ETag");
    LiteralNamesAreTokens();
    forall i | 0 <= i < |c.headers| ensures IsHeader(c.headers[i]) {
      FirstIsLookedUp(c.headers, i);
    }
    HeadersEach(c.headers);
  }

  lemma HeadersEach(hs: seq<Header>)
    requires forall i :: 0 <= i < |hs| ==> IsHeader(hs[i])
    ensures AreHeaders(hs)
  {
  }

  /** Sent to an origin server, such a request for a parsed GET and a parsed response is parsed as
      itself: method, URI, version and headers, all of it and nothing after it. */
  lemma ConditionalRequestReadsBack(c: Request, reqBytes: string, respBytes: string)
    requires ParseRequest(reqBytes).Some? && ParseResponse(respBytes).Some?
    requires ParseRequest(reqBytes).value.start.verb == "GET"
    requires IsConditional(c, ParseRequest(reqBytes).value, ParseResponse(respBytes).value)
    ensures Reprint.ReadsBack(c)
  {
    hide Parse, Consume, IsStartLine, AreHeaders, HeaderValueOf, HasName, IsFirst, Reprint.ReadsBack;
    var req, resp := ParseRequest(reqBytes).value, ParseResponse(respBytes).value;
    ParsedIsPrintable(RequestStart(), reqBytes);
    ParsedIsPrintable(ResponseStart(), respBytes);
    ConditionalHeadersAreHeaders(c, req, resp);
    assert IsPrintable(c) by { SameStartLine(req, c); }
    GetIsWellFramed(c);
    Reprint.ReadsBackIff(c);
  }

  lemma SameStartLine(a: Message, b: Message)
    requires IsStartLine(a) && a.start == b.start
    ensures IsStartLine(b)
  {
  }

  lemma GetIsWellFramed(m: Request)
    requires m.start.verb == "GET" && m.content == ""
    ensures IsWellFramed(m)
  {
    assert "GET" != "PUT" by { assert "GET"[0] != "PUT"[0]; }
  }

  // ---- decisions in terms of the Cache-Control texts -------------------------------------------------

  /** Some piece of the Cache-Control text contains the word. */
  predicate Says(m: Message, word: string) {
    SomeContains(Pieces(CacheControl(m)), word)
  }

  lemma SaysIff(m: Message, word: string)
    requires IsFlag(word)
    ensures Contains(CacheControl(m), word) <==> Says(m, word)
  {
    hide Contains, CacheControl, SomeContains, IsFlag;
    FlagIsWord(word);
    ContainsIsInPiece(CacheControl(m), word);
  }

  /** A first answer to be stored: a 200 that says neither no-store nor private and has something to go
      by, for a request that does not say no-store, whose lifetime can be read if it is going to be
      used. */
  predicate IsStorable(m: Response, req: Request, date: DateOf) {
    && m.start.code == 200
    && !Says(m, "no-store") && !Says(m, "private") && !Says(req, "no-store")
    && (|| CacheControl(m) != ""
        || HeaderValueOf(m.headers, "Expires") != ""
        || HeaderValueOf(m.headers, "ETag") != ""
        || HeaderValueOf(m.headers, "Last-Modified") != "")
    && (Says(m, "no-cache") || FreshnessLifetime(m, req, date).Some?)
  }

  lemma FetchStoresIff(g: Get, date: DateOf, m: Response)
    requires HasName(g.request.headers, "Host") && g.reply.Reply? && !Contains(g.reply.bytes, "chunked")
    requires ParseResponse(g.reply.bytes) == Some(m)
    ensures Fetch(g, date).0 == if IsStorable(m, g.request, date) then Stored(Entry(m, g.later)) else Nothing
  {
    hide ParseResponse, Contains, Says, FreshnessLifetime, HeaderValueOf, HasName;
    SaysIff(m, "no-store");
    SaysIff(m, "private");
    SaysIff(m, "no-cache");
    SaysIff(g.request, "no-store");
  }

  /** A cached entry is validated exactly when it has gone stale for the request or either side says
      no-cache in some piece of its Cache-Control, whatever these texts are; it throws exactly when
      there is no moment at which it goes stale. */
  lemma ValidatesIff(e: Entry, req: Message, date: DateOf, now: int)
    ensures NeedsValidation(e, req, date, now) ==
            match StaleFrom(e, req, date)
            case None => None
            case Some(stale) => Some(now >= stale || Says(e.response, "no-cache") || Says(req, "no-cache"))
  {
    hide Contains, Says, IsFresh, StaleFrom;
    FreshIsBeforeThreshold(e, req, date, now, now);
    SaysIff(e.response, "no-cache");
    SaysIff(req, "no-cache");
  }

  // ---- when a step takes effect ------------------------------------------------------------------------

  /** The answer of the origin server, if the request gets that far. */
  function AnswerTo(g: Get): Option<Response> {
    if !HasName(g.request.headers, "Host") || g.reply.NoReply? then None else ParseResponse(g.reply.bytes)
  }

  /** Without an entry, a storable answer that does not mention chunked; with one that needs validation,
      an answer with code 200 or 304. */
  predicate TakesEffect(found: Option<Entry>, g: Get, date: DateOf) {
    && AnswerTo(g).Some?
    && match found
       case None => !Contains(g.reply.bytes, "chunked") && IsStorable(AnswerTo(g).value, g.request, date)
       case Some(e) => NeedsValidation(e, g.request, date, g.now) == Some(true) && AnswerTo(g).value.start.code in {200, 304}
  }

  /** A 304 about an entry that is there. */
  predicate IsFreshening(found: Option<Entry>, g: Get) {
    found.Some? && AnswerTo(g).Some? && AnswerTo(g).value.start.code == 304
  }

  /** What the URI holds after a step that takes effect. */
  function NewEntry(found: Option<Entry>, g: Get): Entry
    requires AnswerTo(g).Some?
  {
    var m := AnswerTo(g).value;
    if IsFreshening(found, g) then
      var r: Response := found.value.response.(headers := Freshen(found.value.response.headers, m.headers));
      Entry(r, g.later)
    else Entry(m, g.later)
  }

  /** When a step has an effect, and which one, from what is cached, asked and answered. */
  lemma EffectIff(found: Option<Entry>, g: Get, date: DateOf)
    ensures Answer(found, g, date).0 ==
            if !TakesEffect(found, g, date) then Nothing
            else if IsFreshening(found, g) then Merged(NewEntry(found, g), AnswerTo(g).value.headers)
            else Stored(NewEntry(found, g))
  {
    hide ParseResponse, Contains, HasName, NeedsValidation, CacheControl, IsStorable, Freshen;
    if found.Some? {
      hide MayStore, FreshnessLifetime;
    } else if AnswerTo(g).Some? && !Contains(g.reply.bytes, "chunked") {
      FetchStoresIff(g, date, AnswerTo(g).value);
    }
  }

  // ---- what the client is sent ---------------------------------------------------------------------

  /** A first answer that would be stored, were its lifetime not unreadable. */
  predicate LifetimeThrows(m: Response, req: Request, date: DateOf) {
    && m.start.code == 200
    && !Says(m, "no-store") && !Says(m, "private") && !Says(req, "no-store") && !Says(m, "no-cache")
    && (|| CacheControl(m) != ""
        || HeaderValueOf(m.headers, "Expires") != ""
        || HeaderValueOf(m.headers, "ETag") != ""
        || HeaderValueOf(m.headers, "Last-Modified") != "")
    && FreshnessLifetime(m, req, date).None?
  }

  /** The client gets the very bytes of the origin server: those of a first answer that mentions
      chunked, or parses and does not throw, and those of the answer to a validation, unless it is a
      304. */
  predicate IsForwarded(found: Option<Entry>, g: Get, date: DateOf) {
    && HasName(g.request.headers, "Host") && g.reply.Reply?
    && var m := ParseResponse(g.reply.bytes);
       match found
       case None => Contains(g.reply.bytes, "chunked") || (m.Some? && !LifetimeThrows(m.value, g.request, date))
       case Some(e) => NeedsValidation(e, g.request, date, g.now) == Some(true) && m.Some? && m.value.start.code != 304
  }

  /** The client gets the entry that was found, as it is or as a 304 made it. */
  predicate IsShown(found: Option<Entry>, g: Get, date: DateOf) {
    && found.Some?
    && match NeedsValidation(found.value, g.request, date, g.now)
       case None => false
       case Some(needed) => needed ==> IsFreshening(found, g)
  }

  /** What the client is sent, from the entry found, the request and the answer: the origin's bytes, or
      the printed entry, or nothing. */
  function SentFor(found: Option<Entry>, g: Get, date: DateOf): Sent {
    if !g.clientWritable then Failed
    else if IsForwarded(found, g, date) then Forwarded(g.reply.bytes)
    else if IsShown(found, g, date) then
      if NeedsValidation(found.value, g.request, date, g.now) == Some(true) then FromCache(Print(NewEntry(found, g).response))
      else FromCache(Print(found.value.response))
    else Failed
  }

  lemma FirstAnswerIff(g: Get, date: DateOf)
    ensures Delivered(g, Fetch(g, date).1) == SentFor(None, g, date)
  {
    hide ParseResponse, Contains, HasName, HeaderValueOf, FreshnessLifetime, Says, NeedsValidation;
    if AnswerTo(g).Some? {
      var m := AnswerTo(g).value;
      SaysIff(m, "no-store");
      SaysIff(m, "private");
      SaysIff(m, "no-cache");
      SaysIff(g.request, "no-store");
    }
  }

  lemma SentIff(found: Option<Entry>, g: Get, date: DateOf)
    ensures Decide(found, g, date).1 == SentFor(found, g, date)
  {
    match found
    case None =>
      hide IsForwarded, IsShown, SentFor, Fetch;
      FirstAnswerIff(g, date);
    case Some(e) =>
      hide ParseResponse, Contains, HasName, NeedsValidation, Freshen, Print, LifetimeThrows;
  }
}
