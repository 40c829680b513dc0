/** The proxy as an object over the linked-list cache. Its methods follow `http_get` and what it
    calls, and are proved to do what the protocol in `Proxy` says. */
module ProxyObject {
  import opened Messages
  import opened Parser
  import opened ParserObject
  import opened Options
  import opened Lru
  import opened Headers
  import opened Directives
  import opened Freshness
  import opened Proxy
  import CacheObject

  /** `http_response_parse`: a fresh parser fills a fresh record from the whole buffer. */
  method HttpResponseParse(buffer: string) returns (parsed: Option<Response>)
    ensures parsed == ParseResponse(buffer)
  {
    hide Parse;
    var rec := new Record(EMPTY_RESPONSE);
    var parser := new HttpParser.ForResponses();
    assert Valid(parser.Snapshot(rec));
    var outcome, _ := parser.ParseBuffer(rec, buffer);
    if !outcome.ParsingCompleted? {
      return None;
    }
    return Some(rec.Value());
  }

  class Server {
    const cache: CacheObject.Cache<Entry>
    const date: DateOf

    constructor (capacity: nat, date: DateOf)
      ensures cache.Valid() && fresh(cache) && fresh(cache.Repr)
      ensures cache.Contents() == After(capacity, [], date) && cache.capacity == capacity && this.date == date
    {
      this.cache := new CacheObject.Cache<Entry>(capacity);
      this.date := date;
    }

    /** `send_to` the client. */
    method SendTo(g: Get, answer: Sent) returns (sent: Sent)
      ensures sent == Delivered(g, answer)
    {
      if !g.clientWritable {
        return Failed;
      }
      return answer;
    }

    method SendCached(g: Get, entry: Entry) returns (sent: Sent)
      ensures sent == Delivered(g, FromCache(Print(entry.response)))
    {
      var rec := new Record(entry.response);
      var data := rec.Inspect();
      sent := SendTo(g, FromCache(data));
    }

    /** The header section of the conditional request grows one item at a time. */
    method ConstructConditionalRequest(req: Request, resp: Response) returns (conditional: Request)
      ensures conditional == ConditionalRequest(req, resp) && IsConditional(conditional, req, resp)
    {
      ConditionalRequestMeaning(req, resp);
      hide IsConditional;
      var host := GetHeaderValue(req.headers, "Host");
      var headers := [Header("Host", host)];
      var lastModified := GetHeaderValue(resp.headers, "Last-Modified");
      if lastModified != "" {
        headers := headers + [Header("If-Modified-Since", lastModified)];
      }
      var etag := GetHeaderValue(resp.headers, "ETag");
      if etag != "" {
        headers := headers + [Header("If-None-Match", etag)];
      }
      conditional := Message(req.start, req.versionMajor, req.versionMinor, headers, "", false);
    }

    /** `get_from_server`, for a URI that is not cached. The response is stored before it is sent. */
    method GetFromServer(g: Get) returns (sent: Sent)
      requires cache.Valid()
      modifies cache, cache.Repr
      ensures cache.Valid() && fresh(cache.Repr - old(cache.Repr))
      ensures sent == SentFor(None, g, date)
      ensures var d := Fetch(g, date);
              sent == Delivered(g, d.1)
              && cache.Contents() == Apply(old(cache.Contents()), cache.capacity, g.request.start.uri, d.0)
    {
      hide Contains, CacheControl, HasName, FreshnessLifetime, ParseResponse, CacheObject.Cache.Valid,
        CacheObject.Cache.Contents, Add, SentFor;
      FirstAnswerIff(g, date);
      if !HasName(g.request.headers, "Host") || g.reply.NoReply? {
        return Failed;
      }
      var buffer := g.reply.bytes;
      if Contains(buffer, "chunked") {
        sent := SendTo(g, Forwarded(buffer));
        return;
      }
      var parsed := HttpResponseParse(buffer);
      if parsed.None? {
        return Failed;
      }
      var resp := parsed.value;
      if MayStore(resp) && !Contains(CacheControl(g.request), "no-store") {
        if !Contains(CacheControl(resp), "no-cache") {
          var lifetime := CalculateFreshnessLifetime(resp, g.request, date);
          if lifetime.None? {
            return Failed;
          }
        }
        cache.AddResponse(g.request.start.uri, Entry(resp, g.later));
      }
      sent := SendTo(g, Forwarded(buffer));
    }

    /** A 304 freshens the stored headers in place; the entry is then sent. */
    method Freshen304(g: Get, node: CacheObject.Node<Entry>, news: seq<Header>) returns (sent: Sent)
      requires cache.Valid() && node in cache.nodes
      modifies node`value
      ensures cache.Valid()
      ensures var r: Response := old(node.value.response).(headers := Freshen(old(node.value.response.headers), news));
              && cache.Contents() == Overwrite(old(cache.Contents()), node.key, Entry(r, g.later))
              && sent == Delivered(g, FromCache(Print(r)))
    {
      hide Print, CacheObject.Cache.Consistent, CacheObject.Cache.Contents, Overwrite;
      var stored := node.value.response;
      var headers := FreshenHeaders(stored.headers, news);
      cache.StoreThrough(node, Entry(stored.(headers := headers), g.later));
      sent := SendCached(g, Entry(stored.(headers := headers), g.later));
    }

    /** `validation` of the entry the lookup found in `node`; `asked` is what the origin server is
        sent. */
    method Validation(g: Get, node: CacheObject.Node<Entry>) returns (sent: Sent, asked: Option<string>)
      requires cache.Valid() && node in cache.nodes && node.key == g.request.start.uri
      modifies cache, cache.Repr
      ensures cache.Valid() && fresh(cache.Repr - old(cache.Repr))
      ensures var d := Validate(old(node.value), g);
              sent == Delivered(g, d.1)
              && cache.Contents() == Apply(old(cache.Contents()), cache.capacity, g.request.start.uri, d.0)
      ensures NeedsValidation(old(node.value), g.request, date, g.now) == Some(true) ==>
                sent == SentFor(Some(old(node.value)), g, date)
      ensures asked.Some? <==> HasName(g.request.headers, "Host")
      ensures asked.Some? ==>
                exists c: Request :: IsConditional(c, g.request, old(node.value.response)) && asked.value == Print(c)
    {
      hide Contains, HasName, ParseResponse, Print, CacheObject.Cache.Consistent, CacheObject.Cache.Contents, Add,
        Overwrite, Freshen, ConditionalRequest, IsConditional, NeedsValidation, SentFor;
      SentIff(Some(node.value), g, date);
      if !HasName(g.request.headers, "Host") {
        return Failed, None;
      }
      var conditional := ConstructConditionalRequest(g.request, node.value.response);
      var rec := new Record(conditional);
      var message := rec.Inspect();
      asked := Some(message);
      if g.reply.NoReply? {
        return Failed, asked;
      }
      var parsed := HttpResponseParse(g.reply.bytes);
      if parsed.None? {
        return Failed, asked;
      }
      var answer := parsed.value;
      if answer.start.code == 304 {
        cache.NodeIsOwned(node);
        sent := Freshen304(g, node, answer.headers);
        return;
      } else if answer.start.code == 200 {
        cache.AddResponse(g.request.start.uri, Entry(answer, g.later));
      }
      sent := SendTo(g, Forwarded(g.reply.bytes));
    }

    /** `http_get`. */
    method HttpGet(g: Get) returns (sent: Sent)
      requires cache.Valid()
      modifies cache, cache.Repr
      ensures cache.Valid() && fresh(cache.Repr - old(cache.Repr))
      ensures cache.Contents() == Serve(old(cache.Contents()), cache.capacity, g, date)
      ensures sent == SentFor(Lookup(old(cache.Contents()), g.request.start.uri), g, date)
    {
      hide Decide, SentFor, Delivered, Contains, NeedsValidation, Print, Fetch, Validate, CacheObject.Cache.Consistent,
        CacheObject.Cache.Contents, Apply, Touch, Lookup;
      DecideCases(Lookup(cache.Contents(), g.request.start.uri), g);
      ghost var was := cache.Contents();
      var uri := g.request.start.uri;
      var node := cache.GetResponse(uri);
      if node == null {
        MissLeaves(was, uri);
        sent := GetFromServer(g);
      } else {
        var needed := NeedsValidation(node.value, g.request, date, g.now);
        NothingApplied(cache.Contents(), cache.capacity, uri);
        match needed {
          case None => sent := Failed;
          case Some(true) =>
            var answer, _ := Validation(g, node);
            sent := answer;
          case Some(false) => sent := SendCached(g, node.value);
        }
      }
    }

    /** What `http_get` goes by. */
    lemma DecideCases(found: Option<Entry>, g: Get)
      ensures found.None? ==>
                Decide(found, g, date).0 == Fetch(g, date).0 && SentFor(found, g, date) == Delivered(g, Fetch(g, date).1)
      ensures found.Some? ==>
                match NeedsValidation(found.value, g.request, date, g.now)
                case None => Decide(found, g, date).0 == Nothing && SentFor(found, g, date) == Failed
                case Some(false) =>
                  && Decide(found, g, date).0 == Nothing
                  && SentFor(found, g, date) == Delivered(g, FromCache(Print(found.value.response)))
                case Some(true) =>
                  && Decide(found, g, date).0 == Validate(found.value, g).0
                  && SentFor(found, g, date) == Delivered(g, Validate(found.value, g).1)
    {
      hide SentFor, NeedsValidation, Print, Fetch, Validate;
      SentIff(found, g, date);
    }

    lemma MissLeaves(l: Proxy.Cache, uri: string)
      requires !Has(l, uri)
      ensures Touch(l, uri) == l && Lookup(l, uri) == None
    {
    }

    lemma NothingApplied(l: Proxy.Cache, capacity: nat, uri: string)
      ensures Apply(l, capacity, uri, Nothing) == l
    {
    }

    /** Any number of requests, one after another. */
    method ServeAll(gets: seq<Get>)
      requires cache.Valid() && cache.Contents() == After(cache.capacity, [], date)
      modifies cache, cache.Repr
      ensures cache.Valid() && fresh(cache.Repr - old(cache.Repr))
      ensures cache.Contents() == After(cache.capacity, gets, date)
    {
      hide Serve, Decide, CacheObject.Cache.Consistent, CacheObject.Cache.Contents;
      for i := 0 to |gets|
        invariant cache.Valid() && fresh(cache.Repr - old(cache.Repr))
        invariant cache.Contents() == After(cache.capacity, gets[..i], date)
      {
        assert gets[..i + 1][..i] == gets[..i];
        var _ := HttpGet(gets[i]);
      }
      assert gets[..|gets|] == gets;
    }
  }
}
