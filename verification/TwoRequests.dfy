/** Runs of two requests for one URI: a first answer that is cached, then an answer to its validation.
    They are enough to reach what the theorems on runs do not rule out. */
module TwoRequests {
  import opened Bytes
  import opened Messages
  import opened Parser
  import opened Options
  import opened Lru
  import opened Headers
  import opened Directives
  import opened Freshness
  import opened Proxy
  import opened ProxyRuns
  import Reprint

  // ---- the general run ---------------------------------------------------------------------------------

  /** A first answer that is stored, has no lifetime of its own, and no Age or a readable one. */
  predicate IsFirst(g: Get, m: Response, date: DateOf) {
    && HasName(g.request.headers, "Host") && g.reply.Reply?
    && !Contains(g.reply.bytes, "chunked") && ParseResponse(g.reply.bytes) == Some(m)
    && MayStore(m) && !Contains(CacheControl(g.request), "no-store")
    && ExplicitLifetime(m, date).Heuristic? && InitialAge(Entry(m, g.later), date).Some?
  }

  predicate IsSecond(g: Get, m: Response, first: Get) {
    && Uri(g) == Uri(first) && first.later <= g.now
    && HasName(g.request.headers, "Host") && g.reply.Reply? && ParseResponse(g.reply.bytes) == Some(m)
  }

  lemma FirstIsStored(capacity: nat, g: Get, m: Response, date: DateOf)
    requires IsFirst(g, m, date) && capacity > 0
    ensures Lookup(After(capacity, [g], date), Uri(g)) == Some(Entry(m, g.later))
  {
    hide ParseResponse, Contains, CacheControl, HasName, MayStore, ExplicitLifetime, HeaderValueOf, Serve;
    assert [g][..0] == [] && After(capacity, [], date) == [];
    assert EffectOf([], g, date) == Stored(Entry(m, g.later));
    StoredIsThere([], capacity, g, date);
  }

  lemma NoLifetimeIsStale(e: Entry, req: Message, date: DateOf, now: int)
    requires ExplicitLifetime(e.response, date).Heuristic? && InitialAge(e, date).Some?
    requires e.responseTime <= now
    ensures NeedsValidation(e, req, date, now) == Some(true)
  {
    hide ExplicitLifetime, InitialAge, Contains, CacheControl;
    HeuristicIsNeverFresh(e, req, date, now);
  }

  /** The second request finds the first answer stale and validates it. */
  lemma SecondValidates(capacity: nat, first: Get, m: Response, g: Get, n: Response, date: DateOf)
    requires IsFirst(first, m, date) && IsSecond(g, n, first) && capacity > 0
    ensures var cache, e := After(capacity, [first], date), Entry(m, first.later);
            && Lookup(cache, Uri(g)) == Some(e)
            && NeedsValidation(e, g.request, date, g.now) == Some(true)
            && After(capacity, [first, g], date) == Serve(cache, capacity, g, date)
  {
    hide ParseResponse, Contains, CacheControl, HasName, MayStore, ExplicitLifetime, HeaderValueOf, Serve,
      NeedsValidation, Lookup;
    FirstIsStored(capacity, first, m, date);
    NoLifetimeIsStale(Entry(m, first.later), g.request, date, g.now);
    assert [first, g][..1] == [first];
  }

  /** What is cached then, by the status code of the second answer. */
  lemma Outcome(capacity: nat, first: Get, m: Response, g: Get, n: Response, date: DateOf)
    requires IsFirst(first, m, date) && IsSecond(g, n, first) && capacity > 0
    ensures Lookup(After(capacity, [first, g], date), Uri(g)) ==
            if n.start.code == 304 then
              var r: Response := m.(headers := Freshen(m.headers, n.headers));
              Some(Entry(r, g.later))
            else if n.start.code == 200 then Some(Entry(n, g.later))
            else Some(Entry(m, first.later))
  {
    hide HasName, ParseResponse, NeedsValidation, Lookup, Serve, After, Freshen, IsFirst;
    SecondValidates(capacity, first, m, g, n, date);
    assert IsSecond(g, n, first);
    ValidationOutcome(After(capacity, [first], date), capacity, g, date, Entry(m, first.later), n, Uri(g));
  }

  // ---- two runs in particular --------------------------------------------------------------------------

  const ASKED: Request := Message(RequestLine("GET", "/"), 1, 1, [Header("Host", "h")], "", true)

  function Answered(code: nat, headers: seq<Header>, content: string): Response {
    Message(StatusLine(code, "OK"), 1, 1, headers, content, true)
  }

  const FIRST: Response := Answered(200, [Header("ETag", "a"), Header("Content-Length", "2")], "ab")

  /** A GET of "/" at time `at`, answered at once by `m`. */
  function GetAt(at: int, m: Response): Get {
    Get(ASKED, at, Reply(Print(m)), at, true)
  }

  lemma PrintedIsParsed(m: Response)
    requires IsPrintable(m) && IsWellFramed(m) && HasItsKeepAlive(m)
    ensures ParseResponse(Print(m)) == Some(m)
  {
    hide Parse, Print, IsPrintable, IsWellFramed, KeepAliveAfter;
    Reprint.ReadsBackIff(m);
  }

  lemma PlainHeader(name: string, value: string)
    requires name != "" && NoControls(value) && forall i :: 0 <= i < |name| ==> IsAlpha(name[i]) || name[i] == '-'
    ensures IsHeader(Header(name, value))
  {
    PlainTextIsToken(name);
  }

  lemma AnsweredIsPrintable(code: nat, headers: seq<Header>, content: string)
    requires 100 <= code <= 999 && AreHeaders(headers)
    ensures IsPrintable(Answered(code, headers, content))
  {
    hide IsHeader;
  }

  lemma OneHeader(h: Header, x: string)
    ensures HeaderFraming([h]) == AddFraming(Framing(0, false), h)
    ensures HeaderValueOf([h], x) == if h.name == x then h.value else ""
    ensures LastValue([h], x) == if h.name == x then Some(h.value) else None
    ensures !IsConnection(h) ==> KeepAliveAfter([h], 1, 1, false)
  {
    assert [h][..0] == [] && [h][1..] == [];
    assert KeepAliveAfter([], 1, 1, false);
  }

  lemma TwoHeaders(h: Header, k: Header, x: string)
    ensures HeaderFraming([h, k]) == AddFraming(AddFraming(Framing(0, false), h), k)
    ensures HeaderValueOf([h, k], x) == if h.name == x then h.value else if k.name == x then k.value else ""
    ensures !IsConnection(h) && !IsConnection(k) ==> KeepAliveAfter([h, k], 1, 1, false)
  {
    hide AddFraming, IsConnection;
    assert [h, k][..1] == [h] && [h, k][1..] == [k];
    OneHeader(h, x);
    OneHeader(k, x);
  }

  lemma TagFraming()
    ensures !IsConnection(Header("ETag", "a")) && AddFraming(Framing(0, false), Header("ETag", "a")) == Framing(0, false)
  {
  }

  lemma Digit(n: nat)
    requires n < 10
    ensures Decimal(n) == [n as char + '0']
  {
  }

  lemma FirstIsWellFramed()
    ensures IsPrintable(FIRST) && IsWellFramed(FIRST) && HasItsKeepAlive(FIRST)
  {
    hide Decimal, AddFraming, KeepAliveAfter, HeaderFraming, IsConnection;
    var tag, length := Header("ETag", "a"), Header("Content-Length", "2");
    Digit(2);
    assert Decimal(2) == "2";
    TagFraming();
    PrintedLengthCounts(Framing(0, false), 2);
    TwoHeaders(tag, length, "");
    PlainHeader("ETag", "a");
    PlainHeader("Content-Length", "2");
    AnsweredIsPrintable(200, [tag, length], "ab");
  }

  lemma DecimalHasNoLetter(n: nat)
    ensures 'u' !in Decimal(n)
  {
  }

  lemma PrintedHeadersLack(h: Header, k: Header)
    requires 'u' !in h.name && 'u' !in h.value && 'u' !in k.name && 'u' !in k.value
    ensures 'u' !in PrintHeaders([h, k])
  {
    assert [h, k][..1] == [h] && [h][..0] == [];
    assert PrintHeaders([h]) == PrintHeaders([]) + PrintHeader(h);
  }

  lemma FirstLacks()
    ensures !Contains(Print(FIRST), "chunked")
  {
    hide Find, Decimal, PrintHeaders;
    DecimalHasNoLetter(1);
    DecimalHasNoLetter(200);
    PrintedHeadersLack(FIRST.headers[0], FIRST.headers[1]);
    assert 'u' !in PrintStartLine(FIRST);
    FindNeedsEveryChar(Print(FIRST), "chunked", 2);
  }

  lemma NothingInNothing(word: string)
    requires word != ""
    ensures !Contains("", word) && Extract("", word) == Absent
  {
    ShortFind("", word);
  }

  lemma FirstIsFirst(at: int, date: DateOf)
    ensures IsFirst(GetAt(at, FIRST), FIRST, date)
  {
    hide ParseResponse, Print, HeaderValueOf, Extract, Find, IsPrintable, IsWellFramed, HasItsKeepAlive;
    FirstIsWellFramed();
    PrintedIsParsed(FIRST);
    FirstLacks();
    assert ASKED.headers[0].name == "Host";
    var tag, length := FIRST.headers[0], FIRST.headers[1];
    OneHeader(ASKED.headers[0], "Cache-Control");
    TwoHeaders(tag, length, "Cache-Control");
    TwoHeaders(tag, length, "ETag");
    TwoHeaders(tag, length, "Expires");
    TwoHeaders(tag, length, "Age");
    NothingInNothing("no-store");
    NothingInNothing("private");
    NothingInNothing("max-age");
    NothingInNothing("s-maxage");
  }

  /** Both ways in are reached: after a first answer without Cache-Control, a 200 or a 304 that says
      no-store leaves a cached entry that forbids storing. */
  lemma NoStoreIsCached(capacity: nat, code: nat, date: DateOf)
    requires capacity > 0 && code in {200, 304}
    ensures var n := Answered(code, [Header("Cache-Control", "no-store")], "");
            var cached := Lookup(After(capacity, [GetAt(0, FIRST), GetAt(1, n)], date), "/");
            cached.Some? && ForbidsStoring(cached.value.response)
  {
    hide HeaderValueOf, Find, Print, LastValue, Lookup, After, IsFirst, ParseResponse, Freshen, KeepAliveAfter, HeaderFraming,
      IsHeader;
    var h := Header("Cache-Control", "no-store");
    var n := Answered(code, [h], "");
    OneHeader(h, "Cache-Control");
    PlainHeader("Cache-Control", "no-store");
    AnsweredIsPrintable(code, [h], "");
    assert !IsConnection(h) && AddFraming(Framing(0, false), h) == Framing(0, false) by { CacheControlFraming(h); }
    PrintedIsParsed(n);
    FirstIsFirst(0, date);
    assert HasName(ASKED.headers, "Host") by { assert ASKED.headers[0].name == "Host"; }
    Outcome(capacity, GetAt(0, FIRST), FIRST, GetAt(1, n), n, date);
    FreshenedForbidsIff(FIRST, [h]);
    FindItself("no-store");
  }

  lemma CacheControlFraming(h: Header)
    requires h.name == "Cache-Control"
    ensures !IsConnection(h) && AddFraming(Framing(0, false), h) == Framing(0, false)
  {
  }

  lemma FreshenWithOne(hs: seq<Header>, h: Header)
    ensures Freshen(hs, [h]) == Update(hs, h.name, h.value)
  {
    assert [h][..0] == [];
    assert Freshen(hs, []) == hs;
  }

  lemma FreshenedLength(tag: Header, length: Header, value: string)
    requires tag.name == "ETag" && length.name == "Content-Length"
    ensures Freshen([tag, length], [Header("Content-Length", value)]) == [tag, Header("Content-Length", value)]
  {
    FreshenWithOne([tag, length], Header("Content-Length", value));
    assert [tag, length][1..] == [length];
    assert Update([length], "Content-Length", value) == [Header("Content-Length", value)];
  }

  /** A stored response stops reading back when a merged 304 brings a Content-Length that does not fit:
      here two bytes of content are sent, from the cache, under a length of 0. */
  lemma LengthIsMerged(capacity: nat, date: DateOf)
    requires capacity > 0
    ensures var n, r := Answered(304, [Header("Content-Length", "0")], ""),
                        FIRST.(headers := [Header("ETag", "a"), Header("Content-Length", "0")]);
            && Lookup(After(capacity, [GetAt(0, FIRST), GetAt(1, n)], date), "/") == Some(Entry(r, 1))
            && Decide(Lookup(After(capacity, [GetAt(0, FIRST)], date), "/"), GetAt(1, n), date).1 == FromCache(Print(r))
            && Reprint.ReadsBack(FIRST) && !Reprint.ReadsBack(r)
  {
    hide HeaderValueOf, Find, Print, Lookup, After, IsFirst, ParseResponse, Freshen, KeepAliveAfter, HeaderFraming, IsHeader,
      Decimal, AddFraming, IsConnection, Reprint.ReadsBack, Serve, NeedsValidation;
    var tag, length := Header("ETag", "a"), Header("Content-Length", "0");
    var n, r := Answered(304, [length], ""), FIRST.(headers := [tag, length]);
    Digit(0);
    assert Decimal(0) == "0";
    TagFraming();
    PrintedLengthCounts(Framing(0, false), 0);
    OneHeader(length, "");
    TwoHeaders(tag, length, "");
    PlainHeader("ETag", "a");
    PlainHeader("Content-Length", "0");
    AnsweredIsPrintable(304, [length], "");
    AnsweredIsPrintable(200, [tag, length], "ab");
    PrintedIsParsed(n);
    FirstIsFirst(0, date);
    assert HasName(ASKED.headers, "Host") by { assert ASKED.headers[0].name == "Host"; }
    SecondValidates(capacity, GetAt(0, FIRST), FIRST, GetAt(1, n), n, date);
    Outcome(capacity, GetAt(0, FIRST), FIRST, GetAt(1, n), n, date);
    FreshenedLength(tag, FIRST.headers[1], "0");
    Reprint.ReadsBackIff(r);
    FirstReadsBack();
  }

  lemma FirstReadsBack()
    ensures Reprint.ReadsBack(FIRST)
  {
    hide Print, Decimal, AddFraming, KeepAliveAfter, HeaderFraming, IsConnection, Reprint.ReadsBack;
    FirstIsWellFramed();
    Reprint.ReadsBackIff(FIRST);
  }

  /** A first request that fails because its client cannot be written to has been cached all the same. */
  lemma FailedFetchIsCached(capacity: nat, date: DateOf)
    requires capacity > 0
    ensures var g := GetAt(0, FIRST).(clientWritable := false);
            && Decide(None, g, date).1.Failed?
            && Lookup(After(capacity, [g], date), "/") == Some(Entry(FIRST, 0))
  {
    hide Print, Lookup, After, ParseResponse, HasName, Contains, MayStore, ExplicitLifetime, HeaderValueOf,
      CacheControl, Answer;
    FirstIsFirst(0, date);
    FirstIsStored(capacity, GetAt(0, FIRST).(clientWritable := false), FIRST, date);
  }
}
