/** Theorems about whole runs of GET requests, whatever clients ask and origin servers answer. */
module ProxyRuns {
  import opened Messages
  import opened Parser
  import opened Options
  import opened Lru
  import opened Headers
  import opened Directives
  import opened Freshness
  import opened Proxy
  import LruRuns
  import Reprint

  function Uri(g: Get): string {
    g.request.start.uri
  }

  /** What step `g` does to a cache. */
  function EffectOf(cache: Cache, g: Get, date: DateOf): Effect {
    Decide(Lookup(cache, Uri(g)), g, date).0
  }

  // ---- what a step leaves under each key -----------------------------------------------------------

  lemma {:induction false} LookupIn<K, V>(l: List<K, V>, k: K)
    requires Lookup(l, k).Some?
    ensures Item(k, Lookup(l, k).value) in l
  {
    if l[0].key != k {
      LookupIn(l[1..], k);
    } else {
      assert l[0] == Item(k, Lookup(l, k).value);
    }
  }

  lemma TouchItems<K, V>(l: List<K, V>, k: K)
    ensures forall x :: x in Touch(l, k) ==> x in l
  {
    if Lookup(l, k).Some? {
      LookupIn(l, k);
    }
  }

  lemma AddItems<K, V>(l: List<K, V>, capacity: nat, k: K, v: V)
    ensures forall x :: x in Add(l, capacity, k, v) ==> x == Item(k, v) || (x in l && x.key != k)
  {
  }

  lemma OverwriteItems<K, V>(l: List<K, V>, k: K, v: V)
    ensures forall x :: x in Overwrite(l, k, v) ==> x == Item(k, v) || (x in l && x.key != k)
  {
  }

  /** Every item after a step was there before, or is what the step stored under its URI; and a
      step that stores leaves no older item under that URI. */
  lemma StepItems(cache: Cache, capacity: nat, g: Get, date: DateOf)
    ensures var effect := EffectOf(cache, g, date);
            forall x :: x in Serve(cache, capacity, g, date) ==>
              if effect.Nothing? then x in cache
              else x == Item(Uri(g), effect.entry) || (x in cache && x.key != Uri(g))
  {
    hide Touch, Add, Overwrite, Decide;
    var u, effect := Uri(g), EffectOf(cache, g, date);
    TouchItems(cache, u);
    match effect
    case Nothing =>
    case Stored(e) => AddItems(Touch(cache, u), capacity, u, e);
    case Merged(e, _) => OverwriteItems(Touch(cache, u), u, e);
  }

  /** When a step has an effect, and which one. */
  lemma EffectOfIff(cache: Cache, g: Get, date: DateOf)
    ensures var found := Lookup(cache, Uri(g));
            EffectOf(cache, g, date) ==
            if !TakesEffect(found, g, date) then Nothing
            else if IsFreshening(found, g) then Merged(NewEntry(found, g), AnswerTo(g).value.headers)
            else Stored(NewEntry(found, g))
  {
    hide Answer, TakesEffect, Lookup, IsFreshening, NewEntry, AnswerTo;
    EffectIff(Lookup(cache, Uri(g)), g, date);
  }

  // ---- provenance ------------------------------------------------------------------------------------

  /** Request `j` was for `uri` and was answered by a 200 with the version, status and content of `m`. */
  predicate IsOrigin(gets: seq<Get>, j: int, uri: string, m: Message) {
    && 0 <= j < |gets| && Uri(gets[j]) == uri && gets[j].reply.Reply?
    && var r := ParseResponse(gets[j].reply.bytes);
       && r.Some? && r.value.start.code == 200 && r.value.start == m.start && r.value.content == m.content
       && r.value.versionMajor == m.versionMajor && r.value.versionMinor == m.versionMinor
  }

  /** The entry under `uri` was stored from an answer parsed outside chunked mode, and no 304 merged
      since carried a framing header. */
  predicate Clean(capacity: nat, gets: seq<Get>, date: DateOf, uri: string) {
    if gets == [] then true
    else
      var init, g := gets[..|gets| - 1], gets[|gets| - 1];
      var found := Lookup(After(capacity, init, date), uri);
      if Uri(g) != uri || !TakesEffect(found, g, date) then Clean(capacity, init, date, uri)
      else if IsFreshening(found, g) then
        Clean(capacity, init, date, uri) && NoFramingNames(AnswerTo(g).value.headers)
      else !ParsedChunked(g.reply.bytes)
  }

  ghost predicate IsAccounted(capacity: nat, gets: seq<Get>, date: DateOf, uri: string, e: Entry) {
    && e.response.start.code == 200
    && (exists j :: IsOrigin(gets, j, uri, e.response))
    && IsPrintable(e.response)
    && (Clean(capacity, gets, date, uri) ==> IsWellFramed(e.response))
  }

  ghost predicate AllAccounted(capacity: nat, gets: seq<Get>, date: DateOf) {
    forall x :: x in After(capacity, gets, date) ==> IsAccounted(capacity, gets, date, x.key, x.value)
  }

  lemma StoredIsTheReply(cache: Cache, g: Get, date: DateOf)
    requires EffectOf(cache, g, date).Stored?
    ensures g.reply.Reply? && ParseResponse(g.reply.bytes).Some?
    ensures ParseResponse(g.reply.bytes).value == EffectOf(cache, g, date).entry.response
    ensures EffectOf(cache, g, date).entry.response.start.code == 200
  {
    hide ParseResponse, Contains, FreshnessLifetime, HasName, NeedsValidation, CacheControl, Lookup;
  }

  lemma StoredIsAccounted(capacity: nat, gets: seq<Get>, date: DateOf)
    requires gets != []
    requires var g := gets[|gets| - 1]; EffectOf(After(capacity, gets[..|gets| - 1], date), g, date).Stored?
    ensures var g := gets[|gets| - 1];
            IsAccounted(capacity, gets, date, Uri(g), EffectOf(After(capacity, gets[..|gets| - 1], date), g, date).entry)
  {
    hide Parse, Consume, IsPrintable, IsWellFramed, EffectOf, After, TakesEffect, IsFreshening, NewEntry, AnswerTo, Lookup;
    var n := |gets| - 1;
    var g := gets[n];
    var cache := After(capacity, gets[..n], date);
    var e := EffectOf(cache, g, date).entry;
    StoredIsTheReply(cache, g, date);
    EffectOfIff(cache, g, date);
    assert IsOrigin(gets, n, Uri(g), e.response);
    ParsedIsPrintable(ResponseStart(), g.reply.bytes);
  }

  lemma MergedIsTheReply(cache: Cache, g: Get, date: DateOf, e: Entry)
    requires EffectOf(cache, g, date).Merged? && Lookup(cache, Uri(g)) == Some(e)
    ensures g.reply.Reply? && ParseResponse(g.reply.bytes).Some?
    ensures var effect, m := EffectOf(cache, g, date), ParseResponse(g.reply.bytes).value;
            && effect.news == m.headers
            && effect.entry.response == e.response.(headers := Freshen(e.response.headers, m.headers))
  {
    hide ParseResponse, Contains, FreshnessLifetime, HasName, NeedsValidation, CacheControl, Lookup, Freshen;
  }

  lemma MergedIsAccounted(capacity: nat, gets: seq<Get>, date: DateOf, e: Entry)
    requires gets != []
    requires var init, g := gets[..|gets| - 1], gets[|gets| - 1];
             && Lookup(After(capacity, init, date), Uri(g)) == Some(e)
             && IsAccounted(capacity, init, date, Uri(g), e)
             && EffectOf(After(capacity, init, date), g, date).Merged?
    ensures var g := gets[|gets| - 1];
            IsAccounted(capacity, gets, date, Uri(g), EffectOf(After(capacity, gets[..|gets| - 1], date), g, date).entry)
  {
    hide Parse, Consume, EffectOf, After, Lookup, Freshen, HeaderFraming, TakesEffect, IsFreshening, NewEntry, AnswerTo;
    var n := |gets| - 1;
    var g := gets[n];
    var effect := EffectOf(After(capacity, gets[..n], date), g, date);
    EffectOfIff(After(capacity, gets[..n], date), g, date);
    MergedIsTheReply(After(capacity, gets[..n], date), g, date, e);
    var m := ParseResponse(g.reply.bytes).value;
    var j :| IsOrigin(gets[..n], j, Uri(g), e.response);
    assert IsOrigin(gets, j, Uri(g), effect.entry.response);
    ParsedIsPrintable(ResponseStart(), g.reply.bytes);
    HeadersAfterFreshen(e.response.headers, m.headers);
    if NoFramingNames(m.headers) {
      FramingAfterFreshen(e.response.headers, m.headers);
    }
  }

  lemma OthersStayAccounted(capacity: nat, gets: seq<Get>, date: DateOf, uri: string, e: Entry)
    requires gets != []
    requires var init, g := gets[..|gets| - 1], gets[|gets| - 1];
             && IsAccounted(capacity, init, date, uri, e)
             && (uri != Uri(g) || EffectOf(After(capacity, init, date), g, date).Nothing?)
    ensures IsAccounted(capacity, gets, date, uri, e)
  {
    hide IsPrintable, IsWellFramed, EffectOf, TakesEffect, IsFreshening, NewEntry, AnswerTo, Lookup;
    var n := |gets| - 1;
    EffectOfIff(After(capacity, gets[..n], date), gets[n], date);
    var j :| IsOrigin(gets[..n], j, uri, e.response);
    assert IsOrigin(gets, j, uri, e.response);
  }

  /** An entry cached under a URI always has status code 200, and its status line, version included,
      and content are those of an earlier origin answer to a request for that very URI. */
  lemma {:induction false} Provenance(capacity: nat, gets: seq<Get>, date: DateOf)
    ensures AllAccounted(capacity, gets, date)
  {
    hide IsAccounted, Serve;
    if gets != [] {
      var init, g := gets[..|gets| - 1], gets[|gets| - 1];
      var cache := After(capacity, init, date);
      Provenance(capacity, init, date);
      StepItems(cache, capacity, g, date);
      forall x | x in After(capacity, gets, date) ensures IsAccounted(capacity, gets, date, x.key, x.value) {
        AccountedStep(capacity, gets, date, x);
      }
    }
  }

  lemma AccountedStep(capacity: nat, gets: seq<Get>, date: DateOf, x: Item<string, Entry>)
    requires gets != [] && AllAccounted(capacity, gets[..|gets| - 1], date)
    requires var g, cache := gets[|gets| - 1], After(capacity, gets[..|gets| - 1], date);
             var effect := EffectOf(cache, g, date);
             if effect.Nothing? then x in cache
             else x == Item(Uri(g), effect.entry) || (x in cache && x.key != Uri(g))
    ensures IsAccounted(capacity, gets, date, x.key, x.value)
  {
    hide IsAccounted, NeedsValidation, Fetch, Validate;
    var g, cache := gets[|gets| - 1], After(capacity, gets[..|gets| - 1], date);
    var effect := EffectOf(cache, g, date);
    if x in cache && (effect.Nothing? || x.key != Uri(g)) {
      OthersStayAccounted(capacity, gets, date, x.key, x.value);
    } else if effect.Stored? {
      StoredIsAccounted(capacity, gets, date);
    } else {
      OnlyHitsMerge(cache, g, date);
      LookupIn(cache, Uri(g));
      MergedIsAccounted(capacity, gets, date, Lookup(cache, Uri(g)).value);
    }
  }

  lemma OnlyHitsMerge(cache: Cache, g: Get, date: DateOf)
    requires EffectOf(cache, g, date).Merged?
    ensures Lookup(cache, Uri(g)).Some?
  {
    hide Parse, Contains, Lookup;
  }

  /** The response sent from the cache: the one found, or what a 304 made of it. */
  function Shown(found: Entry, effect: Effect): Response {
    if effect.Merged? then effect.entry.response else found.response
  }

  /** The bytes sent from the cache, on a hit and after a 304. They are read back as the stored status
      line, version, headers and content exactly when the stored headers still frame the content;
      they always do when the entry came from an answer outside chunked mode and no 304 merged so
      far, this one included, carried a framing header. Their version, status and content come from an
      earlier 200 for that URI. */
  lemma HitReadsBack(capacity: nat, gets: seq<Get>, date: DateOf, g: Get)
    requires Decide(Lookup(After(capacity, gets, date), Uri(g)), g, date).1.FromCache?
    ensures var found := Lookup(After(capacity, gets, date), Uri(g));
            var d := Decide(found, g, date);
            && found.Some?
            && var m := Shown(found.value, d.0);
               && d.1.bytes == Print(m)
               && (Reprint.ReadsBack(m) <==> IsWellFramed(m))
               && (Clean(capacity, gets + [g], date, Uri(g)) ==> Reprint.ReadsBack(m))
               && exists j :: IsOrigin(gets, j, Uri(g), m)
  {
    hide Parse, Contains, IsPrintable, IsWellFramed, Reprint.ReadsBack, Lookup, NeedsValidation, After, Clean, Decide,
      EffectOf, Freshen;
    var cache := After(capacity, gets, date);
    SentIsShown(cache, g, date);
    var e := Lookup(cache, Uri(g)).value;
    Provenance(capacity, gets, date);
    LookupIn(cache, Uri(g));
    assert (gets + [g])[..|gets|] == gets;
    EffectIsDecided(cache, g, date);
    var j :| IsOrigin(gets, j, Uri(g), e.response);
    if EffectOf(cache, g, date).Merged? {
      MergedIsTheReply(cache, g, date, e);
      MergedIsAccounted(capacity, gets + [g], date, e);
    } else {
      OthersStayAccounted(capacity, gets + [g], date, Uri(g), e);
    }
    assert IsOrigin(gets, j, Uri(g), Shown(e, EffectOf(cache, g, date)));
    Reprint.ReadsBackIff(Shown(e, EffectOf(cache, g, date)));
  }

  lemma SentIsShown(cache: Cache, g: Get, date: DateOf)
    requires Decide(Lookup(cache, Uri(g)), g, date).1.FromCache?
    ensures var found, d := Lookup(cache, Uri(g)), Decide(Lookup(cache, Uri(g)), g, date);
            found.Some? && !d.0.Stored? && d.1.bytes == Print(Shown(found.value, d.0))
  {
    hide ParseResponse, Contains, HasName, NeedsValidation, CacheControl, FreshnessLifetime, Lookup, Freshen, Print;
  }

  // ---- time ------------------------------------------------------------------------------------------

  /** The clock never runs backwards. */
  predicate Ordered(gets: seq<Get>) {
    if gets == [] then true
    else
      var init, g := gets[..|gets| - 1], gets[|gets| - 1];
      Ordered(init) && g.now <= g.later && (init != [] ==> init[|init| - 1].later <= g.now)
  }

  /** Every cached entry was stored or validated in the past. */
  lemma {:induction false} StoredInThePast(capacity: nat, gets: seq<Get>, date: DateOf)
    requires Ordered(gets) && gets != []
    ensures forall x :: x in After(capacity, gets, date) ==> x.value.responseTime <= gets[|gets| - 1].later
  {
    hide Parse, Contains, FreshnessLifetime, NeedsValidation, Serve, IsFresh;
    var init, g := gets[..|gets| - 1], gets[|gets| - 1];
    StepItems(After(capacity, init, date), capacity, g, date);
    if init != [] {
      StoredInThePast(capacity, init, date);
    }
  }

  /** So at any later request no entry has a negative age, and an entry without an explicit
      lifetime is never sent without asking the origin server, whatever max-stale the client sends. */
  lemma HeuristicAlwaysValidates(capacity: nat, gets: seq<Get>, date: DateOf, g: Get)
    requires Ordered(gets + [g]) && Lookup(After(capacity, gets, date), Uri(g)).Some?
    ensures var e := Lookup(After(capacity, gets, date), Uri(g)).value;
            && (Age(e, date, g.now).Some? ==> Age(e, date, g.now).value >= 0)
            && (ExplicitLifetime(e.response, date).Heuristic? ==> NeedsValidation(e, g.request, date, g.now) != Some(false))
  {
    hide ExplicitLifetime, Contains, Lookup, After, Age, Ordered;
    var e := Lookup(After(capacity, gets, date), Uri(g)).value;
    EarlierThanNow(capacity, gets, date, g, e);
    HeuristicIsNeverFresh(e, g.request, date, g.now);
  }

  /** Exactly what is sent without asking: in every reachable cache, an entry that is young for the
      request by every measure, when neither side says no-cache and the client can be written to. */
  lemma SentUnaskedIff(capacity: nat, gets: seq<Get>, date: DateOf, g: Get, e: Entry)
    requires Ordered(gets + [g]) && Lookup(After(capacity, gets, date), Uri(g)) == Some(e)
    ensures Decide(Some(e), g, date) == (Nothing, FromCache(Print(e.response))) <==>
            g.clientWritable && IsYoung(e, g.request, date, g.now)
            && !Says(e.response, "no-cache") && !Says(g.request, "no-cache")
  {
    hide IsYoung, IsFresh, Says, Contains, Lookup, Print, ParseResponse, HasName, After, CacheControl;
    EarlierThanNow(capacity, gets, date, g, e);
    FreshIffYoung(e, g.request, date, g.now);
    SaysIff(e.response, "no-cache");
    SaysIff(g.request, "no-cache");
  }

  lemma EarlierThanNow(capacity: nat, gets: seq<Get>, date: DateOf, g: Get, e: Entry)
    requires Ordered(gets + [g]) && Lookup(After(capacity, gets, date), Uri(g)) == Some(e)
    ensures e.responseTime <= g.now
  {
    hide Lookup, Serve;
    assert (gets + [g])[..|gets|] == gets;
    assert gets != [];
    StoredInThePast(capacity, gets, date);
    LookupIn(After(capacity, gets, date), Uri(g));
  }

  // ---- what a step leaves under a URI ------------------------------------------------------------------

  lemma {:induction false} LookupOverwrite<K, V>(l: List<K, V>, k: K, v: V, x: K)
    requires Has(l, k)
    ensures Lookup(Overwrite(l, k, v), x) == if x == k then Some(v) else Lookup(l, x)
  {
    assert Overwrite(l, k, v)[1..] == Overwrite(l[1..], k, v);
    if l[0].key != x && Has(l[1..], k) {
      LookupOverwrite(l[1..], k, v, x);
    } else if l[0].key != x {
      OverwriteAbsent(l[1..], k, v);
      assert forall i :: 1 <= i < |l| ==> l[i] == l[1..][i - 1];
    }
  }

  lemma {:induction false} OverwriteAbsent<K, V>(l: List<K, V>, k: K, v: V)
    requires !Has(l, k)
    ensures Overwrite(l, k, v) == l
  {
    assert forall i :: 0 <= i < |l| ==> l[i].key != k;
  }

  /** What is looked up after a step is what the step stored there, or what was there before. */
  lemma StepLookup(cache: Cache, capacity: nat, g: Get, date: DateOf, x: string)
    ensures var effect, r := EffectOf(cache, g, date), Lookup(Serve(cache, capacity, g, date), x);
            r.Some? ==> r == if x == Uri(g) && !effect.Nothing? then Some(effect.entry) else Lookup(cache, x)
  {
    hide Touch, Add, Overwrite, Decide, Lookup;
    var u, l := Uri(g), Touch(cache, Uri(g));
    LruRuns.LookupTouch(cache, u, x);
    LruRuns.LookupTouch(cache, u, u);
    match EffectOf(cache, g, date)
    case Nothing =>
    case Stored(e) => LruRuns.LookupAdd(l, capacity, u, e, x);
    case Merged(e, _) =>
      OnlyHitsMerge(cache, g, date);
      LookupOverwrite(l, u, e, x);
  }

  /** Only an answer that parses and has code 200 or 304 has an effect. */
  lemma EffectNeedsAnswer(found: Option<Entry>, g: Get, date: DateOf)
    ensures TakesEffect(found, g, date) ==> IsAnswered(g)
  {
    hide ParseResponse, Contains, HasName, NeedsValidation, CacheControl, FreshnessLifetime;
  }

  /** No request of `more`, served after `gets`, stores or freshens anything under `uri`. */
  predicate LeavesAlone(capacity: nat, gets: seq<Get>, more: seq<Get>, date: DateOf, uri: string) {
    if more == [] then true
    else
      var init, g := more[..|more| - 1], more[|more| - 1];
      && LeavesAlone(capacity, gets, init, date, uri)
      && (Uri(g) == uri ==> !TakesEffect(Lookup(After(capacity, gets + init, date), uri), g, date))
  }

  /** The origin server answers with a 200 or a 304 that parses. */
  predicate IsAnswered(g: Get) {
    g.reply.Reply? && var r := ParseResponse(g.reply.bytes); r.Some? && r.value.start.code in {200, 304}
  }

  /** Requests for `uri` that are not answered so, and any requests for other URIs, leave it alone. */
  lemma {:induction false} UnansweredLeaveAlone(capacity: nat, gets: seq<Get>, more: seq<Get>, date: DateOf, uri: string)
    requires forall i :: 0 <= i < |more| && Uri(more[i]) == uri ==> !IsAnswered(more[i])
    ensures LeavesAlone(capacity, gets, more, date, uri)
  {
    hide IsAnswered, After, TakesEffect, Lookup;
    if more != [] {
      var init, g := more[..|more| - 1], more[|more| - 1];
      UnansweredLeaveAlone(capacity, gets, init, date, uri);
      EffectNeedsAnswer(Lookup(After(capacity, gets + init, date), uri), g, date);
    }
  }

  lemma {:induction false} StaysSame(capacity: nat, gets: seq<Get>, more: seq<Get>, date: DateOf, uri: string)
    requires LeavesAlone(capacity, gets, more, date, uri)
    requires Lookup(After(capacity, gets + more, date), uri).Some?
    ensures Lookup(After(capacity, gets + more, date), uri) == Lookup(After(capacity, gets, date), uri)
  {
    hide Lookup, Serve, EffectOf, TakesEffect, IsFreshening, NewEntry, AnswerTo;
    if more == [] {
      assert gets + more == gets;
    } else {
      var init, g := more[..|more| - 1], more[|more| - 1];
      assert (gets + more)[..|gets + init|] == gets + init && (gets + more)[|gets + init|] == g;
      EffectOfIff(After(capacity, gets + init, date), g, date);
      StepLookup(After(capacity, gets + init, date), capacity, g, date, uri);
      StaysSame(capacity, gets, init, date, uri);
    }
  }

  /** Stale stays stale. Whatever is requested in between, as long as no 200 or 304 for that URI
      takes effect: what is cached there is the same entry, and once it is stale for a request, the
      same request has to be validated at every later time. */
  lemma StaleStaysStale(capacity: nat, gets: seq<Get>, more: seq<Get>, date: DateOf, uri: string, e: Entry,
                        req: Message, now: int, later: int)
    requires LeavesAlone(capacity, gets, more, date, uri)
    requires Lookup(After(capacity, gets + more, date), uri) == Some(e) && now <= later
    ensures Lookup(After(capacity, gets, date), uri) == Some(e)
    ensures IsFresh(e, req, date, now) == Some(false) ==> NeedsValidation(e, req, date, later) == Some(true)
  {
    hide Lookup, After, LeavesAlone, IsFresh, Contains;
    StaysSame(capacity, gets, more, date, uri);
    FreshIsBeforeThreshold(e, req, date, now, later);
  }

  /** For other requests too: stale at `now` for a request that allows nothing, stale from `now + a` on
      for every request that allows `a`. */
  lemma StaleForAllRequests(capacity: nat, gets: seq<Get>, more: seq<Get>, date: DateOf, uri: string, e: Entry,
                            plain: Message, now: int, req: Message, later: int)
    requires LeavesAlone(capacity, gets, more, date, uri) && Lookup(After(capacity, gets + more, date), uri) == Some(e)
    requires ExplicitLifetime(e.response, date).Explicit? && RequestAllowance(plain) == Some(0)
    requires RequestAllowance(req).Some? && now + RequestAllowance(req).value <= later
    ensures IsFresh(e, plain, date, now) == Some(false) ==> NeedsValidation(e, req, date, later) == Some(true)
  {
    hide Lookup, After, LeavesAlone, IsFresh, Contains, ExplicitLifetime, RequestAllowance;
    RequestShiftsTime(e, req, plain, date, now + RequestAllowance(req).value);
    StaleStaysStale(capacity, gets, more, date, uri, e, req, now + RequestAllowance(req).value, later);
  }

  // ---- failing requests --------------------------------------------------------------------------------

  lemma AfterFits(capacity: nat, gets: seq<Get>, date: DateOf)
    ensures |After(capacity, gets, date)| <= capacity
  {
    KeysFit(After(capacity, gets, date));
    KeysFit(LruRuns.Run(capacity, Ops(capacity, gets, date)));
    CacheIsLruRun(capacity, gets, date);
    LruRuns.RunDistinct(capacity, Ops(capacity, gets, date));
  }

  lemma KeysFit<K, V>(l: List<K, V>)
    ensures |LruRuns.Keys(l)| == |l|
  {
  }

  /** The URI has an entry after a step that stores, unless there is no room at all. */
  lemma StoredIsThere(cache: Cache, capacity: nat, g: Get, date: DateOf)
    requires !EffectOf(cache, g, date).Nothing? && |cache| <= capacity
    requires capacity > 0 || Has(cache, Uri(g))
    ensures Lookup(Serve(cache, capacity, g, date), Uri(g)) == Some(EffectOf(cache, g, date).entry)
  {
    hide Touch, Decide, Lookup, Without;
    var u, l := Uri(g), Touch(cache, Uri(g));
    LruRuns.LookupTouch(cache, u, u);
    match EffectOf(cache, g, date)
    case Stored(e) =>
      var r := [Item(u, e)] + Without(l, u);
      LruRuns.LookupFront(l, u, e, u);
      FirstFound(r, u);
      if |r| > 1 {
        FirstFound(r[..|r| - 1], u);
      }
    case Merged(e, _) =>
      OnlyHitsMerge(cache, g, date);
      LookupOverwrite(l, u, e, u);
  }

  lemma FirstFound<K, V>(l: List<K, V>, k: K)
    requires l != [] && l[0].key == k
    ensures Lookup(l, k) == Some(l[0].value)
  {
  }

  /** Storing under a URI that is cached moves no other entry out. */
  lemma HitKeepsOthers(cache: Cache, capacity: nat, g: Get, date: DateOf, x: string)
    requires EffectOf(cache, g, date).Nothing? || Has(cache, Uri(g))
    requires x != Uri(g)
    ensures Lookup(Serve(cache, capacity, g, date), x) == Lookup(cache, x)
  {
    hide Touch, Overwrite, Decide, Lookup, Without;
    var u, l := Uri(g), Touch(cache, Uri(g));
    LruRuns.LookupTouch(cache, u, x);
    LruRuns.LookupTouch(cache, u, u);
    match EffectOf(cache, g, date)
    case Nothing =>
    case Stored(e) => LruRuns.LookupFront(l, u, e, x);
    case Merged(e, _) => LookupOverwrite(l, u, e, x);
  }

  /** Some URI looks up differently after the step. */
  ghost predicate Changes(cache: Cache, capacity: nat, g: Get, date: DateOf) {
    exists x :: Lookup(Serve(cache, capacity, g, date), x) != Lookup(cache, x)
  }

  /** Some URI looks up differently exactly when the step has an effect, has room for it, and does not
      store what is there already. */
  lemma ChangesIff(cache: Cache, capacity: nat, g: Get, date: DateOf)
    requires |cache| <= capacity
    ensures var found := Lookup(cache, Uri(g));
            Changes(cache, capacity, g, date) <==>
            TakesEffect(found, g, date) && capacity > 0 && found != Some(NewEntry(found, g))
  {
    hide Serve, EffectOf, Lookup, IsFreshening, IsStorable, NeedsValidation, NewEntry, AnswerTo, Contains;
    var u, effect := Uri(g), EffectOf(cache, g, date);
    EffectOfIff(cache, g, date);
    if effect.Nothing? {
      NothingChangesNothing(cache, capacity, g, date);
    } else if capacity == 0 {
      NoRoomNoChange(cache, g, date);
    } else {
      StoredIsThere(cache, capacity, g, date);
      if Lookup(cache, u) == Some(effect.entry) {
        forall x | x != u ensures Lookup(Serve(cache, capacity, g, date), x) == Lookup(cache, x) {
          HitKeepsOthers(cache, capacity, g, date, x);
        }
      }
    }
  }

  lemma NothingChangesNothing(cache: Cache, capacity: nat, g: Get, date: DateOf)
    requires EffectOf(cache, g, date).Nothing?
    ensures !Changes(cache, capacity, g, date)
  {
    hide Decide, Touch, Lookup;
    forall x ensures Lookup(Serve(cache, capacity, g, date), x) == Lookup(cache, x) {
      LruRuns.LookupTouch(cache, Uri(g), x);
    }
  }

  lemma NoRoomNoChange(cache: Cache, g: Get, date: DateOf)
    requires cache == []
    ensures Serve(cache, 0, g, date) == cache
  {
    hide Decide;
  }

  /** What a failed request leaves behind. It has changed what is cached if and only if its client
      could not be written to and the answer of the origin server took effect: everything is stored
      before the client is written to, and nothing is taken back. A request that fails for any other
      reason has changed nothing. */
  lemma FailureChangesIff(capacity: nat, gets: seq<Get>, date: DateOf, g: Get)
    requires Decide(Lookup(After(capacity, gets, date), Uri(g)), g, date).1.Failed?
    ensures var cache := After(capacity, gets, date);
            var found := Lookup(cache, Uri(g));
            Changes(cache, capacity, g, date) <==>
            !g.clientWritable && TakesEffect(found, g, date) && capacity > 0 && found != Some(NewEntry(found, g))
  {
    hide After, Changes, Answer, Lookup, IsFreshening, IsStorable, NeedsValidation, NewEntry, AnswerTo, Contains;
    var cache := After(capacity, gets, date);
    AfterFits(capacity, gets, date);
    ChangesIff(cache, capacity, g, date);
    EffectIff(Lookup(cache, Uri(g)), g, date);
    AnsweredOrNoEffect(Lookup(cache, Uri(g)), g, date);
  }

  lemma AnsweredOrNoEffect(found: Option<Entry>, g: Get, date: DateOf)
    ensures Answer(found, g, date).1.Failed? ==> Answer(found, g, date).0.Nothing?
  {
    hide ParseResponse, Contains, HasName, NeedsValidation, CacheControl, FreshnessLifetime;
  }

  /** So what is cached depends on no client ever reading an answer. */
  lemma {:induction false} ClientsDoNotMatter(capacity: nat, gets: seq<Get>, others: seq<Get>, date: DateOf)
    requires |gets| == |others|
    requires forall i :: 0 <= i < |gets| ==> others[i] == gets[i].(clientWritable := others[i].clientWritable)
    ensures After(capacity, gets, date) == After(capacity, others, date)
  {
    hide Serve;
    if gets != [] {
      var n := |gets| - 1;
      ClientsDoNotMatter(capacity, gets[..n], others[..n], date);
      ClientDoesNotMatter(After(capacity, gets[..n], date), capacity, gets[n], others[n].clientWritable, date);
    }
  }

  lemma ClientDoesNotMatter(cache: Cache, capacity: nat, g: Get, writable: bool, date: DateOf)
    ensures Serve(cache, capacity, g.(clientWritable := writable), date) == Serve(cache, capacity, g, date)
  {
    hide ParseResponse, Contains, HasName, NeedsValidation, CacheControl, FreshnessLifetime, Lookup, Apply, Freshen, MayStore;
  }

  // ---- validation and no-store ---------------------------------------------------------------------

  /** What a validation leaves, by the status code of the parsed answer and for every URI `x`: a 304
      freshens the entry, a 200 replaces it whatever its Cache-Control says, anything else changes
      nothing; no other URI is affected or evicted. */
  lemma ValidationOutcome(cache: Cache, capacity: nat, g: Get, date: DateOf, e: Entry, m: Response, x: string)
    requires Lookup(cache, Uri(g)) == Some(e) && NeedsValidation(e, g.request, date, g.now) == Some(true)
    requires HasName(g.request.headers, "Host") && g.reply.Reply? && ParseResponse(g.reply.bytes) == Some(m)
    ensures Lookup(Serve(cache, capacity, g, date), x) ==
            if x != Uri(g) then Lookup(cache, x)
            else if m.start.code == 304 then
              var r: Response := e.response.(headers := Freshen(e.response.headers, m.headers));
              Some(Entry(r, g.later))
            else if m.start.code == 200 then Some(Entry(m, g.later))
            else Some(e)
  {
    hide ParseResponse, Contains, CacheControl, NeedsValidation, HasName, Lookup, Has, Freshen, Touch, Overwrite, Without;
    var u, l := Uri(g), Touch(cache, Uri(g));
    LruRuns.LookupTouch(cache, u, x);
    LruRuns.LookupTouch(cache, u, u);
    if m.start.code == 304 {
      var r: Response := e.response.(headers := Freshen(e.response.headers, m.headers));
      LookupOverwrite(l, u, Entry(r, g.later), x);
    } else if m.start.code == 200 {
      LruRuns.LookupFront(l, u, Entry(m, g.later), x);
    }
  }

  /** Whether a freshened response forbids storing: the last Cache-Control of the 304 decides, and
      without one it is as before. */
  predicate ForbidsAfter(news: seq<Header>, before: bool) {
    match LastValue(news, "Cache-Control")
    case Some(text) => TextForbids(text)
    case None => before
  }

  lemma FreshenedForbidsIff(r: Response, news: seq<Header>)
    ensures ForbidsStoring(r.(headers := Freshen(r.headers, news))) <==> ForbidsAfter(news, ForbidsStoring(r))
  {
    hide TextForbids, Freshen, HeaderValueOf;
    LookupAfterFreshen(r.headers, news, "Cache-Control");
  }

  /** After a validation the entry forbids storing if and only if a 200 says so, or a 304 says so, or
      nothing overrides what it said before. */
  lemma ValidationForbidsIff(cache: Cache, capacity: nat, g: Get, date: DateOf, e: Entry, m: Response)
    requires Lookup(cache, Uri(g)) == Some(e) && NeedsValidation(e, g.request, date, g.now) == Some(true)
    requires HasName(g.request.headers, "Host") && g.reply.Reply? && ParseResponse(g.reply.bytes) == Some(m)
    ensures var after := Lookup(Serve(cache, capacity, g, date), Uri(g));
            && after.Some?
            && (ForbidsStoring(after.value.response) <==>
                if m.start.code == 200 then ForbidsStoring(m)
                else if m.start.code == 304 then ForbidsAfter(m.headers, ForbidsStoring(e.response))
                else ForbidsStoring(e.response))
  {
    hide Serve, Lookup, HasName, ParseResponse, NeedsValidation, ForbidsStoring, Freshen, ForbidsAfter;
    ValidationOutcome(cache, capacity, g, date, e, m, Uri(g));
    FreshenedForbidsIff(e.response, m.headers);
  }

  /** A first fetch never stores a response that forbids it, and never for a request that does. */
  lemma FetchRespectsNoStore(g: Get, date: DateOf)
    requires Fetch(g, date).0.Stored?
    ensures !ForbidsStoring(Fetch(g, date).0.entry.response) && !Contains(CacheControl(g.request), "no-store")
  {
    hide Parse, Contains, CacheControl, FreshnessLifetime;
  }

  /** Whether an entry under `uri` forbids storing, from the answers alone: a 200 to a validation
      brings in what it says, a first fetch nothing, and a 304 what its last Cache-Control says. */
  predicate Forbidden(capacity: nat, gets: seq<Get>, date: DateOf, uri: string) {
    if gets == [] then false
    else
      var init, g := gets[..|gets| - 1], gets[|gets| - 1];
      var found := Lookup(After(capacity, init, date), uri);
      if Uri(g) != uri || !TakesEffect(found, g, date) then Forbidden(capacity, init, date, uri)
      else if IsFreshening(found, g) then ForbidsAfter(AnswerTo(g).value.headers, Forbidden(capacity, init, date, uri))
      else found.Some? && ForbidsStoring(AnswerTo(g).value)
  }

  /** Over all runs, an entry forbids storing exactly when the answers say so in that way. "No cached
      entry forbids storing" is no invariant, and these are all the ways in. */
  lemma {:induction false} ForbidsIff(capacity: nat, gets: seq<Get>, date: DateOf)
    ensures forall x :: x in After(capacity, gets, date)
                        ==> (ForbidsStoring(x.value.response) <==> Forbidden(capacity, gets, date, x.key))
  {
    hide ForbidsStoring, Serve, EffectOf, ForbidsAfter, TakesEffect, IsFreshening, NewEntry, AnswerTo, Lookup;
    if gets != [] {
      var init, g := gets[..|gets| - 1], gets[|gets| - 1];
      var cache := After(capacity, init, date);
      ForbidsIff(capacity, init, date);
      StepItems(cache, capacity, g, date);
      EffectOfIff(cache, g, date);
      StepForbidsIff(cache, g, date);
      if EffectOf(cache, g, date).Merged? {
        LookupIn(cache, Uri(g));
      }
    }
  }

  lemma StepForbidsIff(cache: Cache, g: Get, date: DateOf)
    ensures var effect, found := EffectOf(cache, g, date), Lookup(cache, Uri(g));
            && (effect.Stored? ==> AnswerTo(g).Some? && (ForbidsStoring(effect.entry.response) <==>
                                                         found.Some? && ForbidsStoring(AnswerTo(g).value)))
            && (effect.Merged? ==>
                  && found.Some?
                  && (ForbidsStoring(effect.entry.response) <==>
                        ForbidsAfter(effect.news, ForbidsStoring(found.value.response))))
  {
    hide ForbidsStoring, ForbidsAfter, EffectOf, Lookup, Freshen, ParseResponse, IsStorable, NeedsValidation, AnswerTo,
      Contains;
    var effect, found := EffectOf(cache, g, date), Lookup(cache, Uri(g));
    EffectOfIff(cache, g, date);
    if effect.Stored? {
      if found.None? {
        MissIsFetch(cache, g, date);
        FetchRespectsNoStore(g, date);
      }
    } else if effect.Merged? {
      OnlyHitsMerge(cache, g, date);
      MergedIsTheReply(cache, g, date, found.value);
      FreshenedForbidsIff(found.value.response, effect.news);
    }
  }

  lemma MissIsFetch(cache: Cache, g: Get, date: DateOf)
    requires Lookup(cache, Uri(g)).None?
    ensures EffectOf(cache, g, date) == Fetch(g, date).0
  {
    hide Fetch;
  }

  // ---- the proxy's cache is an LRU run ----------------------------------------------------------------

  /** The cache operations of a run: each request is a get, and each storing step an add. */
  function Ops(capacity: nat, gets: seq<Get>, date: DateOf): seq<LruRuns.Op<string, Entry>> {
    if gets == [] then []
    else
      var init, g := gets[..|gets| - 1], gets[|gets| - 1];
      var effect := EffectOf(After(capacity, init, date), g, date);
      Ops(capacity, init, date) + [LruRuns.GetOp(Uri(g))] +
      if effect.Stored? then [LruRuns.AddOp(Uri(g), effect.entry)] else []
  }

  lemma SameKeysHave<K, V>(a: List<K, V>, b: List<K, V>, k: K)
    requires LruRuns.Keys(a) == LruRuns.Keys(b)
    ensures Has(a, k) <==> Has(b, k)
  {
    LruRuns.KeysHas(a, k);
    LruRuns.KeysHas(b, k);
  }

  lemma SameKeysTouch<K, V>(a: List<K, V>, b: List<K, V>, k: K)
    requires LruRuns.Keys(a) == LruRuns.Keys(b)
    ensures LruRuns.Keys(Touch(a, k)) == LruRuns.Keys(Touch(b, k))
  {
    hide Without, Lookup, Has, LruRuns.Keys;
    SameKeysHave(a, b, k);
    LruRuns.KeysWithout(a, k);
    LruRuns.KeysWithout(b, k);
    if Has(a, k) {
      KeysOfCons(Item(k, Lookup(a, k).value), Without(a, k));
      KeysOfCons(Item(k, Lookup(b, k).value), Without(b, k));
    }
  }

  lemma KeysOfCons<K, V>(x: Item<K, V>, l: List<K, V>)
    ensures LruRuns.Keys([x] + l) == [x.key] + LruRuns.Keys(l)
  {
    assert ([x] + l)[1..] == l;
  }

  lemma SameKeysAdd<K, V>(a: List<K, V>, b: List<K, V>, capacity: nat, k: K, v: V)
    requires LruRuns.Keys(a) == LruRuns.Keys(b)
    ensures LruRuns.Keys(Add(a, capacity, k, v)) == LruRuns.Keys(Add(b, capacity, k, v))
  {
    hide Without, Has, LruRuns.Keys;
    SameKeysHave(a, b, k);
    LruRuns.KeysWithout(a, k);
    LruRuns.KeysWithout(b, k);
    KeysOfCons(Item(k, v), Without(a, k));
    KeysOfCons(Item(k, v), Without(b, k));
    var ka, kb := LruRuns.Keys([Item(k, v)] + Without(a, k)), LruRuns.Keys([Item(k, v)] + Without(b, k));
    assert ka == kb;
  }

  lemma OverwriteKeepsKeys<K, V>(l: List<K, V>, k: K, v: V)
    ensures LruRuns.Keys(Overwrite(l, k, v)) == LruRuns.Keys(l)
  {
  }

  /** The resident URIs and their order are those of the pure LRU cache on these operations; so what
      is proved of LRU runs (residency, retention, eviction order) holds of the proxy. */
  lemma {:induction false} CacheIsLruRun(capacity: nat, gets: seq<Get>, date: DateOf)
    ensures LruRuns.Keys(After(capacity, gets, date)) == LruRuns.Keys(LruRuns.Run(capacity, Ops(capacity, gets, date)))
  {
    hide LruRuns.Keys, Touch, Add, Overwrite, EffectOf, Decide;
    if gets != [] {
      var init, g := gets[..|gets| - 1], gets[|gets| - 1];
      var ops, u := Ops(capacity, init, date), Uri(g);
      var cache, l := After(capacity, init, date), LruRuns.Run(capacity, ops);
      CacheIsLruRun(capacity, init, date);
      SameKeysTouch(cache, l, u);
      RunAppend(capacity, ops, LruRuns.GetOp(u));
      EffectIsDecided(cache, g, date);
      match EffectOf(cache, g, date)
      case Nothing => assert Ops(capacity, gets, date) == ops + [LruRuns.GetOp(u)];
      case Stored(e) =>
        SameKeysAdd(Touch(cache, u), Touch(l, u), capacity, u, e);
        RunAppend(capacity, ops + [LruRuns.GetOp(u)], LruRuns.AddOp(u, e));
      case Merged(e, _) =>
        assert Ops(capacity, gets, date) == ops + [LruRuns.GetOp(u)];
        OverwriteKeepsKeys(Touch(cache, u), u, e);
    }
  }

  lemma EffectIsDecided(cache: Cache, g: Get, date: DateOf)
    ensures EffectOf(cache, g, date) == Decide(Lookup(cache, Uri(g)), g, date).0
  {
  }

  lemma RunAppend<K, V>(capacity: nat, ops: seq<LruRuns.Op<K, V>>, op: LruRuns.Op<K, V>)
    ensures LruRuns.Run(capacity, ops + [op]) == LruRuns.Apply(LruRuns.Run(capacity, ops), capacity, op)
  {
    assert (ops + [op])[..|ops|] == ops;
  }
}
