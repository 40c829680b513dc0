/** Freshness and age of a stored response (section 4.2 of RFC 7234). HTTP dates are read by an
    uninterpreted function `date`; `None` stands for an exception thrown on the way. */
module Freshness {
  import opened Messages
  import opened Options
  import opened Headers
  import opened Directives

  type DateOf = string -> int

  /** A stored response and the time it was stored or last validated. */
  datatype Entry = Entry(response: Response, responseTime: int)

  function CacheControl(m: Message): string {
    HeaderValueOf(m.headers, "Cache-Control")
  }

  /** The lifetime the response itself gives: s-maxage, else max-age, else Expires minus Date. */
  datatype Lifetime = Heuristic | Unreadable | Explicit(seconds: int)

  function ExplicitLifetime(m: Message, date: DateOf): Lifetime {
    match Extract(CacheControl(m), "s-maxage")
    case Value(n) => Explicit(n)
    case Broken => Unreadable
    case Absent =>
      match Extract(CacheControl(m), "max-age")
      case Value(n) => Explicit(n)
      case Broken => Unreadable
      case Absent =>
        var expires := HeaderValueOf(m.headers, "Expires");
        if expires == "" then Heuristic else Explicit(date(expires) - date(HeaderValueOf(m.headers, "Date")))
  }

  /** What the request adds to an explicit lifetime. */
  function RequestAllowance(req: Message): Option<int> {
    var minFresh, maxStale := Extract(CacheControl(req), "min-fresh"), Extract(CacheControl(req), "max-stale");
    if minFresh.Broken? || maxStale.Broken? then None
    else Some((if maxStale.Value? then maxStale.n else 0) - (if minFresh.Value? then minFresh.n else 0))
  }

  /** `calculate_freshness_lifetime`. Without an explicit lifetime the request is not even read. */
  function FreshnessLifetime(m: Message, req: Message, date: DateOf): Option<int> {
    match ExplicitLifetime(m, date)
    case Heuristic => Some(0)
    case Unreadable => None
    case Explicit(n) => match RequestAllowance(req) case Some(a) => Some(n + a) case None => None
  }

  /** The same with the reassigned locals and early return of the source. */
  method CalculateFreshnessLifetime(m: Message, req: Message, date: DateOf) returns (result: Option<int>)
    ensures result == FreshnessLifetime(m, req, date)
  {
    hide Extract, HeaderValueOf;
    var cacheControl := GetHeaderValue(m.headers, "Cache-Control");
    var freshness: int;
    var extracted := Extract(cacheControl, "s-maxage");
    if extracted.Absent? {
      extracted := Extract(cacheControl, "max-age");
    }
    match extracted {
      case Broken => return None;
      case Value(n) => freshness := n;
      case Absent =>
        var expires := GetHeaderValue(m.headers, "Expires");
        if expires == "" {
          return Some(0);
        }
        var dateValue := GetHeaderValue(m.headers, "Date");
        freshness := date(expires) - date(dateValue);
    }
    var requested := GetHeaderValue(req.headers, "Cache-Control");
    var minFresh := Extract(requested, "min-fresh");
    match minFresh {
      case Broken => return None;
      case Value(n) => freshness := freshness - n;
      case Absent =>
    }
    var maxStale := Extract(requested, "max-stale");
    match maxStale {
      case Broken => return None;
      case Value(n) => freshness := freshness + n;
      case Absent =>
    }
    return Some(freshness);
  }

  function Max(a: int, b: int): int {
    if a < b then b else a
  }

  /** Age on arrival: how late the Date header makes it, or the Age header. */
  function InitialAge(e: Entry, date: DateOf): Option<int> {
    var age := HeaderValueOf(e.response.headers, "Age");
    var apparent := Max(0, e.responseTime - date(HeaderValueOf(e.response.headers, "Date")));
    if age == "" then Some(Max(apparent, 0))
    else match Stol(age) case Some(n) => Some(Max(apparent, n)) case None => None
  }

  /** `calculate_age` at time `now`. */
  function Age(e: Entry, date: DateOf, now: int): Option<int> {
    match InitialAge(e, date) case Some(a) => Some(a + now - e.responseTime) case None => None
  }

  /** `is_fresh` at time `now`. */
  function IsFresh(e: Entry, req: Message, date: DateOf, now: int): Option<bool> {
    match FreshnessLifetime(e.response, req, date)
    case None => None
    case Some(lifetime) => match Age(e, date, now) case Some(age) => Some(lifetime > age) case None => None
  }

  // ---- freshness over time -----------------------------------------------------------------------

  /** The moment an entry goes stale for a request. */
  function StaleFrom(e: Entry, req: Message, date: DateOf): Option<int> {
    match (FreshnessLifetime(e.response, req, date), InitialAge(e, date))
    case (Some(lifetime), Some(age)) => Some(e.responseTime + lifetime - age)
    case _ => None
  }

  /** Freshness is a threshold in time: an unmodified entry is fresh exactly before one moment, so
      once stale for a request it stays stale until it is validated or replaced. */
  lemma FreshIsBeforeThreshold(e: Entry, req: Message, date: DateOf, now: int, later: int)
    requires now <= later
    ensures IsFresh(e, req, date, now).Some? <==> StaleFrom(e, req, date).Some?
    ensures IsFresh(e, req, date, now).Some? ==>
              (IsFresh(e, req, date, now).value <==> now < StaleFrom(e, req, date).value)
    ensures IsFresh(e, req, date, now) == Some(false) ==> IsFresh(e, req, date, later) == Some(false)
  {
    hide FreshnessLifetime, InitialAge;
  }

  /** With an explicit lifetime, asking for min-fresh = m and max-stale = s at time t is asking
      nothing at time t + m - s. */
  lemma RequestShiftsTime(e: Entry, req: Message, plain: Message, date: DateOf, now: int)
    requires ExplicitLifetime(e.response, date).Explicit?
    requires RequestAllowance(req).Some? && RequestAllowance(plain) == Some(0)
    ensures IsFresh(e, req, date, now) == IsFresh(e, plain, date, now - RequestAllowance(req).value)
  {
    hide ExplicitLifetime, RequestAllowance, InitialAge;
  }

  /** The allowance of a request whose Cache-Control renders a list of standard directives. */
  lemma AllowanceOfRendered(req: Message, ds: seq<Directive>)
    requires AreKnown(ds)
    requires CacheControl(req) == Render(ds)
    ensures var minFresh, maxStale := FirstDirective(ds, "min-fresh"), FirstDirective(ds, "max-stale");
            RequestAllowance(req) ==
            if minFresh.Broken? || maxStale.Broken? then None
            else Some((if maxStale.Value? then maxStale.n else 0) - (if minFresh.Value? then minFresh.n else 0))
  {
    hide Extract, Render, FirstDirective, AreKnown, HeaderValueOf;
    KnownDirectivesAreReadRight(ds, "min-fresh");
    KnownDirectivesAreReadRight(ds, "max-stale");
  }

  /** The precedence of section 4.2.1 of RFC 7234, whatever the order of the directives. */
  lemma LifetimeOfRendered(m: Message, ds: seq<Directive>, date: DateOf)
    requires AreKnown(ds)
    requires CacheControl(m) == Render(ds)
    ensures var shared, private_ := FirstDirective(ds, "s-maxage"), FirstDirective(ds, "max-age");
            var expires := HeaderValueOf(m.headers, "Expires");
            ExplicitLifetime(m, date) ==
            if shared.Value? then Explicit(shared.n)
            else if shared.Broken? then Unreadable
            else if private_.Value? then Explicit(private_.n)
            else if private_.Broken? then Unreadable
            else if expires != "" then Explicit(date(expires) - date(HeaderValueOf(m.headers, "Date")))
            else Heuristic
  {
    hide Extract, Render, FirstDirective, AreKnown, HeaderValueOf;
    KnownDirectivesAreReadRight(ds, "s-maxage");
    KnownDirectivesAreReadRight(ds, "max-age");
  }

  /** Section 4.2 of RFC 7234 spelled out: for this request the response is younger than its own lifetime
      and the request's allowance together, by the time since it came in, by its Date, and by its Age
      header. */
  predicate IsYoung(e: Entry, req: Message, date: DateOf, now: int) {
    var lifetime, allowance := ExplicitLifetime(e.response, date), RequestAllowance(req);
    var age := HeaderValueOf(e.response.headers, "Age");
    && lifetime.Explicit? && allowance.Some? && (age == "" || Stol(age).Some?)
    && var most := lifetime.seconds + allowance.value;
       && now - e.responseTime < most
       && now - date(HeaderValueOf(e.response.headers, "Date")) < most
       && (age != "" ==> Stol(age).value + (now - e.responseTime) < most)
  }

  lemma FreshIffYoung(e: Entry, req: Message, date: DateOf, now: int)
    requires e.responseTime <= now
    ensures IsFresh(e, req, date, now) == Some(true) <==> IsYoung(e, req, date, now)
  {
    hide ExplicitLifetime, RequestAllowance, HeaderValueOf, Stol;
    HeuristicIsNeverFresh(e, req, date, now);
    if Age(e, date, now).Some? {
      AgeIsLargest(e, date, now);
    }
  }

  /** An entry stored no later than now never has a negative age, even with a negative Age header,
      so without an explicit lifetime it is never fresh, whatever the request allows. */
  lemma HeuristicIsNeverFresh(e: Entry, req: Message, date: DateOf, now: int)
    requires e.responseTime <= now
    ensures Age(e, date, now).Some? ==> Age(e, date, now).value >= 0
    ensures ExplicitLifetime(e.response, date).Heuristic? ==> IsFresh(e, req, date, now) != Some(true)
  {
    hide ExplicitLifetime, HeaderValueOf, Stol;
  }

  /** Section 4.2.3 of RFC 7234: the current age is the largest of the time since the response came
      in, the time since its Date, and its Age header plus the time since it came in. */
  lemma AgeIsLargest(e: Entry, date: DateOf, now: int)
    requires Age(e, date, now).Some?
    ensures var age, header := Age(e, date, now).value, HeaderValueOf(e.response.headers, "Age");
            var resident, since := now - e.responseTime, now - date(HeaderValueOf(e.response.headers, "Date"));
            && age >= resident && age >= since
            && (header == "" ==> age == resident || age == since)
            && (header != "" ==> Stol(header).Some? && age >= Stol(header).value + resident
                                 && (age == resident || age == since || age == Stol(header).value + resident))
  {
    hide HeaderValueOf, Stol;
  }
}
