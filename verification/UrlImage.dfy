/** What the URL parser accepts: every text it does not reject is accounted for, byte by byte, by the
    parts it has collected. */
module UrlImage {
  import opened Bytes
  import opened UrlText

  /** What a configuration does not remember: whether slashes follow the scheme, which parts have been
      there, and the question marks inside a query. */
  datatype Trace = Trace(separator: string, hasUser: bool, hasPassword: bool, hasPort: bool, hasQuery: bool, hasFragment: bool,
                         query: string)

  /** A query keeps everything but further question marks. */
  function WithoutMarks(s: string): string {
    if s == "" then ""
    else if s[|s| - 1] == '?' then WithoutMarks(s[..|s| - 1])
    else WithoutMarks(s[..|s| - 1]) + [s[|s| - 1]]
  }

  predicate PastAuthority(s: State) {
    s.Path? || s.Query? || s.Fragment?
  }

  predicate PastUser(s: State) {
    s.Hostname? || s.IPV6Hostname? || s.Port? || PastAuthority(s)
  }

  function UserText(t: Trace, username: string, password: string): string {
    if !t.hasUser then "" else if t.hasPassword then username + ":" + password + "@" else username + "@"
  }

  function PortText(t: Trace, u: Url): string {
    if t.hasPort then ":" + u.port else ""
  }

  function TailText(t: Trace, u: Url): string {
    u.path + (if t.hasQuery then "?" + t.query else "") + if t.hasFragment then "#" + u.fragment else ""
  }

  /** What stands after the separator. */
  function AuthorityOn(t: Trace, c: Conf): string {
    var u := c.url;
    match c.state
    case Scheme | SlashAfterScheme1 | SlashAfterScheme2 => ""
    case UsernameOrHostname => c.usernameOrHostname
    case PortOrPassword => c.usernameOrHostname + ":" + c.portOrPassword
    case Password => u.username + ":" + u.password
    case Hostname => UserText(t, u.username, u.password) + u.hostname
    case IPV6Hostname => UserText(t, u.username, u.password) + u.hostname + "["
    case Port => UserText(t, u.username, u.password) + u.hostname + ":" + c.portOrPassword
    case Path | Query | Fragment => UserText(t, u.username, u.password) + u.hostname + PortText(t, u) + TailText(t, u)
  }

  function TextOf(t: Trace, c: Conf): string {
    match c.state
    case Scheme => c.url.scheme
    case SlashAfterScheme1 => c.url.scheme + ":"
    case SlashAfterScheme2 => c.url.scheme + ":/"
    case _ => c.url.scheme + t.separator + AuthorityOn(t, c)
  }

  /** The alphabets of the parts. */
  predicate AreParts(t: Trace, c: Conf) {
    var u := c.url;
    && IsSchemeText(u.scheme) && IsName(c.usernameOrHostname) && IsDigitText(c.portOrPassword)
    && IsName(u.username) && IsPasswordText(u.password) && IsName(u.hostname) && IsDigitText(u.port)
    && u.path != "" && u.path[0] == '/' && IsFreeOfMarks(u.path[1..]) && IsFreeOfMarks(u.query)
    && '#' !in t.query && u.query == WithoutMarks(t.query)
  }

  /** Which parts can be there in which state. */
  predicate AreInPlace(t: Trace, c: Conf) {
    var s, u := c.state, c.url;
    && (t.separator == "://" || t.separator == ":")
    && (t.hasUser ==> PastUser(s)) && (t.hasPassword ==> t.hasUser || s.Password?) && (t.hasPort ==> PastAuthority(s))
    && (t.hasQuery <==> s.Query? || (s.Fragment? && t.hasQuery)) && (t.hasFragment <==> s.Fragment?)
    && (!t.hasUser && !s.Password? ==> u.username == "") && (!t.hasPassword ==> u.password == "")
    && (s.Password? ==> t.hasPassword && !t.hasUser) && (t.hasPassword ==> !IsDigitText(u.password))
    && (!PastUser(s) ==> u.hostname == "") && (!t.hasPort ==> u.port == "")
    && (!PastAuthority(s) ==> u.path == "/") && (!t.hasQuery ==> t.query == "") && (!t.hasFragment ==> u.fragment == "")
    && (!s.UsernameOrHostname? && !s.PortOrPassword? ==> c.usernameOrHostname == "")
    && (!s.PortOrPassword? && !s.Port? ==> c.portOrPassword == "")
    && (s.IPV6Hostname? ==> u.hostname == "") && u.integerPort == PortNumber(u.port)
  }

  predicate PastScheme(s: State) {
    !s.Scheme? && !s.SlashAfterScheme1? && !s.SlashAfterScheme2?
  }

  /** Without slashes the name starts at once, with a letter or a digit. */
  predicate StartsRight(t: Trace, c: Conf) {
    PastScheme(c.state) && t.separator == ":" ==> AuthorityOn(t, c) != "" && IsAlnum(AuthorityOn(t, c)[0])
  }

  predicate IsTrace(t: Trace, c: Conf) {
    c.valid && !c.aborted && AreParts(t, c) && AreInPlace(t, c) && StartsRight(t, c)
  }

  /** `u` accounts for the configuration after one more byte. */
  predicate Follows(t: Trace, c: Conf, ch: char, u: Trace) {
    IsTrace(u, Step(c, ch)) && TextOf(u, Step(c, ch)) == TextOf(t, c) + [ch]
  }

  predicate GoesOn(t: Trace, c: Conf, ch: char) {
    IsTrace(t, c) && Step(c, ch).valid && !Step(c, ch).aborted
  }

  lemma SchemeTrace(t: Trace, c: Conf, ch: char) returns (u: Trace)
    requires GoesOn(t, c, ch) && (c.state.Scheme? || c.state.SlashAfterScheme1? || c.state.SlashAfterScheme2?)
    ensures Follows(t, c, ch, u)
  {
    hide WithoutMarks, PortNumber, UserText, TailText, IsPasswordText, IsDigitText, IsFreeOfMarks;
    u := t;
    if c.state.SlashAfterScheme1? && ch != '/' {
      u := t.(separator := ":");
    } else if c.state.SlashAfterScheme2? {
      u := t.(separator := "://");
    }
  }

  /** Within the authority and after it. */
  predicate Extends(t: Trace, c: Conf, ch: char, u: Trace) {
    var d := Step(c, ch);
    && PastScheme(d.state) && u.separator == t.separator && d.url.scheme == c.url.scheme
    && d.valid && !d.aborted && AreParts(u, d) && AreInPlace(u, d) && AuthorityOn(u, d) == AuthorityOn(t, c) + [ch]
  }

  lemma ExtendsFollows(t: Trace, c: Conf, ch: char, u: Trace)
    requires IsTrace(t, c) && PastScheme(c.state) && Extends(t, c, ch, u)
    ensures Follows(t, c, ch, u)
  {
    hide AreParts, AreInPlace, Step, AuthorityOn;
  }

  lemma StillNoNumber(s: string, ch: char)
    ensures !IsDigitText(s) || !IsDigit(ch) ==> !IsDigitText(s + [ch])
  {
    if !IsDigitText(s) {
      var i :| 0 <= i < |s| && !IsDigit(s[i]);
      assert (s + [ch])[i] == s[i];
    } else if !IsDigit(ch) {
      assert (s + [ch])[|s|] == ch;
    }
  }

  lemma NameTrace(t: Trace, c: Conf, ch: char) returns (u: Trace)
    requires GoesOn(t, c, ch) && c.state.UsernameOrHostname?
    ensures Extends(t, c, ch, u)
  {
    hide WithoutMarks, PortNumber;
    u := if ch == '@' then t.(hasUser := true) else t;
  }

  lemma PasswordTrace(t: Trace, c: Conf, ch: char) returns (u: Trace)
    requires GoesOn(t, c, ch) && c.state.Password?
    ensures Extends(t, c, ch, u)
  {
    hide WithoutMarks, PortNumber;
    StillNoNumber(c.url.password, ch);
    u := if ch == '@' then t.(hasUser := true) else t;
  }

  lemma HostTrace(t: Trace, c: Conf, ch: char)
    requires GoesOn(t, c, ch) && c.state.Hostname?
    ensures Extends(t, c, ch, t)
  {
    hide WithoutMarks, PortNumber, UserText, IsPasswordText, IsSchemeText, IsDigitText;
  }

  lemma PortOrPasswordTrace(t: Trace, c: Conf, ch: char) returns (u: Trace)
    requires GoesOn(t, c, ch) && c.state.PortOrPassword?
    ensures Extends(t, c, ch, u)
  {
    hide WithoutMarks, PortNumber;
    StillNoNumber(c.portOrPassword, ch);
    u := if IsDigit(ch) then t else if ch == '/' then t.(hasPort := true) else t.(hasPassword := true);
  }

  lemma PortTrace(t: Trace, c: Conf, ch: char) returns (u: Trace)
    requires GoesOn(t, c, ch) && c.state.Port?
    ensures Extends(t, c, ch, u)
  {
    hide WithoutMarks, PortNumber;
    u := if ch == '/' then t.(hasPort := true) else t;
  }

  lemma MarksStep(s: string, ch: char)
    ensures WithoutMarks(s + [ch]) == if ch == '?' then WithoutMarks(s) else WithoutMarks(s) + [ch]
  {
    assert (s + [ch])[..|s|] == s;
  }

  lemma PathTrace(t: Trace, c: Conf, ch: char) returns (u: Trace)
    requires GoesOn(t, c, ch) && c.state.Path?
    ensures Extends(t, c, ch, u)
  {
    hide WithoutMarks, PortNumber, UserText, PortText, IsName, IsPasswordText, IsSchemeText, IsDigitText;
    u := t;
    if ch == '?' {
      u := t.(hasQuery := true);
    } else if ch == '#' {
      u := t.(hasFragment := true);
    }
    TailGrows(t, c, ch, u);
  }

  lemma QueryTrace(t: Trace, c: Conf, ch: char) returns (u: Trace)
    requires GoesOn(t, c, ch) && c.state.Query?
    ensures Extends(t, c, ch, u)
  {
    hide WithoutMarks, PortNumber, UserText, PortText, IsName, IsPasswordText, IsSchemeText, IsDigitText;
    if ch == '#' {
      u := t.(hasFragment := true);
    } else {
      MarksStep(t.query, ch);
      u := t.(query := t.query + [ch]);
    }
    TailGrows(t, c, ch, u);
  }

  lemma FragmentTrace(t: Trace, c: Conf, ch: char)
    requires GoesOn(t, c, ch) && c.state.Fragment?
    ensures Extends(t, c, ch, t)
  {
    hide WithoutMarks, PortNumber, UserText, PortText, IsName, IsPasswordText, IsSchemeText, IsDigitText;
    TailGrows(t, c, ch, t);
  }

  lemma TailGrows(t: Trace, c: Conf, ch: char, u: Trace)
    requires PastAuthority(c.state) && TailText(u, Step(c, ch).url) == TailText(t, c.url) + [ch]
    requires PastAuthority(Step(c, ch).state) && Step(c, ch).url.username == c.url.username
    requires Step(c, ch).url.password == c.url.password && Step(c, ch).url.hostname == c.url.hostname
    requires Step(c, ch).url.port == c.url.port
    requires u.hasUser == t.hasUser && u.hasPassword == t.hasPassword && u.hasPort == t.hasPort
    ensures AuthorityOn(u, Step(c, ch)) == AuthorityOn(t, c) + [ch]
  {
    hide TailText, Step;
  }

  lemma TraceStep(t: Trace, c: Conf, ch: char) returns (u: Trace)
    requires GoesOn(t, c, ch)
    ensures Follows(t, c, ch, u)
  {
    hide Follows, Extends, AreParts, AreInPlace, StartsRight, TextOf;
    u := t;
    match c.state
    case Scheme | SlashAfterScheme1 | SlashAfterScheme2 => u := SchemeTrace(t, c, ch);
    case UsernameOrHostname => u := NameTrace(t, c, ch); ExtendsFollows(t, c, ch, u);
    case PortOrPassword => u := PortOrPasswordTrace(t, c, ch); ExtendsFollows(t, c, ch, u);
    case Password => u := PasswordTrace(t, c, ch); ExtendsFollows(t, c, ch, u);
    case Hostname => HostTrace(t, c, ch); ExtendsFollows(t, c, ch, u);
    case IPV6Hostname => assert false;
    case Port => u := PortTrace(t, c, ch); ExtendsFollows(t, c, ch, u);
    case Path => u := PathTrace(t, c, ch); ExtendsFollows(t, c, ch, u);
    case Query => u := QueryTrace(t, c, ch); ExtendsFollows(t, c, ch, u);
    case Fragment => FragmentTrace(t, c, ch); ExtendsFollows(t, c, ch, u);
  }

  const NO_TRACE := Trace("://", false, false, false, false, false, "")

  lemma StartTrace()
    ensures IsTrace(NO_TRACE, Start()) && TextOf(NO_TRACE, Start()) == ""
  {
    assert PortNumber("") == 0;
  }

  lemma RunPrefix(s: string, n: nat)
    requires n <= |s| && Run(Start(), s).valid && !Run(Start(), s).aborted
    ensures Run(Start(), s[..n]).valid && !Run(Start(), s[..n]).aborted
  {
    hide Run;
    RunAppend(Start(), s[..n], s[n..]);
    assert s == s[..n] + s[n..];
    Stuck(Run(Start(), s[..n]), s[n..]);
  }

  lemma Stuck(c: Conf, s: string)
    ensures !c.valid || c.aborted ==> Run(c, s) == c
  {
  }

  /** Every text that the parser neither rejects nor aborts on is made of the parts it collected, each in
      its alphabet, in the order of section 3 of RFC 3986, and nothing else. */
  lemma {:induction false} AcceptsOnlyParts(s: string) returns (t: Trace)
    requires Run(Start(), s).valid && !Run(Start(), s).aborted
    ensures IsTrace(t, Run(Start(), s)) && TextOf(t, Run(Start(), s)) == s
    decreases |s|
  {
    hide Run, Step, IsTrace, TextOf;
    if s == "" {
      t := NO_TRACE;
      NothingRead();
      StartTrace();
    } else {
      var n := |s| - 1;
      assert s == s[..n] + [s[n]];
      RunPrefix(s, n);
      RunAppend(Start(), s[..n], [s[n]]);
      RunByte(Run(Start(), s[..n]), s[n]);
      t := AcceptsOnlyParts(s[..n]);
      t := TraceStep(t, Run(Start(), s[..n]), s[n]);
    }
  }

  lemma NothingRead()
    ensures Run(Start(), "") == Start()
  {
  }

  // ---- and texts outside the printed form ----------------------------------------------------------

  /** The two slashes may be left out before a letter or a digit. */
  lemma SlashesAreOptional(scheme: string, more: string)
    requires IsSchemeText(scheme) && more != "" && IsAlnum(more[0])
    ensures Run(Start(), scheme + ":" + more) == Run(Start(), scheme + "://" + more)
  {
    hide Run;
    var c, d := Start().(url := EMPTY_URL.(scheme := scheme, path := "/")), AtAuthority(scheme);
    var colon := c.(state := SlashAfterScheme1);
    var e := d.(usernameOrHostname := [more[0]]);
    CollectThen(Start(), InScheme, scheme, ':');
    assert "" + scheme == scheme;
    ReadScheme(scheme);
    assert more == [more[0]] + more[1..];
    RunAppend(Start(), scheme + ":", more);
    RunAppend(Start(), scheme + "://", more);
    RunByte(colon, more[0]);
    RunByte(d, more[0]);
    assert "" + [more[0]] == [more[0]];
    RunAppend(colon, [more[0]], more[1..]);
    RunAppend(d, [more[0]], more[1..]);
  }

  /** Further question marks in a query are dropped. */
  lemma {:induction false} QueryDropsMarks(c: Conf, q: string)
    requires c.valid && !c.aborted && c.state.Query? && '#' !in q
    ensures Run(c, q) == c.(url := c.url.(query := c.url.query + WithoutMarks(q)))
  {
    hide Run;
    if q == "" {
      assert c.url.query + "" == c.url.query;
      NothingRun(c);
    } else {
      var n := |q| - 1;
      assert q == q[..n] + [q[n]];
      QueryDropsMarks(c, q[..n]);
      RunAppend(c, q[..n], [q[n]]);
      RunByte(Run(c, q[..n]), q[n]);
    }
  }

  lemma NothingRun(c: Conf)
    ensures Run(c, "") == c
  {
  }

  // ---- URLs without a path -------------------------------------------------------------------------

  function PortPart(p: Parts): string {
    match p.port case Some(port) => ":" + port case None => ""
  }

  /** A URL that ends with its host or its port. */
  function WithoutPath(p: Parts): string {
    p.scheme + "://" + (PrintUser(p) + (p.host + PortPart(p)))
  }

  /** Where the host begins. */
  function AtHostOf(p: Parts): Conf {
    match p.user case Some(user) => AtHost(p.scheme, user) case None => AtAuthority(p.scheme)
  }

  lemma ReadUserOf(p: Parts)
    requires IsUrl(p)
    ensures Run(AtAuthority(p.scheme), PrintUser(p)) == AtHostOf(p)
  {
    hide Run;
    match p.user
    case None => NothingRun(AtAuthority(p.scheme));
    case Some(User(name, None)) => ReadUserName(p.scheme, name);
    case Some(User(name, Some(password))) => ReadUserAndPassword(p.scheme, name, password);
  }

  /** After the host and the port of `p`. */
  function AfterPort(p: Parts): Conf {
    var c := AtHostOf(p);
    var d := if p.user.Some? then c.(url := c.url.(hostname := p.host)) else c.(usernameOrHostname := p.host);
    if p.port.None? then d
    else d.(state := if p.user.Some? then Port else PortOrPassword, portOrPassword := OrEmpty(p.port))
  }

  lemma ReadHostOf(p: Parts)
    requires IsUrl(p)
    ensures Run(AtHostOf(p), p.host + PortPart(p)) == AfterPort(p)
  {
    hide Run;
    var c := AtHostOf(p);
    var f := if p.user.Some? then InHost else InName;
    assert "" + p.host == p.host;
    match p.port
    case None =>
      Collect(c, f, p.host);
      assert p.host + "" == p.host;
    case Some(port) =>
      var d := Put(c, f, p.host).(state := if p.user.Some? then Port else PortOrPassword);
      CollectThen(c, f, p.host, ':');
      Collect(d, InDigits, port);
      assert "" + port == port;
      RunAppend(c, p.host + ":", port);
      assert p.host + (":" + port) == p.host + ":" + port;
  }

  /** A URL may end with its host: it is parsed as with the path "/". After a port it may not: the
      digits are left over for the final assertion, unless there are none. */
  lemma PathIsOptionalIff(p: Parts)
    requires IsUrl(p) && p.path == "" && p.query.None? && p.fragment.None?
    ensures var c := Run(Start(), WithoutPath(p));
            && c.valid && !c.aborted
            && (c.portOrPassword == "" <==> OrEmpty(p.port) == "")
            && (c.portOrPassword == "" ==> Finished(c) == UrlOf(p))
  {
    hide Run, PrintUser, IsUrl, AtHostOf, AfterPort;
    assert IsSchemeText(p.scheme) by { UrlScheme(p); }
    ReadScheme(p.scheme);
    ReadUserOf(p);
    ReadHostOf(p);
    RunAppend(AtAuthority(p.scheme), PrintUser(p), p.host + PortPart(p));
    RunAppend(Start(), p.scheme + "://", PrintUser(p) + (p.host + PortPart(p)));
    PathlessIsUrl(p);
  }

  lemma PathlessIsUrl(p: Parts)
    requires p.path == "" && p.query.None? && p.fragment.None?
    ensures var c := AfterPort(p);
            && c.valid && !c.aborted && c.portOrPassword == OrEmpty(p.port)
            && (c.portOrPassword == "" ==> Finished(c) == UrlOf(p))
  {
    assert PortNumber("") == 0;
  }
}
