/** The stand-alone URL parser. */
module UrlText {
  import opened Bytes
  import opened Options

  datatype Url = Url(scheme: string, username: string, password: string, hostname: string, port: string,
                     path: string, query: string, fragment: string, integerPort: nat)

  const EMPTY_URL := Url("", "", "", "", "", "", "", "", 0)

  datatype State =
    | Scheme | SlashAfterScheme1 | SlashAfterScheme2 | UsernameOrHostname | Password | Hostname | IPV6Hostname
    | PortOrPassword | Port | Path | Query | Fragment

  /** The locals of `parse_` and the fields it fills; `aborted` stands for a call of `abort`. */
  datatype Conf = Conf(state: State, usernameOrHostname: string, portOrPassword: string,
                       valid: bool, aborted: bool, url: Url)

  predicate IsUnreserved(c: char) {
    IsAlnum(c) || c == '-' || c == '.' || c == '_' || c == '~'
  }

  predicate IsNameChar(c: char) {
    IsUnreserved(c) || c == '%'
  }

  function Invalid(c: Conf): Conf {
    c.(valid := false, url := EMPTY_URL)
  }

  /** `atoi` into a 16-bit port number. */
  function PortNumber(port: string): nat {
    Atoi(port) % 0x1_0000
  }

  function Step(c: Conf, ch: char): Conf {
    var url := c.url;
    match c.state
    case Scheme =>
      if IsAlnum(ch) || ch == '+' || ch == '-' || ch == '.' then c.(url := url.(scheme := url.scheme + [ch]))
      else if ch == ':' then c.(state := SlashAfterScheme1)
      else Invalid(c)
    case SlashAfterScheme1 =>
      if ch == '/' then c.(state := SlashAfterScheme2)
      else if IsAlnum(ch) then c.(state := UsernameOrHostname, usernameOrHostname := [ch])
      else Invalid(c)
    case SlashAfterScheme2 => if ch == '/' then c.(state := UsernameOrHostname) else Invalid(c)
    case UsernameOrHostname =>
      if IsNameChar(ch) then c.(usernameOrHostname := c.usernameOrHostname + [ch])
      else if ch == ':' then c.(state := PortOrPassword)
      else if ch == '@' then
        c.(state := Hostname, url := url.(username := c.usernameOrHostname), usernameOrHostname := url.username)
      else if ch == '/' then
        c.(state := Path, url := url.(hostname := c.usernameOrHostname), usernameOrHostname := url.hostname)
      else Invalid(c)
    case Password =>
      if IsAlnum(ch) || ch == '%' then c.(url := url.(password := url.password + [ch]))
      else if ch == '@' then c.(state := Hostname)
      else Invalid(c)
    case Hostname =>
      if ch == '[' && url.hostname == "" then c.(state := IPV6Hostname)
      else if IsNameChar(ch) then c.(url := url.(hostname := url.hostname + [ch]))
      else if ch == ':' then c.(state := Port)
      else if ch == '/' then c.(state := Path)
      else Invalid(c)
    case IPV6Hostname => c.(aborted := true)
    case PortOrPassword =>
      if IsDigit(ch) then c.(portOrPassword := c.portOrPassword + [ch])
      else if ch == '/' then
        c.(state := Path, usernameOrHostname := url.hostname, portOrPassword := url.port,
           url := url.(hostname := c.usernameOrHostname, port := c.portOrPassword,
                       integerPort := PortNumber(c.portOrPassword)))
      else if IsAlnum(ch) || ch == '%' then
        c.(state := Password, usernameOrHostname := url.username, portOrPassword := url.password,
           url := url.(username := c.usernameOrHostname, password := c.portOrPassword + [ch]))
      else Invalid(c)
    case Port =>
      if IsDigit(ch) then c.(portOrPassword := c.portOrPassword + [ch])
      else if ch == '/' then
        c.(state := Path, portOrPassword := url.port,
           url := url.(port := c.portOrPassword, integerPort := PortNumber(c.portOrPassword)))
      else Invalid(c)
    case Path =>
      if ch == '#' then c.(state := Fragment)
      else if ch == '?' then c.(state := Query)
      else c.(url := url.(path := url.path + [ch]))
    case Query =>
      if ch == '#' then c.(state := Fragment)
      else if ch == '?' then c
      else c.(url := url.(query := url.query + [ch]))
    case Fragment => c.(url := url.(fragment := url.fragment + [ch]))
  }

  function Start(): Conf {
    Conf(Scheme, "", "", true, false, EMPTY_URL.(path := "/"))
  }

  function Run(c: Conf, s: string): Conf
    decreases s
  {
    if s == "" || !c.valid || c.aborted then c else Run(Step(c, s[0]), s[1..])
  }

  /** After the loop a name that has found no place is the host. */
  function Finished(c: Conf): Url {
    if c.usernameOrHostname != "" then c.url.(hostname := c.usernameOrHostname) else c.url
  }

  class UrlParser {
    var valid: bool
    var url: Url

    constructor ()
      ensures !valid && url == EMPTY_URL
    {
      valid, url := false, EMPTY_URL;
    }

    /** `parse`. `completed` is false when the final assertion fails or `abort` is called. */
    method Parse(str: string) returns (completed: bool)
      modifies this
      ensures var c := Run(Start(), str);
              && (completed <==> !c.aborted && c.portOrPassword == "")
              && (completed ==> valid == c.valid && url == Finished(c))
    {
      var c := Start();
      var i := 0;
      while i < |str| && c.valid && !c.aborted
        invariant i <= |str| && Run(Start(), str) == Run(c, str[i..])
      {
        assert str[i..][1..] == str[i + 1..];
        c := Step(c, str[i]);
        i := i + 1;
      }
      assert Run(c, str[i..]) == c;
      valid, url := c.valid, c.url;
      if c.aborted || c.portOrPassword != "" {
        return false;
      }
      if c.usernameOrHostname != "" {
        url := url.(hostname := c.usernameOrHostname);
      }
      return true;
    }
  }

  // ---- the URLs that survive ---------------------------------------------------------------------

  datatype User = User(name: string, password: Option<string>)

  /** A URL in parts. The path is what follows its first slash. */
  datatype Parts = Parts(scheme: string, user: Option<User>, host: string, port: Option<string>,
                         path: string, query: Option<string>, fragment: Option<string>)

  predicate IsSchemeText(s: string) {
    forall i :: 0 <= i < |s| ==> IsAlnum(s[i]) || s[i] == '+' || s[i] == '-' || s[i] == '.'
  }

  predicate IsName(s: string) {
    forall i :: 0 <= i < |s| ==> IsNameChar(s[i])
  }

  predicate IsPasswordText(s: string) {
    forall i :: 0 <= i < |s| ==> IsAlnum(s[i]) || s[i] == '%'
  }

  predicate IsFreeOfMarks(s: string) {
    forall i :: 0 <= i < |s| ==> s[i] != '?' && s[i] != '#'
  }

  predicate IsUrl(p: Parts) {
    && IsSchemeText(p.scheme) && IsName(p.host)
    && (p.user.Some? ==> IsName(p.user.value.name)
                         && (p.user.value.password.Some? ==>
                               IsPasswordText(p.user.value.password.value) && !IsDigitText(p.user.value.password.value)))
    && (p.port.Some? ==> IsDigitText(p.port.value))
    && IsFreeOfMarks(p.path)
    && (p.query.Some? ==> IsFreeOfMarks(p.query.value))
  }

  function OrEmpty(o: Option<string>): string {
    match o case Some(s) => s case None => ""
  }

  function PrintUser(p: Parts): string {
    match p.user
    case None => ""
    case Some(User(name, None)) => name + "@"
    case Some(User(name, Some(password))) => name + ":" + password + "@"
  }

  function PrintHost(p: Parts): string {
    p.host + (match p.port case Some(port) => ":" + port case None => "") + "/"
  }

  function PrintRest(p: Parts): string {
    p.path + (match p.query case Some(q) => "?" + q case None => "")
    + (match p.fragment case Some(f) => "#" + f case None => "")
  }

  function Print(p: Parts): string {
    p.scheme + "://" + PrintUser(p) + PrintHost(p) + PrintRest(p)
  }

  function UrlOf(p: Parts): Url {
    Url(p.scheme,
        if p.user.Some? then p.user.value.name else "",
        if p.user.Some? then OrEmpty(p.user.value.password) else "",
        p.host, OrEmpty(p.port), "/" + p.path, OrEmpty(p.query), OrEmpty(p.fragment),
        PortNumber(OrEmpty(p.port)))
  }

  // ---- reading back --------------------------------------------------------------------------------

  lemma {:induction false} RunAppend(c: Conf, a: string, b: string)
    ensures Run(c, a + b) == Run(Run(c, a), b)
    decreases a
  {
    if a == "" {
      assert a + b == b;
    } else if c.valid && !c.aborted {
      assert (a + b)[1..] == a[1..] + b;
      RunAppend(Step(c, a[0]), a[1..], b);
    }
  }

  lemma RunByte(c: Conf, ch: char)
    requires c.valid && !c.aborted
    ensures Run(c, [ch]) == Step(c, ch)
  {
    assert [ch][1..] == "";
  }

  /** The text a state collects. */
  datatype Field = InScheme | InName | InDigits | InPassword | InHost | InPath | InQuery | InFragment

  function Get(c: Conf, f: Field): string {
    match f
    case InScheme => c.url.scheme
    case InName => c.usernameOrHostname
    case InDigits => c.portOrPassword
    case InPassword => c.url.password
    case InHost => c.url.hostname
    case InPath => c.url.path
    case InQuery => c.url.query
    case InFragment => c.url.fragment
  }

  function Put(c: Conf, f: Field, s: string): Conf {
    match f
    case InScheme => c.(url := c.url.(scheme := s))
    case InName => c.(usernameOrHostname := s)
    case InDigits => c.(portOrPassword := s)
    case InPassword => c.(url := c.url.(password := s))
    case InHost => c.(url := c.url.(hostname := s))
    case InPath => c.(url := c.url.(path := s))
    case InQuery => c.(url := c.url.(query := s))
    case InFragment => c.(url := c.url.(fragment := s))
  }

  /** Bytes that a state appends to its field. */
  lemma {:induction false} Collect(c: Conf, f: Field, s: string)
    requires c.valid && !c.aborted
    requires forall t: string, i :: 0 <= i < |s| ==> Step(Put(c, f, t), s[i]) == Put(c, f, t + [s[i]])
    ensures Run(c, s) == Put(c, f, Get(c, f) + s)
    decreases s
  {
    hide Step;
    var t := Get(c, f);
    assert Put(c, f, t) == c;
    if s == "" {
      assert t + s == t;
    } else {
      var d := Put(c, f, t + [s[0]]);
      assert Step(c, s[0]) == d;
      forall u: string, i | 0 <= i < |s[1..]| ensures Step(Put(d, f, u), s[1..][i]) == Put(d, f, u + [s[1..][i]]) {
        assert Put(d, f, u) == Put(c, f, u) && s[1..][i] == s[i + 1];
      }
      Collect(d, f, s[1..]);
      assert t + [s[0]] + s[1..] == t + s;
    }
  }

  /** Collect `s`, then take the byte `ch`. */
  lemma CollectThen(c: Conf, f: Field, s: string, ch: char)
    requires c.valid && !c.aborted
    requires forall t: string, i :: 0 <= i < |s| ==> Step(Put(c, f, t), s[i]) == Put(c, f, t + [s[i]])
    ensures Run(c, s + [ch]) == Step(Put(c, f, Get(c, f) + s), ch)
  {
    hide Step, Run;
    Collect(c, f, s);
    RunAppend(c, s, [ch]);
    RunByte(Put(c, f, Get(c, f) + s), ch);
  }

  /** Where the authority part begins. */
  function AtAuthority(scheme: string): Conf {
    Conf(UsernameOrHostname, "", "", true, false, EMPTY_URL.(scheme := scheme, path := "/"))
  }

  lemma ReadScheme(scheme: string)
    requires IsSchemeText(scheme)
    ensures Run(Start(), scheme + "://") == AtAuthority(scheme)
  {
    hide Run;
    var c := AtAuthority(scheme);
    CollectThen(Start(), InScheme, scheme, ':');
    assert "" + scheme == scheme;
    RunByte(c.(state := SlashAfterScheme1), '/');
    RunByte(c.(state := SlashAfterScheme2), '/');
    RunAppend(c.(state := SlashAfterScheme1), "/", "/");
    RunAppend(Start(), scheme + ":", "//");
    assert scheme + ":" + "//" == scheme + "://" && "/" + "/" == "//";
  }

  function AtHost(scheme: string, user: User): Conf {
    Conf(Hostname, "", "", true, false,
         EMPTY_URL.(scheme := scheme, path := "/", username := user.name, password := OrEmpty(user.password)))
  }

  lemma ReadUserName(scheme: string, name: string)
    requires IsName(name)
    ensures Run(AtAuthority(scheme), name + "@") == AtHost(scheme, User(name, None))
  {
    hide Run;
    CollectThen(AtAuthority(scheme), InName, name, '@');
    assert "" + name == name;
  }

  lemma {:induction false} FirstNonDigit(s: string) returns (n: nat)
    requires !IsDigitText(s)
    ensures n < |s| && !IsDigit(s[n]) && IsDigitText(s[..n])
    decreases s
  {
    if !IsDigit(s[0]) {
      n := 0;
    } else {
      assert forall i :: 1 <= i < |s| ==> s[i] == s[1..][i - 1];
      var k := FirstNonDigit(s[1..]);
      n := k + 1;
      assert forall i :: 1 <= i < n ==> s[..n][i] == s[1..][..k][i - 1];
    }
  }

  /** After the colon of a name: digits first, then from the first other byte a password. */
  lemma ReadPassword(c: Conf, name: string, password: string)
    requires c.valid && !c.aborted && c.state.PortOrPassword? && c.usernameOrHostname == name && c.portOrPassword == ""
    requires IsPasswordText(password) && !IsDigitText(password) && c.url.username == "" && c.url.password == ""
    ensures Run(c, password + "@")
         == c.(state := Hostname, usernameOrHostname := "", portOrPassword := "",
               url := c.url.(username := name, password := password))
  {
    hide Run;
    var n := FirstNonDigit(password);
    var digits, more := password[..n], password[n + 1..];
    var d := c.(state := Password, usernameOrHostname := "", portOrPassword := "",
                url := c.url.(username := name, password := digits + [password[n]]));
    assert "" + digits == digits;
    CollectThen(c, InDigits, digits, password[n]);
    CollectThen(d, InPassword, more, '@');
    RunAppend(c, digits + [password[n]], more + "@");
    assert password == digits + [password[n]] + more;
    assert digits + [password[n]] + (more + "@") == password + "@";
  }

  lemma ReadUserAndPassword(scheme: string, name: string, password: string)
    requires IsName(name) && IsPasswordText(password) && !IsDigitText(password)
    ensures Run(AtAuthority(scheme), name + ":" + password + "@") == AtHost(scheme, User(name, Some(password)))
  {
    hide Run;
    var c := AtAuthority(scheme);
    CollectThen(c, InName, name, ':');
    assert "" + name == name;
    ReadPassword(c.(state := PortOrPassword, usernameOrHostname := name), name, password);
    RunAppend(c, name + ":", password + "@");
    assert name + ":" + (password + "@") == name + ":" + password + "@";
  }

  function AtPath(p: Parts): Conf {
    Conf(Path, "", "", true, false, UrlOf(p).(path := "/", query := "", fragment := ""))
  }

  lemma ReadBareHostAndPort(c: Conf, host: string, port: string)
    requires c.state.UsernameOrHostname? && c.valid && !c.aborted
    requires c.usernameOrHostname == "" && c.portOrPassword == "" && c.url.hostname == "" && c.url.port == ""
    requires IsName(host) && IsDigitText(port)
    ensures Run(c, host + (":" + port) + "/")
         == c.(state := Path, url := c.url.(hostname := host, port := port, integerPort := PortNumber(port)))
  {
    hide Run, PortNumber;
    var d := c.(state := PortOrPassword, usernameOrHostname := host);
    CollectThen(c, InName, host, ':');
    CollectThen(d, InDigits, port, '/');
    assert "" + port == port && "" + host == host;
    RunAppend(c, host + ":", port + "/");
    assert host + (":" + port) + "/" == host + ":" + (port + "/");
  }

  /** A host without a user name before it. */
  lemma ReadBareHost(p: Parts)
    requires IsUrl(p) && p.user.None?
    ensures Run(AtAuthority(p.scheme), PrintHost(p)) == AtPath(p)
  {
    hide Run;
    var c := AtAuthority(p.scheme);
    match p.port
    case None =>
      CollectThen(c, InName, p.host, '/');
      assert p.host + "" + "/" == p.host + ['/'] && "" + p.host == p.host;
    case Some(port) =>
      hide Step, PortNumber;
      ReadBareHostAndPort(c, p.host, port);
  }

  lemma ReadHostAndPort(c: Conf, host: string, port: string)
    requires c.state.Hostname? && c.valid && !c.aborted && c.url.hostname == "" && c.portOrPassword == ""
    requires IsName(host) && IsDigitText(port) && c.url.port == ""
    ensures Run(c, host + (":" + port) + "/")
         == c.(state := Path, url := c.url.(hostname := host, port := port, integerPort := PortNumber(port)))
  {
    hide Run, PortNumber;
    var d := c.(state := Port, url := c.url.(hostname := host));
    CollectThen(c, InHost, host, ':');
    CollectThen(d, InDigits, port, '/');
    assert "" + port == port && "" + host == host;
    RunAppend(c, host + ":", port + "/");
    assert host + (":" + port) + "/" == host + ":" + (port + "/");
  }

  lemma ReadHost(p: Parts)
    requires IsUrl(p) && p.user.Some?
    ensures Run(AtHost(p.scheme, p.user.value), PrintHost(p)) == AtPath(p)
  {
    hide Run;
    var c := AtHost(p.scheme, p.user.value);
    match p.port
    case None =>
      CollectThen(c, InHost, p.host, '/');
      assert p.host + "" + "/" == p.host + ['/'] && "" + p.host == p.host;
    case Some(port) =>
      hide Step, PortNumber;
      ReadHostAndPort(c, p.host, port);
  }

  lemma ReadAuthority(p: Parts)
    requires IsUrl(p)
    ensures Run(AtAuthority(p.scheme), PrintUser(p) + PrintHost(p)) == AtPath(p)
  {
    hide Run, PrintHost;
    match p.user
    case None =>
      ReadBareHost(p);
      assert "" + PrintHost(p) == PrintHost(p);
    case Some(User(name, None)) =>
      ReadUserName(p.scheme, name);
      ReadHost(p);
      RunAppend(AtAuthority(p.scheme), name + "@", PrintHost(p));
    case Some(User(name, Some(password))) =>
      ReadUserAndPassword(p.scheme, name, password);
      ReadHost(p);
      RunAppend(AtAuthority(p.scheme), name + ":" + password + "@", PrintHost(p));
  }

  lemma CollectQuery(c: Conf, s: string)
    requires c.valid && !c.aborted && c.state.Query? && c.url.query == "" && IsFreeOfMarks(s)
    ensures Run(c, s) == Put(c, InQuery, s)
  {
    hide Run;
    Collect(c, InQuery, s);
    assert "" + s == s;
  }

  lemma CollectFragment(c: Conf, s: string)
    requires c.valid && !c.aborted && c.state.Fragment? && c.url.fragment == ""
    ensures Run(c, s) == Put(c, InFragment, s)
  {
    hide Run;
    Collect(c, InFragment, s);
    assert "" + s == s;
  }

  /** From the query on, or from the fragment on. */
  lemma ReadMarked(c: Conf, mark: char, text: Option<string>, next: State, f: Field)
    requires c.valid && !c.aborted
    requires (mark == '?' && next == Query && f == InQuery && c.state.Path? && c.url.query == ""
              && (text.Some? ==> IsFreeOfMarks(text.value)))
          || (mark == '#' && next == Fragment && f == InFragment && (c.state.Path? || c.state.Query?) && c.url.fragment == "")
    ensures Run(c, match text case Some(t) => [mark] + t case None => "")
         == match text case Some(t) => Put(c.(state := next), f, t) case None => c
  {
    match text
    case None =>
    case Some(t) =>
      hide Run;
      var d := c.(state := next);
      RunByte(c, mark);
      if mark == '?' {
        CollectQuery(d, t);
      } else {
        CollectFragment(d, t);
      }
      RunAppend(c, [mark], t);
  }

  lemma ReadRest(p: Parts)
    requires IsUrl(p)
    ensures var c := Run(AtPath(p), PrintRest(p));
            c.valid && !c.aborted && c.portOrPassword == "" && c.usernameOrHostname == "" && c.url == UrlOf(p)
  {
    hide Run;
    var c := AtPath(p);
    var q, f := match p.query case Some(t) => "?" + t case None => "", match p.fragment case Some(t) => "#" + t case None => "";
    Collect(c, InPath, p.path);
    var d := c.(url := c.url.(path := "/" + p.path));
    ReadMarked(d, '?', p.query, Query, InQuery);
    RunAppend(c, p.path, q);
    var e := Run(c, p.path + q);
    ReadMarked(e, '#', p.fragment, Fragment, InFragment);
    RunAppend(c, p.path + q, f);
  }

  /** Printing any such URL and parsing it gives the record back: the parse is valid, satisfies the
      final assertion, and every part is where it belongs. */
  lemma UrlRoundTrip(p: Parts)
    requires IsUrl(p)
    ensures var c := Run(Start(), Print(p));
            c.valid && !c.aborted && c.portOrPassword == "" && Finished(c) == UrlOf(p)
  {
    hide Run, PrintUser, PrintHost, PrintRest, IsUrl, UrlOf, AtPath;
    assert IsSchemeText(p.scheme) by { UrlScheme(p); }
    var a, b, r := p.scheme + "://", PrintUser(p) + PrintHost(p), PrintRest(p);
    ReadScheme(p.scheme);
    ReadAuthority(p);
    ReadRest(p);
    RunAppend(Start(), a, b);
    RunAppend(Start(), a + b, r);
    assert Print(p) == a + b + r;
  }

  lemma UrlScheme(p: Parts)
    requires IsUrl(p)
    ensures IsSchemeText(p.scheme)
  {
  }

  /** A password of digits only is not one: the parser takes it for a port and rejects the text, and
      with digits already collected its final assertion fails. */
  lemma DigitsAreNoPassword(scheme: string, name: string, digits: string, more: string)
    requires IsSchemeText(scheme) && IsName(name) && IsDigitText(digits)
    ensures var c := Run(Start(), scheme + "://" + name + ":" + digits + "@" + more);
            !c.valid && c.portOrPassword == digits
  {
    hide Run;
    var a, b := scheme + "://", name + ":" + (digits + "@");
    ReadScheme(scheme);
    ReadNameAndDigits(scheme, name, digits);
    RunAppend(Start(), a, b);
    RunAppend(Start(), a + b, more);
    InvalidStays(Run(Start(), a + b), more);
    assert scheme + "://" + name + ":" + digits + "@" + more == a + b + more;
  }

  lemma ReadNameAndDigits(scheme: string, name: string, digits: string)
    requires IsName(name) && IsDigitText(digits)
    ensures var c := Run(AtAuthority(scheme), name + ":" + (digits + "@")); !c.valid && c.portOrPassword == digits
  {
    hide Run;
    var c := AtAuthority(scheme);
    var d := c.(state := PortOrPassword, usernameOrHostname := name);
    CollectThen(c, InName, name, ':');
    CollectThen(d, InDigits, digits, '@');
    assert "" + name == name && "" + digits == digits;
    RunAppend(c, name + ":", digits + "@");
  }

  lemma InvalidStays(c: Conf, s: string)
    requires !c.valid
    ensures Run(c, s) == c
  {
  }

  /** A port is its number modulo 65536; only numbers above that are misread. */
  lemma PortMeaning(port: string)
    requires IsDigitText(port)
    ensures PortNumber(port) == DecimalNumber(port) % 65536
  {
    hide Atoi, DecimalNumber;
    AtoiMeaning("", port, "");
    assert "" + (port + "") == port;
  }

  /** A host in brackets is not read: after a user name the parser aborts at the first byte in them,
      without one it rejects the bracket. */
  lemma BracketsAreNotRead(scheme: string, name: string, x: char, more: string)
    requires IsSchemeText(scheme) && IsName(name)
    ensures Run(Start(), scheme + "://" + (name + "@") + ['[', x] + more).aborted
    ensures !Run(Start(), scheme + "://" + "[" + more).valid
  {
    hide Run;
    var c, d := AtAuthority(scheme), AtHost(scheme, User(name, None));
    var e := d.(state := IPV6Hostname);
    ReadScheme(scheme);
    ReadUserName(scheme, name);
    RunByte(d, '[');
    RunByte(e, x);
    RunAppend(d, "[", [x]);
    assert "[" + [x] == ['[', x];
    RunAppend(Start(), scheme + "://", name + "@");
    RunAppend(Start(), scheme + "://" + (name + "@"), ['[', x]);
    RunAppend(Start(), scheme + "://" + (name + "@") + ['[', x], more);
    AbortStays(Run(Start(), scheme + "://" + (name + "@") + ['[', x]), more);
    RunByte(c, '[');
    RunAppend(Start(), scheme + "://", "[");
    RunAppend(Start(), scheme + "://" + "[", more);
    InvalidStays(Run(Start(), scheme + "://" + "["), more);
  }

  lemma AbortStays(c: Conf, s: string)
    requires c.aborted
    ensures Run(c, s) == c
  {
  }
}
