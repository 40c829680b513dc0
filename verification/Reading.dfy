/** How the parser reads what the printer writes, piece by piece. */
module Reading {
  import opened Bytes
  import opened Messages
  import opened Parser

  lemma ReachesCons(c: Conf, ch: char, d: Conf, s: string)
    requires Valid(c) && Consume(c, ch) == Go(d)
    ensures Parse(c, [ch] + s) == Parse(d, s)
  {
    hide Parse, Consume;
    ParseCons(c, ch, s);
  }

  lemma ReachesNothing(c: Conf)
    requires Valid(c)
    ensures Reaches(c, "", c)
  {
  }

  lemma ReachesAppend(c: Conf, a: string, d: Conf, b: string, e: Conf)
    requires Valid(c) && Reaches(c, a, d) && Valid(d) && Reaches(d, b, e)
    ensures Reaches(c, a + b, e)
  {
    hide Parse;
    ReachesThen(c, a, d, b);
  }

  lemma ReachesTwo(c: Conf, a: char, d: Conf, b: char, e: Conf)
    requires Valid(c) && Consume(c, a) == Go(d) && Consume(d, b) == Go(e)
    ensures Reaches(c, [a, b], e)
  {
    hide Parse, Consume;
    ReachesByte(c, a, d);
    ReachesByte(d, b, e);
    ReachesAppend(c, [a], d, [b], e);
    assert [a] + [b] == [a, b];
  }

  // ---- the loops: states that append the byte they read -----------------------------------------

  lemma {:induction false} ReadVerb(c: Conf, s: string)
    requires c.state.RequestMethod? && c.msg.start.RequestLine?
    requires forall i :: 0 <= i < |s| ==> IsTokenChar(s[i])
    ensures Reaches(c, s, c.(msg := c.msg.(start := c.msg.start.(verb := c.msg.start.verb + s))))
    decreases s
  {
    hide Parse;
    var verb := c.msg.start.verb;
    if s == "" {
      ReachesNothing(c);
      assert verb + s == verb;
    } else {
      var ch, tail := s[0], s[1..];
      assert s == [ch] + tail;
      var d := c.(msg := c.msg.(start := c.msg.start.(verb := verb + [ch])));
      ReachesCons(c, ch, d, tail);
      ReadVerb(d, tail);
      assert verb + [ch] + tail == verb + s;
    }
  }

  lemma {:induction false} ReadUri(c: Conf, s: string)
    requires c.state.RequestUri? && c.msg.start.RequestLine?
    requires NoControls(s) && forall i :: 0 <= i < |s| ==> s[i] != ' '
    ensures Reaches(c, s, c.(msg := c.msg.(start := c.msg.start.(uri := c.msg.start.uri + s))))
    decreases s
  {
    hide Parse;
    var uri := c.msg.start.uri;
    if s == "" {
      ReachesNothing(c);
      assert uri + s == uri;
    } else {
      var ch, tail := s[0], s[1..];
      assert s == [ch] + tail;
      var d := c.(msg := c.msg.(start := c.msg.start.(uri := uri + [ch])));
      ReachesCons(c, ch, d, tail);
      ReadUri(d, tail);
      assert uri + [ch] + tail == uri + s;
    }
  }

  lemma {:induction false} ReadStatusText(c: Conf, s: string)
    requires c.state.StatusText? && c.msg.start.StatusLine?
    requires forall i :: 0 <= i < |s| ==> IsChar(s[i]) && s[i] != '\r'
    ensures Reaches(c, s, c.(msg := c.msg.(start := c.msg.start.(text := c.msg.start.text + s))))
    decreases s
  {
    hide Parse;
    var text := c.msg.start.text;
    if s == "" {
      ReachesNothing(c);
      assert text + s == text;
    } else {
      var ch, tail := s[0], s[1..];
      assert s == [ch] + tail;
      var d := c.(msg := c.msg.(start := c.msg.start.(text := text + [ch])));
      ReachesCons(c, ch, d, tail);
      ReadStatusText(d, tail);
      assert text + [ch] + tail == text + s;
    }
  }

  lemma {:induction false} ReadMajor(c: Conf, s: string)
    requires c.state.VersionMajor? && forall i :: 0 <= i < |s| ==> IsDigit(s[i])
    ensures Reaches(c, s, c.(msg := c.msg.(versionMajor := ReadDigits(c.msg.versionMajor, s))))
    decreases s
  {
    hide Parse;
    if s == "" {
      ReachesNothing(c);
    } else {
      var ch, tail := s[0], s[1..];
      assert s == [ch] + tail;
      var d := c.(msg := c.msg.(versionMajor := 10 * c.msg.versionMajor + DigitValue(ch)));
      ReachesCons(c, ch, d, tail);
      ReadMajor(d, tail);
    }
  }

  lemma {:induction false} ReadMinor(c: Conf, s: string)
    requires c.state.VersionMinor? && forall i :: 0 <= i < |s| ==> IsDigit(s[i])
    ensures Reaches(c, s, c.(msg := c.msg.(versionMinor := ReadDigits(c.msg.versionMinor, s))))
    decreases s
  {
    hide Parse;
    if s == "" {
      ReachesNothing(c);
    } else {
      var ch, tail := s[0], s[1..];
      assert s == [ch] + tail;
      var d := c.(msg := c.msg.(versionMinor := 10 * c.msg.versionMinor + DigitValue(ch)));
      ReachesCons(c, ch, d, tail);
      ReadMinor(d, tail);
    }
  }

  lemma {:induction false} ReadCode(c: Conf, s: string)
    requires c.state.StatusCode? && c.msg.start.StatusLine?
    requires forall i :: 0 <= i < |s| ==> IsDigit(s[i])
    ensures Reaches(c, s, c.(msg := c.msg.(start := c.msg.start.(code := ReadDigits(c.msg.start.code, s)))))
    decreases s
  {
    hide Parse;
    if s == "" {
      ReachesNothing(c);
    } else {
      var ch, tail := s[0], s[1..];
      assert s == [ch] + tail;
      var d := c.(msg := c.msg.(start := c.msg.start.(code := 10 * c.msg.start.code + DigitValue(ch))));
      ReachesCons(c, ch, d, tail);
      ReadCode(d, tail);
    }
  }

  /** The configuration while header `h` is being read after the headers `hs`. */
  function At(c: Conf, state: State, hs: seq<Header>, h: Header): Conf {
    c.(state := state, msg := c.msg.(headers := hs + [h]))
  }

  lemma PushAt(c: Conf, state: State, hs: seq<Header>, h: Header, ch: char)
    ensures var m := At(c, state, hs, h).msg;
            && PushName(m, ch) == At(c, state, hs, h.(name := h.name + [ch])).msg
            && PushValue(m, ch) == At(c, state, hs, h.(value := h.value + [ch])).msg
  {
    assert (hs + [h])[..|hs|] == hs;
  }

  lemma {:induction false} ReadName(c: Conf, hs: seq<Header>, h: Header, s: string)
    requires forall i :: 0 <= i < |s| ==> IsTokenChar(s[i])
    ensures Reaches(At(c, HeaderName, hs, h), s, At(c, HeaderName, hs, h.(name := h.name + s)))
    decreases s
  {
    hide Parse, RequestLineStep, VersionStep, StatusLineStep, ChunkStep;
    if s == "" {
      ReachesNothing(At(c, HeaderName, hs, h));
      assert h.name + s == h.name;
    } else {
      var ch, tail := s[0], s[1..];
      assert s == [ch] + tail;
      PushAt(c, HeaderName, hs, h, ch);
      var g := h.(name := h.name + [ch]);
      ReachesCons(At(c, HeaderName, hs, h), ch, At(c, HeaderName, hs, g), tail);
      ReadName(c, hs, g, tail);
      assert h.name + [ch] + tail == h.name + s;
    }
  }

  lemma {:induction false} ReadValue(c: Conf, hs: seq<Header>, h: Header, s: string)
    requires NoControls(s)
    ensures Reaches(At(c, HeaderValue, hs, h), s, At(c, HeaderValue, hs, h.(value := h.value + s)))
    decreases s
  {
    hide Parse, RequestLineStep, VersionStep, StatusLineStep, ChunkStep;
    if s == "" {
      ReachesNothing(At(c, HeaderValue, hs, h));
      assert h.value + s == h.value;
    } else {
      var ch, tail := s[0], s[1..];
      assert s == [ch] + tail;
      PushAt(c, HeaderValue, hs, h, ch);
      var g := h.(value := h.value + [ch]);
      ReachesCons(At(c, HeaderValue, hs, h), ch, At(c, HeaderValue, hs, g), tail);
      ReadValue(c, hs, g, tail);
      assert h.value + [ch] + tail == h.value + s;
    }
  }

  // ---- the start line ---------------------------------------------------------------------------

  lemma ReadHttp(c: Conf)
    requires Valid(c) && c.state.VersionH?
    ensures Reaches(c, ['H', 'T'] + ['T', 'P'], c.(state := VersionSlash))
  {
    hide Parse;
    var htt := c.(state := VersionHtt);
    ReachesTwo(c, 'H', c.(state := VersionHt), 'T', htt);
    ReachesTwo(htt, 'T', c.(state := VersionHttp), 'P', c.(state := VersionSlash));
    ReachesAppend(c, ['H', 'T'], htt, ['T', 'P'], c.(state := VersionSlash));
  }

  lemma ReadLiteral(c: Conf)
    requires Valid(c) && c.state.VersionH?
    ensures Reaches(c, "HTTP/", c.(state := VersionMajorStart, msg := c.msg.(versionMajor := 0, versionMinor := 0)))
  {
    hide Parse;
    var slash := c.(state := VersionSlash);
    var d := c.(state := VersionMajorStart, msg := c.msg.(versionMajor := 0, versionMinor := 0));
    ReadHttp(c);
    ReachesByte(slash, '/', d);
    ReachesAppend(c, ['H', 'T'] + ['T', 'P'], slash, "/", d);
    assert ['H', 'T'] + ['T', 'P'] + "/" == "HTTP/";
  }

  /** A number is its first digit and a tail that the digit loop turns into its value. */
  lemma NumberParts(s: string)
    requires IsNumber(s)
    ensures s == [s[0]] + s[1..] && ReadDigits(DigitValue(s[0]), s[1..]) == DecimalNumber(s)
  {
    hide DecimalNumber;
    ReadDigitsIsNumber(s);
  }

  function WithVersion(c: Conf, state: State, major: nat, minor: nat): Conf {
    c.(state := state, msg := c.msg.(versionMajor := major, versionMinor := minor))
  }

  lemma ReadMajorPart(c: Conf, digits: string)
    requires Valid(c) && c.state.VersionH? && IsNumber(digits)
    ensures Reaches(WithVersion(c, VersionMajorStart, 0, 0), digits + ".",
                    WithVersion(c, VersionMinorStart, DecimalNumber(digits), 0))
  {
    hide Parse, RequestLineStep, StatusLineStep, HeaderStep, ChunkStep, DecimalNumber, ReadDigits;
    NumberParts(digits);
    var major := DecimalNumber(digits);
    var c1, c2 := WithVersion(c, VersionMajorStart, 0, 0), WithVersion(c, VersionMajor, DigitValue(digits[0]), 0);
    var c3, c4 := WithVersion(c, VersionMajor, major, 0), WithVersion(c, VersionMinorStart, major, 0);
    ReachesCons(c1, digits[0], c2, digits[1..]);
    ReadMajor(c2, digits[1..]);
    ReachesByte(c3, '.', c4);
    ReachesAppend(c1, digits, c3, ".", c4);
  }

  lemma ReadMinorPart(c: Conf, major: nat, digits: string)
    requires Valid(c) && c.state.VersionH? && IsNumber(digits)
    ensures Reaches(WithVersion(c, VersionMinorStart, major, 0), digits,
                    WithVersion(c, VersionMinor, major, DecimalNumber(digits)))
  {
    hide Parse, RequestLineStep, StatusLineStep, HeaderStep, ChunkStep, DecimalNumber, ReadDigits;
    NumberParts(digits);
    var c1, c2 := WithVersion(c, VersionMinorStart, major, 0), WithVersion(c, VersionMinor, major, DigitValue(digits[0]));
    ReachesCons(c1, digits[0], c2, digits[1..]);
    ReadMinor(c2, digits[1..]);
  }

  function VersionText(major: string, minor: string): string {
    "HTTP/" + major + "." + minor
  }

  lemma ReadVersion(c: Conf, a: string, b: string)
    requires Valid(c) && c.state.VersionH? && IsNumber(a) && IsNumber(b)
    ensures Reaches(c, VersionText(a, b), WithVersion(c, VersionMinor, DecimalNumber(a), DecimalNumber(b)))
  {
    hide Parse, Consume, DecimalNumber, IsDigitText;
    var major, minor := DecimalNumber(a), DecimalNumber(b);
    var c1, c2 := WithVersion(c, VersionMajorStart, 0, 0), WithVersion(c, VersionMinorStart, major, 0);
    ReadLiteral(c);
    ReadMajorPart(c, a);
    ReadMinorPart(c, major, b);
    ReachesAppend(c, "HTTP/", c1, a + ".", c2);
    ReachesAppend(c, "HTTP/" + (a + "."), c2, b, WithVersion(c, VersionMinor, major, minor));
    assert "HTTP/" + (a + ".") + b == "HTTP/" + a + "." + b;
  }

  /** How the numbers of a start line are written. The status code is of no use in a request. */
  datatype Numbers = Numbers(major: string, minor: string, code: string)

  predicate Write(d: Numbers, m: Message) {
    && IsNumber(d.major) && DecimalNumber(d.major) == m.versionMajor
    && IsNumber(d.minor) && DecimalNumber(d.minor) == m.versionMinor
    && (m.start.StatusLine? ==> IsNumber(d.code) && DecimalNumber(d.code) == m.start.code)
  }

  function StartLineText(m: Message, d: Numbers): string {
    match m.start
    case RequestLine(verb, uri) => verb + " " + uri + " " + VersionText(d.major, d.minor)
    case StatusLine(_, text) => VersionText(d.major, d.minor) + " " + d.code + " " + text
  }

  function Printed(m: Message): Numbers {
    Numbers(Decimal(m.versionMajor), Decimal(m.versionMinor), if m.start.StatusLine? then Decimal(m.start.code) else "")
  }

  lemma PrintedNumbers(m: Message)
    ensures Write(Printed(m), m) && StartLineText(m, Printed(m)) == PrintStartLine(m)
  {
    hide DecimalNumber, Decimal;
    DecimalNumberOfPrinted(m.versionMajor);
    DecimalNumberOfPrinted(m.versionMinor);
    if m.start.StatusLine? {
      DecimalNumberOfPrinted(m.start.code);
    }
  }

  /** A fresh parser of the right kind. */
  function Fresh(m: Message): Conf {
    if m.start.RequestLine? then RequestStart() else ResponseStart()
  }

  /** After the start line of `m`. */
  function AfterStartLine(m: Message, state: State): Conf {
    Fresh(m).(state := state, msg := Message(m.start, m.versionMajor, m.versionMinor, [], "", false))
  }

  function InLine(m: Message, state: State, start: StartLine): Conf {
    Fresh(m).(state := state, msg := Fresh(m).msg.(start := start))
  }

  lemma ReadVerbPart(m: Message)
    requires m.start.RequestLine? && IsStartLine(m)
    ensures var verb := m.start.verb;
            Reaches(Fresh(m), verb + " ", InLine(m, RequestUriStart, RequestLine(verb, "")))
  {
    hide Parse, VersionStep, HeaderStep, ChunkStep;
    var verb := m.start.verb;
    assert verb == [verb[0]] + verb[1..];
    var d := InLine(m, RequestMethod, RequestLine([verb[0]], ""));
    var e := InLine(m, RequestMethod, RequestLine(verb, ""));
    ReachesCons(Fresh(m), verb[0], d, verb[1..]);
    ReadVerb(d, verb[1..]);
    ReachesByte(e, ' ', InLine(m, RequestUriStart, RequestLine(verb, "")));
    ReachesAppend(Fresh(m), verb, e, " ", InLine(m, RequestUriStart, RequestLine(verb, "")));
  }

  lemma ReadUriPart(m: Message)
    requires m.start.RequestLine? && IsStartLine(m)
    ensures var uri := m.start.uri;
            Reaches(InLine(m, RequestUriStart, RequestLine(m.start.verb, "")), uri + " ", InLine(m, VersionH, m.start))
  {
    hide Parse, VersionStep, HeaderStep, ChunkStep;
    var verb, uri := m.start.verb, m.start.uri;
    assert uri == [uri[0]] + uri[1..];
    var c, d := InLine(m, RequestUriStart, RequestLine(verb, "")), InLine(m, RequestUri, RequestLine(verb, [uri[0]]));
    var e := InLine(m, RequestUri, m.start);
    ReachesCons(c, uri[0], d, uri[1..]);
    ReadUri(d, uri[1..]);
    ReachesByte(e, ' ', InLine(m, VersionH, m.start));
    ReachesAppend(c, uri, e, " ", InLine(m, VersionH, m.start));
  }

  lemma ReadRequestLine(m: Message, d: Numbers)
    requires m.start.RequestLine? && IsStartLine(m) && Write(d, m)
    ensures Reaches(Fresh(m), StartLineText(m, d) + "\r", AfterStartLine(m, StartLineNewline))
  {
    hide Parse, Consume, VersionText, IsStartLine, DecimalNumber, IsNumber;
    var a, b, v := m.start.verb + " ", m.start.uri + " ", VersionText(d.major, d.minor);
    var c := InLine(m, VersionH, m.start);
    var k, e := WithVersion(c, VersionMinor, m.versionMajor, m.versionMinor), AfterStartLine(m, StartLineNewline);
    ReadVerbPart(m);
    ReadUriPart(m);
    ReachesAppend(Fresh(m), a, InLine(m, RequestUriStart, RequestLine(m.start.verb, "")), b, c);
    ReadVersion(c, d.major, d.minor);
    ReachesAppend(Fresh(m), a + b, c, v, k);
    assert Reaches(k, "\r", e) by { EndRequestLine(k, e); }
    ReachesAppend(Fresh(m), a + b + v, k, "\r", e);
    RequestLineText(m, d);
  }

  lemma RequestLineText(m: Message, d: Numbers)
    requires m.start.RequestLine?
    ensures StartLineText(m, d) == m.start.verb + " " + (m.start.uri + " ") + VersionText(d.major, d.minor)
  {
    hide VersionText;
  }

  lemma EndRequestLine(d: Conf, e: Conf)
    requires d.state.VersionMinor? && d.msg.start.RequestLine? && e == d.(state := StartLineNewline)
    ensures Reaches(d, "\r", e)
  {
    ReachesByte(d, '\r', e);
  }

  /** After the version of a status line. */
  function InStatus(m: Message, state: State, code: nat, text: string): Conf {
    WithVersion(InLine(m, state, StatusLine(code, text)), state, m.versionMajor, m.versionMinor)
  }

  lemma ReadCodePart(m: Message, digits: string)
    requires m.start.StatusLine? && IsStartLine(m) && IsNumber(digits) && DecimalNumber(digits) == m.start.code
    ensures Reaches(InStatus(m, VersionMinor, 0, ""), " " + digits + " ", InStatus(m, StatusTextStart, m.start.code, ""))
  {
    hide Parse, RequestLineStep, HeaderStep, ChunkStep, DecimalNumber, ReadDigits;
    var code := m.start.code;
    NumberParts(digits);
    var c0, c1 := InStatus(m, VersionMinor, 0, ""), InStatus(m, StatusCodeStart, 0, "");
    var c2, c3 := InStatus(m, StatusCode, DigitValue(digits[0]), ""), InStatus(m, StatusCode, code, "");
    ReachesByte(c0, ' ', c1);
    ReachesCons(c1, digits[0], c2, digits[1..]);
    ReadCode(c2, digits[1..]);
    ReachesAppend(c0, " ", c1, digits, c3);
    ReachesByte(c3, ' ', InStatus(m, StatusTextStart, code, ""));
    ReachesAppend(c0, " " + digits, c3, " ", InStatus(m, StatusTextStart, code, ""));
  }

  lemma ReadTextPart(m: Message)
    requires m.start.StatusLine? && IsStartLine(m)
    ensures Reaches(InStatus(m, StatusTextStart, m.start.code, ""), m.start.text + "\r", AfterStartLine(m, StartLineNewline))
  {
    hide Parse, RequestLineStep, HeaderStep, ChunkStep;
    var code, text := m.start.code, m.start.text;
    assert text == [text[0]] + text[1..];
    var c1, c2 := InStatus(m, StatusTextStart, code, ""), InStatus(m, StatusText, code, [text[0]]);
    var c3 := InStatus(m, StatusText, code, text);
    ReachesCons(c1, text[0], c2, text[1..]);
    ReadStatusText(c2, text[1..]);
    ReachesByte(c3, '\r', AfterStartLine(m, StartLineNewline));
    ReachesAppend(c1, text, c3, "\r", AfterStartLine(m, StartLineNewline));
  }

  lemma StatusLinePieces(m: Message, d: Numbers)
    requires m.start.StatusLine?
    ensures StartLineText(m, d) + "\r" == VersionText(d.major, d.minor) + (" " + d.code + " ") + (m.start.text + "\r")
  {
    hide VersionText;
  }

  lemma ReadStatusLine(m: Message, d: Numbers)
    requires m.start.StatusLine? && IsStartLine(m) && Write(d, m)
    ensures Reaches(Fresh(m), StartLineText(m, d) + "\r", AfterStartLine(m, StartLineNewline))
  {
    hide Parse, Consume, StartLineText, VersionText, DecimalNumber, IsNumber;
    var v, a, b := VersionText(d.major, d.minor), " " + d.code + " ", m.start.text + "\r";
    var c, k := InStatus(m, VersionMinor, 0, ""), InStatus(m, StatusTextStart, m.start.code, "");
    ReadVersion(Fresh(m), d.major, d.minor);
    ReadCodePart(m, d.code);
    ReadTextPart(m);
    ReachesAppend(Fresh(m), v, c, a, k);
    ReachesAppend(Fresh(m), v + a, k, b, AfterStartLine(m, StartLineNewline));
    StatusLinePieces(m, d);
  }

  /** A start line, however its numbers are written. */
  lemma ReadStartLineText(m: Message, d: Numbers)
    requires IsStartLine(m) && Write(d, m)
    ensures Reaches(Fresh(m), StartLineText(m, d) + "\r\n", AfterStartLine(m, HeaderLineStart))
  {
    hide Parse, StartLineText, Write;
    var c, e := AfterStartLine(m, StartLineNewline), AfterStartLine(m, HeaderLineStart);
    if m.start.RequestLine? { ReadRequestLine(m, d); } else { ReadStatusLine(m, d); }
    ReachesByte(c, '\n', e);
    ReachesAppend(Fresh(m), StartLineText(m, d) + "\r", c, "\n", e);
    assert StartLineText(m, d) + "\r\n" == StartLineText(m, d) + "\r" + "\n";
  }

  lemma ReadStartLine(m: Message)
    requires IsStartLine(m)
    ensures Reaches(Fresh(m), PrintStartLine(m) + "\r\n", AfterStartLine(m, HeaderLineStart))
  {
    hide *;
    PrintedNumbers(m);
    ReadStartLineText(m, Printed(m));
  }

  // ---- headers ----------------------------------------------------------------------------------

  /** At the start of a header line, after `hs`, with the framing they declare. */
  function AfterHeaders(c: Conf, hs: seq<Header>, f: Framing): Conf
    requires f.Framing?
  {
    c.(state := HeaderLineStart, contentSize := f.size, chunked := f.chunked, msg := c.msg.(headers := hs))
  }

  lemma ReadUpToValueEnd(c: Conf, h: Header)
    requires c.state.HeaderLineStart? && IsHeader(h)
    ensures Reaches(c, h.name + ": " + h.value, At(c, HeaderValue, c.msg.headers, h))
  {
    hide Parse, RequestLineStep, VersionStep, StatusLineStep, ChunkStep;
    var hs, name := c.msg.headers, h.name;
    var c1, c2 := At(c, HeaderName, hs, Header(name, "")), At(c, SpaceBeforeHeaderValue, hs, Header(name, ""));
    var c3 := At(c, HeaderValue, hs, Header(name, ""));
    assert Reaches(c, name, c1) by {
      assert name == [name[0]] + name[1..];
      ReachesCons(c, name[0], At(c, HeaderName, hs, Header([name[0]], "")), name[1..]);
      ReadName(c, hs, Header([name[0]], ""), name[1..]);
    }
    ReachesTwo(c1, ':', c2, ' ', c3);
    assert [':', ' '] == ": ";
    ReachesAppend(c, name, c1, ": ", c3);
    ReadValue(c, hs, Header(name, ""), h.value);
    assert "" + h.value == h.value;
    ReachesAppend(c, name + ": ", c3, h.value, At(c, HeaderValue, hs, h));
  }

  lemma NewlineEndsLine(e: Conf)
    requires e.state.HeaderLineStart?
    ensures Consume(e.(state := ExpectingNewline2), '\n') == Go(e)
  {
    hide RequestLineStep, VersionStep, StatusLineStep, ChunkStep;
  }

  lemma EndLine(d: Conf, e: Conf)
    requires Valid(d) && Consume(d, '\r') == Go(e.(state := ExpectingNewline2)) && e.state.HeaderLineStart?
    ensures Reaches(d, "\r\n", e)
  {
    hide Parse, Consume;
    NewlineEndsLine(e);
    ReachesTwo(d, '\r', e.(state := ExpectingNewline2), '\n', e);
    assert "\r\n" == ['\r', '\n'];
  }

  lemma ErrorAtByte(c: Conf, ch: char, s: string)
    requires Valid(c) && Consume(c, ch).outcome.ParsingError?
    ensures Parse(c, [ch] + s).outcome.ParsingError?
  {
    hide Parse, Consume;
    ParseCons(c, ch, s);
  }

  lemma ConsumeEndOfValue(c: Conf)
    requires Valid(c) && c.state.HeaderValue?
    ensures Consume(c, '\r') == EndOfValue(c)
  {
    hide RequestLineStep, VersionStep, StatusLineStep, ChunkStep, EndOfValue;
  }

  /** Where the framing headers count. */
  lemma EndOfValueAt(c: Conf, hs: seq<Header>, h: Header, f: Framing)
    requires f == Framing(c.contentSize, c.chunked)
    ensures var d, g := At(c, HeaderValue, hs, h), if IsFramed(c.msg) then AddFraming(f, h) else f;
            if g.BadLength? then EndOfValue(d).outcome.ParsingError?
            else EndOfValue(d) == Go(AfterHeaders(c, hs + [h], g).(state := ExpectingNewline2))
  {
    hide Atoi, EqualsNoCase;
    assert Last(hs + [h]) == h;
  }

  /** The end of a header line adds its framing, or a negative length stops it. */
  lemma EndHeader(c: Conf, hs: seq<Header>, h: Header, f: Framing)
    requires c.state.HeaderLineStart? && f == Framing(c.contentSize, c.chunked)
    ensures var d, g := At(c, HeaderValue, hs, h), if IsFramed(c.msg) then AddFraming(f, h) else f;
            if g.BadLength? then Parse(d, "\r\n").outcome.ParsingError?
            else Reaches(d, "\r\n", AfterHeaders(c, hs + [h], g))
  {
    hide Parse, Consume, EndOfValue, AddFraming, IsFramed;
    var d, g := At(c, HeaderValue, hs, h), if IsFramed(c.msg) then AddFraming(f, h) else f;
    ConsumeEndOfValue(d);
    EndOfValueAt(c, hs, h, f);
    if g.BadLength? {
      ErrorAtByte(d, '\r', "\n");
      assert "\r\n" == ['\r'] + "\n";
    } else {
      EndLine(d, AfterHeaders(c, hs + [h], g));
    }
  }

  /** One printed header line adds its header and its framing, or a negative length stops it. */
  lemma ReadHeader(c: Conf, f: Framing, h: Header)
    requires c.state.HeaderLineStart? && IsHeader(h)
    requires f == Framing(c.contentSize, c.chunked)
    ensures var g := if IsFramed(c.msg) then AddFraming(f, h) else f;
            if g.BadLength? then Parse(c, PrintHeader(h)).outcome.ParsingError?
            else Reaches(c, PrintHeader(h), AfterHeaders(c, c.msg.headers + [h], g))
  {
    hide Parse, IsHeader, AddFraming, IsFramed;
    var line, d := h.name + ": " + h.value, At(c, HeaderValue, c.msg.headers, h);
    ReadUpToValueEnd(c, h);
    EndHeader(c, c.msg.headers, h, f);
    ReachesThen(c, line, d, "\r\n");
  }

  lemma {:induction false} ReadHeaders(c: Conf, hs: seq<Header>)
    requires c.state.HeaderLineStart? && c.msg.headers == [] && c.contentSize == 0 && !c.chunked
    requires AreHeaders(hs)
    ensures var f := FramingOf(IsFramed(c.msg), hs);
            if f.BadLength? then Parse(c, PrintHeaders(hs)).outcome.ParsingError?
            else Reaches(c, PrintHeaders(hs), AfterHeaders(c, hs, f))
  {
    hide Parse, AddFraming, PrintHeader;
    var framed := IsFramed(c.msg);
    if hs == [] {
      ReachesNothing(c);
    } else {
      var init, h := hs[..|hs| - 1], hs[|hs| - 1];
      assert init + [h] == hs;
      ReadHeaders(c, init);
      var f := FramingOf(framed, init);
      if f.BadLength? {
        ParseSplit(c, PrintHeaders(init), PrintHeader(h));
        BadLengthStays(f, h);
      } else {
        var d := AfterHeaders(c, init, f);
        ReadHeader(d, f, h);
        ReachesThen(c, PrintHeaders(init), d, PrintHeader(h));
      }
    }
  }

  lemma BadLengthStays(f: Framing, h: Header)
    requires f.BadLength?
    ensures AddFraming(f, h).BadLength?
  {
  }

  /** Everything printed before the final newline of the header section. */
  function PrintHead(m: Message): string {
    PrintStartLine(m) + "\r\n" + PrintHeaders(m.headers) + "\r"
  }

  lemma PrintIsHeadAndBody(m: Message)
    ensures Print(m) == PrintHead(m) + (['\n'] + m.content)
  {
    assert "\r\n" == "\r" + ['\n'];
  }

  function AfterHead(m: Message, f: Framing): Conf
    requires f.Framing?
  {
    Conf(ExpectingNewline3, f.size, "", 0, f.chunked, m.(content := "", keepAlive := false))
  }

  lemma ReadHead(m: Message)
    requires IsPrintable(m)
    ensures var f := Framed(m);
            if f.BadLength? then Parse(Fresh(m), PrintHead(m)).outcome.ParsingError?
            else Reaches(Fresh(m), PrintHead(m), AfterHead(m, f))
  {
    hide Parse, PrintStartLine, PrintHeaders, HeaderFraming;
    var a, b := PrintStartLine(m) + "\r\n", PrintHeaders(m.headers);
    var c := AfterStartLine(m, HeaderLineStart);
    var f := Framed(m);
    ReadStartLine(m);
    ReadHeaders(c, m.headers);
    ReachesThen(Fresh(m), a, c, b);
    if f.BadLength? {
      ParseSplit(Fresh(m), a + b, "\r");
    } else {
      var d := AfterHeaders(c, m.headers, f);
      ReachesByte(d, '\r', AfterHead(m, f));
      ReachesAppend(Fresh(m), a + b, d, "\r", AfterHead(m, f));
    }
  }
}
