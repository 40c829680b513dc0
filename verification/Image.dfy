/** What the parser can leave in a record: an invariant of every run from a fresh parser. */
module Image {
  import opened Bytes
  import opened Messages
  import opened Parser

  function Butlast(hs: seq<Header>): seq<Header>
    requires hs != []
  {
    hs[..|hs| - 1]
  }

  /** The start line collected so far. */
  predicate StartLineInv(c: Conf) {
    match c.msg.start
    case RequestLine(verb, uri) =>
      if c.state.RequestMethodStart? then verb == "" && uri == ""
      else if c.state.RequestMethod? || c.state.RequestUriStart? then IsToken(verb) && uri == ""
      else IsToken(verb) && IsUri(uri)
    case StatusLine(code, text) =>
      if InVersion(c.state) || c.state.StatusCodeStart? || c.state.StatusCode? then text == ""
      else if c.state.StatusTextStart? then text == "" && 100 <= code <= 999
      else 100 <= code <= 999 && IsStatusText(text)
  }

  predicate BeforeHeaders(s: State) {
    InRequestLine(s) || InVersion(s) || InStatusLine(s) || s.StartLineNewline?
  }

  /** Outside chunked mode `contentSize` is what the header lines read so far declare; while a
      Content-Length value is being read, `contentSize` is about to be overwritten. */
  predicate FramingInv(c: Conf) {
    var m := c.msg;
    if c.state.Post? then
      !c.chunked && c.contentSize > 0 && Framed(m) == Framing(|m.content| + c.contentSize, false)
    else if InChunks(c.state) then c.chunked
    else if c.chunked then IsFramed(m)
    else if (c.state.HeaderName? || c.state.SpaceBeforeHeaderValue?) && m.headers != [] then
      FramingOf(IsFramed(m), Butlast(m.headers)) == Framing(c.contentSize, false)
    else if c.state.HeaderValue? && m.headers != [] then
      var f := FramingOf(IsFramed(m), Butlast(m.headers));
      && f.Framing? && !f.chunked
      && (f.size == c.contentSize || (IsFramed(m) && IsContentLength(Last(m.headers))))
    else Framed(m) == Framing(c.contentSize, false)
  }

  predicate RecordInv(c: Conf) {
    && AreHeaders(c.msg.headers)
    && (BeforeHeaders(c.state) ==> c.msg.headers == [] && !c.chunked)
    && (if c.state.Post? || InChunks(c.state) then HasItsKeepAlive(c.msg)
        else c.msg.content == "" && !c.msg.keepAlive)
  }

  /** Holds of every configuration reachable from a fresh parser with a fresh record. */
  predicate Inv(c: Conf) {
    Valid(c) && StartLineInv(c) && FramingInv(c) && RecordInv(c)
  }

  /** What a completed parse leaves behind. */
  predicate Finished(c: Conf) {
    && IsPrintable(c.msg)
    && HasItsKeepAlive(c.msg)
    && (!c.chunked ==> IsWellFramed(c.msg))
  }

  /** The obligation of one step. */
  predicate KeepsInv(s: Step) {
    && (s.outcome.ParsingIncomplete? ==> Inv(s.conf))
    && (s.outcome.ParsingCompleted? ==> Finished(s.conf))
  }

  lemma RequestLineKeepsInv(c: Conf, ch: char)
    requires Inv(c) && InRequestLine(c.state)
    ensures KeepsInv(RequestLineStep(c, ch))
  {
  }

  lemma VersionKeepsInv(c: Conf, ch: char)
    requires Inv(c) && InVersion(c.state)
    ensures KeepsInv(VersionStep(c, ch))
  {
    hide IsToken, IsUri, IsStatusText, HeaderFraming, KeepAliveAfter, DigitValue;
    assert c.msg.headers == [];
  }

  lemma StatusLineKeepsInv(c: Conf, ch: char)
    requires Inv(c) && InStatusLine(c.state)
    ensures KeepsInv(StatusLineStep(c, ch))
  {
    assert c.msg.headers == [];
  }

  lemma PushKeepsHeaders(m: Message, ch: char)
    requires m.headers != [] && AreHeaders(m.headers)
    ensures Butlast(PushName(m, ch).headers) == Butlast(m.headers)
    ensures Butlast(PushValue(m, ch).headers) == Butlast(m.headers)
    ensures IsTokenChar(ch) ==> AreHeaders(PushName(m, ch).headers)
    ensures !IsControl(ch) ==> AreHeaders(PushValue(m, ch).headers)
  {
    assert IsHeader(Last(m.headers));
  }

  lemma OpenKeepsHeaders(hs: seq<Header>, ch: char)
    requires AreHeaders(hs) && IsTokenChar(ch)
    ensures AreHeaders(hs + [Header([ch], "")])
    ensures Butlast(hs + [Header([ch], "")]) == hs
  {
    assert IsHeader(Header([ch], ""));
  }

  /** A header line counts once more each time its value ends. */
  lemma FramingOfLast(m: Message)
    requires m.headers != []
    ensures Framed(m) == if IsFramed(m) then AddFraming(FramingOf(true, Butlast(m.headers)), Last(m.headers))
                         else Framing(0, false)
  {
  }

  lemma EndOfValueKeepsInv(c: Conf)
    requires Inv(c) && c.state.HeaderValue?
    ensures KeepsInv(EndOfValue(c))
  {
    FramingOfLast(c.msg);
    if IsFramed(c.msg) {
      var f := FramingOf(true, Butlast(c.msg.headers));
      if IsContentLength(Last(c.msg.headers)) {
      } else if !SaysChunked(Last(c.msg.headers)) {
        assert !c.chunked ==> Framed(c.msg) == f;
      }
    }
  }

  lemma LongerValueKeepsInv(c: Conf, ch: char)
    requires Inv(c) && (c.state.HeaderValue? || c.state.HeaderLws?) && !IsControl(ch)
    ensures Inv(c.(state := HeaderValue, msg := PushValue(c.msg, ch)))
  {
    hide IsToken, IsUri, IsStatusText, HeaderFraming, KeepAliveAfter, AreHeaders, EqualsNoCase, Atoi;
    PushKeepsHeaders(c.msg, ch);
    FramingOfLast(c.msg);
  }

  lemma ValueKeepsInv(c: Conf, ch: char)
    requires Inv(c) && (c.state.HeaderValue? || c.state.HeaderLws?)
    ensures KeepsInv(HeaderStep(c, ch))
  {
    if c.state.HeaderValue? && ch == '\r' {
      EndOfValueKeepsInv(c);
    } else if !IsControl(ch) {
      LongerValueKeepsInv(c, ch);
    }
  }

  lemma NewLineKeepsInv(c: Conf, ch: char)
    requires Inv(c) && c.state.HeaderLineStart? && IsTokenChar(ch)
    ensures Inv(c.(state := HeaderName, msg := c.msg.(headers := c.msg.headers + [Header([ch], "")])))
  {
    OpenKeepsHeaders(c.msg.headers, ch);
  }

  lemma LineStartKeepsInv(c: Conf, ch: char)
    requires Inv(c) && c.state.HeaderLineStart?
    ensures KeepsInv(HeaderStep(c, ch))
  {
    hide IsToken, IsUri, IsStatusText, HeaderFraming, KeepAliveAfter, AreHeaders, IsTokenChar;
    if IsTokenChar(ch) {
      NewLineKeepsInv(c, ch);
    }
  }

  lemma NameKeepsInv(c: Conf, ch: char)
    requires Inv(c) && c.state.HeaderName?
    ensures KeepsInv(HeaderStep(c, ch))
  {
    hide IsToken, IsUri, IsStatusText, HeaderFraming, KeepAliveAfter, AreHeaders, IsTokenChar;
    PushKeepsHeaders(c.msg, ch);
  }

  lemma OtherHeaderKeepsInv(c: Conf, ch: char)
    requires Inv(c)
    requires c.state.StartLineNewline? || c.state.SpaceBeforeHeaderValue? || c.state.ExpectingNewline2?
    ensures KeepsInv(HeaderStep(c, ch))
  {
    hide IsToken, IsUri, IsStatusText, HeaderFraming, KeepAliveAfter, AreHeaders;
  }

  lemma EndOfHeadersKeepsInv(c: Conf, ch: char)
    requires Inv(c) && c.state.ExpectingNewline3?
    ensures KeepsInv(EndOfHeadersStep(c, ch))
  {
  }

  lemma PostKeepsInv(c: Conf, ch: char)
    requires Inv(c) && c.state.Post?
    ensures KeepsInv(PostStep(c, ch))
  {
  }

  lemma ChunksKeepInv(c: Conf, ch: char)
    requires Inv(c) && InChunks(c.state)
    ensures KeepsInv(ChunkStep(c, ch))
  {
    hide IsToken, IsUri, IsStatusText, HeaderFraming, KeepAliveAfter, Strtol16, AreHeaders;
    var s := ChunkStep(c, ch);
    assert s.conf.chunked && s.conf.msg.(content := "") == c.msg.(content := "");
    assert s.outcome.ParsingIncomplete? ==> InChunks(s.conf.state);
  }

  lemma StepKeepsInv(c: Conf, ch: char)
    requires Inv(c)
    ensures KeepsInv(Consume(c, ch))
  {
    hide Inv, KeepsInv, RequestLineStep, VersionStep, StatusLineStep, HeaderStep, ChunkStep, PostStep;
    match c.state
    case RequestMethodStart | RequestMethod | RequestUriStart | RequestUri => RequestLineKeepsInv(c, ch);
    case StatusCodeStart | StatusCode | StatusTextStart | StatusText => StatusLineKeepsInv(c, ch);
    case HeaderName => NameKeepsInv(c, ch);
    case HeaderLineStart => LineStartKeepsInv(c, ch);
    case HeaderValue | HeaderLws => ValueKeepsInv(c, ch);
    case ExpectingNewline3 => EndOfHeadersKeepsInv(c, ch);
    case Post => PostKeepsInv(c, ch);
    case _ =>
      if InVersion(c.state) {
        VersionKeepsInv(c, ch);
      } else if InHeaders(c.state) {
        OtherHeaderKeepsInv(c, ch);
      } else {
        ChunksKeepInv(c, ch);
      }
  }

  lemma {:induction false} ParseKeepsInv(c: Conf, s: string)
    requires Inv(c)
    ensures var r := Parse(c, s); KeepsInv(Step(r.conf, r.outcome))
    decreases s
  {
    if s != "" {
      StepKeepsInv(c, s[0]);
      var step := Consume(c, s[0]);
      if step.outcome.ParsingIncomplete? {
        ParseKeepsInv(step.conf, s[1..]);
      }
    }
  }
}
