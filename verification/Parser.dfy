/** The byte-at-a-time state machine of `HttpRequestParser` and `HttpResponseParser`.

    The two source files spell out the same HTTP-version, header, body and chunk states; they
    differ in the rest of the start line and in the guard on the framing headers. Here the shared
    states stand once, and the kind of message being filled picks the rest. */
module Parser {
  import opened Bytes
  import opened Messages

  datatype State =
    // the request line
    | RequestMethodStart | RequestMethod | RequestUriStart | RequestUri
    // the version; VersionH is ResponseStatusStart in one parser, RequestHttpVersion_h in the other
    | VersionH | VersionHt | VersionHtt | VersionHttp | VersionSlash
    | VersionMajorStart | VersionMajor | VersionMinorStart | VersionMinor
    // the status line
    | StatusCodeStart | StatusCode | StatusTextStart | StatusText
    // headers
    | StartLineNewline | HeaderLineStart | HeaderLws | HeaderName | SpaceBeforeHeaderValue | HeaderValue
    | ExpectingNewline2 | ExpectingNewline3
    // the body
    | Post
    | ChunkSize | ChunkExtensionName | ChunkExtensionValue | ChunkSizeNewline
    | ChunkSizeNewline2 | ChunkSizeNewline3 | ChunkTrailerName | ChunkTrailerValue
    | ChunkData | ChunkDataNewline1 | ChunkDataNewline2

  datatype Outcome = ParsingCompleted | ParsingIncomplete | ParsingError

  /** The private fields of a parser together with the record it fills. */
  datatype Conf = Conf(state: State, contentSize: nat, chunkSizeStr: string, chunkSize: nat, chunked: bool,
                       msg: Message)

  /** Parsers and records as their constructors leave them. */
  function RequestStart(): Conf {
    Conf(RequestMethodStart, 0, "", 0, false, EMPTY_REQUEST)
  }

  function ResponseStart(): Conf {
    Conf(VersionH, 0, "", 0, false, EMPTY_RESPONSE)
  }

  predicate InRequestLine(s: State) {
    s.RequestMethodStart? || s.RequestMethod? || s.RequestUriStart? || s.RequestUri?
  }

  predicate InStatusLine(s: State) {
    s.StatusCodeStart? || s.StatusCode? || s.StatusTextStart? || s.StatusText?
  }

  predicate InVersion(s: State) {
    || s.VersionH? || s.VersionHt? || s.VersionHtt? || s.VersionHttp? || s.VersionSlash?
    || s.VersionMajorStart? || s.VersionMajor? || s.VersionMinorStart? || s.VersionMinor?
  }

  predicate InHeaders(s: State) {
    || s.StartLineNewline? || s.HeaderLineStart? || s.HeaderLws? || s.HeaderName?
    || s.SpaceBeforeHeaderValue? || s.HeaderValue? || s.ExpectingNewline2?
  }

  predicate InChunks(s: State) {
    || s.ChunkSize? || s.ChunkExtensionName? || s.ChunkExtensionValue? || s.ChunkSizeNewline?
    || s.ChunkSizeNewline2? || s.ChunkSizeNewline3? || s.ChunkTrailerName? || s.ChunkTrailerValue?
    || s.ChunkData? || s.ChunkDataNewline1? || s.ChunkDataNewline2?
  }

  /** The parser is used with a record of its own kind, and `headers.back()` exists where used. */
  predicate Valid(c: Conf) {
    && (InRequestLine(c.state) ==> c.msg.start.RequestLine?)
    && (InStatusLine(c.state) ==> c.msg.start.StatusLine?)
    && (c.state.HeaderLws? || c.state.HeaderName? || c.state.SpaceBeforeHeaderValue? || c.state.HeaderValue?
        ==> c.msg.headers != [])
  }

  /** From `c` to `d` the parser stays valid and keeps filling the same kind of record. */
  predicate Keeps(c: Conf, d: Conf) {
    Valid(d) && (d.msg.start.RequestLine? <==> c.msg.start.RequestLine?)
  }

  datatype Step = Step(conf: Conf, outcome: Outcome)

  function Go(c: Conf): Step { Step(c, ParsingIncomplete) }
  function Done(c: Conf): Step { Step(c, ParsingCompleted) }
  function Fail(c: Conf): Step { Step(c, ParsingError) }

  /** Move to `next` on the one byte expected here. */
  function Expect(c: Conf, ch: char, expected: char, next: State): Step {
    if ch == expected then Go(c.(state := next)) else Fail(c)
  }

  function RequestLineStep(c: Conf, ch: char): (s: Step)
    requires Valid(c) && InRequestLine(c.state)
    ensures Keeps(c, s.conf)
  {
    var m := c.msg;
    match c.state
    case RequestMethodStart =>
      if !IsTokenChar(ch) then Fail(c)
      else Go(c.(state := RequestMethod, msg := m.(start := m.start.(verb := m.start.verb + [ch]))))
    case RequestMethod =>
      if ch == ' ' then Go(c.(state := RequestUriStart))
      else if !IsTokenChar(ch) then Fail(c)
      else Go(c.(msg := m.(start := m.start.(verb := m.start.verb + [ch]))))
    case RequestUriStart =>
      if IsControl(ch) then Fail(c)
      else Go(c.(state := RequestUri, msg := m.(start := m.start.(uri := m.start.uri + [ch]))))
    case RequestUri =>
      if ch == ' ' then Go(c.(state := VersionH))
      else if ch == '\r' then Done(c.(msg := m.(versionMajor := 0, versionMinor := 9)))
      else if IsControl(ch) then Fail(c)
      else Go(c.(msg := m.(start := m.start.(uri := m.start.uri + [ch]))))
  }

  function VersionStep(c: Conf, ch: char): (s: Step)
    requires Valid(c) && InVersion(c.state)
    ensures Keeps(c, s.conf)
  {
    var m := c.msg;
    match c.state
    case VersionH => Expect(c, ch, 'H', VersionHt)
    case VersionHt => Expect(c, ch, 'T', VersionHtt)
    case VersionHtt => Expect(c, ch, 'T', VersionHttp)
    case VersionHttp => Expect(c, ch, 'P', VersionSlash)
    case VersionSlash =>
      if ch == '/' then Go(c.(state := VersionMajorStart, msg := m.(versionMajor := 0, versionMinor := 0)))
      else Fail(c)
    case VersionMajorStart =>
      if IsDigit(ch) then Go(c.(state := VersionMajor, msg := m.(versionMajor := DigitValue(ch))))
      else Fail(c)
    case VersionMajor =>
      if ch == '.' then Go(c.(state := VersionMinorStart))
      else if IsDigit(ch) then Go(c.(msg := m.(versionMajor := 10 * m.versionMajor + DigitValue(ch))))
      else Fail(c)
    case VersionMinorStart =>
      if IsDigit(ch) then Go(c.(state := VersionMinor, msg := m.(versionMinor := DigitValue(ch))))
      else Fail(c)
    case VersionMinor =>
      if m.start.RequestLine? && ch == '\r' then Go(c.(state := StartLineNewline))
      else if m.start.StatusLine? && ch == ' ' then Go(c.(state := StatusCodeStart, msg := m.(start := m.start.(code := 0))))
      else if IsDigit(ch) then Go(c.(msg := m.(versionMinor := 10 * m.versionMinor + DigitValue(ch))))
      else Fail(c)
  }

  function StatusLineStep(c: Conf, ch: char): (s: Step)
    requires Valid(c) && InStatusLine(c.state)
    ensures Keeps(c, s.conf)
  {
    var m := c.msg;
    match c.state
    case StatusCodeStart =>
      if IsDigit(ch) then Go(c.(state := StatusCode, msg := m.(start := m.start.(code := DigitValue(ch)))))
      else Fail(c)
    case StatusCode =>
      if IsDigit(ch) then Go(c.(msg := m.(start := m.start.(code := 10 * m.start.code + DigitValue(ch)))))
      else if m.start.code < 100 || m.start.code > 999 then Fail(c)
      else Expect(c, ch, ' ', StatusTextStart)
    case StatusTextStart =>
      if IsChar(ch) then Go(c.(state := StatusText, msg := m.(start := m.start.(text := m.start.text + [ch]))))
      else Fail(c)
    case StatusText =>
      if ch == '\r' then Go(c.(state := StartLineNewline))
      else if IsChar(ch) then Go(c.(msg := m.(start := m.start.(text := m.start.text + [ch]))))
      else Fail(c)
  }

  function Last(hs: seq<Header>): Header
    requires hs != []
  {
    hs[|hs| - 1]
  }

  function ReplaceLast(hs: seq<Header>, h: Header): seq<Header>
    requires hs != []
  {
    hs[..|hs| - 1] + [h]
  }

  function PushName(m: Message, ch: char): Message
    requires m.headers != []
  {
    var h := Last(m.headers);
    m.(headers := ReplaceLast(m.headers, h.(name := h.name + [ch])))
  }

  function PushValue(m: Message, ch: char): Message
    requires m.headers != []
  {
    var h := Last(m.headers);
    m.(headers := ReplaceLast(m.headers, h.(value := h.value + [ch])))
  }

  /** The end of a header line: framing headers take effect, again at each folded line. */
  function EndOfValue(c: Conf): Step
    requires c.msg.headers != []
  {
    var h := Last(c.msg.headers);
    if IsFramed(c.msg) && IsContentLength(h) then
      if Atoi(h.value) < 0 then Fail(c)
      else Go(c.(state := ExpectingNewline2, contentSize := Atoi(h.value)))
    else if IsFramed(c.msg) && SaysChunked(h) then
      Go(c.(state := ExpectingNewline2, chunked := true))
    else
      Go(c.(state := ExpectingNewline2))
  }

  function HeaderStep(c: Conf, ch: char): (s: Step)
    requires Valid(c) && InHeaders(c.state)
    ensures Keeps(c, s.conf)
  {
    var m := c.msg;
    match c.state
    case StartLineNewline => Expect(c, ch, '\n', HeaderLineStart)
    case HeaderLineStart =>
      if ch == '\r' then Go(c.(state := ExpectingNewline3))
      else if m.headers != [] && (ch == ' ' || ch == '\t') then Go(c.(state := HeaderLws))
      else if !IsTokenChar(ch) then Fail(c)
      else Go(c.(state := HeaderName, msg := m.(headers := m.headers + [Header([ch], "")])))
    case HeaderLws =>
      if ch == '\r' then Go(c.(state := ExpectingNewline2))
      else if ch == ' ' || ch == '\t' then Go(c)
      else if IsControl(ch) then Fail(c)
      else Go(c.(state := HeaderValue, msg := PushValue(m, ch)))
    case HeaderName =>
      if ch == ':' then Go(c.(state := SpaceBeforeHeaderValue))
      else if !IsTokenChar(ch) then Fail(c)
      else Go(c.(msg := PushName(m, ch)))
    case SpaceBeforeHeaderValue => Expect(c, ch, ' ', HeaderValue)
    case HeaderValue =>
      if ch == '\r' then EndOfValue(c)
      else if IsControl(ch) then Fail(c)
      else Go(c.(msg := PushValue(m, ch)))
    case ExpectingNewline2 => Expect(c, ch, '\n', HeaderLineStart)
  }

  /** `--n` on a `size_t`. */
  function Decremented(n: nat): nat {
    if n == 0 then 0xFFFF_FFFF_FFFF_FFFF else n - 1
  }

  /** The byte after the last header line. It has to be a newline only when there is no body. */
  function EndOfHeadersStep(c: Conf, ch: char): (s: Step)
    requires c.state.ExpectingNewline3?
    ensures Keeps(c, s.conf)
  {
    var m := c.msg;
    var d := c.(msg := m.(keepAlive := KeepAliveAfter(m.headers, m.versionMajor, m.versionMinor, m.keepAlive)));
    if c.chunked then Go(d.(state := ChunkSize))
    else if c.contentSize != 0 then Go(d.(state := Post))
    else if ch == '\n' then Done(d)
    else Fail(d)
  }

  function PostStep(c: Conf, ch: char): (s: Step)
    requires c.state.Post?
    ensures Keeps(c, s.conf)
  {
    var d := c.(contentSize := Decremented(c.contentSize), msg := c.msg.(content := c.msg.content + [ch]));
    if d.contentSize == 0 then Done(d) else Go(d)
  }

  function ChunkStep(c: Conf, ch: char): (s: Step)
    requires Valid(c) && InChunks(c.state)
    ensures Keeps(c, s.conf)
  {
    match c.state
    case ChunkSize =>
      if IsAlnum(ch) then Go(c.(chunkSizeStr := c.chunkSizeStr + [ch]))
      else if ch == ';' then Go(c.(state := ChunkExtensionName))
      else Expect(c, ch, '\r', ChunkSizeNewline)
    case ChunkExtensionName =>
      if IsAlnum(ch) || ch == ' ' then Go(c)
      else if ch == '=' then Go(c.(state := ChunkExtensionValue))
      else Expect(c, ch, '\r', ChunkSizeNewline)
    case ChunkExtensionValue =>
      if IsAlnum(ch) || ch == ' ' then Go(c)
      else Expect(c, ch, '\r', ChunkSizeNewline)
    case ChunkSizeNewline =>
      if ch == '\n' then
        var size := Strtol16(c.chunkSizeStr);
        Go(c.(chunkSize := size, chunkSizeStr := "", state := if size == 0 then ChunkSizeNewline2 else ChunkData))
      else Fail(c)
    case ChunkSizeNewline2 =>
      if ch == '\r' then Go(c.(state := ChunkSizeNewline3))
      else if IsAlpha(ch) then Go(c.(state := ChunkTrailerName))
      else Fail(c)
    case ChunkSizeNewline3 => if ch == '\n' then Done(c) else Fail(c)
    case ChunkTrailerName =>
      if IsAlnum(ch) then Go(c)
      else Expect(c, ch, ':', ChunkTrailerValue)
    case ChunkTrailerValue =>
      if IsAlnum(ch) || ch == ' ' then Go(c)
      else Expect(c, ch, '\r', ChunkSizeNewline)
    case ChunkData =>
      var d := c.(chunkSize := Decremented(c.chunkSize), msg := c.msg.(content := c.msg.content + [ch]));
      Go(if d.chunkSize == 0 then d.(state := ChunkDataNewline1) else d)
    case ChunkDataNewline1 => Expect(c, ch, '\r', ChunkDataNewline2)
    case ChunkDataNewline2 => Expect(c, ch, '\n', ChunkSize)
  }

  /** One turn of the loop in `consume`. */
  function Consume(c: Conf, ch: char): (s: Step)
    requires Valid(c)
    ensures Keeps(c, s.conf)
  {
    if InRequestLine(c.state) then RequestLineStep(c, ch)
    else if InVersion(c.state) then VersionStep(c, ch)
    else if InStatusLine(c.state) then StatusLineStep(c, ch)
    else if InHeaders(c.state) then HeaderStep(c, ch)
    else if c.state.ExpectingNewline3? then EndOfHeadersStep(c, ch)
    else if c.state.Post? then PostStep(c, ch)
    else ChunkStep(c, ch)
  }

  /** Where `parse` stops: the parser and record, its result, and the bytes it did not read. */
  datatype Result = Result(conf: Conf, outcome: Outcome, rest: string)

  /** `parse(resp, begin, end)` on the bytes of `s`. */
  function Parse(c: Conf, s: string): (r: Result)
    requires Valid(c)
    ensures Keeps(c, r.conf)
    ensures |r.rest| <= |s| && r.rest == s[|s| - |r.rest|..]
    ensures r.outcome.ParsingIncomplete? ==> r.rest == ""
    decreases s
  {
    if s == "" then Result(c, ParsingIncomplete, "")
    else
      var step := Consume(c, s[0]);
      if step.outcome.ParsingIncomplete? then Parse(step.conf, s[1..])
      else Result(step.conf, step.outcome, s[1..])
  }

  /** One turn of the loop, then the rest. */
  lemma ParseCons(c: Conf, ch: char, s: string)
    requires Valid(c)
    ensures var step := Consume(c, ch);
            Parse(c, [ch] + s) == if step.outcome.ParsingIncomplete? then Parse(step.conf, s)
                                  else Result(step.conf, step.outcome, s)
  {
    hide Consume;
    assert ([ch] + s)[1..] == s;
  }

  /** From `c`, the parser reads all of `s` and is then at `d`, still incomplete. */
  predicate Reaches(c: Conf, s: string, d: Conf)
    requires Valid(c)
  {
    Parse(c, s) == Result(d, ParsingIncomplete, "")
  }

  /** Feeding is split-independent: an incomplete first piece followed by a second piece is one
      buffer, and once a result is reached, appended bytes are left unread and change nothing. */
  lemma {:induction false} ParseSplit(c: Conf, a: string, b: string)
    requires Valid(c)
    ensures var r := Parse(c, a);
            Parse(c, a + b) == if r.outcome.ParsingIncomplete? then Parse(r.conf, b)
                               else r.(rest := r.rest + b)
    decreases a
  {
    if a == "" {
      assert a + b == b;
    } else {
      assert (a + b)[1..] == a[1..] + b;
      var step := Consume(c, a[0]);
      if step.outcome.ParsingIncomplete? {
        ParseSplit(step.conf, a[1..], b);
      }
    }
  }

  lemma ReachesThen(c: Conf, a: string, d: Conf, b: string)
    requires Valid(c) && Reaches(c, a, d)
    ensures Valid(d) && Parse(c, a + b) == Parse(d, b)
  {
    ParseSplit(c, a, b);
  }

  /** One byte. */
  lemma ReachesByte(c: Conf, ch: char, d: Conf)
    requires Valid(c) && Consume(c, ch) == Go(d)
    ensures Reaches(c, [ch], d)
  {
    hide Consume;
    ParseCons(c, ch, "");
    assert [ch] + "" == [ch];
  }

  /** Any number of buffers fed one after another to the same parser, stopping at a result. */
  function Feed(c: Conf, pieces: seq<string>): Result
    requires Valid(c)
    decreases pieces
  {
    if pieces == [] then Result(c, ParsingIncomplete, "")
    else
      var r := Parse(c, pieces[0]);
      if r.outcome.ParsingIncomplete? then Feed(r.conf, pieces[1..]) else r
  }

  function Joined(pieces: seq<string>): string {
    if pieces == [] then "" else pieces[0] + Joined(pieces[1..])
  }

  /** However the bytes are cut into buffers, the parser ends in the same state with the same
      record and result as when it is given all of them at once. */
  lemma {:induction false} FeedIsParseJoined(c: Conf, pieces: seq<string>)
    requires Valid(c)
    ensures var f, p := Feed(c, pieces), Parse(c, Joined(pieces));
            f.conf == p.conf && f.outcome == p.outcome
    decreases pieces
  {
    if pieces != [] {
      ParseSplit(c, pieces[0], Joined(pieces[1..]));
      var r := Parse(c, pieces[0]);
      if r.outcome.ParsingIncomplete? {
        FeedIsParseJoined(r.conf, pieces[1..]);
      }
    }
  }
}
