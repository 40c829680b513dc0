/** The language of the two parsers: exactly the texts they complete on, and exactly the record each of
    them gives. */
module Language {
  import opened Bytes
  import opened Messages
  import opened Parser
  import opened Reading
  import opened Folds
  import Image
  import Chunks
  import Reprint
  import Traps

  // ---- how far a head has been read ------------------------------------------------------------------

  /** The header line being read. */
  datatype Part = NoPart | Name(name: string) | Value(name: string, value: string) | Space(space: string) | Text(fold: Fold)

  /** What a configuration does not remember: how numbers were written and lines were folded. */
  datatype Trace = Trace(numbers: Numbers, lines: seq<Line>, part: Part)

  predicate InHead(s: State) {
    !s.Post? && !InChunks(s)
  }

  predicate IsSpaceText(s: string) {
    s != "" && forall i :: 0 <= i < |s| ==> s[i] == ' ' || s[i] == '\t'
  }

  predicate IsPart(p: Part, s: State) {
    match p
    case NoPart => !s.HeaderName? && !s.SpaceBeforeHeaderValue? && !s.HeaderValue? && !s.HeaderLws? && !s.ExpectingNewline2?
    case Name(name) => (s.HeaderName? || s.SpaceBeforeHeaderValue?) && IsToken(name)
    case Value(name, value) => (s.HeaderValue? || s.ExpectingNewline2?) && IsHeader(Header(name, value))
    case Space(space) => (s.HeaderLws? || s.ExpectingNewline2?) && IsSpaceText(space)
    case Text(fold) => (s.HeaderValue? || s.ExpectingNewline2?) && IsFold(fold) && fold.text != ""
  }

  function PartText(p: Part): string {
    match p
    case NoPart => ""
    case Name(name) => name
    case Value(name, value) => name + ": " + value
    case Space(space) => space
    case Text(fold) => fold.space + fold.text
  }

  predicate PastMajor(s: State) {
    s.VersionMajor? || s.VersionMinorStart? || PastMinor(s)
  }

  predicate PastMinor(s: State) {
    s.VersionMinor? || InStatusLine(s) || PastStart(s)
  }

  predicate PastStart(s: State) {
    InHeaders(s) || s.ExpectingNewline3?
  }

  predicate PastCode(s: State) {
    s.StatusCode? || s.StatusTextStart? || s.StatusText? || PastStart(s)
  }

  predicate IsTrace(t: Trace, c: Conf) {
    var m, s, d := c.msg, c.state, t.numbers;
    && (PastMajor(s) ==> IsNumber(d.major) && DecimalNumber(d.major) == m.versionMajor)
    && (PastMinor(s) ==> IsNumber(d.minor) && DecimalNumber(d.minor) == m.versionMinor)
    && (PastCode(s) && m.start.StatusLine? ==> IsNumber(d.code) && DecimalNumber(d.code) == m.start.code)
    && AreLines(t.lines) && IsPart(t.part, s)
    && |m.headers| == |t.lines| + (if t.part.Name? || t.part.Value? then 1 else 0)
    && (t.part.Space? || t.part.Text? ==> t.lines != [])
  }

  /** What precedes the version. */
  function BeforeVersion(start: StartLine): string {
    match start case RequestLine(verb, uri) => verb + " " + uri + " " case StatusLine(_, _) => ""
  }

  function HeadSoFar(t: Trace, c: Conf): string {
    StartLineText(c.msg, t.numbers) + "\r\n" + PrintLines(t.lines)
  }

  /** The bytes that have been read. */
  function TextOf(t: Trace, c: Conf): string {
    var m, d := c.msg, t.numbers;
    var v := VersionText(d.major, d.minor);
    match c.state
    case RequestMethodStart => ""
    case RequestMethod => if m.start.RequestLine? then m.start.verb else ""
    case RequestUriStart => if m.start.RequestLine? then m.start.verb + " " else ""
    case RequestUri => if m.start.RequestLine? then m.start.verb + " " + m.start.uri else ""
    case VersionH => BeforeVersion(m.start)
    case VersionHt => BeforeVersion(m.start) + "H"
    case VersionHtt => BeforeVersion(m.start) + "HT"
    case VersionHttp => BeforeVersion(m.start) + "HTT"
    case VersionSlash => BeforeVersion(m.start) + "HTTP"
    case VersionMajorStart => BeforeVersion(m.start) + "HTTP/"
    case VersionMajor => BeforeVersion(m.start) + "HTTP/" + d.major
    case VersionMinorStart => BeforeVersion(m.start) + "HTTP/" + d.major + "."
    case VersionMinor => BeforeVersion(m.start) + v
    case StatusCodeStart => v + " "
    case StatusCode => v + " " + d.code
    case StatusTextStart => v + " " + d.code + " "
    case StatusText => if m.start.StatusLine? then v + " " + d.code + " " + m.start.text else ""
    case StartLineNewline => StartLineText(m, d) + "\r"
    case HeaderLineStart => HeadSoFar(t, c)
    case SpaceBeforeHeaderValue => HeadSoFar(t, c) + (PartText(t.part) + ":")
    case ExpectingNewline2 => HeadSoFar(t, c) + (PartText(t.part) + "\r")
    case ExpectingNewline3 => HeadSoFar(t, c) + "\r"
    case _ => HeadSoFar(t, c) + PartText(t.part)
  }

  /** `u` accounts for the configuration after one more byte. */
  predicate Follows(t: Trace, c: Conf, ch: char, u: Trace)
    requires Valid(c)
  {
    var d := Consume(c, ch).conf;
    IsTrace(u, d) && TextOf(u, d) == TextOf(t, c) + [ch]
  }

  predicate GoesOn(t: Trace, c: Conf, ch: char) {
    Image.Inv(c) && IsTrace(t, c) && Consume(c, ch).outcome.ParsingIncomplete?
  }

  lemma RequestLineTrace(t: Trace, c: Conf, ch: char)
    requires GoesOn(t, c, ch) && InRequestLine(c.state)
    ensures Follows(t, c, ch, t)
  {
    hide VersionStep, StatusLineStep, HeaderStep, EndOfHeadersStep, PostStep, ChunkStep;
    hide StartLineText, PrintLines, VersionText;
  }

  /** One more digit of a number, or its first. */
  lemma NumberGrows(s: string, ch: char)
    requires (s == "" || IsNumber(s)) && IsDigit(ch)
    ensures IsNumber(s + [ch])
    ensures DecimalNumber(s + [ch]) == (if s == "" then 0 else 10 * DecimalNumber(s)) + DigitValue(ch)
  {
    assert (s + [ch])[..|s|] == s;
  }

  lemma LiteralTrace(t: Trace, c: Conf, ch: char)
    requires GoesOn(t, c, ch)
    requires c.state.VersionH? || c.state.VersionHt? || c.state.VersionHtt? || c.state.VersionHttp? || c.state.VersionSlash?
    ensures Follows(t, c, ch, t)
  {
    hide RequestLineStep, StatusLineStep, HeaderStep, EndOfHeadersStep, PostStep, ChunkStep;
    hide StartLineText, PrintLines, VersionText, BeforeVersion;
  }

  function WithMajor(t: Trace, major: string): Trace {
    t.(numbers := t.numbers.(major := major))
  }

  function WithMinor(t: Trace, minor: string): Trace {
    t.(numbers := t.numbers.(minor := minor))
  }

  function WithCode(t: Trace, code: string): Trace {
    t.(numbers := t.numbers.(code := code))
  }

  lemma MajorDigitTrace(t: Trace, c: Conf, ch: char) returns (u: Trace)
    requires GoesOn(t, c, ch) && (c.state.VersionMajorStart? || c.state.VersionMajor?) && IsDigit(ch)
    ensures Follows(t, c, ch, u)
  {
    hide RequestLineStep, StatusLineStep, HeaderStep, EndOfHeadersStep, PostStep, ChunkStep;
    hide StartLineText, PrintLines, BeforeVersion, DecimalNumber, IsHeader, IsFold, AreLines, Image.StartLineInv,
      Image.FramingInv, Image.RecordInv, VersionText;
    var s := if c.state.VersionMajor? then t.numbers.major else "";
    NumberGrows(s, ch);
    u := WithMajor(t, s + [ch]);
  }

  lemma MajorEndTrace(t: Trace, c: Conf, ch: char)
    requires GoesOn(t, c, ch) && c.state.VersionMajor? && !IsDigit(ch)
    ensures Follows(t, c, ch, t)
  {
    hide RequestLineStep, StatusLineStep, HeaderStep, EndOfHeadersStep, PostStep, ChunkStep;
    hide StartLineText, PrintLines, BeforeVersion, DecimalNumber, IsHeader, IsFold, AreLines, Image.StartLineInv,
      Image.FramingInv, Image.RecordInv, VersionText;
  }

  lemma MajorTrace(t: Trace, c: Conf, ch: char) returns (u: Trace)
    requires GoesOn(t, c, ch) && (c.state.VersionMajorStart? || c.state.VersionMajor?)
    ensures Follows(t, c, ch, u)
  {
    if IsDigit(ch) {
      u := MajorDigitTrace(t, c, ch);
    } else {
      MajorStartsWithDigit(t, c, ch);
      MajorEndTrace(t, c, ch);
      u := t;
    }
  }

  lemma MajorStartsWithDigit(t: Trace, c: Conf, ch: char)
    requires GoesOn(t, c, ch)
    ensures c.state.VersionMajorStart? ==> IsDigit(ch)
  {
    hide Image.Inv, IsTrace, RequestLineStep, StatusLineStep, HeaderStep, EndOfHeadersStep, PostStep, ChunkStep;
  }

  lemma MinorTrace(t: Trace, c: Conf, ch: char) returns (u: Trace)
    requires GoesOn(t, c, ch) && (c.state.VersionMinorStart? || c.state.VersionMinor?)
    ensures Follows(t, c, ch, u)
  {
    if IsDigit(ch) {
      u := MinorDigitTrace(t, c, ch);
    } else {
      VersionEndTrace(t, c, ch);
      u := t;
    }
  }

  lemma MinorDigitTrace(t: Trace, c: Conf, ch: char) returns (u: Trace)
    requires GoesOn(t, c, ch) && (c.state.VersionMinorStart? || c.state.VersionMinor?) && IsDigit(ch)
    ensures Follows(t, c, ch, u)
  {
    hide RequestLineStep, StatusLineStep, HeaderStep, EndOfHeadersStep, PostStep, ChunkStep;
    hide StartLineText, PrintLines, BeforeVersion, DecimalNumber, IsHeader, IsFold, AreLines, Image.StartLineInv,
      Image.FramingInv, Image.RecordInv;
    var s := if c.state.VersionMinor? then t.numbers.minor else "";
    NumberGrows(s, ch);
    u := WithMinor(t, s + [ch]);
    assert TextOf(u, Consume(c, ch).conf) == TextOf(t, c) + [ch];
  }

  lemma VersionEndTrace(t: Trace, c: Conf, ch: char)
    requires GoesOn(t, c, ch) && c.state.VersionMinor? && !IsDigit(ch)
    ensures Follows(t, c, ch, t)
  {
    hide RequestLineStep, StatusLineStep, HeaderStep, EndOfHeadersStep, PostStep, ChunkStep;
    hide StartLineText, VersionText, PrintLines, BeforeVersion, DecimalNumber, IsHeader, IsFold, AreLines, Image.StartLineInv,
      Image.FramingInv, Image.RecordInv;
    VersionEnds(c.msg, t.numbers);
    if c.msg.start.RequestLine? {
      SameStartLineText(c.msg, Consume(c, ch).conf.msg, t.numbers);
    }
  }

  lemma VersionEnds(m: Message, d: Numbers)
    ensures m.start.RequestLine? ==> BeforeVersion(m.start) + VersionText(d.major, d.minor) == StartLineText(m, d)
    ensures m.start.StatusLine? ==> BeforeVersion(m.start) + VersionText(d.major, d.minor) == VersionText(d.major, d.minor)
  {
    hide VersionText;
  }

  lemma CodeTrace(t: Trace, c: Conf, ch: char) returns (u: Trace)
    requires GoesOn(t, c, ch) && (c.state.StatusCodeStart? || c.state.StatusCode?) && IsDigit(ch)
    ensures Follows(t, c, ch, u)
  {
    hide RequestLineStep, VersionStep, HeaderStep, EndOfHeadersStep, PostStep, ChunkStep;
    hide StartLineText, PrintLines, VersionText, DecimalNumber, IsHeader, IsFold, AreLines, Image.FramingInv,
      Image.RecordInv, IsStatusText;
    var s := if c.state.StatusCode? then t.numbers.code else "";
    NumberGrows(s, ch);
    u := WithCode(t, s + [ch]);
  }

  lemma StatusTextTrace(t: Trace, c: Conf, ch: char)
    requires GoesOn(t, c, ch) && InStatusLine(c.state)
    requires (c.state.StatusCodeStart? || c.state.StatusCode?) ==> !IsDigit(ch)
    ensures Follows(t, c, ch, t)
  {
    hide RequestLineStep, VersionStep, HeaderStep, EndOfHeadersStep, PostStep, ChunkStep;
    hide PrintLines, VersionText, DecimalNumber, IsHeader, IsFold, AreLines, Image.FramingInv, Image.RecordInv,
      IsStatusText, IsDigit;
  }

  lemma StatusTrace(t: Trace, c: Conf, ch: char) returns (u: Trace)
    requires GoesOn(t, c, ch) && InStatusLine(c.state)
    ensures Follows(t, c, ch, u)
  {
    hide GoesOn, Follows;
    u := t;
    if (c.state.StatusCodeStart? || c.state.StatusCode?) && IsDigit(ch) {
      u := CodeTrace(t, c, ch);
    } else {
      StatusTextTrace(t, c, ch);
    }
  }

  function WithPart(t: Trace, part: Part): Trace {
    t.(part := part)
  }

  /** `f` continues the last line. */
  function AddFold(ls: seq<Line>, f: Fold): seq<Line>
    requires ls != []
  {
    var l := ls[|ls| - 1];
    ls[..|ls| - 1] + [l.(folds := l.folds + [f])]
  }

  lemma AddLineText(ls: seq<Line>, h: Header)
    requires AreLines(ls) && IsHeader(h)
    ensures PrintLines(ls + [Line(h, [])]) == PrintLines(ls) + PrintHeader(h) && AreLines(ls + [Line(h, [])])
  {
    hide IsHeader;
    var l := Line(h, []);
    assert IsLine(l) && (ls + [l])[..|ls|] == ls;
  }

  lemma AddFoldText(ls: seq<Line>, f: Fold)
    requires AreLines(ls) && ls != [] && IsFold(f)
    ensures PrintLines(AddFold(ls, f)) == PrintLines(ls) + PrintFold(f) && AreLines(AddFold(ls, f))
  {
    hide IsHeader, IsFold, PrintFold;
    var n := |ls| - 1;
    var l := ls[n];
    var k := l.(folds := l.folds + [f]);
    assert Shorter(k) == l && LastFold(k) == f;
    assert IsLine(k);
    assert AddFold(ls, f)[..n] == ls[..n] && AddFold(ls, f)[n] == k;
  }

  lemma StartLineEnds(s: string)
    ensures s + "\r" + ['\n'] == s + "\r\n" + PrintLines([])
  {
  }

  lemma SameStartLineText(m: Message, n: Message, d: Numbers)
    requires m.start == n.start
    ensures StartLineText(m, d) == StartLineText(n, d)
  {
  }

  lemma FirstLineTrace(t: Trace, c: Conf, ch: char)
    requires GoesOn(t, c, ch) && c.state.StartLineNewline?
    ensures Follows(t, c, ch, t)
  {
    hide RequestLineStep, VersionStep, StatusLineStep, EndOfHeadersStep, PostStep, ChunkStep;
    hide StartLineText, VersionText, DecimalNumber, AreLines, PrintLines, Image.StartLineInv, Image.FramingInv, HasItsKeepAlive,
      AreHeaders;
    assert t.lines == [];
    StartLineEnds(StartLineText(c.msg, t.numbers));
  }

  lemma LineStartTrace(t: Trace, c: Conf, ch: char) returns (u: Trace)
    requires GoesOn(t, c, ch) && c.state.HeaderLineStart?
    ensures Follows(t, c, ch, u)
  {
    hide RequestLineStep, VersionStep, StatusLineStep, EndOfHeadersStep, PostStep, ChunkStep;
    hide HeadSoFar, VersionText, DecimalNumber, AreLines, Image.StartLineInv, Image.FramingInv, Image.RecordInv, IsTokenChar;
    u := t;
    if ch == '\r' {
    } else if t.lines != [] && (ch == ' ' || ch == '\t') {
      u := WithPart(t, Space([ch]));
    } else {
      u := WithPart(t, Name([ch]));
    }
    assert HeadSoFar(u, Consume(c, ch).conf) == HeadSoFar(t, c) by { SameHead(t, u, c, Consume(c, ch).conf); }
  }

  lemma NameByteTrace(t: Trace, c: Conf, ch: char) returns (u: Trace)
    requires GoesOn(t, c, ch) && c.state.HeaderName? && ch != ':'
    ensures Follows(t, c, ch, u)
  {
    hide RequestLineStep, VersionStep, StatusLineStep, EndOfHeadersStep, PostStep, ChunkStep;
    hide HeadSoFar, DecimalNumber, AreLines, Image.StartLineInv, Image.FramingInv, Image.RecordInv, IsTokenChar, IsHeader, IsFold;
    u := WithPart(t, Name(t.part.name + [ch]));
    SameHead(t, u, c, Consume(c, ch).conf);
    assert PartText(u.part) == PartText(t.part) + [ch];
  }

  lemma NameEndTrace(t: Trace, c: Conf)
    requires GoesOn(t, c, ':') && c.state.HeaderName?
    ensures Follows(t, c, ':', t)
  {
    hide RequestLineStep, VersionStep, StatusLineStep, EndOfHeadersStep, PostStep, ChunkStep;
    hide HeadSoFar, PartText, DecimalNumber, AreLines, Image.StartLineInv, Image.FramingInv, Image.RecordInv, IsToken, IsHeader,
      IsFold;
    SameHead(t, t, c, Consume(c, ':').conf);
  }

  lemma ColonTrace(t: Trace, c: Conf, ch: char) returns (u: Trace)
    requires GoesOn(t, c, ch) && c.state.SpaceBeforeHeaderValue?
    ensures Follows(t, c, ch, u)
  {
    hide RequestLineStep, VersionStep, StatusLineStep, EndOfHeadersStep, PostStep, ChunkStep;
    hide HeadSoFar, DecimalNumber, AreLines, Image.StartLineInv, Image.FramingInv, Image.RecordInv, IsToken, IsFold;
    u := WithPart(t, Value(t.part.name, ""));
    SameHead(t, u, c, Consume(c, ch).conf);
    assert PartText(u.part) == PartText(t.part) + ":" + [ch];
  }

  lemma NameTrace(t: Trace, c: Conf, ch: char) returns (u: Trace)
    requires GoesOn(t, c, ch) && (c.state.HeaderName? || c.state.SpaceBeforeHeaderValue?)
    ensures Follows(t, c, ch, u)
  {
    hide GoesOn, Follows;
    if c.state.SpaceBeforeHeaderValue? {
      u := ColonTrace(t, c, ch);
    } else if ch == ':' {
      NameEndTrace(t, c);
      u := t;
    } else {
      u := NameByteTrace(t, c, ch);
    }
  }

  lemma SameHead(t: Trace, u: Trace, c: Conf, d: Conf)
    requires t.numbers == u.numbers && t.lines == u.lines && c.msg.start == d.msg.start
    ensures HeadSoFar(t, c) == HeadSoFar(u, d)
  {
  }

  /** The header line being read with one more byte of text. */
  function Longer(p: Part, ch: char): Part {
    match p
    case Value(name, value) => Value(name, value + [ch])
    case Text(fold) => Text(fold.(text := fold.text + [ch]))
    case _ => p
  }

  lemma LongerPart(p: Part, ch: char)
    requires (p.Value? || p.Text?) && IsPart(p, HeaderValue) && !IsControl(ch)
    ensures IsPart(Longer(p, ch), HeaderValue) && PartText(Longer(p, ch)) == PartText(p) + [ch]
  {
    hide IsToken, IsControl;
  }

  lemma ValueByteTrace(t: Trace, c: Conf, ch: char) returns (u: Trace)
    requires GoesOn(t, c, ch) && c.state.HeaderValue? && ch != '\r'
    ensures Follows(t, c, ch, u)
  {
    hide RequestLineStep, VersionStep, StatusLineStep, EndOfHeadersStep, PostStep, ChunkStep;
    hide HeadSoFar, PartText, DecimalNumber, AreLines, Image.StartLineInv, Image.FramingInv, Image.RecordInv, IsHeader, IsFold,
      IsFramed, EndOfValue, IsControl;
    LongerPart(t.part, ch);
    u := WithPart(t, Longer(t.part, ch));
    SameHead(t, u, c, Consume(c, ch).conf);
    assert TextOf(u, Consume(c, ch).conf) == TextOf(t, c) + [ch];
  }

  lemma FoldTrace(t: Trace, c: Conf, ch: char) returns (u: Trace)
    requires GoesOn(t, c, ch) && c.state.HeaderLws? && ch != '\r'
    ensures Follows(t, c, ch, u)
  {
    hide RequestLineStep, VersionStep, StatusLineStep, EndOfHeadersStep, PostStep, ChunkStep;
    hide HeadSoFar, DecimalNumber, AreLines, Image.StartLineInv, Image.FramingInv, Image.RecordInv, IsFramed, EndOfValue;
    var space := t.part.space;
    u := WithPart(t, if ch == ' ' || ch == '\t' then Space(space + [ch]) else Text(Fold(space, [ch])));
    SameHead(t, u, c, Consume(c, ch).conf);
    assert PartText(u.part) == space + [ch];
    assert TextOf(u, Consume(c, ch).conf) == TextOf(t, c) + [ch];
  }

  lemma ValueEndTrace(t: Trace, c: Conf)
    requires GoesOn(t, c, '\r') && (c.state.HeaderValue? || c.state.HeaderLws?)
    ensures Follows(t, c, '\r', t)
  {
    hide RequestLineStep, VersionStep, StatusLineStep, EndOfHeadersStep, PostStep, ChunkStep;
    hide HeadSoFar, DecimalNumber, AreLines, Image.StartLineInv, Image.FramingInv, Image.RecordInv, IsHeader, IsFold, IsSpaceText,
      IsFramed, IsContentLength, SaysChunked, Atoi;
    SameHead(t, t, c, Consume(c, '\r').conf);
  }

  lemma ValueTrace(t: Trace, c: Conf, ch: char) returns (u: Trace)
    requires GoesOn(t, c, ch) && (c.state.HeaderValue? || c.state.HeaderLws?)
    ensures Follows(t, c, ch, u)
  {
    hide GoesOn, Follows;
    if ch == '\r' {
      ValueEndTrace(t, c);
      u := t;
    } else if c.state.HeaderValue? {
      u := ValueByteTrace(t, c, ch);
    } else {
      u := FoldTrace(t, c, ch);
    }
  }

  /** The continuation that a line of white space or of text is. */
  function FoldOf(p: Part): Fold
    requires p.Space? || p.Text?
  {
    match p case Space(space) => Fold(space, "") case Text(fold) => fold
  }

  lemma FoldOfPart(p: Part)
    requires (p.Space? || p.Text?) && IsPart(p, ExpectingNewline2)
    ensures IsFold(FoldOf(p)) && PrintFold(FoldOf(p)) == PartText(p) + "\r" + ['\n']
  {
    assert p.Space? ==> p.space + "" == p.space;
  }

  lemma LineEndTrace(t: Trace, c: Conf, ch: char) returns (u: Trace)
    requires GoesOn(t, c, ch) && c.state.ExpectingNewline2?
    ensures Follows(t, c, ch, u)
  {
    hide RequestLineStep, VersionStep, StatusLineStep, EndOfHeadersStep, PostStep, ChunkStep;
    hide StartLineText, PrintLines, PrintFold, DecimalNumber, AreLines, Image.StartLineInv, Image.FramingInv, Image.RecordInv,
      IsHeader, IsFold, AddFold, PartText;
    if t.part.Value? {
      var h := Header(t.part.name, t.part.value);
      AddLineText(t.lines, h);
      PartIsHeader(h);
      u := Trace(t.numbers, t.lines + [Line(h, [])], NoPart);
    } else {
      var f := FoldOf(t.part);
      FoldOfPart(t.part);
      AddFoldText(t.lines, f);
      SameNumberOfLines(t.lines, f);
      u := Trace(t.numbers, AddFold(t.lines, f), NoPart);
    }
    assert TextOf(u, Consume(c, ch).conf) == TextOf(t, c) + [ch];
  }

  lemma PartIsHeader(h: Header)
    ensures PrintHeader(h) == PartText(Value(h.name, h.value)) + "\r" + ['\n']
  {
  }

  lemma SameNumberOfLines(ls: seq<Line>, f: Fold)
    requires ls != []
    ensures |AddFold(ls, f)| == |ls|
  {
  }

  lemma TraceStep(t: Trace, c: Conf, ch: char) returns (u: Trace)
    requires GoesOn(t, c, ch) && InHead(c.state) && !c.state.ExpectingNewline3?
    ensures Follows(t, c, ch, u)
  {
    hide GoesOn, Follows;
    u := t;
    match c.state
    case RequestMethodStart | RequestMethod | RequestUriStart | RequestUri => RequestLineTrace(t, c, ch);
    case VersionMajorStart | VersionMajor => u := MajorTrace(t, c, ch);
    case VersionMinorStart | VersionMinor => u := MinorTrace(t, c, ch);
    case StatusCodeStart | StatusCode | StatusTextStart | StatusText => u := StatusTrace(t, c, ch);
    case StartLineNewline => FirstLineTrace(t, c, ch);
    case HeaderLineStart => u := LineStartTrace(t, c, ch);
    case HeaderName | SpaceBeforeHeaderValue => u := NameTrace(t, c, ch);
    case HeaderValue | HeaderLws => u := ValueTrace(t, c, ch);
    case ExpectingNewline2 => u := LineEndTrace(t, c, ch);
    case _ => LiteralTrace(t, c, ch);
  }

  /** What a step says about being in the head: a body is never left again, only the end of the headers
      leads to one, and a message completes there or at the end of a bare request line. */
  predicate KeepsPlace(c: Conf, ch: char, step: Step) {
    && (!InHead(c.state) ==> !InHead(step.conf.state))
    && (InHead(c.state) && !c.state.ExpectingNewline3? ==> InHead(step.conf.state))
    && (c.state.ExpectingNewline3? && step.outcome.ParsingIncomplete? ==> !InHead(step.conf.state))
    && (step.outcome.ParsingCompleted? && InHead(c.state) ==> c.state.ExpectingNewline3? || (c.state.RequestUri? && ch == '\r'))
  }

  lemma RequestLineKeepsPlace(c: Conf, ch: char)
    requires Valid(c) && InRequestLine(c.state)
    ensures KeepsPlace(c, ch, RequestLineStep(c, ch))
  {
    hide IsTokenChar, IsControl;
  }

  lemma VersionKeepsPlace(c: Conf, ch: char)
    requires Valid(c) && InVersion(c.state)
    ensures KeepsPlace(c, ch, VersionStep(c, ch))
  {
    hide IsDigit, DigitValue;
  }

  lemma StatusLineKeepsPlace(c: Conf, ch: char)
    requires Valid(c) && InStatusLine(c.state)
    ensures KeepsPlace(c, ch, StatusLineStep(c, ch))
  {
    hide IsDigit, DigitValue, IsChar;
  }

  lemma HeadersKeepPlace(c: Conf, ch: char)
    requires Valid(c) && InHeaders(c.state)
    ensures KeepsPlace(c, ch, HeaderStep(c, ch))
  {
    hide IsTokenChar, IsControl, IsFramed, Atoi, EqualsNoCase;
  }

  lemma BodiesKeepPlace(c: Conf, ch: char)
    requires Valid(c) && (c.state.ExpectingNewline3? || c.state.Post? || InChunks(c.state))
    ensures c.state.ExpectingNewline3? ==> KeepsPlace(c, ch, EndOfHeadersStep(c, ch))
    ensures c.state.Post? ==> KeepsPlace(c, ch, PostStep(c, ch))
    ensures InChunks(c.state) ==> KeepsPlace(c, ch, ChunkStep(c, ch))
  {
    hide Strtol16, KeepAliveAfter, IsAlnum, IsAlpha;
  }

  lemma BodyStays(c: Conf, ch: char)
    requires Valid(c)
    ensures KeepsPlace(c, ch, Consume(c, ch))
  {
    hide KeepsPlace, RequestLineStep, VersionStep, StatusLineStep, HeaderStep, EndOfHeadersStep, PostStep, ChunkStep;
    if InRequestLine(c.state) {
      RequestLineKeepsPlace(c, ch);
    } else if InVersion(c.state) {
      VersionKeepsPlace(c, ch);
    } else if InStatusLine(c.state) {
      StatusLineKeepsPlace(c, ch);
    } else if InHeaders(c.state) {
      HeadersKeepPlace(c, ch);
    } else {
      BodiesKeepPlace(c, ch);
    }
  }

  const NO_TRACE := Trace(Numbers("", "", ""), [], NoPart)

  lemma StartTrace(start: Conf)
    requires Chunks.IsStart(start)
    ensures IsTrace(NO_TRACE, start) && TextOf(NO_TRACE, start) == ""
  {
  }

  /** Every head that is being read is accounted for. */
  lemma {:induction false} Explain(start: Conf, s: string) returns (t: Trace)
    requires Chunks.IsStart(start)
    requires Parse(start, s).outcome.ParsingIncomplete? && InHead(Parse(start, s).conf.state)
    ensures IsTrace(t, Parse(start, s).conf) && TextOf(t, Parse(start, s).conf) == s
  {
    hide Parse, Consume, IsTrace, TextOf, InHead, Image.Inv;
    if s == "" {
      t := NO_TRACE;
      ReachesNothing(start);
      StartTrace(start);
    } else {
      var n := |s| - 1;
      var init, ch := s[..n], s[n];
      assert s == init + [ch];
      ParseSplit(start, init, [ch]);
      var c := Parse(start, init).conf;
      ParseOne(c, ch);
      assert Image.Inv(start) by { Reprint.StartsInv(); }
      Image.ParseKeepsInv(start, init);
      BodyStays(c, ch);
      t := Explain(start, init);
      t := TraceStep(t, c, ch);
    }
  }

  lemma ParseOne(c: Conf, ch: char)
    requires Valid(c)
    ensures Parse(c, [ch]).conf == Consume(c, ch).conf && Parse(c, [ch]).outcome == Consume(c, ch).outcome
  {
    hide Parse, Consume;
    ParseCons(c, ch, "");
    ReachesNothing(Consume(c, ch).conf);
    assert [ch] + "" == [ch];
  }

  /** Where the head of a completing parse ends. */
  lemma {:induction false} HeadEnds(c: Conf, s: string) returns (n: nat)
    requires Valid(c) && InHead(c.state) && Parse(c, s).outcome.ParsingCompleted?
    ensures n < |s| && Parse(c, s[..n]).outcome.ParsingIncomplete?
    ensures var d := Parse(c, s[..n]).conf;
            (d.state.ExpectingNewline3? || (d.state.RequestUri? && s[n] == '\r')) && Parse(c, s) == Parse(d, s[n..])
    decreases |s|
  {
    hide Parse, Consume, InHead;
    assert s != "" by { if s == "" { ReachesNothing(c); } }
    var step, t := Consume(c, s[0]), s[1..];
    BodyStays(c, s[0]);
    assert s == [s[0]] + t;
    ParseCons(c, s[0], t);
    if c.state.ExpectingNewline3? || step.outcome.ParsingCompleted? {
      n := 0;
      ReachesNothing(c);
      assert s[..0] == "" && s[0..] == s;
    } else {
      var k := HeadEnds(step.conf, t);
      n := k + 1;
      Chunks.CutAfterFirst(s, k);
      ParseCons(c, s[0], t[..k]);
    }
  }

  // ---- messages as trees ---------------------------------------------------------------------------

  /** A start line, how its numbers are written, and header lines with their continuations. */
  datatype Head = Head(start: StartLine, numbers: Numbers, lines: seq<Line>)

  /** A whole message. `gap` stands where the last newline of the head is due; it is not checked when a
      body follows. */
  datatype Tree =
    | Bare(verb: string, uri: string)
    | WithoutBody(head: Head)
    | WithContent(head: Head, gap: char, content: string)
    | WithChunks(head: Head, gap: char, body: Chunks.Body)

  function Worth(s: string): nat {
    if IsNumber(s) then DecimalNumber(s) else 0
  }

  /** The record that a head gives. */
  function HeadRecord(h: Head): Message {
    Message(h.start, Worth(h.numbers.major), Worth(h.numbers.minor), GluedHeaders(h.lines), "", false)
  }

  predicate IsHead(h: Head) {
    Write(h.numbers, HeadRecord(h)) && IsStartLine(HeadRecord(h)) && AreLines(h.lines)
  }

  /** What the lines of a head declare; only responses and POST or PUT requests have a body. */
  function Declared(h: Head): Framing {
    if h.start.StatusLine? || h.start.verb == "POST" || h.start.verb == "PUT" then CountLines(h.lines) else Framing(0, false)
  }

  predicate IsTree(t: Tree) {
    match t
    case Bare(verb, uri) => IsToken(verb) && IsUri(uri)
    case WithoutBody(h) => IsHead(h) && Declared(h) == Framing(0, false)
    case WithContent(h, _, content) => IsHead(h) && content != "" && Declared(h) == Framing(|content|, false)
    case WithChunks(h, _, b) => IsHead(h) && Declared(h).Framing? && Declared(h).chunked && Chunks.IsBody(b)
  }

  function HeadText(h: Head): string
    requires IsHead(h)
  {
    PrintFoldedHead(HeadRecord(h), h.numbers, h.lines)
  }

  function TreeText(t: Tree): string
    requires IsTree(t)
  {
    match t
    case Bare(verb, uri) => verb + " " + uri + "\r"
    case WithoutBody(h) => HeadText(h) + "\n"
    case WithContent(h, gap, content) => HeadText(h) + [gap] + content
    case WithChunks(h, gap, b) => HeadText(h) + [gap] + Chunks.PrintBody(b)
  }

  function Complete(h: Head, content: string): Message
    requires IsHead(h)
  {
    var m := HeadRecord(h);
    m.(content := content, keepAlive := KeepAliveAfter(m.headers, m.versionMajor, m.versionMinor, false))
  }

  function TreeRecord(t: Tree): Message
    requires IsTree(t)
  {
    match t
    case Bare(verb, uri) => Message(RequestLine(verb, uri), 0, 9, [], "", false)
    case WithoutBody(h) => Complete(h, "")
    case WithContent(h, _, content) => Complete(h, content)
    case WithChunks(h, _, b) => Complete(h, Chunks.Data(b.chunks))
  }

  /** The parser for this kind of message. */
  function StartOf(t: Tree): Conf {
    if t.Bare? || t.head.start.RequestLine? then RequestStart() else ResponseStart()
  }

  // ---- every tree is read ----------------------------------------------------------------------------

  lemma DeclaredIsCounted(h: Head)
    requires IsHead(h)
    ensures Declared(h) == Counted(IsFramed(HeadRecord(h)), h.lines)
  {
  }

  lemma ReadHeadOf(h: Head)
    requires IsHead(h) && Declared(h).Framing?
    ensures Reaches(Fresh(HeadRecord(h)), HeadText(h), AfterHead(HeadRecord(h), Declared(h)))
  {
    hide Parse, PrintFoldedHead, IsStartLine, Write, CountLines, GluedHeaders, IsLine;
    DeclaredIsCounted(h);
    ReadFoldedHead(HeadRecord(h), h.numbers, h.lines);
  }

  lemma ReadTree(t: Tree, rest: string)
    requires IsTree(t)
    ensures var r := Parse(StartOf(t), TreeText(t) + rest);
            && r.outcome.ParsingCompleted? && r.conf.msg == TreeRecord(t) && r.rest == rest
            && (r.conf.chunked <==> t.WithChunks?)
  {
    hide Parse, Consume, IsToken, IsUri, HeadText, IsHead, Declared, Complete, Chunks.PrintBody, Chunks.Data, Chunks.IsBody;
    match t
    case Bare(verb, uri) =>
      Traps.RequestWithoutVersion(verb, uri, rest);
    case WithoutBody(h) => ReadPlain(h, rest);
    case WithContent(h, gap, content) => ReadContentOf(h, gap, content, rest);
    case WithChunks(h, gap, b) => ReadChunksOf(h, gap, b, rest);
  }

  /** At the body of `h`. */
  function AtBodyOf(h: Head, state: State): Conf
    requires IsHead(h) && Declared(h).Framing?
  {
    Conf(state, Declared(h).size, "", 0, Declared(h).chunked, Complete(h, ""))
  }

  lemma AtBodyMeaning(h: Head, state: State)
    requires IsHead(h) && Declared(h).Framing?
    ensures var d := AtBodyOf(h, state);
            && d.state == state && d.contentSize == Declared(h).size && d.chunked == Declared(h).chunked && d.msg == Complete(h, "")
            && d.chunkSizeStr == "" && d.chunkSize == 0
  {
    hide IsHead, Declared, Complete;
  }

  lemma GapThenBody(h: Head, gap: char)
    requires IsHead(h) && Declared(h).Framing?
    ensures var f, step := Declared(h), Consume(AfterHead(HeadRecord(h), Declared(h)), gap);
            && (f.chunked ==> step == Go(AtBodyOf(h, ChunkSize)))
            && (!f.chunked && f.size != 0 ==> step == Go(AtBodyOf(h, Post)))
            && (!f.chunked && f.size == 0 ==>
                  if gap == '\n' then step == Done(AtBodyOf(h, ExpectingNewline3)) else step.outcome.ParsingError?)
  {
    hide Consume, KeepAliveAfter, IsHead, Declared;
    Traps.ConsumeEndOfHeaders(AfterHead(HeadRecord(h), Declared(h)), gap);
  }

  lemma ReadPlain(h: Head, rest: string)
    requires IsTree(WithoutBody(h))
    ensures var r := Parse(Fresh(HeadRecord(h)), HeadText(h) + "\n" + rest);
            r.outcome.ParsingCompleted? && r.conf.msg == Complete(h, "") && r.rest == rest && !r.conf.chunked
  {
    hide Parse, Consume, HeadText, KeepAliveAfter, IsHead, Declared, HeadRecord;
    var c := AfterHead(HeadRecord(h), Declared(h));
    ReadHeadOf(h);
    ReachesThen(Fresh(HeadRecord(h)), HeadText(h), c, ['\n'] + rest);
    assert HeadText(h) + "\n" + rest == HeadText(h) + (['\n'] + rest);
    GapThenBody(h, '\n');
    ParseCons(c, '\n', rest);
  }

  lemma CompleteWith(h: Head, content: string)
    requires IsHead(h)
    ensures Complete(h, "").content == "" && Complete(h, "").(content := "" + content) == Complete(h, content)
  {
    hide IsHead, HeadRecord, KeepAliveAfter;
    assert "" + content == content;
  }

  lemma BodyText(head: string, gap: char, body: string, rest: string)
    ensures head + [gap] + body + rest == head + ([gap] + (body + rest))
  {
  }

  lemma ReadContentOf(h: Head, gap: char, content: string, rest: string)
    requires IsTree(WithContent(h, gap, content))
    ensures var r := Parse(Fresh(HeadRecord(h)), HeadText(h) + [gap] + content + rest);
            r.outcome.ParsingCompleted? && r.conf.msg == Complete(h, content) && r.rest == rest && !r.conf.chunked
    ensures var r := Parse(Fresh(HeadRecord(h)), HeadText(h) + [gap] + content + rest);
            r.conf.state.Post? && r.conf.contentSize == 0
  {
    hide Parse, Consume, HeadText, IsHead, Declared, HeadRecord, AtBodyOf, Complete;
    var c, d := AfterHead(HeadRecord(h), Declared(h)), AtBodyOf(h, Post);
    AtBodyMeaning(h, Post);
    CompleteWith(h, content);
    ReadHeadOf(h);
    BodyText(HeadText(h), gap, content, rest);
    ReachesThen(Fresh(HeadRecord(h)), HeadText(h), c, [gap] + (content + rest));
    GapThenBody(h, gap);
    ReachesCons(c, gap, d, content + rest);
    Reprint.ReadContent(d, content, rest);
  }

  lemma ReadChunksOf(h: Head, gap: char, b: Chunks.Body, rest: string)
    requires IsTree(WithChunks(h, gap, b))
    ensures var r := Parse(Fresh(HeadRecord(h)), HeadText(h) + [gap] + Chunks.PrintBody(b) + rest);
            r.outcome.ParsingCompleted? && r.conf.msg == Complete(h, Chunks.Data(b.chunks)) && r.rest == rest && r.conf.chunked
  {
    hide Parse, Consume, HeadText, IsHead, Declared, HeadRecord, AtBodyOf, Complete, Chunks.PrintBody, Chunks.IsBody, Chunks.Data;
    var c, d, text := AfterHead(HeadRecord(h), Declared(h)), AtBodyOf(h, ChunkSize), Chunks.PrintBody(b);
    AtBodyMeaning(h, ChunkSize);
    CompleteWith(h, Chunks.Data(b.chunks));
    ReadHeadOf(h);
    BodyText(HeadText(h), gap, text, rest);
    ReachesThen(Fresh(HeadRecord(h)), HeadText(h), c, [gap] + (text + rest));
    GapThenBody(h, gap);
    ReachesCons(c, gap, d, text + rest);
    Chunks.DecodesEveryEncoding(d, b, rest);
  }

  // ---- and nothing else completes -----------------------------------------------------------------------

  /** `s` is the text of `t`, and `rest`, given to the right parser. */
  predicate IsMessage(start: Conf, s: string, t: Tree, rest: string) {
    IsTree(t) && start == StartOf(t) && s == TreeText(t) + rest
  }

  /** The head that a trace accounts for. */
  lemma TracedHead(start: Conf, s: string) returns (h: Head)
    requires Chunks.IsStart(start) && Parse(start, s).outcome.ParsingIncomplete? && Parse(start, s).conf.state.ExpectingNewline3?
    ensures IsHead(h) && Declared(h).Framing? && start == Fresh(HeadRecord(h)) && s == HeadText(h)
    ensures Parse(start, s).conf == AfterHead(HeadRecord(h), Declared(h))
  {
    hide Parse, Consume, PrintFoldedHead, GluedHeaders, CountLines;
    var c := Parse(start, s).conf;
    var t := Explain(start, s);
    assert Image.Inv(start) by { Reprint.StartsInv(); }
    Image.ParseKeepsInv(start, s);
    h := Head(c.msg.start, t.numbers, t.lines);
    TraceIsHead(t, c, h);
    assert start == Fresh(HeadRecord(h)) by { KindStays(start, s); }
    DeclaredIsCounted(h);
    ReadFoldedHead(HeadRecord(h), h.numbers, h.lines);
  }

  lemma KindStays(start: Conf, s: string)
    requires Chunks.IsStart(start)
    ensures start == if Parse(start, s).conf.msg.start.RequestLine? then RequestStart() else ResponseStart()
  {
    hide Parse;
  }

  lemma TraceIsHead(t: Trace, c: Conf, h: Head)
    requires Image.Inv(c) && c.state.ExpectingNewline3? && IsTrace(t, c) && h == Head(c.msg.start, t.numbers, t.lines)
    ensures IsHead(h) && TextOf(t, c) == HeadText(h)
  {
    hide PrintLines, StartLineText, DecimalNumber, GluedHeaders, AreLines, IsToken, IsUri, IsStatusText, CountLines;
    SameStartLineText(c.msg, HeadRecord(h), t.numbers);
  }

  lemma FindMessage(start: Conf, s: string) returns (t: Tree, rest: string)
    requires Chunks.IsStart(start) && Parse(start, s).outcome.ParsingCompleted?
    ensures IsMessage(start, s, t, rest)
  {
    hide Parse, Consume, Declared, IsHead, HeadText;
    assert InHead(start.state);
    var n := HeadEnds(start, s);
    var c := Parse(start, s[..n]).conf;
    assert s == s[..n] + s[n..] && s[n..] == [s[n]] + s[n + 1..];
    if c.state.RequestUri? {
      t, rest := FindBare(start, s, n);
    } else {
      var h := TracedHead(start, s[..n]);
      t, rest := FindBody(h, s[n], s[n + 1..]);
      HeadAndBody(h, t, s[n], s[n + 1..], rest);
    }
  }

  lemma FindBare(start: Conf, s: string, n: nat) returns (t: Tree, rest: string)
    requires Chunks.IsStart(start) && n < |s| && s[n] == '\r'
    requires Parse(start, s[..n]).outcome.ParsingIncomplete? && Parse(start, s[..n]).conf.state.RequestUri?
    ensures IsMessage(start, s, t, rest)
  {
    hide Parse, Consume, IsToken, IsUri;
    var c := Parse(start, s[..n]).conf;
    var trace := Explain(start, s[..n]);
    assert Image.Inv(start) by { Reprint.StartsInv(); }
    Image.ParseKeepsInv(start, s[..n]);
    KindStays(start, s[..n]);
    t, rest := Bare(c.msg.start.verb, c.msg.start.uri), s[n + 1..];
    assert s == s[..n] + "\r" + rest;
  }

  /** What follows the head of a completing parse. */
  predicate IsBody(t: Tree, h: Head, gap: char, body: string, rest: string) {
    IsTree(t) && match t
                 case Bare(_, _) => false
                 case WithoutBody(k) => k == h && gap == '\n' && body == rest
                 case WithContent(k, g, content) => k == h && g == gap && body == content + rest
                 case WithChunks(k, g, b) => k == h && g == gap && body == Chunks.PrintBody(b) + rest
  }

  lemma HeadAndBody(h: Head, t: Tree, gap: char, body: string, rest: string)
    requires IsHead(h) && IsBody(t, h, gap, body, rest)
    ensures HeadText(h) + ([gap] + body) == TreeText(t) + rest
  {
    hide HeadText, IsHead, Declared, Chunks.PrintBody;
  }

  lemma FindBody(h: Head, gap: char, body: string) returns (t: Tree, rest: string)
    requires IsHead(h) && Declared(h).Framing?
    requires Parse(AfterHead(HeadRecord(h), Declared(h)), [gap] + body).outcome.ParsingCompleted?
    ensures IsBody(t, h, gap, body, rest)
  {
    hide Parse, Consume, IsHead, Declared, KeepAliveAfter, Chunks.IsBody, Chunks.PrintBody;
    var c := AfterHead(HeadRecord(h), Declared(h));
    GapThenBody(h, gap);
    ParseCons(c, gap, body);
    if Declared(h).chunked {
      var d := Consume(c, gap).conf;
      var b := Chunks.AcceptsOnlyEncodings(d, body);
      t, rest := WithChunks(h, gap, b), Parse(d, body).rest;
    } else if Declared(h).size != 0 {
      var size := Declared(h).size;
      if |body| < size {
        Reprint.ShortContentIncomplete(Consume(c, gap).conf, body);
      }
      t, rest := WithContent(h, gap, body[..size]), body[size..];
      assert body == body[..size] + body[size..];
    } else {
      t, rest := WithoutBody(h), body;
    }
  }

  /** The language of a parser, given all of its input at once or in any pieces: it completes on exactly
      the texts of messages with anything after them, and each of them has one record, with what
      follows unread. */
  lemma MessageLanguage(start: Conf, s: string)
    requires Chunks.IsStart(start)
    ensures Parse(start, s).outcome.ParsingCompleted? <==> exists t, rest :: IsMessage(start, s, t, rest)
    ensures forall t, rest :: IsMessage(start, s, t, rest) ==>
              && Parse(start, s).conf.msg == TreeRecord(t) && Parse(start, s).rest == rest
              && (Parse(start, s).conf.chunked <==> t.WithChunks?)
  {
    hide Parse, TreeText, TreeRecord, IsTree;
    forall t, rest | IsMessage(start, s, t, rest)
      ensures var r := Parse(start, s);
              && r.outcome.ParsingCompleted? && r.conf.msg == TreeRecord(t) && r.rest == rest
              && (r.conf.chunked <==> t.WithChunks?)
    {
      ReadTree(t, rest);
    }
    if Parse(start, s).outcome.ParsingCompleted? {
      var t, rest := FindMessage(start, s);
    }
  }

  /** A parser that has completed with counted content is not fresh: given more, it collects bytes until
      its counter has come round, and completes again only after 2 to the power of 64 of them. */
  lemma CompletedIsNotFresh(h: Head, gap: char, content: string, more: string)
    requires IsTree(WithContent(h, gap, content))
    ensures var c := Parse(Fresh(HeadRecord(h)), HeadText(h) + [gap] + content).conf;
            Parse(c, more).outcome.ParsingCompleted? <==> |more| >= 0x1_0000_0000_0000_0000
  {
    hide Parse, Consume, HeadText, IsHead, Declared, HeadRecord, Complete;
    ReadContentOf(h, gap, content, "");
    assert HeadText(h) + [gap] + content + "" == HeadText(h) + [gap] + content;
    CounterComesRound(Parse(Fresh(HeadRecord(h)), HeadText(h) + [gap] + content).conf, more);
  }

  lemma CounterComesRound(c: Conf, s: string)
    requires c.state.Post? && c.contentSize == 0
    ensures Parse(c, s).outcome.ParsingCompleted? <==> |s| >= 0x1_0000_0000_0000_0000
  {
    hide Parse, Consume;
    if s == "" {
      ReachesNothing(c);
    } else {
      var n, t := 0xFFFF_FFFF_FFFF_FFFF, s[1..];
      var d := PostStep(c, s[0]).conf;
      assert s == [s[0]] + t && d.contentSize == n;
      Reprint.ConsumeInPost(c, s[0]);
      ParseCons(c, s[0], t);
      if |t| < n {
        Reprint.ShortContentIncomplete(d, t);
      } else {
        assert t == t[..n] + t[n..];
        Reprint.ReadContent(d, t[..n], t[n..]);
      }
    }
  }
}
