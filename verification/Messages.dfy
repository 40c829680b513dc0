/** The `Request` and `Response` records and what their headers declare. */
module Messages {
  import opened Bytes

  datatype Header = Header(name: string, value: string)

  datatype StartLine = RequestLine(verb: string, uri: string) | StatusLine(code: nat, text: string)

  /** The two records share everything but their start line: `method` and `uri` in one,
      `statusCode` and `status` in the other. */
  datatype Message = Message(start: StartLine, versionMajor: nat, versionMinor: nat,
                             headers: seq<Header>, content: string, keepAlive: bool)

  type Request = m: Message | m.start.RequestLine? witness Message(RequestLine("", ""), 0, 0, [], "", false)
  type Response = m: Message | m.start.StatusLine? witness Message(StatusLine(0, ""), 0, 0, [], "", false)

  const EMPTY_REQUEST: Request := Message(RequestLine("", ""), 0, 0, [], "", false)
  const EMPTY_RESPONSE: Response := Message(StatusLine(0, ""), 0, 0, [], "", false)

  // ---- printing -------------------------------------------------------------------------------

  function PrintVersion(m: Message): string {
    "HTTP/" + Decimal(m.versionMajor) + "." + Decimal(m.versionMinor)
  }

  function PrintStartLine(m: Message): string {
    match m.start
    case RequestLine(verb, uri) => verb + " " + uri + " " + PrintVersion(m)
    case StatusLine(code, text) => PrintVersion(m) + " " + Decimal(code) + " " + text
  }

  function PrintHeader(h: Header): string {
    h.name + ": " + h.value + "\r\n"
  }

  function PrintHeaders(hs: seq<Header>): string {
    if hs == [] then "" else PrintHeaders(hs[..|hs| - 1]) + PrintHeader(hs[|hs| - 1])
  }

  /** `inspect()`. */
  function Print(m: Message): string {
    PrintStartLine(m) + "\r\n" + PrintHeaders(m.headers) + "\r\n" + m.content
  }

  // ---- what the headers declare ---------------------------------------------------------------

  /** Only responses and POST or PUT requests have their framing headers read. */
  predicate IsFramed(m: Message) {
    m.start.StatusLine? || m.start.verb == "POST" || m.start.verb == "PUT"
  }

  predicate IsContentLength(h: Header) {
    EqualsNoCase(h.name, "Content-Length")
  }

  predicate IsTransferEncoding(h: Header) {
    EqualsNoCase(h.name, "Transfer-Encoding")
  }

  predicate SaysChunked(h: Header) {
    !IsContentLength(h) && IsTransferEncoding(h) && EqualsNoCase(h.value, "chunked")
  }

  /** How a list of header lines frames the body. A negative length makes `reserve` throw. */
  datatype Framing = BadLength | Framing(size: nat, chunked: bool)

  function AddFraming(f: Framing, h: Header): Framing {
    if f.BadLength? then f
    else if IsContentLength(h) then
      if Atoi(h.value) < 0 then BadLength else f.(size := Atoi(h.value))
    else if SaysChunked(h) then f.(chunked := true)
    else f
  }

  function HeaderFraming(hs: seq<Header>): Framing {
    if hs == [] then Framing(0, false) else AddFraming(HeaderFraming(hs[..|hs| - 1]), hs[|hs| - 1])
  }

  function FramingOf(framed: bool, hs: seq<Header>): Framing {
    if framed then HeaderFraming(hs) else Framing(0, false)
  }

  /** What the headers of a message declare about its body. */
  function Framed(m: Message): Framing {
    FramingOf(IsFramed(m), m.headers)
  }

  /** Framing names and values are compared without case, and nothing else about them is free. */
  lemma NamesIgnoreCase(h: Header)
    ensures IsContentLength(h) <==> SameButCase(h.name, "Content-Length")
    ensures IsTransferEncoding(h) <==> SameButCase(h.name, "Transfer-Encoding")
    ensures SaysChunked(h) <==> SameButCase(h.name, "Transfer-Encoding") && SameButCase(h.value, "chunked")
    ensures IsConnection(h) <==> SameButCase(h.name, "Connection")
  {
    hide EqualsNoCase, SameButCase;
    EqualsNoCaseMeaning(h.name, "Content-Length");
    EqualsNoCaseMeaning(h.name, "Transfer-Encoding");
    EqualsNoCaseMeaning(h.value, "chunked");
    EqualsNoCaseMeaning(h.name, "Connection");
    LengthIsNoEncoding(h.name);
  }

  lemma LengthIsNoEncoding(name: string)
    ensures !(EqualsNoCase(name, "Content-Length") && EqualsNoCase(name, "Transfer-Encoding"))
  {
  }

  /** One negative length spoils the message, wherever it stands. */
  lemma {:induction false} BadLengthMeaning(hs: seq<Header>)
    ensures HeaderFraming(hs).BadLength? <==>
            exists h :: h in hs && SameButCase(h.name, "Content-Length") && Atoi(h.value) < 0
  {
    if hs != [] {
      var n := |hs| - 1;
      NamesIgnoreCase(hs[n]);
      hide SameButCase, IsContentLength, SaysChunked;
      BadLengthMeaning(hs[..n]);
      assert hs == hs[..n] + [hs[n]];
    }
  }

  /** The body is chunked when any Transfer-Encoding says so. */
  lemma {:induction false} ChunkedMeaning(hs: seq<Header>)
    requires HeaderFraming(hs).Framing?
    ensures HeaderFraming(hs).chunked <==>
            exists h :: h in hs && SameButCase(h.name, "Transfer-Encoding") && SameButCase(h.value, "chunked")
  {
    if hs != [] {
      var n := |hs| - 1;
      NamesIgnoreCase(hs[n]);
      hide SameButCase, IsContentLength, SaysChunked;
      ChunkedMeaning(hs[..n]);
      assert hs == hs[..n] + [hs[n]];
    }
  }

  /** The declared length is that of the last Content-Length, here at `last`, or 0. */
  lemma {:induction false} DeclaredSizeMeaning(hs: seq<Header>, last: int)
    requires HeaderFraming(hs).Framing?
    requires -1 <= last < |hs| && (last >= 0 ==> SameButCase(hs[last].name, "Content-Length"))
    requires forall j :: last < j < |hs| ==> !SameButCase(hs[j].name, "Content-Length")
    ensures HeaderFraming(hs).size == if last < 0 then 0 else Atoi(hs[last].value)
  {
    if hs != [] {
      NamesIgnoreCase(hs[|hs| - 1]);
      hide SameButCase, IsContentLength, SaysChunked;
      if last < |hs| - 1 {
        DeclaredSizeMeaning(hs[..|hs| - 1], last);
      }
    }
  }

  predicate IsConnection(h: Header) {
    EqualsNoCase(h.name, "Connection")
  }

  /** A printed length declares itself, and nothing else. */
  lemma PrintedLengthCounts(f: Framing, n: nat)
    requires f.Framing?
    ensures var h := Header("Content-Length", Decimal(n));
            AddFraming(f, h) == f.(size := n) && !SaysChunked(h) && !IsConnection(h)
  {
    hide Decimal, DecimalNumber;
    var s := Decimal(n);
    DecimalNumberOfPrinted(n);
    AtoiMeaning("", s, "");
    assert "" + (s + "") == s;
  }

  /** HTTP/1.1 and every major version above 1 default to a persistent connection. */
  predicate DefaultsToKeepAlive(major: nat, minor: nat) {
    major > 1 || (major == 1 && minor == 1)
  }

  /** `keepAlive` after the header section: the first Connection header decides, otherwise the
      version can only turn it on. */
  function KeepAliveAfter(hs: seq<Header>, major: nat, minor: nat, was: bool): bool {
    if hs == [] then was || DefaultsToKeepAlive(major, minor)
    else if IsConnection(hs[0]) then EqualsNoCase(hs[0].value, "Keep-Alive")
    else KeepAliveAfter(hs[1..], major, minor, was)
  }

  /** The first Connection header, here at `first`, decides; without one (`first` is the number of
      headers) only the version can turn it on. */
  lemma {:induction false} KeepAliveMeaning(hs: seq<Header>, first: nat, major: nat, minor: nat, was: bool)
    requires first <= |hs| && (forall i :: 0 <= i < first ==> !SameButCase(hs[i].name, "Connection"))
    requires first < |hs| ==> SameButCase(hs[first].name, "Connection")
    ensures KeepAliveAfter(hs, major, minor, was) ==
            if first < |hs| then SameButCase(hs[first].value, "Keep-Alive")
            else was || major > 1 || (major == 1 && minor == 1)
  {
    if hs != [] {
      NamesIgnoreCase(hs[0]);
      EqualsNoCaseMeaning(hs[0].value, "Keep-Alive");
      hide SameButCase, IsConnection, EqualsNoCase;
      if first > 0 {
        KeepAliveMeaning(hs[1..], first - 1, major, minor, was);
      }
    }
  }

  /** A header spelled in any other case frames a message, and decides keepAlive, as it does. */
  lemma SpellingIsFree(f: Framing, h: Header, k: Header, hs: seq<Header>, major: nat, minor: nat, was: bool)
    requires SameButCase(h.name, k.name)
    ensures h.value == k.value ==> AddFraming(f, h) == AddFraming(f, k)
    ensures h.value == k.value ==> KeepAliveAfter([h] + hs, major, minor, was) == KeepAliveAfter([k] + hs, major, minor, was)
    ensures SameButCase(h.value, k.value) && SameButCase(k.name, "Transfer-Encoding") ==> AddFraming(f, h) == AddFraming(f, k)
    ensures SameButCase(h.value, k.value) && SameButCase(k.name, "Connection") ==>
              KeepAliveAfter([h] + hs, major, minor, was) == KeepAliveAfter([k] + hs, major, minor, was)
  {
    hide SameButCase, EqualsNoCase, Atoi;
    assert ([h] + hs)[1..] == hs == ([k] + hs)[1..];
    SpellsTheSame(h.name, k.name, "Content-Length");
    SpellsTheSame(h.name, k.name, "Transfer-Encoding");
    SpellsTheSame(h.name, k.name, "Connection");
    if SameButCase(h.value, k.value) {
      SpellsTheSame(h.value, k.value, "chunked");
      SpellsTheSame(h.value, k.value, "Keep-Alive");
    }
    EqualsNoCaseMeaning(k.name, "Transfer-Encoding");
    EqualsNoCaseMeaning(k.name, "Connection");
    LengthIsNoEncoding(k.name);
  }

  lemma SpellsTheSame(a: string, b: string, word: string)
    requires SameButCase(a, b)
    ensures EqualsNoCase(a, word) <==> EqualsNoCase(b, word)
  {
    EqualsNoCaseMeaning(a, b);
  }

  // ---- the records a parser can produce ---------------------------------------------------------

  predicate IsUri(s: string) {
    s != "" && NoControls(s) && forall i :: 1 <= i < |s| ==> s[i] != ' '
  }

  predicate IsStatusText(s: string) {
    s != "" && (forall i :: 0 <= i < |s| ==> IsChar(s[i])) && forall i :: 1 <= i < |s| ==> s[i] != '\r'
  }

  predicate IsHeader(h: Header) {
    IsToken(h.name) && NoControls(h.value)
  }

  predicate AreHeaders(hs: seq<Header>) {
    forall i :: 0 <= i < |hs| ==> IsHeader(hs[i])
  }

  predicate IsStartLine(m: Message) {
    match m.start
    case RequestLine(verb, uri) => IsToken(verb) && IsUri(uri)
    case StatusLine(code, text) => 100 <= code <= 999 && IsStatusText(text)
  }

  /** Every name, value and start-line text is in the alphabet the parser accepts there. */
  predicate IsPrintable(m: Message) {
    IsStartLine(m) && AreHeaders(m.headers)
  }

  /** The headers announce exactly the content that is there. */
  predicate IsWellFramed(m: Message) {
    Framed(m) == Framing(|m.content|, false)
  }

  predicate HasItsKeepAlive(m: Message) {
    m.keepAlive == KeepAliveAfter(m.headers, m.versionMajor, m.versionMinor, false)
  }
}
