/** What the parser makes of input that its printer never writes. */
module Traps {
  import opened Bytes
  import opened Messages
  import opened Parser
  import opened Reading

  // ---- HTTP/0.9 -----------------------------------------------------------------------------------

  lemma ReadBareUri(m: Message)
    requires m.start.RequestLine? && IsStartLine(m)
    ensures Reaches(InLine(m, RequestUriStart, RequestLine(m.start.verb, "")), m.start.uri, InLine(m, RequestUri, m.start))
  {
    hide Parse;
    var uri := m.start.uri;
    assert uri == [uri[0]] + uri[1..];
    var d := InLine(m, RequestUri, RequestLine(m.start.verb, [uri[0]]));
    ReachesCons(InLine(m, RequestUriStart, RequestLine(m.start.verb, "")), uri[0], d, uri[1..]);
    ReadUri(d, uri[1..]);
  }

  lemma EndBareUri(m: Message, rest: string)
    requires m.start.RequestLine?
    ensures var r := Parse(InLine(m, RequestUri, m.start), ['\r'] + rest);
            r.outcome.ParsingCompleted? && r.rest == rest && r.conf.msg == Message(m.start, 0, 9, [], "", false) && !r.conf.chunked
  {
    hide Parse;
    ParseCons(InLine(m, RequestUri, m.start), '\r', rest);
  }

  /** A request line without a version is complete at its carriage return: version 0.9, no headers,
      and everything after it unread. */
  lemma RequestWithoutVersion(verb: string, uri: string, rest: string)
    requires IsToken(verb) && IsUri(uri)
    ensures var r := Parse(RequestStart(), verb + " " + uri + "\r" + rest);
            r.outcome.ParsingCompleted? && r.rest == rest && !r.conf.chunked
            && r.conf.msg == Message(RequestLine(verb, uri), 0, 9, [], "", false)
  {
    var m := Message(RequestLine(verb, uri), 0, 9, [], "", false);
    hide Parse, Consume, IsToken, IsUri, InLine;
    assert Fresh(m) == RequestStart() && IsStartLine(m);
    var a, t := verb + " ", ['\r'] + rest;
    var c, u, e := RequestStart(), InLine(m, RequestUriStart, RequestLine(verb, "")), InLine(m, RequestUri, m.start);
    ReadVerbPart(m);
    ReadBareUri(m);
    ReachesAppend(c, a, u, uri, e);
    ReachesThen(c, a + uri, e, t);
    EndBareUri(m, rest);
    BareLineText(verb, uri, rest);
  }

  lemma BareLineText(verb: string, uri: string, rest: string)
    ensures verb + " " + uri + "\r" + rest == verb + " " + uri + (['\r'] + rest)
  {
  }

  // ---- the byte before the body -----------------------------------------------------------------

  /** With a body announced, counted or chunked, the byte after the final carriage return is not
      checked: any byte in its place leads to the same result, whatever follows. */
  lemma AnyByteBeforeBody(m: Message, x: char, rest: string)
    requires IsPrintable(m) && Framed(m).Framing? && (Framed(m).chunked || Framed(m).size != 0)
    ensures Parse(Fresh(m), PrintHead(m) + ([x] + rest)) == Parse(Fresh(m), PrintHead(m) + (['\n'] + rest))
  {
    hide Parse, Consume, PrintHead, HeaderFraming, IsPrintable;
    var c := AfterHead(m, Framed(m));
    ReadHead(m);
    ReachesThen(Fresh(m), PrintHead(m), c, [x] + rest);
    ReachesThen(Fresh(m), PrintHead(m), c, ['\n'] + rest);
    ParseCons(c, x, rest);
    ParseCons(c, '\n', rest);
    SameEndOfHeaders(c, x);
  }

  lemma SameEndOfHeaders(c: Conf, x: char)
    requires c.state.ExpectingNewline3? && (c.contentSize != 0 || c.chunked)
    ensures Consume(c, x) == Consume(c, '\n') == EndOfHeadersStep(c, '\n')
    ensures Consume(c, x).outcome.ParsingIncomplete?
  {
    hide Consume, KeepAliveAfter;
    ConsumeEndOfHeaders(c, x);
    ConsumeEndOfHeaders(c, '\n');
  }

  /** Without a body it has to be a newline. */
  lemma NewlineWithoutBody(m: Message, x: char)
    requires IsPrintable(m) && IsWellFramed(m) && m.content == ""
    ensures Parse(Fresh(m), PrintHead(m) + [x]).outcome.ParsingCompleted? <==> x == '\n'
  {
    hide Parse, Consume, Print, PrintHead, HeaderFraming, IsPrintable;
    var c := AfterHead(m, Framed(m));
    ReadHead(m);
    ReachesThen(Fresh(m), PrintHead(m), c, [x]);
    LastByte(c, x);
  }

  lemma LastByte(c: Conf, x: char)
    requires c.state.ExpectingNewline3? && c.contentSize == 0 && !c.chunked
    ensures Parse(c, [x]).outcome.ParsingCompleted? <==> x == '\n'
  {
    hide Parse, Consume, KeepAliveAfter;
    ParseCons(c, x, "");
    assert [x] + "" == [x];
    ConsumeEndOfHeaders(c, x);
  }

  lemma ConsumeEndOfHeaders(c: Conf, x: char)
    requires c.state.ExpectingNewline3?
    ensures Consume(c, x) == EndOfHeadersStep(c, x)
  {
    hide EndOfHeadersStep;
  }
}
