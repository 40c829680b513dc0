/** The printer and the parser are inverse: exactly the well-framed records survive printing and
    reading back, and exactly those records come out of parses outside chunked mode. */
module Reprint {
  import opened Messages
  import opened Parser
  import opened Reading
  import Image
  import Chunks

  lemma ConsumeInPost(c: Conf, ch: char)
    requires c.state.Post?
    ensures Consume(c, ch) == PostStep(c, ch)
  {
    hide PostStep;
  }

  lemma {:induction false} ReadContent(c: Conf, s: string, rest: string)
    requires c.state.Post? && c.contentSize == |s| && s != ""
    ensures Parse(c, s + rest)
         == Result(c.(contentSize := 0, msg := c.msg.(content := c.msg.content + s)), ParsingCompleted, rest)
    decreases s
  {
    hide Parse, Consume;
    var ch, tail := s[0], s[1..];
    assert s + rest == [ch] + (tail + rest);
    assert c.msg.content + [ch] + tail == c.msg.content + s;
    ConsumeInPost(c, ch);
    ParseCons(c, ch, tail + rest);
    if tail == "" {
      assert tail + rest == rest;
    } else {
      ReadContent(PostStep(c, ch).conf, tail, rest);
    }
  }

  lemma {:induction false} ShortContentIncomplete(c: Conf, s: string)
    requires c.state.Post? && |s| < c.contentSize
    ensures Parse(c, s).outcome.ParsingIncomplete?
    decreases s
  {
    if s == "" {
      ReachesNothing(c);
    } else {
      hide Parse, Consume;
      assert s == [s[0]] + s[1..];
      ConsumeInPost(c, s[0]);
      ParseCons(c, s[0], s[1..]);
      ShortContentIncomplete(PostStep(c, s[0]).conf, s[1..]);
    }
  }

  /** Just after the newline that ends the headers of `m`, with `f` still to be read. */
  function AtBody(m: Message, f: Framing, state: State): Conf
    requires f.Framing?
  {
    Conf(state, f.size, "", 0, f.chunked,
         m.(content := "", keepAlive := KeepAliveAfter(m.headers, m.versionMajor, m.versionMinor, false)))
  }

  /** What reading the content of `m` comes to under `f`. */
  function ReadContentOf(m: Message, f: Framing): Result
    requires f.Framing?
  {
    if f.chunked then Parse(AtBody(m, f, ChunkSize), m.content)
    else if f.size != 0 then Parse(AtBody(m, f, Post), m.content)
    else Result(AtBody(m, f, ExpectingNewline3), ParsingCompleted, m.content)
  }

  /** Reading back a printed record comes down to reading its content under its own framing. */
  lemma ReadPrinted(m: Message)
    requires IsPrintable(m)
    ensures var f, r := Framed(m), Parse(Fresh(m), Print(m));
            if f.BadLength? then r.outcome.ParsingError? else r == ReadContentOf(m, f)
  {
    hide Parse, Print, PrintHead, HeaderFraming, KeepAliveAfter;
    var f, body := Framed(m), ['\n'] + m.content;
    PrintIsHeadAndBody(m);
    ReadHead(m);
    if f.BadLength? {
      ParseSplit(Fresh(m), PrintHead(m), body);
    } else {
      ReachesThen(Fresh(m), PrintHead(m), AfterHead(m, f), body);
      NewlineEndsHeaders(m, f);
    }
  }

  lemma NewlineEndsHeaders(m: Message, f: Framing)
    requires f.Framing?
    ensures Parse(AfterHead(m, f), ['\n'] + m.content) == ReadContentOf(m, f)
  {
    hide Parse;
    var c := AfterHead(m, f);
    assert Consume(c, '\n') == EndOfHeadersStep(c, '\n');
    ParseCons(c, '\n', m.content);
  }

  function KeepAliveOf(m: Message): bool {
    KeepAliveAfter(m.headers, m.versionMajor, m.versionMinor, false)
  }

  /** Parsing the printed record consumes all of it and gives the record, with `keepAlive` as its
      headers and version say. */
  predicate ReadsBack(m: Message) {
    var r := Parse(Fresh(m), Print(m));
    r.outcome.ParsingCompleted? && r.rest == "" && r.conf.msg == m.(keepAlive := KeepAliveOf(m))
  }

  lemma PostReadsBack(m: Message, f: Framing)
    requires f.Framing? && !f.chunked && f.size != 0
    ensures var r := Parse(AtBody(m, f, Post), m.content);
            r.outcome.ParsingCompleted? && r.rest == "" <==> f.size == |m.content|
    ensures f.size == |m.content| ==>
            Parse(AtBody(m, f, Post), m.content).conf.msg == m.(keepAlive := KeepAliveOf(m))
  {
    hide Parse, Consume, KeepAliveAfter;
    var c, n := AtBody(m, f, Post), f.size;
    if n > |m.content| {
      ShortContentIncomplete(c, m.content);
    } else {
      assert m.content == m.content[..n] + m.content[n..];
      ReadContent(c, m.content[..n], m.content[n..]);
      assert "" + m.content[..n] == m.content[..n];
    }
  }

  /** Decoded content is shorter than its encoding, so chunk-framed content never reads back. */
  lemma ChunkedDoesNotReadBack(m: Message, f: Framing)
    requires f.Framing? && f.chunked
    ensures var r := Parse(AtBody(m, f, ChunkSize), m.content);
            !(r.outcome.ParsingCompleted? && r.conf.msg.content == m.content)
  {
    hide Parse, Consume;
    var c := AtBody(m, f, ChunkSize);
    if Chunks.Completes(c, m.content) {
      var b := Chunks.AcceptsOnlyEncodings(c, m.content);
      Chunks.EncodingIsLonger(b);
      assert Parse(c, m.content).conf.msg.content == "" + Chunks.Data(b.chunks);
    }
  }

  /** A record in the parser's alphabet reads back exactly when its headers frame its content. */
  lemma ReadsBackIff(m: Message)
    requires IsPrintable(m)
    ensures ReadsBack(m) <==> IsWellFramed(m)
  {
    hide Parse, Consume, Print, HeaderFraming, KeepAliveAfter, IsPrintable;
    ReadPrinted(m);
    var f := Framed(m);
    if f.Framing? {
      if f.chunked {
        ChunkedDoesNotReadBack(m, f);
      } else if f.size != 0 {
        PostReadsBack(m, f);
      }
    }
  }

  /** Reprint identity, over every byte string the parser completes on. The record it produced
      reprints to itself, `keepAlive` included, if and only if its headers frame its decoded
      content; outside chunked mode they always do. */
  lemma ReprintIdentity(start: Conf, s: string)
    requires start == RequestStart() || start == ResponseStart()
    requires Parse(start, s).outcome.ParsingCompleted?
    ensures var c := Parse(start, s).conf;
            var r := Parse(start, Print(c.msg));
            && (!c.chunked ==> IsWellFramed(c.msg))
            && (r.outcome.ParsingCompleted? && r.rest == "" && r.conf.msg == c.msg <==> IsWellFramed(c.msg))
  {
    hide Parse, Consume, Print, HeaderFraming, KeepAliveAfter, IsPrintable;
    assert Image.Inv(start) by { StartsInv(); }
    Image.ParseKeepsInv(start, s);
    var m := Parse(start, s).conf.msg;
    ReadsBackIff(m);
  }

  lemma StartsInv()
    ensures Image.Inv(RequestStart()) && Image.Inv(ResponseStart())
  {
  }

  /** `m` comes out of some completed parse outside chunked mode. */
  predicate Parsed(m: Message, s: string) {
    var r := Parse(Fresh(m), s);
    r.outcome.ParsingCompleted? && !r.conf.chunked && r.conf.msg == m
  }

  /** The records such parses produce are exactly those with a start line and headers in the
      alphabet, content of the declared length and the `keepAlive` of their headers and version. */
  lemma ImageOfParser(m: Message)
    ensures (exists s :: Parsed(m, s)) <==> IsPrintable(m) && IsWellFramed(m) && HasItsKeepAlive(m)
  {
    hide Parse, Consume, Print, HeaderFraming, KeepAliveAfter, IsPrintable;
    forall s | Parsed(m, s) ensures IsPrintable(m) && IsWellFramed(m) && HasItsKeepAlive(m) {
      assert Image.Inv(Fresh(m)) by { StartsInv(); }
      Image.ParseKeepsInv(Fresh(m), s);
    }
    if IsPrintable(m) && IsWellFramed(m) && HasItsKeepAlive(m) {
      ReadsBackIff(m);
      PrintedIsNotChunked(m);
      assert Parsed(m, Print(m));
    }
  }

  lemma PrintedIsNotChunked(m: Message)
    requires IsPrintable(m) && IsWellFramed(m)
    ensures !Parse(Fresh(m), Print(m)).conf.chunked
  {
    hide Parse, Consume, Print, HeaderFraming, KeepAliveAfter, IsPrintable;
    ReadPrinted(m);
    var f := Framed(m);
    if f.size != 0 {
      ReadContent(AtBody(m, f, Post), m.content, "");
      assert m.content + "" == m.content;
    }
  }

  /** Outside chunked mode a completed parse has received exactly the declared number of bytes,
      and on the way what is received and what is missing add up to it. */
  lemma FramingConserved(start: Conf, s: string)
    requires start == RequestStart() || start == ResponseStart()
    ensures var r := Parse(start, s);
            var m, f := r.conf.msg, Framed(r.conf.msg);
            && (r.outcome.ParsingCompleted? && !r.conf.chunked ==> f == Framing(|m.content|, false))
            && (r.outcome.ParsingIncomplete? && r.conf.state.Post? ==>
                  f == Framing(|m.content| + r.conf.contentSize, false) && r.conf.contentSize > 0)
            && (r.outcome.ParsingIncomplete? && r.conf.state.ExpectingNewline3? && !r.conf.chunked ==>
                  f == Framing(r.conf.contentSize, false))
  {
    hide Parse, Consume, HeaderFraming;
    assert Image.Inv(start) by { StartsInv(); }
    Image.ParseKeepsInv(start, s);
  }

  /** A record whose headers still say chunked never reads back: a printed response head that says
      chunked, followed by any encoded body, completes with the decoded content, and printing that
      record and parsing it again does not give it back. */
  lemma ChunkedNeverReprints(m: Response, b: Chunks.Body)
    requires IsPrintable(m) && HasItsKeepAlive(m) && m.content == "" && Chunks.IsBody(b)
    requires HeaderFraming(m.headers).Framing? && HeaderFraming(m.headers).chunked
    ensures var r := Parse(ResponseStart(), Print(m.(content := Chunks.PrintBody(b))));
            && r.outcome.ParsingCompleted? && r.rest == ""
            && r.conf.msg == m.(content := Chunks.Data(b.chunks))
            && !ReadsBack(r.conf.msg)
  {
    hide Parse, Consume, Print, HeaderFraming, KeepAliveAfter;
    var text := Chunks.PrintBody(b);
    var p, f := m.(content := text), HeaderFraming(m.headers);
    var c := AtBody(p, f, ChunkSize);
    ReadPrinted(p);
    Chunks.DecodesEveryEncoding(c, b, "");
    assert text + "" == text && "" + Chunks.Data(b.chunks) == Chunks.Data(b.chunks);
    ReadsBackIff(m.(content := Chunks.Data(b.chunks)));
  }
}
