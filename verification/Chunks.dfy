/** The chunked transfer coding (section 4.1 of RFC 7230) as the parser reads it: the language it
    accepts, and what it decodes. */
module Chunks {
  import opened Bytes
  import opened Messages
  import opened Parser
  import opened Reading

  // ---- chunked bodies as trees, and their text --------------------------------------------------

  datatype Extension = None | Name(name: string) | NameValue(name: string, value: string)
  datatype Chunk = Chunk(size: string, ext: Extension, data: string)
  datatype Trailer = Trailer(name: string, value: string)
  datatype Body = Body(chunks: seq<Chunk>, lastSize: string, lastExt: Extension, trailers: seq<Trailer>)

  predicate IsAlnumOrSpace(c: char) {
    IsAlnum(c) || c == ' '
  }

  predicate Alnums(s: string) {
    forall i :: 0 <= i < |s| ==> IsAlnum(s[i])
  }

  predicate AlnumsOrSpaces(s: string) {
    forall i :: 0 <= i < |s| ==> IsAlnumOrSpace(s[i])
  }

  predicate IsExtension(e: Extension) {
    match e
    case None => true
    case Name(name) => AlnumsOrSpaces(name)
    case NameValue(name, value) => AlnumsOrSpaces(name) && AlnumsOrSpaces(value)
  }

  /** The size text is what `strtol` makes of it; the chunk holds that many bytes, at least one. */
  predicate IsChunk(k: Chunk) {
    Alnums(k.size) && IsExtension(k.ext) && Strtol16(k.size) == |k.data| && k.data != ""
  }

  predicate IsTrailer(t: Trailer) {
    t.name != "" && IsAlpha(t.name[0]) && Alnums(t.name) && AlnumsOrSpaces(t.value)
  }

  predicate IsBody(b: Body) {
    && (forall k :: k in b.chunks ==> IsChunk(k))
    && Alnums(b.lastSize) && IsExtension(b.lastExt) && Strtol16(b.lastSize) == 0
    && (forall t :: t in b.trailers ==> IsTrailer(t))
  }

  function PrintExtension(e: Extension): string {
    match e
    case None => ""
    case Name(name) => ";" + name
    case NameValue(name, value) => ";" + name + "=" + value
  }

  function PrintSizeLine(size: string, ext: Extension): string {
    size + PrintExtension(ext) + "\r\n"
  }

  function PrintChunk(k: Chunk): string {
    PrintSizeLine(k.size, k.ext) + k.data + "\r\n"
  }

  function PrintChunks(ks: seq<Chunk>): string {
    if ks == [] then "" else PrintChunk(ks[0]) + PrintChunks(ks[1..])
  }

  function PrintTrailer(t: Trailer): string {
    t.name + ":" + t.value + "\r\n"
  }

  function PrintTrailers(ts: seq<Trailer>): string {
    if ts == [] then "" else PrintTrailer(ts[0]) + PrintTrailers(ts[1..])
  }

  function PrintBody(b: Body): string {
    PrintChunks(b.chunks) + (PrintSizeLine(b.lastSize, b.lastExt) + (PrintTrailers(b.trailers) + "\r\n"))
  }

  function Data(ks: seq<Chunk>): string {
    if ks == [] then "" else ks[0].data + Data(ks[1..])
  }

  // ---- regrouping text --------------------------------------------------------------------------

  lemma CrLf(t: string)
    ensures "\r\n" + t == ['\r'] + (['\n'] + t)
  {
  }

  lemma SizeLineText(size: string, ext: Extension, t: string)
    ensures size + (PrintExtension(ext) + (['\r'] + (['\n'] + t))) == PrintSizeLine(size, ext) + t
  {
    hide PrintExtension;
    CrLf(t);
  }

  lemma TrailerText(first: char, more: string, value: string, t: string)
    ensures [first] + (more + ([':'] + (value + ("\r\n" + t)))) == PrintTrailer(Trailer([first] + more, value)) + t
  {
  }

  lemma FirstTrailerText(tr: Trailer, ts: seq<Trailer>, t: string)
    ensures PrintTrailers([tr] + ts) + t == PrintTrailer(tr) + (PrintTrailers(ts) + t)
  {
    hide PrintTrailer;
    assert ([tr] + ts)[1..] == ts;
  }

  lemma BodyText(b: Body, rest: string)
    ensures PrintBody(b) + rest
         == PrintChunks(b.chunks) + (PrintSizeLine(b.lastSize, b.lastExt) + (PrintTrailers(b.trailers) + ("\r\n" + rest)))
  {
    hide PrintChunks, PrintSizeLine, PrintTrailers;
  }

  lemma FirstChunkText(k: Chunk, b: Body)
    ensures PrintBody(b.(chunks := [k] + b.chunks)) == PrintChunk(k) + PrintBody(b)
  {
    hide PrintChunk, PrintSizeLine, PrintTrailers;
    assert ([k] + b.chunks)[1..] == b.chunks;
  }

  lemma NameValueText(name: string, value: string, t: string)
    ensures [';'] + (name + (['='] + (value + t))) == PrintExtension(NameValue(name, value)) + t
  {
  }

  lemma ChunkText(k: Chunk, t: string)
    ensures PrintSizeLine(k.size, k.ext) + (k.data + ("\r\n" + t)) == PrintChunk(k) + t
  {
    hide PrintSizeLine;
  }

  lemma FirstChunkData(k: Chunk, ks: seq<Chunk>)
    ensures Data([k] + ks) == k.data + Data(ks)
  {
    assert ([k] + ks)[1..] == ks;
  }

  lemma TextAssociates(a: string, b: string, c: string)
    ensures a + (b + c) == a + b + c
  {
  }

  // ---- reading one piece ------------------------------------------------------------------------

  /** At the beginning of a chunk. */
  predicate AtChunk(c: Conf) {
    c.state.ChunkSize? && c.chunkSizeStr == "" && c.chunkSize == 0
  }

  function WithContent(c: Conf, content: string): Conf {
    c.(msg := c.msg.(content := content))
  }

  lemma ConsumeInChunks(c: Conf, ch: char)
    requires Valid(c) && InChunks(c.state)
    ensures Consume(c, ch) == ChunkStep(c, ch)
  {
    hide ChunkStep;
  }

  lemma ByteReaches(c: Conf, ch: char, d: Conf)
    requires Valid(c) && InChunks(c.state) && ChunkStep(c, ch) == Go(d)
    ensures Valid(d) && Reaches(c, [ch], d)
  {
    hide Parse, Consume, ChunkStep;
    ConsumeInChunks(c, ch);
    ReachesByte(c, ch, d);
  }

  lemma ByteThen(c: Conf, ch: char, d: Conf, s: string)
    requires Valid(c) && InChunks(c.state) && ChunkStep(c, ch) == Go(d)
    ensures Valid(d) && Parse(c, [ch] + s) == Parse(d, s)
  {
    hide Parse, Consume, ChunkStep;
    ConsumeInChunks(c, ch);
    ReachesCons(c, ch, d, s);
  }

  lemma ByteCompletes(c: Conf, s: string)
    requires Valid(c) && InChunks(c.state) && s != "" && ChunkStep(c, s[0]).outcome.ParsingCompleted?
    ensures Parse(c, s) == Result(ChunkStep(c, s[0]).conf, ParsingCompleted, s[1..])
  {
    hide Parse, Consume, ChunkStep;
    ConsumeInChunks(c, s[0]);
    assert s == [s[0]] + s[1..];
    ParseCons(c, s[0], s[1..]);
  }

  lemma NewlineReaches(c: Conf, d: Conf, e: Conf)
    requires Valid(c) && InChunks(c.state) && InChunks(d.state)
    requires ChunkStep(c, '\r') == Go(d) && ChunkStep(d, '\n') == Go(e)
    ensures Reaches(c, "\r\n", e)
  {
    hide Parse, Consume, ChunkStep;
    ByteThen(c, '\r', d, ['\n']);
    ByteReaches(d, '\n', e);
    assert "\r\n" == ['\r'] + ['\n'];
  }

  lemma {:induction false} ReadSizeText(c: Conf, s: string)
    requires c.state.ChunkSize? && Alnums(s)
    ensures Reaches(c, s, c.(chunkSizeStr := c.chunkSizeStr + s))
    decreases s
  {
    hide Parse, Consume;
    if s == "" {
      ReachesNothing(c);
      assert c.chunkSizeStr + s == c.chunkSizeStr;
    } else {
      assert s == [s[0]] + s[1..];
      var d := c.(chunkSizeStr := c.chunkSizeStr + [s[0]]);
      ByteThen(c, s[0], d, s[1..]);
      ReadSizeText(d, s[1..]);
      assert c.chunkSizeStr + [s[0]] + s[1..] == c.chunkSizeStr + s;
    }
  }

  /** Bytes that leave the parser as it is. */
  lemma {:induction false} Skip(c: Conf, s: string)
    requires Valid(c) && InChunks(c.state) && forall i :: 0 <= i < |s| ==> ChunkStep(c, s[i]) == Go(c)
    ensures Reaches(c, s, c)
    decreases s
  {
    hide Parse, Consume;
    if s == "" {
      ReachesNothing(c);
    } else {
      assert s == [s[0]] + s[1..];
      Skip(c, s[1..]);
      ByteThen(c, s[0], c, s[1..]);
    }
  }

  lemma ReadExtensionName(c: Conf, name: string)
    requires c.state.ChunkSize? && AlnumsOrSpaces(name)
    ensures Reaches(c, ";" + name, c.(state := ChunkExtensionName))
  {
    hide Parse, Consume;
    var d := c.(state := ChunkExtensionName);
    ByteThen(c, ';', d, name);
    Skip(d, name);
  }

  lemma ReadExtensionValue(c: Conf, value: string)
    requires c.state.ChunkExtensionName? && AlnumsOrSpaces(value)
    ensures Reaches(c, "=" + value, c.(state := ChunkExtensionValue))
  {
    hide Parse, Consume;
    var d := c.(state := ChunkExtensionValue);
    ByteThen(c, '=', d, value);
    Skip(d, value);
  }

  lemma EndSizeLine(c: Conf)
    requires c.state.ChunkSize? || c.state.ChunkExtensionName? || c.state.ChunkExtensionValue?
    ensures Reaches(c, "\r", c.(state := ChunkSizeNewline))
  {
    hide Parse, Consume;
    ByteReaches(c, '\r', c.(state := ChunkSizeNewline));
  }

  lemma ReadExtension(c: Conf, e: Extension)
    requires c.state.ChunkSize? && IsExtension(e)
    ensures Reaches(c, PrintExtension(e) + "\r", c.(state := ChunkSizeNewline))
  {
    hide Parse, Consume;
    var name, value, done := c.(state := ChunkExtensionName), c.(state := ChunkExtensionValue), c.(state := ChunkSizeNewline);
    match e
    case None =>
      EndSizeLine(c);
      assert "" + "\r" == "\r";
    case Name(n) =>
      ReadExtensionName(c, n);
      EndSizeLine(name);
      ReachesAppend(c, ";" + n, name, "\r", done);
    case NameValue(n, v) =>
      ReadExtensionName(c, n);
      ReadExtensionValue(name, v);
      ReachesAppend(c, ";" + n, name, "=" + v, value);
      EndSizeLine(value);
      ReachesAppend(c, ";" + n + ("=" + v), value, "\r", done);
      assert ";" + n + ("=" + v) == PrintExtension(e);
  }

  /** After a size line, or the newline of a trailer. */
  function AfterSize(c: Conf, size: nat): Conf {
    c.(state := if size == 0 then ChunkSizeNewline2 else ChunkData, chunkSizeStr := "", chunkSize := size)
  }

  lemma ReadSizeLine(c: Conf, size: string, ext: Extension)
    requires AtChunk(c) && Alnums(size) && IsExtension(ext)
    ensures Reaches(c, PrintSizeLine(size, ext), AfterSize(c, Strtol16(size)))
  {
    hide Parse, Consume;
    var c1, c2 := c.(chunkSizeStr := size), c.(state := ChunkSizeNewline, chunkSizeStr := size);
    var e := PrintExtension(ext);
    ReadSizeText(c, size);
    assert "" + size == size;
    ReadExtension(c1, ext);
    ReachesAppend(c, size, c1, e + "\r", c2);
    ByteReaches(c2, '\n', AfterSize(c, Strtol16(size)));
    ReachesAppend(c, size + (e + "\r"), c2, "\n", AfterSize(c, Strtol16(size)));
    assert size + (e + "\r") + "\n" == PrintSizeLine(size, ext);
  }

  lemma {:induction false} ReadData(c: Conf, s: string)
    requires c.state.ChunkData? && c.chunkSize == |s| && s != ""
    ensures Reaches(c, s, c.(state := ChunkDataNewline1, chunkSize := 0, msg := c.msg.(content := c.msg.content + s)))
    decreases s
  {
    hide Parse, Consume;
    var content := c.msg.content;
    assert s == [s[0]] + s[1..];
    assert content + [s[0]] + s[1..] == content + s;
    if |s| == 1 {
      assert s == [s[0]];
      ByteReaches(c, s[0], c.(state := ChunkDataNewline1, chunkSize := 0, msg := c.msg.(content := content + [s[0]])));
    } else {
      var d := c.(chunkSize := |s| - 1, msg := c.msg.(content := content + [s[0]]));
      ByteThen(c, s[0], d, s[1..]);
      ReadData(d, s[1..]);
    }
  }

  lemma ReadDataEnd(c: Conf)
    requires c.state.ChunkDataNewline1?
    ensures Reaches(c, "\r\n", c.(state := ChunkSize))
  {
    hide Parse, Consume;
    NewlineReaches(c, c.(state := ChunkDataNewline2), c.(state := ChunkSize));
  }

  lemma ReadChunk(c: Conf, k: Chunk)
    requires AtChunk(c) && IsChunk(k)
    ensures Reaches(c, PrintChunk(k), WithContent(c, c.msg.content + k.data))
  {
    hide Parse, Consume, PrintSizeLine;
    var line := PrintSizeLine(k.size, k.ext);
    var c1, c3 := AfterSize(c, |k.data|), WithContent(c, c.msg.content + k.data);
    var c2 := c3.(state := ChunkDataNewline1);
    ReadSizeLine(c, k.size, k.ext);
    ReadData(c1, k.data);
    ReachesAppend(c, line, c1, k.data, c2);
    ReadDataEnd(c2);
    ReachesAppend(c, line + k.data, c2, "\r\n", c3);
  }

  lemma {:induction false} ReadChunks(c: Conf, ks: seq<Chunk>)
    requires AtChunk(c) && forall k :: k in ks ==> IsChunk(k)
    ensures Reaches(c, PrintChunks(ks), WithContent(c, c.msg.content + Data(ks)))
    decreases ks
  {
    hide Parse, IsChunk, PrintChunk;
    if ks == [] {
      ReachesNothing(c);
      assert c.msg.content + "" == c.msg.content;
    } else {
      var d := WithContent(c, c.msg.content + ks[0].data);
      ReadChunk(c, ks[0]);
      ReadChunks(d, ks[1..]);
      MoreContent(c, ks[0].data, Data(ks[1..]));
      ReachesAppend(c, PrintChunk(ks[0]), d, PrintChunks(ks[1..]), WithContent(d, d.msg.content + Data(ks[1..])));
    }
  }

  lemma MoreContent(c: Conf, a: string, b: string)
    ensures var d := WithContent(c, c.msg.content + a);
            WithContent(d, d.msg.content + b) == WithContent(c, c.msg.content + (a + b))
  {
    assert c.msg.content + a + b == c.msg.content + (a + b);
  }

  /** After the last chunk, where trailers are read. */
  predicate AtTrailer(c: Conf) {
    c.state.ChunkSizeNewline2? && c.chunkSizeStr == "" && c.chunkSize == 0
  }

  lemma ReadTrailer(c: Conf, t: Trailer)
    requires AtTrailer(c) && IsTrailer(t)
    ensures Reaches(c, PrintTrailer(t), c)
  {
    hide Parse, Consume;
    var d := c.(state := ChunkTrailerValue);
    ReadTrailerName(c, t.name);
    Skip(d, t.value);
    ReachesAppend(c, t.name + ":", d, t.value, d);
    NewlineReaches(d, c.(state := ChunkSizeNewline), c);
    ReachesAppend(c, t.name + ":" + t.value, d, "\r\n", c);
  }

  lemma ReadTrailerName(c: Conf, name: string)
    requires AtTrailer(c) && name != "" && IsAlpha(name[0]) && Alnums(name)
    ensures Reaches(c, name + ":", c.(state := ChunkTrailerValue))
  {
    hide Parse, Consume;
    var d := c.(state := ChunkTrailerName);
    assert name == [name[0]] + name[1..];
    ByteReaches(c, name[0], d);
    Skip(d, name[1..]);
    ReachesAppend(c, [name[0]], d, name[1..], d);
    ByteReaches(d, ':', c.(state := ChunkTrailerValue));
    ReachesAppend(c, name, d, ":", c.(state := ChunkTrailerValue));
  }

  lemma {:induction false} ReadTrailers(c: Conf, ts: seq<Trailer>)
    requires AtTrailer(c) && forall t :: t in ts ==> IsTrailer(t)
    ensures Reaches(c, PrintTrailers(ts), c)
    decreases ts
  {
    hide Parse, IsTrailer, PrintTrailer;
    if ts == [] {
      ReachesNothing(c);
    } else {
      ReadTrailer(c, ts[0]);
      ReadTrailers(c, ts[1..]);
      ReachesThen(c, PrintTrailer(ts[0]), c, PrintTrailers(ts[1..]));
    }
  }

  lemma ReadEnd(c: Conf, rest: string)
    requires c.state.ChunkSizeNewline2?
    ensures Parse(c, "\r\n" + rest) == Result(c.(state := ChunkSizeNewline3), ParsingCompleted, rest)
  {
    hide Parse, Consume;
    var d, t := c.(state := ChunkSizeNewline3), ['\n'] + rest;
    CrLf(rest);
    ByteThen(c, '\r', d, t);
    ByteCompletes(d, t);
    assert t[1..] == rest;
  }

  /** The parser decodes every encoding of a body, whatever the chunk sizes, their spelling, the
      extensions and the trailers: the content received is the concatenated chunk data, and bytes
      after the body are left unread. */
  lemma DecodesEveryEncoding(c: Conf, b: Body, rest: string)
    requires AtChunk(c) && IsBody(b)
    ensures Parse(c, PrintBody(b) + rest)
         == Result(WithContent(c, c.msg.content + Data(b.chunks)).(state := ChunkSizeNewline3), ParsingCompleted, rest)
  {
    hide Parse, Consume, IsChunk, IsTrailer, IsExtension, Strtol16, PrintChunks, PrintSizeLine, PrintTrailers;
    var p, q, t := PrintChunks(b.chunks), PrintSizeLine(b.lastSize, b.lastExt), PrintTrailers(b.trailers);
    var d := WithContent(c, c.msg.content + Data(b.chunks));
    var e := AfterSize(d, 0);
    BodyText(b, rest);
    ReadChunks(c, b.chunks);
    ReachesThen(c, p, d, q + (t + ("\r\n" + rest)));
    ReadSizeLine(d, b.lastSize, b.lastExt);
    ReachesThen(d, q, e, t + ("\r\n" + rest));
    ReadTrailers(e, b.trailers);
    ReachesThen(e, t, e, "\r\n" + rest);
    ReadEnd(e, rest);
  }

  // ---- and nothing else is accepted -------------------------------------------------------------

  predicate Completes(c: Conf, s: string)
    requires Valid(c)
  {
    Parse(c, s).outcome.ParsingCompleted?
  }

  /** What a completing run says about its next byte `ch`: it does not fail, and unless it ends
      the run, the rest `t` completes in the same way. */
  predicate Continues(c: Conf, s: string, ch: char, t: string)
    requires Valid(c) && InChunks(c.state)
  {
    var step := ChunkStep(c, ch);
    if step.outcome.ParsingIncomplete? then Parse(c, s) == Parse(step.conf, t)
    else Parse(c, s) == Result(step.conf, ParsingCompleted, t) && step.outcome.ParsingCompleted?
  }

  lemma InvertByte(c: Conf, s: string) returns (ch: char, t: string)
    requires Valid(c) && InChunks(c.state) && Completes(c, s)
    ensures s == [ch] + t && Continues(c, s, ch, t)
  {
    hide Consume, ChunkStep;
    ch, t := s[0], s[1..];
    ConsumeInChunks(c, ch);
    ParseCons(c, ch, t);
  }

  /** The longest prefix whose bytes all satisfy `p`. */
  function Span(p: char -> bool, s: string): (n: nat)
    ensures n <= |s| && (forall i :: 0 <= i < n ==> p(s[i])) && (n < |s| ==> !p(s[n]))
  {
    if s == "" || !p(s[0]) then 0 else 1 + Span(p, s[1..])
  }

  /** A completing run leaves a loop state: the bytes skipped there, then one that is not. */
  lemma InvertLoop(c: Conf, p: char -> bool, s: string) returns (text: string, ch: char, t: string)
    requires Valid(c) && InChunks(c.state) && Completes(c, s)
    requires forall x :: p(x) ==> ChunkStep(c, x) == Go(c)
    ensures s == text + ([ch] + t) && Continues(c, s, ch, t)
    ensures !p(ch) && forall i :: 0 <= i < |text| ==> p(text[i])
  {
    hide Parse, Consume, ChunkStep;
    var n := Span(p, s);
    text := s[..n];
    assert s == text + s[n..];
    Skip(c, text);
    ReachesThen(c, text, c, s[n..]);
    ch, t := InvertByte(c, s[n..]);
  }

  lemma InvertNewline(c: Conf, s: string) returns (t: string)
    requires c.state.ChunkSizeNewline? && Completes(c, s)
    ensures Parse(c, s) == Parse(AfterSize(c, Strtol16(c.chunkSizeStr)), t)
    ensures s == ['\n'] + t
  {
    hide Parse, Consume;
    var ch;
    ch, t := InvertByte(c, s);
  }

  /** The rest of a size line, up to its newline. */
  lemma InvertValue(c: Conf, s: string) returns (value: string, t: string)
    requires c.state.ChunkExtensionValue? && Completes(c, s)
    ensures Parse(c, s) == Parse(c.(state := ChunkSizeNewline), t)
    ensures AlnumsOrSpaces(value) && s == value + (['\r'] + t)
  {
    hide Parse, Consume;
    var ch;
    value, ch, t := InvertLoop(c, IsAlnumOrSpace, s);
  }

  lemma InvertName(c: Conf, s: string) returns (ext: Extension, t: string)
    requires c.state.ChunkExtensionName? && Completes(c, s)
    ensures Parse(c, s) == Parse(c.(state := ChunkSizeNewline), t)
    ensures IsExtension(ext) && [';'] + s == PrintExtension(ext) + (['\r'] + t)
  {
    hide Parse, Consume;
    var name, ch, u := InvertLoop(c, IsAlnumOrSpace, s);
    if ch == '\r' {
      ext, t := Name(name), u;
    } else {
      var value;
      value, t := InvertValue(c.(state := ChunkExtensionValue), u);
      ext := NameValue(name, value);
      NameValueText(name, value, ['\r'] + t);
    }
  }

  lemma InvertExtension(c: Conf, s: string) returns (ext: Extension, t: string)
    requires c.state.ChunkSize? && (s != "" ==> !IsAlnum(s[0])) && Completes(c, s)
    ensures Parse(c, s) == Parse(c.(state := ChunkSizeNewline), t)
    ensures IsExtension(ext) && s == PrintExtension(ext) + (['\r'] + t)
  {
    hide Parse, Consume;
    var ch, u := InvertByte(c, s);
    assert ch == s[0] && (ch == '\r' || ch == ';');
    if ch == '\r' {
      ext, t := None, u;
    } else {
      ext, t := InvertName(c.(state := ChunkExtensionName), u);
    }
  }

  lemma InvertSizeLine(c: Conf, s: string) returns (size: string, ext: Extension, t: string)
    requires AtChunk(c) && Completes(c, s)
    ensures Parse(c, s) == Parse(AfterSize(c, Strtol16(size)), t)
    ensures Alnums(size) && IsExtension(ext) && s == PrintSizeLine(size, ext) + t
  {
    hide Parse, Consume, ChunkStep, IsExtension, PrintExtension, Strtol16;
    var n := Span(IsAlnum, s);
    size := s[..n];
    assert s == size + s[n..];
    ReadSizeText(c, size);
    assert "" + size == size;
    var d := c.(chunkSizeStr := size);
    ReachesThen(c, size, d, s[n..]);
    var u;
    ext, u := InvertExtension(d, s[n..]);
    t := InvertNewline(d.(state := ChunkSizeNewline), u);
    SizeLineText(size, ext, t);
  }

  lemma {:induction false} ShortDataIncomplete(c: Conf, s: string)
    requires c.state.ChunkData? && |s| < c.chunkSize
    ensures Parse(c, s).outcome.ParsingIncomplete?
    decreases s
  {
    if s == "" {
      ReachesNothing(c);
    } else {
      hide Parse, Consume;
      ConsumeInChunks(c, s[0]);
      assert s == [s[0]] + s[1..];
      ParseCons(c, s[0], s[1..]);
      ShortDataIncomplete(ChunkStep(c, s[0]).conf, s[1..]);
    }
  }

  lemma InvertDataReturn(c: Conf, s: string) returns (t: string)
    requires c.state.ChunkDataNewline1? && Completes(c, s)
    ensures Parse(c, s) == Parse(c.(state := ChunkDataNewline2), t)
    ensures s == ['\r'] + t
  {
    hide Parse, Consume;
    var ch;
    ch, t := InvertByte(c, s);
  }

  lemma InvertDataNewline(c: Conf, s: string) returns (t: string)
    requires c.state.ChunkDataNewline2? && Completes(c, s)
    ensures Parse(c, s) == Parse(c.(state := ChunkSize), t)
    ensures s == ['\n'] + t
  {
    hide Parse, Consume;
    var ch;
    ch, t := InvertByte(c, s);
  }

  lemma InvertDataEnd(c: Conf, s: string) returns (t: string)
    requires c.state.ChunkDataNewline1? && Completes(c, s)
    ensures Parse(c, s) == Parse(c.(state := ChunkSize), t)
    ensures s == "\r\n" + t
  {
    hide Parse, Consume, ChunkStep;
    var u := InvertDataReturn(c, s);
    t := InvertDataNewline(c.(state := ChunkDataNewline2), u);
    CrLf(t);
  }

  lemma InvertData(c: Conf, s: string) returns (data: string, t: string)
    requires c.state.ChunkData? && c.chunkSize > 0 && Completes(c, s)
    ensures Parse(c, s) == Parse(WithContent(c, c.msg.content + data).(state := ChunkSize, chunkSize := 0), t)
    ensures |data| == c.chunkSize && s == data + ("\r\n" + t)
  {
    hide Parse, Consume, ChunkStep;
    if |s| < c.chunkSize { ShortDataIncomplete(c, s); }
    var n := c.chunkSize;
    data := s[..n];
    assert s == data + s[n..];
    ReadData(c, data);
    var d := WithContent(c, c.msg.content + data).(state := ChunkDataNewline1, chunkSize := 0);
    ReachesThen(c, data, d, s[n..]);
    t := InvertDataEnd(d, s[n..]);
  }

  lemma InvertTrailerValue(c: Conf, s: string) returns (value: string, t: string)
    requires c.state.ChunkTrailerValue? && c.chunkSizeStr == "" && c.chunkSize == 0 && Completes(c, s)
    ensures Parse(c, s) == Parse(c.(state := ChunkSizeNewline2), t)
    ensures AlnumsOrSpaces(value) && s == value + ("\r\n" + t)
  {
    hide Parse, Consume;
    var ch, u;
    value, ch, u := InvertLoop(c, IsAlnumOrSpace, s);
    t := InvertNewline(c.(state := ChunkSizeNewline), u);
    CrLf(t);
  }

  lemma InvertTrailerStart(c: Conf, s: string) returns (first: char, t: string)
    requires AtTrailer(c) && Completes(c, s) && s != "" && s[0] != '\r'
    ensures Parse(c, s) == Parse(c.(state := ChunkTrailerName), t)
    ensures IsAlpha(first) && s == [first] + t
  {
    hide Parse, Consume;
    first, t := InvertByte(c, s);
  }

  lemma InvertTrailerName(c: Conf, s: string) returns (more: string, t: string)
    requires c.state.ChunkTrailerName? && Completes(c, s)
    ensures Parse(c, s) == Parse(c.(state := ChunkTrailerValue), t)
    ensures Alnums(more) && s == more + ([':'] + t)
  {
    hide Parse, Consume;
    var ch;
    more, ch, t := InvertLoop(c, IsAlnum, s);
  }

  lemma InvertTrailer(c: Conf, s: string) returns (tr: Trailer, t: string)
    requires AtTrailer(c) && Completes(c, s) && s != "" && s[0] != '\r'
    ensures Parse(c, s) == Parse(c, t)
    ensures IsTrailer(tr) && s == PrintTrailer(tr) + t
  {
    hide Parse, Consume, ChunkStep;
    var first, u := InvertTrailerStart(c, s);
    var more, w := InvertTrailerName(c.(state := ChunkTrailerName), u);
    var value;
    value, t := InvertTrailerValue(c.(state := ChunkTrailerValue), w);
    tr := Trailer([first] + more, value);
    TrailerText(first, more, value, t);
  }

  lemma InvertEnd(c: Conf, s: string)
    requires AtTrailer(c) && Completes(c, s) && s != "" && s[0] == '\r'
    ensures s == "\r\n" + Parse(c, s).rest
  {
    hide Parse, Consume;
    var ch, u := InvertByte(c, s);
    var nl, t := InvertByte(c.(state := ChunkSizeNewline3), u);
    CrLf(t);
  }

  lemma {:induction false} InvertTrailers(c: Conf, s: string) returns (ts: seq<Trailer>)
    requires AtTrailer(c) && Completes(c, s)
    ensures forall t :: t in ts ==> IsTrailer(t)
    ensures s == PrintTrailers(ts) + ("\r\n" + Parse(c, s).rest)
    decreases |s|
  {
    hide Parse, Consume, ChunkStep, IsTrailer, PrintTrailer;
    var ch, t := InvertByte(c, s);
    if ch == '\r' {
      ts := [];
      InvertEnd(c, s);
    } else {
      var tr, u := InvertTrailer(c, s);
      TrailerNonempty(tr);
      var rest := InvertTrailers(c, u);
      ts := [tr] + rest;
      FirstTrailerText(tr, rest, "\r\n" + Parse(c, s).rest);
    }
  }

  lemma TrailerNonempty(t: Trailer)
    ensures |PrintTrailer(t)| > 0
  {
  }

  lemma ChunkNonempty(k: Chunk)
    ensures |PrintChunk(k)| > 0
  {
  }

  /** One chunk off the front of a completing run. */
  lemma InvertChunk(c: Conf, size: string, ext: Extension, s: string, t: string) returns (k: Chunk, u: string)
    requires AtChunk(c) && Alnums(size) && IsExtension(ext) && Strtol16(size) > 0
    requires Completes(c, s) && Parse(c, s) == Parse(AfterSize(c, Strtol16(size)), t)
    requires s == PrintSizeLine(size, ext) + t
    ensures Parse(c, s) == Parse(WithContent(c, c.msg.content + k.data), u)
    ensures IsChunk(k) && s == PrintChunk(k) + u
  {
    hide Parse, Consume, IsExtension, PrintSizeLine, Strtol16;
    var data;
    data, u := InvertData(AfterSize(c, Strtol16(size)), t);
    k := Chunk(size, ext, data);
    ChunkText(k, u);
  }

  /** The last chunk and everything after it. */
  lemma InvertLastChunk(c: Conf, size: string, ext: Extension, s: string, t: string) returns (b: Body)
    requires AtChunk(c) && Alnums(size) && IsExtension(ext) && Strtol16(size) == 0
    requires Completes(c, s) && Parse(c, s) == Parse(AfterSize(c, 0), t)
    requires s == PrintSizeLine(size, ext) + t
    ensures IsBody(b) && b.chunks == [] && s == PrintBody(b) + Parse(c, s).rest
    ensures Parse(c, s).conf.msg == c.msg.(content := c.msg.content + Data(b.chunks))
  {
    hide Parse, Consume, IsExtension, IsTrailer, PrintSizeLine, PrintTrailers, Strtol16;
    var rest := Parse(c, s).rest;
    var ts := InvertTrailers(AfterSize(c, 0), t);
    b := Body([], size, ext, ts);
    BodyText(b, rest);
    assert PrintChunks([]) + (PrintSizeLine(size, ext) + t) == PrintSizeLine(size, ext) + t;
    DecodesEveryEncoding(c, b, rest);
  }

  /** Whatever the parser accepts in chunked mode is the encoding of a body with that content. */
  lemma {:induction false} AcceptsOnlyEncodings(c: Conf, s: string) returns (b: Body)
    requires AtChunk(c) && Completes(c, s)
    ensures IsBody(b) && s == PrintBody(b) + Parse(c, s).rest
    ensures Parse(c, s).conf.msg == c.msg.(content := c.msg.content + Data(b.chunks))
    decreases |s|
  {
    hide Parse, Consume, IsExtension, IsChunk, IsTrailer, PrintSizeLine, PrintChunk, PrintBody, Strtol16, Data;
    var size, ext, t := InvertSizeLine(c, s);
    if Strtol16(size) == 0 {
      b := InvertLastChunk(c, size, ext, s, t);
    } else {
      var k, u := InvertChunk(c, size, ext, s, t);
      ChunkNonempty(k);
      var b' := AcceptsOnlyEncodings(WithContent(c, c.msg.content + k.data), u);
      b := b'.(chunks := [k] + b'.chunks);
      FirstChunkText(k, b');
      TextAssociates(PrintChunk(k), PrintBody(b'), Parse(c, s).rest);
      TextAssociates(c.msg.content, k.data, Data(b'.chunks));
      FirstChunkData(k, b'.chunks);
    }
  }

  /** How a body is cut into chunks does not show in what is received. */
  lemma ChunkingInvisible(c: Conf, b1: Body, b2: Body)
    requires AtChunk(c) && IsBody(b1) && IsBody(b2) && Data(b1.chunks) == Data(b2.chunks)
    ensures Parse(c, PrintBody(b1)) == Parse(c, PrintBody(b2))
  {
    hide *;
    DecodesEveryEncoding(c, b1, "");
    DecodesEveryEncoding(c, b2, "");
    assert PrintBody(b1) + "" == PrintBody(b1) && PrintBody(b2) + "" == PrintBody(b2);
  }

  /** The plain encoding: hexadecimal sizes, no extensions, no trailers. */
  function PlainChunks(pieces: seq<string>): seq<Chunk> {
    if pieces == [] then [] else [Chunk(HexText(|pieces[0]|), None, pieces[0])] + PlainChunks(pieces[1..])
  }

  lemma {:induction false} PlainChunksMeaning(pieces: seq<string>)
    requires forall i :: 0 <= i < |pieces| ==> pieces[i] != ""
    ensures forall k :: k in PlainChunks(pieces) ==> IsChunk(k)
    ensures Data(PlainChunks(pieces)) == Joined(pieces)
  {
    if pieces != [] {
      HexRoundTrip(|pieces[0]|);
      PlainChunksMeaning(pieces[1..]);
      var rest := PlainChunks(pieces[1..]);
      assert PlainChunks(pieces)[1..] == rest;
    }
  }

  /** Any list of non-empty pieces has an encoding, and it decodes to their concatenation. */
  lemma EveryBodyHasAnEncoding(c: Conf, pieces: seq<string>)
    requires AtChunk(c) && forall i :: 0 <= i < |pieces| ==> pieces[i] != ""
    ensures var r := Parse(c, PrintBody(Body(PlainChunks(pieces), "0", None, [])));
            r.outcome.ParsingCompleted? && r.rest == "" && r.conf.msg.content == c.msg.content + Joined(pieces)
  {
    hide Parse, IsChunk, PrintBody, PlainChunks;
    var b := Body(PlainChunks(pieces), "0", None, []);
    PlainChunksMeaning(pieces);
    Strtol16Meaning("0", "");
    assert "0" + "" == "0" && "0"[..0] == "";
    assert PrintBody(b) + "" == PrintBody(b);
    DecodesEveryEncoding(c, b, "");
  }

  lemma {:induction false} DataShorter(ks: seq<Chunk>)
    ensures |Data(ks)| <= |PrintChunks(ks)|
  {
    if ks != [] {
      DataShorter(ks[1..]);
    }
  }

  /** An encoding is longer than what it encodes. */
  lemma EncodingIsLonger(b: Body)
    ensures |Data(b.chunks)| < |PrintBody(b)|
  {
    DataShorter(b.chunks);
  }

  // ---- conservation --------------------------------------------------------------------------------

  /** The chunk sizes declared by the size lines that end within `s`. */
  function DeclaredSizes(c: Conf, s: string): nat
    requires Valid(c)
    decreases s
  {
    if s == "" then 0
    else
      var step := Consume(c, s[0]);
      (if c.state.ChunkSizeNewline? && s[0] == '\n' then Strtol16(c.chunkSizeStr) else 0)
      + if step.outcome.ParsingIncomplete? then DeclaredSizes(step.conf, s[1..]) else 0
  }

  /** Data is outstanding only while it is being read. */
  predicate IsBalanced(c: Conf) {
    InChunks(c.state) && (c.state.ChunkData? <==> c.chunkSize > 0)
  }

  /** Content received, and still to come in the current chunk. */
  function Received(c: Conf): nat {
    |c.msg.content| + c.chunkSize
  }

  lemma ChunkStepBalances(c: Conf, ch: char)
    requires Valid(c) && IsBalanced(c)
    ensures IsBalanced(ChunkStep(c, ch).conf)
    ensures Received(ChunkStep(c, ch).conf)
         == Received(c) + if c.state.ChunkSizeNewline? && ch == '\n' then Strtol16(c.chunkSizeStr) else 0
  {
    hide Strtol16;
  }

  /** From any state of chunked mode on: what has been received and what is outstanding of the
      current chunk grow by the sizes declared. */
  lemma {:induction false} SizesAreReceived(c: Conf, s: string)
    requires Valid(c) && IsBalanced(c)
    ensures IsBalanced(Parse(c, s).conf)
    ensures Received(Parse(c, s).conf) == Received(c) + DeclaredSizes(c, s)
    decreases s
  {
    if s == "" {
      ReachesNothing(c);
    } else {
      hide Consume, ChunkStep, Strtol16;
      ConsumeInChunks(c, s[0]);
      ChunkStepBalances(c, s[0]);
      var step := ChunkStep(c, s[0]);
      if step.outcome.ParsingIncomplete? {
        SizesAreReceived(step.conf, s[1..]);
      }
    }
  }

  // ---- messages in chunked mode, from a fresh parser ---------------------------------------------------

  predicate IsStart(c: Conf) {
    c == RequestStart() || c == ResponseStart()
  }

  /** Before the body nothing of a chunk has been read, and there is no content. */
  predicate IsUntouched(c: Conf) {
    && !InChunks(c.state) && c.chunkSizeStr == "" && c.chunkSize == 0
    && (!c.state.Post? ==> c.msg.content == "")
    && (c.state.Post? || InRequestLine(c.state) || InVersion(c.state) || InStatusLine(c.state) ==> !c.chunked)
  }

  /** At the beginning of the first chunk. */
  predicate IsFirstChunk(c: Conf) {
    AtChunk(c) && c.msg.content == "" && c.chunked
  }

  lemma UntouchedLineStep(c: Conf, ch: char)
    requires Valid(c) && IsUntouched(c) && (InRequestLine(c.state) || InVersion(c.state) || InStatusLine(c.state))
    ensures var step := Consume(c, ch); IsUntouched(step.conf) && (step.outcome.ParsingCompleted? ==> !step.conf.chunked)
  {
    hide IsTokenChar, IsControl, IsDigit, IsChar, DigitValue;
  }

  lemma UntouchedHeaderStep(c: Conf, ch: char)
    requires Valid(c) && IsUntouched(c) && InHeaders(c.state)
    ensures var step := Consume(c, ch); IsUntouched(step.conf) && !step.outcome.ParsingCompleted?
  {
    hide IsTokenChar, IsControl, RequestLineStep, VersionStep, StatusLineStep, ChunkStep, Atoi, EqualsNoCase;
  }

  /** The only way into chunked mode is the end of the headers. */
  lemma UntouchedStep(c: Conf, ch: char)
    requires Valid(c) && IsUntouched(c)
    ensures var step := Consume(c, ch);
            && (IsUntouched(step.conf) || (IsFirstChunk(step.conf) && step.outcome.ParsingIncomplete?))
            && (step.outcome.ParsingCompleted? ==> !step.conf.chunked)
  {
    if InRequestLine(c.state) || InVersion(c.state) || InStatusLine(c.state) {
      UntouchedLineStep(c, ch);
    } else if InHeaders(c.state) {
      UntouchedHeaderStep(c, ch);
    } else {
      hide RequestLineStep, VersionStep, StatusLineStep, HeaderStep, ChunkStep, KeepAliveAfter;
    }
  }

  /** How many bytes are read before the first chunk. */
  function HeadLength(c: Conf, s: string): (n: nat)
    requires Valid(c)
    ensures n <= |s|
    decreases s
  {
    if s == "" || InChunks(c.state) then 0
    else
      var step := Consume(c, s[0]);
      if step.outcome.ParsingIncomplete? then 1 + HeadLength(step.conf, s[1..]) else 1
  }

  /** Whatever is parsed, chunked mode is entered at the beginning of a chunk, with nothing left over
      from before, and a message completes in chunked mode only there. */
  lemma {:induction false} EntersAtChunk(c: Conf, s: string)
    requires Valid(c) && IsUntouched(c)
    ensures var r, n := Parse(c, s), HeadLength(c, s);
            var head := Parse(c, s[..n]);
            && (InChunks(r.conf.state) ==>
                  head.outcome.ParsingIncomplete? && IsFirstChunk(head.conf) && r == Parse(head.conf, s[n..])
                  && DeclaredSizes(c, s) == DeclaredSizes(head.conf, s[n..]))
            && (r.outcome.ParsingCompleted? && r.conf.chunked ==> InChunks(r.conf.state))
    decreases s
  {
    if s == "" {
      ReachesNothing(c);
    } else {
      hide Parse, Consume, HeadLength, DeclaredSizes, IsUntouched, IsFirstChunk;
      UntouchedStep(c, s[0]);
      var step, t := Consume(c, s[0]), s[1..];
      assert s == [s[0]] + t;
      ParseCons(c, s[0], t);
      NotInChunks(c);
      if step.outcome.ParsingIncomplete? {
        HeadCons(c, s);
        ParseCons(c, s[0], t[..HeadLength(step.conf, t)]);
        if IsUntouched(step.conf) {
          EntersAtChunk(step.conf, t);
        } else {
          SizesAreReceivedFrom(step.conf, t);
        }
      } else {
        NotInChunks(step.conf);
      }
    }
  }

  lemma NotInChunks(c: Conf)
    requires IsUntouched(c)
    ensures !InChunks(c.state)
  {
  }

  lemma SizesAreReceivedFrom(c: Conf, s: string)
    requires IsFirstChunk(c)
    ensures InChunks(Parse(c, s).conf.state)
    ensures HeadLength(c, s) == 0 && Reaches(c, s[..0], c) && s[0..] == s
  {
    SizesAreReceived(c, s);
    ReachesNothing(c);
  }

  lemma HeadCons(c: Conf, s: string)
    requires Valid(c) && !InChunks(c.state) && s != "" && Consume(c, s[0]).outcome.ParsingIncomplete?
    ensures var d, t := Consume(c, s[0]).conf, s[1..];
            var n := HeadLength(d, t);
            && HeadLength(c, s) == 1 + n && s[..1 + n] == [s[0]] + t[..n] && s[1 + n..] == t[n..]
            && DeclaredSizes(c, s) == DeclaredSizes(d, t)
  {
    hide Consume, Strtol16;
    CutAfterFirst(s, HeadLength(Consume(c, s[0]).conf, s[1..]));
  }

  lemma CutAfterFirst(s: string, n: nat)
    requires n < |s|
    ensures s[..1 + n] == [s[0]] + s[1..][..n] && s[1 + n..] == s[1..][n..]
  {
  }

  lemma StartsUntouched(start: Conf)
    requires IsStart(start)
    ensures Valid(start) && IsUntouched(start)
  {
  }

  /** In every state of chunked mode that any byte string leads to, content received and what is
      outstanding of the current chunk add up to the sizes declared so far. */
  lemma ChunksConserved(start: Conf, s: string)
    requires IsStart(start) && InChunks(Parse(start, s).conf.state)
    ensures var c := Parse(start, s).conf; |c.msg.content| + c.chunkSize == DeclaredSizes(start, s)
  {
    hide Parse, DeclaredSizes;
    StartsUntouched(start);
    EntersAtChunk(start, s);
    var n := HeadLength(start, s);
    SizesAreReceived(Parse(start, s[..n]).conf, s[n..]);
  }

  /** `h` is everything before the first chunk of a message. */
  predicate IsHead(start: Conf, h: string)
    requires IsStart(start)
  {
    Parse(start, h).outcome.ParsingIncomplete? && IsFirstChunk(Parse(start, h).conf)
  }

  /** `s` is a head, the encoding of `b`, and `rest`. */
  predicate IsChunkedMessage(start: Conf, s: string, h: string, b: Body, rest: string)
    requires IsStart(start)
  {
    IsHead(start, h) && IsBody(b) && s == h + (PrintBody(b) + rest)
  }

  lemma ReadsChunkedMessage(start: Conf, s: string, h: string, b: Body, rest: string)
    requires IsStart(start) && IsChunkedMessage(start, s, h, b, rest)
    ensures Parse(start, s)
         == Result(WithContent(Parse(start, h).conf, Data(b.chunks)).(state := ChunkSizeNewline3), ParsingCompleted, rest)
  {
    hide Parse, PrintBody, IsBody;
    var c := Parse(start, h).conf;
    ParseSplit(start, h, PrintBody(b) + rest);
    DecodesEveryEncoding(c, b, rest);
    assert "" + Data(b.chunks) == Data(b.chunks);
  }

  /** A byte string completes in chunked mode if and only if it is a head, the encoding of a body, and
      anything; and then the content is the data of that body and the bytes after it are unread. */
  lemma ChunkedMessages(start: Conf, s: string)
    requires IsStart(start)
    ensures var r := Parse(start, s);
            r.outcome.ParsingCompleted? && r.conf.chunked <==> exists h, b, rest :: IsChunkedMessage(start, s, h, b, rest)
    ensures forall h, b, rest :: IsChunkedMessage(start, s, h, b, rest) ==>
              Parse(start, s).conf.msg.content == Data(b.chunks) && Parse(start, s).rest == rest
  {
    hide Parse, IsChunkedMessage, Data;
    forall h, b, rest | IsChunkedMessage(start, s, h, b, rest)
      ensures Parse(start, s) == Result(WithContent(Parse(start, h).conf, Data(b.chunks)).(state := ChunkSizeNewline3),
                                        ParsingCompleted, rest)
              && Parse(start, h).conf.chunked
    {
      ReadsChunkedMessage(start, s, h, b, rest);
      HeadIsChunked(start, s, h, b, rest);
    }
    var r := Parse(start, s);
    if r.outcome.ParsingCompleted? && r.conf.chunked {
      var h, b := SplitsChunkedMessage(start, s);
      assert IsChunkedMessage(start, s, h, b, r.rest);
    }
  }

  lemma HeadIsChunked(start: Conf, s: string, h: string, b: Body, rest: string)
    requires IsStart(start) && IsChunkedMessage(start, s, h, b, rest)
    ensures Parse(start, h).conf.chunked
  {
    hide Parse, IsBody;
  }

  lemma SplitsChunkedMessage(start: Conf, s: string) returns (h: string, b: Body)
    requires IsStart(start) && Parse(start, s).outcome.ParsingCompleted? && Parse(start, s).conf.chunked
    ensures IsChunkedMessage(start, s, h, b, Parse(start, s).rest)
  {
    hide Parse, DeclaredSizes, IsBody, PrintBody, HeadLength, IsUntouched, Data;
    StartsUntouched(start);
    EntersAtChunk(start, s);
    var n := HeadLength(start, s);
    h := s[..n];
    assert s == h + s[n..];
    b := AcceptsOnlyEncodings(Parse(start, h).conf, s[n..]);
  }
}
