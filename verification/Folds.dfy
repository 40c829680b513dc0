/** Folded header lines: what the parser makes of continuations, which its printer never writes. */
module Folds {
  import opened Bytes
  import opened Messages
  import opened Parser
  import opened Reading
  import Chunks
  import Reprint
  import Traps

  // ---- one folded line ----------------------------------------------------------------------------

  /** A continuation of a header value: white space, then text, possibly none. */
  datatype Fold = Fold(space: string, text: string)

  predicate IsFold(f: Fold) {
    && f.space != "" && (forall i :: 0 <= i < |f.space| ==> f.space[i] == ' ' || f.space[i] == '\t')
    && NoControls(f.text) && (f.text != "" ==> f.text[0] != ' ')
  }

  function PrintFold(f: Fold): string {
    f.space + f.text + "\r\n"
  }

  /** At the start of a line after the header `h`, which already counted into the framing. */
  function AfterLine(c: Conf, hs: seq<Header>, h: Header, f: Framing): Conf
    requires f.Framing?
  {
    AfterHeaders(c, hs + [h], f)
  }

  lemma {:induction false} SkipFoldSpace(c: Conf, s: string)
    requires c.state.HeaderLws? && c.msg.headers != []
    requires forall i :: 0 <= i < |s| ==> s[i] == ' ' || s[i] == '\t'
    ensures Reaches(c, s, c)
    decreases s
  {
    hide Parse;
    if s == "" {
      ReachesNothing(c);
    } else {
      assert s == [s[0]] + s[1..];
      SkipFoldSpace(c, s[1..]);
      ReachesCons(c, s[0], c, s[1..]);
    }
  }

  lemma ReadFoldStart(c: Conf, hs: seq<Header>, h: Header, fold: Fold)
    requires c.state.HeaderLineStart? && IsFold(fold)
    ensures Reaches(c.(msg := c.msg.(headers := hs + [h])), fold.space, At(c, HeaderLws, hs, h))
  {
    hide Parse;
    var space := fold.space;
    assert space == [space[0]] + space[1..];
    ReachesCons(c.(msg := c.msg.(headers := hs + [h])), space[0], At(c, HeaderLws, hs, h), space[1..]);
    SkipFoldSpace(At(c, HeaderLws, hs, h), space[1..]);
  }

  lemma FoldByte(c: Conf, hs: seq<Header>, h: Header, ch: char)
    requires !IsControl(ch) && ch != ' '
    ensures Valid(At(c, HeaderLws, hs, h))
    ensures Consume(At(c, HeaderLws, hs, h), ch) == Go(At(c, HeaderValue, hs, h.(value := h.value + [ch])))
  {
    PushAt(c, HeaderLws, hs, h, ch);
  }

  lemma ReadFoldText(c: Conf, hs: seq<Header>, h: Header, text: string)
    requires NoControls(text) && text != "" && text[0] != ' '
    ensures Reaches(At(c, HeaderLws, hs, h), text, At(c, HeaderValue, hs, h.(value := h.value + text)))
  {
    hide Parse, Consume, At;
    var g := h.(value := h.value + [text[0]]);
    assert text == [text[0]] + text[1..];
    FoldByte(c, hs, h, text[0]);
    ReachesCons(At(c, HeaderLws, hs, h), text[0], At(c, HeaderValue, hs, g), text[1..]);
    ReadValue(c, hs, g, text[1..]);
    assert h.value + [text[0]] + text[1..] == h.value + text;
  }

  /** The end of a folded line of white space only: nothing counts. */
  lemma EndBlankFold(c: Conf, hs: seq<Header>, h: Header, f: Framing)
    requires c.state.HeaderLineStart? && f == Framing(c.contentSize, c.chunked)
    ensures Reaches(At(c, HeaderLws, hs, h), "\r\n", AfterLine(c, hs, h, f))
  {
    hide Parse;
    EndLine(At(c, HeaderLws, hs, h), AfterLine(c, hs, h, f));
  }

  /** A folded line is glued to the value without a space, and the framing headers count again,
      with the longer value: a length read so far is replaced, or made bad. A line of white space
      only changes nothing. */
  lemma ReadFold(c: Conf, hs: seq<Header>, h: Header, f: Framing, fold: Fold)
    requires c.state.HeaderLineStart? && f == Framing(c.contentSize, c.chunked) && IsFold(fold)
    ensures var h' := h.(value := h.value + fold.text);
            var g := if IsFramed(c.msg) && fold.text != "" then AddFraming(f, h') else f;
            if g.BadLength? then Parse(AfterLine(c, hs, h, f), PrintFold(fold)).outcome.ParsingError?
            else Reaches(AfterLine(c, hs, h, f), PrintFold(fold), AfterLine(c, hs, h', g))
  {
    hide Parse, Consume, IsFold, IsFramed, AddFraming, At;
    var h', start := h.(value := h.value + fold.text), AfterLine(c, hs, h, f);
    var g := if IsFramed(c.msg) && fold.text != "" then AddFraming(f, h') else f;
    assert start == c.(msg := c.msg.(headers := hs + [h]));
    ReadFoldStart(c, hs, h, fold);
    var space, text := At(c, HeaderLws, hs, h), At(c, HeaderValue, hs, h');
    FoldParts(fold);
    if fold.text == "" {
      assert h' == h by { assert h.value + "" == h.value; }
      EndBlankFold(c, hs, h, f);
      ReachesAppend(start, fold.space, space, "\r\n", AfterLine(c, hs, h', g));
    } else {
      ReadFoldText(c, hs, h, fold.text);
      ReachesAppend(start, fold.space, space, fold.text, text);
      EndHeader(c, hs, h', f);
      ReachesThen(start, fold.space + fold.text, text, "\r\n");
    }
  }

  lemma FoldParts(fold: Fold)
    requires IsFold(fold)
    ensures NoControls(fold.text) && (fold.text != "" ==> fold.text[0] != ' ')
    ensures fold.text == "" ==> PrintFold(fold) == fold.space + "\r\n"
  {
  }

  // ---- heads with folded lines --------------------------------------------------------------------

  /** A header line and its continuations. */
  datatype Line = Line(header: Header, folds: seq<Fold>)

  predicate IsLine(l: Line) {
    IsHeader(l.header) && forall i :: 0 <= i < |l.folds| ==> IsFold(l.folds[i])
  }

  predicate AreLines(ls: seq<Line>) {
    forall i :: 0 <= i < |ls| ==> IsLine(ls[i])
  }

  function Shorter(l: Line): Line
    requires l.folds != []
  {
    l.(folds := l.folds[..|l.folds| - 1])
  }

  function LastFold(l: Line): Fold
    requires l.folds != []
  {
    l.folds[|l.folds| - 1]
  }

  function PrintLine(l: Line): string
    decreases |l.folds|
  {
    if l.folds == [] then PrintHeader(l.header) else PrintLine(Shorter(l)) + PrintFold(LastFold(l))
  }

  function PrintLines(ls: seq<Line>): string {
    if ls == [] then "" else PrintLines(ls[..|ls| - 1]) + PrintLine(ls[|ls| - 1])
  }

  /** The header that the record gets. */
  function Glued(l: Line): (h: Header)
    ensures h.name == l.header.name
    decreases |l.folds|
  {
    if l.folds == [] then l.header
    else
      var h := Glued(Shorter(l));
      h.(value := h.value + LastFold(l).text)
  }

  function GluedHeaders(ls: seq<Line>): (hs: seq<Header>)
    ensures |hs| == |ls| && forall i :: 0 <= i < |ls| ==> hs[i] == Glued(ls[i])
  {
    if ls == [] then [] else GluedHeaders(ls[..|ls| - 1]) + [Glued(ls[|ls| - 1])]
  }

  /** A line counts once, and again after each continuation with text in it. */
  function CountLine(f: Framing, l: Line): Framing
    decreases |l.folds|
  {
    if l.folds == [] then AddFraming(f, l.header)
    else
      var g := CountLine(f, Shorter(l));
      if LastFold(l).text == "" then g else AddFraming(g, Glued(l))
  }

  function CountLines(ls: seq<Line>): Framing {
    if ls == [] then Framing(0, false) else CountLine(CountLines(ls[..|ls| - 1]), ls[|ls| - 1])
  }

  function Counted(framed: bool, ls: seq<Line>): Framing {
    if framed then CountLines(ls) else Framing(0, false)
  }

  lemma BadCountStays(f: Framing, l: Line)
    requires f.BadLength?
    ensures CountLine(f, l).BadLength?
    decreases |l.folds|
  {
  }

  lemma ShorterIsLine(l: Line)
    requires IsLine(l) && l.folds != []
    ensures IsLine(Shorter(l)) && IsFold(LastFold(l))
  {
  }

  lemma {:induction false} GluedIsHeader(l: Line)
    requires IsLine(l)
    ensures IsHeader(Glued(l))
    decreases |l.folds|
  {
    hide IsToken, NoControls, IsFold;
    if l.folds != [] {
      ShorterIsLine(l);
      GluedIsHeader(Shorter(l));
      FoldParts(LastFold(l));
      NoControlsAppend(Glued(Shorter(l)).value, LastFold(l).text);
    }
  }

  lemma NoControlsAppend(a: string, b: string)
    requires NoControls(a) && NoControls(b)
    ensures NoControls(a + b)
  {
  }

  /** One line with its continuations, or a negative length on the way stops it. */
  lemma {:induction false} ReadLine(c: Conf, f: Framing, l: Line)
    requires c.state.HeaderLineStart? && IsLine(l) && f == Framing(c.contentSize, c.chunked)
    ensures var g := if IsFramed(c.msg) then CountLine(f, l) else f;
            if g.BadLength? then Parse(c, PrintLine(l)).outcome.ParsingError?
            else Reaches(c, PrintLine(l), AfterLine(c, c.msg.headers, Glued(l), g))
    decreases |l.folds|
  {
    hide Parse, Consume, AddFraming, IsFramed, PrintHeader, PrintFold, IsFold, IsHeader;
    if l.folds == [] {
      ReadHeader(c, f, l.header);
    } else {
      var k, fold, hs := Shorter(l), LastFold(l), c.msg.headers;
      var g := if IsFramed(c.msg) then CountLine(f, k) else f;
      ShorterIsLine(l);
      ReadLine(c, f, k);
      if g.BadLength? {
        ParseSplit(c, PrintLine(k), PrintFold(fold));
        BadLengthStays(g, Glued(l));
      } else {
        var d := AfterHeaders(c, hs, g);
        assert IsFramed(d.msg) == IsFramed(c.msg) by { SameFramed(d.msg, c.msg); }
        ReadFold(d, hs, Glued(k), g, fold);
        ReachesThen(c, PrintLine(k), AfterLine(c, hs, Glued(k), g), PrintFold(fold));
      }
    }
  }

  lemma SameFramed(m: Message, n: Message)
    requires m.start == n.start
    ensures IsFramed(m) == IsFramed(n)
  {
  }

  lemma {:induction false} ReadLines(c: Conf, ls: seq<Line>)
    requires c.state.HeaderLineStart? && c.msg.headers == [] && c.contentSize == 0 && !c.chunked && AreLines(ls)
    ensures var f := Counted(IsFramed(c.msg), ls);
            if f.BadLength? then Parse(c, PrintLines(ls)).outcome.ParsingError?
            else Reaches(c, PrintLines(ls), AfterHeaders(c, GluedHeaders(ls), f))
  {
    hide Parse, CountLine, PrintLine, IsFramed;
    if ls == [] {
      ReachesNothing(c);
    } else {
      var n := |ls| - 1;
      var init, l, f := ls[..n], ls[n], Counted(IsFramed(c.msg), ls[..n]);
      ReadLines(c, init);
      if f.BadLength? {
        ParseSplit(c, PrintLines(init), PrintLine(l));
        BadCountStays(f, l);
      } else {
        var d := AfterHeaders(c, GluedHeaders(init), f);
        assert IsFramed(d.msg) == IsFramed(c.msg) by { SameFramed(d.msg, c.msg); }
        ReadLine(d, f, l);
        ReachesThen(c, PrintLines(init), d, PrintLine(l));
      }
    }
  }

  /** Everything before the final newline of a header section with folded lines, the numbers of its
      start line written as `d` says. */
  function PrintFoldedHead(m: Message, d: Numbers, ls: seq<Line>): string {
    StartLineText(m, d) + "\r\n" + PrintLines(ls) + "\r"
  }

  /** Any head, its numbers written in any way and its lines folded anywhere, is read to the end of its
      headers: the record gets the glued headers,
      and the framing is what the lines counted on the way. A negative length on the way is refused,
      whatever the header becomes. */
  lemma ReadFoldedHead(m: Message, d: Numbers, ls: seq<Line>)
    requires IsStartLine(m) && Write(d, m) && AreLines(ls) && m.headers == GluedHeaders(ls)
    ensures var f := Counted(IsFramed(m), ls);
            if f.BadLength? then Parse(Fresh(m), PrintFoldedHead(m, d, ls)).outcome.ParsingError?
            else Reaches(Fresh(m), PrintFoldedHead(m, d, ls), AfterHead(m, f))
  {
    hide Parse, StartLineText, Write, PrintLines, CountLines, GluedHeaders, IsStartLine;
    var a, b, f := StartLineText(m, d) + "\r\n", PrintLines(ls), Counted(IsFramed(m), ls);
    var c := AfterStartLine(m, HeaderLineStart);
    ReadStartLineText(m, d);
    ReadLines(c, ls);
    ReachesThen(Fresh(m), a, c, b);
    if f.BadLength? {
      ParseSplit(Fresh(m), a + b, "\r");
    } else {
      var e := AfterHeaders(c, m.headers, f);
      assert Consume(e, '\r') == Go(AfterHead(m, f)) by { EndOfLines(e); }
      ReachesByte(e, '\r', AfterHead(m, f));
      ReachesAppend(Fresh(m), a + b, e, "\r", AfterHead(m, f));
    }
  }

  lemma EndOfLines(c: Conf)
    requires c.state.HeaderLineStart?
    ensures Consume(c, '\r') == Go(c.(state := ExpectingNewline3))
  {
  }

  // ---- what the lines count, against what the glued headers declare -------------------------------------

  /** The line says chunked as it stands, or said so before its last continuations. */
  predicate EverSaysChunked(l: Line)
    decreases |l.folds|
  {
    SaysChunked(Glued(l)) || (l.folds != [] && EverSaysChunked(Shorter(l)))
  }

  predicate SomeEverChunked(ls: seq<Line>) {
    exists i :: 0 <= i < |ls| && EverSaysChunked(ls[i])
  }

  lemma {:induction false} CountLineMeaning(f: Framing, l: Line)
    requires CountLine(f, l).Framing?
    ensures var g, h := CountLine(f, l), AddFraming(f, Glued(l));
            && f.Framing? && h.Framing? && h.size == g.size
            && (g.chunked <==> f.chunked || EverSaysChunked(l))
    decreases |l.folds|
  {
    hide EqualsNoCase, Atoi;
    if f.BadLength? {
      BadCountStays(f, l);
    } else if l.folds != [] {
      CountLineMeaning(f, Shorter(l));
      if LastFold(l).text == "" {
        assert Glued(l) == Glued(Shorter(l)) by { assert Glued(l).value == Glued(Shorter(l)).value + ""; }
      }
    }
  }

  /** The length counted is that of the glued headers; chunked is counted when any line ever said so,
      even if its header no longer does. */
  lemma {:induction false} CountLinesMeaning(ls: seq<Line>)
    requires CountLines(ls).Framing?
    ensures var g, h := CountLines(ls), HeaderFraming(GluedHeaders(ls));
            && h.Framing? && h.size == g.size
            && (g.chunked <==> SomeEverChunked(ls))
  {
    hide CountLine, EverSaysChunked, IsContentLength, SaysChunked;
    if ls != [] {
      var n := |ls| - 1;
      var init, l := ls[..n], ls[n];
      if CountLines(init).BadLength? {
        BadCountStays(CountLines(init), l);
      }
      CountLinesMeaning(init);
      CountLineMeaning(CountLines(init), l);
      assert GluedHeaders(ls)[..n] == GluedHeaders(init);
      SomeEver(ls);
    }
  }

  lemma SomeEver(ls: seq<Line>)
    requires ls != []
    ensures SomeEverChunked(ls) <==> EverSaysChunked(ls[|ls| - 1]) || SomeEverChunked(ls[..|ls| - 1])
  {
    hide EverSaysChunked;
    assert forall i :: 0 <= i < |ls| - 1 ==> ls[..|ls| - 1][i] == ls[i];
  }

  // ---- chunked messages with folded lines ----------------------------------------------------------

  lemma GluedIsPrintable(m: Message, ls: seq<Line>)
    requires IsStartLine(m) && AreLines(ls) && m.headers == GluedHeaders(ls)
    ensures IsPrintable(m)
  {
    hide IsStartLine, IsHeader, IsLine;
    forall i | 0 <= i < |ls| ensures IsHeader(m.headers[i]) {
      GluedIsHeader(ls[i]);
    }
  }

  predicate SomeSaysChunked(hs: seq<Header>) {
    exists h :: h in hs && SameButCase(h.name, "Transfer-Encoding") && SameButCase(h.value, "chunked")
  }

  lemma ReadFoldedChunked(m: Message, d: Numbers, ls: seq<Line>, b: Chunks.Body)
    requires IsStartLine(m) && Write(d, m) && AreLines(ls) && m.headers == GluedHeaders(ls) && m.content == "" && HasItsKeepAlive(m)
    requires Counted(IsFramed(m), ls).Framing? && Counted(IsFramed(m), ls).chunked && Chunks.IsBody(b)
    ensures var r := Parse(Fresh(m), PrintFoldedHead(m, d, ls) + (['\n'] + Chunks.PrintBody(b)));
            && r.outcome.ParsingCompleted? && r.rest == "" && r.conf.chunked
            && r.conf.msg == m.(content := Chunks.Data(b.chunks))
  {
    hide Parse, Consume, IsStartLine, Write, PrintFoldedHead, KeepAliveAfter, CountLines, GluedHeaders, IsLine, IsFramed,
      Chunks.IsBody, Chunks.PrintBody;
    var f := Counted(IsFramed(m), ls);
    var c := AfterHead(m, f);
    var e := Conf(ChunkSize, f.size, "", 0, true, m);
    var text, data := Chunks.PrintBody(b), Chunks.Data(b.chunks);
    ReadFoldedHead(m, d, ls);
    ReachesThen(Fresh(m), PrintFoldedHead(m, d, ls), c, ['\n'] + text);
    assert Consume(c, '\n') == Go(e) by { Traps.SameEndOfHeaders(c, '\n'); }
    ReachesCons(c, '\n', e, text);
    Chunks.DecodesEveryEncoding(e, b, "");
    assert text + "" == text && "" + data == data;
  }

  /** A message whose lines counted as chunked, folded anywhere, completes with the decoded content.
      Its record reads back if and only if none of its headers says chunked any more and the length
      they declare is that of the decoded content. */
  lemma FoldedChunkedReadsBack(m: Message, d: Numbers, ls: seq<Line>, b: Chunks.Body)
    requires IsStartLine(m) && Write(d, m) && AreLines(ls) && m.headers == GluedHeaders(ls) && m.content == "" && HasItsKeepAlive(m)
    requires Counted(IsFramed(m), ls).Framing? && Counted(IsFramed(m), ls).chunked && Chunks.IsBody(b)
    ensures var r := Parse(Fresh(m), PrintFoldedHead(m, d, ls) + (['\n'] + Chunks.PrintBody(b)));
            var data := Chunks.Data(b.chunks);
            && r.outcome.ParsingCompleted? && r.rest == "" && r.conf.chunked && r.conf.msg == m.(content := data)
            && Framed(m).Framing?
            && (Reprint.ReadsBack(r.conf.msg) <==> !SomeSaysChunked(m.headers) && Framed(m).size == |data|)
  {
    hide Parse, IsStartLine, Write, PrintFoldedHead, HeaderFraming, KeepAliveAfter, IsPrintable, Reprint.ReadsBack, CountLines,
      GluedHeaders, IsLine, IsFramed, Chunks.IsBody, Chunks.PrintBody;
    ReadFoldedChunked(m, d, ls, b);
    GluedIsPrintable(m, ls);
    assert IsPrintable(m.(content := Chunks.Data(b.chunks))) by { SamePrintable(m, Chunks.Data(b.chunks)); }
    Reprint.ReadsBackIff(m.(content := Chunks.Data(b.chunks)));
    SameFramed(m, m.(content := Chunks.Data(b.chunks)));
    CountLinesMeaning(ls);
    ChunkedMeaning(m.headers);
  }

  lemma SamePrintable(m: Message, content: string)
    requires IsPrintable(m)
    ensures IsPrintable(m.(content := content))
  {
  }

  // ---- and it can be made to read back -------------------------------------------------------------

  const CHUNKED: Header := Header("Transfer-Encoding", "chunked")

  /** A Content-Length of `n` and a Transfer-Encoding that says chunked before its continuation. */
  function LengthAndChunked(n: nat, fold: Fold): seq<Line> {
    [Line(Header("Content-Length", Decimal(n)), []), Line(CHUNKED, [fold])]
  }

  lemma {:induction false} CountTwo(l: Line, k: Line)
    ensures CountLines([l, k]) == CountLine(CountLine(Framing(0, false), l), k)
    ensures GluedHeaders([l, k]) == [Glued(l), Glued(k)]
  {
    assert [l, k][..1] == [l] && [l][..0] == [];
    assert CountLines([l]) == CountLine(CountLines([]), l);
    assert GluedHeaders([l]) == GluedHeaders([]) + [Glued(l)];
  }

  lemma FoldedAway(f: Framing, fold: Fold)
    requires f.Framing? && fold.text != ""
    ensures CountLine(f, Line(CHUNKED, [fold])) == f.(chunked := true)
    ensures Glued(Line(CHUNKED, [fold])) == CHUNKED.(value := "chunked" + fold.text)
    ensures !SaysChunked(CHUNKED.(value := "chunked" + fold.text))
  {
    var l := Line(CHUNKED, [fold]);
    assert Shorter(l) == Line(CHUNKED, []);
    assert CountLine(f, Shorter(l)) == AddFraming(f, CHUNKED) == f.(chunked := true);
  }

  lemma LinesAreLines(n: nat, fold: Fold)
    requires IsFold(fold)
    ensures AreLines(LengthAndChunked(n, fold))
  {
    PlainTextIsToken("Content-Length");
    PlainTextIsToken("Transfer-Encoding");
  }

  /** Any body can be received in chunked mode and still read back: a Content-Length of the decoded
      length beside a Transfer-Encoding that a continuation changes. */
  lemma ChunkedCanReadBack(m: Message, d: Numbers, fold: Fold, b: Chunks.Body)
    requires IsStartLine(m) && Write(d, m) && IsFramed(m) && m.content == "" && HasItsKeepAlive(m)
    requires IsFold(fold) && fold.text != "" && Chunks.IsBody(b)
    requires m.headers == GluedHeaders(LengthAndChunked(|Chunks.Data(b.chunks)|, fold))
    ensures var text := PrintFoldedHead(m, d, LengthAndChunked(|Chunks.Data(b.chunks)|, fold)) + (['\n'] + Chunks.PrintBody(b));
            var r := Parse(Fresh(m), text);
            && r.outcome.ParsingCompleted? && r.conf.chunked && r.conf.msg == m.(content := Chunks.Data(b.chunks))
            && Reprint.ReadsBack(r.conf.msg)
  {
    hide Parse, IsStartLine, Write, PrintFoldedHead, HeaderFraming, KeepAliveAfter, Reprint.ReadsBack, CountLines, CountLine,
      GluedHeaders, IsLine, IsFramed, IsFold, AddFraming, SaysChunked, Chunks.IsBody, Chunks.PrintBody, Decimal, Glued;
    var n := |Chunks.Data(b.chunks)|;
    var ls := LengthAndChunked(n, fold);
    LinesAreLines(n, fold);
    CountTwo(ls[0], ls[1]);
    PrintedLengthCounts(Framing(0, false), n);
    NothingFolded(Framing(0, false), ls[0].header);
    FoldedAway(Framing(n, false), fold);
    FoldedChunkedReadsBack(m, d, ls, b);
    CountLinesMeaning(ls);
  }

  lemma NothingFolded(f: Framing, h: Header)
    ensures CountLine(f, Line(h, [])) == AddFraming(f, h) && Glued(Line(h, [])) == h
  {
  }
}
