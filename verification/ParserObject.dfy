/** The parser and the record as objects: `consume` reads a buffer in a loop and changes their
    fields in place. Its postconditions say that it does what `Parser.Parse` says. */
module ParserObject {
  import opened Bytes
  import opened Messages
  import opened Parser

  /** `struct Request` or `struct Response`. */
  class Record {
    var start: StartLine
    var versionMajor: nat
    var versionMinor: nat
    var headers: seq<Header>
    var content: string
    var keepAlive: bool

    function Value(): Message
      reads this
    {
      Message(start, versionMajor, versionMinor, headers, content, keepAlive)
    }

    constructor (m: Message)
      ensures Value() == m
    {
      start, versionMajor, versionMinor := m.start, m.versionMajor, m.versionMinor;
      headers, content, keepAlive := m.headers, m.content, m.keepAlive;
    }

    /** The printer walks the headers and appends to a stream. */
    method Inspect() returns (data: string)
      ensures data == Print(Value())
    {
      data := PrintStartLine(Value()) + "\r\n";
      for i := 0 to |headers|
        invariant data == PrintStartLine(Value()) + "\r\n" + PrintHeaders(headers[..i])
      {
        assert headers[..i + 1][..i] == headers[..i];
        data := data + headers[i].name + ": " + headers[i].value + "\r\n";
      }
      assert headers[..|headers|] == headers;
      data := data + "\r\n";
      data := data + content;
    }
  }

  /** `HttpRequestParser` or `HttpResponseParser`. */
  class HttpParser {
    var state: State
    var contentSize: nat
    var chunkSizeStr: string
    var chunkSize: nat
    var chunked: bool

    function Snapshot(rec: Record): Conf
      reads this, rec
    {
      Conf(state, contentSize, chunkSizeStr, chunkSize, chunked, rec.Value())
    }

    constructor ForRequests()
      ensures forall rec: Record :: rec.Value() == EMPTY_REQUEST ==> Snapshot(rec) == RequestStart()
    {
      state, contentSize, chunkSizeStr, chunkSize, chunked := RequestMethodStart, 0, "", 0, false;
    }

    constructor ForResponses()
      ensures forall rec: Record :: rec.Value() == EMPTY_RESPONSE ==> Snapshot(rec) == ResponseStart()
    {
      state, contentSize, chunkSizeStr, chunkSize, chunked := VersionH, 0, "", 0, false;
    }

    method ExpectByte(input: char, expected: char, next: State) returns (outcome: Outcome)
      modifies this`state
      ensures state == if input == expected then next else old(state)
      ensures outcome == if input == expected then ParsingIncomplete else ParsingError
    {
      if input != expected { return ParsingError; }
      state := next;
      return ParsingIncomplete;
    }

    method ConsumeRequestLine(rec: Record, input: char) returns (outcome: Outcome)
      requires Valid(Snapshot(rec)) && InRequestLine(state)
      modifies this`state, rec
      ensures Step(Snapshot(rec), outcome) == RequestLineStep(old(Snapshot(rec)), input)
    {
      outcome := ParsingIncomplete;
      match state
      case RequestMethodStart =>
        if !IsTokenChar(input) { return ParsingError; }
        state := RequestMethod;
        rec.start := rec.start.(verb := rec.start.verb + [input]);
      case RequestMethod =>
        if input == ' ' {
          state := RequestUriStart;
        } else if !IsTokenChar(input) {
          return ParsingError;
        } else {
          rec.start := rec.start.(verb := rec.start.verb + [input]);
        }
      case RequestUriStart =>
        if IsControl(input) { return ParsingError; }
        state := RequestUri;
        rec.start := rec.start.(uri := rec.start.uri + [input]);
      case RequestUri =>
        if input == ' ' {
          state := VersionH;
        } else if input == '\r' {
          rec.versionMajor, rec.versionMinor := 0, 9;
          return ParsingCompleted;
        } else if IsControl(input) {
          return ParsingError;
        } else {
          rec.start := rec.start.(uri := rec.start.uri + [input]);
        }
    }

    method ConsumeVersion(rec: Record, input: char) returns (outcome: Outcome)
      requires Valid(Snapshot(rec)) && InVersion(state)
      modifies this`state, rec
      ensures Step(Snapshot(rec), outcome) == VersionStep(old(Snapshot(rec)), input)
    {
      outcome := ParsingIncomplete;
      match state
      case VersionH => outcome := ExpectByte(input, 'H', VersionHt);
      case VersionHt => outcome := ExpectByte(input, 'T', VersionHtt);
      case VersionHtt => outcome := ExpectByte(input, 'T', VersionHttp);
      case VersionHttp => outcome := ExpectByte(input, 'P', VersionSlash);
      case VersionSlash =>
        if input != '/' { return ParsingError; }
        rec.versionMajor, rec.versionMinor := 0, 0;
        state := VersionMajorStart;
      case VersionMajorStart =>
        if !IsDigit(input) { return ParsingError; }
        rec.versionMajor := DigitValue(input);
        state := VersionMajor;
      case VersionMajor =>
        if input == '.' {
          state := VersionMinorStart;
        } else if IsDigit(input) {
          rec.versionMajor := 10 * rec.versionMajor + DigitValue(input);
        } else {
          return ParsingError;
        }
      case VersionMinorStart =>
        if !IsDigit(input) { return ParsingError; }
        rec.versionMinor := DigitValue(input);
        state := VersionMinor;
      case VersionMinor =>
        if rec.start.RequestLine? && input == '\r' {
          state := StartLineNewline;
        } else if rec.start.StatusLine? && input == ' ' {
          state := StatusCodeStart;
          rec.start := rec.start.(code := 0);
        } else if IsDigit(input) {
          rec.versionMinor := 10 * rec.versionMinor + DigitValue(input);
        } else {
          return ParsingError;
        }
    }

    method ConsumeStatusLine(rec: Record, input: char) returns (outcome: Outcome)
      requires Valid(Snapshot(rec)) && InStatusLine(state)
      modifies this`state, rec
      ensures Step(Snapshot(rec), outcome) == StatusLineStep(old(Snapshot(rec)), input)
    {
      outcome := ParsingIncomplete;
      match state
      case StatusCodeStart =>
        if !IsDigit(input) { return ParsingError; }
        rec.start := rec.start.(code := DigitValue(input));
        state := StatusCode;
      case StatusCode =>
        if IsDigit(input) {
          rec.start := rec.start.(code := 10 * rec.start.code + DigitValue(input));
        } else if rec.start.code < 100 || rec.start.code > 999 {
          return ParsingError;
        } else {
          outcome := ExpectByte(input, ' ', StatusTextStart);
        }
      case StatusTextStart =>
        if !IsChar(input) { return ParsingError; }
        rec.start := rec.start.(text := rec.start.text + [input]);
        state := StatusText;
      case StatusText =>
        if input == '\r' {
          state := StartLineNewline;
        } else if IsChar(input) {
          rec.start := rec.start.(text := rec.start.text + [input]);
        } else {
          return ParsingError;
        }
    }

    /** Framing headers take effect at the end of their line. */
    method EndValue(rec: Record) returns (outcome: Outcome)
      requires rec.headers != []
      modifies this`state, this`contentSize, this`chunked
      ensures Step(Snapshot(rec), outcome) == EndOfValue(old(Snapshot(rec)))
    {
      if IsFramed(rec.Value()) {
        var h := rec.headers[|rec.headers| - 1];
        if IsContentLength(h) {
          var size := Atoi(h.value);
          if size < 0 { return ParsingError; }
          contentSize := size;
        } else if IsTransferEncoding(h) {
          if EqualsNoCase(h.value, "chunked") {
            chunked := true;
          }
        }
      }
      state := ExpectingNewline2;
      return ParsingIncomplete;
    }

    method ConsumeHeader(rec: Record, input: char) returns (outcome: Outcome)
      requires Valid(Snapshot(rec)) && InHeaders(state)
      modifies this`state, this`contentSize, this`chunked, rec`headers
      ensures Step(Snapshot(rec), outcome) == HeaderStep(old(Snapshot(rec)), input)
    {
      outcome := ParsingIncomplete;
      var n := |rec.headers|;
      match state
      case StartLineNewline => outcome := ExpectByte(input, '\n', HeaderLineStart);
      case HeaderLineStart =>
        if input == '\r' {
          state := ExpectingNewline3;
        } else if n != 0 && (input == ' ' || input == '\t') {
          state := HeaderLws;
        } else if !IsTokenChar(input) {
          return ParsingError;
        } else {
          rec.headers := rec.headers + [Header([input], "")];
          state := HeaderName;
        }
      case HeaderLws =>
        if input == '\r' {
          state := ExpectingNewline2;
        } else if input == ' ' || input == '\t' {
        } else if IsControl(input) {
          return ParsingError;
        } else {
          state := HeaderValue;
          rec.headers := rec.headers[n - 1 := rec.headers[n - 1].(value := rec.headers[n - 1].value + [input])];
        }
      case HeaderName =>
        if input == ':' {
          state := SpaceBeforeHeaderValue;
        } else if !IsTokenChar(input) {
          return ParsingError;
        } else {
          rec.headers := rec.headers[n - 1 := rec.headers[n - 1].(name := rec.headers[n - 1].name + [input])];
        }
      case SpaceBeforeHeaderValue => outcome := ExpectByte(input, ' ', HeaderValue);
      case HeaderValue =>
        if input == '\r' {
          outcome := EndValue(rec);
        } else if IsControl(input) {
          return ParsingError;
        } else {
          rec.headers := rec.headers[n - 1 := rec.headers[n - 1].(value := rec.headers[n - 1].value + [input])];
        }
      case ExpectingNewline2 => outcome := ExpectByte(input, '\n', HeaderLineStart);
    }

    /** `find_if` over the headers for the first Connection. */
    method SettleKeepAlive(rec: Record)
      modifies rec`keepAlive
      ensures rec.keepAlive == KeepAliveAfter(rec.headers, rec.versionMajor, rec.versionMinor, old(rec.keepAlive))
    {
      var i := 0;
      while i < |rec.headers| && !IsConnection(rec.headers[i])
        invariant i <= |rec.headers|
        invariant KeepAliveAfter(rec.headers, rec.versionMajor, rec.versionMinor, rec.keepAlive)
               == KeepAliveAfter(rec.headers[i..], rec.versionMajor, rec.versionMinor, rec.keepAlive)
      {
        i := i + 1;
      }
      if i < |rec.headers| {
        rec.keepAlive := EqualsNoCase(rec.headers[i].value, "Keep-Alive");
      } else if DefaultsToKeepAlive(rec.versionMajor, rec.versionMinor) {
        rec.keepAlive := true;
      }
    }

    method ConsumeEndOfHeaders(rec: Record, input: char) returns (outcome: Outcome)
      requires state.ExpectingNewline3?
      modifies this`state, rec`keepAlive
      ensures Step(Snapshot(rec), outcome) == EndOfHeadersStep(old(Snapshot(rec)), input)
    {
      SettleKeepAlive(rec);
      if chunked {
        state := ChunkSize;
      } else if contentSize == 0 {
        return if input == '\n' then ParsingCompleted else ParsingError;
      } else {
        state := Post;
      }
      return ParsingIncomplete;
    }

    method ConsumePost(rec: Record, input: char) returns (outcome: Outcome)
      requires state.Post?
      modifies this`contentSize, rec`content
      ensures Step(Snapshot(rec), outcome) == PostStep(old(Snapshot(rec)), input)
    {
      contentSize := Decremented(contentSize);
      rec.content := rec.content + [input];
      return if contentSize == 0 then ParsingCompleted else ParsingIncomplete;
    }

    method ConsumeChunks(rec: Record, input: char) returns (outcome: Outcome)
      requires Valid(Snapshot(rec)) && InChunks(state)
      modifies this`state, this`chunkSizeStr, this`chunkSize, rec`content
      ensures Step(Snapshot(rec), outcome) == ChunkStep(old(Snapshot(rec)), input)
    {
      outcome := ParsingIncomplete;
      match state
      case ChunkSize =>
        if IsAlnum(input) {
          chunkSizeStr := chunkSizeStr + [input];
        } else if input == ';' {
          state := ChunkExtensionName;
        } else {
          outcome := ExpectByte(input, '\r', ChunkSizeNewline);
        }
      case ChunkExtensionName =>
        if IsAlnum(input) || input == ' ' {
        } else if input == '=' {
          state := ChunkExtensionValue;
        } else {
          outcome := ExpectByte(input, '\r', ChunkSizeNewline);
        }
      case ChunkExtensionValue =>
        if !(IsAlnum(input) || input == ' ') {
          outcome := ExpectByte(input, '\r', ChunkSizeNewline);
        }
      case ChunkSizeNewline =>
        if input != '\n' { return ParsingError; }
        chunkSize := Strtol16(chunkSizeStr);
        chunkSizeStr := "";
        state := if chunkSize == 0 then ChunkSizeNewline2 else ChunkData;
      case ChunkSizeNewline2 =>
        if input == '\r' {
          state := ChunkSizeNewline3;
        } else if IsAlpha(input) {
          state := ChunkTrailerName;
        } else {
          return ParsingError;
        }
      case ChunkSizeNewline3 =>
        return if input == '\n' then ParsingCompleted else ParsingError;
      case ChunkTrailerName =>
        if !IsAlnum(input) {
          outcome := ExpectByte(input, ':', ChunkTrailerValue);
        }
      case ChunkTrailerValue =>
        if !(IsAlnum(input) || input == ' ') {
          outcome := ExpectByte(input, '\r', ChunkSizeNewline);
        }
      case ChunkData =>
        rec.content := rec.content + [input];
        chunkSize := Decremented(chunkSize);
        if chunkSize == 0 {
          state := ChunkDataNewline1;
        }
      case ChunkDataNewline1 => outcome := ExpectByte(input, '\r', ChunkDataNewline2);
      case ChunkDataNewline2 => outcome := ExpectByte(input, '\n', ChunkSize);
    }

    method ConsumeByte(rec: Record, input: char) returns (outcome: Outcome)
      requires Valid(Snapshot(rec))
      modifies this, rec
      ensures Step(Snapshot(rec), outcome) == Consume(old(Snapshot(rec)), input)
    {
      if InRequestLine(state) {
        outcome := ConsumeRequestLine(rec, input);
      } else if InVersion(state) {
        outcome := ConsumeVersion(rec, input);
      } else if InStatusLine(state) {
        outcome := ConsumeStatusLine(rec, input);
      } else if InHeaders(state) {
        outcome := ConsumeHeader(rec, input);
      } else if state.ExpectingNewline3? {
        outcome := ConsumeEndOfHeaders(rec, input);
      } else if state.Post? {
        outcome := ConsumePost(rec, input);
      } else {
        outcome := ConsumeChunks(rec, input);
      }
    }

    /** `parse`: a result ends the loop with the rest of the buffer unread. */
    method ParseBuffer(rec: Record, buffer: string) returns (outcome: Outcome, read: nat)
      requires Valid(Snapshot(rec))
      modifies this, rec
      ensures read <= |buffer|
      ensures Result(Snapshot(rec), outcome, buffer[read..]) == Parse(old(Snapshot(rec)), buffer)
    {
      read := 0;
      while read < |buffer|
        invariant read <= |buffer|
        invariant Valid(Snapshot(rec))
        invariant Parse(old(Snapshot(rec)), buffer) == Parse(Snapshot(rec), buffer[read..])
      {
        assert buffer[read..][1..] == buffer[read + 1..];
        outcome := ConsumeByte(rec, buffer[read]);
        read := read + 1;
        if !outcome.ParsingIncomplete? {
          return;
        }
      }
      outcome := ParsingIncomplete;
    }
  }
}
