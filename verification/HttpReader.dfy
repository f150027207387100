/** The request reader of src/ge/http/HttpServer.cpp: tryReadLine, flushLine and the first-line
    and header phases of readHandler, on the fields of HttpSession. */
module HttpReader {
  import opened Basics
  import opened HttpRequestText
  import opened HttpRequestLines

  datatype SessionState = FirstLinePhase | HeaderPhase | BodyPhase

  lemma Parts(buf: seq<Byte>, from: nat, i: nat, to: nat)
    requires from <= i < to <= |buf| && Clean(buf[..i])
    ensures buf[from..to] == buf[from..i] + [buf[i]] + buf[i + 1..to]
    ensures buf[..from] + buf[from..i] == buf[..i] && Clean(buf[from..i])
  {
    assert forall k :: 0 <= k < i - from ==> buf[from..i][k] == buf[..i][from + k];
  }

  lemma CleanSnoc(buf: seq<Byte>, i: nat)
    requires i < |buf| && Clean(buf[..i]) && buf[i] != LF && !Illegal(buf[i])
    ensures Clean(buf[..i + 1])
  {
    assert buf[..i + 1] == buf[..i] + [buf[i]];
  }

  /** The same phase further on. */
  function Moved(p: Progress, read: nat, partial: seq<Byte>): Progress
    requires !Decided(p)
  {
    p.(read := read, partial := partial)
  }

  /** A newline at `i` when the line was scanned from `from`. */
  lemma LineFound(env: Parsers, p: Progress, buf: seq<Byte>, from: nat, i: nat, to: nat, read: nat)
    requires !Decided(p) && from <= i < to <= |buf| <= HTTP_MAX_LINE && p.partial == buf[..from]
    requires Clean(buf[..i]) && buf[i] == LF && read == p.read + (i - from) + 1
    ensures Chomped(buf[..i]) == buf[..if i != 0 && buf[i - 1] == CR then i - 1 else i]
    ensures Feed(env, p, buf[from..to]) ==
      Feed(env, AfterLine(env, Moved(p, read, []), Chomped(buf[..i])), buf[i + 1..to])
  {
    hide Feed, AfterLine, Clean;
    Parts(buf, from, i, to);
    LineIsAll(env, Moved(p, read, []), buf[..i], Chomped(buf[..i]));
    FeedLine(env, p, buf[from..i], buf[i + 1..to]);
  }

  lemma IllegalFound(env: Parsers, p: Progress, buf: seq<Byte>, from: nat, i: nat, to: nat)
    requires !Decided(p) && from <= i < to <= |buf| <= HTTP_MAX_LINE && p.partial == buf[..from]
    requires Clean(buf[..i]) && Illegal(buf[i])
    ensures Feed(env, p, buf[from..to]) == Rejected(p.read + (i - from) + 1, BadRequest)
  {
    Parts(buf, from, i, to);
    hide Feed, Clean, Illegal;
    FeedIllegal(env, p, buf[from..i], buf[i], buf[i + 1..to]);
  }

  lemma NothingFound(env: Parsers, p: Progress, buf: seq<Byte>, from: nat, to: nat)
    requires !Decided(p) && from <= to <= |buf| == HTTP_MAX_LINE && from < HTTP_MAX_LINE && p.partial == buf[..from]
    requires Clean(buf[..to])
    ensures Feed(env, p, buf[from..to]) ==
      if to == HTTP_MAX_LINE then Rejected(p.read + (to - from), BadRequest)
      else Moved(p, p.read + (to - from), buf[..to])
  {
    assert forall k :: 0 <= k < to - from ==> buf[from..to][k] == buf[..to][from + k];
    assert buf[..from] + buf[from..to] == buf[..to];
    FeedClean(env, p, buf[from..to]);
  }

  /** The interim response of HTTP/1.1 and the failure messages. */
  datatype Response = Continue | Failed(failure: Failure)

  /** What a phase answers when it has ended. */
  function Answer(failure: Option<Failure>): seq<Response> {
    match failure
    case None => []
    case Some(message) => [Failed(message)]
  }

  function Interim(first: FirstLine): seq<Response> {
    if first.http11 then [Continue] else []
  }

  lemma TheAnswers(first: FirstLine, failure: Option<Failure>)
    ensures Interim(first) == if first.http11 then [Continue] else []
    ensures Answer(failure) == if failure.Some? then [Failed(failure.value)] else []
  {
  }

  lemma NothingClean(buf: seq<Byte>)
    ensures Clean(buf[..0])
  {
  }

  lemma LineStarts(line: seq<Byte>)
    ensures Continues(line) <==> line != [] && (line[0] == BLANK || line[0] == TAB)
  {
  }

  datatype Stop = AtNewline | AtIllegal | AtEnd

  /** The loop of tryReadLine: on to the first newline or illegal byte. */
  method Scan(lineBuffer: array<Byte>, from: nat, filled: nat) returns (i: nat, stop: Stop)
    requires from <= filled <= lineBuffer.Length && Clean(lineBuffer[..from])
    ensures from <= i <= filled && Clean(lineBuffer[..i])
    ensures stop.AtEnd? <==> i == filled
    ensures stop.AtNewline? ==> lineBuffer[i] == LF
    ensures stop.AtIllegal? ==> Illegal(lineBuffer[i])
  {
    hide Clean;
    i := from;
    while i < filled
      invariant from <= i <= filled && Clean(lineBuffer[..i])
    {
      var c := lineBuffer[i];
      if c == LF {
        return i, AtNewline;
      } else if AsChar(c) < 30 && c != CR && c != TAB {
        return i, AtIllegal;
      }
      CleanSnoc(lineBuffer[..], i);
      assert lineBuffer[..][..i + 1] == lineBuffer[..i + 1] && lineBuffer[..][..i] == lineBuffer[..i];
      i := i + 1;
    }
    stop := AtEnd;
  }

  class HttpSession {
    const env: Parsers
    var state: SessionState
    var firstLine: FirstLine
    var headerLines: seq<seq<Byte>>
    const lineBuffer: array<Byte>
    var lineBufferIndex: nat
    var lineBufferFilled: nat
    /** The failure message queued for the peer; the model ends there. */
    var failure: Option<Failure>
    /** What was handed to addWriteData. */
    var responses: seq<Response>
    /** Bytes flushed from the line buffer so far, and the count of the deciding byte. */
    ghost var flushed: nat
    ghost var decidedAt: nat

    ghost predicate Valid()
      reads this, lineBuffer
    {
      && lineBuffer.Length == HTTP_MAX_LINE
      && lineBufferIndex <= lineBufferFilled <= HTTP_MAX_LINE
      && (Open() ==> Clean(lineBuffer[..lineBufferIndex]))
    }

    /** Nothing is decided yet. */
    predicate Open()
      reads this
    {
      failure.None? && state != BodyPhase
    }

    /** The phase with the line as far as it has been scanned. */
    ghost function Cursor(): Progress
      requires Valid()
      reads this, lineBuffer
    {
      if failure.Some? then Rejected(decidedAt, failure.value)
      else match state
        case FirstLinePhase => ReadingFirstLine(flushed + lineBufferIndex, lineBuffer[..lineBufferIndex])
        case HeaderPhase =>
          ReadingHeaders(flushed + lineBufferIndex, lineBuffer[..lineBufferIndex], firstLine, headerLines)
        case BodyPhase => EndOfHeaders(decidedAt, firstLine, headerLines)
    }

    /** What is in the buffer but not yet scanned. */
    ghost function Pending(): seq<Byte>
      requires Valid()
      reads this, lineBuffer
    {
      lineBuffer[lineBufferIndex..lineBufferFilled]
    }

    /** Between two reads: everything received was scanned, and there is room for more. */
    ghost predicate Ready()
      reads this, lineBuffer
    {
      Valid() && (Open() ==> lineBufferIndex == lineBufferFilled < HTTP_MAX_LINE)
    }

    constructor (env: Parsers)
      ensures Ready() && Cursor() == START && this.env == env && fresh(lineBuffer)
    {
      this.env := env;
      state, headerLines, failure, responses := FirstLinePhase, [], None, [];
      firstLine := FirstLine(false, false);
      lineBuffer := new Byte[HTTP_MAX_LINE];
      lineBufferIndex, lineBufferFilled := 0, 0;
      flushed, decidedAt := 0, 0;
    }

    /** Scans on to the end of the line. `i` is where the scan stopped. What is still to be made
        of the request is what the completed line, the failure, or the longer partial line
        leaves to be made. */
    method TryReadLine() returns (line: seq<Byte>, lineCompleted: bool, invalid: bool, i: nat)
      requires Valid() && Open() && lineBufferIndex < HTTP_MAX_LINE
      modifies this`lineBufferIndex
      ensures lineBuffer.Length == HTTP_MAX_LINE && lineBufferIndex <= lineBufferFilled <= HTTP_MAX_LINE
      ensures !(lineCompleted && invalid)
      ensures lineCompleted ==>
        && lineBufferIndex == i + 1 && (line != [] ==> line[0] == lineBuffer[0])
        && Feed(env, old(Cursor()), old(Pending())) ==
           Feed(env, AfterLine(env, Moved(old(Cursor()), flushed + lineBufferIndex, []), line),
                lineBuffer[lineBufferIndex..lineBufferFilled])
      ensures invalid ==> Valid()
      ensures invalid ==>
        Feed(env, old(Cursor()), old(Pending())) ==
        Rejected(flushed + if i < lineBufferFilled then i + 1 else i, BadRequest)
      ensures !lineCompleted && !invalid ==> lineBufferIndex == lineBufferFilled < HTTP_MAX_LINE && Valid()
      ensures !lineCompleted && !invalid ==> Cursor() == Feed(env, old(Cursor()), old(Pending()))
    {
      hide Feed, AfterLine, Clean, Chomped, Illegal, AsChar, Continues, Interim, Answer;
      ghost var p, from, to, buf := Cursor(), lineBufferIndex, lineBufferFilled, lineBuffer[..];
      line, lineCompleted, invalid := [], false, false;
      var stop;
      i, stop := Scan(lineBuffer, lineBufferIndex, lineBufferFilled);
      match stop
      case AtNewline =>
        var lineEnd := i;
        if i != 0 && lineBuffer[i - 1] == CR {
          lineEnd := lineEnd - 1;
        }
        LineFound(env, p, buf, from, i, to, flushed + (i + 1));
        lineBufferIndex := i + 1;
        line, lineCompleted := lineBuffer[..lineEnd], true;
      case AtIllegal =>
        invalid := true;
        IllegalFound(env, p, buf, from, i, to);
      case AtEnd =>
        NothingFound(env, p, buf, from, i);
        if i == HTTP_MAX_LINE {
          invalid := true;
        }
        lineBufferIndex := i;
    }

    /** Moves what lies behind the line to the start of the buffer. */
    method FlushLine()
      requires lineBuffer.Length == HTTP_MAX_LINE && lineBufferIndex <= lineBufferFilled <= HTTP_MAX_LINE
      modifies this`lineBufferIndex, this`lineBufferFilled, this`flushed, lineBuffer
      ensures lineBufferIndex == 0 && lineBufferFilled == old(lineBufferFilled - lineBufferIndex)
      ensures lineBuffer[..lineBufferFilled] == old(lineBuffer[lineBufferIndex..lineBufferFilled])
      ensures flushed == old(flushed + lineBufferIndex)
    {
      forall k | 0 <= k < lineBufferFilled - lineBufferIndex {
        lineBuffer[k] := lineBuffer[lineBufferIndex + k];
      }
      flushed := flushed + lineBufferIndex;
      lineBufferFilled := lineBufferFilled - lineBufferIndex;
      lineBufferIndex := 0;
    }

    /** sendRequestFailure; `at` is the count of the deciding byte. */
    method SendRequestFailure(message: Failure, ghost at: nat)
      modifies this`failure, this`responses, this`decidedAt
      ensures failure == Some(message) && decidedAt == at && responses == old(responses) + [Failed(message)]
      ensures lineBuffer.Length == HTTP_MAX_LINE && lineBufferIndex <= lineBufferFilled <= HTTP_MAX_LINE ==>
        Valid() && Cursor() == Rejected(at, message)
    {
      failure := Some(message);
      responses := responses + [Failed(message)];
      decidedAt := at;
    }

    /** What readHandler does with a complete first line. */
    method FirstLineRead(line: seq<Byte>)
      requires Open() && state == FirstLinePhase
      requires lineBuffer.Length == HTTP_MAX_LINE && lineBufferIndex <= lineBufferFilled <= HTTP_MAX_LINE
      modifies this, lineBuffer
      ensures Valid() && Cursor() == AfterLine(env, ReadingFirstLine(old(flushed + lineBufferIndex), []), line)
      ensures Open() ==> state == HeaderPhase && lineBufferIndex == 0
      ensures Open() ==> Pending() == old(lineBuffer[lineBufferIndex..lineBufferFilled])
      ensures responses == old(responses) + if Open() then Interim(firstLine) else Answer(failure)
      ensures !Open() ==> state == FirstLinePhase && failure.Some?
    {
      match env.parseFirst(line)
      case None =>
        SendRequestFailure(NotImplemented, flushed + lineBufferIndex);
      case Some(first) =>
        firstLine := first;
        headerLines := [];
        FlushLine();
        if firstLine.http11 {
          responses := responses + [Continue];
        }
        state := HeaderPhase;
    }

    /** What readHandler does with a complete line behind the first. */
    method HeaderLineRead(line: seq<Byte>)
      requires Open() && state == HeaderPhase
      requires lineBuffer.Length == HTTP_MAX_LINE && lineBufferIndex <= lineBufferFilled <= HTTP_MAX_LINE
      requires line != [] ==> line[0] == lineBuffer[0]
      modifies this, lineBuffer
      ensures Valid()
      ensures Cursor() == AfterLine(env, ReadingHeaders(old(flushed + lineBufferIndex), [], old(firstLine), old(headerLines)), line)
      ensures Open() ==> state == HeaderPhase && lineBufferIndex == 0
      ensures Open() ==> Pending() == old(lineBuffer[lineBufferIndex..lineBufferFilled])
      ensures responses == old(responses) + Answer(failure) && firstLine == old(firstLine) && state != FirstLinePhase
      ensures line == [] ==> headerLines == old(headerLines) && (failure == None ==> state == BodyPhase)
      ensures line == [] && env.contentLength(headerLines) == None ==> failure == Some(BadRequest)
      ensures line == [] && env.contentLength(headerLines).Some? ==>
        failure == if env.contentLength(headerLines).value > 0 || !firstLine.needsLength then None else Some(LengthRequired)
      ensures line != [] ==> state == HeaderPhase
      ensures Continues(line) && old(headerLines) == [] ==> failure == Some(BadRequest)
      ensures Continues(line) && old(headerLines) != [] ==>
        var n := |old(headerLines)| - 1;
        failure == None && headerLines == old(headerLines)[n := old(headerLines)[n] + line]
      ensures line != [] && !Continues(line) && |old(headerLines)| > 256 ==> failure == Some(BadRequest)
      ensures line != [] && !Continues(line) && |old(headerLines)| <= 256 ==>
        failure == None && headerLines == old(headerLines) + [line]
    {
      hide Clean, Continues, Answer;
      TheAnswers(firstLine, None);
      TheAnswers(firstLine, Some(BadRequest));
      TheAnswers(firstLine, Some(LengthRequired));
      LineStarts(line);
      if |line| == 0 {
        DecideLength();
      } else {
        StoreHeaderLine(line);
      }
      if failure.Some? {
        return;
      }
      FlushLine();
      NothingClean(lineBuffer[..]);
      assert lineBuffer[..][..0] == lineBuffer[..0];
    }

    /** The blank line. */
    method DecideLength()
      requires failure == None && state == HeaderPhase
      modifies `state, `failure, `responses, `decidedAt
      ensures decidedAt == flushed + lineBufferIndex
      ensures env.contentLength(headerLines) == None ==> failure == Some(BadRequest)
      ensures env.contentLength(headerLines).Some? ==>
        failure == if env.contentLength(headerLines).value > 0 || !firstLine.needsLength then None else Some(LengthRequired)
      ensures state == if failure == None then BodyPhase else HeaderPhase
      ensures responses == old(responses) + if failure.Some? then [Failed(failure.value)] else []
    {
      decidedAt := flushed + lineBufferIndex;
      var contentLen := env.contentLength(headerLines);
      if contentLen.None? {
        SendRequestFailure(BadRequest, decidedAt);
        return;
      }
      if contentLen.value == 0 && firstLine.needsLength {
        SendRequestFailure(LengthRequired, decidedAt);
        return;
      }
      state := BodyPhase;
    }

    /** Any other line. */
    method StoreHeaderLine(line: seq<Byte>)
      requires failure == None && line != [] && lineBuffer.Length > 0 && line[0] == lineBuffer[0]
      modifies `headerLines, `failure, `responses, `decidedAt
      ensures Continues(line) && old(headerLines) == [] ==> failure == Some(BadRequest)
      ensures Continues(line) && old(headerLines) != [] ==>
        var n := |old(headerLines)| - 1;
        failure == None && headerLines == old(headerLines)[n := old(headerLines)[n] + line]
      ensures !Continues(line) && |old(headerLines)| > 256 ==> failure == Some(BadRequest)
      ensures !Continues(line) && |old(headerLines)| <= 256 ==>
        failure == None && headerLines == old(headerLines) + [line]
      ensures failure.Some? ==> headerLines == old(headerLines) && decidedAt == flushed + lineBufferIndex
      ensures responses == old(responses) + if failure.Some? then [Failed(failure.value)] else []
    {
      var headerCount := |headerLines|;
      if lineBuffer[0] == BLANK || lineBuffer[0] == TAB {
        if headerCount == 0 {
          SendRequestFailure(BadRequest, flushed + lineBufferIndex);
          return;
        }
        headerLines := headerLines[headerCount - 1 := headerLines[headerCount - 1] + line];
      } else {
        if headerCount > HTTP_MAX_REQUEST_HEADERS {
          SendRequestFailure(BadRequest, flushed + lineBufferIndex);
          return;
        }
        headerLines := headerLines + [line];
      }
    }

    /** How both phases begin: with a complete line, or with the end of the read, in a rejection or
        because the line is not complete yet. */
    method CompleteLine() returns (line: seq<Byte>, stop: bool)
      requires Valid() && Open() && lineBufferIndex < HTTP_MAX_LINE
      modifies `lineBufferIndex, `failure, `responses, `decidedAt
      ensures stop ==> Ready() && Cursor() == Feed(env, old(Cursor()), old(Pending()))
      ensures stop ==> responses == old(responses) + Answer(failure)
      ensures !stop ==>
        && failure.None? && responses == old(responses) && decidedAt == old(decidedAt)
        && 0 < lineBufferIndex <= lineBufferFilled <= HTTP_MAX_LINE == lineBuffer.Length
        && (line != [] ==> line[0] == lineBuffer[0])
        && Feed(env, old(Cursor()), old(Pending())) ==
           Feed(env, AfterLine(env, Moved(old(Cursor()), flushed + lineBufferIndex, []), line),
                lineBuffer[lineBufferIndex..lineBufferFilled])
    {
      hide Feed, AfterLine, Clean, Moved;
      var lineCompleted, invalid, i;
      line, lineCompleted, invalid, i := TryReadLine();
      stop := !lineCompleted;
      if invalid {
        SendRequestFailure(BadRequest, flushed + if i < lineBufferFilled then i + 1 else i);
      }
    }

    /** The first-line phase of readHandler, and one turn of its header loop. They end the read, or
        leave the rest of it to be made of a session in the header phase. */
    method FirstLineTurn() returns (stop: bool)
      requires Valid() && Open() && state == FirstLinePhase && lineBufferIndex < HTTP_MAX_LINE
      modifies this, lineBuffer
      ensures stop ==> Ready() && Cursor() == Feed(env, old(Cursor()), old(Pending()))
      ensures !stop ==> Valid() && Open() && state == HeaderPhase && lineBufferIndex == 0
      ensures !stop ==> Feed(env, Cursor(), Pending()) == Feed(env, old(Cursor()), old(Pending()))
      ensures responses == old(responses) + if stop then Answer(failure) else Interim(firstLine)
      ensures stop ==> state == FirstLinePhase
    {
      hide Feed, AfterLine, Clean, Moved, Interim, Answer, Continues;
      var line;
      line, stop := CompleteLine();
      if stop {
        return;
      }
      ghost var rest := lineBuffer[lineBufferIndex..lineBufferFilled];
      MovedIs(old(Cursor()), flushed + lineBufferIndex);
      FirstLineRead(line);
      stop := !Open();
      if stop {
        FeedDecided(env, Cursor(), rest);
        assert Ready();
      }
    }

    method HeaderTurn() returns (stop: bool)
      requires Valid() && Open() && state == HeaderPhase && lineBufferIndex < HTTP_MAX_LINE
      modifies this, lineBuffer
      ensures stop ==> Ready() && Cursor() == Feed(env, old(Cursor()), old(Pending()))
      ensures !stop ==> Valid() && Open() && state == HeaderPhase && lineBufferIndex == 0
      ensures !stop ==> Feed(env, Cursor(), Pending()) == Feed(env, old(Cursor()), old(Pending()))
      ensures !stop ==> lineBufferFilled < old(lineBufferFilled)
      ensures responses == old(responses) + Answer(failure) && firstLine == old(firstLine) && state != FirstLinePhase
    {
      hide Feed, AfterLine, Clean, Moved, Interim, Answer, Continues;
      var line;
      line, stop := CompleteLine();
      if stop {
        return;
      }
      ghost var rest := lineBuffer[lineBufferIndex..lineBufferFilled];
      MovedIs(old(Cursor()), flushed + lineBufferIndex);
      HeaderLineRead(line);
      stop := !Open();
      if stop {
        FeedDecided(env, Cursor(), rest);
      }
    }

    /** readHandler for `n` more bytes, already stored behind the filled part: exactly the
        progress the bytes make, and as long as the request is undecided there is room for
        another read. */
    method ReadHandler(n: nat)
      requires Ready() && Open() && lineBufferFilled + n <= HTTP_MAX_LINE
      modifies this, lineBuffer
      ensures Ready()
      ensures Cursor() == Feed(env, old(Cursor()), old(lineBuffer[lineBufferFilled..lineBufferFilled + n]))
      ensures responses == old(responses)
        + (if old(state) == FirstLinePhase != state then Interim(firstLine) else []) + Answer(failure)
      ensures old(state) != FirstLinePhase ==> state != FirstLinePhase && firstLine == old(firstLine)
    {
      hide Feed, Clean;
      lineBufferFilled := lineBufferFilled + n;
      ghost var goal := Feed(env, Cursor(), Pending());
      var stop := false;
      if state == FirstLinePhase {
        stop := FirstLineTurn();
      }
      while !stop && state == HeaderPhase
        invariant stop ==> Ready() && Cursor() == goal
        invariant !stop ==> Valid() && Open() && state == HeaderPhase && lineBufferIndex < HTTP_MAX_LINE
        invariant !stop ==> Feed(env, Cursor(), Pending()) == goal
        invariant responses == old(responses)
          + (if old(state) == FirstLinePhase != state then Interim(firstLine) else []) + Answer(failure)
        invariant old(state) != FirstLinePhase ==> state != FirstLinePhase && firstLine == old(firstLine)
        decreases !stop, lineBufferFilled
      {
        stop := HeaderTurn();
      }
    }

    /** socketRead: the bytes of one read go behind the filled part. */
    method Receive(chunk: seq<Byte>)
      requires Ready() && Open() && lineBufferFilled + |chunk| <= HTTP_MAX_LINE
      modifies lineBuffer
      ensures Ready() && Cursor() == old(Cursor())
      ensures lineBuffer[lineBufferFilled..lineBufferFilled + |chunk|] == chunk
    {
      ghost var was := lineBuffer[..lineBufferFilled];
      forall k | 0 <= k < |chunk| {
        lineBuffer[lineBufferFilled + k] := chunk[k];
      }
      assert lineBuffer[..lineBufferFilled] == was;
      assert lineBuffer[lineBufferFilled..lineBufferFilled + |chunk|] == chunk;
    }

    /** A request read in any number of reads that fit the buffer, up to the decision: the session
        ends where the bytes of all reads lead, however they were cut. */
    method ReadAll(chunks: seq<seq<Byte>>)
      requires Ready() && Fits(env, Cursor(), chunks)
      modifies this, lineBuffer
      ensures Ready() && Cursor() == FeedReads(env, old(Cursor()), chunks)
      ensures Cursor() == Feed(env, old(Cursor()), Flatten(chunks))
      ensures var interim := if old(state) == FirstLinePhase != state && firstLine.http11 then [Continue] else [];
        old(Open()) ==> responses == old(responses) + interim + if failure.Some? then [Failed(failure.value)] else []
    {
      hide Feed, Clean, Interim, Answer;
      ReadsAreOneStream(env, Cursor(), chunks);
      ghost var goal := FeedReads(env, Cursor(), chunks);
      var k := 0;
      assert chunks[0..] == chunks;
      TheAnswers(firstLine, failure);
      while k < |chunks| && Open()
        invariant k <= |chunks| && Ready() && Fits(env, Cursor(), chunks[k..])
        invariant FeedReads(env, Cursor(), chunks[k..]) == goal
        invariant old(state) != FirstLinePhase ==> state != FirstLinePhase
        invariant old(Open()) ==> responses == Answered(old(responses), old(state) == FirstLinePhase != state)
      {
        assert failure == None;
        TheAnswers(firstLine, None);
        assert chunks[k..][1..] == chunks[k + 1..];
        Receive(chunks[k]);
        ReadHandler(|chunks[k]|);
        k := k + 1;
      }
      TheAnswers(firstLine, failure);
      if !Open() {
        FeedReadsDecided(env, Cursor(), chunks[k..]);
      }
    }

    /** The answers of a session that came from `before` and has read a first line or not. */
    function Answered(before: seq<Response>, begun: bool): seq<Response>
      reads this
    {
      before + (if begun then Interim(firstLine) else []) + Answer(failure)
    }
  }

  lemma MovedIs(p: Progress, read: nat)
    requires !Decided(p)
    ensures p.ReadingFirstLine? ==> Moved(p, read, []) == ReadingFirstLine(read, [])
    ensures p.ReadingHeaders? ==> Moved(p, read, []) == ReadingHeaders(read, [], p.first, p.headers)
  {
  }

  /** A complete request, in any reads that fit the buffer: what its lines come to is in the fields,
      and the answers are an interim one for HTTP/1.1 and the failure, if there is one. */
  method ReadRequest(s: HttpSession, chunks: seq<seq<Byte>>, ghost firstLine: Line, ghost lines: seq<Line>, ghost blank: Line)
    requires s.Ready() && s.Cursor() == START && s.responses == [] && Fits(s.env, START, chunks)
    requires Sendable(firstLine) && HeaderLines(lines) && Sendable(blank) && blank.text == []
    requires Flatten(chunks) == Wire(Request(firstLine, lines, blank))
    modifies s, s.lineBuffer
    ensures match s.env.parseFirst(firstLine.text)
      case None => s.failure == Some(NotImplemented)
      case Some(first) =>
        if !StartsWell(lines) || HeaderCount(Texts(lines)) > 257 then s.failure == Some(BadRequest)
        else
          exists cuts, headers :: HeadersOf(Texts(lines), cuts, headers) && match s.env.contentLength(headers)
            case None => s.failure == Some(BadRequest)
            case Some(length) =>
              if length > 0 || !first.needsLength
              then s.failure == None && s.state == BodyPhase && s.firstLine == first && s.headerLines == headers
              else s.failure == Some(LengthRequired)
    ensures s.responses == (if s.state != FirstLinePhase && s.firstLine.http11 then [Continue] else [])
      + (if s.failure.Some? then [Failed(s.failure.value)] else [])
  {
    hide Feed, FeedReads, Fits, Clean, Wire, Flatten, HeadersOf, HeaderCount, Texts, HeaderLines, Sendable, OneTooMany;
    s.ReadAll(chunks);
    RequestIsRead(s.env, chunks, firstLine, lines, blank, s.Cursor());
  }
}
