/** What the request reader of src/ge/http/HttpServer.cpp makes of the bytes of a request,
    one byte at a time and whatever reads they arrive in. */
module HttpRequestText {

  import opened Basics

  const HTTP_MAX_LINE := 4096
  const HTTP_MAX_REQUEST_HEADERS := 256

  const TAB: Byte := 9
  const LF: Byte := 10
  const CR: Byte := 13
  const BLANK: Byte := 32

  /** The parts of a parsed first line that matter to the headers. */
  datatype FirstLine = FirstLine(http11: bool, needsLength: bool)

  /** The first-line parser and the search for Content-Length, as functions of what they read;
      None is their `invalid`. */
  datatype Parsers = Parsers(
    parseFirst: seq<Byte> -> Option<FirstLine>,
    contentLength: seq<seq<Byte>> -> Option<nat>)

  datatype Failure = BadRequest | NotImplemented | LengthRequired

  /** `read` counts the bytes looked at; `at` is that count when the request was decided. */
  datatype Progress =
    | ReadingFirstLine(read: nat, partial: seq<Byte>)
    | ReadingHeaders(read: nat, partial: seq<Byte>, first: FirstLine, headers: seq<seq<Byte>>)
    | EndOfHeaders(at: nat, line1: FirstLine, lines: seq<seq<Byte>>)
    | Rejected(at: nat, failure: Failure)

  const START := ReadingFirstLine(0, [])

  predicate Decided(p: Progress) {
    p.EndOfHeaders? || p.Rejected?
  }

  /** The value of a byte in a signed char. */
  function AsChar(b: Byte): int {
    if b < 128 then b else b - 256
  }

  predicate Illegal(b: Byte) {
    AsChar(b) < 30 && b != CR && b != TAB && b != LF
  }

  /** A line without the carriage return in front of its newline. */
  function Chomped(line: seq<Byte>): seq<Byte> {
    if line != [] && line[|line| - 1] == CR then line[..|line| - 1] else line
  }

  /** A complete line in the first-line phase, then in the header phase: the blank line ends the
      headers, a line that starts with a blank or a tab continues the header before it. */
  function AfterLine(env: Parsers, p: Progress, line: seq<Byte>): Progress
    requires !Decided(p)
  {
    match p
    case ReadingFirstLine(read, _) =>
      (match env.parseFirst(line)
       case None => Rejected(read, NotImplemented)
       case Some(first) => ReadingHeaders(read, [], first, []))
    case ReadingHeaders(read, _, first, headers) =>
      if line == [] then
        match env.contentLength(headers)
        case None => Rejected(read, BadRequest)
        case Some(n) =>
          if n == 0 && first.needsLength then Rejected(read, LengthRequired) else EndOfHeaders(read, first, headers)
      else if line[0] == BLANK || line[0] == TAB then
        if headers == [] then Rejected(read, BadRequest)
        else ReadingHeaders(read, [], first, headers[|headers| - 1 := headers[|headers| - 1] + line])
      else if |headers| > HTTP_MAX_REQUEST_HEADERS then Rejected(read, BadRequest)
      else ReadingHeaders(read, [], first, headers + [line])
  }

  /** Only the line counts, not what was kept of it before. */
  lemma LineIsAll(env: Parsers, p: Progress, partial: seq<Byte>, line: seq<Byte>)
    requires !Decided(p)
    ensures AfterLine(env, p.(partial := partial), line) == AfterLine(env, p, line)
  {
  }

  /** One more byte looked at. */
  function Counted(p: Progress, n: nat): Progress
    requires !Decided(p)
  {
    p.(read := p.read + n)
  }

  function FeedByte(env: Parsers, p: Progress, b: Byte): Progress {
    if Decided(p) then p
    else if b == LF then AfterLine(env, Counted(p, 1), Chomped(p.partial))
    else if Illegal(b) then Rejected(p.read + 1, BadRequest)
    else if |p.partial| + 1 == HTTP_MAX_LINE then Rejected(p.read + 1, BadRequest)
    else p.(read := p.read + 1, partial := p.partial + [b])
  }

  function Feed(env: Parsers, p: Progress, s: seq<Byte>): Progress
    decreases |s|
  {
    if s == [] then p else Feed(env, FeedByte(env, p, s[0]), s[1..])
  }

  /** The reads of a request, one after the other. */
  function FeedReads(env: Parsers, p: Progress, chunks: seq<seq<Byte>>): Progress
    decreases |chunks|
  {
    if chunks == [] then p else FeedReads(env, Feed(env, p, chunks[0]), chunks[1..])
  }

  /** Each read fits into the rest of the line buffer, until the request is decided. */
  ghost predicate Fits(env: Parsers, p: Progress, chunks: seq<seq<Byte>>)
    decreases |chunks|
  {
    chunks == [] || Decided(p) ||
    (|p.partial| + |chunks[0]| <= HTTP_MAX_LINE && Fits(env, Feed(env, p, chunks[0]), chunks[1..]))
  }

  function Flatten(chunks: seq<seq<Byte>>): seq<Byte> {
    if chunks == [] then [] else chunks[0] + Flatten(chunks[1..])
  }

  lemma {:induction false} FeedConcat(env: Parsers, p: Progress, s: seq<Byte>, t: seq<Byte>)
    ensures Feed(env, p, s + t) == Feed(env, Feed(env, p, s), t)
    decreases |s|
  {
    if s == [] {
      assert s + t == t;
    } else {
      hide FeedByte;
      assert (s + t)[1..] == s[1..] + t;
      FeedConcat(env, FeedByte(env, p, s[0]), s[1..], t);
    }
  }

  lemma {:induction false} ReadsAreOneStream(env: Parsers, p: Progress, chunks: seq<seq<Byte>>)
    ensures FeedReads(env, p, chunks) == Feed(env, p, Flatten(chunks))
    decreases |chunks|
  {
    if chunks != [] {
      FeedConcat(env, p, chunks[0], Flatten(chunks[1..]));
      ReadsAreOneStream(env, Feed(env, p, chunks[0]), chunks[1..]);
    }
  }

  /** However the same bytes are cut into chunks, the request is decided alike: same headers,
      same failure, at the same byte. */
  lemma SplitsDoNotMatter(env: Parsers, chunks: seq<seq<Byte>>, others: seq<seq<Byte>>)
    requires Flatten(chunks) == Flatten(others)
    ensures FeedReads(env, START, chunks) == FeedReads(env, START, others)
  {
    ReadsAreOneStream(env, START, chunks);
    ReadsAreOneStream(env, START, others);
  }

  // ---- Runs of ordinary bytes ----

  predicate Clean(s: seq<Byte>) {
    forall k :: 0 <= k < |s| ==> s[k] != LF && !Illegal(s[k])
  }

  lemma {:induction false} FeedDecided(env: Parsers, p: Progress, s: seq<Byte>)
    requires Decided(p)
    ensures Feed(env, p, s) == p
    decreases |s|
  {
    if s != [] {
      FeedDecided(env, p, s[1..]);
    }
  }

  lemma {:induction false} FeedReadsDecided(env: Parsers, p: Progress, chunks: seq<seq<Byte>>)
    requires Decided(p)
    ensures FeedReads(env, p, chunks) == p
    decreases |chunks|
  {
    if chunks != [] {
      FeedDecided(env, p, chunks[0]);
      FeedReadsDecided(env, p, chunks[1..]);
    }
  }

  /** Ordinary bytes pile up in the line, which is rejected when it fills the buffer. */
  lemma {:induction false} FeedClean(env: Parsers, p: Progress, s: seq<Byte>)
    requires !Decided(p) && Clean(s) && |p.partial| < HTTP_MAX_LINE && |p.partial| + |s| <= HTTP_MAX_LINE
    ensures Feed(env, p, s) ==
      if |p.partial| + |s| == HTTP_MAX_LINE then Rejected(p.read + |s|, BadRequest)
      else p.(read := p.read + |s|, partial := p.partial + s)
    decreases |s|
  {
    if s == [] {
      assert p.partial + s == p.partial;
    } else {
      var q := FeedByte(env, p, s[0]);
      if |p.partial| + 1 == HTTP_MAX_LINE {
        FeedDecided(env, q, s[1..]);
      } else {
        FeedClean(env, q, s[1..]);
        assert p.partial + [s[0]] + s[1..] == p.partial + s;
      }
    }
  }

  /** Ordinary bytes and then a newline make a line of what was there and what came. */
  lemma FeedLine(env: Parsers, p: Progress, s: seq<Byte>, rest: seq<Byte>)
    requires !Decided(p) && Clean(s) && |p.partial| + |s| < HTTP_MAX_LINE
    ensures Feed(env, p, s + [LF] + rest) ==
      Feed(env, AfterLine(env, p.(read := p.read + |s| + 1, partial := p.partial + s), Chomped(p.partial + s)), rest)
  {
    var q := p.(read := p.read + |s|, partial := p.partial + s);
    assert s + [LF] + rest == s + ([LF] + rest);
    FeedConcat(env, p, s, [LF] + rest);
    FeedClean(env, p, s);
    assert ([LF] + rest)[1..] == rest;
    assert FeedByte(env, q, LF) == AfterLine(env, Counted(q, 1), Chomped(q.partial));
  }

  /** Ordinary bytes and then an illegal one are a rejection at that byte. */
  lemma FeedIllegal(env: Parsers, p: Progress, s: seq<Byte>, b: Byte, rest: seq<Byte>)
    requires !Decided(p) && Clean(s) && |p.partial| + |s| < HTTP_MAX_LINE && Illegal(b)
    ensures Feed(env, p, s + [b] + rest) == Rejected(p.read + |s| + 1, BadRequest)
  {
    var q := p.(read := p.read + |s|, partial := p.partial + s);
    assert s + [b] + rest == s + ([b] + rest);
    FeedConcat(env, p, s, [b] + rest);
    FeedClean(env, p, s);
    assert ([b] + rest)[1..] == rest;
    FeedDecided(env, Rejected(p.read + |s| + 1, BadRequest), rest);
  }
}
