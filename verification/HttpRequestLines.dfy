/** What a request made of complete lines comes to (readHandler of src/ge/http/HttpServer.cpp), said
    of its lines and not of its bytes. */
module HttpRequestLines {
  import opened Basics
  import opened HttpRequestText

  /** The bytes that may stand in a line: `char` is signed. */
  lemma IllegalBytes(b: Byte)
    ensures Illegal(b) <==> b >= 128 || (b < 30 && b != '\t' as int && b != '\n' as int && b != '\r' as int)
  {
  }

  /** A line and whether a carriage return stands in front of its newline. */
  datatype Line = Line(text: seq<Byte>, crlf: bool)

  /** It has no byte that ends or spoils it, and is shorter than the buffer. */
  ghost predicate Sendable(l: Line) {
    && (forall k :: 0 <= k < |l.text| ==> l.text[k] < 128)
    && (forall k :: 0 <= k < |l.text| ==> l.text[k] >= 30 || l.text[k] == '\t' as int || l.text[k] == '\r' as int)
    && |l.text| + (if l.crlf then 1 else 0) < 4096
    && (!l.crlf && l.text != [] ==> l.text[|l.text| - 1] != '\r' as int)
  }

  ghost predicate AllSendable(lines: seq<Line>) {
    forall k :: 0 <= k < |lines| ==> Sendable(lines[k])
  }

  function OneWire(l: Line): seq<Byte> {
    l.text + if l.crlf then ['\r' as int, '\n' as int] else ['\n' as int]
  }

  /** The bytes of the lines. */
  function Wire(lines: seq<Line>): seq<Byte> {
    if lines == [] then [] else OneWire(lines[0]) + Wire(lines[1..])
  }

  function Texts(lines: seq<Line>): (t: seq<seq<Byte>>)
    ensures |t| == |lines| && forall k :: 0 <= k < |lines| ==> t[k] == lines[k].text
  {
    if lines == [] then [] else [lines[0].text] + Texts(lines[1..])
  }

  /** The line continues the header before it. */
  predicate Continues(line: seq<Byte>) {
    line != [] && (line[0] == ' ' as int || line[0] == '\t' as int)
  }

  /** Where the headers begin and where the last one ends. */
  ghost predicate Cuts(lines: seq<seq<Byte>>, cuts: seq<nat>) {
    && cuts != [] && cuts[0] == 0 && cuts[|cuts| - 1] == |lines|
    && (forall i, j :: 0 <= i < j < |cuts| ==> cuts[i] < cuts[j])
    && (forall i :: 0 <= i < |cuts| ==> cuts[i] <= |lines|)
    && (forall k: nat :: k < |lines| ==> (k in cuts <==> !Continues(lines[k])))
  }

  /** One header for each line that continues none: that line and its continuations, in order. */
  ghost predicate HeadersOf(lines: seq<seq<Byte>>, cuts: seq<nat>, headers: seq<seq<Byte>>) {
    && Cuts(lines, cuts) && |headers| + 1 == |cuts|
    && forall i :: 0 <= i < |headers| ==> headers[i] == Flatten(lines[cuts[i]..cuts[i + 1]])
  }

  function HeaderCount(lines: seq<seq<Byte>>): nat {
    if lines == [] then 0
    else HeaderCount(lines[..|lines| - 1]) + if Continues(lines[|lines| - 1]) then 0 else 1
  }

  // ---- One line ----

  lemma {:induction false} WireSnoc(lines: seq<Line>, l: Line)
    ensures Wire(lines + [l]) == Wire(lines) + OneWire(l)
  {
    var all := lines + [l];
    if lines == [] {
      assert all[1..] == [];
      hide OneWire;
    } else {
      hide OneWire;
      assert all[1..] == lines[1..] + [l];
      WireSnoc(lines[1..], l);
    }
  }

  lemma {:induction false} WireConcat(a: seq<Line>, b: seq<Line>)
    ensures Wire(a + b) == Wire(a) + Wire(b)
  {
    if a == [] {
      assert a + b == b;
    } else {
      hide OneWire;
      assert (a + b)[1..] == a[1..] + b;
      WireConcat(a[1..], b);
    }
  }

  /** A line fed to a reader that stands at the beginning of one. */
  lemma OneLine(env: Parsers, p: Progress, l: Line)
    requires !Decided(p) && p.partial == [] && Sendable(l)
    ensures Feed(env, p, OneWire(l)) == AfterLine(env, p.(read := p.read + |OneWire(l)|), l.text)
  {
    hide Feed, AfterLine, Clean, Chomped, OneWire, BeforeNewline, Sendable;
    var s := BeforeNewline(l);
    SentClean(l);
    assert p.partial + s == s;
    FeedLine(env, p, s, []);
    LineIsAll(env, p.(read := p.read + |s| + 1, partial := s), [], l.text);
    FeedNothing(env, AfterLine(env, p.(read := p.read + |s| + 1, partial := s), l.text));
  }

  function BeforeNewline(l: Line): seq<Byte> {
    if l.crlf then l.text + ['\r' as int] else l.text
  }

  lemma SentClean(l: Line)
    requires Sendable(l)
    ensures var s := BeforeNewline(l);
      && Clean(s) && |s| < HTTP_MAX_LINE && OneWire(l) == s + [LF] + [] && |OneWire(l)| == |s| + 1
      && Chomped(s) == l.text
  {
    var s := BeforeNewline(l);
    forall k | 0 <= k < |s| ensures s[k] != LF && !Illegal(s[k]) {
      IllegalBytes(s[k]);
      assert k < |l.text| ==> s[k] == l.text[k];
    }
    hide Illegal;
    assert l.crlf ==> s[..|s| - 1] == l.text;
  }

  lemma FeedNothing(env: Parsers, p: Progress)
    ensures Feed(env, p, []) == p
  {
  }

  /** A line that fills the buffer before it ends is refused at that byte. */
  lemma LongLine(env: Parsers, p: Progress, s: seq<Byte>, rest: seq<Byte>)
    requires !Decided(p) && p.partial == [] && |s| == 4096
    requires forall k :: 0 <= k < |s| ==> 30 <= s[k] < 128
    ensures Feed(env, p, s + rest) == Rejected(p.read + 4096, BadRequest)
  {
    assert Clean(s) by {
      forall k | 0 <= k < |s| ensures s[k] != LF && !Illegal(s[k]) {
        IllegalBytes(s[k]);
      }
    }
    hide Feed, Clean;
    FeedConcat(env, p, s, rest);
    FeedClean(env, p, s);
    FeedDecided(env, Rejected(p.read + 4096, BadRequest), rest);
  }

  // ---- The header lines ----

  /** A reader of headers. */
  function Reader(first: FirstLine, read: nat, headers: seq<seq<Byte>>): Progress {
    ReadingHeaders(read, [], first, headers)
  }

  lemma {:induction false} FlattenSnoc(s: seq<seq<Byte>>, x: seq<Byte>)
    ensures Flatten(s + [x]) == Flatten(s) + x
  {
    if s == [] {
      assert (s + [x])[1..] == [];
    } else {
      assert (s + [x])[1..] == s[1..] + [x];
      FlattenSnoc(s[1..], x);
    }
  }

  lemma CutsContinue(lines: seq<seq<Byte>>, cuts: seq<nat>, headers: seq<seq<Byte>>, line: seq<Byte>)
    requires HeadersOf(lines, cuts, headers) && headers != [] && Continues(line)
    ensures var n := |headers| - 1;
      HeadersOf(lines + [line], cuts[|cuts| - 1 := |lines| + 1], headers[n := headers[n] + line])
  {
    var n, all := |headers| - 1, lines + [line];
    var cuts', headers' := cuts[|cuts| - 1 := |lines| + 1], headers[n := headers[n] + line];
    hide Continues;
    assert all[cuts[n]..|lines| + 1] == lines[cuts[n]..cuts[n + 1]] + [line];
    FlattenSnoc(lines[cuts[n]..cuts[n + 1]], line);
    forall i | 0 <= i < n ensures all[cuts'[i]..cuts'[i + 1]] == lines[cuts[i]..cuts[i + 1]] {
    }
    hide Flatten;
    assert Cuts(all, cuts') by {
      forall k: nat | k < |all| ensures k in cuts' <==> !Continues(all[k]) {
        MovedEnd(cuts, |lines|, k);
      }
    }
  }

  /** The last cut moves on by one. */
  lemma MovedEnd(cuts: seq<nat>, m: nat, k: nat)
    requires cuts != [] && cuts[|cuts| - 1] == m && k <= m
    requires forall i, j :: 0 <= i < j < |cuts| ==> cuts[i] < cuts[j]
    ensures k in cuts[|cuts| - 1 := m + 1] <==> k < m && k in cuts
  {
    var moved := cuts[|cuts| - 1 := m + 1];
    if k < m && k in cuts {
      var i :| 0 <= i < |cuts| && cuts[i] == k;
      assert moved[i] == k;
    }
    if k in moved {
      var i :| 0 <= i < |moved| && moved[i] == k;
      assert cuts[i] == k;
    }
  }

  lemma CutsStart(lines: seq<seq<Byte>>, cuts: seq<nat>, headers: seq<seq<Byte>>, line: seq<Byte>)
    requires HeadersOf(lines, cuts, headers) && !Continues(line)
    ensures HeadersOf(lines + [line], cuts + [|lines| + 1], headers + [line])
  {
    var all, cuts', headers' := lines + [line], cuts + [|lines| + 1], headers + [line];
    hide Continues;
    assert all[|lines|..|lines| + 1] == [] + [line];
    FlattenSnoc([], line);
    forall i | 0 <= i < |headers| ensures all[cuts'[i]..cuts'[i + 1]] == lines[cuts[i]..cuts[i + 1]] {
    }
    hide Flatten;
    assert forall k: nat :: k < |all| ==> (k in cuts' <==> k in cuts);
    assert cuts[|cuts| - 1] in cuts;
  }

  lemma NoHeaders()
    ensures HeadersOf([], [0], [])
  {
  }

  /** What a header line makes of a reader. */
  lemma OneHeaderLine(env: Parsers, first: FirstLine, read: nat, headers: seq<seq<Byte>>, l: Line)
    requires Sendable(l) && l.text != []
    ensures var now, p := read + |OneWire(l)|, Feed(env, Reader(first, read, headers), OneWire(l));
      var n := |headers| - 1;
      p == if Continues(l.text) then
             if headers == [] then Rejected(now, BadRequest)
             else Reader(first, now, headers[n := headers[n] + l.text])
           else if |headers| > 256 then Rejected(now, BadRequest)
           else Reader(first, now, headers + [l.text])
  {
    hide Sendable, OneWire, Feed;
    OneLine(env, Reader(first, read, headers), l);
  }

  lemma TextsSnoc(lines: seq<Line>)
    requires lines != []
    ensures var front, last := lines[..|lines| - 1], lines[|lines| - 1];
      && lines == front + [last] && Texts(lines) == Texts(front) + [last.text]
      && Texts(lines)[..|lines| - 1] == Texts(front)
      && HeaderCount(Texts(lines)) == HeaderCount(Texts(front)) + (if Continues(last.text) then 0 else 1)
      && Wire(lines) == Wire(front) + OneWire(last)
  {
    var front, last := lines[..|lines| - 1], lines[|lines| - 1];
    assert lines == front + [last];
    assert Texts(lines) == Texts(front) + [last.text];
    assert Texts(lines)[..|lines| - 1] == Texts(front);
    WireSnoc(front, last);
    hide Wire, OneWire, Continues;
  }

  ghost predicate HeaderLines(lines: seq<Line>) {
    AllSendable(lines) && (forall k :: 0 <= k < |lines| ==> lines[k].text != [])
  }

  ghost predicate StartsWell(lines: seq<Line>) {
    lines != [] ==> !Continues(lines[0].text)
  }

  lemma LinesFront(lines: seq<Line>)
    requires HeaderLines(lines) && StartsWell(lines) && lines != []
    ensures var front, last := lines[..|lines| - 1], lines[|lines| - 1];
      HeaderLines(front) && StartsWell(front) && Sendable(last) && last.text != []
      && (front == [] ==> !Continues(last.text))
  {
    hide Sendable, Continues;
  }

  /** Up to 257 headers are gathered line by line. */
  lemma {:induction false} HeadersGathered(env: Parsers, first: FirstLine, read: nat, lines: seq<Line>)
    returns (cuts: seq<nat>, headers: seq<seq<Byte>>)
    requires HeaderLines(lines) && StartsWell(lines) && HeaderCount(Texts(lines)) <= 257
    ensures HeadersOf(Texts(lines), cuts, headers) && |headers| == HeaderCount(Texts(lines))
    ensures lines != [] ==> headers != []
    ensures Feed(env, Reader(first, read, []), Wire(lines)) == Reader(first, read + |Wire(lines)|, headers)
    decreases |lines|
  {
    hide *;
    if lines == [] {
      NoHeaders();
      NoLines();
      FeedNothing(env, Reader(first, read, []));
      cuts, headers := [0], [];
    } else {
      var front, last := lines[..|lines| - 1], lines[|lines| - 1];
      LinesFront(lines);
      TextsSnoc(lines);
      cuts, headers := HeadersGathered(env, first, read, front);
      FeedConcat(env, Reader(first, read, []), Wire(front), OneWire(last));
      OneHeaderLine(env, first, read + |Wire(front)|, headers, last);
      if Continues(last.text) {
        CutsContinue(Texts(front), cuts, headers, last.text);
        CutsLength(Texts(front), cuts, headers);
        cuts, headers := cuts[|cuts| - 1 := |front| + 1], headers[|headers| - 1 := headers[|headers| - 1] + last.text];
      } else {
        CutsStart(Texts(front), cuts, headers, last.text);
        cuts, headers := cuts + [|front| + 1], headers + [last.text];
      }
    }
  }

  lemma CutsLength(lines: seq<seq<Byte>>, cuts: seq<nat>, headers: seq<seq<Byte>>)
    requires HeadersOf(lines, cuts, headers)
    ensures |cuts| == |headers| + 1
  {
  }

  lemma NoLines()
    ensures Texts([]) == [] && Wire([]) == [] && HeaderCount([]) == 0
  {
  }

  /** The headers one after the other are the lines one after the other. */
  lemma HeadersAreLines(lines: seq<seq<Byte>>, cuts: seq<nat>, headers: seq<seq<Byte>>)
    requires HeadersOf(lines, cuts, headers)
    ensures Flatten(headers) == Flatten(lines)
  {
    HeadersUpTo(lines, cuts, headers, |headers|);
    assert headers[..|headers|] == headers && lines[..|lines|] == lines;
  }

  lemma {:induction false} HeadersUpTo(lines: seq<seq<Byte>>, cuts: seq<nat>, headers: seq<seq<Byte>>, i: nat)
    requires HeadersOf(lines, cuts, headers) && i <= |headers|
    ensures cuts[i] <= |lines| && Flatten(headers[..i]) == Flatten(lines[..cuts[i]])
    decreases i
  {
    hide Continues;
    if i == 0 {
      assert headers[..0] == [] && lines[..cuts[0]] == [];
    } else {
      HeadersUpTo(lines, cuts, headers, i - 1);
      assert headers[..i] == headers[..i - 1] + [headers[i - 1]];
      assert lines[..cuts[i]] == lines[..cuts[i - 1]] + lines[cuts[i - 1]..cuts[i]];
      hide Cuts;
      FlattenSnoc(headers[..i - 1], headers[i - 1]);
      FlattenConcat(lines[..cuts[i - 1]], lines[cuts[i - 1]..cuts[i]]);
    }
  }

  lemma {:induction false} FlattenConcat(a: seq<seq<Byte>>, b: seq<seq<Byte>>)
    ensures Flatten(a + b) == Flatten(a) + Flatten(b)
  {
    if a == [] {
      assert a + b == b;
    } else {
      assert (a + b)[1..] == a[1..] + b;
      FlattenConcat(a[1..], b);
    }
  }

  // ---- The whole request ----

  /** Line `k` begins a header when 257 are stored already. */
  predicate OneTooMany(lines: seq<Line>, k: nat) {
    k < |lines| && HeaderCount(Texts(lines[..k])) == 257 && !Continues(lines[k].text)
  }

  lemma LinesUpTo(lines: seq<Line>, k: nat)
    requires HeaderLines(lines) && StartsWell(lines) && k < |lines|
    ensures HeaderLines(lines[..k]) && StartsWell(lines[..k]) && Sendable(lines[k]) && lines[k].text != []
  {
    hide Sendable, Continues;
  }

  lemma WireAt(lines: seq<Line>, k: nat)
    requires k < |lines|
    ensures Wire(lines) == Wire(lines[..k]) + (OneWire(lines[k]) + Wire(lines[k + 1..]))
    ensures |Wire(lines[..k + 1])| == |Wire(lines[..k])| + |OneWire(lines[k])|
  {
    var rest := lines[k..];
    assert rest[0] == lines[k] && rest[1..] == lines[k + 1..];
    assert Wire(rest) == OneWire(lines[k]) + Wire(lines[k + 1..]);
    hide Wire, OneWire;
    assert lines == lines[..k] + rest;
    WireConcat(lines[..k], rest);
    assert lines[..k + 1] == lines[..k] + [lines[k]];
    WireSnoc(lines[..k], lines[k]);
  }

  lemma FeedThree(env: Parsers, p: Progress, a: seq<Byte>, b: seq<Byte>, c: seq<Byte>)
    ensures Feed(env, p, a + (b + c)) == Feed(env, Feed(env, Feed(env, p, a), b), c)
  {
    FeedConcat(env, p, a, b + c);
    FeedConcat(env, Feed(env, p, a), b, c);
  }

  lemma TooManyHeaders(env: Parsers, first: FirstLine, read: nat, lines: seq<Line>, k: nat)
    requires HeaderLines(lines) && StartsWell(lines) && OneTooMany(lines, k)
    ensures Feed(env, Reader(first, read, []), Wire(lines)) == Rejected(read + |Wire(lines[..k + 1])|, BadRequest)
  {
    hide HeaderLines, StartsWell, HeaderCount, Texts, Continues;
    FrontAndOne(env, first, read, lines[..k], lines, k);
  }

  lemma FrontAndOne(env: Parsers, first: FirstLine, read: nat, front: seq<Line>, lines: seq<Line>, k: nat)
    requires k < |lines| && front == lines[..k] && HeaderLines(lines) && StartsWell(lines)
    requires HeaderCount(Texts(front)) == 257 && !Continues(lines[k].text)
    ensures Feed(env, Reader(first, read, []), Wire(lines)) == Rejected(read + |Wire(lines[..k + 1])|, BadRequest)
  {
    hide *;
    LinesUpTo(lines, k);
    WireAt(lines, k);
    var headers := Exactly257(env, first, read, front);
    FeedThree(env, Reader(first, read, []), Wire(front), OneWire(lines[k]), Wire(lines[k + 1..]));
    OneMore(env, first, read + |Wire(front)|, headers, lines[k], Wire(lines[k + 1..]));
  }

  lemma Exactly257(env: Parsers, first: FirstLine, read: nat, lines: seq<Line>) returns (headers: seq<seq<Byte>>)
    requires HeaderLines(lines) && StartsWell(lines) && HeaderCount(Texts(lines)) == 257
    ensures |headers| == 257
    ensures Feed(env, Reader(first, read, []), Wire(lines)) == Reader(first, read + |Wire(lines)|, headers)
  {
    hide *;
    var cuts;
    cuts, headers := HeadersGathered(env, first, read, lines);
  }

  lemma OneMore(env: Parsers, first: FirstLine, read: nat, headers: seq<seq<Byte>>, line: Line, rest: seq<Byte>)
    requires |headers| == 257 && Sendable(line) && line.text != [] && !Continues(line.text)
    ensures Feed(env, Feed(env, Reader(first, read, headers), OneWire(line)), rest) == Rejected(read + |OneWire(line)|, BadRequest)
  {
    hide *;
    OneHeaderLine(env, first, read, headers, line);
    StaysRejected(env, read + |OneWire(line)|, BadRequest, rest);
  }

  lemma StaysRejected(env: Parsers, at: nat, failure: Failure, s: seq<Byte>)
    ensures Feed(env, Rejected(at, failure), s) == Rejected(at, failure)
  {
    FeedDecided(env, Rejected(at, failure), s);
  }

  /** Beyond 257 headers there is such a line. */
  lemma {:induction false} SomeTooMany(lines: seq<Line>) returns (k: nat)
    requires HeaderCount(Texts(lines)) > 257
    ensures OneTooMany(lines, k)
    decreases |lines|
  {
    hide Continues;
    NoLines();
    k := 0;
    if lines != [] {
      var front := lines[..|lines| - 1];
      TextsSnoc(lines);
      if HeaderCount(Texts(front)) > 257 {
        k := SomeTooMany(front);
        assert lines[..k] == front[..k];
      } else {
        k := |lines| - 1;
      }
    }
  }

  lemma ContinuationFirst(env: Parsers, first: FirstLine, read: nat, lines: seq<Line>)
    requires HeaderLines(lines) && lines != [] && Continues(lines[0].text)
    ensures Feed(env, Reader(first, read, []), Wire(lines)) == Rejected(read + |OneWire(lines[0])|, BadRequest)
  {
    assert Sendable(lines[0]) && lines[0].text != [] && Wire(lines) == OneWire(lines[0]) + Wire(lines[1..]);
    hide *;
    FeedConcat(env, Reader(first, read, []), OneWire(lines[0]), Wire(lines[1..]));
    OneHeaderLine(env, first, read, [], lines[0]);
    StaysRejected(env, read + |OneWire(lines[0])|, BadRequest, Wire(lines[1..]));
  }

  /** What the blank line decides. */
  function Verdict(env: Parsers, first: FirstLine, headers: seq<seq<Byte>>, at: nat): Progress {
    match env.contentLength(headers)
    case None => Rejected(at, BadRequest)
    case Some(length) =>
      if length > 0 || !first.needsLength then EndOfHeaders(at, first, headers) else Rejected(at, LengthRequired)
  }

  lemma BlankLine(env: Parsers, first: FirstLine, read: nat, headers: seq<seq<Byte>>, blank: Line)
    requires Sendable(blank) && blank.text == []
    ensures Feed(env, Reader(first, read, headers), OneWire(blank)) == Verdict(env, first, headers, read + |OneWire(blank)|)
  {
    hide Sendable, OneWire, Feed;
    OneLine(env, Reader(first, read, headers), blank);
  }

  lemma FirstLineOf(env: Parsers, firstLine: Line)
    requires Sendable(firstLine)
    ensures Feed(env, START, OneWire(firstLine)) ==
      match env.parseFirst(firstLine.text)
      case None => Rejected(|OneWire(firstLine)|, NotImplemented)
      case Some(first) => Reader(first, |OneWire(firstLine)|, [])
  {
    hide Sendable, OneWire, Feed;
    OneLine(env, START, firstLine);
  }

  function Request(firstLine: Line, lines: seq<Line>, blank: Line): seq<Line> {
    [firstLine] + lines + [blank]
  }

  lemma RequestWire(firstLine: Line, lines: seq<Line>, blank: Line)
    ensures Wire(Request(firstLine, lines, blank)) == OneWire(firstLine) + (Wire(lines) + OneWire(blank))
  {
    WireSnoc([firstLine] + lines, blank);
    WireConcat([firstLine], lines);
    assert [firstLine][1..] == [];
    hide OneWire;
    Regroup(OneWire(firstLine), Wire(lines), OneWire(blank));
  }

  /** What a complete request comes to, whatever reads its lines arrive in and however they end: with
      a first line that is not parsed, Not Implemented; with a continuation in front of all headers or
      with more than 257 headers, Bad Request, at that line; and else its headers, each a line with
      its continuations, decide with the length they give. */
  lemma RequestIsRead(env: Parsers, chunks: seq<seq<Byte>>, firstLine: Line, lines: seq<Line>, blank: Line, p: Progress)
    requires Sendable(firstLine) && HeaderLines(lines) && Sendable(blank) && blank.text == []
    requires Flatten(chunks) == Wire(Request(firstLine, lines, blank)) && p == FeedReads(env, START, chunks)
    ensures match env.parseFirst(firstLine.text)
      case None => p == Rejected(|OneWire(firstLine)|, NotImplemented)
      case Some(first) =>
        if !StartsWell(lines) then p == Rejected(|OneWire(firstLine)| + |OneWire(lines[0])|, BadRequest)
        else if HeaderCount(Texts(lines)) > 257 then
          exists k :: OneTooMany(lines, k) && p == Rejected(|OneWire(firstLine)| + |Wire(lines[..k + 1])|, BadRequest)
        else
          exists cuts, headers :: HeadersOf(Texts(lines), cuts, headers)
            && p == Verdict(env, first, headers, |Flatten(chunks)|)
  {
    hide Sendable, HeaderLines, OneWire, Wire, Feed, FeedReads, Flatten, HeadersOf, OneTooMany, Verdict, HeaderCount, Texts;
    ReadsAreOneStream(env, START, chunks);
    RequestWire(firstLine, lines, blank);
    FeedConcat(env, START, OneWire(firstLine), Wire(lines) + OneWire(blank));
    FirstLineOf(env, firstLine);
    var read := |OneWire(firstLine)|;
    match env.parseFirst(firstLine.text)
    case None =>
      StaysRejected(env, read, NotImplemented, Wire(lines) + OneWire(blank));
    case Some(first) =>
      FeedConcat(env, Reader(first, read, []), Wire(lines), OneWire(blank));
      if !StartsWell(lines) {
        ContinuationFirst(env, first, read, lines);
        StaysRejected(env, read + |OneWire(lines[0])|, BadRequest, OneWire(blank));
      } else if HeaderCount(Texts(lines)) > 257 {
        var k := SomeTooMany(lines);
        InRange(lines, k);
        TooManyHeaders(env, first, read, lines, k);
        StaysRejected(env, read + |Wire(lines[..k + 1])|, BadRequest, OneWire(blank));
      } else {
        var cuts, headers := HeadersGathered(env, first, read, lines);
        BlankLine(env, first, read + |Wire(lines)|, headers, blank);
      }
  }

  lemma InRange(lines: seq<Line>, k: nat)
    requires OneTooMany(lines, k)
    ensures k < |lines|
  {
  }
}
