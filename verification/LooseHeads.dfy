/**
 Two heads on which the reader's text tests (src/proxy.rs:307-362) and the parser
 (src/proxy.rs:158-167) disagree, and what that does to a forwarded response.
 */
module LooseHeads {
  import opened ByteText
  import opened Framing
  import opened Headers
  import opened Http
  import opened Messages
  import opened Transport
  import opened Utf8
  import opened Wrappers

  import Chunked
  import Forwarding
  import Fragmentation
  import Reader
  import RoundTrip

  /** A status line. */
  predicate Starts(start: Bytes, status: nat) {
    && OneLine(start) && Ascii("HTTP/") <= Decode(start)
    && StatusOfLine(Decode(start)) == Some(status) && ValidStatus(status)
  }

  /** A head with one header line. */
  function OneHeader(start: Bytes, line: Bytes): Bytes {
    start + CRLF + (line + CRLF + CRLF)
  }

  lemma {:induction false} OneHeaderText(start: Bytes, line: Bytes, body: Bytes)
    ensures OneHeader(start, line) + body == start + CRLF + (line + CRLF + (CRLF + body))
    ensures |OneHeader(start, line)| == |start| + |line| + 6
  {
    hide *;
    Regroup(line + CRLF, CRLF, body);
    Regroup(start + CRLF, line + CRLF + CRLF, body);
    OneHeaderIs(start, line);
  }

  lemma {:induction false} OneHeaderIs(start: Bytes, line: Bytes)
    ensures OneHeader(start, line) == start + CRLF + (line + CRLF + CRLF)
    ensures |CRLF| == 2
  {
  }

  lemma {:induction false} OneHeaderEnds(start: Bytes, line: Bytes, body: Bytes)
    requires OneLine(start) && OneLine(line)
    ensures var s := OneHeader(start, line) + body;
            FindBlank(s).Some? && Head(s) == OneHeader(start, line) && Rest(s) == body
  {
    hide FindBlank, OneHeader;
    var s, rest := OneHeader(start, line) + body, line + CRLF + (CRLF + body);
    OneHeaderText(start, line, body);
    BlankBehindLine(line, CRLF + body);
    assert rest[0] == line[0] && !(CRLF <= rest);
    BlankBehindLine(start, rest);
  }

  lemma {:induction false} OneHeaderLines(start: Bytes, line: Bytes, body: Bytes)
    requires OneLine(start) && OneLine(line)
    ensures TextLines(OneHeader(start, line) + body)
            == [Decode(start)] + ([Decode(line)] + ([[]] + TextLines(body)))
  {
    hide OneHeader, TextLines, Decode;
    OneHeaderText(start, line, body);
    TextLinesStep(start, line + CRLF + (CRLF + body));
    TextLinesStep(line, CRLF + body);
    assert CRLF + body == [] + CRLF + body;
    TextLinesStep([], body);
    DecodeAscii([]);
  }

  // ── A length that only the parser sees ───────────────────────

  predicate UnseenLength(line: Bytes, n: nat) {
    && OneLine(line) && Forwarding.Accepted(Decode(line)) && Forwarding.HasColon(Decode(line))
    && !IsLengthLine(Decode(line)) && !IsChunkedLine(Decode(line))
    && var f := Forwarding.LineField(Decode(line));
       f.name == CONTENT_LENGTH && RoundTrip.LengthValue(f.value) == Some(n)
  }

  function UnseenResponse(status: nat, line: Bytes, body: Bytes): Response {
    Response(status, [Entry(CONTENT_LENGTH, [Forwarding.LineField(Decode(line)).value])], Full(body))
  }

  lemma {:induction false} OneHeaderIsParsed(start: Bytes, status: nat, line: Bytes, body: Bytes)
    requires Starts(start, status) && OneLine(line)
    requires Forwarding.Accepted(Decode(line)) && Forwarding.HasColon(Decode(line))
    ensures var f := Forwarding.LineField(Decode(line));
            ParsedResponse(OneHeader(start, line) + body)
            == Ok(Response(status, [Entry(f.name, [f.value])], Full(body)))
  {
    hide Tokens, ParseNumber, TextLines, Decode, Ascii, FindBlank, IsToken, ValidValue, Trim, Lower, Rest, Head,
         OneHeader, HeadersOf, Forwarding.Accepted, Forwarding.LineField, Forwarding.HasColon;
    OneHeaderEnds(start, line, body);
    OneHeaderLines(start, line, body);
    var lines := TextLines(OneHeader(start, line) + body);
    assert lines[1..] == [Decode(line)] + ([[]] + TextLines(body));
    assert Decode(line) != [] by {
      LineIsNotEmpty(line);
    }
    OneHeaderMap(Decode(line), TextLines(body));
  }

  lemma {:induction false} LineIsNotEmpty(line: Bytes)
    requires OneLine(line)
    ensures Decode(line) != []
  {
  }

  lemma {:induction false} OneHeaderMap(line: Text, more: seq<Text>)
    requires line != [] && Forwarding.Accepted(line) && Forwarding.HasColon(line)
    ensures var f := Forwarding.LineField(line);
            HeadersOf([line] + ([[]] + more), []) == Some([Entry(f.name, [f.value])])
  {
    hide IsToken, ValidValue, Trim, Lower, Ascii, Encode;
    var lines, rest := [line] + ([[]] + more), [[]] + more;
    assert lines[1..] == rest && rest[0] == [];
    var f := Forwarding.LineField(line);
    assert Append([], f.name, f.value) == [Entry(f.name, [f.value])];
  }

  lemma {:induction false} NoLengthBefore(line: Text, more: seq<Text>)
    requires !IsLengthLine(line)
    ensures LengthInLines([line] + more) == LengthInLines(more)
  {
    hide IsLengthLine;
    assert ([line] + more)[1..] == more;
  }

  lemma {:induction false} UnseenIsReadToClose(start: Bytes, status: nat, line: Bytes, n: nat, body: Bytes)
    requires Starts(start, status) && !Bodiless(status) && UnseenLength(line, n)
    ensures !Fragmentation.Dechunks(OneHeader(start, line)) && !IsBareRequest(OneHeader(start, line))
    ensures BodyOf(OneHeader(start, line), body, [], Closed) == Ok(body)
  {
    hide TextLines, Decode, Ascii, StatusOfLine, IsChunkedLine, IsLengthLine, OneHeader, LengthInLines;
    var head, first, text := OneHeader(start, line), Decode(start), Decode(line);
    OneHeaderLines(start, line, []);
    RoundTrip.OtherLines(first);
    NoTextLines();
    assert head + [] == head;
    assert TextLines(head) == [first] + ([text] + [[]]);
    RoundTrip.ChunkedAmong(first, [text]);
    assert !IsChunked(head);
    NoLengthBefore(first, [text] + [[]]);
    NoLengthBefore(text, [[]]);
    RoundTrip.NoLengthInBlank();
  }

  /** The reader takes the body to the end of the stream, the parser stores the length, and
      the client is cut off there, although nothing was de-chunked. */
  lemma {:induction false} UnseenLengthCutsBody(
      rules: HttpRules, start: Bytes, status: nat, line: Bytes, n: nat, body: Bytes,
      upstream: seq<Bytes>, bufSize: nat, downstream: seq<Bytes>, bufSize2: nat)
    requires rules.Lawful() && Starts(start, status) && !Bodiless(status) && UnseenLength(line, n) && n < |body|
    requires Fragmentation.Delivers(upstream, OneHeader(start, line) + body) && bufSize > 0
    requires Fragmentation.Delivers(downstream, ResponseBytes(rules, UnseenResponse(status, line, body)))
    requires bufSize2 > 0
    ensures Reader.ReadOutcome(upstream, bufSize, Closed) == Ok(OneHeader(start, line) + body)
    ensures !Fragmentation.Dechunks(OneHeader(start, line))
    ensures ParsedResponse(OneHeader(start, line) + body) == Ok(UnseenResponse(status, line, body))
    ensures Reader.ReadOutcome(downstream, bufSize2, Closed)
            == Ok(ResponseHead(rules, UnseenResponse(status, line, body)) + body[..n])
  {
    hide FindBlank, ParsedResponse, BodyOf, OneHeader, RoundTrip.ChunkedHeaders, RoundTrip.LengthValue, IsBareRequest,
         ValidMap, Reader.ReadAhead, ResponseHead, ResponseBytes, IsToken, Lower, Trim, Ascii, IsChunkedLine,
         IsLengthLine, Fragmentation.Dechunks, Rest, Head;
    var s, res := OneHeader(start, line) + body, UnseenResponse(status, line, body);
    OneHeaderIsParsed(start, status, line, body);
    UnseenIsReadToClose(start, status, line, n, body);
    OneHeaderEnds(start, line, body);
    Fragmentation.OutcomeIsMessage(upstream, bufSize, Closed, s);
    ResponsePrintIsCanonical(rules, s);
    LengthIsNotChunked(Forwarding.LineField(Decode(line)).value);
    PrintedIsCut(rules, res, n, downstream, bufSize2);
  }

  lemma {:induction false} LengthIsNotChunked(value: Bytes)
    ensures !RoundTrip.ChunkedHeaders([Entry(CONTENT_LENGTH, [value])])
  {
    RoundTrip.Words();
    hide Contains, Lower, Ascii;
    var m := [Entry(CONTENT_LENGTH, [value])];
    assert m[1..] == [];
    var values := [value];
    assert values[1..] == [];
    assert FieldsOf(CONTENT_LENGTH, values) == [Field(CONTENT_LENGTH, value)];
    assert Fields(m) == [Field(CONTENT_LENGTH, value)];
  }

  lemma {:induction false} PrintedIsCut(rules: HttpRules, res: Response, n: nat, downstream: seq<Bytes>, bufSize: nat)
    requires rules.Lawful() && WellFormedResponse(res) && !Bodiless(res.status) && res.body.Full?
    requires !RoundTrip.ChunkedHeaders(res.headers) && RoundTrip.DeclaredLength(res.headers) == Some(n)
    requires n <= |res.body.bytes|
    requires Fragmentation.Delivers(downstream, ResponseBytes(rules, res)) && bufSize > 0
    ensures Reader.ReadOutcome(downstream, bufSize, Closed) == Ok(ResponseHead(rules, res) + res.body.bytes[..n])
  {
    hide FindBlank, StatusLine, IsNoBodyStatus, IsRequest, IsChunked, GetContentLength, RoundTrip.ChunkedHeaders,
         RoundTrip.DeclaredLength,
         ValidMap, Reader.ReadAhead, ValidField;
    StatusLineIsRead(rules, res.status);
    FieldsAreValid(res.headers);
    PrintedHeadEnds(StatusLine(rules, res.status), Fields(res.headers), res.body.bytes);
    RoundTrip.PrintedHeadTests(rules, res);
    Fragmentation.OutcomeIsMessage(downstream, bufSize, Closed, ResponseBytes(rules, res));
  }

  /** Every status line that the proxy prints is one. */
  lemma {:induction false} PrintedLineStarts(rules: HttpRules, status: nat)
    requires rules.Lawful() && ValidStatus(status)
    ensures Starts(StatusLine(rules, status), status)
  {
    hide StatusLine, Tokens, ParseNumber, Ascii;
    StatusLineIsRead(rules, status);
  }

  // ── A header that only the reader sees ───────────────────────

  /** A head with an empty line, ended by LF alone, in front of its one header line. */
  function EarlyBlank(start: Bytes, line: Bytes): Bytes {
    start + [LF] + ([LF] + (line + CRLF + CRLF))
  }

  lemma {:induction false} EarlyBlankEnds(start: Bytes, line: Bytes)
    requires OneLine(start) && OneLine(line)
    ensures FindBlank(EarlyBlank(start, line)) == Some(|EarlyBlank(start, line)| - 4)
  {
    hide FindBlank;
    var s, front := EarlyBlank(start, line), start + [LF] + ([LF] + line);
    assert s == front + (CRLF + CRLF);
    assert CR !in front;
    assert (CRLF + CRLF) == [CR, LF, CR, LF];
    assert forall j :: 0 <= j < |front| ==> s[j] == front[j];
    BlankIs(s, |front|);
  }

  lemma {:induction false} LineAtLf(line: Bytes, rest: Bytes)
    requires Inline(line)
    ensures TextLines(line + [LF] + rest) == [Decode(line)] + TextLines(rest)
  {
    hide Decode, Lines;
    var lf: Bytes := [LF];
    DecodeAroundAscii(line, lf, rest);
    DecodeKeepsAscii(line, LF);
    DecodeKeepsAscii(line, CR);
    CutAtLf(Decode(line), Decode(rest));
  }

  lemma {:induction false} CutAtLf(line: Text, rest: Text)
    requires Inline(line)
    ensures Lines(line + [LF] + rest) == [line] + Lines(rest)
  {
    var s, n := line + [LF] + rest, |line|;
    assert s[..n] == line && s[n + 1..] == rest;
    IndexOfIs(s, LF, n);
    Forwarding.LinesCut(s, n);
  }

  lemma {:induction false} EarlyBlankLines(start: Bytes, line: Bytes, body: Bytes)
    requires OneLine(start) && OneLine(line)
    ensures TextLines(EarlyBlank(start, line) + body)
            == [Decode(start)] + ([[]] + ([Decode(line)] + ([[]] + TextLines(body))))
  {
    hide TextLines, Decode;
    var rest := line + CRLF + (CRLF + body);
    assert EarlyBlank(start, line) + body == start + [LF] + ([] + [LF] + rest);
    LineAtLf(start, [] + [LF] + rest);
    LineAtLf([], rest);
    TextLinesStep(line, CRLF + body);
    assert CRLF + body == [] + CRLF + body;
    TextLinesStep([], body);
    DecodeAscii([]);
  }

  lemma {:induction false} EarlyBlankDechunks(start: Bytes, status: nat, line: Bytes)
    requires Starts(start, status) && !Bodiless(status) && OneLine(line) && IsChunkedLine(Decode(line))
    ensures Fragmentation.Dechunks(EarlyBlank(start, line))
  {
    hide TextLines, Decode, Ascii, StatusOfLine, IsChunkedLine, EarlyBlank;
    var head := EarlyBlank(start, line);
    EarlyBlankLines(start, line, []);
    assert head + [] == head;
    assert TextLines(head)[2] == Decode(line);
  }

  lemma {:induction false} EarlyBlankIsParsed(start: Bytes, status: nat, line: Bytes, body: Bytes)
    requires Starts(start, status) && OneLine(line)
    ensures ParsedResponse(EarlyBlank(start, line) + body) == Ok(Response(status, [], Full(body)))
  {
    hide Tokens, ParseNumber, TextLines, Decode, Ascii, FindBlank, EarlyBlank;
    var head := EarlyBlank(start, line);
    EarlyBlankEnds(start, line);
    HeadIsStable(head, body);
    assert [] + body == body;
    EarlyBlankLines(start, line, body);
    assert TextLines(head + body)[1..] == [[]] + ([Decode(line)] + ([[]] + TextLines(body)));
  }

  /** The reader de-chunks, the parser sees no header, and the client gets the response that
      the proxy had, although a body was de-chunked. */
  lemma {:induction false} EarlyBlankIsReadBack(
      rules: HttpRules, start: Bytes, status: nat, line: Bytes, chunks: seq<Chunked.Chunk>, size: Bytes,
      extensions: Bytes, trailer: Bytes, upstream: seq<Bytes>, bufSize: nat, downstream: seq<Bytes>, bufSize2: nat)
    requires rules.Lawful() && Starts(start, status) && !Bodiless(status)
    requires OneLine(line) && IsChunkedLine(Decode(line))
    requires (forall c :: c in chunks ==> Chunked.ValidChunk(c) && Chunked.Tight(c.extensions))
    requires Chunked.ValidLast(size, extensions) && Chunked.Tight(extensions) && bufSize > 0 && bufSize2 > 0
    requires Fragmentation.Delivers(upstream, EarlyBlank(start, line)
                                + (Chunked.EncodeChunks(chunks) + (size + extensions + CRLF + trailer)))
    requires Fragmentation.Delivers(downstream, ResponseBytes(rules, Response(status, [], Full(Chunked.Data(chunks)))))
    ensures Fragmentation.Dechunks(EarlyBlank(start, line))
    ensures Reader.ReadOutcome(upstream, bufSize, Closed) == Ok(EarlyBlank(start, line) + Chunked.Data(chunks))
    ensures ParsedResponse(EarlyBlank(start, line) + Chunked.Data(chunks))
            == Ok(Response(status, [], Full(Chunked.Data(chunks))))
    ensures var down := Reader.ReadOutcome(downstream, bufSize2, Closed);
            down.Ok? && ParsedResponse(down.value) == Ok(Response(status, [], Full(Chunked.Data(chunks))))
  {
    hide EarlyBlank, ParsedResponse, Reader.ReadOutcome, Fragmentation.Dechunks, Starts, ResponseBytes,
         Chunked.ValidChunk, Chunked.ValidLast, FindBlank;
    EarlyBlankEnds(start, line) by {
      StartIsOneLine(start, status);
    }
    EarlyBlankDechunks(start, status, line);
    Chunked.ChunkedMessageRead(upstream, bufSize, Closed, EarlyBlank(start, line), chunks, size, extensions, trailer);
    EarlyBlankIsParsed(start, status, line, Chunked.Data(chunks));
    Forwarding.NoHeaders();
    Forwarding.ForwardedResponseIsReadBack(rules, EarlyBlank(start, line) + Chunked.Data(chunks), downstream, bufSize2);
  }

  lemma {:induction false} StartIsOneLine(start: Bytes, status: nat)
    requires Starts(start, status)
    ensures OneLine(start)
  {
  }
}
