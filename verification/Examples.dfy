/**
 Concrete messages on which the promises of the message layer fail, each an instance of an
 exact condition proved elsewhere.
 */
module Examples {
  import opened ByteText
  import opened Framing
  import opened Headers
  import opened Http
  import opened LooseHeads
  import opened Messages
  import opened Reader
  import opened Transport
  import opened Utf8
  import opened Wrappers

  import Chunked
  import Forwarding
  import Fragmentation
  import RoundTrip

  lemma {:induction false} OneFragment(s: Bytes)
    requires s != []
    ensures Fragmentation.Delivers([s], s)
  {
    var one := [s];
    assert one[1..] == [];
    assert Concat(one) == s + Concat([]);
  }

  // ── A length that only the parser sees ───────────────────────

  predicate CutsBody(rules: HttpRules, line: Bytes, body: Bytes, received: Bytes) {
    var s, res := OneHeader(StatusLine(rules, 200), line) + body, UnseenResponse(200, line, body);
    && s != [] && ReadOutcome([s], |s|, Closed) == Ok(s) && !Fragmentation.Dechunks(Head(s))
    && ParsedResponse(s) == Ok(res)
    && var printed := ResponseBytes(rules, res);
       printed != [] && ReadOutcome([printed], |printed|, Closed) == Ok(ResponseHead(rules, res) + received)
  }

  lemma {:induction false} UnseenLengthCutsOnePiece(rules: HttpRules, line: Bytes, n: nat, body: Bytes)
    requires rules.Lawful() && UnseenLength(line, n) && n < |body|
    ensures CutsBody(rules, line, body, body[..n])
  {
    hide FindBlank, ParsedResponse, Fragmentation.Dechunks, StatusLine, ResponseBytes, UnseenLength, ReadOutcome,
         HttpRules.Lawful, UnseenResponse, OneHeader, Head, ResponseHead, Starts;
    assert ValidStatus(200);
    PrintedLineStarts(rules, 200);
    var start, res := StatusLine(rules, 200), UnseenResponse(200, line, body);
    StartIsOneLine(start, 200);
    UnseenIsOneLine(line, n);
    ResponseIsNotEmpty(rules, res);
    var s, printed := OneHeader(start, line) + body, ResponseBytes(rules, res);
    assert s != [];
    OneFragment(s);
    OneFragment(printed);
    OneHeaderEnds(start, line, body);
    UnseenLengthCutsBody(rules, start, 200, line, n, body, [s], |s|, [printed], |printed|);
  }

  lemma {:induction false} UnseenIsOneLine(line: Bytes, n: nat)
    requires UnseenLength(line, n)
    ensures OneLine(line)
  {
  }

  /** A blank before the colon is enough: of `hello`, behind `Content-Length : 3`, the client
      gets `hel`. */
  lemma {:induction false} BlankBeforeColon(rules: HttpRules)
    requires rules.Lawful()
    ensures CutsBody(rules, LooseLine(), Ascii("hello"), Ascii("hel"))
  {
    hide CutsBody, UnseenLength, LooseLine;
    BlankIsUnseen();
    assert Ascii("hello")[..3] == Ascii("hel");
    UnseenLengthCutsOnePiece(rules, LooseLine(), 3, Ascii("hello"));
  }

  lemma {:induction false} ResponseIsNotEmpty(rules: HttpRules, res: Response)
    ensures ResponseBytes(rules, res) != []
  {
  }

  function LooseLine(): Bytes {
    Ascii("Content-Length : 3")
  }

  lemma {:induction false} LooseLineIsNeither()
    ensures !IsLengthLine(LooseLine()) && !IsChunkedLine(LooseLine())
  {
    hide Contains;
    assert Lower(LooseLine())[14] == SP && Ascii("content-length:")[14] == COLON;
    assert Lower(LooseLine())[0] == 99 && Ascii("transfer-encoding:")[0] == 116;
  }

  lemma {:induction false} LooseLineParts()
    ensures OneLine(LooseLine()) && IsAscii(LooseLine()) && IndexOf(LooseLine(), COLON) == 15 && |LooseLine()| == 18
    ensures LooseLine()[..15] == Ascii("Content-Length") + [SP] && LooseLine()[16..] == [SP, 51]
  {
    hide IndexOf;
    var line := LooseLine();
    assert COLON !in line[..15] && line[15] == COLON;
    IndexOfIs(line, COLON, 15);
  }

  lemma {:induction false} LooseLineField()
    ensures Forwarding.Accepted(LooseLine()) && Forwarding.HasColon(LooseLine())
    ensures Forwarding.LineField(LooseLine()) == Field(CONTENT_LENGTH, [51])
  {
    hide LooseLine, Trim, IndexOf, Ascii, Lower, IsToken, ValidValue, Encode, OneLine;
    LooseLineParts();
    ThreeIsThree();
    TrailingSpaceGoes();
  }

  lemma {:induction false} BlankIsUnseen()
    ensures UnseenLength(LooseLine(), 3)
  {
    hide LooseLine, IsLengthLine, IsChunkedLine, RoundTrip.LengthValue, OneLine, Forwarding.Accepted,
         Forwarding.HasColon, Forwarding.LineField, Decode, IndexOf;
    LooseLineIsNeither();
    LooseLineParts();
    LooseLineField();
    ThreeIsThree();
    DecodeAscii(LooseLine());
  }

  lemma {:induction false} NameIsToken()
    ensures IsToken(Ascii("Content-Length")) && Lower(Ascii("Content-Length")) == CONTENT_LENGTH
  {
  }

  lemma {:induction false} TrailingSpaceGoes()
    ensures Trim(Ascii("Content-Length") + [SP]) == Ascii("Content-Length") && IsToken(Ascii("Content-Length"))
    ensures Encode(Lower(Ascii("Content-Length"))) == CONTENT_LENGTH
  {
    NameIsToken();
    hide Ascii, Lower, Trim, Encode, IsToken;
    var name := Ascii("Content-Length");
    TokenIsPlain(name);
    EncodeAscii(Lower(name));
    TrimIsTrimmed(name);
    assert (name + [SP])[..|name|] == name;
    Forwarding.TrimDropsLast(name + [SP]);
  }

  lemma {:induction false} ThreeIsThree()
    ensures Trim([SP, 51]) == [51] && Encode([51]) == [51] && ValidValue([51])
    ensures RoundTrip.LengthValue([51]) == Some(3)
  {
    hide Trim;
    var value: Bytes := [51];
    assert [SP] + value == [SP, 51];
    TrimLeadingSpace(value);
    TrimIsTrimmed(value);
    EncodeAscii(value);
    DecodeAscii(value);
    assert value[..0] == [];
    assert value[..1] == value;
    assert Before(value, COLON) == value;
  }

  // ── A header that only the reader sees ───────────────────────

  function ChunkedHeader(): Field {
    Field(TRANSFER_ENCODING, RoundTrip.CHUNKED)
  }

  lemma {:induction false} ChunkedWord()
    ensures |RoundTrip.CHUNKED| == 7 && Lower(RoundTrip.CHUNKED) == RoundTrip.CHUNKED && IsAscii(RoundTrip.CHUNKED)
    ensures Trimmed(RoundTrip.CHUNKED) && ValidValue(RoundTrip.CHUNKED)
  {
  }

  lemma {:induction false} TransferName()
    ensures ValidName(TRANSFER_ENCODING)
  {
  }

  lemma {:induction false} WordContainsItself(word: Text)
    ensures Contains(word, word)
  {
    assert word[0..|word|] == word;
    assert MatchesAt(word, word, 0);
  }

  lemma {:induction false} ChunkedHeaderIsValid()
    ensures ValidField(ChunkedHeader()) && RoundTrip.ChunkedField(ChunkedHeader()) && Clean(RoundTrip.CHUNKED)
  {
    ChunkedWord();
    TransferName();
    WordContainsItself(RoundTrip.CHUNKED);
    hide Ascii, Lower, Contains, IsAscii, ValidName, ValidValue, Trimmed, Decode, Encode;
    DecodeAscii(RoundTrip.CHUNKED);
    EncodeAscii(RoundTrip.CHUNKED);
  }

  lemma {:induction false} ChunkedLineIsSeen()
    ensures OneLine(FieldText(ChunkedHeader())) && IsChunkedLine(Decode(FieldText(ChunkedHeader())))
  {
    hide ChunkedHeader, FieldText, IsChunkedLine, RoundTrip.ChunkedField, ValidField, Clean;
    ChunkedHeaderIsValid();
    FieldTextIsOneLine(ChunkedHeader());
    FieldDecoded(ChunkedHeader());
    RoundTrip.ChunkedLineIff(ChunkedHeader());
  }

  function AbcChunk(): Chunked.Chunk {
    Chunked.Chunk(Ascii("3"), [], Ascii("abc"))
  }

  /** A chunk `abc` and the last chunk. */
  lemma {:induction false} SmallBody()
    ensures Chunked.ValidChunk(AbcChunk()) && Chunked.Tight(AbcChunk().extensions) && LF !in AbcChunk().data
    ensures Chunked.ValidLast(Ascii("0"), [])
  {
    var three, zero := Ascii("3"), Ascii("0");
    assert three[..0] == [] && zero[..0] == [];
    assert Chunked.HexDigits(three) && NumberValue(three, Hex) == 3;
    assert Chunked.HexDigits(zero) && NumberValue(zero, Hex) == 0;
  }

  predicate ComesThrough(rules: HttpRules, line: Bytes, encoded: Bytes, body: Bytes) {
    var head := EarlyBlank(StatusLine(rules, 200), line);
    var s, res := head + encoded, Response(200, [], Full(body));
    && Fragmentation.Dechunks(head) && s != [] && ReadOutcome([s], |s|, Closed) == Ok(head + body)
    && ParsedResponse(head + body) == Ok(res)
    && var printed := ResponseBytes(rules, res);
       printed != []
       && var down := ReadOutcome([printed], |printed|, Closed);
          down.Ok? && ParsedResponse(down.value) == Ok(res)
  }

  lemma {:induction false} EarlyBlankInOnePiece(rules: HttpRules, line: Bytes, c: Chunked.Chunk, last: Bytes)
    requires rules.Lawful() && OneLine(line) && IsChunkedLine(Decode(line))
    requires Chunked.ValidChunk(c) && Chunked.Tight(c.extensions) && Chunked.ValidLast(last, [])
    ensures ComesThrough(rules, line, Chunked.EncodeChunk(c) + (last + CRLF + CRLF), c.data)
  {
    hide FindBlank, ParsedResponse, Fragmentation.Dechunks, StatusLine, ResponseBytes, ReadOutcome, HttpRules.Lawful,
         OneLine, EarlyBlank, Starts, Chunked.ValidChunk, Chunked.ValidLast, Chunked.EncodeChunk, IsChunkedLine, Decode;
    var chunks, none: Bytes := [c], [];
    OneChunk(c);
    assert last + none == last;
    assert ValidStatus(200) && !Bodiless(200);
    PrintedLineStarts(rules, 200);
    var head, res := EarlyBlank(StatusLine(rules, 200), line), Response(200, [], Full(c.data));
    ResponseIsNotEmpty(rules, res);
    EarlyBlankIsNotEmpty(StatusLine(rules, 200), line);
    var s, printed := head + (Chunked.EncodeChunk(c) + (last + CRLF + CRLF)), ResponseBytes(rules, res);
    OneFragment(s);
    OneFragment(printed);
    EarlyBlankIsReadBack(rules, StatusLine(rules, 200), 200, line, chunks, last, none, CRLF, [s], |s|,
                         [printed], |printed|);
  }

  lemma {:induction false} EarlyBlankIsNotEmpty(start: Bytes, line: Bytes)
    ensures EarlyBlank(start, line) != []
  {
  }

  /** `transfer-encoding: chunked` behind an empty line, and the body `abc` in one chunk. */
  lemma {:induction false} EarlyBlankExample(rules: HttpRules)
    requires rules.Lawful()
    ensures var encoded := Chunked.EncodeChunk(AbcChunk()) + (Ascii("0") + CRLF + CRLF);
            ComesThrough(rules, FieldText(ChunkedHeader()), encoded, AbcChunk().data)
  {
    SmallBody();
    hide ComesThrough, OneLine, IsChunkedLine, Chunked.ValidChunk, Chunked.ValidLast, Chunked.EncodeChunk, FieldText,
         ChunkedHeader, Decode, Ascii;
    ChunkedLineIsSeen();
    EarlyBlankInOnePiece(rules, FieldText(ChunkedHeader()), AbcChunk(), Ascii("0"));
  }

  // ── A request without framing ────────────────────────────────

  /** `GET / HTTP/1.1`. */
  function GetLine(): Bytes {
    RequestLine(Request(Ascii("GET"), Ascii("/"), [], Full([])))
  }

  lemma {:induction false} SlashIsNoNumber()
    ensures Ascii("/") != []
    ensures ParseNumber(Ascii("/"), Decimals, U16_MAX).None? && IsToken(Ascii("GET")) && Ascii("GET")[0] == 71
  {
    assert Ascii("/")[0] == 47 && DigitValue(47) == 99;
  }

  lemma {:induction false} GetLineParts()
    ensures OneLine(GetLine()) && StatusOfLine(Decode(GetLine())).None?
    ensures GetLine() != [] && LF !in GetLine() && Decode(GetLine()) != [] && Decode(GetLine())[0] == 71
  {
    hide Tokens, ParseNumber, IsToken, Ascii, Decode, Encode, TargetRead;
    var req := Request(Ascii("GET"), Ascii("/"), [], Full([]));
    SlashIsNoNumber();
    LawfulRulesExist();
    RequestLineIsRead(PlainRules(), req);
    RequestLineDecoded(req);
    SlashHasNoSpace();
    SpacelessTarget(Ascii("/"));
  }

  lemma {:induction false} OtherStart(line: Text)
    requires line != [] && line[0] == 71
    ensures !(Ascii("HTTP/") <= line)
    ensures !IsChunkedLine(line) && !IsLengthLine(line) && !IsChunkedLine([]) && !IsLengthLine([])
  {
    hide Contains;
    assert Lower(line)[0] == 103 && Ascii("HTTP/")[0] == 72;
    assert Ascii("transfer-encoding:")[0] == 116 && Ascii("content-length:")[0] == 99;
  }

  lemma {:induction false} GetIsBare()
    ensures var head := GetLine() + CRLF + CRLF;
            IsBareRequest(head)
  {
    hide GetLine, OneLine, TextLines, Decode, StatusOfLine, IsChunkedLine, IsLengthLine, Ascii;
    GetLineParts();
    var line, head, text := GetLine(), GetLine() + CRLF + CRLF, Decode(GetLine());
    OtherStart(text);
    assert head == line + CRLF + ([] + CRLF + []);
    TextLinesStep(line, [] + CRLF + []);
    TextLinesStep([], []);
    DecodeAscii([]);
    NoTextLines();
    assert TextLines(head) == [text, []];
    assert LengthInLines([text, []]) == None by {
      assert [text, []][1..] == [[]];
      RoundTrip.NoLengthInBlank();
    }
  }

  /** A `GET` and one byte behind its blank line: the reader returns the byte or not, as the
      network has it. */
  lemma {:induction false} GetDepends(b: byte, ending: Ending)
    ensures var head := GetLine() + CRLF + CRLF;
            && ReadOutcome([head + [b]], |head| + 1, ending) == Ok(head + [b])
            && ReadOutcome([head, [b]], |head| + 1, ending) == Ok(head)
  {
    hide GetLine, OneLine, Decode, StatusOfLine, FindBlank, ReadOutcome, Ascii, IsBareRequest;
    GetLineParts();
    GetIsBare();
    var line, head := GetLine(), GetLine() + CRLF + CRLF;
    var s := head + [b];
    assert s == line + CRLF + (CRLF + [b]);
    BlankBehindLine(line, CRLF + [b]);
    assert Head(s) == head && Rest(s) == [b];
    Fragmentation.BareRequestDepends(s, ending);
  }

  // ── A body that is de-chunked ────────────────────────────────

  lemma {:induction false} ShortIsNoChunk(body: Bytes)
    requires LF !in body
    ensures Dechunk(body, Closed) == Ok([])
  {
    NoLineIsTruncated(body);
  }

  lemma {:induction false} OneChunk(c: Chunked.Chunk)
    ensures Chunked.Data([c]) == c.data && Chunked.EncodeChunks([c]) == Chunked.EncodeChunk(c)
  {
    var chunks := [c];
    assert chunks[1..] == [];
    assert Chunked.Data(chunks) == c.data + Chunked.Data([]);
    assert Chunked.EncodeChunks(chunks) == Chunked.EncodeChunk(c) + Chunked.EncodeChunks([]);
  }

  /** A head with the decoded body: read a second time, only the head is left. */
  predicate RereadIsEmpty(head: Bytes, encoded: Bytes, body: Bytes) {
    var s, m := head + encoded, head + body;
    && s != [] && ReadOutcome([s], |s|, Closed) == Ok(m)
    && m != [] && ReadOutcome([m], |m|, Closed) == Ok(head)
  }

  lemma {:induction false} SecondReading(head: Bytes, m: Bytes, body: Bytes)
    requires FindBlank(m).Some? && Head(m) == head && Rest(m) == body && Dechunk(body, Closed) == Ok([])
    requires Fragmentation.Dechunks(head) && m != []
    ensures ReadOutcome([m], |m|, Closed) == Ok(head)
  {
    hide FindBlank, Dechunk, IsNoBodyStatus, IsChunked, IsRequest, GetContentLength, Head, Rest, ReadAhead;
    OneFragment(m);
    Fragmentation.OutcomeIsMessage([m], |m|, Closed, m);
    assert head + [] == head;
  }

  predicate IsLost(rules: HttpRules, raw: Bytes, res: Response) {
    && ParsedResponse(raw) == Ok(res)
    && var printed := ResponseBytes(rules, res);
       printed != []
       && var down := ReadOutcome([printed], |printed|, Closed);
          !(down.Ok? && ParsedResponse(down.value) == Ok(res))
  }

  lemma {:induction false} LostByClient(rules: HttpRules, raw: Bytes, res: Response)
    requires rules.Lawful() && ParsedResponse(raw) == Ok(res) && res.body.Full? && !RoundTrip.BodyFits(res, Closed)
    ensures IsLost(rules, raw, res)
  {
    hide ParsedResponse, RoundTrip.BodyFits, HttpRules.Lawful, ResponseBytes, ReadOutcome;
    ResponseIsNotEmpty(rules, res);
    var printed := ResponseBytes(rules, res);
    OneFragment(printed);
    Forwarding.ForwardedResponseIsReadBack(rules, raw, [printed], |printed|);
  }

  /** One chunk behind a head that announces chunks. */
  lemma {:induction false} DechunkedIsLost(rules: HttpRules, res: Response, c: Chunked.Chunk, last: Bytes)
    requires rules.Lawful() && WellFormedResponse(res) && CleanMap(res.headers) && res.body == Full(c.data)
    requires !Bodiless(res.status) && RoundTrip.ChunkedHeaders(res.headers)
    requires Chunked.ValidChunk(c) && Chunked.Tight(c.extensions) && Chunked.ValidLast(last, []) && LF !in c.data
    ensures RereadIsEmpty(ResponseHead(rules, res), Chunked.EncodeChunk(c) + (last + CRLF + CRLF), c.data)
    ensures IsLost(rules, ResponseHead(rules, res) + c.data, res)
  {
    hide StatusLine, FindBlank, ReadOutcome, Chunked.ValidChunk, Chunked.ValidLast, Chunked.EncodeChunk, Dechunk,
         HeadText, IsNoBodyStatus, IsRequest, IsChunked, RoundTrip.ChunkedHeaders, CleanMap, ValidMap, HttpRules.Lawful,
         ParsedResponse, OneLine, ValidField, IsLost;
    var start, fields, head := StatusLine(rules, res.status), Fields(res.headers), ResponseHead(rules, res);
    StatusLineIsRead(rules, res.status);
    FieldsAreValid(res.headers);
    RoundTrip.PrintedHeadTests(rules, res);
    PrintedHeadEnds(start, fields, []);
    assert head + [] == head;
    HeadOfHead(head);
    ChunkIsNotEmpty(c);
    OneChunk(c);
    var none: Bytes := [];
    assert last + none == last;
    var s, m := head + (Chunked.EncodeChunk(c) + (last + CRLF + CRLF)), head + c.data;
    HeadHasBlank(head);
    OneFragment(s);
    Chunked.ChunkedMessageRead([s], |s|, Closed, head, [c], last, none, CRLF);
    PrintedHeadEnds(start, fields, c.data);
    ShortIsNoChunk(c.data);
    SecondReading(head, m, c.data);
    ResponseRoundTrip(rules, res);
    assert !RoundTrip.BodyFits(res, Closed);
    LostByClient(rules, m, res);
  }

  lemma {:induction false} ChunkIsNotEmpty(c: Chunked.Chunk)
    requires Chunked.ValidChunk(c)
    ensures c.data != []
  {
  }

  lemma {:induction false} HeadHasBlank(head: Bytes)
    requires FindBlank(head).Some? && Head(head) == head
    ensures FindBlank(head) == Some(|head| - 4) && head != []
  {
    hide FindBlank;
    assert |Head(head)| == FindBlank(head).value + 4;
  }

  lemma {:induction false} ChunkedMap()
    ensures var m := [Entry(TRANSFER_ENCODING, [RoundTrip.CHUNKED])];
            ValidMap(m) && CleanMap(m) && RoundTrip.ChunkedHeaders(m)
  {
    ChunkedHeaderIsValid();
    hide Ascii, ValidName, ValidValue, Clean, RoundTrip.ChunkedField;
    var m, values := [Entry(TRANSFER_ENCODING, [RoundTrip.CHUNKED])], [RoundTrip.CHUNKED];
    assert m[1..] == [] && values[1..] == [];
    assert FieldsOf(TRANSFER_ENCODING, values) == [ChunkedHeader()];
    assert Fields(m) == [ChunkedHeader()];
    assert Fields(m)[0] == ChunkedHeader();
  }

  /** `transfer-encoding: chunked` and one chunk `abc`: read again, the body is gone, and so
      it is for the client of the forwarded response. */
  lemma {:induction false} ChunkedExample(rules: HttpRules)
    requires rules.Lawful()
    ensures var res := Response(200, [Entry(TRANSFER_ENCODING, [RoundTrip.CHUNKED])], Full(AbcChunk().data));
            var encoded := Chunked.EncodeChunk(AbcChunk()) + (Ascii("0") + CRLF + CRLF);
            && RereadIsEmpty(ResponseHead(rules, res), encoded, AbcChunk().data)
            && IsLost(rules, ResponseHead(rules, res) + AbcChunk().data, res)
  {
    SmallBody();
    hide RereadIsEmpty, IsLost, Ascii, Chunked.ValidChunk, Chunked.ValidLast, Chunked.EncodeChunk, ValidMap, CleanMap,
         RoundTrip.ChunkedHeaders, HttpRules.Lawful, ResponseHead;
    ChunkedMap();
    DechunkedIsLost(rules, Response(200, [Entry(TRANSFER_ENCODING, [RoundTrip.CHUNKED])], Full(AbcChunk().data)),
                    AbcChunk(), Ascii("0"));
  }

  // ── Values beyond ASCII ──────────────────────────────────────

  /** A byte that starts no character does not come back. */
  lemma {:induction false} InvalidByteIsReplaced()
    ensures Cleaned([0xFF]) == [0xEF, 0xBF, 0xBD]
  {
    var bad: Bytes, text: Text := [0xFF], [REPLACEMENT];
    assert bad[1..] == [];
    assert Decode(bad) == [FirstRune(bad)] + Decode([]) == text;
    assert Trimmed(text) && EncodeRune(REPLACEMENT) == [0xEF, 0xBF, 0xBD];
    hide Decode, Encode, Trim, EncodeRune;
    TrimIsTrimmed(text);
    EncodeOne(REPLACEMENT);
  }

  /** Neither does a no-break space at the end of a value. */
  lemma {:induction false} NoBreakSpaceGoes()
    ensures Cleaned([120, 0xC2, 0xA0]) == [120]
  {
    var x: Bytes, space: Text, value: Bytes := [120], [0xA0], [120, 0xC2, 0xA0];
    assert EncodeRune(0xA0) == [0xC2, 0xA0] && IsSpace(0xA0) && IsAscii(x) && Trimmed(x);
    hide EncodeRune, Decode, Encode, Trim;
    EncodeOne(0xA0);
    DecodeEncoded(space);
    assert value == x + [0xC2, 0xA0];
    DecodeSplits(x, [0xC2, 0xA0]);
    DecodeAscii(x);
    EncodeAscii(x);
    assert (x + space)[..1] == x;
    Forwarding.TrimDropsLast(x + space);
    TrimIsTrimmed(x);
  }

  /** `chunked` with the Kelvin sign for its `k`. */
  function KelvinHeader(): Field {
    Field(TRANSFER_ENCODING, Ascii("chun") + EncodeRune(0x212A) + Ascii("ed"))
  }

  lemma {:induction false} KelvinText()
    ensures var sign: Text := [0x212A];
            Lower(Ascii("chun") + sign + Ascii("ed")) == RoundTrip.CHUNKED
    ensures IsAscii(Ascii("chun")) && IsAscii(Ascii("ed")) && |RoundTrip.CHUNKED| == 7
    ensures Ascii("chun") != [] && Ascii("ed") != []
  {
    assert |RoundTrip.CHUNKED| == 7;
  }

  /** The reader takes it for chunked. */
  lemma {:induction false} KelvinIsChunked()
    ensures RoundTrip.ChunkedField(KelvinHeader())
  {
    KelvinText();
    hide Ascii, Lower, Decode, Encode, EncodeRune;
    var front, sign, back := Ascii("chun"), EncodeRune(0x212A), Ascii("ed");
    DecodeSplits(front + sign, back);
    DecodeSplits(front, sign);
    DecodeAscii(front);
    DecodeAscii(back);
    var text: Text := [0x212A];
    assert Encode(text) == sign by {
      EncodeOne(0x212A);
    }
    DecodeEncoded(text);
    var value := Lower(Decode(KelvinHeader().value));
    WordContainsItself(value);
  }

  lemma {:induction false} EncodeOne(c: rune)
    ensures Encode([c]) == EncodeRune(c)
  {
    var one: Text := [c];
    assert one[1..] == [];
    assert Encode(one) == EncodeRune(c) + Encode([]);
  }
}
