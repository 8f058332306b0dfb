/**
 What the reader makes of a response, by what its status line and headers literally say
 (src/proxy.rs:272-362): for each way in which a body is delimited, what is returned and
 what is left in the stream, for every fragmentation.
 */
module HeadFacts {
  import opened ByteText
  import opened Framing
  import opened Headers
  import opened Http
  import opened Messages
  import opened Transport
  import opened Utf8
  import opened Wrappers

  import Chunked
  import Consumption
  import Fragmentation
  import Reader
  import RoundTrip

  // ── Headers and their lines ──────────────────────────────────

  lemma {:induction false} FieldOfValue(name: Bytes, values: seq<Bytes>)
    requires values != []
    ensures Field(name, values[0]) in FieldsOf(name, values)
    ensures forall f :: f in FieldsOf(name, values) ==> f.name == name
  {
    if |values| > 1 {
      FieldOfValue(name, values[1..]);
    }
  }

  /** A name has lines exactly when the map has it. */
  lemma {:induction false} LinesOfName(m: HeaderMap, name: Bytes)
    requires ValidMap(m)
    ensures GetAll(m, name) == [] ==> forall f :: f in Fields(m) ==> f.name != name
    ensures GetAll(m, name) != [] ==> Field(name, GetAll(m, name)[0]) in Fields(m)
  {
    hide ValidName, ValidValue, FieldsOf;
    if m != [] {
      assert ValidEntry(m[0]);
      FieldOfValue(m[0].name, m[0].values);
      assert ValidMap(m[1..]);
      LinesOfName(m[1..], name);
      assert m[0].name != name ==> GetAll(m, name) == GetAll(m[1..], name);
    }
  }

  lemma {:induction false} NotChunked(m: HeaderMap)
    requires ValidMap(m) && GetAll(m, TRANSFER_ENCODING) == []
    ensures !RoundTrip.ChunkedHeaders(m)
  {
    hide ValidMap, Fields, GetAll;
    LinesOfName(m, TRANSFER_ENCODING);
  }

  lemma {:induction false} ChunkedByName(m: HeaderMap)
    requires ValidMap(m) && GetAll(m, TRANSFER_ENCODING) != []
    requires GetAll(m, TRANSFER_ENCODING)[0] == Ascii("chunked")
    ensures RoundTrip.ChunkedHeaders(m)
  {
    ChunkedWord();
    hide ValidMap, Fields, GetAll, Ascii;
    LinesOfName(m, TRANSFER_ENCODING);
  }

  lemma {:induction false} ChunkedWord()
    ensures RoundTrip.ChunkedField(Field(TRANSFER_ENCODING, Ascii("chunked")))
  {
    var word := Ascii("chunked");
    assert IsAscii(word) && Lower(word) == word && word[0..7] == word;
    DecodeAscii(word);
    assert MatchesAt(Lower(word), RoundTrip.CHUNKED, 0);
  }

  /** A number in decimals is the length, if it is a `usize`. */
  lemma {:induction false} DeclaredByNumber(m: HeaderMap, n: nat)
    requires GetAll(m, CONTENT_LENGTH) != [] && GetAll(m, CONTENT_LENGTH)[0] == Decimal(n)
    ensures RoundTrip.DeclaredLength(m) == if n <= 0xFFFF_FFFF_FFFF_FFFF then Some(n) else None
  {
    hide Decimal, ParseNumber, Trim, Decode;
    var d := Decimal(n);
    DecimalIsAscii(n);
    DecodeAscii(d);
    DecimalIsPlain(n);
    IndexOfIs(d, COLON, |d|);
    assert d[..|d|] == d;
    TrimIsTrimmed(d);
    ParsePrintedDecimal(n, USIZE_MAX);
  }

  lemma {:induction false} DecimalIsPlain(n: nat)
    ensures COLON !in Decimal(n) && Trimmed(Decimal(n))
  {
    hide Decimal;
    var d := Decimal(n);
    forall i | 0 <= i < |d|
      ensures d[i] != COLON && !IsSpace(d[i])
    {
      assert DigitValue(d[i]) < Decimals.Base();
    }
  }

  // ── What is read ─────────────────────────────────────────────

  /** The bytes are this head, up to its blank line, and what follows. */
  predicate Splits(head: Bytes, tail: Bytes) {
    FindBlank(head + tail).Some? && Head(head + tail) == head && Rest(head + tail) == tail
  }

  lemma {:induction false} LengthDecides(head: Bytes, n: nat, tail: Bytes)
    requires !IsNoBodyStatus(head) && !IsChunked(head) && GetContentLength(head) == Some(n) && Splits(head, tail)
    ensures Decided(head + tail) <==> n <= |tail|
    ensures Decided(head + tail) ==>
              var end := Consumption.MessageEnd(head + tail);
              end == |head| + n && (head + tail)[end..] == tail[n..]
  {
    hide IsNoBodyStatus, IsChunked, GetContentLength, FindBlank, Head, Rest, Scan;
    if n <= |tail| {
      assert (head + tail)[|head| + n..] == tail[n..];
    }
  }

  /** Of a head that announces a length: that many bytes, or what there is of them. */
  lemma {:induction false} DeclaredIsRead(head: Bytes, n: nat, tail: Bytes, fragments: seq<Bytes>, bufSize: nat,
                                          ending: Ending)
    requires !IsNoBodyStatus(head) && !IsChunked(head) && GetContentLength(head) == Some(n) && Splits(head, tail)
    requires Fragmentation.Delivers(fragments, head + tail) && bufSize > 0
    ensures Reader.ReadOutcome(fragments, bufSize, ending)
            == if n <= |tail| then Ok(head + tail[..n])
               else if ending == Closed then Ok(head + tail)
               else Err(Io)
    ensures var left := Concat(Reader.MessageReads(fragments, bufSize).1);
            if n <= |tail| then
              (left == tail[n..] <==> exists k: nat :: |FirstReads(fragments, bufSize, k)| == |head| + n)
            else left == []
  {
    hide FindBlank, ReadsUntil, IsNoBodyStatus, IsChunked, GetContentLength, Head, Rest, Reader.ReadOutcome,
         FirstReads, Reader.MessageReads, Decided, Consumption.MessageEnd;
    Fragmentation.OutcomeIsMessage(fragments, bufSize, ending, head + tail);
    Consumption.ReadingLeaves(fragments, bufSize);
    LengthDecides(head, n, tail);
  }

  /** Of a head that announces chunks: the data of the parts that are sent. */
  lemma {:induction false} PartsAreRead(head: Bytes, parts: seq<Chunked.Part>, trailer: Bytes, fragments: seq<Bytes>,
                                        bufSize: nat, ending: Ending)
    requires !IsNoBodyStatus(head) && IsChunked(head) && forall p :: p in parts ==> Chunked.Sendable(p)
    requires var tail := Chunked.WriteParts(parts) + (Ascii("0") + CRLF + trailer);
             Splits(head, tail) && Fragmentation.Delivers(fragments, head + tail) && bufSize > 0
    ensures Reader.ReadOutcome(fragments, bufSize, ending) == Ok(head + Chunked.PartData(parts))
  {
    hide FindBlank, IsNoBodyStatus, IsChunked, GetContentLength, Head, Rest, Dechunk, Ascii, Reader.ReadOutcome;
    var tail := Chunked.WriteParts(parts) + (Ascii("0") + CRLF + trailer);
    Fragmentation.OutcomeIsMessage(fragments, bufSize, ending, head + tail);
    Chunked.WrittenBodyIsRead(parts, trailer, ending);
  }

  predicate HasNoBody(status: nat) {
    status == 101 || status == 204 || status == 304
  }

  lemma {:induction false} PrintedIsRead(rules: HttpRules, res: Response, tail: Bytes, fragments: seq<Bytes>,
                                         bufSize: nat, ending: Ending)
    requires rules.Lawful() && WellFormedResponse(res) && bufSize > 0
    requires Fragmentation.Delivers(fragments, ResponseHead(rules, res) + tail)
    ensures Reader.ReadOutcome(fragments, bufSize, ending)
            == match BodyOf(ResponseHead(rules, res), tail, [], ending)
               case Ok(body) => Ok(ResponseHead(rules, res) + body)
               case Err(e) => Err(e)
    ensures var s, head := ResponseHead(rules, res) + tail, ResponseHead(rules, res);
            && Splits(head, tail) && FindBlank(s).Some? && Head(s) == head && Rest(s) == tail
            && (IsNoBodyStatus(head) <==> HasNoBody(res.status)) && !IsBareRequest(head)
            && (IsChunked(head) <==> RoundTrip.ChunkedHeaders(res.headers))
            && GetContentLength(head) == RoundTrip.DeclaredLength(res.headers)
  {
    hide StatusLine, ValidField, IsNoBodyStatus, IsChunked, GetContentLength, RoundTrip.DeclaredLength,
         RoundTrip.ChunkedHeaders, FindBlank, BodyOf, HeadText, ValidMap;
    StatusLineIsRead(rules, res.status);
    FieldsAreValid(res.headers);
    PrintedHeadEnds(StatusLine(rules, res.status), Fields(res.headers), tail);
    RoundTrip.PrintedHeadTests(rules, res);
    Fragmentation.OutcomeIsMessage(fragments, bufSize, ending, ResponseHead(rules, res) + tail);
  }

  /** With 101, 204 or 304 the head is all, whatever it announces and whatever follows. */
  lemma {:induction false} NoBodyIsRead(rules: HttpRules, res: Response, tail: Bytes, fragments: seq<Bytes>,
                                        bufSize: nat, ending: Ending)
    requires rules.Lawful() && WellFormedResponse(res) && bufSize > 0
    requires res.status == 101 || res.status == 204 || res.status == 304
    requires Fragmentation.Delivers(fragments, ResponseHead(rules, res) + tail)
    ensures Reader.ReadOutcome(fragments, bufSize, ending) == Ok(ResponseHead(rules, res))
    ensures Concat(Reader.MessageReads(fragments, bufSize).1) == tail
            <==> exists k: nat :: FirstReads(fragments, bufSize, k) == ResponseHead(rules, res)
  {
    hide FindBlank, ResponseHead, FirstReads, ReadsUntil, IsNoBodyStatus, IsChunked, GetContentLength, Head, Rest,
         Reader.ReadOutcome, ValidMap, Reader.MessageReads, IsBareRequest;
    PrintedIsRead(rules, res, tail, fragments, bufSize, ending);
    assert ResponseHead(rules, res) + [] == ResponseHead(rules, res);
    Consumption.HandshakeLeaves(fragments, bufSize);
  }

  /** With any other status and neither framing header, everything up to the close is. */
  lemma {:induction false} UnframedIsRead(rules: HttpRules, res: Response, tail: Bytes, fragments: seq<Bytes>,
                                          bufSize: nat, ending: Ending)
    requires rules.Lawful() && WellFormedResponse(res) && bufSize > 0
    requires res.status != 101 && res.status != 204 && res.status != 304
    requires GetAll(res.headers, Ascii("content-length")) == [] && GetAll(res.headers, Ascii("transfer-encoding")) == []
    requires Fragmentation.Delivers(fragments, ResponseHead(rules, res) + tail)
    ensures Reader.ReadOutcome(fragments, bufSize, ending)
            == if ending == Closed then Ok(ResponseHead(rules, res) + tail) else Err(Io)
    ensures Concat(Reader.MessageReads(fragments, bufSize).1) == []
  {
    NotChunked(res.headers);
    assert RoundTrip.DeclaredLength(res.headers).None?;
    hide FindBlank, ResponseHead, ReadsUntil, IsNoBodyStatus, IsChunked, GetContentLength, Head, Rest, ValidMap,
         Reader.ReadOutcome, IsBareRequest, RoundTrip.ChunkedHeaders, RoundTrip.DeclaredLength, Reader.MessageReads;
    PrintedIsRead(rules, res, tail, fragments, bufSize, ending);
    Consumption.ReadingLeaves(fragments, bufSize);
  }

  /** With a Content-Length and no Transfer-Encoding, that many bytes are, or what there is of
      them; whoever reads next finds what follows exactly when some read ended with them. */
  lemma {:induction false} LengthIsRead(rules: HttpRules, res: Response, n: nat, tail: Bytes, fragments: seq<Bytes>,
                                        bufSize: nat, ending: Ending)
    requires rules.Lawful() && WellFormedResponse(res) && bufSize > 0 && n <= 0xFFFF_FFFF_FFFF_FFFF
    requires res.status != 101 && res.status != 204 && res.status != 304
    requires GetAll(res.headers, Ascii("content-length")) != []
    requires GetAll(res.headers, Ascii("content-length"))[0] == Decimal(n)
    requires GetAll(res.headers, Ascii("transfer-encoding")) == []
    requires Fragmentation.Delivers(fragments, ResponseHead(rules, res) + tail)
    ensures Reader.ReadOutcome(fragments, bufSize, ending)
            == if n <= |tail| then Ok(ResponseHead(rules, res) + tail[..n])
               else if ending == Closed then Ok(ResponseHead(rules, res) + tail)
               else Err(Io)
    ensures var left := Concat(Reader.MessageReads(fragments, bufSize).1);
            if n <= |tail| then
              (left == tail[n..]
               <==> exists k: nat :: |FirstReads(fragments, bufSize, k)| == |ResponseHead(rules, res)| + n)
            else left == []
  {
    NotChunked(res.headers);
    DeclaredByNumber(res.headers, n);
    PrintedIsRead(rules, res, tail, fragments, bufSize, ending);
    hide *;
    DeclaredIsRead(ResponseHead(rules, res), n, tail, fragments, bufSize, ending);
  }

  /** With a Content-Length that is no `usize`, everything up to the close is. */
  lemma {:induction false} HugeLengthIsRead(rules: HttpRules, res: Response, n: nat, tail: Bytes, fragments: seq<Bytes>,
                                            bufSize: nat, ending: Ending)
    requires rules.Lawful() && WellFormedResponse(res) && bufSize > 0 && n > 0xFFFF_FFFF_FFFF_FFFF
    requires res.status != 101 && res.status != 204 && res.status != 304
    requires GetAll(res.headers, Ascii("content-length")) != []
    requires GetAll(res.headers, Ascii("content-length"))[0] == Decimal(n)
    requires GetAll(res.headers, Ascii("transfer-encoding")) == []
    requires Fragmentation.Delivers(fragments, ResponseHead(rules, res) + tail)
    ensures Reader.ReadOutcome(fragments, bufSize, ending)
            == if ending == Closed then Ok(ResponseHead(rules, res) + tail) else Err(Io)
  {
    NotChunked(res.headers);
    DeclaredByNumber(res.headers, n);
    hide FindBlank, ResponseHead, IsNoBodyStatus, IsChunked, GetContentLength, Head, Rest, ValidMap, Decimal, GetAll,
         Reader.ReadOutcome, IsBareRequest, RoundTrip.ChunkedHeaders, RoundTrip.DeclaredLength;
    PrintedIsRead(rules, res, tail, fragments, bufSize, ending);
  }

  /** With `chunked`, whatever the Content-Length, the data of the chunks is, and what follows
      the last size line is not looked at. */
  lemma {:induction false} ChunksAreRead(rules: HttpRules, res: Response, parts: seq<Chunked.Part>, trailer: Bytes,
                                         fragments: seq<Bytes>, bufSize: nat, ending: Ending)
    requires rules.Lawful() && WellFormedResponse(res) && bufSize > 0
    requires res.status != 101 && res.status != 204 && res.status != 304
    requires GetAll(res.headers, Ascii("transfer-encoding")) != []
    requires GetAll(res.headers, Ascii("transfer-encoding"))[0] == Ascii("chunked")
    requires forall p :: p in parts ==> Chunked.Sendable(p)
    requires Fragmentation.Delivers(fragments, ResponseHead(rules, res)
                                               + (Chunked.WriteParts(parts) + (Ascii("0") + CRLF + trailer)))
    ensures Reader.ReadOutcome(fragments, bufSize, ending)
            == Ok(ResponseHead(rules, res) + Chunked.PartData(parts))
  {
    ChunkedByName(res.headers);
    hide FindBlank, ResponseHead, IsNoBodyStatus, IsChunked, GetContentLength, Head, Rest, ValidMap, Dechunk, Ascii,
         Reader.ReadOutcome, IsBareRequest, RoundTrip.ChunkedHeaders, RoundTrip.DeclaredLength, GetAll;
    PrintedIsRead(rules, res, Chunked.WriteParts(parts) + (Ascii("0") + CRLF + trailer), fragments, bufSize, ending);
    PartsAreRead(ResponseHead(rules, res), parts, trailer, fragments, bufSize, ending);
  }

  /** When the stream ends within a part, the parts before it are; when it breaks there, it is
      an error. */
  lemma {:induction false} CutChunksAreRead(rules: HttpRules, res: Response, parts: seq<Chunked.Part>,
                                            next: Chunked.Part, n: nat, fragments: seq<Bytes>, bufSize: nat)
    requires rules.Lawful() && WellFormedResponse(res) && bufSize > 0
    requires res.status != 101 && res.status != 204 && res.status != 304
    requires GetAll(res.headers, Ascii("transfer-encoding")) != []
    requires GetAll(res.headers, Ascii("transfer-encoding"))[0] == Ascii("chunked")
    requires (forall p :: p in parts ==> Chunked.Sendable(p)) && Chunked.Sendable(next)
    requires n < |Chunked.WritePart(next)|
    requires Fragmentation.Delivers(fragments, ResponseHead(rules, res)
                                               + (Chunked.WriteParts(parts) + Chunked.WritePart(next)[..n]))
    ensures Reader.ReadOutcome(fragments, bufSize, Closed) == Ok(ResponseHead(rules, res) + Chunked.PartData(parts))
    ensures Reader.ReadOutcome(fragments, bufSize, Broken) == Err(Io)
    ensures Concat(Reader.MessageReads(fragments, bufSize).1) == []
  {
    ChunkedByName(res.headers);
    hide FindBlank, ResponseHead, IsNoBodyStatus, IsChunked, GetContentLength, Head, Rest, ValidMap, Scan, Ascii,
         Reader.ReadOutcome, IsBareRequest, RoundTrip.ChunkedHeaders, RoundTrip.DeclaredLength, GetAll, ReadsUntil,
         Reader.MessageReads, Chunked.WritePart;
    var tail := Chunked.WriteParts(parts) + Chunked.WritePart(next)[..n];
    PrintedIsRead(rules, res, tail, fragments, bufSize, Closed);
    PrintedIsRead(rules, res, tail, fragments, bufSize, Broken);
    Chunked.CutBodyIsRead(parts, next, n);
    Consumption.ReadingLeaves(fragments, bufSize);
  }

  /** Nowhere CR, LF, CR, LF. */
  predicate NoBlankLine(s: Bytes) {
    forall i :: 0 <= i && i + 4 <= |s| ==> !(s[i] == 13 && s[i + 1] == 10 && s[i + 2] == 13 && s[i + 3] == 10)
  }

  lemma {:induction false} NoBlankFound(s: Bytes)
    requires NoBlankLine(s)
    ensures FindBlank(s).None? && Head(s) == s && Rest(s) == []
  {
    assert FindBlank(s).None?;
  }

  lemma {:induction false} NothingBehindHead(head: Bytes)
    ensures MessageOf(head, [], Closed) == Ok(head) || FindBlank(head).Some?
    ensures MessageOf(head, [], Broken) == Err(Io) || FindBlank(head).Some?
  {
    hide FindBlank, IsNoBodyStatus, IsBareRequest, IsChunked, GetContentLength, Dechunk;
    Fragmentation.NothingToDechunk();
    if FindBlank(head).None? {
      assert Head(head) == head && Rest(head) == [] && head + [] == head;
    }
  }

  /** Without a blank line the stream is returned as it is, and a stream that breaks is an
      error. */
  lemma {:induction false} NoBlankIsRead(s: Bytes, fragments: seq<Bytes>, bufSize: nat)
    requires Fragmentation.Delivers(fragments, s) && bufSize > 0 && NoBlankLine(s)
    ensures Reader.ReadOutcome(fragments, bufSize, Closed) == Ok(s)
    ensures Reader.ReadOutcome(fragments, bufSize, Broken) == Err(Io)
  {
    NoBlankFound(s);
    hide NoBlankLine, FindBlank, IsBareRequest, MessageOf, Reader.ReadOutcome, Head, Rest;
    Fragmentation.OutcomeIsMessage(fragments, bufSize, Closed, s);
    Fragmentation.OutcomeIsMessage(fragments, bufSize, Broken, s);
    NothingBehindHead(s);
  }

  // ── The head of a handshake ──────────────────────────────────

  lemma {:induction false} SwitchingWords()
    ensures var version, status := Ascii("HTTP/1.1"), Ascii("101");
            && Ascii("HTTP/1.1 101 ") == version + [SP] + (status + [SP])
            && NoSpace(version) && NoSpace(status) && version != [] && status != []
  {
  }

  lemma {:induction false} SwitchingNumber()
    ensures ParseNumber(Ascii("101"), Decimals, U16_MAX) == Some(101)
  {
    assert Decimal(10) == [49, 48] && Decimal(101) == [49, 48, 49] == Ascii("101");
    ParsePrintedDecimal(101, U16_MAX);
  }

  lemma {:induction false} SwitchingLine(rest: Text)
    ensures StatusOfLine(Ascii("HTTP/1.1 101 ") + rest) == Some(101)
  {
    SwitchingWords();
    SwitchingNumber();
    hide Ascii, Tokens, ParseNumber, NoSpace;
    var version, status := Ascii("HTTP/1.1"), Ascii("101");
    assert Ascii("HTTP/1.1 101 ") + rest == version + [SP] + (status + [SP] + rest);
    TokensStep(version, status + [SP] + rest);
    TokensStep(status, rest);
  }

  lemma {:induction false} SwitchingText()
    ensures |Ascii("HTTP/1.1 101 ")| == 13 && IsAscii(Ascii("HTTP/1.1 101 ")) && Inline(Ascii("HTTP/1.1 101 "))
  {
  }

  /** A head that starts with `HTTP/1.1 101 ` is one without a body. */
  lemma {:induction false} SwitchingHead(s: Bytes)
    requires FindBlank(s).Some? && Ascii("HTTP/1.1 101 ") <= s
    ensures IsNoBodyStatus(Head(s))
  {
    SwitchingText();
    hide FindBlank, Ascii, StatusOfLine, Lines, Decode;
    var start, head := Ascii("HTTP/1.1 101 "), Head(s);
    var i := FindBlank(s).value;
    BlankIsBehind(s, start, i);
    var rest := s[13..i + 4];
    assert head == start + rest;
    DecodeAscii(start);
    assert start[12] < 0x80;
    DecodeSplits(start, rest);
    FirstLineStarts(start, Decode(rest));
    SwitchingLine(Lines(start + Decode(rest))[0][13..]);
  }

  lemma {:induction false} BlankIsBehind(s: Bytes, start: Bytes, i: nat)
    requires start <= s && Inline(start) && BlankAt(s, i)
    ensures i >= |start|
  {
    assert forall j :: 0 <= j < |start| ==> s[j] == start[j] && s[j] in start;
  }

  lemma {:induction false} FirstLineStarts(start: Text, rest: Text)
    requires start != [] && Inline(start)
    ensures var lines := Lines(start + rest);
            lines != [] && |lines[0]| >= |start| && lines[0] == start + lines[0][|start|..]
  {
    var s := start + rest;
    var nl := IndexOf(s, LF);
    IndexOfIsFirst(s, LF);
    assert forall i :: 0 <= i < |start| ==> s[i] == start[i] && s[i] in start;
    assert s[..nl][..|start|] == start;
  }
}
