/**
 What the parsers make of first lines and header lines, case by case (src/proxy.rs:91-177),
 and what the serialisers print, letter by letter (src/proxy.rs:127-201).
 */
module ParseFacts {
  import opened ByteText
  import opened Framing
  import opened Headers
  import opened Http
  import opened Messages
  import opened Utf8
  import opened Wrappers

  import LooseHeads

  // ── A head without headers ───────────────────────────────────

  function BareHead(start: Bytes): Bytes {
    start + CRLF + CRLF
  }

  lemma {:induction false} BareHeadParts(start: Bytes, body: Bytes)
    requires OneLine(start)
    ensures var raw := BareHead(start) + body;
            TextLines(raw) == [Decode(start)] + ([[]] + TextLines(body)) && Rest(raw) == body
  {
    hide TextLines, Decode, FindBlank;
    var raw, rest := BareHead(start) + body, CRLF + body;
    assert raw == start + CRLF + rest;
    BlankBehindLine(start, rest);
    TextLinesStep(start, rest);
    assert rest == [] + CRLF + body;
    TextLinesStep([], body);
    DecodeAscii([]);
  }

  lemma {:induction false} BareResponse(start: Bytes, body: Bytes)
    requires OneLine(start)
    ensures var text := TokenOr(Tokens(Decode(start)), 1, Ascii("200"));
            ParsedResponse(BareHead(start) + body)
            == match ParseNumber(text, Decimals, 65535)
               case None => Err(BadStatus(text))
               case Some(n) => if 100 <= n <= 999 then Ok(Response(n, [], Full(body))) else Err(BuilderPanics)
  {
    BareHeadParts(start, body);
    hide TextLines, Decode, Tokens, ParseNumber, Ascii, Rest, BareHead, OneLine;
    var lines := TextLines(BareHead(start) + body);
    assert lines[0] == Decode(start);
    assert lines[1..] == [[]] + TextLines(body);
    EmptyLineEnds(lines[1..], []);
  }

  /** A status written in decimals is taken from 100 to 999, makes the builder panic as far as
      it is a `u16`, and is an error beyond. */
  lemma {:induction false} StatusCases(n: nat, reason: Bytes, body: Bytes)
    requires Inline(reason)
    ensures var start := Ascii("HTTP/1.1") + [SP] + (Decimal(n) + [SP] + reason);
            ParsedResponse(BareHead(start) + body)
            == if n > 65535 then Err(BadStatus(Decimal(n)))
               else if 100 <= n <= 999 then Ok(Response(n, [], Full(body)))
               else Err(BuilderPanics)
  {
    hide ParseNumber, Decimal, Ascii, Tokens, Decode, ParsedResponse, BareHead;
    var version, digits, sp: Bytes := Ascii("HTTP/1.1"), Decimal(n), [SP];
    var start := version + sp + (digits + sp + reason);
    VersionIsPlain();
    DecimalIsAscii(n);
    DecodeAscii(version);
    DecodeAscii(digits);
    DecodeAroundAscii(version, sp, digits + sp + reason);
    DecodeAroundAscii(digits, sp, reason);
    TokensStep(version, digits + [SP] + Decode(reason));
    TokensStep(digits, Decode(reason));
    SpacelessIsInline(version);
    SpacelessIsInline(digits);
    ParsePrintedDecimal(n, 65535);
    BareResponse(start, body);
  }

  /** A word that is no number is an error that names it. */
  lemma {:induction false} StatusWord(word: Bytes, body: Bytes)
    requires word != [] && IsAscii(word) && NoSpace(word) && ParseNumber(word, Decimals, 65535) == None
    ensures ParsedResponse(BareHead(Ascii("HTTP/1.1") + [SP] + word) + body) == Err(BadStatus(word))
  {
    hide ParseNumber, Ascii, Tokens, Decode, ParsedResponse, BareHead;
    var version, sp: Bytes := Ascii("HTTP/1.1"), [SP];
    VersionIsPlain();
    DecodeAscii(version);
    DecodeAscii(word);
    DecodeAroundAscii(version, sp, word);
    TokensStep(version, word);
    TokensLast(word);
    SpacelessIsInline(version);
    SpacelessIsInline(word);
    BareResponse(version + sp + word, body);
  }

  lemma {:induction false} DefaultIs200()
    ensures ParseNumber(Ascii("200"), Decimals, 65535) == Some(200)
  {
    assert Decimal(20) == [50, 48] && Decimal(200) == [50, 48, 48] == Ascii("200");
    ParsePrintedDecimal(200, 65535);
  }

  /** Without a status it is 200; and so it is without anything. */
  lemma {:induction false} StatusDefaults(body: Bytes)
    ensures ParsedResponse(BareHead(Ascii("HTTP/1.1")) + body) == Ok(Response(200, [], Full(body)))
    ensures ParsedResponse([]) == Ok(Response(200, [], Full([])))
  {
    hide ParseNumber, Ascii, Tokens, Decode, BareHead, TextLines, FindBlank;
    DefaultIs200();
    VersionIsPlain();
    DecodeAscii(Ascii("HTTP/1.1"));
    TokensLast(Ascii("HTTP/1.1"));
    SpacelessIsInline(Ascii("HTTP/1.1"));
    BareResponse(Ascii("HTTP/1.1"), body);
    NoTextLines();
    DefaultLine();
  }

  lemma {:induction false} DefaultLine()
    ensures |Tokens(Ascii("HTTP/1.1 200 OK"))| == 3 && Tokens(Ascii("HTTP/1.1 200 OK"))[1] == Ascii("200")
  {
    var line, version, status, reason := Ascii("HTTP/1.1 200 OK"), Ascii("HTTP/1.1"), Ascii("200"), Ascii("OK");
    assert line == version + [SP] + (status + [SP] + reason);
    assert NoSpace(version) && NoSpace(status) && NoSpace(reason) && version != [] && status != [] && reason != [];
    hide Ascii, Tokens, NoSpace;
    TokensStep(version, status + [SP] + reason);
    TokensStep(status, reason);
    TokensLast(reason);
  }

  // ── First lines of requests ──────────────────────────────────

  lemma {:induction false} BareRequest(rules: HttpRules, start: Bytes, body: Bytes)
    requires OneLine(start)
    ensures var tokens := Tokens(Decode(start));
            var verb, uri := TokenOr(tokens, 0, Ascii("GET")), rules.canonicalUri(TokenOr(tokens, 1, Ascii("/")));
            ParsedRequest(rules, BareHead(start) + body)
            == if IsToken(verb) && uri.Some? then Ok(Request(verb, uri.value, [], Full(body))) else Err(BuilderPanics)
  {
    BareHeadParts(start, body);
    hide TextLines, Decode, Tokens, Ascii, Rest, BareHead, OneLine, IsToken;
    var lines := TextLines(BareHead(start) + body);
    assert lines[1..] == [[]] + TextLines(body);
    EmptyLineEnds(lines[1..], []);
  }

  /** A method that is no token, or a target that is refused, makes the builder panic; what
      follows the target is not looked at. */
  lemma {:induction false} RequestCases(rules: HttpRules, verb: Bytes, target: Text, more: Bytes, body: Bytes)
    requires verb != [] && IsAscii(verb) && NoSpace(verb) && target != [] && NoSpace(target) && Inline(more)
    ensures var start := verb + [SP] + (Encode(target) + [SP] + more);
            var uri := rules.canonicalUri(target);
            ParsedRequest(rules, BareHead(start) + body)
            == if IsToken(verb) && uri.Some? then Ok(Request(verb, uri.value, [], Full(body))) else Err(BuilderPanics)
  {
    hide Ascii, Tokens, Decode, Encode, ParsedRequest, BareHead, IsToken;
    var sp: Bytes := [SP];
    var start := verb + sp + (Encode(target) + sp + more);
    DecodeAscii(verb);
    DecodeEncoded(target);
    DecodeAroundAscii(verb, sp, Encode(target) + sp + more);
    DecodeAroundAscii(Encode(target), sp, more);
    TokensStep(verb, target + [SP] + Decode(more));
    TokensStep(target, Decode(more));
    SpacelessIsInline(verb);
    SpacelessIsInline(target);
    EncodeKeepsInline(target);
    BareRequest(rules, start, body);
  }

  /** Without a target it is `/`, and without anything the method is `GET`. */
  lemma {:induction false} RequestDefaults(verb: Bytes, body: Bytes)
    requires IsToken(verb)
    ensures ParsedRequest(PlainRules(), BareHead(verb) + body) == Ok(Request(verb, Ascii("/"), [], Full(body)))
    ensures ParsedRequest(PlainRules(), []) == Ok(Request(Ascii("GET"), Ascii("/"), [], Full([])))
  {
    hide Ascii, Tokens, Decode, BareHead, IsToken, TextLines, FindBlank;
    LawfulRulesExist();
    TokenIsPlain(verb);
    MethodIsNotEmpty(verb);
    DecodeAscii(verb);
    TokensLast(verb);
    BareRequest(PlainRules(), verb, body);
    NoTextLines();
    NoTokens();
    GetIsToken();
  }

  lemma {:induction false} NoTokens()
    ensures Tokens([]) == []
  {
  }

  lemma {:induction false} GetIsToken()
    ensures IsToken(Ascii("GET"))
  {
  }

  // ── Header lines ─────────────────────────────────────────────

  /** One header line: a name that is a token up to white space is stored in lower case, with
      its value trimmed; any other name, or a value that is not allowed, makes the builder
      panic. */
  lemma {:induction false} HeaderCases(start: Bytes, status: nat, name: Bytes, value: Bytes, body: Bytes)
    requires LooseHeads.Starts(start, status) && Inline(name) && Inline(value) && COLON !in name
    ensures var line, key := name + [COLON] + value, Trim(Decode(name));
            ParsedResponse(LooseHeads.OneHeader(start, line) + body)
            == if IsToken(key) && ValidValue(Cleaned(value))
               then Ok(Response(status, [Entry(Encode(Lower(key)), [Cleaned(value)])], Full(body)))
               else Err(BuilderPanics)
  {
    hide TextLines, Decode, Encode, Trim, IsToken, ValidValue, Tokens, Ascii, Lower, LooseHeads.OneHeader, FindBlank,
         ParseNumber, Rest, HeadersOf;
    var colon: Bytes, line := [COLON], name + [COLON] + value;
    var raw := LooseHeads.OneHeader(start, line) + body;
    LooseHeads.StartIsOneLine(start, status);
    LooseHeads.OneHeaderEnds(start, line, body);
    LooseHeads.OneHeaderLines(start, line, body);
    LineWithColon(name, value, TextLines(body));
    DecodeAroundAscii(name, colon, value);
    assert TextLines(raw)[1..] == [Decode(line)] + ([[]] + TextLines(body));
  }

  lemma {:induction false} LineWithColon(name: Bytes, value: Bytes, more: seq<Text>)
    requires COLON !in name
    ensures var line, key := Decode(name) + [COLON] + Decode(value), Trim(Decode(name));
            HeadersOf([line] + ([[]] + more), [])
            == if IsToken(key) && ValidValue(Cleaned(value))
               then Some([Entry(Encode(Lower(key)), [Cleaned(value)])]) else None
  {
    hide Decode, Encode, Trim, IsToken, ValidValue, Lower;
    var line := Decode(name) + [COLON] + Decode(value);
    var n := |Decode(name)|;
    DecodeKeepsAscii(name, COLON);
    assert line[..n] == Decode(name) && line[n] == COLON && line[n + 1..] == Decode(value);
    IndexOfIs(line, COLON, n);
    var lines, rest := [line] + ([[]] + more), [[]] + more;
    assert lines[1..] == rest && rest[0] == [];
    var key := Trim(Decode(name));
    assert Append([], Encode(Lower(key)), Cleaned(value)) == [Entry(Encode(Lower(key)), [Cleaned(value)])];
  }

  /** A line without a colon is passed over. */
  lemma {:induction false} NoColonIsSkipped(start: Bytes, status: nat, line: Bytes, body: Bytes)
    requires LooseHeads.Starts(start, status) && OneLine(line) && COLON !in line
    ensures ParsedResponse(LooseHeads.OneHeader(start, line) + body) == Ok(Response(status, [], Full(body)))
  {
    hide TextLines, Decode, Tokens, Ascii, LooseHeads.OneHeader, FindBlank, ParseNumber, Rest;
    var raw := LooseHeads.OneHeader(start, line) + body;
    LooseHeads.StartIsOneLine(start, status);
    LooseHeads.OneHeaderEnds(start, line, body);
    LooseHeads.OneHeaderLines(start, line, body);
    DecodeKeepsAscii(line, COLON);
    IndexOfIsFirst(Decode(line), COLON);
    var lines := TextLines(raw)[1..];
    assert lines == [Decode(line)] + ([[]] + TextLines(body));
    assert lines[1..] == [[]] + TextLines(body);
    EmptyLineEnds(lines[1..], []);
  }

  // ── What is printed ──────────────────────────────────────────

  lemma {:induction false} LineEnd()
    ensures Ascii("\r\n") == CRLF
  {
  }

  /** With rules that know no reason phrase it is `OK`. */
  lemma {:induction false} PrintedResponse()
    ensures ResponseBytes(PlainRules(), Response(200, [Entry(CONTENT_LENGTH, [Ascii("3")])], Full(Ascii("abc"))))
            == Ascii("HTTP/1.1 200 OK") + Ascii("\r\n") + (Ascii("content-length: 3") + Ascii("\r\n") + Ascii("\r\n"))
               + Ascii("abc")
  {
    var m, values := [Entry(CONTENT_LENGTH, [Ascii("3")])], [Ascii("3")];
    assert m[1..] == [] && values[1..] == [];
    assert Decimal(20) == [50, 48] && Decimal(200) == [50, 48, 48];
    assert Ascii("HTTP/1.1") + [SP] + (Decimal(200) + [SP] + Ascii("OK")) == Ascii("HTTP/1.1 200 OK");
    assert CONTENT_LENGTH + [COLON, SP] + Ascii("3") == Ascii("content-length: 3");
    LineEnd();
    hide Ascii, Decimal;
    var f := Field(CONTENT_LENGTH, Ascii("3"));
    assert Fields(m) == [f];
    OneFieldLine(f);
  }

  /** With others it is theirs, as UTF-8; and a body that is streamed is not printed. */
  lemma {:induction false} PrintedReason(rules: HttpRules, phrase: Text, frames: seq<BodyFrame>, fails: bool)
    requires rules.reason(404) == Some(phrase)
    ensures ResponseBytes(rules, Response(404, [], Streaming(frames, fails)))
            == Ascii("HTTP/1.1 404 ") + Encode(phrase) + Ascii("\r\n") + Ascii("\r\n")
  {
    assert Decimal(40) == [52, 48] && Decimal(404) == [52, 48, 52];
    assert Ascii("HTTP/1.1") + [SP] + Decimal(404) + [SP] == Ascii("HTTP/1.1 404 ");
    LineEnd();
    hide Ascii, Decimal, Encode;
    var text, end := Encode(phrase), CRLF;
    assert Ascii("HTTP/1.1") + [SP] + (Decimal(404) + [SP] + text) == Ascii("HTTP/1.1 404 ") + text;
    assert FieldLines(Fields([])) == [];
    assert Ascii("HTTP/1.1 404 ") + text + end + ([] + end) + [] == Ascii("HTTP/1.1 404 ") + text + end + end;
  }

  lemma {:induction false} OneFieldLine(f: Field)
    ensures FieldLines([f]) == FieldText(f) + CRLF
  {
    var one := [f];
    assert one[1..] == [];
    assert FieldLines(one) == FieldText(f) + CRLF + FieldLines([]);
  }

  lemma {:induction false} PrintedRequest()
    ensures RequestBytes(Request(Ascii("GET"), Ascii("/"), [Entry(Ascii("host"), [Ascii("a")])], Full([])))
            == Ascii("GET / HTTP/1.1") + Ascii("\r\n") + (Ascii("host: a") + Ascii("\r\n") + Ascii("\r\n"))
  {
    var m, values := [Entry(Ascii("host"), [Ascii("a")])], [Ascii("a")];
    assert m[1..] == [] && values[1..] == [];
    assert Ascii("GET") + [SP] + (Ascii("/") + [SP] + Ascii("HTTP/1.1")) == Ascii("GET / HTTP/1.1");
    assert Ascii("host") + [COLON, SP] + Ascii("a") == Ascii("host: a");
    assert IsAscii(Ascii("/"));
    LineEnd();
    hide Ascii;
    EncodeAscii(Ascii("/"));
    var f := Field(Ascii("host"), Ascii("a"));
    assert Fields(m) == [f];
    OneFieldLine(f);
  }
}
