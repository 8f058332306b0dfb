/**
 Parsing and serialising HTTP/1.1 messages (src/proxy.rs:84-222).
 */
module Messages {
  import opened Wrappers
  import opened ByteText
  import opened Framing
  import opened Headers
  import opened Http
  import opened Utf8

  datatype ParseError =
    | BadStatus(text: Text)   // the status is not a `u16`: an error value
    | BuilderPanics            // the builder refused a part: `unwrap` panics

  type Parsed<T> = Result<T, ParseError>

  // ── Serialising ──────────────────────────────────────────────

  function FieldText(f: Field): Bytes {
    f.name + [COLON, SP] + f.value
  }

  function FieldLines(fields: seq<Field>): Bytes {
    if fields == [] then [] else FieldText(fields[0]) + CRLF + FieldLines(fields[1..])
  }

  function StatusLine(rules: HttpRules, status: nat): Bytes {
    var reason := rules.reason(status);
    Ascii("HTTP/1.1") + [SP] + (Decimal(status) + [SP] + if reason.Some? then Encode(reason.value) else Ascii("OK"))
  }

  function RequestLine(req: Request): Bytes {
    req.verb + [SP] + (Encode(req.uri) + [SP] + Ascii("HTTP/1.1"))
  }

  /** A head: its first line, its fields, and the blank line. */
  function HeadText(start: Bytes, fields: seq<Field>): Bytes {
    start + CRLF + (FieldLines(fields) + CRLF)
  }

  function BufferedBody(body: Body): Bytes {
    if body.Full? then body.bytes else []
  }

  function ResponseHead(rules: HttpRules, res: Response): Bytes {
    HeadText(StatusLine(rules, res.status), Fields(res.headers))
  }

  function ResponseBytes(rules: HttpRules, res: Response): Bytes {
    ResponseHead(rules, res) + BufferedBody(res.body)
  }

  function RequestBytes(req: Request): Bytes {
    HeadText(RequestLine(req), Fields(req.headers)) + BufferedBody(req.body)
  }

  lemma {:induction false} FieldLinesAppend(fields: seq<Field>, f: Field)
    ensures FieldLines(fields + [f]) == FieldLines(fields) + (FieldText(f) + CRLF)
  {
    if fields == [] {
      assert fields + [f] == [f];
      assert FieldLines([f]) == FieldText(f) + CRLF + FieldLines([]);
    } else {
      assert (fields + [f])[1..] == fields[1..] + [f];
      FieldLinesAppend(fields[1..], f);
    }
  }

  /** One line more of a head that is being written. */
  lemma {:induction false} HeadGrows(start: Bytes, fields: seq<Field>, i: nat)
    requires i < |fields|
    ensures start + FieldLines(fields[..i + 1])
            == start + FieldLines(fields[..i]) + fields[i].name + [COLON, SP] + fields[i].value + CRLF
  {
    hide FieldLines;
    assert fields[..i + 1] == fields[..i] + [fields[i]];
    FieldLinesAppend(fields[..i], fields[i]);
  }

  /** The header loop that all three serialisers run. */
  method WriteHead(start: Bytes, headers: HeaderMap) returns (out: Bytes)
    ensures out == HeadText(start, Fields(headers))
  {
    out := start + CRLF;
    var fields := Fields(headers);
    assert FieldLines([]) == [];
    hide FieldLines, Fields;
    for i := 0 to |fields|
      invariant out == (start + CRLF) + FieldLines(fields[..i])
    {
      HeadGrows(start + CRLF, fields, i);
      out := out + fields[i].name + [COLON, SP] + fields[i].value + CRLF;
    }
    assert fields[..|fields|] == fields;
    assert out + CRLF == start + CRLF + (FieldLines(fields) + CRLF);
    out := out + CRLF;
  }

  /** `serialize_response_head`. */
  method SerializeResponseHead(rules: HttpRules, res: Response) returns (out: Bytes)
    ensures out == ResponseHead(rules, res)
  {
    out := WriteHead(StatusLine(rules, res.status), res.headers);
  }

  /** `serialize_response`. */
  method SerializeResponse(rules: HttpRules, res: Response) returns (out: Bytes)
    ensures out == ResponseBytes(rules, res)
  {
    out := WriteHead(StatusLine(rules, res.status), res.headers);
    if res.body.Full? {
      out := out + res.body.bytes;
    } else {
      assert out + [] == out;
    }
  }

  /** `serialize_request`. */
  method SerializeRequest(req: Request) returns (out: Bytes)
    ensures out == RequestBytes(req)
  {
    out := WriteHead(RequestLine(req), req.headers);
    if req.body.Full? {
      out := out + req.body.bytes;
    } else {
      assert out + [] == out;
    }
  }

  // ── Parsing ──────────────────────────────────────────────────

  /** The header map that a builder holds after `lines`, up to the first empty one. A line
      without a colon is skipped; a name or value that the builder refuses poisons it. */
  function HeadersOf(lines: seq<Text>, m: HeaderMap): Option<HeaderMap>
    decreases |lines|
  {
    if lines == [] || lines[0] == [] then Some(m)
    else
      var colon := IndexOf(lines[0], COLON);
      if colon == |lines[0]| then HeadersOf(lines[1..], m)
      else
        var key, value := Trim(lines[0][..colon]), Encode(Trim(lines[0][colon + 1..]));
        if IsToken(key) && ValidValue(value) then HeadersOf(lines[1..], Append(m, Encode(Lower(key)), value))
        else None
  }

  /** The walk over the header lines that both parsers run. */
  method ReadHeaders(lines: seq<Text>) returns (r: Option<HeaderMap>)
    ensures r == HeadersOf(lines, [])
  {
    var m: HeaderMap := [];
    for i := 0 to |lines|
      invariant HeadersOf(lines, []) == HeadersOf(lines[i..], m)
    {
      if lines[i] == [] {
        break;
      }
      assert lines[i..][1..] == lines[i + 1..];
      var colon := IndexOf(lines[i], COLON);
      if colon < |lines[i]| {
        var key, value := Trim(lines[i][..colon]), Encode(Trim(lines[i][colon + 1..]));
        if !IsToken(key) || !ValidValue(value) {
          return None;
        }
        m := Append(m, Encode(Lower(key)), value);
      }
    }
    return Some(m);
  }

  function TokenOr(tokens: seq<Text>, i: nat, default: Text): Text {
    if i < |tokens| then tokens[i] else default
  }

  function ParsedResponse(raw: Bytes): Parsed<Response> {
    var lines := TextLines(raw);
    var first := if lines == [] then Ascii("HTTP/1.1 200 OK") else lines[0];
    var text := TokenOr(Tokens(first), 1, Ascii("200"));
    match ParseNumber(text, Decimals, U16_MAX)
    case None => Err(BadStatus(text))
    case Some(status) =>
      var headers := if lines == [] then Some([]) else HeadersOf(lines[1..], []);
      if !ValidStatus(status) || headers.None? then Err(BuilderPanics)
      else Ok(Response(status, headers.value, Full(Rest(raw))))
  }

  function ParsedRequest(rules: HttpRules, raw: Bytes): Parsed<Request> {
    var lines := TextLines(raw);
    var tokens := Tokens(if lines == [] then [] else lines[0]);
    var verb, uri := TokenOr(tokens, 0, Ascii("GET")), rules.canonicalUri(TokenOr(tokens, 1, Ascii("/")));
    var headers := if lines == [] then Some([]) else HeadersOf(lines[1..], []);
    if !IsToken(verb) || uri.None? || headers.None? then Err(BuilderPanics)
    else Ok(Request(verb, uri.value, headers.value, Full(Rest(raw))))
  }

  /** `parse_raw_response`. */
  method ParseRawResponse(raw: Bytes) returns (r: Parsed<Response>)
    ensures r == ParsedResponse(raw)
  {
    assert HeadersOf([], []) == Some([]);
    hide TextLines, Tokens, ParseNumber, HeadersOf, Ascii, FindBlank;
    var lines := TextLines(raw);
    var first := if lines == [] then Ascii("HTTP/1.1 200 OK") else lines[0];
    var text := TokenOr(Tokens(first), 1, Ascii("200"));
    var status := ParseNumber(text, Decimals, U16_MAX);
    if status.None? {
      return Err(BadStatus(text));
    }
    var headers := ReadHeaders(if lines == [] then [] else lines[1..]);
    if !ValidStatus(status.value) || headers.None? {
      return Err(BuilderPanics);
    }
    var blank := FindBlank(raw);
    var body := if blank.Some? then raw[blank.value + 4..] else [];
    assert body == Rest(raw);
    return Ok(Response(status.value, headers.value, Full(body)));
  }

  /** `parse_raw_request`. */
  method ParseRawRequest(rules: HttpRules, raw: Bytes) returns (r: Parsed<Request>)
    ensures r == ParsedRequest(rules, raw)
  {
    assert HeadersOf([], []) == Some([]);
    hide TextLines, Tokens, HeadersOf, Ascii, FindBlank, IsToken;
    var lines := TextLines(raw);
    var tokens := Tokens(if lines == [] then [] else lines[0]);
    var verb := TokenOr(tokens, 0, Ascii("GET"));
    var uri := rules.canonicalUri(TokenOr(tokens, 1, Ascii("/")));
    var headers := ReadHeaders(if lines == [] then [] else lines[1..]);
    if !IsToken(verb) || uri.None? || headers.None? {
      return Err(BuilderPanics);
    }
    var blank := FindBlank(raw);
    var body := if blank.Some? then raw[blank.value + 4..] else [];
    assert body == Rest(raw);
    return Ok(Request(verb, uri.value, headers.value, Full(body)));
  }

  // ── A printed head is read back ──────────────────────────────

  predicate OneLine(s: Text) {
    s != [] && Inline(s)
  }

  lemma {:induction false} BlankIs(s: Bytes, i: nat)
    requires BlankAt(s, i) && forall j: nat :: j < i ==> !BlankAt(s, j)
    ensures FindBlank(s) == Some(i)
  {
  }

  /** The first blank line lies behind a line that is neither empty nor broken. */
  lemma {:induction false} BlankBehindLine(line: Bytes, rest: Bytes)
    requires OneLine(line)
    ensures CRLF <= rest ==> FindBlank(line + CRLF + rest) == Some(|line|)
    ensures !(CRLF <= rest) && (rest != [] ==> rest[0] != CR) && FindBlank(rest).Some?
            ==> FindBlank(line + CRLF + rest) == Some(|line| + 2 + FindBlank(rest).value)
  {
    var s := line + CRLF + rest;
    assert forall j :: 0 <= j < |line| ==> s[j] == line[j] && s[j] in line;
    assert s[|line|] == CR && s[|line| + 1] == LF;
    assert forall j :: 0 <= j < |rest| ==> s[|line| + 2 + j] == rest[j];
    if CRLF <= rest {
      assert rest[0] == CRLF[0] && rest[1] == CRLF[1];
      BlankIs(s, |line|);
    } else if (rest != [] ==> rest[0] != CR) && FindBlank(rest).Some? {
      var k := FindBlank(rest).value;
      forall j: nat | j < |line| + 2 + k
        ensures !BlankAt(s, j)
      {
        if j >= |line| + 2 {
          assert !BlankAt(rest, j - |line| - 2);
        }
      }
      BlankIs(s, |line| + 2 + k);
    }
  }

  lemma {:induction false} FieldTextIsOneLine(f: Field)
    requires ValidField(f)
    ensures OneLine(FieldText(f)) && FieldText(f)[0] != CR
  {
    TokenIsPlain(f.name);
    forall b | b in FieldText(f)
      ensures b != CR && b != LF
    {
      if b in f.value {
        var i :| 0 <= i < |f.value| && f.value[i] == b;
      }
    }
    assert FieldText(f)[0] == f.name[0];
  }

  /** The byte search for CRLFCRLF splits a printed message where its head ends. */
  lemma {:induction false} PrintedHeadEnds(start: Bytes, fields: seq<Field>, body: Bytes)
    requires OneLine(start) && AllValid(fields)
    ensures FindBlank(HeadText(start, fields) + body).Some?
    ensures Head(HeadText(start, fields) + body) == HeadText(start, fields)
    ensures Rest(HeadText(start, fields) + body) == body
    decreases |fields|
  {
    hide FindBlank, ValidField;
    var text := HeadText(start, fields) + body;
    var rest := FieldLines(fields) + CRLF + body;
    assert text == start + CRLF + rest;
    if fields == [] {
      assert rest == CRLF + body;
      BlankBehindLine(start, rest);
    } else {
      var next := FieldText(fields[0]);
      FieldTextIsOneLine(fields[0]);
      PrintedHeadEnds(next, fields[1..], body);
      assert rest == HeadText(next, fields[1..]) + body;
      assert rest[0] == next[0];
      BlankBehindLine(start, rest);
    }
    var n := |HeadText(start, fields)|;
    assert text[..n] == HeadText(start, fields) && text[n..] == body;
  }

  /** A header line as the walk sees it. */
  function FieldLine(f: Field): Text {
    f.name + [COLON, SP] + Decode(f.value)
  }

  lemma {:induction false} FieldDecoded(f: Field)
    requires ValidField(f)
    ensures Decode(FieldText(f)) == FieldLine(f)
  {
    hide Decode, ValidValue;
    var separator: Bytes := [COLON, SP];
    TokenIsPlain(f.name);
    DecodeAscii(f.name);
    DecodeAroundAscii(f.name, separator, f.value);
  }

  function FieldTexts(fields: seq<Field>): seq<Text> {
    if fields == [] then [] else [FieldLine(fields[0])] + FieldTexts(fields[1..])
  }

  /** The walk over `lines()` meets the same lines, and the empty one behind them. */
  lemma {:induction false} PrintedHeadLines(start: Bytes, fields: seq<Field>, body: Bytes)
    requires OneLine(start) && AllValid(fields)
    ensures TextLines(HeadText(start, fields) + body)
            == [Decode(start)] + FieldTexts(fields) + [[]] + TextLines(body)
    decreases |fields|
  {
    hide ValidField, TextLines, Decode;
    var rest := FieldLines(fields) + CRLF + body;
    assert HeadText(start, fields) + body == start + CRLF + rest;
    TextLinesStep(start, rest);
    if fields == [] {
      assert rest == [] + CRLF + body;
      TextLinesStep([], body);
      DecodeAscii([]);
    } else {
      var next := FieldText(fields[0]);
      FieldTextIsOneLine(fields[0]);
      FieldDecoded(fields[0]);
      PrintedHeadLines(next, fields[1..], body);
      assert rest == HeadText(next, fields[1..]) + body;
    }
  }

  /** Cleaning brings in no character that a value must not hold. */
  lemma {:induction false} CleanedIsValid(value: Bytes)
    requires ValidValue(value)
    ensures ValidValue(Cleaned(value))
  {
    hide Decode, Encode, Trim;
    var t := Trim(Decode(value));
    TrimIsTrimmed(Decode(value));
    DecodeEncoded(t);
    forall i | 0 <= i < |Encode(t)|
      ensures (32 <= Encode(t)[i] && Encode(t)[i] != 127) || Encode(t)[i] == HTAB
    {
      var b := Encode(t)[i];
      assert b in Encode(t);
      if b < 0x80 {
        DecodeKeepsAscii(Encode(t), b);
        DecodeKeepsAscii(value, b);
        var j :| 0 <= j < |value| && value[j] == b;
      }
    }
  }

  lemma {:induction false} FieldLineParts(f: Field)
    requires ValidField(f)
    ensures IndexOf(FieldLine(f), COLON) == |f.name| < |FieldLine(f)|
    ensures Trim(FieldLine(f)[..|f.name|]) == f.name && IsToken(f.name) && Encode(Lower(f.name)) == f.name
    ensures Trim(FieldLine(f)[|f.name| + 1..]) == Trim(Decode(f.value)) && ValidValue(Cleaned(f.value))
  {
    hide Decode, ValidValue, Trim, Encode;
    var line := FieldLine(f);
    TokenIsPlain(f.name);
    EncodeAscii(f.name);
    assert line[..|f.name|] == f.name;
    IndexOfIs(line, COLON, |f.name|);
    TrimIsTrimmed(f.name);
    assert line[|f.name| + 1..] == [SP] + Decode(f.value);
    TrimLeadingSpace(Decode(f.value));
    CleanedIsValid(f.value);
  }

  /** The header walk takes a printed line for its field. */
  lemma {:induction false} WholeLine(f: Field, lines: seq<Text>, m: HeaderMap)
    requires ValidField(f) && lines != [] && lines[0] == FieldLine(f)
    ensures HeadersOf(lines, m) == HeadersOf(lines[1..], Append(m, f.name, Cleaned(f.value)))
  {
    hide Trim, ValidField, Append, IsToken, ValidValue, Encode, Decode;
    FieldLineParts(f);
  }

  lemma {:induction false} EmptyLineEnds(lines: seq<Text>, m: HeaderMap)
    requires lines != [] && lines[0] == []
    ensures HeadersOf(lines, m) == Some(m)
  {
  }

  lemma {:induction false} PrintedFieldsAreRead(fields: seq<Field>, m: HeaderMap, more: seq<Text>)
    requires AllValid(fields)
    ensures HeadersOf(FieldTexts(fields) + [[]] + more, m) == Some(AppendAll(m, CleanedFields(fields)))
    decreases |fields|
  {
    hide ValidField, Cleaned, Append, HeadersOf, FieldLine;
    var lines := FieldTexts(fields) + [[]] + more;
    if fields == [] {
      assert lines[0] == [];
      EmptyLineEnds(lines, m);
    } else {
      var f := fields[0];
      assert lines[0] == FieldLine(f);
      assert lines[1..] == FieldTexts(fields[1..]) + [[]] + more;
      WholeLine(f, lines, m);
      PrintedFieldsAreRead(fields[1..], Append(m, f.name, Cleaned(f.value)), more);
      assert CleanedFields(fields)[1..] == CleanedFields(fields[1..]);
    }
  }

  lemma {:induction false} PrintedMapIsRead(m: HeaderMap, more: seq<Text>)
    requires ValidMap(m)
    ensures HeadersOf(FieldTexts(Fields(m)) + [[]] + more, []) == Some(CleanedMap(m))
  {
    hide *;
    FieldsAreValid(m);
    PrintedFieldsAreRead(Fields(m), [], more);
    CleaningCommutes(m);
    CleanedMapKeepsShape(m);
    assert [] + CleanedMap(m) == CleanedMap(m);
    AppendingFieldsRebuilds([], CleanedMap(m));
  }

  // ── First lines ──────────────────────────────────────────────

  lemma {:induction false} VersionIsPlain()
    ensures NoSpace(Ascii("HTTP/1.1")) && Ascii("HTTP/") <= Ascii("HTTP/1.1") && IsAscii(Ascii("HTTP/1.1"))
    ensures Inline(Ascii("OK")) && IsAscii(Ascii("OK")) && Ascii("HTTP/1.1")[0] == 72
  {
    assert Ascii("HTTP/1.1")[..5] == Ascii("HTTP/");
  }

  lemma {:induction false} EncodeKeepsInline(t: Text)
    requires Inline(t)
    ensures Inline(Encode(t))
  {
    hide Encode, Decode;
    DecodeEncoded(t);
    DecodeKeepsAscii(Encode(t), CR);
    DecodeKeepsAscii(Encode(t), LF);
  }

  function ReasonText(rules: HttpRules, status: nat): Text {
    var reason := rules.reason(status);
    if reason.Some? then reason.value else Ascii("OK")
  }

  lemma {:induction false} DecimalIsAscii(n: nat)
    ensures IsAscii(Decimal(n))
  {
    hide Decimal;
    var d := Decimal(n);
    forall i | 0 <= i < |d|
      ensures d[i] < 0x80
    {
      assert DigitValue(d[i]) < Decimals.Base();
    }
  }

  lemma {:induction false} StatusLineDecoded(rules: HttpRules, status: nat)
    requires rules.Lawful()
    ensures var version, digits := Ascii("HTTP/1.1"), Decimal(status);
            && StatusLine(rules, status) == version + [SP] + (digits + [SP] + Encode(ReasonText(rules, status)))
            && Decode(StatusLine(rules, status)) == version + [SP] + (digits + [SP] + ReasonText(rules, status))
    ensures Inline(ReasonText(rules, status))
  {
    hide Decimal, Ascii, Encode, Decode;
    VersionIsPlain();
    DecimalIsAscii(status);
    EncodeAscii(Ascii("OK"));
    var version, digits, reason := Ascii("HTTP/1.1"), Decimal(status), Encode(ReasonText(rules, status));
    var sp: Bytes := [SP];
    DecodeAroundAscii(version, sp, digits + sp + reason);
    DecodeAroundAscii(digits, sp, reason);
    DecodeAscii(version);
    DecodeAscii(digits);
    DecodeEncoded(ReasonText(rules, status));
  }

  lemma {:induction false} StatusLineIsRead(rules: HttpRules, status: nat)
    requires rules.Lawful() && status <= U16_MAX
    ensures OneLine(StatusLine(rules, status))
    ensures |Tokens(Decode(StatusLine(rules, status)))| >= 2
    ensures ParseNumber(Tokens(Decode(StatusLine(rules, status)))[1], Decimals, U16_MAX) == Some(status)
    ensures Ascii("HTTP/") <= StatusLine(rules, status) && Ascii("HTTP/") <= Decode(StatusLine(rules, status))
  {
    hide ParseNumber, Decimal, Ascii, Tokens, Decode, Encode, ReasonText, StatusLine;
    VersionIsPlain();
    StatusLineDecoded(rules, status);
    var version, digits, reason := Ascii("HTTP/1.1"), Decimal(status), ReasonText(rules, status);
    TokensStep(version, digits + [SP] + reason);
    TokensStep(digits, reason);
    ParsePrintedDecimal(status, U16_MAX);
    SpacelessIsInline(version);
    SpacelessIsInline(digits);
    EncodeKeepsInline(reason);
    assert StatusLine(rules, status)[..5] == version[..5];
    assert Decode(StatusLine(rules, status))[..5] == version[..5];
  }

  lemma {:induction false} MethodIsNotEmpty(m: Bytes)
    requires IsToken(m)
    ensures m != []
  {
  }

  lemma {:induction false} RequestLineDecoded(req: Request)
    requires IsToken(req.verb)
    ensures Decode(RequestLine(req)) == req.verb + [SP] + (req.uri + [SP] + Ascii("HTTP/1.1"))
  {
    hide Ascii, Encode, Decode;
    VersionIsPlain();
    TokenIsPlain(req.verb);
    var sp: Bytes := [SP];
    DecodeAroundAscii(req.verb, sp, Encode(req.uri) + sp + Ascii("HTTP/1.1"));
    DecodeAroundAscii(Encode(req.uri), sp, Ascii("HTTP/1.1"));
    DecodeAscii(req.verb);
    DecodeAscii(Ascii("HTTP/1.1"));
    DecodeEncoded(req.uri);
  }

  /** What the parser takes for the target of a printed request line. */
  function TargetRead(uri: Text): Text {
    TokenOr(Tokens(uri + [SP] + Ascii("HTTP/1.1")), 0, Ascii("/"))
  }

  /** A target without white space is taken as it is. */
  lemma {:induction false} SpacelessTarget(uri: Text)
    requires uri != [] && NoSpace(uri)
    ensures TargetRead(uri) == uri
  {
    TokensStep(uri, Ascii("HTTP/1.1"));
  }

  lemma {:induction false} RequestLineIsRead(rules: HttpRules, req: Request)
    requires rules.Lawful() && WellFormedRequest(rules, req)
    ensures OneLine(RequestLine(req))
    ensures var tokens := Tokens(Decode(RequestLine(req)));
            tokens != [] && tokens[0] == req.verb && TokenOr(tokens, 1, Ascii("/")) == TargetRead(req.uri)
  {
    hide Ascii, Tokens, IsToken, ValidMap, Encode, Decode;
    VersionIsPlain();
    TokenIsPlain(req.verb);
    assert req.verb != [] by {
      MethodIsNotEmpty(req.verb);
    }
    RequestLineDecoded(req);
    TokensStep(req.verb, req.uri + [SP] + Ascii("HTTP/1.1"));
    EncodeKeepsInline(req.uri);
    SpacelessIsInline(Ascii("HTTP/1.1"));
  }

  // ── Parse and print ──────────────────────────────────────────

  function CleanedResponse(res: Response): Response {
    res.(headers := CleanedMap(res.headers))
  }

  /** Parsing a printed response gives it back with its values cleaned. */
  lemma {:induction false} ParsePrintedResponse(rules: HttpRules, res: Response)
    requires rules.Lawful() && WellFormedResponse(res) && res.body.Full?
    ensures ParsedResponse(ResponseBytes(rules, res)) == Ok(CleanedResponse(res))
  {
    hide StatusLine, Tokens, ParseNumber, HeadersOf, FindBlank, ValidField, ValidMap, CleanedMap, TextLines, Ascii,
         Fields, Decode;
    var start, fields := StatusLine(rules, res.status), Fields(res.headers);
    StatusLineIsRead(rules, res.status);
    FieldsAreValid(res.headers);
    PrintedHeadEnds(start, fields, res.body.bytes);
    PrintedHeadLines(start, fields, res.body.bytes);
    var lines := TextLines(ResponseBytes(rules, res));
    assert lines[1..] == FieldTexts(fields) + [[]] + TextLines(res.body.bytes);
    PrintedMapIsRead(res.headers, TextLines(res.body.bytes));
  }

  /** Parse undoes print on a response exactly when its values are valid UTF-8 without white
      space at their ends. */
  lemma {:induction false} ResponseRoundTrip(rules: HttpRules, res: Response)
    requires rules.Lawful() && WellFormedResponse(res) && res.body.Full?
    ensures ParsedResponse(ResponseBytes(rules, res)) == Ok(res) <==> CleanMap(res.headers)
  {
    ParsePrintedResponse(rules, res);
    CleanedMapIsIdentity(res.headers);
  }

  /** Parsing a printed request gives it back with its values cleaned and its target read up
      to the first white space. */
  lemma {:induction false} ParsePrintedRequest(rules: HttpRules, req: Request)
    requires rules.Lawful() && WellFormedRequest(rules, req) && req.body.Full?
    ensures ParsedRequest(rules, RequestBytes(req))
            == match rules.canonicalUri(TargetRead(req.uri))
               case None => Err(BuilderPanics)
               case Some(uri) => Ok(req.(uri := uri, headers := CleanedMap(req.headers)))
  {
    hide RequestLine, Tokens, HeadersOf, FindBlank, ValidField, IsToken, ValidMap, CleanedMap, TextLines, Ascii, Fields,
         Decode, TargetRead;
    var start, fields := RequestLine(req), Fields(req.headers);
    RequestLineIsRead(rules, req);
    FieldsAreValid(req.headers);
    PrintedHeadEnds(start, fields, req.body.bytes);
    PrintedHeadLines(start, fields, req.body.bytes);
    var lines := TextLines(RequestBytes(req));
    assert lines[1..] == FieldTexts(fields) + [[]] + TextLines(req.body.bytes);
    PrintedMapIsRead(req.headers, TextLines(req.body.bytes));
  }

  /** Parse undoes print on a request exactly when its values are valid UTF-8 without white
      space at their ends, and its target up to the first white space stands for the same. */
  lemma {:induction false} RequestRoundTrip(rules: HttpRules, req: Request)
    requires rules.Lawful() && WellFormedRequest(rules, req) && req.body.Full?
    ensures ParsedRequest(rules, RequestBytes(req)) == Ok(req)
            <==> CleanMap(req.headers) && rules.canonicalUri(TargetRead(req.uri)) == Some(req.uri)
  {
    hide ParsedRequest, RequestBytes, CleanMap, TargetRead;
    ParsePrintedRequest(rules, req);
    CleanedMapIsIdentity(req.headers);
  }

  /** Whatever the text, the headers that a parser accepts are valid and clean. */
  lemma {:induction false} ReadHeadersAreCanonical(lines: seq<Text>, m: HeaderMap)
    requires ValidMap(m) && CleanMap(m) && HeadersOf(lines, m).Some?
    ensures ValidMap(HeadersOf(lines, m).value) && CleanMap(HeadersOf(lines, m).value)
    decreases |lines|
  {
    hide IsToken, ValidValue, ValidName, Encode, Trim, Clean, Append;
    if lines != [] && lines[0] != [] {
      var colon := IndexOf(lines[0], COLON);
      if colon == |lines[0]| {
        ReadHeadersAreCanonical(lines[1..], m);
      } else {
        var key, value := Trim(lines[0][..colon]), Trim(lines[0][colon + 1..]);
        TokenIsPlain(key);
        EncodeAscii(Lower(key));
        TrimIsTrimmed(lines[0][colon + 1..]);
        TrimmedIsClean(value);
        AppendKeepsValid(m, Encode(Lower(key)), Encode(value));
        AppendKeepsClean(m, Encode(Lower(key)), Encode(value));
        ReadHeadersAreCanonical(lines[1..], Append(m, Encode(Lower(key)), Encode(value)));
      }
    }
  }

  lemma {:induction false} AppendKeepsClean(m: HeaderMap, name: Bytes, value: Bytes)
    requires CleanMap(m) && Clean(value)
    ensures CleanMap(Append(m, name, value))
  {
    hide Clean;
    var r := Append(m, name, value);
    var i := NamePosition(m, name);
    forall e, v | e in r && v in e.values
      ensures Clean(v)
    {
      if e !in m {
        assert e == r[i];
        assert i < |m| ==> m[i] in m;
      }
    }
  }

  /** For any bytes that the response parser accepts, printing is a canonical form: it is
      read as the same response, so printing again changes nothing. */
  lemma {:induction false} ResponsePrintIsCanonical(rules: HttpRules, raw: Bytes)
    requires rules.Lawful() && ParsedResponse(raw).Ok?
    ensures var res := ParsedResponse(raw).value;
            && WellFormedResponse(res)
            && ParsedResponse(ResponseBytes(rules, res)) == Ok(res)
  {
    var lines := TextLines(raw);
    var res := ParsedResponse(raw).value;
    if lines != [] {
      ReadHeadersAreCanonical(lines[1..], []);
    }
    ResponseRoundTrip(rules, res);
  }

  lemma {:induction false} SlashHasNoSpace()
    ensures NoSpace(Ascii("/"))
  {
  }

  /** The target that the parser accepts is read from its print. */
  lemma {:induction false} ParsedTarget(rules: HttpRules, raw: Bytes)
    requires rules.Lawful() && ParsedRequest(rules, raw).Ok?
    ensures var uri := ParsedRequest(rules, raw).value.uri;
            uri != [] && rules.canonicalUri(uri) == Some(uri) && TargetRead(uri) == uri
  {
    hide TextLines, Ascii, HeadersOf, FindBlank, IsToken, TargetRead, Inline, NoSpace;
    var lines := TextLines(raw);
    SlashHasNoSpace();
    SpacelessTarget(ParsedRequest(rules, raw).value.uri);
  }

  /** The same for requests; the target is then in the form that the crate prints. */
  lemma {:induction false} RequestPrintIsCanonical(rules: HttpRules, raw: Bytes)
    requires rules.Lawful() && ParsedRequest(rules, raw).Ok?
    ensures var req := ParsedRequest(rules, raw).value;
            && WellFormedRequest(rules, req)
            && ParsedRequest(rules, RequestBytes(req)) == Ok(req)
  {
    var lines := TextLines(raw);
    var req := ParsedRequest(rules, raw).value;
    hide TextLines, Tokens, Ascii, FindBlank, IsToken, TargetRead, HttpRules.Lawful, CleanMap, ValidMap, RequestBytes;
    NoHeadersAreClean();
    if lines != [] {
      ReadHeadersAreCanonical(lines[1..], []);
    }
    ParsedTarget(rules, raw);
    RequestRoundTrip(rules, req);
  }

  lemma {:induction false} NoHeadersAreClean()
    ensures ValidMap([]) && CleanMap([])
  {
  }
}
