/**
 A response that is serialised, cut into fragments, read and parsed again
 (src/proxy.rs:147-201, 272-344): when it comes back, and when it does not.
 */
module RoundTrip {
  import opened Wrappers
  import opened ByteText
  import opened Transport
  import opened Utf8
  import opened Framing
  import opened Headers
  import opened Http
  import opened Messages

  import Reader
  import Fragmentation

  // ── What the headers announce ────────────────────────────────

  const CHUNKED: Bytes := Ascii("chunked")

  predicate ChunkedField(f: Field) {
    f.name == TRANSFER_ENCODING && Contains(Lower(Decode(f.value)), CHUNKED)
  }

  predicate ChunkedHeaders(m: HeaderMap) {
    exists f :: f in Fields(m) && ChunkedField(f)
  }

  function LengthValue(value: Bytes): Option<nat> {
    ParseNumber(Trim(Before(Decode(value), COLON)), Decimals, USIZE_MAX)
  }

  /** The length that the first Content-Length value announces, if it is a number. */
  function DeclaredLength(m: HeaderMap): Option<nat> {
    match Get(m, CONTENT_LENGTH)
    case None => None
    case Some(value) => LengthValue(value)
  }

  /** The framing that the headers announce delimits this very body. */
  predicate BodyFits(res: Response, ending: Ending)
    requires res.body.Full?
  {
    var body := res.body.bytes;
    if Bodiless(res.status) then body == []
    else if ChunkedHeaders(res.headers) then body == [] && ending == Closed
    else
      match DeclaredLength(res.headers)
      case None => ending == Closed
      case Some(n) => |body| == n || (|body| < n && ending == Closed)
  }

  // ── The tests on a printed head see the headers ──────────────

  lemma {:induction false} LowerSplits(a: Text, b: Text)
    ensures Lower(a + b) == Lower(a) + Lower(b)
  {
  }

  lemma {:induction false} LowerFieldLine(f: Field)
    requires ValidField(f)
    ensures Lower(FieldLine(f)) == f.name + [COLON, SP] + Lower(Decode(f.value))
  {
    hide Decode;
    LowerSplits(f.name + [COLON, SP], Decode(f.value));
    LowerSplits(f.name, [COLON, SP]);
    assert Lower([COLON, SP]) == [COLON, SP];
  }

  /** A header line starts with a word and a colon exactly when that word is its name. */
  lemma {:induction false} NameIsPrefix(f: Field, word: Bytes)
    requires ValidField(f) && COLON !in word
    ensures word + [COLON] <= Lower(FieldLine(f)) <==> f.name == word
  {
    hide Decode, Lower;
    var text := Lower(FieldLine(f));
    LowerFieldLine(f);
    TokenIsPlain(f.name);
    assert text[|f.name|] == COLON && text[..|f.name| + 1] == f.name + [COLON];
    if word + [COLON] <= text {
      assert text[..|word| + 1] == word + [COLON];
      assert text[|word|] == COLON;
      assert |word| == |f.name|;
      assert text[..|word|] == word;
    }
  }

  lemma {:induction false} Words()
    ensures Ascii("transfer-encoding:") == TRANSFER_ENCODING + [COLON] && COLON !in TRANSFER_ENCODING
    ensures Ascii("content-length:") == CONTENT_LENGTH + [COLON] && COLON !in CONTENT_LENGTH
    ensures Ascii("transfer-encoding:")[0] != 104 && Ascii("content-length:")[0] != 104
    ensures TRANSFER_ENCODING != CONTENT_LENGTH
  {
    assert |CONTENT_LENGTH| == 14 && |TRANSFER_ENCODING| == 17;
  }

  /** The word `chunked` cannot start inside the name that precedes the value. */
  lemma {:induction false} ChunkedIsInValue(value: Text)
    ensures Contains(TRANSFER_ENCODING + [COLON] + value, CHUNKED) <==> Contains(value, CHUNKED)
  {
    var prefix := TRANSFER_ENCODING + [COLON];
    var text := prefix + value;
    var n := |prefix|;
    assert CHUNKED[0] == 99 && CHUNKED[1] == 104 && |CHUNKED| == 7;
    assert forall i :: 0 <= i < n && prefix[i] == 99 ==> i == 11;
    assert prefix[12] == 111;
    if Contains(text, CHUNKED) {
      var i: nat :| i <= |text| && MatchesAt(text, CHUNKED, i);
      assert text[i] == text[i..i + 7][0] == 99;
      assert text[i + 1] == text[i..i + 7][1] == 104;
      assert i >= n by {
        assert text[12] == prefix[12];
        if i < n {
          assert false;
        }
      }
      assert text[i..i + 7] == value[i - n..i - n + 7];
      assert MatchesAt(value, CHUNKED, i - n);
    }
    if Contains(value, CHUNKED) {
      var i: nat :| i <= |value| && MatchesAt(value, CHUNKED, i);
      assert text[n + i..n + i + 7] == value[i..i + 7];
      assert MatchesAt(text, CHUNKED, n + i);
    }
  }

  lemma {:induction false} ShiftedSlice(s: Text, i: nat)
    requires i + 7 <= |s|
    ensures ([SP] + s)[i + 1..i + 8] == s[i..i + 7]
  {
  }

  lemma {:induction false} SpaceBeforeChunked(s: Text)
    ensures Contains([SP] + s, CHUNKED) <==> Contains(s, CHUNKED)
  {
    var t := [SP] + s;
    assert CHUNKED[0] != SP && |CHUNKED| == 7;
    hide Ascii;
    if Contains(t, CHUNKED) {
      var i: nat :| i <= |t| && MatchesAt(t, CHUNKED, i);
      assert t[i] == t[i..i + 7][0];
      ShiftedSlice(s, i - 1);
      assert MatchesAt(s, CHUNKED, i - 1);
    }
    if Contains(s, CHUNKED) {
      var i: nat :| i <= |s| && MatchesAt(s, CHUNKED, i);
      ShiftedSlice(s, i);
      assert MatchesAt(t, CHUNKED, i + 1);
    }
  }

  lemma {:induction false} ChunkedLineIff(f: Field)
    requires ValidField(f)
    ensures IsChunkedLine(FieldLine(f)) <==> ChunkedField(f)
  {
    hide Contains, Lower, Ascii, ValidField, Decode;
    Words();
    NameIsPrefix(f, TRANSFER_ENCODING);
    LowerFieldLine(f);
    if f.name == TRANSFER_ENCODING {
      var value := Lower(Decode(f.value));
      assert [COLON, SP] == [COLON] + [SP];
      assert f.name + [COLON, SP] + value == f.name + [COLON] + ([SP] + value);
      ChunkedIsInValue([SP] + value);
      SpaceBeforeChunked(value);
    }
  }

  lemma {:induction false} BeforeBehindSpace(s: Text)
    ensures Before([SP] + s, COLON) == [SP] + Before(s, COLON)
  {
    assert ([SP] + s)[1..] == s;
  }

  lemma {:induction false} LengthLineIff(f: Field)
    requires ValidField(f)
    ensures IsLengthLine(FieldLine(f)) <==> f.name == CONTENT_LENGTH
    ensures LengthOfLine(FieldLine(f)) == LengthValue(f.value)
  {
    hide Lower, Ascii, ParseNumber, Trim, ValidField, Decode, IndexOf, Before;
    Words();
    NameIsPrefix(f, CONTENT_LENGTH);
    FieldLineParts(f);
    var line, n, value := FieldLine(f), |f.name|, Decode(f.value);
    assert line[n + 1..] == [SP] + value;
    BeforeBehindSpace(value);
    TrimLeadingSpace(Before(value, COLON));
  }

  /** Lines that do not start like the two framing headers: the status line, the blank line. */
  lemma {:induction false} OtherLines(start: Text)
    requires Ascii("HTTP/") <= start
    ensures !IsChunkedLine(start) && !IsLengthLine(start) && !IsChunkedLine([]) && !IsLengthLine([])
  {
    hide Contains;
    Words();
    assert start[0] == start[..5][0] == 72;
    assert Lower(start)[0] == 104;
  }

  lemma {:induction false} ChunkedTextsIff(fields: seq<Field>)
    requires AllValid(fields)
    ensures (exists l :: l in FieldTexts(fields) && IsChunkedLine(l))
            <==> (exists f :: f in fields && ChunkedField(f))
  {
    hide IsChunkedLine, ChunkedField, ValidField;
    if fields != [] {
      var texts, f := FieldTexts(fields), fields[0];
      ChunkedLineIff(f);
      ChunkedTextsIff(fields[1..]);
      assert texts == [FieldLine(f)] + FieldTexts(fields[1..]);
      assert fields == [f] + fields[1..];
      assert texts[0] in texts && f in fields;
    }
  }

  function LengthInFields(fields: seq<Field>): Option<nat> {
    if fields == [] then None
    else if fields[0].name == CONTENT_LENGTH then LengthValue(fields[0].value)
    else LengthInFields(fields[1..])
  }

  lemma {:induction false} LengthTexts(fields: seq<Field>, more: seq<Text>)
    requires AllValid(fields) && LengthInLines(more) == None
    ensures LengthInLines(FieldTexts(fields) + more) == LengthInFields(fields)
  {
    hide IsLengthLine, LengthOfLine, LengthValue, ValidField;
    var lines := FieldTexts(fields) + more;
    if fields == [] {
      assert lines == more;
    } else {
      LengthLineIff(fields[0]);
      LengthTexts(fields[1..], more);
      assert lines[1..] == FieldTexts(fields[1..]) + more;
    }
  }

  lemma {:induction false} LengthSkipsEntry(name: Bytes, values: seq<Bytes>, more: seq<Field>)
    requires name != CONTENT_LENGTH
    ensures LengthInFields(FieldsOf(name, values) + more) == LengthInFields(more)
  {
    hide LengthValue;
    var fields := FieldsOf(name, values) + more;
    if values == [] {
      assert fields == more;
    } else {
      assert fields[1..] == FieldsOf(name, values[1..]) + more;
      LengthSkipsEntry(name, values[1..], more);
    }
  }

  lemma {:induction false} LengthOfMap(m: HeaderMap)
    requires ValidMap(m)
    ensures LengthInFields(Fields(m)) == DeclaredLength(m)
  {
    hide LengthValue, ValidName, ValidValue;
    if m != [] {
      var e := m[0];
      assert ValidEntry(e);
      assert ValidMap(m[1..]);
      if e.name == CONTENT_LENGTH {
        assert Fields(m)[0] == Field(e.name, e.values[0]);
      } else {
        LengthSkipsEntry(e.name, e.values, Fields(m[1..]));
        LengthOfMap(m[1..]);
      }
    }
  }

  lemma {:induction false} NoLengthInBlank()
    ensures LengthInLines([[]]) == None
  {
    var blank: seq<Text> := [[]];
    assert blank[1..] == [] && !IsLengthLine([]);
  }

  lemma {:induction false} ChunkedAmong(start: Text, lines: seq<Text>)
    requires !IsChunkedLine(start) && !IsChunkedLine([])
    ensures (exists l :: l in [start] + (lines + [[]]) && IsChunkedLine(l))
            <==> (exists l :: l in lines && IsChunkedLine(l))
  {
    hide IsChunkedLine;
  }

  /** The tests on the header lines of a printed head, request or response. */
  lemma {:induction false} PrintedLinesSay(start: Bytes, m: HeaderMap)
    requires OneLine(start) && ValidMap(m) && !IsChunkedLine(Decode(start)) && !IsLengthLine(Decode(start))
    ensures var head := HeadText(start, Fields(m));
            && TextLines(head) != [] && TextLines(head)[0] == Decode(start)
            && (IsChunked(head) <==> ChunkedHeaders(m))
            && GetContentLength(head) == DeclaredLength(m)
  {
    BlankLineIsOther();
    hide IsChunkedLine, ChunkedField, LengthOfLine, IsLengthLine, ValidField, DeclaredLength, TextLines, FieldTexts,
         HeadText, Fields, ValidMap, Decode;
    var head, fields := HeadText(start, Fields(m)), Fields(m);
    var texts := FieldTexts(fields);
    FieldsAreValid(m);
    PrintedHeadLines(start, fields, []);
    NoTextLines();
    assert head + [] == head;
    assert TextLines(head) == [Decode(start)] + (texts + [[]]);
    assert TextLines(head)[1..] == texts + [[]];
    ChunkedTextsIff(fields);
    ChunkedAmong(Decode(start), texts);
    NoLengthInBlank();
    LengthTexts(fields, [[]]);
    LengthOfMap(m);
  }

  lemma {:induction false} BlankLineIsOther()
    ensures !IsChunkedLine([]) && !IsLengthLine([])
  {
  }

  /** All four tests on a printed head, in terms of the status and the headers. */
  lemma {:induction false} PrintedHeadTests(rules: HttpRules, res: Response)
    requires rules.Lawful() && WellFormedResponse(res)
    ensures var head := ResponseHead(rules, res);
            && (IsNoBodyStatus(head) <==> Bodiless(res.status))
            && !IsRequest(head)
            && (IsChunked(head) <==> ChunkedHeaders(res.headers))
            && GetContentLength(head) == DeclaredLength(res.headers)
  {
    hide StatusLine, StatusOfLine, IsChunkedLine, IsLengthLine, DeclaredLength, ChunkedHeaders, TextLines, Ascii,
         HeadText, Fields, ValidMap, Decode, IsChunked, GetContentLength;
    var start := StatusLine(rules, res.status);
    StatusLineSays(rules, res.status);
    StatusLineIsRead(rules, res.status);
    OtherLines(Decode(start));
    PrintedLinesSay(start, res.headers);
  }

  lemma {:induction false} StatusLineSays(rules: HttpRules, status: nat)
    requires rules.Lawful() && status <= U16_MAX
    ensures StatusOfLine(Decode(StatusLine(rules, status))) == Some(status)
  {
    hide StatusLine, Tokens, ParseNumber, Ascii, Decode;
    StatusLineIsRead(rules, status);
  }

  // ── Write, read, parse ───────────────────────────────────────

  lemma {:induction false} BodyComesBackIff(rules: HttpRules, res: Response, ending: Ending)
    requires rules.Lawful() && WellFormedResponse(res) && res.body.Full?
    ensures BodyOf(ResponseHead(rules, res), res.body.bytes, [], ending) == Ok(res.body.bytes)
            <==> BodyFits(res, ending)
  {
    hide DeclaredLength, ChunkedHeaders, IsChunked, GetContentLength, IsNoBodyStatus, IsRequest, Scan;
    PrintedHeadTests(rules, res);
    var body := res.body.bytes;
    Fragmentation.PayloadIsShorter(body);
    Fragmentation.NothingToDechunk();
    ScanOfNothing();
    match DeclaredLength(res.headers) {
      case None =>
      case Some(n) =>
        assert |body| >= n ==> (body[..n] == body <==> |body| == n);
    }
  }

  lemma {:induction false} ScanOfNothing()
    ensures Scan([]) == ChunkScan([], Truncated)
  {
    assert FirstChunk([]) == Err(Truncated);
  }

  /** For every fragmentation and buffer, writing a response, reading it and parsing it
      gives the response back exactly when its values are clean and its headers delimit
      its body. The body may hold any bytes, CRLFCRLF included. */
  lemma {:induction false} WriteReadParse(rules: HttpRules, res: Response, fragments: seq<Bytes>,
                                           bufSize: nat, ending: Ending)
    requires rules.Lawful() && WellFormedResponse(res) && res.body.Full?
    requires Fragmentation.Delivers(fragments, ResponseBytes(rules, res)) && bufSize > 0
    ensures var r := Reader.ReadOutcome(fragments, bufSize, ending);
            (r.Ok? && ParsedResponse(r.value) == Ok(res))
            <==> (CleanMap(res.headers) && BodyFits(res, ending))
  {
    hide BodyFits, ValidField, StatusLine, HeadersOf, BodyOf, IsNoBodyStatus, IsChunked, GetContentLength,
         FindBlank, TextLines;
    var start, fields, body := StatusLine(rules, res.status), Fields(res.headers), res.body.bytes;
    var s, head := ResponseBytes(rules, res), ResponseHead(rules, res);
    StatusLineIsRead(rules, res.status);
    FieldsAreValid(res.headers);
    PrintedHeadEnds(start, fields, body);
    PrintedHeadTests(rules, res);
    assert !IsBareRequest(head);
    Fragmentation.OutcomeIsMessage(fragments, bufSize, ending, s);
    BodyComesBackIff(rules, res, ending);
    ResponseRoundTrip(rules, res);
    var r := BodyOf(head, body, [], ending);
    if r.Ok? {
      PrintedHeadEnds(start, fields, r.value);
      var back := res.(body := Full(r.value));
      assert ResponseBytes(rules, back) == head + r.value;
      ParsePrintedResponse(rules, back);
      CleanedMapIsIdentity(res.headers);
    }
  }
}
