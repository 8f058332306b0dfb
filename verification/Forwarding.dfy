/**
 From the upstream's bytes to the client's: a response that was parsed from any bytes and
 printed again for the client (src/http_proxy.rs:76-81 with a handler that changes
 nothing), and read there.

 The proxy's reader tests the text of the upstream's head, the client's the printed
 headers. They agree on every head whose header lines have nothing but their name in front
 of the colon, and whose only empty line is the last.
 */
module Forwarding {
  import opened Wrappers
  import opened ByteText
  import opened Transport
  import opened Utf8
  import opened Framing
  import opened Headers
  import opened Http
  import opened Messages
  import opened RoundTrip

  import Reader
  import Fragmentation

  // ── What the header walk collects ────────────────────────────

  function LineField(line: Text): Field {
    var colon := IndexOf(line, COLON);
    if colon == |line| then Field([], [])
    else Field(Encode(Lower(Trim(line[..colon]))), Encode(Trim(line[colon + 1..])))
  }

  predicate HasColon(line: Text) {
    IndexOf(line, COLON) < |line|
  }

  predicate Accepted(line: Text) {
    var colon := IndexOf(line, COLON);
    colon < |line| ==> IsToken(Trim(line[..colon])) && ValidValue(Encode(Trim(line[colon + 1..])))
  }

  /** The lines in front of the first empty one. */
  function UpToEmpty(lines: seq<Text>): seq<Text> {
    if lines == [] || lines[0] == [] then [] else [lines[0]] + UpToEmpty(lines[1..])
  }

  /** The fields of the lines that have a colon. */
  function FieldsIn(lines: seq<Text>): seq<Field> {
    if lines == [] then []
    else (if HasColon(lines[0]) then [LineField(lines[0])] else []) + FieldsIn(lines[1..])
  }

  /** The walk collects, in order, the fields of the lines up to the first empty one that
      have a colon, if all of them are accepted, and fails if one is not. */
  lemma {:induction false} HeadersAreFields(lines: seq<Text>, m: HeaderMap)
    ensures HeadersOf(lines, m)
            == if forall l :: l in UpToEmpty(lines) ==> Accepted(l)
               then Some(AppendAll(m, FieldsIn(UpToEmpty(lines)))) else None
    decreases |lines|
  {
    hide IsToken, ValidValue, Trim, IndexOf, Encode;
    var walked := UpToEmpty(lines);
    if lines != [] && lines[0] != [] {
      var line, rest := lines[0], UpToEmpty(lines[1..]);
      assert walked == [line] + rest;
      assert (forall l :: l in walked ==> Accepted(l)) <==> Accepted(line) && forall l :: l in rest ==> Accepted(l);
      var f := LineField(line);
      HeadersAreFields(lines[1..], if HasColon(line) then Append(m, f.name, f.value) else m);
      assert walked[1..] == rest;
      if HasColon(line) {
        assert FieldsIn(walked)[1..] == FieldsIn(rest);
      } else {
        assert FieldsIn(walked) == FieldsIn(rest);
      }
    }
  }

  // ── Heads that are plain enough ──────────────────────────────

  /** Nothing but the name stands in front of the colon. */
  predicate StrictLine(line: Text) {
    line != [] && (HasColon(line) ==> IsToken(Before(line, COLON)))
  }

  /** A status line, strict header lines, and the blank line at the end only. */
  predicate StrictHead(head: Bytes) {
    var lines := TextLines(head);
    && |lines| >= 2 && Ascii("HTTP/") <= lines[0] && lines[|lines| - 1] == []
    && head != [] && head[|head| - 1] == LF
    && forall i :: 1 <= i < |lines| - 1 ==> StrictLine(lines[i])
  }

  lemma {:induction false} TrimIsSlice(s: Text) returns (a: nat, b: nat)
    ensures a <= b <= |s| && Trim(s) == s[a..b]
    ensures forall i :: 0 <= i < a || b <= i < |s| ==> IsSpace(s[i])
  {
    var t := TrimStart(s);
    TrimStartIsSuffix(s);
    TrimEndIsPrefix(t);
    TrimStartDropsSpaces(s);
    TrimEndDropsSpaces(t);
    a := |s| - |t|;
    b := a + |Trim(s)|;
    assert t == s[a..];
    forall i | b <= i < |s|
      ensures IsSpace(s[i])
    {
      assert s[i] == t[i - a];
    }
  }

  lemma {:induction false} TrimStartDropsSpaces(s: Text)
    ensures forall i :: 0 <= i < |s| - |TrimStart(s)| ==> IsSpace(s[i])
  {
    if s != [] && IsSpace(s[0]) {
      TrimStartDropsSpaces(s[1..]);
      assert forall i :: 1 <= i < |s| ==> s[i] == s[1..][i - 1];
    }
  }

  lemma {:induction false} TrimEndDropsSpaces(s: Text)
    ensures forall i :: |TrimEnd(s)| <= i < |s| ==> IsSpace(s[i])
  {
    if s != [] && IsSpace(s[|s| - 1]) {
      TrimEndDropsSpaces(s[..|s| - 1]);
    }
  }

  lemma {:induction false} SliceOfSlice(s: Text, a: nat, b: nat, i: nat, n: nat)
    requires a <= b <= |s| && a + i + n <= b
    ensures s[a..b][i..i + n] == s[a + i..a + i + n]
  {
    var left, right := s[a..b][i..i + n], s[a + i..a + i + n];
    assert forall k :: 0 <= k < n ==> left[k] == right[k];
    assert left == right;
  }

  lemma {:induction false} MatchInSlice(whole: Text, a: nat, b: nat, i: nat)
    requires a <= b <= |whole| && |CHUNKED| == 7
    ensures MatchesAt(whole[a..b], CHUNKED, i) ==> i <= b - a && MatchesAt(whole, CHUNKED, a + i)
    ensures a + i + 7 <= b && MatchesAt(whole, CHUNKED, a + i) ==> MatchesAt(whole[a..b], CHUNKED, i)
  {
    hide Ascii;
    if a + i + 7 <= b {
      SliceOfSlice(whole, a, b, i, 7);
    }
  }

  lemma {:induction false} ContainsInSlice(whole: Text, a: nat, b: nat)
    requires a <= b <= |whole| && forall i :: 0 <= i < a || b <= i < |whole| ==> IsSpace(whole[i])
    ensures Contains(whole[a..b], CHUNKED) <==> Contains(whole, CHUNKED)
  {
    ChunkedHasNoSpace();
    hide IsSpace, Ascii, MatchesAt;
    if Contains(whole[a..b], CHUNKED) {
      var i: nat :| i <= b - a && MatchesAt(whole[a..b], CHUNKED, i);
      MatchInSlice(whole, a, b, i);
    }
    if Contains(whole, CHUNKED) {
      var i: nat :| i <= |whole| && MatchesAt(whole, CHUNKED, i);
      MatchStaysInside(whole, a, b, i);
      MatchInSlice(whole, a, b, i - a);
    }
  }

  lemma {:induction false} MatchStaysInside(whole: Text, a: nat, b: nat, i: nat)
    requires a <= b <= |whole| && forall k :: 0 <= k < a || b <= k < |whole| ==> IsSpace(whole[k])
    requires MatchesAt(whole, CHUNKED, i)
    ensures a <= i && i + 7 <= b
  {
    ChunkedHasNoSpace();
    hide IsSpace, Ascii;
    assert whole[i] == whole[i..i + 7][0];
    assert whole[i + 6] == whole[i..i + 7][6];
  }

  lemma {:induction false} ContainsInTrimmed(s: Text)
    ensures Contains(Lower(Trim(s)), CHUNKED) <==> Contains(Lower(s), CHUNKED)
  {
    hide Trim, Contains;
    var a, b := TrimIsSlice(s);
    assert Lower(Trim(s)) == Lower(s)[a..b];
    ContainsInSlice(Lower(s), a, b);
  }

  lemma {:induction false} ChunkedHasNoSpace()
    ensures |CHUNKED| == 7 && !IsSpace(CHUNKED[0]) && !IsSpace(CHUNKED[6])
  {
  }

  // ── The tests on a strict line ───────────────────────────────

  lemma {:induction false} StrictParts(line: Text)
    requires StrictLine(line) && HasColon(line)
    ensures var n := IndexOf(line, COLON);
            && IsToken(line[..n]) && Trim(line[..n]) == line[..n]
            && line == line[..n] + [COLON] + line[n + 1..]
            && LineField(line).name == Lower(line[..n]) && LineField(line).value == Encode(Trim(line[n + 1..]))
            && Decode(LineField(line).value) == Trim(line[n + 1..])
  {
    hide IsToken, Encode, Decode, Trim, Lower;
    var n := IndexOf(line, COLON);
    TokenIsPlain(line[..n]);
    TrimIsTrimmed(line[..n]);
    EncodeAscii(Lower(line[..n]));
    DecodeEncoded(Trim(line[n + 1..]));
  }

  lemma {:induction false} PrefixEndsAtColon(line: Text, word: Bytes)
    requires COLON !in word && word + [COLON] <= Lower(line)
    ensures IndexOf(line, COLON) == |word| < |line| && Lower(line[..|word|]) == word
  {
    hide IndexOf;
    var text, n := Lower(line), |word|;
    assert text[..n + 1] == word + [COLON];
    assert text[n] == COLON && line[n] == COLON;
    assert forall i :: 0 <= i < n ==> text[i] == text[..n + 1][i] == word[i];
    assert Lower(line[..n]) == word;
    forall b | b in line[..n]
      ensures b != COLON
    {
      var i :| 0 <= i < n && line[..n][i] == b;
      assert text[i] in word;
    }
    IndexOfIs(line, COLON, n);
  }

  lemma {:induction false} StrictNameIsPrefix(line: Text, word: Bytes)
    requires StrictLine(line) && COLON !in word
    ensures word + [COLON] <= Lower(line) <==> HasColon(line) && LineField(line).name == word
  {
    hide IndexOf, Lower, StrictLine, LineField, IsToken;
    if word + [COLON] <= Lower(line) {
      PrefixEndsAtColon(line, word);
      StrictParts(line);
    }
    if HasColon(line) && LineField(line).name == word {
      StrictParts(line);
      var n := IndexOf(line, COLON);
      LowerSplits(line[..n] + [COLON], line[n + 1..]);
      LowerSplits(line[..n], [COLON]);
      LowerColon();
    }
  }

  lemma {:induction false} LowerColon()
    ensures Lower([COLON]) == [COLON]
  {
  }

  lemma {:induction false} StrictChunkedLine(line: Text)
    requires StrictLine(line)
    ensures IsChunkedLine(line) <==> HasColon(line) && ChunkedField(LineField(line))
  {
    hide Contains, StrictLine, Ascii, IsToken, LineField, Decode, Encode;
    Words();
    StrictNameIsPrefix(line, TRANSFER_ENCODING);
    if HasColon(line) && LineField(line).name == TRANSFER_ENCODING {
      StrictParts(line);
      var n := IndexOf(line, COLON);
      var after := line[n + 1..];
      LowerSplits(line[..n] + [COLON], after);
      LowerSplits(line[..n], [COLON]);
      assert Lower([COLON]) == [COLON];
      ChunkedIsInValue(Lower(after));
      ContainsInTrimmed(after);
    }
  }

  /** What precedes a colon, trimmed, is the same in a text and in the trimmed text. */
  lemma {:induction false} TrimBeforeColon(s: Text)
    ensures Trim(Before(Trim(s), COLON)) == Trim(Before(s, COLON))
  {
    var t := TrimStart(s);
    TrimStartIsSuffix(s);
    TrimStartDropsSpaces(s);
    BeforeTrimStart(s);
    BeforeTrimEnd(t);
  }

  lemma {:induction false} BeforeTrimStart(s: Text)
    ensures TrimStart(Before(TrimStart(s), COLON)) == TrimStart(Before(s, COLON))
  {
    if s != [] && IsSpace(s[0]) {
      BeforeTrimStart(s[1..]);
      assert Before(s, COLON)[1..] == Before(s[1..], COLON);
    }
  }

  lemma {:induction false} BeforeTrimEnd(s: Text)
    ensures Trim(Before(TrimEnd(s), COLON)) == Trim(Before(s, COLON))
  {
    if s != [] && IsSpace(s[|s| - 1]) {
      var front := s[..|s| - 1];
      BeforeTrimEnd(front);
      var n := IndexOf(s, COLON);
      IndexOfIsFirst(s, COLON);
      if n < |s| {
        assert front[..n] == s[..n];
        IndexOfIs(front, COLON, n);
      } else {
        assert s[..n] == s;
        IndexOfIs(front, COLON, |front|);
        assert front[..|front|] == front;
        TrimDropsLast(s);
      }
    }
  }

  lemma {:induction false} TrimDropsLast(s: Text)
    requires s != [] && IsSpace(s[|s| - 1])
    ensures Trim(s[..|s| - 1]) == Trim(s)
  {
    var front := s[..|s| - 1];
    TrimStartOfFront(s);
    var t := TrimStart(s);
    TrimStartIsSuffix(s);
    if t != [] {
      assert t[|t| - 1] == s[|s| - 1];
    }
  }

  lemma {:induction false} TrimStartOfFront(s: Text)
    requires s != [] && IsSpace(s[|s| - 1])
    ensures TrimStart(s[..|s| - 1]) == if TrimStart(s) == [] then [] else TrimStart(s)[..|TrimStart(s)| - 1]
  {
    var front := s[..|s| - 1];
    if IsSpace(s[0]) {
      if |s| == 1 {
        assert front == [] && s[1..] == [];
      } else {
        assert front[1..] == s[1..][..|s| - 2];
        TrimStartOfFront(s[1..]);
      }
    }
  }

  lemma {:induction false} StrictLengthLine(line: Text)
    requires StrictLine(line)
    ensures IsLengthLine(line) <==> HasColon(line) && LineField(line).name == CONTENT_LENGTH
    ensures IsLengthLine(line) ==> LengthOfLine(line) == LengthValue(LineField(line).value)
  {
    hide StrictLine, Ascii, IsToken, LineField, ParseNumber, Trim, Lower, Decode, Encode;
    Words();
    StrictNameIsPrefix(line, CONTENT_LENGTH);
    if IsLengthLine(line) {
      StrictParts(line);
      TrimBeforeColon(line[IndexOf(line, COLON) + 1..]);
    }
  }

  predicate AllStrict(lines: seq<Text>) {
    forall l :: l in lines ==> StrictLine(l)
  }

  lemma {:induction false} StrictLengths(lines: seq<Text>, more: seq<Text>)
    requires AllStrict(lines) && LengthInLines(more) == None
    ensures LengthInLines(lines + more) == LengthInFields(FieldsIn(lines))
    decreases |lines|
  {
    hide StrictLine, IsLengthLine, LengthOfLine, LengthValue, LineField, HasColon;
    if lines == [] {
      assert lines + more == more;
    } else {
      var line, rest := lines[0], lines[1..];
      assert StrictLine(line);
      StrictLengthLine(line);
      StrictLengths(rest, more);
      assert (lines + more)[1..] == rest + more;
      FieldsInFirst(lines);
    }
  }

  lemma {:induction false} FieldsInFirst(lines: seq<Text>)
    requires lines != []
    ensures var line, fields, rest := lines[0], FieldsIn(lines), FieldsIn(lines[1..]);
            if HasColon(line) then fields != [] && fields[0] == LineField(line) && fields[1..] == rest
            else fields == rest
  {
    hide LineField, HasColon;
    var fields, rest := FieldsIn(lines), FieldsIn(lines[1..]);
    assert HasColon(lines[0]) ==> fields == [LineField(lines[0])] + rest;
    assert !HasColon(lines[0]) ==> fields == [] + rest == rest;
  }

  lemma {:induction false} StrictChunked(lines: seq<Text>)
    requires AllStrict(lines)
    ensures (exists l :: l in lines && IsChunkedLine(l)) <==> (exists f :: f in FieldsIn(lines) && ChunkedField(f))
    decreases |lines|
  {
    hide StrictLine, LineField, HasColon, IsChunkedLine, ChunkedField, FieldsIn;
    if lines == [] {
      NoFieldsIn();
    } else {
      var line, rest, fields := lines[0], lines[1..], FieldsIn(lines);
      assert lines == [line] + rest;
      assert StrictLine(line);
      StrictChunkedLine(line);
      StrictChunked(rest);
      FieldsInFirst(lines);
      assert HasColon(line) ==> fields == [LineField(line)] + FieldsIn(rest);
    }
  }

  lemma {:induction false} NoFieldsIn()
    ensures FieldsIn([]) == []
  {
  }

  // ── From collected fields to the map ─────────────────────────

  predicate ValuesPresent(m: HeaderMap) {
    forall i :: 0 <= i < |m| ==> m[i].values != []
  }

  lemma {:induction false} GetAfterAppend(m: HeaderMap, f: Field, name: Bytes)
    requires ValuesPresent(m)
    ensures ValuesPresent(Append(m, f.name, f.value))
    ensures Get(Append(m, f.name, f.value), name)
            == if Get(m, name).None? && f.name == name then Some(f.value) else Get(m, name)
  {
    var r := Append(m, f.name, f.value);
    var i, k := NamePosition(m, f.name), NamePosition(m, name);
    assert forall j :: 0 <= j < |m| ==> r[j].name == m[j].name;
    if k < |m| {
      assert NamePosition(r, name) == k;
    } else if f.name == name {
      NewNamePosition(m, Entry(name, [f.value]));
    } else if i < |m| {
      assert NamePosition(r, name) == |r|;
    } else {
      assert NamePosition(r, name) == |r|;
    }
  }

  lemma {:induction false} LengthAfterAppends(m: HeaderMap, fields: seq<Field>)
    requires ValuesPresent(m)
    ensures DeclaredLength(AppendAll(m, fields))
            == if Get(m, CONTENT_LENGTH).Some? then DeclaredLength(m) else LengthInFields(fields)
    decreases |fields|
  {
    hide Append, LengthValue, Get, ValuesPresent;
    if fields != [] {
      GetAfterAppend(m, fields[0], CONTENT_LENGTH);
      LengthAfterAppends(Append(m, fields[0].name, fields[0].value), fields[1..]);
    }
  }

  lemma {:induction false} FieldsOfAppended(name: Bytes, values: seq<Bytes>, value: Bytes)
    ensures FieldsOf(name, values + [value]) == FieldsOf(name, values) + [Field(name, value)]
  {
    if values == [] {
      var one := [value];
      assert values + [value] == one && one[1..] == [];
    } else {
      assert (values + [value])[1..] == values[1..] + [value];
      FieldsOfAppended(name, values[1..], value);
    }
  }

  lemma {:induction false} FieldsAfterAppend(m: HeaderMap, f: Field)
    ensures forall g :: g in Fields(Append(m, f.name, f.value)) <==> g in Fields(m) || g == f
  {
    var r := Append(m, f.name, f.value);
    if m == [] {
      FieldsOfAppended(f.name, [], f.value);
      assert [] + [f.value] == [f.value];
      assert r[1..] == [];
    } else if m[0].name == f.name {
      FieldsOfAppended(f.name, m[0].values, f.value);
      assert r[1..] == m[1..];
    } else {
      FieldsAfterAppend(m[1..], f);
      assert r == [m[0]] + Append(m[1..], f.name, f.value);
      assert r[1..] == Append(m[1..], f.name, f.value);
    }
  }

  lemma {:induction false} ChunkedAfterAppends(m: HeaderMap, fields: seq<Field>)
    ensures ChunkedHeaders(AppendAll(m, fields))
            <==> ChunkedHeaders(m) || exists f :: f in fields && ChunkedField(f)
    decreases |fields|
  {
    hide Append, ChunkedField, Fields;
    if fields != [] {
      var f, rest := fields[0], fields[1..];
      var m' := Append(m, f.name, f.value);
      FieldsAfterAppend(m, f);
      ChunkedAfterAppends(m', rest);
      assert ChunkedHeaders(m') <==> ChunkedHeaders(m) || ChunkedField(f);
      assert fields == [f] + rest;
    }
  }

  // ── Text and headers agree ───────────────────────────────────

  lemma {:induction false} LinesCut(s: Text, nl: nat)
    requires nl == IndexOf(s, LF) < |s|
    ensures Lines(s) == [StripCr(s[..nl])] + Lines(s[nl + 1..])
  {
  }

  /** Lines of two texts, of which the first ends with a line end. */
  lemma {:induction false} LinesSplit(a: Text, b: Text)
    requires a != [] && a[|a| - 1] == LF
    ensures Lines(a + b) == Lines(a) + Lines(b)
    decreases |a|
  {
    hide *;
    var nl := IndexOf(a, LF);
    IndexInPrefix(a, b);
    var rest := a[nl + 1..];
    assert (a + b)[..nl] == a[..nl] && (a + b)[nl + 1..] == rest + b;
    LinesCut(a, nl);
    LinesCut(a + b, nl);
    if rest == [] {
      assert rest + b == b;
      NoLines();
    } else {
      LinesSplit(rest, b);
    }
  }

  lemma {:induction false} UpToEmptyOf(lines: seq<Text>, more: seq<Text>)
    requires AllStrict(lines)
    ensures UpToEmpty(lines + [[]] + more) == lines
  {
    hide StrictLine;
    var all := lines + [[]] + more;
    if lines != [] {
      assert StrictLine(lines[0]);
      assert lines[0] != [] by {
        StrictIsNotEmpty(lines[0]);
      }
      assert all[1..] == lines[1..] + [[]] + more;
      UpToEmptyOf(lines[1..], more);
    }
  }

  lemma {:induction false} StrictIsNotEmpty(line: Text)
    requires StrictLine(line)
    ensures line != []
  {
  }

  lemma {:induction false} Peel(lines: seq<Text>, more: seq<Text>)
    requires |lines| >= 2
    ensures var last := [lines[|lines| - 1]];
            && lines == [lines[0]] + (lines[1..|lines| - 1] + last)
            && lines + more == [lines[0]] + (lines[1..|lines| - 1] + last + more)
  {
  }

  /** What stands behind a line end is decoded and split on its own. */
  lemma {:induction false} TextLinesSplit(a: Bytes, b: Bytes)
    requires a != [] && a[|a| - 1] == LF
    ensures TextLines(a + b) == TextLines(a) + TextLines(b)
  {
    hide Decode, Lines;
    var front, lf: Bytes := a[..|a| - 1], [LF];
    assert a == front + lf + [];
    DecodeAroundAscii(front, lf, []);
    DecodeAscii([]);
    DecodeSplits(a, b);
    LinesSplit(Decode(a), Decode(b));
  }

  /** The head of what the reader returns, as lines. */
  lemma {:induction false} StrictHeadLines(head: Bytes, body: Bytes) returns (start: Text, lines: seq<Text>)
    requires StrictHead(head)
    ensures TextLines(head) == [start] + (lines + [[]]) && AllStrict(lines) && Ascii("HTTP/") <= start
    ensures TextLines(head + body) == [start] + (lines + [[]] + TextLines(body))
  {
    hide StrictLine, TextLines, Ascii;
    var all := TextLines(head);
    start, lines := all[0], all[1..|all| - 1];
    TextLinesSplit(head, body);
    Peel(all, TextLines(body));
    forall l | l in lines
      ensures StrictLine(l)
    {
      var i :| 0 <= i < |lines| && lines[i] == l;
      assert l == all[i + 1];
    }
  }

  /** The parser's headers are the fields of the head's lines; its status is the reader's. */
  lemma {:induction false} StrictHeadParsed(head: Bytes, body: Bytes, start: Text, lines: seq<Text>)
    requires TextLines(head + body) == [start] + (lines + [[]] + TextLines(body)) && AllStrict(lines)
    ensures ParsedResponse(head + body).Ok? ==>
              && ParsedResponse(head + body).value.headers == AppendAll([], FieldsIn(lines))
              && (Bodiless(ParsedResponse(head + body).value.status)
                  <==> StatusOfLine(start).Some? && Bodiless(StatusOfLine(start).value))
  {
    hide Tokens, StrictLine, HeadersOf, AppendAll, FieldsIn, UpToEmpty, Accepted, ParseNumber, TextLines, Ascii;
    assert TextLines(head + body)[1..] == lines + [[]] + TextLines(body);
    HeadersAreFields(lines + [[]] + TextLines(body), []);
    UpToEmptyOf(lines, TextLines(body));
    DefaultStatus();
  }

  /** The four tests on a strict head, in terms of the response that the parser makes of it. */
  lemma {:induction false} StrictHeadTests(head: Bytes, body: Bytes)
    requires StrictHead(head)
    ensures !IsRequest(head)
    ensures ParsedResponse(head + body).Ok? ==>
            var res := ParsedResponse(head + body).value;
            && (IsNoBodyStatus(head) <==> Bodiless(res.status))
            && (IsChunked(head) <==> ChunkedHeaders(res.headers))
            && GetContentLength(head) == DeclaredLength(res.headers)
  {
    var start, lines := StrictHeadLines(head, body);
    hide StrictLine, AppendAll, FieldsIn, IsChunkedLine, ChunkedField, LengthOfLine, IsLengthLine, TextLines, Ascii,
         StrictHead, ParsedResponse, StatusOfLine, DeclaredLength, LengthInFields, AllStrict, Fields;
    var fields := FieldsIn(lines);
    StrictHeadParsed(head, body, start, lines);
    assert TextLines(head)[1..] == lines + [[]];
    OtherLines(start);
    NoLengthInBlank();
    StrictLengths(lines, [[]]);
    StrictChunked(lines);
    LengthAfterAppends([], fields);
    ChunkedAfterAppends([], fields);
    NoHeaders();
    ChunkedAmong(start, lines);
  }

  lemma {:induction false} NoHeaders()
    ensures !ChunkedHeaders([]) && Get([], CONTENT_LENGTH).None? && ValuesPresent([])
  {
  }

  lemma {:induction false} DefaultStatus()
    ensures ParseNumber(Ascii("200"), Decimals, U16_MAX) == Some(200)
  {
    var s := Ascii("200");
    assert s == [50, 48, 48];
    assert s[..2] == [50, 48] && s[..2][..1] == [50] && s[..2][..1][..0] == [];
    assert NumberValue(s[..2][..1], Decimals) == 2;
    assert NumberValue(s[..2], Decimals) == 20;
  }

  // ── The client reads what the proxy read ─────────────────────

  lemma {:induction false} ParsedIsClean(raw: Bytes)
    requires ParsedResponse(raw).Ok?
    ensures CleanMap(ParsedResponse(raw).value.headers) && ParsedResponse(raw).value.body.Full?
  {
    var lines := TextLines(raw);
    hide TextLines, Tokens, ParseNumber, Ascii;
    if lines != [] {
      ReadHeadersAreCanonical(lines[1..], []);
    }
  }

  /** Whatever bytes the parser accepted, printed for the client: in every fragmentation the
      client's reader and parser get the very response that the proxy had, if and only if
      its headers delimit its body. */
  lemma {:induction false} ForwardedResponseIsReadBack(rules: HttpRules, raw: Bytes, downstream: seq<Bytes>,
                                                        bufSize: nat)
    requires rules.Lawful() && ParsedResponse(raw).Ok? && bufSize > 0
    requires Fragmentation.Delivers(downstream, ResponseBytes(rules, ParsedResponse(raw).value))
    ensures var res, down := ParsedResponse(raw).value, Reader.ReadOutcome(downstream, bufSize, Closed);
            && res.body.Full?
            && ((down.Ok? && ParsedResponse(down.value) == Ok(res)) <==> BodyFits(res, Closed))
  {
    hide *;
    ResponsePrintIsCanonical(rules, raw);
    ParsedIsClean(raw);
    WriteReadParse(rules, ParsedResponse(raw).value, downstream, bufSize, Closed);
  }

  lemma {:induction false} ForwardedBodyFits(head: Bytes, rest: Bytes, ahead: Bytes, ending: Ending, body: Bytes)
    requires StrictHead(head)
    ensures BodyOf(head, rest, ahead, ending) == Ok(body) && ParsedResponse(head + body).Ok?
            && ParsedResponse(head + body).value.body == Full(body) ==>
              (BodyFits(ParsedResponse(head + body).value, Closed) <==> !Fragmentation.Dechunks(head) || body == [])
  {
    hide StrictHead, ParsedResponse, IsNoBodyStatus, IsRequest, IsChunked, GetContentLength, Scan, DeclaredLength,
         ChunkedHeaders;
    StrictHeadTests(head, body);
  }

  /** The parser finds the reader's body behind the reader's head. */
  lemma {:induction false} ParsedBody(s: Bytes, body: Bytes)
    requires FindBlank(s).Some? && ParsedResponse(Head(s) + body).Ok?
    ensures ParsedResponse(Head(s) + body).value.body == Full(body)
  {
    hide FindBlank, HeadersOf, TextLines, Tokens, Ascii, ParseNumber;
    Fragmentation.HeadOfMessage(s, body);
  }

  /** From any upstream bytes with a strict head: for every fragmentation and buffer on both
      sides, the client gets the response that the proxy had if and only if the proxy did
      not de-chunk a body that is not empty. */
  lemma {:induction false} StrictResponseIsReadBack(
      rules: HttpRules, s: Bytes, upstream: seq<Bytes>, bufSize: nat, ending: Ending,
      downstream: seq<Bytes>, bufSize2: nat)
    requires rules.Lawful() && bufSize > 0 && bufSize2 > 0
    requires Fragmentation.Delivers(upstream, s) && Arrivals(downstream)
    ensures var up := Reader.ReadOutcome(upstream, bufSize, ending);
            var down := Reader.ReadOutcome(downstream, bufSize2, Closed);
            FindBlank(s).Some? && StrictHead(Head(s)) && up.Ok? && ParsedResponse(up.value).Ok? ==>
              var res := ParsedResponse(up.value).value;
              Concat(downstream) == ResponseBytes(rules, res) ==>
                ((down.Ok? && ParsedResponse(down.value) == Ok(res))
                 <==> !Fragmentation.Dechunks(Head(s)) || res.body == Full([]))
  {
    hide FindBlank, StrictHead, ParsedResponse, BodyOf, BodyFits, ReadsUntil, ResponseBytes,
         Fragmentation.Dechunks, IsBareRequest;
    var up := Reader.ReadOutcome(upstream, bufSize, ending);
    if FindBlank(s).Some? && StrictHead(Head(s)) && up.Ok? && ParsedResponse(up.value).Ok?
       && Concat(downstream) == ResponseBytes(rules, ParsedResponse(up.value).value)
    {
      var head := Head(s);
      StrictIsResponse(head);
      Fragmentation.OutcomeIsMessage(upstream, bufSize, ending, s);
      var body := BodyOf(head, Rest(s), [], ending).value;
      ParsedBody(s, body);
      ForwardedBodyFits(head, Rest(s), [], ending, body);
      ForwardedResponseIsReadBack(rules, up.value, downstream, bufSize2);
    }
  }

  /** Every head that a serialiser prints is strict. */
  lemma {:induction false} PrintedHeadIsStrict(rules: HttpRules, res: Response)
    requires rules.Lawful() && WellFormedResponse(res)
    ensures StrictHead(ResponseHead(rules, res))
  {
    hide StatusLine, ValidField, Tokens, ParseNumber, TextLines, Ascii, StrictLine, Decode;
    var head, start, fields := ResponseHead(rules, res), StatusLine(rules, res.status), Fields(res.headers);
    StatusLineIsRead(rules, res.status);
    FieldsAreValid(res.headers);
    PrintedHeadLines(start, fields, []);
    NoTextLines();
    assert head + [] == head;
    var lines := TextLines(head);
    assert lines == [Decode(start)] + (FieldTexts(fields) + [[]]);
    FieldTextsAreStrict(fields);
    forall i | 1 <= i < |lines| - 1
      ensures StrictLine(lines[i])
    {
      assert lines[i] == FieldTexts(fields)[i - 1];
    }
  }

  lemma {:induction false} FieldLineIsStrict(f: Field)
    requires ValidField(f)
    ensures StrictLine(FieldLine(f))
  {
    hide IsToken, Decode, IndexOf, Trim, Encode, Lower, ValidValue;
    FieldLineParts(f);
    assert Before(FieldLine(f), COLON) == f.name;
  }

  lemma {:induction false} FieldTextsAreStrict(fields: seq<Field>)
    requires AllValid(fields)
    ensures forall i :: 0 <= i < |FieldTexts(fields)| ==> StrictLine(FieldTexts(fields)[i])
  {
    hide StrictLine, FieldLine, ValidField;
    if fields != [] {
      FieldLineIsStrict(fields[0]);
      FieldTextsAreStrict(fields[1..]);
    }
  }

  lemma {:induction false} StrictIsResponse(head: Bytes)
    requires StrictHead(head)
    ensures !IsRequest(head) && !IsBareRequest(head)
  {
  }
}
