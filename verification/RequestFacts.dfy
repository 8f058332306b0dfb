/**
 What the reader makes of a request (src/proxy.rs:272-362), by what its headers literally
 say: bodies are delimited as in responses, but without framing there is none, and then
 whatever came in with the end of the head is returned with it.
 */
module RequestFacts {
  import opened ByteText
  import opened Framing
  import opened Headers
  import opened Http
  import opened Messages
  import opened Transport
  import opened Utf8
  import opened Wrappers

  import Chunked
  import Fragmentation
  import HeadFacts
  import Reader
  import RoundTrip

  function RequestHead(req: Request): Bytes {
    HeadText(RequestLine(req), Fields(req.headers))
  }

  /** The reader looks for a status where a request has its target. */
  predicate TargetIsStatus(uri: Text) {
    ParseNumber(uri, Decimals, 65535) in [Some(101), Some(204), Some(304)]
  }

  // ── The tests on a request head ──────────────────────────────

  lemma {:induction false} VerbIsNoHeader(verb: Bytes, rest: Text, word: Bytes)
    requires IsToken(verb) && SP !in word
    ensures !(word + [COLON] <= Lower(verb + [SP] + rest))
  {
    TokenIsPlain(verb);
    TokenIsPlain(Lower(verb));
    hide IsToken;
    var text, start := Lower(verb + [SP] + rest), word + [COLON];
    assert forall i :: 0 <= i < |verb| ==> text[i] == Lower(verb)[i];
    assert text[|verb|] == SP;
    var i := if |verb| <= |word| then |verb| else |word|;
    assert i == |verb| ==> start[i] in word + [COLON];
    assert i < |verb| ==> Lower(verb)[i] in Lower(verb);
    assert text[i] != start[i];
  }

  lemma {:induction false} VerbIsNoVersion(verb: Bytes, rest: Text)
    requires IsToken(verb)
    ensures !(Ascii("HTTP/") <= verb + [SP] + rest)
  {
    var text, start := verb + [SP] + rest, Ascii("HTTP/");
    assert |start| == 5 && start[4] == 47 && SP !in start;
    hide Ascii;
    var i := if |verb| < 5 then |verb| else 4;
    assert i == |verb| ==> start[i] in start;
    assert i < |verb| ==> IsTokenRune(verb[i]);
    assert |text| >= 5 ==> text[i] != start[i];
  }

  lemma {:induction false} FramingWords()
    ensures Ascii("transfer-encoding:") == TRANSFER_ENCODING + [COLON] && SP !in TRANSFER_ENCODING
    ensures Ascii("content-length:") == CONTENT_LENGTH + [COLON] && SP !in CONTENT_LENGTH
  {
  }

  lemma {:induction false} LineSays(req: Request)
    requires IsToken(req.verb) && NoSpace(req.uri) && req.uri != []
    ensures var line := Decode(RequestLine(req));
            && !IsChunkedLine(line) && !IsLengthLine(line) && !(Ascii("HTTP/") <= line)
            && StatusOfLine(line) == ParseNumber(req.uri, Decimals, 65535)
  {
    hide Ascii, Decode, IsToken, Lower, Contains, Tokens, ParseNumber;
    var rest := req.uri + [SP] + Ascii("HTTP/1.1");
    RequestLineDecoded(req);
    FramingWords();
    VerbIsNoHeader(req.verb, rest, TRANSFER_ENCODING);
    VerbIsNoHeader(req.verb, rest, CONTENT_LENGTH);
    VerbIsNoVersion(req.verb, rest);
    TokenIsPlain(req.verb);
    MethodIsNotEmpty(req.verb);
    TokensStep(req.verb, rest);
    TokensStep(req.uri, Ascii("HTTP/1.1"));
  }

  /** The four tests on a printed request head, and where the head ends. */
  lemma {:induction false} RequestHeadTests(rules: HttpRules, req: Request, tail: Bytes)
    requires rules.Lawful() && WellFormedRequest(rules, req) && NoSpace(req.uri)
    ensures var head := RequestHead(req);
            && HeadFacts.Splits(head, tail) && IsRequest(head)
            && (IsNoBodyStatus(head) <==> TargetIsStatus(req.uri))
            && (IsChunked(head) <==> RoundTrip.ChunkedHeaders(req.headers))
            && GetContentLength(head) == RoundTrip.DeclaredLength(req.headers)
  {
    hide RequestLine, HeadText, IsChunkedLine, IsLengthLine, StatusOfLine, Ascii, Decode, ParseNumber, IsChunked,
         FindBlank, GetContentLength, RoundTrip.ChunkedHeaders, RoundTrip.DeclaredLength, ValidMap, IsToken,
         TextLines, ValidField;
    LineSays(req);
    RequestLineIsRead(rules, req);
    FieldsAreValid(req.headers);
    PrintedHeadEnds(RequestLine(req), Fields(req.headers), tail);
    RoundTrip.PrintedLinesSay(RequestLine(req), req.headers);
  }

  // ── What is read ─────────────────────────────────────────────

  /** A request whose target reads as 101, 204 or 304 is taken for a response without body. */
  lemma {:induction false} StatusTargetIsRead(rules: HttpRules, req: Request, tail: Bytes, fragments: seq<Bytes>,
                                              bufSize: nat, ending: Ending)
    requires rules.Lawful() && WellFormedRequest(rules, req) && NoSpace(req.uri) && bufSize > 0
    requires TargetIsStatus(req.uri) && Fragmentation.Delivers(fragments, RequestHead(req) + tail)
    ensures Reader.ReadOutcome(fragments, bufSize, ending) == Ok(RequestHead(req))
  {
    hide RequestHead, IsChunked, GetContentLength, FindBlank, IsNoBodyStatus, Head, Rest, ValidMap, IsToken,
         Reader.ReadOutcome, TargetIsStatus, IsBareRequest;
    RequestHeadTests(rules, req, tail);
    NoBodyIsNotBare(RequestHead(req));
    Fragmentation.OutcomeIsMessage(fragments, bufSize, ending, RequestHead(req) + tail);
    assert RequestHead(req) + [] == RequestHead(req);
  }

  lemma {:induction false} NoBodyIsNotBare(head: Bytes)
    requires IsNoBodyStatus(head)
    ensures !IsBareRequest(head)
  {
  }

  /** Without framing headers the request is returned with whatever the read that completed
      its head brought behind it: all reads up to the first that reached the end of the head. */
  lemma {:induction false} BareRequestIsRead(rules: HttpRules, req: Request, tail: Bytes, fragments: seq<Bytes>,
                                             bufSize: nat, ending: Ending)
    returns (k: nat)
    requires rules.Lawful() && WellFormedRequest(rules, req) && NoSpace(req.uri) && bufSize > 0
    requires !TargetIsStatus(req.uri)
    requires GetAll(req.headers, Ascii("content-length")) == [] && GetAll(req.headers, Ascii("transfer-encoding")) == []
    requires Fragmentation.Delivers(fragments, RequestHead(req) + tail)
    ensures Reader.ReadOutcome(fragments, bufSize, ending) == Ok(FirstReads(fragments, bufSize, k + 1))
    ensures |FirstReads(fragments, bufSize, k)| < |RequestHead(req)| <= |FirstReads(fragments, bufSize, k + 1)|
  {
    HeadFacts.NotChunked(req.headers);
    assert RoundTrip.DeclaredLength(req.headers).None?;
    hide RequestHead, IsChunked, GetContentLength, FindBlank, IsNoBodyStatus, Head, Rest, ValidMap, IsToken, FirstReads,
         TargetIsStatus, RoundTrip.ChunkedHeaders, RoundTrip.DeclaredLength, Ascii, IsRequest, GetAll;
    RequestHeadTests(rules, req, tail);
    k := BareIsRead(RequestHead(req), tail, fragments, bufSize, ending);
  }

  lemma {:induction false} BareIsRead(head: Bytes, tail: Bytes, fragments: seq<Bytes>, bufSize: nat, ending: Ending)
    returns (k: nat)
    requires IsBareRequest(head) && HeadFacts.Splits(head, tail) && bufSize > 0
    requires Fragmentation.Delivers(fragments, head + tail)
    ensures Reader.ReadOutcome(fragments, bufSize, ending) == Ok(FirstReads(fragments, bufSize, k + 1))
    ensures |FirstReads(fragments, bufSize, k)| < |head| <= |FirstReads(fragments, bufSize, k + 1)|
  {
    k := HeadReadsStop(fragments, bufSize);
    hide IsBareRequest, FindBlank, Head, Rest, FirstReads, Concat, Visible, Reader.HeadReads, Reader.ReadAhead;
    Fragmentation.ReadAheadIsPrefix(fragments, bufSize);
    StreamIsVisible(fragments, [], bufSize);
    assert BodyOf(head, tail, Reader.ReadAhead(fragments, bufSize), VisibleEnding(ending, bufSize))
           == Ok(Reader.ReadAhead(fragments, bufSize)) by {
      BareBody(head, tail, Reader.ReadAhead(fragments, bufSize), VisibleEnding(ending, bufSize));
    }
    hide BodyOf;
  }

  lemma {:induction false} BareBody(head: Bytes, rest: Bytes, ahead: Bytes, ending: Ending)
    requires IsBareRequest(head)
    ensures BodyOf(head, rest, ahead, ending) == Ok(ahead)
  {
  }

  lemma {:induction false} HeadReadsStop(fragments: seq<Bytes>, bufSize: nat) returns (k: nat)
    requires Arrivals(fragments) && bufSize > 0 && FindBlank(Concat(fragments)).Some?
    ensures Reader.HeadReads(fragments, bufSize).0 == FirstReads(fragments, bufSize, k + 1)
    ensures |FirstReads(fragments, bufSize, k)| < |Head(Concat(fragments))|
  {
    hide FindBlank, Head, FirstReads, ReadsUntil, LeastEnough, Concat;
    var s := Concat(fragments);
    StopsAtBoundaryIff(fragments, bufSize, Reader.HasHead());
    Fragmentation.LeastHead(s);
    HeadIsNotEmpty(s);
    k :| Reader.HeadReads(fragments, bufSize).0 == FirstReads(fragments, bufSize, k + 1)
         && !Reader.HasHead()(FirstReads(fragments, bufSize, k));
    FirstReadsGrow(fragments, bufSize, k, k);
    HeadIsReached(s, FirstReads(fragments, bufSize, k));
  }

  lemma {:induction false} HeadIsNotEmpty(s: Bytes)
    requires FindBlank(s).Some?
    ensures |Head(s)| > 0
  {
  }

  lemma {:induction false} HeadIsReached(s: Bytes, part: Bytes)
    requires FindBlank(s).Some? && part <= s
    ensures FindBlank(part).None? ==> |part| < |Head(s)|
  {
    var i := FindBlank(s).value;
    assert part == s[..|part|];
    assert i + 4 <= |part| ==> BlankAt(part, i);
  }

  /** A Content-Length that is a `usize` counts as it does in a response. */
  lemma {:induction false} RequestLengthIsRead(rules: HttpRules, req: Request, n: nat, tail: Bytes,
                                               fragments: seq<Bytes>, bufSize: nat, ending: Ending)
    requires rules.Lawful() && WellFormedRequest(rules, req) && NoSpace(req.uri) && bufSize > 0
    requires !TargetIsStatus(req.uri) && n <= 0xFFFF_FFFF_FFFF_FFFF
    requires GetAll(req.headers, Ascii("content-length")) != []
    requires GetAll(req.headers, Ascii("content-length"))[0] == Decimal(n)
    requires GetAll(req.headers, Ascii("transfer-encoding")) == []
    requires Fragmentation.Delivers(fragments, RequestHead(req) + tail)
    ensures Reader.ReadOutcome(fragments, bufSize, ending)
            == if n <= |tail| then Ok(RequestHead(req) + tail[..n])
               else if ending == Closed then Ok(RequestHead(req) + tail)
               else Err(Io)
    ensures var left := Concat(Reader.MessageReads(fragments, bufSize).1);
            if n <= |tail| then
              (left == tail[n..] <==> exists k: nat :: |FirstReads(fragments, bufSize, k)| == |RequestHead(req)| + n)
            else left == []
  {
    HeadFacts.NotChunked(req.headers);
    HeadFacts.DeclaredByNumber(req.headers, n);
    RequestHeadTests(rules, req, tail);
    hide *;
    HeadFacts.DeclaredIsRead(RequestHead(req), n, tail, fragments, bufSize, ending);
  }

  /** And so do chunks, whatever the Content-Length. */
  lemma {:induction false} RequestChunksAreRead(rules: HttpRules, req: Request, parts: seq<Chunked.Part>,
                                                trailer: Bytes, fragments: seq<Bytes>, bufSize: nat, ending: Ending)
    requires rules.Lawful() && WellFormedRequest(rules, req) && NoSpace(req.uri) && bufSize > 0
    requires !TargetIsStatus(req.uri)
    requires GetAll(req.headers, Ascii("transfer-encoding")) != []
    requires GetAll(req.headers, Ascii("transfer-encoding"))[0] == Ascii("chunked")
    requires forall p :: p in parts ==> Chunked.Sendable(p)
    requires Fragmentation.Delivers(fragments, RequestHead(req)
                                               + (Chunked.WriteParts(parts) + (Ascii("0") + CRLF + trailer)))
    ensures Reader.ReadOutcome(fragments, bufSize, ending) == Ok(RequestHead(req) + Chunked.PartData(parts))
  {
    HeadFacts.ChunkedByName(req.headers);
    RequestHeadTests(rules, req, Chunked.WriteParts(parts) + (Ascii("0") + CRLF + trailer));
    hide *;
    HeadFacts.PartsAreRead(RequestHead(req), parts, trailer, fragments, bufSize, ending);
  }
}
