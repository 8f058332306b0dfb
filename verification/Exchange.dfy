/**
 The two places where a plain-HTTP exchange meets the client (src/http_proxy.rs:65-114):
 the upgrade branch, which ends in a relay, and the streaming branch.
 */
module Exchange {
  import opened Wrappers
  import opened ByteText
  import opened Transport
  import opened Framing
  import opened Http
  import opened Messages

  import Consumption
  import Forwarding
  import Reader
  import Fragmentation
  import Headers
  import RoundTrip
  import HandlerChain
  import HeadFacts

  // ── Streaming a response ─────────────────────────────────────

  /** What a body has yielded when it ends or fails. */
  function Yielded(body: Body): Bytes {
    match body
    case Full(bytes) => bytes
    case Streaming(frames, _) => DataOf(frames)
  }

  /** `write_body_to_stream`: the data frames, one by one; trailers are skipped, and an
      error comes after everything before it was written. */
  method WriteBodyToStream(body: Body, writer: ByteStream) returns (ok: bool)
    modifies writer`written
    ensures writer.written == old(writer.written) + Yielded(body)
    ensures ok <==> IntoBytes(body).Some?
    ensures ok <==> body.Full? || !body.fails
  {
    match body
    case Full(bytes) =>
      writer.WriteAll(bytes);
      return true;
    case Streaming(frames, fails) =>
      for i := 0 to |frames|
        invariant writer.written == old(writer.written) + DataOf(frames[..i])
      {
        assert frames[..i + 1] == frames[..i] + [frames[i]];
        DataAppend(frames[..i], frames[i]);
        if frames[i].Data? {
          writer.WriteAll(frames[i].data);
        }
      }
      assert frames[..|frames|] == frames;
      return !fails;
  }

  /** The response with its body in memory. */
  function Collected(res: Response): Response
    requires IntoBytes(res.body).Some?
  {
    res.(body := Full(IntoBytes(res.body).value))
  }

  lemma {:induction false} CollectedBytes(rules: HttpRules, res: Response)
    requires IntoBytes(res.body).Some?
    ensures ResponseBytes(rules, Collected(res)) == ResponseHead(rules, res) + Yielded(res.body)
  {
  }

  /** The end of the normal branch: head, body, shutdown. Streaming a body sends the bytes
      that buffering it first would have sent; when the body fails, the client has the head
      and exactly the data that came before the failure, and the stream is not shut down. */
  method SendResponse(rules: HttpRules, res: Response, client: ByteStream) returns (ok: bool)
    modifies client`written, client`shut
    ensures ok <==> IntoBytes(res.body).Some?
    ensures ok <==> res.body.Full? || !res.body.fails
    ensures ok ==> client.written == old(client.written) + ResponseBytes(rules, Collected(res))
    ensures !ok ==> client.written == old(client.written) + ResponseHead(rules, res) + DataOf(res.body.frames)
    ensures client.shut == (old(client.shut) || ok)
  {
    hide ResponseHead, ResponseBytes, DataOf;
    var head := SerializeResponseHead(rules, res);
    client.WriteAll(head);
    ok := WriteBodyToStream(res.body, client);
    if ok {
      client.Shutdown();
      CollectedBytes(rules, res);
      Regroup(old(client.written), head, Yielded(res.body));
    }
  }

  /** A streamed response, in whatever pieces the client gets it: the client has the response
      with its body collected exactly when the values are clean and the headers delimit
      what the body yielded. A chunked header delimits no body but the empty one, for the
      data is sent without chunks. */
  lemma {:induction false} StreamedResponseIsReadBack(rules: HttpRules, res: Response, downstream: seq<Bytes>,
                                                      bufSize: nat)
    requires rules.Lawful() && WellFormedResponse(res) && IntoBytes(res.body).Some? && bufSize > 0
    requires Fragmentation.Delivers(downstream, ResponseHead(rules, res) + Yielded(res.body))
    ensures var r := Reader.ReadOutcome(downstream, bufSize, Closed);
            (r.Ok? && ParsedResponse(r.value) == Ok(Collected(res)))
            <==> Headers.CleanMap(res.headers) && RoundTrip.BodyFits(Collected(res), Closed)
  {
    hide ResponseBytes, ResponseHead, ParsedResponse, Reader.ReadOutcome, RoundTrip.BodyFits, Headers.CleanMap,
         Headers.ValidMap, HttpRules.Lawful, Yielded;
    CollectedBytes(rules, res);
    RoundTrip.WriteReadParse(rules, Collected(res), downstream, bufSize, Closed);
  }

  /** A response that a request handler answers with is serialised in one piece: then it
      must moreover be in memory, or yield nothing, for a streamed body is not written. */
  lemma {:induction false} ShortCircuitIsReadBack(rules: HttpRules, res: Response, downstream: seq<Bytes>, bufSize: nat)
    requires rules.Lawful() && WellFormedResponse(res) && IntoBytes(res.body).Some? && bufSize > 0
    requires Fragmentation.Delivers(downstream, ResponseBytes(rules, res))
    ensures var r := Reader.ReadOutcome(downstream, bufSize, Closed);
            (r.Ok? && ParsedResponse(r.value) == Ok(Collected(res)))
            <==> Headers.CleanMap(res.headers) && RoundTrip.BodyFits(Collected(res), Closed)
                 && (res.body.Full? || Yielded(res.body) == [])
  {
    hide ResponseHead, ParsedResponse, RoundTrip.BodyFits, Headers.CleanMap, Headers.ValidMap, HttpRules.Lawful, DataOf;
    if res.body.Full? || Yielded(res.body) == [] {
      assert ResponseBytes(rules, res) == ResponseHead(rules, res) + Yielded(res.body);
      StreamedResponseIsReadBack(rules, res, downstream, bufSize);
    } else {
      HeadAloneHasNoBody(rules, res, downstream, bufSize);
    }
  }

  lemma {:induction false} HeadAloneHasNoBody(rules: HttpRules, res: Response, downstream: seq<Bytes>, bufSize: nat)
    requires rules.Lawful() && WellFormedResponse(res) && bufSize > 0
    requires Fragmentation.Delivers(downstream, ResponseHead(rules, res) + [])
    ensures var r := Reader.ReadOutcome(downstream, bufSize, Closed);
            r.Ok? && ParsedResponse(r.value).Ok? ==> ParsedResponse(r.value).value.body == Full([])
  {
    hide StatusLine, ParsedResponse, BodyOf, FindBlank, Headers.ValidField, Headers.ValidMap, HttpRules.Lawful,
         IsBareRequest, HeadText;
    var start, fields, head := StatusLine(rules, res.status), Headers.Fields(res.headers), ResponseHead(rules, res);
    StatusLineIsRead(rules, res.status);
    Headers.FieldsAreValid(res.headers);
    PrintedHeadEnds(start, fields, []);
    Fragmentation.OutcomeIsMessage(downstream, bufSize, Closed, head + []);
    NoBodyFromNothing(head);
    if ParsedResponse(head + []).Ok? {
      Forwarding.ParsedBody(head + [], []);
    }
  }

  lemma {:induction false} NoBodyFromNothing(head: Bytes)
    ensures BodyOf(head, [], [], Closed) == Ok([])
  {
    hide Dechunk, IsNoBodyStatus, IsBareRequest, IsChunked, GetContentLength;
    Fragmentation.NothingToDechunk();
  }

  // ── The upgrade branch ───────────────────────────────────────

  datatype Upgrade<W> =
    | ReadFailed(readError: ReadError)
    | ParseFailed(parseError: ParseError)
    | HandlerFailed(world: W, handlerError: ProxyError)
    | Answered(world: W, response: Response)

  /** The upgrade branch, up to the start of the relay. `relays` says whether it starts, on
      whatever is then unread; otherwise the client is shut down. Of the upstream's bytes
      the reader took whole reads: the message, and what came in with its end, which nobody
      gets. So the relay starts right behind the message exactly when some read ended
      there; behind a handshake that is right behind its head. */
  method UpgradeExchange<W>(rules: HttpRules, handler: HandlerChain.Handler<W>, w: W, req: Request, client: ByteStream,
                            server: ByteStream, bufSize: nat)
    returns (up: Upgrade<W>, relays: bool)
    requires server.Valid() && client != server
    modifies client`written, client`shut, server`written, server`fragments
    ensures server.Valid()
    ensures server.written == old(server.written) + RequestBytes(req)
    ensures !up.Answered? ==> !relays && client.written == old(client.written) && client.shut == old(client.shut)
    ensures match Reader.ReadOutcome(old(server.fragments), bufSize, server.ending)
            case Err(e) => up == ReadFailed(e)
            case Ok(raw) =>
              match ParsedResponse(raw)
              case Err(e) => up == ParseFailed(e)
              case Ok(res) =>
                var (w', m) := handler.onResponse(w, res);
                if m.Err? then up == HandlerFailed(w', m.error)
                else
                  && up == Answered(w', m.value)
                  && client.written == old(client.written) + ResponseBytes(rules, m.value)
                  && (relays <==> m.value.status == 101)
                  && client.shut == (old(client.shut) || m.value.status != 101)
    ensures server.fragments == Reader.MessageReads(old(server.fragments), bufSize).1
    ensures bufSize > 0 ==>
              var s, taken := old(server.Unread()), Reader.MessageReads(old(server.fragments), bufSize).0;
              && s == taken + server.Unread()
              && (!Decided(s) ==> server.Unread() == [])
              && (Decided(s) ==>
                    && Consumption.MessageEnd(s) <= |taken|
                    && (server.Unread() == s[Consumption.MessageEnd(s)..]
                        <==> exists k: nat ::
                               |FirstReads(old(server.fragments), bufSize, k)| == Consumption.MessageEnd(s)))
    ensures var s := old(server.Unread());
            bufSize > 0 && FindBlank(s).Some? && (Ascii("HTTP/1.1 101 ") <= s || IsNoBodyStatus(Head(s))) ==>
              (server.Unread() == Rest(s)
               <==> exists k: nat :: FirstReads(old(server.fragments), bufSize, k) == Head(s))
  {
    hide Reader.ReadOutcome, Decided, Consumption.MessageEnd, ReadsUntil, ParsedResponse, FirstReads, FindBlank,
         IsNoBodyStatus, Ascii;
    if bufSize > 0 {
      Consumption.ReadingLeaves(server.fragments, bufSize);
      if FindBlank(server.Unread()).Some? && Ascii("HTTP/1.1 101 ") <= server.Unread() {
        HeadFacts.SwitchingHead(server.Unread());
      }
      if FindBlank(server.Unread()).Some? && IsNoBodyStatus(Head(server.Unread())) {
        Consumption.HandshakeLeaves(server.fragments, bufSize);
      }
    }
    relays := false;
    var request := SerializeRequest(req);
    server.WriteAll(request);
    var read := Reader.ReadFullResponse(server, bufSize);
    if read.Err? {
      return ReadFailed(read.error), false;
    }
    var parsed := ParseRawResponse(read.value);
    if parsed.Err? {
      return ParseFailed(parsed.error), false;
    }
    var (w', modified) := handler.onResponse(w, parsed.value);
    if modified.Err? {
      return HandlerFailed(w', modified.error), false;
    }
    var bytes := SerializeResponse(rules, modified.value);
    client.WriteAll(bytes);
    up := Answered(w', modified.value);
    if modified.value.status == 101 {
      relays := true;
    } else {
      client.Shutdown();
    }
  }

  /** A handshake passes through whatever comes behind it and however it is cut up: the
      reader returns the printed head alone, and the parser the response. */
  lemma {:induction false} HandshakeIsRead(rules: HttpRules, res: Response, tail: Bytes, fragments: seq<Bytes>,
                                           bufSize: nat, ending: Ending)
    requires rules.Lawful() && WellFormedResponse(res) && res.body == Full([]) && bufSize > 0
    requires res.status == 101 || res.status == 204 || res.status == 304
    requires Fragmentation.Delivers(fragments, ResponseHead(rules, res) + tail)
    ensures Reader.ReadOutcome(fragments, bufSize, ending) == Ok(ResponseHead(rules, res))
    ensures ParsedResponse(ResponseHead(rules, res)) == Ok(CleanedResponse(res))
  {
    hide ResponseHead, ParsedResponse, Reader.ReadOutcome, Headers.ValidMap, HttpRules.Lawful;
    HeadFacts.NoBodyIsRead(rules, res, tail, fragments, bufSize, ending);
    HeadOfEmpty(rules, res);
    ParsePrintedResponse(rules, res);
  }

  lemma {:induction false} HeadOfEmpty(rules: HttpRules, res: Response)
    requires res.body == Full([])
    ensures ResponseBytes(rules, res) == ResponseHead(rules, res)
  {
    assert ResponseHead(rules, res) + [] == ResponseHead(rules, res);
  }
}
