/**
 Requests, responses and bodies (src/handler.rs:33-51), and the parts of the `http`
 crate that decide what a request line may hold and which reason goes with a status.
 */
module Http {
  import opened Wrappers
  import opened ByteText

  import Headers

  /** A frame of a streamed body. */
  datatype BodyFrame = Data(data: Bytes) | Trailers

  /** A body in memory, or one that still yields frames and then ends or fails. */
  datatype Body =
    | Full(bytes: Bytes)
    | Streaming(frames: seq<BodyFrame>, fails: bool)

  datatype Request = Request(verb: Bytes, uri: Text, headers: Headers.HeaderMap, body: Body)

  datatype Response = Response(status: nat, headers: Headers.HeaderMap, body: Body)

  function DataOf(frames: seq<BodyFrame>): Bytes {
    if frames == [] then []
    else (if frames[0].Data? then frames[0].data else []) + DataOf(frames[1..])
  }

  /** `Body::into_bytes`: None when the stream fails. */
  function IntoBytes(body: Body): Option<Bytes> {
    match body
    case Full(bytes) => Some(bytes)
    case Streaming(frames, fails) => if fails then None else Some(DataOf(frames))
  }

  /** Nothing yields nothing, and every frame adds its data. */
  lemma {:induction false} DataAppend(frames: seq<BodyFrame>, f: BodyFrame)
    ensures DataOf([]) == []
    ensures DataOf(frames + [f]) == DataOf(frames) + if f.Data? then f.data else []
  {
    var data, one := if f.Data? then f.data else [], [f];
    if frames == [] {
      assert frames + one == one && one[1..] == [];
      assert DataOf(one) == data + DataOf([]) == data;
    } else {
      var first := if frames[0].Data? then frames[0].data else [];
      assert (frames + one)[1..] == frames[1..] + one;
      DataAppend(frames[1..], f);
      assert first + (DataOf(frames[1..]) + data) == (first + DataOf(frames[1..])) + data;
    }
  }

  /** A body is collected exactly when it does not fail, and then it is all that it yields. */
  lemma {:induction false} CollectedIff(bytes: Bytes, data: Bytes, more: Bytes)
    ensures IntoBytes(Full(bytes)) == Some(bytes)
    ensures IntoBytes(Streaming([Data(data), Trailers, Data(more)], false)) == Some(data + more)
    ensures IntoBytes(Streaming([Data(data), Trailers, Data(more)], true)) == None
  {
    var frames := [Data(data), Trailers, Data(more)];
    assert frames[1..] == [Trailers, Data(more)] && frames[1..][1..] == [Data(more)] && frames[1..][1..][1..] == [];
    assert DataOf(frames[1..][1..]) == more + [] == more;
    assert DataOf(frames[1..]) == [] + more == more;
  }

  datatype ProxyError =
    | ProtocolError(text: Text)
    | IoError

  /** What a request handler decides: go on with a request, or answer at once. */
  datatype RequestOrResponse = Forward(request: Request) | Answer(response: Response)

  /** How the `http` crate reads and prints a request target, and its reason phrases. */
  datatype HttpRules = HttpRules(canonicalUri: Text -> Option<Text>, reason: nat -> Option<Text>) {

    /** A target it accepts prints on one line, without white space when it had none, and the
        print is accepted as it is; a reason phrase is one line. */
    ghost predicate Lawful() {
      && (forall u :: canonicalUri(u).Some? ==>
            var v := canonicalUri(u).value;
            v != [] && Headers.Inline(v) && (NoSpace(u) ==> NoSpace(v)) && canonicalUri(v) == Some(v))
      && (forall n :: reason(n).Some? ==> Headers.Inline(reason(n).value))
    }
  }

  /** Rules that accept any target without spaces and know no reason phrase. */
  function PlainRules(): HttpRules {
    HttpRules(u => if u != [] && NoSpace(u) then Some(u) else None, n => None)
  }

  lemma {:induction false} SpacelessIsInline(s: Text)
    requires NoSpace(s)
    ensures Headers.Inline(s)
  {
    forall b | b in s
      ensures b != CR && b != LF
    {
      var i :| 0 <= i < |s| && s[i] == b;
      assert !IsSpace(s[i]);
    }
  }

  lemma {:induction false} LawfulRulesExist()
    ensures PlainRules().Lawful() && PlainRules().canonicalUri(Ascii("/")) == Some(Ascii("/"))
  {
    assert Ascii("/")[0] == 47;
    forall u: Text | NoSpace(u)
      ensures Headers.Inline(u)
    {
      SpacelessIsInline(u);
    }
  }

  predicate ValidStatus(status: nat) {
    100 <= status <= 999
  }

  /** What the crate guarantees of every response it holds. */
  predicate WellFormedResponse(res: Response) {
    ValidStatus(res.status) && Headers.ValidMap(res.headers)
  }

  predicate WellFormedRequest(rules: HttpRules, req: Request) {
    Headers.IsToken(req.verb) && rules.canonicalUri(req.uri) == Some(req.uri) && Headers.ValidMap(req.headers)
  }
}
