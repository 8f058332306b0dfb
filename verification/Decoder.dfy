/**
 Undoing content codings (src/decoder.rs:52-244).
 */
module Decoder {
  import opened Wrappers
  import opened ByteText
  import opened Transport
  import opened Utf8
  import opened Headers
  import opened Http

  const IDENTITY: Bytes := Ascii("identity")

  datatype Coding = Gzip | Deflate | Brotli | Zstd

  function CodingNamed(name: Text): Option<Coding> {
    if name == Ascii("gzip") || name == Ascii("x-gzip") then Some(Gzip)
    else if name == Ascii("deflate") then Some(Deflate)
    else if name == Ascii("br") then Some(Brotli)
    else if name == Ascii("zstd") then Some(Zstd)
    else None
  }

  /** What a `Read` yields: its bytes, and whether it then ends or fails. */
  datatype Source = Source(bytes: Bytes, ending: Ending)

  /** The compression libraries. A decoder reads a source and is a source itself. */
  datatype Codecs = Codecs(encode: (Coding, Bytes) -> Bytes, decode: (Coding, Source) -> Source) {

    /** Each decoder undoes its encoder. */
    ghost predicate Lawful() {
      forall c, x :: decode(c, Source(encode(c, x), Closed)) == Source(x, Closed)
    }
  }

  function Mark(c: Coding): byte {
    match c
    case Gzip => 1
    case Deflate => 2
    case Brotli => 3
    case Zstd => 4
  }

  /** Codecs that only mark what they encode, and fail on anything without their mark. */
  function MarkingCodecs(): Codecs {
    Codecs((c, x) => [Mark(c)] + x,
           (c, s: Source) => if s.bytes != [] && s.bytes[0] == Mark(c) then Source(s.bytes[1..], s.ending)
                             else Source([], Broken))
  }

  /** The law of the codecs can be met, even by codecs that tell each other's output apart. */
  lemma {:induction false} LawfulCodecsExist()
    ensures MarkingCodecs().Lawful()
    ensures forall c, d, x :: c != d ==>
              MarkingCodecs().decode(c, Source(MarkingCodecs().encode(d, x), Closed)).ending == Broken
  {
    var codecs := MarkingCodecs();
    forall c, x
      ensures codecs.decode(c, Source(codecs.encode(c, x), Closed)) == Source(x, Closed)
    {
      assert ([Mark(c)] + x)[1..] == x;
    }
  }

  // ── The list of codings ──────────────────────────────────────

  function FirstNonSpace(s: Bytes): Option<nat> {
    if s == [] then None
    else if s[0] != SP then Some(0)
    else match FirstNonSpace(s[1..]) case None => None case Some(i) => Some(i + 1)
  }

  function LastNonSpace(s: Bytes): (r: Option<nat>)
    ensures r.Some? ==> r.value < |s| && s[r.value] != SP
    ensures r.None? <==> forall i :: 0 <= i < |s| ==> s[i] == SP
  {
    if s == [] then None
    else if s[|s| - 1] != SP then Some(|s| - 1)
    else LastNonSpace(s[..|s| - 1])
  }

  lemma {:induction false} NonSpaceBounds(s: Bytes)
    ensures FirstNonSpace(s).Some? <==> LastNonSpace(s).Some?
    ensures FirstNonSpace(s).Some? ==> FirstNonSpace(s).value <= LastNonSpace(s).value
    ensures FirstNonSpace(s).Some? ==> s[FirstNonSpace(s).value] != SP
    ensures LastNonSpace(s).Some? ==> forall i :: LastNonSpace(s).value < i < |s| ==> s[i] == SP
  {
    FirstNonSpaceIs(s);
    LastNonSpaceIs(s);
  }

  lemma {:induction false} FirstNonSpaceIs(s: Bytes)
    ensures FirstNonSpace(s).None? <==> forall i :: 0 <= i < |s| ==> s[i] == SP
    ensures FirstNonSpace(s).Some? ==> FirstNonSpace(s).value < |s| && s[FirstNonSpace(s).value] != SP
    ensures FirstNonSpace(s).Some? ==> forall i :: 0 <= i < FirstNonSpace(s).value ==> s[i] == SP
  {
    if s != [] && s[0] == SP {
      FirstNonSpaceIs(s[1..]);
      assert forall i :: 1 <= i < |s| ==> s[i] == s[1..][i - 1];
      assert forall i :: 0 <= i < |s| - 1 ==> s[1..][i] == s[i + 1];
    }
  }

  lemma {:induction false} LastNonSpaceIs(s: Bytes)
    ensures LastNonSpace(s).Some? ==> forall i :: LastNonSpace(s).value < i < |s| ==> s[i] == SP
  {
    if s != [] && s[|s| - 1] == SP {
      LastNonSpaceIs(s[..|s| - 1]);
    }
  }

  /** `trim_ascii`: only spaces go, and a text of spaces alone stays as it is. */
  function TrimSpaces(s: Bytes): Bytes {
    NonSpaceBounds(s);
    var start := if FirstNonSpace(s).Some? then FirstNonSpace(s).value else 0;
    var end := if LastNonSpace(s).Some? then LastNonSpace(s).value + 1 else |s|;
    s[start..end]
  }

  predicate HasText(s: Bytes) {
    exists i :: 0 <= i < |s| && s[i] != SP
  }

  /** The trim takes the spaces around a text that holds anything else, and nothing more. */
  lemma {:induction false} TrimSpacesIs(s: Bytes) returns (before: nat, after: nat)
    ensures var t := TrimSpaces(s);
            && before + |t| + after == |s| && t == s[before..before + |t|]
            && (forall i :: 0 <= i < before || |s| - after <= i < |s| ==> s[i] == SP)
            && (if HasText(s) then t != [] && t[0] != SP && t[|t| - 1] != SP else before == after == 0)
  {
    NonSpaceBounds(s);
    FirstNonSpaceIs(s);
    before, after := 0, 0;
    if HasText(s) {
      before, after := FirstNonSpace(s).value, |s| - LastNonSpace(s).value - 1;
    }
  }

  function TrimEach(pieces: seq<Bytes>): (r: seq<Bytes>)
    ensures |r| == |pieces| && forall i :: 0 <= i < |r| ==> r[i] == TrimSpaces(pieces[i])
  {
    if pieces == [] then [] else [TrimSpaces(pieces[0])] + TrimEach(pieces[1..])
  }

  /** The elements between commas, in order. */
  function Split(s: Bytes): (r: seq<Bytes>)
    ensures r != []
    decreases |s|
  {
    var i := IndexOf(s, COMMA);
    if i == |s| then [s] else [s[..i]] + Split(s[i + 1..])
  }

  /** One past the last comma, or 0. */
  function AfterLastComma(s: Bytes): (i: nat)
    ensures i <= |s|
    ensures i > 0 ==> s[i - 1] == COMMA
    ensures COMMA !in s[i..]
  {
    if s == [] || s[|s| - 1] == COMMA then |s|
    else
      var i := AfterLastComma(s[..|s| - 1]);
      assert s[i..] == s[..|s| - 1][i..] + [s[|s| - 1]];
      i
  }

  /** `rsplit`: the elements from the last to the first. */
  function RSplit(s: Bytes): seq<Bytes>
    decreases |s|
  {
    var i := AfterLastComma(s);
    if i == 0 then [s] else [s[i..]] + RSplit(s[..i - 1])
  }

  /** `encodings`: from the last value to the first, the elements of each from the last. */
  function Encodings(values: seq<Bytes>): seq<Bytes> {
    if values == [] then []
    else TrimEach(RSplit(values[|values| - 1])) + Encodings(values[..|values| - 1])
  }

  /** The elements of all the header lines, in the order in which they are listed. */
  function Elements(values: seq<Bytes>): seq<Bytes> {
    if values == [] then [] else TrimEach(Split(values[0])) + Elements(values[1..])
  }

  lemma {:induction false} ReverseSplits<T>(a: seq<T>, b: seq<T>)
    ensures Reverse(a + b) == Reverse(b) + Reverse(a)
  {
  }

  lemma {:induction false} ReverseIsInjective<T>(a: seq<T>, b: seq<T>)
    ensures Reverse(a) == Reverse(b) <==> a == b
  {
    assert Reverse(Reverse(a)) == a && Reverse(Reverse(b)) == b;
  }

  lemma {:induction false} TrimEachSplits(a: seq<Bytes>, b: seq<Bytes>)
    ensures TrimEach(a + b) == TrimEach(a) + TrimEach(b)
  {
  }

  lemma {:induction false} TrimEachReverse(a: seq<Bytes>)
    ensures TrimEach(Reverse(a)) == Reverse(TrimEach(a))
  {
    hide *;
    var left, right := TrimEach(Reverse(a)), Reverse(TrimEach(a));
    forall i | 0 <= i < |a|
      ensures left[i] == right[i]
    {
      assert left[i] == TrimSpaces(Reverse(a)[i]);
    }
    assert left == right;
  }

  lemma {:induction false} SplitStep(first: Bytes, rest: Bytes)
    requires COMMA !in first
    ensures Split(first + [COMMA] + rest) == [first] + Split(rest)
  {
    var s := first + [COMMA] + rest;
    assert s[..|first|] == first && s[|first| + 1..] == rest;
    IndexOfIs(s, COMMA, |first|);
  }

  lemma {:induction false} SplitAtComma(a: Bytes, b: Bytes)
    ensures Split(a + [COMMA] + b) == Split(a) + Split(b)
    decreases |a|
  {
    hide Split, IndexOf;
    IndexOfIsFirst(a, COMMA);
    var i := IndexOf(a, COMMA);
    if i == |a| {
      SplitWithoutComma(a);
      SplitStep(a, b);
    } else {
      var first, rest := a[..i], a[i + 1..];
      assert COMMA !in first;
      assert a == first + [COMMA] + rest;
      assert a + [COMMA] + b == first + [COMMA] + (rest + [COMMA] + b);
      SplitStep(first, rest);
      SplitStep(first, rest + [COMMA] + b);
      SplitAtComma(rest, b);
    }
  }

  lemma {:induction false} SplitWithoutComma(s: Bytes)
    requires COMMA !in s
    ensures Split(s) == [s]
  {
    IndexOfIsFirst(s, COMMA);
  }

  lemma {:induction false} RSplitIsReverse(s: Bytes)
    ensures RSplit(s) == Reverse(Split(s))
    decreases |s|
  {
    hide Split;
    var i := AfterLastComma(s);
    if i == 0 {
      assert s[0..] == s;
      SplitWithoutComma(s);
    } else {
      var a, b := s[..i - 1], s[i..];
      assert s == a + [COMMA] + b;
      SplitAtComma(a, b);
      SplitWithoutComma(b);
      RSplitIsReverse(a);
      assert Split(s) == Split(a) + [b];
    }
  }

  lemma {:induction false} ElementsSplit(a: seq<Bytes>, b: seq<Bytes>)
    ensures Elements(a + b) == Elements(a) + Elements(b)
  {
    if a == [] {
      assert a + b == b;
    } else {
      assert (a + b)[1..] == a[1..] + b;
      ElementsSplit(a[1..], b);
    }
  }

  /** The peeling order is the reverse of the listing order, over any number of lines. */
  lemma {:induction false} EncodingsAreReversed(values: seq<Bytes>)
    ensures Encodings(values) == Reverse(Elements(values))
  {
    hide TrimSpaces, Split, RSplit, Reverse, TrimEach;
    if values == [] {
      assert Reverse<Bytes>([]) == [];
    } else {
      var last, front := values[|values| - 1], values[..|values| - 1];
      EncodingsAreReversed(front);
      RSplitIsReverse(last);
      TrimEachReverse(Split(last));
      assert values == front + [last];
      ElementsSplit(front, [last]);
      ElementsOfOne(last);
      ReverseSplits(Elements(front), TrimEach(Split(last)));
    }
  }

  lemma {:induction false} ElementsOfOne(value: Bytes)
    ensures Elements([value]) == TrimEach(Split(value))
  {
    assert Elements([value]) == TrimEach(Split(value)) + Elements([]);
  }

  // ── One line or several (section 5.3 of RFC 9110) ────────────

  /** The combined field value. */
  function Joined(values: seq<Bytes>, separator: Bytes): Bytes
    requires values != []
  {
    if |values| == 1 then values[0] else values[0] + separator + Joined(values[1..], separator)
  }

  /** Joining the lines with commas, and nothing else, never changes the list. */
  lemma {:induction false} LinesJoinByComma(values: seq<Bytes>)
    requires values != []
    ensures Encodings(values) == Encodings([Joined(values, [COMMA])])
  {
    EncodingsAreReversed(values);
    EncodingsAreReversed([Joined(values, [COMMA])]);
    ElementsOfJoined(values);
  }

  lemma {:induction false} ElementsOfJoined(values: seq<Bytes>)
    requires values != []
    ensures Elements(values) == Elements([Joined(values, [COMMA])])
  {
    hide TrimSpaces, Split;
    var joined := Joined(values, [COMMA]);
    ElementsOfOne(joined);
    if |values| == 1 {
      assert values == [joined];
    } else {
      var rest := Joined(values[1..], [COMMA]);
      ElementsOfJoined(values[1..]);
      ElementsOfOne(rest);
      SplitAtComma(values[0], rest);
      TrimEachSplits(Split(values[0]), Split(rest));
    }
  }

  lemma {:induction false} NonSpaceShifts(s: Bytes)
    requires HasText(s)
    ensures FirstNonSpace(s).Some? && FirstNonSpace([SP] + s) == Some(FirstNonSpace(s).value + 1)
    ensures LastNonSpace(s).Some? && LastNonSpace([SP] + s) == Some(LastNonSpace(s).value + 1)
  {
    FirstNonSpaceIs(s);
    assert ([SP] + s)[1..] == s;
    LastNonSpaceShifts(s);
  }

  lemma {:induction false} LastNonSpaceShifts(s: Bytes)
    requires LastNonSpace(s).Some?
    ensures LastNonSpace([SP] + s) == Some(LastNonSpace(s).value + 1)
  {
    var t := [SP] + s;
    assert t[|t| - 1] == s[|s| - 1];
    if s[|s| - 1] == SP {
      assert t[..|t| - 1] == [SP] + s[..|s| - 1];
      LastNonSpaceShifts(s[..|s| - 1]);
    }
  }

  lemma {:induction false} SliceBehindSpace(s: Bytes, i: nat, n: nat)
    requires i <= n <= |s|
    ensures ([SP] + s)[i + 1..n + 1] == s[i..n]
  {
  }

  /** A space in front of an element goes exactly when the element holds anything else. */
  lemma {:induction false} TrimSpacesLeading(s: Bytes)
    ensures TrimSpaces([SP] + s) == TrimSpaces(s) <==> HasText(s)
  {
    hide FirstNonSpace, LastNonSpace;
    NonSpaceBounds(s);
    NonSpaceBounds([SP] + s);
    if HasText(s) {
      NonSpaceShifts(s);
      var i, k := FirstNonSpace(s).value, LastNonSpace(s).value;
      SliceBehindSpace(s, i, k + 1);
    } else {
      assert forall i :: 0 < i < |s| + 1 ==> ([SP] + s)[i] == s[i - 1];
      assert LastNonSpace([SP] + s).None?;
      FirstNonSpaceIs(s);
      assert |TrimSpaces([SP] + s)| == |s| + 1;
    }
  }

  lemma {:induction false} SplitLeadingSpace(s: Bytes)
    ensures Split([SP] + s) == [[SP] + Split(s)[0]] + Split(s)[1..]
  {
    var t := [SP] + s;
    assert t[1..] == s;
    var i := IndexOf(s, COMMA);
    assert IndexOf(t, COMMA) == i + 1;
    if i == |s| {
      assert Split(s)[1..] == [];
    } else {
      assert t[..i + 1] == [SP] + s[..i];
      assert t[i + 2..] == s[i + 1..];
    }
  }

  /** Every line behind the first starts with an element that is not blank. */
  predicate LaterLinesStartWithText(values: seq<Bytes>) {
    forall i :: 1 <= i < |values| ==> HasText(Split(values[i])[0])
  }

  /** Joining the lines with a comma and a space keeps the list exactly when no later line
      starts with a blank element, because trimming leaves a blank element alone. */
  lemma {:induction false} LinesJoinByCommaSpace(values: seq<Bytes>)
    requires values != []
    ensures Encodings(values) == Encodings([Joined(values, [COMMA, SP])]) <==> LaterLinesStartWithText(values)
  {
    hide *;
    EncodingsAreReversed(values);
    EncodingsAreReversed([Joined(values, [COMMA, SP])]);
    ElementsOfSpaced(values);
    ReverseIsInjective(Elements(values), Elements([Joined(values, [COMMA, SP])]));
  }

  lemma {:induction false} SameBehind(front: seq<Bytes>, a: seq<Bytes>, b: seq<Bytes>)
    ensures front + a == front + b <==> a == b
  {
    assert (front + a)[|front|..] == a && (front + b)[|front|..] == b;
  }

  lemma {:induction false} ElementsOfSpaced(values: seq<Bytes>)
    requires values != []
    ensures |Elements([Joined(values, [COMMA, SP])])| == |Elements(values)|
    ensures Elements(values) == Elements([Joined(values, [COMMA, SP])]) <==> LaterLinesStartWithText(values)
  {
    hide TrimSpaces, Split, HasText;
    var joined := Joined(values, [COMMA, SP]);
    ElementsOfOne(joined);
    if |values| == 1 {
      assert values == [joined];
    } else {
      var rest := Joined(values[1..], [COMMA, SP]);
      var head := TrimEach(Split(values[0]));
      ElementsOfSpaced(values[1..]);
      ElementsOfOne(rest);
      assert joined == values[0] + [COMMA] + ([SP] + rest);
      SplitAtComma(values[0], [SP] + rest);
      SplitLeadingSpace(rest);
      TrimEachSplits(Split(values[0]), Split([SP] + rest));
      TrimSpacesLeading(Split(rest)[0]);
      FirstElementOfJoined(values[1..]);
      var plain, spaced := Elements(values[1..]), TrimEach(Split([SP] + rest));
      assert Elements(values) == head + plain && Elements([joined]) == head + spaced;
      assert |spaced| == |plain|;
      SameBehind(head, plain, spaced);
      var joinedRest := TrimEach(Split(rest));
      assert forall i :: 1 <= i < |spaced| ==> spaced[i] == joinedRest[i];
      LaterLines(values);
      SameFirst(values[1..]);
      FirstDecides(plain, joinedRest, spaced);
    }
  }

  lemma {:induction false} FirstDecides(plain: seq<Bytes>, joined: seq<Bytes>, spaced: seq<Bytes>)
    requires |plain| == |joined| == |spaced| > 0 && plain[0] == joined[0]
    requires forall i :: 1 <= i < |spaced| ==> spaced[i] == joined[i]
    ensures plain == spaced <==> plain == joined && spaced[0] == joined[0]
  {
    if plain == spaced {
      assert plain == joined;
    }
    if plain == joined && spaced[0] == joined[0] {
      assert plain == spaced;
    }
  }

  lemma {:induction false} FirstElementOfJoined(values: seq<Bytes>)
    requires values != []
    ensures Split(Joined(values, [COMMA, SP]))[0] == Split(values[0])[0]
  {
    if |values| > 1 {
      var rest := Joined(values[1..], [COMMA, SP]);
      assert Joined(values, [COMMA, SP]) == values[0] + [COMMA] + ([SP] + rest);
      SplitAtComma(values[0], [SP] + rest);
    }
  }

  lemma {:induction false} SameFirst(values: seq<Bytes>)
    requires values != []
    ensures Elements(values) != [] && Elements(values)[0] == TrimEach(Split(Joined(values, [COMMA, SP])))[0]
  {
    hide TrimSpaces, Split;
    FirstElementOfJoined(values);
  }

  lemma {:induction false} LaterLines(values: seq<Bytes>)
    requires |values| > 1
    ensures LaterLinesStartWithText(values)
            <==> HasText(Split(values[1])[0]) && LaterLinesStartWithText(values[1..])
  {
    hide Split, HasText;
    var rest := values[1..];
    assert forall i :: 2 <= i < |values| ==> values[i] == rest[i - 1];
    if LaterLinesStartWithText(values) {
      forall i | 1 <= i < |rest|
        ensures HasText(Split(rest[i])[0])
      {
        assert rest[i] == values[i + 1];
      }
    }
  }

  /** A coding name as a sender writes it. */
  predicate PlainName(name: Bytes) {
    name != [] && COMMA !in name && SP !in name
  }

  predicate PlainGroup(names: seq<Bytes>) {
    names != [] && forall n :: n in names ==> PlainName(n)
  }

  lemma {:induction false} PlainNameIsElement(name: Bytes)
    requires PlainName(name)
    ensures Split(name) == [name] && TrimSpaces(name) == name && HasText(name)
  {
    SplitWithoutComma(name);
    assert name[0] != SP && name[|name| - 1] != SP;
  }

  lemma {:induction false} NamesAreElements(names: seq<Bytes>)
    requires forall n :: n in names ==> PlainName(n)
    ensures Elements(names) == names
  {
    hide PlainName;
    if names != [] {
      PlainNameIsElement(names[0]);
      NamesAreElements(names[1..]);
    }
  }

  function WriteLines(groups: seq<seq<Bytes>>): seq<Bytes>
    requires forall i :: 0 <= i < |groups| ==> PlainGroup(groups[i])
  {
    if groups == [] then []
    else
      assert PlainGroup(groups[0]);
      [Joined(groups[0], [COMMA, SP])] + WriteLines(groups[1..])
  }

  function Flatten(groups: seq<seq<Bytes>>): seq<Bytes> {
    if groups == [] then [] else groups[0] + Flatten(groups[1..])
  }

  /** A list of names, written on any number of lines, is read back in order. */
  lemma {:induction false} WrittenLinesAreRead(groups: seq<seq<Bytes>>)
    requires forall i :: 0 <= i < |groups| ==> PlainGroup(groups[i])
    ensures Elements(WriteLines(groups)) == Flatten(groups)
  {
    hide PlainName, TrimSpaces, Split;
    if groups != [] {
      var g := groups[0];
      NamesAreElements(g);
      forall i | 1 <= i < |g|
        ensures HasText(Split(g[i])[0])
      {
        assert g[i] in g;
        PlainNameIsElement(g[i]);
      }
      ElementsOfSpaced(g);
      ElementsOfOne(Joined(g, [COMMA, SP]));
      WrittenLinesAreRead(groups[1..]);
    }
  }

  // ── Decoding ─────────────────────────────────────────────────

  /** `should_decode`. */
  predicate ShouldDecode(m: HeaderMap) {
    HasName(m, CONTENT_ENCODING) && Get(m, CONTENT_LENGTH) != Some(Ascii("0"))
  }

  /** The readers that `decode_body` wraps around one another. */
  function DecodeChain(codecs: Codecs, names: seq<Bytes>, source: Source): Result<Source, ProxyError> {
    if names == [] then Ok(source)
    else if names[0] == IDENTITY then DecodeChain(codecs, names[1..], source)
    else
      match CodingNamed(names[0])
      case None => Err(ProtocolError(Decode(names[0])))
      case Some(c) => DecodeChain(codecs, names[1..], codecs.decode(c, source))
  }

  function DecodedBody(codecs: Codecs, names: seq<Bytes>, body: Body): Result<Body, ProxyError> {
    match IntoBytes(body)
    case None => Err(ProtocolError([]))
    case Some(bytes) =>
      match DecodeChain(codecs, names, Source(bytes, Closed))
      case Err(e) => Err(e)
      case Ok(source) => if source.ending == Broken then Err(IoError) else Ok(Full(source.bytes))
  }

  /** `decode_body`. */
  method DecodeBody(codecs: Codecs, names: seq<Bytes>, body: Body) returns (r: Result<Body, ProxyError>)
    ensures r == DecodedBody(codecs, names, body)
  {
    var bytes := IntoBytes(body);
    if bytes.None? {
      return Err(ProtocolError([]));
    }
    var reader := Source(bytes.value, Closed);
    for i := 0 to |names|
      invariant DecodeChain(codecs, names, Source(bytes.value, Closed)) == DecodeChain(codecs, names[i..], reader)
    {
      assert names[i..][1..] == names[i + 1..];
      if names[i] == IDENTITY {
        continue;
      }
      match CodingNamed(names[i]) {
        case None =>
          return Err(ProtocolError(Decode(names[i])));
        case Some(c) =>
          reader := codecs.decode(c, reader);
      }
    }
    return if reader.ending == Broken then Err(IoError) else Ok(Full(reader.bytes));
  }

  function Stripped(m: HeaderMap): HeaderMap {
    Remove(Remove(m, CONTENT_ENCODING), CONTENT_LENGTH)
  }

  /** What becomes of the headers and the body of a message, request or response. */
  function Decoded(codecs: Codecs, m: HeaderMap, body: Body): Result<(HeaderMap, Body), ProxyError> {
    if !ShouldDecode(m) then Ok((m, body))
    else
      match DecodedBody(codecs, Encodings(GetAll(m, CONTENT_ENCODING)), body)
      case Err(e) => Err(e)
      case Ok(decoded) => Ok((Stripped(m), decoded))
  }

  /** `decode_request`. */
  method DecodeRequest(codecs: Codecs, req: Request) returns (r: Result<Request, ProxyError>)
    ensures r == match Decoded(codecs, req.headers, req.body)
                 case Err(e) => Err(e)
                 case Ok((headers, body)) => Ok(req.(headers := headers, body := body))
  {
    if !ShouldDecode(req.headers) {
      return Ok(req);
    }
    var body :- DecodeBody(codecs, Encodings(GetAll(req.headers, CONTENT_ENCODING)), req.body);
    var headers := Remove(req.headers, CONTENT_ENCODING);
    headers := Remove(headers, CONTENT_LENGTH);
    return Ok(req.(headers := headers, body := body));
  }

  /** `decode_response`. */
  method DecodeResponse(codecs: Codecs, res: Response) returns (r: Result<Response, ProxyError>)
    ensures r == match Decoded(codecs, res.headers, res.body)
                 case Err(e) => Err(e)
                 case Ok((headers, body)) => Ok(res.(headers := headers, body := body))
  {
    if !ShouldDecode(res.headers) {
      return Ok(res);
    }
    var body :- DecodeBody(codecs, Encodings(GetAll(res.headers, CONTENT_ENCODING)), res.body);
    var headers := Remove(res.headers, CONTENT_ENCODING);
    headers := Remove(headers, CONTENT_LENGTH);
    return Ok(res.(headers := headers, body := body));
  }

  /** `encode_body`. */
  function EncodeBody(codecs: Codecs, body: Body, name: Text): Result<Body, ProxyError> {
    if body.Streaming? then Err(ProtocolError([]))
    else
      match CodingNamed(name)
      case None => Err(ProtocolError(name))
      case Some(c) => Ok(Full(codecs.encode(c, body.bytes)))
  }

  /** A sender that applies codings one after the other; `identity` is no coding. */
  function EncodeAll(codecs: Codecs, names: seq<Bytes>, body: Body): Result<Body, ProxyError> {
    if names == [] then Ok(body)
    else if names[0] == IDENTITY then EncodeAll(codecs, names[1..], body)
    else
      match EncodeBody(codecs, body, names[0])
      case Err(e) => Err(e)
      case Ok(encoded) => EncodeAll(codecs, names[1..], encoded)
  }

  // ── The coding stack is undone ───────────────────────────────

  predicate Known(name: Text) {
    name == IDENTITY || CodingNamed(name).Some?
  }

  predicate AllKnown(names: seq<Text>) {
    forall n :: n in names ==> Known(n)
  }

  lemma {:induction false} ChainSplits(codecs: Codecs, a: seq<Bytes>, b: seq<Bytes>, source: Source)
    requires AllKnown(a)
    ensures DecodeChain(codecs, a, source).Ok?
    ensures DecodeChain(codecs, a + b, source) == DecodeChain(codecs, b, DecodeChain(codecs, a, source).value)
    decreases |a|
  {
    hide CodingNamed;
    if a == [] {
      assert a + b == b;
    } else {
      assert (a + b)[1..] == a[1..] + b;
      assert Known(a[0]);
      if a[0] == IDENTITY {
        ChainSplits(codecs, a[1..], b, source);
      } else {
        ChainSplits(codecs, a[1..], b, codecs.decode(CodingNamed(a[0]).value, source));
      }
    }
  }

  /** Peeling in the reverse order undoes codings that were applied in order. */
  lemma {:induction false} ChainUndoesEncoding(codecs: Codecs, names: seq<Bytes>, plain: Bytes)
    requires codecs.Lawful() && AllKnown(names)
    ensures EncodeAll(codecs, names, Full(plain)).Ok? && EncodeAll(codecs, names, Full(plain)).value.Full?
    ensures DecodeChain(codecs, Reverse(names), Source(EncodeAll(codecs, names, Full(plain)).value.bytes, Closed))
            == Ok(Source(plain, Closed))
    decreases |names|
  {
    hide CodingNamed, Reverse;
    if names == [] {
      assert Reverse(names) == [];
    } else {
      var n, rest := names[0], names[1..];
      assert Known(n);
      assert Reverse(names) == Reverse(rest) + [n] by {
        assert names == [n] + rest;
        ReverseSplits([n], rest);
        assert Reverse([n]) == [n];
      }
      assert AllKnown(Reverse(rest)) by {
        forall x | x in Reverse(rest)
          ensures Known(x)
        {
          var i :| 0 <= i < |Reverse(rest)| && Reverse(rest)[i] == x;
          assert rest[|rest| - 1 - i] in names;
        }
      }
      var once := if n == IDENTITY then plain else codecs.encode(CodingNamed(n).value, plain);
      ChainUndoesEncoding(codecs, rest, once);
      var encoded := EncodeAll(codecs, rest, Full(once)).value.bytes;
      ChainSplits(codecs, Reverse(rest), [n], Source(encoded, Closed));
      var last := [n];
      assert last[1..] == [];
    }
  }

  /** A message whose Content-Encoding lists, over any number of lines and with any spaces
      around the elements, the codings that were applied to its body in that order: decoding
      gives back the body and takes both headers away, and no other, exactly when the
      Content-Length is not `0`. With that value nothing is touched. */
  lemma {:induction false} CodingStackUndone(codecs: Codecs, m: HeaderMap, plain: Bytes)
    requires codecs.Lawful() && HasName(m, CONTENT_ENCODING)
    requires AllKnown(Elements(GetAll(m, CONTENT_ENCODING)))
    ensures var encoded := EncodeAll(codecs, Elements(GetAll(m, CONTENT_ENCODING)), Full(plain));
            && encoded.Ok?
            && Decoded(codecs, m, encoded.value)
               == if Get(m, CONTENT_LENGTH) != Some(Ascii("0")) then Ok((Stripped(m), Full(plain)))
                  else Ok((m, encoded.value))
  {
    hide Elements, Encodings, Stripped, Ascii;
    var names := Elements(GetAll(m, CONTENT_ENCODING));
    ChainUndoesEncoding(codecs, names, plain);
    EncodingsAreReversed(GetAll(m, CONTENT_ENCODING));
  }

  /** Which coding each name stands for. */
  predicate Names(name: Text, c: Coding) {
    match c
    case Gzip => name == Ascii("gzip") || name == Ascii("x-gzip")
    case Deflate => name == Ascii("deflate")
    case Brotli => name == Ascii("br")
    case Zstd => name == Ascii("zstd")
  }

  lemma {:induction false} NamesArePlain(name: Bytes, c: Coding)
    requires Names(name, c)
    ensures PlainName(name) && name != IDENTITY && IDENTITY != []
  {
    assert |IDENTITY| == 8 && IDENTITY[0] == 105;
    assert Ascii("gzip") == [103, 122, 105, 112] && Ascii("x-gzip") == [120, 45, 103, 122, 105, 112];
    assert Ascii("br") == [98, 114] && Ascii("zstd") == [122, 115, 116, 100];
    assert Ascii("deflate") == [100, 101, 102, 108, 97, 116, 101];
  }

  lemma {:induction false} CodingOf(name: Bytes, c: Coding)
    requires Names(name, c)
    ensures CodingNamed(name) == Some(c)
  {
    assert |Ascii("gzip")| == 4 && |Ascii("x-gzip")| == 6 && |Ascii("deflate")| == 7 && |Ascii("br")| == 2;
    assert Ascii("gzip")[0] == 103 && Ascii("zstd")[0] == 122 && |Ascii("zstd")| == 4;
  }

  lemma {:induction false} OneName(name: Bytes)
    requires PlainName(name)
    ensures Encodings([name]) == [name]
  {
    hide TrimSpaces, Split, PlainName;
    var names := [name];
    EncodingsAreReversed(names);
    NamesAreElements(names);
    assert Reverse(names) == names;
  }

  lemma {:induction false} OneDecoder(codecs: Codecs, name: Bytes, c: Coding, source: Source)
    requires name != IDENTITY && CodingNamed(name) == Some(c)
    ensures DecodeChain(codecs, [name], source) == Ok(codecs.decode(c, source))
    ensures DecodeChain(codecs, [IDENTITY], source) == Ok(source)
  {
    hide CodingNamed;
    var names, none := [name], [IDENTITY];
    assert names[1..] == [] && none[1..] == [];
  }

  /** A message that lists one name: with the coding of that name it is undone, and a body
      that fails, or that the decoder of that name cannot read, is an error. */
  lemma {:induction false} NamedCodingUndone(codecs: Codecs, m: HeaderMap, name: Bytes, c: Coding, plain: Bytes,
                                             body: Bytes, frames: seq<BodyFrame>)
    requires codecs.Lawful() && Names(name, c)
    requires GetAll(m, Ascii("content-encoding")) == [name] && Get(m, Ascii("content-length")) != Some(Ascii("0"))
    ensures Decoded(codecs, m, Full(codecs.encode(c, plain))) == Ok((Stripped(m), Full(plain)))
    ensures EncodeBody(codecs, Full(plain), name) == Ok(Full(codecs.encode(c, plain)))
    ensures codecs.decode(c, Source(body, Closed)).ending == Broken ==> Decoded(codecs, m, Full(body)) == Err(IoError)
    ensures Decoded(codecs, m, Streaming(frames, true)) == Err(ProtocolError([]))
    ensures EncodeBody(codecs, Streaming(frames, false), name) == Err(ProtocolError([]))
  {
    NamesArePlain(name, c);
    CodingOf(name, c);
    OneName(name);
    hide Names, CodingNamed, Ascii, Encodings, Stripped, PlainName, DecodeChain;
    OneDecoder(codecs, name, c, Source(codecs.encode(c, plain), Closed));
    OneDecoder(codecs, name, c, Source(body, Closed));
    assert HasName(m, CONTENT_ENCODING);
  }

  /** A streamed body that does not fail is decoded as the data that it yields. */
  lemma {:induction false} StreamIsCollected(codecs: Codecs, m: HeaderMap, frames: seq<BodyFrame>)
    requires GetAll(m, Ascii("content-encoding")) != [] && Get(m, Ascii("content-length")) != Some(Ascii("0"))
    ensures Decoded(codecs, m, Streaming(frames, false)) == Decoded(codecs, m, Full(DataOf(frames)))
  {
    hide Ascii, Encodings, DataOf, DecodeChain, Stripped;
  }

  /** `identity` is no coding: the body stays, and the headers go. */
  lemma {:induction false} IdentityIsNoCoding(codecs: Codecs, m: HeaderMap, body: Bytes)
    requires GetAll(m, Ascii("content-encoding")) == [Ascii("identity")]
    requires Get(m, Ascii("content-length")) != Some(Ascii("0"))
    ensures Decoded(codecs, m, Full(body)) == Ok((Stripped(m), Full(body)))
  {
    assert IDENTITY == [105, 100, 101, 110, 116, 105, 116, 121];
    NamesArePlain(Ascii("br"), Brotli);
    CodingOf(Ascii("br"), Brotli);
    OneName(IDENTITY);
    hide Ascii, Encodings, Stripped, DecodeChain;
    OneDecoder(codecs, Ascii("br"), Brotli, Source(body, Closed));
    assert HasName(m, CONTENT_ENCODING);
  }

  /** A message without Content-Encoding is left alone. */
  lemma {:induction false} UncodedIsKept(codecs: Codecs, m: HeaderMap, body: Body)
    requires GetAll(m, Ascii("content-encoding")) == [] && forall e :: e in m ==> e.values != []
    ensures Decoded(codecs, m, body) == Ok((m, body))
  {
  }

  lemma {:induction false} StrippedHeaders(m: HeaderMap, other: Bytes)
    requires Distinct(m)
    ensures !HasName(Stripped(m), CONTENT_ENCODING) && !HasName(Stripped(m), CONTENT_LENGTH)
    ensures other != CONTENT_ENCODING && other != CONTENT_LENGTH ==> GetAll(Stripped(m), other) == GetAll(m, other)
  {
    assert |CONTENT_ENCODING| == 16 && |CONTENT_LENGTH| == 14;
    var once := Remove(m, CONTENT_ENCODING);
    RemoveTakesOnlyItsName(m, CONTENT_ENCODING, other);
    RemoveTakesOnlyItsName(once, CONTENT_LENGTH, other);
    NameStaysAway(once, CONTENT_LENGTH, CONTENT_ENCODING);
  }

  /** Content-Encoding goes first, so of four entries the last two change places. */
  lemma {:induction false} StrippedOrder(codings: seq<Bytes>, lengths: seq<Bytes>, x: Entry, y: Entry)
    requires x.name != CONTENT_ENCODING && x.name != CONTENT_LENGTH
    requires y.name != CONTENT_ENCODING && y.name != CONTENT_LENGTH
    ensures Stripped([Entry(Ascii("content-encoding"), codings), Entry(Ascii("content-length"), lengths), x, y])
            == [y, x]
  {
    assert |CONTENT_ENCODING| == 16 && |CONTENT_LENGTH| == 14;
    hide Ascii, NamePosition;
    var e, l := Entry(CONTENT_ENCODING, codings), Entry(CONTENT_LENGTH, lengths);
    RemoveMovesLast([], e, [l, x], y);
    RemoveMovesLast([y], l, [], x);
    assert [] + [e] + [l, x] + [y] == [e, l, x, y];
    assert [] + [y] + [l, x] == [y] + [l] + [] + [x];
    assert [y] + [x] + [] == [y, x];
  }

  lemma {:induction false} NameStaysAway(m: HeaderMap, removed: Bytes, away: Bytes)
    requires !HasName(m, away)
    ensures !HasName(Remove(m, removed), away)
  {
    hide NamePosition;
    var r, i := Remove(m, removed), NamePosition(m, removed);
    assert forall j :: 0 <= j < |m| ==> m[j].name != away;
    assert forall j :: 0 <= j < |r| ==> r[j] == m[if j == i then |m| - 1 else j];
  }

  /** Setting up the decoders fails exactly when some element is no supported coding,
      whatever the body, and names the first such element in peeling order. */
  lemma {:induction false} ChainFailsIff(codecs: Codecs, names: seq<Bytes>, source: Source) returns (k: nat)
    ensures DecodeChain(codecs, names, source).Ok? <==> AllKnown(names)
    ensures k <= |names| && AllKnown(names[..k])
    ensures if k == |names| then DecodeChain(codecs, names, source).Ok?
            else !Known(names[k]) && DecodeChain(codecs, names, source) == Err(ProtocolError(Decode(names[k])))
    decreases |names|
  {
    hide CodingNamed;
    k := 0;
    if names != [] && Known(names[0]) {
      var rest := names[1..];
      assert names == [names[0]] + rest;
      var next := if names[0] == IDENTITY then source else codecs.decode(CodingNamed(names[0]).value, source);
      var j := ChainFailsIff(codecs, rest, next);
      k := j + 1;
      assert names[..k] == [names[0]] + rest[..j];
    }
  }

  lemma {:induction false} KnownIsLower(name: Text)
    requires Known(name)
    ensures Lower(name) == name
  {
    assert Lower(IDENTITY) == IDENTITY;
    assert Lower(Ascii("gzip")) == Ascii("gzip") && Lower(Ascii("x-gzip")) == Ascii("x-gzip");
    assert Lower(Ascii("deflate")) == Ascii("deflate") && Lower(Ascii("br")) == Ascii("br");
    assert Lower(Ascii("zstd")) == Ascii("zstd");
  }

  /** Section 8.4.1 of RFC 9110 makes coding names case-insensitive. For a list that is
      known up to case, decoding gets past the names exactly when all are in lower case. */
  lemma {:induction false} CaseMatters(codecs: Codecs, names: seq<Bytes>, source: Source)
    requires forall n :: n in names ==> Known(Lower(n))
    ensures DecodeChain(codecs, names, source).Ok? <==> forall n :: n in names ==> Lower(n) == n
  {
    hide Known, Lower;
    var _ := ChainFailsIff(codecs, names, source);
    forall n | n in names && Known(n)
      ensures Lower(n) == n
    {
      KnownIsLower(n);
    }
  }

  /** A supported name in capitals is refused. */
  lemma {:induction false} UpperCaseRefused(codecs: Codecs, source: Source)
    ensures Known(Lower(Ascii("GZIP")))
    ensures DecodeChain(codecs, [Ascii("GZIP")], source) == Err(ProtocolError(Ascii("GZIP")))
  {
    var name := Ascii("GZIP");
    assert Lower(name) == Ascii("gzip");
    assert name[0] == 71 && |name| == 4 && IsAscii(name);
    DecodeAscii(name);
    assert Ascii("gzip")[0] == 103 && Ascii("zstd")[0] == 122 && |Ascii("x-gzip")| == 6 && |Ascii("deflate")| == 7;
    assert |Ascii("br")| == 2 && |IDENTITY| == 8;
  }

  lemma {:induction false} TwoDecoders(codecs: Codecs, first: Bytes, c: Coding, second: Bytes, d: Coding,
                                       source: Source)
    requires first != IDENTITY && CodingNamed(first) == Some(c)
    requires second != IDENTITY && CodingNamed(second) == Some(d)
    ensures DecodeChain(codecs, [second, first], source) == Ok(codecs.decode(c, codecs.decode(d, source)))
  {
    hide CodingNamed, Ascii;
    OneDecoder(codecs, first, c, codecs.decode(d, source));
    assert [second, first][1..] == [first];
  }

  lemma {:induction false} TwoNames(first: Bytes, second: Bytes)
    requires PlainName(first) && PlainName(second)
    ensures Encodings([first + [COMMA, SP] + second]) == [second, first]
  {
    hide PlainName, TrimSpaces, Split, Ascii, Elements, Encodings;
    var group := [first, second];
    var groups, nothing: seq<seq<Bytes>> := [group], [];
    assert group[1..] == [second] && groups[1..] == nothing;
    assert Joined(group, [COMMA, SP]) == first + [COMMA, SP] + second;
    assert WriteLines(groups) == [first + [COMMA, SP] + second];
    assert Flatten(groups) == group + [] == group;
    WrittenLinesAreRead(groups);
    EncodingsAreReversed([first + [COMMA, SP] + second]);
    assert Reverse(group) == [second, first];
  }

  lemma {:induction false} CommaSpace()
    ensures Ascii(", ") == [COMMA, SP]
  {
  }

  /** Two names on one line: the coding that stands last is taken off first. */
  lemma {:induction false} LastCodingGoesFirst(codecs: Codecs, first: Bytes, c: Coding, second: Bytes, d: Coding,
                                               source: Source)
    requires Names(first, c) && Names(second, d)
    ensures DecodeChain(codecs, Encodings([first + Ascii(", ") + second]), source)
            == Ok(codecs.decode(c, codecs.decode(d, source)))
  {
    NamesArePlain(first, c);
    NamesArePlain(second, d);
    CodingOf(first, c);
    CodingOf(second, d);
    CommaSpace();
    hide Ascii, CodingNamed, Names, PlainName, Encodings, DecodeChain;
    TwoNames(first, second);
    TwoDecoders(codecs, first, c, second, d, source);
  }

  predicate Supported(name: Text) {
    name == Ascii("identity") || exists c :: Names(name, c)
  }

  lemma {:induction false} NamesIff(name: Text)
    ensures CodingNamed(name).None? <==> forall c :: !Names(name, c)
  {
    if c :| Names(name, c) {
      CodingOf(name, c);
    } else {
      assert !Names(name, Gzip) && !Names(name, Deflate) && !Names(name, Brotli) && !Names(name, Zstd);
    }
  }

  lemma {:induction false} PeelingStops(codecs: Codecs, names: seq<Bytes>, k: nat, source: Source)
    requires k < |names| && !Supported(names[k]) && forall i :: k < i < |names| ==> Supported(names[i])
    ensures DecodeChain(codecs, Reverse(names), source) == Err(ProtocolError(Decode(names[k])))
  {
    hide Ascii, Decode, Names, CodingNamed, Supported, Known, DecodeChain, Reverse;
    var peeled := Reverse(names);
    forall n
      ensures Known(n) <==> Supported(n)
    {
      KnownIff(n);
    }
    var j := ChainFailsIff(codecs, peeled, source);
    var l := |names| - 1 - k;
    assert !Known(peeled[l]) && forall i :: 0 <= i < l ==> Known(peeled[i]);
    assert forall i :: 0 <= i < j ==> peeled[i] == peeled[..j][i] && peeled[i] in peeled[..j];
  }

  lemma {:induction false} KnownIff(name: Text)
    ensures Known(name) <==> Supported(name)
  {
    hide CodingNamed, Names, Ascii;
    NamesIff(name);
  }

  /** A message that lists a name which is none of these fails, whatever its body: the error
      names the one that stands last, up to which all are supported. */
  lemma {:induction false} UnsupportedFails(codecs: Codecs, m: HeaderMap, names: seq<Bytes>, k: nat, body: Body)
    requires GetAll(m, Ascii("content-encoding")) != [] && Get(m, Ascii("content-length")) != Some(Ascii("0"))
    requires names == Elements(GetAll(m, Ascii("content-encoding")))
    requires k < |names| && !Supported(names[k]) && forall i :: k < i < |names| ==> Supported(names[i])
    requires body.Full? || !body.fails
    ensures Decoded(codecs, m, body) == Err(ProtocolError(Decode(names[k])))
  {
    hide Ascii, Elements, Encodings, Decode, Supported, DecodeChain, Stripped, Reverse;
    EncodingsAreReversed(GetAll(m, CONTENT_ENCODING));
    PeelingStops(codecs, names, k, Source(IntoBytes(body).value, Closed));
  }

  /** A body is not encoded under any other name, `identity` included. */
  lemma {:induction false} NothingElseEncodes(codecs: Codecs, bytes: Bytes, name: Text)
    requires forall c :: !Names(name, c)
    ensures EncodeBody(codecs, Full(bytes), name) == Err(ProtocolError(name))
  {
    NamesIff(name);
  }
}
