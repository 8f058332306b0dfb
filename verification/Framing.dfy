/**
 How a message body is delimited (src/proxy.rs:307-362), and what the reader of
 src/proxy.rs:272-453 returns, as functions of the whole byte sequence.
 */
module Framing {
  import opened Wrappers
  import opened ByteText
  import opened Transport
  import opened Utf8

  const USIZE_MAX: nat := 0xFFFF_FFFF_FFFF_FFFF
  const U16_MAX: nat := 0xFFFF

  // ── Tests on the head ────────────────────────────────────────

  predicate IsChunkedLine(line: Text) {
    Ascii("transfer-encoding:") <= Lower(line) && Contains(Lower(line), Ascii("chunked"))
  }

  predicate IsChunked(head: Bytes) {
    exists line :: line in TextLines(head) && IsChunkedLine(line)
  }

  predicate IsLengthLine(line: Text) {
    Ascii("content-length:") <= Lower(line)
  }

  /** The value of a `content-length:` line: `split(':').nth(1)`, trimmed and parsed. */
  function LengthOfLine(line: Text): Option<nat> {
    var colon := IndexOf(line, COLON);
    if colon == |line| then None
    else ParseNumber(Trim(Before(line[colon + 1..], COLON)), Decimals, USIZE_MAX)
  }

  /** Only the first `content-length:` line counts, even when it does not parse. */
  function LengthInLines(lines: seq<Text>): Option<nat> {
    if lines == [] then None
    else if IsLengthLine(lines[0]) then LengthOfLine(lines[0])
    else LengthInLines(lines[1..])
  }

  function GetContentLength(head: Bytes): Option<nat> {
    LengthInLines(TextLines(head))
  }

  /** The status in a first line, when its second token is a `u16`. */
  function StatusOfLine(line: Text): Option<nat> {
    var tokens := Tokens(line);
    if |tokens| < 2 then None else ParseNumber(tokens[1], Decimals, U16_MAX)
  }

  predicate Bodiless(status: nat) {
    status == 101 || status == 204 || status == 304
  }

  predicate IsNoBodyStatus(head: Bytes) {
    var lines := TextLines(head);
    lines != [] && StatusOfLine(lines[0]).Some? && Bodiless(StatusOfLine(lines[0]).value)
  }

  predicate IsRequest(head: Bytes) {
    var lines := TextLines(head);
    !(lines != [] && Ascii("HTTP/") <= lines[0])
  }

  // ── Where the head ends ──────────────────────────────────────

  /** One past the first CRLFCRLF, or the whole length when there is none. */
  function HeadEnd(s: Bytes): (n: nat)
    ensures n <= |s|
  {
    match FindBlank(s)
    case Some(i) => i + 4
    case None => |s|
  }

  function Head(s: Bytes): Bytes {
    s[..HeadEnd(s)]
  }

  function Rest(s: Bytes): Bytes {
    s[HeadEnd(s)..]
  }

  /** The first blank line of a text is the first blank line of each of its extensions. */
  lemma {:induction false} HeadIsStable(s: Bytes, t: Bytes)
    requires FindBlank(s).Some?
    ensures FindBlank(s + t) == FindBlank(s)
    ensures Head(s + t) == Head(s) && Rest(s + t) == Rest(s) + t
  {
    var i := FindBlank(s).value;
    assert BlankAt(s + t, i);
    forall j: nat | j < i
      ensures !BlankAt(s + t, j)
    {
      assert !BlankAt(s, j);
    }
    assert (s + t)[i + 4..] == s[i + 4..] + t;
  }

  /** A head cut off at its blank line is its own head. */
  lemma {:induction false} HeadOfHead(s: Bytes)
    ensures Head(Head(s)) == Head(s) && Rest(Head(s)) == []
    ensures FindBlank(s).Some? ==> FindBlank(Head(s)) == FindBlank(s)
  {
    match FindBlank(s) {
      case None =>
        assert Head(s) == s;
      case Some(i) =>
        assert BlankAt(Head(s), i);
        forall j: nat | j < i
          ensures !BlankAt(Head(s), j)
        {
          assert !BlankAt(s, j);
        }
    }
  }

  // ── De-chunking ──────────────────────────────────────────────

  /** A chunk as it sits in the stream: its size line up to the LF, its data, and the
      two bytes behind the data, which the source skips unread. */
  datatype Piece = Piece(line: Bytes, data: Bytes, skipped: Bytes)

  datatype Stop =
    | Truncated                   // the bytes end inside a size line or a chunk
    | Finished                    // a size of zero
    | Rejected(error: ReadError)

  /** The whole chunks of a byte sequence, and why there are no more. */
  datatype ChunkScan = ChunkScan(pieces: seq<Piece>, stop: Stop)

  /** `size_line.trim().split(';').next()` read as hexadecimal. */
  function ChunkSize(line: Bytes): Result<nat, ReadError> {
    var text := Before(Trim(Decode(line)), SEMICOLON);
    match ParseNumber(text, Hex, USIZE_MAX)
    case Some(n) => Ok(n)
    case None => Err(InvalidChunkSize(text))
  }

  function Frame(piece: Piece): Bytes {
    piece.line + [LF] + piece.data + piece.skipped
  }

  /** The whole chunk that `s` starts with, or why it starts with none. */
  function FirstChunk(s: Bytes): (r: Result<Piece, Stop>)
    ensures r.Ok? ==> Frame(r.value) <= s
  {
    var nl := IndexOf(s, LF);
    if nl == |s| then Err(Truncated)
    else
      match ChunkSize(s[..nl])
      case Err(e) => Err(Rejected(e))
      case Ok(n) =>
        var rest := s[nl + 1..];
        if n == 0 then Err(Finished)
        else if n + 2 > USIZE_MAX then Err(Rejected(SizeOverflow))
        else if |rest| < n + 2 then Err(Truncated)
        else
          FrameIsPrefix(s, nl, n);
          Ok(Piece(s[..nl], rest[..n], rest[n..n + 2]))
  }

  lemma {:induction false} FrameIsPrefix(s: Bytes, nl: nat, n: nat)
    requires nl + 1 + n + 2 <= |s| && s[nl] == LF
    ensures var rest := s[nl + 1..];
            Frame(Piece(s[..nl], rest[..n], rest[n..n + 2])) <= s
  {
    var rest := s[nl + 1..];
    assert s[..nl] + [LF] + rest[..n] + rest[n..n + 2] == s[..nl + 1 + n + 2];
  }

  function Scan(s: Bytes): ChunkScan
    decreases |s|
  {
    match FirstChunk(s)
    case Err(stop) => ChunkScan([], stop)
    case Ok(piece) =>
      var tail := Scan(s[|Frame(piece)|..]);
      ChunkScan([piece] + tail.pieces, tail.stop)
  }

  function Payload(pieces: seq<Piece>): Bytes {
    if pieces == [] then [] else pieces[0].data + Payload(pieces[1..])
  }

  lemma {:induction false} PayloadAppend(a: seq<Piece>, b: seq<Piece>)
    ensures Payload(a + b) == Payload(a) + Payload(b)
  {
    if a == [] {
      assert a + b == b;
    } else {
      assert (a + b)[1..] == a[1..] + b;
      PayloadAppend(a[1..], b);
    }
  }

  lemma {:induction false} IndexInPrefix(s: Text, t: Text)
    requires LF in s
    ensures IndexOf(s + t, LF) == IndexOf(s, LF) < |s|
  {
    var i := IndexOf(s, LF);
    IndexOfIsFirst(s, LF);
    assert (s + t)[..i] == s[..i];
    IndexOfIs(s + t, LF, i);
  }

  /** A chunk that the scan can find: its size line reads as the length of its data. */
  predicate ValidPiece(p: Piece) {
    && LF !in p.line
    && ChunkSize(p.line) == Ok(|p.data|)
    && 0 < |p.data| && |p.data| + 2 <= USIZE_MAX
    && |p.skipped| == 2
  }

  function FrameAll(pieces: seq<Piece>): Bytes {
    if pieces == [] then [] else Frame(pieces[0]) + FrameAll(pieces[1..])
  }

  lemma {:induction false} FirstChunkOfFrame(p: Piece, rest: Bytes)
    requires ValidPiece(p)
    ensures FirstChunk(Frame(p) + rest) == Ok(p)
  {
    hide ChunkSize;
    var s := Frame(p) + rest;
    var nl := |p.line|;
    assert s[..nl] == p.line && s[nl] == LF;
    IndexOfIs(s, LF, nl);
    var behind := s[nl + 1..];
    assert behind == p.data + p.skipped + rest;
    assert behind[..|p.data|] == p.data && behind[|p.data|..|p.data| + 2] == p.skipped;
  }

  lemma {:induction false} FirstChunkIsValid(s: Bytes)
    requires FirstChunk(s).Ok?
    ensures ValidPiece(FirstChunk(s).value)
  {
    hide ChunkSize;
    IndexOfIsFirst(s, LF);
  }

  /** Whole chunks in front of a tail are found one by one; the tail decides the rest. */
  lemma {:induction false} ScanFrames(pieces: seq<Piece>, tail: Bytes)
    requires forall p :: p in pieces ==> ValidPiece(p)
    ensures Scan(FrameAll(pieces) + tail) == ChunkScan(pieces + Scan(tail).pieces, Scan(tail).stop)
  {
    hide FirstChunk, ValidPiece;
    if pieces == [] {
      assert FrameAll(pieces) + tail == tail;
    } else {
      var rest := FrameAll(pieces[1..]) + tail;
      assert FrameAll(pieces) + tail == Frame(pieces[0]) + rest;
      FirstChunkOfFrame(pieces[0], rest);
      ScanFrames(pieces[1..], tail);
      assert [pieces[0]] + (pieces[1..] + Scan(tail).pieces) == pieces + Scan(tail).pieces;
    }
  }

  lemma {:induction false} FirstStopIsFinal(s: Bytes, more: Bytes)
    requires FirstChunk(s).Err? && FirstChunk(s).error != Truncated
    ensures FirstChunk(s + more) == FirstChunk(s)
  {
    hide ChunkSize;
    IndexOfIsFirst(s, LF);
    IndexInPrefix(s, more);
    assert (s + more)[..IndexOf(s, LF)] == s[..IndexOf(s, LF)];
  }

  function DechunkResult(scan: ChunkScan, ending: Ending): ReadResult {
    match scan.stop
    case Truncated => if ending == Broken then Err(Io) else Ok(Payload(scan.pieces))
    case Finished => Ok(Payload(scan.pieces))
    case Rejected(e) => Err(e)
  }

  function Dechunk(s: Bytes, ending: Ending): ReadResult {
    DechunkResult(Scan(s), ending)
  }

  // ── The other framings ───────────────────────────────────────

  function TakeExact(s: Bytes, length: nat, ending: Ending): ReadResult {
    if |s| >= length then Ok(s[..length]) else if ending == Broken then Err(Io) else Ok(s)
  }

  function TakeAll(s: Bytes, ending: Ending): ReadResult {
    if ending == Broken then Err(Io) else Ok(s)
  }

  // ── The whole message ────────────────────────────────────────

  /** A head that starts like a request and announces no body: the source then keeps
      whatever the head reads happened to pull in. */
  predicate IsBareRequest(head: Bytes) {
    !IsNoBodyStatus(head) && IsRequest(head) && !IsChunked(head) && GetContentLength(head).None?
  }

  /** The body, from all the bytes behind the head. `readAhead` is the part of them that
      came in with the head; it only matters for a bare request. */
  function BodyOf(head: Bytes, rest: Bytes, readAhead: Bytes, ending: Ending): ReadResult {
    if IsNoBodyStatus(head) then Ok([])
    else if IsBareRequest(head) then Ok(readAhead)
    else if IsChunked(head) then Dechunk(rest, ending)
    else
      match GetContentLength(head)
      case Some(length) => TakeExact(rest, length, ending)
      case None => TakeAll(rest, ending)
  }

  /** The bytes behind the head decide the body, whatever may follow them. */
  predicate BodyDecided(head: Bytes, rest: Bytes) {
    || IsNoBodyStatus(head)
    || IsBareRequest(head)
    || if IsChunked(head) then Scan(rest).stop != Truncated
       else GetContentLength(head).Some? && |rest| >= GetContentLength(head).value
  }

  /** The bytes decide the message. */
  predicate Decided(s: Bytes) {
    FindBlank(s).Some? && BodyDecided(Head(s), Rest(s))
  }

  /** The message that the reader returns for a stream holding `s`. */
  function MessageOf(s: Bytes, readAhead: Bytes, ending: Ending): ReadResult {
    if FindBlank(s).None? && ending == Broken then Err(Io)
    else
      match BodyOf(Head(s), Rest(s), readAhead, ending)
      case Ok(body) => Ok(Head(s) + body)
      case Err(e) => Err(e)
  }
}
