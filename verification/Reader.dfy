/**
 The response reader of src/proxy.rs:272-305 and 322-453. Each method reads its stream
 in whatever pieces arrive. It is proved to return a function of the bytes alone, and to
 stop reading as soon as the bytes seen settle its answer.
 */
module Reader {
  import opened Wrappers
  import opened ByteText
  import opened Transport
  import opened Framing

  // ── When a loop has seen enough ──────────────────────────────

  function AtLeast(length: nat): Bytes -> bool {
    seen => |seen| >= length
  }

  function HasLine(): Bytes -> bool {
    seen => LF in seen
  }

  function HasHead(): Bytes -> bool {
    seen => FindBlank(seen).Some?
  }

  function Never(): Bytes -> bool {
    seen => false
  }

  function ChunksSettled(): Bytes -> bool {
    seen => Scan(seen).stop != Truncated
  }

  function BodySettled(head: Bytes): Bytes -> bool {
    seen => BodyDecided(head, seen)
  }

  function MessageSettled(): Bytes -> bool {
    seen => Decided(seen)
  }

  // ── Bodies ───────────────────────────────────────────────────

  /** `read_exact`: the first `length` bytes of `initial` and the stream, or all of them
      when the peer closes early. */
  method ReadExact(stream: ByteStream, initial: Bytes, length: nat, bufSize: nat) returns (r: ReadResult)
    requires stream.Valid()
    modifies stream`fragments
    ensures stream.Valid()
    ensures r == TakeExact(initial + old(stream.View(bufSize)), length, VisibleEnding(stream.ending, bufSize))
    ensures stream.fragments == ReadsUntil(initial, old(stream.fragments), bufSize, AtLeast(length)).1
  {
    var buf := initial;
    while |buf| < length
      invariant stream.Valid()
      invariant buf + stream.View(bufSize) == initial + old(stream.View(bufSize))
      invariant ReadsUntil(initial, old(stream.fragments), bufSize, AtLeast(length))
                == ReadsUntil(buf, stream.fragments, bufSize, AtLeast(length))
      decreases |stream.View(bufSize)|
    {
      ReadSplits(stream.fragments, bufSize);
      var data :- stream.Read(bufSize);
      Regroup(buf, data, stream.View(bufSize));
      if data == [] {
        break;
      }
      buf := buf + data;
    }
    ghost var all := initial + old(stream.View(bufSize));
    if |buf| > length {
      assert buf[..length] == all[..length];
      buf := buf[..length];
    }
    return Ok(buf);
  }

  /** `read_until_close`. */
  method ReadUntilClose(stream: ByteStream, initial: Bytes, bufSize: nat) returns (r: ReadResult)
    requires stream.Valid()
    modifies stream`fragments
    ensures stream.Valid() && stream.View(bufSize) == []
    ensures r == TakeAll(initial + old(stream.View(bufSize)), VisibleEnding(stream.ending, bufSize))
    ensures stream.fragments == ReadsUntil(initial, old(stream.fragments), bufSize, Never()).1
  {
    var buf := initial;
    while true
      invariant stream.Valid()
      invariant buf + stream.View(bufSize) == initial + old(stream.View(bufSize))
      invariant ReadsUntil(initial, old(stream.fragments), bufSize, Never())
                == ReadsUntil(buf, stream.fragments, bufSize, Never())
      decreases |stream.View(bufSize)|
    {
      ReadSplits(stream.fragments, bufSize);
      var data :- stream.Read(bufSize);
      Regroup(buf, data, stream.View(bufSize));
      if data == [] {
        break;
      }
      buf := buf + data;
    }
    return Ok(buf);
  }

  /** The inner loop that waits for the end of a size line (src/proxy.rs:375-381). */
  method FillToLineEnd(stream: ByteStream, initial: Bytes, bufSize: nat) returns (r: ReadResult)
    requires stream.Valid()
    modifies stream`fragments
    ensures stream.Valid()
    ensures r.Ok? ==> r.value + stream.View(bufSize) == initial + old(stream.View(bufSize))
    ensures r.Ok? && LF !in r.value ==> stream.View(bufSize) == [] && VisibleEnding(stream.ending, bufSize) == Closed
    ensures r.Ok? ==> (r.value, stream.fragments) == ReadsUntil(initial, old(stream.fragments), bufSize, HasLine())
    ensures r.Err? ==> r.error == Io && LF !in initial + old(stream.View(bufSize)) && stream.View(bufSize) == []
                       && VisibleEnding(stream.ending, bufSize) == Broken
    ensures stream.fragments == ReadsUntil(initial, old(stream.fragments), bufSize, HasLine()).1
  {
    var buf := initial;
    while LF !in buf
      invariant stream.Valid()
      invariant buf + stream.View(bufSize) == initial + old(stream.View(bufSize))
      invariant ReadsUntil(initial, old(stream.fragments), bufSize, HasLine())
                == ReadsUntil(buf, stream.fragments, bufSize, HasLine())
      decreases |stream.View(bufSize)|
    {
      ReadSplits(stream.fragments, bufSize);
      var data :- stream.Read(bufSize);
      Regroup(buf, data, stream.View(bufSize));
      if data == [] {
        break;
      }
      buf := buf + data;
    }
    return Ok(buf);
  }

  /** The inner loop that waits for a whole chunk (src/proxy.rs:397-403). */
  method FillTo(stream: ByteStream, initial: Bytes, needed: nat, bufSize: nat) returns (r: ReadResult)
    requires stream.Valid()
    modifies stream`fragments
    ensures stream.Valid()
    ensures r.Ok? ==> r.value + stream.View(bufSize) == initial + old(stream.View(bufSize))
    ensures r.Ok? && |r.value| < needed
            ==> stream.View(bufSize) == [] && VisibleEnding(stream.ending, bufSize) == Closed
    ensures r.Ok?
            ==> (r.value, stream.fragments) == ReadsUntil(initial, old(stream.fragments), bufSize, AtLeast(needed))
    ensures r.Err? ==> r.error == Io && |initial + old(stream.View(bufSize))| < needed && stream.View(bufSize) == []
                       && VisibleEnding(stream.ending, bufSize) == Broken
    ensures stream.fragments == ReadsUntil(initial, old(stream.fragments), bufSize, AtLeast(needed)).1
  {
    var buf := initial;
    while |buf| < needed
      invariant stream.Valid()
      invariant buf + stream.View(bufSize) == initial + old(stream.View(bufSize))
      invariant ReadsUntil(initial, old(stream.fragments), bufSize, AtLeast(needed))
                == ReadsUntil(buf, stream.fragments, bufSize, AtLeast(needed))
      decreases |stream.View(bufSize)|
    {
      ReadSplits(stream.fragments, bufSize);
      var data :- stream.Read(bufSize);
      Regroup(buf, data, stream.View(bufSize));
      if data == [] {
        break;
      }
      buf := buf + data;
    }
    return Ok(buf);
  }

  /** The state of the de-chunking loop: `buf` is what is left of the bytes seen behind the
      chunks that are done. */
  ghost predicate Dechunking(all: Bytes, seen: Bytes, done: seq<Piece>, buf: Bytes, view: Bytes) {
    && (forall p :: p in done ==> ValidPiece(p))
    && seen == FrameAll(done) + buf
    && all == seen + view
  }

  lemma {:induction false} AllIsFrames(all: Bytes, seen: Bytes, done: seq<Piece>, buf: Bytes, view: Bytes)
    requires Dechunking(all, seen, done, buf, view)
    ensures all == FrameAll(done) + (buf + view)
  {
    Regroup(FrameAll(done), buf, view);
  }

  /** When what is left starts with no whole chunk, the chunks done are all there are. */
  lemma {:induction false} DechunkingStops(all: Bytes, seen: Bytes, done: seq<Piece>, buf: Bytes, view: Bytes)
    requires Dechunking(all, seen, done, buf, view) && FirstChunk(buf + view).Err?
    ensures Scan(all) == ChunkScan(done, FirstChunk(buf + view).error)
  {
    hide FirstChunk, ValidPiece;
    AllIsFrames(all, seen, done, buf, view);
    ScanFrames(done, buf + view);
    assert done + [] == done;
  }

  /** Until `buf` starts with a whole chunk or a reason to stop, the loop must read on. */
  lemma {:induction false} SettledIffFirst(done: seq<Piece>, buf: Bytes)
    requires forall p :: p in done ==> ValidPiece(p)
    ensures Scan(FrameAll(done) + buf).stop == Scan(buf).stop
    ensures FirstChunk(buf).Err? ==> Scan(buf).stop == FirstChunk(buf).error
  {
    hide FirstChunk, ValidPiece;
    ScanFrames(done, buf);
  }

  lemma {:induction false} NoLineIsTruncated(s: Bytes)
    requires LF !in s
    ensures FirstChunk(s) == Err(Truncated)
  {
    IndexOfIsFirst(s, LF);
  }

  /** A wait for a size line is part of the wait for the chunks to settle. */
  lemma {:induction false} LineReadsAreChunkReads(seen: Bytes, done: seq<Piece>, buf: Bytes, fragments: seq<Bytes>,
                                                  bufSize: nat) returns (more: Bytes)
    requires Arrivals(fragments) && (forall p :: p in done ==> ValidPiece(p)) && seen == FrameAll(done) + buf
    ensures var (now, left) := ReadsUntil(buf, fragments, bufSize, HasLine());
            && now == buf + more && Arrivals(left)
            && ReadsUntil(seen, fragments, bufSize, ChunksSettled())
               == ReadsUntil(seen + more, left, bufSize, ChunksSettled())
  {
    hide ReadsUntil, Scan, ValidPiece, FirstChunk;
    forall x | ChunksSettled()(seen + x)
      ensures HasLine()(buf + x)
    {
      Regroup(FrameAll(done), buf, x);
      SettledIffFirst(done, buf + x);
      if LF !in buf + x {
        NoLineIsTruncated(buf + x);
      }
    }
    more := ReadsSkip(seen, buf, fragments, bufSize, ChunksSettled(), HasLine());
  }

  lemma {:induction false} ShortIsTruncated(buf: Bytes, nl: nat, size: nat, x: Bytes)
    requires nl == IndexOf(buf, LF) < |buf| && ChunkSize(buf[..nl]) == Ok(size)
    requires 0 < size && size + 2 <= USIZE_MAX && |buf[nl + 1..] + x| < size + 2
    ensures FirstChunk(buf + x) == Err(Truncated)
  {
    hide ChunkSize;
    IndexInPrefix(buf, x);
    assert (buf + x)[..nl] == buf[..nl];
    assert (buf + x)[nl + 1..] == buf[nl + 1..] + x;
  }

  /** So is the wait for the data of a chunk whose size is known. */
  lemma {:induction false} DataReadsAreChunkReads(seen: Bytes, done: seq<Piece>, buf: Bytes, nl: nat, size: nat,
                                                  fragments: seq<Bytes>, bufSize: nat) returns (more: Bytes)
    requires Arrivals(fragments) && (forall p :: p in done ==> ValidPiece(p)) && seen == FrameAll(done) + buf
    requires nl == IndexOf(buf, LF) < |buf| && ChunkSize(buf[..nl]) == Ok(size)
    requires 0 < size && size + 2 <= USIZE_MAX
    ensures var (now, left) := ReadsUntil(buf[nl + 1..], fragments, bufSize, AtLeast(size + 2));
            && now == buf[nl + 1..] + more && Arrivals(left)
            && ReadsUntil(seen, fragments, bufSize, ChunksSettled())
               == ReadsUntil(seen + more, left, bufSize, ChunksSettled())
  {
    hide ReadsUntil, Scan, ValidPiece, FirstChunk, ChunkSize;
    var rest := buf[nl + 1..];
    forall x | ChunksSettled()(seen + x)
      ensures AtLeast(size + 2)(rest + x)
    {
      Regroup(FrameAll(done), buf, x);
      SettledIffFirst(done, buf + x);
      if |rest + x| < size + 2 {
        ShortIsTruncated(buf, nl, size, x);
      }
    }
    more := ReadsSkip(seen, rest, fragments, bufSize, ChunksSettled(), AtLeast(size + 2));
  }

  /** Nothing more is read once the chunks have settled, or the stream has no more. */
  lemma {:induction false} ReadingHasStopped(seen: Bytes, fragments: seq<Bytes>, bufSize: nat, enough: Bytes -> bool)
    requires Arrivals(fragments) && (enough(seen) || Visible(fragments, bufSize) == [])
    ensures ReadsUntil(seen, fragments, bufSize, enough) == (seen, fragments)
  {
    ReadSplits(fragments, bufSize);
  }

  lemma {:induction false} ChunkIsDone(seen: Bytes, done: seq<Piece>, buf: Bytes, nl: nat, size: nat)
    requires (forall p :: p in done ==> ValidPiece(p)) && seen == FrameAll(done) + buf
    requires nl == IndexOf(buf, LF) < |buf| && ChunkSize(buf[..nl]) == Ok(size)
    requires 0 < size && size + 2 <= USIZE_MAX && nl + 1 + size + 2 <= |buf|
    ensures var rest := buf[nl + 1..];
            var piece := Piece(buf[..nl], rest[..size], rest[size..size + 2]);
            && ValidPiece(piece) && seen == FrameAll(done + [piece]) + rest[size + 2..]
            && Payload(done + [piece]) == Payload(done) + rest[..size]
  {
    hide ChunkSize, IndexOf, FrameAll, Frame, Payload;
    IndexOfIsFirst(buf, LF);
    var rest := buf[nl + 1..];
    var piece := Piece(buf[..nl], rest[..size], rest[size..size + 2]);
    FrameAllAppend(done, piece);
    PayloadAppend(done, [piece]);
    PayloadOfOne(piece);
    FrameInFront(buf, nl, size);
    Regroup(FrameAll(done), Frame(piece), rest[size + 2..]);
  }

  lemma {:induction false} PayloadOfOne(piece: Piece)
    ensures Payload([piece]) == piece.data
  {
    assert Payload([piece]) == piece.data + Payload([]);
  }

  lemma {:induction false} FrameInFront(buf: Bytes, nl: nat, size: nat)
    requires nl + 1 + size + 2 <= |buf| && buf[nl] == LF
    ensures var rest := buf[nl + 1..];
            buf == Frame(Piece(buf[..nl], rest[..size], rest[size..size + 2])) + rest[size + 2..]
  {
    FrameIsPrefix(buf, nl, size);
  }

  /** Bytes that arrive move from the stream to the end of the buffer. */
  lemma {:induction false} BytesArrived(all: Bytes, seen: Bytes, done: seq<Piece>, buf: Bytes, view: Bytes,
                                       more: Bytes, left: Bytes)
    requires Dechunking(all, seen, done, buf, view) && buf + view == (buf + more) + left
    ensures Dechunking(all, seen + more, done, buf + more, left)
  {
    hide ValidPiece;
    Regroup(FrameAll(done), buf, more);
    Regroup(FrameAll(done), buf, view);
    Regroup(FrameAll(done), buf + more, left);
  }

  lemma {:induction false} BehindTheLine(line: Bytes, rest: Bytes, view: Bytes, more: Bytes, left: Bytes)
    requires rest + view == (rest + more) + left
    ensures (line + rest) + view == ((line + rest) + more) + left
  {
    Regroup(line, rest, view);
    Regroup(line, rest, more);
    Regroup(line, rest + more, left);
  }

  /** The step from one whole chunk to the next. */
  lemma {:induction false} ChunkTaken(all: Bytes, seen: Bytes, done: seq<Piece>, buf: Bytes, view: Bytes, nl: nat,
                                      size: nat, more: Bytes, data: Bytes, left: Bytes)
    requires Dechunking(all, seen, done, buf, view)
    requires nl == IndexOf(buf, LF) < |buf| && ChunkSize(buf[..nl]) == Ok(size)
    requires 0 < size && size + 2 <= USIZE_MAX && size + 2 <= |data|
    requires data == buf[nl + 1..] + more && data + left == buf[nl + 1..] + view
    ensures var piece := Piece(buf[..nl], data[..size], data[size..size + 2]);
            && Dechunking(all, seen + more, done + [piece], data[size + 2..], left)
            && Payload(done + [piece]) == Payload(done) + data[..size]
  {
    hide ChunkSize, IndexOf, ValidPiece, FrameAll, Payload;
    var line, whole := buf[..nl + 1], buf + more;
    assert buf == line + buf[nl + 1..];
    BehindTheLine(line, buf[nl + 1..], view, more, left);
    BytesArrived(all, seen, done, buf, view, more, left);
    assert whole[nl + 1..] == data && whole[..nl] == buf[..nl];
    IndexOfIsFirst(buf, LF);
    IndexInPrefix(buf, more);
    ChunkIsDone(seen + more, done, whole, nl, size);
    var piece := Piece(buf[..nl], data[..size], data[size..size + 2]);
    forall p | p in done + [piece]
      ensures ValidPiece(p)
    {
      assert p in done || p == piece;
    }
    Regroup(data[..size + 2], data[size + 2..], left);
  }

  lemma {:induction false} FrameAllAppend(pieces: seq<Piece>, piece: Piece)
    ensures FrameAll(pieces + [piece]) == FrameAll(pieces) + Frame(piece)
  {
    if pieces == [] {
      assert pieces + [piece] == [piece];
      assert FrameAll([piece]) == Frame(piece) + FrameAll([]);
    } else {
      assert (pieces + [piece])[1..] == pieces[1..] + [piece];
      FrameAllAppend(pieces[1..], piece);
    }
  }

  /** The three ways in which a size line ends the loop. */
  lemma {:induction false} SizeEndsLoop(buf: Bytes, view: Bytes, nl: nat)
    requires nl == IndexOf(buf, LF) < |buf|
    requires var size := ChunkSize(buf[..nl]); size.Err? || size.value == 0 || size.value + 2 > USIZE_MAX
    ensures var size := ChunkSize(buf[..nl]);
            var stop := if size.Err? then Rejected(size.error) else if size.value == 0 then Finished
                        else Rejected(SizeOverflow);
            FirstChunk(buf) == Err(stop) && FirstChunk(buf + view) == Err(stop)
  {
    hide ChunkSize;
    IndexInPrefix(buf, view);
    assert (buf + view)[..nl] == buf[..nl];
  }

  /** `read_chunked_body`: the payload of the whole chunks in `initial` and the stream. */
  method ReadChunkedBody(stream: ByteStream, initial: Bytes, bufSize: nat) returns (r: ReadResult)
    requires stream.Valid()
    modifies stream`fragments
    ensures stream.Valid()
    ensures r == Dechunk(initial + old(stream.View(bufSize)), VisibleEnding(stream.ending, bufSize))
    ensures stream.fragments == ReadsUntil(initial, old(stream.fragments), bufSize, ChunksSettled()).1
  {
    hide Scan, FirstChunk, ChunkSize, ValidPiece, ReadsUntil, IndexOf, Trim, Frame;
    var body: Bytes := [];
    var buf := initial;
    ghost var all := initial + old(stream.View(bufSize));
    ghost var seen := initial;
    ghost var done: seq<Piece> := [];
    assert FrameAll(done) + buf == buf;

    while true
      invariant stream.Valid()
      invariant Dechunking(all, seen, done, buf, stream.View(bufSize)) && body == Payload(done)
      invariant ReadsUntil(initial, old(stream.fragments), bufSize, ChunksSettled())
                == ReadsUntil(seen, stream.fragments, bufSize, ChunksSettled())
      decreases |buf| + |stream.View(bufSize)|
    {
      ghost var view := stream.View(bufSize);
      ghost var more := LineReadsAreChunkReads(seen, done, buf, stream.fragments, bufSize);
      var lineRead := FillToLineEnd(stream, buf, bufSize);
      if lineRead.Err? || LF !in lineRead.value {
        NoLineIsTruncated(buf + view);
        DechunkingStops(all, seen, done, buf, view);
        ReadingHasStopped(seen + more, stream.fragments, bufSize, ChunksSettled());
        return if lineRead.Err? then lineRead else Ok(body);
      }
      BytesArrived(all, seen, done, buf, view, more, stream.View(bufSize));
      buf, seen, view := lineRead.value, seen + more, stream.View(bufSize);

      var nl := IndexOf(buf, LF);
      IndexOfIsFirst(buf, LF);
      var size := ChunkSize(buf[..nl]);
      if size.Err? || size.value == 0 || size.value + 2 > USIZE_MAX {
        SizeEndsLoop(buf, view, nl);
        DechunkingStops(all, seen, done, buf, view);
        SettledIffFirst(done, buf);
        ReadingHasStopped(seen, stream.fragments, bufSize, ChunksSettled());
        return if size.Err? then Err(size.error) else if size.value == 0 then Ok(body) else Err(SizeOverflow);
      }

      more := DataReadsAreChunkReads(seen, done, buf, nl, size.value, stream.fragments, bufSize);
      var needed := size.value + 2;
      var dataRead := FillTo(stream, buf[nl + 1..], needed, bufSize);
      if dataRead.Err? || |dataRead.value| < needed {
        ShortIsTruncated(buf, nl, size.value, view);
        DechunkingStops(all, seen, done, buf, view);
        ReadingHasStopped(seen + more, stream.fragments, bufSize, ChunksSettled());
        return if dataRead.Err? then dataRead else Ok(body);
      }
      var data := dataRead.value;
      ChunkTaken(all, seen, done, buf, view, nl, size.value, more, data, stream.View(bufSize));
      seen, done := seen + more, done + [Piece(buf[..nl], data[..size.value], data[size.value..needed])];
      body := body + data[..size.value];
      buf := data[needed..];
    }
  }

  // ── The head and the whole ───────────────────────────────────

  /** The bytes taken, and the fragments left, when the head loop of
      `read_full_response` stops: after the read that completes the first CRLFCRLF. */
  function HeadReads(fragments: seq<Bytes>, bufSize: nat): (Bytes, seq<Bytes>)
    requires Arrivals(fragments)
  {
    ReadsUntil([], fragments, bufSize, HasHead())
  }

  /** The part of them that lies behind the head. */
  function ReadAhead(fragments: seq<Bytes>, bufSize: nat): Bytes
    requires Arrivals(fragments)
  {
    Rest(HeadReads(fragments, bufSize).0)
  }

  /** What `read_full_response` returns for one fragmentation. */
  function ReadOutcome(fragments: seq<Bytes>, bufSize: nat, ending: Ending): ReadResult
    requires Arrivals(fragments)
  {
    MessageOf(Visible(fragments, bufSize), ReadAhead(fragments, bufSize), VisibleEnding(ending, bufSize))
  }

  /** The bytes that `read_full_response` takes from the stream, and what it leaves there. */
  function MessageReads(fragments: seq<Bytes>, bufSize: nat): (Bytes, seq<Bytes>)
    requires Arrivals(fragments)
  {
    ReadsUntil([], fragments, bufSize, MessageSettled())
  }

  /** `read_http_body`. */
  method ReadHttpBody(stream: ByteStream, head: Bytes, initial: Bytes, bufSize: nat) returns (r: ReadResult)
    requires stream.Valid()
    modifies stream`fragments
    ensures stream.Valid()
    ensures r == BodyOf(head, initial + old(stream.View(bufSize)), initial, VisibleEnding(stream.ending, bufSize))
    ensures stream.fragments == ReadsUntil(initial, old(stream.fragments), bufSize, BodySettled(head)).1
  {
    hide ReadsUntil, Scan, IsNoBodyStatus, IsRequest, IsChunked, GetContentLength;
    ghost var start := stream.fragments;
    if IsNoBodyStatus(head) {
      ReadingHasStopped(initial, start, bufSize, BodySettled(head));
      return Ok([]);
    }
    if IsRequest(head) && !IsChunked(head) && GetContentLength(head).None? {
      ReadingHasStopped(initial, start, bufSize, BodySettled(head));
      return Ok(initial);
    }
    if IsChunked(head) {
      ReadsAlike(initial, initial, start, bufSize, ChunksSettled(), BodySettled(head));
      r := ReadChunkedBody(stream, initial, bufSize);
    } else {
      match GetContentLength(head)
      case Some(length) =>
        ReadsAlike(initial, initial, start, bufSize, AtLeast(length), BodySettled(head));
        r := ReadExact(stream, initial, length, bufSize);
      case None =>
        ReadsAlike(initial, initial, start, bufSize, Never(), BodySettled(head));
        r := ReadUntilClose(stream, initial, bufSize);
    }
  }

  /** The head loop of `read_full_response` (src/proxy.rs:280-289). */
  method ReadHead(stream: ByteStream, bufSize: nat) returns (r: ReadResult)
    requires stream.Valid()
    modifies stream`fragments
    ensures stream.Valid()
    ensures r.Ok? ==> (r.value, stream.fragments) == HeadReads(old(stream.fragments), bufSize)
    ensures r.Ok? ==> r.value + stream.View(bufSize) == old(stream.View(bufSize))
    ensures r.Ok? && FindBlank(r.value).None?
            ==> stream.View(bufSize) == [] && VisibleEnding(stream.ending, bufSize) == Closed
    ensures r.Err? ==> r.error == Io && VisibleEnding(stream.ending, bufSize) == Broken
                       && FindBlank(old(stream.View(bufSize))).None? && stream.View(bufSize) == []
    ensures stream.fragments == HeadReads(old(stream.fragments), bufSize).1
  {
    assert FindBlank([]).None?;
    hide FindBlank;
    var full: Bytes := [];
    while true
      invariant stream.Valid()
      invariant full + stream.View(bufSize) == old(stream.View(bufSize))
      invariant FindBlank(full).None?
      invariant ReadsUntil(full, stream.fragments, bufSize, HasHead()) == HeadReads(old(stream.fragments), bufSize)
      decreases |stream.View(bufSize)|
    {
      ReadSplits(stream.fragments, bufSize);
      assert stream.View(bufSize) == [] ==> full == old(stream.View(bufSize));
      var data :- stream.Read(bufSize);
      Regroup(full, data, stream.View(bufSize));
      if data == [] {
        break;
      }
      full := full + data;
      if FindBlank(full).Some? {
        break;
      }
    }
    return Ok(full);
  }

  /** The reads for the head, and then those for the body, are the reads for the message. */
  lemma {:induction false} HeadThenBody(fragments: seq<Bytes>, bufSize: nat)
    requires Arrivals(fragments)
    ensures var (full, left) := HeadReads(fragments, bufSize);
            && Arrivals(left)
            && (FindBlank(full).Some? ==>
                  MessageReads(fragments, bufSize).1
                  == ReadsUntil(Rest(full), left, bufSize, BodySettled(Head(full))).1)
            && (FindBlank(full).None? ==> MessageReads(fragments, bufSize).1 == left && Visible(left, bufSize) == [])
  {
    hide ReadsUntil, FindBlank, BodyDecided;
    ReadsKeepBytes([], fragments, bufSize, HasHead());
    var (full, left) := HeadReads(fragments, bufSize);
    var more := ReadsSkip([], [], fragments, bufSize, MessageSettled(), HasHead());
    assert [] + more == more == full;
    if FindBlank(full).Some? {
      forall x
        ensures MessageSettled()(full + x) <==> BodySettled(Head(full))(Rest(full) + x)
      {
        HeadIsStable(full, x);
      }
      ReadsAlike(full, Rest(full), left, bufSize, MessageSettled(), BodySettled(Head(full)));
    } else {
      ReadingHasStopped(full, left, bufSize, MessageSettled());
    }
  }

  /** Without a blank line the head reads take everything. */
  lemma {:induction false} HeadReadsHold(fragments: seq<Bytes>, bufSize: nat)
    requires Arrivals(fragments) && FindBlank(Visible(fragments, bufSize)).None?
    ensures HeadReads(fragments, bufSize).0 == Visible(fragments, bufSize)
  {
    hide ReadsUntil;
    ReadsKeepBytes([], fragments, bufSize, HasHead());
    var (full, left) := HeadReads(fragments, bufSize);
    var all := Visible(fragments, bufSize);
    assert [] + all == all;
    if FindBlank(full).Some? {
      HeadIsStable(full, Visible(left, bufSize));
    }
    assert full + [] == full;
  }

  /** `read_full_response`: the answer is a function of the bytes, and reading stops with the
      first read after which the bytes seen decide it. */
  method ReadFullResponse(stream: ByteStream, bufSize: nat) returns (r: ReadResult)
    requires stream.Valid()
    modifies stream`fragments
    ensures stream.Valid()
    ensures r == ReadOutcome(old(stream.fragments), bufSize, stream.ending)
    ensures stream.fragments == MessageReads(old(stream.fragments), bufSize).1
  {
    hide FindBlank, BodyOf, IsNoBodyStatus, IsBareRequest, ReadsUntil, BodyDecided;
    ghost var all := stream.View(bufSize);
    HeadThenBody(stream.fragments, bufSize);
    if FindBlank(all).None? {
      HeadReadsHold(stream.fragments, bufSize);
    }
    var full :- ReadHead(stream, bufSize);
    ghost var left := stream.fragments;
    if FindBlank(full).Some? {
      HeadIsStable(full, stream.View(bufSize));
    } else {
      assert all == full;
      ReadsKeepNothing(Rest(full), left, bufSize, BodySettled(Head(full)));
    }
    assert Head(full) == Head(all) && Rest(full) + stream.View(bufSize) == Rest(all);
    var body := ReadHttpBody(stream, Head(full), Rest(full), bufSize);
    if body.Err? {
      return body;
    }
    return Ok(Head(full) + body.value);
  }

  lemma {:induction false} ReadsKeepNothing(seen: Bytes, fragments: seq<Bytes>, bufSize: nat, enough: Bytes -> bool)
    requires Arrivals(fragments) && Visible(fragments, bufSize) == []
    ensures ReadsUntil(seen, fragments, bufSize, enough).1 == fragments
  {
    ReadSplits(fragments, bufSize);
  }
}
