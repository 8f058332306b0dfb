/**
 The chunked transfer coding (section 7.1 of RFC 9112) and the reader's de-chunking:
 what the reader accepts, that it inverts the coding, and what truncation does to it.
 */
module Chunked {
  import opened Wrappers
  import opened ByteText
  import opened Transport
  import opened Utf8
  import opened Framing

  import Reader
  import Fragmentation

  // ── Scanning and framing are inverse ─────────────────────────

  /** Every byte sequence is the chunks its scan finds, followed by what holds no chunk. */
  lemma {:induction false} ScanDecomposes(s: Bytes) returns (tail: Bytes)
    ensures s == FrameAll(Scan(s).pieces) + tail
    ensures FirstChunk(tail) == Err(Scan(s).stop)
    ensures forall p :: p in Scan(s).pieces ==> ValidPiece(p)
    decreases |s|
  {
    hide ValidPiece, FirstChunk;
    match FirstChunk(s) {
      case Err(_) =>
        tail := s;
      case Ok(piece) =>
        FirstChunkIsValid(s);
        var rest := s[|Frame(piece)|..];
        tail := ScanDecomposes(rest);
        var pieces := Scan(s).pieces;
        assert pieces == [piece] + Scan(rest).pieces;
        assert pieces[1..] == Scan(rest).pieces;
        assert s == Frame(piece) + rest;
        assert FrameAll(pieces) == Frame(piece) + FrameAll(Scan(rest).pieces);
    }
  }

  /** The scan is the only way to cut a byte sequence into valid chunks and a tail without one. */
  lemma {:induction false} ScanIff(s: Bytes, pieces: seq<Piece>, stop: Stop)
    ensures Scan(s) == ChunkScan(pieces, stop)
            <==> (forall p :: p in pieces ==> ValidPiece(p))
                 && exists tail: Bytes :: s == FrameAll(pieces) + tail && FirstChunk(tail) == Err(stop)
  {
    hide ValidPiece, ChunkSize, IndexOf;
    var tail := ScanDecomposes(s);
    if (forall p :: p in pieces ==> ValidPiece(p))
       && exists t: Bytes :: s == FrameAll(pieces) + t && FirstChunk(t) == Err(stop)
    {
      var t: Bytes :| s == FrameAll(pieces) + t && FirstChunk(t) == Err(stop);
      ScanFrames(pieces, t);
      assert pieces + [] == pieces;
    }
  }

  // ── Truncation ───────────────────────────────────────────────

  /** More bytes only add chunks behind those already found, and once the scan has met a
      last chunk or an error, nothing behind it matters. */
  lemma {:induction false} ScanIsMonotone(s: Bytes, more: Bytes)
    ensures Scan(s).pieces <= Scan(s + more).pieces
    ensures Payload(Scan(s).pieces) <= Payload(Scan(s + more).pieces)
    ensures Scan(s).stop != Truncated ==> Scan(s + more) == Scan(s)
  {
    hide ValidPiece, FirstChunk;
    var tail := ScanDecomposes(s);
    var pieces := Scan(s).pieces;
    assert s + more == FrameAll(pieces) + (tail + more);
    ScanFrames(pieces, tail + more);
    PayloadAppend(pieces, Scan(tail + more).pieces);
    if Scan(s).stop != Truncated {
      FirstStopIsFinal(tail, more);
      assert pieces + [] == pieces;
    }
  }

  /** A reader cut off by the peer returns a prefix of what it would have returned. */
  lemma {:induction false} TruncationKeepsAPrefix(s: Bytes, more: Bytes, ending: Ending)
    requires Dechunk(s + more, ending).Ok?
    ensures Dechunk(s, Closed).Ok? && Dechunk(s, Closed).value <= Dechunk(s + more, ending).value
  {
    hide Scan;
    ScanIsMonotone(s, more);
  }

  // ── Inverting the coding ─────────────────────────────────────

  /** A chunk of section 7.1 of RFC 9112: its size in hexadecimal digits, extensions, data. */
  datatype Chunk = Chunk(size: Bytes, extensions: Bytes, data: Bytes)

  predicate IsHexDigit(b: byte) {
    var c := b as int as char;
    '0' <= c <= '9' || 'a' <= c <= 'f' || 'A' <= c <= 'F'
  }

  predicate HexDigits(s: Bytes) {
    s != [] && forall i :: 0 <= i < |s| ==> IsHexDigit(s[i])
  }

  lemma {:induction false} HexAreDigits(s: Bytes)
    requires HexDigits(s)
    ensures AllDigits(s, Hex)
  {
    assert forall i :: 0 <= i < |s| ==> IsHexDigit(s[i]);
  }

  predicate Blank(s: Text) {
    forall i :: 0 <= i < |s| ==> s[i] == SP || s[i] == HTAB
  }

  /** `chunk-ext`: nothing, or optional blanks, a semicolon, and text without a line end. */
  predicate Extensions(s: Bytes) {
    LF !in s
    && (s == [] || (SEMICOLON in s && Blank(Before(s, SEMICOLON))))
  }

  /** Extensions, if any, start with their semicolon. */
  predicate Tight(s: Bytes) {
    s == [] || s[0] == SEMICOLON
  }

  predicate ValidChunk(c: Chunk) {
    && HexDigits(c.size) && NumberValue(c.size, Hex) == |c.data|
    && 0 < |c.data| && |c.data| + 2 <= USIZE_MAX
    && Extensions(c.extensions)
  }

  /** The zero-sized chunk that ends a body. */
  predicate ValidLast(size: Bytes, extensions: Bytes) {
    HexDigits(size) && NumberValue(size, Hex) == 0 && Extensions(extensions)
  }

  function EncodeChunk(c: Chunk): Bytes {
    c.size + c.extensions + CRLF + c.data + CRLF
  }

  function EncodeChunks(chunks: seq<Chunk>): Bytes {
    if chunks == [] then [] else EncodeChunk(chunks[0]) + EncodeChunks(chunks[1..])
  }

  function Data(chunks: seq<Chunk>): Bytes {
    if chunks == [] then [] else chunks[0].data + Data(chunks[1..])
  }

  function SizeLine(size: Bytes, extensions: Bytes): Bytes {
    size + extensions + [CR]
  }

  lemma {:induction false} HexIsNoSpace(b: rune)
    requires DigitValue(b) < 16
    ensures !IsSpace(b) && b < 0x80 && b != PLUS && b != SEMICOLON && b != LF
  {
  }

  lemma {:induction false} TrimEndKeepsText(s: Text, i: nat)
    requires i < |s| && !IsSpace(s[i])
    ensures i < |TrimEnd(s)| && TrimEnd(s) <= s
  {
    if IsSpace(s[|s| - 1]) {
      TrimEndKeepsText(s[..|s| - 1], i);
    }
  }

  lemma {:induction false} HexIsPlain(size: Bytes)
    requires HexDigits(size)
    ensures NoSpace(size) && IsAscii(size) && SEMICOLON !in size && LF !in size && size[0] != PLUS
  {
    forall i | 0 <= i < |size|
      ensures !IsSpace(size[i]) && size[i] < 0x80 && size[i] != SEMICOLON && size[i] != LF && size[i] != PLUS
    {
      HexIsNoSpace(size[i]);
    }
  }

  lemma {:induction false} SizeLineDecoded(size: Bytes, extensions: Bytes)
    requires HexDigits(size)
    ensures Decode(SizeLine(size, extensions)) == size + (Decode(extensions) + [CR])
  {
    hide Decode, HexDigits;
    HexIsPlain(size);
    HexIsNotEmpty(size);
    var cr: Bytes := [CR];
    assert SizeLine(size, extensions) == size + extensions + cr + [];
    DecodeAroundAscii(size + extensions, cr, []);
    DecodeAscii(size);
    DecodeAscii([]);
    DecodeSplits(size, extensions);
  }

  lemma {:induction false} SizeLineTrimmed(size: Bytes, extensions: Bytes)
    requires HexDigits(size)
    ensures Trim(Decode(SizeLine(size, extensions))) == size + TrimEnd(Decode(extensions) + [CR])
  {
    hide TrimEnd, HexDigits, Decode;
    HexIsPlain(size);
    SizeLineDecoded(size, extensions);
    HexIsNotEmpty(size);
    var line := Decode(SizeLine(size, extensions));
    assert line[0] == size[0];
    TrimEndAfter(size, Decode(extensions) + [CR]);
  }

  lemma {:induction false} HexIsNotEmpty(size: Bytes)
    requires HexDigits(size)
    ensures size != []
  {
  }

  lemma {:induction false} ExtensionsDecoded(extensions: Bytes)
    requires Extensions(extensions) && extensions != []
    ensures var n := IndexOf(extensions, SEMICOLON);
            && n < |extensions| && n < |Decode(extensions)| && Decode(extensions)[n] == SEMICOLON
            && Decode(extensions)[..n] == extensions[..n] && SEMICOLON !in extensions[..n]
  {
    hide Decode, IndexOf;
    IndexOfIsFirst(extensions, SEMICOLON);
    var n, mark: Bytes := IndexOf(extensions, SEMICOLON), [SEMICOLON];
    var blanks := extensions[..n];
    assert extensions == blanks + mark + extensions[n + 1..];
    DecodeAroundAscii(blanks, mark, extensions[n + 1..]);
    DecodeAscii(blanks);
  }

  /** What the reader takes for the size: the digits, and any blanks that are kept from
      the trim by a semicolon behind them. */
  lemma {:induction false} SizeText(size: Bytes, extensions: Bytes)
    requires HexDigits(size) && Extensions(extensions)
    ensures Before(Trim(Decode(SizeLine(size, extensions))), SEMICOLON) == size + Before(extensions, SEMICOLON)
    ensures LF !in SizeLine(size, extensions)
  {
    hide HexDigits, Trim, IndexOf, Decode;
    HexIsPlain(size);
    SizeLineTrimmed(size, extensions);
    var behind, text := Decode(extensions) + [CR], Trim(Decode(SizeLine(size, extensions)));
    if extensions == [] {
      DecodeAscii([]);
      IndexOfIsFirst(extensions, SEMICOLON);
      assert behind == [CR] && behind[..0] == [];
      assert TrimEnd(behind) == [];
      assert size + [] == size == text;
      IndexOfIs(size, SEMICOLON, |size|);
    } else {
      hide TrimEnd;
      ExtensionsDecoded(extensions);
      var n := IndexOf(extensions, SEMICOLON);
      TrimEndKeepsText(behind, n);
      assert text[..|size| + n] == size + extensions[..n];
      assert text[|size| + n] == SEMICOLON;
      IndexOfIs(text, SEMICOLON, |size| + n);
    }
  }

  /** The size line of a chunk is read back exactly when no blank precedes its semicolon. */
  lemma {:induction false} SizeLineRead(size: Bytes, extensions: Bytes)
    requires HexDigits(size) && Extensions(extensions) && NumberValue(size, Hex) <= USIZE_MAX
    ensures Tight(extensions) ==> ChunkSize(SizeLine(size, extensions)) == Ok(NumberValue(size, Hex))
    ensures !Tight(extensions) ==> ChunkSize(SizeLine(size, extensions))
                                   == Err(InvalidChunkSize(size + Before(extensions, SEMICOLON)))
  {
    hide NumberValue;
    SizeText(size, extensions);
    HexIsNoSpace(size[0]);
    var blanks := Before(extensions, SEMICOLON);
    if Tight(extensions) {
      assert size + blanks == size;
    } else {
      assert blanks[0] == extensions[0];
      assert (size + blanks)[|size|] == extensions[0];
      assert !AllDigits(size + blanks, Hex);
    }
  }

  /** Every way a size line without such a blank can end: the last chunk, a number that is
      no `usize`, a size whose sum with the line end is none, a chunk that is cut off, and a
      whole chunk, whose data and line end are then within the buffer. */
  lemma {:induction false} SizeLineCases(size: Bytes, extensions: Bytes, rest: Bytes)
    requires HexDigits(size) && Extensions(extensions) && Tight(extensions)
    ensures var n, line := NumberValue(size, Hex), SizeLine(size, extensions);
            FirstChunk(line + [LF] + rest)
            == if n == 0 then Err(Finished)
               else if n > USIZE_MAX then Err(Rejected(InvalidChunkSize(size)))
               else if n > USIZE_MAX - 2 then Err(Rejected(SizeOverflow))
               else if |rest| < n + 2 then Err(Truncated)
               else Ok(Piece(line, rest[..n], rest[n..n + 2]))
  {
    hide NumberValue, Trim;
    var line := SizeLine(size, extensions);
    var s := line + [LF] + rest;
    SizeText(size, extensions);
    HexIsNoSpace(size[0]);
    assert size + Before(extensions, SEMICOLON) == size;
    assert s[..|line|] == line && s[|line| + 1..] == rest;
    IndexOfIs(s, LF, |line|);
  }

  /** The size as most senders write it. */
  function Hexadecimal(n: nat): Bytes {
    var digit := if n % 16 < 10 then (48 + n % 16) as byte else (87 + n % 16) as byte;
    if n < 16 then [digit] else Hexadecimal(n / 16) + [digit]
  }

  /** Every length can be written as a size. */
  lemma {:induction false} HexadecimalValue(n: nat)
    ensures HexDigits(Hexadecimal(n)) && NumberValue(Hexadecimal(n), Hex) == n
  {
    var h := Hexadecimal(n);
    var digit := h[|h| - 1];
    assert DigitValue(digit) == n % 16;
    if n < 16 {
      assert h[..0] == [];
    } else {
      HexadecimalValue(n / 16);
      assert h[..|h| - 1] == Hexadecimal(n / 16);
    }
  }

  /** The size in capitals. */
  function UpperHexadecimal(n: nat): Bytes {
    var digit := if n % 16 < 10 then (48 + n % 16) as byte else (55 + n % 16) as byte;
    if n < 16 then [digit] else UpperHexadecimal(n / 16) + [digit]
  }

  lemma {:induction false} UpperHexadecimalValue(n: nat)
    ensures HexDigits(UpperHexadecimal(n)) && NumberValue(UpperHexadecimal(n), Hex) == n
  {
    var h := UpperHexadecimal(n);
    var digit := h[|h| - 1];
    assert DigitValue(digit) == n % 16 && IsHexDigit(digit);
    if n < 16 {
      assert h[..0] == [];
    } else {
      UpperHexadecimalValue(n / 16);
      assert h[..|h| - 1] == UpperHexadecimal(n / 16);
      assert forall i :: 0 <= i < |h| - 1 ==> h[i] == UpperHexadecimal(n / 16)[i];
    }
  }

  function Written(n: nat, capitals: bool): Bytes {
    if capitals then UpperHexadecimal(n) else Hexadecimal(n)
  }

  /** Sizes in either case are read as what they are written for, up to the largest `usize`. */
  lemma {:induction false} WrittenSizeIsRead(n: nat, capitals: bool, extensions: Bytes)
    requires Extensions(extensions) && Tight(extensions)
    ensures ChunkSize(SizeLine(Written(n, capitals), extensions))
            == if n <= 0xFFFF_FFFF_FFFF_FFFF then Ok(n) else Err(InvalidChunkSize(Written(n, capitals)))
  {
    hide NumberValue, Hexadecimal, UpperHexadecimal, Trim;
    var size := Written(n, capitals);
    HexadecimalValue(n);
    UpperHexadecimalValue(n);
    if n <= USIZE_MAX {
      SizeLineRead(size, extensions);
    } else {
      SizeText(size, extensions);
      HexIsPlain(size);
      assert size + Before(extensions, SEMICOLON) == size;
    }
  }

  /** The same letter, or the same letter in the other case. */
  predicate SameLetter(a: byte, b: byte) {
    || a == b
    || ('A' <= a as int as char <= 'F' && b as int - a as int == 'a' as int - 'A' as int)
    || ('A' <= b as int as char <= 'F' && a as int - b as int == 'a' as int - 'A' as int)
  }

  /** The case of its digits makes no difference to a size. */
  lemma {:induction false} CaseIsIgnored(a: Bytes, b: Bytes, extensions: Bytes, n: nat)
    requires HexDigits(a) && |a| == |b| && (forall i :: 0 <= i < |a| ==> SameLetter(a[i], b[i]))
    requires Extensions(extensions)
    ensures HexDigits(b)
    ensures ChunkSize(SizeLine(a, extensions)) == Ok(n) <==> ChunkSize(SizeLine(b, extensions)) == Ok(n)
  {
    forall i | 0 <= i < |a|
      ensures IsHexDigit(b[i]) && DigitValue(b[i]) == DigitValue(a[i])
    {
      assert IsHexDigit(a[i]) && SameLetter(a[i], b[i]);
    }
    hide DigitValue, IsHexDigit, SameLetter;
    SameValue(a, b);
    SizeValue(a, extensions);
    SizeValue(b, extensions);
  }

  lemma {:induction false} SameValue(a: Bytes, b: Bytes)
    requires |a| == |b| && (forall i :: 0 <= i < |a| ==> DigitValue(b[i]) == DigitValue(a[i]))
    ensures NumberValue(a, Hex) == NumberValue(b, Hex)
  {
    hide DigitValue;
    if a != [] {
      SameValue(a[..|a| - 1], b[..|b| - 1]);
    }
  }

  lemma {:induction false} SizeValue(size: Bytes, extensions: Bytes)
    requires HexDigits(size) && Extensions(extensions)
    ensures forall n: nat :: ChunkSize(SizeLine(size, extensions)) == Ok(n)
                             <==> Tight(extensions) && n == NumberValue(size, Hex) <= USIZE_MAX
  {
    hide NumberValue, Trim, IsHexDigit;
    if NumberValue(size, Hex) <= USIZE_MAX {
      SizeLineRead(size, extensions);
    } else {
      SizeText(size, extensions);
      HexAreDigits(size);
      HexIsPlain(size);
      var blanks := Before(extensions, SEMICOLON);
      if Tight(extensions) {
        assert size + blanks == size;
      } else {
        assert blanks[0] == extensions[0];
        assert (size + blanks)[|size|] == extensions[0];
        assert !AllDigits(size + blanks, Hex);
      }
    }
  }

  function PieceOf(c: Chunk): Piece {
    Piece(SizeLine(c.size, c.extensions), c.data, CRLF)
  }

  function PiecesOf(chunks: seq<Chunk>): seq<Piece> {
    if chunks == [] then [] else [PieceOf(chunks[0])] + PiecesOf(chunks[1..])
  }

  lemma {:induction false} EncodingIsFrames(chunks: seq<Chunk>)
    requires forall c :: c in chunks ==> ValidChunk(c) && Tight(c.extensions)
    ensures EncodeChunks(chunks) == FrameAll(PiecesOf(chunks))
    ensures forall p :: p in PiecesOf(chunks) ==> ValidPiece(p)
    ensures Payload(PiecesOf(chunks)) == Data(chunks)
  {
    hide ChunkSize, NumberValue;
    if chunks != [] {
      var c := chunks[0];
      assert EncodeChunk(c) == Frame(PieceOf(c)) by {
        assert c.size + c.extensions + CRLF == SizeLine(c.size, c.extensions) + [LF];
      }
      SizeText(c.size, c.extensions);
      SizeLineRead(c.size, c.extensions);
      EncodingIsFrames(chunks[1..]);
      assert PiecesOf(chunks)[1..] == PiecesOf(chunks[1..]);
    }
  }

  /** The first size line that is not tight stops the reader with an error. */
  lemma {:induction false} LooseSizeLine(size: Bytes, extensions: Bytes, rest: Bytes)
    requires HexDigits(size) && Extensions(extensions) && !Tight(extensions)
    requires NumberValue(size, Hex) <= USIZE_MAX
    ensures FirstChunk(SizeLine(size, extensions) + [LF] + rest)
            == Err(Rejected(InvalidChunkSize(size + Before(extensions, SEMICOLON))))
  {
    hide ChunkSize, NumberValue;
    var line := SizeLine(size, extensions);
    var s := line + [LF] + rest;
    SizeText(size, extensions);
    SizeLineRead(size, extensions);
    assert s[..|line|] == line;
    IndexOfIs(s, LF, |line|);
  }

  /** A chunk of five bytes with an extension behind a blank: the blank goes with the size. */
  lemma {:induction false} BlankBeforeSemicolon(rest: Bytes)
    ensures Extensions(Ascii(" ;x"))
    ensures FirstChunk(Ascii("5 ;x") + CRLF + rest) == Err(Rejected(InvalidChunkSize(Ascii("5 "))))
  {
    var size, extensions := Ascii("5"), Ascii(" ;x");
    assert size[..0] == [];
    assert HexDigits(size) && NumberValue(size, Hex) == 5;
    IndexOfIs(extensions, SEMICOLON, 1);
    assert Ascii("5 ;x") + CRLF + rest == SizeLine(size, extensions) + [LF] + rest;
    assert size + Before(extensions, SEMICOLON) == Ascii("5 ");
    hide HexDigits, Extensions;
    LooseSizeLine(size, extensions, rest);
  }

  predicate Misread(stop: Stop) {
    stop.Rejected? && stop.error.InvalidChunkSize?
  }

  lemma {:induction false} LastChunkRead(size: Bytes, extensions: Bytes, trailer: Bytes)
    requires ValidLast(size, extensions)
    ensures var s := size + extensions + CRLF + trailer;
            if Tight(extensions) then Scan(s) == ChunkScan([], Finished)
            else Scan(s).pieces == [] && Misread(Scan(s).stop)
  {
    hide ChunkSize, NumberValue;
    var line := SizeLine(size, extensions);
    var s := size + extensions + CRLF + trailer;
    assert s == line + [LF] + trailer;
    if Tight(extensions) {
      SizeText(size, extensions);
      SizeLineRead(size, extensions);
      assert s[..|line|] == line;
      IndexOfIs(s, LF, |line|);
    } else {
      LooseSizeLine(size, extensions, trailer);
    }
  }

  /** One loose chunk anywhere makes the whole body an error. */
  lemma {:induction false} LooseChunkRejected(chunks: seq<Chunk>, tail: Bytes)
    requires forall c :: c in chunks ==> ValidChunk(c)
    requires exists c :: c in chunks && !Tight(c.extensions)
    ensures Misread(Scan(EncodeChunks(chunks) + tail).stop)
  {
    hide ChunkSize, NumberValue, FirstChunk;
    var c := chunks[0];
    assert c in chunks;
    var rest := EncodeChunks(chunks[1..]) + tail;
    var s := EncodeChunks(chunks) + tail;
    if Tight(c.extensions) {
      EncodingIsFrames([c]);
      assert EncodeChunks([c]) == EncodeChunk(c) + [];
      assert PiecesOf([c]) == [PieceOf(c)];
      assert FrameAll([PieceOf(c)]) == Frame(PieceOf(c)) + [];
      assert s == FrameAll(PiecesOf([c])) + rest;
      ScanFrames(PiecesOf([c]), rest);
      LooseChunkRejected(chunks[1..], tail);
    } else {
      var behind := c.data + CRLF + rest;
      assert s == SizeLine(c.size, c.extensions) + [LF] + behind;
      LooseSizeLine(c.size, c.extensions, behind);
    }
  }

  /** De-chunking inverts chunking, for all chunk data, digit cases, leading zeros,
      extensions and trailers, exactly when no size line has a blank before its semicolon.
      Section 7.1.1 of RFC 9112 lets such blanks be; the reader then fails. */
  lemma {:induction false} DechunkInvertsChunking(chunks: seq<Chunk>, size: Bytes, extensions: Bytes,
                                                  trailer: Bytes, ending: Ending)
    requires (forall c :: c in chunks ==> ValidChunk(c)) && ValidLast(size, extensions)
    ensures var s := EncodeChunks(chunks) + (size + extensions + CRLF + trailer);
            var tight := (forall c :: c in chunks ==> Tight(c.extensions)) && Tight(extensions);
            && (Dechunk(s, ending) == Ok(Data(chunks)) <==> tight)
            && (!tight ==> Dechunk(s, ending).Err? && Dechunk(s, ending).error.InvalidChunkSize?)
  {
    hide Scan, ChunkSize, NumberValue;
    var last := size + extensions + CRLF + trailer;
    LastChunkRead(size, extensions, trailer);
    if forall c :: c in chunks ==> Tight(c.extensions) {
      EncodingIsFrames(chunks);
      ScanFrames(PiecesOf(chunks), last);
      assert PiecesOf(chunks) + [] == PiecesOf(chunks);
    } else {
      LooseChunkRejected(chunks, last);
    }
  }

  /** A whole response with a chunked body, however it is cut up: the reader returns its
      head, unchanged, and the decoded data. */
  lemma {:induction false} ChunkedMessageRead(fragments: seq<Bytes>, bufSize: nat, ending: Ending, head: Bytes,
                                              chunks: seq<Chunk>, size: Bytes, extensions: Bytes, trailer: Bytes)
    requires FindBlank(head) == Some(|head| - 4) && Fragmentation.Dechunks(head)
    requires (forall c :: c in chunks ==> ValidChunk(c) && Tight(c.extensions))
    requires ValidLast(size, extensions) && Tight(extensions) && bufSize > 0
    requires Fragmentation.Delivers(fragments, head + (EncodeChunks(chunks) + (size + extensions + CRLF + trailer)))
    ensures Reader.ReadOutcome(fragments, bufSize, ending) == Ok(head + Data(chunks))
  {
    hide FindBlank, ValidChunk, ValidLast, Scan;
    var body := EncodeChunks(chunks) + (size + extensions + CRLF + trailer);
    HeadIsStable(head, body);
    assert [] + body == body;
    Fragmentation.OutcomeIsMessage(fragments, bufSize, ending, head + body);
    DechunkInvertsChunking(chunks, size, extensions, trailer, ending);
  }

  // ── Bodies as senders write them ─────────────────────────────

  /** A piece of data, and whether its size is written in capitals. */
  datatype Part = Part(data: Bytes, capitals: bool)

  predicate Sendable(p: Part) {
    0 < |p.data| && |p.data| + 2 <= 0xFFFF_FFFF_FFFF_FFFF
  }

  function WritePart(p: Part): Bytes {
    Written(|p.data|, p.capitals) + CRLF + p.data + CRLF
  }

  function WriteParts(parts: seq<Part>): Bytes {
    if parts == [] then [] else WritePart(parts[0]) + WriteParts(parts[1..])
  }

  function PartData(parts: seq<Part>): Bytes {
    if parts == [] then [] else parts[0].data + PartData(parts[1..])
  }

  function ChunkOf(p: Part): Chunk {
    Chunk(Written(|p.data|, p.capitals), [], p.data)
  }

  function ChunksOf(parts: seq<Part>): seq<Chunk> {
    if parts == [] then [] else [ChunkOf(parts[0])] + ChunksOf(parts[1..])
  }

  lemma {:induction false} PartsAreChunks(parts: seq<Part>)
    requires forall p :: p in parts ==> Sendable(p)
    ensures forall c :: c in ChunksOf(parts) ==> ValidChunk(c) && Tight(c.extensions)
    ensures EncodeChunks(ChunksOf(parts)) == WriteParts(parts) && Data(ChunksOf(parts)) == PartData(parts)
  {
    hide NumberValue, Hexadecimal, UpperHexadecimal, HexDigits;
    if parts != [] {
      var p, chunks := parts[0], ChunksOf(parts);
      assert p in parts;
      PartsAreChunks(parts[1..]);
      HexadecimalValue(|p.data|);
      UpperHexadecimalValue(|p.data|);
      NoExtensions();
      assert chunks[1..] == ChunksOf(parts[1..]) && chunks[0] == ChunkOf(p);
      assert EncodeChunk(ChunkOf(p)) == WritePart(p) by {
        assert Written(|p.data|, p.capitals) + [] == Written(|p.data|, p.capitals);
      }
    }
  }

  lemma {:induction false} NoExtensions()
    ensures Extensions([]) && Tight([])
  {
  }

  lemma {:induction false} ZeroIsLast()
    ensures ValidLast(Ascii("0"), []) && Ascii("0") + [] == Ascii("0")
  {
    var zero := Ascii("0");
    assert zero[..0] == [] && NumberValue([], Hex) == 0;
  }

  /** A whole body comes out as the data of its parts, whatever stands behind its last chunk,
      and whether the stream then ends or breaks. */
  lemma {:induction false} WrittenBodyIsRead(parts: seq<Part>, trailer: Bytes, ending: Ending)
    requires forall p :: p in parts ==> Sendable(p)
    ensures Dechunk(WriteParts(parts) + (Ascii("0") + CRLF + trailer), ending) == Ok(PartData(parts))
  {
    hide ValidChunk, ValidLast, Ascii, EncodeChunks, Data, Dechunk;
    PartsAreChunks(parts);
    ZeroIsLast();
    NoExtensions();
    DechunkInvertsChunking(ChunksOf(parts), Ascii("0"), [], trailer, ending);
  }

  /** What starts a part and does not end it is no chunk yet. */
  lemma {:induction false} CutPartIsTruncated(p: Part, n: nat)
    requires Sendable(p) && n < |WritePart(p)|
    ensures FirstChunk(WritePart(p)[..n]) == Err(Truncated)
  {
    hide ChunkSize, Hexadecimal, UpperHexadecimal, NumberValue, HexDigits;
    var size := Written(|p.data|, p.capitals);
    var line, cut := size + [CR], WritePart(p)[..n];
    HexadecimalValue(|p.data|);
    UpperHexadecimalValue(|p.data|);
    HexIsPlain(size);
    NoExtensions();
    WrittenSizeIsRead(|p.data|, p.capitals, []);
    assert SizeLine(size, []) == line && size + [] == size;
    assert WritePart(p) == line + [LF] + (p.data + CRLF);
    if n <= |line| {
      assert cut == line[..n];
      IndexOfIs(cut, LF, n);
    } else {
      assert cut[..|line|] == line && cut[|line|] == LF;
      IndexOfIs(cut, LF, |line|);
    }
  }

  /** A body that the peer cuts off comes out as the parts that are whole; when the stream
      breaks there, it is an error, however much was read. */
  lemma {:induction false} CutBodyIsRead(parts: seq<Part>, next: Part, n: nat)
    requires (forall p :: p in parts ==> Sendable(p)) && Sendable(next) && n < |WritePart(next)|
    ensures var s := WriteParts(parts) + WritePart(next)[..n];
            Dechunk(s, Closed) == Ok(PartData(parts)) && Dechunk(s, Broken) == Err(Io)
  {
    hide ValidChunk, EncodeChunks, FirstChunk, ValidPiece, WritePart;
    var tail := WritePart(next)[..n];
    PartsAreChunks(parts);
    CutPartIsTruncated(next, n);
    EncodingIsFrames(ChunksOf(parts));
    ScanFrames(PiecesOf(ChunksOf(parts)), tail);
    assert Scan(tail) == ChunkScan([], Truncated);
    assert PiecesOf(ChunksOf(parts)) + [] == PiecesOf(ChunksOf(parts));
  }

  /** A size that leaves no room for the line end overflows: the two largest. */
  lemma {:induction false} LargestSizesOverflow(n: nat, capitals: bool, rest: Bytes)
    requires 0xFFFF_FFFF_FFFF_FFFE <= n <= 0xFFFF_FFFF_FFFF_FFFF
    ensures Dechunk(Written(n, capitals) + CRLF + rest, Closed) == Err(SizeOverflow)
  {
    hide ChunkSize, Hexadecimal, UpperHexadecimal, NumberValue, HexDigits;
    var line := Written(n, capitals) + [CR];
    var s := Written(n, capitals) + CRLF + rest;
    HexadecimalValue(n);
    UpperHexadecimalValue(n);
    HexIsPlain(Written(n, capitals));
    NoExtensions();
    WrittenSizeIsRead(n, capitals, []);
    assert SizeLine(Written(n, capitals), []) == line && Written(n, capitals) + [] == Written(n, capitals);
    assert s == line + [LF] + rest && s[..|line|] == line;
    IndexOfIs(s, LF, |line|);
    assert Scan(s) == ChunkScan([], Rejected(SizeOverflow));
  }

  /** `A`, ten bytes, and the last chunk. */
  lemma {:induction false} CapitalTen(ending: Ending)
    ensures Dechunk(Ascii("A") + CRLF + Ascii("0123456789") + CRLF + (Ascii("0") + CRLF + CRLF), ending)
            == Ok(Ascii("0123456789"))
  {
    var part := Part(Ascii("0123456789"), true);
    var parts := [part];
    assert parts[1..] == [];
    assert UpperHexadecimal(10) == Ascii("A");
    hide Ascii, Dechunk;
    assert |part.data| == 10;
    assert WriteParts(parts) == WritePart(part) + [] == WritePart(part);
    assert PartData(parts) == part.data + [] == part.data;
    WrittenBodyIsRead(parts, CRLF, ending);
  }
}
