/**
 What the reader leaves in the stream (src/proxy.rs:272-453). Whoever reads next, a relay
 for one, finds what is behind the last read.
 */
module Consumption {
  import opened ByteText
  import opened Framing
  import opened Reader
  import opened Transport
  import opened Wrappers

  import Chunked

  // ── Where a message is settled ───────────────────────────────

  lemma {:induction false} FramesArePrefix(s: Bytes) returns (tail: Bytes)
    ensures FrameAll(Scan(s).pieces) <= s && tail == s[|FrameAll(Scan(s).pieces)|..]
    ensures FirstChunk(tail) == Err(Scan(s).stop)
  {
    hide FirstChunk, ValidPiece;
    tail := Chunked.ScanDecomposes(s);
  }

  /** One past the size line that ends the loop over the chunks. */
  function ChunksEnd(rest: Bytes): nat {
    var n := |FrameAll(Scan(rest).pieces)|;
    if n <= |rest| then n + IndexOf(rest[n..], LF) + 1 else n
  }

  /** How much of what is behind the head decides the body. */
  function BodyEnd(head: Bytes, rest: Bytes): nat
    requires BodyDecided(head, rest)
  {
    if IsNoBodyStatus(head) || IsBareRequest(head) then 0
    else if IsChunked(head) then ChunksEnd(rest)
    else GetContentLength(head).value
  }

  /** How much of the bytes decides the message. The trailer and the last line end of a
      chunked body are not part of it. */
  function MessageEnd(s: Bytes): nat
    requires Decided(s)
  {
    |Head(s)| + BodyEnd(Head(s), Rest(s))
  }

  lemma {:induction false} StopNeedsLine(s: Bytes)
    requires FirstChunk(s).Err? && FirstChunk(s).error != Truncated
    ensures LF in s
    ensures var size := ChunkSize(Before(s, LF)); size.Err? || size.value == 0 || size.value + 2 > USIZE_MAX
  {
    hide ChunkSize;
    IndexOfIsFirst(s, LF);
  }

  lemma {:induction false} ChunksEndIsReached(rest: Bytes, k: nat)
    requires Scan(rest).stop != Truncated && k <= |rest| && Scan(rest[..k]).stop != Truncated
    ensures ChunksEnd(rest) <= k
  {
    hide Scan, FirstChunk, IndexOf, FrameAll;
    var part := rest[..k];
    assert part + rest[k..] == rest;
    Chunked.ScanIsMonotone(part, rest[k..]);
    var tail := FramesArePrefix(part);
    var whole := FramesArePrefix(rest);
    StopNeedsLine(tail);
    assert whole == tail + rest[k..];
    IndexInPrefix(tail, rest[k..]);
  }

  lemma {:induction false} ChunksEndSuffices(rest: Bytes, k: nat)
    requires Scan(rest).stop != Truncated && ChunksEnd(rest) <= k <= |rest|
    ensures Scan(rest[..k]).stop != Truncated
  {
    hide Scan, FirstChunk, IndexOf, FrameAll, ChunkSize, ValidPiece;
    var pieces := Scan(rest).pieces;
    var tail := FramesArePrefix(rest);
    var n := |FrameAll(pieces)|;
    var part, more := tail[..k - n], tail[k - n..];
    assert part + more == tail;
    StopNeedsLine(tail);
    var nl := IndexOf(tail, LF);
    assert part[nl] == LF;
    IndexInPrefix(part, more);
    assert part[..nl] == tail[..nl];
    SizeEndsLoop(part, more, nl);
    var t := Chunked.ScanDecomposes(rest);
    assert rest[..k] == FrameAll(pieces) + part;
    ScanFrames(pieces, part);
    SettledIffFirst(pieces, part);
  }

  lemma {:induction false} BodyDecidedIff(head: Bytes, rest: Bytes, k: nat)
    requires BodyDecided(head, rest) && k <= |rest|
    ensures BodyDecided(head, rest[..k]) <==> BodyEnd(head, rest) <= k
  {
    hide Scan, ChunksEnd, IsNoBodyStatus, IsBareRequest, IsChunked, GetContentLength;
    if !IsNoBodyStatus(head) && !IsBareRequest(head) && IsChunked(head) {
      if Scan(rest[..k]).stop != Truncated {
        ChunksEndIsReached(rest, k);
      }
      if ChunksEnd(rest) <= k {
        ChunksEndSuffices(rest, k);
      }
    }
  }

  /** A part of the bytes decides the message exactly when it reaches the message's end. */
  lemma {:induction false} DecidedIff(s: Bytes, k: nat)
    requires Decided(s) && k <= |s|
    ensures Decided(s[..k]) <==> MessageEnd(s) <= k
  {
    hide FindBlank, BodyDecided, BodyEnd;
    var part, n := s[..k], |Head(s)|;
    assert part + s[k..] == s;
    if FindBlank(part).Some? {
      HeadIsStable(part, s[k..]);
    }
    if n <= k {
      HeadOfHead(s);
      assert part == Head(s) + Rest(s)[..k - n];
      HeadIsStable(Head(s), Rest(s)[..k - n]);
      assert [] + Rest(s)[..k - n] == Rest(s)[..k - n];
      BodyDecidedIff(Head(s), Rest(s), k - n);
    }
  }

  lemma {:induction false} BodyStaysDecided(head: Bytes, rest: Bytes, more: Bytes)
    requires BodyDecided(head, rest)
    ensures BodyDecided(head, rest + more)
  {
    hide Scan, IsNoBodyStatus, IsBareRequest, IsChunked, GetContentLength;
    Chunked.ScanIsMonotone(rest, more);
  }

  lemma {:induction false} StaysDecided(s: Bytes, more: Bytes)
    requires Decided(s)
    ensures Decided(s + more)
  {
    hide FindBlank, BodyDecided;
    HeadIsStable(s, more);
    BodyStaysDecided(Head(s), Rest(s), more);
  }

  // ── What is left ─────────────────────────────────────────────

  lemma {:induction false} DecidedNotEmpty(s: Bytes)
    requires Decided(s)
    ensures MessageEnd(s) > 0
  {
    hide BodyDecided, BodyEnd;
  }

  /** The reader takes whole reads, up to the first after which the message is decided, or
      everything when it never is. Whoever reads next finds all that is behind the message
      exactly when some read ended with the message. */
  lemma {:induction false} ReadingLeaves(fragments: seq<Bytes>, bufSize: nat)
    requires Arrivals(fragments) && bufSize > 0
    ensures var (s, (taken, left)) := (Concat(fragments), MessageReads(fragments, bufSize));
            && Arrivals(left) && s == taken + Concat(left)
            && (!Decided(s) ==> Concat(left) == [])
            && (Decided(s) ==>
                  && (exists k: nat :: taken == FirstReads(fragments, bufSize, k + 1)
                                       && !Decided(FirstReads(fragments, bufSize, k)))
                  && MessageEnd(s) <= |taken|
                  && (Concat(left) == s[MessageEnd(s)..]
                      <==> exists k: nat :: |FirstReads(fragments, bufSize, k)| == MessageEnd(s)))
  {
    hide Decided, MessageEnd, ReadsUntil, FirstReads, LeastEnough;
    var s := Concat(fragments);
    var (taken, left) := MessageReads(fragments, bufSize);
    ReadsKeepBytes([], fragments, bufSize, MessageSettled());
    assert [] + s == s;
    if Decided(s) {
      var n := LeastEnough(s, MessageSettled());
      assert s[..|s|] == s;
      DecidedIff(s, n);
      DecidedIff(s, |s|);
      DecidedIff(s, MessageEnd(s));
      assert n == MessageEnd(s);
      DecidedNotEmpty(s);
      StopsAtBoundaryIff(fragments, bufSize, MessageSettled());
      var k: nat :| taken == FirstReads(fragments, bufSize, k + 1)
                    && !MessageSettled()(FirstReads(fragments, bufSize, k));
      assert !Decided(FirstReads(fragments, bufSize, k));
    } else if Decided(taken) {
      StaysDecided(taken, Concat(left));
    }
  }

  /** A message without a body ends with its head, and so does a bare request. */
  lemma {:induction false} BodilessEnd(s: Bytes)
    requires FindBlank(s).Some? && (IsNoBodyStatus(Head(s)) || IsBareRequest(Head(s)))
    ensures Decided(s) && MessageEnd(s) == |Head(s)|
  {
  }

  /** Behind a handshake, or another head without a body, the next reader starts right
      behind the head exactly when some read brought just that head. */
  lemma {:induction false} HandshakeLeaves(fragments: seq<Bytes>, bufSize: nat)
    requires Arrivals(fragments) && bufSize > 0
    requires FindBlank(Concat(fragments)).Some? && IsNoBodyStatus(Head(Concat(fragments)))
    ensures Concat(MessageReads(fragments, bufSize).1) == Rest(Concat(fragments))
            <==> exists k: nat :: FirstReads(fragments, bufSize, k) == Head(Concat(fragments))
  {
    hide FindBlank, Decided, MessageEnd, ReadsUntil, FirstReads, IsNoBodyStatus;
    var s := Concat(fragments);
    BodilessEnd(s);
    ReadingLeaves(fragments, bufSize);
    forall k: nat
      ensures FirstReads(fragments, bufSize, k) == Head(s) <==> |FirstReads(fragments, bufSize, k)| == |Head(s)|
    {
      FirstReadsGrow(fragments, bufSize, k, k);
    }
  }
}
