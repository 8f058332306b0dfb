/**
 What the reader's answer does and does not depend on: the fragmentation of the stream,
 the size of the buffer, bytes behind the message, and a second reading.
 */
module Fragmentation {
  import opened Wrappers
  import opened ByteText
  import opened Transport
  import opened Framing
  import opened Reader

  ghost predicate Delivers(fragments: seq<Bytes>, s: Bytes) {
    Arrivals(fragments) && Concat(fragments) == s
  }

  // ── The head loop ────────────────────────────────────────────

  /** The head and the read-ahead are cut from the bytes at a place set by the bytes. */
  lemma {:induction false} ReadAheadIsPrefix(fragments: seq<Bytes>, bufSize: nat)
    requires Arrivals(fragments) && bufSize > 0
    ensures var (s, (full, left)) := (Concat(fragments), HeadReads(fragments, bufSize));
            && Arrivals(left)
            && Head(s) + Rest(s) == s
            && Rest(s) == ReadAhead(fragments, bufSize) + Concat(left)
            && full == Head(s) + ReadAhead(fragments, bufSize)
  {
    hide FindBlank, ReadsUntil, HeadEnd, Head, Rest;
    ReadsKeepBytes([], fragments, bufSize, HasHead());
    var (full, left) := HeadReads(fragments, bufSize);
    assert [] + Concat(fragments) == Concat(fragments);
    HeadAndRest(full);
    HeadAndRest(Concat(fragments));
    if FindBlank(full).Some? {
      HeadIsStable(full, Concat(left));
    } else {
      assert Concat(left) == [];
      assert full + [] == full && Rest(full) + [] == Rest(full);
    }
  }

  lemma {:induction false} HeadAndRest(s: Bytes)
    ensures Head(s) + Rest(s) == s
  {
  }

  /** The shortest part of a text that holds a whole head is that head. */
  lemma {:induction false} LeastHead(s: Bytes)
    requires FindBlank(s).Some?
    ensures LeastEnough(s, HasHead()) == |Head(s)|
  {
    hide FindBlank, LeastEnough;
    var n := LeastEnough(s, HasHead());
    assert s == s[..n] + s[n..];
    HeadIsStable(s[..n], s[n..]);
    HeadOfHead(s);
    assert s[..|Head(s)|] == Head(s);
  }

  /** Nothing behind the head is swallowed exactly when some read ends on the blank line. */
  lemma {:induction false} NoReadAheadIff(fragments: seq<Bytes>, bufSize: nat)
    requires Arrivals(fragments) && bufSize > 0 && FindBlank(Concat(fragments)).Some?
    ensures ReadAhead(fragments, bufSize) == []
            <==> exists k: nat :: FirstReads(fragments, bufSize, k) == Head(Concat(fragments))
  {
    hide FindBlank, ReadsUntil, FirstReads, LeastEnough;
    var s, left, ahead := Concat(fragments), HeadReads(fragments, bufSize).1, ReadAhead(fragments, bufSize);
    ReadAheadIsPrefix(fragments, bufSize);
    LeastHead(s);
    StopsAtBoundaryIff(fragments, bufSize, HasHead());
    assert ahead == [] <==> Concat(left) == Rest(s);
    forall k: nat
      ensures FirstReads(fragments, bufSize, k) == Head(s) <==> |FirstReads(fragments, bufSize, k)| == |Head(s)|
    {
      FirstReadsGrow(fragments, bufSize, k, k);
    }
  }

  // ── Fragmentation independence ───────────────────────────────

  lemma {:induction false} OutcomeIsMessage(fragments: seq<Bytes>, bufSize: nat, ending: Ending, s: Bytes)
    requires Delivers(fragments, s) && bufSize > 0
    requires !(IsBareRequest(Head(s)) && Rest(s) != [])
    ensures ReadOutcome(fragments, bufSize, ending) == MessageOf(s, [], ending)
  {
    hide IsNoBodyStatus, IsRequest, IsChunked, GetContentLength, Dechunk, FindBlank, Head, Rest, ReadsUntil;
    ReadAheadIsPrefix(fragments, bufSize);
    assert Rest(s) == [] ==> ReadAhead(fragments, bufSize) == [];
  }

  lemma {:induction false} AllInOneRead(s: Bytes)
    requires s != []
    ensures Delivers([s], s) && ReadAhead([s], |s|) == Rest(s)
  {
    assert FindBlank([]).None?;
    hide FindBlank;
    var one := [s];
    assert one[1..] == [];
    assert Concat(one) == s + Concat([]) == s;
    assert [] + s == s;
    assert ReadsUntil(s, [], |s|, HasHead()) == (s, []);
    assert HeadReads(one, |s|) == (s, []);
  }

  lemma {:induction false} HeadInItsOwnRead(s: Bytes)
    requires FindBlank(s).Some? && Rest(s) != []
    ensures Delivers([Head(s), Rest(s)], s) && ReadAhead([Head(s), Rest(s)], |s|) == []
  {
    hide FindBlank, Rest;
    var two := [Head(s), Rest(s)];
    HeadAndRest(s);
    assert two[1..] == [Rest(s)];
    assert Concat([Rest(s)]) == Rest(s) + Concat([]);
    assert Concat(two) == s;
    assert FirstReads(two, |s|, 1) == Head(s) + [] == Head(s) by {
      assert FirstReads(two[1..], |s|, 0) == [];
    }
    assert FirstReads(two, |s|, 1) == Head(Concat(two));
    hide FirstReads;
    NoReadAheadIff(two, |s|);
  }

  /** A request head without framing, followed by more: what is returned is up to the network. */
  lemma {:induction false} BareRequestDepends(s: Bytes, ending: Ending)
    requires IsBareRequest(Head(s)) && Rest(s) != []
    ensures Delivers([s], s) && ReadOutcome([s], |s|, ending) == Ok(s)
    ensures Delivers([Head(s), Rest(s)], s) && ReadOutcome([Head(s), Rest(s)], |s|, ending) == Ok(Head(s))
  {
    assert s != [] && FindBlank(s).Some?;
    hide FindBlank, ReadsUntil, IsBareRequest, Head, Rest, Concat, ReadAhead;
    HeadAndRest(s);
    AllInOneRead(s);
    HeadInItsOwnRead(s);
    assert Head(s) + [] == Head(s);
  }

  /** The answer is a function of the bytes alone, whatever the fragmentation and the
      buffer, unless the head is a request without framing that has bytes behind it; then
      it is not. */
  lemma {:induction false} FragmentationIndependence(s: Bytes, ending: Ending)
    ensures (forall f1, n1: nat, f2, n2: nat | Delivers(f1, s) && Delivers(f2, s) && n1 > 0 && n2 > 0 ::
               ReadOutcome(f1, n1, ending) == ReadOutcome(f2, n2, ending))
            <==> !(IsBareRequest(Head(s)) && Rest(s) != [])
  {
    if IsBareRequest(Head(s)) && Rest(s) != [] {
      BareRequestDepends(s, ending);
      assert |Head(s)| < |s|;
    } else {
      forall f1, n1: nat, f2, n2: nat | Delivers(f1, s) && Delivers(f2, s) && n1 > 0 && n2 > 0
        ensures ReadOutcome(f1, n1, ending) == ReadOutcome(f2, n2, ending)
      {
        OutcomeIsMessage(f1, n1, ending, s);
        OutcomeIsMessage(f2, n2, ending, s);
      }
    }
  }

  /** With a buffer that has no room, the reader sees an empty stream. */
  lemma {:induction false} NoRoomReadsNothing(fragments: seq<Bytes>, ending: Ending)
    requires Arrivals(fragments)
    ensures ReadOutcome(fragments, 0, ending) == Ok([])
  {
    assert Lines([]) == [];
    assert FindBlank([]).None?;
    assert HeadReads(fragments, 0) == ([], fragments);
    assert LengthInLines([]).None?;
    assert Head([]) == [] && Rest([]) == [];
    assert IsBareRequest([]);
    assert BodyOf([], [], [], Closed) == Ok([]);
    assert ReadAhead(fragments, 0) == [] && Visible(fragments, 0) == [];
    var nothing: Bytes := [];
    assert nothing + nothing == nothing;
  }

  // ── What is returned, and reading it again ───────────────────

  predicate Dechunks(head: Bytes) {
    !IsNoBodyStatus(head) && IsChunked(head)
  }

  /** Unless the reader de-chunks, its answer is a prefix of the bytes: the head, and as
      much of the rest as the head announces. */
  lemma {:induction false} MessageIsPrefix(s: Bytes, ahead: Bytes, ending: Ending)
    requires !Dechunks(Head(s)) && !IsBareRequest(Head(s)) && MessageOf(s, ahead, ending).Ok?
    ensures var m, head, rest := MessageOf(s, ahead, ending).value, Head(s), Rest(s);
            && m <= s
            && (IsNoBodyStatus(head) ==> m == head)
            && (!IsNoBodyStatus(head) ==>
                  match GetContentLength(head)
                  case Some(n) => m == head + rest[..if n <= |rest| then n else |rest|]
                  case None => m == s && ending == Closed)
  {
    var head, rest := Head(s), Rest(s);
    assert s == head + rest;
    match GetContentLength(head) {
      case None =>
      case Some(n) =>
        if n <= |rest| {
          assert head + rest[..n] == s[..|head| + n];
        }
    }
  }

  lemma {:induction false} PayloadIsShorter(s: Bytes)
    ensures |Payload(Scan(s).pieces)| <= |s|
    ensures s != [] ==> |Payload(Scan(s).pieces)| < |s|
    decreases |s|
  {
    hide ChunkSize, IndexOf;
    match FirstChunk(s) {
      case Err(_) =>
      case Ok(piece) =>
        PayloadIsShorter(s[|Frame(piece)|..]);
        assert Scan(s).pieces[1..] == Scan(s[|Frame(piece)|..]).pieces;
    }
  }

  lemma {:induction false} NothingToDechunk()
    ensures Dechunk([], Closed) == Ok([])
  {
    assert FirstChunk([]) == Err(Truncated);
  }

  /** A message whose head holds its blank line, or has nothing behind it, keeps that head. */
  lemma {:induction false} HeadOfMessage(s: Bytes, body: Bytes)
    requires FindBlank(s).Some? || body == []
    ensures Head(Head(s) + body) == Head(s) && Rest(Head(s) + body) == body
    ensures FindBlank(s).Some? ==> FindBlank(Head(s) + body).Some?
  {
    HeadOfHead(s);
    if FindBlank(s).Some? {
      HeadIsStable(Head(s), body);
      assert [] + body == body;
    } else {
      assert Head(s) + [] == Head(s);
    }
  }

  /** Reading the answer again gives it unchanged, unless a body was de-chunked: the head
      still announces chunks, so the second reader takes the decoded body for chunks. */
  lemma {:induction false} ReadingAgain(s: Bytes, ahead: Bytes, ahead2: Bytes, ending: Ending)
    requires !IsBareRequest(Head(s)) && MessageOf(s, ahead, ending).Ok?
    ensures var m := MessageOf(s, ahead, ending).value;
            MessageOf(m, ahead2, Closed) == Ok(m) <==> !Dechunks(Head(s)) || m == Head(s)
  {
    hide Scan, FindBlank, IsNoBodyStatus, IsChunked, IsRequest, GetContentLength;
    var head, rest := Head(s), Rest(s);
    var body := BodyOf(head, rest, ahead, ending).value;
    var m := head + body;
    if FindBlank(s).None? {
      assert rest == [];
      NothingToDechunk();
      assert body == [];
    }
    HeadOfMessage(s, body);
    assert m == head <==> body == [];
    assert MessageOf(m, ahead2, Closed) == Ok(m) <==> BodyOf(head, body, ahead2, Closed) == Ok(body) by {
      match BodyOf(head, body, ahead2, Closed)
      case Err(_) =>
      case Ok(again) => assert m == head + again ==> m[|head|..] == again == body;
    }
    if Dechunks(head) {
      PayloadIsShorter(body);
      NothingToDechunk();
    } else if !IsNoBodyStatus(head) {
      match GetContentLength(head)
      case None =>
      case Some(n) => assert |body| <= n; assert body[..|body|] == body;
    }
  }
}
