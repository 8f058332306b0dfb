/**
 The byte stream that the reader pulls from and the proxy writes to.

 A peer's bytes arrive in fragments. One `read` hands over the first of them, cut to
 the caller's buffer, so a theorem about every value of `fragments` is a theorem about
 every fragmentation the network can produce.
 */
module Transport {
  import opened Wrappers
  import opened ByteText

  datatype ReadError =
    | Io                              // `stream.read(..)` failed
    | InvalidChunkSize(text: Text)   // the size is not a hexadecimal usize
    | SizeOverflow                    // `chunk_size + 2` exceeds usize: a panic, not an error value

  /** What the peer does once its bytes are delivered. */
  datatype Ending = Closed | Broken

  type ReadResult = Result<Bytes, ReadError>

  predicate Arrivals(fragments: seq<Bytes>) {
    forall f :: f in fragments ==> f != []
  }

  /** What a read with a buffer of `bufSize` bytes returns. */
  function NextRead(fragments: seq<Bytes>, bufSize: nat): Bytes {
    if bufSize == 0 || fragments == [] then []
    else if |fragments[0]| <= bufSize then fragments[0]
    else fragments[0][..bufSize]
  }

  /** What is left to arrive after that read. */
  function AfterRead(fragments: seq<Bytes>, bufSize: nat): seq<Bytes> {
    if bufSize == 0 || fragments == [] then fragments
    else if |fragments[0]| <= bufSize then fragments[1..]
    else [fragments[0][bufSize..]] + fragments[1..]
  }

  /** The bytes that reads with this buffer can ever see: a buffer without room makes
      every read return 0, which the source takes for the end of the stream. */
  function Visible(fragments: seq<Bytes>, bufSize: nat): Bytes {
    if bufSize == 0 then [] else Concat(fragments)
  }

  function VisibleEnding(ending: Ending, bufSize: nat): Ending {
    if bufSize == 0 then Closed else ending
  }

  lemma {:induction false} ReadSplits(fragments: seq<Bytes>, bufSize: nat)
    requires Arrivals(fragments)
    ensures Arrivals(AfterRead(fragments, bufSize))
    ensures Concat(fragments) == NextRead(fragments, bufSize) + Concat(AfterRead(fragments, bufSize))
    ensures Visible(fragments, bufSize)
            == NextRead(fragments, bufSize) + Visible(AfterRead(fragments, bufSize), bufSize)
    ensures NextRead(fragments, bufSize) == [] <==> Visible(fragments, bufSize) == []
    ensures NextRead(fragments, bufSize) == [] <==> bufSize == 0 || fragments == []
  {
    if bufSize != 0 && fragments != [] {
      var first, others := fragments[0], fragments[1..];
      assert first in fragments;
      assert Arrivals(others) by {
        assert forall f :: f in others ==> f in fragments;
      }
      if |first| > bufSize {
        ConcatCut(first, others, bufSize);
      }
    }
  }

  lemma {:induction false} ConcatCut(first: Bytes, others: seq<Bytes>, n: nat)
    requires n < |first|
    ensures Concat([first] + others) == first[..n] + Concat([first[n..]] + others)
  {
    var cut := first[n..];
    assert ([first] + others)[1..] == others && ([cut] + others)[1..] == others;
    assert first == first[..n] + cut;
  }

  // ── Reading on ───────────────────────────────────────────────

  lemma {:induction false} Regroup(taken: Bytes, data: Bytes, left: Bytes)
    ensures taken + (data + left) == (taken + data) + left
    ensures taken + [] == taken
  {
  }

  /** Reads on until what was seen is enough or nothing more comes: the bytes seen by then,
      and what is left to arrive. */
  function ReadsUntil(seen: Bytes, fragments: seq<Bytes>, bufSize: nat, enough: Bytes -> bool): (Bytes, seq<Bytes>)
    requires Arrivals(fragments)
    decreases |Visible(fragments, bufSize)|
  {
    ReadSplits(fragments, bufSize);
    var data := NextRead(fragments, bufSize);
    if enough(seen) || data == [] then (seen, fragments)
    else ReadsUntil(seen + data, AfterRead(fragments, bufSize), bufSize, enough)
  }

  lemma {:induction false} ReadsKeepBytes(seen: Bytes, fragments: seq<Bytes>, bufSize: nat, enough: Bytes -> bool)
    requires Arrivals(fragments)
    ensures var (now, left) := ReadsUntil(seen, fragments, bufSize, enough);
            && Arrivals(left)
            && seen + Concat(fragments) == now + Concat(left)
            && seen + Visible(fragments, bufSize) == now + Visible(left, bufSize)
            && (enough(now) || Visible(left, bufSize) == [])
    decreases |Visible(fragments, bufSize)|
  {
    ReadSplits(fragments, bufSize);
    var data, later := NextRead(fragments, bufSize), AfterRead(fragments, bufSize);
    Regroup(seen, data, Concat(later));
    Regroup(seen, data, Visible(later, bufSize));
    if !enough(seen) && data != [] {
      ReadsKeepBytes(seen + data, later, bufSize, enough);
    }
  }

  /** A loop that waits for less, inside a loop that waits for more, makes some of its reads. */
  lemma {:induction false} ReadsSkip(a: Bytes, b: Bytes, fragments: seq<Bytes>, bufSize: nat,
                                     strong: Bytes -> bool, weak: Bytes -> bool) returns (more: Bytes)
    requires Arrivals(fragments) && forall x :: strong(a + x) ==> weak(b + x)
    ensures var (now, left) := ReadsUntil(b, fragments, bufSize, weak);
            && now == b + more && Arrivals(left)
            && ReadsUntil(a, fragments, bufSize, strong) == ReadsUntil(a + more, left, bufSize, strong)
    decreases |Visible(fragments, bufSize)|
  {
    ReadSplits(fragments, bufSize);
    var data, later := NextRead(fragments, bufSize), AfterRead(fragments, bufSize);
    assert a + [] == a && b + [] == b;
    if weak(b) || data == [] {
      more := [];
    } else {
      forall x
        ensures strong((a + data) + x) ==> weak((b + data) + x)
      {
        Regroup(a, data, x);
        Regroup(b, data, x);
      }
      assert !strong(a + []);
      var rest := ReadsSkip(a + data, b + data, later, bufSize, strong, weak);
      more := data + rest;
      Regroup(a, data, rest);
      Regroup(b, data, rest);
    }
  }

  /** Two loops that wait for the same leave the same. */
  lemma {:induction false} ReadsAlike(a: Bytes, b: Bytes, fragments: seq<Bytes>, bufSize: nat,
                                      p: Bytes -> bool, q: Bytes -> bool)
    requires Arrivals(fragments) && forall x :: p(a + x) <==> q(b + x)
    ensures ReadsUntil(a, fragments, bufSize, p).1 == ReadsUntil(b, fragments, bufSize, q).1
    decreases |Visible(fragments, bufSize)|
  {
    ReadSplits(fragments, bufSize);
    var data, later := NextRead(fragments, bufSize), AfterRead(fragments, bufSize);
    assert a + [] == a && b + [] == b;
    assert p(a + []) <==> q(b + []);
    if !p(a) && data != [] {
      forall x
        ensures p((a + data) + x) <==> q((b + data) + x)
      {
        Regroup(a, data, x);
        Regroup(b, data, x);
      }
      ReadsAlike(a + data, b + data, later, bufSize, p, q);
    }
  }

  // ── Where reading stops ──────────────────────────────────────

  /** The bytes of the first `k` reads. */
  function FirstReads(fragments: seq<Bytes>, bufSize: nat, k: nat): Bytes
    decreases k
  {
    if k == 0 then []
    else NextRead(fragments, bufSize) + FirstReads(AfterRead(fragments, bufSize), bufSize, k - 1)
  }

  /** The length of the shortest part of `s`, from `k` on, that is enough. */
  function LeastEnough(s: Bytes, enough: Bytes -> bool, k: nat := 0): (n: nat)
    requires k <= |s| && enough(s)
    ensures k <= n <= |s| && enough(s[..n])
    ensures forall j :: k <= j < n ==> !enough(s[..j])
    decreases |s| - k
  {
    assert s[..|s|] == s;
    if enough(s[..k]) then k else LeastEnough(s, enough, k + 1)
  }

  lemma {:induction false} ReadsAreFirst(seen: Bytes, fragments: seq<Bytes>, bufSize: nat, enough: Bytes -> bool)
    returns (k: nat)
    requires Arrivals(fragments)
    ensures ReadsUntil(seen, fragments, bufSize, enough).0 == seen + FirstReads(fragments, bufSize, k)
    ensures forall j: nat :: j < k ==> !enough(seen + FirstReads(fragments, bufSize, j))
    decreases |Visible(fragments, bufSize)|
  {
    hide Concat, NextRead, AfterRead, Visible;
    ReadSplits(fragments, bufSize);
    var data, later := NextRead(fragments, bufSize), AfterRead(fragments, bufSize);
    assert seen + [] == seen;
    if enough(seen) || data == [] {
      k := 0;
    } else {
      var i := ReadsAreFirst(seen + data, later, bufSize, enough);
      k := i + 1;
      Regroup(seen, data, FirstReads(later, bufSize, i));
      forall j: nat | j < k
        ensures !enough(seen + FirstReads(fragments, bufSize, j))
      {
        if j > 0 {
          Regroup(seen, data, FirstReads(later, bufSize, j - 1));
        }
      }
    }
  }

  lemma {:induction false} SamePrefix(front: Bytes, a: Bytes, b: Bytes)
    requires a <= b
    ensures front + a <= front + b
  {
  }

  lemma {:induction false} ReadsFromStart(fragments: seq<Bytes>, bufSize: nat, enough: Bytes -> bool) returns (k: nat)
    requires Arrivals(fragments)
    ensures ReadsUntil([], fragments, bufSize, enough).0 == FirstReads(fragments, bufSize, k)
    ensures forall j: nat :: j < k ==> !enough(FirstReads(fragments, bufSize, j))
  {
    hide ReadsUntil, FirstReads;
    k := ReadsAreFirst([], fragments, bufSize, enough);
    assert [] + FirstReads(fragments, bufSize, k) == FirstReads(fragments, bufSize, k);
    forall j: nat | j < k
      ensures !enough(FirstReads(fragments, bufSize, j))
    {
      assert [] + FirstReads(fragments, bufSize, j) == FirstReads(fragments, bufSize, j);
    }
  }

  lemma {:induction false} FirstReadsGrow(fragments: seq<Bytes>, bufSize: nat, j: nat, k: nat)
    requires Arrivals(fragments) && bufSize > 0 && j <= k
    ensures FirstReads(fragments, bufSize, j) <= FirstReads(fragments, bufSize, k) <= Concat(fragments)
    decreases k
  {
    hide Concat, NextRead, AfterRead;
    if k > 0 {
      ReadSplits(fragments, bufSize);
      var data, later := NextRead(fragments, bufSize), AfterRead(fragments, bufSize);
      var i := if j > 0 then j - 1 else 0;
      FirstReadsGrow(later, bufSize, i, k - 1);
      SamePrefix(data, FirstReads(later, bufSize, i), FirstReads(later, bufSize, k - 1));
      SamePrefix(data, FirstReads(later, bufSize, k - 1), Concat(later));
    }
  }

  /** When the whole stream is enough, reading stops with the first read that makes what was
      seen enough; and it sees nothing behind the shortest part that is enough exactly when
      some read ends there. */
  lemma {:induction false} StopsAtBoundaryIff(fragments: seq<Bytes>, bufSize: nat, enough: Bytes -> bool)
    requires Arrivals(fragments) && bufSize > 0 && enough(Concat(fragments))
    ensures var (s, n) := (Concat(fragments), LeastEnough(Concat(fragments), enough));
            var (now, left) := ReadsUntil([], fragments, bufSize, enough);
            && now + Concat(left) == s && n <= |now|
            && (n > 0 ==> exists k: nat :: now == FirstReads(fragments, bufSize, k + 1)
                                           && !enough(FirstReads(fragments, bufSize, k)))
            && (Concat(left) == s[n..] <==> exists k: nat :: |FirstReads(fragments, bufSize, k)| == n)
  {
    hide ReadsUntil, FirstReads, LeastEnough, Concat, Visible;
    var s, n := Concat(fragments), LeastEnough(Concat(fragments), enough);
    var (now, left) := ReadsUntil([], fragments, bufSize, enough);
    ReadsKeepBytes([], fragments, bufSize, enough);
    StreamIsVisible(fragments, left, bufSize);
    assert [] + s == s && now + [] == now;
    assert enough(now);
    assert now == s[..|now|];
    var k := ReadsFromStart(fragments, bufSize, enough);
    if n > 0 {
      NoReadSeesNothing(fragments, bufSize);
      assert s[..0] == [];
      assert now == FirstReads(fragments, bufSize, (k - 1) + 1) && !enough(FirstReads(fragments, bufSize, k - 1));
    }
    if exists j: nat :: |FirstReads(fragments, bufSize, j)| == n {
      var j: nat :| |FirstReads(fragments, bufSize, j)| == n;
      FirstReadsGrow(fragments, bufSize, j, j);
      assert FirstReads(fragments, bufSize, j) == s[..n];
      assert enough(FirstReads(fragments, bufSize, j));
      FirstReadsGrow(fragments, bufSize, k, j);
    }
    assert |now| == n <==> Concat(left) == s[n..];
  }

  lemma {:induction false} StreamIsVisible(fragments: seq<Bytes>, left: seq<Bytes>, bufSize: nat)
    requires bufSize > 0
    ensures Visible(fragments, bufSize) == Concat(fragments) && Visible(left, bufSize) == Concat(left)
  {
  }

  lemma {:induction false} NoReadSeesNothing(fragments: seq<Bytes>, bufSize: nat)
    ensures FirstReads(fragments, bufSize, 0) == []
  {
  }

  /** The first read brings the whole stream exactly when it came in one fragment that fits. */
  lemma {:induction false} WholeInOneIff(fragments: seq<Bytes>, bufSize: nat)
    requires Arrivals(fragments) && bufSize > 0 && fragments != []
    ensures |NextRead(fragments, bufSize)| >= |Concat(fragments)|
            <==> fragments == [Concat(fragments)] && |Concat(fragments)| <= bufSize
  {
    var first, others := fragments[0], fragments[1..];
    assert fragments == [first] + others && Concat(fragments) == first + Concat(others);
    if others == [] {
      assert Concat(fragments) == first;
    } else {
      assert others[0] in fragments;
      assert Concat(others) == others[0] + Concat(others[1..]);
      assert |Concat(fragments)| > |first|;
    }
  }

  class ByteStream {
    var fragments: seq<Bytes>   // arriving from the peer
    const ending: Ending
    var written: Bytes          // sent to the peer
    var shut: bool

    constructor (fragments: seq<Bytes>, ending: Ending)
      requires Arrivals(fragments)
      ensures this.fragments == fragments && this.ending == ending
      ensures written == [] && !shut && Valid()
    {
      this.fragments, this.ending := fragments, ending;
      written, shut := [], false;
    }

    ghost predicate Valid()
      reads this
    {
      Arrivals(fragments)
    }

    ghost function Unread(): Bytes
      reads this
    {
      Concat(fragments)
    }

    ghost function View(bufSize: nat): Bytes
      reads this
    {
      Visible(fragments, bufSize)
    }

    method Read(bufSize: nat) returns (r: ReadResult)
      requires Valid()
      modifies this`fragments
      ensures Valid()
      ensures fragments == AfterRead(old(fragments), bufSize)
      ensures r.Err? <==> old(View(bufSize)) == [] && VisibleEnding(ending, bufSize) == Broken
      ensures r.Err? ==> r.error == Io && View(bufSize) == []
      ensures r.Ok? ==> r.value == NextRead(old(fragments), bufSize)
      ensures r.Ok? ==> old(View(bufSize)) == r.value + View(bufSize)
      ensures r.Ok? ==> (r.value == [] <==> old(View(bufSize)) == [])
    {
      ReadSplits(fragments, bufSize);
      if bufSize > 0 && fragments == [] && ending == Broken {
        return Err(Io);
      }
      r := Ok(NextRead(fragments, bufSize));
      fragments := AfterRead(fragments, bufSize);
    }

    method WriteAll(data: Bytes)
      modifies this`written
      ensures written == old(written) + data
    {
      written := written + data;
    }

    method Shutdown()
      modifies this`shut
      ensures shut
    {
      shut := true;
    }
  }
}
