/**
 The WebSocket relays (src/ws_proxy.rs:69-118, 257-346).

 `select!` takes whichever side has an event first, so a run is driven by a schedule: the
 side taken in each round. A theorem about every schedule covers every interleaving, and
 one about every prefix of a schedule covers every moment of a run.
 */
module Relay {
  import opened Wrappers

  datatype Direction = ClientToServer | ServerToClient

  /** An item of an input stream; the stream ends when there are no more. */
  datatype Event<M> = Frame(msg: M) | Failure

  /** A `WebSocketHandler`, over a world that holds the context and the handler's own state. */
  datatype FrameHandler<!W, !M> = FrameHandler(
    isClose: M -> bool,
    onFrame: (W, M, Direction) -> (W, Option<M>),
    onClose: W -> W)

  /** `NoopWebSocketHandler`: the default methods of the trait. */
  function NoopHandler<W, M>(isClose: M -> bool): FrameHandler<W, M> {
    FrameHandler(isClose, (w, m, d) => (w, Some(m)), w => w)
  }

  /** A call of `on_frame`: what went in, what came out, and the world around it. */
  datatype Call<W, M> = Call(direction: Direction, frame: M, before: W, after: W, result: Option<M>)

  datatype State<W, M> = State(
    world: W,
    client: seq<Event<M>>,     // not yet taken from the client
    server: seq<Event<M>>,     // not yet taken from the server
    toServer: seq<M>,          // handed to the server's sink
    toClient: seq<M>,          // handed to the client's sink
    calls: seq<Call<W, M>>,
    running: bool)

  function Started<W, M>(w: W, client: seq<Event<M>>, server: seq<Event<M>>): State<W, M> {
    State(w, client, server, [], [], [], true)
  }

  function Sent<M>(sink: seq<M>, out: Option<M>): seq<M> {
    if out.Some? then sink + [out.value] else sink
  }

  /** One round of the loop, with the branch that `select!` takes. */
  function Step<W, M>(h: FrameHandler<W, M>, s: State<W, M>, taken: Direction): State<W, M> {
    var input := if taken.ClientToServer? then s.client else s.server;
    var rest := if input == [] then [] else input[1..];
    var s' := if taken.ClientToServer? then s.(client := rest) else s.(server := rest);
    if input == [] || input[0].Failure? then s'.(running := false)
    else
      var msg := input[0].msg;
      var (w, out) := h.onFrame(s.world, msg, taken);
      var noted := s'.(world := w, calls := s.calls + [Call(taken, msg, s.world, w, out)],
                       running := !h.isClose(msg));
      if taken.ClientToServer? then noted.(toServer := Sent(s.toServer, out))
      else noted.(toClient := Sent(s.toClient, out))
  }

  function Run<W, M>(h: FrameHandler<W, M>, s: State<W, M>, schedule: seq<Direction>): State<W, M>
    decreases |schedule|
  {
    if !s.running || schedule == [] then s else Run(h, Step(h, s, schedule[0]), schedule[1..])
  }

  // ── The loop itself ──────────────────────────────────────────

  /** The two streams, the two sinks and the calls made of one relay. */
  class Session<!W, !M> {
    var world: W
    var client: seq<Event<M>>
    var server: seq<Event<M>>
    var toServer: seq<M>
    var toClient: seq<M>
    var calls: seq<Call<W, M>>
    var closings: seq<(W, nat)>   // the calls of `on_close`: the world, and how many `on_frame` calls came first
    var clientClosed: bool        // `client_ws.close(None)`

    constructor (w: W, client: seq<Event<M>>, server: seq<Event<M>>)
      ensures Now(true) == Started(w, client, server)
      ensures closings == [] && !clientClosed
    {
      world, this.client, this.server := w, client, server;
      toServer, toClient, calls, closings, clientClosed := [], [], [], [], false;
    }

    ghost function Now(running: bool): State<W, M>
      reads this
    {
      State(world, client, server, toServer, toClient, calls, running)
    }

    /** The branch for one side: take an event, pass it through the handler, send it on. */
    method TakeFrom(h: FrameHandler<W, M>, side: Direction) returns (running: bool)
      modifies this`world, this`client, this`server, this`toServer, this`toClient, this`calls
      ensures Now(running) == Step(h, old(Now(true)), side)
    {
      var input := if side.ClientToServer? then client else server;
      var rest := if input == [] then [] else input[1..];
      if side.ClientToServer? {
        client := rest;
      } else {
        server := rest;
      }
      if input == [] || input[0].Failure? {
        return false;
      }
      var msg := input[0].msg;
      var out := h.onFrame(world, msg, side);
      calls := calls + [Call(side, msg, world, out.0, out.1)];
      world := out.0;
      if out.1.Some? {
        if side.ClientToServer? {
          toServer := toServer + [out.1.value];
        } else {
          toClient := toClient + [out.1.value];
        }
      }
      return !h.isClose(msg);
    }

    method OnClose(h: FrameHandler<W, M>)
      modifies this`world, this`closings
      ensures world == h.onClose(old(world)) && closings == old(closings) + [(old(world), |calls|)]
    {
      closings := closings + [(world, |calls|)];
      world := h.onClose(world);
    }

    /** The loop of both handler relays, for as long as the schedule lasts. */
    method Loop(h: FrameHandler<W, M>, schedule: seq<Direction>) returns (running: bool)
      modifies this`world, this`client, this`server, this`toServer, this`toClient, this`calls
      ensures Now(running) == Run(h, old(Now(true)), schedule)
    {
      running := true;
      var i := 0;
      while i < |schedule|
        invariant i <= |schedule| && running
        invariant Run(h, old(Now(true)), schedule) == Run(h, Now(true), schedule[i..])
      {
        assert schedule[i..][1..] == schedule[i + 1..];
        running := TakeFrom(h, schedule[i]);
        i := i + 1;
        if !running {
          break;
        }
      }
    }

    /** `relay_upgraded`. The call returns only when the loop has ended. */
    method RelayUpgraded(h: FrameHandler<W, M>, schedule: seq<Direction>) returns (returned: bool)
      modifies this
      ensures var end := Run(h, old(Now(true)), schedule);
              && returned == !end.running
              && Now(end.running) == (if returned then end.(world := h.onClose(end.world)) else end)
              && closings == old(closings) + (if returned then [(end.world, |end.calls|)] else [])
      ensures clientClosed == old(clientClosed)
    {
      var running := Loop(h, schedule);
      if !running {
        OnClose(h);
      }
      return !running;
    }

    /** `relay_framed`: the same, and at the end the client's side is closed. */
    method RelayFramed(h: FrameHandler<W, M>, schedule: seq<Direction>) returns (returned: bool)
      modifies this
      ensures var end := Run(h, old(Now(true)), schedule);
              && returned == !end.running
              && Now(end.running) == (if returned then end.(world := h.onClose(end.world)) else end)
              && closings == old(closings) + (if returned then [(end.world, |end.calls|)] else [])
      ensures clientClosed == (old(clientClosed) || returned)
    {
      returned := RelayUpgraded(h, schedule);
      if returned {
        clientClosed := true;
      }
    }
  }

  // ── What every step keeps ────────────────────────────────────

  ghost predicate Suffix<T>(rest: seq<T>, all: seq<T>) {
    |rest| <= |all| && rest == all[|all| - |rest|..]
  }

  /** What was taken of an input. */
  function Taken<M>(all: seq<Event<M>>, rest: seq<Event<M>>): seq<Event<M>>
    requires |rest| <= |all|
  {
    all[..|all| - |rest|]
  }

  function Frames<M>(events: seq<Event<M>>): seq<M> {
    if events == [] then []
    else
      var last := events[|events| - 1];
      Frames(events[..|events| - 1]) + if last.Frame? then [last.msg] else []
  }

  /** The frames that `on_frame` was called with in one direction, in order. */
  function Seen<W, M>(calls: seq<Call<W, M>>, d: Direction): seq<M> {
    if calls == [] then []
    else
      var last := calls[|calls| - 1];
      Seen(calls[..|calls| - 1], d) + if last.direction == d then [last.frame] else []
  }

  /** What those calls let through, in order: the values of their results, as far as they
      have one. */
  function Passed<W, M>(calls: seq<Call<W, M>>, d: Direction): seq<M> {
    if calls == [] then []
    else
      var last := calls[|calls| - 1];
      Passed(calls[..|calls| - 1], d)
      + if last.direction == d && last.result.Some? then [last.result.value] else []
  }

  /** The calls in one direction that let a frame through. */
  function LetThrough<W, M>(calls: seq<Call<W, M>>, d: Direction): set<nat> {
    set i: nat | i < |calls| && calls[i].direction == d && calls[i].result.Some?
  }

  lemma {:induction false} PassedCount<W, M>(calls: seq<Call<W, M>>, d: Direction)
    ensures |Passed(calls, d)| == |LetThrough(calls, d)|
  {
    hide LetThrough;
    if calls == [] {
      NoneLetThrough<W, M>(d);
    } else {
      PassedCount(calls[..|calls| - 1], d);
      LastLetThrough(calls, d);
    }
  }

  lemma {:induction false} NoneLetThrough<W, M>(d: Direction)
    ensures LetThrough<W, M>([], d) == {}
  {
  }

  lemma {:induction false} LastLetThrough<W, M>(calls: seq<Call<W, M>>, d: Direction)
    requires calls != []
    ensures var last := calls[|calls| - 1];
            |LetThrough(calls, d)| == |LetThrough(calls[..|calls| - 1], d)|
                                      + if last.direction == d && last.result.Some? then 1 else 0
  {
    var n, front := |calls| - 1, calls[..|calls| - 1];
    assert forall i :: 0 <= i < n ==> front[i] == calls[i];
    if calls[n].direction == d && calls[n].result.Some? {
      assert LetThrough(calls, d) == LetThrough(front, d) + {n} && n !in LetThrough(front, d);
    } else {
      assert LetThrough(calls, d) == LetThrough(front, d);
    }
  }

  /** Every call is the handler's, and each starts in the world that the one before left. */
  ghost predicate Threaded<W, M>(h: FrameHandler<W, M>, first: W, calls: seq<Call<W, M>>, now: W) {
    if calls == [] then now == first
    else
      var c := calls[|calls| - 1];
      && Threaded(h, first, calls[..|calls| - 1], c.before)
      && h.onFrame(c.before, c.frame, c.direction) == (c.after, c.result)
      && now == c.after
  }

  /** Frames, none of them a Close. */
  ghost predicate Plain<W, M>(h: FrameHandler<W, M>, events: seq<Event<M>>) {
    forall e :: e in events ==> e.Frame? && !h.isClose(e.msg)
  }

  /** Plain frames up to a Close, a failure or the end of the stream. */
  ghost predicate Ended<W, M>(h: FrameHandler<W, M>, all: seq<Event<M>>, rest: seq<Event<M>>)
    requires |rest| <= |all|
  {
    var taken := Taken(all, rest);
    || (rest == [] && Plain(h, taken))
    || (taken != [] && Plain(h, taken[..|taken| - 1])
        && var last := taken[|taken| - 1]; last.Failure? || h.isClose(last.msg))
  }

  /** Conservation and order: nothing is taken without a call, and nothing sent but what a
      call let through. */
  ghost predicate Conserves<W, M>(h: FrameHandler<W, M>, w: W, client: seq<Event<M>>, server: seq<Event<M>>,
                                  s: State<W, M>)
  {
    && Suffix(s.client, client) && Suffix(s.server, server)
    && Seen(s.calls, ClientToServer) == Frames(Taken(client, s.client))
    && Seen(s.calls, ServerToClient) == Frames(Taken(server, s.server))
    && s.toServer == Passed(s.calls, ClientToServer)
    && s.toClient == Passed(s.calls, ServerToClient)
    && |s.toServer| == |LetThrough(s.calls, ClientToServer)| && |s.toClient| == |LetThrough(s.calls, ServerToClient)|
    && Threaded(h, w, s.calls, s.world)
  }

  /** The relay goes on while both sides are plain, and stops at the first event that is not. */
  ghost predicate StopsInTime<W, M>(h: FrameHandler<W, M>, client: seq<Event<M>>, server: seq<Event<M>>, s: State<W, M>)
    requires Suffix(s.client, client) && Suffix(s.server, server)
  {
    if s.running then Plain(h, Taken(client, s.client)) && Plain(h, Taken(server, s.server))
    else
      || (Ended(h, client, s.client) && Plain(h, Taken(server, s.server)))
      || (Ended(h, server, s.server) && Plain(h, Taken(client, s.client)))
  }

  lemma {:induction false} TakenGrows<M>(all: seq<Event<M>>, rest: seq<Event<M>>)
    requires Suffix(rest, all) && rest != []
    ensures Suffix(rest[1..], all)
    ensures Taken(all, rest[1..]) == Taken(all, rest) + [rest[0]]
    ensures Frames(Taken(all, rest[1..]))
            == Frames(Taken(all, rest)) + if rest[0].Frame? then [rest[0].msg] else []
  {
    var taken := Taken(all, rest[1..]);
    assert taken[..|taken| - 1] == Taken(all, rest);
  }

  lemma {:induction false} CallAppended<W, M>(h: FrameHandler<W, M>, first: W, calls: seq<Call<W, M>>, c: Call<W, M>)
    requires Threaded(h, first, calls, c.before)
    requires h.onFrame(c.before, c.frame, c.direction) == (c.after, c.result)
    ensures Threaded(h, first, calls + [c], c.after)
    ensures Seen(calls + [c], c.direction) == Seen(calls, c.direction) + [c.frame]
    ensures Passed(calls + [c], c.direction)
            == Passed(calls, c.direction) + if c.result.Some? then [c.result.value] else []
    ensures forall d :: d != c.direction ==> Seen(calls + [c], d) == Seen(calls, d)
    ensures forall d :: d != c.direction ==> Passed(calls + [c], d) == Passed(calls, d)
  {
    var more := calls + [c];
    assert more[..|more| - 1] == calls;
    assert forall d :: Seen(calls, d) + [] == Seen(calls, d);
    assert forall d :: Passed(calls, d) + [] == Passed(calls, d);
  }

  lemma {:induction false} StepConserves<W, M>(h: FrameHandler<W, M>, w: W, client: seq<Event<M>>,
                                               server: seq<Event<M>>, s: State<W, M>, taken: Direction)
    requires s.running && Conserves(h, w, client, server, s)
    ensures Conserves(h, w, client, server, Step(h, s, taken))
  {
    var input := if taken.ClientToServer? then s.client else s.server;
    var all := if taken.ClientToServer? then client else server;
    hide Seen, Passed, Threaded, Frames, LetThrough;
    PassedCount(Step(h, s, taken).calls, ClientToServer);
    PassedCount(Step(h, s, taken).calls, ServerToClient);
    if input != [] {
      TakenGrows(all, input);
      if input[0].Frame? {
        var (w', out) := h.onFrame(s.world, input[0].msg, taken);
        CallAppended(h, w, s.calls, Call(taken, input[0].msg, s.world, w', out));
      } else {
        assert Frames(Taken(all, input)) + [] == Frames(Taken(all, input));
      }
    }
  }

  lemma {:induction false} StepStopsInTime<W, M>(h: FrameHandler<W, M>, client: seq<Event<M>>,
                                                 server: seq<Event<M>>, s: State<W, M>, taken: Direction)
    requires s.running && Suffix(s.client, client) && Suffix(s.server, server) && StopsInTime(h, client, server, s)
    ensures var s' := Step(h, s, taken);
            Suffix(s'.client, client) && Suffix(s'.server, server) && StopsInTime(h, client, server, s')
  {
    var input := if taken.ClientToServer? then s.client else s.server;
    var all := if taken.ClientToServer? then client else server;
    if input != [] {
      TakenGrows(all, input);
      var now := Taken(all, input[1..]);
      assert now[..|now| - 1] == Taken(all, input);
    }
  }

  /** Every reachable state of every run, under every schedule: each frame taken from a side
      went through the handler once, in order and with its direction, in the world that the
      previous call left; what was sent to the other side is what the handler let through;
      and the run stops with the first Close, failure or end of stream on either side. */
  lemma {:induction false} RelayConserves<W, M>(h: FrameHandler<W, M>, w: W, client: seq<Event<M>>,
                                                server: seq<Event<M>>, schedule: seq<Direction>)
    ensures var end := Run(h, Started(w, client, server), schedule);
            Conserves(h, w, client, server, end) && StopsInTime(h, client, server, end)
  {
    var s := Started(w, client, server);
    assert Taken(client, s.client) == [] && Taken(server, s.server) == [];
    RunKeeps(h, w, client, server, s, schedule);
  }

  lemma {:induction false} RunKeeps<W, M>(h: FrameHandler<W, M>, w: W, client: seq<Event<M>>, server: seq<Event<M>>,
                                          s: State<W, M>, schedule: seq<Direction>)
    requires Conserves(h, w, client, server, s) && StopsInTime(h, client, server, s)
    ensures var end := Run(h, s, schedule);
            Conserves(h, w, client, server, end) && StopsInTime(h, client, server, end)
    decreases |schedule|
  {
    hide Step, Seen, Passed, Threaded, Frames, Taken, StopsInTime;
    if s.running && schedule != [] {
      StepConserves(h, w, client, server, s, schedule[0]);
      StepStopsInTime(h, client, server, s, schedule[0]);
      RunKeeps(h, w, client, server, Step(h, s, schedule[0]), schedule[1..]);
    }
  }

  // ── Termination ──────────────────────────────────────────────

  /** A run ends after at most one round more than there are events. */
  lemma {:induction false} RelayTerminates<W, M>(h: FrameHandler<W, M>, s: State<W, M>, schedule: seq<Direction>)
    requires |schedule| > |s.client| + |s.server|
    ensures !Run(h, s, schedule).running
    decreases |schedule|
  {
    if s.running {
      var s' := Step(h, s, schedule[0]);
      if s'.running {
        RelayTerminates(h, s', schedule[1..]);
      }
    }
  }

  // ── Handlers without state ───────────────────────────────────

  /** The answer of a stateless handler depends on the frame and its direction only. */
  ghost predicate Stateless<W(!new), M(!new)>(h: FrameHandler<W, M>, f: (M, Direction) -> Option<M>) {
    forall w, m, d :: h.onFrame(w, m, d).1 == f(m, d)
  }

  /** The values that a stateless handler has for the frames that it lets through, in order. */
  function Image<M>(f: (M, Direction) -> Option<M>, d: Direction, frames: seq<M>): seq<M> {
    if frames == [] then []
    else
      var last := f(frames[|frames| - 1], d);
      Image(f, d, frames[..|frames| - 1]) + if last.Some? then [last.value] else []
  }

  lemma {:induction false} PassedIsImage<W(!new), M(!new)>(h: FrameHandler<W, M>, f: (M, Direction) -> Option<M>, w: W,
                                                           calls: seq<Call<W, M>>, now: W, d: Direction)
    requires Stateless(h, f) && Threaded(h, w, calls, now)
    ensures Passed(calls, d) == Image(f, d, Seen(calls, d))
  {
    if calls != [] {
      var c := calls[|calls| - 1];
      var before := calls[..|calls| - 1];
      PassedIsImage(h, f, w, before, c.before, d);
      if c.direction == d {
        assert h.onFrame(c.before, c.frame, d).1 == f(c.frame, d);
        var seen := Seen(calls, d);
        assert seen[..|seen| - 1] == Seen(before, d);
      } else {
        assert Seen(before, d) + [] == Seen(before, d);
      }
    }
  }

  lemma {:induction false} FramesOfPrefix<M>(a: seq<Event<M>>, b: seq<Event<M>>)
    requires a <= b
    ensures Frames(a) <= Frames(b)
    decreases |b|
  {
    if |a| < |b| {
      FramesOfPrefix(a, b[..|b| - 1]);
    } else {
      assert a == b;
    }
  }

  lemma {:induction false} ImageOfPrefix<M>(f: (M, Direction) -> Option<M>, d: Direction, a: seq<M>, b: seq<M>)
    requires a <= b
    ensures Image(f, d, a) <= Image(f, d, b)
    decreases |b|
  {
    if |a| < |b| {
      ImageOfPrefix(f, d, a, b[..|b| - 1]);
    } else {
      assert a == b;
    }
  }

  ghost predicate Comparable<T>(a: seq<T>, b: seq<T>) {
    a <= b || b <= a
  }

  lemma {:induction false} ImagesComparable<M>(f: (M, Direction) -> Option<M>, d: Direction, all: seq<Event<M>>,
                                               rest1: seq<Event<M>>, rest2: seq<Event<M>>)
    requires |rest1| <= |all| && |rest2| <= |all|
    ensures Comparable(Image(f, d, Frames(Taken(all, rest1))), Image(f, d, Frames(Taken(all, rest2))))
  {
    hide Image, Frames;
    var t1, t2 := Taken(all, rest1), Taken(all, rest2);
    if |t1| <= |t2| {
      FramesOfPrefix(t1, t2);
      ImageOfPrefix(f, d, Frames(t1), Frames(t2));
    } else {
      FramesOfPrefix(t2, t1);
      ImageOfPrefix(f, d, Frames(t2), Frames(t1));
    }
  }

  /** With a stateless handler, each side receives the handler's image of what was taken
      from the other, and the schedule only decides how much of it: any two runs send
      each side the same frames as far as both go. */
  lemma {:induction false} ScheduleIndependence<W(!new), M(!new)>(
      h: FrameHandler<W, M>, f: (M, Direction) -> Option<M>, w: W, client: seq<Event<M>>, server: seq<Event<M>>,
      one: seq<Direction>, two: seq<Direction>)
    requires Stateless(h, f)
    ensures var r1, r2 := Run(h, Started(w, client, server), one), Run(h, Started(w, client, server), two);
            && |r1.client| <= |client| && |r1.server| <= |server|
            && r1.toServer == Image(f, ClientToServer, Frames(Taken(client, r1.client)))
            && r1.toClient == Image(f, ServerToClient, Frames(Taken(server, r1.server)))
            && Comparable(r1.toServer, r2.toServer)
            && Comparable(r1.toClient, r2.toClient)
  {
    hide Run, Image, Frames, Passed, Seen, Threaded, Taken, StopsInTime;
    var s := Started(w, client, server);
    var r1, r2 := Run(h, s, one), Run(h, s, two);
    RelayConserves(h, w, client, server, one);
    RelayConserves(h, w, client, server, two);
    PassedIsImage(h, f, w, r1.calls, r1.world, ClientToServer);
    PassedIsImage(h, f, w, r1.calls, r1.world, ServerToClient);
    PassedIsImage(h, f, w, r2.calls, r2.world, ClientToServer);
    PassedIsImage(h, f, w, r2.calls, r2.world, ServerToClient);
    ImagesComparable(f, ClientToServer, client, r1.client, r2.client);
    ImagesComparable(f, ServerToClient, server, r1.server, r2.server);
  }

  // ── The relay without a handler ──────────────────────────────

  datatype RawState<M> = RawState(client: seq<Event<M>>, server: seq<Event<M>>, toServer: seq<M>, toClient: seq<M>,
                                  running: bool)

  function RawStep<M>(isClose: M -> bool, s: RawState<M>, taken: Direction): RawState<M> {
    match taken
    case ClientToServer =>
      if s.client == [] then s.(running := false)
      else if s.client[0].Failure? then s.(client := s.client[1..], running := false)
      else s.(client := s.client[1..], toServer := s.toServer + [s.client[0].msg],
              running := !isClose(s.client[0].msg))
    case ServerToClient =>
      if s.server == [] then s.(running := false)
      else if s.server[0].Failure? then s.(server := s.server[1..], running := false)
      else s.(server := s.server[1..], toClient := s.toClient + [s.server[0].msg],
              running := !isClose(s.server[0].msg))
  }

  function RawRun<M>(isClose: M -> bool, s: RawState<M>, schedule: seq<Direction>): RawState<M>
    decreases |schedule|
  {
    if !s.running || schedule == [] then s else RawRun(isClose, RawStep(isClose, s, schedule[0]), schedule[1..])
  }

  /** `relay_raw_upgraded`. */
  method RelayRawUpgraded<M>(isClose: M -> bool, start: RawState<M>, schedule: seq<Direction>) returns (s: RawState<M>)
    requires start.running
    ensures s == RawRun(isClose, start, schedule)
  {
    s := start;
    var i := 0;
    while i < |schedule| && s.running
      invariant i <= |schedule|
      invariant RawRun(isClose, start, schedule) == RawRun(isClose, s, schedule[i..])
    {
      assert schedule[i..][1..] == schedule[i + 1..];
      s := RawStep(isClose, s, schedule[i]);
      i := i + 1;
    }
  }

  function WithoutCalls<W, M>(s: State<W, M>): RawState<M> {
    RawState(s.client, s.server, s.toServer, s.toClient, s.running)
  }

  /** With the no-op handler, the relay delivers what the raw relay does on that schedule. */
  lemma {:induction false} NoopRelayIsRaw<W, M>(isClose: M -> bool, s: State<W, M>, schedule: seq<Direction>)
    ensures WithoutCalls(Run(NoopHandler(isClose), s, schedule)) == RawRun(isClose, WithoutCalls(s), schedule)
    decreases |schedule|
  {
    var h: FrameHandler<W, M> := NoopHandler(isClose);
    if s.running && schedule != [] {
      assert WithoutCalls(Step(h, s, schedule[0])) == RawStep(isClose, WithoutCalls(s), schedule[0]);
      NoopRelayIsRaw(isClose, Step(h, s, schedule[0]), schedule[1..]);
    }
  }
}
