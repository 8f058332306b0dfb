/**
 The handler pipeline (src/builder.rs:122-153, 246-330).

 A handler is a value with three operations over a world `W`: the `HttpContext` that the
 source threads through, together with whatever state handlers keep behind their shared
 references. A call leaves its trace in the world, so equal worlds mean equal calls.
 */
module HandlerChain {
  import opened Wrappers
  import opened ByteText
  import opened Http

  type RequestResult = Result<RequestOrResponse, ProxyError>
  type ResponseResult = Result<Response, ProxyError>

  datatype Handler<!W> = Handler(
    onRequest: (W, Request) -> (W, RequestResult),
    onResponse: (W, Response) -> (W, ResponseResult),
    intercepts: (W, Bytes) -> (W, bool))

  function Noop<W>(): Handler<W> {
    Handler((w, q) => (w, Ok(Forward(q))), (w, p) => (w, Ok(p)), (w, host) => (w, true))
  }

  // ── The stack ────────────────────────────────────────────────

  function StackRequest<W>(handlers: seq<Handler<W>>, w: W, request: Request): (W, RequestResult) {
    if handlers == [] then (w, Ok(Forward(request)))
    else
      var (w', r) := handlers[0].onRequest(w, request);
      if r.Ok? && r.value.Forward? then StackRequest(handlers[1..], w', r.value.request) else (w', r)
  }

  function StackResponse<W>(handlers: seq<Handler<W>>, w: W, response: Response): (W, ResponseResult) {
    if handlers == [] then (w, Ok(response))
    else
      var (w', r) := handlers[0].onResponse(w, response);
      if r.Ok? then StackResponse(handlers[1..], w', r.value) else (w', r)
  }

  function StackIntercepts<W>(handlers: seq<Handler<W>>, w: W, host: Bytes): (W, bool) {
    if handlers == [] then (w, true)
    else
      var (w', yes) := handlers[0].intercepts(w, host);
      if yes then StackIntercepts(handlers[1..], w', host) else (w', false)
  }

  /** `HandlerStack::handle_request`. */
  method HandleRequest<W>(handlers: seq<Handler<W>>, world: W, first: Request) returns (w: W, r: RequestResult)
    ensures (w, r) == StackRequest(handlers, world, first)
  {
    w := world;
    var request := first;
    for i := 0 to |handlers|
      invariant StackRequest(handlers, world, first) == StackRequest(handlers[i..], w, request)
    {
      assert handlers[i..][1..] == handlers[i + 1..];
      var (w', result) := handlers[i].onRequest(w, request);
      w := w';
      if result.Err? || result.value.Answer? {
        return w, result;
      }
      request := result.value.request;
    }
    return w, Ok(Forward(request));
  }

  /** `HandlerStack::handle_response`. */
  method HandleResponse<W>(handlers: seq<Handler<W>>, world: W, first: Response) returns (w: W, r: ResponseResult)
    ensures (w, r) == StackResponse(handlers, world, first)
  {
    w := world;
    var response := first;
    for i := 0 to |handlers|
      invariant StackResponse(handlers, world, first) == StackResponse(handlers[i..], w, response)
    {
      assert handlers[i..][1..] == handlers[i + 1..];
      var (w', result) := handlers[i].onResponse(w, response);
      w := w';
      if result.Err? {
        return w, result;
      }
      response := result.value;
    }
    return w, Ok(response);
  }

  /** `HandlerStack::should_intercept_tls`. */
  method ShouldIntercept<W>(handlers: seq<Handler<W>>, world: W, host: Bytes) returns (w: W, yes: bool)
    ensures (w, yes) == StackIntercepts(handlers, world, host)
  {
    w := world;
    for i := 0 to |handlers|
      invariant StackIntercepts(handlers, world, host) == StackIntercepts(handlers[i..], w, host)
    {
      assert handlers[i..][1..] == handlers[i + 1..];
      var (w', agrees) := handlers[i].intercepts(w, host);
      w := w';
      if !agrees {
        return w, false;
      }
    }
    return w, true;
  }

  /** A stack, seen as one handler. */
  function AsHandler<W>(handlers: seq<Handler<W>>): Handler<W> {
    Handler((w, q) => StackRequest(handlers, w, q),
            (w, p) => StackResponse(handlers, w, p),
            (w, host) => StackIntercepts(handlers, w, host))
  }

  // ── Composition ──────────────────────────────────────────────

  /** One stack behind another: the second runs in the world, and on the message, that the
      first leaves, unless the first has answered or failed. */
  lemma {:induction false} StacksCompose<W>(xs: seq<Handler<W>>, ys: seq<Handler<W>>, w: W,
                                            request: Request, response: Response, host: Bytes)
    ensures var (w1, r) := StackRequest(xs, w, request);
            StackRequest(xs + ys, w, request)
            == if r.Ok? && r.value.Forward? then StackRequest(ys, w1, r.value.request) else (w1, r)
    ensures var (w1, r) := StackResponse(xs, w, response);
            StackResponse(xs + ys, w, response) == if r.Ok? then StackResponse(ys, w1, r.value) else (w1, r)
    ensures var (w1, yes) := StackIntercepts(xs, w, host);
            StackIntercepts(xs + ys, w, host) == if yes then StackIntercepts(ys, w1, host) else (w1, false)
    decreases |xs|
  {
    RequestsCompose(xs, ys, w, request);
    ResponsesCompose(xs, ys, w, response);
    InterceptsCompose(xs, ys, w, host);
  }

  lemma {:induction false} RequestsCompose<W>(xs: seq<Handler<W>>, ys: seq<Handler<W>>, w: W, request: Request)
    ensures var (w1, r) := StackRequest(xs, w, request);
            StackRequest(xs + ys, w, request)
            == if r.Ok? && r.value.Forward? then StackRequest(ys, w1, r.value.request) else (w1, r)
    decreases |xs|
  {
    if xs == [] {
      assert xs + ys == ys;
    } else {
      assert (xs + ys)[1..] == xs[1..] + ys;
      var (w1, r) := xs[0].onRequest(w, request);
      if r.Ok? && r.value.Forward? {
        RequestsCompose(xs[1..], ys, w1, r.value.request);
      }
    }
  }

  lemma {:induction false} ResponsesCompose<W>(xs: seq<Handler<W>>, ys: seq<Handler<W>>, w: W, response: Response)
    ensures var (w1, r) := StackResponse(xs, w, response);
            StackResponse(xs + ys, w, response) == if r.Ok? then StackResponse(ys, w1, r.value) else (w1, r)
    decreases |xs|
  {
    if xs == [] {
      assert xs + ys == ys;
    } else {
      assert (xs + ys)[1..] == xs[1..] + ys;
      var (w1, r) := xs[0].onResponse(w, response);
      if r.Ok? {
        ResponsesCompose(xs[1..], ys, w1, r.value);
      }
    }
  }

  lemma {:induction false} InterceptsCompose<W>(xs: seq<Handler<W>>, ys: seq<Handler<W>>, w: W, host: Bytes)
    ensures var (w1, yes) := StackIntercepts(xs, w, host);
            StackIntercepts(xs + ys, w, host) == if yes then StackIntercepts(ys, w1, host) else (w1, false)
    decreases |xs|
  {
    if xs == [] {
      assert xs + ys == ys;
    } else {
      assert (xs + ys)[1..] == xs[1..] + ys;
      var (w1, yes) := xs[0].intercepts(w, host);
      if yes {
        InterceptsCompose(xs[1..], ys, w1, host);
      }
    }
  }

  /** A stack inside a stack is the same as its handlers in its place. */
  lemma {:induction false} NestedStackFlattens<W>(xs: seq<Handler<W>>, ys: seq<Handler<W>>, zs: seq<Handler<W>>,
                                                  w: W, request: Request, response: Response, host: Bytes)
    ensures StackRequest(xs + [AsHandler(ys)] + zs, w, request) == StackRequest(xs + ys + zs, w, request)
    ensures StackResponse(xs + [AsHandler(ys)] + zs, w, response) == StackResponse(xs + ys + zs, w, response)
    ensures StackIntercepts(xs + [AsHandler(ys)] + zs, w, host) == StackIntercepts(xs + ys + zs, w, host)
  {
    var one := [AsHandler(ys)];
    assert xs + one + zs == xs + (one + zs) && xs + ys + zs == xs + (ys + zs);
    StacksCompose(xs, one + zs, w, request, response, host);
    StacksCompose(xs, ys + zs, w, request, response, host);
    var (w1, q) := StackRequest(xs, w, request);
    var (w2, p) := StackResponse(xs, w, response);
    var (w3, _) := StackIntercepts(xs, w, host);
    assert (one + zs)[1..] == zs;
    if q.Ok? && q.value.Forward? {
      RequestsCompose(ys, zs, w1, q.value.request);
    }
    if p.Ok? {
      ResponsesCompose(ys, zs, w2, p.value);
    }
    InterceptsCompose(ys, zs, w3, host);
  }

  // ── Where a request stops ────────────────────────────────────

  /** How many handlers see the request. */
  function Called<W>(handlers: seq<Handler<W>>, w: W, request: Request): (n: nat)
    ensures n <= |handlers|
  {
    if handlers == [] then 0
    else
      var (w', r) := handlers[0].onRequest(w, request);
      if r.Ok? && r.value.Forward? then 1 + Called(handlers[1..], w', r.value.request) else 1
  }

  /** A request that is answered or fails stops at the handler that does so: whatever
      stands behind it is not called, for any other tail gives the same answer in the same
      world. A request that every handler forwards is seen by all of them. */
  lemma {:induction false} NothingBehindTheStop<W>(handlers: seq<Handler<W>>, tail: seq<Handler<W>>, w: W,
                                                   request: Request)
    ensures var r, n := StackRequest(handlers, w, request).1, Called(handlers, w, request);
            && (!(r.Ok? && r.value.Forward?) ==>
                  0 < n && StackRequest(handlers[..n] + tail, w, request) == StackRequest(handlers, w, request))
            && (r.Ok? && r.value.Forward? ==> n == |handlers|)
    decreases |handlers|
  {
    if handlers != [] {
      var (w1, r1) := handlers[0].onRequest(w, request);
      var n := Called(handlers, w, request);
      assert handlers[..n] + tail == [handlers[0]] + (handlers[1..][..n - 1] + tail);
      if r1.Ok? && r1.value.Forward? {
        NothingBehindTheStop(handlers[1..], tail, w1, r1.value.request);
        assert (handlers[..n] + tail)[1..] == handlers[1..][..n - 1] + tail;
      }
    }
  }

  // ── The order of responses ───────────────────────────────────

  function SetStatus(status: nat): Handler<()> {
    Noop().(onResponse := (w, p: Response) => (w, Ok(p.(status := status))))
  }

  function SameStatus(status: nat, n: nat): (r: seq<Handler<()>>)
    ensures |r| == n
  {
    if n == 0 then [] else [SetStatus(status)] + SameStatus(status, n - 1)
  }

  lemma {:induction false} SameStatusSets(status: nat, n: nat, response: Response)
    ensures StackResponse(SameStatus(status, n), (), response)
            == ((), Ok(if n == 0 then response else response.(status := status)))
  {
    if n > 0 {
      assert SameStatus(status, n)[1..] == SameStatus(status, n - 1);
      SameStatusSets(status, n - 1, response.(status := status));
    }
  }

  lemma {:induction false} ReverseSameStatus(status: nat, n: nat)
    ensures Reverse(SameStatus(status, n)) == SameStatus(status, n)
  {
    var s := SameStatus(status, n);
    SameStatusAt(status, n);
    assert forall i :: 0 <= i < n ==> Reverse(s)[i] == s[i];
  }

  lemma {:induction false} SameStatusAt(status: nat, n: nat)
    ensures forall i :: 0 <= i < n ==> SameStatus(status, n)[i] == SetStatus(status)
  {
    if n > 0 {
      SameStatusAt(status, n - 1);
      assert SameStatus(status, n) == [SetStatus(status)] + SameStatus(status, n - 1);
    }
  }

  ghost predicate OrderIsInvisible(n: nat) {
    forall handlers: seq<Handler<()>>, response: Response {:trigger StackResponse(handlers, (), response)} ::
      |handlers| == n ==>
      StackResponse(handlers, (), response) == StackResponse(Reverse(handlers), (), response)
  }

  /** Responses pass the handlers in insertion order. This is the reverse order that
      docs/usage.md:105 promises for all handlers exactly when there are at most one. */
  lemma {:induction false} ResponsesAreNotReversed(n: nat)
    ensures OrderIsInvisible(n) <==> n <= 1
  {
    if n <= 1 {
      forall handlers: seq<Handler<()>>, response: Response | |handlers| == n
        ensures StackResponse(handlers, (), response) == StackResponse(Reverse(handlers), (), response)
      {
        assert Reverse(handlers) == handlers;
      }
    } else {
      FirstAgainstLast(n - 1);
      var handlers := [SetStatus(404)] + SameStatus(200, n - 1);
      assert |handlers| == n;
    }
  }

  /** A handler that sets 404 in front of others that set 200: who comes last wins. */
  lemma {:induction false} FirstAgainstLast(n: nat)
    requires n > 0
    ensures var handlers, response := [SetStatus(404)] + SameStatus(200, n), Response(100, [], Full([]));
            && StackResponse(handlers, (), response) == ((), Ok(response.(status := 200)))
            && StackResponse(Reverse(handlers), (), response) == ((), Ok(response.(status := 404)))
  {
    var response := Response(100, [], Full([]));
    var rest, last := SameStatus(200, n), [SetStatus(404)];
    var handlers := last + rest;
    ReverseSameStatus(200, n);
    assert handlers[1..] == rest && Reverse(handlers) == Reverse(rest) + [handlers[0]];
    hide Reverse, SameStatus;
    SameStatusSets(200, n, response.(status := 404));
    SameStatusSets(200, n, response);
    ResponsesCompose(rest, last, (), response);
    assert last[1..] == [];
  }

  // ── The builder ──────────────────────────────────────────────

  /** `ProxyBuilder::build`: no handler, one handler, or a stack of them. */
  function SelectHandler<W>(handlers: seq<Handler<W>>): Handler<W> {
    if handlers == [] then Noop()
    else if |handlers| == 1 then handlers[0]
    else AsHandler(handlers)
  }

  /** The special cases of `build` are no different from the stack. */
  lemma {:induction false} SelectedHandlerIsTheStack<W>(handlers: seq<Handler<W>>, w: W, request: Request,
                                                        response: Response, host: Bytes)
    ensures SelectHandler(handlers).onRequest(w, request) == StackRequest(handlers, w, request)
    ensures SelectHandler(handlers).onResponse(w, response) == StackResponse(handlers, w, response)
    ensures SelectHandler(handlers).intercepts(w, host) == StackIntercepts(handlers, w, host)
  {
    if |handlers| == 1 {
      assert handlers[1..] == [];
    }
  }

  /** The shared `AtomicBool`. */
  class Flag {
    var on: bool

    constructor (on: bool)
      ensures this.on == on
    {
      this.on := on;
    }
  }

  const DEFAULT_BUFFER_SIZE: nat := 16384

  class ProxyBuilder<!W> {
    var handlers: seq<Handler<W>>
    var bufferSize: nat
    const enabled: Flag

    constructor ()
      ensures handlers == [] && bufferSize == 16384
      ensures fresh(enabled) && enabled.on
    {
      handlers, bufferSize := [], DEFAULT_BUFFER_SIZE;
      enabled := new Flag(true);
    }

    method WithHttpHandler(handler: Handler<W>)
      modifies this`handlers
      ensures handlers == [handler]
    {
      handlers := [handler];
    }

    method AddHttpHandler(handler: Handler<W>)
      modifies this`handlers
      ensures handlers == old(handlers) + [handler]
    {
      handlers := handlers + [handler];
    }

    method WithRequestBufferSize(size: nat)
      modifies this`bufferSize
      ensures bufferSize == size
    {
      bufferSize := size;
    }

    method WithEnabled(on: bool)
      modifies enabled
      ensures enabled.on == on
    {
      enabled.on := on;
    }

    /** The proxy shares the builder's flag. */
    method Build() returns (proxy: Proxy<W>)
      ensures fresh(proxy) && proxy.enabled == enabled && proxy.bufferSize == bufferSize
      ensures proxy.Valid() && proxy.handlers == handlers
    {
      proxy := new Proxy(handlers, enabled, bufferSize);
    }
  }

  class Proxy<!W> {
    ghost const handlers: seq<Handler<W>>
    const handler: Handler<W>
    const enabled: Flag
    const bufferSize: nat

    constructor (handlers: seq<Handler<W>>, enabled: Flag, bufferSize: nat)
      ensures this.handlers == handlers && this.enabled == enabled && this.bufferSize == bufferSize
      ensures Valid()
    {
      this.handlers := handlers;
      handler := SelectHandler(handlers);
      this.enabled, this.bufferSize := enabled, bufferSize;
    }

    ghost predicate Valid() {
      handler == SelectHandler(handlers)
    }

    method SetEnabled(on: bool)
      modifies enabled
      ensures enabled.on == on
    {
      enabled.on := on;
    }

    /** `EnabledWrapperHandler::handle_request`: the flag makes no difference. */
    method OnRequest(w: W, request: Request) returns (w': W, r: RequestResult)
      requires Valid()
      ensures (w', r) == StackRequest(handlers, w, request)
    {
      SelectedHandlerIsTheStack(handlers, w, request, Response(100, [], Full([])), []);
      var out := handler.onRequest(w, request);
      return out.0, out.1;
    }

    /** `EnabledWrapperHandler::handle_response`. */
    method OnResponse(w: W, response: Response) returns (w': W, r: ResponseResult)
      requires Valid()
      ensures (w', r) == StackResponse(handlers, w, response)
    {
      SelectedHandlerIsTheStack(handlers, w, Request([], [], [], Full([])), response, []);
      var out := handler.onResponse(w, response);
      return out.0, out.1;
    }

    /** `EnabledWrapperHandler::should_intercept_tls`: a disabled proxy intercepts nothing,
        and asks no handler. */
    method ShouldInterceptTls(w: W, host: Bytes) returns (w': W, yes: bool)
      requires Valid()
      ensures (w', yes) == if enabled.on then StackIntercepts(handlers, w, host) else (w, false)
    {
      if !enabled.on {
        return w, false;
      }
      SelectedHandlerIsTheStack(handlers, w, Request([], [], [], Full([])), Response(100, [], Full([])), host);
      var out := handler.intercepts(w, host);
      return out.0, out.1;
    }
  }

  /** Builder, proxy and whoever asked for the flag switch the same proxy on and off. */
  method Toggle<W>(builder: ProxyBuilder<W>, size: nat, w: W, host: Bytes)
    returns (proxy: Proxy<W>, off: (W, bool), on: (W, bool), offAgain: (W, bool))
    modifies builder`bufferSize, builder.enabled
    ensures fresh(proxy) && proxy.Valid() && proxy.bufferSize == size
    ensures off == (w, false) && offAgain == (on.0, false)
    ensures on == StackIntercepts(builder.handlers, w, host)
  {
    var flag := builder.enabled;
    builder.WithRequestBufferSize(size);
    builder.WithEnabled(false);
    proxy := builder.Build();
    var w', yes := proxy.ShouldInterceptTls(w, host);
    off := (w', yes);
    proxy.SetEnabled(true);
    w', yes := proxy.ShouldInterceptTls(w', host);
    on := (w', yes);
    flag.on := false;
    w', yes := proxy.ShouldInterceptTls(w', host);
    offAgain := (w', yes);
  }
}
