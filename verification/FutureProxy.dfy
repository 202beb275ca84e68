/** `futureRpcCallProxy`: one request counter over several hosts, each with its own
    client and dispatcher. */
module FutureProxy {
  import opened MachineInt
  import opened ByteOrder
  import opened Message
  import opened ClientDispatcher
  import opened Multiplexing
  import opened RpcServer
  import opened Runs
  import opened CallOutcomes

  // ---------- The object ----------

  datatype Strategy = RANDOM | HASH | ROUND_ROBIN

  /** What one CallMethod does before it waits: fails at once, or hands a request to
      the dispatcher of one host. */
  datatype Submission = NoMethod | NoHosts | Submitted(host: nat, request: Message)

  /** `curReqId % vRpcClient.size()`: the `long` becomes a `size_t`. */
  function RoundRobinIndex(id: int64, hosts: nat): (h: nat)
    requires hosts > 0
    ensures h < hosts
  {
    ToUint64(id) % hosts
  }

  class FutureRpcCallProxy {
    const serviceName: string
    const methodNames: seq<string>
    const hash: string -> uint32
    const localIp: string
    var requestId: int64
    var strategy: Strategy
    var clients: seq<MultiplexClientDispatcher>

    constructor (serviceName: string, methodNames: seq<string>, hash: string -> uint32, localIp: string)
      ensures this.serviceName == serviceName && this.methodNames == methodNames
              && this.hash == hash && this.localIp == localIp
      ensures requestId == 0 && strategy == ROUND_ROBIN && clients == []
    {
      this.serviceName, this.methodNames, this.hash, this.localIp := serviceName, methodNames, hash, localIp;
      requestId, strategy, clients := 0, ROUND_ROBIN, [];
    }

    method SetLBStrategy(s: Strategy)
      modifies this`strategy
      ensures strategy == s
    {
      strategy := s;
    }

    /** A new host gets a dispatcher of its own. */
    method AddRemoteHost(reqLimit: nat)
      modifies this`clients
      ensures |clients| == |old(clients)| + 1 && clients[..|old(clients)|] == old(clients)
      ensures var added := clients[|old(clients)|];
              fresh(added) && added.reqlimit == reqLimit && added.State() == NEW_DISPATCHER
    {
      var client := new MultiplexClientDispatcher(reqLimit);
      clients := clients + [client];
    }

    method FindMethodByName(name: string) returns (index: Option<nat>)
      ensures index.Some? ==>
                index.value < |methodNames| && methodNames[index.value] == name && name !in methodNames[..index.value]
      ensures index == None ==> name !in methodNames
    {
      for i := 0 to |methodNames|
        invariant name !in methodNames[..i]
      {
        if methodNames[i] == name {
          return Some(i);
        }
      }
      index := None;
    }

    method SelectHost(id: int64, methodName: string) returns (host: nat)
      requires clients != [] && strategy != RANDOM
      ensures host < |clients|
      ensures strategy == ROUND_ROBIN ==> host == RoundRobinIndex(id, |clients|)
      ensures strategy == HASH ==> host == hash(localIp + serviceName + methodName) % |clients|
    {
      if strategy == ROUND_ROBIN {
        host := ToUint64(id) % |clients|;
      } else {
        host := hash(localIp + serviceName + methodName) % |clients|;
      }
    }

    /** Up to the call of the dispatcher. An id is only used up when the method is
        known and there is a host. */
    method CallMethod(methodName: string, payload: seq<byte>) returns (r: Submission)
      requires |methodNames| < TWO_31 && strategy != RANDOM
      modifies this`requestId
      ensures methodName !in methodNames <==> r == NoMethod
      ensures r == NoHosts <==> methodName in methodNames && clients == []
      ensures !r.Submitted? ==> requestId == old(requestId)
      ensures r.Submitted? ==>
                && requestId == ToInt64(old(requestId) + 1)
                && r.host < |clients|
                && (strategy == ROUND_ROBIN ==> r.host == RoundRobinIndex(old(requestId), |clients|))
                && (strategy == HASH ==> r.host == hash(localIp + serviceName + methodName) % |clients|)
                && r.request.msgType == Some(1) && r.request.id == Some(old(requestId))
                && r.request.serviceId == Some(hash(serviceName)) && r.request.methodId.Some?
                && r.request.methodId.value < |methodNames| && methodNames[r.request.methodId.value] == methodName
                && methodName !in methodNames[..r.request.methodId.value]
                && r.request.request == Some(payload) && r.request.response == None
                && r.request.error == None && r.request.unknown == []
    {
      var index := FindMethodByName(methodName);
      if index == None {
        return NoMethod;
      }
      if clients == [] {
        return NoHosts;
      }
      var curReqId := requestId;
      requestId := ToInt64(requestId + 1);
      var request := EMPTY.(msgType := Some(REQUEST), id := Some(curReqId), serviceId := Some(hash(serviceName)),
                            methodId := Some(index.value), request := Some(payload));
      var host := SelectHost(curReqId, methodName);
      r := Submitted(host, request);
    }

    /** Calls made one after the other with the hosts unchanged. Under HASH all calls of
        one method go to one host, whatever their ids and payloads. */
    method CallInTurn(calls: seq<(string, seq<byte>)>) returns (rs: seq<Submission>)
      requires |methodNames| < TWO_31 && strategy != RANDOM
      modifies this`requestId
      ensures |rs| == |calls|
      ensures strategy == HASH ==>
                forall i, j :: 0 <= i < j < |rs| && calls[i].0 == calls[j].0 && rs[i].Submitted? && rs[j].Submitted? ==>
                  rs[i].host == rs[j].host
    {
      rs := [];
      for k := 0 to |calls|
        invariant |rs| == k
        invariant strategy == HASH ==>
                    forall i :: 0 <= i < k && rs[i].Submitted? ==>
                      clients != [] && rs[i].host == hash(localIp + serviceName + calls[i].0) % |clients|
      {
        var r := CallMethod(calls[k].0, calls[k].1);
        rs := rs + [r];
      }
    }
  }

  /** What the caller's promise becomes for the message the dispatcher's future yields. */
  datatype Result = Value(response: seq<byte>) | PendingLimitError | TimeoutError | InvalidRequestError | CallError

  function ResultOf(message: Message): Result {
    var error := message.GetError();
    if error == NO_ERROR then Value(message.GetResponse())
    else if error == PENDING_LIMIT then PendingLimitError
    else if error == TIMEOUT then TimeoutError
    else if error == INVALID_REQUEST then InvalidRequestError
    else CallError
  }

  /** What the promise becomes, by the error code and the response in the message. */
  lemma ResultExactly(m: Message)
    ensures var error: int := if m.error.Some? then m.error.value else 0;
            && (forall b :: ResultOf(m) == Value(b)
                  <==> error == 0 && b == if m.response.Some? then m.response.value else [])
            && (ResultOf(m) == PendingLimitError <==> error == 7)
            && (ResultOf(m) == TimeoutError <==> error == 6)
            && (ResultOf(m) == InvalidRequestError <==> error == 4)
            && (ResultOf(m) == CallError <==> error in {1, 2, 3, 5})
  {
  }

  // ---------- Runs of the whole proxy ----------

  datatype Host = Host(setup: Setup, system: System)

  /** `counter` fetch-and-adds have been made; `drawn` are the ids taken by calls that
      have not reached a dispatcher yet. */
  datatype Proxy = Proxy(counter: nat, drawn: set<nat>, hosts: seq<Host>)

  const NEW_PROXY := Proxy(0, {}, [])

  datatype ProxyEvent =
    | AddHost(setup: Setup)
    | Draw
    | Dispatch(draw: nat, host: nat, caller: nat, request: Message)   // by any strategy
    | AtHost(host: nat, event: Event)

  /** The id of a draw: the counter is a `long` and wraps. */
  function IdOfDraw(draw: nat): int64 { ToInt64(draw) }

  ghost predicate ProxyMoves(p: Proxy, e: ProxyEvent, p': Proxy) {
    match e
    case AddHost(setup) => p' == p.(hosts := p.hosts + [Host(setup, INITIAL)])
    case Draw => p.counter < TWO_64 && p' == p.(counter := p.counter + 1, drawn := p.drawn + {p.counter})
    case Dispatch(d, h, caller, request) =>
      && d in p.drawn && h < |p.hosts| && |p'.hosts| == |p.hosts| && request.GetId() == IdOfDraw(d)
      && Moves(p.hosts[h].system, Act(Enter(caller, request)), p'.hosts[h].system, p.hosts[h].setup)
      && p' == p.(drawn := p.drawn - {d}, hosts := p.hosts[h := Host(p.hosts[h].setup, p'.hosts[h].system)])
    case AtHost(h, event) =>
      && h < |p.hosts| && |p'.hosts| == |p.hosts| && !(event.Act? && event.action.Enter?)
      && Moves(p.hosts[h].system, event, p'.hosts[h].system, p.hosts[h].setup)
      && p' == p.(hosts := p.hosts[h := Host(p.hosts[h].setup, p'.hosts[h].system)])
  }

  ghost predicate IsProxyRun(trace: seq<Proxy>, events: seq<ProxyEvent>) {
    && |trace| == |events| + 1
    && trace[0] == NEW_PROXY
    && forall i :: 0 <= i < |events| ==> ProxyMoves(trace[i], events[i], trace[i + 1])
  }

  /** The field `request_id` runs through the ids of the draws, over the wrap too. */
  lemma CounterFollowsDraws(draw: nat)
    ensures ToInt64(IdOfDraw(draw) + 1) == IdOfDraw(draw + 1)
  {
    SameResidue(IdOfDraw(draw), draw);
  }

  lemma SameResidue(a: int, b: int)
    requires a % TWO_64 == b % TWO_64
    ensures (a + 1) % TWO_64 == (b + 1) % TWO_64
  {
    var k := a / TWO_64 - b / TWO_64;
    assert a == b + TWO_64 * k;
  }

  /** What `CallMethod` submits is a draw followed by a dispatch: if the object's counter
      is at the next draw, both are moves of the proxy, and the counter is then again. */
  lemma SubmissionMoves(p: Proxy, requestId: int64, submitted: Submission, caller: nat)
    returns (drawn: Proxy, after: Proxy)
    requires p.counter < TWO_64 && requestId == IdOfDraw(p.counter)
    requires submitted.Submitted? && submitted.host < |p.hosts| && submitted.request.GetId() == requestId
    requires var host := p.hosts[submitted.host];
             Enabled(host.system, Act(Enter(caller, submitted.request)), host.setup)
    ensures ProxyMoves(p, Draw, drawn)
    ensures ProxyMoves(drawn, Dispatch(p.counter, submitted.host, caller, submitted.request), after)
    ensures ToInt64(requestId + 1) == IdOfDraw(after.counter)
    ensures var before := p.hosts[submitted.host].system.client.calls;
            var calls := after.hosts[submitted.host].system.client.calls;
            calls == before + [Call(caller, submitted.request, Entered, None, Unresolved)]
  {
    var h := submitted.host;
    drawn := p.(counter := p.counter + 1, drawn := p.drawn + {p.counter});
    var system := Next(p.hosts[h].system, Act(Enter(caller, submitted.request)), p.hosts[h].setup);
    after := drawn.(drawn := drawn.drawn - {p.counter}, hosts := p.hosts[h := Host(p.hosts[h].setup, system)]);
    CounterFollowsDraws(p.counter);
  }

  /** Two draws share an id only a full turn of the counter apart. */
  lemma DrawsDistinct(d: nat, e: nat)
    ensures IdOfDraw(d) == IdOfDraw(e) <==> d % TWO_64 == e % TWO_64
  {
    assert ToUint64(IdOfDraw(d)) == d % TWO_64 && ToUint64(IdOfDraw(e)) == e % TWO_64;
  }

  /** The ids at one dispatcher are distinct draws that no call is still holding. */
  ghost predicate HostFresh(calls: seq<Call>, counter: nat, drawn: set<nat>) {
    && UniqueIds(calls)
    && (forall k :: 0 <= k < |calls| ==> ToUint64(calls[k].Id()) < counter && ToUint64(calls[k].Id()) !in drawn)
  }

  ghost predicate Sound(p: Proxy) {
    && p.counter <= TWO_64
    && (forall d :: d in p.drawn ==> d < p.counter)
    && (forall h :: 0 <= h < |p.hosts| ==>
          Reachable(p.hosts[h].system, p.hosts[h].setup)
          && HostFresh(p.hosts[h].system.client.calls, p.counter, p.drawn))
  }

  lemma EnterFresh(calls: seq<Call>, counter: nat, drawn: set<nat>, d: nat, call: Call)
    requires HostFresh(calls, counter, drawn) && d in drawn && d < counter <= TWO_64 && call.Id() == IdOfDraw(d)
    ensures HostFresh(calls + [call], counter, drawn - {d})
  {
    assert ToUint64(call.Id()) == d;
  }

  lemma SameIdsFresh(before: seq<Call>, after: seq<Call>, counter: nat, drawn: set<nat>)
    requires Grown(before, after) && |after| == |before| && HostFresh(before, counter, drawn)
    ensures HostFresh(after, counter, drawn)
  {
    assert forall k :: 0 <= k < |before| ==> Continues(before[k], after[k]);
  }

  lemma OtherStepFresh(s: System, e: Event, s': System, setup: Setup, counter: nat, drawn: set<nat>)
    requires Moves(s, e, s', setup) && !(e.Act? && e.action.Enter?) && HostFresh(s.client.calls, counter, drawn)
    ensures HostFresh(s'.client.calls, counter, drawn)
  {
    ClientMoves(s, e, setup);
    var action := ClientAction(s, e);
    if action.Some? {
      SameCount(s.client, action.value, setup.limit);
      StepGrows(s, e, setup);
      SameIdsFresh(s.client.calls, s'.client.calls, counter, drawn);
    }
  }

  lemma SameCount(c: Dispatcher, a: Action, limit: nat)
    requires Possible(c, a) && !a.Enter?
    ensures |Do(c, a, limit).calls| == |c.calls|
  {
  }

  lemma MovesSound(p: Proxy, e: ProxyEvent, p': Proxy)
    requires ProxyMoves(p, e, p') && Sound(p)
    ensures Sound(p')
  {
    match e
    case AddHost(setup) => InitialReachable(setup);
    case Draw =>
    case Dispatch(d, h, caller, request) =>
      var host := p.hosts[h];
      Extend(host.system, Act(Enter(caller, request)), p'.hosts[h].system, host.setup);
      EnterFresh(host.system.client.calls, p.counter, p.drawn, d, Call(caller, request, Entered, None, Unresolved));
    case AtHost(h, event) =>
      var host := p.hosts[h];
      Extend(host.system, event, p'.hosts[h].system, host.setup);
      OtherStepFresh(host.system, event, p'.hosts[h].system, host.setup, p.counter, p.drawn);
  }

  lemma {:induction false} ProxySound(trace: seq<Proxy>, events: seq<ProxyEvent>, i: nat)
    requires IsProxyRun(trace, events) && i < |trace|
    ensures Sound(trace[i])
    decreases i
  {
    if i > 0 {
      ProxySound(trace, events, i - 1);
      assert ProxyMoves(trace[i - 1], events[i - 1], trace[i - 1 + 1]);
      MovesSound(trace[i - 1], events[i - 1], trace[i]);
    }
  }

  /** In every run of the proxy, hosts being added at any time and requests spread over
      them by any strategy, through up to 2^64 calls, with no request and no answer of
      65535 bytes at the host: an answered call's promise gets the server's result for its
      own service, method and payload, a timed-out one's the timeout and a rejected one's
      the pending limit, each from a message with the call's own id; no call is told that
      its request was invalid; and a write throws only for a request that does not fit. */
  lemma ProxyResults(trace: seq<Proxy>, events: seq<ProxyEvent>, i: nat, h: nat, k: nat)
    requires IsProxyRun(trace, events) && i < |trace| && h < |trace[i].hosts|
    requires k < |trace[i].hosts[h].system.client.calls|
    requires AllTransmissible(trace[i].hosts[h].system.client.calls, trace[i].hosts[h].setup.handler)
    requires trace[i].hosts[h].system.client.calls[k].outcome != Unresolved
    ensures var host := trace[i].hosts[h];
            var call := host.system.client.calls[k];
            match call.outcome
            case Answered(_) =>
              && Yield(call).Some? && Yield(call).value.id == Some(call.request.GetId())
              && ResultOf(Yield(call).value)
                 == Value(host.setup.handler(call.request.GetServiceId(),
                                             call.request.GetMethodId(), call.request.GetRequest()))
            case TimedOut =>
              && Yield(call).Some? && Yield(call).value.id == Some(call.request.GetId())
              && ResultOf(Yield(call).value) == TimeoutError
            case LimitRejected =>
              && Yield(call).Some? && Yield(call).value.id == Some(call.request.GetId())
              && ResultOf(Yield(call).value) == PendingLimitError
            case WriteFailed => Yield(call) == None && !Fits(call.request)
            case _ => false
  {
    ProxySound(trace, events, i);
    var host := trace[i].hosts[h];
    var calls := host.system.client.calls;
    var t, es :| IsRun(t, es, host.setup) && t[|es|] == host.system;
    NoDuplicateWithUniqueIds(t, es, host.setup, |es|, k);
    RunExits(t, es, host.setup, |es|);
    assert ExitRight(calls[k]);
    if calls[k].outcome.Answered? {
      AnsweredFutureYields(t, es, host.setup, |es|, k);
    }
  }

  // ---------- Round robin ----------

  /** How many of `k` consecutive draws go to host `h` of `n`. */
  function Chosen(start: nat, k: nat, n: nat, h: nat): nat
    requires n > 0
  {
    if k == 0 then 0
    else Chosen(start, k - 1, n, h) + (if RoundRobinIndex(IdOfDraw(start + k - 1), n) == h then 1 else 0)
  }

  lemma {:induction false} ChosenSplit(start: nat, a: nat, b: nat, n: nat, h: nat)
    requires n > 0
    ensures Chosen(start, a + b, n, h) == Chosen(start, a, n, h) + Chosen(start + a, b, n, h)
    decreases b
  {
    if b > 0 { ChosenSplit(start, a, b - 1, n, h); }
  }

  /** The counter does not go round within the draws, or does so at the end of a turn. */
  predicate Smooth(draws: nat, n: nat)
    requires n > 0
  {
    draws <= TWO_64 || TWO_64 % n == 0
  }

  /** Then the index is the plain remainder. */
  lemma PlainIndex(draw: nat, n: nat)
    requires n > 0 && Smooth(draw + 1, n)
    ensures RoundRobinIndex(IdOfDraw(draw), n) == draw % n
  {
    assert ToUint64(IdOfDraw(draw)) == draw % TWO_64;
    if draw >= TWO_64 {
      RemainderThrough(draw, TWO_64, n);
    }
  }

  lemma RemainderThrough(x: nat, m: nat, n: nat)
    requires n > 0 && m > 0 && m % n == 0
    ensures (x % m) % n == x % n
  {
    Compose(x, m, n, x / m, x % m, m / n, x % m / n, x % m % n);
  }

  lemma Compose(x: nat, m: nat, n: nat, q: nat, r: nat, s: nat, t: nat, u: nat)
    requires n > 0 && x == m * q + r && m == n * s && r == n * t + u && u < n
    ensures x % n == u
  {
    assert n * s * q == n * (s * q);
    assert n * (s * q + t) == n * (s * q) + n * t;
    ModulusUnique(x, n, s * q + t, u);
  }

  /** The one position within a turn of `n` draws at which `h` is chosen. */
  function Slot(start: nat, n: nat, h: nat): (j: nat)
    requires h < n
    ensures j < n
  {
    if start % n <= h then h - start % n else h + n - start % n
  }

  lemma SlotExact(start: nat, j: nat, n: nat, h: nat)
    requires h < n && j < n
    ensures (start + j) % n == h <==> j == Slot(start, n, h)
  {
    var q, r := start / n, start % n;
    assert start == n * q + r;
    if r + j < n {
      ModulusUnique(start + j, n, q, r + j);
    } else {
      assert start + j == n * (q + 1) + (r + j - n);
      ModulusUnique(start + j, n, q + 1, r + j - n);
    }
  }

  lemma {:induction false} PartTurn(start: nat, k: nat, n: nat, h: nat)
    requires h < n && k <= n && Smooth(start + k, n)
    ensures Chosen(start, k, n, h) == if Slot(start, n, h) < k then 1 else 0
    decreases k
  {
    if k > 0 {
      PartTurn(start, k - 1, n, h);
      PlainIndex(start + k - 1, n);
      SlotExact(start, k - 1, n, h);
    }
  }

  /** `q` whole turns and `r` draws more. */
  function Draws(q: nat, r: nat, n: nat): nat {
    if q == 0 then r else n + Draws(q - 1, r, n)
  }

  lemma {:induction false} DrawsProduct(q: nat, r: nat, n: nat)
    ensures Draws(q, r, n) == q * n + r
  {
    if q > 0 {
      DrawsProduct(q - 1, r, n);
      assert q * n == (q - 1) * n + n;
    }
  }

  lemma WholeTurns(k: nat, n: nat) returns (q: nat, r: nat)
    requires n > 0
    ensures q == k / n && r == k % n < n && Draws(q, r, n) == k
  {
    q, r := k / n, k % n;
    DrawsProduct(q, r, n);
    assert k == n * q + r;
  }

  /** A whole turn gives every host one draw. */
  lemma OneTurn(start: nat, more: nat, n: nat, h: nat)
    requires h < n && Smooth(start + (n + more), n)
    ensures Chosen(start, n + more, n, h) == 1 + Chosen(start + n, more, n, h)
  {
    ChosenSplit(start, n, more, n, h);
    PartTurn(start, n, n, h);
  }

  lemma {:induction false} Turns(start: nat, q: nat, r: nat, n: nat, h: nat)
    requires h < n && r < n && Smooth(start + Draws(q, r, n), n)
    ensures q <= Chosen(start, Draws(q, r, n), n, h) <= q + (if r == 0 then 0 else 1)
    decreases q
  {
    if q == 0 {
      PartTurn(start, r, n, h);
    } else {
      Turns(start + n, q - 1, r, n, h);
      OneTurn(start, Draws(q - 1, r, n), n, h);
    }
  }

  /** Of `k` consecutive draws host `h` of `n` gets its share, give or take one. */
  predicate Balanced(start: nat, k: nat, n: nat, h: nat)
    requires n > 0
  {
    k / n <= Chosen(start, k, n, h) <= k / n + (if k % n == 0 then 0 else 1)
  }

  /** Over any block of consecutive draws before the counter has gone round, with the
      hosts fixed, every host is chosen equally often, give or take one. */
  lemma RoundRobinBalance(start: nat, k: nat, n: nat, h: nat)
    requires h < n && Smooth(start + k, n)
    ensures Balanced(start, k, n, h)
  {
    var q, r := WholeTurns(k, n);
    Turns(start, q, r, n, h);
  }

  lemma LastTurnStarts(n: nat, r: nat)
    requires n > 0 && r == TWO_64 % n
    ensures (TWO_64 - r) % n == 0
  {
    ModulusUnique(TWO_64 - r, n, TWO_64 / n, 0);
  }

  lemma BeforeTheWrap(n: nat, r: nat, h: nat)
    requires h < n && r == TWO_64 % n
    ensures r < n && Chosen(TWO_64 - r, r, n, h) == if h < r then 1 else 0
  {
    LastTurnStarts(n, r);
    PartTurn(TWO_64 - r, r, n, h);
  }

  /** Where the counter goes round in the middle of a turn: the draws just before and
      just after go to the same hosts. */
  lemma AcrossTheWrap(n: nat, r: nat, h: nat)
    requires h < n && r == TWO_64 % n
    ensures Chosen(TWO_64 - r, 2 * r, n, h) == if h < r then 2 else 0
  {
    BeforeTheWrap(n, r, h);
    AcrossFrom(TWO_64 - r, r, n, h);
  }

  lemma AcrossFrom(start: nat, r: nat, n: nat, h: nat)
    requires h < n && r < n && start + r == TWO_64
    requires Chosen(start, r, n, h) == if h < r then 1 else 0
    ensures Chosen(start, 2 * r, n, h) == if h < r then 2 else 0
  {
    ChosenSplit(start, r, r, n, h);
    AfterTheWrap(r, n, h);
    assert r + r == 2 * r;
  }

  lemma {:induction false} AfterTheWrap(k: nat, n: nat, h: nat)
    requires h < n && k <= n && k <= TWO_64
    ensures Chosen(TWO_64, k, n, h) == Chosen(0, k, n, h)
    ensures Chosen(0, k, n, h) == if h < k then 1 else 0
    decreases k
  {
    if k > 0 {
      AfterTheWrap(k - 1, n, h);
      DrawsDistinct(TWO_64 + k - 1, k - 1);
      WrapRemainder(k - 1);
      PlainIndex(k - 1, n);
      ModulusUnique(k - 1, n, 0, k - 1);
    }
  }

  lemma WrapRemainder(x: nat)
    ensures (TWO_64 + x) % TWO_64 == x % TWO_64
  {
  }

  /** All blocks of draws are balanced, however far the counter goes, if and only if the
      number of hosts divides 2^64. */
  lemma BalancedExactlyWhen(n: nat)
    requires 0 < n <= TWO_64
    ensures (forall start: nat, k: nat, h: nat :: h < n ==> Balanced(start, k, n, h)) <==> TWO_64 % n == 0
  {
    if TWO_64 % n == 0 {
      forall start: nat, k: nat, h: nat | h < n
        ensures Balanced(start, k, n, h)
      {
        RoundRobinBalance(start, k, n, h);
      }
    } else {
      var r := TWO_64 % n;
      var start: nat := TWO_64 - r;
      if 2 * r <= n {
        AcrossTheWrap(n, r, 0);
        ShareOf(2 * r, n);
        assert !Balanced(start, 2 * r, n, 0);
      } else {
        AcrossTheWrap(n, r, n - 1);
        ShareOf(2 * r, n);
        assert !Balanced(start, 2 * r, n, n - 1);
      }
    }
  }

  lemma ShareOf(k: nat, n: nat)
    requires 0 < k < 2 * n
    ensures k < n ==> k / n == 0
    ensures k >= n ==> k / n == 1
    ensures k == n ==> k % n == 0
  {
    if k >= n {
      ModulusUnique(k, n, 1, k - n);
      assert k == n * (k / n) + (k - n);
      assert n * (k / n) == n;
    } else {
      ModulusUnique(k, n, 0, k);
      assert n * (k / n) == 0;
    }
  }

  /** Of three hosts the first is chosen twice in a row. */
  lemma BalanceEndsAtWrap()
    ensures Chosen(TWO_64 - 1, 2, 3, 0) == 2
  {
    AcrossTheWrap(3, 1, 0);
  }
}
