/** One client dispatcher, one connection and one server, as a step system: many
    callers, bytes under way in both directions and read in any portions, a server that
    answers in any order, and timers. The theorems are about every run. */
module Multiplexing {
  import opened MachineInt
  import opened Message
  import opened ClientDispatcher
  import opened RpcServer
  import W = WireStack

  /** `workers` are the requests the server's pool is executing, `inbox` the messages of
      the client's last read that its dispatcher has not seen yet. */
  datatype System = System(client: Dispatcher, requests: W.Link, workers: seq<Message>,
                           responses: W.Link, inbox: seq<Message>)

  const INITIAL := System(NEW_DISPATCHER, W.QUIET, [], W.QUIET, [])

  datatype Event =
    | Act(action: Action)         // any dispatcher step but Find, which Deliver does
    | ServerRead(size: nat)       // the requests completed by it reach workers
    | Finish(worker: nat)         // any worker finishes; its response is written if it can be
    | ClientRead(size: nat)       // once all of the last read has been handled
    | Deliver                     // the next message of the read reaches the dispatcher

  /** The fixed circumstances of a run. */
  datatype Setup = Setup(limit: nat, callers: nat, handler: Handler)

  /** A thread makes one call at a time. */
  ghost predicate CallerFree(c: Dispatcher, caller: nat) {
    forall k :: 0 <= k < |c.calls| && c.calls[k].caller == caller ==> !c.calls[k].InProgress()
  }

  /** The prepender takes it. */
  predicate Fits(m: Message) { W.OnWire(m).Written? }

  ghost predicate Enabled(s: System, e: Event, setup: Setup) {
    match e
    case Act(a) =>
      && Possible(s.client, a) && !a.Find?
      && (a.Enter? ==> a.caller < setup.callers && CallerFree(s.client, a.caller))
      && (a.Send? ==> Fits(s.client.calls[a.k].request))
      && (a.Throw? ==> !Fits(s.client.calls[a.k].request))
    case ServerRead(n) => 0 < n <= |s.requests.wire|
    case Finish(w) => w < |s.workers|
    case ClientRead(n) => 0 < n <= |s.responses.wire| && s.inbox == [] && s.client.reader.Idle?
    case Deliver => s.inbox != [] && Possible(s.client, Find(s.inbox[0]))
  }

  function Next(s: System, e: Event, setup: Setup): System
    requires Enabled(s, e, setup)
  {
    match e
    case Act(a) =>
      s.(client := Do(s.client, a, setup.limit),
         requests := if a.Send? then W.Put(s.requests, s.client.calls[a.k].request) else s.requests)
    case ServerRead(n) =>
      var (ms, link) := W.Take(s.requests, n);
      s.(requests := link, workers := s.workers + ms)
    case Finish(w) =>
      s.(workers := s.workers[..w] + s.workers[w + 1..],
         responses := W.Put(s.responses, Respond(s.workers[w], setup.handler)))
    case ClientRead(n) =>
      var (ms, link) := W.Take(s.responses, n);
      s.(responses := link, inbox := ms)
    case Deliver => s.(client := Do(s.client, Find(s.inbox[0]), setup.limit), inbox := s.inbox[1..])
  }

  ghost predicate Moves(s: System, e: Event, s': System, setup: Setup) {
    Enabled(s, e, setup) && s' == Next(s, e, setup)
  }

  /** What an event does to the dispatcher, if anything. */
  function ClientAction(s: System, e: Event): Option<Action> {
    match e
    case Act(a) => Some(a)
    case Deliver => if s.inbox != [] then Some(Find(s.inbox[0])) else None
    case _ => None
  }

  lemma ClientMoves(s: System, e: Event, setup: Setup)
    requires Enabled(s, e, setup)
    ensures match ClientAction(s, e)
            case Some(a) => Possible(s.client, a) && Next(s, e, setup).client == Do(s.client, a, setup.limit)
            case None => Next(s, e, setup).client == s.client
  {
  }

  ghost predicate IsRun(trace: seq<System>, events: seq<Event>, setup: Setup) {
    && |trace| == |events| + 1
    && trace[0] == INITIAL
    && forall i :: 0 <= i < |events| ==> Moves(trace[i], events[i], trace[i + 1], setup)
  }

  // ---------- Matching ----------

  /** The call's request has gone out. */
  predicate WasSent(call: Call) {
    call.At(Sent)
    || (call.phase == Returned && (call.outcome.Unresolved? || call.outcome.Answered? || call.outcome.TimedOut?))
  }

  /** `q` was sent by some caller. */
  ghost predicate IsRequest(calls: seq<Call>, q: Message) {
    Fits(q) && exists j :: 0 <= j < |calls| && WasSent(calls[j]) && calls[j].request == q
  }

  /** `m` is what the server computes for a sent request with this id, and it fits. */
  ghost predicate IsAnswer(calls: seq<Call>, m: Message, id: int64, handler: Handler) {
    exists j :: 0 <= j < |calls| && AnswerTo(calls[j], m, id, handler)
  }

  predicate AnswerTo(call: Call, m: Message, id: int64, handler: Handler) {
    WasSent(call) && m == Respond(call.request, handler) && call.Id() == id && Fits(m)
  }

  ghost predicate AllRequests(calls: seq<Call>, qs: seq<Message>) {
    forall q :: q in qs ==> IsRequest(calls, q)
  }

  ghost predicate AllAnswers(calls: seq<Call>, ms: seq<Message>, handler: Handler) {
    forall m :: m in ms ==> IsAnswer(calls, m, m.GetId(), handler)
  }

  ghost predicate RightAnswers(calls: seq<Call>, handler: Handler) {
    forall k :: 0 <= k < |calls| ==>
      && (calls[k].promise.Some? ==> IsAnswer(calls, calls[k].promise.value, calls[k].Id(), handler))
      && (calls[k].outcome.Answered? ==> IsAnswer(calls, calls[k].outcome.response, calls[k].Id(), handler))
  }

  ghost predicate ReaderMatches(c: Dispatcher, handler: Handler) {
    !c.reader.Idle? ==>
      && c.reader.call < |c.calls|
      && c.calls[c.reader.call].Id() == c.reader.response.GetId()
      && IsAnswer(c.calls, c.reader.response, c.calls[c.reader.call].Id(), handler)
  }

  /** What is under way and what is being worked on. */
  ghost predicate RequestsRight(s: System) {
    && AllRequests(s.client.calls, s.workers)
    && exists ms :: W.Flow(s.requests, ms) && AllRequests(s.client.calls, ms)
  }

  ghost predicate ResponsesRight(s: System, handler: Handler) {
    && AllAnswers(s.client.calls, s.inbox, handler)
    && exists ms :: W.Flow(s.responses, ms) && AllAnswers(s.client.calls, ms, handler)
  }

  ghost predicate PendingPoints(c: Dispatcher) {
    forall id :: id in c.pending ==> c.pending[id] < |c.calls| && c.calls[c.pending[id]].Id() == id
  }

  ghost predicate Matched(s: System, handler: Handler) {
    && PendingPoints(s.client)
    && RightAnswers(s.client.calls, handler)
    && ReaderMatches(s.client, handler)
    && RequestsRight(s)
    && ResponsesRight(s, handler)
  }

  /** What can be checked of a request, and of the server's answer to it if it is sent:
      that it has no unknown fields that read as others, and that neither serializes to
      65535 bytes or beyond the range of `int`. */
  predicate Transmissible(request: Message, handler: Handler) {
    request.Encodable() && W.SafeSize(request) && (Fits(request) ==> W.SafeSize(Respond(request, handler)))
  }

  ghost predicate AllTransmissible(calls: seq<Call>, handler: Handler) {
    forall k :: 0 <= k < |calls| ==> Transmissible(calls[k].request, handler)
  }

  /** Calls are only ever added, keep their request and caller, and stay sent. */
  ghost predicate Grown(before: seq<Call>, after: seq<Call>) {
    && |before| <= |after|
    && forall j :: 0 <= j < |before| ==> Continues(before[j], after[j])
  }

  predicate Continues(before: Call, after: Call) {
    after.request == before.request && after.caller == before.caller && (WasSent(before) ==> WasSent(after))
  }

  /** What a step does to a call that is there already. */
  lemma OneCallChanges(c: Dispatcher, a: Action, limit: nat, k: nat)
    requires Possible(c, a) && k < |c.calls|
    ensures var before, after := c.calls[k], Do(c, a, limit).calls[k];
            match a
            case CheckLimit(j) =>
              after == if j != k then before
              else if |c.pending| >= limit then Rejected(before, LimitRejected)
              else before.(phase := Checked)
            case Insert(j) =>
              after == if j != k then before
              else if before.Id() in c.pending then Rejected(before, DuplicateRejected)
              else before.(phase := Inserted)
            case Send(j) => after == if j != k then before else before.(phase := Sent)
            case Throw(j) => after == if j != k then before else Rejected(before, WriteFailed)
            case Arm(j) => after == if j != k then before else ArmedCall(before)
            case Fire(j) => after == if j != k then before else before.(outcome := TimedOut)
            case SetValue => after == if c.reader.call != k then before else Fulfilled(before, c.reader.response)
            case _ => after == before
  {
  }

  lemma DoGrows(c: Dispatcher, a: Action, limit: nat)
    requires Possible(c, a)
    ensures Grown(c.calls, Do(c, a, limit).calls)
  {
    var after := Do(c, a, limit).calls;
    forall j | 0 <= j < |c.calls|
      ensures Continues(c.calls[j], after[j])
    {
      OneCallChanges(c, a, limit, j);
    }
  }

  lemma AnswerStays(before: seq<Call>, after: seq<Call>, m: Message, id: int64, handler: Handler)
    requires Grown(before, after) && IsAnswer(before, m, id, handler)
    ensures IsAnswer(after, m, id, handler)
  {
    var j :| 0 <= j < |before| && AnswerTo(before[j], m, id, handler);
    assert Continues(before[j], after[j]);
    assert AnswerTo(after[j], m, id, handler);
  }

  lemma RequestStays(before: seq<Call>, after: seq<Call>, q: Message)
    requires Grown(before, after) && IsRequest(before, q)
    ensures IsRequest(after, q)
  {
    var j :| 0 <= j < |before| && WasSent(before[j]) && before[j].request == q;
    assert Continues(before[j], after[j]);
    assert WasSent(after[j]) && after[j].request == q;
  }

  lemma RequestsStay(calls: seq<Call>, after: seq<Call>, qs: seq<Message>)
    requires Grown(calls, after) && AllRequests(calls, qs)
    ensures AllRequests(after, qs)
  {
    forall q | q in qs
      ensures IsRequest(after, q)
    {
      RequestStays(calls, after, q);
    }
  }

  lemma ResponsesStay(calls: seq<Call>, after: seq<Call>, ms: seq<Message>, handler: Handler)
    requires Grown(calls, after) && AllAnswers(calls, ms, handler)
    ensures AllAnswers(after, ms, handler)
  {
    forall m | m in ms
      ensures IsAnswer(after, m, m.GetId(), handler)
    {
      AnswerStays(calls, after, m, m.GetId(), handler);
    }
  }

  lemma TrafficStays(s: System, client: Dispatcher, handler: Handler)
    requires RequestsRight(s) && ResponsesRight(s, handler) && Grown(s.client.calls, client.calls)
    ensures RequestsRight(s.(client := client)) && ResponsesRight(s.(client := client), handler)
  {
    var qs :| W.Flow(s.requests, qs) && AllRequests(s.client.calls, qs);
    var ms :| W.Flow(s.responses, ms) && AllAnswers(s.client.calls, ms, handler);
    RequestsStay(s.client.calls, client.calls, s.workers);
    RequestsStay(s.client.calls, client.calls, qs);
    ResponsesStay(s.client.calls, client.calls, s.inbox, handler);
    ResponsesStay(s.client.calls, client.calls, ms, handler);
  }

  lemma AnswersStay(c: Dispatcher, a: Action, limit: nat, handler: Handler)
    requires Possible(c, a) && RightAnswers(c.calls, handler) && ReaderMatches(c, handler)
    requires a.Find? ==> IsAnswer(c.calls, a.response, a.response.GetId(), handler) && PendingPoints(c)
    ensures RightAnswers(Do(c, a, limit).calls, handler) && ReaderMatches(Do(c, a, limit), handler)
  {
    var c' := Do(c, a, limit);
    DoGrows(c, a, limit);
    forall k | 0 <= k < |c'.calls|
      ensures c'.calls[k].promise.Some? ==> IsAnswer(c'.calls, c'.calls[k].promise.value, c'.calls[k].Id(), handler)
      ensures c'.calls[k].outcome.Answered? ==>
                IsAnswer(c'.calls, c'.calls[k].outcome.response, c'.calls[k].Id(), handler)
    {
      if c'.calls[k].promise.Some? { AnswerHeld(c, a, limit, k, c'.calls[k].promise.value, handler); }
      if c'.calls[k].outcome.Answered? { AnswerHeld(c, a, limit, k, c'.calls[k].outcome.response, handler); }
    }
    if !c'.reader.Idle? {
      AnswerStays(c.calls, c'.calls, c'.reader.response, c'.reader.response.GetId(), handler);
    }
  }

  /** A response held by a call after a step was held by it, or by the reader for it,
      before. */
  lemma HeldBefore(c: Dispatcher, a: Action, limit: nat, k: nat, m: Message)
    requires Possible(c, a) && k < |Do(c, a, limit).calls|
    requires var call := Do(c, a, limit).calls[k];
             call.promise == Some(m) || call.outcome == Answered(m)
    ensures k < |c.calls|
    ensures || c.calls[k].promise == Some(m)
            || c.calls[k].outcome == Answered(m)
            || (!c.reader.Idle? && c.reader.call == k && c.reader.response == m)
  {
    if k < |c.calls| { OneCallChanges(c, a, limit, k); }
  }

  lemma AnswerHeld(c: Dispatcher, a: Action, limit: nat, k: nat, m: Message, handler: Handler)
    requires Possible(c, a) && RightAnswers(c.calls, handler) && ReaderMatches(c, handler)
    requires k < |Do(c, a, limit).calls|
    requires var call := Do(c, a, limit).calls[k];
             call.promise == Some(m) || call.outcome == Answered(m)
    ensures IsAnswer(Do(c, a, limit).calls, m, Do(c, a, limit).calls[k].Id(), handler)
  {
    DoGrows(c, a, limit);
    HeldBefore(c, a, limit, k, m);
    AnswerStays(c.calls, Do(c, a, limit).calls, m, c.calls[k].Id(), handler);
  }

  lemma PendingStays(c: Dispatcher, a: Action, limit: nat)
    requires Possible(c, a) && PendingPoints(c)
    ensures PendingPoints(Do(c, a, limit))
  {
  }

  /** A dispatcher step keeps the client's side, and what is under way still matches. */
  lemma ActionMatched(s: System, a: Action, setup: Setup)
    requires Possible(s.client, a) && Matched(s, setup.handler)
    requires a.Find? ==> IsAnswer(s.client.calls, a.response, a.response.GetId(), setup.handler)
    ensures Matched(s.(client := Do(s.client, a, setup.limit)), setup.handler)
  {
    var client := Do(s.client, a, setup.limit);
    DoGrows(s.client, a, setup.limit);
    PendingStays(s.client, a, setup.limit);
    AnswersStay(s.client, a, setup.limit, setup.handler);
    TrafficStays(s, client, setup.handler);
  }

  lemma SendMatched(s: System, q: Message, handler: Handler)
    requires Matched(s, handler) && Fits(q) && Transmissible(q, handler) && IsRequest(s.client.calls, q)
    ensures Matched(s.(requests := W.Put(s.requests, q)), handler)
  {
    var qs :| W.Flow(s.requests, qs) && AllRequests(s.client.calls, qs);
    W.PutFlows(s.requests, q, qs);
    assert AllRequests(s.client.calls, qs + [q]);
  }

  lemma RequestsParts(calls: seq<Call>, qs: seq<Message>, j: nat)
    requires AllRequests(calls, qs) && j <= |qs|
    ensures AllRequests(calls, qs[..j]) && AllRequests(calls, qs[j..])
  {
  }

  lemma RequestsAppend(calls: seq<Call>, qs: seq<Message>, more: seq<Message>)
    requires AllRequests(calls, qs) && AllRequests(calls, more)
    ensures AllRequests(calls, qs + more)
  {
  }

  lemma AnswersParts(calls: seq<Call>, ms: seq<Message>, j: nat, handler: Handler)
    requires AllAnswers(calls, ms, handler) && j <= |ms|
    ensures AllAnswers(calls, ms[..j], handler) && AllAnswers(calls, ms[j..], handler)
  {
  }

  lemma ServerReadMatched(s: System, n: nat, setup: Setup)
    requires Enabled(s, ServerRead(n), setup) && RequestsRight(s)
    ensures RequestsRight(Next(s, ServerRead(n), setup))
  {
    var qs :| W.Flow(s.requests, qs) && AllRequests(s.client.calls, qs);
    var j := W.TakeFlows(s.requests, n, qs);
    RequestsParts(s.client.calls, qs, j);
    RequestsAppend(s.client.calls, s.workers, qs[..j]);
    assert W.Flow(W.Take(s.requests, n).1, qs[j..]);
  }

  lemma ClientReadMatched(s: System, n: nat, setup: Setup)
    requires Enabled(s, ClientRead(n), setup) && ResponsesRight(s, setup.handler)
    ensures ResponsesRight(Next(s, ClientRead(n), setup), setup.handler)
  {
    var ms :| W.Flow(s.responses, ms) && AllAnswers(s.client.calls, ms, setup.handler);
    var j := W.TakeFlows(s.responses, n, ms);
    AnswersParts(s.client.calls, ms, j, setup.handler);
    assert W.Flow(W.Take(s.responses, n).1, ms[j..]);
  }

  lemma ResponseEncodable(request: Message, handler: Handler)
    requires W.SafeSize(Respond(request, handler))
    ensures Respond(request, handler).Encodable()
  {
    var m := Respond(request, handler);
    W.ResponseWithin(m);
  }

  /** A response that fits goes out and is right; one that does not leaves no trace. */
  lemma FinishMatched(s: System, w: nat, setup: Setup)
    requires Enabled(s, Finish(w), setup) && ResponsesRight(s, setup.handler) && RequestsRight(s)
    requires AllTransmissible(s.client.calls, setup.handler)
    ensures ResponsesRight(Next(s, Finish(w), setup), setup.handler)
  {
    assert s.workers[w] in s.workers;
    AnswerRight(s.client.calls, s.workers[w], setup.handler);
    ResponsePut(s, Respond(s.workers[w], setup.handler), setup.handler);
  }

  lemma ResponsePut(s: System, m: Message, handler: Handler)
    requires ResponsesRight(s, handler) && W.SafeSize(m) && m.Encodable()
    requires Fits(m) ==> IsAnswer(s.client.calls, m, m.GetId(), handler)
    ensures ResponsesRight(s.(responses := W.Put(s.responses, m)), handler)
  {
    var ms :| W.Flow(s.responses, ms) && AllAnswers(s.client.calls, ms, handler);
    W.PutFlows(s.responses, m, ms);
    if Fits(m) {
      AnswersAppend(s.client.calls, ms, m, handler);
    }
  }

  lemma AnswerRight(calls: seq<Call>, q: Message, handler: Handler)
    requires IsRequest(calls, q) && AllTransmissible(calls, handler)
    ensures var m := Respond(q, handler);
            W.SafeSize(m) && m.Encodable() && (Fits(m) ==> IsAnswer(calls, m, m.GetId(), handler))
  {
    var j :| 0 <= j < |calls| && WasSent(calls[j]) && calls[j].request == q;
    var m := Respond(q, handler);
    assert Transmissible(calls[j].request, handler);
    ResponseEncodable(q, handler);
    assert Fits(m) ==> AnswerTo(calls[j], m, m.GetId(), handler);
  }

  lemma AnswersAppend(calls: seq<Call>, ms: seq<Message>, m: Message, handler: Handler)
    requires AllAnswers(calls, ms, handler) && IsAnswer(calls, m, m.GetId(), handler)
    ensures AllAnswers(calls, ms + [m], handler)
  {
  }

  lemma FinishKeepsRequests(s: System, w: nat, setup: Setup)
    requires Enabled(s, Finish(w), setup) && RequestsRight(s)
    ensures RequestsRight(Next(s, Finish(w), setup))
  {
    var s' := Next(s, Finish(w), setup);
    assert forall q :: q in s'.workers ==> q in s.workers;
  }

  lemma ActMatched(s: System, a: Action, setup: Setup)
    requires Enabled(s, Act(a), setup) && Matched(s, setup.handler) && AllTransmissible(s.client.calls, setup.handler)
    ensures Matched(Next(s, Act(a), setup), setup.handler)
  {
    ActionMatched(s, a, setup);
    if a.Send? {
      var between := s.(client := Do(s.client, a, setup.limit));
      var q := s.client.calls[a.k].request;
      assert Transmissible(s.client.calls[a.k].request, setup.handler);
      assert WasSent(between.client.calls[a.k]) && between.client.calls[a.k].request == q;
      SendMatched(between, q, setup.handler);
    }
  }

  lemma DeliverMatched(s: System, setup: Setup)
    requires Enabled(s, Deliver, setup) && Matched(s, setup.handler)
    ensures Matched(Next(s, Deliver, setup), setup.handler)
  {
    assert s.inbox[0] in s.inbox;
    ActionMatched(s, Find(s.inbox[0]), setup);
  }

  lemma StepMatched(s: System, e: Event, setup: Setup)
    requires Enabled(s, e, setup) && Matched(s, setup.handler) && AllTransmissible(s.client.calls, setup.handler)
    ensures Matched(Next(s, e, setup), setup.handler)
  {
    match e
    case Act(a) => ActMatched(s, a, setup);
    case ServerRead(n) => ServerReadMatched(s, n, setup);
    case Finish(w) =>
      FinishMatched(s, w, setup);
      FinishKeepsRequests(s, w, setup);
    case ClientRead(n) => ClientReadMatched(s, n, setup);
    case Deliver => DeliverMatched(s, setup);
  }

  lemma StepGrows(s: System, e: Event, setup: Setup)
    requires Enabled(s, e, setup)
    ensures Grown(s.client.calls, Next(s, e, setup).client.calls)
  {
    ClientMoves(s, e, setup);
    var action := ClientAction(s, e);
    if action.Some? { DoGrows(s.client, action.value, setup.limit); }
  }

  lemma TransmissibleBefore(before: seq<Call>, after: seq<Call>, handler: Handler)
    requires Grown(before, after) && AllTransmissible(after, handler)
    ensures AllTransmissible(before, handler)
  {
    forall k | 0 <= k < |before|
      ensures Transmissible(before[k].request, handler)
    {
      assert Continues(before[k], after[k]);
      assert Transmissible(after[k].request, handler);
    }
  }

  lemma InitialMatched(handler: Handler)
    ensures Matched(INITIAL, handler)
  {
    var none: seq<Message> := [];
    assert W.Flow(W.QUIET, none);
  }

  /** As long as no request and no answer has a length that only one side accepts. */
  lemma {:induction false} RunMatched(trace: seq<System>, events: seq<Event>, setup: Setup, i: nat)
    requires IsRun(trace, events, setup) && i < |trace| && AllTransmissible(trace[i].client.calls, setup.handler)
    ensures Matched(trace[i], setup.handler)
    decreases i
  {
    if i == 0 {
      InitialMatched(setup.handler);
    } else {
      assert Moves(trace[i - 1], events[i - 1], trace[i - 1 + 1], setup);
      StepGrows(trace[i - 1], events[i - 1], setup);
      TransmissibleBefore(trace[i - 1].client.calls, trace[i].client.calls, setup.handler);
      RunMatched(trace, events, setup, i - 1);
      StepMatched(trace[i - 1], events[i - 1], setup);
    }
  }

  ghost predicate UniqueIds(calls: seq<Call>) {
    forall j, k :: 0 <= j < k < |calls| ==> calls[j].Id() != calls[k].Id()
  }

  /** In every run, with ids unique among the calls of the dispatcher and no request or
      answer of 65535 bytes, a call that is answered is answered with what the server
      computes for its own service, method and payload. */
  lemma OwnAnswer(trace: seq<System>, events: seq<Event>, setup: Setup, i: nat, k: nat)
    requires IsRun(trace, events, setup) && i < |trace| && k < |trace[i].client.calls|
    requires UniqueIds(trace[i].client.calls) && AllTransmissible(trace[i].client.calls, setup.handler)
    requires trace[i].client.calls[k].outcome.Answered?
    ensures trace[i].client.calls[k].outcome.response == Respond(trace[i].client.calls[k].request, setup.handler)
  {
    RunMatched(trace, events, setup, i);
    var calls := trace[i].client.calls;
    assert RightAnswers(calls, setup.handler);
    var j :| 0 <= j < |calls| && AnswerTo(calls[j], calls[k].outcome.response, calls[k].Id(), setup.handler);
    assert j == k;
  }

  // ---------- Registered services ----------

  /** The request names a method of the last service registered under its service id. */
  predicate NamesMethod(request: Message, ops: seq<Operation>, hash: string -> uint32) {
    var service := LastRegistered(ops, request.GetServiceId(), hash);
    && service.Some? && request.GetMethodId() < |service.value.methods|
    && service.value.methods[request.GetMethodId()] != NULL_METHOD
  }

  ghost predicate AllRegistered(calls: seq<Call>, ops: seq<Operation>, hash: string -> uint32) {
    forall k :: 0 <= k < |calls| ==> NamesMethod(calls[k].request, ops, hash)
  }

  ghost predicate AllAllowed(ops: seq<Operation>) { forall op :: op in ops ==> Allowed(op) }

  /** In every run whose calls all name registered methods, and whose requests and
      answers avoid the unsafe lengths, every request that a worker gets names one too:
      the handler never follows a null pointer. */
  lemma WorkersFindMethods(trace: seq<System>, events: seq<Event>, setup: Setup, i: nat,
                           ops: seq<Operation>, hash: string -> uint32, q: Message)
    requires IsRun(trace, events, setup) && i < |trace| && AllTransmissible(trace[i].client.calls, setup.handler)
    requires AllAllowed(ops) && AllRegistered(trace[i].client.calls, ops, hash) && q in trace[i].workers
    ensures RpcServer.Found(PerformAll(ops, hash), q.GetServiceId(), q.GetMethodId()).Some?
  {
    RunMatched(trace, events, setup, i);
    var calls := trace[i].client.calls;
    assert IsRequest(calls, q);
    var j :| 0 <= j < |calls| && WasSent(calls[j]) && calls[j].request == q;
    assert NamesMethod(calls[j].request, ops, hash);
    RegisteredIsFound(ops, q.GetServiceId(), q.GetMethodId(), hash);
  }

  /** If the server's table is the result of some registrations and lookups, and all calls
      of the run name registered methods, the answer is the result of the method with the
      call's index of the last service registered under the call's service id, run on the
      call's payload. */
  lemma RegisteredAnswer(trace: seq<System>, events: seq<Event>, setup: Setup, i: nat, k: nat,
                         ops: seq<Operation>, hash: string -> uint32, execute: Execute)
    requires IsRun(trace, events, setup) && i < |trace| && k < |trace[i].client.calls|
    requires UniqueIds(trace[i].client.calls) && AllTransmissible(trace[i].client.calls, setup.handler)
    requires AllAllowed(ops) && AllRegistered(trace[i].client.calls, ops, hash)
    requires setup.handler == HandlerOf(PerformAll(ops, hash), execute)
    requires trace[i].client.calls[k].outcome.Answered?
    ensures NamesMethod(trace[i].client.calls[k].request, ops, hash)
    ensures var call := trace[i].client.calls[k];
            var response := call.outcome.response;
            var service := LastRegistered(ops, call.request.GetServiceId(), hash).value;
            && response.response
               == Some(execute(service, service.methods[call.request.GetMethodId()], call.request.GetRequest()))
            && response.msgType == Some(2) && response.id == Some(call.request.GetId())
            && response.serviceId == Some(call.request.GetServiceId())
            && response.methodId == Some(call.request.GetMethodId())
            && response.error == Some(0) && response.request == None && response.unknown == []
  {
    OwnAnswer(trace, events, setup, i, k);
    var request := trace[i].client.calls[k].request;
    assert NamesMethod(request, ops, hash);
    RegisteredIsFound(ops, request.GetServiceId(), request.GetMethodId(), hash);
  }
}
