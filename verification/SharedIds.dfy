/** Why ids must be unique per dispatcher: what happens to two calls that share one,
    as two channels on one client, each counting from zero, can make them. */
module SharedIds {
  import opened MachineInt
  import opened Message
  import opened ClientDispatcher
  import opened RpcServer
  import opened Multiplexing
  import opened Runs
  import opened CallOutcomes
  import W = WireStack

  /** `a` reaches the server, which answers, but the timer is faster than the answer. */
  lemma FirstTimesOut(a: Message, setup: Setup) returns (s: System)
    requires setup.limit > 0 && setup.callers > 0
    requires W.Sendable(a) && Fits(a) && Fits(Respond(a, setup.handler))
    ensures Reachable(s, setup)
    ensures s == INITIAL.(client := Dispatcher([Call(0, a, Returned, None, TimedOut)], map[], Idle),
                          responses := W.Link(W.OnWire(Respond(a, setup.handler)).bytes, []))
  {
    s := FirstIsServed(a, setup);
    s := Go(s, Act(Fire(0)), s.(client := Dispatcher([Call(0, a, Returned, None, TimedOut)], map[], Idle)), setup);
  }

  /** A second call finds the id free again. */
  lemma SecondIsInserted(s: System, first: Call, b: Message, setup: Setup) returns (s': System)
    requires Reachable(s, setup) && s.client == Dispatcher([first], map[], Idle) && !first.InProgress()
    requires setup.limit > 0 && setup.callers > 0
    ensures Reachable(s', setup)
    ensures s' == s.(client := Dispatcher([first, Call(0, b, Inserted, None, Unresolved)], map[b.GetId() := 1], Idle))
  {
    var second := Call(0, b, Entered, None, Unresolved);
    s' := Go(s, Act(Enter(0, b)), s.(client := Dispatcher([first, second], map[], Idle)), setup);
    s' := Go(s', Act(CheckLimit(1)), s.(client := Dispatcher([first, second.(phase := Checked)], map[], Idle)), setup);
    s' := Go(s', Act(Insert(1)),
             s.(client := Dispatcher([first, second.(phase := Inserted)], map[b.GetId() := 1], Idle)), setup);
  }

  /** It waits while the first one's answer arrives. */
  lemma SecondWaits(s: System, first: Call, b: Message, setup: Setup) returns (s': System)
    requires Reachable(s, setup) && s.client == Dispatcher([first], map[], Idle) && !first.InProgress()
    requires setup.limit > 0 && setup.callers > 0 && Fits(b) && s.requests == W.QUIET
    ensures Reachable(s', setup)
    ensures s' == s.(client := Dispatcher([first, Call(0, b, Returned, None, Unresolved)], map[b.GetId() := 1], Idle),
                     requests := W.Link(W.OnWire(b).bytes, []))
  {
    s' := SecondIsInserted(s, first, b, setup);
    PutQuiet(b);
    var id, second, up := b.GetId(), Call(0, b, Inserted, None, Unresolved), W.Link(W.OnWire(b).bytes, []);
    s' := Go(s', Act(Send(1)),
             s.(client := Dispatcher([first, second.(phase := Sent)], map[id := 1], Idle), requests := up), setup);
    s' := Go(s', Act(Arm(1)),
             s.(client := Dispatcher([first, second.(phase := Returned)], map[id := 1], Idle), requests := up), setup);
  }

  /** For any two requests with one id that can be delivered, the first one with its
      answer, some run answers the second call with the result of the first. */
  lemma SharedIdsConfuse(a: Message, b: Message, setup: Setup) returns (s: System)
    requires a.GetId() == b.GetId() && setup.limit > 0 && setup.callers > 0
    requires W.Sendable(a) && W.Sendable(Respond(a, setup.handler)) && W.Sendable(b)
    ensures Reachable(s, setup) && |s.client.calls| == 2
    ensures s.client.calls[0].request == a && s.client.calls[1].request == b
    ensures s.client.calls[1].outcome == Answered(Respond(a, setup.handler))
  {
    var m := Respond(a, setup.handler);
    W.SendableIsWritten(a);
    W.SendableIsWritten(b);
    W.SendableIsWritten(m);
    s := FirstTimesOut(a, setup);
    s := SecondWaits(s, s.client.calls[0], b, setup);
    s := ClientReadsAll(s, m, setup);
    s := AnswerArrives(s, 1, m, setup);
  }

  // ---------- When every answer is the caller's own ----------

  ghost predicate CallsFrom(s: System, requests: set<Message>) {
    forall k :: 0 <= k < |s.client.calls| ==> s.client.calls[k].request in requests
  }

  /** Every answered call has the answer to its own request. */
  ghost predicate AllOwn(s: System, handler: Handler) {
    forall k :: 0 <= k < |s.client.calls| && s.client.calls[k].outcome.Answered? ==>
      s.client.calls[k].outcome.response == Respond(s.client.calls[k].request, handler)
  }

  ghost predicate AllRunsOwn(requests: set<Message>, setup: Setup) {
    forall s :: Reachable(s, setup) && CallsFrom(s, requests) ==> AllOwn(s, setup.handler)
  }

  /** Both can be sent under one id, and the first has an answer that is not the
      second's. */
  predicate Confusable(a: Message, b: Message, handler: Handler) {
    && a.GetId() == b.GetId() && Fits(a) && Fits(b)
    && Fits(Respond(a, handler)) && Respond(a, handler) != Respond(b, handler)
  }

  ghost predicate NoneConfusable(requests: set<Message>, handler: Handler) {
    forall a, b :: a in requests && b in requests ==> !Confusable(a, b, handler)
  }

  /** So in all runs with requests from a set every answered call has its own answer
      exactly when no two of them can be confused. */
  lemma OwnAnswersExactlyWhen(requests: set<Message>, setup: Setup)
    requires setup.limit > 0 && setup.callers > 0
    requires forall a :: a in requests ==> Transmissible(a, setup.handler)
    ensures NoneConfusable(requests, setup.handler) <==> AllRunsOwn(requests, setup)
  {
    if NoneConfusable(requests, setup.handler) {
      forall s | Reachable(s, setup) && CallsFrom(s, requests)
        ensures AllOwn(s, setup.handler)
      {
        AnswersAgree(s, requests, setup);
      }
    } else {
      var a, b :| a in requests && b in requests && Confusable(a, b, setup.handler);
      ConfusedRunIsWrong(a, b, requests, setup);
    }
  }

  lemma ConfusedRunIsWrong(a: Message, b: Message, requests: set<Message>, setup: Setup)
    requires setup.limit > 0 && setup.callers > 0 && a in requests && b in requests && Confusable(a, b, setup.handler)
    requires Transmissible(a, setup.handler) && Transmissible(b, setup.handler)
    ensures !AllRunsOwn(requests, setup)
  {
    var s := ConfusedRun(a, b, setup);
    TwoCalls(s, a, b, requests);
    assert s.client.calls[1].outcome.Answered?;
    assert !AllOwn(s, setup.handler);
  }

  lemma TwoCalls(s: System, a: Message, b: Message, requests: set<Message>)
    requires |s.client.calls| == 2 && s.client.calls[0].request == a && s.client.calls[1].request == b
    requires a in requests && b in requests
    ensures CallsFrom(s, requests)
  {
  }

  lemma ConfusedRun(a: Message, b: Message, setup: Setup) returns (s: System)
    requires setup.limit > 0 && setup.callers > 0 && Confusable(a, b, setup.handler)
    requires Transmissible(a, setup.handler) && Transmissible(b, setup.handler)
    ensures Reachable(s, setup) && |s.client.calls| == 2
    ensures s.client.calls[0].request == a && s.client.calls[1].request == b
    ensures s.client.calls[1].outcome == Answered(Respond(a, setup.handler))
  {
    W.WrittenExactly(a);
    W.WrittenExactly(b);
    W.WrittenExactly(Respond(a, setup.handler));
    ResponseEncodable(a, setup.handler);
    s := SharedIdsConfuse(a, b, setup);
  }

  lemma AnswersAgree(s: System, requests: set<Message>, setup: Setup)
    requires Reachable(s, setup) && CallsFrom(s, requests) && NoneConfusable(requests, setup.handler)
    requires forall a :: a in requests ==> Transmissible(a, setup.handler)
    ensures AllOwn(s, setup.handler)
  {
    var trace, events :| IsRun(trace, events, setup) && trace[|events|] == s;
    RunMatched(trace, events, setup, |events|);
    RunTracked(trace, events, setup, |events|);
    RunExits(trace, events, setup, |events|);
    var calls := s.client.calls;
    forall k | 0 <= k < |calls| && calls[k].outcome.Answered?
      ensures calls[k].outcome.response == Respond(calls[k].request, setup.handler)
    {
      assert RightAnswers(calls, setup.handler) && Consistent(calls[k]) && ExitRight(calls[k]);
      var j :| 0 <= j < |calls| && AnswerTo(calls[j], calls[k].outcome.response, calls[k].Id(), setup.handler);
      assert ExitRight(calls[j]);
      assert !Confusable(calls[j].request, calls[k].request, setup.handler);
    }
  }

  // ---------- Whatever the server does ----------

  /** The same call, as the server sees it. */
  predicate SameCall(a: Message, b: Message) {
    a.GetServiceId() == b.GetServiceId() && a.GetMethodId() == b.GetMethodId() && a.GetRequest() == b.GetRequest()
  }

  /** No two requests that can be sent share an id, but for repetitions of one call. */
  ghost predicate IdsTellApart(requests: set<Message>) {
    forall a, b :: a in requests && b in requests && a.GetId() == b.GetId() && Fits(a) && Fits(b) ==> SameCall(a, b)
  }

  ghost predicate AnswersSafe(requests: set<Message>, handler: Handler) {
    forall a :: a in requests ==> W.SafeSize(Respond(a, handler))
  }

  /** A server that answers one call with one byte, and all others with nothing. */
  function Telltale(a: Message): Handler {
    (serviceId, methodId, payload) =>
      if serviceId == a.GetServiceId() && methodId == a.GetMethodId() && payload == a.GetRequest() then [1] else []
  }

  lemma TelltaleIsSafe(a: Message, q: Message)
    ensures W.Sendable(Respond(q, Telltale(a))) && Fits(Respond(q, Telltale(a))) && W.SafeSize(Respond(q, Telltale(a)))
  {
    W.ShortAnswer(Respond(q, Telltale(a)));
  }

  lemma TelltaleConfuses(a: Message, b: Message)
    requires a.GetId() == b.GetId() && Fits(a) && Fits(b) && !SameCall(a, b)
    ensures Confusable(a, b, Telltale(a))
  {
    TelltaleIsSafe(a, a);
    assert Respond(a, Telltale(a)).response == Some([1]) && Respond(b, Telltale(a)).response == Some([]);
  }

  lemma ApartNotConfusable(requests: set<Message>, handler: Handler)
    requires IdsTellApart(requests)
    ensures NoneConfusable(requests, handler)
  {
    forall a, b | a in requests && b in requests
      ensures !Confusable(a, b, handler)
    {
      if a.GetId() == b.GetId() && Fits(a) && Fits(b) {
        assert SameCall(a, b);
      }
    }
  }

  lemma TelltaleServer(requests: set<Message>, a: Message, b: Message, limit: nat, callers: nat)
    requires limit > 0 && callers > 0 && a in requests && b in requests
    requires forall q :: q in requests ==> q.Encodable() && W.SafeSize(q)
    requires a.GetId() == b.GetId() && Fits(a) && Fits(b) && !SameCall(a, b)
    ensures AnswersSafe(requests, Telltale(a)) && !AllRunsOwn(requests, Setup(limit, callers, Telltale(a)))
  {
    forall q | q in requests
      ensures W.SafeSize(Respond(q, Telltale(a)))
    {
      TelltaleIsSafe(a, q);
    }
    TelltaleConfuses(a, b);
    ConfusedRunIsWrong(a, b, requests, Setup(limit, callers, Telltale(a)));
  }

  /** Every answered call has its own answer in all runs of every server, answers of
      65535 bytes apart, exactly when the ids tell the requests apart. */
  lemma OwnAnswersForAllServers(requests: set<Message>, limit: nat, callers: nat)
    requires limit > 0 && callers > 0
    requires forall a :: a in requests ==> a.Encodable() && W.SafeSize(a)
    ensures IdsTellApart(requests)
       <==> (forall handler :: AnswersSafe(requests, handler) ==> AllRunsOwn(requests, Setup(limit, callers, handler)))
  {
    if IdsTellApart(requests) {
      forall handler | AnswersSafe(requests, handler)
        ensures AllRunsOwn(requests, Setup(limit, callers, handler))
      {
        ApartNotConfusable(requests, handler);
        OwnAnswersExactlyWhen(requests, Setup(limit, callers, handler));
      }
    } else {
      var a, b :| a in requests && b in requests && a.GetId() == b.GetId() && Fits(a) && Fits(b) && !SameCall(a, b);
      TelltaleServer(requests, a, b, limit, callers);
    }
  }
}
