/** Constructing runs, step by step. */
module Runs {
  import opened MachineInt
  import opened Message
  import opened ClientDispatcher
  import opened RpcServer
  import opened Multiplexing
  import W = WireStack

  ghost predicate Reachable(s: System, setup: Setup) {
    exists trace, events :: IsRun(trace, events, setup) && trace[|events|] == s
  }

  lemma InitialReachable(setup: Setup)
    ensures Reachable(INITIAL, setup)
  {
    var trace: seq<System>, events: seq<Event> := [INITIAL], [];
    assert IsRun(trace, events, setup) && trace[|events|] == INITIAL;
  }

  lemma Extend(s: System, e: Event, s': System, setup: Setup)
    requires Reachable(s, setup) && Moves(s, e, s', setup)
    ensures Reachable(s', setup)
  {
    var trace, events :| IsRun(trace, events, setup) && trace[|events|] == s;
    var trace', events' := trace + [s'], events + [e];
    forall i | 0 <= i < |events'|
      ensures Moves(trace'[i], events'[i], trace'[i + 1], setup)
    {
      if i < |events| {
        assert Moves(trace[i], events[i], trace[i + 1], setup);
      }
    }
    assert IsRun(trace', events', setup) && trace'[|events'|] == s';
  }

  lemma Go(s: System, e: Event, s': System, setup: Setup) returns (reached: System)
    requires Reachable(s, setup) && Moves(s, e, s', setup)
    ensures reached == s' && Reachable(s', setup)
  {
    Extend(s, e, s', setup);
    reached := s';
  }

  lemma GoServerRead(s: System, size: nat, ms: seq<Message>, link: W.Link, setup: Setup) returns (s': System)
    requires Reachable(s, setup) && s.workers == []
             && 0 < size <= |s.requests.wire| && W.Take(s.requests, size) == (ms, link)
    ensures Reachable(s', setup) && s' == s.(requests := link, workers := ms)
  {
    assert [] + ms == ms;
    s' := Go(s, ServerRead(size), s.(requests := link, workers := ms), setup);
  }

  lemma GoClientRead(s: System, size: nat, ms: seq<Message>, link: W.Link, setup: Setup) returns (s': System)
    requires Reachable(s, setup) && s.inbox == [] && s.client.reader == Idle
    requires 0 < size <= |s.responses.wire| && W.Take(s.responses, size) == (ms, link)
    ensures Reachable(s', setup) && s' == s.(responses := link, inbox := ms)
  {
    s' := Go(s, ClientRead(size), s.(responses := link, inbox := ms), setup);
  }

  // ---------- A first call ----------

  /** A dispatcher with one call, at this point. */
  function Single(call: Call): Dispatcher { Dispatcher([call], map[call.Id() := 0], Idle) }

  /** The first call gets its entry. */
  lemma FirstIsInserted(a: Message, setup: Setup) returns (s: System)
    requires setup.limit > 0 && setup.callers > 0
    ensures Reachable(s, setup)
    ensures s == INITIAL.(client := Single(Call(0, a, Inserted, None, Unresolved)))
  {
    var call := Call(0, a, Entered, None, Unresolved);
    InitialReachable(setup);
    s := Go(INITIAL, Act(Enter(0, a)), INITIAL.(client := Dispatcher([call], map[], Idle)), setup);
    s := Go(s, Act(CheckLimit(0)), INITIAL.(client := Dispatcher([call.(phase := Checked)], map[], Idle)), setup);
    s := Go(s, Act(Insert(0)), INITIAL.(client := Single(call.(phase := Inserted))), setup);
  }

  /** It is sent and waits; its request is on the way. */
  lemma FirstIsSent(a: Message, setup: Setup) returns (s: System)
    requires setup.limit > 0 && setup.callers > 0 && Fits(a)
    ensures Reachable(s, setup)
    ensures s == INITIAL.(client := Single(Call(0, a, Returned, None, Unresolved)),
                          requests := W.Link(W.OnWire(a).bytes, []))
  {
    s := FirstIsInserted(a, setup);
    var call := s.client.calls[0];
    PutQuiet(a);
    var up := W.Link(W.OnWire(a).bytes, []);
    s := Go(s, Act(Send(0)), INITIAL.(client := Single(call.(phase := Sent)), requests := up), setup);
    s := Go(s, Act(Arm(0)), INITIAL.(client := Single(call.(phase := Returned)), requests := up), setup);
  }

  lemma PutQuiet(m: Message)
    requires Fits(m)
    ensures W.Put(W.QUIET, m) == W.Link(W.OnWire(m).bytes, [])
  {
    assert [] + W.OnWire(m).bytes == W.OnWire(m).bytes;
  }

  /** All of a request is read at once. */
  lemma ServerReadsAll(s: System, a: Message, setup: Setup) returns (s': System)
    requires Reachable(s, setup) && W.Sendable(a)
    requires Fits(a) && s.requests == W.Link(W.OnWire(a).bytes, []) && s.workers == []
    ensures Reachable(s', setup) && s' == s.(requests := W.QUIET, workers := [a])
  {
    W.OneMessage(a);
    s' := GoServerRead(s, |W.OnWire(a).bytes|, [a], W.QUIET, setup);
  }

  lemma ServerFinishes(s: System, q: Message, setup: Setup) returns (s': System)
    requires Reachable(s, setup) && s.workers == [q] && s.responses == W.QUIET
    requires Fits(Respond(q, setup.handler))
    ensures Reachable(s', setup)
    ensures s' == s.(workers := [], responses := W.Link(W.OnWire(Respond(q, setup.handler)).bytes, []))
  {
    PutQuiet(Respond(q, setup.handler));
    s' := Go(s, Finish(0),
             s.(workers := [], responses := W.Link(W.OnWire(Respond(q, setup.handler)).bytes, [])), setup);
  }

  lemma ClientReadsAll(s: System, m: Message, setup: Setup) returns (s': System)
    requires Reachable(s, setup) && W.Sendable(m) && Fits(m)
    requires s.responses == W.Link(W.OnWire(m).bytes, []) && s.inbox == [] && s.client.reader == Idle
    ensures Reachable(s', setup) && s' == s.(responses := W.QUIET, inbox := [m])
  {
    W.OneMessage(m);
    s' := GoClientRead(s, |W.OnWire(m).bytes|, [m], W.QUIET, setup);
  }

  /** The first call is served before anything else happens. */
  lemma FirstIsServed(a: Message, setup: Setup) returns (s: System)
    requires setup.limit > 0 && setup.callers > 0
    requires W.Sendable(a) && Fits(a) && Fits(Respond(a, setup.handler))
    ensures Reachable(s, setup)
    ensures s == INITIAL.(client := Single(Call(0, a, Returned, None, Unresolved)),
                          responses := W.Link(W.OnWire(Respond(a, setup.handler)).bytes, []))
  {
    s := FirstIsSent(a, setup);
    s := ServerReadsAll(s, a, setup);
    s := ServerFinishes(s, a, setup);
  }

  /** The message in the inbox answers the waiting call under its id. */
  lemma AnswerArrives(s: System, k: nat, m: Message, setup: Setup) returns (s': System)
    requires Reachable(s, setup) && s.inbox == [m] && s.client.reader == Idle && k < |s.client.calls|
    requires s.client.pending == map[m.GetId() := k] && s.client.calls[k].Armed()
    ensures Reachable(s', setup)
    ensures s'.client.calls == s.client.calls[k := s.client.calls[k].(promise := Some(m), outcome := Answered(m))]
  {
    var c := s.client;
    s' := Go(s, Deliver, s.(client := c.(reader := Found(k, m)), inbox := []), setup);
    s' := Go(s', Act(Erase), s'.(client := c.(pending := map[], reader := Erased(k, m))), setup);
    var answered := c.calls[k].(promise := Some(m), outcome := Answered(m));
    s' := Go(s', Act(SetValue), s'.(client := Dispatcher(c.calls[k := answered], map[], Idle)), setup);
  }
}
