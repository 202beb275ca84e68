/** Nothing is lost or done twice on the way: where every request that was sent is, and
    where every answer. */
module Conservation {
  import opened MachineInt
  import opened Message
  import opened ClientDispatcher
  import opened RpcServer
  import opened Multiplexing
  import W = WireStack

  type Messages = seq<Message>

  // ---------- What has happened ----------

  /** The requests written, those that workers have finished, and the messages handed to
      the client's dispatcher, each in order. */
  datatype Ledger = Ledger(sent: Messages, served: Messages, delivered: Messages)

  function Entered(l: Ledger, s: System, e: Event): Ledger {
    match e
    case Act(a) =>
      if a.Send? && a.k < |s.client.calls| then l.(sent := l.sent + [s.client.calls[a.k].request]) else l
    case Finish(w) => if w < |s.workers| then l.(served := l.served + [s.workers[w]]) else l
    case Deliver => if s.inbox != [] then l.(delivered := l.delivered + [s.inbox[0]]) else l
    case _ => l
  }

  /** After the first `i` events of a run. */
  function Book(trace: seq<System>, events: seq<Event>, i: nat): Ledger
    requires i <= |events| && i <= |trace|
  {
    if i == 0 then Ledger([], [], []) else Entered(Book(trace, events, i - 1), trace[i - 1], events[i - 1])
  }

  /** The answers to these requests that the prepender takes. */
  function Answers(served: Messages, handler: Handler): Messages {
    if served == [] then []
    else
      var q := served[|served| - 1];
      Answers(served[..|served| - 1], handler) + (if Fits(Respond(q, handler)) then [Respond(q, handler)] else [])
  }

  // ---------- Where everything is ----------

  /** Every request sent has been served, is with a worker, or is one of those under way. */
  ghost predicate RequestsAt(link: W.Link, workers: Messages, sent: Messages, served: Messages, qs: Messages) {
    W.Flow(link, qs) && multiset(sent) == multiset(served) + multiset(workers) + multiset(qs)
  }

  /** The answers to what has been served are, in this order, those delivered, those of the
      last read, and those under way. */
  ghost predicate AnswersAt(link: W.Link, inbox: Messages, answers: Messages, delivered: Messages, ms: Messages) {
    W.Flow(link, ms) && answers == delivered + (inbox + ms)
  }

  ghost predicate Kept(s: System, l: Ledger, handler: Handler, qs: Messages, ms: Messages) {
    && RequestsAt(s.requests, s.workers, l.sent, l.served, qs)
    && AnswersAt(s.responses, s.inbox, Answers(l.served, handler), l.delivered, ms)
  }

  // ---------- Sequences and multisets ----------

  lemma OneMore(qs: Messages, q: Message)
    ensures multiset(qs + [q]) == multiset(qs) + multiset{q}
  {
  }

  lemma CutInTwo(workers: Messages, qs: Messages, j: nat)
    requires j <= |qs|
    ensures multiset(workers + qs[..j]) + multiset(qs[j..]) == multiset(workers) + multiset(qs)
  {
    assert qs == qs[..j] + qs[j..];
  }

  lemma StillAdds(sent: multiset<Message>, served: multiset<Message>, workers: Messages, qs: Messages, j: nat)
    requires j <= |qs| && sent == served + multiset(workers) + multiset(qs)
    ensures sent == served + multiset(workers + qs[..j]) + multiset(qs[j..])
  {
    CutInTwo(workers, qs, j);
    Regroup(served, multiset(workers), multiset(qs), multiset(workers + qs[..j]), multiset(qs[j..]));
  }

  lemma Regroup(a: multiset<Message>, b: multiset<Message>, c: multiset<Message>,
                d: multiset<Message>, e: multiset<Message>)
    requires b + c == d + e
    ensures a + b + c == a + d + e
  {
    assert a + b + c == a + (b + c);
    assert a + d + e == a + (d + e);
  }

  lemma TakenOut(workers: Messages, w: nat)
    requires w < |workers|
    ensures multiset(workers) == multiset(workers[..w] + workers[w + 1..]) + multiset{workers[w]}
  {
    assert workers == workers[..w] + [workers[w]] + workers[w + 1..];
  }

  lemma AnswersAppend(served: Messages, q: Message, handler: Handler)
    ensures Answers(served + [q], handler)
         == Answers(served, handler) + (if Fits(Respond(q, handler)) then [Respond(q, handler)] else [])
  {
    assert (served + [q])[..|served|] == served;
  }

  lemma Appended(delivered: Messages, inbox: Messages, ms: Messages, m: Message)
    ensures delivered + (inbox + ms) + [m] == delivered + (inbox + (ms + [m]))
  {
  }

  lemma HandedOn(delivered: Messages, inbox: Messages, ms: Messages)
    requires inbox != []
    ensures delivered + (inbox + ms) == (delivered + [inbox[0]]) + (inbox[1..] + ms)
  {
    assert inbox == [inbox[0]] + inbox[1..];
  }

  // ---------- Steps ----------

  lemma SendKeeps(link: W.Link, workers: Messages, sent: Messages, served: Messages, qs: Messages, q: Message)
    requires RequestsAt(link, workers, sent, served, qs) && Fits(q) && q.Encodable() && W.SafeSize(q)
    ensures RequestsAt(W.Put(link, q), workers, sent + [q], served, qs + [q])
  {
    W.PutFlows(link, q, qs);
    OneMore(sent, q);
    OneMore(qs, q);
  }

  lemma ServerReadKeeps(link: W.Link, workers: Messages, sent: Messages, served: Messages, qs: Messages, n: nat)
    returns (left: Messages)
    requires RequestsAt(link, workers, sent, served, qs) && n <= |link.wire|
    ensures RequestsAt(W.Take(link, n).1, workers + W.Take(link, n).0, sent, served, left)
  {
    var j := W.TakeFlows(link, n, qs);
    left := qs[j..];
    RequestsMove(W.Take(link, n).1, W.Take(link, n).0, workers, sent, served, qs, j);
  }

  lemma RequestsMove(link: W.Link, taken: Messages, workers: Messages,
                     sent: Messages, served: Messages, qs: Messages, j: nat)
    requires j <= |qs| && taken == qs[..j] && W.Flow(link, qs[j..])
    requires multiset(sent) == multiset(served) + multiset(workers) + multiset(qs)
    ensures RequestsAt(link, workers + taken, sent, served, qs[j..])
  {
    StillAdds(multiset(sent), multiset(served), workers, qs, j);
  }

  lemma ServeKeeps(link: W.Link, workers: Messages, sent: Messages, served: Messages, qs: Messages, w: nat)
    requires RequestsAt(link, workers, sent, served, qs) && w < |workers|
    ensures RequestsAt(link, workers[..w] + workers[w + 1..], sent, served + [workers[w]], qs)
  {
    TakenOut(workers, w);
    OneMore(served, workers[w]);
  }

  lemma AnswerKeeps(link: W.Link, inbox: Messages, answers: Messages, delivered: Messages, ms: Messages, m: Message)
    requires AnswersAt(link, inbox, answers, delivered, ms) && m.Encodable() && W.SafeSize(m)
    ensures Fits(m) ==> AnswersAt(W.Put(link, m), inbox, answers + [m], delivered, ms + [m])
    ensures !Fits(m) ==> AnswersAt(W.Put(link, m), inbox, answers + [], delivered, ms)
  {
    W.PutFlows(link, m, ms);
    if Fits(m) {
      Appended(delivered, inbox, ms, m);
    } else {
      assert answers + [] == answers;
    }
  }

  lemma ClientReadKeeps(link: W.Link, answers: Messages, delivered: Messages, ms: Messages, n: nat)
    returns (left: Messages)
    requires AnswersAt(link, [], answers, delivered, ms) && n <= |link.wire|
    ensures AnswersAt(W.Take(link, n).1, W.Take(link, n).0, answers, delivered, left)
  {
    var j := W.TakeFlows(link, n, ms);
    left := ms[j..];
    AnswersMove(W.Take(link, n).1, W.Take(link, n).0, answers, delivered, ms, j);
  }

  lemma AnswersMove(link: W.Link, taken: Messages, answers: Messages, delivered: Messages, ms: Messages, j: nat)
    requires j <= |ms| && taken == ms[..j] && W.Flow(link, ms[j..]) && answers == delivered + ([] + ms)
    ensures AnswersAt(link, taken, answers, delivered, ms[j..])
  {
    assert [] + ms == taken + ms[j..];
  }

  lemma DeliverKeeps(link: W.Link, inbox: Messages, answers: Messages, delivered: Messages, ms: Messages)
    requires inbox != [] && AnswersAt(link, inbox, answers, delivered, ms)
    ensures AnswersAt(link, inbox[1..], answers, delivered + [inbox[0]], ms)
  {
    HandedOn(delivered, inbox, ms);
  }

  lemma FinishKeeps(s: System, w: nat, setup: Setup, l: Ledger, qs: Messages, ms: Messages) returns (ms': Messages)
    requires Enabled(s, Finish(w), setup) && AllTransmissible(s.client.calls, setup.handler)
    requires AllRequests(s.client.calls, s.workers) && Kept(s, l, setup.handler, qs, ms)
    ensures Kept(Next(s, Finish(w), setup), Entered(l, s, Finish(w)), setup.handler, qs, ms')
  {
    var q := s.workers[w];
    var m := Respond(q, setup.handler);
    assert q in s.workers;
    ServeKeeps(s.requests, s.workers, l.sent, l.served, qs, w);
    AnswerRight(s.client.calls, q, setup.handler);
    AnswersAppend(l.served, q, setup.handler);
    AnswerKeeps(s.responses, s.inbox, Answers(l.served, setup.handler), l.delivered, ms, m);
    ms' := if Fits(m) then ms + [m] else ms;
  }

  lemma ActKeeps(s: System, a: Action, setup: Setup, l: Ledger, qs: Messages, ms: Messages) returns (qs': Messages)
    requires Enabled(s, Act(a), setup) && AllTransmissible(s.client.calls, setup.handler)
    requires Kept(s, l, setup.handler, qs, ms)
    ensures Kept(Next(s, Act(a), setup), Entered(l, s, Act(a)), setup.handler, qs', ms)
  {
    qs' := qs;
    if a.Send? {
      assert Transmissible(s.client.calls[a.k].request, setup.handler);
      SendKeeps(s.requests, s.workers, l.sent, l.served, qs, s.client.calls[a.k].request);
      qs' := qs + [s.client.calls[a.k].request];
    }
  }

  lemma StepKeeps(s: System, e: Event, setup: Setup, l: Ledger, qs: Messages, ms: Messages)
    returns (qs': Messages, ms': Messages)
    requires Enabled(s, e, setup) && AllTransmissible(s.client.calls, setup.handler)
    requires AllRequests(s.client.calls, s.workers) && Kept(s, l, setup.handler, qs, ms)
    ensures Kept(Next(s, e, setup), Entered(l, s, e), setup.handler, qs', ms')
  {
    qs', ms' := qs, ms;
    if e.Act? {
      qs' := ActKeeps(s, e.action, setup, l, qs, ms);
    } else if e.ServerRead? {
      qs' := ServerReadKeeps(s.requests, s.workers, l.sent, l.served, qs, e.size);
    } else if e.Finish? {
      ms' := FinishKeeps(s, e.worker, setup, l, qs, ms);
    } else if e.ClientRead? {
      ms' := ClientReadKeeps(s.responses, Answers(l.served, setup.handler), l.delivered, ms, e.size);
    } else {
      DeliverKeeps(s.responses, s.inbox, Answers(l.served, setup.handler), l.delivered, ms);
    }
  }

  // ---------- Every run ----------

  lemma InitialKept(handler: Handler)
    ensures Kept(INITIAL, Ledger([], [], []), handler, [], [])
  {
    var none: Messages := [];
    assert W.Flow(W.QUIET, none);
    assert none + (none + none) == none;
  }

  lemma NextKept(trace: seq<System>, events: seq<Event>, setup: Setup, i: nat, qs: Messages, ms: Messages)
    returns (qs': Messages, ms': Messages)
    requires IsRun(trace, events, setup) && i < |events| && AllTransmissible(trace[i].client.calls, setup.handler)
    requires Kept(trace[i], Book(trace, events, i), setup.handler, qs, ms)
    ensures Kept(trace[i + 1], Book(trace, events, i + 1), setup.handler, qs', ms')
  {
    assert Moves(trace[i], events[i], trace[i + 1], setup);
    RunMatched(trace, events, setup, i);
    qs', ms' := StepKeeps(trace[i], events[i], setup, Book(trace, events, i), qs, ms);
  }

  lemma TransmissibleUntil(trace: seq<System>, events: seq<Event>, setup: Setup, i: nat)
    requires IsRun(trace, events, setup) && i < |events| && AllTransmissible(trace[i + 1].client.calls, setup.handler)
    ensures AllTransmissible(trace[i].client.calls, setup.handler)
  {
    assert Moves(trace[i], events[i], trace[i + 1], setup);
    StepGrows(trace[i], events[i], setup);
    TransmissibleBefore(trace[i].client.calls, trace[i + 1].client.calls, setup.handler);
  }

  lemma {:induction false} RunKept(trace: seq<System>, events: seq<Event>, setup: Setup, i: nat)
    returns (qs: Messages, ms: Messages)
    requires IsRun(trace, events, setup) && i < |trace| && AllTransmissible(trace[i].client.calls, setup.handler)
    ensures Kept(trace[i], Book(trace, events, i), setup.handler, qs, ms)
    decreases i
  {
    if i == 0 {
      InitialKept(setup.handler);
      qs, ms := [], [];
    } else {
      var j: nat := i - 1;
      TransmissibleUntil(trace, events, setup, j);
      qs, ms := RunKept(trace, events, setup, j);
      qs, ms := NextKept(trace, events, setup, j, qs, ms);
    }
  }

  /** In every run, as long as no request and no answer has 65535 bytes or is beyond
      `int`: every request sent has been served exactly once, or is with exactly one
      worker, or is under way; and the answers that can be written are delivered in the
      order in which workers finished, each once, but for those of the last read and
      those under way. */
  lemma ExactlyOnce(trace: seq<System>, events: seq<Event>, setup: Setup, i: nat)
    returns (requests: Messages, answers: Messages)
    requires IsRun(trace, events, setup) && i < |trace| && AllTransmissible(trace[i].client.calls, setup.handler)
    ensures var l := Book(trace, events, i);
            && multiset(l.sent) == multiset(l.served) + multiset(trace[i].workers) + multiset(requests)
            && Answers(l.served, setup.handler) == l.delivered + (trace[i].inbox + answers)
    ensures W.AllSendable(requests) && W.AllSendable(answers)
    ensures trace[i].requests.buffer + trace[i].requests.wire == W.Stream(requests)
    ensures trace[i].responses.buffer + trace[i].responses.wire == W.Stream(answers)
  {
    requests, answers := RunKept(trace, events, setup, i);
  }
}
