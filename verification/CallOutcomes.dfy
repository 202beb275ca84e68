/** What becomes of a call, over every run: one outcome, and exactly which entries of the
    map of pending requests are never removed. */
module CallOutcomes {
  import opened MachineInt
  import opened Counting
  import opened Message
  import opened ClientDispatcher
  import opened Multiplexing
  import opened RpcServer

  // ---------- Bookkeeping ----------

  /** A pending entry has somebody who will remove it: its caller has not armed the
      timer yet, or the timer is running; or its write has thrown, and nobody will. Its
      promise is not set. */
  predicate Owned(call: Call) {
    && (call.phase == Inserted || call.phase == Sent || call.Armed() || call.outcome == WriteFailed)
    && call.promise == None
  }

  ghost predicate EntriesOwned(c: Dispatcher) {
    PendingPoints(c) && forall id :: id in c.pending ==> Owned(c.calls[c.pending[id]])
  }

  /** A call whose promise the reader is about to set: it has not been set, though the
      timer may have been faster. */
  predicate Readable(call: Call) {
    && call.promise == None
    && (call.phase == Inserted || call.phase == Sent || call.Armed()
        || call.outcome == TimedOut || call.outcome == WriteFailed)
  }

  /** Once its entry is erased nobody else can find the call the reader holds. */
  ghost predicate ReaderOwns(c: Dispatcher) {
    !c.reader.Idle? ==>
      && c.reader.call < |c.calls|
      && Readable(c.calls[c.reader.call])
      && c.calls[c.reader.call].Id() == c.reader.response.GetId()
      && (c.reader.Erased? ==> forall id :: id in c.pending ==> c.pending[id] != c.reader.call)
  }

  predicate Consistent(call: Call) {
    && (call.outcome != Unresolved ==> call.phase == Returned)
    && (call.Armed() ==> call.promise == None)
    && (call.promise.Some? ==> call.phase == Inserted || call.phase == Sent || call.phase == Returned)
    && (call.outcome.Answered? ==> call.promise == Some(call.outcome.response))
    && (call.outcome == LimitRejected || call.outcome == DuplicateRejected ==> call.promise == None)
  }

  ghost predicate Tracked(c: Dispatcher) {
    && EntriesOwned(c)
    && ReaderOwns(c)
    && forall k :: 0 <= k < |c.calls| ==> Consistent(c.calls[k])
  }

  /** An owned entry that a step leaves in place stays owned. */
  lemma EntryStaysOwned(c: Dispatcher, a: Action, limit: nat, id: int64)
    requires Possible(c, a) && id in c.pending && id in Do(c, a, limit).pending
    requires c.pending[id] < |c.calls| && c.calls[c.pending[id]].Id() == id
    requires Owned(c.calls[c.pending[id]]) && Consistent(c.calls[c.pending[id]])
    requires a.SetValue? ==> c.pending[id] != c.reader.call
    ensures var c' := Do(c, a, limit);
            c'.pending[id] == c.pending[id] && Owned(c'.calls[c'.pending[id]])
  {
  }

  lemma DoEntriesOwned(c: Dispatcher, a: Action, limit: nat)
    requires Possible(c, a) && EntriesOwned(c) && ReaderOwns(c)
    requires forall k :: 0 <= k < |c.calls| ==> Consistent(c.calls[k])
    ensures EntriesOwned(Do(c, a, limit))
  {
    PendingStays(c, a, limit);
    var c' := Do(c, a, limit);
    forall id | id in c'.pending
      ensures Owned(c'.calls[c'.pending[id]])
    {
      if id in c.pending {
        EntryStaysOwned(c, a, limit, id);
      } else {
        assert a.Insert? && Consistent(c.calls[a.k]);
      }
    }
  }

  lemma ReadableStays(c: Dispatcher, a: Action, limit: nat, k: nat)
    requires Possible(c, a) && k < |c.calls| && Readable(c.calls[k]) && Consistent(c.calls[k])
    requires a.SetValue? ==> k != c.reader.call
    ensures Readable(Do(c, a, limit).calls[k]) && Do(c, a, limit).calls[k].Id() == c.calls[k].Id()
  {
  }

  lemma DoReaderOwns(c: Dispatcher, a: Action, limit: nat)
    requires Possible(c, a) && EntriesOwned(c) && ReaderOwns(c)
    requires forall k :: 0 <= k < |c.calls| ==> Consistent(c.calls[k])
    ensures ReaderOwns(Do(c, a, limit))
  {
    var c' := Do(c, a, limit);
    if !c'.reader.Idle? {
      if c.reader.Idle? {
        assert Owned(c.calls[c.pending[a.response.GetId()]]);
      } else {
        ReadableStays(c, a, limit, c.reader.call);
      }
    }
  }

  /** Steps of the caller before it arms the timer. */
  lemma PhaseStaysConsistent(call: Call)
    requires Consistent(call)
    ensures call.phase == Entered ==> Consistent(call.(phase := Checked)) && Consistent(Rejected(call, LimitRejected))
    ensures call.phase == Checked ==>
              Consistent(call.(phase := Inserted)) && Consistent(Rejected(call, DuplicateRejected))
    ensures call.phase == Inserted ==> Consistent(call.(phase := Sent)) && Consistent(Rejected(call, WriteFailed))
  {
  }

  lemma ArmedConsistent(call: Call)
    requires Consistent(call) && call.phase == Sent
    ensures Consistent(ArmedCall(call))
  {
  }

  lemma FiredConsistent(call: Call)
    requires Consistent(call) && call.Armed()
    ensures Consistent(call.(outcome := TimedOut))
  {
  }

  lemma FulfilledConsistent(call: Call, response: Message)
    requires Consistent(call) && Readable(call)
    ensures Consistent(Fulfilled(call, response))
  {
  }

  lemma ConsistentStays(c: Dispatcher, a: Action, limit: nat, k: nat)
    requires Possible(c, a) && k < |Do(c, a, limit).calls|
    requires k < |c.calls| ==> Consistent(c.calls[k])
    requires !c.reader.Idle? && c.reader.call == k < |c.calls| ==> Readable(c.calls[k])
    ensures Consistent(Do(c, a, limit).calls[k])
  {
    if k < |c.calls| {
      OneCallChanges(c, a, limit, k);
      PhaseStaysConsistent(c.calls[k]);
      if a.Arm? && a.k == k { ArmedConsistent(c.calls[k]); }
      if a.Fire? && a.k == k { FiredConsistent(c.calls[k]); }
      if a.SetValue? && c.reader.call == k { FulfilledConsistent(c.calls[k], c.reader.response); }
    }
  }

  lemma DoTracked(c: Dispatcher, a: Action, limit: nat)
    requires Possible(c, a) && Tracked(c)
    ensures Tracked(Do(c, a, limit))
  {
    DoEntriesOwned(c, a, limit);
    DoReaderOwns(c, a, limit);
    forall k | 0 <= k < |Do(c, a, limit).calls|
      ensures Consistent(Do(c, a, limit).calls[k])
    {
      ConsistentStays(c, a, limit, k);
    }
  }

  lemma {:induction false} RunTracked(trace: seq<System>, events: seq<Event>, setup: Setup, i: nat)
    requires IsRun(trace, events, setup) && i < |trace|
    ensures Tracked(trace[i].client)
    decreases i
  {
    if i > 0 {
      RunTracked(trace, events, setup, i - 1);
      assert Moves(trace[i - 1], events[i - 1], trace[i - 1 + 1], setup);
      StepTracked(trace[i - 1], events[i - 1], setup);
    }
  }

  lemma StepTracked(s: System, e: Event, setup: Setup)
    requires Enabled(s, e, setup) && Tracked(s.client)
    ensures Tracked(Next(s, e, setup).client)
  {
    ClientMoves(s, e, setup);
    var action := ClientAction(s, e);
    if action.Some? { DoTracked(s.client, action.value, setup.limit); }
  }

  // ---------- Leaked entries ----------

  /** In every run: each pending entry belongs to a call inside `operator()`, to one with
      its timer running, or to one whose write has thrown. So when every call has been
      resolved, only entries of failed writes are left. */
  lemma OnlyFailedWritesLeak(trace: seq<System>, events: seq<Event>, setup: Setup, i: nat)
    requires IsRun(trace, events, setup) && i < |trace|
    ensures var c := trace[i].client;
            && (forall id :: id in c.pending ==>
                  && c.pending[id] < |c.calls|
                  && var call := c.calls[c.pending[id]];
                     call.Id() == id && (call.InProgress() || call.Armed() || call.outcome == WriteFailed))
            && ((forall k :: 0 <= k < |c.calls| ==> c.calls[k].outcome !in {Unresolved, WriteFailed}) ==>
                  c.pending == map[])
  {
    RunTracked(trace, events, setup, i);
  }

  /** A call's write has thrown if its request does not fit, and has not if it does. */
  predicate ExitRight(call: Call) {
    && (call.outcome == WriteFailed ==> !Fits(call.request))
    && (WasSent(call) ==> Fits(call.request))
  }

  ghost predicate ExitsRight(calls: seq<Call>) {
    forall k :: 0 <= k < |calls| ==> ExitRight(calls[k])
  }

  lemma ExitStays(c: Dispatcher, a: Action, limit: nat, k: nat)
    requires Possible(c, a) && k < |Do(c, a, limit).calls| && (k < |c.calls| ==> ExitRight(c.calls[k]))
    requires a.Send? ==> Fits(c.calls[a.k].request)
    requires a.Throw? ==> !Fits(c.calls[a.k].request)
    ensures ExitRight(Do(c, a, limit).calls[k])
  {
    if k < |c.calls| {
      OneCallChanges(c, a, limit, k);
      if a != Send(k) && a != Throw(k) { ExitUnchanged(c, a, limit, k); }
    }
  }

  /** Only the write itself decides which way a call leaves. */
  lemma ExitUnchanged(c: Dispatcher, a: Action, limit: nat, k: nat)
    requires Possible(c, a) && k < |c.calls| && a != Send(k) && a != Throw(k)
    ensures var before, after := c.calls[k], Do(c, a, limit).calls[k];
            && after.request == before.request
            && (after.outcome == WriteFailed ==> before.outcome == WriteFailed)
            && (WasSent(after) ==> WasSent(before))
  {
    OneCallChanges(c, a, limit, k);
  }

  lemma StepExits(s: System, e: Event, setup: Setup)
    requires Enabled(s, e, setup) && ExitsRight(s.client.calls)
    ensures ExitsRight(Next(s, e, setup).client.calls)
  {
    ClientMoves(s, e, setup);
    var action := ClientAction(s, e);
    if action.Some? {
      forall k | 0 <= k < |Next(s, e, setup).client.calls|
        ensures ExitRight(Next(s, e, setup).client.calls[k])
      {
        ExitStays(s.client, action.value, setup.limit, k);
      }
    }
  }

  lemma {:induction false} RunExits(trace: seq<System>, events: seq<Event>, setup: Setup, i: nat)
    requires IsRun(trace, events, setup) && i < |trace|
    ensures ExitsRight(trace[i].client.calls)
    decreases i
  {
    if i > 0 {
      RunExits(trace, events, setup, i - 1);
      assert Moves(trace[i - 1], events[i - 1], trace[i - 1 + 1], setup);
      StepExits(trace[i - 1], events[i - 1], setup);
    }
  }

  /** In every run a call that got its entry and has left `operator()` was left by the
      exception exactly if its request does not fit. */
  lemma WriteFailsExactlyWhen(trace: seq<System>, events: seq<Event>, setup: Setup, i: nat, k: nat)
    requires IsRun(trace, events, setup) && i < |trace| && k < |trace[i].client.calls|
    requires trace[i].client.calls[k].phase == Returned
    requires trace[i].client.calls[k].outcome !in {LimitRejected, DuplicateRejected}
    ensures trace[i].client.calls[k].outcome == WriteFailed <==> !Fits(trace[i].client.calls[k].request)
  {
    RunExits(trace, events, setup, i);
    assert ExitRight(trace[i].client.calls[k]);
  }

  /** The entry of a failed write is there. */
  ghost predicate Stranded(c: Dispatcher, k: nat)
    requires k < |c.calls|
  {
    c.calls[k].outcome == WriteFailed ==> c.calls[k].Id() in c.pending && c.pending[c.calls[k].Id()] == k
  }

  ghost predicate AllStranded(c: Dispatcher) {
    forall k :: 0 <= k < |c.calls| ==> Stranded(c, k)
  }

  /** With unique ids, what the reader holds belongs to a call that was sent. */
  lemma ReaderElsewhere(c: Dispatcher, handler: Handler, k: nat)
    requires UniqueIds(c.calls) && ReaderMatches(c, handler) && k < |c.calls|
    requires !c.reader.Idle? && c.reader.response.GetId() == c.calls[k].Id()
    ensures WasSent(c.calls[k])
  {
    var j :| 0 <= j < |c.calls| && AnswerTo(c.calls[j], c.reader.response, c.calls[c.reader.call].Id(), handler);
    assert j == k;
  }

  /** An entry stays unless a timer or a response removes just its id. */
  lemma EntryKept(c: Dispatcher, a: Action, limit: nat, id: int64)
    requires Possible(c, a) && id in c.pending
    requires a.Fire? ==> c.calls[a.k].Id() != id
    requires a.Erase? ==> c.reader.response.GetId() != id
    ensures id in Do(c, a, limit).pending && Do(c, a, limit).pending[id] == c.pending[id]
  {
  }

  /** With unique ids, that of a call that was not sent stays. */
  lemma UnsentKept(c: Dispatcher, a: Action, limit: nat, handler: Handler, k: nat)
    requires Possible(c, a) && UniqueIds(c.calls) && ReaderMatches(c, handler)
    requires k < |c.calls| && !WasSent(c.calls[k])
    requires c.calls[k].Id() in c.pending && c.pending[c.calls[k].Id()] == k
    ensures c.calls[k].Id() in Do(c, a, limit).pending && Do(c, a, limit).pending[c.calls[k].Id()] == k
  {
    if a.Erase? && c.reader.response.GetId() == c.calls[k].Id() {
      ReaderElsewhere(c, handler, k);
    } else {
      EntryKept(c, a, limit, c.calls[k].Id());
    }
  }

  lemma StrandedStays(c: Dispatcher, a: Action, limit: nat, handler: Handler, k: nat)
    requires Possible(c, a) && UniqueIds(c.calls) && ReaderMatches(c, handler) && k < |c.calls|
    requires Stranded(c, k) && (a == Throw(k) ==> EntryThere(c, k))
    ensures Stranded(Do(c, a, limit), k)
  {
    OneCallChanges(c, a, limit, k);
    if c.calls[k].outcome == WriteFailed || a == Throw(k) {
      UnsentKept(c, a, limit, handler, k);
    }
  }

  /** A call that is about to write still has its entry. */
  ghost predicate EntryThere(c: Dispatcher, k: nat)
    requires k < |c.calls|
  {
    c.calls[k].At(Inserted) ==> c.calls[k].Id() in c.pending && c.pending[c.calls[k].Id()] == k
  }

  ghost predicate EntriesThere(c: Dispatcher) {
    forall k :: 0 <= k < |c.calls| ==> EntryThere(c, k)
  }

  lemma EntryStays(c: Dispatcher, a: Action, limit: nat, handler: Handler, k: nat)
    requires Possible(c, a) && UniqueIds(c.calls) && ReaderMatches(c, handler) && k < |c.calls|
    requires EntryThere(c, k)
    ensures EntryThere(Do(c, a, limit), k)
  {
    OneCallChanges(c, a, limit, k);
    if c.calls[k].At(Inserted) {
      UnsentKept(c, a, limit, handler, k);
    }
  }

  lemma DoStranded(c: Dispatcher, a: Action, limit: nat, handler: Handler)
    requires Possible(c, a) && UniqueIds(c.calls) && ReaderMatches(c, handler)
    requires EntriesThere(c) && AllStranded(c)
    ensures EntriesThere(Do(c, a, limit)) && AllStranded(Do(c, a, limit))
  {
    forall k | 0 <= k < |Do(c, a, limit).calls|
      ensures EntryThere(Do(c, a, limit), k) && Stranded(Do(c, a, limit), k)
    {
      if k < |c.calls| {
        EntryStays(c, a, limit, handler, k);
        StrandedStays(c, a, limit, handler, k);
      }
    }
  }

  lemma StepStranded(s: System, e: Event, setup: Setup)
    requires Enabled(s, e, setup) && Tracked(s.client) && UniqueIds(s.client.calls)
             && ReaderMatches(s.client, setup.handler)
    requires EntriesThere(s.client) && AllStranded(s.client)
    ensures EntriesThere(Next(s, e, setup).client) && AllStranded(Next(s, e, setup).client)
  {
    ClientMoves(s, e, setup);
    var action := ClientAction(s, e);
    if action.Some? { DoStranded(s.client, action.value, setup.limit, setup.handler); }
  }

  lemma UniqueBefore(before: seq<Call>, after: seq<Call>)
    requires Grown(before, after) && UniqueIds(after)
    ensures UniqueIds(before)
  {
    forall j, k | 0 <= j < k < |before|
      ensures before[j].Id() != before[k].Id()
    {
      assert Continues(before[j], after[j]) && Continues(before[k], after[k]);
      assert after[j].Id() != after[k].Id();
    }
  }

  lemma MovesBack(s: System, e: Event, s': System, setup: Setup)
    requires Moves(s, e, s', setup) && UniqueIds(s'.client.calls) && AllTransmissible(s'.client.calls, setup.handler)
    ensures UniqueIds(s.client.calls) && AllTransmissible(s.client.calls, setup.handler)
  {
    StepGrows(s, e, setup);
    UniqueBefore(s.client.calls, s'.client.calls);
    TransmissibleBefore(s.client.calls, s'.client.calls, setup.handler);
  }

  lemma MovesStranded(s: System, e: Event, s': System, setup: Setup)
    requires Moves(s, e, s', setup) && Tracked(s.client) && UniqueIds(s.client.calls) && Matched(s, setup.handler)
    requires EntriesThere(s.client) && AllStranded(s.client)
    ensures EntriesThere(s'.client) && AllStranded(s'.client)
  {
    StepStranded(s, e, setup);
  }

  lemma CleanBefore(trace: seq<System>, events: seq<Event>, setup: Setup, i: nat)
    requires IsRun(trace, events, setup) && i < |events|
    requires UniqueIds(trace[i + 1].client.calls) && AllTransmissible(trace[i + 1].client.calls, setup.handler)
    ensures UniqueIds(trace[i].client.calls) && AllTransmissible(trace[i].client.calls, setup.handler)
  {
    MovesBack(trace[i], events[i], trace[i + 1], setup);
  }

  lemma NextStranded(trace: seq<System>, events: seq<Event>, setup: Setup, i: nat)
    requires IsRun(trace, events, setup) && i < |events|
    requires UniqueIds(trace[i].client.calls) && AllTransmissible(trace[i].client.calls, setup.handler)
    requires EntriesThere(trace[i].client) && AllStranded(trace[i].client)
    ensures EntriesThere(trace[i + 1].client) && AllStranded(trace[i + 1].client)
  {
    RunTracked(trace, events, setup, i);
    RunMatched(trace, events, setup, i);
    MovesStranded(trace[i], events[i], trace[i + 1], setup);
  }

  lemma FirstStranded(trace: seq<System>, events: seq<Event>, setup: Setup)
    requires IsRun(trace, events, setup)
    ensures EntriesThere(trace[0].client) && AllStranded(trace[0].client)
  {
    assert trace[0].client.calls == [];
  }

  lemma {:induction false} RunStranded(trace: seq<System>, events: seq<Event>, setup: Setup, i: nat)
    requires IsRun(trace, events, setup) && i < |trace|
    requires UniqueIds(trace[i].client.calls) && AllTransmissible(trace[i].client.calls, setup.handler)
    ensures EntriesThere(trace[i].client) && AllStranded(trace[i].client)
    decreases i
  {
    if i == 0 {
      FirstStranded(trace, events, setup);
    } else {
      var j: nat := i - 1;
      CleanBefore(trace, events, setup, j);
      RunStranded(trace, events, setup, j);
      NextStranded(trace, events, setup, j);
    }
  }

  /** In every run, with unique ids and no request or answer of 65535 bytes: the entries
      that stay for good are exactly those of the inserted requests that the prepender
      throws for. When every call has been resolved or thrown out, they are all that is
      in the map, and it is empty exactly if there was no such request. */
  lemma LeakedExactly(trace: seq<System>, events: seq<Event>, setup: Setup, i: nat)
    requires IsRun(trace, events, setup) && i < |trace|
    requires UniqueIds(trace[i].client.calls) && AllTransmissible(trace[i].client.calls, setup.handler)
    ensures var c := trace[i].client;
            && (forall k :: 0 <= k < |c.calls| && c.calls[k].outcome == WriteFailed ==>
                  c.calls[k].Id() in c.pending && c.pending[c.calls[k].Id()] == k)
            && ((forall k :: 0 <= k < |c.calls| ==> c.calls[k].outcome != Unresolved) ==>
                  && (forall id :: id in c.pending ==>
                       c.pending[id] < |c.calls| && c.calls[c.pending[id]].outcome == WriteFailed)
                  && (c.pending == map[] <==> forall k :: 0 <= k < |c.calls| ==> c.calls[k].outcome != WriteFailed))
  {
    RunStranded(trace, events, setup, i);
    RunTracked(trace, events, setup, i);
    var c := trace[i].client;
    forall k | 0 <= k < |c.calls| && c.calls[k].outcome == WriteFailed
      ensures c.calls[k].Id() in c.pending && c.pending[c.calls[k].Id()] == k
    {
      assert Stranded(c, k);
    }
  }

  // ---------- One outcome ----------

  /** What has been written stays written. */
  ghost predicate Settled(before: seq<Call>, after: seq<Call>) {
    && |before| <= |after|
    && forall k :: 0 <= k < |before| ==>
         && (before[k].outcome != Unresolved ==> after[k].outcome == before[k].outcome)
         && (before[k].promise.Some? ==> after[k].promise == before[k].promise)
  }

  lemma DoSettles(c: Dispatcher, a: Action, limit: nat)
    requires Possible(c, a) && Tracked(c)
    ensures Settled(c.calls, Do(c, a, limit).calls)
  {
    var after := Do(c, a, limit).calls;
    forall k | 0 <= k < |c.calls|
      ensures c.calls[k].outcome != Unresolved ==> after[k].outcome == c.calls[k].outcome
      ensures c.calls[k].promise.Some? ==> after[k].promise == c.calls[k].promise
    {
      OneCallChanges(c, a, limit, k);
      assert Consistent(c.calls[k]);
    }
  }

  lemma StepSettles(s: System, e: Event, setup: Setup)
    requires Enabled(s, e, setup) && Tracked(s.client)
    ensures Settled(s.client.calls, Next(s, e, setup).client.calls)
  {
    ClientMoves(s, e, setup);
    var action := ClientAction(s, e);
    if action.Some? { DoSettles(s.client, action.value, setup.limit); }
  }

  lemma SettledOn(a: seq<Call>, b: seq<Call>, c: seq<Call>)
    requires Settled(a, b) && Settled(b, c)
    ensures Settled(a, c)
  {
  }

  lemma NextSettles(trace: seq<System>, events: seq<Event>, setup: Setup, i: nat)
    requires IsRun(trace, events, setup) && i < |events|
    ensures Settled(trace[i].client.calls, trace[i + 1].client.calls)
  {
    RunTracked(trace, events, setup, i);
    assert Moves(trace[i], events[i], trace[i + 1], setup);
    StepSettles(trace[i], events[i], setup);
  }

  lemma {:induction false} StaysSettled(trace: seq<System>, events: seq<Event>, setup: Setup, i: nat, j: nat)
    requires IsRun(trace, events, setup) && i <= j < |trace|
    ensures Settled(trace[i].client.calls, trace[j].client.calls)
    decreases j
  {
    if i < j {
      var k: nat := j - 1;
      StaysSettled(trace, events, setup, i, k);
      NextSettles(trace, events, setup, k);
      SettledOn(trace[i].client.calls, trace[k].client.calls, trace[k + 1].client.calls);
    }
  }

  /** In every run an outcome, once there, never changes, and neither does a promise:
      when the reader sets one it is not set yet. */
  lemma OneOutcome(trace: seq<System>, events: seq<Event>, setup: Setup, i: nat, j: nat)
    requires IsRun(trace, events, setup) && i <= j < |trace|
    ensures Settled(trace[i].client.calls, trace[j].client.calls)
    ensures trace[i].client.reader.Erased? ==>
              && trace[i].client.reader.call < |trace[i].client.calls|
              && trace[i].client.calls[trace[i].client.reader.call].promise == None
  {
    StaysSettled(trace, events, setup, i, j);
    RunTracked(trace, events, setup, i);
  }

  /** What the future of a resolved call yields, in every run: the response that was set
      if it was answered, and otherwise a message made for its request, with nothing in it
      but the request's id, the type of a response and the error of what happened. */
  lemma FutureYields(trace: seq<System>, events: seq<Event>, setup: Setup, i: nat, k: nat)
    requires IsRun(trace, events, setup) && i < |trace| && k < |trace[i].client.calls|
    ensures var call := trace[i].client.calls[k];
            var made := EMPTY.(msgType := Some(2), id := Some(call.request.GetId()));
            match call.outcome
            case Unresolved => Yield(call) == None
            case Answered(response) => Yield(call) == Some(response) && call.promise == Some(response)
            case TimedOut => Yield(call) == Some(made.(error := Some(6)))
            case LimitRejected => Yield(call) == Some(made.(error := Some(7)))
            case DuplicateRejected => Yield(call) == Some(made.(error := Some(4)))
            case WriteFailed => Yield(call) == None
  {
    RunTracked(trace, events, setup, i);
    assert Consistent(trace[i].client.calls[k]);
  }

  /** With unique ids and no message of 65535 bytes, an answered call's future yields the
      handler's result for its own service, method and payload, under its own id, service
      and method and without an error. */
  lemma AnsweredFutureYields(trace: seq<System>, events: seq<Event>, setup: Setup, i: nat, k: nat)
    requires IsRun(trace, events, setup) && i < |trace| && k < |trace[i].client.calls|
    requires UniqueIds(trace[i].client.calls) && AllTransmissible(trace[i].client.calls, setup.handler)
    requires trace[i].client.calls[k].outcome.Answered?
    ensures var call := trace[i].client.calls[k];
            var serviceId, methodId := call.request.GetServiceId(), call.request.GetMethodId();
            Yield(call) == Some(EMPTY.(
              msgType := Some(2), id := Some(call.request.GetId()),
              serviceId := Some(serviceId), methodId := Some(methodId),
              response := Some(setup.handler(serviceId, methodId, call.request.GetRequest())), error := Some(0)))
  {
    OwnAnswer(trace, events, setup, i, k);
  }

  /** In every run, with unique ids, a response for a call that has been resolved
      leaves the dispatcher as it is. */
  lemma LateResponseIsDropped(trace: seq<System>, events: seq<Event>, setup: Setup, i: nat, k: nat)
    requires IsRun(trace, events, setup) && i < |trace| && k < |trace[i].client.calls|
    requires UniqueIds(trace[i].client.calls) && trace[i].client.calls[k].outcome !in {Unresolved, WriteFailed}
    requires Enabled(trace[i], Deliver, setup) && trace[i].inbox[0].GetId() == trace[i].client.calls[k].Id()
    ensures Next(trace[i], Deliver, setup).client == trace[i].client
  {
    RunTracked(trace, events, setup, i);
    var c := trace[i].client;
    NotPending(c, k);
  }

  /** A resolved call with an id of its own has no entry. */
  lemma NotPending(c: Dispatcher, k: nat)
    requires Tracked(c) && UniqueIds(c.calls) && k < |c.calls| && c.calls[k].outcome !in {Unresolved, WriteFailed}
    ensures c.calls[k].Id() !in c.pending
  {
    forall id | id in c.pending
      ensures c.pending[id] != k && c.calls[c.pending[id]].Id() == id
    {
      assert Owned(c.calls[c.pending[id]]);
    }
  }

  ghost predicate SharesId(calls: seq<Call>, k: nat)
    requires k < |calls|
  {
    exists j :: 0 <= j < |calls| && j != k && calls[j].Id() == calls[k].Id()
  }

  /** A call is only rejected as a duplicate if another call has its id. */
  ghost predicate DuplicatesExplained(calls: seq<Call>) {
    forall k :: 0 <= k < |calls| && calls[k].outcome == DuplicateRejected ==> SharesId(calls, k)
  }

  lemma SharesIdStays(before: seq<Call>, after: seq<Call>, k: nat)
    requires Grown(before, after) && k < |before| && SharesId(before, k)
    ensures SharesId(after, k)
  {
    var j :| 0 <= j < |before| && j != k && before[j].Id() == before[k].Id();
    assert after[j].Id() == after[k].Id();
  }

  lemma NewDuplicate(c: Dispatcher, a: Action, limit: nat, k: nat)
    requires Possible(c, a) && EntriesOwned(c) && k < |Do(c, a, limit).calls|
    requires k < |c.calls| ==> c.calls[k].outcome != DuplicateRejected
    requires Do(c, a, limit).calls[k].outcome == DuplicateRejected
    ensures k < |c.calls| && SharesId(c.calls, k)
  {
    assert a == Insert(k);
    var j := c.pending[c.calls[k].Id()];
    assert Owned(c.calls[j]);
    assert j != k && c.calls[j].Id() == c.calls[k].Id();
  }

  lemma DoDuplicates(c: Dispatcher, a: Action, limit: nat)
    requires Possible(c, a) && EntriesOwned(c) && DuplicatesExplained(c.calls)
    ensures DuplicatesExplained(Do(c, a, limit).calls)
  {
    var calls' := Do(c, a, limit).calls;
    DoGrows(c, a, limit);
    forall k | 0 <= k < |calls'| && calls'[k].outcome == DuplicateRejected
      ensures SharesId(calls', k)
    {
      if k >= |c.calls| || c.calls[k].outcome != DuplicateRejected {
        NewDuplicate(c, a, limit, k);
      }
      SharesIdStays(c.calls, calls', k);
    }
  }

  lemma StepDuplicates(s: System, e: Event, s': System, setup: Setup)
    requires Moves(s, e, s', setup) && Tracked(s.client) && DuplicatesExplained(s.client.calls)
    ensures DuplicatesExplained(s'.client.calls)
  {
    ClientMoves(s, e, setup);
    var action := ClientAction(s, e);
    if action.Some? { DoDuplicates(s.client, action.value, setup.limit); }
  }

  lemma NextDuplicates(trace: seq<System>, events: seq<Event>, setup: Setup, i: nat)
    requires IsRun(trace, events, setup) && i < |events| && DuplicatesExplained(trace[i].client.calls)
    ensures DuplicatesExplained(trace[i + 1].client.calls)
  {
    RunTracked(trace, events, setup, i);
    StepDuplicates(trace[i], events[i], trace[i + 1], setup);
  }

  lemma {:induction false} RunDuplicates(trace: seq<System>, events: seq<Event>, setup: Setup, i: nat)
    requires IsRun(trace, events, setup) && i < |trace|
    ensures DuplicatesExplained(trace[i].client.calls)
    decreases i
  {
    if i == 0 {
      assert trace[0].client.calls == [];
    } else {
      RunDuplicates(trace, events, setup, i - 1);
      NextDuplicates(trace, events, setup, i - 1);
    }
  }

  /** In every run, with unique ids, no call is rejected as a duplicate. */
  lemma NoDuplicateWithUniqueIds(trace: seq<System>, events: seq<Event>, setup: Setup, i: nat, k: nat)
    requires IsRun(trace, events, setup) && i < |trace| && k < |trace[i].client.calls|
    requires UniqueIds(trace[i].client.calls)
    ensures trace[i].client.calls[k].outcome != DuplicateRejected
  {
    RunDuplicates(trace, events, setup, i);
  }

  // ---------- Accounting ----------

  predicate IsEnter(e: Event) { e.Act? && e.action.Enter? }
  predicate IsFire(e: Event) { e.Act? && e.action.Fire? }
  predicate IsThrow(e: Event) { e.Act? && e.action.Throw? }
  predicate IsUnresolved(call: Call) { call.outcome == Unresolved }
  predicate IsAnswered(call: Call) { call.outcome.Answered? }
  predicate IsTimedOut(call: Call) { call.outcome == TimedOut }
  predicate IsLimitRejected(call: Call) { call.outcome == LimitRejected }
  predicate IsDuplicateRejected(call: Call) { call.outcome == DuplicateRejected }
  predicate IsWriteFailed(call: Call) { call.outcome == WriteFailed }

  /** Every call issued is counted under exactly one outcome, calls under way among
      the unresolved; the timed-out calls are as many as the timers that fired, and the
      failed ones as the writes that threw. */
  predicate AccountedFor(happened: seq<Event>, calls: seq<Call>) {
    && Count(happened, IsEnter) == |calls|
    && |calls| == Count(calls, IsUnresolved) + Count(calls, IsAnswered) + Count(calls, IsTimedOut)
                  + Count(calls, IsLimitRejected) + Count(calls, IsDuplicateRejected) + Count(calls, IsWriteFailed)
    && Count(happened, IsFire) == Count(calls, IsTimedOut)
    && Count(happened, IsThrow) == Count(calls, IsWriteFailed)
  }

  lemma {:induction false} Accounting(trace: seq<System>, events: seq<Event>, setup: Setup, i: nat)
    requires IsRun(trace, events, setup) && i < |trace|
    ensures AccountedFor(events[..i], trace[i].client.calls)
    decreases i
  {
    if i > 0 {
      Accounting(trace, events, setup, i - 1);
      RunTracked(trace, events, setup, i - 1);
      assert events[..i] == events[..i - 1] + [events[i - 1]];
      assert Moves(trace[i - 1], events[i - 1], trace[i - 1 + 1], setup);
      StepAccounted(events[..i - 1], trace[i - 1], events[i - 1], setup);
    }
  }

  lemma StepAccounted(happened: seq<Event>, s: System, e: Event, setup: Setup)
    requires Enabled(s, e, setup) && Tracked(s.client) && AccountedFor(happened, s.client.calls)
    ensures AccountedFor(happened + [e], Next(s, e, setup).client.calls)
  {
    EveryCallCounted(Next(s, e, setup).client.calls);
    CountAppend(happened, e, IsEnter);
    CountAppend(happened, e, IsFire);
    CountAppend(happened, e, IsThrow);
    StepCounted(s, e, setup);
  }

  lemma StepCounted(s: System, e: Event, setup: Setup)
    requires Enabled(s, e, setup) && Tracked(s.client)
    ensures var after := Next(s, e, setup).client.calls;
            && Count(after, IsTimedOut) == Count(s.client.calls, IsTimedOut) + (if IsFire(e) then 1 else 0)
            && Count(after, IsWriteFailed) == Count(s.client.calls, IsWriteFailed) + (if IsThrow(e) then 1 else 0)
            && |after| == |s.client.calls| + (if IsEnter(e) then 1 else 0)
  {
    ClientMoves(s, e, setup);
    var action := ClientAction(s, e);
    if action.Some? { OutcomesCounted(s.client, action.value, setup.limit); }
  }

  lemma {:induction false} EveryCallCounted(calls: seq<Call>)
    ensures |calls| == Count(calls, IsUnresolved) + Count(calls, IsAnswered) + Count(calls, IsTimedOut)
                       + Count(calls, IsLimitRejected) + Count(calls, IsDuplicateRejected) + Count(calls, IsWriteFailed)
    decreases |calls|
  {
    if calls != [] { EveryCallCounted(calls[1..]); }
  }

  lemma OutcomesCounted(c: Dispatcher, a: Action, limit: nat)
    requires Possible(c, a) && Tracked(c)
    ensures var after := Do(c, a, limit).calls;
            && Count(after, IsTimedOut) == Count(c.calls, IsTimedOut) + (if a.Fire? then 1 else 0)
            && Count(after, IsWriteFailed) == Count(c.calls, IsWriteFailed) + (if a.Throw? then 1 else 0)
            && |after| == |c.calls| + (if a.Enter? then 1 else 0)
  {
    var after := Do(c, a, limit).calls;
    if a.Enter? {
      CountAppend(c.calls, after[|c.calls|], IsTimedOut);
      CountAppend(c.calls, after[|c.calls|], IsWriteFailed);
    } else if a.Find? || a.Erase? {
      assert after == c.calls;
    } else {
      var k := if a.SetValue? then c.reader.call else a.k;
      assert after == c.calls[k := after[k]];
      CountUpdate(c.calls, k, after[k], IsTimedOut);
      CountUpdate(c.calls, k, after[k], IsWriteFailed);
      OneCallChanges(c, a, limit, k);
      assert Consistent(c.calls[k]);
    }
  }

  /** So once every call has been resolved or thrown out, nothing has leaked if and only
      if every request that was not turned away by the limit fits. */
  lemma LeakFreeExactlyWhen(trace: seq<System>, events: seq<Event>, setup: Setup, i: nat)
    requires IsRun(trace, events, setup) && i < |trace|
    requires UniqueIds(trace[i].client.calls) && AllTransmissible(trace[i].client.calls, setup.handler)
    requires forall k :: 0 <= k < |trace[i].client.calls| ==> trace[i].client.calls[k].outcome != Unresolved
    ensures var c := trace[i].client;
            c.pending == map[]
            <==> forall k :: 0 <= k < |c.calls| && c.calls[k].outcome != LimitRejected ==> Fits(c.calls[k].request)
  {
    LeakedExactly(trace, events, setup, i);
    RunTracked(trace, events, setup, i);
    var calls := trace[i].client.calls;
    forall k | 0 <= k < |calls| && calls[k].outcome != LimitRejected
      ensures calls[k].outcome == WriteFailed <==> !Fits(calls[k].request)
    {
      assert Consistent(calls[k]);
      NoDuplicateWithUniqueIds(trace, events, setup, i, k);
      WriteFailsExactlyWhen(trace, events, setup, i, k);
    }
  }

  // ---------- What leaked entries cost ----------

  function FailedIds(calls: seq<Call>): set<int64> {
    if calls == [] then {}
    else FailedIds(calls[1..]) + (if IsWriteFailed(calls[0]) then {calls[0].Id()} else {})
  }

  lemma {:induction false} FailedIdOf(calls: seq<Call>, id: int64) returns (k: nat)
    requires id in FailedIds(calls)
    ensures k < |calls| && calls[k].Id() == id && IsWriteFailed(calls[k])
    decreases |calls|
  {
    if IsWriteFailed(calls[0]) && calls[0].Id() == id {
      k := 0;
    } else {
      k := FailedIdOf(calls[1..], id);
      k := k + 1;
    }
  }

  lemma {:induction false} FailedCounted(calls: seq<Call>)
    requires UniqueIds(calls)
    ensures |FailedIds(calls)| == Count(calls, IsWriteFailed)
    decreases |calls|
  {
    if calls != [] {
      UniqueRest(calls);
      FailedCounted(calls[1..]);
      FirstIdIsNew(calls);
    }
  }

  lemma FirstIdIsNew(calls: seq<Call>)
    requires calls != [] && UniqueIds(calls)
    ensures calls[0].Id() !in FailedIds(calls[1..])
  {
    forall id | id in FailedIds(calls[1..])
      ensures id != calls[0].Id()
    {
      var k := FailedIdOf(calls[1..], id);
      assert calls[k + 1].Id() == id;
    }
  }

  lemma UniqueRest(calls: seq<Call>)
    requires calls != [] && UniqueIds(calls)
    ensures UniqueIds(calls[1..])
  {
    forall j, k | 0 <= j < k < |calls[1..]|
      ensures calls[1..][j].Id() != calls[1..][k].Id()
    {
      assert calls[j + 1].Id() != calls[k + 1].Id();
    }
  }

  /** Each of them uses up the limit by one for good: once there are as many as the
      limit allows, every further call is rejected. */
  lemma LeaksUseUpLimit(trace: seq<System>, events: seq<Event>, setup: Setup, i: nat, k: nat)
    requires IsRun(trace, events, setup) && i < |trace|
    requires UniqueIds(trace[i].client.calls) && AllTransmissible(trace[i].client.calls, setup.handler)
    requires Enabled(trace[i], Act(CheckLimit(k)), setup)
    ensures var c := trace[i].client;
            && Count(c.calls, IsWriteFailed) <= |c.pending|
            && (Count(c.calls, IsWriteFailed) >= setup.limit ==>
                  Next(trace[i], Act(CheckLimit(k)), setup).client.calls[k].outcome == LimitRejected)
  {
    var c := trace[i].client;
    LeakedExactly(trace, events, setup, i);
    FailedCounted(c.calls);
    forall id | id in FailedIds(c.calls)
      ensures id in c.pending.Keys
    {
      var j := FailedIdOf(c.calls, id);
      assert c.calls[j].Id() in c.pending;
    }
    SubsetSize(FailedIds(c.calls), c.pending.Keys);
  }
}
