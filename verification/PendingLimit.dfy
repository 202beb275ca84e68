/** The limit on pending requests under racing callers. */
module PendingLimit {
  import opened MachineInt
  import opened Counting
  import opened Message
  import opened ClientDispatcher
  import opened Multiplexing
  import opened Runs
  import W = WireStack

  predicate IsChecked(call: Call) { call.phase == Checked }

  /** Threads making a call are distinct and among the callers of the setup. */
  ghost predicate CallersApart(calls: seq<Call>, callers: nat) {
    && (forall k :: 0 <= k < |calls| ==> calls[k].caller < callers)
    && (forall j, k :: 0 <= j < k < |calls| && calls[j].InProgress() && calls[k].InProgress() ==>
          calls[j].caller != calls[k].caller)
  }

  /** Callers past the check are promised an entry already. */
  ghost predicate WithinLimit(c: Dispatcher, setup: Setup) {
    && (setup.limit > 0 ==> |c.pending| + Count(c.calls, IsChecked) <= setup.limit + setup.callers - 1)
    && (setup.limit == 0 ==> |c.pending| + Count(c.calls, IsChecked) == 0)
  }

  lemma ProgressOnlyEnds(c: Dispatcher, a: Action, limit: nat, k: nat)
    requires Possible(c, a) && k < |c.calls|
    ensures Do(c, a, limit).calls[k].InProgress() ==> c.calls[k].InProgress()
  {
  }

  lemma DoCallersApart(c: Dispatcher, a: Action, setup: Setup)
    requires Possible(c, a) && CallersApart(c.calls, setup.callers)
    requires a.Enter? ==> a.caller < setup.callers && CallerFree(c, a.caller)
    ensures CallersApart(Do(c, a, setup.limit).calls, setup.callers)
  {
    var calls' := Do(c, a, setup.limit).calls;
    DoGrows(c, a, setup.limit);
    assert forall k :: 0 <= k < |c.calls| ==> Continues(c.calls[k], calls'[k]);
    forall j, k | 0 <= j < k < |calls'| && calls'[j].InProgress() && calls'[k].InProgress()
      ensures calls'[j].caller != calls'[k].caller
    {
      ProgressOnlyEnds(c, a, setup.limit, j);
      if k < |c.calls| {
        ProgressOnlyEnds(c, a, setup.limit, k);
      }
    }
  }

  lemma StepCallersApart(s: System, e: Event, setup: Setup)
    requires Enabled(s, e, setup) && CallersApart(s.client.calls, setup.callers)
    ensures CallersApart(Next(s, e, setup).client.calls, setup.callers)
  {
    ClientMoves(s, e, setup);
    var action := ClientAction(s, e);
    if action.Some? { DoCallersApart(s.client, action.value, setup); }
  }

  lemma CheckedAtMostCallers(calls: seq<Call>, callers: nat)
    requires CallersApart(calls, callers)
    ensures Count(calls, IsChecked) <= callers
  {
    DistinctLabels(calls, IsChecked, (call: Call) => call.caller, callers);
  }

  lemma CheckedChange(c: Dispatcher, a: Action, limit: nat)
    requires Possible(c, a)
    ensures Count(Do(c, a, limit).calls, IsChecked) ==
            Count(c.calls, IsChecked)
            + (if a.CheckLimit? && |c.pending| < limit then 1 else if a.Insert? then -1 else 0)
    ensures |Do(c, a, limit).pending| <= |c.pending| + (if a.Insert? then 1 else 0)
  {
    var calls' := Do(c, a, limit).calls;
    if a.Enter? {
      CountAppend(c.calls, calls'[|c.calls|], IsChecked);
    } else if !a.Find? && !a.Erase? {
      var k := if a.SetValue? then c.reader.call else a.k;
      assert calls' == c.calls[k := calls'[k]];
      CountUpdate(c.calls, k, calls'[k], IsChecked);
    }
    PendingChange(c, a, limit);
  }

  lemma PendingChange(c: Dispatcher, a: Action, limit: nat)
    requires Possible(c, a)
    ensures |Do(c, a, limit).pending| <= |c.pending| + (if a.Insert? then 1 else 0)
  {
    if a.Fire? {
      RemovalShrinks(c.pending, c.calls[a.k].Id());
    } else if a.Erase? {
      RemovalShrinks(c.pending, c.reader.response.GetId());
    }
  }

  lemma RemovalShrinks(m: map<int64, nat>, id: int64)
    ensures |m - {id}| <= |m|
  {
    SubsetSize((m - {id}).Keys, m.Keys);
  }

  lemma StepWithinLimit(s: System, e: Event, setup: Setup)
    requires Enabled(s, e, setup) && CallersApart(s.client.calls, setup.callers) && WithinLimit(s.client, setup)
    ensures WithinLimit(Next(s, e, setup).client, setup)
  {
    StepCallersApart(s, e, setup);
    CheckedAtMostCallers(Next(s, e, setup).client.calls, setup.callers);
    ClientMoves(s, e, setup);
    var action := ClientAction(s, e);
    if action.Some? { CheckedChange(s.client, action.value, setup.limit); }
  }

  lemma {:induction false} RunWithinLimit(trace: seq<System>, events: seq<Event>, setup: Setup, i: nat)
    requires IsRun(trace, events, setup) && setup.callers > 0 && i < |trace|
    ensures CallersApart(trace[i].client.calls, setup.callers) && WithinLimit(trace[i].client, setup)
    decreases i
  {
    if i > 0 {
      RunWithinLimit(trace, events, setup, i - 1);
      assert Moves(trace[i - 1], events[i - 1], trace[i - 1 + 1], setup);
      StepCallersApart(trace[i - 1], events[i - 1], setup);
      StepWithinLimit(trace[i - 1], events[i - 1], setup);
    }
  }

  /** In every run the pending map holds at most `limit + callers - 1` entries: with
      one caller the limit is kept, and with more it can be passed by one entry for
      each caller but one. With a limit of zero nothing is ever pending. */
  lemma PendingBound(trace: seq<System>, events: seq<Event>, setup: Setup, i: nat)
    requires IsRun(trace, events, setup) && setup.callers > 0 && i < |trace|
    ensures setup.limit > 0 ==> |trace[i].client.pending| <= setup.limit + setup.callers - 1
    ensures setup.limit == 0 ==> trace[i].client.pending == map[]
  {
    RunWithinLimit(trace, events, setup, i);
  }

  // ---------- The bound is reached ----------

  /** A request with nothing but an id. */
  function Numbered(id: nat): Message
    requires id < TWO_63
  {
    EMPTY.(id := Some(id))
  }

  lemma NumberedFits(id: nat)
    requires id < TWO_63
    ensures Fits(Numbered(id))
  {
    W.IdOnlyFits(id);
  }

  /** `done` calls have returned and wait; then callers 0, 1, ... have passed the
      check up to index `checked`, of which those below `landed` have their entry. */
  ghost predicate Race(c: Dispatcher, done: nat, landed: nat, checked: nat) {
    && done <= landed <= checked == |c.calls| <= TWO_63
    && (forall k :: 0 <= k < done ==> c.calls[k].phase == Returned)
    && (forall k :: done <= k < checked ==> c.calls[k].caller == k - done && c.calls[k].request == Numbered(k))
    && (forall k :: done <= k < checked ==> c.calls[k].outcome == Unresolved)
    && (forall k :: landed <= k < checked ==> c.calls[k].phase == Checked)
    && |c.pending| == landed
    && (forall id :: id in c.pending ==> id < landed)
  }

  /** The next caller enters and passes the check. */
  lemma OneChecks(s: System, done: nat, setup: Setup) returns (s': System)
    requires Reachable(s, setup) && Race(s.client, done, done, |s.client.calls|)
    requires done < setup.limit && |s.client.calls| - done < setup.callers && |s.client.calls| < TWO_63
    ensures Reachable(s', setup) && Race(s'.client, done, done, |s.client.calls| + 1)
  {
    var c, n := s.client, |s.client.calls|;
    var call := Call(n - done, Numbered(n), Entered, None, Unresolved);
    var entered := s.(client := c.(calls := c.calls + [call]));
    assert Moves(s, Act(Enter(n - done, Numbered(n))), entered, setup);
    Extend(s, Act(Enter(n - done, Numbered(n))), entered, setup);
    s' := s.(client := c.(calls := c.calls + [call.(phase := Checked)]));
    assert entered.client.calls[n := call.(phase := Checked)] == s'.client.calls;
    assert Moves(entered, Act(CheckLimit(n)), s', setup);
    Extend(entered, Act(CheckLimit(n)), s', setup);
  }

  /** The first caller past the check gets its entry. */
  lemma OneLands(s: System, done: nat, landed: nat, setup: Setup) returns (s': System)
    requires Reachable(s, setup) && Race(s.client, done, landed, |s.client.calls|) && landed < |s.client.calls|
    ensures Reachable(s', setup) && Race(s'.client, done, landed + 1, |s.client.calls|)
    ensures s'.client.calls[landed].phase == Inserted && |s'.client.calls| == |s.client.calls|
  {
    var c := s.client;
    assert c.calls[landed].Id() !in c.pending;
    s' := s.(client := c.(calls := c.calls[landed := c.calls[landed].(phase := Inserted)],
                          pending := c.pending[c.calls[landed].Id() := landed]));
    assert Moves(s, Act(Insert(landed)), s', setup);
    Extend(s, Act(Insert(landed)), s', setup);
  }

  /** The only caller finishes its call, which then waits for its answer. */
  lemma OneReturns(s: System, done: nat, setup: Setup) returns (s': System)
    requires Reachable(s, setup) && Race(s.client, done, done + 1, done + 1)
    requires s.client.calls[done].phase == Inserted
    ensures Reachable(s', setup) && Race(s'.client, done + 1, done + 1, done + 1)
  {
    var c := s.client;
    NumberedFits(done);
    var sent := s.(client := c.(calls := c.calls[done := c.calls[done].(phase := Sent)]),
                   requests := W.Put(s.requests, c.calls[done].request));
    assert Moves(s, Act(Send(done)), sent, setup);
    Extend(s, Act(Send(done)), sent, setup);
    s' := sent.(client := sent.client.(calls := sent.client.calls[done := ArmedCall(sent.client.calls[done])]));
    assert Moves(sent, Act(Arm(done)), s', setup);
    Extend(sent, Act(Arm(done)), s', setup);
  }

  lemma {:induction false} FillUp(done: nat, setup: Setup) returns (s: System)
    requires done < setup.limit < TWO_63 && setup.callers > 0
    ensures Reachable(s, setup) && Race(s.client, done, done, done)
    decreases done
  {
    if done == 0 {
      InitialReachable(setup);
      s := INITIAL;
    } else {
      s := FillUp(done - 1, setup);
      s := OneChecks(s, done - 1, setup);
      s := OneLands(s, done - 1, done - 1, setup);
      s := OneReturns(s, done - 1, setup);
    }
  }

  /** For every limit and every number of callers some run reaches the bound. */
  lemma PendingBoundReached(setup: Setup) returns (s: System)
    requires setup.limit > 0 && setup.callers > 0 && setup.limit + setup.callers <= TWO_63
    ensures Reachable(s, setup) && |s.client.pending| == setup.limit + setup.callers - 1
  {
    var done: nat := setup.limit - 1;
    s := FillUp(done, setup);
    var n := done;
    while n < done + setup.callers
      invariant done <= n <= done + setup.callers && Reachable(s, setup) && Race(s.client, done, done, n)
    {
      s := OneChecks(s, done, setup);
      n := n + 1;
    }
    var landed := done;
    while landed < n
      invariant done <= landed <= n && Reachable(s, setup) && Race(s.client, done, landed, n)
    {
      s := OneLands(s, done, landed, setup);
      landed := landed + 1;
    }
  }
}
