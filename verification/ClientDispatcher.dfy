/** `MultiplexClientDispatcher`: matches responses to calls by request id. Calls are
    made from many threads, responses arrive on the connection's thread and timers
    fire on their own; every method here is one atomic step of one of them. */
module ClientDispatcher {
  import opened MachineInt
  import opened Message
  import P = Prepender
  import W = WireStack

  /** How far the calling thread has come in `operator()`. */
  datatype Phase = Entered | Checked | Inserted | Sent | Returned

  /** What the caller's future resolves to; a cell that is written once. */
  datatype Outcome =
    | Unresolved
    | Answered(response: Message)
    | TimedOut
    | LimitRejected
    | DuplicateRejected
    | WriteFailed                  // the write threw; there is no future

  /** One call: the promise is shared with the map of pending requests. */
  datatype Call = Call(caller: nat, request: Message, phase: Phase, promise: Option<Message>, outcome: Outcome)
  {
    function Id(): int64 { request.GetId() }

    predicate InProgress() { phase != Returned }

    /** The calling thread is at this point. */
    predicate At(p: Phase) { phase == p && outcome == Unresolved }

    /** The caller has the future, and its timer is running. */
    predicate Armed() { At(Returned) }
  }

  /** The connection's thread between the map lookup and the completed promise. */
  datatype Reader = Idle | Found(call: nat, response: Message) | Erased(call: nat, response: Message)

  datatype Dispatcher = Dispatcher(calls: seq<Call>, pending: map<int64, nat>, reader: Reader)

  const NEW_DISPATCHER := Dispatcher([], map[], Idle)

  datatype Action =
    | Enter(caller: nat, request: Message)
    | CheckLimit(k: nat)
    | Insert(k: nat)
    | Send(k: nat)
    | Throw(k: nat)
    | Arm(k: nat)
    | Fire(k: nat)
    | Find(response: Message)
    | Erase
    | SetValue

  predicate Possible(c: Dispatcher, a: Action) {
    match a
    case Enter(_, _) => true
    case CheckLimit(k) => k < |c.calls| && c.calls[k].At(Entered)
    case Insert(k) => k < |c.calls| && c.calls[k].At(Checked)
    case Send(k) => k < |c.calls| && c.calls[k].At(Inserted)
    case Throw(k) => k < |c.calls| && c.calls[k].At(Inserted)
    case Arm(k) => k < |c.calls| && c.calls[k].At(Sent)
    case Fire(k) => k < |c.calls| && c.calls[k].Armed()
    case Find(_) => c.reader.Idle?
    case Erase => c.reader.Found? && c.reader.call < |c.calls|
    case SetValue => c.reader.Erased? && c.reader.call < |c.calls|
  }

  /** Leaving `operator()` without a timer. */
  function Rejected(call: Call, outcome: Outcome): Call {
    call.(phase := Returned, outcome := outcome)
  }

  /** Arming a call whose promise is already set resolves it at once. */
  function ArmedCall(call: Call): Call {
    call.(phase := Returned, outcome := if call.promise.Some? then Answered(call.promise.value) else call.outcome)
  }

  /** A value only reaches the caller if no timeout got there first. */
  function Fulfilled(call: Call, response: Message): Call {
    call.(promise := Some(response), outcome := if call.Armed() then Answered(response) else call.outcome)
  }

  /** The effect of each step on the dispatcher. */
  function Do(c: Dispatcher, a: Action, limit: nat): Dispatcher
    requires Possible(c, a)
  {
    match a
    case Enter(caller, request) =>
      c.(calls := c.calls + [Call(caller, request, Entered, None, Unresolved)])
    case CheckLimit(k) =>
      if |c.pending| >= limit then c.(calls := c.calls[k := Rejected(c.calls[k], LimitRejected)])
      else c.(calls := c.calls[k := c.calls[k].(phase := Checked)])
    case Insert(k) =>
      if c.calls[k].Id() in c.pending then c.(calls := c.calls[k := Rejected(c.calls[k], DuplicateRejected)])
      else c.(calls := c.calls[k := c.calls[k].(phase := Inserted)], pending := c.pending[c.calls[k].Id() := k])
    case Send(k) => c.(calls := c.calls[k := c.calls[k].(phase := Sent)])
    case Throw(k) => c.(calls := c.calls[k := Rejected(c.calls[k], WriteFailed)])
    case Arm(k) => c.(calls := c.calls[k := ArmedCall(c.calls[k])])
    case Fire(k) =>
      c.(calls := c.calls[k := c.calls[k].(outcome := TimedOut)], pending := c.pending - {c.calls[k].Id()})
    case Find(response) =>
      if response.GetId() in c.pending then c.(reader := Found(c.pending[response.GetId()], response)) else c
    case Erase =>
      c.(pending := c.pending - {c.reader.response.GetId()}, reader := Erased(c.reader.call, c.reader.response))
    case SetValue =>
      c.(calls := c.calls[c.reader.call := Fulfilled(c.calls[c.reader.call], c.reader.response)], reader := Idle)
  }

  /** The message a resolved call's future yields: the response itself, or one made
      up by the dispatcher with the request's id and an error code. A call whose write
      threw has no future. */
  function Yield(call: Call): (r: Option<Message>)
    ensures r.Some? <==> !call.outcome.Unresolved? && !call.outcome.WriteFailed?
  {
    match call.outcome
    case Unresolved => None
    case WriteFailed => None
    case Answered(response) => Some(response)
    case TimedOut => Some(ErrorReply(call.request, TIMEOUT))
    case LimitRejected => Some(ErrorReply(call.request, PENDING_LIMIT))
    case DuplicateRejected => Some(ErrorReply(call.request, INVALID_REQUEST))
  }

  function ErrorReply(request: Message, error: ErrorCode): Message {
    EMPTY.(msgType := Some(RESPONSE), id := Some(request.GetId()), error := Some(error))
  }

  class MultiplexClientDispatcher {
    const reqlimit: nat
    var calls: seq<Call>
    var requests: map<int64, nat>
    var reader: Reader

    function State(): Dispatcher
      reads this
    {
      Dispatcher(calls, requests, reader)
    }

    constructor (reqLimit: nat)
      ensures reqlimit == reqLimit && State() == NEW_DISPATCHER
    {
      reqlimit, calls, requests, reader := reqLimit, [], map[], Idle;
    }

    method OnEnter(caller: nat, request: Message) returns (k: nat)
      modifies this
      ensures k == |old(calls)| && State() == Do(old(State()), Enter(caller, request), reqlimit)
    {
      k := |calls|;
      calls := calls + [Call(caller, request, Entered, None, Unresolved)];
    }

    method OnCheckLimit(k: nat) returns (ok: bool)
      requires Possible(State(), CheckLimit(k))
      modifies this
      ensures State() == Do(old(State()), CheckLimit(k), reqlimit)
      ensures ok <==> |old(requests)| < reqlimit
    {
      ok := |requests| < reqlimit;
      if ok {
        calls := calls[k := calls[k].(phase := Checked)];
      } else {
        calls := calls[k := calls[k].(phase := Returned, outcome := LimitRejected)];
      }
    }

    method OnInsert(k: nat) returns (ok: bool)
      requires Possible(State(), Insert(k))
      modifies this
      ensures State() == Do(old(State()), Insert(k), reqlimit)
      ensures ok <==> old(calls)[k].Id() !in old(requests)
    {
      var id := calls[k].request.GetId();
      ok := id !in requests;
      if ok {
        requests := requests[id := k];
        calls := calls[k := calls[k].(phase := Inserted)];
      } else {
        calls := calls[k := calls[k].(phase := Returned, outcome := DuplicateRejected)];
      }
    }

    /** The write to the pipeline. If the prepender throws, so does `operator()`. */
    method OnWrite(k: nat) returns (written: P.Outcome)
      requires Possible(State(), Send(k))
      modifies this
      ensures written == W.OnWire(old(calls)[k].request)
      ensures State() == Do(old(State()), if written.Written? then Send(k) else Throw(k), reqlimit)
    {
      written := W.OnWire(calls[k].request);
      if written.Written? {
        calls := calls[k := calls[k].(phase := Sent)];
      } else {
        calls := calls[k := calls[k].(phase := Returned, outcome := WriteFailed)];
      }
    }

    method OnArm(k: nat)
      requires Possible(State(), Arm(k))
      modifies this
      ensures State() == Do(old(State()), Arm(k), reqlimit)
    {
      if calls[k].promise.Some? {
        calls := calls[k := calls[k].(phase := Returned, outcome := Answered(calls[k].promise.value))];
      } else {
        calls := calls[k := calls[k].(phase := Returned)];
      }
    }

    /** The timeout callback. */
    method OnTimeout(k: nat)
      requires Possible(State(), Fire(k))
      modifies this
      ensures State() == Do(old(State()), Fire(k), reqlimit)
    {
      requests := requests - {calls[k].request.GetId()};
      calls := calls[k := calls[k].(outcome := TimedOut)];
    }

    method OnFind(response: Message)
      requires Possible(State(), Find(response))
      modifies this
      ensures State() == Do(old(State()), Find(response), reqlimit)
    {
      var id := response.GetId();
      if id in requests {
        reader := Found(requests[id], response);
      }
    }

    method OnErase()
      requires Possible(State(), Erase)
      modifies this
      ensures State() == Do(old(State()), Erase, reqlimit)
    {
      requests := requests - {reader.response.GetId()};
      reader := Erased(reader.call, reader.response);
    }

    method OnSetValue()
      requires Possible(State(), SetValue)
      modifies this
      ensures State() == Do(old(State()), SetValue, reqlimit)
    {
      var k := reader.call;
      var won := calls[k].phase == Returned && calls[k].outcome == Unresolved;
      calls := calls[k := calls[k].(promise := Some(reader.response))];
      if won {
        calls := calls[k := calls[k].(outcome := Answered(reader.response))];
      }
      reader := Idle;
    }

    /** `operator()` with nobody interfering. A write that throws leaves the entry, of
        which nobody is in charge any more. */
    method Invoke(caller: nat, request: Message) returns (k: nat, sent: Option<seq<byte>>)
      modifies this
      ensures k == |old(calls)| && |calls| == k + 1 && calls[..k] == old(calls) && reader == old(reader)
      ensures if |old(requests)| >= reqlimit then
                calls[k].outcome == LimitRejected && sent == None && requests == old(requests)
              else if request.GetId() in old(requests) then
                calls[k].outcome == DuplicateRejected && sent == None && requests == old(requests)
              else if !W.OnWire(request).Written? then
                calls[k].outcome == WriteFailed && sent == None && requests == old(requests)[request.GetId() := k]
              else
                && calls[k].Armed() && sent == Some(W.OnWire(request).bytes)
                && requests == old(requests)[request.GetId() := k]
      ensures |old(requests)| <= reqlimit ==> |requests| <= reqlimit
    {
      sent := None;
      k := OnEnter(caller, request);
      var ok := OnCheckLimit(k);
      if !ok {
        return;
      }
      ok := OnInsert(k);
      if !ok {
        return;
      }
      var written := OnWrite(k);
      if written.Written? {
        sent := Some(written.bytes);
        OnArm(k);
      }
    }

    /** `read` with nobody interfering. */
    method Read(response: Message)
      requires reader == Idle && forall id :: id in requests ==> requests[id] < |calls|
      modifies this
      ensures reader == Idle && |calls| == |old(calls)|
      ensures response.GetId() !in old(requests) ==> State() == old(State())
      ensures response.GetId() in old(requests) ==>
                var k := old(requests)[response.GetId()];
                && requests == old(requests) - {response.GetId()}
                && calls == old(calls)[k := Fulfilled(old(calls)[k], response)]
    {
      OnFind(response);
      if reader.Found? {
        OnErase();
        OnSetValue();
      }
    }
  }
}
