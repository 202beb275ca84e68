/** The server's in-order dispatchers. `PipelinedServerDispatcher` runs requests
    concurrently and puts the responses back into request order;
    `SerialServerDispatcher` runs them one at a time and is its specification. */
module ServerDispatcher {
  import opened MachineInt
  import opened Counting

  /** Increment of a `uint32_t` counter. */
  function Succ(x: uint32): uint32 { if x == 0xffff_ffff then 0 else x + 1 }

  /** The fields of the pipelined dispatcher. */
  datatype Reorder<Resp> = Reorder(requestId: uint32, lastWritten: uint32, responses: map<uint32, Resp>)

  function Initial<Resp>(): Reorder<Resp> { Reorder(1, 0, map[]) }

  /** Writes out every response that is next in order. */
  function Drain<Resp>(s: Reorder<Resp>): (r: (Reorder<Resp>, seq<Resp>))
    decreases |s.responses|
  {
    var next := Succ(s.lastWritten);
    if next in s.responses then
      var (s', out) := Drain(Reorder(s.requestId, next, s.responses - {next}));
      (s', [s.responses[next]] + out)
    else (s, [])
  }

  function Complete<Resp>(s: Reorder<Resp>, id: uint32, resp: Resp): (Reorder<Resp>, seq<Resp>) {
    Drain(s.(responses := s.responses[id := resp]))
  }

  class SerialServerDispatcher<Req, Resp> {
    const service: Req -> Resp
    var written: seq<Resp>

    constructor (service: Req -> Resp)
      ensures this.service == service && written == []
    {
      this.service := service;
      written := [];
    }

    /** Waits for the response and writes it. */
    method Read(request: Req)
      modifies this
      ensures written == old(written) + [service(request)]
    {
      written := written + [service(request)];
    }
  }

  class PipelinedServerDispatcher<Resp> {
    var requestId: uint32
    var lastWritten: uint32
    var responses: map<uint32, Resp>
    var written: seq<Resp>

    function State(): Reorder<Resp>
      reads this
    {
      Reorder(requestId, lastWritten, responses)
    }

    constructor ()
      ensures State() == Initial() && written == []
    {
      requestId, lastWritten, responses, written := 1, 0, map[], [];
    }

    /** Takes the next id for a request whose service call is then in flight. */
    method Read() returns (id: uint32)
      modifies this`requestId
      ensures id == old(requestId) && requestId == Succ(id)
    {
      id := requestId;
      requestId := Succ(requestId);
    }

    /** The continuation of a service call. */
    method OnResponse(id: uint32, resp: Resp)
      modifies this
      ensures State() == Complete(old(State()), id, resp).0
      ensures written == old(written) + Complete(old(State()), id, resp).1
    {
      responses := responses[id := resp];
      SendResponses();
    }

    method SendResponses()
      modifies this
      ensures State() == Drain(old(State())).0
      ensures written == old(written) + Drain(old(State())).1
    {
      var next := Succ(lastWritten);
      assert written + Drain(State()).1 == old(written) + Drain(old(State())).1;
      while next in responses
        invariant next == Succ(lastWritten)
        invariant Drain(State()).0 == Drain(old(State())).0
        invariant written + Drain(State()).1 == old(written) + Drain(old(State())).1
        decreases |responses|
      {
        ghost var out := Drain(State()).1;
        var resp := responses[next];
        assert written + out == written + [resp] + out[1..];
        responses := responses - {next};
        written := written + [resp];
        lastWritten := Succ(lastWritten);
        next := Succ(lastWritten);
      }
      assert written + [] == written;
    }
  }

  // ---------- Runs ----------

  datatype Event<Req> = Arrive(request: Req) | Finish(index: nat)

  /** The dispatcher with what has happened so far: requests in arrival order and the
      ids their continuations hold, which of them have completed, and the responses
      written. */
  datatype World<Req, Resp> = World(reorder: Reorder<Resp>, requests: seq<Req>, ids: seq<uint32>,
                                    finished: set<nat>, written: seq<Resp>)

  function Start<Req, Resp>(): World<Req, Resp> { World(Initial(), [], [], {}, []) }

  /** The value of `requestId_` after `index` requests. */
  function IdOf(index: nat): uint32 {
    if index == 0 then 1 else Succ(IdOf(index - 1))
  }

  /** The value of `lastWrittenId_` after `count` responses. */
  function LastOf(count: nat): uint32 {
    if count == 0 then 0 else IdOf(count - 1)
  }

  lemma SuccModulus(x: nat)
    ensures Succ(x % TWO_32) == (x + 1) % TWO_32
  {
  }

  lemma {:induction false} IdClosedForm(index: nat)
    ensures IdOf(index) == (index + 1) % TWO_32
  {
    if index > 0 {
      IdClosedForm(index - 1);
      SuccModulus(index);
    }
  }

  predicate Enabled<Req, Resp>(w: World<Req, Resp>, e: Event<Req>) {
    match e
    case Arrive(_) => true
    case Finish(i) => i < |w.requests| && i < |w.ids| && i !in w.finished
  }

  function Step<Req, Resp>(w: World<Req, Resp>, e: Event<Req>, service: Req -> Resp): World<Req, Resp>
    requires Enabled(w, e)
  {
    match e
    case Arrive(request) =>
      w.(reorder := w.reorder.(requestId := Succ(w.reorder.requestId)), requests := w.requests + [request],
         ids := w.ids + [w.reorder.requestId])
    case Finish(i) =>
      var (reorder, out) := Complete(w.reorder, w.ids[i], service(w.requests[i]));
      World(reorder, w.requests, w.ids, w.finished + {i}, w.written + out)
  }

  /** Requests taken and not yet answered on the wire. */
  function Outstanding<Req, Resp>(w: World<Req, Resp>): int { |w.requests| - |w.written| }

  /** A run in which at most 2^32 requests are ever outstanding. */
  ghost predicate IsRun<Req, Resp>(trace: seq<World<Req, Resp>>, events: seq<Event<Req>>, service: Req -> Resp) {
    && |trace| == |events| + 1
    && trace[0] == Start()
    && (forall k :: 0 <= k < |events| ==>
          Enabled(trace[k], events[k]) && trace[k + 1] == Step(trace[k], events[k], service))
    && (forall k :: 0 <= k < |trace| ==> Outstanding(trace[k]) <= TWO_32)
  }

  /** What the serial dispatcher writes for these requests. */
  function SerialOutput<Req, Resp>(requests: seq<Req>, service: Req -> Resp): (out: seq<Resp>)
    ensures |out| == |requests|
    ensures forall i :: 0 <= i < |requests| ==> out[i] == service(requests[i])
  {
    if requests == [] then []
    else SerialOutput(requests[..|requests| - 1], service) + [service(requests[|requests| - 1])]
  }

  /** The serial dispatcher really writes that. */
  method RunSerial<Req, Resp>(requests: seq<Req>, service: Req -> Resp) returns (written: seq<Resp>)
    ensures written == SerialOutput(requests, service)
  {
    var serial := new SerialServerDispatcher(service);
    for i := 0 to |requests|
      invariant serial.service == service
      invariant serial.written == SerialOutput(requests[..i], service)
    {
      serial.Read(requests[i]);
      assert requests[..i + 1][..i] == requests[..i];
    }
    assert requests[..|requests|] == requests;
    written := serial.written;
  }

  // ---------- The invariant ----------

  /** `k` responses are out and they are the serial ones. */
  ghost predicate Written<Req, Resp>(w: World<Req, Resp>, k: nat, service: Req -> Resp) {
    && |w.written| == k <= |w.requests| <= k + TWO_32
    && (forall i :: 0 <= i < k ==> w.written[i] == service(w.requests[i]))
    && w.reorder.requestId == IdOf(|w.requests|)
    && |w.ids| == |w.requests| && (forall i :: 0 <= i < |w.ids| ==> w.ids[i] == IdOf(i))
    && w.reorder.lastWritten == LastOf(k)
  }

  ghost predicate Completed<Req, Resp>(w: World<Req, Resp>, k: nat) {
    && (forall i :: i in w.finished ==> i < |w.requests|)
    && (forall i :: 0 <= i < k ==> i in w.finished)
  }

  /** The buffer holds the answers of the completed requests from position `low` on. */
  ghost predicate Buffered<Req, Resp>(requests: seq<Req>, finished: set<nat>, responses: map<uint32, Resp>,
                                      low: nat, service: Req -> Resp) {
    && (forall i: nat :: low <= i < |requests| && i in finished ==>
          IdOf(i) in responses && responses[IdOf(i)] == service(requests[i]))
    && (forall id :: id in responses ==> exists i: nat :: low <= i < |requests| && i in finished && id == IdOf(i))
  }

  ghost predicate Ordered<Req, Resp>(w: World<Req, Resp>, k: nat, service: Req -> Resp) {
    && Written(w, k, service)
    && Completed(w, k)
    && Buffered(w.requests, w.finished, w.reorder.responses, k, service)
  }

  lemma IdsDistinct(i: nat, j: nat)
    requires i <= j < i + TWO_32 && IdOf(i) == IdOf(j)
    ensures i == j
  {
    IdClosedForm(i);
    IdClosedForm(j);
  }

  /** One turn of the drain loop. */
  function WriteNext<Req, Resp>(w: World<Req, Resp>): World<Req, Resp>
    requires Succ(w.reorder.lastWritten) in w.reorder.responses
  {
    var next := Succ(w.reorder.lastWritten);
    w.(reorder := Reorder(w.reorder.requestId, next, w.reorder.responses - {next}),
       written := w.written + [w.reorder.responses[next]])
  }

  /** The whole drain loop. */
  function DrainWorld<Req, Resp>(w: World<Req, Resp>): World<Req, Resp> {
    w.(reorder := Drain(w.reorder).0, written := w.written + Drain(w.reorder).1)
  }

  lemma DrainByTurns<Req, Resp>(w: World<Req, Resp>)
    ensures DrainWorld(w) == if Succ(w.reorder.lastWritten) in w.reorder.responses then DrainWorld(WriteNext(w)) else w
  {
    var next := Succ(w.reorder.lastWritten);
    if next in w.reorder.responses {
      var out := Drain(WriteNext(w).reorder).1;
      assert w.written + ([w.reorder.responses[next]] + out) == (w.written + [w.reorder.responses[next]]) + out;
    } else {
      assert w.written + [] == w.written;
    }
  }

  /** Draining from an ordered state writes on to the first request that has not
      completed. */
  lemma {:induction false} DrainOrdered<Req, Resp>(w: World<Req, Resp>, k: nat, service: Req -> Resp) returns (k': nat)
    requires Ordered(w, k, service)
    ensures Ordered(DrainWorld(w), k', service) && k' !in w.finished
    decreases |w.reorder.responses|
  {
    if Succ(w.reorder.lastWritten) in w.reorder.responses {
      DrainGoesOn(w, k, service);
      k' := DrainOrdered(WriteNext(w), k + 1, service);
    } else {
      DrainStops(w, k, service);
      k' := k;
    }
  }

  lemma DrainGoesOn<Req, Resp>(w: World<Req, Resp>, k: nat, service: Req -> Resp)
    requires Ordered(w, k, service) && Succ(w.reorder.lastWritten) in w.reorder.responses
    ensures Ordered(WriteNext(w), k + 1, service) && DrainWorld(w) == DrainWorld(WriteNext(w))
    ensures |WriteNext(w).reorder.responses| < |w.reorder.responses| && WriteNext(w).finished == w.finished
  {
    DrainByTurns(w);
    WriteOne(w, k, service);
  }

  lemma DrainStops<Req, Resp>(w: World<Req, Resp>, k: nat, service: Req -> Resp)
    requires Ordered(w, k, service) && Succ(w.reorder.lastWritten) !in w.reorder.responses
    ensures DrainWorld(w) == w && k !in w.finished
  {
    DrainByTurns(w);
    NextBuffered(w, k, service);
  }

  /** The next id is buffered exactly when the next request has completed. */
  lemma NextBuffered<Req, Resp>(w: World<Req, Resp>, k: nat, service: Req -> Resp)
    requires Ordered(w, k, service)
    ensures Succ(w.reorder.lastWritten) == IdOf(k)
    ensures IdOf(k) in w.reorder.responses <==> k in w.finished
    ensures k in w.finished ==> k < |w.requests| && w.reorder.responses[IdOf(k)] == service(w.requests[k])
  {
    if IdOf(k) in w.reorder.responses {
      var i: nat :| k <= i < |w.requests| && i in w.finished && IdOf(k) == IdOf(i);
      IdsDistinct(k, i);
    }
  }

  lemma WrittenNext<Req, Resp>(w: World<Req, Resp>, k: nat, service: Req -> Resp)
    requires Written(w, k, service) && k < |w.requests| && Succ(w.reorder.lastWritten) == IdOf(k)
    requires IdOf(k) in w.reorder.responses && w.reorder.responses[IdOf(k)] == service(w.requests[k])
    ensures Written(WriteNext(w), k + 1, service)
  {
    var w' := WriteNext(w);
    forall i | 0 <= i < k + 1
      ensures w'.written[i] == service(w'.requests[i])
    {
      if i < k { assert w'.written[i] == w.written[i]; }
    }
  }

  lemma WriteOne<Req, Resp>(w: World<Req, Resp>, k: nat, service: Req -> Resp)
    requires Ordered(w, k, service) && Succ(w.reorder.lastWritten) in w.reorder.responses
    ensures Ordered(WriteNext(w), k + 1, service)
    ensures |WriteNext(w).reorder.responses| < |w.reorder.responses|
  {
    NextBuffered(w, k, service);
    WrittenNext(w, k, service);
    Unbuffer(w.requests, w.finished, w.reorder.responses, k, service);
  }

  lemma Unbuffer<Req, Resp>(requests: seq<Req>, finished: set<nat>, responses: map<uint32, Resp>,
                            low: nat, service: Req -> Resp)
    requires Buffered(requests, finished, responses, low, service) && |requests| <= low + TWO_32
    ensures Buffered(requests, finished, responses - {IdOf(low)}, low + 1, service)
  {
    forall i: nat | low + 1 <= i < |requests|
      ensures IdOf(i) != IdOf(low)
    {
      if IdOf(i) == IdOf(low) { IdsDistinct(low, i); }
    }
    forall id | id in responses && id != IdOf(low)
      ensures exists i: nat :: low + 1 <= i < |requests| && i in finished && id == IdOf(i)
    {
      var i: nat :| low <= i < |requests| && i in finished && id == IdOf(i);
      assert i != low;
    }
  }

  lemma StepOrdered<Req, Resp>(w: World<Req, Resp>, e: Event<Req>, service: Req -> Resp)
    requires Enabled(w, e) && Ordered(w, |w.written|, service) && |w.written| !in w.finished
    requires Outstanding(Step(w, e, service)) <= TWO_32
    ensures var w' := Step(w, e, service);
            Ordered(w', |w'.written|, service) && |w'.written| !in w'.finished
  {
    var k := |w.written|;
    match e
    case Arrive(request) => ArriveBuffered(w.requests, w.finished, w.reorder.responses, k, service, request);
    case Finish(i) =>
      var w' := w.(reorder := w.reorder.(responses := w.reorder.responses[IdOf(i) := service(w.requests[i])]),
                  finished := w.finished + {i});
      BufferOne(w.requests, w.finished, w.reorder.responses, k, service, i);
      var k' := DrainOrdered(w', k, service);
      assert Step(w, e, service) == DrainWorld(w');
  }

  lemma ArriveBuffered<Req, Resp>(requests: seq<Req>, finished: set<nat>, responses: map<uint32, Resp>,
                                  low: nat, service: Req -> Resp, request: Req)
    requires Buffered(requests, finished, responses, low, service)
    requires forall i :: i in finished ==> i < |requests|
    ensures Buffered(requests + [request], finished, responses, low, service)
  {
    forall id | id in responses
      ensures exists i: nat :: low <= i < |requests| + 1 && i in finished && id == IdOf(i)
    {
      var i: nat :| low <= i < |requests| && i in finished && id == IdOf(i);
    }
  }

  lemma BufferOne<Req, Resp>(requests: seq<Req>, finished: set<nat>, responses: map<uint32, Resp>,
                             low: nat, service: Req -> Resp, index: nat)
    requires Buffered(requests, finished, responses, low, service)
    requires low <= index < |requests| <= low + TWO_32
    ensures Buffered(requests, finished + {index}, responses[IdOf(index) := service(requests[index])], low, service)
  {
    forall i: nat | low <= i < |requests| && IdOf(i) == IdOf(index)
      ensures i == index
    {
      if i <= index { IdsDistinct(i, index); } else { IdsDistinct(index, i); }
    }
    var updated := responses[IdOf(index) := service(requests[index])];
    forall id | id in updated
      ensures exists i: nat :: low <= i < |requests| && i in finished + {index} && id == IdOf(i)
    {
      if id == IdOf(index) {
        assert index in finished + {index};
      } else {
        var i: nat :| low <= i < |requests| && i in finished && id == IdOf(i);
        assert i in finished + {index};
      }
    }
  }

  // ---------- The theorems ----------

  lemma {:induction false} RunOrdered<Req, Resp>(trace: seq<World<Req, Resp>>, events: seq<Event<Req>>,
                                                 service: Req -> Resp, k: nat)
    requires IsRun(trace, events, service) && k < |trace|
    ensures Ordered(trace[k], |trace[k].written|, service) && |trace[k].written| !in trace[k].finished
    decreases k
  {
    if k > 0 {
      RunOrdered(trace, events, service, k - 1);
      assert trace[k] == Step(trace[k - 1], events[k - 1], service);
      StepOrdered(trace[k - 1], events[k - 1], service);
    }
  }

  /** In every run, for every order of completion and through any number of
      wraparounds of both counters: what is written is the serial output up to the
      first request that has not completed, and what is buffered is every other
      completed response, once each. */
  lemma PipelinedRefinesSerial<Req, Resp>(trace: seq<World<Req, Resp>>, events: seq<Event<Req>>,
                                          service: Req -> Resp, k: nat)
    requires IsRun(trace, events, service) && k < |trace|
    ensures var w := trace[k];
            var n := |w.written|;
            && n <= |w.requests|
            && w.written == SerialOutput(w.requests, service)[..n]
            && (forall i :: 0 <= i < n ==> i in w.finished) && n !in w.finished
            && (forall i: nat :: n <= i < |w.requests| && i in w.finished ==>
                  IdOf(i) in w.reorder.responses && w.reorder.responses[IdOf(i)] == service(w.requests[i]))
            && |w.reorder.responses| == |w.finished| - n
  {
    RunOrdered(trace, events, service, k);
    BufferedCount(trace[k], |trace[k].written|, service);
    var serial := SerialOutput(trace[k].requests, service);
    assert trace[k].written == serial[..|trace[k].written|];
  }

  /** As many responses are buffered as requests have completed beyond the prefix. */
  lemma BufferedCount<Req, Resp>(w: World<Req, Resp>, k: nat, service: Req -> Resp)
    requires Ordered(w, k, service)
    ensures |w.reorder.responses| == |w.finished| - k
  {
    var prefix := Below(k);
    var beyond := w.finished - prefix;
    assert prefix <= w.finished;
    assert |w.finished| == |beyond| + |prefix| by { assert w.finished == beyond + prefix; }
    forall id | id in w.reorder.responses.Keys
      ensures exists i :: i in beyond && id == IdOf(i)
    {
      var i: nat :| k <= i < |w.requests| && i in w.finished && id == IdOf(i);
      assert i in beyond;
    }
    forall i | i in beyond
      ensures k <= i < k + TWO_32 && IdOf(i) in w.reorder.responses.Keys
    {
    }
    ImageSize(beyond, w.reorder.responses.Keys, k);
  }

  /** Ids are distinct over a window of 2^32 positions, so a set of positions in it
      and the set of their ids are equally large. */
  lemma {:induction false} ImageSize(positions: set<nat>, ids: set<uint32>, low: nat)
    requires forall i :: i in positions ==> low <= i < low + TWO_32 && IdOf(i) in ids
    requires forall id :: id in ids ==> exists i :: i in positions && id == IdOf(i)
    ensures |positions| == |ids|
    decreases positions
  {
    if positions == {} {
      assert ids == {};
    } else {
      var p :| p in positions;
      forall i | i in positions - {p}
        ensures IdOf(i) in ids - {IdOf(p)}
      {
        if IdOf(i) == IdOf(p) {
          if i <= p { IdsDistinct(i, p); } else { IdsDistinct(p, i); }
        }
      }
      forall id | id in ids - {IdOf(p)}
        ensures exists i :: i in positions - {p} && id == IdOf(i)
      {
        var i :| i in positions && id == IdOf(i);
        assert i in positions - {p};
      }
      ImageSize(positions - {p}, ids - {IdOf(p)}, low);
    }
  }

  /** When every request has completed, the output is the whole serial output and
      the buffer is empty. */
  lemma PipelinedCompletes<Req, Resp>(trace: seq<World<Req, Resp>>, events: seq<Event<Req>>,
                                      service: Req -> Resp, k: nat)
    requires IsRun(trace, events, service) && k < |trace|
    requires forall i: nat :: i < |trace[k].requests| ==> i in trace[k].finished
    ensures trace[k].written == SerialOutput(trace[k].requests, service)
    ensures trace[k].reorder.responses == map[]
  {
    PipelinedRefinesSerial(trace, events, service, k);
    RunOrdered(trace, events, service, k);
    var w := trace[k];
    assert |w.written| == |w.requests|;
    var serial := SerialOutput(w.requests, service);
    assert serial[..|serial|] == serial;
  }

  // ---------- Beyond the bound ----------

  function ArriveAll<Req, Resp>(w: World<Req, Resp>, requests: seq<Req>, service: Req -> Resp): World<Req, Resp> {
    if requests == [] then w
    else
      var before := ArriveAll(w, requests[..|requests| - 1], service);
      Step(before, Arrive(requests[|requests| - 1]), service)
  }

  function IdsOf(count: nat): (ids: seq<uint32>)
    ensures |ids| == count
    ensures forall i :: 0 <= i < count ==> ids[i] == IdOf(i)
  {
    if count == 0 then [] else IdsOf(count - 1) + [IdOf(count - 1)]
  }

  lemma {:induction false} ArriveAllState<Req, Resp>(requests: seq<Req>, service: Req -> Resp)
    ensures ArriveAll<Req, Resp>(Start(), requests, service)
         == World(Reorder(IdOf(|requests|), 0, map[]), requests, IdsOf(|requests|), {}, [])
    decreases |requests|
  {
    if requests != [] {
      ArriveAllState<Req, Resp>(requests[..|requests| - 1], service);
      assert requests[..|requests| - 1] + [requests[|requests| - 1]] == requests;
    }
  }

  /** The bound is sharp: with one request more outstanding, the last one shares its
      id with the first, and if it completes first its response is written first. */
  lemma OneMoreBreaksOrder<Req, Resp>(requests: seq<Req>, service: Req -> Resp)
    requires |requests| == TWO_32 + 1
    ensures var w := ArriveAll<Req, Resp>(Start(), requests, service);
            var last := |requests| - 1;
            && Outstanding(w) == TWO_32 + 1
            && Enabled(w, Finish(last))
            && Step(w, Finish(last), service).written == [service(requests[last])]
            && (service(requests[last]) != service(requests[0]) ==>
                  Step(w, Finish(last), service).written[0] != SerialOutput(requests, service)[0])
  {
    ArriveAllState<Req, Resp>(requests, service);
    LastFinishesFirst(IdOf(|requests|), requests, IdsOf(|requests|), service);
  }

  lemma LastFinishesFirst<Req, Resp>(requestId: uint32, requests: seq<Req>, ids: seq<uint32>, service: Req -> Resp)
    requires |requests| == |ids| == TWO_32 + 1 && ids[TWO_32] == IdOf(TWO_32)
    ensures var w := World(Reorder(requestId, 0, map[]), requests, ids, {}, []);
            Step(w, Finish(|requests| - 1), service).written == [service(requests[|requests| - 1])]
  {
    var last: nat := |requests| - 1;
    assert IdOf(last) == 1 by { IdClosedForm(last); }
    DrainSingle(requestId, service(requests[last]));
    assert [] + [service(requests[last])] == [service(requests[last])];
  }

  lemma DrainSingle<Resp>(requestId: uint32, resp: Resp)
    ensures Complete(Reorder(requestId, 0, map[]), 1, resp).1 == [resp]
  {
    var s := Reorder(requestId, 0, map[1 := resp]);
    assert Drain(Reorder(requestId, 1, s.responses - {1})).1 == [];
    assert [resp] + [] == [resp];
    assert map[][1 := resp] == s.responses;
  }
}
