/** `pbRPCServer`: the table of registered services and the handler of one request. */
module RpcServer {
  import opened MachineInt
  import opened Message
  import R = RpcMessage
  import W = WireStack

  /** Pointers to a method's descriptor and prototypes; zero is null. */
  datatype MethodData = MethodData(descriptor: nat, requestProto: nat, responseProto: nat)

  /** A protobuf service object: its name and the methods of its descriptor, whose
      count is an `int`. */
  datatype Service = Service(address: nat, fullName: string, methods: seq<MethodData>)

  datatype ServiceData = ServiceData(rpcService: Option<Service>, methodMap: map<int32, MethodData>)

  const NULL_METHOD := MethodData(0, 0, 0)
  const NULL_SERVICE := ServiceData(None, map[])

  type Table = map<int32, ServiceData>

  predicate Registrable(s: Service) { |s.methods| < TWO_31 }

  // ---------- The table as a value ----------

  /** Method ids are the indices in the descriptor. */
  function MethodTable(methods: seq<MethodData>): (m: map<int32, MethodData>)
    requires |methods| < TWO_31
  {
    map i: int32 | 0 <= i < |methods| :: methods[i]
  }

  /** The entry of a service. Its pointer is set along with each method, so without
      methods it is never set. */
  function Registered(s: Service, stray: Option<Service>): ServiceData
    requires Registrable(s)
  {
    ServiceData(if s.methods == [] then stray else Some(s), MethodTable(s.methods))
  }

  /** The inserting lookup of an unordered_map. */
  function Touch(t: Table, serviceId: uint32): Table {
    if ToInt32(serviceId) in t then t else t[ToInt32(serviceId) := NULL_SERVICE]
  }

  function TouchMethod(t: Table, serviceId: uint32, methodId: uint32): Table {
    var t' := Touch(t, serviceId);
    var data := t'[ToInt32(serviceId)];
    if ToInt32(methodId) in data.methodMap then t'
    else t'[ToInt32(serviceId) := data.(methodMap := data.methodMap[ToInt32(methodId) := NULL_METHOD])]
  }

  datatype Operation =
    | Register(service: Service, stray: Option<Service>)   // what an unset pointer holds
    | LookUpService(serviceId: uint32)
    | LookUpMethod(serviceId: uint32, methodId: uint32)

  predicate Allowed(op: Operation) { op.Register? ==> Registrable(op.service) }

  function Perform(t: Table, op: Operation, hash: string -> uint32): Table
    requires Allowed(op)
  {
    match op
    case Register(s, stray) => t[ToInt32(hash(s.fullName)) := Registered(s, stray)]
    case LookUpService(id) => Touch(t, id)
    case LookUpMethod(id, m) => TouchMethod(t, id, m)
  }

  function PerformAll(ops: seq<Operation>, hash: string -> uint32): Table
    requires forall op :: op in ops ==> Allowed(op)
  {
    if ops == [] then map[]
    else
      assert Allowed(ops[|ops| - 1]);
      Perform(PerformAll(ops[..|ops| - 1], hash), ops[|ops| - 1], hash)
  }

  /** The last service registered under an id. */
  function LastRegistered(ops: seq<Operation>, serviceId: uint32, hash: string -> uint32): Option<Service> {
    if ops == [] then None
    else
      var op := ops[|ops| - 1];
      if op.Register? && hash(op.service.fullName) == serviceId then Some(op.service)
      else LastRegistered(ops[..|ops| - 1], serviceId, hash)
  }

  /** What a lookup of a service and a method finds. */
  function Found(t: Table, serviceId: uint32, methodId: uint32): Option<(Service, MethodData)> {
    if ToInt32(serviceId) in t && t[ToInt32(serviceId)].rpcService.Some?
       && ToInt32(methodId) in t[ToInt32(serviceId)].methodMap
       && t[ToInt32(serviceId)].methodMap[ToInt32(methodId)] != NULL_METHOD
    then Some((t[ToInt32(serviceId)].rpcService.value, t[ToInt32(serviceId)].methodMap[ToInt32(methodId)]))
    else None
  }

  /** The keys are `int32_t` and the ids `uint32_t`: no two ids share a key. */
  lemma KeysDistinct(a: uint32, b: uint32)
    requires ToInt32(a) == ToInt32(b)
    ensures a == b
  {
    assert ToUint32(ToInt32(a)) == ToUint32(a) && ToUint32(ToInt32(b)) == ToUint32(b);
  }

  /** An entry agrees with the last service registered under its id: its own
      descriptors at its own indices and null everywhere else. */
  ghost predicate Agrees(t: Table, serviceId: uint32, registered: Option<Service>) {
    var key := ToInt32(serviceId);
    match registered
    case None =>
      key in t ==>
        t[key].rpcService == None && forall m :: m in t[key].methodMap ==> t[key].methodMap[m] == NULL_METHOD
    case Some(s) =>
      && Registrable(s)
      && key in t && (s.methods != [] ==> t[key].rpcService == Some(s))
      && (forall i: int32 :: 0 <= i < |s.methods| ==> i in t[key].methodMap && t[key].methodMap[i] == s.methods[i])
      && (forall m :: m in t[key].methodMap && !(0 <= m < |s.methods|) ==> t[key].methodMap[m] == NULL_METHOD)
  }

  /** After any registrations mixed with any lookups, present or absent, every id
      resolves to the last service registered under it. */
  lemma {:induction false} RegistryAgrees(ops: seq<Operation>, serviceId: uint32, hash: string -> uint32)
    requires forall op :: op in ops ==> Allowed(op)
    ensures Agrees(PerformAll(ops, hash), serviceId, LastRegistered(ops, serviceId, hash))
    decreases |ops|
  {
    if ops != [] {
      var before := ops[..|ops| - 1];
      var op := ops[|ops| - 1];
      assert Allowed(op) && forall o :: o in before ==> o in ops;
      RegistryAgrees(before, serviceId, hash);
      PerformAgrees(PerformAll(before, hash), op, serviceId, LastRegistered(before, serviceId, hash), hash);
    }
  }

  lemma PerformAgrees(t: Table, op: Operation, serviceId: uint32, registered: Option<Service>, hash: string -> uint32)
    requires Allowed(op) && Agrees(t, serviceId, registered)
    ensures Agrees(Perform(t, op, hash), serviceId,
                   if op.Register? && hash(op.service.fullName) == serviceId then Some(op.service) else registered)
  {
    match op
    case Register(s, _) =>
      if ToInt32(hash(s.fullName)) == ToInt32(serviceId) { KeysDistinct(hash(s.fullName), serviceId); }
    case LookUpService(id) =>
      if ToInt32(id) == ToInt32(serviceId) { KeysDistinct(id, serviceId); }
    case LookUpMethod(id, m) =>
      if ToInt32(id) == ToInt32(serviceId) { KeysDistinct(id, serviceId); }
  }

  /** Lookups therefore never change what any id and method resolve to. */
  lemma LookupsAreHarmless(t: Table, op: Operation, serviceId: uint32, methodId: uint32, hash: string -> uint32)
    requires !op.Register?
    ensures Found(Perform(t, op, hash), serviceId, methodId) == Found(t, serviceId, methodId)
  {
    if ToInt32(op.serviceId) == ToInt32(serviceId) { KeysDistinct(op.serviceId, serviceId); }
  }

  /** Every valid method of the last service registered under an id is found. */
  lemma RegisteredIsFound(ops: seq<Operation>, serviceId: uint32, methodId: uint32, hash: string -> uint32)
    requires forall op :: op in ops ==> Allowed(op)
    requires LastRegistered(ops, serviceId, hash).Some?
    requires methodId < |LastRegistered(ops, serviceId, hash).value.methods|
    requires LastRegistered(ops, serviceId, hash).value.methods[methodId] != NULL_METHOD
    ensures var s := LastRegistered(ops, serviceId, hash).value;
            Found(PerformAll(ops, hash), serviceId, methodId) == Some((s, s.methods[methodId]))
  {
    RegistryAgrees(ops, serviceId, hash);
    assert ToInt32(methodId) == methodId;
  }

  // ---------- Serving ----------

  /** Running a method on serialized bytes: parse, call, serialize. */
  type Execute = (Service, MethodData, seq<byte>) -> seq<byte>

  type Handler = (uint32, uint32, seq<byte>) -> seq<byte>

  /** What the server computes for a request, from its table. */
  function HandlerOf(t: Table, execute: Execute): Handler {
    (serviceId, methodId, payload) =>
      match Found(t, serviceId, methodId)
      case None => []
      case Some((service, data)) => execute(service, data, payload)
  }

  /** The response to a request: its own id, service and method, and the result. */
  function Respond(request: Message, handler: Handler): Message {
    Message(Some(RESPONSE), Some(request.GetId()), Some(request.GetServiceId()), Some(request.GetMethodId()),
            None, Some(handler(request.GetServiceId(), request.GetMethodId(), request.GetRequest())),
            Some(NO_ERROR), [])
  }

  class PbRpcServer {
    const hash: string -> uint32
    var rpcCallMap: Table

    constructor (hash: string -> uint32)
      ensures this.hash == hash && rpcCallMap == map[]
    {
      this.hash := hash;
      rpcCallMap := map[];
    }

    /** `stray` is what the local entry's uninitialized pointer happens to hold. */
    method RegisterService(service: Service, stray: Option<Service>)
      requires Registrable(service)
      modifies this
      ensures rpcCallMap == Perform(old(rpcCallMap), Register(service, stray), hash)
    {
      var serviceId := hash(service.fullName);
      var servicetmp := ServiceData(stray, map[]);
      for i := 0 to |service.methods|
        invariant servicetmp.rpcService == if i == 0 then stray else Some(service)
        invariant servicetmp.methodMap == MethodTable(service.methods[..i])
      {
        servicetmp := ServiceData(Some(service), servicetmp.methodMap[ToInt32(i) := service.methods[i]]);
      }
      assert service.methods[..|service.methods|] == service.methods;
      rpcCallMap := rpcCallMap[ToInt32(serviceId) := servicetmp];
    }

    method GetService(serviceId: uint32) returns (service: Option<Service>)
      modifies this
      ensures rpcCallMap == Perform(old(rpcCallMap), LookUpService(serviceId), hash)
      ensures service == rpcCallMap[ToInt32(serviceId)].rpcService
    {
      if ToInt32(serviceId) !in rpcCallMap {
        rpcCallMap := rpcCallMap[ToInt32(serviceId) := NULL_SERVICE];
      }
      service := rpcCallMap[ToInt32(serviceId)].rpcService;
    }

    method GetMethod(serviceId: uint32, methodId: uint32) returns (data: MethodData)
      modifies this
      ensures rpcCallMap == Perform(old(rpcCallMap), LookUpMethod(serviceId, methodId), hash)
      ensures data == rpcCallMap[ToInt32(serviceId)].methodMap[ToInt32(methodId)]
    {
      if ToInt32(serviceId) !in rpcCallMap {
        rpcCallMap := rpcCallMap[ToInt32(serviceId) := NULL_SERVICE];
      }
      var entry := rpcCallMap[ToInt32(serviceId)];
      if ToInt32(methodId) !in entry.methodMap {
        rpcCallMap := rpcCallMap[ToInt32(serviceId) :=
          entry.(methodMap := entry.methodMap[ToInt32(methodId) := NULL_METHOD])];
      }
      data := rpcCallMap[ToInt32(serviceId)].methodMap[ToInt32(methodId)];
    }

    /** Runs the method a request names and fills in the response. The source calls
        through the pointers it finds, so the method must be there. */
    method HandleRpcCall(request: Message, response: R.RpcMessage, execute: Execute)
      requires response.Valid() && response.Value() == EMPTY
      requires Found(rpcCallMap, request.GetServiceId(), request.GetMethodId()).Some?
      modifies this, response
      ensures rpcCallMap == old(rpcCallMap)
      ensures response.Valid() && response.Value() == Respond(request, HandlerOf(rpcCallMap, execute))
      ensures var found := Found(rpcCallMap, request.GetServiceId(), request.GetMethodId()).value;
              response.Value().response == Some(execute(found.0, found.1, request.GetRequest()))
      ensures response.Value().msgType == Some(2) && response.Value().id == Some(request.GetId())
      ensures response.Value().serviceId == Some(request.GetServiceId())
      ensures response.Value().methodId == Some(request.GetMethodId())
      ensures response.Value().error == Some(0)
      ensures response.Value().request == None && response.Value().unknown == []
    {
      var service := GetService(request.GetServiceId());
      var data := GetMethod(request.GetServiceId(), request.GetMethodId());
      var result := execute(service.value, data, request.GetRequest());
      response.SetType(RESPONSE);
      response.SetId(request.GetId());
      response.SetResponse(result);
      response.SetServiceId(request.GetServiceId());
      response.SetMethodId(request.GetMethodId());
      response.SetError(NO_ERROR);
    }
  }

  /** `MultiplexServerDispatcher` with `RpcMsgService` below it: it keeps no order and
      no state of its own. */
  class MultiplexServerDispatcher {
    const server: PbRpcServer
    var written: seq<byte>

    constructor (server: PbRpcServer)
      ensures this.server == server && written == []
    {
      this.server := server;
      written := [];
    }

    /** What a worker does with one request: runs the service on a fresh response and
        writes it, if the prepender takes it. */
    method Read(request: Message, execute: Execute)
      requires Found(server.rpcCallMap, request.GetServiceId(), request.GetMethodId()).Some?
      modifies this, server
      ensures server.rpcCallMap == old(server.rpcCallMap)
      ensures var out := W.OnWire(Respond(request, HandlerOf(server.rpcCallMap, execute)));
              written == old(written) + if out.Written? then out.bytes else []
    {
      var response := new R.RpcMessage();
      server.HandleRpcCall(request, response, execute);
      var out := W.OnWire(response.Value());
      if out.Written? {
        written := written + out.bytes;
      }
    }
  }
}
