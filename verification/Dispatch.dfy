/** From a decoded frame to a worker: dispatcher, queue and worker loop. */
module Dispatch {
  import opened Bytes
  import opened RpcCodec
  import opened RpcInstances
  import opened XtraTask

  /** What the dispatcher does with the bytes of a request. */
  datatype Decision = RejectNow(status: u8) | Enqueue(m: RequestMessage)

  function Decide(registered: set<u16>, str: Bytes): Decision {
    match ValidRequest(str)
    case None => RejectNow(INVALID_REQUEST)
    case Some(m) => if m.header.serviceId in registered then Enqueue(m) else RejectNow(INVALID_SERVICE)
  }

  datatype ThreadStatus = Running | Suspended | Terminating

  class Executor {
    const service: XtraTaskService
    var queue: seq<RpcInstance>

    constructor (service: XtraTaskService)
      ensures this.service == service && queue == []
    {
      this.service, queue := service, [];
    }

    method HandleRPC(rpcInstance: RpcInstance)
      modifies this`queue
      ensures queue == old(queue) + [rpcInstance]
    {
      queue := queue + [rpcInstance];
    }

    /** One round of the worker loop. `inTime` says whether the wait for the queue succeeds.
        A round answers the request it takes exactly once, or touches none. */
    method ServiceRound(status: ThreadStatus, inTime: bool) returns (goOn: bool)
      requires queue != [] ==> queue[0].ConnValid() && queue[0].Validated()
      modifies this`queue
      modifies if queue == [] then {} else {queue[0]} + queue[0].ConnFrame()
      ensures goOn <==> status != Terminating
      ensures if status == Running && inTime && old(queue) != [] then
                var taken := old(queue)[0];
                && queue == old(queue)[1..] && taken.requestMessage == old(taken.requestMessage)
                && taken.calls == old(taken.calls) + [Answer(service.pb, taken.requestMessage)]
                && (taken.conn != null ==>
                      taken.conn.Send() == taken.Sent(old(taken.conn.Send()), Answer(service.pb, taken.requestMessage)))
              else
                queue == old(queue) && forall r | r in queue :: r.calls == old(r.calls)
    {
      if status == Terminating {
        return false;
      }
      if status == Suspended {
        return true;
      }
      if !inTime || queue == [] {
        return true;
      }
      var rpcInstance := queue[0];
      queue := queue[1..];
      service.HandleRPC(rpcInstance);
      return true;
    }
  }

  class Dispatcher {
    var initialized: bool
    var services: map<u16, Executor>

    constructor ()
      ensures !initialized && services == map[]
    {
      initialized, services := false, map[];
    }

    method Init()
      modifies this`initialized
      ensures initialized
    {
      initialized := true;
    }

    /** A service can only be added before `Init`; a later one for the same id replaces it. */
    method RegisterService(serviceId: u16, service: XtraTaskService, initSucceeds: bool)
      modifies this`services
      ensures if initialized || !initSucceeds then services == old(services) else
                && services.Keys == old(services).Keys + {serviceId}
                && fresh(services[serviceId]) && services[serviceId].service == service
                && services[serviceId].queue == []
                && forall id | id in services && id != serviceId :: services[id] == old(services)[id]
    {
      if initialized {
        return;
      }
      var executor := new Executor(service);
      if !initSucceeds {
        return;
      }
      services := services[serviceId := executor];
    }

    /** Either the request is rejected at once, with one call, or it is put, unanswered, at the
        end of the queue of its own service and of no other. */
    method HandleRPC(rpcInstance: RpcInstance)
      requires |rpcInstance.request.data| < TWO_TO_32
      requires rpcInstance.msgSize == ToInt32(|rpcInstance.request.data|)
      requires rpcInstance.ConnValid()
      modifies rpcInstance, rpcInstance.request, rpcInstance.ConnFrame(), services.Values
      ensures rpcInstance.ConnValid()
      ensures match Decide(services.Keys, old(rpcInstance.request.data))
              case RejectNow(status) =>
                && rpcInstance.calls == old(rpcInstance.calls) + [NewReject(status)]
                && (rpcInstance.conn != null ==>
                      rpcInstance.conn.Send() == rpcInstance.Sent(old(rpcInstance.conn.Send()), NewReject(status)))
                && forall id | id in services :: services[id].queue == old(services[id].queue)
              case Enqueue(m) =>
                && rpcInstance.calls == old(rpcInstance.calls)
                && (rpcInstance.conn != null ==> rpcInstance.conn.Send() == old(rpcInstance.conn.Send()))
                && rpcInstance.requestMessage == m && rpcInstance.Validated()
                && var chosen := services[m.header.serviceId];
                   && chosen.queue == old(chosen.queue) + [rpcInstance]
                   && forall id | id in services && services[id] != chosen ::
                        services[id].queue == old(services[id].queue)
    {
      var ok := rpcInstance.ValidateRequest();
      if !ok {
        rpcInstance.Reject(INVALID_REQUEST);
        return;
      }
      if rpcInstance.serviceId in services {
        services[rpcInstance.serviceId].HandleRPC(rpcInstance);
      } else {
        rpcInstance.Reject(INVALID_SERVICE);
      }
    }
  }
}
