/** The server that blocking calls reach is the one the dispatcher and the service make up. */
module Served {
  import opened Bytes
  import opened Framing
  import opened RpcCodec
  import Dispatch
  import Session
  import XtraTask

  /** Every answer of the message library fits into a frame. */
  ghost predicate Small(pb: XtraTask.Protobuf) {
    forall r :: |pb.marshal(r)| < TWO_TO_32 - RESPONSE_HEADER_SIZE
  }

  /** The one service of the program, registered under some ids. */
  function Registered(registered: set<u16>, pb: XtraTask.Protobuf): (u16, u16, Bytes) -> Session.Answer {
    (serviceId: u16, opcode: u16, payload: Bytes) =>
      if serviceId !in registered then Session.Refuse(INVALID_SERVICE)
      else
        var r := XtraTask.Answer(pb, NewRequest(serviceId, opcode, payload));
        if r.header.status != STATUS_OK then Session.Refuse(INVALID_REQUEST)
        else if |r.payload| < TWO_TO_32 - RESPONSE_HEADER_SIZE then Session.Reply(r.payload)
        else Session.Silent
  }

  /** A caller gets exactly the response that the dispatcher's decision and the executed service
      give: the immediate rejection, or the service's answer to the validated request. */
  lemma ResponseIsDispatched(limit: u32, registered: set<u16>, pb: XtraTask.Protobuf, str: Bytes)
    requires Small(pb)
    ensures Session.ResponseTo(Session.Server(limit, Registered(registered, pb)), str)
         == Some(match Dispatch.Decide(registered, str)
                 case RejectNow(status) => NewReject(status)
                 case Enqueue(m) => XtraTask.Answer(pb, m))
  {
    hide RequestParse;
    match ValidRequest(str)
    case None =>
    case Some(m) =>
      var h := m.header;
      AnswerReadsIds(pb, m, NewRequest(h.serviceId, h.opcode, m.payload));
      FixedReplyShort();
  }

  lemma FixedReplyShort()
    ensures |XtraTask.Ascii("nicol_write_reply")| < TWO_TO_32 - RESPONSE_HEADER_SIZE
  {
  }

  /** The service looks at ids and payload only, and a reply repeats the ids. */
  lemma AnswerReadsIds(pb: XtraTask.Protobuf, m: RequestMessage, m': RequestMessage)
    requires m.header.serviceId == m'.header.serviceId && m.header.opcode == m'.header.opcode
    requires m.payload == m'.payload
    ensures var r := XtraTask.Answer(pb, m);
            && r == XtraTask.Answer(pb, m')
            && (r == NewReject(INVALID_REQUEST) || r == NewResponse(m.header.serviceId, m.header.opcode, r.payload))
  {
  }
}
