/** One request on its way through the server. */
module RpcInstances {
  import opened Bytes
  import opened Framing
  import opened Buffers
  import opened NetConn
  import opened RpcCodec
  import S = Sender
  import ServerConn

  /** The value a size keeps in a 32-bit signed int. */
  function ToInt32(n: nat): int {
    var r := Truncate32(n);
    if r < 0x8000_0000 then r else r - TWO_TO_32
  }

  class RpcInstance {
    /** The connection to answer on; null once it has been released. */
    const conn: ServerConn.TcpConnAsync?
    const request: Buffer
    const msgSize: int
    var requestMessage: RequestMessage
    var serviceId: u16
    var opcode: u16

    /** The responses given with `reply_rpc_message` or `reject` so far. */
    var calls: seq<ResponseMessage>

    /** The connection objects an answer changes. */
    ghost function ConnFrame(): set<object> {
      if conn == null then {} else {conn, conn.sendBuffer, conn.sendBlock}
    }

    /** The request's bytes are its own, not a buffer of the connection. */
    ghost predicate ConnValid()
      reads if conn == null then {} else {conn, conn.recvBuffer}
    {
      conn != null ==> conn.Valid() && request != conn.recvBuffer && request != conn.sendBuffer
    }

    /** The ids answered with are those of the request. */
    predicate Validated()
      reads this
    {
      serviceId == requestMessage.header.serviceId && opcode == requestMessage.header.opcode
    }

    /** What sending `response` as one frame makes of the connection's sending side. */
    ghost function Sent(before: S.Sender, response: ResponseMessage): S.Sender
      requires conn != null && S.ValidBlock(before)
    {
      S.Send(before, conn.sendMaxMsgSize, NewMessage(ResponseStr(response)))
    }

    constructor (strRequest: Bytes, conn: ServerConn.TcpConnAsync?, msgSize: nat)
      ensures this.conn == conn && fresh(request) && request.data == strRequest
      ensures this.msgSize == ToInt32(msgSize) && calls == []
      ensures serviceId == 0xFFFF && opcode == 0xFFFF
      ensures conn != null && conn.Valid() ==> ConnValid()
    {
      this.conn := conn;
      request := new Buffer(strRequest);
      this.msgSize := ToInt32(msgSize);
      requestMessage := RequestMessage(RequestHeader(0, 0, 0, 0, ZERO_WORD, ZERO_WORD), []);
      serviceId, opcode, calls := 0xFFFF, 0xFFFF, [];
    }

    /** Accepts exactly what the pure parser accepts with the right magic and version and a
        non-empty rest, yields the same header and payload, and then leaves nothing behind. */
    method ValidateRequest() returns (ok: bool)
      requires |request.data| < TWO_TO_32 && msgSize == ToInt32(|request.data|)
      modifies this`requestMessage, this`serviceId, this`opcode, request
      ensures ok <==> ValidRequest(old(request.data)).Some?
      ensures ok ==> Validated() && requestMessage == ValidRequest(old(request.data)).value && request.data == []
      ensures !ok ==>
                && requestMessage == old(requestMessage)
                && request.data == old(request.data)[if |old(request.data)| < REQUEST_HEADER_SIZE then 0
                                                     else REQUEST_HEADER_SIZE..]
      ensures var p := RequestParse(old(request.data));
              if p.Some? && p.value.header.magic == RPC_MAGIC && p.value.header.version == RPC_VERSION then
                serviceId == p.value.header.serviceId && opcode == p.value.header.opcode
              else
                serviceId == old(serviceId) && opcode == old(opcode)
    {
      hide ParseFields;
      if request.GetLength() < REQUEST_HEADER_SIZE {
        return false;
      }
      ghost var whole := request.data;
      var _, head := request.Consume(REQUEST_HEADER_SIZE);
      assert head == whole[..REQUEST_HEADER_SIZE] && request.data == whole[REQUEST_HEADER_SIZE..];
      var header := ParseFields(head);
      if header.magic != RPC_MAGIC || header.version != RPC_VERSION {
        return false;
      }
      serviceId := header.serviceId;
      opcode := header.opcode;
      var sz := (msgSize - REQUEST_HEADER_SIZE) % TWO_TO_32;
      assert sz == |request.data|;
      var _, msgStr := request.Consume(sz);
      assert msgStr == whole[REQUEST_HEADER_SIZE..];
      if msgStr == [] {
        return false;
      }
      requestMessage := RequestMessage(header, msgStr);
      return true;
    }

    /** One response is one frame behind everything sent before, and it is on its way at once if the
        connection works and has nothing else to send. Over the limit it is dropped. */
    lemma SentIsOneFrame(before: S.Sender, response: ResponseMessage)
      requires conn != null && S.Exclusive(before)
      ensures var m, after := NewMessage(ResponseStr(response)), Sent(before, response);
              if conn.sendMaxMsgSize != 0 && m.header.length > conn.sendMaxMsgSize then after == before else
                && S.Exclusive(after)
                && S.InFlight(after) + after.buffer == (S.InFlight(before) + before.buffer) + NetStr(m)
                && (CanRun(before.life) && Truncate32(|after.buffer|) != 0 ==> after.writes != [])
    {
      hide NetStr, ResponseStr;
      S.SendKeepsExclusive(before, conn.sendMaxMsgSize, NewMessage(ResponseStr(response)));
    }

    /** Answer: the response goes, as one frame, behind everything sent before on the connection. */
    method ReplyRpcMessage(msg: Bytes)
      requires ConnValid()
      modifies this`calls, ConnFrame()
      ensures calls == old(calls) + [NewResponse(serviceId, opcode, msg)]
      ensures ConnValid() && (conn != null ==> conn.Recv() == old(conn.Recv()))
      ensures conn != null ==> conn.Send() == Sent(old(conn.Send()), NewResponse(serviceId, opcode, msg))
    {
      hide ResponseStr, NewResponse, NewMessage;
      var response := NewResponse(serviceId, opcode, msg);
      calls := calls + [response];
      var netMsg := NewMessage(ResponseStr(response));
      if conn == null {
        return;
      }
      var _ := conn.AsyncSendMessage(netMsg);
    }

    method Reject(status: u8)
      requires ConnValid()
      modifies this`calls, ConnFrame()
      ensures calls == old(calls) + [NewReject(status)]
      ensures ConnValid() && (conn != null ==> conn.Recv() == old(conn.Recv()))
      ensures conn != null ==> conn.Send() == Sent(old(conn.Send()), NewReject(status))
    {
      hide ResponseStr, NewReject, NewMessage;
      var response := NewReject(status);
      calls := calls + [response];
      var netMsg := NewMessage(ResponseStr(response));
      if conn == null {
        return;
      }
      var _ := conn.AsyncSendMessage(netMsg);
    }
  }
}
