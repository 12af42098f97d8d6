/** The one service of the program. The protobuf library is two functions here. */
module XtraTask {
  import opened Bytes
  import opened RpcCodec
  import opened RpcInstances

  const CMD_READ: u16 := 1
  const CMD_WRITE: u16 := 2

  datatype ReadRequest = Malformed | Ping | Gets | Echo(msg: Bytes) | Timeout | Undetected

  datatype ReadBody =
    | NoBody
    | PingBody(msg: Bytes)
    | GetsBody(value: Bytes)
    | EchoBody(msg: Bytes)
    | TimeoutBody(text: Bytes)

  datatype ReadResponse = ReadResponse(code: int, msg: Bytes, body: ReadBody)

  datatype Protobuf = Protobuf(unmarshal: Bytes -> ReadRequest, marshal: ReadResponse -> Bytes)

  /** The text "参数错误" in UTF-8. */
  const BAD_PARAMETER: Bytes :=
    [0xE5, 0x8F, 0x82, 0xE6, 0x95, 0xB0, 0xE9, 0x94, 0x99, 0xE8, 0xAF, 0xAF]

  function Ascii(s: string): Bytes {
    seq(|s|, i requires 0 <= i < |s| => s[i] as int % 0x80)
  }

  /** What a read request is answered with; a request without a known part is not answered. */
  function ReadAnswer(request: ReadRequest): Option<ReadResponse> {
    match request
    case Malformed => Some(ReadResponse(-1, BAD_PARAMETER, NoBody))
    case Ping => Some(ReadResponse(0, Ascii("OK"), PingBody(Ascii("[[[pong]]]"))))
    case Gets => Some(ReadResponse(0, Ascii("OK"), GetsBody(Ascii("[[[pong]]]"))))
    case Echo(msg) => Some(ReadResponse(0, Ascii("OK"), EchoBody(Ascii("echo:") + msg)))
    case Timeout => Some(ReadResponse(0, Ascii("OK"), TimeoutBody(Ascii("you should not see this."))))
    case Undetected => None
  }

  /** The one response to a request, whoever executes it and whenever. */
  function Answer(pb: Protobuf, m: RequestMessage): ResponseMessage {
    if m.header.opcode == CMD_READ then
      match ReadAnswer(pb.unmarshal(m.payload))
      case Some(r) => NewResponse(m.header.serviceId, m.header.opcode, pb.marshal(r))
      case None => NewReject(INVALID_REQUEST)
    else if m.header.opcode == CMD_WRITE then
      NewResponse(m.header.serviceId, m.header.opcode, Ascii("nicol_write_reply"))
    else
      NewReject(INVALID_REQUEST)
  }

  /** The part of a read request that is answered with this part. */
  predicate SamePart(request: ReadRequest, body: ReadBody) {
    match request
    case Ping => body.PingBody?
    case Gets => body.GetsBody?
    case Echo(_) => body.EchoBody?
    case Timeout => body.TimeoutBody?
    case _ => body.NoBody?
  }

  /** What a read request gets: nothing exactly without a known part; else an answer with the same
      part and code 0 and "OK", or code -1 and no part for what could not be read. An echo is "echo:"
      and then the request's own message; ping and gets get the same fixed text. */
  lemma ReadAnswerRight(request: ReadRequest)
    ensures ReadAnswer(request).None? <==> request.Undetected?
    ensures !request.Undetected? ==>
              var r := ReadAnswer(request).value;
              && SamePart(request, r.body)
              && (r.code == 0 <==> !request.Malformed?) && (r.code == -1 <==> request.Malformed?)
              && (!request.Malformed? ==> r.msg == [79, 75])
              && (request.Echo? ==> r.body.msg[..5] == [101, 99, 104, 111, 58] && r.body.msg[5..] == request.msg)
              && (request.Ping? ==> r.body.msg == [91, 91, 91, 112, 111, 110, 103, 93, 93, 93])
              && (request.Gets? ==> r.body.value == [91, 91, 91, 112, 111, 110, 103, 93, 93, 93])
              && (request.Timeout? ==>
                    r.body.text == [121, 111, 117, 32, 115, 104, 111, 117, 108, 100, 32, 110]
                                   + [111, 116, 32, 115, 101, 101, 32, 116, 104, 105, 115, 46])
              && (request.Malformed? ==>
                    r.msg == [0xE5, 0x8F, 0x82, 0xE6, 0x95, 0xB0, 0xE9, 0x94, 0x99, 0xE8, 0xAF, 0xAF])
  {
    hide Ascii;
    FixedTexts();
    TimeoutText();
    if request.Echo? {
      var prefix := Ascii("echo:");
      assert (prefix + request.msg)[..5] == prefix && (prefix + request.msg)[5..] == request.msg;
    }
  }

  lemma FixedTexts()
    ensures Ascii("OK") == [79, 75]
    ensures Ascii("[[[pong]]]") == [91, 91, 91, 112, 111, 110, 103, 93, 93, 93]
    ensures Ascii("echo:") == [101, 99, 104, 111, 58]
    ensures Ascii("nicol_write_reply")
         == [110, 105, 99, 111, 108, 95, 119, 114, 105, 116, 101, 95, 114, 101, 112, 108, 121]
  {
  }

  lemma TimeoutText()
    ensures Ascii("you should not see this.")
         == [121, 111, 117, 32, 115, 104, 111, 117, 108, 100, 32, 110]
           + [111, 116, 32, 115, 101, 101, 32, 116, 104, 105, 115, 46]
  {
  }

  /** A request is rejected exactly if its opcode is neither 1 nor 2, or it is a read without a known
      part. A read is replied to with the marshalled answer, a write with one fixed text, and every
      reply carries the ids of its request. */
  lemma AnswerRight(pb: Protobuf, m: RequestMessage)
    ensures var r, read := Answer(pb, m), pb.unmarshal(m.payload);
            && (r.header.status != 0 <==>
                  (m.header.opcode != 1 && m.header.opcode != 2) || (m.header.opcode == 1 && read.Undetected?))
            && (r.header.status != 0 ==> r == NewReject(4))
            && (r.header.status == 0 ==>
                  r.header.serviceId == m.header.serviceId && r.header.opcode == m.header.opcode)
            && (r.header.status == 0 && m.header.opcode == 1 ==>
                  ReadAnswer(read).Some? && r.payload == pb.marshal(ReadAnswer(read).value))
            && (m.header.opcode == 2 ==>
                  r.payload == [110, 105, 99, 111, 108, 95, 119, 114, 105, 116, 101, 95, 114, 101, 112, 108, 121])
  {
    hide ReadAnswer, Ascii;
    ReadAnswerRight(pb.unmarshal(m.payload));
    FixedTexts();
  }

  class XtraTaskService {
    const pb: Protobuf

    constructor (pb: Protobuf)
      ensures this.pb == pb
    {
      this.pb := pb;
    }

    method HandleRPC(rpcInstance: RpcInstance)
      requires rpcInstance.ConnValid() && rpcInstance.Validated()
      modifies rpcInstance`calls, rpcInstance.ConnFrame()
      ensures rpcInstance.calls == old(rpcInstance.calls) + [Answer(pb, rpcInstance.requestMessage)]
      ensures rpcInstance.ConnValid()
      ensures rpcInstance.conn != null ==>
                rpcInstance.conn.Send()
                == rpcInstance.Sent(old(rpcInstance.conn.Send()), Answer(pb, rpcInstance.requestMessage))
    {
      if rpcInstance.opcode == CMD_READ {
        ReadOpsImpl(rpcInstance);
      } else if rpcInstance.opcode == CMD_WRITE {
        WriteOpsImpl(rpcInstance);
      } else {
        rpcInstance.Reject(INVALID_REQUEST);
      }
    }

    method ReadOpsImpl(rpcInstance: RpcInstance)
      requires rpcInstance.ConnValid() && rpcInstance.Validated() && rpcInstance.opcode == CMD_READ
      modifies rpcInstance`calls, rpcInstance.ConnFrame()
      ensures rpcInstance.calls == old(rpcInstance.calls) + [Answer(pb, rpcInstance.requestMessage)]
      ensures rpcInstance.ConnValid()
      ensures rpcInstance.conn != null ==>
                rpcInstance.conn.Send()
                == rpcInstance.Sent(old(rpcInstance.conn.Send()), Answer(pb, rpcInstance.requestMessage))
    {
      if rpcInstance.requestMessage.header.opcode != CMD_READ {
        // The second look at the opcode cannot differ from the first.
        assert false;
      }
      var code, text, body := 0, Ascii("OK"), NoBody;
      var request := pb.unmarshal(rpcInstance.requestMessage.payload);
      if request.Malformed? {
        code, text := -1, BAD_PARAMETER;
      } else if request.Ping? {
        body := PingBody(Ascii("[[[pong]]]"));
      } else if request.Gets? {
        body := GetsBody(Ascii("[[[pong]]]"));
      } else if request.Echo? {
        body := EchoBody(Ascii("echo:") + request.msg);
      } else if request.Timeout? {
        body := TimeoutBody(Ascii("you should not see this."));
      } else {
        rpcInstance.Reject(INVALID_REQUEST);
        return;
      }
      rpcInstance.ReplyRpcMessage(pb.marshal(ReadResponse(code, text, body)));
    }

    method WriteOpsImpl(rpcInstance: RpcInstance)
      requires rpcInstance.ConnValid() && rpcInstance.Validated() && rpcInstance.opcode == CMD_WRITE
      modifies rpcInstance`calls, rpcInstance.ConnFrame()
      ensures rpcInstance.calls == old(rpcInstance.calls) + [Answer(pb, rpcInstance.requestMessage)]
      ensures rpcInstance.ConnValid()
      ensures rpcInstance.conn != null ==>
                rpcInstance.conn.Send()
                == rpcInstance.Sent(old(rpcInstance.conn.Send()), Answer(pb, rpcInstance.requestMessage))
    {
      rpcInstance.ReplyRpcMessage(Ascii("nicol_write_reply"));
    }
  }
}
