/** Blocking calls against a server: a call that succeeds returns the service's answer to its
    own request, over any number of calls and whatever happens to the connections. */
module Session {
  import opened Bytes
  import opened Framing
  import opened NetConn
  import opened RpcCodec
  import opened Sockets
  import opened SyncConn

  /** A reply that fits, with its response header, into the 32-bit length of a frame. */
  type ReplyBody = b: Bytes | |b| < TWO_TO_32 - RESPONSE_HEADER_SIZE witness []

  type RejectStatus = s: u8 | 1 <= s <= 5 witness INVALID_REQUEST

  /** What a service does with one request: reply, reject, or never answer. */
  datatype Answer = Reply(body: ReplyBody) | Refuse(status: RejectStatus) | Silent

  datatype Server = Server(recvLimit: u32, service: (u16, u16, Bytes) -> Answer)

  /** The response to the payload of one frame. */
  function ResponseTo(server: Server, str: Bytes): Option<ResponseMessage> {
    match ValidRequest(str)
    case None => Some(NewReject(INVALID_REQUEST))
    case Some(m) =>
      match server.service(m.header.serviceId, m.header.opcode, m.payload)
      case Reply(body) => Some(NewResponse(m.header.serviceId, m.header.opcode, body))
      case Refuse(status) => Some(NewReject(status))
      case Silent => None
  }

  function ReplyFrame(server: Server, m: Message): Bytes {
    match ResponseTo(server, m.payload)
    case None => []
    case Some(r) => NetStr(NewMessage(ResponseStr(r)))
  }

  function Replies(server: Server, ms: seq<Message>): Bytes {
    if ms == [] then [] else ReplyFrame(server, ms[0]) + Replies(server, ms[1..])
  }

  /** Everything a server sends on a connection that has received these bytes. */
  function ServerOutput(server: Server, received: Bytes): Bytes {
    Replies(server, Split(server.recvLimit, received).msgs)
  }

  lemma {:induction false} RepliesConcat(server: Server, a: seq<Message>, b: seq<Message>)
    ensures Replies(server, a + b) == Replies(server, a) + Replies(server, b)
  {
    hide ReplyFrame;
    if a == [] {
      assert a + b == b;
    } else {
      RepliesConcat(server, a[1..], b);
      assert (a + b)[1..] == a[1..] + b;
      Assoc(ReplyFrame(server, a[0]), Replies(server, a[1..]), Replies(server, b));
    }
  }

  lemma ServerMonotone(server: Server, a: Bytes, b: Bytes)
    ensures ServerOutput(server, a) <= ServerOutput(server, a + b)
  {
    hide ReplyFrame, Split;
    SplitMonotone(server.recvLimit, a, b);
    var before, after := Split(server.recvLimit, a).msgs, Split(server.recvLimit, a + b).msgs;
    assert after == before + after[|before|..];
    RepliesConcat(server, before, after[|before|..]);
  }

  /** Every request received so far is complete. */
  predicate Complete(server: Server, sent: Bytes) {
    var o := Split(server.recvLimit, sent);
    o.stop.NeedHeader? && o.rest == []
  }

  /** One more whole request brings one more reply, or none if its header is refused. */
  lemma OneMoreRequest(server: Server, sent: Bytes, str: Bytes)
    requires Complete(server, sent) && |str| < TWO_TO_32
    ensures var m := NewMessage(str);
            if Fits(server.recvLimit, str) then
              && Complete(server, sent + NetStr(m))
              && ServerOutput(server, sent + NetStr(m)) == ServerOutput(server, sent) + ReplyFrame(server, m)
            else
              ServerOutput(server, sent + NetStr(m)) == ServerOutput(server, sent)
  {
    hide Split, HeaderBytes, ReplyFrame, ParseHeader;
    var m, o := NewMessage(str), Split(server.recvLimit, sent);
    SplitResumeHeader(server.recvLimit, sent, o.msgs, [], NetStr(m));
    assert [] + NetStr(m) == NetStr(m);
    FrameFits(server.recvLimit, str);
    if Fits(server.recvLimit, str) {
      SplitEncode(server.recvLimit, [m]);
      assert EncodeAll([m]) == NetStr(m) + EncodeAll([]) == NetStr(m);
      RepliesConcat(server, o.msgs, [m]);
      assert Replies(server, [m]) == ReplyFrame(server, m) + Replies(server, []) == ReplyFrame(server, m);
    } else {
      SplitBadHeader(server.recvLimit, m.header, m.payload);
      assert o.msgs + [] == o.msgs;
    }
  }

  /** A stream that starts with a frame has no other first frame and no other first header. */
  lemma FirstFrame(limit: u32, msg: Message, rest: Bytes, str: Bytes)
    requires |str| < TWO_TO_32 && WellFormed(limit, msg)
    requires NetStr(msg) + rest == NetStr(NewMessage(str))
    ensures msg == NewMessage(str) && rest == []
  {
    hide HeaderBytes, Split;
    var m := NewMessage(str);
    SplitFrame(0, msg, rest);
    SplitEncode(0, [m]);
    assert EncodeAll([m]) == NetStr(m) + EncodeAll([]) == NetStr(m);
    var p := Split(0, rest);
    assert ([msg] + p.msgs)[0] == msg && p.msgs == ([msg] + p.msgs)[1..];
    SplitSound(0, rest);
    assert EncodeAll([]) + p.rest == p.rest;
  }

  lemma FirstHeader(h: Header, rest: Bytes, m: Message)
    requires HeaderBytes(h) + rest == NetStr(m)
    ensures h == m.header
  {
    assert (HeaderBytes(h) + rest)[..HEADER_SIZE] == HeaderBytes(h);
    assert NetStr(m)[..HEADER_SIZE] == HeaderBytes(m.header);
    HeaderRoundTrip(h);
    HeaderRoundTrip(m.header);
  }

  const OK: u8 := 0
  const NETWORK_CONNECT_ERROR: u8 := 11
  const NETWORK_SEND_ERROR: u8 := 12
  const NETWORK_RECV_ERROR: u8 := 13
  const RECV_FORMAT_ERROR: u8 := 21

  /** How a response looks to the caller of `serviceId`/`opcode`. The ids are compared before the
      status is looked at, so a rejection, which carries ids 0 and 0, is a format error to every
      caller but the one of service 0, opcode 0. */
  function CallerView(serviceId: u16, opcode: u16, r: ResponseMessage): (u8, Bytes) {
    if r.header.magic != RPC_MAGIC || r.header.serviceId != serviceId || r.header.opcode != opcode then
      (RECV_FORMAT_ERROR, [])
    else if r.header.status != STATUS_OK then
      (r.header.status, [])
    else
      (OK, r.payload)
  }

  /** How any payload received looks to the caller. */
  function ViewOf(serviceId: u16, opcode: u16, payload: Bytes): (u8, Bytes) {
    match ResponseParse(payload)
    case None => (RECV_FORMAT_ERROR, [])
    case Some(r) => CallerView(serviceId, opcode, r)
  }

  function RequestOf(serviceId: u16, opcode: u16, payload: Bytes): Bytes {
    RequestStr(NewRequest(serviceId, opcode, payload))
  }

  /** What the server makes of the request of a call: an empty payload is rejected, any other
      reaches the service with the caller's id, opcode and payload. */
  lemma ResponseToCall(server: Server, serviceId: u16, opcode: u16, payload: Bytes)
    ensures ResponseTo(server, RequestOf(serviceId, opcode, payload))
         == if payload == [] then Some(NewReject(INVALID_REQUEST)) else
            match server.service(serviceId, opcode, payload)
            case Reply(body) => Some(NewResponse(serviceId, opcode, body))
            case Refuse(status) => Some(NewReject(status))
            case Silent => None
  {
    hide RequestStr, RequestParse;
    RequestRoundTrip(NewRequest(serviceId, opcode, payload), RequestOf(serviceId, opcode, payload));
  }

  /** A call is told OK exactly if its payload is non-empty and the service replied, and then
      with that reply. */
  lemma OkIsOwnReply(server: Server, serviceId: u16, opcode: u16, payload: Bytes, body: Bytes)
    ensures var r := ResponseTo(server, RequestOf(serviceId, opcode, payload));
            (r.Some? && CallerView(serviceId, opcode, r.value) == (OK, body))
            <==> payload != [] && var a := server.service(serviceId, opcode, payload);
                                  a.Reply? && a.body == body
  {
    hide RequestStr;
    ResponseToCall(server, serviceId, opcode, payload);
  }

  /** The peer of a socket is the server, and nothing is buffered on the client's side. */
  ghost predicate Linked(server: Server, conn: TcpConnSync)
    reads conn.Repr()
  {
    && conn.Valid()
    && (forall sent: Bytes :: conn.socket.peer(sent) == ServerOutput(server, sent))
    && conn.recvBuffer.data == [] && conn.sendBuffer.data == []
    && (conn.connStat == Working ==> !conn.socket.disturbed)
  }

  /** Nothing is owed either way: every request sent is complete and every reply has been read. */
  ghost predicate Quiet(server: Server, conn: TcpConnSync)
    reads conn.Repr()
  {
    Linked(server, conn) && conn.socket.Incoming() == [] && Complete(server, conn.socket.outgoing)
  }

  /** Between sending a request and receiving: the server's reply to it, or nothing if the server
      refuses the frame, is all there is to read. */
  ghost predicate Awaiting(server: Server, conn: TcpConnSync, str: Bytes)
    reads conn.Repr()
  {
    && Linked(server, conn)
    && conn.socket.Incoming() == ReplyTo(server, str)
    && (Fits(server.recvLimit, str) ==> Complete(server, conn.socket.outgoing))
  }

  function ReplyTo(server: Server, str: Bytes): Bytes {
    if Fits(server.recvLimit, str) then ReplyFrame(server, NewMessage(str)) else []
  }

  /** The server takes the request and answers it, and the client's limit admits the answer. */
  predicate Answered(server: Server, limit: u32, str: Bytes) {
    && Fits(server.recvLimit, str)
    && var r := ResponseTo(server, str);
       r.Some? && Fits(limit, ResponseStr(r.value))
  }

  method NewSocket(server: Server, script: seq<Turn>) returns (socket: Socket)
    ensures socket.Valid() && forall sent: Bytes :: socket.peer(sent) == ServerOutput(server, sent)
    ensures socket.Incoming() == [] && Complete(server, socket.outgoing) && !socket.disturbed
    ensures fresh(socket) && socket.outgoing == [] && socket.writeLengths == []
  {
    hide ServerOutput, Complete;
    EmptySession(server);
    forall a: Bytes, b: Bytes
      ensures ServerOutput(server, a) <= ServerOutput(server, a + b)
    {
      ServerMonotone(server, a, b);
    }
    socket := new Socket(sent => ServerOutput(server, sent), script);
  }

  method NewConnection(server: Server, recvMaxMsgSize: u32, sendMaxMsgSize: u32, script: seq<Turn>)
    returns (conn: TcpConnSync)
    ensures Quiet(server, conn) && conn.connStat == Working && fresh(conn.Repr())
    ensures conn.recvMaxMsgSize == recvMaxMsgSize && conn.sendMaxMsgSize == sendMaxMsgSize
    ensures conn.socket.outgoing == [] && conn.socket.writeLengths == []
  {
    hide ServerOutput, Complete;
    var socket := NewSocket(server, script);
    conn := new TcpConnSync(recvMaxMsgSize, sendMaxMsgSize, socket);
  }

  /** A frame around these bytes can be sent: the 32-bit length shows all of it. */
  predicate Sendable(str: Bytes) {
    HEADER_SIZE + |str| < TWO_TO_32
  }

  /** What an empty connection sends of a frame. Bytes that are not sendable leave as a well-formed
      frame around a first part of them, or as part of a header, and the rest stays behind. */
  lemma OversizedIsCut(str: Bytes)
    ensures var frame, k := NetStr(NewMessage(str)), Truncate32(|str|);
            var sent := frame[..Truncate32(|frame|)];
            && (sent == frame <==> Sendable(str))
            && (HEADER_SIZE + k < TWO_TO_32 ==> sent == NetStr(NewMessage(str[..k])))
            && (HEADER_SIZE + k >= TWO_TO_32 ==> |sent| < HEADER_SIZE)
  {
    hide HeaderBytes;
    var m, k := NewMessage(str), Truncate32(|str|);
    var frame := NetStr(m);
    assert |frame| == HEADER_SIZE + |str|;
    if HEADER_SIZE + k < TWO_TO_32 {
      assert Truncate32(|frame|) == HEADER_SIZE + k;
      assert NewMessage(str[..k]).header == m.header;
      assert frame[..HEADER_SIZE + k] == HeaderBytes(m.header) + str[..k];
    }
  }

  /** A request that is not sendable is answered, if at all, as a different one: the server reads a
      request with the same ids and only a first part of the payload. */
  lemma OversizedIsAnotherRequest(serviceId: u16, opcode: u16, payload: Bytes)
    requires var k := Truncate32(REQUEST_HEADER_SIZE + |payload|);
             REQUEST_HEADER_SIZE <= k && HEADER_SIZE + k < TWO_TO_32
    ensures var frame, cut := NetStr(NewMessage(RequestOf(serviceId, opcode, payload))),
                              payload[..Truncate32(REQUEST_HEADER_SIZE + |payload|) - REQUEST_HEADER_SIZE];
            && frame[..Truncate32(|frame|)] == NetStr(NewMessage(RequestOf(serviceId, opcode, cut)))
            && (cut == payload <==> Sendable(RequestOf(serviceId, opcode, payload)))
  {
    hide HeaderBytes, RequestHeaderBytes, NetStr;
    var request := NewRequest(serviceId, opcode, payload);
    var str, k := RequestStr(request), Truncate32(REQUEST_HEADER_SIZE + |payload|);
    OversizedIsCut(str);
    assert str[..k] == RequestHeaderBytes(request.header) + payload[..k - REQUEST_HEADER_SIZE];
  }

  /** The frame around `str` has gone out whole, in its ceil(n / 2048) writes; or not all of these
      writes have been made, and a first part of the frame may have gone out. */
  predicate Sent(str: Bytes, whole: bool, out: Bytes, lengths: seq<nat>, out': Bytes, lengths': seq<nat>) {
    var frame := NetStr(NewMessage(str));
    if whole then out' == out + frame && lengths' == lengths + Chunks(|frame|)
    else out <= out' <= out + frame && lengths <= lengths' < lengths + Chunks(|frame|)
  }

  method SendRpcMessage(server: Server, conn: TcpConnSync, request: RequestMessage, ghost str: Bytes) returns (ok: bool)
    requires Quiet(server, conn) && str == RequestStr(request)
    modifies conn.Repr()
    ensures conn.Valid()
    ensures ok ==> old(conn.connStat) == Working
    ensures conn.sendMaxMsgSize != 0 && Truncate32(|str|) > conn.sendMaxMsgSize ==> !ok
    ensures ok && Sendable(str) ==> Awaiting(server, conn, str)
    ensures Sendable(str) ==>
              Sent(str, ok, old(conn.socket.outgoing), old(conn.socket.writeLengths),
                   conn.socket.outgoing, conn.socket.writeLengths)
    ensures ok ==> conn.connStat == Working || conn.socket.disturbed
    ensures !ok ==> conn.socket.disturbed || old(conn.connStat) != Working
                    || (conn.sendMaxMsgSize != 0 && Truncate32(|str|) > conn.sendMaxMsgSize)
  {
    hide Split, RequestStr, HeaderBytes, ReplyFrame, Complete, ServerOutput;
    ghost var sent := conn.socket.outgoing;
    var netMsg := NewMessage(RequestStr(request));
    ghost var frame := NetStr(netMsg);
    assert [] + frame == frame;
    if Sendable(str) {
      SmallLength(frame);
      OneMoreRequest(server, sent, str);
      OutputGrows(server, sent, frame, ReplyTo(server, str));
      OversizedIsCut(str);
      assert |frame| == HEADER_SIZE + |str| && frame[|frame|..] == [];
    }
    ok := conn.SendNetMessage(netMsg);
  }

  method RecvRpcMessage(server: Server, conn: TcpConnSync, ghost str: Bytes) returns (ok: bool, netMessage: Message)
    requires conn.Valid()
    modifies conn.Repr()
    ensures conn.Valid() && (old(conn.socket.disturbed) ==> conn.socket.disturbed)
    ensures conn.socket.outgoing == old(conn.socket.outgoing)
    ensures conn.socket.writeLengths == old(conn.socket.writeLengths)
    ensures old(Awaiting(server, conn, str)) && |str| < TWO_TO_32 ==>
              && (ok ==> Quiet(server, conn) && ResponseTo(server, str).Some?
                         && netMessage.payload == ResponseStr(ResponseTo(server, str).value))
              && (!ok ==> conn.socket.disturbed || old(conn.connStat) != Working
                          || !Answered(server, conn.recvMaxMsgSize, str))
  {
    hide Split, HeaderBytes, ResponseTo, Complete, ServerOutput, ResponseStr, ReplyTo, NetStr;
    ghost var awaiting := Awaiting(server, conn, str) && |str| < TWO_TO_32;
    ghost var taken;
    ok, netMessage, taken := conn.RecvNetMessage();
    assert [] + taken == taken;
    if awaiting && ok {
      ReplyReceived(server, conn.recvMaxMsgSize, str, netMessage, conn.recvBuffer.data,
                    conn.socket.Incoming(), taken);
    } else if awaiting && !conn.socket.disturbed && old(conn.connStat) == Working {
      ReplyRefused(server, conn.recvMaxMsgSize, str, conn.recvHeader, conn.recvBuffer.data,
                   conn.socket.Incoming(), taken);
    }
  }

  /** The checks on a received response, in the order in which they are made. */
  method CheckResponse(serviceId: u16, opcode: u16, netMessage: Message) returns (status: u8, respload: Bytes)
    ensures (status, respload) == ViewOf(serviceId, opcode, netMessage.payload)
  {
    var parsed := ResponseParse(netMessage.payload);
    if parsed.None? {
      return RECV_FORMAT_ERROR, [];
    }
    var response := parsed.value;
    if response.header.magic != RPC_MAGIC || response.header.serviceId != serviceId
       || response.header.opcode != opcode {
      return RECV_FORMAT_ERROR, [];
    }
    if response.header.status != STATUS_OK {
      return response.header.status, [];
    }
    return OK, response.payload;
  }

  class RpcClientImpl {
    const recvMaxMsgSize: u32
    const sendMaxMsgSize: u32
    const server: Server
    var connSync: TcpConnSync?

    /** A kept connection is quiet and has the client's limits. */
    ghost predicate Valid()
      reads this
      reads if connSync == null then {} else connSync.Repr()
    {
      connSync != null ==>
        && Quiet(server, connSync)
        && connSync.recvMaxMsgSize == recvMaxMsgSize && connSync.sendMaxMsgSize == sendMaxMsgSize
    }

    constructor (recvMaxMsgSize: u32, sendMaxMsgSize: u32, server: Server)
      ensures Valid() && connSync == null && this.server == server
      ensures this.recvMaxMsgSize == recvMaxMsgSize && this.sendMaxMsgSize == sendMaxMsgSize
    {
      this.recvMaxMsgSize, this.sendMaxMsgSize, this.server := recvMaxMsgSize, sendMaxMsgSize, server;
      connSync := null;
    }

    /** The call timer can fire at any time, between calls as well, because nothing cancels it.
        With a connection it closes that; if a failed call has released the connection, it
        dereferences a null pointer, which is the fault reported here. */
    method RpcCallTimeout() returns (fault: bool)
      requires Valid()
      modifies if connSync == null then {} else {connSync}
      ensures Valid() && (fault <==> connSync == null)
      ensures !fault ==> connSync.connStat == Closed
    {
      fault := connSync == null;
      if !fault {
        connSync.ShutdownAndCloseSocket();
      }
    }

    /** Make a connection; `ec` is how connecting turns out, `script` how the operations on the
        new connection will. */
    method Connect(ec: ErrorCode, script: seq<Turn>) returns (ok: bool)
      requires connSync == null
      modifies this`connSync
      ensures Valid() && (ok <==> connSync != null) && (ok <==> ec.Success?)
      ensures ok ==> fresh(connSync.Repr()) && connSync.connStat == Working
      ensures ok ==> connSync.socket.outgoing == [] && connSync.socket.writeLengths == []
    {
      hide Quiet;
      if !ec.Success? {
        return false;
      }
      var conn := NewConnection(server, recvMaxMsgSize, sendMaxMsgSize, script);
      connSync := conn;
      return true;
    }

    /** One blocking call. If the connection is kept, the status and payload are the caller's view
        of the server's response to this very request (if that is sendable); a send or receive
        failure discards the connection with its buffers. OK means that the service replied to this
        call, with the payload returned. A failure says how far the call came: no connection was
        made, the request has not gone out whole, or it has and no message came back. If the
        connection was usable, nothing disturbed it, the limits admit both frames and the service
        answered, the connection is kept. A request over the send limit is not sent. */
    method CallRPC(serviceId: u16, opcode: u16, payload: Bytes, ec: ErrorCode, script: seq<Turn>)
      returns (status: u8, respload: Bytes, ghost disturbed: bool, ghost used: TcpConnSync?)
      requires Valid()
      modifies this`connSync, if connSync == null then {} else connSync.Repr()
      ensures connSync != null ==> connSync == old(connSync) || fresh(connSync)
      ensures connSync == null ==> status in {11, 12, 13} && respload == []
      ensures used == null <==> old(connSync) == null && !ec.Success?
      ensures connSync == null ==> (status == 11 <==> used == null)
      ensures used == null ==> connSync == null
      ensures used != null ==> if old(connSync) == null then fresh(used) else used == old(connSync)
      ensures Sendable(RequestOf(serviceId, opcode, payload)) && used != null ==>
                var out := if old(connSync) == null then [] else old(connSync.socket.outgoing);
                var lengths := if old(connSync) == null then [] else old(connSync.socket.writeLengths);
                Sent(RequestOf(serviceId, opcode, payload), !(connSync == null && status == 12),
                     out, lengths, used.socket.outgoing, used.socket.writeLengths)
      ensures Sendable(RequestOf(serviceId, opcode, payload)) ==>
                && Valid()
                && (status == OK ==>
                      && payload != [] && server.service(serviceId, opcode, payload).Reply?
                      && respload == server.service(serviceId, opcode, payload).body)
                && (connSync != null ==> Seen(server, serviceId, opcode, payload, status, respload))
      ensures && Sendable(RequestOf(serviceId, opcode, payload))
              && (if old(connSync) == null then ec.Success? else old(connSync.connStat) == Working)
              && !disturbed
              && (sendMaxMsgSize == 0 || |RequestOf(serviceId, opcode, payload)| <= sendMaxMsgSize)
              && Answered(server, recvMaxMsgSize, RequestOf(serviceId, opcode, payload))
              ==> connSync != null
      ensures && (old(connSync) == null ==> ec.Success?)
              && sendMaxMsgSize != 0 && Truncate32(|RequestOf(serviceId, opcode, payload)|) > sendMaxMsgSize
              ==> connSync == null && status == NETWORK_SEND_ERROR
    {
      hide Split, RequestStr, ResponseStr, ResponseTo, CallerView, Quiet, Awaiting, Linked, Answered, ResponseParse,
           Sent;
      status, respload, disturbed, used := NETWORK_CONNECT_ERROR, [], false, null;
      if connSync == null {
        var connected := Connect(ec, script);
        if !connected {
          return;
        }
      }
      var conn := connSync;
      used := conn;
      var request := NewRequest(serviceId, opcode, payload);
      ghost var str := RequestOf(serviceId, opcode, payload);
      var sent := SendRpcMessage(server, conn, request, str);
      disturbed := conn.socket.disturbed;
      if !sent {
        connSync := null;
        status := NETWORK_SEND_ERROR;
        return;
      }
      var received, netMessage := RecvRpcMessage(server, conn, str);
      disturbed := conn.socket.disturbed;
      if !received {
        connSync := null;
        status := NETWORK_RECV_ERROR;
        return;
      }
      if Sendable(str) {
        ResponseRoundTrip(ResponseTo(server, str).value, netMessage.payload);
      }
      status, respload := CheckResponse(serviceId, opcode, netMessage);
      OkIsOwnReply(server, serviceId, opcode, payload, respload);
    }
  }

  /** A timed call, and the call timer firing after it: if the call has failed and released its
      connection, the timer faults. */
  method CallThenTimer(client: RpcClientImpl, serviceId: u16, opcode: u16, payload: Bytes, ec: ErrorCode,
                       script: seq<Turn>)
    returns (status: u8, fault: bool)
    requires client.Valid() && Sendable(RequestOf(serviceId, opcode, payload))
    modifies client`connSync, if client.connSync == null then {} else client.connSync.Repr()
    ensures client.Valid() && (fault <==> client.connSync == null)
    ensures && (old(client.connSync) == null ==> ec.Success?) && client.sendMaxMsgSize != 0
            && |RequestOf(serviceId, opcode, payload)| > client.sendMaxMsgSize
            ==> status == NETWORK_SEND_ERROR && fault
  {
    hide RequestStr, Quiet, Seen, Answered, Sendable;
    SmallLength(RequestOf(serviceId, opcode, payload));
    var respload;
    ghost var disturbed, used;
    status, respload, disturbed, used := client.CallRPC(serviceId, opcode, payload, ec, script);
    fault := client.RpcCallTimeout();
  }

  lemma SmallLength(str: Bytes)
    ensures Sendable(str) ==> Truncate32(|str|) == |str|
  {
  }

  /** It does happen: one call over the send limit is enough. */
  method TimerFault(server: Server) returns (status: u8, fault: bool)
    ensures status == NETWORK_SEND_ERROR && fault
  {
    hide RequestHeaderBytes;
    var client := new RpcClientImpl(0, 1, server);
    assert |RequestOf(0, 0, [])| == REQUEST_HEADER_SIZE;
    status, fault := CallThenTimer(client, 0, 0, [], Success, []);
  }

  /** The caller's view of the server's response to its own request. */
  predicate Seen(server: Server, serviceId: u16, opcode: u16, payload: Bytes, status: u8, respload: Bytes) {
    var r := ResponseTo(server, RequestOf(serviceId, opcode, payload));
    r.Some? && (status, respload) == CallerView(serviceId, opcode, r.value)
  }

  lemma EmptySession(server: Server)
    ensures ServerOutput(server, []) == [] && Complete(server, [])
  {
  }

  /** The unread bytes after the server's output has grown by `more`. */
  lemma OutputGrows(server: Server, sent: Bytes, frame: Bytes, more: Bytes)
    requires ServerOutput(server, sent + frame) == ServerOutput(server, sent) + more
    ensures ServerOutput(server, sent + frame)[|ServerOutput(server, sent)|..] == more
  {
    hide ServerOutput;
  }

  lemma ResponseShort(server: Server, str: Bytes)
    ensures ResponseTo(server, str).Some? ==> |ResponseStr(ResponseTo(server, str).value)| < TWO_TO_32
  {
    hide HeaderBytes, ResponseHeaderBytes, RequestParse;
  }

  /** What a successful receive can have found when at most the reply to `str` was there. */
  lemma ReplyReceived(server: Server, limit: u32, str: Bytes, msg: Message, buffered: Bytes, left: Bytes,
                      taken: Bytes)
    requires ReplyTo(server, str) == taken + left && taken == NetStr(msg) + buffered && WellFormed(limit, msg)
    ensures Fits(server.recvLimit, str) && ResponseTo(server, str).Some?
    ensures msg.payload == ResponseStr(ResponseTo(server, str).value) && buffered == [] && left == []
  {
    hide HeaderBytes, ResponseTo, ResponseStr;
    ResponseShort(server, str);
    Assoc(NetStr(msg), buffered, left);
    assert |ReplyTo(server, str)| >= HEADER_SIZE;
    FirstFrame(limit, msg, buffered + left, ResponseStr(ResponseTo(server, str).value));
  }

  /** A refused header can only be that of a reply over the caller's limit, or none was there. */
  lemma ReplyRefused(server: Server, limit: u32, str: Bytes, h: Header, buffered: Bytes, left: Bytes,
                     taken: Bytes)
    requires ReplyTo(server, str) == taken + left && taken == HeaderBytes(h) + buffered && !Acceptable(limit, h)
    ensures !Answered(server, limit, str)
  {
    hide HeaderBytes, ResponseTo, ResponseStr;
    var r := ResponseTo(server, str);
    if r.Some? {
      ResponseShort(server, str);
      Assoc(HeaderBytes(h), buffered, left);
      assert |ReplyTo(server, str)| >= HEADER_SIZE;
      FirstHeader(h, buffered + left, NewMessage(ResponseStr(r.value)));
      FrameFits(limit, ResponseStr(r.value));
    }
  }
}
