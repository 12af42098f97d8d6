/** Calls that do not wait: the request is sent, and the answer reaches a handler later. */
module AsyncClient {
  import opened Bytes
  import opened Framing
  import opened NetConn
  import opened RpcCodec
  import ClientConn
  import Session
  import R = Receiver
  import N = Narrowed
  import S = Sender

  const NO_ID: u16 := 0xFFFF

  /** What the handler is told. */
  datatype Report = Report(status: u8, serviceId: u16, opcode: u16, respload: Bytes)

  /** How a response looks to the handler: the ids are those of the response, and they are only
      looked at when the status is OK. */
  function HandlerView(r: ResponseMessage): Report {
    if r.header.magic != RPC_MAGIC then Report(Session.RECV_FORMAT_ERROR, NO_ID, NO_ID, [])
    else if r.header.status != STATUS_OK then Report(r.header.status, NO_ID, NO_ID, [])
    else Report(Session.OK, r.header.serviceId, r.header.opcode, r.payload)
  }

  /** A rejection always reaches the handler with its status. A blocking caller gets to see that
      status exactly when it called service 0, opcode 0. */
  lemma RejectSeen(serviceId: u16, opcode: u16, status: u8)
    requires status != STATUS_OK && status != Session.RECV_FORMAT_ERROR
    ensures HandlerView(NewReject(status)) == Report(status, NO_ID, NO_ID, [])
    ensures Session.CallerView(serviceId, opcode, NewReject(status)).0 == status
       <==> serviceId == 0 && opcode == 0
  {
  }

  /** The handler is told OK exactly if the service replied to a non-empty request, and then with
      the ids and the payload of the reply. */
  lemma HandlerSeesReply(server: Session.Server, serviceId: u16, opcode: u16, payload: Bytes, report: Report)
    requires report.status == Session.OK
    ensures var r := Session.ResponseTo(server, Session.RequestOf(serviceId, opcode, payload));
            (r.Some? && HandlerView(r.value) == report)
            <==> payload != [] && var a := server.service(serviceId, opcode, payload);
                                  a.Reply? && report == Report(Session.OK, serviceId, opcode, a.body)
  {
    hide RequestStr, Session.ResponseTo;
    Session.ResponseToCall(server, serviceId, opcode, payload);
  }

  // ---------------------------------------------------------------------
  // What the handler is told over a whole session
  // ---------------------------------------------------------------------

  /** The handler's view of one message received. */
  function ReportOf(m: Message): Report {
    match ResponseParse(m.payload)
    case None => Report(Session.RECV_FORMAT_ERROR, NO_ID, NO_ID, [])
    case Some(r) => HandlerView(r)
  }

  function Reports(ms: seq<Message>): seq<Report> {
    seq(|ms|, i requires 0 <= i < |ms| => ReportOf(ms[i]))
  }

  function Views(rs: seq<ResponseMessage>): seq<Report> {
    seq(|rs|, i requires 0 <= i < |rs| => HandlerView(rs[i]))
  }

  /** The frames these responses are sent in. */
  function Frames(rs: seq<ResponseMessage>): seq<Message> {
    seq(|rs|, i requires 0 <= i < |rs| => NewMessage(ResponseStr(rs[i])))
  }

  lemma FrameReports(rs: seq<ResponseMessage>)
    ensures Reports(Frames(rs)) == Views(rs)
  {
    hide ResponseStr, ResponseParse, HandlerView;
    forall i | 0 <= i < |rs|
      ensures ReportOf(Frames(rs)[i]) == HandlerView(rs[i])
    {
      ResponseRoundTrip(rs[i], ResponseStr(rs[i]));
    }
  }

  lemma FramesCons(r: ResponseMessage, more: seq<ResponseMessage>)
    ensures Frames([r] + more) == [NewMessage(ResponseStr(r))] + Frames(more)
    ensures EncodeAll(Frames([r] + more)) == NetStr(NewMessage(ResponseStr(r))) + EncodeAll(Frames(more))
  {
    hide NetStr, ResponseStr;
    assert Frames([r] + more)[1..] == Frames(more);
  }

  lemma NoFrames()
    ensures Frames([]) == [] && EncodeAll([]) == []
  {
  }

  /** How many responses come before the first one over the limit. */
  function Admitted(limit: u32, rs: seq<ResponseMessage>): (k: nat)
    ensures k <= |rs|
  {
    if rs == [] || !Fits(limit, ResponseStr(rs[0])) then 0 else 1 + Admitted(limit, rs[1..])
  }

  /** A stream of response frames decodes to the responses before the first one over the limit;
      the header of that one is refused. */
  lemma {:induction false} FramesSplit(limit: u32, rs: seq<ResponseMessage>)
    requires forall r | r in rs :: |ResponseStr(r)| < TWO_TO_32
    ensures var o, k := Split(limit, EncodeAll(Frames(rs))), Admitted(limit, rs);
            o.msgs == Frames(rs[..k]) && (o.stop.BadHeader? <==> k < |rs|)
  {
    hide NetStr, ResponseStr, Frames, EncodeAll, Split;
    if rs == [] {
      NoFrames();
      assert rs[..0] == [];
      SplitEncode(limit, []);
    } else {
      var r, more := rs[0], rs[1..];
      var m, later := NewMessage(ResponseStr(r)), EncodeAll(Frames(more));
      assert rs == [r] + more;
      FramesCons(r, more);
      FrameFits(limit, ResponseStr(r));
      if Fits(limit, ResponseStr(r)) {
        SplitFrame(limit, m, later);
        FramesSplit(limit, more);
        var k := Admitted(limit, more);
        assert rs[..k + 1] == [r] + more[..k];
        FramesCons(r, more[..k]);
      } else {
        NetStrCons(m, later);
        SplitBadHeader(limit, m.header, m.payload + later);
        NoFrames();
        assert rs[..0] == [];
      }
    }
  }

  lemma NetStrCons(m: Message, later: Bytes)
    ensures NetStr(m) + later == HeaderBytes(m.header) + (m.payload + later)
  {
    Assoc(HeaderBytes(m.header), m.payload, later);
  }

  /** An asynchronous session from the client's side. Whatever responses `rs` the server sends,
      in whatever order: in any run, errors, timers and closes included, the handler's reports are
      their views in the order sent, as far as the run has come and never past the first one over
      the client's limit. A run without errors that has received everything has reported exactly
      those before that one. */
  lemma SessionReports(limit: u32, rs: seq<ResponseMessage>, es: seq<R.Event>)
    requires forall r | r in rs :: |ResponseStr(r)| < TWO_TO_32
    requires R.LegalRun(limit, Client, R.Start(limit), es)
    requires R.Received(es) <= EncodeAll(Frames(rs))
    ensures var r, k := R.Run(limit, Client, R.Start(limit), es), Admitted(limit, rs);
            && Reports(r.delivered) <= Views(rs[..k])
            && (R.ErrorFree(es) && R.Received(es) == EncodeAll(Frames(rs)) ==>
                  Reports(r.delivered) == Views(rs[..k]) && (CanRun(r.life) <==> k == |rs|))
  {
    hide Split, Reports, Views, Frames, Admitted, R.Run, R.LegalRun, R.Received, ResponseStr, EncodeAll;
    var all, part := EncodeAll(Frames(rs)), R.Received(es);
    var k, r := Admitted(limit, rs), R.Run(limit, Client, R.Start(limit), es);
    FramesSplit(limit, rs);
    FrameReports(rs[..k]);
    R.ReachableTracks(limit, Client, es);
    R.TracksPrefix(limit, r, part);
    assert part + all[|part|..] == all;
    SplitMonotone(limit, part, all[|part|..]);
    ReportsPrefix(r.delivered, Frames(rs[..k]));
    if R.ErrorFree(es) && part == all {
      assert part + [] == part;
      R.PartOfStream(limit, Client, es, []);
    }
  }

  lemma ReportsSnoc(before: seq<Report>, ms: seq<Message>, i: nat)
    requires i < |ms|
    ensures before + Reports(ms[..i + 1]) == (before + Reports(ms[..i])) + [ReportOf(ms[i])]
  {
    hide ReportOf;
    assert Reports(ms[..i + 1]) == Reports(ms[..i]) + [ReportOf(ms[i])];
  }

  lemma ReportsPrefix(a: seq<Message>, b: seq<Message>)
    requires a <= b
    ensures Reports(a) <= Reports(b)
  {
    hide ReportOf;
  }

  class RpcClientImpl {
    const recvMaxMsgSize: u32
    const sendMaxMsgSize: u32
    var connAsync: ClientConn.TcpConnAsync?

    /** The calls of the user's handler, oldest first. */
    var reports: seq<Report>
    /** Those made before the present connection was. */
    ghost var before: seq<Report>

    /** Every message of the present connection has been reported once, in order. */
    ghost predicate Valid()
      reads this, if connAsync == null then {} else {connAsync, connAsync.recvBuffer}
    {
      connAsync != null ==>
        && connAsync.Valid() && connAsync.hasHandler
        && connAsync.recvMaxMsgSize == recvMaxMsgSize && connAsync.sendMaxMsgSize == sendMaxMsgSize
        && reports == before + Reports(connAsync.handled)
    }

    constructor (recvMaxMsgSize: u32, sendMaxMsgSize: u32)
      ensures Valid() && connAsync == null && reports == []
      ensures this.recvMaxMsgSize == recvMaxMsgSize && this.sendMaxMsgSize == sendMaxMsgSize
    {
      this.recvMaxMsgSize, this.sendMaxMsgSize, connAsync, reports := recvMaxMsgSize, sendMaxMsgSize, null, [];
      before := [];
    }

    /** `async_recv_wrapper`: one call of the handler for every message received. */
    method AsyncRecvWrapper(netMessage: Message)
      modifies this`reports
      ensures reports == old(reports) + [ReportOf(netMessage)]
    {
      var status, serviceId, opcode, respload := Session.OK, NO_ID, NO_ID, [];
      var parsed := ResponseParse(netMessage.payload);
      if parsed.None? {
        status := Session.RECV_FORMAT_ERROR;
      } else if parsed.value.header.magic != RPC_MAGIC {
        status := Session.RECV_FORMAT_ERROR;
      } else if parsed.value.header.status != STATUS_OK {
        status := parsed.value.header.status;
      } else {
        serviceId, opcode := parsed.value.header.serviceId, parsed.value.header.opcode;
        respload := parsed.value.payload;
      }
      reports := reports + [Report(status, serviceId, opcode, respload)];
    }

    /** A read completes: the connection takes its step, and the callback is called for every
        message that completes. */
    method ReadCompleted(ec: ErrorCode, bytesTransferred: nat)
      requires Valid() && connAsync != null && !connAsync.readOp.Idle?
      requires ec.Success? ==> connAsync.readOp.atLeast <= bytesTransferred <= IO_BLOCK_SIZE
      modifies this`reports, connAsync`connStat, connAsync`recvHeader, connAsync`readOp, connAsync`handled,
               connAsync`called, connAsync.recvBuffer
      ensures Valid() && connAsync == old(connAsync)
      ensures var e := if ec.Success? then R.Completed(connAsync.recvBlock[..bytesTransferred]) else R.Failed(ec);
              && R.Enabled(old(connAsync.Recv()), e)
              && connAsync.Recv() == N.Step(recvMaxMsgSize, Client, old(connAsync.Recv()), e)
    {
      hide N.Step, N.Waiting, N.StaysShort, Reports, ReportOf;
      var conn := connAsync;
      ghost var was, seen := conn.Recv(), conn.called;
      ghost var e := if ec.Success? then R.Completed(conn.recvBlock[..bytesTransferred]) else R.Failed(ec);
      N.StepExtends(recvMaxMsgSize, Client, was, e);
      var i := |conn.called|;
      if conn.readOp.HeaderRead? {
        conn.ReadHandler(ec, bytesTransferred);
      } else {
        conn.ReadMsgHandler(ec, bytesTransferred);
      }
      assert conn.Recv() == N.Step(recvMaxMsgSize, Client, was, e);
      assert conn.called[..i] == seen;
      while i < |conn.called|
        modifies this`reports
        invariant i <= |conn.called|
        invariant reports == before + Reports(conn.called[..i])
      {
        AsyncRecvWrapper(conn.called[i]);
        ReportsSnoc(before, conn.called, i);
        i := i + 1;
      }
      assert conn.called[..i] == conn.called;
    }

    /** A connection is made: it is reading and has nothing to send. */
    method Connect(ec: ErrorCode) returns (ok: bool)
      requires connAsync == null
      modifies this`connAsync, this`before
      ensures Valid() && (ok <==> connAsync != null) && (ok <==> ec.Success?)
      ensures ok ==>
                && fresh(connAsync) && fresh(connAsync.recvBuffer) && fresh(connAsync.recvBlock)
                && fresh(connAsync.sendBuffer) && fresh(connAsync.sendBlock)
                && connAsync.Recv() == R.Start(recvMaxMsgSize) && connAsync.Send() == S.New(Client)
    {
      hide R.Start, N.Waiting;
      if !ec.Success? {
        return false;
      }
      R.StartState(recvMaxMsgSize);
      var conn := new ClientConn.TcpConnAsync(recvMaxMsgSize, sendMaxMsgSize, true);
      var _ := conn.RecvNetMessage();
      connAsync := conn;
      before := reports;
      return true;
    }

    /** One call. If there is no connection yet, one is made. On OK the request is behind everything
        sent before, as one frame, and the receiving side is untouched; otherwise the connection is
        discarded, which happens exactly if connecting failed, the frame is over the limit or no
        write could be started. */
    method CallRPC(serviceId: u16, opcode: u16, payload: Bytes, ec: ErrorCode) returns (status: u8)
      requires Valid()
      modifies this`connAsync, this`before,
               if connAsync == null then {} else {connAsync, connAsync.sendBuffer, connAsync.sendBlock}
      ensures Valid() && reports == old(reports)
      ensures status == Session.NETWORK_CONNECT_ERROR <==> old(connAsync) == null && !ec.Success?
      ensures status == Session.OK <==>
                && (old(connAsync) == null ==> ec.Success?)
                && (sendMaxMsgSize == 0
                    || Truncate32(|Session.RequestOf(serviceId, opcode, payload)|) <= sendMaxMsgSize)
                && (old(connAsync) != null ==> old(Sending()).status.Sending? || CanRun(old(Sending()).life))
      ensures status in {Session.OK, Session.NETWORK_CONNECT_ERROR, Session.NETWORK_SEND_ERROR}
      ensures if status != Session.OK then connAsync == null else
                var netMsg := NewMessage(Session.RequestOf(serviceId, opcode, payload));
                && connAsync != null && (old(connAsync) == null || connAsync == old(connAsync))
                && (old(connAsync) == null ==> fresh(connAsync) && fresh(connAsync.sendBuffer))
                && connAsync.Recv() == old(Receiving())
                && S.ValidBlock(old(Sending())) && connAsync.Send() == S.Send(old(Sending()), sendMaxMsgSize, netMsg)
    {
      hide RequestStr, R.Start, N.Waiting;
      if connAsync == null {
        var connected := Connect(ec);
        if !connected {
          return Session.NETWORK_CONNECT_ERROR;
        }
      }
      var request := NewRequest(serviceId, opcode, payload);
      var netMsg := NewMessage(RequestStr(request));
      var ok := connAsync.SendNetMessage(netMsg);
      if !ok {
        connAsync := null;
        return Session.NETWORK_SEND_ERROR;
      }
      return Session.OK;
    }

    /** The sending side a call starts from: that of the connection, or of a new one. */
    ghost function Sending(): S.Sender
      reads this, if connAsync == null then {} else {connAsync, connAsync.sendBuffer, connAsync.sendBlock}
    {
      if connAsync == null then S.New(Client) else connAsync.Send()
    }

    ghost function Receiving(): R.Receiver
      reads this, if connAsync == null then {} else {connAsync, connAsync.recvBuffer}
    {
      if connAsync == null then R.Start(recvMaxMsgSize) else connAsync.Recv()
    }
  }
}
