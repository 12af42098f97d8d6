/** The server side of a connection. Its handlers are proved against the machines
    `Receiver` and `Sender`. */
module ServerConn {
  import opened Bytes
  import opened Framing
  import opened Buffers
  import opened NetConn
  import R = Receiver
  import N = Narrowed
  import S = Sender
  import T = TakenOff

  class TcpConnAsync {
    const recvMaxMsgSize: u32
    const sendMaxMsgSize: u32

    var connStat: ConnStat
    var wasCancelled: bool

    const recvBuffer: Buffer
    const recvBlock: array<u8>
    var recvHeader: Header

    const sendBuffer: Buffer
    const sendBlock: array<u8>
    var sendStatus: SendStatus

    /** What the network layer was asked to do and has not reported back yet. */
    var readOp: R.ReadOp
    var writeOps: seq<nat>

    /** The messages handed to the dispatcher, oldest first. */
    var dispatched: seq<Message>

    ghost predicate Valid()
      reads this, recvBuffer
    {
      && recvBuffer != sendBuffer && recvBlock != sendBlock
      && recvBlock.Length == IO_BLOCK_SIZE && sendBlock.Length == IO_BLOCK_SIZE
      && (forall i | 0 <= i < |writeOps| :: 0 < writeOps[i] <= IO_BLOCK_SIZE)
      && N.Waiting(recvMaxMsgSize, Recv())
      && (readOp.BodyRead? ==> readOp.header == recvHeader)
    }

    ghost function Recv(): R.Receiver
      reads this, recvBuffer
    {
      R.Receiver(Life(connStat, wasCancelled), recvBuffer.data, readOp, dispatched)
    }

    ghost function Send(): S.Sender
      reads this, sendBuffer, sendBlock
    {
      S.Sender(Server, Life(connStat, wasCancelled), sendBuffer.data, sendBlock[..], sendStatus, writeOps)
    }

    constructor (recvMaxMsgSize: u32, sendMaxMsgSize: u32)
      ensures Valid() && fresh(recvBuffer) && fresh(recvBlock) && fresh(sendBuffer) && fresh(sendBlock)
      ensures this.recvMaxMsgSize == recvMaxMsgSize && this.sendMaxMsgSize == sendMaxMsgSize
      ensures Recv() == R.FRESH.(life := Life(Pending, false))
      ensures Send() == S.New(Server).(life := Life(Pending, false))
    {
      this.recvMaxMsgSize, this.sendMaxMsgSize := recvMaxMsgSize, sendMaxMsgSize;
      connStat, wasCancelled := Pending, false;
      recvBuffer := new Buffer([]);
      sendBuffer := new Buffer([]);
      recvBlock := new u8[IO_BLOCK_SIZE](_ => 0);
      sendBlock := new u8[IO_BLOCK_SIZE](_ => 0);
      recvHeader := Header(0, 0, 0, ZERO_WORD, ZERO_WORD);
      sendStatus, readOp, writeOps, dispatched := Done, R.Idle, [], [];
    }

    method Start()
      requires Valid() && Recv() == R.FRESH.(life := Life(Pending, false))
      modifies this, recvBuffer
      ensures Valid() && Recv() == R.Start(recvMaxMsgSize)
      ensures Send() == old(Send()).(life := Recv().life)
    {
      connStat := Working;
      var _ := DoRead();
    }

    method Stop()
      modifies this`connStat
      ensures connStat == Pending && Recv() == R.Step(recvMaxMsgSize, Server, old(Recv()), R.StopCalled)
    {
      connStat := Pending;
    }

    /** `async_read`: a read may only be started when none is in progress. */
    method AsyncRead(op: R.ReadOp)
      requires readOp.Idle?
      modifies this`readOp
      ensures readOp == op
    {
      readOp := op;
    }

    method ParseHeader() returns (ret: int)
      requires Valid() && readOp.Idle?
      modifies this`recvHeader, recvBuffer
      ensures Valid()
      ensures if N.Seen(old(recvBuffer.data)) < HEADER_SIZE then
                ret == 1 && recvBuffer.data == old(recvBuffer.data) && recvHeader == old(recvHeader)
              else
                && old(recvBuffer.data) == HeaderBytes(recvHeader) + recvBuffer.data
                && ret == (if Acceptable(recvMaxMsgSize, recvHeader) then 0 else -1)
    {
      hide HeaderBytes, Framing.ParseHeader;
      if recvBuffer.GetLength() < HEADER_SIZE {
        return 1;
      }
      var _, head := recvBuffer.Consume(HEADER_SIZE);
      recvHeader := Framing.ParseHeader(head);
      HeaderOnto(head);
      if recvHeader.magic != HEADER_MAGIC || recvHeader.version != HEADER_VERSION {
        return -1;
      }
      if recvMaxMsgSize != 0 && recvHeader.length > recvMaxMsgSize {
        return -1;
      }
      return 0;
    }

    method ParseMsgBody() returns (ret: int, msg: Message)
      requires Valid() && readOp.Idle?
      modifies recvBuffer
      ensures Valid()
      ensures msg.header == recvHeader
      ensures if N.Seen(old(recvBuffer.data)) < recvHeader.length then
                ret == 1 && recvBuffer.data == old(recvBuffer.data)
              else
                ret == 0 && |msg.payload| == recvHeader.length
                && old(recvBuffer.data) == msg.payload + recvBuffer.data
    {
      if recvBuffer.GetLength() < recvHeader.length {
        return 1, Message(recvHeader, []);
      }
      var _, body := recvBuffer.Consume(recvHeader.length);
      return 0, Message(recvHeader, body);
    }

    method DoRead() returns (ok: bool)
      requires Valid() && readOp.Idle?
      modifies this`connStat, this`recvHeader, this`readOp, this`dispatched, recvBuffer
      ensures Valid() && Recv() == N.DoRead(recvMaxMsgSize, old(Recv()))
      ensures ok <==>
                && CanRun(old(Recv()).life)
                && (N.Seen(old(recvBuffer.data)) < HEADER_SIZE ||
                    Acceptable(recvMaxMsgSize, Framing.ParseHeader(old(recvBuffer.data)[..HEADER_SIZE])))
      decreases |recvBuffer.data|, 0
    {
      hide HeaderBytes, Framing.ParseHeader;
      if connStat != Working {
        return false;
      }
      if wasCancelled {
        return false;
      }
      var bytesRead := recvBuffer.GetLength();
      if bytesRead < HEADER_SIZE {
        AsyncRead(R.HeaderRead(HEADER_SIZE - bytesRead));
        return true;
      }
      var ret := ParseHeader();
      T.HeaderTaken(old(recvBuffer.data), recvHeader, recvBuffer.data);
      if ret == 0 {
        DoReadMsg();
        return true;
      } else if ret > 0 {
        assert false;
      }
      SockShutdownAndClose();
      return false;
    }

    method DoReadMsg()
      requires Valid() && readOp.Idle?
      requires Acceptable(recvMaxMsgSize, recvHeader)
      modifies this`connStat, this`recvHeader, this`readOp, this`dispatched, recvBuffer
      ensures Valid() && Recv() == N.DoReadMsg(recvMaxMsgSize, old(Recv()), old(recvHeader))
      decreases |recvBuffer.data|, 1
    {
      hide HeaderBytes, Framing.ParseHeader;
      if connStat != Working {
        return;
      }
      if wasCancelled {
        return;
      }
      if recvBuffer.GetLength() < recvHeader.length {
        var toRead := Min(recvHeader.length - recvBuffer.GetLength(), IO_BLOCK_SIZE);
        AsyncRead(R.BodyRead(recvHeader, toRead));
      } else {
        var ret, msg := ParseMsgBody();
        T.BodyTaken(old(recvBuffer.data), msg.payload, recvBuffer.data);
        if ret == 0 {
          dispatched := dispatched + [msg];
          var _ := DoRead();
          return;
        } else {
          // Neither too short a body nor a negative code is possible here.
          assert false;
        }
      }
    }

    /** The header read completed with `bytesTransferred` bytes in the block. */
    method ReadHandler(ec: ErrorCode, bytesTransferred: nat)
      requires Valid() && readOp.HeaderRead?
      requires ec.Success? ==> readOp.atLeast <= bytesTransferred <= IO_BLOCK_SIZE
      modifies this`connStat, this`wasCancelled, this`recvHeader, this`readOp, this`dispatched, recvBuffer
      ensures Valid()
      ensures var e := if ec.Success? then R.Completed(recvBlock[..bytesTransferred]) else R.Failed(ec);
              && R.Enabled(old(Recv()), e) && Recv() == N.Step(recvMaxMsgSize, Server, old(Recv()), e)
              && (N.StaysShort(old(Recv()), e) ==> Recv() == R.Step(recvMaxMsgSize, Server, old(Recv()), e))
    {
      hide HeaderBytes, Framing.ParseHeader, N.StaysShort, N.OnBody, N.TakeBody, R.OnHeader, R.OnBody;
      ghost var e := if ec.Success? then R.Completed(recvBlock[..bytesTransferred]) else R.Failed(ec);
      N.StepAgrees(recvMaxMsgSize, Server, Recv(), e);
      readOp := R.Idle;
      if !ec.Success? {
        var _ := HandleSocketErrorCode(ec);
        return;
      }
      var str := recvBlock[..bytesTransferred];
      var _ := recvBuffer.AppendInternal(str);
      if recvBuffer.GetLength() < HEADER_SIZE {
        assert false;
      }
      ghost var whole := recvBuffer.data;
      var ret := ParseHeader();
      T.HeaderTaken(whole, recvHeader, recvBuffer.data);
      if ret == 0 {
        DoReadMsg();
        return;
      } else if ret > 0 {
        assert false;
      }
      SockShutdownAndClose();
    }

    /** The body read completed. A buffer of 2^32 bytes or more deceives `get_length`. */
    method ReadMsgHandler(ec: ErrorCode, bytesTransferred: nat)
      requires Valid() && readOp.BodyRead?
      requires ec.Success? ==> readOp.atLeast <= bytesTransferred <= IO_BLOCK_SIZE
      modifies this`connStat, this`wasCancelled, this`recvHeader, this`readOp, this`dispatched, recvBuffer
      ensures Valid()
      ensures var e := if ec.Success? then R.Completed(recvBlock[..bytesTransferred]) else R.Failed(ec);
              && R.Enabled(old(Recv()), e) && Recv() == N.Step(recvMaxMsgSize, Server, old(Recv()), e)
              && (N.StaysShort(old(Recv()), e) ==> Recv() == R.Step(recvMaxMsgSize, Server, old(Recv()), e))
    {
      hide HeaderBytes, Framing.ParseHeader, N.StaysShort, N.OnHeader, N.TakeHeader, R.OnHeader, R.OnBody;
      ghost var e := if ec.Success? then R.Completed(recvBlock[..bytesTransferred]) else R.Failed(ec);
      N.StepAgrees(recvMaxMsgSize, Server, Recv(), e);
      readOp := R.Idle;
      if !ec.Success? {
        var _ := HandleSocketErrorCode(ec);
        return;
      }
      var str := recvBlock[..bytesTransferred];
      var _ := recvBuffer.AppendInternal(str);
      ghost var whole := recvBuffer.data;
      var ret, msg := ParseMsgBody();
      T.BodyTaken(whole, msg.payload, recvBuffer.data);
      if ret == 0 {
        dispatched := dispatched + [msg];
        var _ := DoRead();
        return;
      } else if ret > 0 {
        DoReadMsg();
        return;
      } else {
        // parse_msg_body has no negative result.
        assert false;
      }
    }

    /** Append a whole frame, then try to start a write. */
    method AsyncSendMessage(msg: Message) returns (ret: int)
      requires Valid()
      modifies this`sendStatus, this`writeOps, sendBuffer, sendBlock
      ensures Valid()
      ensures ret == (if sendMaxMsgSize != 0 && msg.header.length > sendMaxMsgSize then -1 else 0)
      ensures S.ValidBlock(old(Send()))
      ensures Send() == S.Send(old(Send()), sendMaxMsgSize, msg)
    {
      if sendMaxMsgSize != 0 && msg.header.length > sendMaxMsgSize {
        return -1;
      }
      var _ := sendBuffer.Append(msg);
      var _ := DoWrite();
      return 0;
    }

    method DoWrite() returns (ok: bool)
      requires Valid()
      modifies this`sendStatus, this`writeOps, sendBuffer, sendBlock
      ensures Valid()
      ensures S.ValidBlock(old(Send())) && Send() == S.DoWrite(old(Send()))
      ensures ok <==> old(sendStatus) != Done || CanRun(Life(connStat, wasCancelled))
    {
      if sendStatus != Done {
        return true;
      }
      if connStat != Working {
        return false;
      }
      if wasCancelled {
        return false;
      }
      if sendBuffer.GetLength() == 0 {
        sendStatus := Done;
        return true;
      }
      var toWrite := Min(sendBuffer.GetLength(), IO_BLOCK_SIZE);
      var _ := sendBuffer.ConsumeRaw(sendBlock, toWrite);
      sendStatus := Sending;
      writeOps := writeOps + [toWrite];
      T.BlockFilled(old(sendBuffer.data), old(sendBlock[..]), toWrite, sendBlock[..], sendBuffer.data);
      return true;
    }

    /** The oldest write completed: all of it, or with an error. */
    method WriteHandler(ec: ErrorCode, bytesTransferred: nat)
      requires Valid() && writeOps != []
      requires ec.Success? ==> bytesTransferred == writeOps[0]
      modifies this`connStat, this`wasCancelled, this`sendStatus, this`writeOps, sendBuffer, sendBlock
      ensures Valid() && S.ValidBlock(old(Send()))
      ensures Send() == if ec.Success? then S.WriteDone(old(Send())) else S.WriteFailed(old(Send()), ec)
      ensures Recv() == if ec.Success? then old(Recv()) else
                R.Step(recvMaxMsgSize, Server, old(Recv()), R.WriteFailed(ec))
    {
      writeOps := writeOps[1..];
      if !ec.Success? {
        var _ := HandleSocketErrorCode(ec);
        return;
      }
      sendStatus := Done;
      var _ := DoWrite();
    }

    method HandleSocketErrorCode(ec: ErrorCode) returns (closeSocket: bool)
      requires !ec.Success?
      modifies this`connStat, this`wasCancelled
      ensures Life(connStat, wasCancelled)
           == HandleSocketEc(Server, old(Life(connStat, wasCancelled)), ec)
      ensures closeSocket <==> ClosesSocket(ec)
    {
      closeSocket := false;
      if ec == Reset || ec == TimedOut || ec == BadDescriptor {
        closeSocket := true;
      } else if ec == Eof {
        closeSocket := true;
      } else if ec == Aborted {
      } else {
        closeSocket := true;
      }
      if closeSocket || wasCancelled {
        CancelOps();
        SockShutdownAndClose();
      }
    }

    method CancelOps()
      modifies this`connStat, this`wasCancelled
      ensures connStat == Error && wasCancelled
    {
      connStat := Error;
      wasCancelled := true;
    }

    method SockShutdownAndClose()
      modifies this`connStat
      ensures connStat == Closed
    {
      if connStat == Closed {
        return;
      }
      connStat := Closed;
    }

    method OpsCancelTimeoutCall(ec: ErrorCode)
      modifies this`connStat, this`wasCancelled
      ensures Recv() == if ec.Success? then R.Step(recvMaxMsgSize, Server, old(Recv()), R.TimerFired)
                        else old(Recv())
      ensures ec.Success? ==> connStat == Closed && wasCancelled
    {
      if ec.Success? {
        CancelOps();
        SockShutdownAndClose();
      }
    }
  }
}
