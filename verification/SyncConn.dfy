/** The synchronous client connection: the decoder and the writer as blocking loops. */
module SyncConn {
  import opened Bytes
  import opened Framing
  import opened Buffers
  import opened NetConn
  import opened Sockets
  import S = Sender
  import T = TakenOff

  /** The lengths of the writes that empty a buffer of n bytes. */
  function Chunks(n: nat): seq<nat> {
    if n == 0 then [] else var k := Min(n, IO_BLOCK_SIZE); [k] + Chunks(n - k)
  }

  function Sum(ns: seq<nat>): nat {
    if ns == [] then 0 else ns[0] + Sum(ns[1..])
  }

  /** There are ceil(n / 2048) of them, all but the last full, and together they make n. */
  lemma {:induction false} ChunksExact(n: nat)
    ensures |Chunks(n)| == CeilDiv(n, IO_BLOCK_SIZE)
    ensures forall i | 0 <= i < |Chunks(n)| - 1 :: Chunks(n)[i] == IO_BLOCK_SIZE
    ensures Sum(Chunks(n)) == n
  {
    if n > 0 {
      var k := Min(n, IO_BLOCK_SIZE);
      ChunksExact(n - k);
      assert Chunks(n)[1..] == Chunks(n - k);
      if k == IO_BLOCK_SIZE {
        assert (n + IO_BLOCK_SIZE - 1) / IO_BLOCK_SIZE
            == (n - IO_BLOCK_SIZE + IO_BLOCK_SIZE - 1) / IO_BLOCK_SIZE + 1;
      }
      forall i | 0 <= i < |Chunks(n)| - 1
        ensures Chunks(n)[i] == IO_BLOCK_SIZE
      {
        if i > 0 {
          assert Chunks(n)[i] == Chunks(n - k)[i - 1];
        }
      }
    }
  }

  class TcpConnSync {
    const recvMaxMsgSize: u32
    const sendMaxMsgSize: u32

    var connStat: ConnStat

    const recvBuffer: Buffer
    const recvBlock: array<u8>
    var recvHeader: Header

    const sendBuffer: Buffer
    const sendBlock: array<u8>

    const socket: Socket

    ghost predicate Valid()
      reads this, socket
    {
      && recvBuffer != sendBuffer && recvBlock != sendBlock
      && recvBlock.Length == IO_BLOCK_SIZE && sendBlock.Length == IO_BLOCK_SIZE
      && socket.Valid()
    }

    /** The objects the operations of this connection change. */
    ghost function Repr(): set<object> {
      {this, recvBuffer, recvBlock, sendBuffer, sendBlock, socket}
    }

    constructor (recvMaxMsgSize: u32, sendMaxMsgSize: u32, socket: Socket)
      requires socket.Valid()
      ensures Valid() && this.socket == socket
      ensures fresh(recvBuffer) && fresh(recvBlock) && fresh(sendBuffer) && fresh(sendBlock)
      ensures this.recvMaxMsgSize == recvMaxMsgSize && this.sendMaxMsgSize == sendMaxMsgSize
      ensures connStat == Working && recvBuffer.data == [] && sendBuffer.data == []
    {
      this.recvMaxMsgSize, this.sendMaxMsgSize, this.socket := recvMaxMsgSize, sendMaxMsgSize, socket;
      connStat := Working;
      recvBuffer := new Buffer([]);
      sendBuffer := new Buffer([]);
      recvBlock := new u8[IO_BLOCK_SIZE](_ => 0);
      sendBlock := new u8[IO_BLOCK_SIZE](_ => 0);
      recvHeader := Header(0, 0, 0, ZERO_WORD, ZERO_WORD);
    }

    method ParseHeader() returns (ret: int)
      requires Valid()
      modifies this`recvHeader, recvBuffer
      ensures if Truncate32(|old(recvBuffer.data)|) < HEADER_SIZE then
                ret == 1 && recvBuffer.data == old(recvBuffer.data) && recvHeader == old(recvHeader)
              else
                && old(recvBuffer.data) == HeaderBytes(recvHeader) + recvBuffer.data
                && ret == (if Acceptable(recvMaxMsgSize, recvHeader) then 0 else -1)
    {
      hide HeaderBytes, Framing.ParseHeader;
      if recvBuffer.GetLength() < HEADER_SIZE {
        return 1;
      }
      var _, head := recvBuffer.Consume(HEADER_SIZE);
      recvHeader := Framing.ParseHeader(head);
      HeaderOnto(head);
      if recvHeader.magic != HEADER_MAGIC || recvHeader.version != HEADER_VERSION {
        return -1;
      }
      if recvMaxMsgSize != 0 && recvHeader.length > recvMaxMsgSize {
        return -1;
      }
      return 0;
    }

    method ParseMsgBody() returns (ret: int, msg: Message)
      requires Valid()
      modifies recvBuffer
      ensures msg.header == recvHeader
      ensures if Truncate32(|old(recvBuffer.data)|) < recvHeader.length then
                ret == 1 && recvBuffer.data == old(recvBuffer.data)
              else
                ret == 0 && |msg.payload| == recvHeader.length
                && old(recvBuffer.data) == msg.payload + recvBuffer.data
    {
      if recvBuffer.GetLength() < recvHeader.length {
        return 1, Message(recvHeader, []);
      }
      var _, body := recvBuffer.Consume(recvHeader.length);
      return 0, Message(recvHeader, body);
    }

    /** One round of a read loop: a blocking read, appended to the receive buffer. */
    method ReadRound(atLeast: nat) returns (ok: bool, ghost chunk: Bytes)
      requires Valid() && 0 < atLeast <= IO_BLOCK_SIZE
      modifies this`connStat, recvBuffer, recvBlock,
               socket`consumed, socket`script, socket`readCount, socket`disturbed, socket`lastError
      ensures Valid() && (old(socket.disturbed) ==> socket.disturbed)
      ensures ok ==>
                && atLeast <= |chunk| <= IO_BLOCK_SIZE
                && old(socket.Incoming()) == chunk + socket.Incoming()
                && recvBuffer.data == old(recvBuffer.data) + chunk
                && socket.readCount == old(socket.readCount) + 1
      ensures !ok ==> socket.disturbed
      ensures !ok ==> connStat != Working || socket.lastError.Aborted?
      ensures connStat == old(connStat) || (connStat == Closed && socket.disturbed)
      ensures ok && connStat == Working ==> socket.disturbed == old(socket.disturbed)
    {
      var ec, n, closed := socket.Read(recvBlock, atLeast);
      chunk := recvBlock[..n];
      if closed {
        connStat := Closed;
      }
      if !ec.Success? {
        var _ := HandleSocketErrorCode(ec);
        return false, chunk;
      }
      var str := recvBlock[..n];
      var _ := recvBuffer.AppendInternal(str);
      return true, chunk;
    }

    /** One round of the write loop: the front of the buffer goes out through the block. */
    method WriteRound() returns (ok: bool)
      requires Valid() && sendBuffer.GetLength() > 0
      modifies this`connStat, sendBuffer, sendBlock,
               socket`outgoing, socket`script, socket`writeLengths, socket`disturbed, socket`lastError
      ensures Valid() && (old(socket.disturbed) ==> socket.disturbed)
      ensures ok ==>
                var n := S.ToWrite(|old(sendBuffer.data)|);
                && sendBuffer.data == old(sendBuffer.data)[n..]
                && socket.outgoing == old(socket.outgoing) + old(sendBuffer.data)[..n]
                && socket.writeLengths == old(socket.writeLengths) + [n]
      ensures !ok ==>
                && old(socket.outgoing) <= socket.outgoing <= old(socket.outgoing) + old(sendBuffer.data)
                && socket.writeLengths == old(socket.writeLengths)
      ensures !ok ==> socket.disturbed
      ensures !ok ==> connStat != Working || socket.lastError.Aborted?
      ensures connStat == old(connStat) || (connStat == Closed && socket.disturbed)
      ensures ok && connStat == Working ==> socket.disturbed == old(socket.disturbed)
    {
      var toWrite := Min(sendBuffer.GetLength(), IO_BLOCK_SIZE);
      var _ := sendBuffer.ConsumeRaw(sendBlock, toWrite);
      T.BodyTaken(old(sendBuffer.data), sendBlock[..toWrite], sendBuffer.data);
      var ec, closed := socket.Write(sendBlock, toWrite);
      if closed {
        connStat := Closed;
      }
      if !ec.Success? {
        var _ := HandleSocketErrorCode(ec);
        return false;
      }
      return true;
    }

    method RecvNetMessage() returns (ok: bool, msg: Message, ghost taken: Bytes)
      requires Valid()
      modifies this`connStat, this`recvHeader, recvBuffer, recvBlock,
               socket`consumed, socket`script, socket`readCount, socket`disturbed, socket`lastError
      ensures Valid() && (old(socket.disturbed) ==> socket.disturbed)
      ensures ok ==>
                && old(connStat) == Working
                && old(socket.Incoming()) == taken + socket.Incoming()
                && old(recvBuffer.data) + taken == NetStr(msg) + recvBuffer.data
                && WellFormed(recvMaxMsgSize, msg)
      ensures !ok && !socket.disturbed && old(connStat) == Working ==>
                && connStat == Closed && !Acceptable(recvMaxMsgSize, recvHeader)
                && old(socket.Incoming()) == taken + socket.Incoming()
                && old(recvBuffer.data) + taken == HeaderBytes(recvHeader) + recvBuffer.data
      ensures !ok ==> connStat != Working || socket.lastError.Aborted?
      ensures connStat == Working ==> old(connStat) == Working
      ensures ok && !socket.disturbed ==> connStat == Working
      ensures ok && connStat == Working ==> socket.disturbed == old(socket.disturbed)
    {
      ok, msg, taken := DoRead();
    }

    /** The read loop in front of a header: one read if fewer than 16 bytes are buffered,
        otherwise none. */
    method AwaitHeader() returns (ok: bool, ghost taken: Bytes)
      requires Valid()
      modifies this`connStat, recvBuffer, recvBlock,
               socket`consumed, socket`script, socket`readCount, socket`disturbed, socket`lastError
      ensures Valid() && (old(socket.disturbed) ==> socket.disturbed)
      ensures ok ==>
                && HEADER_SIZE <= Truncate32(|recvBuffer.data|)
                && old(socket.Incoming()) == taken + socket.Incoming()
                && recvBuffer.data == old(recvBuffer.data) + taken
                && socket.readCount
                   == old(socket.readCount) + (if Truncate32(|old(recvBuffer.data)|) < HEADER_SIZE then 1 else 0)
      ensures !ok ==> socket.disturbed
      ensures !ok ==> connStat != Working || socket.lastError.Aborted?
      ensures connStat == old(connStat) || (connStat == Closed && socket.disturbed)
      ensures ok && connStat == Working ==> socket.disturbed == old(socket.disturbed)
    {
      hide Truncate32;
      taken := [];
      ghost var incoming, buffered := socket.Incoming(), recvBuffer.data;
      while recvBuffer.GetLength() < HEADER_SIZE
        invariant Valid()
        invariant incoming == taken + socket.Incoming()
        invariant recvBuffer.data == buffered + taken
        invariant taken == [] || (Truncate32(|buffered|) < HEADER_SIZE <= Truncate32(|recvBuffer.data|))
        invariant socket.readCount == old(socket.readCount) + (if taken == [] then 0 else 1)
        invariant old(socket.disturbed) ==> socket.disturbed
        invariant connStat == old(connStat) || (connStat == Closed && socket.disturbed)
        invariant connStat == Working ==> socket.disturbed == old(socket.disturbed)
        decreases HEADER_SIZE - Truncate32(|recvBuffer.data|)
      {
        var bytesRead := recvBuffer.GetLength();
        ghost var held := |recvBuffer.data|;
        var done, chunk := ReadRound(HEADER_SIZE - bytesRead);
        if !done {
          return false, taken;
        }
        HeaderBrought(held, |chunk|);
        Assoc(taken, chunk, socket.Incoming());
        Assoc(buffered, taken, chunk);
        taken := taken + chunk;
      }
      return true, taken;
    }

    /** Read one message. It is the first frame of what earlier calls left over followed by what
        this call took from the socket, and the rest is kept. Undisturbed, the call can fail
        only because the header found there is refused, and then the connection is closed. */
    method DoRead() returns (ok: bool, msg: Message, ghost taken: Bytes)
      requires Valid()
      modifies this`connStat, this`recvHeader, recvBuffer, recvBlock,
               socket`consumed, socket`script, socket`readCount, socket`disturbed, socket`lastError
      ensures Valid() && (old(socket.disturbed) ==> socket.disturbed)
      ensures ok ==>
                && old(connStat) == Working
                && old(socket.Incoming()) == taken + socket.Incoming()
                && old(recvBuffer.data) + taken == NetStr(msg) + recvBuffer.data
                && WellFormed(recvMaxMsgSize, msg)
      ensures !ok && !socket.disturbed && old(connStat) == Working ==>
                && connStat == Closed && !Acceptable(recvMaxMsgSize, recvHeader)
                && old(socket.Incoming()) == taken + socket.Incoming()
                && old(recvBuffer.data) + taken == HeaderBytes(recvHeader) + recvBuffer.data
      ensures !ok ==> connStat != Working || socket.lastError.Aborted?
      ensures connStat == Working ==> old(connStat) == Working
      ensures ok && !socket.disturbed ==> connStat == Working
      ensures ok && connStat == Working ==> socket.disturbed == old(socket.disturbed)
    {
      hide HeaderBytes, Framing.ParseHeader;
      msg, taken := Message(recvHeader, []), [];
      if connStat != Working {
        return false, msg, taken;
      }
      ghost var buffered := recvBuffer.data;
      var headed;
      headed, taken := AwaitHeader();
      if !headed {
        return false, msg, taken;
      }
      var ret := ParseHeader();
      if ret == 0 {
        ghost var more, body := [], recvBuffer.data;
        ok, msg, more := DoReadMsg();
        if ok {
          FrameRead(buffered, taken, body, more, msg, recvBuffer.data);
          Assoc(taken, more, socket.Incoming());
        }
        taken := taken + more;
        return ok, msg, taken;
      }
      SockShutdownAndClose();
      return false, msg, taken;
    }

    /** The read loop in front of a body. Of L bytes `get_length` shows b < L at first; as long as
        it cannot wrap around, the loop takes exactly ceil((L - b) / 2048) reads. */
    method AwaitBody() returns (ok: bool, ghost taken: Bytes)
      requires Valid()
      modifies this`connStat, recvBuffer, recvBlock,
               socket`consumed, socket`script, socket`readCount, socket`disturbed, socket`lastError
      ensures Valid() && (old(socket.disturbed) ==> socket.disturbed)
      ensures ok ==>
                && recvHeader.length <= Truncate32(|recvBuffer.data|)
                && old(socket.Incoming()) == taken + socket.Incoming()
                && recvBuffer.data == old(recvBuffer.data) + taken
      ensures ok && NoWrap(recvHeader.length, |old(recvBuffer.data)| + |old(socket.Incoming())|) ==>
                BodyRead(recvHeader.length, |old(recvBuffer.data)|, |recvBuffer.data|,
                         socket.readCount - old(socket.readCount))
      ensures !ok ==> socket.disturbed
      ensures !ok ==> connStat != Working || socket.lastError.Aborted?
      ensures connStat == old(connStat) || (connStat == Closed && socket.disturbed)
      ensures ok && connStat == Working ==> socket.disturbed == old(socket.disturbed)
    {
      hide Truncate32, NoWrap, BodyRead;
      taken := [];
      ghost var incoming, buffered := socket.Incoming(), recvBuffer.data;
      ghost var total, held, rounds := |buffered| + |incoming|, |buffered|, 0;
      NothingRead(recvHeader.length, |buffered|);
      while recvBuffer.GetLength() < recvHeader.length
        invariant Valid()
        invariant incoming == taken + socket.Incoming()
        invariant recvBuffer.data == buffered + taken
        invariant old(socket.disturbed) ==> socket.disturbed
        invariant connStat == old(connStat) || (connStat == Closed && socket.disturbed)
        invariant connStat == Working ==> socket.disturbed == old(socket.disturbed)
        invariant held == |recvBuffer.data| && held + |socket.Incoming()| == total
        invariant socket.readCount == old(socket.readCount) + rounds
        invariant NoWrap(recvHeader.length, total) ==> BodyRead(recvHeader.length, |buffered|, held, rounds)
        decreases |socket.Incoming()|
      {
        var toRead := Min(recvHeader.length - recvBuffer.GetLength(), IO_BLOCK_SIZE);
        var done, chunk := ReadRound(toRead);
        if !done {
          return false, taken;
        }
        BodyRound(recvHeader.length, |buffered|, total, held, |chunk|, rounds);
        Assoc(taken, chunk, socket.Incoming());
        Assoc(buffered, taken, chunk);
        taken, held, rounds := taken + chunk, held + |chunk|, rounds + 1;
      }
      return true, taken;
    }

    /** The body is read whole and at most 2047 bytes behind it, unless `get_length` wraps around;
        how many reads it takes is said at `AwaitBody`. */
    method DoReadMsg() returns (ok: bool, msg: Message, ghost taken: Bytes)
      requires Valid() && Acceptable(recvMaxMsgSize, recvHeader)
      modifies this`connStat, recvBuffer, recvBlock,
               socket`consumed, socket`script, socket`readCount, socket`disturbed, socket`lastError
      ensures Valid() && (old(socket.disturbed) ==> socket.disturbed)
      ensures ok ==>
                && old(connStat) == Working
                && old(socket.Incoming()) == taken + socket.Incoming()
                && old(recvBuffer.data) + taken == msg.payload + recvBuffer.data
                && msg.header == recvHeader && WellFormed(recvMaxMsgSize, msg)
      ensures ok && NoWrap(recvHeader.length, |old(recvBuffer.data)| + |old(socket.Incoming())|) ==>
                var b := Truncate32(|old(recvBuffer.data)|);
                && socket.readCount == old(socket.readCount) + Missing(recvHeader.length, b)
                && (b < recvHeader.length ==> Truncate32(|recvBuffer.data|) <= IO_BLOCK_SIZE - 1)
      ensures !ok ==> socket.disturbed || old(connStat) != Working
      ensures !ok ==> connStat != Working || socket.lastError.Aborted?
      ensures connStat == Working ==> old(connStat) == Working
      ensures ok && !socket.disturbed ==> connStat == Working
      ensures ok && connStat == Working ==> socket.disturbed == old(socket.disturbed)
    {
      hide Truncate32, NoWrap, BodyRead, Missing, HeaderBytes;
      msg, taken := Message(recvHeader, []), [];
      if connStat != Working {
        return false, msg, taken;
      }
      var there;
      there, taken := AwaitBody();
      if !there {
        return false, msg, taken;
      }
      ghost var held := |recvBuffer.data|;
      AllRead(recvHeader.length, |old(recvBuffer.data)|, held, socket.readCount - old(socket.readCount));
      var ret;
      ret, msg := ParseMsgBody();
      if ret == 0 {
        assert |recvBuffer.data| == held - recvHeader.length;
        return true, msg, taken;
      }
      // The loop has brought the whole body.
      assert false;
    }

    /** Empty the send buffer. Undisturbed, everything `get_length` can see goes out in order, in
        ceil(n / 2048) writes of which all but the last are full. A multiple of 2^32 bytes is
        invisible to `get_length` and would stay behind. A failure leaves some of these writes
        undone, and a first part of the bytes has gone out. */
    method DoWrite() returns (ok: bool)
      requires Valid()
      modifies this`connStat, sendBuffer, sendBlock,
               socket`outgoing, socket`script, socket`writeLengths, socket`disturbed, socket`lastError
      ensures Valid() && (old(socket.disturbed) ==> socket.disturbed)
      ensures ok ==>
                && old(connStat) == Working
                && socket.outgoing + sendBuffer.data == old(socket.outgoing) + old(sendBuffer.data)
                && |sendBuffer.data| == |old(sendBuffer.data)| - Truncate32(|old(sendBuffer.data)|)
                && socket.writeLengths == old(socket.writeLengths) + Chunks(Truncate32(|old(sendBuffer.data)|))
      ensures !ok ==> old(socket.outgoing) <= socket.outgoing <= old(socket.outgoing) + old(sendBuffer.data)
      ensures !ok && Truncate32(|old(sendBuffer.data)|) > 0 ==>
                old(socket.writeLengths) <= socket.writeLengths
                < old(socket.writeLengths) + Chunks(Truncate32(|old(sendBuffer.data)|))
      ensures !ok ==> socket.disturbed || old(connStat) != Working
      ensures !ok ==> connStat != Working || socket.lastError.Aborted?
      ensures connStat == Working ==> old(connStat) == Working
      ensures ok && !socket.disturbed ==> connStat == Working
      ensures ok && connStat == Working ==> socket.disturbed == old(socket.disturbed)
    {
      ghost var whole: nat := |sendBuffer.data|;
      if connStat != Working {
        NotAllWritten(socket.writeLengths, Truncate32(whole), socket.writeLengths + Chunks(Truncate32(whole)));
        return false;
      }
      while sendBuffer.GetLength() > 0
        invariant Valid() && |sendBuffer.data| <= whole
        invariant socket.outgoing + sendBuffer.data == old(socket.outgoing) + old(sendBuffer.data)
        invariant old(socket.outgoing) <= socket.outgoing && old(socket.writeLengths) <= socket.writeLengths
        invariant |sendBuffer.data| - Truncate32(|sendBuffer.data|) == whole - Truncate32(whole)
        invariant socket.writeLengths + Chunks(Truncate32(|sendBuffer.data|))
               == old(socket.writeLengths) + Chunks(Truncate32(whole))
        invariant old(socket.disturbed) ==> socket.disturbed
        invariant connStat == Working || socket.disturbed
        invariant connStat == Working ==> socket.disturbed == old(socket.disturbed)
        decreases |sendBuffer.data|
      {
        ghost var data, sent, lengths := sendBuffer.data, socket.outgoing, socket.writeLengths;
        var done := WriteRound();
        if !done {
          NotAllWritten(lengths, Truncate32(|data|), old(socket.writeLengths) + Chunks(Truncate32(whole)));
          return false;
        }
        WriteAccount(data, sent, lengths);
      }
      return true;
    }

    method SendNetMessage(msg: Message) returns (ok: bool)
      requires Valid()
      modifies this`connStat, sendBuffer, sendBlock,
               socket`outgoing, socket`script, socket`writeLengths, socket`disturbed, socket`lastError
      ensures Valid() && (old(socket.disturbed) ==> socket.disturbed)
      ensures sendMaxMsgSize != 0 && msg.header.length > sendMaxMsgSize ==>
                !ok && unchanged(this) && unchanged(sendBuffer) && unchanged(socket)
      ensures ok ==>
                && old(connStat) == Working
                && (sendMaxMsgSize == 0 || msg.header.length <= sendMaxMsgSize)
                && var all := old(sendBuffer.data) + NetStr(msg);
                   && socket.outgoing == old(socket.outgoing) + all[..Truncate32(|all|)]
                   && sendBuffer.data == all[Truncate32(|all|)..]
                   && socket.writeLengths == old(socket.writeLengths) + Chunks(Truncate32(|all|))
      ensures var all := old(sendBuffer.data) + NetStr(msg);
              !ok && Truncate32(|all|) > 0 ==>
                && old(socket.outgoing) <= socket.outgoing <= old(socket.outgoing) + all
                && old(socket.writeLengths) <= socket.writeLengths
                   < old(socket.writeLengths) + Chunks(Truncate32(|all|))
      ensures !ok ==> socket.disturbed || old(connStat) != Working
                      || (sendMaxMsgSize != 0 && msg.header.length > sendMaxMsgSize)
      ensures connStat == Working ==> old(connStat) == Working
      ensures ok && !socket.disturbed ==> connStat == Working
      ensures ok && connStat == Working ==> socket.disturbed == old(socket.disturbed)
    {
      hide HeaderBytes, Chunks, Truncate32;
      if sendMaxMsgSize != 0 && msg.header.length > sendMaxMsgSize {
        var n := Truncate32(|sendBuffer.data + NetStr(msg)|);
        NotAllWritten(socket.writeLengths, n, socket.writeLengths + Chunks(n));
        return false;
      }
      var _ := sendBuffer.Append(msg);
      ok := DoWrite();
      if ok {
        SentFront(old(socket.outgoing), old(sendBuffer.data) + NetStr(msg), socket.outgoing, sendBuffer.data);
      }
    }

    method ShutdownAndCloseSocket()
      modifies this`connStat
      ensures connStat == Closed
    {
      SockShutdownAndClose();
    }

    method HandleSocketErrorCode(ec: ErrorCode) returns (closeSocket: bool)
      requires !ec.Success?
      modifies this`connStat
      ensures Life(connStat, false) == HandleSocketEc(Client, Life(old(connStat), false), ec)
      ensures closeSocket <==> ClosesSocket(ec)
    {
      closeSocket := false;
      if ec == Reset || ec == TimedOut || ec == BadDescriptor {
        closeSocket := true;
      } else if ec == Eof {
        closeSocket := true;
      } else if ec == Aborted {
      } else {
        closeSocket := true;
      }
      if closeSocket {
        SockShutdownAndClose();
      }
    }

    method SockShutdownAndClose()
      modifies this`connStat
      ensures connStat == Closed
    {
      if connStat == Closed {
        return;
      }
      connStat := Closed;
    }
  }

  /** Reads still needed for a body of which `buffered` bytes are there. */
  function Missing(length: nat, buffered: nat): nat {
    if buffered >= length then 0 else CeilDiv(length - buffered, IO_BLOCK_SIZE)
  }

  lemma MissingStep(length: nat, buffered: nat, n: nat)
    requires buffered < length && Min(length - buffered, IO_BLOCK_SIZE) <= n <= IO_BLOCK_SIZE
    ensures Missing(length, buffered) == Missing(length, buffered + n) + 1
  {
    var missing := length - buffered;
    if missing > IO_BLOCK_SIZE {
      assert (missing + IO_BLOCK_SIZE - 1) / IO_BLOCK_SIZE
          == (missing - IO_BLOCK_SIZE + IO_BLOCK_SIZE - 1) / IO_BLOCK_SIZE + 1;
    }
  }

  /** `get_length` cannot wrap around while a body is read: either the body is at most 2^32 - 2048
      bytes long, or less than 4 GiB are buffered and to come. */
  predicate NoWrap(length: u32, total: nat) {
    length <= TWO_TO_32 - IO_BLOCK_SIZE || total < TWO_TO_32
  }

  /** After `rounds` reads of a body that have brought the buffer from `first` to `held` bytes. */
  predicate BodyRead(length: u32, first: nat, held: nat, rounds: int) {
    && rounds == Missing(length, Truncate32(first)) - Missing(length, Truncate32(held))
    && (Truncate32(first) < length ==> Truncate32(held) <= length + IO_BLOCK_SIZE - 1)
  }

  lemma HeaderBrought(held: nat, n: nat)
    requires Truncate32(held) < HEADER_SIZE && HEADER_SIZE - Truncate32(held) <= n <= IO_BLOCK_SIZE
    ensures HEADER_SIZE <= Truncate32(held + n)
  {
    TruncateAdd(held, n);
  }

  lemma NothingRead(length: u32, first: nat)
    ensures BodyRead(length, first, first, 0)
  {
  }

  lemma BodyRound(length: u32, first: nat, total: nat, held: nat, n: nat, rounds: int)
    requires Truncate32(held) < length && held + n <= total
    requires Min(length - Truncate32(held), IO_BLOCK_SIZE) <= n <= IO_BLOCK_SIZE
    ensures NoWrap(length, total) && BodyRead(length, first, held, rounds) ==>
              BodyRead(length, first, held + n, rounds + 1)
  {
    MissingStep(length, Truncate32(held), n);
    assert Truncate32(held) <= held;
    hide Truncate32, Missing;
    if NoWrap(length, total) {
      TruncateAdd(held, n);
    }
  }

  lemma AllRead(length: u32, first: nat, held: nat, rounds: int)
    requires Truncate32(held) >= length
    ensures held >= length
    ensures BodyRead(length, first, held, rounds) ==>
              && rounds == Missing(length, Truncate32(first))
              && (Truncate32(first) < length ==> Truncate32(held - length) <= IO_BLOCK_SIZE - 1)
  {
  }

  /** Writes still to be made are missing in the end. */
  lemma NotAllWritten(lengths: seq<nat>, rest: nat, all: seq<nat>)
    requires lengths + Chunks(rest) == all
    ensures lengths <= all && (rest > 0 ==> lengths < all)
  {
  }

  /** One write leaves the account of bytes and of write lengths balanced. */
  lemma WriteAccount(data: Bytes, sent: Bytes, lengths: seq<nat>)
    requires Truncate32(|data|) > 0
    ensures var n := S.ToWrite(|data|);
            && (sent + data[..n]) + data[n..] == sent + data
            && Truncate32(|data[n..]|) == Truncate32(|data|) - n
            && (lengths + [n]) + Chunks(Truncate32(|data[n..]|)) == lengths + Chunks(Truncate32(|data|))
  {
    var n := S.ToWrite(|data|);
    assert data[..n] + data[n..] == data;
    Assoc(sent, data[..n], data[n..]);
    var more := Chunks(Truncate32(|data[n..]|));
    assert (lengths + [n]) + more == lengths + ([n] + more);
  }

  /** What went out and what stayed when all but the last bytes were written. */
  lemma SentFront(sent: Bytes, all: Bytes, sent': Bytes, left: Bytes)
    requires sent' + left == sent + all && |left| == |all| - Truncate32(|all|)
    ensures sent' == sent + all[..Truncate32(|all|)] && left == all[Truncate32(|all|)..]
  {
    var n := Truncate32(|all|);
    assert sent + all == (sent + all[..n]) + all[n..];
    assert sent' == (sent' + left)[..|sent'|] && left == (sent' + left)[|sent'|..];
  }

  lemma FrameRead(buffered: Bytes, taken: Bytes, body: Bytes, more: Bytes, msg: Message, rest: Bytes)
    requires buffered + taken == HeaderBytes(msg.header) + body
    requires body + more == msg.payload + rest
    ensures buffered + (taken + more) == NetStr(msg) + rest
  {
    hide HeaderBytes;
    Assoc(buffered, taken, more);
    Assoc(HeaderBytes(msg.header), body, more);
    Assoc(HeaderBytes(msg.header), msg.payload, rest);
  }
}
