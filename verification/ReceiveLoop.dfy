/** The blocking decoder, call after call. */
module ReceiveLoop {
  import opened Bytes
  import opened Framing
  import opened NetConn
  import opened SyncConn
  import opened Agreement

  lemma {:induction false} CallsSnoc(limit: u32, buffered: Bytes, cs: seq<Call>, c: Call)
    requires Calls(limit, buffered, cs) && CallOk(limit, LeftOver(buffered, cs), c)
    ensures Calls(limit, buffered, cs + [c]) && LeftOver(buffered, cs + [c]) == c.residue
    ensures Returned(cs + [c]) == Returned(cs) + [c.msg]
    ensures TakenBy(cs + [c]) == TakenBy(cs) + c.taken
    decreases |cs|
  {
    hide CallOk;
    if cs == [] {
      assert [] + [c] == [c] && [c][1..] == [];
      assert c.taken + [] == c.taken == [] + c.taken;
    } else {
      var all, more := cs + [c], cs[1..];
      assert all[0] == cs[0] && all[1..] == more + [c];
      CallsSnoc(limit, cs[0].residue, more, c);
      Assoc(cs[0].taken, TakenBy(more), c.taken);
      assert [cs[0].msg] + (Returned(more) + [c.msg]) == ([cs[0].msg] + Returned(more)) + [c.msg];
    }
  }

  /** Successful calls `cs` have left `data` in the buffer and `rest` to be read. */
  predicate SoFar(limit: u32, buffered: Bytes, incoming: Bytes, cs: seq<Call>, data: Bytes, rest: Bytes) {
    Calls(limit, buffered, cs) && LeftOver(buffered, cs) == data && incoming == TakenBy(cs) + rest
  }

  /** A further call has taken `last` and refused `header`. */
  predicate Refused(limit: u32, buffered: Bytes, incoming: Bytes, cs: seq<Call>, last: Bytes,
                    header: Header, data: Bytes, rest: Bytes)
  {
    && Calls(limit, buffered, cs) && incoming == (TakenBy(cs) + last) + rest
    && Split(limit, LeftOver(buffered, cs) + last) == Outcome([], BadHeader(header), data)
  }

  lemma OneMoreCall(limit: u32, buffered: Bytes, incoming: Bytes, cs: seq<Call>, data: Bytes, rest: Bytes,
                    c: Call, rest': Bytes)
    requires SoFar(limit, buffered, incoming, cs, data, rest) && CallOk(limit, data, c) && rest == c.taken + rest'
    ensures SoFar(limit, buffered, incoming, cs + [c], c.residue, rest')
    ensures Returned(cs + [c]) == Returned(cs) + [c.msg]
    ensures |c.residue| + |rest'| < |data| + |rest|
  {
    hide HeaderBytes, WellFormed;
    CallsSnoc(limit, buffered, cs, c);
    Assoc(TakenBy(cs), c.taken, rest');
    assert |data + c.taken| == |data| + |c.taken|;
  }

  lemma LastCall(limit: u32, buffered: Bytes, incoming: Bytes, cs: seq<Call>, data: Bytes, rest: Bytes,
                 last: Bytes, h: Header, data': Bytes, rest': Bytes)
    requires SoFar(limit, buffered, incoming, cs, data, rest) && rest == last + rest'
    requires data + last == HeaderBytes(h) + data' && !Acceptable(limit, h)
    ensures Refused(limit, buffered, incoming, cs, last, h, data', rest')
  {
    SplitBadHeader(limit, h, data');
    Assoc(TakenBy(cs), last, rest');
  }

  /** What that makes of the stream: it starts with the messages returned, and if the last call
      refused a header, this is where its split stops. */
  lemma CallsOnStream(limit: u32, buffered: Bytes, incoming: Bytes, cs: seq<Call>, last: Bytes, rest: Bytes)
    requires Calls(limit, buffered, cs) && incoming == (TakenBy(cs) + last) + rest
    ensures Returned(cs) <= Split(limit, buffered + incoming).msgs
    ensures var o := Split(limit, LeftOver(buffered, cs) + last);
            o.msgs == [] && o.stop.BadHeader? ==>
              Split(limit, buffered + incoming) == Outcome(Returned(cs), o.stop, o.rest + rest)
  {
    hide Split;
    CallsSplit(limit, buffered, cs, last + rest);
    assert buffered + incoming == buffered + TakenBy(cs) + (last + rest);
    if Split(limit, LeftOver(buffered, cs) + last).stop.BadHeader? {
      Assoc(LeftOver(buffered, cs), last, rest);
      SplitRefused(limit, LeftOver(buffered, cs) + last, rest);
      assert Returned(cs) + [] == Returned(cs);
    }
  }

  /** Receive with blocking calls until one fails. The calls peel the stream from the front; if
      nothing disturbed the connection, the last one failed because of a refused header, all the
      messages in front of that header have been returned, and the connection is closed. */
  method ReceiveAll(conn: TcpConnSync) returns (msgs: seq<Message>, ghost cs: seq<Call>, ghost last: Bytes)
    requires conn.Valid()
    modifies conn.Repr()
    ensures conn.Valid() && (old(conn.socket.disturbed) ==> conn.socket.disturbed)
    ensures Calls(conn.recvMaxMsgSize, old(conn.recvBuffer.data), cs) && msgs == Returned(cs)
    ensures TakenBy(cs) <= old(conn.socket.Incoming())
    ensures !conn.socket.disturbed && old(conn.connStat) == Working ==>
              && conn.connStat == Closed
              && Refused(conn.recvMaxMsgSize, old(conn.recvBuffer.data), old(conn.socket.Incoming()), cs, last,
                         conn.recvHeader, conn.recvBuffer.data, conn.socket.Incoming())
    ensures var o := Split(conn.recvMaxMsgSize, old(conn.recvBuffer.data) + old(conn.socket.Incoming()));
            && msgs <= o.msgs
            && (!conn.socket.disturbed && old(conn.connStat) == Working ==>
                  o == Outcome(msgs, BadHeader(conn.recvHeader), conn.recvBuffer.data + conn.socket.Incoming()))
  {
    hide HeaderBytes, WellFormed, Acceptable, Split;
    msgs, cs, last := [], [], [];
    ghost var limit := conn.recvMaxMsgSize;
    ghost var incoming, buffered := conn.socket.Incoming(), conn.recvBuffer.data;
    ghost var data, rest := buffered, incoming;
    assert [] + incoming == incoming;
    while true
      invariant conn.Valid() && (old(conn.socket.disturbed) ==> conn.socket.disturbed)
      invariant data == conn.recvBuffer.data && rest == conn.socket.Incoming()
      invariant SoFar(limit, buffered, incoming, cs, data, rest) && msgs == Returned(cs)
      invariant old(conn.connStat) == Working && !conn.socket.disturbed ==> conn.connStat == Working
      decreases |data| + |rest|
    {
      var ok, msg, taken := conn.RecvNetMessage();
      if !ok {
        if !conn.socket.disturbed && old(conn.connStat) == Working {
          last := taken;
          LastCall(limit, buffered, incoming, cs, data, rest, taken, conn.recvHeader,
                   conn.recvBuffer.data, conn.socket.Incoming());
          CallsOnStream(limit, buffered, incoming, cs, taken, conn.socket.Incoming());
        }
        CallsOnStream(limit, buffered, incoming, cs, [], rest);
        return;
      }
      ghost var c := Call(taken, msg, conn.recvBuffer.data);
      OneMoreCall(limit, buffered, incoming, cs, data, rest, c, conn.socket.Incoming());
      msgs, cs, data, rest := msgs + [msg], cs + [c], conn.recvBuffer.data, conn.socket.Incoming();
    }
  }
}
