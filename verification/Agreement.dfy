/** The three decoders agree: blocking calls, the server's callbacks and the client's callbacks
    find the same messages in the same stream and stop at the same header. */
module Agreement {
  import opened Bytes
  import opened Framing
  import opened NetConn
  import R = Receiver

  /** One successful blocking receive: the bytes it took from the socket, the message it
      returned and the bytes it left in the buffer (`SyncConn.TcpConnSync.RecvNetMessage`). */
  datatype Call = Call(taken: Bytes, msg: Message, residue: Bytes)

  predicate CallOk(limit: u32, buffered: Bytes, c: Call) {
    buffered + c.taken == NetStr(c.msg) + c.residue && WellFormed(limit, c.msg)
  }

  /** Successive calls on one connection; what one leaves over, the next one starts with. */
  predicate Calls(limit: u32, buffered: Bytes, cs: seq<Call>)
    decreases |cs|
  {
    cs == [] || (CallOk(limit, buffered, cs[0]) && Calls(limit, cs[0].residue, cs[1..]))
  }

  function TakenBy(cs: seq<Call>): Bytes {
    if cs == [] then [] else cs[0].taken + TakenBy(cs[1..])
  }

  function Returned(cs: seq<Call>): seq<Message> {
    if cs == [] then [] else [cs[0].msg] + Returned(cs[1..])
  }

  function LeftOver(buffered: Bytes, cs: seq<Call>): Bytes
    decreases |cs|
  {
    if cs == [] then buffered else LeftOver(cs[0].residue, cs[1..])
  }

  /** Blocking calls peel the split of the stream from the front, residue carried over. */
  lemma {:induction false} CallsSplit(limit: u32, buffered: Bytes, cs: seq<Call>, later: Bytes)
    requires Calls(limit, buffered, cs)
    ensures var o := Split(limit, LeftOver(buffered, cs) + later);
            Split(limit, buffered + TakenBy(cs) + later) == o.(msgs := Returned(cs) + o.msgs)
    decreases |cs|
  {
    hide HeaderBytes, ParseHeader, Split, WellFormed;
    if cs == [] {
      assert buffered + [] == buffered;
      assert forall o: Outcome :: [] + o.msgs == o.msgs;
    } else {
      var c, more := cs[0], cs[1..];
      var rest := c.residue + TakenBy(more) + later;
      CallsSplit(limit, c.residue, more, later);
      SplitFrame(limit, c.msg, rest);
      StreamCons(buffered, c.taken, NetStr(c.msg), c.residue, TakenBy(more), later);
      var o := Split(limit, LeftOver(buffered, cs) + later);
      assert [c.msg] + (Returned(more) + o.msgs) == ([c.msg] + Returned(more)) + o.msgs;
    }
  }

  lemma StreamCons(buffered: Bytes, taken: Bytes, frame: Bytes, residue: Bytes, more: Bytes, later: Bytes)
    requires buffered + taken == frame + residue
    ensures buffered + (taken + more) + later == frame + (residue + more + later)
  {
    Assoc(buffered, taken, more);
    Assoc(frame, residue, more);
    Assoc(frame, residue + more, later);
  }

  /** What a decoder that was given a first part of `stream` may have made of it: it has delivered
      a first part of the messages; if it stopped at a refused header, that is the stream's one and
      all messages in front of it have been delivered; and once it was given everything, it has
      delivered everything and stopped where the stream's own split stops. */
  ghost predicate Decodes(limit: u32, stream: Bytes, delivered: seq<Message>, stop: Stop, whole: bool) {
    var o := Split(limit, stream);
    && delivered <= o.msgs
    && (stop.BadHeader? || whole ==> delivered == o.msgs && stop == o.stop)
  }

  lemma PartDecodes(limit: u32, part: Bytes, later: Bytes)
    ensures Decodes(limit, part + later, Split(limit, part).msgs, Split(limit, part).stop, later == [])
  {
    hide Split;
    SplitMonotone(limit, part, later);
    if later == [] {
      assert part + later == part;
    } else if Split(limit, part).stop.BadHeader? {
      SplitRefused(limit, part, later);
    }
  }

  /** The three decoders on one stream, each of which has been given a first part of it, cut up in
      its own way and of its own length: the callbacks of server and client, and blocking calls,
      with the bytes `last` that a further, unsuccessful one has taken. They deliver the same messages
      in the same order, and any of them that refuses a header refuses the same one, having
      delivered the same messages; the asynchronous ones are then closed. */
  lemma DecodersAgree(limit: u32, stream: Bytes, server: seq<R.Event>, client: seq<R.Event>,
                      cs: seq<Call>, last: Bytes)
    requires R.ErrorFree(server) && R.LegalRun(limit, Server, R.Start(limit), server)
    requires R.ErrorFree(client) && R.LegalRun(limit, Client, R.Start(limit), client)
    requires Calls(limit, [], cs)
    requires R.Received(server) <= stream && R.Received(client) <= stream && TakenBy(cs) + last <= stream
    ensures var s, c := R.Run(limit, Server, R.Start(limit), server), R.Run(limit, Client, R.Start(limit), client);
            var atServer, atClient := Split(limit, R.Received(server)).stop, Split(limit, R.Received(client)).stop;
            var left := Split(limit, LeftOver([], cs) + last);
            && Decodes(limit, stream, s.delivered, atServer, R.Received(server) == stream)
            && Decodes(limit, stream, c.delivered, atClient, R.Received(client) == stream)
            && Returned(cs) <= Split(limit, stream).msgs
            && (left.msgs == [] ==> Decodes(limit, stream, Returned(cs), left.stop, TakenBy(cs) + last == stream))
            && (s.life.stat.Closed? <==> atServer.BadHeader?)
            && (c.life.stat.Closed? <==> atClient.BadHeader?)
  {
    hide HeaderBytes, ParseHeader, Split, R.Run, R.LegalRun, R.Received, Calls, Decodes;
    RunDecodes(limit, Server, stream, server);
    RunDecodes(limit, Client, stream, client);
    CallsSplit(limit, [], cs, last);
    var taken := TakenBy(cs) + last;
    assert [] + TakenBy(cs) == TakenBy(cs) && Returned(cs) + [] == Returned(cs);
    PartDecodes(limit, taken, stream[|taken|..]);
    assert taken + stream[|taken|..] == stream;
    SplitMonotone(limit, taken, stream[|taken|..]);
  }

  lemma RunDecodes(limit: u32, role: Role, stream: Bytes, es: seq<R.Event>)
    requires R.ErrorFree(es) && R.LegalRun(limit, role, R.Start(limit), es) && R.Received(es) <= stream
    ensures var r, o := R.Run(limit, role, R.Start(limit), es), Split(limit, R.Received(es));
            && Decodes(limit, stream, r.delivered, o.stop, R.Received(es) == stream)
            && (r.life.stat.Closed? <==> o.stop.BadHeader?)
  {
    hide HeaderBytes, ParseHeader, Split, R.Run, R.LegalRun, R.Received, Decodes;
    var part := R.Received(es);
    R.ChunkingIndependence(limit, role, es);
    assert [] + Split(limit, part).msgs == Split(limit, part).msgs;
    PartDecodes(limit, part, stream[|part|..]);
    assert part + stream[|part|..] == stream;
  }
}
