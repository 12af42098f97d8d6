/** The asynchronous decoder as a machine over completions, and its behaviour over whole runs.
    A completion with `transfer_at_least(k)` into the fixed block brings k to 2048 bytes. */
module Receiver {
  import opened Bytes
  import opened Framing
  import opened NetConn

  /** The read in progress: none, one for header bytes, or one for the body of `header`. */
  datatype ReadOp = Idle | HeaderRead(atLeast: nat) | BodyRead(header: Header, atLeast: nat)

  datatype Receiver = Receiver(life: Life, buffer: Bytes, op: ReadOp, delivered: seq<Message>)

  const FRESH: Receiver := Receiver(ALIVE, [], Idle, [])

  function BodyWanted(h: Header, buffered: nat): nat
    requires buffered < h.length
  {
    Min(h.length - buffered, IO_BLOCK_SIZE)
  }

  /** The state in which a working connection comes to rest once what it holds has been split. */
  function Settle(r: Receiver, limit: u32, o: Outcome): Receiver
    requires StopOk(limit, o)
  {
    var r' := r.(buffer := o.rest, delivered := r.delivered + o.msgs);
    match o.stop
    case NeedHeader => r'.(op := HeaderRead(HEADER_SIZE - |o.rest|))
    case NeedBody(h) => r'.(op := BodyRead(h, BodyWanted(h, |o.rest|)))
    case BadHeader(_) => r'.(op := Idle, life := ShutdownAndClose(r.life))
  }

  function DoRead(limit: u32, r: Receiver): Receiver {
    if !CanRun(r.life) then r else Settle(r, limit, Split(limit, r.buffer))
  }

  function DoReadMsg(limit: u32, r: Receiver, h: Header): Receiver {
    if !CanRun(r.life) then r else Settle(r, limit, Split(limit, HeaderBytes(h) + r.buffer))
  }

  /** One round of `do_read`: wait for a header, refuse it, or go on to its body. */
  lemma DoReadUnfold(limit: u32, r: Receiver)
    requires CanRun(r.life)
    ensures if |r.buffer| < HEADER_SIZE then
              DoRead(limit, r) == r.(op := HeaderRead(HEADER_SIZE - |r.buffer|))
            else
              var h, r' := ParseHeader(r.buffer[..HEADER_SIZE]), r.(buffer := r.buffer[HEADER_SIZE..]);
              DoRead(limit, r) == if Acceptable(limit, h) then DoReadMsg(limit, r', h)
                                  else r'.(op := Idle, life := ShutdownAndClose(r.life))
  {
    hide HeaderBytes, ParseHeader;
    assert r.delivered + [] == r.delivered;
    if |r.buffer| >= HEADER_SIZE {
      SplitAtHeader(limit, r.buffer);
    }
  }

  /** One round of `do_read_msg`: wait for body bytes, or deliver and go on to the next header. */
  lemma DoReadMsgUnfold(limit: u32, r: Receiver, h: Header)
    requires CanRun(r.life) && Acceptable(limit, h)
    ensures if |r.buffer| < h.length then
              DoReadMsg(limit, r, h) == r.(op := BodyRead(h, BodyWanted(h, |r.buffer|)))
            else
              DoReadMsg(limit, r, h)
              == DoRead(limit, r.(buffer := r.buffer[h.length..],
                                  delivered := r.delivered + [Message(h, r.buffer[..h.length])]))
  {
    hide HeaderBytes, ParseHeader;
    assert r.delivered + [] == r.delivered;
    SplitAfterHeader(limit, h, r.buffer);
    if |r.buffer| >= h.length {
      var m, o := Message(h, r.buffer[..h.length]), Split(limit, r.buffer[h.length..]);
      assert r.delivered + ([m] + o.msgs) == r.delivered + [m] + o.msgs;
    }
  }

  function Start(limit: u32): Receiver {
    DoRead(limit, FRESH)
  }

  lemma StartState(limit: u32)
    ensures Start(limit) == Receiver(ALIVE, [], HeaderRead(HEADER_SIZE), [])
  {
  }

  predicate LegalChunk(r: Receiver, chunk: Bytes) {
    !r.op.Idle? && r.op.atLeast <= |chunk| <= IO_BLOCK_SIZE
  }

  /** A header read completed. The status is not looked at before the header is parsed. */
  function OnHeader(limit: u32, r: Receiver, chunk: Bytes): Receiver
    requires r.op.HeaderRead?
  {
    var r' := r.(op := Idle, buffer := r.buffer + chunk);
    if |r'.buffer| < HEADER_SIZE then
      DoRead(limit, r')
    else
      var h, rest := ParseHeader(r'.buffer[..HEADER_SIZE]), r'.buffer[HEADER_SIZE..];
      if Acceptable(limit, h) then
        DoReadMsg(limit, r'.(buffer := rest), h)
      else
        r'.(buffer := rest, life := ShutdownAndClose(r.life))
  }

  /** A body read completed. The status is not looked at before a whole body is delivered. */
  function OnBody(limit: u32, r: Receiver, chunk: Bytes): Receiver
    requires r.op.BodyRead?
  {
    var h, r' := r.op.header, r.(op := Idle, buffer := r.buffer + chunk);
    if |r'.buffer| < h.length then
      DoReadMsg(limit, r', h)
    else
      DoRead(limit, r'.(buffer := r'.buffer[h.length..],
                        delivered := r.delivered + [Message(h, r'.buffer[..h.length])]))
  }

  function OnChunk(limit: u32, r: Receiver, chunk: Bytes): Receiver
    requires !r.op.Idle?
  {
    if r.op.HeaderRead? then OnHeader(limit, r, chunk) else OnBody(limit, r, chunk)
  }

  /** What can happen to a receiving connection: its read completes or fails, a write fails,
      the operation timer fires, or it is stopped or closed from outside. */
  datatype Event =
    | Completed(chunk: Bytes)
    | Failed(ec: ErrorCode)
    | WriteFailed(ec: ErrorCode)
    | TimerFired
    | StopCalled
    | SocketClosed

  predicate Enabled(r: Receiver, e: Event) {
    match e
    case Completed(chunk) => LegalChunk(r, chunk)
    case Failed(ec) => !r.op.Idle? && !ec.Success?
    case WriteFailed(ec) => !ec.Success?
    case _ => true
  }

  function Step(limit: u32, role: Role, r: Receiver, e: Event): Receiver
    requires Enabled(r, e)
  {
    match e
    case Completed(chunk) => OnChunk(limit, r, chunk)
    case Failed(ec) => r.(op := Idle, life := HandleSocketEc(role, r.life, ec))
    case WriteFailed(ec) => r.(life := HandleSocketEc(role, r.life, ec))
    case TimerFired => r.(life := ShutdownAndClose(OpsCancel(r.life)))
    case StopCalled => r.(life := r.life.(stat := Pending))
    case SocketClosed => r.(life := ShutdownAndClose(r.life))
  }

  predicate LegalRun(limit: u32, role: Role, r: Receiver, es: seq<Event>)
    decreases |es|
  {
    es == [] || (Enabled(r, es[0]) && LegalRun(limit, role, Step(limit, role, r, es[0]), es[1..]))
  }

  function Run(limit: u32, role: Role, r: Receiver, es: seq<Event>): Receiver
    requires LegalRun(limit, role, r, es)
    decreases |es|
  {
    if es == [] then r else Run(limit, role, Step(limit, role, r, es[0]), es[1..])
  }

  function Arrived(e: Event): Bytes {
    if e.Completed? then e.chunk else []
  }

  function Received(es: seq<Event>): Bytes {
    if es == [] then [] else Arrived(es[0]) + Received(es[1..])
  }

  predicate ErrorFree(es: seq<Event>) {
    forall e | e in es :: e.Completed?
  }

  // ---------------------------------------------------------------------
  // The invariant of every run, errors and shutdown included
  // ---------------------------------------------------------------------

  /** A read in progress knows exactly the split of everything received so far; in every
      other state the messages delivered are still an initial part of that split. */
  ghost predicate Tracks(limit: u32, r: Receiver, received: Bytes) {
    var o := Split(limit, received);
    && Consistent(r.life)
    && r.delivered <= o.msgs
    && match r.op
       case Idle => true
       case HeaderRead(k) =>
         o == Outcome(r.delivered, NeedHeader, r.buffer) && k == HEADER_SIZE - |r.buffer|
       case BodyRead(h, k) =>
         o == Outcome(r.delivered, NeedBody(h), r.buffer) && k == BodyWanted(h, |r.buffer|)
  }

  lemma SettleTracks(limit: u32, r: Receiver, received: Bytes, o: Outcome)
    requires CanRun(r.life) && StopOk(limit, o)
    requires Split(limit, received) == Outcome(r.delivered + o.msgs, o.stop, o.rest)
    ensures Tracks(limit, Settle(r, limit, o), received)
  {
  }

  lemma OnHeaderTracks(limit: u32, r: Receiver, received: Bytes, chunk: Bytes)
    requires Tracks(limit, r, received) && r.op.HeaderRead? && LegalChunk(r, chunk)
    ensures Tracks(limit, OnHeader(limit, r, chunk), received + chunk)
  {
    hide HeaderBytes, ParseHeader;
    var b := r.buffer + chunk;
    SplitResumeHeader(limit, received, r.delivered, r.buffer, chunk);
    SplitAtHeader(limit, b);
    if CanRun(r.life) {
      SettleTracks(limit, r.(op := Idle), received + chunk, Split(limit, b));
    }
  }

  lemma OnBodyTracks(limit: u32, r: Receiver, received: Bytes, chunk: Bytes)
    requires Tracks(limit, r, received) && r.op.BodyRead? && LegalChunk(r, chunk)
    ensures Tracks(limit, OnBody(limit, r, chunk), received + chunk)
  {
    hide HeaderBytes, ParseHeader;
    var h, b := r.op.header, r.buffer + chunk;
    SplitResumeBody(limit, received, r.delivered, h, r.buffer, chunk);
    if |b| < h.length {
      SplitAfterHeader(limit, h, b);
    } else if CanRun(r.life) {
      var r' := r.(op := Idle, delivered := r.delivered + [Message(h, b[..h.length])]);
      SettleTracks(limit, r', received + chunk, Split(limit, b[h.length..]));
    }
  }

  lemma StepTracks(limit: u32, role: Role, r: Receiver, received: Bytes, e: Event)
    requires Tracks(limit, r, received) && Enabled(r, e)
    ensures Tracks(limit, Step(limit, role, r, e), received + Arrived(e))
  {
    assert received + [] == received;
    if e.Completed? {
      if r.op.HeaderRead? {
        OnHeaderTracks(limit, r, received, e.chunk);
      } else {
        OnBodyTracks(limit, r, received, e.chunk);
      }
    }
  }

  lemma {:induction false} RunTracks(limit: u32, role: Role, r: Receiver, received: Bytes, es: seq<Event>)
    requires Tracks(limit, r, received) && LegalRun(limit, role, r, es)
    ensures Tracks(limit, Run(limit, role, r, es), received + Received(es))
    decreases |es|
  {
    if es == [] {
      assert received + [] == received;
    } else {
      StepTracks(limit, role, r, received, es[0]);
      RunTracks(limit, role, Step(limit, role, r, es[0]), received + Arrived(es[0]), es[1..]);
      Assoc(received, Arrived(es[0]), Received(es[1..]));
    }
  }

  /** Every reachable state of every run. */
  lemma ReachableTracks(limit: u32, role: Role, es: seq<Event>)
    requires LegalRun(limit, role, Start(limit), es)
    ensures Tracks(limit, Run(limit, role, Start(limit), es), Received(es))
  {
    RunTracks(limit, role, Start(limit), [], es);
    assert [] + Received(es) == Received(es);
  }

  // ---------------------------------------------------------------------
  // Error-free runs: chunking does not matter
  // ---------------------------------------------------------------------

  lemma HeaderChunkSettles(limit: u32, r: Receiver, chunk: Bytes)
    requires CanRun(r.life) && r.op.HeaderRead? && |r.buffer + chunk| >= HEADER_SIZE
    ensures OnHeader(limit, r, chunk) == Settle(r, limit, Split(limit, r.buffer + chunk))
  {
    hide HeaderBytes, ParseHeader;
    DoReadUnfold(limit, r.(op := Idle, buffer := r.buffer + chunk));
  }

  lemma BodyChunkSettles(limit: u32, r: Receiver, chunk: Bytes)
    requires CanRun(r.life) && r.op.BodyRead? && Acceptable(limit, r.op.header)
    ensures OnBody(limit, r, chunk)
         == Settle(r, limit, Split(limit, HeaderBytes(r.op.header) + (r.buffer + chunk)))
  {
    hide HeaderBytes, ParseHeader;
    DoReadMsgUnfold(limit, r.(op := Idle, buffer := r.buffer + chunk), r.op.header);
  }

  lemma SettleTwice(limit: u32, o: Outcome, p: Outcome)
    requires StopOk(limit, o) && StopOk(limit, p) && !o.stop.BadHeader?
    ensures Settle(Settle(FRESH, limit, o), limit, p)
         == Settle(FRESH, limit, Outcome(o.msgs + p.msgs, p.stop, p.rest))
  {
  }

  lemma ChunkSettles(limit: u32, received: Bytes, chunk: Bytes)
    requires LegalChunk(Settle(FRESH, limit, Split(limit, received)), chunk)
    ensures OnChunk(limit, Settle(FRESH, limit, Split(limit, received)), chunk)
         == Settle(FRESH, limit, Split(limit, received + chunk))
  {
    hide HeaderBytes, ParseHeader;
    var o := Split(limit, received);
    var r := Settle(FRESH, limit, o);
    var p := Split(limit, Tail(o) + chunk);
    assert OnChunk(limit, r, chunk) == Settle(r, limit, p) by {
      if r.op.HeaderRead? {
        HeaderChunkSettles(limit, r, chunk);
      } else {
        BodyChunkSettles(limit, r, chunk);
        Assoc(HeaderBytes(r.op.header), r.buffer, chunk);
      }
    }
    SettleTwice(limit, o, p);
    SplitExtend(limit, received, chunk);
  }

  lemma {:induction false} ChunksSettle(limit: u32, role: Role, received: Bytes, es: seq<Event>)
    requires ErrorFree(es)
    requires LegalRun(limit, role, Settle(FRESH, limit, Split(limit, received)), es)
    ensures Run(limit, role, Settle(FRESH, limit, Split(limit, received)), es)
         == Settle(FRESH, limit, Split(limit, received + Received(es)))
    decreases |es|
  {
    if es == [] {
      assert received + [] == received;
    } else {
      assert es[0] in es;
      var c := es[0].chunk;
      ChunkSettles(limit, received, c);
      assert forall e | e in es[1..] :: e in es;
      ChunksSettle(limit, role, received + c, es[1..]);
      Assoc(received, c, Received(es[1..]));
    }
  }

  /** The state a connection reaches depends on the bytes received and on nothing else:
      not on how they were cut into completions, and not on the side of the connection. */
  lemma ChunkingIndependence(limit: u32, role: Role, es: seq<Event>)
    requires ErrorFree(es) && LegalRun(limit, role, Start(limit), es)
    ensures Run(limit, role, Start(limit), es) == Settle(FRESH, limit, Split(limit, Received(es)))
  {
    ChunksSettle(limit, role, [], es);
    assert [] + Received(es) == Received(es);
  }

  /** A run that has consumed a first part of a stream has delivered a first part of its frames.
      Once a header is refused, all frames before it are delivered and no further ones exist. */
  lemma PartOfStream(limit: u32, role: Role, es: seq<Event>, later: Bytes)
    requires ErrorFree(es) && LegalRun(limit, role, Start(limit), es)
    ensures var r, o := Run(limit, role, Start(limit), es), Split(limit, Received(es) + later);
            && r.delivered <= o.msgs
            && (!CanRun(r.life) ==> r.delivered == o.msgs && o.stop.BadHeader?)
            && (later == [] ==> r.delivered == o.msgs && (CanRun(r.life) <==> !o.stop.BadHeader?))
  {
    hide HeaderBytes, ParseHeader;
    ChunkingIndependence(limit, role, es);
    SplitMonotone(limit, Received(es), later);
    if later == [] {
      assert Received(es) + later == Received(es);
    }
    if Split(limit, Received(es)).stop.BadHeader? {
      SplitRefused(limit, Received(es), later);
    }
  }

  /** Between completions a working, error-free connection has a read in progress, and one
      whose header was refused has none. */
  lemma OneReadInProgress(limit: u32, role: Role, es: seq<Event>)
    requires ErrorFree(es) && LegalRun(limit, role, Start(limit), es)
    ensures var r := Run(limit, role, Start(limit), es);
            && (CanRun(r.life) <==> !r.op.Idle?)
            && (!r.op.Idle? ==> 1 <= r.op.atLeast <= IO_BLOCK_SIZE)
  {
    ChunkingIndependence(limit, role, es);
  }

  // ---------------------------------------------------------------------
  // Which events end a connection
  // ---------------------------------------------------------------------

  /** Every failure but an aborted operation, the timer, `stop` and a close from outside. */
  predicate Stops(e: Event) {
    match e
    case Completed(_) => false
    case Failed(ec) => !ec.Aborted?
    case WriteFailed(ec) => !ec.Aborted?
    case _ => true
  }

  predicate AbortsRead(e: Event) {
    e.Failed? && e.ec.Aborted?
  }

  /** The state of a connection that nothing has stopped; an aborted read is not started again. */
  function Unstopped(limit: u32, received: Bytes, aborted: bool): Receiver {
    var r := Settle(FRESH, limit, Split(limit, received));
    if aborted then r.(op := Idle) else r
  }

  lemma UnstoppedStep(limit: u32, role: Role, received: Bytes, aborted: bool, e: Event)
    requires Enabled(Unstopped(limit, received, aborted), e) && !Stops(e)
    ensures Step(limit, role, Unstopped(limit, received, aborted), e)
         == Unstopped(limit, received + Arrived(e), aborted || AbortsRead(e))
  {
    hide HeaderBytes, ParseHeader, Split, OnHeader, OnBody;
    assert received + [] == received;
    if e.Completed? {
      ChunkSettles(limit, received, e.chunk);
    }
  }

  lemma {:induction false} StoppedRun(limit: u32, role: Role, r: Receiver, es: seq<Event>)
    requires !CanRun(r.life) && LegalRun(limit, role, r, es)
    ensures !CanRun(Run(limit, role, r, es).life)
    decreases |es|
  {
    hide HeaderBytes, ParseHeader, Split;
    if es != [] {
      StoppedRun(limit, role, Step(limit, role, r, es[0]), es[1..]);
    }
  }

  lemma StopsConnection(limit: u32, role: Role, r: Receiver, e: Event)
    requires Enabled(r, e) && Stops(e)
    ensures !CanRun(Step(limit, role, r, e).life)
  {
  }

  lemma {:induction false} UnstoppedRun(limit: u32, role: Role, received: Bytes, aborted: bool, es: seq<Event>)
    requires LegalRun(limit, role, Unstopped(limit, received, aborted), es)
    ensures var r := Run(limit, role, Unstopped(limit, received, aborted), es);
            if exists e :: e in es && Stops(e) then !CanRun(r.life)
            else r == Unstopped(limit, received + Received(es), aborted || exists e :: e in es && AbortsRead(e))
    decreases |es|
  {
    hide Unstopped, Step, Enabled;
    if es == [] {
      assert received + [] == received;
    } else {
      var r := Unstopped(limit, received, aborted);
      assert es == [es[0]] + es[1..];
      if Stops(es[0]) {
        StopsConnection(limit, role, r, es[0]);
        StoppedRun(limit, role, Step(limit, role, r, es[0]), es[1..]);
      } else {
        UnstoppedStep(limit, role, received, aborted, es[0]);
        UnstoppedRun(limit, role, received + Arrived(es[0]), aborted || AbortsRead(es[0]), es[1..]);
        Assoc(received, Arrived(es[0]), Received(es[1..]));
      }
    }
  }

  /** When a connection still works, over every run: exactly if nothing has stopped it and no header
      of what it has received was refused. It then is in the state that belongs to these bytes, with
      a read in progress unless one was aborted. */
  lemma WorksIff(limit: u32, role: Role, es: seq<Event>)
    requires LegalRun(limit, role, Start(limit), es)
    ensures var r, o := Run(limit, role, Start(limit), es), Split(limit, Received(es));
            && (CanRun(r.life) <==> (forall e | e in es :: !Stops(e)) && !o.stop.BadHeader?)
            && (CanRun(r.life) ==>
                  && r.delivered == o.msgs && r.buffer == o.rest
                  && (r.op.Idle? <==> exists e :: e in es && AbortsRead(e)))
  {
    hide HeaderBytes, ParseHeader, Run, LegalRun, Received;
    UnstoppedRun(limit, role, [], false, es);
    assert Unstopped(limit, [], false) == Start(limit);
    assert [] + Received(es) == Received(es);
    assert [] + Split(limit, Received(es)).msgs == Split(limit, Received(es)).msgs;
  }

  // ---------------------------------------------------------------------
  // How many reads, and how much memory
  // ---------------------------------------------------------------------

  /** A header read needs one completion: afterwards a whole header has been taken off. */
  lemma HeaderTakesOneRead(limit: u32, r: Receiver, received: Bytes, chunk: Bytes)
    requires Tracks(limit, r, received) && r.op.HeaderRead? && LegalChunk(r, chunk)
    ensures |r.buffer + chunk| >= HEADER_SIZE
    ensures |OnHeader(limit, r, chunk).buffer| <= |r.buffer + chunk| - HEADER_SIZE
  {
    hide HeaderBytes, ParseHeader;
    var b := r.buffer + chunk;
    var h := ParseHeader(b[..HEADER_SIZE]);
    HeaderOnto(b[..HEADER_SIZE]);
    assert b == HeaderBytes(h) + b[HEADER_SIZE..];
    SplitRestShorter(limit, b);
  }

  lemma {:induction false} SplitRestShorter(limit: u32, s: Bytes)
    ensures |Split(limit, s).rest| <= |s|
    ensures |s| >= HEADER_SIZE ==> |Split(limit, s).rest| <= |s| - HEADER_SIZE
    decreases |s|
  {
    if |s| >= HEADER_SIZE {
      var h, body := ParseHeader(s[..HEADER_SIZE]), s[HEADER_SIZE..];
      if Acceptable(limit, h) && |body| >= h.length {
        SplitRestShorter(limit, body[h.length..]);
      }
    }
  }

  ghost predicate InBody(limit: u32, r: Receiver) {
    && r.op.BodyRead?
    && CanRun(r.life)
    && Acceptable(limit, r.op.header)
    && |r.buffer| < r.op.header.length
    && r.op.atLeast == BodyWanted(r.op.header, |r.buffer|)
  }

  function ReadsLeft(r: Receiver): nat
    requires r.op.BodyRead? && |r.buffer| < r.op.header.length
  {
    CeilDiv(r.op.header.length - |r.buffer|, IO_BLOCK_SIZE)
  }

  predicate LegalChunks(limit: u32, r: Receiver, chunks: seq<Bytes>)
    decreases |chunks|
  {
    chunks == [] || (LegalChunk(r, chunks[0]) && LegalChunks(limit, OnChunk(limit, r, chunks[0]), chunks[1..]))
  }

  function AfterChunks(limit: u32, r: Receiver, chunks: seq<Bytes>): Receiver
    requires LegalChunks(limit, r, chunks)
    decreases |chunks|
  {
    if chunks == [] then r else AfterChunks(limit, OnChunk(limit, r, chunks[0]), chunks[1..])
  }

  lemma BodyStep(limit: u32, r: Receiver, chunk: Bytes)
    requires InBody(limit, r) && LegalChunk(r, chunk)
    ensures var r', h, b := OnBody(limit, r, chunk), r.op.header, r.buffer + chunk;
            if ReadsLeft(r) > 1 then
              && r' == r.(buffer := b, op := BodyRead(h, BodyWanted(h, |b|)))
              && InBody(limit, r') && ReadsLeft(r') == ReadsLeft(r) - 1
            else
              && |b| >= h.length
              && r.delivered + [Message(h, b[..h.length])] <= r'.delivered
  {
    hide HeaderBytes, ParseHeader;
    var h, b := r.op.header, r.buffer + chunk;
    SplitAfterHeader(limit, h, b);
    var missing := h.length - |r.buffer|;
    if missing > IO_BLOCK_SIZE {
      assert |chunk| == IO_BLOCK_SIZE;
      assert (missing + IO_BLOCK_SIZE - 1) / IO_BLOCK_SIZE
          == (missing - IO_BLOCK_SIZE + IO_BLOCK_SIZE - 1) / IO_BLOCK_SIZE + 1;
    } else {
      assert (missing + IO_BLOCK_SIZE - 1) / IO_BLOCK_SIZE == 1;
    }
  }

  /** A body of length L of which b < L bytes are buffered takes exactly ceil((L - b) / 2048)
      completions: after fewer nothing is delivered, after that many the message is. */
  lemma {:induction false} BodyReadCount(limit: u32, r: Receiver, chunks: seq<Bytes>)
    requires InBody(limit, r) && LegalChunks(limit, r, chunks)
    requires |chunks| <= ReadsLeft(r)
    ensures var r', h, b := AfterChunks(limit, r, chunks), r.op.header, r.buffer + Concat(chunks);
            if |chunks| < ReadsLeft(r) then
              |b| < h.length && r' == r.(buffer := b, op := BodyRead(h, BodyWanted(h, |b|)))
            else
              |b| >= h.length && r.delivered + [Message(h, b[..h.length])] <= r'.delivered
    decreases |chunks|
  {
    hide HeaderBytes, ParseHeader;
    if chunks == [] {
      assert r.buffer + [] == r.buffer;
    } else {
      var c, more := chunks[0], chunks[1..];
      BodyStep(limit, r, c);
      assert r.buffer + Concat(chunks) == (r.buffer + c) + Concat(more);
      if ReadsLeft(r) > 1 {
        BodyReadCount(limit, OnBody(limit, r, c), more);
      } else {
        assert more == [];
        assert Concat(chunks) == c + [];
        assert r.buffer + Concat(chunks) == r.buffer + c;
      }
    }
  }

  /** How much is left in the buffer each time splitting `s` takes a header or a body off. */
  function Residues(limit: u32, s: Bytes): seq<nat>
    decreases |s|
  {
    if |s| < HEADER_SIZE then [] else
      var h, body := ParseHeader(s[..HEADER_SIZE]), s[HEADER_SIZE..];
      if Acceptable(limit, h) && |body| >= h.length then
        [|body|] + ([|body| - h.length] + Residues(limit, body[h.length..]))
      else
        [|body|]
  }

  /** The same for a completion: every take-off of its handler and the rounds that follow it. */
  function ResiduesAfter(limit: u32, r: Receiver, chunk: Bytes): seq<nat>
    requires !r.op.Idle?
  {
    var b := r.buffer + chunk;
    if r.op.HeaderRead? then Residues(limit, b)
    else if |b| < r.op.header.length then []
    else [|b| - r.op.header.length] + Residues(limit, b[r.op.header.length..])
  }

  /** There are two for each message, one for a header without its body, none for a short header,
      and each is smaller than what was there before. */
  lemma {:induction false} ResiduesShrink(limit: u32, s: Bytes)
    ensures var o := Split(limit, s);
            && |Residues(limit, s)| == 2 * |o.msgs| + (if o.stop.NeedHeader? then 0 else 1)
            && (Residues(limit, s) != [] ==> Residues(limit, s)[|Residues(limit, s)| - 1] == |o.rest|)
            && forall n | n in Residues(limit, s) :: n <= |s| - HEADER_SIZE
    decreases |s|
  {
    hide ParseHeader;
    if |s| >= HEADER_SIZE {
      var h, body := ParseHeader(s[..HEADER_SIZE]), s[HEADER_SIZE..];
      if Acceptable(limit, h) && |body| >= h.length {
        ResiduesShrink(limit, body[h.length..]);
      }
    }
  }

  /** Bounds of the receive buffer in every reachable state of every run, right after a
      completion was appended, and right after each header or body was taken off, in the handler
      itself and in every further round it leads to. */
  lemma BufferBound(limit: u32, role: Role, es: seq<Event>, chunk: Bytes)
    requires LegalRun(limit, role, Start(limit), es)
    requires LegalChunk(Run(limit, role, Start(limit), es), chunk)
    ensures var r := Run(limit, role, Start(limit), es);
            var peak, after := |r.buffer| + |chunk|, OnChunk(limit, r, chunk);
            && (r.op.HeaderRead? ==>
                  |r.buffer| <= HEADER_SIZE - 1 && peak <= IO_BLOCK_SIZE + HEADER_SIZE - 1)
            && (r.op.BodyRead? ==>
                  |r.buffer| < r.op.header.length && peak <= r.op.header.length + IO_BLOCK_SIZE - 1)
            && (forall n | n in ResiduesAfter(limit, r, chunk) :: n <= IO_BLOCK_SIZE - 1)
            && |after.buffer| <= (if ResiduesAfter(limit, r, chunk) == [] then peak else IO_BLOCK_SIZE - 1)
  {
    hide HeaderBytes, ParseHeader, Residues;
    ReachableTracks(limit, role, es);
    var r := Run(limit, role, Start(limit), es);
    if r.op.HeaderRead? {
      HeaderTakesOneRead(limit, r, Received(es), chunk);
      ResiduesShrink(limit, r.buffer + chunk);
    } else {
      var h, b := r.op.header, r.buffer + chunk;
      SplitAfterHeader(limit, h, b);
      if |b| >= h.length {
        SplitRestShorter(limit, b[h.length..]);
        ResiduesShrink(limit, b[h.length..]);
      }
    }
  }

  /** With a configured limit of at most 2^32 - 2048 the buffer length always fits 32 bits, also
      right after a completion was appended. */
  lemma NeverTruncated(limit: u32, role: Role, es: seq<Event>, chunk: Bytes)
    requires 0 < limit <= TWO_TO_32 - IO_BLOCK_SIZE
    requires LegalRun(limit, role, Start(limit), es)
    requires LegalChunk(Run(limit, role, Start(limit), es), chunk)
    ensures |Run(limit, role, Start(limit), es).buffer| + |chunk| < TWO_TO_32
  {
    hide HeaderBytes, ParseHeader, LegalRun, Run, OnChunk, Split;
    BufferBound(limit, role, es, chunk);
    ReachableTracks(limit, role, es);
  }

  /** Whether the truncated length a body test sees decides as the true length would. */
  predicate LengthTestRight(length: u32, buffered: nat, arrived: nat) {
    Truncate32(buffered + arrived) < length <==> buffered + arrived < length
  }

  predicate LegalArrival(length: u32, buffered: nat, arrived: nat) {
    buffered < length && Min(length - buffered, IO_BLOCK_SIZE) <= arrived <= IO_BLOCK_SIZE
  }

  /** `get_length` truncates to 32 bits. For a body of length L the truncated test is right,
      whatever a legal completion brings, exactly when L <= 2^32 - 2048. */
  lemma LengthTestExact(length: u32)
    requires length > 0
    ensures (forall b: nat, n: nat | LegalArrival(length, b, n) :: LengthTestRight(length, b, n))
       <==> length <= TWO_TO_32 - IO_BLOCK_SIZE
  {
    if length > TWO_TO_32 - IO_BLOCK_SIZE {
      assert LegalArrival(length, length - 1, IO_BLOCK_SIZE);
      assert !LengthTestRight(length, length - 1, IO_BLOCK_SIZE);
    } else {
      forall b: nat, n: nat | LegalArrival(length, b, n)
        ensures LengthTestRight(length, b, n)
      {
        assert b + n < TWO_TO_32;
      }
    }
  }

  // ---------------------------------------------------------------------
  // Shutdown
  // ---------------------------------------------------------------------

  function ReadEvents(es: seq<Event>): nat {
    if es == [] then 0 else (if es[0].Completed? || es[0].Failed? then 1 else 0) + ReadEvents(es[1..])
  }

  /** A body read completes with the rest of a body; its handler does not look at the status. */
  predicate Late(r: Receiver, e: Event) {
    e.Completed? && r.op.BodyRead? && |r.buffer| + |e.chunk| >= r.op.header.length
  }

  function LateMessage(r: Receiver, e: Event): Message
    requires Late(r, e)
  {
    Message(r.op.header, (r.buffer + e.chunk)[..r.op.header.length])
  }

  /** A step after shutdown starts nothing, and delivers exactly if it completes a body. */
  lemma StepAfterShutdown(limit: u32, role: Role, r: Receiver, e: Event)
    requires !r.life.stat.Working? && Enabled(r, e)
    ensures var r' := Step(limit, role, r, e);
            && !r'.life.stat.Working?
            && (if e.Completed? || e.Failed? then !r.op.Idle? && r'.op.Idle?
                else r'.op == r.op && r'.buffer == r.buffer)
            && r'.delivered == r.delivered + (if Late(r, e) then [LateMessage(r, e)] else [])
  {
    assert r.delivered + [] == r.delivered;
  }

  lemma {:induction false} NoReadEvents(es: seq<Event>, e: Event)
    requires ReadEvents(es) == 0 && e in es
    ensures !e.Completed? && !e.Failed?
  {
    if e != es[0] {
      NoReadEvents(es[1..], e);
    }
  }

  /** From the moment a connection has left kWorking between two handlers (for any other moment see
      `FineReader.ShutdownSafety`), over every later run: it never works again, no read is started,
      the read in progress completes or fails at most once, and one message is still delivered, the
      next one of the stream, exactly if that read was for a body and completes it. */
  lemma {:induction false} ShutdownSafety(limit: u32, role: Role, r: Receiver, received: Bytes, es: seq<Event>)
    requires !r.life.stat.Working? && Tracks(limit, r, received) && LegalRun(limit, role, r, es)
    ensures var r' := Run(limit, role, r, es);
            && !r'.life.stat.Working?
            && r'.op == (if ReadEvents(es) == 0 then r.op else Idle)
            && ReadEvents(es) <= (if r.op.Idle? then 0 else 1)
            && (forall e | e in es && Late(r, e) :: r'.delivered == r.delivered + [LateMessage(r, e)])
            && ((forall e | e in es :: !Late(r, e)) ==> r'.delivered == r.delivered)
            && r'.delivered <= Split(limit, received + Received(es)).msgs
    decreases |es|
  {
    hide Split, Tracks, Step;
    RunTracks(limit, role, r, received, es);
    assert Tracks(limit, Run(limit, role, r, es), received + Received(es));
    TracksPrefix(limit, Run(limit, role, r, es), received + Received(es));
    if es != [] {
      var r1 := Step(limit, role, r, es[0]);
      StepAfterShutdown(limit, role, r, es[0]);
      StepTracks(limit, role, r, received, es[0]);
      ShutdownSafety(limit, role, r1, received + Arrived(es[0]), es[1..]);
      var r' := Run(limit, role, r, es);
      assert r' == Run(limit, role, r1, es[1..]);
      assert es == [es[0]] + es[1..];
      assert r.delivered + [] == r.delivered;
      if es[0].Completed? || es[0].Failed? {
        forall e | e in es[1..]
          ensures !Late(r, e) && !Late(r1, e)
        {
          NoReadEvents(es[1..], e);
        }
        assert r'.delivered == r1.delivered;
      } else {
        forall e | e in es && Late(r, e)
          ensures r'.delivered == r.delivered + [LateMessage(r, e)]
        {
          assert e in es[1..] && Late(r1, e) && LateMessage(r1, e) == LateMessage(r, e);
        }
        if forall e | e in es :: !Late(r, e) {
          assert forall e | e in es[1..] :: e in es && Late(r1, e) == Late(r, e);
        }
      }
    }
  }

  lemma TracksPrefix(limit: u32, r: Receiver, received: Bytes)
    requires Tracks(limit, r, received)
    ensures r.delivered <= Split(limit, received).msgs
  {
  }

  lemma RunOne(limit: u32, role: Role, r: Receiver, e: Event)
    requires Enabled(r, e)
    ensures LegalRun(limit, role, r, [e]) && Run(limit, role, r, [e]) == Step(limit, role, r, e)
  {
    hide Step;
    var r' := Step(limit, role, r, e);
    assert [e][1..] == [];
    assert LegalRun(limit, role, r', []) && Run(limit, role, r', []) == r';
  }

  /** It does happen: the connection is closed while the body of a message is being read, and the
      message is delivered all the same. */
  lemma LateDelivery(limit: u32, role: Role, m: Message)
    requires WellFormed(limit, m) && 1 <= |m.payload| <= IO_BLOCK_SIZE
    ensures var es := [Completed(HeaderBytes(m.header)), SocketClosed, Completed(m.payload)];
            && LegalRun(limit, role, Start(limit), es)
            && var r := Run(limit, role, Start(limit), es); r.life.stat.Closed? && r.delivered == [m]
  {
    hide HeaderBytes, Framing.ParseHeader, Run, LegalRun, Split;
    var e1, e2, e3 := Completed(HeaderBytes(m.header)), SocketClosed, Completed(m.payload);
    var r0 := Start(limit);
    var r1 := HeaderArrives(limit, role, m.header);
    var r2 := Step(limit, role, r1, e2);
    StepAfterShutdown(limit, role, r2, e3);
    assert [] + m.payload == m.payload;
    var r3 := Step(limit, role, r2, e3);
    assert ([] + m.payload)[..m.header.length] == m.payload;
    assert LateMessage(r2, e3) == m;
    hide Step, Enabled;
    RunOne(limit, role, r2, e3);
    RunFront(limit, role, r1, e2, [e3]);
    assert [e2] + [e3] == [e2, e3];
    RunFront(limit, role, r0, e1, [e2, e3]);
    assert [e1] + [e2, e3] == [e1, e2, e3];
  }

  /** The first header of a stream, read alone. */
  lemma HeaderArrives(limit: u32, role: Role, h: Header) returns (r1: Receiver)
    requires Acceptable(limit, h) && h.length > 0
    ensures var r0, e := Start(limit), Completed(HeaderBytes(h));
            && Enabled(r0, e) && r1 == Step(limit, role, r0, e)
            && r1 == Receiver(ALIVE, [], BodyRead(h, BodyWanted(h, 0)), [])
  {
    hide HeaderBytes, Framing.ParseHeader, Split, OnHeader, OnBody;
    var e := Completed(HeaderBytes(h));
    SplitEncode(limit, []);
    StartState(limit);
    ChunkSettles(limit, [], e.chunk);
    assert [] + e.chunk == e.chunk == HeaderBytes(h) + [];
    SplitAfterHeader(limit, h, []);
    r1 := Step(limit, role, Start(limit), e);
  }

  lemma RunFront(limit: u32, role: Role, r: Receiver, e: Event, es: seq<Event>)
    requires Enabled(r, e) && LegalRun(limit, role, Step(limit, role, r, e), es)
    ensures LegalRun(limit, role, r, [e] + es)
    ensures Run(limit, role, r, [e] + es) == Run(limit, role, Step(limit, role, r, e), es)
  {
    hide Step;
    assert ([e] + es)[1..] == es;
  }
}
