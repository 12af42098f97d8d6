/** The asynchronous decoder in its separate steps. Timers, writers and `stop` run in other threads
    than the read handler and can change the status of the connection between its tests and what
    follows them. */
module FineReader {
  import opened Bytes
  import opened Framing
  import opened NetConn
  import R = Receiver

  /** Where the read handler is: not running, about to test the status in `do_read` or in
      `do_read_msg`, or past these tests. */
  datatype Point = Out | AtRead | PastRead | AtMsg(header: Header) | PastMsg(header: Header)

  datatype State = State(r: R.Receiver, at: Point)

  /** The handler goes on, or what `Receiver` has as an event happens. */
  datatype Event = Go | Other(e: R.Event)

  /** A read reports back when the handler is not running: the strand sees to that. */
  predicate Enabled(s: State, e: Event) {
    match e
    case Go => !s.at.Out?
    case Other(o) => R.Enabled(s.r, o) && (o.Completed? || o.Failed? ==> s.at.Out?)
  }

  /** `parse_header` and what its result leads to. */
  function TakeHeader(limit: u32, r: R.Receiver): State
    requires |r.buffer| >= HEADER_SIZE
  {
    var h, r' := ParseHeader(r.buffer[..HEADER_SIZE]), r.(buffer := r.buffer[HEADER_SIZE..]);
    if Acceptable(limit, h) then State(r', AtMsg(h)) else State(r'.(life := ShutdownAndClose(r.life)), Out)
  }

  /** `parse_msg_body` and the dispatch of the message. */
  function TakeBody(r: R.Receiver, h: Header): State
    requires |r.buffer| >= h.length
  {
    var m := Message(h, r.buffer[..h.length]);
    State(r.(buffer := r.buffer[h.length..], delivered := r.delivered + [m]), AtRead)
  }

  function Advance(limit: u32, s: State): State {
    match s.at
    case Out => s
    case AtRead => s.(at := if CanRun(s.r.life) then PastRead else Out)
    case PastRead =>
      if |s.r.buffer| < HEADER_SIZE then State(s.r.(op := R.HeaderRead(HEADER_SIZE - |s.r.buffer|)), Out)
      else TakeHeader(limit, s.r)
    case AtMsg(h) => s.(at := if CanRun(s.r.life) then PastMsg(h) else Out)
    case PastMsg(h) =>
      if |s.r.buffer| < h.length then State(s.r.(op := R.BodyRead(h, R.BodyWanted(h, |s.r.buffer|))), Out)
      else TakeBody(s.r, h)
  }

  /** A read completes: its bytes are appended and, without a test of the status, parsed. */
  function OnChunk(limit: u32, r: R.Receiver, chunk: Bytes): State
    requires !r.op.Idle?
  {
    var r' := r.(op := R.Idle, buffer := r.buffer + chunk);
    match r.op
    case HeaderRead(_) => if |r'.buffer| < HEADER_SIZE then State(r', AtRead) else TakeHeader(limit, r')
    case BodyRead(h, _) => if |r'.buffer| < h.length then State(r', AtMsg(h)) else TakeBody(r', h)
  }

  function Step(limit: u32, role: Role, s: State, e: Event): State
    requires Enabled(s, e)
  {
    match e
    case Go => Advance(limit, s)
    case Other(o) => if o.Completed? then OnChunk(limit, s.r, o.chunk) else s.(r := R.Step(limit, role, s.r, o))
  }

  predicate LegalRun(limit: u32, role: Role, s: State, es: seq<Event>)
    decreases |es|
  {
    es == [] || (Enabled(s, es[0]) && LegalRun(limit, role, Step(limit, role, s, es[0]), es[1..]))
  }

  function Run(limit: u32, role: Role, s: State, es: seq<Event>): State
    requires LegalRun(limit, role, s, es)
    decreases |es|
  {
    if es == [] then s else Run(limit, role, Step(limit, role, s, es[0]), es[1..])
  }

  /** `start`: the first `do_read` is about to test the status. */
  const START: State := State(R.FRESH, AtRead)

  function Arrived(e: Event): Bytes {
    if e.Other? then R.Arrived(e.e) else []
  }

  function Received(es: seq<Event>): Bytes {
    if es == [] then [] else Arrived(es[0]) + Received(es[1..])
  }

  // ---------------------------------------------------------------------
  // Without interruption the steps of a handler are one step of `Receiver`
  // ---------------------------------------------------------------------

  function Rank(at: Point): nat {
    match at
    case Out => 0
    case PastRead => 1
    case AtRead => 2
    case PastMsg(_) => 3
    case AtMsg(_) => 4
  }

  /** The handler runs to its end, with nothing else happening. */
  function RunOut(limit: u32, s: State): State
    decreases |s.r.buffer|, Rank(s.at)
  {
    if s.at.Out? then s else RunOut(limit, Advance(limit, s))
  }

  lemma {:induction false} Uninterrupted(limit: u32, s: State)
    requires s.r.op.Idle?
    requires s.at.AtMsg? ==> Acceptable(limit, s.at.header)
    ensures s.at.AtRead? ==> RunOut(limit, s) == State(R.DoRead(limit, s.r), Out)
    ensures s.at.AtMsg? ==> RunOut(limit, s) == State(R.DoReadMsg(limit, s.r, s.at.header), Out)
    decreases |s.r.buffer|, Rank(s.at)
  {
    hide HeaderBytes, ParseHeader, R.DoRead, R.DoReadMsg;
    if s.at.AtRead? || s.at.AtMsg? {
      if CanRun(s.r.life) {
        var past := Advance(limit, s);
        var next := Advance(limit, past);
        assert RunOut(limit, s) == RunOut(limit, past) == RunOut(limit, next);
        if s.at.AtRead? {
          R.DoReadUnfold(limit, s.r);
        } else {
          R.DoReadMsgUnfold(limit, s.r, s.at.header);
        }
        if !next.at.Out? {
          Uninterrupted(limit, next);
        }
      } else {
        NotRunning(limit, s.r, if s.at.AtMsg? then s.at.header else Header(0, 0, 0, ZERO_WORD, ZERO_WORD));
      }
    }
  }

  lemma NotRunning(limit: u32, r: R.Receiver, h: Header)
    requires !CanRun(r.life)
    ensures R.DoRead(limit, r) == r && R.DoReadMsg(limit, r, h) == r
  {
  }

  /** Every event that meets a connection between two handlers, with the handler it starts run to
      its end, is that event in `Receiver`. */
  lemma HandlerIsOneStep(limit: u32, role: Role, r: R.Receiver, e: R.Event)
    requires R.Enabled(r, e) && (r.op.BodyRead? ==> Acceptable(limit, r.op.header))
    ensures RunOut(limit, Step(limit, role, State(r, Out), Other(e))) == State(R.Step(limit, role, r, e), Out)
  {
    hide HeaderBytes, ParseHeader, R.DoRead, R.DoReadMsg;
    var s' := Step(limit, role, State(r, Out), Other(e));
    if e.Completed? && !s'.at.Out? {
      Uninterrupted(limit, s');
    }
  }

  // ---------------------------------------------------------------------
  // The invariant of every run
  // ---------------------------------------------------------------------

  /** What a handler in the middle of its work still has to split continues what was delivered. */
  ghost predicate Tracks(limit: u32, s: State, received: Bytes) {
    var o := Split(limit, received);
    && Consistent(s.r.life)
    && match s.at
       case Out => R.Tracks(limit, s.r, received)
       case AtRead => s.r.op.Idle? && Continues(s.r.delivered, Split(limit, s.r.buffer), o)
       case PastRead => s.r.op.Idle? && Continues(s.r.delivered, Split(limit, s.r.buffer), o)
       case AtMsg(h) => Acceptable(limit, h) && s.r.op.Idle?
                        && Continues(s.r.delivered, Split(limit, HeaderBytes(h) + s.r.buffer), o)
       case PastMsg(h) => Acceptable(limit, h) && s.r.op.Idle?
                          && Continues(s.r.delivered, Split(limit, HeaderBytes(h) + s.r.buffer), o)
  }

  predicate Continues(delivered: seq<Message>, left: Outcome, whole: Outcome) {
    whole == Outcome(delivered + left.msgs, left.stop, left.rest)
  }

  lemma TakeHeaderTracks(limit: u32, r: R.Receiver, received: Bytes)
    requires Consistent(r.life) && r.op.Idle? && |r.buffer| >= HEADER_SIZE
    requires Continues(r.delivered, Split(limit, r.buffer), Split(limit, received))
    ensures Tracks(limit, TakeHeader(limit, r), received)
  {
    hide HeaderBytes, ParseHeader, Split;
    SplitAtHeader(limit, r.buffer);
  }

  lemma TakeBodyTracks(limit: u32, r: R.Receiver, h: Header, received: Bytes)
    requires Consistent(r.life) && r.op.Idle? && Acceptable(limit, h) && |r.buffer| >= h.length
    requires Continues(r.delivered, Split(limit, HeaderBytes(h) + r.buffer), Split(limit, received))
    ensures Tracks(limit, TakeBody(r, h), received)
  {
    hide HeaderBytes, ParseHeader, Split;
    SplitAfterHeader(limit, h, r.buffer);
    var m, o := Message(h, r.buffer[..h.length]), Split(limit, r.buffer[h.length..]);
    assert r.delivered + ([m] + o.msgs) == (r.delivered + [m]) + o.msgs;
  }

  lemma AdvanceTracks(limit: u32, s: State, received: Bytes)
    requires Tracks(limit, s, received)
    ensures Tracks(limit, Advance(limit, s), received)
  {
    hide HeaderBytes, ParseHeader, Split;
    match s.at
    case Out =>
    case AtRead =>
    case AtMsg(_) =>
    case PastRead =>
      if |s.r.buffer| < HEADER_SIZE {
        ShortHeader(limit, s.r.buffer);
        assert s.r.delivered + [] == s.r.delivered;
      } else {
        TakeHeaderTracks(limit, s.r, received);
      }
    case PastMsg(h) =>
      if |s.r.buffer| < h.length {
        SplitAfterHeader(limit, h, s.r.buffer);
        assert s.r.delivered + [] == s.r.delivered;
      } else {
        TakeBodyTracks(limit, s.r, h, received);
      }
  }

  lemma ShortHeader(limit: u32, b: Bytes)
    requires |b| < HEADER_SIZE
    ensures Split(limit, b) == Outcome([], NeedHeader, b)
  {
  }

  lemma OnChunkTracks(limit: u32, r: R.Receiver, received: Bytes, chunk: Bytes)
    requires R.Tracks(limit, r, received) && R.LegalChunk(r, chunk)
    ensures Tracks(limit, OnChunk(limit, r, chunk), received + chunk)
  {
    hide HeaderBytes, ParseHeader, Split;
    var r' := r.(op := R.Idle, buffer := r.buffer + chunk);
    match r.op
    case HeaderRead(_) =>
      SplitResumeHeader(limit, received, r.delivered, r.buffer, chunk);
      TakeHeaderTracks(limit, r', received + chunk);
    case BodyRead(h, _) =>
      SplitExtend(limit, received, chunk);
      Assoc(HeaderBytes(h), r.buffer, chunk);
      if |r'.buffer| >= h.length {
        TakeBodyTracks(limit, r', h, received + chunk);
      }
  }

  lemma StepTracks(limit: u32, role: Role, s: State, received: Bytes, e: Event)
    requires Tracks(limit, s, received) && Enabled(s, e)
    ensures Tracks(limit, Step(limit, role, s, e), received + Arrived(e))
  {
    hide HeaderBytes, ParseHeader, Split, Advance, OnChunk, Continues;
    assert received + [] == received;
    if e.Go? {
      AdvanceTracks(limit, s, received);
    } else if e.e.Completed? {
      OnChunkTracks(limit, s.r, received, e.e.chunk);
    }
  }

  lemma {:induction false} RunTracks(limit: u32, role: Role, s: State, received: Bytes, es: seq<Event>)
    requires Tracks(limit, s, received) && LegalRun(limit, role, s, es)
    ensures Tracks(limit, Run(limit, role, s, es), received + Received(es))
    decreases |es|
  {
    hide Step, Tracks;
    if es == [] {
      assert received + [] == received;
    } else {
      StepTracks(limit, role, s, received, es[0]);
      RunTracks(limit, role, Step(limit, role, s, es[0]), received + Arrived(es[0]), es[1..]);
      Assoc(received, Arrived(es[0]), Received(es[1..]));
    }
  }

  lemma TracksPrefix(limit: u32, s: State, received: Bytes)
    requires Tracks(limit, s, received)
    ensures s.r.delivered <= Split(limit, received).msgs
  {
    hide Split, HeaderBytes;
  }

  /** In every run, whatever other threads do between the steps of the handler, what has been
      delivered is a first part of the messages of the stream received. */
  lemma EveryRunDeliversPrefix(limit: u32, role: Role, es: seq<Event>)
    requires LegalRun(limit, role, START, es)
    ensures Run(limit, role, START, es).r.delivered <= Split(limit, Received(es)).msgs
  {
    hide Tracks, LegalRun, Run;
    StartTracks(limit);
    RunTracks(limit, role, START, [], es);
    assert [] + Received(es) == Received(es);
    TracksPrefix(limit, Run(limit, role, START, es), Received(es));
  }

  lemma StartTracks(limit: u32)
    ensures Tracks(limit, START, [])
  {
  }

  // ---------------------------------------------------------------------
  // What a connection still does after it has left kWorking
  // ---------------------------------------------------------------------

  /** A body is being read, or the handler is past the tests of `do_read_msg`; and what the body
      lacks, if anything, fits into one block. */
  predicate MayDeliver(s: State) {
    match s.at
    case Out => s.r.op.BodyRead? && s.r.op.header.length - |s.r.buffer| <= IO_BLOCK_SIZE
    case PastMsg(h) => h.length - |s.r.buffer| <= IO_BLOCK_SIZE
    case _ => false
  }

  /** The handler is past the tests of `do_read` or `do_read_msg` and has not enough bytes. */
  predicate MayStartRead(s: State) {
    match s.at
    case PastRead => |s.r.buffer| < HEADER_SIZE
    case PastMsg(h) => |s.r.buffer| < h.length
    case _ => false
  }

  /** The reads started during a run. */
  function ReadsStarted(limit: u32, role: Role, s: State, es: seq<Event>): nat
    requires LegalRun(limit, role, s, es)
    decreases |es|
  {
    if es == [] then 0 else
      (if es[0].Go? && MayStartRead(s) then 1 else 0)
      + ReadsStarted(limit, role, Step(limit, role, s, es[0]), es[1..])
  }

  function One(b: bool): nat {
    if b then 1 else 0
  }

  lemma StoppedStep(limit: u32, role: Role, s: State, e: Event)
    requires !s.r.life.stat.Working? && Enabled(s, e) && (s.at.Out? || s.r.op.Idle?)
    ensures var s' := Step(limit, role, s, e);
            && !s'.r.life.stat.Working? && (s'.at.Out? || s'.r.op.Idle?)
            && s.r.delivered <= s'.r.delivered
            && |s'.r.delivered| + One(MayDeliver(s')) <= |s.r.delivered| + One(MayDeliver(s))
            && One(e.Go? && MayStartRead(s)) + One(MayStartRead(s')) <= One(MayStartRead(s))
  {
    hide HeaderBytes, ParseHeader;
  }

  /** From the moment a connection has left kWorking, at whatever point the read handler is then,
      and over every later run: it never works again; at most one read is still started and at most
      one message, the next one of the stream, is still delivered, and neither of them unless the
      state at that moment allows it. */
  lemma {:induction false} ShutdownSafety(limit: u32, role: Role, s: State, received: Bytes, es: seq<Event>)
    requires !s.r.life.stat.Working? && Tracks(limit, s, received) && LegalRun(limit, role, s, es)
    ensures var s' := Run(limit, role, s, es);
            && !s'.r.life.stat.Working?
            && s.r.delivered <= s'.r.delivered <= Split(limit, received + Received(es)).msgs
            && |s'.r.delivered| <= |s.r.delivered| + One(MayDeliver(s))
            && ReadsStarted(limit, role, s, es) <= One(MayStartRead(s))
  {
    hide Tracks, Run, LegalRun, ReadsStarted, MayDeliver, MayStartRead;
    RunTracks(limit, role, s, received, es);
    TracksPrefix(limit, Run(limit, role, s, es), received + Received(es));
    HandlerHasNoRead(limit, s, received);
    StoppedRun(limit, role, s, es);
  }

  lemma HandlerHasNoRead(limit: u32, s: State, received: Bytes)
    requires Tracks(limit, s, received)
    ensures s.at.Out? || s.r.op.Idle?
  {
  }

  lemma {:induction false} StoppedRun(limit: u32, role: Role, s: State, es: seq<Event>)
    requires !s.r.life.stat.Working? && (s.at.Out? || s.r.op.Idle?) && LegalRun(limit, role, s, es)
    ensures var s' := Run(limit, role, s, es);
            && !s'.r.life.stat.Working?
            && s.r.delivered <= s'.r.delivered
            && |s'.r.delivered| + One(MayDeliver(s')) <= |s.r.delivered| + One(MayDeliver(s))
            && ReadsStarted(limit, role, s, es) + One(MayStartRead(s')) <= One(MayStartRead(s))
    decreases |es|
  {
    hide Step, Enabled, MayDeliver, MayStartRead;
    if es != [] {
      StoppedStep(limit, role, s, es[0]);
      StoppedRun(limit, role, Step(limit, role, s, es[0]), es[1..]);
    }
  }

  lemma RunNone(limit: u32, role: Role, s: State)
    ensures LegalRun(limit, role, s, []) && Run(limit, role, s, []) == s
  {
  }

  lemma RunFront(limit: u32, role: Role, s: State, e: Event, es: seq<Event>)
    requires Enabled(s, e) && LegalRun(limit, role, Step(limit, role, s, e), es)
    ensures LegalRun(limit, role, s, [e] + es)
    ensures Run(limit, role, s, [e] + es) == Run(limit, role, Step(limit, role, s, e), es)
  {
    hide Step, Enabled;
    assert ([e] + es)[1..] == es;
  }

  /** The block that completes a body whatever it lacks. */
  const FULL_BLOCK: Event := Other(R.Completed(seq(IO_BLOCK_SIZE, _ => 0)))

  /** The exact condition: some run still delivers a message if and only if, when the connection
      left kWorking, a body was being read or the handler was past the tests of `do_read_msg`, and
      one block can hold what that body lacks. */
  lemma LateDeliveryIff(limit: u32, role: Role, s: State, received: Bytes)
    requires !s.r.life.stat.Working? && Tracks(limit, s, received)
    ensures (exists es :: LegalRun(limit, role, s, es) && Run(limit, role, s, es).r.delivered != s.r.delivered)
       <==> MayDeliver(s)
  {
    hide Step, Tracks, MayDeliver, LegalRun, Run;
    if es :| LegalRun(limit, role, s, es) && Run(limit, role, s, es).r.delivered != s.r.delivered {
      ShutdownSafety(limit, role, s, received, es);
    }
    if MayDeliver(s) {
      var es := DeliveringRun(limit, role, s, received);
    }
  }

  lemma DeliveringRun(limit: u32, role: Role, s: State, received: Bytes) returns (es: seq<Event>)
    requires Tracks(limit, s, received) && MayDeliver(s)
    ensures LegalRun(limit, role, s, es) && Run(limit, role, s, es).r.delivered != s.r.delivered
  {
    hide HeaderBytes, ParseHeader, Split, LegalRun, Run;
    if s.at.Out? {
      es := BlockDelivers(limit, role, s);
    } else {
      var s' := Step(limit, role, s, Go);
      var more := [];
      if s'.at.Out? {
        more := BlockDelivers(limit, role, s');
      } else {
        RunNone(limit, role, s');
      }
      RunFront(limit, role, s, Go, more);
      es := [Go] + more;
    }
  }

  lemma BlockDelivers(limit: u32, role: Role, s: State) returns (es: seq<Event>)
    requires s.at.Out? && MayDeliver(s) && s.r.op.atLeast <= IO_BLOCK_SIZE
    ensures LegalRun(limit, role, s, es) && |Run(limit, role, s, es).r.delivered| > |s.r.delivered|
  {
    hide LegalRun, Run;
    RunNone(limit, role, Step(limit, role, s, FULL_BLOCK));
    RunFront(limit, role, s, FULL_BLOCK, []);
    es := [FULL_BLOCK] + [];
  }

  /** The same for a read started after the connection left kWorking. */
  lemma LateReadIff(limit: u32, role: Role, s: State, received: Bytes)
    requires !s.r.life.stat.Working? && Tracks(limit, s, received)
    ensures (exists es :: LegalRun(limit, role, s, es) && ReadsStarted(limit, role, s, es) > 0) <==> MayStartRead(s)
  {
    hide Step, Tracks, MayStartRead;
    if es :| LegalRun(limit, role, s, es) && ReadsStarted(limit, role, s, es) > 0 {
      ShutdownSafety(limit, role, s, received, es);
    }
    if MayStartRead(s) {
      Runs(s);
      RunNone(limit, role, Step(limit, role, s, Go));
      RunFront(limit, role, s, Go, []);
      assert [Go] + [] == [Go] && [Go][1..] == [];
      assert ReadsStarted(limit, role, s, [Go]) > 0;
    }
  }

  lemma Runs(s: State)
    requires MayStartRead(s)
    ensures Enabled(s, Go)
  {
  }

  /** It does happen with no read in progress: a whole frame has come with one read, the timer
      closes the connection after the tests of `do_read_msg`, and the message is delivered. */
  lemma LateDispatch(limit: u32, role: Role, m: Message)
    requires WellFormed(limit, m) && |NetStr(m)| <= IO_BLOCK_SIZE
    ensures var before := [Go, Go, Other(R.Completed(NetStr(m))), Go, Other(R.TimerFired)];
            && LegalRun(limit, role, START, before) && LegalRun(limit, role, START, before + [Go])
            && var s := Run(limit, role, START, before);
               && s.r.life.stat.Closed? && s.r.op.Idle? && s.r.delivered == []
               && Run(limit, role, START, before + [Go]).r.delivered == [m]
  {
    hide HeaderBytes, ParseHeader, LegalRun, Run, Step, Enabled;
    var e3, e5 := Other(R.Completed(NetStr(m))), Other(R.TimerFired);
    var s2, s3 := FrameArrives(limit, role, m);
    var s1 := Step(limit, role, START, Go);
    var s5, s6 := CloseThenDispatch(limit, role, m, s3);
    var s4 := Step(limit, role, s3, Go);
    RunNone(limit, role, s5);
    RunNone(limit, role, s6);
    RunFront(limit, role, s5, Go, []);
    assert [Go] + [] == [Go];
    RunFive(limit, role, START, [Go, Go, e3, Go, e5], [], s1, s2, s3, s4, s5);
    RunFive(limit, role, START, [Go, Go, e3, Go, e5], [Go], s1, s2, s3, s4, s5);
    assert [Go, Go, e3, Go, e5] + [] == [Go, Go, e3, Go, e5];
  }

  lemma FrameArrives(limit: u32, role: Role, m: Message) returns (s2: State, s3: State)
    requires WellFormed(limit, m) && |NetStr(m)| <= IO_BLOCK_SIZE
    ensures var e := Other(R.Completed(NetStr(m)));
            && Enabled(START, Go) && Enabled(Step(limit, role, START, Go), Go)
            && s2 == Step(limit, role, Step(limit, role, START, Go), Go)
            && Enabled(s2, e) && s3 == Step(limit, role, s2, e)
            && s3 == State(R.Receiver(ALIVE, m.payload, R.Idle, []), AtMsg(m.header))
  {
    hide HeaderBytes, ParseHeader;
    s2 := Step(limit, role, Step(limit, role, START, Go), Go);
    assert s2 == State(R.Receiver(ALIVE, [], R.HeaderRead(HEADER_SIZE), []), Out);
    var b := NetStr(m);
    assert b[..HEADER_SIZE] == HeaderBytes(m.header) && b[HEADER_SIZE..] == m.payload && [] + b == b;
    HeaderRoundTrip(m.header);
    s3 := Step(limit, role, s2, Other(R.Completed(b)));
  }

  lemma CloseThenDispatch(limit: u32, role: Role, m: Message, s3: State) returns (s5: State, s6: State)
    requires m.header.length == |m.payload|
    requires s3 == State(R.Receiver(ALIVE, m.payload, R.Idle, []), AtMsg(m.header))
    ensures Enabled(s3, Go)
    ensures var s4, e := Step(limit, role, s3, Go), Other(R.TimerFired);
            && Enabled(s4, e) && s5 == Step(limit, role, s4, e)
            && Enabled(s5, Go) && s6 == Step(limit, role, s5, Go)
    ensures s5.r.life.stat.Closed? && s5.r.op.Idle? && s5.r.delivered == [] && s6.r.delivered == [m]
  {
    s5 := Step(limit, role, Step(limit, role, s3, Go), Other(R.TimerFired));
    assert m.payload[..m.header.length] == m.payload;
    s6 := Step(limit, role, s5, Go);
  }

  lemma RunFive(limit: u32, role: Role, s: State, es: seq<Event>, more: seq<Event>,
                s1: State, s2: State, s3: State, s4: State, s5: State)
    requires |es| == 5 && LegalRun(limit, role, s5, more)
    requires Enabled(s, es[0]) && s1 == Step(limit, role, s, es[0])
    requires Enabled(s1, es[1]) && s2 == Step(limit, role, s1, es[1])
    requires Enabled(s2, es[2]) && s3 == Step(limit, role, s2, es[2])
    requires Enabled(s3, es[3]) && s4 == Step(limit, role, s3, es[3])
    requires Enabled(s4, es[4]) && s5 == Step(limit, role, s4, es[4])
    ensures LegalRun(limit, role, s, es + more)
    ensures Run(limit, role, s, es + more) == Run(limit, role, s5, more)
  {
    hide Step, Enabled, LegalRun, Run;
    var m4 := [es[4]] + more;
    var m3 := [es[3]] + m4;
    var m2 := [es[2]] + m3;
    var m1 := [es[1]] + m2;
    RunFront(limit, role, s4, es[4], more);
    RunFront(limit, role, s3, es[3], m4);
    RunFront(limit, role, s2, es[2], m3);
    RunFront(limit, role, s1, es[1], m2);
    RunFront(limit, role, s, es[0], m1);
    assert [es[0]] + m1 == es + more;
  }
}
