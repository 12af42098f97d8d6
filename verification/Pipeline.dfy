/** One direction of a connection from end to end: workers appending replies, the chunked writer
    in its separate steps, the bytes on the wire, and the decoder at the other end. */
module Pipeline {
  import opened Bytes
  import opened Framing
  import opened NetConn
  import opened Sender
  import R = Receiver

  /** Where a thread is in `do_write`: not in it, about to test `send_status_`, past the tests
      and about to take the lock, or, for the completion handler, about to set kDone. */
  datatype Pc = Rest | Test | Locked | SetDone

  /** A worker, or the completion handler; the strand lets only one handler run at a time. */
  datatype Thread = Worker(i: nat) | Handler

  datatype Post = Post(worker: nat, msg: Message)

  /** `log` lists the frames appended so far. Of the oldest write `sent` bytes have left the block,
      which the network layer takes bit by bit. `emitted` is everything that has left, and
      `received` the part of it that reached the decoder. */
  datatype State = State(sender: Sender, workers: seq<Pc>, handler: Pc, log: seq<Post>, sent: nat,
                         emitted: Bytes, received: Bytes, reader: R.Receiver)

  datatype Event =
    | Appended(i: nat, msg: Message)
    | TestStatus(t: Thread)
    | EnterLock(t: Thread)
    | Left(k: nat)
    | Completed
    | MarkDone
    | Failed(ec: ErrorCode)
    | SenderClosed
    | Arrived(n: nat)

  function Init(role: Role, limit: u32, n: nat): State {
    State(New(role),
          seq(n, _ => Rest), Rest, [], 0, [], [], R.Start(limit))
  }

  function PcOf(s: State, t: Thread): Pc {
    match t
    case Worker(i) => if i < |s.workers| then s.workers[i] else Rest
    case Handler => s.handler
  }

  function SetPc(s: State, t: Thread, pc: Pc): State
    requires t.Worker? ==> t.i < |s.workers|
  {
    match t
    case Worker(i) => s.(workers := s.workers[i := pc])
    case Handler => s.(handler := pc)
  }

  function Wire(s: State): Bytes {
    if |s.received| <= |s.emitted| then s.emitted[|s.received|..] else []
  }

  /** What of the oldest write has not left the block yet. */
  function InFlight(s: State): Bytes
    requires ValidBlock(s.sender)
  {
    if s.sender.writes == [] || s.sender.writes[0] < s.sent then []
    else s.sender.block[s.sent..s.sender.writes[0]]
  }

  /** A write can fail with any part of its block gone. An aborted operation is only reported on a
      connection that was cancelled or closed. */
  predicate Enabled(s: State, e: Event) {
    && ValidBlock(s.sender)
    && match e
       case Appended(i, _) => i < |s.workers| && s.workers[i].Rest?
       case TestStatus(t) => PcOf(s, t).Test?
       case EnterLock(t) => PcOf(s, t).Locked?
       case Left(k) => 0 < k <= |InFlight(s)|
       case Completed => s.sender.writes != [] && s.handler.Rest?
       case MarkDone => s.handler.SetDone?
       case Failed(ec) => s.sender.writes != [] && !ec.Success? && (ec.Aborted? ==> !CanRun(s.sender.life))
       case SenderClosed => true
       case Arrived(n) => n <= |Wire(s)| && R.LegalChunk(s.reader, Wire(s)[..n])
  }

  function Step(limit: u32, s: State, e: Event): (s': State)
    requires Enabled(s, e)
    ensures ValidBlock(s'.sender)
  {
    match e
    case Appended(i, m) =>
      SetPc(s, Worker(i), Test).(sender := Append(s.sender, m), log := s.log + [Post(i, m)])
    case TestStatus(t) =>
      SetPc(s, t, if s.sender.status.Done? && CanRun(s.sender.life) then Locked else Rest)
    case EnterLock(t) =>
      SetPc(s, t, Rest).(sender := LockedPart(s.sender))
    case Left(k) =>
      s.(emitted := s.emitted + InFlight(s)[..k], sent := s.sent + k)
    case Completed =>
      s.(sender := s.sender.(writes := s.sender.writes[1..]), handler := SetDone,
         emitted := s.emitted + InFlight(s), sent := 0)
    case MarkDone =>
      s.(sender := s.sender.(status := Done), handler := Test)
    case Failed(ec) =>
      s.(sender := WriteFailed(s.sender, ec), sent := 0)
    case SenderClosed =>
      s.(sender := s.sender.(life := ShutdownAndClose(s.sender.life)))
    case Arrived(n) =>
      s.(received := s.received + Wire(s)[..n], reader := R.OnChunk(limit, s.reader, Wire(s)[..n]))
  }

  /** Worker `i` sends a frame without anybody in between: append, test, and the locked part if the
      tests let it. */
  function SendSteps(limit: u32, s: State, i: nat, m: Message): State
    requires Enabled(s, Appended(i, m))
  {
    var s2 := Step(limit, Step(limit, s, Appended(i, m)), TestStatus(Worker(i)));
    if PcOf(s2, Worker(i)).Locked? then Step(limit, s2, EnterLock(Worker(i))) else s2
  }

  /** These steps are what a sender does with a frame within its limit. */
  lemma SendIsSteps(limit: u32, s: State, i: nat, m: Message, sendLimit: u32)
    requires Enabled(s, Appended(i, m)) && (sendLimit == 0 || m.header.length <= sendLimit)
    ensures var s' := SendSteps(limit, s, i, m);
            s' == s.(sender := Send(s.sender, sendLimit, m), log := s.log + [Post(i, m)])
  {
    hide NetStr;
    var s' := SendSteps(limit, s, i, m);
    assert s'.workers == s.workers;
  }

  /** The completion handler without anybody in between: set kDone, test, and the locked part. */
  function CompletedSteps(limit: u32, s: State): State
    requires Enabled(s, Completed)
  {
    var s3 := Step(limit, Step(limit, Step(limit, s, Completed), MarkDone), TestStatus(Handler));
    if s3.handler.Locked? then Step(limit, s3, EnterLock(Handler)) else s3
  }

  /** These steps are what a sender does when its oldest write completes. */
  lemma CompletedIsSteps(limit: u32, s: State)
    requires Enabled(s, Completed)
    ensures CompletedSteps(limit, s)
         == s.(sender := WriteDone(s.sender), emitted := s.emitted + InFlight(s), sent := 0)
  {
  }

  predicate LegalRun(limit: u32, s: State, es: seq<Event>)
    decreases |es|
  {
    es == [] || (Enabled(s, es[0]) && LegalRun(limit, Step(limit, s, es[0]), es[1..]))
  }

  function Run(limit: u32, s: State, es: seq<Event>): State
    requires LegalRun(limit, s, es)
    decreases |es|
  {
    if es == [] then s else Run(limit, Step(limit, s, es[0]), es[1..])
  }

  // ---------------------------------------------------------------------
  // No lost wakeup, at the grain of the separate steps
  // ---------------------------------------------------------------------

  /** A thread that will still look at the buffer. */
  predicate WillRetry(s: State) {
    s.sender.writes != [] || !s.handler.Rest? || exists i | 0 <= i < |s.workers| :: !s.workers[i].Rest?
  }

  /** While the connection works: kSend has a completion to come that will reset it, and bytes
      that `get_length` can see have a thread or a completion that will look at them. */
  predicate Awake(s: State) {
    && ValidBlock(s.sender)
    && (forall i | 0 <= i < |s.workers| :: !s.workers[i].SetDone?)
    && (CanRun(s.sender.life) ==>
          && (s.sender.status.Sending? ==> s.sender.writes != [] || s.handler.SetDone?)
          && (Truncate32(|s.sender.buffer|) != 0 ==> WillRetry(s)))
  }

  lemma StepAwake(limit: u32, s: State, e: Event)
    requires Awake(s) && Enabled(s, e)
    ensures Awake(Step(limit, s, e))
  {
    hide NetStr, R.OnChunk;
    var s' := Step(limit, s, e);
    if e.Appended? {
      assert !s'.workers[e.i].Rest?;
    } else if e.TestStatus? && e.t.Worker? {
      if s'.workers[e.t.i].Locked? {
        assert !s'.workers[e.t.i].Rest?;
      }
    } else if WillRetry(s) && s.sender.writes == [] && s.handler.Rest? && !e.EnterLock? {
      var i :| 0 <= i < |s.workers| && !s.workers[i].Rest?;
      assert !s'.workers[i].Rest?;
    }
  }

  /** For every run of any number of workers, whatever the interleaving: kSend implies a write
      that is not completed or whose handler has not yet set kDone, and once every thread is out
      of `do_write` and no write is in progress, `get_length` of the send buffer is zero. */
  lemma {:induction false} NoLostWakeup(limit: u32, s: State, es: seq<Event>)
    requires Awake(s) && LegalRun(limit, s, es)
    ensures var s' := Run(limit, s, es);
            && Awake(s')
            && (CanRun(s'.sender.life) && !WillRetry(s') ==>
                  s'.sender.status.Done? && Truncate32(|s'.sender.buffer|) == 0)
    decreases |es|
  {
    if es != [] {
      StepAwake(limit, s, es[0]);
      NoLostWakeup(limit, Step(limit, s, es[0]), es[1..]);
    }
  }

  predicate NoneLocked(s: State) {
    s.handler != Locked && forall i | 0 <= i < |s.workers| :: s.workers[i] != Locked
  }

  /** Some of the oldest writes are over; none was added, and the block was not filled again. */
  predicate OnlyRunsOut(before: Sender, after: Sender) {
    && |after.writes| <= |before.writes|
    && after.writes == before.writes[|before.writes| - |after.writes|..]
    && after.block == before.block
  }

  lemma StepAfterClose(limit: u32, s: State, e: Event)
    requires !CanRun(s.sender.life) && NoneLocked(s) && Enabled(s, e)
    ensures var s' := Step(limit, s, e);
            !CanRun(s'.sender.life) && NoneLocked(s') && OnlyRunsOut(s.sender, s'.sender)
  {
    hide NetStr, R.OnChunk, LockedPart, InFlight, Wire;
    match e
    case Appended(_, _) =>
    case TestStatus(_) =>
    case MarkDone =>
    case _ =>
  }

  /** After the connection is closed, and once no thread is between the tests and the lock any
      more, no later step of any run starts a write. */
  lemma {:induction false} ClosedStartsNothing(limit: u32, s: State, es: seq<Event>)
    requires !CanRun(s.sender.life) && NoneLocked(s) && LegalRun(limit, s, es)
    ensures var s' := Run(limit, s, es);
            !CanRun(s'.sender.life) && NoneLocked(s') && OnlyRunsOut(s.sender, s'.sender)
    decreases |es|
  {
    hide Step, Enabled, NoneLocked, CanRun;
    if es != [] {
      StepAfterClose(limit, s, es[0]);
      ClosedStartsNothing(limit, Step(limit, s, es[0]), es[1..]);
    }
  }

  /** The exception: a thread past the tests finds bytes in the buffer and starts a write. */
  lemma LateWrite(limit: u32, s: State, t: Thread)
    requires !CanRun(s.sender.life) && Enabled(s, EnterLock(t)) && Truncate32(|s.sender.buffer|) != 0
    ensures var s' := Step(limit, s, EnterLock(t));
            && !CanRun(s'.sender.life)
            && s'.sender.writes == s.sender.writes + [ToWrite(|s.sender.buffer|)]
            && !OnlyRunsOut(s.sender, s'.sender)
  {
  }

  predicate WorkersRegular(s: State) {
    forall i | 0 <= i < |s.workers| :: !s.workers[i].SetDone?
  }

  /** Some worker other than `t` can still get to append a frame. */
  predicate Another(s: State, t: Thread) {
    exists i | 0 <= i < |s.workers| :: t != Worker(i)
  }

  /** What a closed connection may still start: a thread past the tests has bytes to write, or
      somebody else who can append some before it takes the lock. */
  ghost predicate CanStillStart(s: State) {
    exists t :: PcOf(s, t).Locked? && (Truncate32(|s.sender.buffer|) != 0 || Another(s, t))
  }

  lemma HarmlessWrites(limit: u32, s: State, e: Event)
    requires !CanRun(s.sender.life) && WorkersRegular(s) && Enabled(s, e)
    requires e.EnterLock? ==> Truncate32(|s.sender.buffer|) == 0
    ensures var s' := Step(limit, s, e);
            !CanRun(s'.sender.life) && WorkersRegular(s') && OnlyRunsOut(s.sender, s'.sender)
  {
    hide NetStr, R.OnChunk, R.LegalChunk, InFlight, Wire;
    match e
    case Appended(_, _) =>
    case TestStatus(_) =>
    case EnterLock(_) => assert ToWrite(|s.sender.buffer|) == 0;
    case Left(_) =>
    case Completed =>
    case MarkDone =>
    case Failed(_) =>
    case SenderClosed =>
    case Arrived(_) =>
  }

  /** No thread gets past the tests of a closed connection. */
  lemma NoNewLocked(limit: u32, s: State, e: Event, t: Thread)
    requires !CanRun(s.sender.life) && Enabled(s, e) && PcOf(Step(limit, s, e), t).Locked?
    ensures PcOf(s, t).Locked? && |Step(limit, s, e).workers| == |s.workers|
    ensures e != EnterLock(t) && (e.Appended? ==> Another(s, t))
    ensures !e.Appended? && (e.EnterLock? ==> Truncate32(|s.sender.buffer|) == 0) ==>
              Step(limit, s, e).sender.buffer == s.sender.buffer
  {
    hide NetStr, R.OnChunk, R.LegalChunk, InFlight, Wire;
    if e.Appended? {
      assert s.workers[e.i].Rest? && t != Worker(e.i);
    }
  }

  lemma HarmlessStep(limit: u32, s: State, e: Event)
    requires !CanRun(s.sender.life) && WorkersRegular(s) && !CanStillStart(s) && Enabled(s, e)
    ensures var s' := Step(limit, s, e);
            && !CanRun(s'.sender.life) && WorkersRegular(s') && !CanStillStart(s')
            && OnlyRunsOut(s.sender, s'.sender)
  {
    hide Step, CanRun, OnlyRunsOut, Truncate32;
    HarmlessWrites(limit, s, e);
    var s' := Step(limit, s, e);
    forall t | PcOf(s', t).Locked?
      ensures Truncate32(|s'.sender.buffer|) == 0 && !Another(s', t)
    {
      NoNewLocked(limit, s, e, t);
    }
  }

  lemma {:induction false} HarmlessRun(limit: u32, s: State, es: seq<Event>)
    requires !CanRun(s.sender.life) && WorkersRegular(s) && !CanStillStart(s) && LegalRun(limit, s, es)
    ensures OnlyRunsOut(s.sender, Run(limit, s, es).sender)
    decreases |es|
  {
    hide Step, Enabled, CanStillStart, CanRun;
    if es != [] {
      HarmlessStep(limit, s, es[0]);
      HarmlessRun(limit, Step(limit, s, es[0]), es[1..]);
    }
  }

  predicate NoAppends(es: seq<Event>) {
    forall e | e in es :: !e.Appended?
  }

  lemma InvisibleStep(limit: u32, s: State, e: Event)
    requires !CanRun(s.sender.life) && Truncate32(|s.sender.buffer|) == 0 && Enabled(s, e) && !e.Appended?
    ensures var s' := Step(limit, s, e);
            && !CanRun(s'.sender.life) && s'.sender.buffer == s.sender.buffer
            && OnlyRunsOut(s.sender, s'.sender)
  {
    hide NetStr, R.OnChunk, R.LegalChunk, InFlight, Wire;
    match e
    case TestStatus(_) =>
    case EnterLock(_) => assert ToWrite(|s.sender.buffer|) == 0;
    case Left(_) =>
    case Completed =>
    case MarkDone =>
    case Failed(_) =>
    case SenderClosed =>
    case Arrived(_) =>
  }

  lemma {:induction false} InvisibleRun(limit: u32, s: State, es: seq<Event>)
    requires !CanRun(s.sender.life) && Truncate32(|s.sender.buffer|) == 0
    requires LegalRun(limit, s, es) && NoAppends(es)
    ensures OnlyRunsOut(s.sender, Run(limit, s, es).sender)
    decreases |es|
  {
    hide Step, Enabled, CanRun, Truncate32;
    if es != [] {
      InvisibleStep(limit, s, es[0]);
      assert NoAppends(es[1..]);
      InvisibleRun(limit, Step(limit, s, es[0]), es[1..]);
    }
  }

  lemma RunFront(limit: u32, s: State, e: Event, es: seq<Event>)
    requires Enabled(s, e) && LegalRun(limit, Step(limit, s, e), es)
    ensures LegalRun(limit, s, [e] + es) && Run(limit, s, [e] + es) == Run(limit, Step(limit, s, e), es)
  {
    hide Step, Enabled;
    assert ([e] + es)[1..] == es;
  }

  /** A run in which thread `t` starts a write on a closed connection. */
  lemma LateRun(limit: u32, s: State, t: Thread) returns (es: seq<Event>)
    requires !CanRun(s.sender.life) && ValidBlock(s.sender) && WorkersRegular(s) && PcOf(s, t).Locked?
    requires Truncate32(|s.sender.buffer|) != 0 || Another(s, t)
    ensures LegalRun(limit, s, es) && !OnlyRunsOut(s.sender, Run(limit, s, es).sender)
  {
    hide Step, LegalRun, Run, OnlyRunsOut, NetStr;
    if Truncate32(|s.sender.buffer|) != 0 {
      es := [EnterLock(t)];
      LateWrite(limit, s, t);
      RunNone(limit, Step(limit, s, EnterLock(t)));
      RunFront(limit, s, EnterLock(t), []);
      assert [EnterLock(t)] + [] == es;
    } else {
      var i :| 0 <= i < |s.workers| && t != Worker(i);
      if s.workers[i].Rest? {
        es := LateAppend(limit, s, t, i);
      } else {
        var e := if s.workers[i].Test? then TestStatus(Worker(i)) else EnterLock(Worker(i));
        LeaveDoWrite(limit, s, t, i, e);
        var more := LateAppend(limit, Step(limit, s, e), t, i);
        RunFront(limit, s, e, more);
        es := [e] + more;
      }
    }
  }

  lemma RunNone(limit: u32, s: State)
    ensures LegalRun(limit, s, []) && Run(limit, s, []) == s
  {
  }

  /** On a closed connection with nothing visible in the buffer a worker leaves `do_write` without effect. */
  lemma LeaveDoWrite(limit: u32, s: State, t: Thread, i: nat, e: Event)
    requires !CanRun(s.sender.life) && ValidBlock(s.sender) && Truncate32(|s.sender.buffer|) == 0
    requires PcOf(s, t).Locked? && i < |s.workers| && t != Worker(i)
    requires if s.workers[i].Test? then e == TestStatus(Worker(i))
             else s.workers[i].Locked? && e == EnterLock(Worker(i))
    ensures Enabled(s, e)
    ensures var s' := Step(limit, s, e);
            && !CanRun(s'.sender.life) && s'.sender.buffer == s.sender.buffer
            && s'.sender.writes == s.sender.writes && s'.sender.block == s.sender.block
            && PcOf(s', t).Locked? && |s'.workers| == |s.workers| && s'.workers[i].Rest?
            && forall after :: OnlyRunsOut(s.sender, after) ==> OnlyRunsOut(s'.sender, after)
  {
  }

  lemma LateAppend(limit: u32, s: State, t: Thread, i: nat) returns (es: seq<Event>)
    requires !CanRun(s.sender.life) && ValidBlock(s.sender) && Truncate32(|s.sender.buffer|) == 0
    requires PcOf(s, t).Locked? && i < |s.workers| && s.workers[i].Rest? && t != Worker(i)
    ensures LegalRun(limit, s, es) && !OnlyRunsOut(s.sender, Run(limit, s, es).sender)
  {
    hide LegalRun, Run, NetStr;
    var m := NewMessage([]);
    FrameLength(m);
    var e1, e2 := Appended(i, m), EnterLock(t);
    var s1 := Step(limit, s, e1);
    LateWrite(limit, s1, t);
    var s2 := Step(limit, s1, e2);
    assert |s2.sender.writes| == |s.sender.writes| + 1;
    hide Step;
    RunNone(limit, s2);
    RunFront(limit, s1, e2, []);
    RunFront(limit, s, e1, [e2] + []);
    es := [e1] + ([e2] + []);
  }

  /** A closed connection starts no further write in any run if and only if no thread is past the
      tests with anything to write now or appended later. */
  lemma ClosedStartsNothingIff(limit: u32, s: State)
    requires !CanRun(s.sender.life) && ValidBlock(s.sender) && WorkersRegular(s)
    ensures (forall es | LegalRun(limit, s, es) :: OnlyRunsOut(s.sender, Run(limit, s, es).sender))
       <==> !CanStillStart(s)
  {
    hide Step, Enabled, CanRun, OnlyRunsOut;
    if CanStillStart(s) {
      var t :| PcOf(s, t).Locked? && (Truncate32(|s.sender.buffer|) != 0 || Another(s, t));
      var es := LateRun(limit, s, t);
    } else {
      forall es | LegalRun(limit, s, es)
        ensures OnlyRunsOut(s.sender, Run(limit, s, es).sender)
      {
        HarmlessRun(limit, s, es);
      }
    }
  }

  lemma SomeLocked(s: State) returns (t: Thread)
    requires !NoneLocked(s)
    ensures PcOf(s, t).Locked?
  {
    if s.handler.Locked? {
      t := Handler;
    } else {
      var i :| 0 <= i < |s.workers| && s.workers[i].Locked?;
      t := Worker(i);
    }
  }

  /** Where frames are no longer appended, it is enough to look at the buffer. */
  lemma ClosedStartsNothingIffVisible(limit: u32, s: State)
    requires !CanRun(s.sender.life) && ValidBlock(s.sender)
    ensures (forall es | LegalRun(limit, s, es) && NoAppends(es) ::
               OnlyRunsOut(s.sender, Run(limit, s, es).sender))
       <==> NoneLocked(s) || Truncate32(|s.sender.buffer|) == 0
  {
    hide Step, CanRun, OnlyRunsOut;
    if NoneLocked(s) || Truncate32(|s.sender.buffer|) == 0 {
      forall es | LegalRun(limit, s, es) && NoAppends(es)
        ensures OnlyRunsOut(s.sender, Run(limit, s, es).sender)
      {
        if NoneLocked(s) {
          ClosedStartsNothing(limit, s, es);
        } else {
          InvisibleRun(limit, s, es);
        }
      }
    } else {
      var t := SomeLocked(s);
      var es := [EnterLock(t)];
      LateWrite(limit, s, t);
      RunNone(limit, Step(limit, s, es[0]));
      RunFront(limit, s, es[0], []);
      assert [es[0]] + [] == es;
    }
  }

  /** It does happen: a worker passes the tests, the connection is closed, and the write starts. */
  lemma LateWriteReached(role: Role, limit: u32)
    ensures var s0 := Init(role, limit, 1);
            var es := [Appended(0, NewMessage([1])), TestStatus(Worker(0)), SenderClosed, EnterLock(Worker(0))];
            && LegalRun(limit, s0, es)
            && var s := Run(limit, s0, es); s.sender.life.stat.Closed? && s.sender.writes == [17]
  {
    hide NetStr, R.OnChunk, R.Start, LegalRun, Run;
    var m := NewMessage([1]);
    FrameLength(m);
    var e1, e2, e3, e4 := Appended(0, m), TestStatus(Worker(0)), SenderClosed, EnterLock(Worker(0));
    var s0 := Init(role, limit, 1);
    var s1 := Step(limit, s0, e1);
    var s2 := Step(limit, s1, e2);
    assert s2.workers == [Locked];
    var s3 := Step(limit, s2, e3);
    var s4 := Step(limit, s3, e4);
    assert s4.sender.writes == [17] && s4.sender.life.stat.Closed?;
    hide Step, Enabled, Init;
    RunNone(limit, s4);
    RunFront(limit, s3, e4, []);
    RunFront(limit, s2, e3, [e4] + []);
    RunFront(limit, s1, e2, [e3] + ([e4] + []));
    RunFront(limit, s0, e1, [e2] + ([e3] + ([e4] + [])));
    assert [e1] + ([e2] + ([e3] + ([e4] + []))) == [e1, e2, e3, e4];
  }

  function LockedIn(pcs: seq<Pc>): nat {
    if pcs == [] then 0 else (if pcs[0].Locked? then 1 else 0) + LockedIn(pcs[1..])
  }

  /** The threads that are past the tests and have not taken the lock. */
  function LockedCount(s: State): nat {
    LockedIn(s.workers) + if s.handler.Locked? then 1 else 0
  }

  /** The writes started during a run. */
  function Started(limit: u32, s: State, es: seq<Event>): nat
    requires LegalRun(limit, s, es)
    decreases |es|
  {
    if es == [] then 0 else
      (if es[0].EnterLock? && Truncate32(|s.sender.buffer|) != 0 then 1 else 0)
      + Started(limit, Step(limit, s, es[0]), es[1..])
  }

  lemma {:induction false} LockedUpdate(pcs: seq<Pc>, i: nat, pc: Pc)
    requires i < |pcs|
    ensures LockedIn(pcs[i := pc]) + (if pcs[i].Locked? then 1 else 0) == LockedIn(pcs) + (if pc.Locked? then 1 else 0)
  {
    if i == 0 {
      assert pcs[0 := pc][1..] == pcs[1..];
    } else {
      LockedUpdate(pcs[1..], i - 1, pc);
      assert pcs[i := pc][1..] == pcs[1..][i - 1 := pc];
    }
  }

  lemma ClosedStep(limit: u32, s: State, e: Event)
    requires !CanRun(s.sender.life) && Enabled(s, e)
    ensures var s', n := Step(limit, s, e), if e.EnterLock? && Truncate32(|s.sender.buffer|) != 0 then 1 else 0;
            && !CanRun(s'.sender.life)
            && LockedCount(s') + n <= LockedCount(s)
            && |s'.sender.writes| <= |s.sender.writes| + n
  {
    hide NetStr, R.OnChunk, InFlight, Wire, LockedIn;
    match e
    case Appended(i, _) => LockedUpdate(s.workers, i, Test);
    case TestStatus(t) => if t.Worker? { LockedUpdate(s.workers, t.i, Rest); }
    case EnterLock(t) => if t.Worker? { LockedUpdate(s.workers, t.i, Rest); }
    case _ =>
  }

  /** After a close at most one write is started for each thread that was past the tests then. */
  lemma {:induction false} LateWritesBound(limit: u32, s: State, es: seq<Event>)
    requires !CanRun(s.sender.life) && LegalRun(limit, s, es)
    ensures var s' := Run(limit, s, es);
            && !CanRun(s'.sender.life)
            && Started(limit, s, es) + LockedCount(s') <= LockedCount(s)
            && |s'.sender.writes| <= |s.sender.writes| + Started(limit, s, es)
    decreases |es|
  {
    hide Step, Enabled, LockedCount, CanRun;
    if es != [] {
      ClosedStep(limit, s, es[0]);
      LateWritesBound(limit, Step(limit, s, es[0]), es[1..]);
    }
  }

  // ---------------------------------------------------------------------
  // One write at a time: exactly when the locked part is entered at kDone
  // ---------------------------------------------------------------------

  /** The status tells whether a write is in progress or its handler is about to set kDone. */
  predicate OneWrite(s: State) {
    && ValidBlock(s.sender)
    && |s.sender.writes| + (if s.handler.SetDone? then 1 else 0)
       == (if s.sender.status.Sending? then 1 else 0)
    && SentInBlock(s)
  }

  predicate SentInBlock(s: State) {
    s.sent <= if s.sender.writes == [] then 0 else s.sender.writes[0]
  }

  /** What a re-test under the lock would find: no write is going on. The client does nothing
      in the locked part when the buffer is empty, so it may also enter then. */
  predicate CleanEntry(sd: Sender) {
    sd.status.Done? || (sd.role.Client? && Truncate32(|sd.buffer|) == 0)
  }

  predicate CleanRun(limit: u32, s: State, es: seq<Event>)
    requires LegalRun(limit, s, es)
    decreases |es|
  {
    es == [] ||
    ((es[0].EnterLock? ==> CleanEntry(s.sender)) && CleanRun(limit, Step(limit, s, es[0]), es[1..]))
  }

  predicate AlwaysOneWrite(limit: u32, s: State, es: seq<Event>)
    requires LegalRun(limit, s, es)
    decreases |es|
  {
    OneWrite(s) && (es == [] || AlwaysOneWrite(limit, Step(limit, s, es[0]), es[1..]))
  }

  predicate NoFailure(es: seq<Event>) {
    forall e | e in es :: !e.Failed?
  }

  lemma StepOneWrite(limit: u32, s: State, e: Event)
    requires OneWrite(s) && Enabled(s, e) && !e.Failed?
    requires forall i | 0 <= i < |s.workers| :: !s.workers[i].SetDone?
    ensures OneWrite(Step(limit, s, e)) <==> (e.EnterLock? ==> CleanEntry(s.sender))
    ensures var s' := Step(limit, s, e); forall i | 0 <= i < |s'.workers| :: !s'.workers[i].SetDone?
  {
    hide NetStr, R.OnChunk;
  }

  /** A run keeps at most one write in progress, with the status telling which, if and only if
      every thread that enters the locked part finds kDone there. */
  lemma {:induction false} OneWriteIff(limit: u32, s: State, es: seq<Event>)
    requires OneWrite(s) && LegalRun(limit, s, es) && NoFailure(es)
    requires forall i | 0 <= i < |s.workers| :: !s.workers[i].SetDone?
    ensures AlwaysOneWrite(limit, s, es) <==> CleanRun(limit, s, es)
    decreases |es|
  {
    if es != [] {
      assert es[0] in es && forall e | e in es[1..] :: e in es;
      StepOneWrite(limit, s, es[0]);
      var s' := Step(limit, s, es[0]);
      if OneWrite(s') {
        OneWriteIff(limit, s', es[1..]);
      } else {
        assert !AlwaysOneWrite(limit, s', es[1..]);
      }
    }
  }

  /** `do_write` as one step: whoever enters the locked part has just tested the status. */
  predicate AtomicDoWrite(es: seq<Event>) {
    forall k | 0 <= k < |es| && es[k].EnterLock? :: k > 0 && es[k - 1] == TestStatus(es[k].t)
  }

  lemma {:induction false} AtomicIsClean(limit: u32, s: State, es: seq<Event>)
    requires LegalRun(limit, s, es) && AtomicDoWrite(es)
    ensures CleanRun(limit, s, es)
    decreases |es|
  {
    if |es| >= 2 && es[1].EnterLock? {
      assert es[0] == TestStatus(es[1].t);
      var s1 := Step(limit, s, es[0]);
      assert LegalRun(limit, s1, es[1..]) && es[1..][0] == es[1];
      var s2 := Step(limit, s1, es[1]);
      assert es[1..][1..] == es[2..];
      assert |es| > 2 ==> !es[2].EnterLock?;
      AtomicTail(es, 2);
      AtomicIsClean(limit, s2, es[2..]);
      assert CleanRun(limit, s1, es[1..]);
    } else if es != [] {
      AtomicTail(es, 1);
      AtomicIsClean(limit, Step(limit, s, es[0]), es[1..]);
    }
  }

  lemma AtomicTail(es: seq<Event>, n: nat)
    requires AtomicDoWrite(es) && n <= |es|
    requires n < |es| ==> !es[n].EnterLock?
    ensures AtomicDoWrite(es[n..])
  {
    var tail := es[n..];
    forall k | 0 <= k < |tail| && tail[k].EnterLock?
      ensures k > 0 && tail[k - 1] == TestStatus(tail[k].t)
    {
      assert tail[k] == es[n + k] && es[n + k - 1] == TestStatus(es[n + k].t);
    }
  }

  // ---------------------------------------------------------------------
  // The frames appended and the workers they come from
  // ---------------------------------------------------------------------

  function Messages(log: seq<Post>): seq<Message> {
    seq(|log|, i requires 0 <= i < |log| => log[i].msg)
  }

  /** The messages of one worker, in the order of the log. */
  function Mine(log: seq<Post>, i: nat): seq<Message>
    decreases |log|
  {
    if log == [] then [] else
      var p, before := log[|log| - 1], Mine(log[..|log| - 1], i);
      if p.worker == i then before + [p.msg] else before
  }

  /** The messages worker i replies with during a run, in its own order. */
  function PostsBy(es: seq<Event>, i: nat): seq<Message> {
    if es == [] then [] else
      (if es[0].Appended? && es[0].i == i then [es[0].msg] else []) + PostsBy(es[1..], i)
  }

  lemma StepLog(limit: u32, s: State, e: Event, i: nat)
    requires Enabled(s, e)
    ensures Mine(Step(limit, s, e).log, i) == Mine(s.log, i) + (if e.Appended? && e.i == i then [e.msg] else [])
  {
    hide NetStr, R.OnChunk;
    var s' := Step(limit, s, e);
    if e.Appended? {
      assert s'.log[..|s'.log| - 1] == s.log;
    } else {
      assert s'.log == s.log && Mine(s.log, i) + [] == Mine(s.log, i);
    }
  }

  lemma {:induction false} RunLog(limit: u32, s: State, es: seq<Event>, i: nat)
    requires LegalRun(limit, s, es)
    ensures Mine(Run(limit, s, es).log, i) == Mine(s.log, i) + PostsBy(es, i)
    decreases |es|
  {
    hide Step, Enabled, Mine;
    if es == [] {
      assert Mine(s.log, i) + [] == Mine(s.log, i);
    } else {
      var mine := if es[0].Appended? && es[0].i == i then [es[0].msg] else [];
      StepLog(limit, s, es[0], i);
      RunLog(limit, Step(limit, s, es[0]), es[1..], i);
      assert (Mine(s.log, i) + mine) + PostsBy(es[1..], i) == Mine(s.log, i) + (mine + PostsBy(es[1..], i));
    }
  }

  lemma {:induction false} MinePrefix(log: seq<Post>, k: nat, i: nat)
    requires k <= |log|
    ensures Mine(log[..k], i) <= Mine(log, i)
    decreases |log|
  {
    if k < |log| {
      MinePrefix(log[..|log| - 1], k, i);
      assert log[..|log| - 1][..k] == log[..k];
    } else {
      assert log[..k] == log;
    }
  }

  // ---------------------------------------------------------------------
  // The race: with the test outside the lock, frames can be overwritten
  // ---------------------------------------------------------------------

  lemma FrameLength(m: Message)
    ensures |NetStr(m)| == HEADER_SIZE + |m.payload|
    ensures m.payload != [] ==> NetStr(m)[HEADER_SIZE] == m.payload[0]
  {
    hide HeaderBytes;
  }

  function RaceEvents(a: Message, b: Message, c: Message): seq<Event> {
    [Appended(0, a), Appended(1, b), TestStatus(Worker(0)), TestStatus(Worker(1)),
     EnterLock(Worker(0)), EnterLock(Worker(1)),
     Appended(0, c), TestStatus(Worker(0)), EnterLock(Worker(0)), Completed]
  }

  /** Two workers pass the test before either takes the lock. The second finds the buffer empty
      and sets kDone although a write is in progress, so the next reply is copied over the block
      being sent: the bytes that go out are not what was appended. */
  lemma RaceOverwritesBlock(limit: u32)
    ensures var es := RaceEvents(NewMessage([1]), NewMessage([2]), NewMessage([3]));
            && LegalRun(limit, Init(Server, limit, 2), es)
            && var s := Run(limit, Init(Server, limit, 2), es);
               !(s.emitted <= EncodeAll(Messages(s.log)))
  {
    hide NetStr, EncodeAll, Messages, Step, Enabled, Init, LegalRun, Run;
    var a, b, c := NewMessage([1]), NewMessage([2]), NewMessage([3]);
    FrameLength(a);
    FrameLength(b);
    FrameLength(c);
    var es := RaceEvents(a, b, c);
    var s4 := RaceTest(limit, a, b, es);
    var s6 := RaceOverlap(limit, a, b, s4, es);
    var s10 := RaceOverwrite(limit, s6, c, es);
    assert s10.emitted[16] == 3;
    FirstFrame(s10.log);
    assert es[0..] == es;
  }

  lemma FirstFrame(log: seq<Post>)
    requires log != []
    ensures NetStr(log[0].msg) <= EncodeAll(Messages(log))
  {
    hide NetStr;
    assert Messages(log)[0] == log[0].msg;
  }

  predicate Overlapped(s: State, a: Message, b: Message) {
    && s.sender.role.Server? && s.sender.life == ALIVE
    && s.sender.buffer == [] && |s.sender.block| == IO_BLOCK_SIZE
    && s.sender.status.Done? && s.sender.writes == [34] && s.sent == 0
    && s.workers == [Rest, Rest] && s.handler.Rest?
    && s.log == [Post(0, a), Post(1, b)] && s.emitted == []
  }

  predicate BothPast(s: State, a: Message, b: Message) {
    && s.sender == Sender(Server, ALIVE, NetStr(a) + NetStr(b), seq(IO_BLOCK_SIZE, _ => 0), Done, [])
    && s.workers == [Locked, Locked] && s.handler.Rest?
    && s.log == [Post(0, a), Post(1, b)] && s.emitted == [] && s.sent == 0
  }

  /** The first four steps bring both workers past the test. */
  lemma RaceTest(limit: u32, a: Message, b: Message, es: seq<Event>) returns (s4: State)
    requires |es| == 10
    requires es[0] == Appended(0, a) && es[1] == Appended(1, b)
    requires es[2] == TestStatus(Worker(0)) && es[3] == TestStatus(Worker(1))
    ensures BothPast(s4, a, b)
    ensures LegalRun(limit, s4, es[4..]) ==>
              && LegalRun(limit, Init(Server, limit, 2), es[0..])
              && Run(limit, Init(Server, limit, 2), es[0..]) == Run(limit, s4, es[4..])
  {
    hide NetStr, R.Start, R.OnChunk, LegalRun, Run, LockedPart;
    var s0 := Init(Server, limit, 2);
    var s1 := Step(limit, s0, es[0]);
    var s2 := Step(limit, s1, es[1]);
    assert s2.workers == [Test, Test] && s2.sender.buffer == NetStr(a) + NetStr(b);
    var s3 := Step(limit, s2, es[2]);
    s4 := Step(limit, s3, es[3]);
    assert s4.workers == [Locked, Locked];
    if LegalRun(limit, s4, es[4..]) {
      RunCons(limit, s3, es, 3);
      RunCons(limit, s2, es, 2);
      RunCons(limit, s1, es, 1);
      RunCons(limit, s0, es, 0);
    }
  }

  /** The next two leave a write in progress and the status at kDone. */
  lemma RaceOverlap(limit: u32, a: Message, b: Message, s4: State, es: seq<Event>) returns (s6: State)
    requires |NetStr(a)| == |NetStr(b)| == 17 && BothPast(s4, a, b)
    requires |es| == 10 && es[4] == EnterLock(Worker(0)) && es[5] == EnterLock(Worker(1))
    ensures Overlapped(s6, a, b)
    ensures LegalRun(limit, s6, es[6..]) ==>
              LegalRun(limit, s4, es[4..]) && Run(limit, s4, es[4..]) == Run(limit, s6, es[6..])
  {
    hide NetStr, R.OnChunk, LegalRun, Run;
    var s5 := Step(limit, s4, es[4]);
    s6 := Step(limit, s5, es[5]);
    assert s6.workers == [Rest, Rest];
    if LegalRun(limit, s6, es[6..]) {
      RunCons(limit, s5, es, 5);
      RunCons(limit, s4, es, 4);
    }
  }

  /** The last four steps send the third frame's bytes in the place of the first one's. */
  lemma RaceOverwrite(limit: u32, s6: State, c: Message, es: seq<Event>) returns (s10: State)
    requires ValidBlock(s6.sender) && s6.sender.role.Server? && s6.sender.life == ALIVE
    requires s6.sender.buffer == [] && s6.sender.status.Done? && s6.sender.writes == [34]
    requires s6.workers == [Rest, Rest] && s6.handler.Rest? && s6.emitted == [] && s6.sent == 0
    requires |NetStr(c)| == 17 && |es| == 10
    requires es[6..] == [Appended(0, c), TestStatus(Worker(0)), EnterLock(Worker(0)), Completed]
    ensures LegalRun(limit, s6, es[6..]) && Run(limit, s6, es[6..]) == s10
    ensures |s10.emitted| == 34 && s10.emitted[16] == NetStr(c)[16]
    ensures s10.log == s6.log + [Post(0, c)]
  {
    hide NetStr, R.Start, R.OnChunk;
    assert es[6..][0] == es[6] && es[6..][1] == es[7] && es[6..][2] == es[8] && es[6..][3] == es[9];
    var s7 := Step(limit, s6, es[6]);
    var s8 := Step(limit, s7, es[7]);
    var s9 := Step(limit, s8, es[8]);
    assert s9.sender.writes == [34, 17] && s9.sender.block[16] == NetStr(c)[16];
    s10 := Step(limit, s9, es[9]);
    hide Step, Enabled;
    assert es[10..] == [];
    RunCons(limit, s9, es, 9);
    RunCons(limit, s8, es, 8);
    RunCons(limit, s7, es, 7);
    RunCons(limit, s6, es, 6);
  }

  lemma RunCons(limit: u32, s: State, es: seq<Event>, k: nat)
    requires k < |es| && Enabled(s, es[k]) && LegalRun(limit, Step(limit, s, es[k]), es[k + 1..])
    ensures LegalRun(limit, s, es[k..])
    ensures Run(limit, s, es[k..]) == Run(limit, Step(limit, s, es[k]), es[k + 1..])
  {
    assert es[k..][0] == es[k] && es[k..][1..] == es[k + 1..];
  }

  // ---------------------------------------------------------------------
  // Conservation and the FIFO
  // ---------------------------------------------------------------------

  /** The bytes at the decoder that are not messages yet. */
  function Pending(r: R.Receiver): Bytes {
    if r.op.BodyRead? then HeaderBytes(r.op.header) + r.buffer else r.buffer
  }

  /** Every byte appended is, in order, emitted, in flight or buffered; the decoder is in the
      state that belongs to the bytes it has received. */
  ghost predicate Flows(limit: u32, s: State) {
    && OneWrite(s)
    && (forall i | 0 <= i < |s.workers| :: !s.workers[i].SetDone?)
    && (s.emitted + InFlight(s)) + s.sender.buffer == EncodeAll(Messages(s.log))
    && s.received <= s.emitted
    && s.reader == R.Settle(R.FRESH, limit, Split(limit, s.received))
  }

  lemma AppendFlows(limit: u32, s: State, i: nat, m: Message)
    requires Flows(limit, s) && Enabled(s, Appended(i, m))
    ensures Flows(limit, Step(limit, s, Appended(i, m)))
  {
    hide NetStr, Split, EncodeAll, R.OnChunk, R.Settle;
    var s' := Step(limit, s, Appended(i, m));
    assert Messages(s'.log) == Messages(s.log) + [m];
    EncodeAllSnoc(Messages(s.log), m);
    Assoc(s.emitted + InFlight(s), s.sender.buffer, NetStr(m));
  }

  lemma EnterFlows(limit: u32, s: State, t: Thread)
    requires Flows(limit, s) && Enabled(s, EnterLock(t)) && CleanEntry(s.sender)
    ensures Flows(limit, Step(limit, s, EnterLock(t)))
  {
    hide NetStr, Split, EncodeAll, R.OnChunk, R.Settle;
    var s' := Step(limit, s, EnterLock(t));
    var b, n := s.sender.buffer, ToWrite(|s.sender.buffer|);
    if n != 0 {
      assert InFlight(s) == [] && s.emitted + [] == s.emitted;
      assert s'.sender.block[..n] == b[..n];
      assert b[..n] + b[n..] == b;
      Assoc(s.emitted, b[..n], b[n..]);
    }
  }

  lemma CompletedFlows(limit: u32, s: State)
    requires Flows(limit, s) && Enabled(s, Completed)
    ensures Flows(limit, Step(limit, s, Completed))
  {
    hide NetStr, Split, EncodeAll, R.OnChunk, R.Settle;
    var s' := Step(limit, s, Completed);
    assert s'.emitted + [] == s'.emitted;
  }

  /** A part of the block that has left is still what was appended next. */
  lemma LeftFlows(limit: u32, s: State, k: nat)
    requires Flows(limit, s) && Enabled(s, Left(k))
    ensures Flows(limit, Step(limit, s, Left(k)))
  {
    hide NetStr, Split, EncodeAll, R.OnChunk, R.Settle;
    var s', out := Step(limit, s, Left(k)), InFlight(s);
    assert InFlight(s') == out[k..] && out[..k] + out[k..] == out;
    Assoc(s.emitted, out[..k], out[k..]);
  }

  lemma ArrivedFlows(limit: u32, s: State, n: nat)
    requires Flows(limit, s) && Enabled(s, Arrived(n))
    ensures Flows(limit, Step(limit, s, Arrived(n)))
  {
    hide NetStr, Split, EncodeAll, R.OnChunk, R.Settle;
    R.ChunkSettles(limit, s.received, Wire(s)[..n]);
  }

  lemma StepFlows(limit: u32, s: State, e: Event)
    requires Flows(limit, s) && Enabled(s, e) && !e.Failed?
    requires e.EnterLock? ==> CleanEntry(s.sender)
    ensures Flows(limit, Step(limit, s, e))
  {
    hide NetStr, Split, EncodeAll, R.OnChunk, R.Settle, LockedPart;
    match e
    case Appended(i, m) => AppendFlows(limit, s, i, m);
    case EnterLock(t) => EnterFlows(limit, s, t);
    case Left(k) => LeftFlows(limit, s, k);
    case Completed => CompletedFlows(limit, s);
    case Arrived(n) => ArrivedFlows(limit, s, n);
    case _ =>
  }

  lemma InitFlows(role: Role, limit: u32, n: nat)
    ensures Flows(limit, Init(role, limit, n)) && Safe(limit, Init(role, limit, n)) && Awake(Init(role, limit, n))
  {
    hide Stuck;
  }

  predicate PostedWellFormed(limit: u32, es: seq<Event>) {
    forall e | e in es && e.Appended? :: WellFormed(limit, e.msg)
  }

  lemma {:induction false} RunFlows(limit: u32, s: State, es: seq<Event>)
    requires Flows(limit, s) && LegalRun(limit, s, es) && NoFailure(es) && CleanRun(limit, s, es)
    requires PostedWellFormed(limit, es) && AllWellFormed(limit, Messages(s.log))
    ensures var s' := Run(limit, s, es); Flows(limit, s') && AllWellFormed(limit, Messages(s'.log))
    decreases |es|
  {
    hide NetStr, Split, EncodeAll, R.OnChunk, R.Settle, LockedPart, WellFormed, Flows;
    if es != [] {
      assert es[0] in es && forall e | e in es[1..] :: e in es;
      StepFlows(limit, s, es[0]);
      var s' := Step(limit, s, es[0]);
      if es[0].Appended? {
        assert Messages(s'.log) == Messages(s.log) + [es[0].msg];
      }
      RunFlows(limit, s', es[1..]);
    }
  }

  /** The bytes appended are those received followed by those still on their way. */
  lemma FlowsStream(limit: u32, s: State)
    requires Flows(limit, s)
    ensures s.received + (Wire(s) + (InFlight(s) + s.sender.buffer)) == EncodeAll(Messages(s.log))
  {
    hide Split, R.Settle, EncodeAll, Messages;
    assert s.emitted == s.received + Wire(s);
    Assoc(s.received, Wire(s), InFlight(s));
    Assoc(s.received, Wire(s) + InFlight(s), s.sender.buffer);
    Assoc(Wire(s), InFlight(s), s.sender.buffer);
  }

  lemma SettleSplit(limit: u32, received: Bytes)
    requires !Split(limit, received).stop.BadHeader?
    ensures var o, r := Split(limit, received), R.Settle(R.FRESH, limit, Split(limit, received));
            && r.delivered == o.msgs && r.buffer == o.rest
            && EncodeAll(r.delivered) + Pending(r) == received
            && CanRun(r.life) && !r.op.Idle?
            && r.op.atLeast == match o.stop
                               case NeedHeader => HEADER_SIZE - |o.rest|
                               case NeedBody(h) => R.BodyWanted(h, |o.rest|)
  {
    hide Split, EncodeAll, HeaderBytes;
    SplitSound(limit, received);
    var o := Split(limit, received);
    assert [] + o.msgs == o.msgs;
  }

  /** What a state with balanced bytes says about the two ends. */
  lemma FlowsFifo(limit: u32, s: State)
    requires Flows(limit, s) && AllWellFormed(limit, Messages(s.log))
    ensures (EncodeAll(s.reader.delivered) + Pending(s.reader)) + (Wire(s) + (InFlight(s) + s.sender.buffer))
         == EncodeAll(Messages(s.log))
    ensures s.reader.delivered <= Messages(s.log)
    ensures CanRun(s.reader.life) && !s.reader.op.Idle?
    ensures InFlight(s) == [] && s.sender.buffer == [] ==>
              if Wire(s) == [] then s.reader.delivered == Messages(s.log)
              else Enabled(s, Arrived(Min(|Wire(s)|, IO_BLOCK_SIZE)))
  {
    hide Split, EncodeAll, Messages, WellFormed, R.Settle, Pending;
    var later := Wire(s) + (InFlight(s) + s.sender.buffer);
    FlowsStream(limit, s);
    SplitEncode(limit, Messages(s.log));
    SplitMonotone(limit, s.received, later);
    if Split(limit, s.received).stop.BadHeader? {
      SplitRefused(limit, s.received, later);
      assert false;
    }
    SettleSplit(limit, s.received);
    if InFlight(s) == [] && s.sender.buffer == [] {
      assert later == Wire(s);
      NoStall(limit, s.received, Wire(s), Messages(s.log));
    }
  }

  /** When everything else is drained, what is left on the wire is enough for the read in progress. */
  lemma NoStall(limit: u32, received: Bytes, wire: Bytes, ms: seq<Message>)
    requires Split(limit, received + wire) == Outcome(ms, NeedHeader, [])
    ensures var o := Split(limit, received);
            && (wire == [] ==> o == Outcome(ms, NeedHeader, []))
            && (o.stop.NeedHeader? && wire != [] ==> |o.rest| + |wire| >= HEADER_SIZE)
            && (o.stop.NeedBody? ==> |o.rest| + |wire| >= o.stop.header.length)
  {
    hide HeaderBytes, ParseHeader;
    var o := Split(limit, received);
    if wire == [] {
      assert received + wire == received;
    } else if o.stop.NeedHeader? {
      SplitResumeHeader(limit, received, o.msgs, o.rest, wire);
    } else if o.stop.NeedBody? {
      SplitResumeBody(limit, received, o.msgs, o.stop.header, o.rest, wire);
    }
  }

  /** From end to end the connection is a FIFO of messages. In every state of every run without
      write errors in which the locked part is only entered at kDone: all bytes are accounted
      for in order; the messages delivered are a first part of those appended; the decoder never
      refuses a header and has a read in progress; when the sending side is drained, either all
      messages are delivered or the bytes on the wire let the pending read complete. */
  lemma FifoRefinement(role: Role, limit: u32, n: nat, es: seq<Event>)
    requires LegalRun(limit, Init(role, limit, n), es) && NoFailure(es)
    requires CleanRun(limit, Init(role, limit, n), es) && PostedWellFormed(limit, es)
    ensures var s := Run(limit, Init(role, limit, n), es);
            && ValidBlock(s.sender)
            && (EncodeAll(s.reader.delivered) + Pending(s.reader)) + (Wire(s) + (InFlight(s) + s.sender.buffer))
               == EncodeAll(Messages(s.log))
            && s.reader.delivered <= Messages(s.log)
            && CanRun(s.reader.life) && !s.reader.op.Idle?
            && (InFlight(s) == [] && s.sender.buffer == [] ==>
                  if Wire(s) == [] then s.reader.delivered == Messages(s.log)
                  else Enabled(s, Arrived(Min(|Wire(s)|, IO_BLOCK_SIZE))))
  {
    hide *;
    InitFlows(role, limit, n);
    InitLog(role, limit, n);
    RunFlows(limit, Init(role, limit, n), es);
    FlowsFifo(limit, Run(limit, Init(role, limit, n), es));
    FlowsValid(limit, Run(limit, Init(role, limit, n), es));
  }

  lemma InitLog(role: Role, limit: u32, n: nat)
    ensures AllWellFormed(limit, Messages(Init(role, limit, n).log))
  {
  }

  lemma FlowsValid(limit: u32, s: State)
    requires Flows(limit, s)
    ensures ValidBlock(s.sender)
  {
  }

  /** Every thread is out of `do_write`, no write is in progress and the wire is empty. */
  predicate Drained(s: State) {
    CanRun(s.sender.life) && !WillRetry(s) && Wire(s) == []
  }

  lemma DrainedDelivers(limit: u32, s: State)
    requires Safe(limit, s) && Awake(s) && AllWellFormed(limit, Messages(s.log)) && Drained(s)
    ensures Truncate32(|s.sender.buffer|) == 0
    ensures s.reader.delivered == Messages(s.log) <==> s.sender.buffer == []
  {
    hide EncodeAll, Messages, Split, R.Settle, WellFormed, Pending;
    FlowsFifo(limit, s);
    var before, after := EncodeAll(s.reader.delivered) + Pending(s.reader), Wire(s) + (InFlight(s) + s.sender.buffer);
    assert |before + after| == |before| + |after| && |before| >= |EncodeAll(s.reader.delivered)|;
  }

  lemma DrainedEmits(limit: u32, s: State)
    requires Safe(limit, s) && Drained(s) && s.sender.buffer == []
    ensures s.emitted == EncodeAll(Messages(s.log))
  {
    hide EncodeAll, Messages, Split, R.Settle;
  }

  /** No visible reply is left behind: when every worker has returned from its reply, no write is
      in progress and the wire is empty, `get_length` of the send buffer is zero, and every message
      appended has been delivered exactly if the buffer is in fact empty. Otherwise it holds a
      multiple of 2^32 bytes. */
  lemma AllDelivered(role: Role, limit: u32, n: nat, es: seq<Event>)
    requires LegalRun(limit, Init(role, limit, n), es)
    requires CleanRun(limit, Init(role, limit, n), es) && PostedWellFormed(limit, es)
    ensures var s := Run(limit, Init(role, limit, n), es);
            Drained(s) ==>
              && Truncate32(|s.sender.buffer|) == 0
              && (s.reader.delivered == Messages(s.log) <==> s.sender.buffer == [])
  {
    hide *;
    var s0 := Init(role, limit, n);
    InitFlows(role, limit, n);
    InitLog(role, limit, n);
    RunSafe(limit, s0, es);
    NoLostWakeup(limit, s0, es);
    if Drained(Run(limit, s0, es)) {
      DrainedDelivers(limit, Run(limit, s0, es));
    }
  }

  // ---------------------------------------------------------------------
  // Write errors included: nothing wrong is ever sent
  // ---------------------------------------------------------------------

  /** After a failed write: kSend for good and no write in progress, so nothing goes out any more. */
  ghost predicate Stuck(limit: u32, s: State) {
    && ValidBlock(s.sender) && s.sender.status.Sending? && s.sender.writes == [] && s.sent == 0
    && !CanRun(s.sender.life)
    && !s.handler.SetDone? && (forall i | 0 <= i < |s.workers| :: !s.workers[i].SetDone?)
    && s.emitted <= EncodeAll(Messages(s.log))
    && s.received <= s.emitted
    && s.reader == R.Settle(R.FRESH, limit, Split(limit, s.received))
  }

  lemma FailedStuck(limit: u32, s: State, ec: ErrorCode)
    requires Flows(limit, s) && Enabled(s, Failed(ec))
    ensures Stuck(limit, Step(limit, s, Failed(ec)))
  {
    hide NetStr, Split, EncodeAll, R.OnChunk, R.Settle;
    Assoc(s.emitted, InFlight(s), s.sender.buffer);
  }

  lemma StuckAppend(limit: u32, s: State, i: nat, m: Message)
    requires Stuck(limit, s) && Enabled(s, Appended(i, m))
    ensures Stuck(limit, Step(limit, s, Appended(i, m)))
  {
    hide NetStr, Split, EncodeAll, R.OnChunk, R.Settle;
    var s' := Step(limit, s, Appended(i, m));
    assert Messages(s'.log) == Messages(s.log) + [m];
    EncodeAllSnoc(Messages(s.log), m);
  }

  lemma StepStuck(limit: u32, s: State, e: Event)
    requires Stuck(limit, s) && Enabled(s, e)
    requires e.EnterLock? ==> CleanEntry(s.sender)
    ensures Stuck(limit, Step(limit, s, e))
  {
    hide NetStr, Split, EncodeAll, Messages, R.OnChunk, R.Settle;
    if e.Appended? {
      StuckAppend(limit, s, e.i, e.msg);
    } else if e.Arrived? {
      R.ChunkSettles(limit, s.received, Wire(s)[..e.n]);
    }
  }

  ghost predicate Safe(limit: u32, s: State) {
    Flows(limit, s) || Stuck(limit, s)
  }

  lemma SafeValid(limit: u32, s: State)
    requires Safe(limit, s)
    ensures ValidBlock(s.sender)
  {
  }

  lemma StepSafe(limit: u32, s: State, e: Event)
    requires Safe(limit, s) && Enabled(s, e)
    requires e.EnterLock? ==> CleanEntry(s.sender)
    ensures Safe(limit, Step(limit, s, e))
  {
    hide Flows, Stuck, Step, Enabled, CleanEntry;
    if Stuck(limit, s) {
      StepStuck(limit, s, e);
    } else if e.Failed? {
      FailedStuck(limit, s, e.ec);
    } else {
      StepFlows(limit, s, e);
    }
  }

  lemma {:induction false} RunSafe(limit: u32, s: State, es: seq<Event>)
    requires Safe(limit, s) && LegalRun(limit, s, es) && CleanRun(limit, s, es)
    requires PostedWellFormed(limit, es) && AllWellFormed(limit, Messages(s.log))
    ensures var s' := Run(limit, s, es); Safe(limit, s') && AllWellFormed(limit, Messages(s'.log))
    decreases |es|
  {
    hide NetStr, Split, EncodeAll, R.OnChunk, R.Settle, LockedPart, WellFormed, Safe;
    if es != [] {
      assert es[0] in es && forall e | e in es[1..] :: e in es;
      var s' := Step(limit, s, es[0]);
      StepSafe(limit, s, es[0]);
      if es[0].Appended? {
        assert Messages(s'.log) == Messages(s.log) + [es[0].msg];
      }
      RunSafe(limit, s', es[1..]);
    }
  }

  /** In a safe state both the bytes emitted and those received are a first part of the frames appended. */
  lemma SafePrefix(limit: u32, s: State)
    requires Safe(limit, s)
    ensures s.received <= s.emitted <= EncodeAll(Messages(s.log))
    ensures s.reader == R.Settle(R.FRESH, limit, Split(limit, s.received))
  {
    hide NetStr, Split, EncodeAll, Messages, R.Settle;
    if Flows(limit, s) {
      Assoc(s.emitted, InFlight(s), s.sender.buffer);
    }
  }

  /** A first part of a stream of acceptable frames splits into a first part of these frames. */
  lemma PrefixSplits(limit: u32, part: Bytes, ms: seq<Message>)
    requires AllWellFormed(limit, ms) && part <= EncodeAll(ms)
    ensures Split(limit, part).msgs <= ms && !Split(limit, part).stop.BadHeader?
  {
    hide Split, EncodeAll, AllWellFormed;
    var later := EncodeAll(ms)[|part|..];
    assert part + later == EncodeAll(ms);
    SplitEncode(limit, ms);
    SplitMonotone(limit, part, later);
    if Split(limit, part).stop.BadHeader? {
      SplitRefused(limit, part, later);
    }
  }

  /** In a safe state the decoder has delivered a first part of the messages appended. */
  lemma SafeDelivers(limit: u32, s: State)
    requires Safe(limit, s) && AllWellFormed(limit, Messages(s.log))
    ensures s.reader.delivered <= Messages(s.log)
  {
    hide Split, Safe, EncodeAll, Messages, WellFormed;
    SafePrefix(limit, s);
    PrefixSplits(limit, s.received, Messages(s.log));
    SettleSplit(limit, s.received);
  }

  /** Whatever fails and whenever the connection is closed: frames of different workers never
      mix. The bytes emitted decode to a first part of the log, frame by frame, the decoder has
      delivered a first part of that and never refuses a header, and the log keeps every
      worker's own order. */
  lemma FramesNeverMix(role: Role, limit: u32, n: nat, es: seq<Event>, i: nat)
    requires LegalRun(limit, Init(role, limit, n), es)
    requires CleanRun(limit, Init(role, limit, n), es) && PostedWellFormed(limit, es)
    ensures var s := Run(limit, Init(role, limit, n), es);
            var out := Split(limit, s.emitted);
            && |out.msgs| <= |s.log| && out.msgs == Messages(s.log[..|out.msgs|]) && !out.stop.BadHeader?
            && s.reader.delivered <= out.msgs && CanRun(s.reader.life)
            && Mine(s.log, i) == PostsBy(es, i)
            && Mine(s.log[..|out.msgs|], i) <= PostsBy(es, i)
  {
    hide CleanRun, LegalRun, Run, R.OnChunk, R.Settle, EncodeAll, Split, PostedWellFormed, WellFormed, Flows, Stuck;
    var s := Run(limit, Init(role, limit, n), es);
    InitFlows(role, limit, n);
    RunSafe(limit, Init(role, limit, n), es);
    SafePrefix(limit, s);
    var out := Split(limit, s.emitted);
    PrefixSplits(limit, s.emitted, Messages(s.log));
    PrefixSplits(limit, s.received, Messages(s.log));
    SettleSplit(limit, s.received);
    SplitMonotone(limit, s.received, s.emitted[|s.received|..]);
    assert s.received + s.emitted[|s.received|..] == s.emitted;
    assert Messages(s.log)[..|out.msgs|] == Messages(s.log[..|out.msgs|]);
    RunLog(limit, Init(role, limit, n), es, i);
    assert Mine([], i) + PostsBy(es, i) == PostsBy(es, i);
    MinePrefix(s.log, |out.msgs|, i);
  }
}
