/** The order of responses. The handler of an asynchronous client is not told which call a report
    belongs to, and responses need not come in the order of the requests. */
module RequestOrder {
  import opened Bytes
  import opened Framing
  import opened RpcCodec
  import opened Dispatch
  import opened Composition
  import XtraTask
  import Q = Requests
  import P = Pipeline
  import S = Sender

  /** The requests of the connection, in the order in which they came. */
  function OwnIds(mine: seq<bool>): seq<nat> {
    if mine == [] then [] else
      var n := |mine| - 1;
      OwnIds(mine[..n]) + (if mine[n] then [n] else [])
  }

  /** The calls of reply and reject made so far are for the oldest requests, oldest first. */
  predicate InOrder(s: State) {
    Q.Ids(s.calls) <= OwnIds(s.mine)
  }

  /** These are the numbers of the requests of the connection, in ascending order. */
  predicate Ascending(mine: seq<bool>, own: seq<nat>) {
    && (forall k | 0 <= k < |own| :: own[k] < |mine| && mine[own[k]])
    && (forall i, j | 0 <= i < j < |own| :: own[i] < own[j])
    && (forall id: nat | id < |mine| && mine[id] :: id in own)
  }

  lemma {:induction false} OwnIdsSorted(mine: seq<bool>)
    ensures Ascending(mine, OwnIds(mine))
  {
    hide Ascending;
    if mine == [] {
      NoneOwn();
    } else {
      OwnIdsSorted(mine[..|mine| - 1]);
      OneMoreOwn(mine, OwnIds(mine[..|mine| - 1]));
    }
  }

  lemma NoneOwn()
    ensures Ascending([], [])
  {
  }

  lemma OneMoreOwn(mine: seq<bool>, before: seq<nat>)
    requires mine != [] && Ascending(mine[..|mine| - 1], before)
    ensures Ascending(mine, before + (if mine[|mine| - 1] then [|mine| - 1] else []))
  {
    var n := |mine| - 1;
    var front := mine[..n];
    assert forall k | 0 <= k < |before| :: before[k] < n && mine[before[k]] == front[before[k]];
    forall id: nat | id < n && mine[id]
      ensures id in before
    {
      assert front[id];
    }
  }

  /** Every older request of the connection has had its call. */
  predicate OldestWithoutCall(s: State, id: nat) {
    forall j: nat | j < id && Mine(s, j) :: Times(s.calls, j) > 0
  }

  /** A call that a step makes is for the oldest request without one. */
  predicate CallsOldest(su: Setup, s: State, e: Event)
    requires Enabled(su, s, e)
  {
    match e
    case Decoded(str, mine) =>
      mine && Decide(su.cfg.services.Keys, str).RejectNow? ==> OldestWithoutCall(s, |s.mine|)
    case Answered(w) =>
      var id := s.server.workers[w].job.value;
      Mine(s, id) ==> OldestWithoutCall(s, id)
    case _ => true
  }

  predicate OldestFirst(su: Setup, s: State, es: seq<Event>)
    requires LegalRun(su, s, es)
    decreases |es|
  {
    es == [] || (CallsOldest(su, s, es[0]) && OldestFirst(su, Step(su, s, es[0]), es[1..]))
  }

  // ---------------------------------------------------------------------
  // Order is kept exactly if the oldest is always called first
  // ---------------------------------------------------------------------

  lemma CountedIsThere(ids: seq<nat>, id: nat)
    ensures multiset(ids)[id] > 0 <==> id in ids
  {
  }

  lemma NextOfSorted(own: seq<nat>, n: nat, id: nat)
    requires n <= |own| && id in own && id !in own[..n]
    requires forall i, j | 0 <= i < j < |own| :: own[i] < own[j]
    ensures n < |own|
    ensures own[n] == id <==> forall j | j in own && j < id :: j in own[..n]
  {
    assert own[..|own|] == own;
    if own[n] == id {
      forall j | j in own && j < id
        ensures j in own[..n]
      {
        var q :| 0 <= q < |own| && own[q] == j;
        assert own[..n][q] == j;
      }
    } else {
      var p :| 0 <= p < |own| && own[p] == id;
      assert forall q | 0 <= q < n :: own[..n][q] == own[q];
      assert own[n] in own && own[n] < id && own[n] !in own[..n];
    }
  }

  /** One more call keeps the order if and only if it is for the oldest request without one;
      otherwise the order is broken at its place. */
  lemma NextInOrder(s: State, mine: seq<bool>, id: nat)
    requires Q.Ids(s.calls) <= OwnIds(mine) && s.mine <= mine
    requires id < |mine| && mine[id] && Times(s.calls, id) == 0
    requires forall j: nat | j < id && j < |mine| && mine[j] :: Mine(s, j)
    ensures |s.calls| < |OwnIds(mine)|
    ensures OwnIds(mine)[|s.calls|] == id <==> OldestWithoutCall(s, id)
  {
    hide OwnIds;
    var ids, own, n := Q.Ids(s.calls), OwnIds(mine), |s.calls|;
    assert own[..n] == ids;
    OwnIdsSorted(mine);
    CountedIsThere(ids, id);
    NextOfSorted(own, n, id);
    forall j: nat
      ensures Times(s.calls, j) > 0 <==> j in ids
    {
      CountedIsThere(ids, j);
    }
    assert forall j: nat | j < id :: Mine(s, j) <==> j in own;
  }

  /** A place at which the calls differ from the requests. */
  predicate BrokenAt(s: State, k: nat) {
    k < |s.calls| && k < |OwnIds(s.mine)| && s.calls[k].id != OwnIds(s.mine)[k]
  }

  /** Calls and requests only grow. */
  lemma StepGrows(su: Setup, s: State, e: Event)
    requires Enabled(su, s, e)
    ensures s.calls <= Step(su, s, e).calls && OwnIds(s.mine) <= OwnIds(Step(su, s, e).mine)
  {
    hide P.Step, XtraTask.Answer, NewReject, ValidRequest, FrameOf;
    if e.Decoded? {
      assert (s.mine + [e.mine])[..|s.mine|] == s.mine;
    }
  }

  lemma {:induction false} BrokenStays(su: Setup, s: State, es: seq<Event>, k: nat)
    requires LegalRun(su, s, es) && BrokenAt(s, k)
    ensures !InOrder(Run(su, s, es))
    decreases |es|
  {
    hide Step, Enabled, OwnIds;
    if es == [] {
      assert Q.Ids(s.calls)[k] == s.calls[k].id;
    } else {
      StepGrows(su, s, es[0]);
      BrokenStays(su, Step(su, s, es[0]), es[1..], k);
    }
  }

  /** A request in execution has had no call. */
  lemma ExecutedNotCalled(su: Setup, s: State, w: nat)
    requires Composed(su, s) && w < |s.server.workers| && s.server.workers[w].job.Some?
    ensures Times(s.calls, s.server.workers[w].job.value) == 0
  {
    hide P.Safe, P.Awake, Q.Justified, Q.Queued, Q.InExecution, Admitted, PipeMatches;
    var id := s.server.workers[w].job.value;
    InExecutionCounts(s.server.workers, w);
    Q.RangeOnce(|s.server.arrived|, id);
    var all := multiset(Q.Range(|s.server.arrived|));
    assert all[id] >= Times(s.server.rejected, id) + Times(s.server.answered, id)
                      + Q.InExecution(s.server.workers)[id];
  }

  lemma InExecutionCounts(workers: seq<Q.Worker>, w: nat)
    requires w < |workers| && workers[w].job.Some?
    ensures Q.InExecution(workers)[workers[w].job.value] > 0
  {
    Q.JobDone(workers, w, Q.Worker(workers[w].executor, None));
  }

  lemma StepOrder(su: Setup, s: State, e: Event)
    requires Composed(su, s) && InOrder(s) && Enabled(su, s, e)
    ensures if CallsOldest(su, s, e) then InOrder(Step(su, s, e)) else BrokenAt(Step(su, s, e), |s.calls|)
  {
    hide P.Step, P.Safe, P.Awake, Q.Conserved, Q.Justified, Admitted, PipeMatches, XtraTask.Answer, NewReject,
         OwnIds, FrameOf, P.CleanEntry, Times, ValidRequest, P.Enabled;
    var s' := Step(su, s, e);
    StepGrows(su, s, e);
    match e
    case Decoded(str, mine) =>
      var n := |s.mine|;
      if mine && Decide(su.cfg.services.Keys, str).RejectNow? {
        NotYetCalled(s, n);
        NextInOrder(s, s'.mine, n);
        OneMoreCall(s, s', n);
      }
    case Answered(w) =>
      var id := s.server.workers[w].job.value;
      if Mine(s, id) {
        ExecutedNotCalled(su, s, w);
        NextInOrder(s, s'.mine, id);
        OneMoreCall(s, s', id);
      }
    case _ =>
  }

  lemma OneMoreCall(s: State, s': State, id: nat)
    requires InOrder(s) && OwnIds(s.mine) <= OwnIds(s'.mine)
    requires |s'.calls| == |s.calls| + 1 && s.calls <= s'.calls && s'.calls[|s.calls|].id == id
    requires |s.calls| < |OwnIds(s'.mine)|
    ensures if OwnIds(s'.mine)[|s.calls|] == id then InOrder(s') else BrokenAt(s', |s.calls|)
  {
    hide OwnIds;
    assert Q.Ids(s'.calls) == Q.Ids(s.calls) + [id];
  }

  lemma {:induction false} OrderIff(su: Setup, s: State, es: seq<Event>)
    requires Composed(su, s) && InOrder(s) && LegalRun(su, s, es) && AllAdmitted(su, es)
    ensures InOrder(Run(su, s, es)) <==> OldestFirst(su, s, es)
    decreases |es|
  {
    hide Composed, Step, Enabled, Admitted, CallsOldest, InOrder, BrokenAt;
    if es != [] {
      var s' := Step(su, s, es[0]);
      assert es[0] in es && AllAdmitted(su, [es[0]]) && AllAdmitted(su, es[1..]);
      StepOrder(su, s, es[0]);
      if CallsOldest(su, s, es[0]) {
        StepComposed(su, s, es[0]);
        OrderIff(su, s', es[1..]);
      } else {
        BrokenStays(su, s', es[1..], |s.calls|);
      }
    }
  }

  /** The order of the requests is kept up to the end of a run if and only if every reply and every
      rejection of the run is for the oldest request of the connection that has had none. */
  lemma RequestOrderIff(su: Setup, es: seq<Event>)
    requires Q.ValidConfig(su.cfg) && LegalRun(su, Init(su), es) && AllAdmitted(su, es)
    ensures InOrder(Run(su, Init(su), es)) <==> OldestFirst(su, Init(su), es)
  {
    hide LegalRun, Run, OldestFirst, Composed, Q.Init, P.Init;
    InitComposed(su);
    assert Q.Ids([]) == [];
    OrderIff(su, Init(su), es);
  }

  // ---------------------------------------------------------------------
  // The program does not keep it
  // ---------------------------------------------------------------------

  /** One service without limits, with these workers. */
  function OneService(pb: XtraTask.Protobuf, executors: seq<nat>): Setup {
    Setup(Q.Config(map[1 := 0], 1, pb), executors, 0, 0)
  }

  const WRITE: Bytes := RequestStr(NewRequest(1, XtraTask.CMD_WRITE, [0]))
  const UNKNOWN: Bytes := RequestStr(NewRequest(1, 9, [0]))

  lemma Known(pb: XtraTask.Protobuf, executors: seq<nat>)
    ensures ValidRequest(WRITE) == Some(NewRequest(1, XtraTask.CMD_WRITE, [0]))
    ensures ValidRequest(UNKNOWN) == Some(NewRequest(1, 9, [0]))
    ensures ValidRequest([]) == None
    ensures var su := OneService(pb, executors);
            Admitted(su, WRITE) && Admitted(su, UNKNOWN) && Admitted(su, [])
    ensures XtraTask.Answer(pb, NewRequest(1, XtraTask.CMD_WRITE, [0])) != NewReject(INVALID_REQUEST)
    ensures XtraTask.Answer(pb, NewRequest(1, 9, [0])) == NewReject(INVALID_REQUEST)
  {
    hide RequestStr, ParseFields, ResponseHeaderBytes;
    ValidRequestIff(WRITE, NewRequest(1, XtraTask.CMD_WRITE, [0]));
    ValidRequestIff(UNKNOWN, NewRequest(1, 9, [0]));
  }

  lemma RunNone(su: Setup, s: State)
    ensures LegalRun(su, s, []) && Run(su, s, []) == s
  {
  }

  lemma RunFront(su: Setup, s: State, e: Event, es: seq<Event>)
    requires Enabled(su, s, e) && LegalRun(su, Step(su, s, e), es)
    ensures LegalRun(su, s, [e] + es) && Run(su, s, [e] + es) == Run(su, Step(su, s, e), es)
  {
    hide Step, Enabled;
    assert ([e] + es)[1..] == es;
  }

  /** A call leaves the other threads where they are. */
  lemma Posted(su: Setup, s: State, i: nat, c: Q.Call)
    requires S.ValidBlock(s.pipe.sender) && MayPost(s, i)
    ensures var s' := Post(su, s, i, c);
            && s'.server == s.server && s'.mine == s.mine && s'.calls == s.calls + [c]
            && S.ValidBlock(s'.pipe.sender) && |s'.pipe.workers| == |s.pipe.workers|
            && forall j | 0 <= j < |s.pipe.workers| && j != i :: s'.pipe.workers[j] == s.pipe.workers[j]
  {
    hide NetStr;
  }

  /** The four steps the runs are made of, for the one service. */
  ghost predicate Ready(su: Setup, s: State) {
    su.cfg.services == map[1 := 0] && su.cfg.executors == 1 == |s.server.queues| && S.ValidBlock(s.pipe.sender)
  }

  lemma Queues(su: Setup, s: State, str: Bytes, m: RequestMessage)
    requires Ready(su, s) && ValidRequest(str) == Some(m) && m.header.serviceId == 1
    ensures var e, q := Decoded(str, true), s.server;
            && Enabled(su, s, e)
            && Step(su, s, e) == s.(server := q.(arrived := q.arrived + [str],
                                                 queues := q.queues[0 := q.queues[0] + [|q.arrived|]]),
                                    mine := s.mine + [true])
  {
  }

  lemma Rejects(su: Setup, s: State, str: Bytes)
    requires Ready(su, s) && ValidRequest(str) == None && MayPost(s, Reader(su))
    ensures var e, q := Decoded(str, true), s.server;
            var c := Q.Call(|q.arrived|, NewReject(INVALID_REQUEST));
            && Enabled(su, s, e)
            && var s' := Step(su, s, e);
               && s'.server == q.(arrived := q.arrived + [str], rejected := q.rejected + [c])
               && s'.mine == s.mine + [true] && s'.calls == s.calls + [c]
               && Ready(su, s') && |s'.pipe.workers| == |s.pipe.workers|
               && forall j | 0 <= j < |s.pipe.workers| && j != Reader(su) ::
                    s'.pipe.workers[j] == s.pipe.workers[j]
  {
    hide Post, NewReject;
    var c := Q.Call(|s.server.arrived|, NewReject(INVALID_REQUEST));
    Posted(su, s.(server := Q.Step(su.cfg, s.server, Q.Delivered(str)), mine := s.mine + [true]), Reader(su), c);
  }

  lemma Takes(su: Setup, s: State, w: nat)
    requires Ready(su, s) && MayPost(s, w) && s.server.queues[0] != []
    requires w < |s.server.workers| && s.server.workers[w] == Q.Worker(0, None)
    ensures var e, q := Taken(w), s.server;
            && Enabled(su, s, e)
            && Step(su, s, e) == s.(server := q.(queues := q.queues[0 := q.queues[0][1..]],
                                                 workers := q.workers[w := Q.Worker(0, Some(q.queues[0][0]))]))
  {
  }

  lemma Answers(su: Setup, s: State, w: nat, id: nat, m: RequestMessage)
    requires Ready(su, s) && MayPost(s, w) && Mine(s, id) && id < |s.server.arrived|
    requires w < |s.server.workers| && s.server.workers[w] == Q.Worker(0, Some(id))
    requires ValidRequest(s.server.arrived[id]) == Some(m)
    ensures var e, q := Answered(w), s.server;
            var c := Q.Call(id, XtraTask.Answer(su.cfg.pb, m));
            && Enabled(su, s, e)
            && var s' := Step(su, s, e);
               && s'.server == q.(workers := q.workers[w := Q.Worker(0, None)], answered := q.answered + [c])
               && s'.mine == s.mine && s'.calls == s.calls + [c]
               && Ready(su, s') && |s'.pipe.workers| == |s.pipe.workers|
               && forall j | 0 <= j < |s.pipe.workers| && j != w :: s'.pipe.workers[j] == s.pipe.workers[j]
  {
    hide Post, XtraTask.Answer, ValidRequest;
    Posted(su, s.(server := Q.Step(su.cfg, s.server, Q.Finished(w))), w,
           Q.Call(id, XtraTask.Answer(su.cfg.pb, m)));
  }

  lemma OneServiceStarts(pb: XtraTask.Protobuf, n: nat)
    requires n == 1 || n == 2
    ensures var su := OneService(pb, seq(n, _ => 0));
            var s := Init(su);
            && Ready(su, s) && Q.ValidConfig(su.cfg)
            && s.server.arrived == [] && s.server.queues == [[]]
            && |s.server.workers| == n && (forall w | 0 <= w < n :: s.server.workers[w] == Q.Worker(0, None))
            && s.mine == [] && s.calls == []
            && |s.pipe.workers| == n + 1 && forall i | 0 <= i <= n :: MayPost(s, i)
  {
    var su := OneService(pb, seq(n, _ => 0));
    assert Q.NoQueues(1) == [[]];
  }

  /** One worker is not enough: the second request is rejected when it is dispatched, while the
      first one waits in the queue. */
  lemma RejectionOvertakes(pb: XtraTask.Protobuf)
    ensures var su, es := OneService(pb, seq(1, _ => 0)),
                          [Decoded(WRITE, true), Decoded([], true), Taken(0), Answered(0)];
            && Q.ValidConfig(su.cfg) && LegalRun(su, Init(su), es) && AllAdmitted(su, es)
            && var s := Run(su, Init(su), es);
               Q.Ids(s.calls) == [1, 0] && s.calls[0].response != s.calls[1].response && !InOrder(s)
  {
    hide LegalRun, Run, XtraTask.Answer, ResponseStr, ValidRequest, NewReject, Init, Step, Enabled, Admitted;
    Known(pb, seq(1, _ => 0));
    OneServiceStarts(pb, 1);
    var su := OneService(pb, seq(1, _ => 0));
    var e1, e2, e3, e4 := Decoded(WRITE, true), Decoded([], true), Taken(0), Answered(0);
    var s0 := Init(su);
    Queues(su, s0, WRITE, NewRequest(1, XtraTask.CMD_WRITE, [0]));
    var s1 := Step(su, s0, e1);
    assert MayPost(s0, 0) && MayPost(s0, 1) && s1.server.queues[0] == [0];
    Rejects(su, s1, []);
    var s2 := Step(su, s1, e2);
    assert s0.server.workers[0] == s2.server.workers[0] && MayPost(s2, 0);
    Takes(su, s2, 0);
    var s3 := Step(su, s2, e3);
    Answers(su, s3, 0, 0, NewRequest(1, XtraTask.CMD_WRITE, [0]));
    var s4 := Step(su, s3, e4);
    RunNone(su, s4);
    RunFront(su, s3, e4, []);
    RunFront(su, s2, e3, [e4] + []);
    RunFront(su, s1, e2, [e3] + ([e4] + []));
    RunFront(su, s0, e1, [e2] + ([e3] + ([e4] + [])));
    assert [e1] + ([e2] + ([e3] + ([e4] + []))) == [e1, e2, e3, e4];
    Reversed(s4);
  }

  lemma Reversed(s: State)
    requires s.mine == [true, true] && |s.calls| == 2 && s.calls[0].id == 1 && s.calls[1].id == 0
    ensures Q.Ids(s.calls) == [1, 0] && !InOrder(s)
  {
    assert [true, true][..1] == [true] && [true][..0] == [];
    assert OwnIds([true, true])[0] == 0;
  }

  /** Two workers: they answer in the reverse order. */
  lemma WorkersOvertake(pb: XtraTask.Protobuf)
    ensures var su, es := OneService(pb, seq(2, _ => 0)),
                          [Decoded(WRITE, true), Decoded(UNKNOWN, true), Taken(0), Taken(1), Answered(1), Answered(0)];
            && Q.ValidConfig(su.cfg) && LegalRun(su, Init(su), es) && AllAdmitted(su, es)
            && var s := Run(su, Init(su), es);
               Q.Ids(s.calls) == [1, 0] && s.calls[0].response != s.calls[1].response && !InOrder(s)
  {
    hide LegalRun, Run, XtraTask.Answer, ResponseStr, ValidRequest, NewReject, Init, Step, Enabled, Admitted;
    Known(pb, seq(2, _ => 0));
    OneServiceStarts(pb, 2);
    var su := OneService(pb, seq(2, _ => 0));
    var e1, e2 := Decoded(WRITE, true), Decoded(UNKNOWN, true);
    var e3, e4, e5, e6 := Taken(0), Taken(1), Answered(1), Answered(0);
    var s0 := Init(su);
    Queues(su, s0, WRITE, NewRequest(1, XtraTask.CMD_WRITE, [0]));
    var s1 := Step(su, s0, e1);
    assert s1.server.queues[0] == [0];
    Queues(su, s1, UNKNOWN, NewRequest(1, 9, [0]));
    var s2 := Step(su, s1, e2);
    assert s2.server.queues[0] == [0, 1] && s2.server.workers == s0.server.workers;
    assert MayPost(s0, 0) && MayPost(s0, 1);
    Takes(su, s2, 0);
    var s3 := Step(su, s2, e3);
    assert s3.server.queues[0] == [1] && s3.server.workers[1] == s2.server.workers[1];
    Takes(su, s3, 1);
    var s4 := Step(su, s3, e4);
    Answers(su, s4, 1, 1, NewRequest(1, 9, [0]));
    var s5 := Step(su, s4, e5);
    Answers(su, s5, 0, 0, NewRequest(1, XtraTask.CMD_WRITE, [0]));
    var s6 := Step(su, s5, e6);
    RunNone(su, s6);
    RunFront(su, s5, e6, []);
    RunFront(su, s4, e5, [e6] + []);
    RunFront(su, s3, e4, [e5] + ([e6] + []));
    RunFront(su, s2, e3, [e4] + ([e5] + ([e6] + [])));
    RunFront(su, s1, e2, [e3] + ([e4] + ([e5] + ([e6] + []))));
    RunFront(su, s0, e1, [e2] + ([e3] + ([e4] + ([e5] + ([e6] + [])))));
    assert [e1] + ([e2] + ([e3] + ([e4] + ([e5] + ([e6] + []))))) == [e1, e2, e3, e4, e5, e6];
    Reversed(s6);
  }
}
