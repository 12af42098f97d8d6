/** The server as a whole, seen from one of its connections: dispatcher, queues and workers on one
    side, the sending direction of the connection and the client's decoder on the other. */
module Composition {
  import opened Bytes
  import opened Framing
  import opened NetConn
  import opened RpcCodec
  import opened Dispatch
  import XtraTask
  import S = Sender
  import Q = Requests
  import P = Pipeline

  /** The services and their workers, the server's send limit and the client's receive limit. */
  datatype Setup = Setup(cfg: Q.Config, executors: seq<nat>, sendLimit: u32, limit: u32)

  /** `mine[id]` says whether request `id` came on this connection, and `calls` lists the calls of
      `reply_rpc_message` and `reject` for its requests as they were made. */
  datatype State = State(server: Q.State, mine: seq<bool>, calls: seq<Q.Call>, pipe: P.State)

  /** A request is decoded, on this connection or another one; worker `w` takes a request; it
      answers; or something happens on the sending side of this connection or at its client. */
  datatype Event = Decoded(str: Bytes, mine: bool) | Taken(w: nat) | Answered(w: nat) | OnConn(e: P.Event)

  /** The thread that decodes and dispatches what arrives on this connection. */
  function Reader(su: Setup): nat {
    |su.executors|
  }

  function Init(su: Setup): State {
    State(Q.Init(su.cfg, su.executors), [], [], P.Init(Server, su.limit, |su.executors| + 1))
  }

  /** The response that the bytes of a request determine. */
  function ResponseFor(cfg: Q.Config, str: Bytes): ResponseMessage {
    match Decide(cfg.services.Keys, str)
    case RejectNow(status) => NewReject(status)
    case Enqueue(m) => XtraTask.Answer(cfg.pb, m)
  }

  function FrameOf(r: ResponseMessage): Message {
    NewMessage(ResponseStr(r))
  }

  function Frames(calls: seq<Q.Call>): seq<Message> {
    seq(|calls|, i requires 0 <= i < |calls| => FrameOf(calls[i].response))
  }

  predicate MayPost(s: State, i: nat) {
    i < |s.pipe.workers| && s.pipe.workers[i].Rest?
  }

  /** A worker that is still in `do_write` has not come back to the queue. The locked part is
      entered at kDone. */
  predicate Enabled(su: Setup, s: State, e: Event) {
    && Q.ValidConfig(su.cfg) && |s.server.queues| == su.cfg.executors && S.ValidBlock(s.pipe.sender)
    && match e
       case Decoded(str, mine) =>
         mine && Decide(su.cfg.services.Keys, str).RejectNow? ==> MayPost(s, Reader(su))
       case Taken(w) => Q.Enabled(s.server, Q.Popped(w)) && MayPost(s, w)
       case Answered(w) => Q.Enabled(s.server, Q.Finished(w)) && MayPost(s, w)
       case OnConn(p) =>
         && P.Enabled(s.pipe, p) && !p.Appended?
         && (p.EnterLock? ==> P.CleanEntry(s.pipe.sender))
  }

  /** Thread `i` makes call `c`: the response is sent as one frame, unless it is over the limit. */
  function Post(su: Setup, s: State, i: nat, c: Q.Call): State
    requires S.ValidBlock(s.pipe.sender) && MayPost(s, i)
  {
    var frame := FrameOf(c.response);
    s.(calls := s.calls + [c],
       pipe := if su.sendLimit != 0 && frame.header.length > su.sendLimit then s.pipe
               else P.Step(su.limit, s.pipe, P.Appended(i, frame)))
  }

  /** A call, with the thread running on through `do_write`, is what the connection's sender does
      with the response's frame: nothing over the limit. */
  lemma PostIsSend(su: Setup, s: State, i: nat, c: Q.Call)
    requires S.ValidBlock(s.pipe.sender) && MayPost(s, i)
    ensures var m := FrameOf(c.response);
            && Post(su, s, i, c).calls == s.calls + [c]
            && if su.sendLimit != 0 && m.header.length > su.sendLimit then
                 Post(su, s, i, c).pipe == s.pipe && S.Send(s.pipe.sender, su.sendLimit, m) == s.pipe.sender
               else
                 && Post(su, s, i, c).pipe == P.Step(su.limit, s.pipe, P.Appended(i, m))
                 && P.SendSteps(su.limit, s.pipe, i, m).sender == S.Send(s.pipe.sender, su.sendLimit, m)
  {
    hide P.Step, P.SendSteps, FrameOf;
    if su.sendLimit == 0 || FrameOf(c.response).header.length <= su.sendLimit {
      P.SendIsSteps(su.limit, s.pipe, i, FrameOf(c.response), su.sendLimit);
    }
  }

  function Step(su: Setup, s: State, e: Event): State
    requires Enabled(su, s, e)
  {
    match e
    case Decoded(str, mine) =>
      var s' := s.(server := Q.Step(su.cfg, s.server, Q.Delivered(str)), mine := s.mine + [mine]);
      (match Decide(su.cfg.services.Keys, str)
       case RejectNow(status) =>
         if mine then Post(su, s', Reader(su), Q.Call(|s.server.arrived|, NewReject(status))) else s'
       case Enqueue(_) => s')
    case Taken(w) => s.(server := Q.Step(su.cfg, s.server, Q.Popped(w)))
    case Answered(w) =>
      var id, s' := s.server.workers[w].job.value, s.(server := Q.Step(su.cfg, s.server, Q.Finished(w)));
      var m := ValidRequest(s.server.arrived[id]).value;
      if id < |s.mine| && s.mine[id] then Post(su, s', w, Q.Call(id, XtraTask.Answer(su.cfg.pb, m))) else s'
    case OnConn(p) => s.(pipe := P.Step(su.limit, s.pipe, p))
  }

  predicate LegalRun(su: Setup, s: State, es: seq<Event>)
    decreases |es|
  {
    es == [] || (Enabled(su, s, es[0]) && LegalRun(su, Step(su, s, es[0]), es[1..]))
  }

  function Run(su: Setup, s: State, es: seq<Event>): State
    requires LegalRun(su, s, es)
    decreases |es|
  {
    if es == [] then s else Run(su, Step(su, s, es[0]), es[1..])
  }

  /** Both limits admit the response to this request. */
  predicate Admitted(su: Setup, str: Bytes) {
    var response := ResponseStr(ResponseFor(su.cfg, str));
    Fits(su.sendLimit, response) && Fits(su.limit, response)
  }

  predicate AllAdmitted(su: Setup, es: seq<Event>) {
    forall e | e in es && e.Decoded? && e.mine :: Admitted(su, e.str)
  }

  // ---------------------------------------------------------------------
  // The invariant
  // ---------------------------------------------------------------------

  function Times(calls: seq<Q.Call>, id: nat): nat {
    multiset(Q.Ids(calls))[id]
  }

  predicate Mine(s: State, id: nat) {
    id < |s.mine| && s.mine[id]
  }

  /** What was called for this connection is what the server rejected or answered of its requests. */
  ghost predicate CallsMatch(su: Setup, s: State) {
    && |s.mine| == |s.server.arrived|
    && (forall id: nat :: Times(s.calls, id)
          == if Mine(s, id) then Times(s.server.rejected, id) + Times(s.server.answered, id) else 0)
    && (forall c | c in s.calls ::
          Mine(s, c.id) && c.response == ResponseFor(su.cfg, s.server.arrived[c.id]))
    && (forall id: nat | Mine(s, id) :: Admitted(su, s.server.arrived[id]))
  }

  /** What is on its way to the client is the frames of these calls. */
  ghost predicate PipeMatches(su: Setup, s: State) {
    && P.Safe(su.limit, s.pipe) && P.Awake(s.pipe)
    && P.Messages(s.pipe.log) == Frames(s.calls)
    && AllWellFormed(su.limit, Frames(s.calls))
  }

  /** A worker that executes a request is not in `do_write`. */
  predicate Aligned(su: Setup, s: State) {
    && |s.pipe.workers| == |s.server.workers| + 1 == |su.executors| + 1
    && forall w | 0 <= w < |s.server.workers| && s.server.workers[w].job.Some? :: s.pipe.workers[w].Rest?
  }

  ghost predicate Composed(su: Setup, s: State) {
    && Q.ValidConfig(su.cfg) && |s.server.queues| == su.cfg.executors
    && Q.Conserved(s.server) && Q.Justified(su.cfg, s.server)
    && Aligned(su, s) && CallsMatch(su, s) && PipeMatches(su, s)
  }

  lemma IdsSnoc(calls: seq<Q.Call>, c: Q.Call, id: nat)
    ensures Times(calls + [c], id) == Times(calls, id) + (if c.id == id then 1 else 0)
  {
    assert Q.Ids(calls + [c]) == Q.Ids(calls) + [c.id];
  }

  /** A response that the limits admit goes out as one more frame. */
  lemma PostMatches(su: Setup, s: State, i: nat, c: Q.Call)
    requires PipeMatches(su, s) && S.ValidBlock(s.pipe.sender) && MayPost(s, i)
    requires Fits(su.sendLimit, ResponseStr(c.response)) && Fits(su.limit, ResponseStr(c.response))
    ensures PipeMatches(su, Post(su, s, i, c))
  {
    hide P.Safe, P.Awake, P.Step, ResponseStr;
    var frame, s' := FrameOf(c.response), Post(su, s, i, c);
    FrameFits(su.limit, ResponseStr(c.response));
    P.StepSafe(su.limit, s.pipe, P.Appended(i, frame));
    P.StepAwake(su.limit, s.pipe, P.Appended(i, frame));
    Appends(su.limit, s.pipe, i, frame);
    assert Frames(s'.calls) == Frames(s.calls) + [frame];
  }

  lemma Appends(limit: u32, p: P.State, i: nat, m: Message)
    requires P.Enabled(p, P.Appended(i, m))
    ensures P.Messages(P.Step(limit, p, P.Appended(i, m)).log) == P.Messages(p.log) + [m]
  {
    hide NetStr;
  }

  lemma OnConnMatches(su: Setup, s: State, p: P.Event)
    requires PipeMatches(su, s) && Enabled(su, s, OnConn(p))
    ensures PipeMatches(su, Step(su, s, OnConn(p)))
  {
    hide P.Safe, P.Awake, P.CleanEntry;
    P.StepSafe(su.limit, s.pipe, p);
    P.StepAwake(su.limit, s.pipe, p);
    LogKept(su.limit, s.pipe, p);
  }

  lemma LogKept(limit: u32, p: P.State, e: P.Event)
    requires P.Enabled(p, e) && !e.Appended?
    ensures P.Step(limit, p, e).log == p.log
  {
  }

  lemma DecodedMatches(su: Setup, s: State, str: Bytes, mine: bool)
    requires Composed(su, s) && Enabled(su, s, Decoded(str, mine)) && (mine ==> Admitted(su, str))
    ensures CallsMatch(su, Step(su, s, Decoded(str, mine))) && PipeMatches(su, Step(su, s, Decoded(str, mine)))
  {
    hide P.Step, P.Safe, P.Awake, ResponseStr, Q.Conserved, XtraTask.Answer, ValidRequest, NewReject, Frames, Times;
    var s', n := Step(su, s, Decoded(str, mine)), |s.server.arrived|;
    NotYetCalled(s, n);
    match Decide(su.cfg.services.Keys, str)
    case RejectNow(status) =>
      var c := Q.Call(n, NewReject(status));
      forall id: nat
        ensures Times(s.server.rejected + [c], id) == Times(s.server.rejected, id) + (if id == n then 1 else 0)
        ensures Times(s.calls + [c], id) == Times(s.calls, id) + (if id == n then 1 else 0)
      {
        IdsSnoc(s.server.rejected, c, id);
        IdsSnoc(s.calls, c, id);
      }
      if mine {
        PostMatches(su, s.(server := s'.server, mine := s'.mine), Reader(su), c);
      }
    case Enqueue(_) =>
  }

  /** A number not given out yet has no call. */
  lemma NotYetCalled(s: State, n: nat)
    requires Q.Conserved(s.server) && n == |s.server.arrived|
    ensures Times(s.server.rejected, n) == Times(s.server.answered, n) == 0
  {
    hide Q.Queued, Q.InExecution;
    Q.RangeOnce(n, n);
  }

  lemma AnsweredMatches(su: Setup, s: State, w: nat)
    requires Composed(su, s) && Enabled(su, s, Answered(w))
    ensures CallsMatch(su, Step(su, s, Answered(w))) && PipeMatches(su, Step(su, s, Answered(w)))
  {
    hide P.Step, P.Safe, P.Awake, ResponseStr, Q.Conserved, XtraTask.Answer, Frames, Times;
    var s' := Step(su, s, Answered(w));
    var n := s.server.workers[w].job.value;
    assert Q.MeantFor(su.cfg, s.server, n, s.server.workers[w].executor);
    var c := Q.Call(n, XtraTask.Answer(su.cfg.pb, ValidRequest(s.server.arrived[n]).value));
    assert c.response == ResponseFor(su.cfg, s.server.arrived[n]);
    forall id: nat
      ensures Times(s.server.answered + [c], id) == Times(s.server.answered, id) + (if id == n then 1 else 0)
      ensures Times(s.calls + [c], id) == Times(s.calls, id) + (if id == n then 1 else 0)
    {
      IdsSnoc(s.server.answered, c, id);
      IdsSnoc(s.calls, c, id);
    }
    if s.mine[n] {
      PostMatches(su, s.(server := s'.server), w, c);
    }
  }

  lemma StepAligned(su: Setup, s: State, e: Event)
    requires Aligned(su, s) && Enabled(su, s, e)
    ensures Aligned(su, Step(su, s, e))
  {
    hide P.CleanEntry, ResponseStr, XtraTask.Answer, ValidRequest, NewReject;
    match e
    case Decoded(_, _) =>
    case Taken(_) =>
    case Answered(_) =>
    case OnConn(p) => PcsKept(su.limit, s.pipe, p);
  }

  lemma PcsKept(limit: u32, p: P.State, e: P.Event)
    requires P.Enabled(p, e) && !e.Appended?
    ensures var p' := P.Step(limit, p, e);
            |p'.workers| == |p.workers| && forall i | 0 <= i < |p.workers| && p.workers[i].Rest? :: p'.workers[i].Rest?
  {
  }

  lemma StepComposed(su: Setup, s: State, e: Event)
    requires Composed(su, s) && Enabled(su, s, e) && AllAdmitted(su, [e])
    ensures Composed(su, Step(su, s, e))
  {
    hide P.Step, P.Safe, P.Awake, Q.Conserved, Q.Justified, Admitted, Q.Step, P.CleanEntry, Aligned;
    StepAligned(su, s, e);
    match e
    case Decoded(str, mine) =>
      assert e in [e];
      DecodedMatches(su, s, str, mine);
      ServerStep(su, s.server, Q.Delivered(str));
    case Taken(w) => ServerStep(su, s.server, Q.Popped(w)); TakenMatches(su, s, w);
    case Answered(w) => AnsweredMatches(su, s, w); ServerStep(su, s.server, Q.Finished(w));
    case OnConn(p) => OnConnMatches(su, s, p);
  }

  lemma TakenMatches(su: Setup, s: State, w: nat)
    requires Composed(su, s) && Enabled(su, s, Taken(w))
    ensures CallsMatch(su, Step(su, s, Taken(w))) && PipeMatches(su, Step(su, s, Taken(w)))
  {
    hide P.Safe, P.Awake, Q.Conserved, Q.Justified, Admitted;
  }

  lemma ServerStep(su: Setup, q: Q.State, e: Q.Event)
    requires Q.ValidConfig(su.cfg) && |q.queues| == su.cfg.executors && Q.Enabled(q, e)
    requires Q.Conserved(q) && Q.Justified(su.cfg, q)
    ensures var q' := Q.Step(su.cfg, q, e);
            |q'.queues| == su.cfg.executors && Q.Conserved(q') && Q.Justified(su.cfg, q')
  {
    hide Q.Conserved, Q.Justified, XtraTask.Answer, ValidRequest;
    Q.StepConserved(su.cfg, q, e);
    Q.StepJustified(su.cfg, q, e);
  }

  lemma {:induction false} RunComposed(su: Setup, s: State, es: seq<Event>)
    requires Composed(su, s) && LegalRun(su, s, es) && AllAdmitted(su, es)
    ensures Composed(su, Run(su, s, es))
    decreases |es|
  {
    hide Composed, Step, Enabled, Admitted;
    if es != [] {
      assert es[0] in es && AllAdmitted(su, [es[0]]) && AllAdmitted(su, es[1..]);
      StepComposed(su, s, es[0]);
      RunComposed(su, Step(su, s, es[0]), es[1..]);
    }
  }

  lemma InitComposed(su: Setup)
    requires Q.ValidConfig(su.cfg)
    ensures Composed(su, Init(su))
  {
    hide P.Safe, P.Awake, Q.Conserved, Q.Justified, Q.Queued, Q.InExecution;
    Q.NothingQueued(su.cfg.executors);
    Q.NothingInExecution(su.executors);
    Q.InitKept(su.cfg, su.executors);
    P.InitFlows(Server, su.limit, |su.executors| + 1);
    P.InitLog(Server, su.limit, |su.executors| + 1);
    assert P.Messages(Init(su).pipe.log) == [] == Frames([]);
    forall id: nat
      ensures Times([], id) == 0
    {
      assert Q.Ids([]) == [];
    }
  }

  // ---------------------------------------------------------------------
  // From request to decoded response
  // ---------------------------------------------------------------------

  /** Nothing is queued or executed, no thread is in `do_write` and nothing is on the wire. */
  predicate AllDone(s: State) {
    Q.Queued(s.server.queues) == multiset{} && Q.InExecution(s.server.workers) == multiset{} && P.Drained(s.pipe)
  }

  /** The k-th message at the client is the response to request `id`. */
  predicate IsResponse(su: Setup, s: State, id: nat, k: nat) {
    && id < |s.server.arrived| && k < |s.calls| && k < |s.pipe.reader.delivered| && s.calls[k].id == id
    && ResponseParse(s.pipe.reader.delivered[k].payload) == Some(ResponseFor(su.cfg, s.server.arrived[id]))
  }

  /** What has been decoded at the client so far are responses to different requests of this
      connection, each the one its request's bytes determine. */
  lemma OnlyOwnResponses(su: Setup, s: State)
    requires Composed(su, s)
    ensures |s.pipe.reader.delivered| <= |s.calls|
    ensures forall k | 0 <= k < |s.pipe.reader.delivered| ::
              Mine(s, s.calls[k].id) && IsResponse(su, s, s.calls[k].id, k)
    ensures forall i, j | 0 <= i < j < |s.calls| :: s.calls[i].id != s.calls[j].id
  {
    hide P.Safe, P.Awake, Q.Justified, ResponseStr, ResponseParse, ResponseFor, EncodeAll;
    hide P.Wire, P.InFlight, P.Pending;
    P.SafeDelivers(su.limit, s.pipe);
    var ds := s.pipe.reader.delivered;
    assert |Frames(s.calls)| == |s.calls|;
    forall k | 0 <= k < |ds|
      ensures Mine(s, s.calls[k].id) && IsResponse(su, s, s.calls[k].id, k)
    {
      assert s.calls[k] in s.calls && ds[k] == Frames(s.calls)[k];
      ResponseRoundTrip(s.calls[k].response, ds[k].payload);
    }
    forall i, j | 0 <= i < j < |s.calls|
      ensures s.calls[i].id != s.calls[j].id
    {
      CalledOnce(su, s, s.calls[i].id);
      if s.calls[i].id == s.calls[j].id {
        Q.CountedTwice(Q.Ids(s.calls), i, j);
      }
    }
  }

  lemma CalledOnce(su: Setup, s: State, id: nat)
    requires Q.Conserved(s.server) && CallsMatch(su, s)
    ensures Times(s.calls, id) <= 1
    ensures AllDone(s) && Mine(s, id) ==> Times(s.calls, id) == 1
  {
    hide Q.Queued, Q.InExecution, Admitted, P.Drained;
    Q.RangeOnce(|s.server.arrived|, id);
    var all := multiset(Q.Range(|s.server.arrived|));
    assert Times(s.server.rejected, id) + Times(s.server.answered, id) <= all[id];
  }

  /** Every request that comes on a connection gets exactly one response, decoded at the client.
      In every run of the dispatcher, the queues, any number of workers and the connection: what the
      client has decoded are the responses to different requests of this connection, each
      determined by its own request's bytes; and when everything is done, there is exactly one for
      each of them, if and only if the send buffer is empty (it can only hold a multiple of 2^32
      bytes then). */
  lemma EveryRequestAnswered(su: Setup, es: seq<Event>)
    requires Q.ValidConfig(su.cfg) && LegalRun(su, Init(su), es) && AllAdmitted(su, es)
    ensures var s := Run(su, Init(su), es);
            && |s.pipe.reader.delivered| <= |s.calls|
            && (forall k | 0 <= k < |s.pipe.reader.delivered| ::
                  Mine(s, s.calls[k].id) && IsResponse(su, s, s.calls[k].id, k))
            && (forall id: nat, i: nat, j: nat | IsResponse(su, s, id, i) && IsResponse(su, s, id, j) :: i == j)
            && (AllDone(s) ==>
                  && Truncate32(|s.pipe.sender.buffer|) == 0
                  && ((forall id: nat | Mine(s, id) :: exists k :: IsResponse(su, s, id, k))
                      <==> s.pipe.sender.buffer == []))
  {
    hide LegalRun, Run, Init, Q.Conserved, Q.Justified, P.Safe, P.Awake, AllDone, ResponseParse, ResponseFor, Frames,
         P.Messages, Admitted;
    InitComposed(su);
    RunComposed(su, Init(su), es);
    var s := Run(su, Init(su), es);
    OnlyOwnResponses(su, s);
    if AllDone(s) {
      AllDelivered(su, s);
      if s.pipe.sender.buffer == [] {
        forall id: nat | Mine(s, id)
          ensures exists k :: IsResponse(su, s, id, k)
        {
          CalledOnce(su, s, id);
          var k := Position(s.calls, id);
          assert IsResponse(su, s, id, k);
        }
      } else {
        var id := s.calls[|s.pipe.reader.delivered|].id;
        assert s.calls[|s.pipe.reader.delivered|] in s.calls && Mine(s, id);
        assert forall k :: !IsResponse(su, s, id, k);
      }
    }
  }

  lemma AllDelivered(su: Setup, s: State)
    requires PipeMatches(su, s) && AllDone(s)
    ensures Truncate32(|s.pipe.sender.buffer|) == 0
    ensures |s.pipe.reader.delivered| <= |s.calls|
    ensures |s.pipe.reader.delivered| == |s.calls| <==> s.pipe.sender.buffer == []
  {
    hide P.Safe, P.Awake, P.Drained, P.Wire, P.InFlight, P.Pending, EncodeAll, FrameOf, WellFormed;
    P.DrainedDelivers(su.limit, s.pipe);
    P.SafeDelivers(su.limit, s.pipe);
    assert |P.Messages(s.pipe.log)| == |Frames(s.calls)|;
  }

  lemma Position(calls: seq<Q.Call>, id: nat) returns (k: nat)
    requires Times(calls, id) > 0
    ensures k < |calls| && calls[k].id == id
  {
    var ids := Q.Ids(calls);
    assert id in ids;
    k :| k < |ids| && ids[k] == id;
  }

  /** The guard on answering is never in the way: in every reachable state a worker that executes a
      request can answer it. */
  lemma AnswerNeverBlocked(su: Setup, es: seq<Event>, w: nat)
    requires Q.ValidConfig(su.cfg) && LegalRun(su, Init(su), es) && AllAdmitted(su, es)
    ensures var s := Run(su, Init(su), es);
            w < |s.server.workers| && s.server.workers[w].job.Some? ==> Enabled(su, s, Answered(w))
  {
    hide *;
    InitComposed(su);
    RunComposed(su, Init(su), es);
    CanAnswer(su, Run(su, Init(su), es), w);
  }

  lemma CanAnswer(su: Setup, s: State, w: nat)
    requires Composed(su, s)
    ensures w < |s.server.workers| && s.server.workers[w].job.Some? ==> Enabled(su, s, Answered(w))
  {
    hide Q.Conserved, P.Safe, P.Awake, CallsMatch, XtraTask.Answer, RequestParse, AllWellFormed, P.Messages, Frames;
    P.SafeValid(su.limit, s.pipe);
    if w < |s.server.workers| && s.server.workers[w].job.Some? {
      assert Q.MeantFor(su.cfg, s.server, s.server.workers[w].job.value, s.server.workers[w].executor);
    }
  }
}
