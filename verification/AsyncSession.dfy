/** Asynchronous calls against the server as a whole: what the handler is told. */
module AsyncSession {
  import opened Bytes
  import opened Framing
  import opened NetConn
  import opened RpcCodec
  import opened Dispatch
  import opened AsyncClient
  import opened RequestOrder
  import XtraTask
  import Served
  import Session
  import C = Composition
  import P = Pipeline
  import Q = Requests
  import R = Receiver

  /** What the handler should be told about request `id`. */
  function ReportFor(cfg: Q.Config, arrived: seq<Bytes>, id: nat): Report {
    HandlerView(C.ResponseFor(cfg, if id < |arrived| then arrived[id] else []))
  }

  function ReportsFor(cfg: Q.Config, arrived: seq<Bytes>, ids: seq<nat>): seq<Report> {
    seq(|ids|, i requires 0 <= i < |ids| => ReportFor(cfg, arrived, ids[i]))
  }

  /** Requests counted at most as often have reports counted at most as often. */
  lemma {:induction false} FewerReports(cfg: Q.Config, arrived: seq<Bytes>, a: seq<nat>, b: seq<nat>)
    requires multiset(a) <= multiset(b)
    ensures multiset(ReportsFor(cfg, arrived, a)) <= multiset(ReportsFor(cfg, arrived, b))
    decreases |a|
  {
    hide ReportsFor, ReportFor, Without;
    if a == [] {
      NoReports(cfg, arrived);
    } else {
      assert a[0] in multiset(b);
      var p :| 0 <= p < |b| && b[p] == a[0];
      WithoutFewer(a, b, p);
      FewerReports(cfg, arrived, Without(a, 0), Without(b, p));
      OneReport(cfg, arrived, a, 0);
      OneReport(cfg, arrived, b, p);
    }
  }

  lemma NoReports(cfg: Q.Config, arrived: seq<Bytes>)
    ensures ReportsFor(cfg, arrived, []) == []
  {
  }

  function Without(ids: seq<nat>, p: nat): seq<nat>
    requires p < |ids|
  {
    ids[..p] + ids[p + 1..]
  }

  lemma WithoutFewer(a: seq<nat>, b: seq<nat>, p: nat)
    requires a != [] && p < |b| && b[p] == a[0] && multiset(a) <= multiset(b)
    ensures |Without(a, 0)| == |a| - 1 && multiset(Without(a, 0)) <= multiset(Without(b, p))
  {
    assert Without(a, 0) == a[1..] && a == [a[0]] + a[1..];
    assert b == b[..p] + [b[p]] + b[p + 1..];
    assert multiset(Without(a, 0)) == multiset(a) - multiset{a[0]};
    assert multiset(Without(b, p)) == multiset(b) - multiset{a[0]};
  }

  lemma OneReport(cfg: Q.Config, arrived: seq<Bytes>, ids: seq<nat>, p: nat)
    requires p < |ids|
    ensures multiset(ReportsFor(cfg, arrived, ids))
         == multiset(ReportsFor(cfg, arrived, Without(ids, p))) + multiset{ReportFor(cfg, arrived, ids[p])}
  {
    hide ReportFor;
    var x, y := ReportsFor(cfg, arrived, ids[..p]), ReportsFor(cfg, arrived, ids[p + 1..]);
    assert ReportsFor(cfg, arrived, ids) == x + [ReportFor(cfg, arrived, ids[p])] + y;
    assert ReportsFor(cfg, arrived, Without(ids, p)) == x + y;
  }

  function ResponsesOf(calls: seq<Q.Call>): seq<ResponseMessage> {
    seq(|calls|, i requires 0 <= i < |calls| => calls[i].response)
  }

  /** The views of the responses sent are the reports for the requests they belong to. */
  lemma ViewsAreReports(su: C.Setup, s: C.State)
    requires C.CallsMatch(su, s)
    ensures Frames(ResponsesOf(s.calls)) == C.Frames(s.calls)
    ensures Views(ResponsesOf(s.calls)) == ReportsFor(su.cfg, s.server.arrived, Q.Ids(s.calls))
    ensures Admitted(su.limit, ResponsesOf(s.calls)) == |s.calls|
    ensures forall r | r in ResponsesOf(s.calls) :: |ResponseStr(r)| < TWO_TO_32
  {
    hide ResponseStr, HandlerView, C.ResponseFor, C.Times;
    var rs := ResponsesOf(s.calls);
    forall k | 0 <= k < |rs|
      ensures rs[k] == C.ResponseFor(su.cfg, s.server.arrived[s.calls[k].id]) && Fits(su.limit, ResponseStr(rs[k]))
    {
      assert s.calls[k] in s.calls;
    }
    AllFit(su.limit, rs);
  }

  lemma {:induction false} AllFit(limit: u32, rs: seq<ResponseMessage>)
    requires forall k | 0 <= k < |rs| :: Fits(limit, ResponseStr(rs[k]))
    ensures Admitted(limit, rs) == |rs|
  {
    hide ResponseStr;
    if rs != [] {
      AllFit(limit, rs[1..]);
    }
  }

  /** A request of the connection has at most one call, any other has none. */
  lemma CallsAmongOwn(su: C.Setup, s: C.State)
    requires C.Composed(su, s)
    ensures multiset(Q.Ids(s.calls)) <= multiset(OwnIds(s.mine))
    ensures C.AllDone(s) ==> multiset(Q.Ids(s.calls)) == multiset(OwnIds(s.mine))
  {
    hide Q.Conserved, Q.Justified, C.PipeMatches, C.Admitted, C.AllDone, OwnIds;
    var calls, own := multiset(Q.Ids(s.calls)), multiset(OwnIds(s.mine));
    forall id: nat
      ensures calls[id] <= own[id] && (C.AllDone(s) ==> calls[id] == own[id])
    {
      OwnOnce(s.mine, id);
      C.CalledOnce(su, s, id);
      assert calls[id] == C.Times(s.calls, id);
    }
  }

  lemma {:induction false} OwnOnce(mine: seq<bool>, id: nat)
    ensures multiset(OwnIds(mine))[id] == if id < |mine| && mine[id] then 1 else 0
  {
    if mine != [] {
      var n := |mine| - 1;
      OwnOnce(mine[..n], id);
      CountAppend(OwnIds(mine[..n]), if mine[n] then [n] else [], id);
      if id < n {
        assert mine[..n][id] == mine[id];
      }
    }
  }

  lemma CountAppend(a: seq<nat>, b: seq<nat>, id: nat)
    ensures multiset(a + b)[id] == multiset(a)[id] + multiset(b)[id]
  {
  }

  /** Any number of asynchronous calls on one connection, against dispatcher, queues and any number
      of workers. Whatever happens to the client and however far it has come, the handler has been
      told about different requests of the connection, of each what its bytes determine, in the
      order in which the server answered. When the server has answered everything and the client
      has received it without errors, the handler has been told about every request exactly once.
      If, and as long as, the server calls the oldest request first, this is in request order. */
  lemma HandlerReports(su: C.Setup, es: seq<C.Event>, client: seq<R.Event>)
    requires Q.ValidConfig(su.cfg) && C.LegalRun(su, C.Init(su), es) && C.AllAdmitted(su, es)
    requires R.LegalRun(su.limit, Client, R.Start(su.limit), client)
    requires R.Received(client) <= C.Run(su, C.Init(su), es).pipe.emitted
    ensures var s := C.Run(su, C.Init(su), es);
            var reports := Reports(R.Run(su.limit, Client, R.Start(su.limit), client).delivered);
            var all := ReportsFor(su.cfg, s.server.arrived, OwnIds(s.mine));
            && reports <= ReportsFor(su.cfg, s.server.arrived, Q.Ids(s.calls))
            && multiset(reports) <= multiset(all)
            && (InOrder(s) ==> reports <= all)
            && (C.AllDone(s) && s.pipe.sender.buffer == []
                && R.ErrorFree(client) && R.Received(client) == s.pipe.emitted ==>
                  multiset(reports) == multiset(all))
  {
    hide *;
    C.InitComposed(su);
    C.RunComposed(su, C.Init(su), es);
    ReportsAt(su, C.Run(su, C.Init(su), es), client);
  }

  lemma ReportsAt(su: C.Setup, s: C.State, client: seq<R.Event>)
    requires C.Composed(su, s)
    requires R.LegalRun(su.limit, Client, R.Start(su.limit), client) && R.Received(client) <= s.pipe.emitted
    ensures var reports := Reports(R.Run(su.limit, Client, R.Start(su.limit), client).delivered);
            var all := ReportsFor(su.cfg, s.server.arrived, OwnIds(s.mine));
            && reports <= ReportsFor(su.cfg, s.server.arrived, Q.Ids(s.calls))
            && multiset(reports) <= multiset(all)
            && (InOrder(s) ==> reports <= all)
            && (C.AllDone(s) && s.pipe.sender.buffer == []
                && R.ErrorFree(client) && R.Received(client) == s.pipe.emitted ==>
                  multiset(reports) == multiset(all))
  {
    hide R.Run, R.LegalRun, R.Received, Reports, Views, Frames, C.Frames, Admitted, EncodeAll, OwnIds, ReportFor,
         C.CallsMatch, P.Safe, P.Awake, P.Messages, ResponsesOf, ResponseStr, C.AllDone, Q.Conserved, Q.Justified;
    var reports := Reports(R.Run(su.limit, Client, R.Start(su.limit), client).delivered);
    var rs, ids, own := ResponsesOf(s.calls), Q.Ids(s.calls), OwnIds(s.mine);
    var told := ReportsFor(su.cfg, s.server.arrived, ids);
    ViewsAreReports(su, s);
    P.SafePrefix(su.limit, s.pipe);
    SessionReports(su.limit, rs, client);
    assert rs[..|s.calls|] == rs by { RsLength(s.calls); }
    CallsAmongOwn(su, s);
    FewerReports(su.cfg, s.server.arrived, ids, own);
    PrefixCounts(reports, told);
    if C.AllDone(s) && s.pipe.sender.buffer == [] {
      AllEmitted(su, s);
      FewerReports(su.cfg, s.server.arrived, own, ids);
    }
  }

  lemma RsLength(calls: seq<Q.Call>)
    ensures |ResponsesOf(calls)| == |calls|
  {
  }

  lemma PrefixCounts(a: seq<Report>, b: seq<Report>)
    requires a <= b
    ensures multiset(a) <= multiset(b)
  {
    assert b == a + b[|a|..];
  }

  lemma AllEmitted(su: C.Setup, s: C.State)
    requires C.PipeMatches(su, s) && C.AllDone(s) && s.pipe.sender.buffer == []
    ensures s.pipe.emitted == EncodeAll(C.Frames(s.calls))
  {
    hide P.Safe, P.Drained, EncodeAll, P.Messages, C.Frames;
    P.DrainedEmits(su.limit, s.pipe);
  }

  // ---------------------------------------------------------------------
  // In terms of the calls
  // ---------------------------------------------------------------------

  datatype Args = Args(serviceId: u16, opcode: u16, payload: Bytes)

  /** What the handler is told about a call, in terms of the registered services and what the one
      service makes of the payload. */
  function CallReport(cfg: Q.Config, c: Args): Report {
    if c.payload == [] then Report(INVALID_REQUEST, NO_ID, NO_ID, [])
    else if c.serviceId !in cfg.services then Report(INVALID_SERVICE, NO_ID, NO_ID, [])
    else
      var r := XtraTask.Answer(cfg.pb, NewRequest(c.serviceId, c.opcode, c.payload));
      if r.header.status == STATUS_OK then Report(Session.OK, c.serviceId, c.opcode, r.payload)
      else Report(INVALID_REQUEST, NO_ID, NO_ID, [])
  }

  function CallReports(cfg: Q.Config, calls: seq<Args>): seq<Report> {
    seq(|calls|, i requires 0 <= i < |calls| => CallReport(cfg, calls[i]))
  }

  function CallStr(c: Args): Bytes {
    Session.RequestOf(c.serviceId, c.opcode, c.payload)
  }

  lemma CallReportRight(cfg: Q.Config, c: Args)
    ensures HandlerView(C.ResponseFor(cfg, CallStr(c))) == CallReport(cfg, c)
  {
    hide RequestStr, RequestParse;
    var m := NewRequest(c.serviceId, c.opcode, c.payload);
    RequestRoundTrip(m, RequestStr(m));
    Served.AnswerReadsIds(cfg.pb, m, m);
  }

  /** The requests of the connection are these calls, in this order. */
  predicate Carries(s: C.State, calls: seq<Args>) {
    && |OwnIds(s.mine)| == |calls|
    && forall i | 0 <= i < |calls| ::
         OwnIds(s.mine)[i] < |s.server.arrived| && s.server.arrived[OwnIds(s.mine)[i]] == CallStr(calls[i])
  }

  /** When all is done, every call has been reported to the handler exactly once: with OK, its ids
      and its reply, or with the status of its rejection. They come in the order of the calls if the
      server has kept it. */
  lemma AllCallsReported(su: C.Setup, es: seq<C.Event>, client: seq<R.Event>, calls: seq<Args>)
    requires Q.ValidConfig(su.cfg) && C.LegalRun(su, C.Init(su), es) && C.AllAdmitted(su, es)
    requires Carries(C.Run(su, C.Init(su), es), calls)
    requires R.ErrorFree(client) && R.LegalRun(su.limit, Client, R.Start(su.limit), client)
    requires R.Received(client) == C.Run(su, C.Init(su), es).pipe.emitted
    ensures var s := C.Run(su, C.Init(su), es);
            var reports := Reports(R.Run(su.limit, Client, R.Start(su.limit), client).delivered);
            C.AllDone(s) && s.pipe.sender.buffer == [] ==>
              && multiset(reports) == multiset(CallReports(su.cfg, calls))
              && (InOrder(s) ==> reports == CallReports(su.cfg, calls))
  {
    hide *;
    HandlerReports(su, es, client);
    CarriedReports(su.cfg, C.Run(su, C.Init(su), es), calls);
    var reports := Reports(R.Run(su.limit, Client, R.Start(su.limit), client).delivered);
    SameCount(reports, CallReports(su.cfg, calls));
  }

  lemma CarriedReports(cfg: Q.Config, s: C.State, calls: seq<Args>)
    requires Carries(s, calls)
    ensures ReportsFor(cfg, s.server.arrived, OwnIds(s.mine)) == CallReports(cfg, calls)
  {
    hide CallReport, HandlerView, C.ResponseFor, OwnIds, CallStr;
    forall i | 0 <= i < |calls|
      ensures ReportFor(cfg, s.server.arrived, OwnIds(s.mine)[i]) == CallReport(cfg, calls[i])
    {
      CallReportRight(cfg, calls[i]);
    }
  }

  lemma SameCount(a: seq<Report>, b: seq<Report>)
    ensures a <= b && multiset(a) == multiset(b) ==> a == b
  {
    if a <= b && multiset(a) == multiset(b) {
      assert |multiset(a)| == |a| && |multiset(b)| == |b|;
    }
  }
}
