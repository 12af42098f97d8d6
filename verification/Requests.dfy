/** Every request is answered once: dispatcher, queues and any number of workers as a step system
    over request numbers. The decisions and answers are those of `Dispatch` and `XtraTask`. */
module Requests {
  import opened Bytes
  import opened RpcCodec
  import opened XtraTask
  import opened Dispatch

  /** The executor registered for each service id, and the service's message library. */
  datatype Config = Config(services: map<u16, nat>, executors: nat, pb: Protobuf)

  datatype Worker = Worker(executor: nat, job: Option<nat>)

  /** One call of `reply_rpc_message` or `reject`. */
  datatype Call = Call(id: nat, response: ResponseMessage)

  /** Requests are numbered as they arrive. */
  datatype State = State(arrived: seq<Bytes>, queues: seq<seq<nat>>, workers: seq<Worker>,
                         rejected: seq<Call>, answered: seq<Call>)

  datatype Event = Delivered(str: Bytes) | Popped(w: nat) | Finished(w: nat)

  predicate ValidConfig(cfg: Config) {
    forall id | id in cfg.services :: cfg.services[id] < cfg.executors
  }

  function Init(cfg: Config, workers: seq<nat>): State {
    State([], NoQueues(cfg.executors), IdleWorkers(workers), [], [])
  }

  function NoQueues(n: nat): seq<seq<nat>> {
    seq(n, _ => [])
  }

  /** Worker i serves executor `executors[i]`. */
  function IdleWorkers(executors: seq<nat>): seq<Worker> {
    seq(|executors|, i requires 0 <= i < |executors| => Worker(executors[i], None))
  }

  predicate Enabled(s: State, e: Event) {
    match e
    case Delivered(_) => true
    case Popped(w) =>
      && w < |s.workers| && s.workers[w].job.None?
      && s.workers[w].executor < |s.queues| && s.queues[s.workers[w].executor] != []
    case Finished(w) =>
      && w < |s.workers| && s.workers[w].job.Some? && s.workers[w].job.value < |s.arrived|
      && ValidRequest(s.arrived[s.workers[w].job.value]).Some?
  }

  function Step(cfg: Config, s: State, e: Event): State
    requires ValidConfig(cfg) && |s.queues| == cfg.executors && Enabled(s, e)
  {
    match e
    case Delivered(str) =>
      var s', id := s.(arrived := s.arrived + [str]), |s.arrived|;
      (match Decide(cfg.services.Keys, str)
       case RejectNow(status) => s'.(rejected := s.rejected + [Call(id, NewReject(status))])
       case Enqueue(m) =>
         var x := cfg.services[m.header.serviceId];
         s'.(queues := s.queues[x := s.queues[x] + [id]]))
    case Popped(w) =>
      var x := s.workers[w].executor;
      s.(queues := s.queues[x := s.queues[x][1..]],
         workers := s.workers[w := Worker(x, Some(s.queues[x][0]))])
    case Finished(w) =>
      var id := s.workers[w].job.value;
      s.(workers := s.workers[w := Worker(s.workers[w].executor, None)],
         answered := s.answered + [Call(id, Answer(cfg.pb, ValidRequest(s.arrived[id]).value))])
  }

  predicate LegalRun(cfg: Config, s: State, es: seq<Event>)
    decreases |es|
  {
    ValidConfig(cfg) && |s.queues| == cfg.executors &&
    (es == [] || (Enabled(s, es[0]) && LegalRun(cfg, Step(cfg, s, es[0]), es[1..])))
  }

  function Run(cfg: Config, s: State, es: seq<Event>): State
    requires LegalRun(cfg, s, es)
    decreases |es|
  {
    if es == [] then s else Run(cfg, Step(cfg, s, es[0]), es[1..])
  }

  // ---------------------------------------------------------------------
  // Where the requests are
  // ---------------------------------------------------------------------

  function Range(n: nat): seq<nat> {
    seq(n, i => i)
  }

  function Ids(calls: seq<Call>): seq<nat> {
    seq(|calls|, i requires 0 <= i < |calls| => calls[i].id)
  }

  function Queued(queues: seq<seq<nat>>): multiset<nat> {
    if queues == [] then multiset{} else multiset(queues[0]) + Queued(queues[1..])
  }

  function Job(w: Worker): multiset<nat> {
    if w.job.Some? then multiset{w.job.value} else multiset{}
  }

  function InExecution(workers: seq<Worker>): multiset<nat> {
    if workers == [] then multiset{} else Job(workers[0]) + InExecution(workers[1..])
  }

  lemma {:induction false} QueuedPush(queues: seq<seq<nat>>, x: nat, id: nat)
    requires x < |queues|
    ensures Queued(queues[x := queues[x] + [id]]) == Queued(queues) + multiset{id}
  {
    var queues' := queues[x := queues[x] + [id]];
    if x == 0 {
      assert queues'[1..] == queues[1..];
    } else {
      QueuedPush(queues[1..], x - 1, id);
      assert queues'[1..] == queues[1..][x - 1 := queues[1..][x - 1] + [id]];
    }
  }

  lemma {:induction false} QueuedPop(queues: seq<seq<nat>>, x: nat)
    requires x < |queues| && queues[x] != []
    ensures Queued(queues) == Queued(queues[x := queues[x][1..]]) + multiset{queues[x][0]}
  {
    var queues' := queues[x := queues[x][1..]];
    if x == 0 {
      assert queues'[1..] == queues[1..];
      assert queues[0] == [queues[0][0]] + queues[0][1..];
    } else {
      QueuedPop(queues[1..], x - 1);
      assert queues'[1..] == queues[1..][x - 1 := queues[1..][x - 1][1..]];
    }
  }

  lemma {:induction false} JobTaken(workers: seq<Worker>, w: nat, v: Worker)
    requires w < |workers| && workers[w].job.None?
    ensures InExecution(workers[w := v]) == InExecution(workers) + Job(v)
  {
    if w == 0 {
      assert workers[0 := v][1..] == workers[1..];
    } else {
      JobTaken(workers[1..], w - 1, v);
      assert workers[w := v][1..] == workers[1..][w - 1 := v];
    }
  }

  lemma JobDone(workers: seq<Worker>, w: nat, v: Worker)
    requires w < |workers| && v.job.None?
    ensures InExecution(workers) == InExecution(workers[w := v]) + Job(workers[w])
  {
    JobTaken(workers[w := v], w, workers[w]);
    assert workers[w := v][w := workers[w]] == workers;
  }

  /** The request numbers handed out are, each once, those rejected, queued, executed or answered. */
  predicate Conserved(s: State) {
    multiset(Range(|s.arrived|))
    == multiset(Ids(s.rejected)) + multiset(Ids(s.answered)) + Queued(s.queues) + InExecution(s.workers)
  }

  /** Request `id` was meant for executor `x`. */
  predicate MeantFor(cfg: Config, s: State, id: nat, x: nat) {
    && id < |s.arrived|
    && var d := Decide(cfg.services.Keys, s.arrived[id]);
       d.Enqueue? && cfg.services[d.m.header.serviceId] == x
  }

  /** Every request is where its own bytes send it, and every response follows from them. */
  ghost predicate Justified(cfg: Config, s: State) {
    && (forall c | c in s.rejected ::
          c.id < |s.arrived| && var d := Decide(cfg.services.Keys, s.arrived[c.id]);
          d.RejectNow? && c.response == NewReject(d.status))
    && (forall c | c in s.answered ::
          c.id < |s.arrived| && var d := Decide(cfg.services.Keys, s.arrived[c.id]);
          d.Enqueue? && c.response == Answer(cfg.pb, d.m))
    && (forall x, k | 0 <= x < |s.queues| && 0 <= k < |s.queues[x]| :: MeantFor(cfg, s, s.queues[x][k], x))
    && (forall w | 0 <= w < |s.workers| && s.workers[w].job.Some? ::
          MeantFor(cfg, s, s.workers[w].job.value, s.workers[w].executor))
  }

  lemma DeliveredConserved(cfg: Config, s: State, str: Bytes)
    requires ValidConfig(cfg) && |s.queues| == cfg.executors && Conserved(s)
    ensures Conserved(Step(cfg, s, Delivered(str)))
  {
    hide ValidRequest, NewReject, Queued, InExecution;
    var s', id := Step(cfg, s, Delivered(str)), |s.arrived|;
    assert Range(|s'.arrived|) == Range(id) + [id];
    match Decide(cfg.services.Keys, str)
    case RejectNow(status) =>
      assert Ids(s'.rejected) == Ids(s.rejected) + [id];
    case Enqueue(m) =>
      QueuedPush(s.queues, cfg.services[m.header.serviceId], id);
  }

  lemma PoppedConserved(cfg: Config, s: State, w: nat)
    requires ValidConfig(cfg) && |s.queues| == cfg.executors && Enabled(s, Popped(w)) && Conserved(s)
    ensures Conserved(Step(cfg, s, Popped(w)))
  {
    hide Queued, InExecution, Range, Ids;
    var x := s.workers[w].executor;
    QueuedPop(s.queues, x);
    JobTaken(s.workers, w, Worker(x, Some(s.queues[x][0])));
  }

  lemma FinishedConserved(cfg: Config, s: State, w: nat)
    requires ValidConfig(cfg) && |s.queues| == cfg.executors && Enabled(s, Finished(w)) && Conserved(s)
    ensures Conserved(Step(cfg, s, Finished(w)))
  {
    hide ValidRequest, Answer, Queued, InExecution, Range;
    var s' := Step(cfg, s, Finished(w));
    JobDone(s.workers, w, Worker(s.workers[w].executor, None));
    assert Ids(s'.answered) == Ids(s.answered) + [s.workers[w].job.value];
  }

  lemma StepConserved(cfg: Config, s: State, e: Event)
    requires ValidConfig(cfg) && |s.queues| == cfg.executors && Enabled(s, e) && Conserved(s)
    ensures Conserved(Step(cfg, s, e))
  {
    hide Step, Conserved;
    match e
    case Delivered(str) => DeliveredConserved(cfg, s, str);
    case Popped(w) => PoppedConserved(cfg, s, w);
    case Finished(w) => FinishedConserved(cfg, s, w);
  }

  lemma StepJustified(cfg: Config, s: State, e: Event)
    requires ValidConfig(cfg) && |s.queues| == cfg.executors && Enabled(s, e) && Justified(cfg, s)
    ensures Justified(cfg, Step(cfg, s, e))
  {
    hide Answer, NewReject, RequestParse;
  }

  lemma {:induction false} RunKeeps(cfg: Config, s: State, es: seq<Event>)
    requires LegalRun(cfg, s, es) && Conserved(s) && Justified(cfg, s)
    ensures Conserved(Run(cfg, s, es)) && Justified(cfg, Run(cfg, s, es))
    decreases |es|
  {
    hide Conserved, Justified, Step;
    if es != [] {
      StepConserved(cfg, s, es[0]);
      StepJustified(cfg, s, es[0]);
      RunKeeps(cfg, Step(cfg, s, es[0]), es[1..]);
    }
  }

  lemma {:induction false} NothingQueued(n: nat)
    ensures Queued(NoQueues(n)) == multiset{}
  {
    if n > 0 {
      NothingQueued(n - 1);
      assert NoQueues(n)[1..] == NoQueues(n - 1);
    }
  }

  lemma {:induction false} NothingInExecution(executors: seq<nat>)
    ensures InExecution(IdleWorkers(executors)) == multiset{}
  {
    if executors != [] {
      NothingInExecution(executors[1..]);
      assert IdleWorkers(executors)[1..] == IdleWorkers(executors[1..]);
    }
  }

  lemma {:induction false} RangeOnce(n: nat, id: nat)
    ensures multiset(Range(n))[id] == (if id < n then 1 else 0)
  {
    if n > 0 {
      RangeOnce(n - 1, id);
      assert Range(n) == Range(n - 1) + [n - 1];
    }
  }

  lemma CountedTwice(ids: seq<nat>, i: nat, j: nat)
    requires i < j < |ids| && ids[i] == ids[j]
    ensures multiset(ids)[ids[i]] >= 2
  {
    assert ids == ids[..i] + [ids[i]] + ids[i + 1..j] + [ids[j]] + ids[j + 1..];
  }

  /** For every run of the dispatcher, the queues and any number of workers: the requests
      delivered are those rejected at dispatch, queued, in execution and answered, each counted
      once; no request has two calls of reply or reject; and each call's response is the one the
      request's own bytes determine. */
  lemma RequestConservation(cfg: Config, workers: seq<nat>, es: seq<Event>)
    requires LegalRun(cfg, Init(cfg, workers), es)
    ensures var s := Run(cfg, Init(cfg, workers), es);
            && Conserved(s)
            && Justified(cfg, s)
            && |s.arrived| == |s.rejected| + |Queued(s.queues)| + |InExecution(s.workers)| + |s.answered|
            && (var calls := s.rejected + s.answered;
                && (forall i, j | 0 <= i < j < |calls| :: calls[i].id != calls[j].id)
                && (Queued(s.queues) == multiset{} && InExecution(s.workers) == multiset{} ==>
                      |calls| == |s.arrived|))
  {
    hide LegalRun, Run, Justified, Decide, Answer;
    NothingQueued(cfg.executors);
    NothingInExecution(workers);
    InitKept(cfg, workers);
    var s0 := Init(cfg, workers);
    RunKeeps(cfg, s0, es);
    var s := Run(cfg, s0, es);
    assert |multiset(Range(|s.arrived|))| == |s.arrived|;
    var calls := s.rejected + s.answered;
    assert Ids(calls) == Ids(s.rejected) + Ids(s.answered);
    forall i, j | 0 <= i < j < |calls|
      ensures calls[i].id != calls[j].id
    {
      if calls[i].id == calls[j].id {
        assert multiset(Ids(calls))[calls[i].id] <= multiset(Range(|s.arrived|))[calls[i].id];
        RangeOnce(|s.arrived|, calls[i].id);
        CountedTwice(Ids(calls), i, j);
      }
    }
  }

  lemma InitKept(cfg: Config, workers: seq<nat>)
    requires Queued(Init(cfg, workers).queues) == multiset{} == InExecution(Init(cfg, workers).workers)
    ensures Conserved(Init(cfg, workers)) && Justified(cfg, Init(cfg, workers))
  {
    assert Ids([]) == [] == Range(0);
  }

  /** The conditions under which a step is enabled are never in the way: in every reachable state a
      busy worker can finish, and an idle one can take a request queued for its executor. */
  lemma WorkersNeverBlocked(cfg: Config, workers: seq<nat>, es: seq<Event>, w: nat)
    requires LegalRun(cfg, Init(cfg, workers), es)
    ensures var s := Run(cfg, Init(cfg, workers), es);
            w < |s.workers| ==>
              if s.workers[w].job.Some? then Enabled(s, Finished(w))
              else s.workers[w].executor < |s.queues| && s.queues[s.workers[w].executor] != [] ==>
                Enabled(s, Popped(w))
  {
    hide LegalRun, Run, Conserved, Step, ValidRequest, Answer;
    NothingQueued(cfg.executors);
    NothingInExecution(workers);
    InitKept(cfg, workers);
    RunKeeps(cfg, Init(cfg, workers), es);
  }

  // ---------------------------------------------------------------------
  // The oldest request of a service is taken first
  // ---------------------------------------------------------------------

  /** Request `id` is older than all that wait for executor `x`. */
  predicate OlderThanWaiting(s: State, id: nat, x: nat) {
    x < |s.queues| ==> forall k | 0 <= k < |s.queues[x]| :: id < s.queues[x][k]
  }

  /** Requests wait in the order in which they arrived, and those that have been taken, whether they
      are in execution or answered, are older than all that wait for the same executor. */
  ghost predicate OldestTaken(cfg: Config, s: State) {
    && (forall x, k, l | 0 <= x < |s.queues| && 0 <= k < l < |s.queues[x]| :: s.queues[x][k] < s.queues[x][l])
    && (forall w | 0 <= w < |s.workers| && s.workers[w].job.Some? ::
          OlderThanWaiting(s, s.workers[w].job.value, s.workers[w].executor))
    && (forall c, x | c in s.answered && MeantFor(cfg, s, c.id, x) :: OlderThanWaiting(s, c.id, x))
  }

  lemma DeliveredOldest(cfg: Config, s: State, str: Bytes)
    requires ValidConfig(cfg) && |s.queues| == cfg.executors && Justified(cfg, s) && OldestTaken(cfg, s)
    ensures OldestTaken(cfg, Step(cfg, s, Delivered(str)))
  {
    hide Answer, NewReject, RequestParse, ValidRequest;
    var s' := Step(cfg, s, Delivered(str));
    forall c, x | c in s'.answered && MeantFor(cfg, s', c.id, x)
      ensures MeantFor(cfg, s, c.id, x)
    {
      assert c.id < |s.arrived| && s'.arrived[c.id] == s.arrived[c.id];
    }
    forall x, k | 0 <= x < |s.queues| && 0 <= k < |s.queues[x]|
      ensures s.queues[x][k] < |s.arrived|
    {
      assert MeantFor(cfg, s, s.queues[x][k], x);
    }
    forall w | 0 <= w < |s.workers| && s.workers[w].job.Some?
      ensures s.workers[w].job.value < |s.arrived|
    {
      assert MeantFor(cfg, s, s.workers[w].job.value, s.workers[w].executor);
    }
  }

  lemma PoppedOldest(cfg: Config, s: State, w: nat)
    requires ValidConfig(cfg) && |s.queues| == cfg.executors && Enabled(s, Popped(w)) && OldestTaken(cfg, s)
    ensures OldestTaken(cfg, Step(cfg, s, Popped(w)))
  {
    hide Decide;
    var s', x := Step(cfg, s, Popped(w)), s.workers[w].executor;
    assert forall k | 0 <= k < |s'.queues[x]| :: s'.queues[x][k] == s.queues[x][k + 1];
    forall id: nat, y: nat | OlderThanWaiting(s, id, y)
      ensures OlderThanWaiting(s', id, y)
    {
    }
    assert OlderThanWaiting(s', s.queues[x][0], x);
    forall c, y | c in s'.answered && MeantFor(cfg, s', c.id, y)
      ensures OlderThanWaiting(s', c.id, y)
    {
      assert MeantFor(cfg, s, c.id, y);
    }
  }

  lemma FinishedOldest(cfg: Config, s: State, w: nat)
    requires ValidConfig(cfg) && |s.queues| == cfg.executors && Enabled(s, Finished(w))
    requires Justified(cfg, s) && OldestTaken(cfg, s)
    ensures OldestTaken(cfg, Step(cfg, s, Finished(w)))
  {
    hide Answer, ValidRequest, NewReject;
    var s', id := Step(cfg, s, Finished(w)), s.workers[w].job.value;
    assert MeantFor(cfg, s, id, s.workers[w].executor);
    forall c, x | c in s'.answered && MeantFor(cfg, s', c.id, x)
      ensures OlderThanWaiting(s', c.id, x)
    {
      assert MeantFor(cfg, s, c.id, x);
      assert c in s.answered || c.id == id;
    }
  }

  lemma {:induction false} RunTakesOldest(cfg: Config, s: State, es: seq<Event>)
    requires LegalRun(cfg, s, es) && Justified(cfg, s) && OldestTaken(cfg, s)
    ensures OldestTaken(cfg, Run(cfg, s, es))
    decreases |es|
  {
    hide Justified, OldestTaken, Step, Enabled;
    if es != [] {
      match es[0] {
        case Delivered(str) => DeliveredOldest(cfg, s, str);
        case Popped(w) => PoppedOldest(cfg, s, w);
        case Finished(w) => FinishedOldest(cfg, s, w);
      }
      StepJustified(cfg, s, es[0]);
      RunTakesOldest(cfg, Step(cfg, s, es[0]), es[1..]);
    }
  }

  /** A worker serves the same executor all its life. */
  lemma {:induction false} WorkersStay(cfg: Config, s: State, es: seq<Event>)
    requires LegalRun(cfg, s, es)
    ensures var s' := Run(cfg, s, es);
            && |s'.workers| == |s.workers|
            && forall w | 0 <= w < |s.workers| :: s'.workers[w].executor == s.workers[w].executor
    decreases |es|
  {
    hide Decide, Answer, ValidRequest;
    if es != [] {
      WorkersStay(cfg, Step(cfg, s, es[0]), es[1..]);
    }
  }

  /** In every run, and for any number of workers, a service's requests are taken by its own workers
      and in the order in which they arrived: none waits that is older than one already taken. */
  lemma OldestFirst(cfg: Config, workers: seq<nat>, es: seq<Event>)
    requires LegalRun(cfg, Init(cfg, workers), es)
    ensures var s := Run(cfg, Init(cfg, workers), es);
            && OldestTaken(cfg, s)
            && |s.workers| == |workers| && forall w | 0 <= w < |workers| :: s.workers[w].executor == workers[w]
  {
    hide LegalRun, Run, Justified, OldestTaken, Conserved;
    WorkersStay(cfg, Init(cfg, workers), es);
    NothingQueued(cfg.executors);
    NothingInExecution(workers);
    InitKept(cfg, workers);
    InitOldest(cfg, workers);
    RunTakesOldest(cfg, Init(cfg, workers), es);
  }

  lemma InitOldest(cfg: Config, workers: seq<nat>)
    ensures OldestTaken(cfg, Init(cfg, workers))
  {
  }
}
