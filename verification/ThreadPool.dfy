/** The thread pool of src/ge/thread/ThreadPool.cpp. A step is what one thread does between
    taking the lock of the condition m_cond and releasing it, at a wait or at the end. */
module ThreadPool {

  datatype Task = Task(runnable: nat, autoDelete: bool)

  datatype Config = Config(minThreads: nat, maxThreads: nat, timeout: nat, queueMax: nat)

  /** The fields guarded by m_cond. */
  datatype Shared = Shared(shutdown: bool, running: nat, idle: nat, queue: seq<Task>)

  /** execute waits while this holds. */
  predicate Full(c: Config, s: Shared) {
    c.queueMax != 0 && !s.shutdown && |s.queue| == c.queueMax
  }

  predicate Spawns(c: Config, s: Shared) {
    !s.shutdown && s.idle == 0 && s.running < c.maxThreads
  }

  function Executed(c: Config, s: Shared, task: Task): Shared {
    if s.shutdown then s
    else s.(queue := s.queue + [task], running := s.running + if Spawns(c, s) then 1 else 0)
  }

  /** What a worker does at the end of its turn in getNextWorkItem. */
  datatype Verdict = Sleep | Take | Retire

  predicate Timed(c: Config, forbidTimeout: bool) {
    !(c.timeout == 0 || forbidTimeout)
  }

  function Decide(s: Shared, timed: bool, timeLeft: nat): (v: Verdict)
    ensures v == Take ==> s.queue != []
  {
    if !s.shutdown && s.queue == [] && (timed ==> timeLeft > 0) then Sleep
    else if !s.shutdown && timeLeft > 0 then Take
    else Retire
  }

  /** The time left when a worker enters getNextWorkItem, and after a wait. */
  function FullTime(c: Config, timed: bool): nat {
    if timed then c.timeout else 1
  }

  function TimeAfter(timed: bool, timeLeft: nat, waited: nat): nat {
    if !timed then timeLeft else if waited > timeLeft then 0 else timeLeft - waited
  }

  function Settled(s: Shared, v: Verdict): Shared
    requires v == Take ==> s.queue != []
    requires v == Retire ==> s.running > 0
  {
    match v
    case Sleep => s.(idle := s.idle + 1)
    case Take => s.(queue := s.queue[1..])
    case Retire => s.(running := s.running - 1)
  }

  class ThreadPool {
    const config: Config
    var shutdown: bool
    var runningThreads: nat
    var idleThreads: nat
    var workQueue: seq<Task>

    function State(): Shared
      reads this
    {
      Shared(shutdown, runningThreads, idleThreads, workQueue)
    }

    constructor (config: Config)
      ensures this.config == config && State() == Shared(false, 0, 0, [])
    {
      this.config := config;
      shutdown, runningThreads, idleThreads, workQueue := false, 0, 0, [];
    }

    /** execute, once its wait for room is over. `spawned` says that a thread was started and
        `minThread` with which flag, `signalled` that every waiting thread was signalled; the
        result is false whether or not the task was added. */
    method Execute(task: Task) returns (ret: bool, spawned: bool, minThread: bool, signalled: bool)
      requires config.queueMax != 0 && |workQueue| == config.queueMax ==> shutdown
      modifies this
      ensures State() == Executed(config, old(State()), task) && !ret
      ensures spawned <==> !old(shutdown) && old(idleThreads) == 0 && old(runningThreads) < config.maxThreads
      ensures runningThreads == old(runningThreads) + if spawned then 1 else 0
      ensures workQueue == if old(shutdown) then old(workQueue) else old(workQueue) + [task]
      ensures shutdown == old(shutdown) && idleThreads == old(idleThreads)
      ensures minThread <==> old(runningThreads) < config.minThreads
      ensures signalled <==> !old(shutdown) && !spawned
    {
      ret, spawned, signalled := false, false, false;
      minThread := runningThreads < config.minThreads;
      if !shutdown {
        workQueue := workQueue + [task];
        if idleThreads == 0 && runningThreads < config.maxThreads {
          runningThreads := runningThreads + 1;
          spawned := true;
        } else {
          signalled := true;
        }
      }
    }

    /** One turn of a worker in getNextWorkItem: from its entry, or from the end of a wait that
        took `waited`, to the next wait or to the return. */
    method GetNextWorkItem(forbidTimeout: bool, resumed: bool, left: nat, waited: nat)
      returns (verdict: Verdict, timeLeft: nat, ret: seq<Task>, signalled: bool)
      requires resumed ==> idleThreads > 0
      requires runningThreads > 0
      modifies this
      ensures shutdown == old(shutdown)
      ensures var timed := config.timeout != 0 && !forbidTimeout;
        && timeLeft == (if !resumed then (if timed then config.timeout else 1)
                        else if !timed then left
                        else if waited <= left then left - waited else 0)
        && (verdict == Sleep <==> !shutdown && old(workQueue) == [] && (timed ==> timeLeft > 0))
        && (verdict == Take <==> !shutdown && old(workQueue) != [] && timeLeft > 0)
      ensures workQueue == (if verdict == Take then old(workQueue)[1..] else old(workQueue))
      ensures runningThreads == old(runningThreads) - if verdict == Retire then 1 else 0
      ensures idleThreads ==
        old(idleThreads) - (if resumed then 1 else 0) + (if verdict == Sleep then 1 else 0)
      ensures timeLeft == var timed := Timed(config, forbidTimeout);
        if resumed then TimeAfter(timed, left, waited) else FullTime(config, timed)
      ensures var awake := old(State()).(idle := if resumed then old(idleThreads) - 1 else old(idleThreads));
        && verdict == Decide(awake, Timed(config, forbidTimeout), timeLeft)
        && (verdict == Take ==> awake.queue != [] && ret == [awake.queue[0]])
        && (verdict != Take ==> ret == [])
        && State() == Settled(awake, verdict)
      ensures signalled <==> verdict != Sleep
    {
      ret, signalled := [], false;
      if resumed {
        idleThreads := idleThreads - 1;
      }
      if config.timeout == 0 || forbidTimeout {
        timeLeft := if resumed then left else 1;
        if !shutdown && |workQueue| == 0 {
          idleThreads := idleThreads + 1;
          return Sleep, timeLeft, [], false;
        }
      } else {
        timeLeft := config.timeout;
        if resumed {
          if waited > left {
            timeLeft := 0;
          } else {
            timeLeft := left - waited;
          }
        }
        if !shutdown && |workQueue| == 0 && timeLeft > 0 {
          idleThreads := idleThreads + 1;
          return Sleep, timeLeft, [], false;
        }
      }
      if !shutdown && timeLeft > 0 {
        ret := [workQueue[0]];
        workQueue := workQueue[1..];
        verdict := Take;
      } else {
        runningThreads := runningThreads - 1;
        verdict := Retire;
      }
      signalled := true;
    }
  }

  // ---- Every run ----

  /** A worker is about to enter getNextWorkItem, inside a wait there, or running the task
      accepted as number `id`. */
  datatype Phase = Entering | Waiting(timeLeft: nat) | Working(id: nat)

  datatype Worker = Worker(minThread: bool, phase: Phase)

  /** The shared fields, the live workers, the number of workers ever started, all accepted
      tasks in order, how many were started, and the numbers of those that ran to the end. */
  datatype Pool = Pool(
    s: Shared, workers: map<nat, Worker>, born: nat,
    accepted: seq<Task>, started: nat, finished: set<nat>)

  const EMPTY := Pool(Shared(false, 0, 0, []), map[], 0, [], 0, {})

  /** Submit is execute by any thread; Shutdown is the assignment of the flag, in shutdown or
      behind the first loop of shutdownWhenEmpty. */
  datatype Step = Submit(task: Task) | Turn(w: nat, waited: nat) | Finish(w: nat) | Shutdown

  /** ThreadPoolTask::run passes the negated flag as forbidTimeout. */
  predicate IsTimed(c: Config, worker: Worker) {
    Timed(c, !worker.minThread)
  }

  predicate Enabled(c: Config, p: Pool, step: Step) {
    match step
    case Submit(_) => !Full(c, p.s)
    case Turn(w, _) => w in p.workers && !p.workers[w].phase.Working?
    case Finish(w) => w in p.workers && p.workers[w].phase.Working?
    case Shutdown => true
  }

  function Awake(p: Pool, worker: Worker): Shared {
    if worker.phase.Waiting? && p.s.idle > 0 then p.s.(idle := p.s.idle - 1) else p.s
  }

  function TimeLeft(c: Config, worker: Worker, waited: nat): nat {
    if worker.phase.Waiting? then TimeAfter(IsTimed(c, worker), worker.phase.timeLeft, waited)
    else FullTime(c, IsTimed(c, worker))
  }

  function Submitted(c: Config, p: Pool, task: Task): Pool {
    if p.s.shutdown then p
    else
      var q := p.(s := Executed(c, p.s, task), accepted := p.accepted + [task]);
      if Spawns(c, p.s)
      then q.(workers := q.workers[p.born := Worker(p.s.running < c.minThreads, Entering)], born := p.born + 1)
      else q
  }

  function Turned(c: Config, p: Pool, w: nat, waited: nat): Pool
    requires w in p.workers && p.s.running > 0
  {
    var worker := p.workers[w];
    var awake, timeLeft := Awake(p, worker), TimeLeft(c, worker, waited);
    var verdict := Decide(awake, IsTimed(c, worker), timeLeft);
    var q := p.(s := Settled(awake, verdict));
    match verdict
    case Sleep => q.(workers := p.workers[w := worker.(phase := Waiting(timeLeft))])
    case Take => q.(workers := p.workers[w := worker.(phase := Working(p.started))], started := p.started + 1)
    case Retire => q.(workers := p.workers - {w})
  }

  function Next(c: Config, p: Pool, step: Step): Pool
    requires Inv(c, p) && Enabled(c, p, step)
  {
    match step
    case Submit(task) => Submitted(c, p, task)
    case Turn(w, waited) => SomeWorker(p.workers, w); Turned(c, p, w, waited)
    case Finish(w) =>
      p.(workers := p.workers[w := p.workers[w].(phase := Entering)],
         finished := p.finished + {p.workers[w].phase.id})
    case Shutdown => p.(s := p.s.(shutdown := true))
  }

  function Sleepers(workers: map<nat, Worker>): set<nat> {
    set w | w in workers && workers[w].phase.Waiting?
  }

  ghost predicate Counted(c: Config, p: Pool) {
    && p.s.running == |p.workers| && p.s.running <= c.maxThreads
    && p.s.idle == |Sleepers(p.workers)|
    && (forall w :: w in p.workers ==> w < p.born)
    && (c.queueMax != 0 ==> |p.s.queue| <= c.queueMax)
  }

  /** Accepted tasks are the disjoint union of the queued, the running and the finished:
      numbers from `started` on are queued in order, and each lower number is either finished
      or run by exactly one worker. */
  ghost predicate Conserved(p: Pool) {
    && p.started <= |p.accepted| && p.s.queue == p.accepted[p.started..]
    && (forall w :: w in p.workers && p.workers[w].phase.Working? ==>
          p.workers[w].phase.id < p.started && p.workers[w].phase.id !in p.finished)
    && (forall v, w :: (v in p.workers && w in p.workers && v != w && p.workers[v].phase.Working?)
                       ==> p.workers[w].phase != p.workers[v].phase)
    && (forall id :: id in p.finished ==> id < p.started)
    && (forall id: nat :: id < p.started && id !in p.finished ==> exists w :: RunsTask(p, w, id))
  }

  ghost predicate RunsTask(p: Pool, w: nat, id: nat) {
    w in p.workers && p.workers[w].phase == Working(id)
  }

  ghost predicate Inv(c: Config, p: Pool) {
    Counted(c, p) && Conserved(p)
  }

  lemma SomeWorker(workers: map<nat, Worker>, w: nat)
    requires w in workers
    ensures |workers| > 0
  {
    assert workers.Keys != {};
  }

  lemma SubmitCounts(c: Config, p: Pool, task: Task)
    requires Counted(c, p) && !Full(c, p.s)
    ensures Counted(c, Submitted(c, p, task))
  {
    var q := Submitted(c, p, task);
    if !p.s.shutdown && Spawns(c, p.s) {
      assert q.workers.Keys == p.workers.Keys + {p.born};
      assert Sleepers(q.workers) == Sleepers(p.workers);
    } else {
      assert q.workers == p.workers;
    }
  }

  /** Both counts when one worker goes, or changes its phase. */
  lemma WorkerGoes(workers: map<nat, Worker>, w: nat)
    requires w in workers
    ensures |workers - {w}| == |workers| - 1
    ensures |Sleepers(workers - {w})| == |Sleepers(workers)| - if workers[w].phase.Waiting? then 1 else 0
  {
    assert Sleepers(workers - {w}) == Sleepers(workers) - {w};
    assert (workers - {w}).Keys == workers.Keys - {w};
  }

  lemma WorkerChanges(workers: map<nat, Worker>, w: nat, worker: Worker)
    requires w in workers
    ensures |workers[w := worker]| == |workers|
    ensures |Sleepers(workers[w := worker])| == |Sleepers(workers - {w})| + if worker.phase.Waiting? then 1 else 0
  {
    var rest := Sleepers(workers - {w});
    assert w !in rest;
    if worker.phase.Waiting? {
      assert Sleepers(workers[w := worker]) == rest + {w};
    } else {
      assert Sleepers(workers[w := worker]) == rest;
    }
    assert workers[w := worker].Keys == workers.Keys;
  }

  lemma TurnCounts(c: Config, p: Pool, w: nat, waited: nat)
    requires Counted(c, p) && Enabled(c, p, Turn(w, waited)) && p.s.running > 0
    ensures Counted(c, Turned(c, p, w, waited))
  {
    assert p.workers[w].phase.Waiting? ==> w in Sleepers(p.workers);
    WorkerGoes(p.workers, w);
    WorkerChanges(p.workers, w, p.workers[w].(phase := Waiting(TimeLeft(c, p.workers[w], waited))));
    WorkerChanges(p.workers, w, p.workers[w].(phase := Working(p.started)));
    hide Decide, TimeLeft, IsTimed, Sleepers;
  }

  lemma TurnConserves(c: Config, p: Pool, w: nat, waited: nat)
    requires Conserved(p) && Enabled(c, p, Turn(w, waited)) && p.s.running > 0
    ensures Conserved(Turned(c, p, w, waited))
  {
    var q := Turned(c, p, w, waited);
    forall id: nat | id < q.started && id !in q.finished
      ensures exists v :: RunsTask(q, v, id)
    {
      if id == p.started {
        assert RunsTask(q, w, id);
      } else {
        var v :| RunsTask(p, v, id);
        assert RunsTask(q, v, id);
      }
    }
  }

  lemma FinishConserves(c: Config, p: Pool, w: nat)
    requires Inv(c, p) && Enabled(c, p, Finish(w))
    ensures Inv(c, Next(c, p, Finish(w)))
  {
    var q := Next(c, p, Finish(w));
    assert Sleepers(q.workers) == Sleepers(p.workers) && q.workers.Keys == p.workers.Keys;
    forall id: nat | id < q.started && id !in q.finished
      ensures exists v :: RunsTask(q, v, id)
    {
      var v :| RunsTask(p, v, id);
      assert RunsTask(q, v, id);
    }
  }

  lemma SubmitConserves(c: Config, p: Pool, task: Task)
    requires Inv(c, p)
    ensures Conserved(Submitted(c, p, task))
  {
    var q := Submitted(c, p, task);
    forall id: nat | id < q.started && id !in q.finished
      ensures exists v :: RunsTask(q, v, id)
    {
      var v :| RunsTask(p, v, id);
      assert RunsTask(q, v, id);
    }
  }

  lemma InvStep(c: Config, p: Pool, step: Step)
    requires Inv(c, p) && Enabled(c, p, step)
    ensures Inv(c, Next(c, p, step))
  {
    match step
    case Submit(task) =>
      SubmitCounts(c, p, task);
      SubmitConserves(c, p, task);
    case Turn(w, waited) =>
      SomeWorker(p.workers, w);
      TurnCounts(c, p, w, waited);
      TurnConserves(c, p, w, waited);
    case Finish(w) =>
      FinishConserves(c, p, w);
    case Shutdown =>
      var q := Next(c, p, Shutdown);
      assert Sleepers(q.workers) == Sleepers(p.workers);
      forall id: nat | id < q.started && id !in q.finished
        ensures exists v :: RunsTask(q, v, id)
      {
        var v :| RunsTask(p, v, id);
        assert RunsTask(q, v, id);
      }
  }

  ghost predicate IsRun(c: Config, p: Pool, steps: seq<Step>)
    requires Inv(c, p)
    decreases |steps|
  {
    steps == [] ||
    (Enabled(c, p, steps[0]) && (InvStep(c, p, steps[0]); IsRun(c, Next(c, p, steps[0]), steps[1..])))
  }

  ghost function After(c: Config, p: Pool, steps: seq<Step>): (e: Pool)
    requires Inv(c, p) && IsRun(c, p, steps)
    ensures Inv(c, e)
    decreases |steps|
  {
    if steps == [] then p
    else
      InvStep(c, p, steps[0]);
      After(c, Next(c, p, steps[0]), steps[1..])
  }

  lemma EmptyInv(c: Config)
    ensures Inv(c, EMPTY)
  {
    assert Sleepers(EMPTY.workers) == {};
  }

  // ---- Order ----

  /** Whatever happens in between, a task is started only after all that were accepted before
      it, never again, and acceptance and completion are never undone. */
  lemma {:induction false} RunIsMonotone(c: Config, p: Pool, steps: seq<Step>)
    requires Inv(c, p) && IsRun(c, p, steps)
    ensures var e := After(c, p, steps);
      && p.accepted <= e.accepted && p.started <= e.started && p.finished <= e.finished
      && (forall w: nat, id: nat :: RunsTask(e, w, id) && id < p.started ==> RunsTask(p, w, id))
      && (p.s.shutdown ==> e.s.shutdown && e.accepted == p.accepted && e.started == p.started)
    decreases |steps|
  {
    if steps != [] {
      var q := Next(c, p, steps[0]);
      InvStep(c, p, steps[0]);
      StepIsMonotone(c, p, steps[0]);
      hide Inv, Next, Enabled, RunsTask;
      RunIsMonotone(c, q, steps[1..]);
    }
  }

  lemma StepIsMonotone(c: Config, p: Pool, step: Step)
    requires Inv(c, p) && Enabled(c, p, step)
    ensures var e := Next(c, p, step);
      && p.accepted <= e.accepted && p.started <= e.started && p.finished <= e.finished
      && (forall w: nat, id: nat :: RunsTask(e, w, id) && id < p.started ==> RunsTask(p, w, id))
      && (p.s.shutdown ==> e.s.shutdown && e.accepted == p.accepted && e.started == p.started)
  {
  }

  // ---- Shutdown ----

  /** No live worker: every task that was started has finished, and the queue holds exactly
      the others. */
  lemma Retired(c: Config, p: Pool)
    requires Inv(c, p) && p.s.running == 0
    ensures p.workers == map[]
    ensures forall id: nat :: id < p.started <==> id in p.finished
    ensures p.accepted == p.accepted[..p.started] + p.s.queue
  {
    assert p.workers.Keys == {};
    forall id: nat | id < p.started ensures id in p.finished {
      assert forall w: nat :: !RunsTask(p, w, id);
    }
  }

  /** shutdownWhenEmpty finds the queue empty in state `p`, shuts down, and returns in state
      `e` with no thread running: every task ever accepted has then run to the end, and
      nothing was accepted after `p`. */
  lemma ShutdownWhenEmptyReturns(c: Config, before: seq<Step>, steps: seq<Step>)
    requires Inv(c, EMPTY) && IsRun(c, EMPTY, before)
    requires After(c, EMPTY, before).s.queue == []
    requires var p := After(c, EMPTY, before);
      var q := Next(c, p, Shutdown);
      Inv(c, q) && IsRun(c, q, steps) && After(c, q, steps).s.running == 0
    ensures var p := After(c, EMPTY, before);
      var e := After(c, Next(c, p, Shutdown), steps);
      && e.workers == map[] && e.s.queue == []
      && e.accepted == p.accepted
      && e.started == |e.accepted|
      && (forall id: nat :: id < |e.accepted| <==> id in e.finished)
  {
    var p := After(c, EMPTY, before);
    var q := Next(c, p, Shutdown);
    RunIsMonotone(c, q, steps);
    Retired(c, After(c, q, steps));
  }

  // ---- Is a queued task always served? ----

  /** Some live worker will come for what is queued. */
  predicate Served(p: Pool) {
    p.s.queue != [] && !p.s.shutdown ==> p.s.running > 0
  }

  /** No worker can time out: either no timeout is set or no worker is one of the minimum,
      which are the ones that getNextWorkItem times. */
  predicate NeverTimesOut(c: Config) {
    c.maxThreads > 0 && (c.timeout == 0 || c.minThreads == 0)
  }

  ghost predicate Staffed(c: Config, p: Pool) {
    && (!p.s.shutdown && p.accepted != [] ==> p.s.running > 0)
    && (forall w :: w in p.workers ==> !IsTimed(c, p.workers[w]))
    && (forall w :: w in p.workers && p.workers[w].phase.Waiting? ==> p.workers[w].phase.timeLeft > 0)
  }

  lemma StaffedStep(c: Config, p: Pool, step: Step)
    requires NeverTimesOut(c) && Inv(c, p) && Staffed(c, p) && Enabled(c, p, step)
    ensures Staffed(c, Next(c, p, step))
  {
    if step.Submit? && p.s.running == 0 {
      assert Sleepers(p.workers) == {};
    }
  }

  lemma {:induction false} StaffedRun(c: Config, p: Pool, steps: seq<Step>)
    requires NeverTimesOut(c) && Inv(c, p) && Staffed(c, p) && IsRun(c, p, steps)
    ensures Served(After(c, p, steps))
    decreases |steps|
  {
    if steps == [] {
      assert p.s.queue != [] ==> p.accepted != [];
    } else {
      StaffedStep(c, p, steps[0]);
      InvStep(c, p, steps[0]);
      StaffedRun(c, Next(c, p, steps[0]), steps[1..]);
    }
  }

  lemma RunCons(c: Config, p: Pool, step: Step, rest: seq<Step>)
    requires Inv(c, p) && Enabled(c, p, step) && Inv(c, Next(c, p, step)) && IsRun(c, Next(c, p, step), rest)
    ensures IsRun(c, p, [step] + rest)
    ensures After(c, p, [step] + rest) == After(c, Next(c, p, step), rest)
  {
    assert ([step] + rest)[1..] == rest;
  }

  /** In every other configuration some run leaves a task queued with no worker alive. */
  lemma Stranded(c: Config) returns (steps: seq<Step>)
    requires !NeverTimesOut(c)
    ensures Inv(c, EMPTY) && IsRun(c, EMPTY, steps) && !Served(After(c, EMPTY, steps))
  {
    EmptyInv(c);
    hide Counted, Conserved;
    var task := Task(0, false);
    var one := Next(c, EMPTY, Submit(task));
    InvStep(c, EMPTY, Submit(task));
    if c.maxThreads == 0 {
      RunCons(c, EMPTY, Submit(task), []);
      steps := [Submit(task)] + [];
    } else {
      var two := Next(c, one, Turn(0, 0));
      InvStep(c, one, Turn(0, 0));
      var three := Next(c, two, Finish(0));
      InvStep(c, two, Finish(0));
      var four := Next(c, three, Turn(0, 0));
      InvStep(c, three, Turn(0, 0));
      var five := Next(c, four, Submit(task));
      InvStep(c, four, Submit(task));
      var six := Next(c, five, Turn(0, c.timeout));
      InvStep(c, five, Turn(0, c.timeout));
      assert six.s.queue == [task] && six.s.running == 0;
      hide Inv, Next, Enabled;
      RunCons(c, five, Turn(0, c.timeout), []);
      RunCons(c, four, Submit(task), [Turn(0, c.timeout)] + []);
      RunCons(c, three, Turn(0, 0), [Submit(task)] + ([Turn(0, c.timeout)] + []));
      RunCons(c, two, Finish(0), [Turn(0, 0)] + ([Submit(task)] + ([Turn(0, c.timeout)] + [])));
      RunCons(c, one, Turn(0, 0), [Finish(0)] + ([Turn(0, 0)] + ([Submit(task)] + ([Turn(0, c.timeout)] + []))));
      steps := [Submit(task)] + ([Turn(0, 0)] + ([Finish(0)] + ([Turn(0, 0)] + ([Submit(task)] + ([Turn(0, c.timeout)] + [])))));
      RunCons(c, EMPTY, Submit(task), steps[1..]);
    }
  }

  /** A queued task has a live worker in every state of every run exactly when the
      configuration allows a thread and lets none time out. */
  lemma ServedExactly(c: Config)
    ensures Inv(c, EMPTY)
    ensures (forall steps :: IsRun(c, EMPTY, steps) ==> Served(After(c, EMPTY, steps))) <==> NeverTimesOut(c)
  {
    EmptyInv(c);
    if NeverTimesOut(c) {
      forall steps | IsRun(c, EMPTY, steps) ensures Served(After(c, EMPTY, steps)) {
        StaffedRun(c, EMPTY, steps);
      }
    } else {
      var steps := Stranded(c);
    }
  }
}
