/** When the thread pool of src/ge/thread/ThreadPool.cpp starts a worker, and when a worker that waits
    for a task gives up, over all runs. */
module ThreadPoolStaffing {
  import opened P = ThreadPool

  predicate NobodyWaits(p: Pool) {
    forall w :: w in p.workers ==> !p.workers[w].phase.Waiting?
  }

  /** An accepted task brings a new worker exactly when no worker waits for a task and fewer than the
      maximum live; nobody else is touched. */
  lemma SpawnsExactly(c: Config, p: Pool, task: Task)
    requires Inv(c, p) && Enabled(c, p, Submit(task))
    ensures var q := Next(c, p, Submit(task));
      if p.s.shutdown then q == p
      else
        && q.accepted == p.accepted + [task] && q.started == p.started && q.finished == p.finished
        && if NobodyWaits(p) && |p.workers| < c.maxThreads
           then q.workers == p.workers[p.born := Worker(|p.workers| < c.minThreads, Entering)] && p.born !in p.workers
           else q.workers == p.workers
  {
    NoSleepers(p);
    hide Conserved, Sleepers;
  }

  lemma NoSleepers(p: Pool)
    ensures |Sleepers(p.workers)| == 0 <==> NobodyWaits(p)
  {
    if |Sleepers(p.workers)| == 0 {
      assert forall w :: w in p.workers && p.workers[w].phase.Waiting? ==> w in Sleepers(p.workers);
    } else {
      assert Sleepers(p.workers) != {};
    }
  }

  /** A submission has to wait exactly when there is a limit and as many tasks are accepted but not
      started. */
  lemma WaitsForRoomExactly(c: Config, p: Pool, task: Task)
    requires Inv(c, p)
    ensures !Enabled(c, p, Submit(task)) <==>
      c.queueMax > 0 && !p.s.shutdown && |p.accepted| - p.started == c.queueMax
  {
    assert |p.s.queue| == |p.accepted| - p.started;
    hide Counted, Conserved;
  }

  function Submits(steps: seq<Step>): nat
    decreases |steps|
  {
    if steps == [] then 0 else (if steps[0].Submit? then 1 else 0) + Submits(steps[1..])
  }

  /** Tasks are submitted and taken, and nothing else happens: no task ends, and no worker that looks
      for one comes away without. */
  ghost predicate Busy(c: Config, p: Pool, steps: seq<Step>)
    requires Inv(c, p) && IsRun(c, p, steps)
    decreases |steps|
  {
    steps == [] ||
    (InvStep(c, p, steps[0]);
     var q := Next(c, p, steps[0]);
     && (steps[0].Submit? || (steps[0].Turn? && steps[0].w in q.workers && q.workers[steps[0].w].phase.Working?))
     && Busy(c, q, steps[1..]))
  }

  function Min(a: nat, b: nat): nat {
    if a < b then a else b
  }

  lemma BusyStep(c: Config, p: Pool, step: Step)
    requires Inv(c, p) && Enabled(c, p, step) && NobodyWaits(p) && !p.s.shutdown
    requires step.Submit? || step.Turn?
    requires step.Turn? ==> step.w in Next(c, p, step).workers && Next(c, p, step).workers[step.w].phase.Working?
    ensures var q := Next(c, p, step);
      && NobodyWaits(q) && !q.s.shutdown
      && |q.workers| == if step.Submit? && |p.workers| < c.maxThreads then |p.workers| + 1 else |p.workers|
  {
    InvStep(c, p, step);
    if step.Submit? {
      SpawnsExactly(c, p, step.task);
      hide Inv, Next;
    } else {
      hide Conserved;
    }
  }

  lemma {:induction false} BusyRun(c: Config, p: Pool, steps: seq<Step>)
    requires Inv(c, p) && IsRun(c, p, steps) && Busy(c, p, steps)
    requires NobodyWaits(p) && !p.s.shutdown && |p.workers| <= c.maxThreads
    ensures |After(c, p, steps).workers| == Min(|p.workers| + Submits(steps), c.maxThreads)
    decreases |steps|
  {
    hide Inv, Next, Enabled, NobodyWaits;
    if steps != [] {
      InvStep(c, p, steps[0]);
      BusyStep(c, p, steps[0]);
      BusyRun(c, Next(c, p, steps[0]), steps[1..]);
    }
  }

  /** While nobody finishes or waits, n submissions leave a worker for each of them, up to the
      maximum. */
  lemma WorkerForEach(c: Config, steps: seq<Step>)
    requires Inv(c, EMPTY) && IsRun(c, EMPTY, steps) && Busy(c, EMPTY, steps)
    ensures |After(c, EMPTY, steps).workers| == Min(Submits(steps), c.maxThreads)
  {
    NoneYet();
    hide Inv, Next, Enabled, IsRun, After, Busy, NobodyWaits, Submits;
    BusyRun(c, EMPTY, steps);
  }

  lemma NoneYet()
    ensures NobodyWaits(EMPTY) && !EMPTY.s.shutdown && |EMPTY.workers| == 0
  {
  }

  // ---- How long a worker waits ----

  /** The waits of worker `w` since it last began to look for a task, over a run. */
  ghost function Slept(c: Config, p: Pool, steps: seq<Step>, w: nat, before: nat): nat
    requires Inv(c, p) && IsRun(c, p, steps)
    decreases |steps|
  {
    if steps == [] then before
    else
      InvStep(c, p, steps[0]);
      Slept(c, Next(c, p, steps[0]), steps[1..], w, SleptStep(p, steps[0], w, before))
  }

  function SleptStep(p: Pool, step: Step, w: nat, before: nat): nat {
    if step.Turn? && step.w == w && w in p.workers then
      (if p.workers[w].phase.Waiting? then before + step.waited else 0)
    else before
  }

  /** Only the minimum threads are timed, as the flag is passed negated. */
  predicate MayTimeOut(c: Config, worker: Worker) {
    c.timeout > 0 && worker.minThread
  }

  predicate AddsUp(c: Config, p: Pool, w: nat, slept: nat) {
    w in p.workers && p.workers[w].phase.Waiting? && MayTimeOut(c, p.workers[w]) ==>
      p.workers[w].phase.timeLeft + slept == c.timeout && slept < c.timeout
  }

  /** One turn of a worker that waits or begins to look for a task. It gives up exactly after a
      shutdown or when its waits have come to the timeout, whatever is queued; it waits on for the
      rest of the time; and untimed it never gives up before a shutdown. */
  lemma TurnExactly(c: Config, p: Pool, w: nat, waited: nat, slept: nat)
    requires Inv(c, p) && Enabled(c, p, Turn(w, waited)) && AddsUp(c, p, w, slept)
    requires p.workers[w].phase.Waiting? ==> p.workers[w].phase.timeLeft > 0
    ensures var q, total := Next(c, p, Turn(w, waited)), SleptStep(p, Turn(w, waited), w, slept);
      if p.s.shutdown || (MayTimeOut(c, p.workers[w]) && total >= c.timeout)
      then q.workers == p.workers - {w} && q.s.queue == p.s.queue
      else if p.accepted[p.started..] == []
      then w in q.workers && q.workers[w].phase.Waiting? && q.s.queue == []
           && (MayTimeOut(c, p.workers[w]) ==> q.workers[w].phase.timeLeft == c.timeout - total)
      else w in q.workers && q.workers[w].phase == Working(p.started) && q.started == p.started + 1
  {
    SomeWorker(p.workers, w);
    assert p.s.queue == p.accepted[p.started..];
    hide Counted, Conserved;
  }

  lemma AddsUpStep(c: Config, p: Pool, step: Step, w: nat, slept: nat)
    requires Inv(c, p) && Enabled(c, p, step) && AddsUp(c, p, w, slept)
    ensures AddsUp(c, Next(c, p, step), w, SleptStep(p, step, w, slept))
  {
    hide Conserved;
  }

  lemma {:induction false} AddsUpRun(c: Config, p: Pool, steps: seq<Step>, w: nat, before: nat)
    requires Inv(c, p) && IsRun(c, p, steps) && AddsUp(c, p, w, before)
    ensures AddsUp(c, After(c, p, steps), w, Slept(c, p, steps, w, before))
    decreases |steps|
  {
    hide Inv, Next, Enabled, AddsUp, SleptStep;
    if steps != [] {
      InvStep(c, p, steps[0]);
      AddsUpStep(c, p, steps[0], w, before);
      AddsUpRun(c, Next(c, p, steps[0]), steps[1..], w, SleptStep(p, steps[0], w, before));
    }
  }

  /** In every run the time a timed worker has left is the timeout less all its waits since it last
      began to look for a task. */
  lemma TimeLeftExactly(c: Config, steps: seq<Step>, w: nat)
    requires Inv(c, EMPTY) && IsRun(c, EMPTY, steps)
    ensures var e := After(c, EMPTY, steps);
      w in e.workers && e.workers[w].phase.Waiting? && MayTimeOut(c, e.workers[w]) ==>
      0 < e.workers[w].phase.timeLeft == c.timeout - Slept(c, EMPTY, steps, w, 0)
  {
    AddsUpRun(c, EMPTY, steps, w, 0);
  }
}
