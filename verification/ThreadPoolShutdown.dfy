/** When the first loop of shutdownWhenEmpty (src/ge/thread/ThreadPool.cpp), which waits for the
    queue to be empty, can end. */
module ThreadPoolShutdown {
  import opened P = ThreadPool

  /** Who waits has time left. */
  ghost predicate HaveTime(p: Pool) {
    forall w :: w in p.workers && p.workers[w].phase.Waiting? ==> p.workers[w].phase.timeLeft > 0
  }

  lemma StepKeepsTime(c: Config, p: Pool, step: Step)
    requires Inv(c, p) && Enabled(c, p, step) && HaveTime(p)
    ensures HaveTime(Next(c, p, step))
  {
  }

  lemma {:induction false} RunKeepsTime(c: Config, p: Pool, steps: seq<Step>)
    requires Inv(c, p) && IsRun(c, p, steps) && HaveTime(p)
    ensures HaveTime(After(c, p, steps))
    decreases |steps|
  {
    hide Inv, Next, Enabled, HaveTime;
    if steps != [] {
      InvStep(c, p, steps[0]);
      StepKeepsTime(c, p, steps[0]);
      RunKeepsTime(c, Next(c, p, steps[0]), steps[1..]);
    }
  }

  /** The queue holds tasks that nobody will ever take: after a shutdown, or because no thread is
      left and none can be started, since none is allowed or every execute waits for room. */
  predicate Stuck(c: Config, p: Pool) {
    && p.s.queue != []
    && (p.s.shutdown || (p.s.running == 0 && (c.maxThreads == 0 || Full(c, p.s))))
  }

  lemma StuckStep(c: Config, p: Pool, step: Step)
    requires Inv(c, p) && Enabled(c, p, step) && Stuck(c, p)
    ensures Stuck(c, Next(c, p, step))
  {
    if p.s.running == 0 {
      assert p.workers.Keys == {};
    }
    hide Conserved;
  }

  lemma {:induction false} StuckRun(c: Config, p: Pool, steps: seq<Step>)
    requires Inv(c, p) && IsRun(c, p, steps) && Stuck(c, p)
    ensures Stuck(c, After(c, p, steps))
    decreases |steps|
  {
    hide Inv, Next, Enabled, Stuck;
    if steps != [] {
      InvStep(c, p, steps[0]);
      StuckStep(c, p, steps[0]);
      StuckRun(c, Next(c, p, steps[0]), steps[1..]);
    }
  }

  /** The run can be continued until the queue is empty. */
  ghost predicate Empties(c: Config, p: Pool)
    requires Inv(c, p)
  {
    exists steps :: IsRun(c, p, steps) && After(c, p, steps).s.queue == []
  }

  lemma AlreadyEmpty(c: Config, p: Pool)
    requires Inv(c, p) && p.s.queue == []
    ensures Empties(c, p)
  {
    hide Inv;
    assert IsRun(c, p, []) && After(c, p, []) == p;
  }

  lemma EmptiesAfter(c: Config, p: Pool, step: Step)
    requires Inv(c, p) && Enabled(c, p, step) && Inv(c, Next(c, p, step)) && Empties(c, Next(c, p, step))
    ensures Empties(c, p)
  {
    hide Inv, Enabled, Next;
    var rest :| IsRun(c, Next(c, p, step), rest) && After(c, Next(c, p, step), rest).s.queue == [];
    RunCons(c, p, step, rest);
  }

  /** A worker that looks for a task or waits for one takes the first, and one that has finished
      looks again. */
  lemma OneTaken(c: Config, p: Pool, w: nat)
    requires Inv(c, p) && HaveTime(p) && !p.s.shutdown && p.s.queue != []
    requires w in p.workers && !p.workers[w].phase.Working?
    ensures var q := Next(c, p, Turn(w, 0));
      && Inv(c, q) && HaveTime(q) && !q.s.shutdown && q.s.queue == p.s.queue[1..]
      && w in q.workers && q.workers[w].phase.Working?
  {
    InvStep(c, p, Turn(w, 0));
    StepKeepsTime(c, p, Turn(w, 0));
    hide Counted, Conserved;
  }

  /** One worker is enough to empty the queue. */
  lemma {:induction false} WorkerEmpties(c: Config, p: Pool, w: nat)
    requires Inv(c, p) && HaveTime(p) && !p.s.shutdown && w in p.workers
    ensures Empties(c, p)
    decreases |p.s.queue|, p.workers[w].phase.Working?
  {
    if p.s.queue == [] {
      AlreadyEmpty(c, p);
    } else if p.workers[w].phase.Working? {
      InvStep(c, p, Finish(w));
      StepKeepsTime(c, p, Finish(w));
      WorkerEmpties(c, Next(c, p, Finish(w)), w);
      EmptiesAfter(c, p, Finish(w));
    } else {
      OneTaken(c, p, w);
      WorkerEmpties(c, Next(c, p, Turn(w, 0)), w);
      EmptiesAfter(c, p, Turn(w, 0));
    }
  }

  lemma Spawned(c: Config, p: Pool)
    requires Inv(c, p) && !p.s.shutdown && p.s.running == 0 && c.maxThreads > 0 && !Full(c, p.s)
    ensures var q := Next(c, p, Submit(Task(0, false))); !q.s.shutdown && p.born in q.workers
  {
    assert p.workers.Keys == {};
    assert Sleepers(p.workers) == {};
  }

  lemma NotStuckEmpties(c: Config, p: Pool)
    requires Inv(c, p) && HaveTime(p) && !Stuck(c, p)
    ensures Empties(c, p)
  {
    if p.s.queue == [] {
      AlreadyEmpty(c, p);
    } else if p.s.running > 0 {
      assert p.workers != map[];
      var w :| w in p.workers;
      WorkerEmpties(c, p, w);
    } else {
      var step := Submit(Task(0, false));
      InvStep(c, p, step);
      StepKeepsTime(c, p, step);
      Spawned(c, p);
      WorkerEmpties(c, Next(c, p, step), p.born);
      EmptiesAfter(c, p, step);
    }
  }

  /** At any point of any run, the loop that waits for an empty queue can still end exactly when
      the queue is not stuck; after a shutdown with tasks queued it never ends, as the queue stays
      what it is. */
  lemma EmptyLoopEndsExactly(c: Config, before: seq<Step>)
    requires Inv(c, EMPTY) && IsRun(c, EMPTY, before)
    ensures var p := After(c, EMPTY, before);
      && (Empties(c, p) <==> !Stuck(c, p))
      && (p.s.shutdown ==> forall steps :: IsRun(c, p, steps) ==> After(c, p, steps).s.queue == p.s.queue)
  {
    RunKeepsTime(c, EMPTY, before);
    var p := After(c, EMPTY, before);
    if Stuck(c, p) {
      forall steps | IsRun(c, p, steps) ensures After(c, p, steps).s.queue != [] {
        StuckRun(c, p, steps);
      }
    } else {
      NotStuckEmpties(c, p);
    }
    hide Next, Enabled, Stuck;
    if p.s.shutdown {
      forall steps | IsRun(c, p, steps) ensures After(c, p, steps).s.queue == p.s.queue {
        RunIsMonotone(c, p, steps);
        SameQueue(c, p, After(c, p, steps));
      }
    }
  }

  lemma SameQueue(c: Config, p: Pool, e: Pool)
    requires Inv(c, p) && Inv(c, e) && p.accepted == e.accepted && p.started == e.started
    ensures p.s.queue == e.s.queue
  {
  }
}
