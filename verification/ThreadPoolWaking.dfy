/** Who has been signalled in the thread pool: the signalAll calls of src/ge/thread/ThreadPool.cpp
    over the runs of the pool. */
module ThreadPoolWaking {
  import opened ThreadPool

  /** A worker that waits for a task, or a caller that waits for room in execute, for the queue to
      empty in shutdownWhenEmpty, or for the last worker to retire. */
  datatype Sleeper = ForWork(id: nat) | ForRoom(id: nat) | ForEmpty(id: nat) | ForRest(id: nat)

  /** The condition under which the loop around the wait waits again. */
  predicate StillWaits(c: Config, s: Shared, x: Sleeper) {
    match x
    case ForWork(_) => !s.shutdown && s.queue == []
    case ForRoom(_) => Full(c, s)
    case ForEmpty(_) => s.queue != []
    case ForRest(_) => s.running > 0
  }

  /** The pool with everyone who waits, and those of them whom nobody has signalled since they
      began to. */
  datatype Watch = Watch(p: Pool, waiting: set<Sleeper>, unsignalled: set<Sleeper>)

  const ASLEEP := Watch(EMPTY, {}, {})

  /** A step of the pool, or a caller that begins to wait or wakes up. */
  datatype Event = Run(step: Step) | Fall(x: Sleeper) | Rouse(x: Sleeper)

  predicate Possible(c: Config, v: Watch, e: Event) {
    match e
    case Run(step) => Enabled(c, v.p, step)
    case Fall(x) => !x.ForWork? && x !in v.waiting && StillWaits(c, v.p.s, x)
    case Rouse(x) => !x.ForWork? && x in v.waiting
  }

  /** Whether the turn of a worker ends in another wait. */
  predicate Sleeps(c: Config, p: Pool, w: nat, waited: nat)
    requires w in p.workers
  {
    var worker := p.workers[w];
    Decide(Awake(p, worker), IsTimed(c, worker), TimeLeft(c, worker, waited)) == Sleep
  }

  /** execute signals unless it starts a worker, getNextWorkItem when it returns, and a shutdown in
      any case. */
  function Happens(c: Config, v: Watch, e: Event): Watch
    requires Inv(c, v.p) && Possible(c, v, e)
  {
    match e
    case Fall(x) => v.(waiting := v.waiting + {x}, unsignalled := v.unsignalled + {x})
    case Rouse(x) => v.(waiting := v.waiting - {x}, unsignalled := v.unsignalled - {x})
    case Run(step) =>
      var p := Next(c, v.p, step);
      match step
      case Submit(_) =>
        v.(p := p, unsignalled := if !v.p.s.shutdown && !Spawns(c, v.p.s) then {} else v.unsignalled)
      case Turn(w, waited) =>
        if Sleeps(c, v.p, w, waited)
        then Watch(p, v.waiting + {ForWork(w)}, v.unsignalled + {ForWork(w)})
        else Watch(p, v.waiting - {ForWork(w)}, {})
      case Finish(_) => v.(p := p)
      case Shutdown => v.(p := p, unsignalled := {})
  }

  /** Nobody is left asleep: whoever has not been signalled would only wait again. */
  ghost predicate Attended(c: Config, v: Watch) {
    && v.unsignalled <= v.waiting
    && (forall w :: ForWork(w) in v.waiting <==> w in v.p.workers && v.p.workers[w].phase.Waiting?)
    && (forall x :: x in v.unsignalled ==> StillWaits(c, v.p.s, x))
  }

  ghost predicate WatchInv(c: Config, v: Watch) {
    Inv(c, v.p) && Attended(c, v)
  }

  /** A new worker is started only when no worker waits, so that step needs no signal. */
  lemma SubmitAttends(c: Config, v: Watch, task: Task)
    requires WatchInv(c, v) && Possible(c, v, Run(Submit(task)))
    ensures Attended(c, Happens(c, v, Run(Submit(task))))
  {
    if !v.p.s.shutdown && Spawns(c, v.p.s) {
      assert Sleepers(v.p.workers) == {};
      forall w ensures ForWork(w) !in v.waiting {
        assert w in v.p.workers && v.p.workers[w].phase.Waiting? ==> w in Sleepers(v.p.workers);
      }
    }
  }

  lemma TurnAttends(c: Config, v: Watch, w: nat, waited: nat)
    requires WatchInv(c, v) && Possible(c, v, Run(Turn(w, waited)))
    ensures Attended(c, Happens(c, v, Run(Turn(w, waited))))
  {
    SomeWorker(v.p.workers, w);
  }

  lemma EventAttends(c: Config, v: Watch, e: Event)
    requires WatchInv(c, v) && Possible(c, v, e)
    ensures WatchInv(c, Happens(c, v, e))
  {
    match e
    case Fall(x) =>
    case Rouse(x) =>
    case Run(step) =>
      InvStep(c, v.p, step);
      match step
      case Submit(task) => SubmitAttends(c, v, task);
      case Turn(w, waited) => TurnAttends(c, v, w, waited);
      case Finish(w) =>
      case Shutdown =>
  }

  ghost predicate IsHistory(c: Config, v: Watch, events: seq<Event>)
    requires WatchInv(c, v)
    decreases |events|
  {
    events == [] ||
    (Possible(c, v, events[0]) &&
     (EventAttends(c, v, events[0]); IsHistory(c, Happens(c, v, events[0]), events[1..])))
  }

  ghost function Finally(c: Config, v: Watch, events: seq<Event>): (e: Watch)
    requires WatchInv(c, v) && IsHistory(c, v, events)
    ensures WatchInv(c, e)
    decreases |events|
  {
    if events == [] then v
    else
      EventAttends(c, v, events[0]);
      Finally(c, Happens(c, v, events[0]), events[1..])
  }

  lemma AsleepInv(c: Config)
    ensures WatchInv(c, ASLEEP)
  {
    EmptyInv(c);
  }

  /** In every run: while tasks are queued, or once the pool is shut down, every waiting worker has
      been signalled; so has every waiter for room whenever there is room, every waiter for an
      empty queue when it is empty, and every waiter for the end when no worker is left. */
  lemma EveryHistory(c: Config, events: seq<Event>)
    requires (AsleepInv(c); IsHistory(c, ASLEEP, events))
    ensures var v := Finally(c, ASLEEP, events);
      forall x :: x in v.waiting ==>
        match x
        case ForWork(_) => v.p.s.queue != [] || v.p.s.shutdown ==> x !in v.unsignalled
        case ForRoom(_) => !Full(c, v.p.s) ==> x !in v.unsignalled
        case ForEmpty(_) => v.p.s.queue == [] ==> x !in v.unsignalled
        case ForRest(_) => v.p.s.running == 0 ==> x !in v.unsignalled
  {
    AsleepInv(c);
    var v := Finally(c, ASLEEP, events);
  }

  /** So while a task is queued and a worker lives, some worker is up: running a task, about to ask
      for one, or signalled. */
  lemma SomebodyIsUp(c: Config, v: Watch) returns (w: nat)
    requires WatchInv(c, v) && v.p.s.queue != [] && v.p.s.running > 0
    ensures w in v.p.workers && (v.p.workers[w].phase.Waiting? ==> ForWork(w) in v.waiting - v.unsignalled)
  {
    assert v.p.workers.Keys != {};
    w :| w in v.p.workers;
  }
}
