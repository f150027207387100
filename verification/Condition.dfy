/** The condition built by hand for Windows before Vista (src/win/ge/thread/Condition.cpp). */
module Condition {

  type Thread = nat

  const UINT32_MAX: nat := 0xFFFF_FFFF

  /** The fields a signal or a wait changes. */
  datatype Counters = Counters(waiting: nat, toRelease: nat, generation: nat, event: bool)

  const INITIAL := Counters(0, 0, 0, false)

  function Signalled(c: Counters): Counters {
    if c.waiting > c.toRelease
    then c.(event := true, toRelease := c.toRelease + 1, generation := c.generation + 1)
    else c
  }

  function AllSignalled(c: Counters): Counters {
    if c.waiting > 0
    then c.(event := true, toRelease := c.waiting, generation := c.generation + 1)
    else c
  }

  function WaitBegun(c: Counters): Counters {
    c.(waiting := c.waiting + 1)
  }

  predicate WaitDone(c: Counters, myGeneration: nat) {
    c.toRelease > 0 && c.generation != myGeneration
  }

  /** Subtracting one from an unsigned 32-bit field. */
  function Decremented(x: nat): nat {
    if x == 0 then UINT32_MAX else x - 1
  }

  function WaitEnded(c: Counters): Counters {
    var left := Decremented(c.toRelease);
    c.(waiting := Decremented(c.waiting), toRelease := left, event := if left == 0 then false else c.event)
  }

  /** A critical section: its owner may enter it again, and leaves it as often as it entered. */
  class CriticalSection {
    var owner: Thread
    var depth: nat

    constructor ()
      ensures depth == 0
    {
      owner, depth := 0, 0;
    }

    predicate Admits(t: Thread)
      reads this
    {
      depth == 0 || owner == t
    }

    method Enter(t: Thread)
      requires Admits(t)
      modifies this
      ensures owner == t && depth == old(depth) + 1
    {
      owner, depth := t, depth + 1;
    }

    method Leave(t: Thread)
      requires owner == t && depth > 0
      modifies this
      ensures owner == t && depth == old(depth) - 1
    {
      depth := depth - 1;
    }
  }

  class Condition {
    const conditionLock: CriticalSection
    var waitingThreads: nat
    var threadsToRelease: nat
    var waitGenerationCount: nat
    var event: bool

    function State(): Counters
      reads this
    {
      Counters(waitingThreads, threadsToRelease, waitGenerationCount, event)
    }

    constructor ()
      ensures State() == INITIAL && fresh(conditionLock) && conditionLock.depth == 0
    {
      conditionLock := new CriticalSection();
      waitingThreads, threadsToRelease, waitGenerationCount := 0, 0, 0;
      event := false;
    }

    method Signal()
      modifies this
      ensures State() == Signalled(old(State())) && waitingThreads == old(waitingThreads)
      ensures if old(waitingThreads > threadsToRelease)
        then event && threadsToRelease == old(threadsToRelease) + 1 && waitGenerationCount == old(waitGenerationCount) + 1
        else State() == old(State())
    {
      if waitingThreads > threadsToRelease {
        event := true;
        threadsToRelease := threadsToRelease + 1;
        waitGenerationCount := waitGenerationCount + 1;
      }
    }

    method SignalAll()
      modifies this
      ensures State() == AllSignalled(old(State())) && waitingThreads == old(waitingThreads)
      ensures if old(waitingThreads > 0)
        then event && threadsToRelease == old(waitingThreads) && waitGenerationCount == old(waitGenerationCount) + 1
        else State() == old(State())
    {
      if waitingThreads > 0 {
        event := true;
        threadsToRelease := waitingThreads;
        waitGenerationCount := waitGenerationCount + 1;
      }
    }

    /** waitImpl up to the release of the lock. */
    method BeginWait(t: Thread) returns (myGeneration: nat)
      requires conditionLock.owner == t && conditionLock.depth > 0
      modifies this, conditionLock
      ensures State() == WaitBegun(old(State())) && myGeneration == old(waitGenerationCount)
      ensures waitingThreads == old(waitingThreads) + 1 && threadsToRelease == old(threadsToRelease)
      ensures conditionLock.owner == t && conditionLock.depth == old(conditionLock.depth) - 1
    {
      waitingThreads := waitingThreads + 1;
      myGeneration := waitGenerationCount;
      conditionLock.Leave(t);
    }

    /** One turn of the loop after WaitForSingleObject returned, with the update behind the
        loop when it was the last; the lock is then entered a second time. */
    method Recheck(t: Thread, myGeneration: nat, timedOut: bool) returns (waitDone: bool)
      requires conditionLock.Admits(t)
      modifies this, conditionLock
      ensures waitDone <==> WaitDone(old(State()), myGeneration) || timedOut
      ensures waitDone <==> (old(threadsToRelease) > 0 && old(waitGenerationCount) != myGeneration) || timedOut
      ensures waitDone && old(threadsToRelease) > 0 ==>
        threadsToRelease == old(threadsToRelease) - 1 && event == (old(event) && threadsToRelease > 0)
      ensures waitDone && old(threadsToRelease) == 0 ==> threadsToRelease == 0xFFFF_FFFF
      ensures waitDone && old(waitingThreads) > 0 ==> waitingThreads == old(waitingThreads) - 1
      ensures State() == if waitDone then WaitEnded(old(State())) else old(State())
      ensures conditionLock.owner == t
      ensures conditionLock.depth == old(conditionLock.depth) + if waitDone then 2 else 0
    {
      conditionLock.Enter(t);
      waitDone := (threadsToRelease > 0 && waitGenerationCount != myGeneration) || timedOut;
      if !waitDone {
        conditionLock.Leave(t);
        return;
      }
      waitingThreads := Decremented(waitingThreads);
      threadsToRelease := Decremented(threadsToRelease);
      var lastWaiter := threadsToRelease == 0;
      if lastWaiter {
        event := false;
      }
      conditionLock.Enter(t);
    }
  }

  /** However often it is woken for nothing, a waiter that held the lock once comes back
      holding it twice: after its one unlock no other thread is admitted. */
  method BalancedWaitKeepsLock(c: Condition, t: Thread, other: Thread, wakeups: nat)
    requires c.conditionLock.owner == t && c.conditionLock.depth == 1 && other != t
    modifies c, c.conditionLock
    ensures c.conditionLock.depth == 1 && !c.conditionLock.Admits(other)
  {
    var mine := c.BeginWait(t);
    var k := 0;
    while k < wakeups
      invariant c.conditionLock.depth == 0 && c.State() == WaitBegun(old(c.State()))
    {
      var done := c.Recheck(t, mine, false);
      k := k + 1;
    }
    c.SignalAll();
    var done := c.Recheck(t, mine, false);
    c.conditionLock.Leave(t);
  }

  // ---- Every run of waits, signals and broadcasts ----

  /** The condition with the saved generation of each waiter, and the threads released so
      far in order. */
  datatype System = System(c: Counters, waiters: map<Thread, nat>, released: seq<Thread>)

  datatype Step = DoSignal | DoSignalAll | DoBegin(t: Thread) | DoRecheck(t: Thread) | DoTimeOut(t: Thread)

  /** A waiter may run its loop whether or not the event is still set when it gets the lock, and
      a timed wait may end at any time. */
  predicate Enabled(s: System, step: Step) {
    match step
    case DoBegin(t) => t !in s.waiters
    case DoRecheck(t) => t in s.waiters
    case DoTimeOut(t) => t in s.waiters
    case _ => true
  }

  function Next(s: System, step: Step): System
    requires Enabled(s, step)
  {
    match step
    case DoSignal => s.(c := Signalled(s.c))
    case DoSignalAll => s.(c := AllSignalled(s.c))
    case DoBegin(t) => s.(c := WaitBegun(s.c), waiters := s.waiters[t := s.c.generation])
    case DoRecheck(t) =>
      if WaitDone(s.c, s.waiters[t])
      then s.(c := WaitEnded(s.c), waiters := s.waiters - {t}, released := s.released + [t])
      else s
    case DoTimeOut(t) => s.(c := WaitEnded(s.c), waiters := s.waiters - {t})
  }

  /** The waiters that a release is meant for: those of an earlier generation. */
  function Eligible(s: System): set<Thread> {
    set t | t in s.waiters && s.waiters[t] != s.c.generation
  }

  ghost predicate Inv(s: System) {
    && s.c.waiting == |s.waiters|
    && (forall t :: t in s.waiters ==> s.waiters[t] <= s.c.generation)
    && (s.c.event <==> s.c.toRelease > 0)
    && s.c.toRelease <= |Eligible(s)|
  }

  ghost predicate IsRun(s: System, steps: seq<Step>)
    decreases |steps|
  {
    steps == [] || (Enabled(s, steps[0]) && IsRun(Next(s, steps[0]), steps[1..]))
  }

  ghost function After(s: System, steps: seq<Step>): System
    requires IsRun(s, steps)
    decreases |steps|
  {
    if steps == [] then s else After(Next(s, steps[0]), steps[1..])
  }

  lemma EligibleBound(s: System)
    ensures |Eligible(s)| <= |s.waiters|
  {
    assert Eligible(s) <= s.waiters.Keys;
    SubsetSize(Eligible(s), s.waiters.Keys);
  }

  lemma SubsetSize<T>(a: set<T>, b: set<T>)
    requires a <= b
    ensures |a| <= |b|
    ensures |a| == |b| ==> a == b
  {
    assert b == a + (b - a);
    if |a| == |b| {
      assert b - a == {};
    }
  }

  /** A new generation makes every present waiter eligible. */
  lemma AllEligible(s: System, c: Counters)
    requires forall t :: t in s.waiters ==> s.waiters[t] < c.generation
    ensures Eligible(s.(c := c)) == s.waiters.Keys
  {
  }

  /** A wait that times out takes a release with it, whether or not one is due. */
  predicate Timely(s: System, step: Step) {
    step.DoTimeOut? ==> s.c.toRelease > 0
  }

  /** Every step keeps the invariant, except the timeouts that find no release due: those break
      it. */
  lemma InvStep(s: System, step: Step)
    requires Inv(s) && Enabled(s, step)
    ensures Inv(Next(s, step)) <==> Timely(s, step)
  {
    hide WaitEnded, WaitDone, Signalled, AllSignalled, WaitBegun, Inv, Eligible;
    match step
    case DoSignal =>
      SignalKeeps(s);
    case DoSignalAll =>
      SignalAllKeeps(s);
    case DoBegin(t) =>
      BeginKeeps(s, t);
    case DoRecheck(t) =>
      if WaitDone(s.c, s.waiters[t]) {
        assert s.c.toRelease > 0 by {
          DueWhenDone(s.c, s.waiters[t]);
        }
        WaitEnds(s, t, Next(s, step));
      }
    case DoTimeOut(t) =>
      WaitEnds(s, t, Next(s, step));
  }

  lemma DueWhenDone(c: Counters, myGeneration: nat)
    requires WaitDone(c, myGeneration)
    ensures c.toRelease > 0
  {
  }

  lemma SignalKeeps(s: System)
    requires Inv(s)
    ensures Inv(s.(c := Signalled(s.c)))
  {
    EligibleBound(s);
    if s.c.waiting > s.c.toRelease {
      AllEligible(s, Signalled(s.c));
    }
    hide Eligible;
  }

  lemma SignalAllKeeps(s: System)
    requires Inv(s)
    ensures Inv(s.(c := AllSignalled(s.c)))
  {
    EligibleBound(s);
    if s.c.waiting > 0 {
      AllEligible(s, AllSignalled(s.c));
    }
    hide Eligible;
  }

  lemma BeginKeeps(s: System, t: Thread)
    requires Inv(s) && t !in s.waiters
    ensures Inv(s.(c := WaitBegun(s.c), waiters := s.waiters[t := s.c.generation]))
  {
    var s' := s.(c := WaitBegun(s.c), waiters := s.waiters[t := s.c.generation]);
    assert Eligible(s') == Eligible(s);
    hide Eligible;
    assert s'.waiters.Keys == s.waiters.Keys + {t};
  }

  lemma WaitEnds(s: System, t: Thread, s': System)
    requires Inv(s) && t in s.waiters && s'.c == WaitEnded(s.c) && s'.waiters == s.waiters - {t}
    ensures Inv(s') <==> s.c.toRelease > 0
  {
    EligibleBound(s);
    assert Eligible(s') == Eligible(s) - {t};
    assert s.c.toRelease > 0 && t !in Eligible(s) ==> |Eligible(s')| == |Eligible(s)|;
    hide Eligible;
    assert s'.waiters.Keys == s.waiters.Keys - {t};
  }

  const IDLE := System(INITIAL, map[], [])

  ghost predicate Untimed(steps: seq<Step>) {
    forall k :: 0 <= k < |steps| ==> !steps[k].DoTimeOut?
  }

  lemma {:induction false} InvRun(s: System, steps: seq<Step>)
    requires Inv(s) && IsRun(s, steps) && Untimed(steps)
    ensures Inv(After(s, steps))
    decreases |steps|
  {
    hide Inv, Enabled, Next;
    if steps != [] {
      InvStep(s, steps[0]);
      InvRun(Next(s, steps[0]), steps[1..]);
    }
  }

  /** From the constructor on, in every run of untimed waits: the waiters of an earlier generation
      number at least the releases still due, and the event is set exactly while some are due. */
  lemma EveryRun(steps: seq<Step>)
    requires IsRun(IDLE, steps) && Untimed(steps)
    ensures Inv(After(IDLE, steps))
  {
    InvRun(IDLE, steps);
  }

  /** The invariant in every state of a run. */
  ghost predicate InvThroughout(s: System, steps: seq<Step>)
    requires IsRun(s, steps)
    decreases |steps|
  {
    Inv(s) && (steps == [] || InvThroughout(Next(s, steps[0]), steps[1..]))
  }

  /** Every timeout of a run meets a release that is due. */
  ghost predicate AllTimely(s: System, steps: seq<Step>)
    requires IsRun(s, steps)
    decreases |steps|
  {
    steps == [] || (Timely(s, steps[0]) && AllTimely(Next(s, steps[0]), steps[1..]))
  }

  lemma {:induction false} TimedRun(s: System, steps: seq<Step>)
    requires Inv(s) && IsRun(s, steps)
    ensures InvThroughout(s, steps) <==> AllTimely(s, steps)
    decreases |steps|
  {
    hide Inv, Enabled, Next, Timely;
    if steps != [] {
      InvStep(s, steps[0]);
      if Timely(s, steps[0]) {
        TimedRun(Next(s, steps[0]), steps[1..]);
      }
    }
  }

  lemma {:induction false} PrefixIsRun(s: System, steps: seq<Step>, k: nat)
    requires IsRun(s, steps) && k <= |steps|
    ensures IsRun(s, steps[..k])
    decreases k
  {
    hide Enabled, Next;
    if k > 0 {
      PrefixIsRun(Next(s, steps[0]), steps[1..], k - 1);
      assert steps[..k][1..] == steps[1..][..k - 1];
    }
  }

  /** With timed waits too, the invariant holds in every state up to any point of a run exactly
      when every timeout before that point meets a release that is due; the first that does not
      breaks it. */
  lemma EveryTimedRun(steps: seq<Step>, k: nat)
    requires IsRun(IDLE, steps) && k <= |steps|
    ensures IsRun(IDLE, steps[..k])
    ensures InvThroughout(IDLE, steps[..k]) <==> AllTimely(IDLE, steps[..k])
  {
    PrefixIsRun(IDLE, steps, k);
    TimedRun(IDLE, steps[..k]);
  }

  // ---- A broadcast ----

  ghost predicate Quiet(steps: seq<Step>) {
    forall k :: 0 <= k < |steps| ==> steps[k].DoBegin? || steps[k].DoRecheck?
  }

  predicate Distinct(s: seq<Thread>) {
    forall i, j :: 0 <= i < j < |s| ==> s[i] != s[j]
  }

  function Elements(s: seq<Thread>): set<Thread> {
    set t | t in s
  }

  /** While releases are handed to the threads `w`: those that came back, each once, and those that
      did not make up `w`. */
  ghost predicate Handing(s: System, w: set<Thread>, before: nat) {
    && before <= |s.released|
    && Distinct(s.released[before..])
    && Elements(s.released[before..]) !! Eligible(s)
    && Elements(s.released[before..]) + Eligible(s) == w
  }

  /** While all of them are being released. */
  ghost predicate Releasing(s: System, w: set<Thread>, before: nat) {
    Handing(s, w, before) && s.c.toRelease == |Eligible(s)|
  }

  lemma HandingStep(s: System, w: set<Thread>, before: nat, step: Step)
    requires Handing(s, w, before) && Enabled(s, step) && (step.DoBegin? || step.DoRecheck?)
    ensures Handing(Next(s, step), w, before)
  {
    var s' := Next(s, step);
    if step.DoBegin? {
      assert Eligible(s') == Eligible(s);
    } else if WaitDone(s.c, s.waiters[step.t]) {
      assert Eligible(s') == Eligible(s) - {step.t};
      assert s'.released[before..] == s.released[before..] + [step.t];
      MoveOne(s.released[before..], Eligible(s), step.t);
      hide Distinct, Eligible, Elements;
    }
  }

  lemma QuietStep(s: System, w: set<Thread>, before: nat, step: Step)
    requires Inv(s) && Releasing(s, w, before) && Enabled(s, step) && (step.DoBegin? || step.DoRecheck?)
    ensures Releasing(Next(s, step), w, before)
  {
    HandingStep(s, w, before, step);
    QuietOverlooksStep(s, step);
    hide Handing, Inv;
  }

  lemma MoveOne(back: seq<Thread>, due: set<Thread>, t: Thread)
    requires Distinct(back) && Elements(back) !! due && t in due
    ensures Distinct(back + [t]) && Elements(back + [t]) !! (due - {t})
    ensures Elements(back + [t]) + (due - {t}) == Elements(back) + due
    ensures |due - {t}| == |due| - 1
  {
    assert Elements(back + [t]) == Elements(back) + {t};
    assert t !in Elements(back);
  }

  lemma {:induction false} QuietRun(s: System, w: set<Thread>, before: nat, steps: seq<Step>)
    requires Inv(s) && Releasing(s, w, before) && IsRun(s, steps) && Quiet(steps)
    ensures Inv(After(s, steps)) && Releasing(After(s, steps), w, before)
    decreases |steps|
  {
    hide Inv, Enabled, Next, Releasing;
    if steps != [] {
      InvStep(s, steps[0]);
      QuietStep(s, w, before, steps[0]);
      QuietRun(Next(s, steps[0]), w, before, steps[1..]);
    }
  }

  /** After a broadcast, as long as nobody signals again: the threads then waiting come back,
      each once and no other, and while one of them is still due its next turn succeeds. */
  lemma BroadcastReleasesExactly(s: System, steps: seq<Step>)
    requires Inv(s) && IsRun(Next(s, DoSignalAll), steps) && Quiet(steps)
    ensures var e := After(Next(s, DoSignalAll), steps);
      && Releasing(e, s.waiters.Keys, |s.released|)
      && (e.c.toRelease == 0 ==> Elements(e.released[|s.released|..]) == s.waiters.Keys)
      && (forall t :: t in Eligible(e) ==> e.c.event && Enabled(e, DoRecheck(t)) && WaitDone(e.c, e.waiters[t]))
  {
    var s' := Next(s, DoSignalAll);
    Broadcast(s);
    QuietRun(s', s.waiters.Keys, |s.released|, steps);
    hide IsRun, After, Quiet, Distinct;
    var e := After(s', steps);
    if e.c.toRelease == 0 {
      assert Eligible(e) == {};
    }
    forall t | t in Eligible(e) ensures e.c.toRelease > 0 {
      SubsetSize({t}, Eligible(e));
    }
  }

  // ---- Single signals ----

  /** The threads released so far and the releases still due. */
  function Released(s: System): nat {
    |s.released| + s.c.toRelease
  }

  /** A signal makes one more release due exactly when more threads wait than are being released; a
      broadcast makes one due for every waiter; nothing else does. */
  lemma ReleasedStep(s: System, step: Step)
    requires Inv(s) && Enabled(s, step) && !step.DoTimeOut?
    ensures Released(Next(s, step)) ==
      if step.DoSignal? && |s.waiters| > s.c.toRelease then Released(s) + 1
      else if step.DoSignalAll? then |s.released| + |s.waiters|
      else Released(s)
  {
    EligibleBound(s);
    hide Eligible;
  }

  function Signals(steps: seq<Step>): nat
    decreases |steps|
  {
    if steps == [] then 0 else (if steps[0].DoSignal? then 1 else 0) + Signals(steps[1..])
  }

  /** The signals of a run that find more threads waiting than being released. */
  ghost function UsefulSignals(s: System, steps: seq<Step>): nat
    requires IsRun(s, steps)
    decreases |steps|
  {
    if steps == [] then 0
    else
      (if steps[0].DoSignal? && |s.waiters| > s.c.toRelease then 1 else 0) + UsefulSignals(Next(s, steps[0]), steps[1..])
  }

  lemma {:induction false} SignalsRun(s: System, steps: seq<Step>)
    requires Inv(s) && IsRun(s, steps) && Untimed(steps)
    requires forall k :: 0 <= k < |steps| ==> !steps[k].DoSignalAll?
    ensures Released(After(s, steps)) == Released(s) + UsefulSignals(s, steps)
    ensures UsefulSignals(s, steps) <= Signals(steps)
    decreases |steps|
  {
    hide Inv, Enabled, Next, Released;
    if steps != [] {
      InvStep(s, steps[0]);
      ReleasedStep(s, steps[0]);
      SignalsRun(Next(s, steps[0]), steps[1..]);
    }
  }

  /** Without broadcasts and timeouts, no more threads ever come back than there were signals: the
      threads released and the releases due are the signals that found somebody to release. */
  lemma OnePerSignal(steps: seq<Step>)
    requires IsRun(IDLE, steps) && Untimed(steps)
    requires forall k :: 0 <= k < |steps| ==> !steps[k].DoSignalAll?
    ensures var e := After(IDLE, steps);
      |e.released| + e.c.toRelease == UsefulSignals(IDLE, steps) <= Signals(steps)
  {
    SignalsRun(IDLE, steps);
  }

  lemma {:induction false} HandingRun(s: System, w: set<Thread>, before: nat, steps: seq<Step>)
    requires Inv(s) && Handing(s, w, before) && IsRun(s, steps) && Quiet(steps)
    ensures Inv(After(s, steps)) && Handing(After(s, steps), w, before)
    ensures Released(After(s, steps)) == Released(s)
    decreases |steps|
  {
    hide Inv, Enabled, Next, Handing, Released;
    if steps != [] {
      InvStep(s, steps[0]);
      HandingStep(s, w, before, steps[0]);
      ReleasedStep(s, steps[0]);
      HandingRun(Next(s, steps[0]), w, before, steps[1..]);
    }
  }

  /** After one signal, as long as nobody signals again: exactly one more thread comes back than was
      already due, or no more if as many were due as wait. They are threads that waited then, each
      once; and while one is still due, any of those that did not come back succeeds on its turn. */
  lemma SignalReleasesExactly(s: System, steps: seq<Step>)
    requires Inv(s) && IsRun(Next(s, DoSignal), steps) && Quiet(steps)
    ensures var e := After(Next(s, DoSignal), steps);
      |s.released| <= |e.released| &&
      var back := e.released[|s.released|..];
      && |back| + e.c.toRelease == s.c.toRelease + (if |s.waiters| > s.c.toRelease then 1 else 0)
      && Distinct(back) && Elements(back) <= s.waiters.Keys
      && (e.c.toRelease > 0 ==> exists t :: t in Eligible(e))
      && (e.c.toRelease > 0 ==> forall t :: t in Eligible(e) ==> e.c.event && WaitDone(e.c, e.waiters[t]))
  {
    var s' := Next(s, DoSignal);
    InvStep(s, DoSignal);
    ReleasedStep(s, DoSignal);
    assert s'.released[|s.released|..] == [];
    assert Eligible(s') <= s.waiters.Keys;
    assert Handing(s', Eligible(s'), |s.released|);
    HandingRun(s', Eligible(s'), |s.released|, steps);
    hide IsRun, After, Quiet, Distinct, Next;
    var e := After(s', steps);
    if e.c.toRelease > 0 {
      assert Eligible(e) != {};
    }
  }

  // ---- A broadcast and the critical section ----

  /** The system with who has entered the critical section how often when no thread is between an
      enter and its leave. */
  datatype Guarded = Guarded(sys: System, owner: Thread, depth: nat)

  predicate Admitted(g: Guarded, t: Thread) {
    g.depth == 0 || g.owner == t
  }

  /** A thread that begins a wait or runs its loop has entered the critical section. */
  predicate MayStep(g: Guarded, step: Step) {
    && (step.DoBegin? || step.DoRecheck?)
    && Enabled(g.sys, step) && Admitted(g, step.t)
  }

  /** `again` says that a wait that ends enters the critical section a second time, as written: its
      thread leaves it once. */
  function GuardedNext(g: Guarded, step: Step, again: bool): Guarded
    requires MayStep(g, step)
  {
    var ends := step.DoRecheck? && WaitDone(g.sys.c, g.sys.waiters[step.t]);
    Guarded(Next(g.sys, step), if ends then step.t else g.owner, g.depth + if ends && again then 1 else 0)
  }

  ghost predicate IsGuardedRun(g: Guarded, steps: seq<Step>, again: bool)
    decreases |steps|
  {
    steps == [] || (MayStep(g, steps[0]) && IsGuardedRun(GuardedNext(g, steps[0], again), steps[1..], again))
  }

  ghost function GuardedAfter(g: Guarded, steps: seq<Step>, again: bool): Guarded
    requires IsGuardedRun(g, steps, again)
    decreases |steps|
  {
    if steps == [] then g else GuardedAfter(GuardedNext(g, steps[0], again), steps[1..], again)
  }

  /** While the threads `w` are being released: every wait that has ended is one entry too many,
      and so there is at most one. */
  ghost predicate GuardedReleasing(g: Guarded, w: set<Thread>, before: nat, again: bool) {
    && Inv(g.sys) && Releasing(g.sys, w, before)
    && g.depth == (if again then |g.sys.released| - before else 0)
    && (g.depth > 0 ==> g.depth == 1 && g.owner == g.sys.released[before])
  }

  lemma GuardedStep(g: Guarded, w: set<Thread>, before: nat, step: Step, again: bool)
    requires GuardedReleasing(g, w, before, again) && MayStep(g, step)
    ensures GuardedReleasing(GuardedNext(g, step, again), w, before, again)
  {
    hide Inv, Releasing;
    InvStep(g.sys, step);
    QuietStep(g.sys, w, before, step);
    if step.DoRecheck? && WaitDone(g.sys.c, g.sys.waiters[step.t]) {
      NotAgain(g.sys, w, before, step.t);
    }
  }

  /** A thread that came back is not due once more. */
  lemma NotAgain(s: System, w: set<Thread>, before: nat, t: Thread)
    requires Releasing(s, w, before) && t in s.waiters && WaitDone(s.c, s.waiters[t])
    ensures before <= |s.released| && (before < |s.released| ==> s.released[before] != t)
  {
    if before < |s.released| {
      assert s.released[before] == s.released[before..][0];
      assert s.released[before] in Elements(s.released[before..]);
      assert t in Eligible(s);
    }
  }

  lemma {:induction false} GuardedRun(g: Guarded, w: set<Thread>, before: nat, steps: seq<Step>, again: bool)
    requires GuardedReleasing(g, w, before, again) && IsGuardedRun(g, steps, again)
    ensures GuardedReleasing(GuardedAfter(g, steps, again), w, before, again)
    decreases |steps|
  {
    hide MayStep, GuardedNext, GuardedReleasing;
    if steps != [] {
      GuardedStep(g, w, before, steps[0], again);
      GuardedRun(GuardedNext(g, steps[0], again), w, before, steps[1..], again);
    }
  }

  lemma Broadcast(s: System)
    requires Inv(s)
    ensures Inv(Next(s, DoSignalAll)) && Releasing(Next(s, DoSignalAll), s.waiters.Keys, |s.released|)
  {
    var s' := Next(s, DoSignalAll);
    InvStep(s, DoSignalAll);
    EligibleBound(s);
    if s.c.waiting > 0 {
      AllEligible(s, s'.c);
    } else {
      assert s.waiters.Keys == {};
    }
    assert s'.released[|s.released|..] == [];
  }

  /** Repaired, every thread still due may take its turn. As written, the first thread that comes
      back keeps the critical section, no other thread of the broadcast gets its turn, and what was
      due to them stays due. */
  ghost predicate TurnsLeft(e: Guarded, w: set<Thread>, before: nat, again: bool)
    requires before <= |e.sys.released|
  {
    var back := e.sys.released[before..];
    && (again ==> |back| <= 1 && e.sys.c.toRelease >= |w| - 1)
    && (again && back != [] ==> forall t :: Admitted(e, t) <==> t == back[0])
    && (forall t :: t in Eligible(e.sys) ==> (MayStep(e, DoRecheck(t)) <==> !again || back == []))
  }

  /** After a broadcast, as long as nobody signals again, with the critical section. */
  lemma BroadcastAsWritten(s: System, owner: Thread, steps: seq<Step>, again: bool)
    requires Inv(s) && IsGuardedRun(Guarded(Next(s, DoSignalAll), owner, 0), steps, again)
    ensures var e := GuardedAfter(Guarded(Next(s, DoSignalAll), owner, 0), steps, again);
      && Releasing(e.sys, s.waiters.Keys, |s.released|)
      && TurnsLeft(e, s.waiters.Keys, |s.released|, again)
  {
    hide IsGuardedRun, GuardedAfter, Inv;
    var g := Guarded(Next(s, DoSignalAll), owner, 0);
    Broadcast(s);
    GuardedRun(g, s.waiters.Keys, |s.released|, steps, again);
    StillDue(GuardedAfter(g, steps, again), s.waiters.Keys, |s.released|, again);
  }

  lemma StillDue(e: Guarded, w: set<Thread>, before: nat, again: bool)
    requires GuardedReleasing(e, w, before, again)
    ensures before <= |e.sys.released| && TurnsLeft(e, w, before, again)
  {
    hide Inv, Distinct, Eligible, Elements, MayStep;
    var back := e.sys.released[before..];
    AtMostOne(back);
    forall t | t in Eligible(e.sys) ensures MayStep(e, DoRecheck(t)) <==> !again || back == [] {
      MayRecheck(e, t);
      assert back != [] ==> t != back[0];
    }
    if again {
      assert Eligible(e.sys) == w - Elements(back);
      SizeWithout(w, Elements(back));
    }
  }

  lemma AtMostOne(back: seq<Thread>)
    ensures back != [] ==> back[0] in Elements(back)
    ensures |back| <= 1 ==> |Elements(back)| <= 1
  {
    if |back| == 1 {
      assert Elements(back) == {back[0]};
    } else if back == [] {
      assert Elements(back) == {};
    }
  }

  lemma MayRecheck(e: Guarded, t: Thread)
    requires t in Eligible(e.sys)
    ensures MayStep(e, DoRecheck(t)) <==> e.depth == 0 || e.owner == t
  {
  }

  lemma SizeWithout<T>(w: set<T>, x: set<T>)
    ensures |w - x| >= |w| - |x|
  {
    assert w == (w - x) + (w * x);
    SubsetSize(w * x, x);
  }

  // ---- What a timeout costs ----

  /** How many of the threads that releases are meant for will not get one. */
  ghost function Overlooked(s: System): int {
    |Eligible(s)| - s.c.toRelease
  }

  lemma {:induction false} QuietOverlooks(s: System, steps: seq<Step>)
    requires Inv(s) && IsRun(s, steps) && Quiet(steps)
    ensures Overlooked(After(s, steps)) == Overlooked(s)
    decreases |steps|
  {
    hide Inv, Enabled, Next, Overlooked;
    if steps != [] {
      QuietOverlooksStep(s, steps[0]);
      InvStep(s, steps[0]);
      QuietOverlooks(Next(s, steps[0]), steps[1..]);
    }
  }

  lemma QuietOverlooksStep(s: System, step: Step)
    requires Inv(s) && Enabled(s, step) && (step.DoBegin? || step.DoRecheck?)
    ensures Overlooked(Next(s, step)) == Overlooked(s)
  {
    if step.DoBegin? {
      assert Eligible(Next(s, step)) == Eligible(s);
    } else if WaitDone(s.c, s.waiters[step.t]) {
      assert Eligible(Next(s, step)) == Eligible(s) - {step.t};
    }
  }

  /** A timeout that meets a due release costs one of the threads the releases are meant for its
      wake-up exactly when the thread that timed out is none of them; as long as nobody signals
      again, nothing makes up for it. */
  lemma TimeOutCosts(s: System, t: Thread, steps: seq<Step>)
    requires Inv(s) && t in s.waiters && s.c.toRelease > 0
    requires IsRun(Next(s, DoTimeOut(t)), steps) && Quiet(steps)
    ensures var e := After(Next(s, DoTimeOut(t)), steps);
      && Overlooked(e) == Overlooked(s) + (if t in Eligible(s) then 0 else 1)
      && (e.c.toRelease == 0 ==> |Eligible(e)| == Overlooked(s) + (if t in Eligible(s) then 0 else 1))
  {
    InvStep(s, DoTimeOut(t));
    QuietOverlooks(Next(s, DoTimeOut(t)), steps);
    hide IsRun, After, Quiet;
    assert Eligible(Next(s, DoTimeOut(t))) == Eligible(s) - {t};
  }
}
