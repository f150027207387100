/** The reader/writer lock built on that condition (src/win/ge/thread/RWLock.cpp). */
module RWLock {
  import opened C = Condition

  datatype Access = Reader | Writer

  /** The guard of both loops in lock and of both tests in trylock. */
  predicate Blocked(readers: nat, writers: nat, access: Access) {
    if access != Reader then readers > 0 || writers > 0 else writers > 0
  }

  class RWLock {
    const cond: Condition
    var readers: nat
    var writers: nat

    constructor ()
      ensures readers == writers == 0 && cond.State() == INITIAL && cond.conditionLock.depth == 0
      ensures fresh(cond) && fresh(cond.conditionLock)
    {
      cond := new Condition();
      readers, writers := 0, 0;
    }

    /** The loop test of lock, with the lock of the condition held: either the access is
        granted or the thread begins a wait. */
    method Attempt(t: Thread, access: Access) returns (granted: bool, myGeneration: nat)
      requires cond.conditionLock.owner == t && cond.conditionLock.depth > 0
      modifies this, cond, cond.conditionLock
      ensures granted <==> old(writers) == 0 && (access == Writer ==> old(readers) == 0)
      ensures readers == old(readers) + (if granted && access == Reader then 1 else 0)
      ensures writers == old(writers) + (if granted && access == Writer then 1 else 0)
      ensures cond.State() == if granted then old(cond.State()) else WaitBegun(old(cond.State()))
      ensures myGeneration == old(cond.waitGenerationCount)
      ensures cond.conditionLock.owner == t
      ensures cond.conditionLock.depth == old(cond.conditionLock.depth) - 1
    {
      myGeneration := cond.waitGenerationCount;
      if access != Reader {
        if readers > 0 || writers > 0 {
          myGeneration := cond.BeginWait(t);
          return false, myGeneration;
        }
        writers := writers + 1;
      } else {
        if writers > 0 {
          myGeneration := cond.BeginWait(t);
          return false, myGeneration;
        }
        readers := readers + 1;
      }
      granted := true;
      cond.conditionLock.Leave(t);
    }

    /** lock after a wait was woken: nothing happens until the wait is done, then the loop test
        runs again. The wait entered the lock of the condition once too often, so it stays
        entered. */
    method Resume(t: Thread, access: Access, saved: nat) returns (woken: bool, granted: bool, myGeneration: nat)
      requires cond.conditionLock.Admits(t)
      modifies this, cond, cond.conditionLock
      ensures woken <==> WaitDone(old(cond.State()), saved)
      ensures granted <==> woken && old(writers) == 0 && (access == Writer ==> old(readers) == 0)
      ensures readers == old(readers) + (if granted && access == Reader then 1 else 0)
      ensures writers == old(writers) + (if granted && access == Writer then 1 else 0)
      ensures cond.State() ==
        if !woken then old(cond.State())
        else if granted then WaitEnded(old(cond.State()))
        else WaitBegun(WaitEnded(old(cond.State())))
      ensures myGeneration == if woken then old(cond.waitGenerationCount) else saved
      ensures cond.conditionLock.depth == old(cond.conditionLock.depth) + if woken then 1 else 0
    {
      woken := cond.Recheck(t, saved, false);
      if !woken {
        return false, false, saved;
      }
      granted, myGeneration := Attempt(t, access);
    }

    method TryLock(t: Thread, access: Access) returns (granted: bool)
      requires cond.conditionLock.Admits(t)
      modifies this, cond.conditionLock
      ensures granted <==> old(writers) == 0 && (access == Writer ==> old(readers) == 0)
      ensures readers == old(readers) + (if granted && access == Reader then 1 else 0)
      ensures writers == old(writers) + (if granted && access == Writer then 1 else 0)
      ensures cond.conditionLock.depth == old(cond.conditionLock.depth)
    {
      cond.conditionLock.Enter(t);
      if access != Reader {
        if readers > 0 || writers > 0 {
          cond.conditionLock.Leave(t);
          return false;
        }
        writers := writers + 1;
      } else {
        if writers > 0 {
          cond.conditionLock.Leave(t);
          return false;
        }
        readers := readers + 1;
      }
      cond.conditionLock.Leave(t);
      granted := true;
    }

    method Unlock(t: Thread, access: Access)
      requires cond.conditionLock.Admits(t)
      requires if access != Reader then writers > 0 else readers > 0
      modifies this, cond, cond.conditionLock
      ensures readers == old(readers) - (if access == Reader then 1 else 0)
      ensures writers == old(writers) - (if access == Writer then 1 else 0)
      ensures cond.State() == Signalled(old(cond.State()))
      ensures cond.threadsToRelease ==
        old(cond.threadsToRelease) + if old(cond.waitingThreads > cond.threadsToRelease) then 1 else 0
      ensures cond.conditionLock.depth == old(cond.conditionLock.depth)
    {
      cond.conditionLock.Enter(t);
      if access != Reader {
        writers := writers - 1;
      } else {
        readers := readers - 1;
      }
      cond.Signal();
      cond.conditionLock.Leave(t);
    }
  }

  /** While one thread writes nobody else gets the lock without waiting, whatever it asks for; once
      it has unlocked, anybody does. */
  method OneWriterAtATime(t: Thread, other: Thread, access: Access) returns (l: RWLock)
    ensures fresh(l) && l.cond.State() == INITIAL && l.cond.conditionLock.depth == 0
    ensures l.readers == (if access == Reader then 1 else 0) && l.writers == (if access == Writer then 1 else 0)
  {
    l := new RWLock();
    var first := l.TryLock(t, Writer);
    var second := l.TryLock(other, access);
    assert first && !second;
    l.Unlock(t, Writer);
    second := l.TryLock(other, access);
    assert second;
  }

  /** Readers do not exclude one another, and together they exclude writers. */
  method TwoReaders(t: Thread, other: Thread) returns (l: RWLock)
    ensures fresh(l) && l.readers == 2 && l.writers == 0
  {
    l := new RWLock();
    var first := l.TryLock(t, Reader);
    var second := l.TryLock(other, Reader);
    assert first && second;
    var third := l.TryLock(other, Writer);
    assert !third;
  }

  // ---- Every run ----

  /** The lock with its condition, the access each waiter asks for, who holds it, and who has
      entered the critical section of the condition how often when no thread is between an enter
      and its leave. */
  datatype State = State(
    sys: System, readers: nat, writers: nat,
    wants: map<Thread, Access>, reading: multiset<Thread>, writing: multiset<Thread>,
    owner: Thread, depth: nat)

  const FREE := State(IDLE, 0, 0, map[], multiset{}, multiset{}, 0, 0)

  datatype Action = Lock(t: Thread, access: Access) | TryLock(t: Thread, access: Access)
                  | Unlock(t: Thread, access: Access) | Resume(t: Thread)

  /** Every action enters the critical section first. */
  predicate Admits(s: State, t: Thread) {
    s.depth == 0 || s.owner == t
  }

  predicate CanAct(s: State, a: Action) {
    Admits(s, a.t) &&
    match a
    case Lock(t, _) => t !in s.sys.waiters
    case TryLock(t, _) => t !in s.sys.waiters
    case Unlock(t, access) => t !in s.sys.waiters && t in (if access == Reader then s.reading else s.writing)
    case Resume(t) => t in s.wants && Enabled(s.sys, DoRecheck(t))
  }

  function Granted(s: State, t: Thread, access: Access): State {
    if access == Reader then s.(readers := s.readers + 1, reading := s.reading + multiset{t})
    else s.(writers := s.writers + 1, writing := s.writing + multiset{t})
  }

  function Attempted(s: State, t: Thread, access: Access): State
    requires t !in s.sys.waiters
  {
    if Blocked(s.readers, s.writers, access)
    then s.(sys := Next(s.sys, DoBegin(t)), wants := s.wants[t := access])
    else Granted(s, t, access)
  }

  /** The turn ends the wait of its thread. */
  predicate Wakes(s: State, a: Action) {
    a.Resume? && a.t in s.sys.waiters && WaitDone(s.sys.c, s.sys.waiters[a.t])
  }

  /** `again` says that a wait enters the critical section a second time, as written; otherwise
      the condition is repaired. */
  function Act(s: State, a: Action, again: bool): State
    requires Inv(s) && CanAct(s, a)
  {
    match a
    case Lock(t, access) => Attempted(s, t, access)
    case TryLock(t, access) => if Blocked(s.readers, s.writers, access) then s else Granted(s, t, access)
    case Unlock(t, access) =>
      var sys := Next(s.sys, DoSignal);
      if access == Reader then s.(sys := sys, readers := s.readers - 1, reading := s.reading - multiset{t})
      else s.(sys := sys, writers := s.writers - 1, writing := s.writing - multiset{t})
    case Resume(t) =>
      if Wakes(s, a)
      then
        var woken := s.(sys := Next(s.sys, DoRecheck(t)), wants := s.wants - {t},
                        owner := t, depth := s.depth + if again then 1 else 0);
        Attempted(woken, t, s.wants[t])
      else s
  }

  ghost predicate Consistent(s: State) {
    && C.Inv(s.sys)
    && s.wants.Keys == s.sys.waiters.Keys
    && s.readers == |s.reading| && s.writers == |s.writing|
    && Exclusive(s)
  }

  /** Whoever sleeps has a holder to wait for, or a release is under way. */
  ghost predicate Awaited(s: State) {
    s.wants != map[] ==> s.readers + s.writers > 0 || s.sys.c.toRelease > 0
  }

  ghost predicate Inv(s: State) {
    Consistent(s) && Awaited(s)
  }

  /** A writer is alone. */
  predicate Exclusive(s: State) {
    s.writers == 0 || (s.writers == 1 && s.readers == 0)
  }

  lemma FreeInv()
    ensures Inv(FREE)
  {
  }

  ghost predicate IsTrace(s: State, actions: seq<Action>, again: bool)
    requires Inv(s)
    decreases |actions|
  {
    actions == [] ||
    (CanAct(s, actions[0]) &&
     (ActKeepsInv(s, actions[0], again); IsTrace(Act(s, actions[0], again), actions[1..], again)))
  }

  ghost function Outcome(s: State, actions: seq<Action>, again: bool): (e: State)
    requires Inv(s) && IsTrace(s, actions, again)
    ensures Inv(e)
    decreases |actions|
  {
    if actions == [] then s
    else
      ActKeepsInv(s, actions[0], again);
      Outcome(Act(s, actions[0], again), actions[1..], again)
  }

  /** Whatever the loop test decides, somebody holds the lock afterwards. */
  lemma AttemptKeepsInv(s: State, t: Thread, access: Access)
    requires Consistent(s) && t !in s.sys.waiters
    ensures Inv(Attempted(s, t, access))
  {
    if Blocked(s.readers, s.writers, access) {
      InvStep(s.sys, DoBegin(t));
      assert Timely(s.sys, DoBegin(t));
      SleepsFor(s, t, access, C.Next(s.sys, DoBegin(t)));
    } else {
      hide C.Inv, C.Next;
    }
  }

  lemma SleepsFor(s: State, t: Thread, access: Access, sys: System)
    requires Consistent(s) && Blocked(s.readers, s.writers, access)
    requires C.Inv(sys) && sys.waiters.Keys == s.sys.waiters.Keys + {t}
    ensures Inv(s.(sys := sys, wants := s.wants[t := access]))
  {
    hide C.Inv;
  }

  lemma UnlockKeepsInv(s: State, t: Thread, access: Access, again: bool)
    requires Inv(s) && CanAct(s, Unlock(t, access))
    ensures Inv(Act(s, Unlock(t, access), again))
  {
    InvStep(s.sys, DoSignal);
    assert s.sys.waiters == map[] || |s.sys.waiters| > 0;
    assert Next(s.sys, DoSignal).waiters == s.sys.waiters;
    assert s.wants != map[] ==> s.sys.waiters != map[];
  }

  lemma ActKeepsInv(s: State, a: Action, again: bool)
    requires Inv(s) && CanAct(s, a)
    ensures Inv(Act(s, a, again))
  {
    match a
    case Lock(t, access) =>
      AttemptKeepsInv(s, t, access);
    case TryLock(t, access) =>
    case Unlock(t, access) =>
      UnlockKeepsInv(s, t, access, again);
    case Resume(t) =>
      ResumeKeepsInv(s, t, again);
  }

  lemma ResumeKeepsInv(s: State, t: Thread, again: bool)
    requires Inv(s) && CanAct(s, Resume(t))
    ensures Inv(Act(s, Resume(t), again))
  {
    if Wakes(s, Resume(t)) {
      InvStep(s.sys, DoRecheck(t));
      AttemptKeepsInv(s.(sys := Next(s.sys, DoRecheck(t)), wants := s.wants - {t},
                         owner := t, depth := s.depth + if again then 1 else 0), t, s.wants[t]);
      hide C.Inv, Attempted;
    }
  }

  /** The turn of `t` takes it out of its wait with the access it asked for. */
  ghost predicate AwakensIn(s: State, t: Thread, again: bool)
    requires Inv(s)
  {
    CanAct(s, Resume(t)) &&
    var e := Act(s, Resume(t), again);
    t !in e.wants && t in (if s.wants[t] == Reader then e.reading else e.writing)
  }

  /** When the lock is free, the sleepers that the signals were meant for, and no others, get it on
      their next turn, which the event lets them take; there is one as soon as anybody sleeps. But
      the turn needs the critical section. */
  lemma NoLostWakeup(s: State, again: bool)
    requires Inv(s) && s.wants != map[] && s.readers == s.writers == 0
    ensures s.sys.c.event && Eligible(s.sys) != {}
    ensures forall t :: AwakensIn(s, t, again) <==> t in Eligible(s.sys) && Admits(s, t)
    ensures (exists t :: AwakensIn(s, t, again)) <==> s.depth == 0 || s.owner in Eligible(s.sys)
  {
    assert |Eligible(s.sys)| > 0;
    var t :| t in Eligible(s.sys);
    forall t ensures AwakensIn(s, t, again) <==> t in Eligible(s.sys) && Admits(s, t) {
    }
    if s.depth == 0 {
      assert AwakensIn(s, t, again);
    } else if s.owner in Eligible(s.sys) {
      assert AwakensIn(s, s.owner, again);
    }
  }

  /** The thread holds the lock once more for the access, and nothing else about the holders has
      changed. */
  predicate Gains(s: State, e: State, t: Thread, access: Access) {
    && e.reading == s.reading + (if access == Reader then multiset{t} else multiset{})
    && e.writing == s.writing + (if access == Writer then multiset{t} else multiset{})
  }

  predicate SameHolders(s: State, e: State) {
    e.reading == s.reading && e.writing == s.writing
  }

  /** Nobody holds the lock in a way that keeps this access out: a writer admits no one, and
      readers admit readers. */
  predicate Compatible(s: State, access: Access) {
    s.writing == multiset{} && (access == Writer ==> s.reading == multiset{})
  }

  lemma AttemptedExactly(s: State, t: Thread, access: Access)
    requires s.readers == |s.reading| && s.writers == |s.writing| && t !in s.sys.waiters
    ensures var e := Attempted(s, t, access);
      if Compatible(s, access)
      then Gains(s, e, t, access) && e.wants == s.wants && e.sys == s.sys
      else SameHolders(s, e) && e.wants == s.wants[t := access] && e.sys.waiters.Keys == s.sys.waiters.Keys + {t}
  {
    NobodyCounted(s.reading);
    NobodyCounted(s.writing);
  }

  /** Who gets the lock when, in every state of every trace: a reader exactly when nobody writes, a
      writer exactly when nobody holds it at all, whether the thread comes for it or was woken. A
      thread that does not get it sleeps for it, unless it only tried. */
  lemma GrantedExactly(s: State, a: Action, again: bool)
    requires Inv(s) && CanAct(s, a)
    ensures var e := Act(s, a, again);
      match a
      case Lock(t, access) =>
        if Compatible(s, access) then Gains(s, e, t, access) && e.wants == s.wants
        else SameHolders(s, e) && e.wants == s.wants[t := access]
      case TryLock(t, access) =>
        if Compatible(s, access) then Gains(s, e, t, access) && e.wants == s.wants
        else e == s
      case Unlock(t, access) =>
        && Gains(e, s, t, access) && e.wants == s.wants
        && e.sys.c.toRelease == s.sys.c.toRelease + if |s.wants.Keys| > s.sys.c.toRelease then 1 else 0
      case Resume(t) =>
        if s.sys.c.toRelease == 0 || t !in Eligible(s.sys) then e == s
        else if Compatible(s, s.wants[t]) then Gains(s, e, t, s.wants[t]) && e.wants == s.wants - {t}
        else SameHolders(s, e) && e.wants == s.wants
  {
    match a
    case Lock(t, access) =>
      AttemptedExactly(s, t, access);
      hide Inv, Attempted, Gains, Compatible, SameHolders;
    case TryLock(t, access) =>
      TriedExactly(s, t, access, again);
      hide Inv, Act, Gains, Compatible, SameHolders;
    case Unlock(t, access) =>
      ReleasedExactly(s, t, access, again);
      hide Inv, Act, Gains, Compatible, SameHolders;
    case Resume(t) =>
      ResumedExactly(s, t, again);
      hide Inv, Act, Gains, Compatible, SameHolders;
  }

  lemma TriedExactly(s: State, t: Thread, access: Access, again: bool)
    requires Inv(s) && CanAct(s, TryLock(t, access))
    ensures var e := Act(s, TryLock(t, access), again);
      if Compatible(s, access) then Gains(s, e, t, access) && e.wants == s.wants else e == s
  {
    NotBoth(s, t, access);
    hide C.Inv, Compatible, Blocked;
  }

  lemma ReleasedExactly(s: State, t: Thread, access: Access, again: bool)
    requires Inv(s) && CanAct(s, Unlock(t, access))
    ensures var e := Act(s, Unlock(t, access), again);
      && Gains(e, s, t, access) && e.wants == s.wants
      && e.sys.c.toRelease == s.sys.c.toRelease + if |s.wants.Keys| > s.sys.c.toRelease then 1 else 0
  {
    TakeBack(if access == Reader then s.reading else s.writing, t);
    ReleasedStep(s.sys, DoSignal);
    assert |s.wants.Keys| == |s.sys.waiters.Keys| == |s.sys.waiters|;
    assert C.Next(s.sys, DoSignal).released == s.sys.released;
    hide C.Inv, C.Next, Awaited, Exclusive;
  }

  lemma TakeBack(m: multiset<Thread>, t: Thread)
    requires t in m
    ensures m == m - multiset{t} + multiset{t}
  {
  }

  lemma NotBoth(s: State, t: Thread, access: Access)
    requires Consistent(s)
    ensures Blocked(s.readers, s.writers, access) <==> !Compatible(s, access)
  {
    NobodyCounted(s.reading);
    NobodyCounted(s.writing);
  }

  lemma ResumedExactly(s: State, t: Thread, again: bool)
    requires Inv(s) && CanAct(s, Resume(t))
    ensures var e := Act(s, Resume(t), again);
      if s.sys.c.toRelease == 0 || t !in Eligible(s.sys) then e == s
      else if Compatible(s, s.wants[t]) then Gains(s, e, t, s.wants[t]) && e.wants == s.wants - {t}
      else SameHolders(s, e) && e.wants == s.wants
  {
    assert t in s.sys.waiters;
    assert Wakes(s, Resume(t)) <==> s.sys.c.toRelease > 0 && t in Eligible(s.sys);
    if Wakes(s, Resume(t)) {
      var woken := s.(sys := C.Next(s.sys, DoRecheck(t)), wants := s.wants - {t},
                      owner := t, depth := s.depth + if again then 1 else 0);
      assert (s.wants - {t})[t := s.wants[t]] == s.wants;
      assert Act(s, Resume(t), again) == Attempted(woken, t, s.wants[t]);
      AttemptedExactly(woken, t, s.wants[t]);
      hide Attempted, C.Inv, C.Next, Wakes, Eligible, Act;
    }
  }

  lemma NobodyCounted(m: multiset<Thread>)
    ensures |m| == 0 <==> m == multiset{}
  {
  }

  /** No action of the trace ends a wait. */
  ghost predicate NoneWakes(s: State, actions: seq<Action>, again: bool)
    requires Inv(s) && IsTrace(s, actions, again)
    decreases |actions|
  {
    actions == [] ||
    (ActKeepsInv(s, actions[0], again);
     !Wakes(s, actions[0]) && NoneWakes(Act(s, actions[0], again), actions[1..], again))
  }

  /** The critical section over a trace: repaired, it is always left again; as written, each wait
      that ends keeps it once more, and then nobody but its owner acts. */
  lemma {:induction false} Entries(s: State, actions: seq<Action>, again: bool)
    requires Inv(s) && IsTrace(s, actions, again)
    ensures var e := Outcome(s, actions, again);
      && e.depth >= s.depth
      && (e.depth == s.depth <==> !again || NoneWakes(s, actions, again))
      && (s.depth > 0 ==> e.owner == s.owner && forall k :: 0 <= k < |actions| ==> actions[k].t == s.owner)
    decreases |actions|
  {
    if actions != [] {
      ActKeepsInv(s, actions[0], again);
      EntriesStep(s, actions[0], again);
      hide Inv, Act, CanAct, Wakes;
      Entries(Act(s, actions[0], again), actions[1..], again);
    }
  }

  lemma EntriesStep(s: State, a: Action, again: bool)
    requires Inv(s) && CanAct(s, a)
    ensures var s' := Act(s, a, again);
      && s'.depth == s.depth + (if again && Wakes(s, a) then 1 else 0)
      && (s.depth > 0 ==> s'.owner == s.owner == a.t)
  {
  }

  /** With the condition repaired, in every trace from the constructor on and for any number of
      threads: a writer is never together with a reader or another writer, and no sleeper is
      forgotten. */
  lemma EveryTrace(actions: seq<Action>)
    requires (FreeInv(); IsTrace(FREE, actions, false))
    ensures var e := Outcome(FREE, actions, false);
      && Exclusive(e) && e.readers == |e.reading| && e.writers == |e.writing|
      && (forall t :: Admits(e, t))
      && (e.wants != map[] && e.readers == e.writers == 0 ==> e.sys.c.event && exists t :: AwakensIn(e, t, false))
  {
    FreeInv();
    var e := Outcome(FREE, actions, false);
    Entries(FREE, actions, false);
    if e.wants != map[] && e.readers == e.writers == 0 {
      NoLostWakeup(e, false);
    }
  }

  /** As written, a writer is still alone in every trace; but the lock works for others than the
      one thread that keeps the critical section exactly as long as no wait has ended. */
  lemma EveryTraceAsWritten(actions: seq<Action>)
    requires (FreeInv(); IsTrace(FREE, actions, true))
    ensures var e := Outcome(FREE, actions, true);
      var fine := NoneWakes(FREE, actions, true);
      && Exclusive(e) && e.readers == |e.reading| && e.writers == |e.writing|
      && ((forall t :: Admits(e, t)) <==> fine)
      && (!fine ==> forall t :: Admits(e, t) <==> t == e.owner)
      && (e.wants != map[] && e.readers == e.writers == 0 ==>
            ((exists t :: AwakensIn(e, t, true)) <==> fine || e.owner in Eligible(e.sys)))
  {
    FreeInv();
    var e := Outcome(FREE, actions, true);
    Entries(FREE, actions, true);
    if e.depth > 0 {
      assert !Admits(e, e.owner + 1);
    }
    if e.wants != map[] && e.readers == e.writers == 0 {
      NoLostWakeup(e, true);
    }
  }

  /** From the first wait that ends on, whatever follows is done by the thread that waited. */
  lemma NobodyElse(actions: seq<Action>, more: seq<Action>)
    requires (FreeInv(); IsTrace(FREE, actions, true) && !NoneWakes(FREE, actions, true))
    requires (FreeInv(); IsTrace(Outcome(FREE, actions, true), more, true))
    ensures forall k :: 0 <= k < |more| ==> more[k].t == Outcome(FREE, actions, true).owner
  {
    Entries(FREE, actions, true);
    Entries(Outcome(FREE, actions, true), more, true);
  }

  /** A second writer sleeps and is signalled when the first one unlocks. */
  const SIGNALLED := State(
    System(Counters(1, 1, 1, true), map[2 := 0], []), 0, 0, map[2 := Writer], multiset{}, multiset{}, 0, 0)

  lemma FirstWriter()
    ensures Inv(FREE) && IsTrace(FREE, [Lock(1, Writer), Lock(2, Writer), Unlock(1, Writer)], true)
    ensures Outcome(FREE, [Lock(1, Writer), Lock(2, Writer), Unlock(1, Writer)], true) == SIGNALLED
  {
    FreeInv();
    var s1 := Step(FREE, Lock(1, Writer));
    assert s1 == FREE.(writers := 1, writing := multiset{1});
    var s2 := Step(s1, Lock(2, Writer));
    assert s2 == s1.(sys := System(Counters(1, 0, 0, false), map[2 := 0], []), wants := map[2 := Writer]);
    assert Step(s2, Unlock(1, Writer)) == SIGNALLED;
    hide Inv, Act, CanAct;
    TraceCons(s2, Unlock(1, Writer), []);
    TraceCons(s1, Lock(2, Writer), [Unlock(1, Writer)]);
    TraceCons(FREE, Lock(1, Writer), [Lock(2, Writer), Unlock(1, Writer)]);
  }

  lemma SecondWriter()
    ensures Inv(SIGNALLED) && IsTrace(SIGNALLED, [Resume(2), Unlock(2, Writer)], true)
    ensures var e := Outcome(SIGNALLED, [Resume(2), Unlock(2, Writer)], true);
      e.readers == e.writers == 0 && e.wants == map[] && e.owner == 2 && e.depth == 1
  {
    hide Inv, IsTrace, Outcome;
    FirstWriter();
    assert CanAct(SIGNALLED, Resume(2)) && Wakes(SIGNALLED, Resume(2));
    assert map[2 := Writer] - {2} == map[] && map[2 := 0] - {2} == map[];
    var s1 := Step(SIGNALLED, Resume(2));
    assert s1 == State(System(Counters(0, 0, 1, false), map[], [2]), 0, 1, map[], multiset{}, multiset{2}, 2, 1);
    var s2 := Step(s1, Unlock(2, Writer));
    EmptyTrace(s2, true);
    TraceCons(s1, Unlock(2, Writer), []);
    assert [Unlock(2, Writer)] + [] == [Unlock(2, Writer)];
    TraceCons(SIGNALLED, Resume(2), [Unlock(2, Writer)]);
    assert [Resume(2)] + [Unlock(2, Writer)] == [Resume(2), Unlock(2, Writer)];
  }

  /** A writer that waits for another once: when both have unlocked, the lock is free and nobody
      sleeps, and yet only the second thread is admitted. */
  lemma OneWaitLocksOut() returns (actions: seq<Action>)
    ensures Inv(FREE) && IsTrace(FREE, actions, true)
    ensures var e := Outcome(FREE, actions, true);
      e.readers == e.writers == 0 && e.wants == map[] && forall t :: Admits(e, t) <==> t == 2
  {
    FirstWriter();
    SecondWriter();
    hide Inv, Act, CanAct;
    actions := [Lock(1, Writer), Lock(2, Writer), Unlock(1, Writer)] + [Resume(2), Unlock(2, Writer)];
    TraceConcat(FREE, actions[..3], actions[3..], true);
  }

  lemma {:induction false} TraceConcat(s: State, front: seq<Action>, rest: seq<Action>, again: bool)
    requires Inv(s) && IsTrace(s, front, again) && IsTrace(Outcome(s, front, again), rest, again)
    ensures IsTrace(s, front + rest, again)
    ensures Outcome(s, front + rest, again) == Outcome(Outcome(s, front, again), rest, again)
    decreases |front|
  {
    hide Inv, Act, CanAct;
    if front == [] {
      assert front + rest == rest;
    } else {
      ActKeepsInv(s, front[0], again);
      TraceConcat(Act(s, front[0], again), front[1..], rest, again);
      assert (front + rest)[1..] == front[1..] + rest;
    }
  }

  ghost function Step(s: State, a: Action): (s': State)
    requires Inv(s) && CanAct(s, a)
    ensures Inv(s')
  {
    ActKeepsInv(s, a, true);
    Act(s, a, true)
  }

  lemma EmptyTrace(s: State, again: bool)
    requires Inv(s)
    ensures IsTrace(s, [], again) && Outcome(s, [], again) == s
  {
  }

  lemma TraceCons(s: State, a: Action, rest: seq<Action>)
    requires Inv(s) && CanAct(s, a) && IsTrace(Step(s, a), rest, true)
    ensures IsTrace(s, [a] + rest, true)
    ensures Outcome(s, [a] + rest, true) == Outcome(Step(s, a), rest, true)
  {
    assert ([a] + rest)[1..] == rest;
  }
}
