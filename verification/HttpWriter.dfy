/** The response queue of src/ge/http/HttpServer.cpp: addWriteData and writeCallback on the linked
    list of WriteEntry. A callback detaches the head under the lock of the session; freeing the
    entry and closing the socket come after the lock was released, so callbacks overlap. */
module HttpWriter {
  import opened Basics

  datatype Item = Item(data: seq<Byte>, freeData: bool)

  /** Everything added, with the lastData marks; items are known by their place there. The first
      `done` were detached, the others are the list. `writing` says that a socket write is
      outstanding, always for the head of the list. `flights` are the callbacks that have detached
      an item and not yet freed it, with their sessionComplete, and `closings` those that have
      freed it and are about to close the socket; `released` are the freed items in order. */
  datatype Queue = Queue(
    added: seq<Item>, marks: seq<bool>, done: nat, writing: bool, active: bool, writesComplete: bool,
    flights: map<nat, bool>, closings: set<nat>, released: seq<nat>, failed: bool, closed: bool)

  const EMPTY := Queue([], [], 0, false, false, false, map[], {}, [], false, false)

  function Pending(q: Queue): seq<Item>
    requires q.done <= |q.added|
  {
    q.added[q.done..]
  }

  function Added(q: Queue, item: Item, lastData: bool): Queue {
    q.(added := q.added + [item], marks := q.marks + [lastData], writesComplete := lastData,
       active := true, writing := q.writing || !q.active)
  }

  lemma AddedFields(q: Queue, item: Item, lastData: bool)
    ensures var r := Added(q, item, lastData);
      && r.added == q.added + [item] && r.done == q.done && r.flights == q.flights && r.failed == q.failed
      && r.writing == (q.writing || !q.active) && r.active && r.writesComplete == lastData && r.closed == q.closed
  {
  }

  function Detached(q: Queue): Queue {
    var more := q.done + 1 < |q.added|;
    q.(done := q.done + 1, writing := more, active := more && q.active,
       flights := q.flights[q.done := !more && q.writesComplete])
  }

  function Freed(q: Queue, id: nat): Queue
    requires id in q.flights
  {
    q.(flights := q.flights - {id}, released := q.released + [id],
       closings := if q.flights[id] then q.closings + {id} else q.closings)
  }

  lemma FreedFields(q: Queue, id: nat)
    requires id in q.flights
    ensures var r := Freed(q, id);
      && r.added == q.added && r.done == q.done && r.flights == q.flights - {id} && r.failed == q.failed
      && r.writing == q.writing && r.active == q.active && r.writesComplete == q.writesComplete && r.closed == q.closed
  {
  }

  function Closed(q: Queue, id: nat): Queue {
    q.(closings := q.closings - {id}, closed := true)
  }

  function Failed(q: Queue): Queue {
    q.(writing := false, failed := true, closed := true)
  }

  // ---- The linked list ----

  class WriteEntry {
    var next: WriteEntry?
    const item: Item
    ghost const id: nat
    /** The entry and its data were given to delete. */
    var deleted: bool
    var dataDeleted: bool

    constructor (item: Item, ghost id: nat)
      ensures this.item == item && this.id == id && next == null && !deleted && !dataDeleted
    {
      this.item, this.id := item, id;
      next, deleted, dataDeleted := null, false, false;
    }
  }

  function At(entries: seq<WriteEntry>, k: int): WriteEntry? {
    if 0 <= k < |entries| then entries[k] else null
  }

  /** The entries are distinct and each points to the one after it. */
  ghost predicate Linked(entries: seq<WriteEntry>)
    reads entries`next
  {
    && (forall k {:trigger entries[k]} :: 0 <= k < |entries| ==> entries[k].next == At(entries, k + 1))
    && (forall j, k :: 0 <= j < k < |entries| ==> entries[j] != entries[k])
  }

  /** Nothing of the entries was deleted. */
  ghost predicate Kept(entries: seq<WriteEntry>)
    reads entries`deleted, entries`dataDeleted
  {
    forall e :: e in entries ==> !e.deleted && !e.dataDeleted
  }

  /** The entries hold the items from place `done` on. */
  ghost predicate Hold(entries: seq<WriteEntry>, added: seq<Item>, done: nat) {
    && done + |entries| == |added|
    && forall k {:trigger entries[k]} :: 0 <= k < |entries| ==> entries[k].item == added[done + k] && entries[k].id == done + k
  }

  class HttpSession {
    var writeActive: bool
    var writeListHead: WriteEntry?
    var writeListTail: WriteEntry?
    var writesComplete: bool
    /** The entry whose data the socket service is writing. */
    var outstanding: WriteEntry?
    var closed: bool
    ghost var entries: seq<WriteEntry>
    ghost var view: Queue

    ghost predicate Valid()
      reads this, entries
    {
      && writeListHead == At(entries, 0)
      && writeListTail == At(entries, |entries| - 1)
      && Linked(entries)
      && Hold(entries, view.added, view.done)
      && Kept(entries)
      && (forall id :: id in view.flights ==> id < view.done)
      && (writeActive <==> entries != [])
      && (outstanding != null ==> entries != [] && outstanding == entries[0])
      && (outstanding == null && entries != [] ==> view.failed)
      && view.writing == (outstanding != null)
      && view.active == writeActive && view.writesComplete == writesComplete && view.closed == closed
    }

    constructor ()
      ensures Valid() && view == EMPTY && entries == []
    {
      writeActive, writesComplete, closed := false, false, false;
      writeListHead, writeListTail, outstanding := null, null, null;
      entries, view := [], EMPTY;
    }

    /** SocketService::socketWrite takes one write at a time. */
    method SocketWrite(entry: WriteEntry)
      requires outstanding == null
      modifies `outstanding
      ensures outstanding == entry
    {
      outstanding := entry;
    }

    /** Hangs the entry at the end of the list. */
    method Append(newEntry: WriteEntry, ghost added: seq<Item>, ghost done: nat)
      requires Hold(entries, added, done) && Kept(entries)
      requires newEntry.id == |added| && !newEntry.deleted && !newEntry.dataDeleted
      requires writeListHead == At(entries, 0) && writeListTail == At(entries, |entries| - 1) && Linked(entries)
      requires newEntry !in entries && newEntry.next == null
      modifies `writeListHead, `writeListTail, `entries, entries`next
      ensures entries == old(entries) + [newEntry] && Linked(entries)
      ensures Hold(entries, added + [newEntry.item], done) && Kept(entries)
      ensures writeListHead == entries[0] == At(entries, 0) && writeListTail == newEntry == At(entries, |entries| - 1)
      ensures old(entries) != [] ==> entries[0] == old(entries)[0]
    {
      SnocHolds(entries, added, done, newEntry);
      ghost var was := entries;
      if writeListTail == null {
        writeListHead := newEntry;
        writeListTail := newEntry;
      } else {
        writeListTail.next := newEntry;
        writeListTail := newEntry;
      }
      SnocLinked(was, newEntry);
      entries := was + [newEntry];
      SnocKept(was, newEntry);
    }

    method AddWriteData(item: Item, lastData: bool)
      requires Valid()
      modifies this, entries
      ensures Valid() && view == Added(old(view), item, lastData)
      ensures |entries| == |old(entries)| + 1 && entries[..|old(entries)|] == old(entries)
      ensures fresh(entries[|old(entries)|]) && entries[|old(entries)|].item == item
      ensures writesComplete == lastData && writeActive && closed == old(closed)
      ensures outstanding == if old(entries) == [] then entries[0] else old(outstanding)
    {
      hide Linked, Hold, Kept, Added, At;
      AddedFields(view, item, lastData);
      var newEntry := new WriteEntry(item, |view.added|);
      writesComplete := lastData;
      Append(newEntry, view.added, view.done);
      view := Added(view, item, lastData);
      if !writeActive {
        writeActive := true;
        SocketWrite(writeListHead);
      }
    }

    /** The part of writeCallback under the lock: the outstanding write has ended without an
        error. */
    method Detach() returns (prevHead: WriteEntry, sessionComplete: bool)
      requires Valid() && outstanding != null
      modifies this
      ensures Valid() && view == Detached(old(view)) && entries == old(entries)[1..]
      ensures prevHead == old(entries[0]) && prevHead.id == old(view.done)
      ensures sessionComplete == view.flights[prevHead.id] && !prevHead.deleted && !prevHead.dataDeleted
      ensures outstanding == (if entries == [] then null else entries[0]) && writeActive == (entries != [])
      ensures sessionComplete <==> entries == [] && old(writesComplete)
      ensures closed == old(closed) && writesComplete == old(writesComplete)
    {
      hide Linked, Hold;
      TailLinked(entries);
      TailHolds(entries, view.added, view.done);
      outstanding := null;
      sessionComplete := false;
      prevHead := writeListHead;
      writeListHead := writeListHead.next;
      if writeListHead == null {
        writeListTail := null;
      }
      if writeListHead != null {
        SocketWrite(writeListHead);
      } else {
        writeActive := false;
        sessionComplete := writesComplete;
      }
      entries := entries[1..];
      view := Detached(view);
    }

    /** Behind the lock: the entry is deleted, with its data if they are its own. */
    method Free(prevHead: WriteEntry, sessionComplete: bool)
      requires Valid() && prevHead.id in view.flights && view.flights[prevHead.id] == sessionComplete
      requires !prevHead.deleted && !prevHead.dataDeleted
      modifies `view, prevHead`deleted, prevHead`dataDeleted
      ensures Valid() && view == Freed(old(view), prevHead.id)
      ensures prevHead.deleted && prevHead.dataDeleted == prevHead.item.freeData
    {
      hide Linked, Hold, Freed;
      NotListed(entries, view.added, view.done, prevHead);
      FreedFields(view, prevHead.id);
      if prevHead.item.freeData {
        prevHead.dataDeleted := true;
      }
      prevHead.deleted := true;
      view := Freed(view, prevHead.id);
    }

    /** The end of a callback that found the session complete. */
    method Close(ghost id: nat)
      requires Valid() && id in view.closings
      modifies `closed, `view
      ensures Valid() && view == Closed(old(view), id) && closed
    {
      closed := true;
      view := Closed(view, id);
    }

    /** writeCallback as a whole, when no other thread comes between its parts. */
    method WriteCallback(error: bool)
      requires Valid() && outstanding != null
      modifies this, entries
      ensures Valid()
      ensures error ==> view == Failed(old(view))
      ensures !error ==>
        var id := old(view.done); var d := Detached(old(view)); var f := Freed(d, id);
        view == if d.flights[id] then Closed(f, id) else f
      ensures entries == if error then old(entries) else old(entries)[1..]
      ensures outstanding == if error || entries == [] then null else entries[0]
      ensures closed <==> old(closed) || error || (entries == [] && old(writesComplete))
    {
      hide Linked, Hold;
      if error {
        outstanding := null;
        closed := true;
        view := Failed(view);
        return;
      }
      var prevHead, sessionComplete := Detach();
      Free(prevHead, sessionComplete);
      if sessionComplete {
        Close(prevHead.id);
      }
    }
  }

  /** A response in two pieces, written without errors: both entries are freed in order, and then
      the socket is closed. */
  method TwoPieces(first: Item, second: Item) returns (s: HttpSession)
    ensures fresh(s) && s.Valid() && s.entries == [] && s.closed && s.view.released == [0, 1]
  {
    hide Linked, Hold, Kept, At;
    s := new HttpSession();
    s.AddWriteData(first, false);
    s.AddWriteData(second, true);
    s.WriteCallback(false);
    s.WriteCallback(false);
  }

  /** The second piece is added between the two parts of the callback for the first. */
  method AddWithinCallback(first: Item, second: Item) returns (s: HttpSession)
    ensures fresh(s) && s.Valid() && s.entries == [] && s.closed && s.view.released == [0, 1]
  {
    hide Linked, Hold, Kept, At;
    s := new HttpSession();
    s.AddWriteData(first, false);
    var entry, complete := s.Detach();
    s.AddWriteData(second, true);
    s.Free(entry, complete);
    s.WriteCallback(false);
  }

  /** Hanging `e` behind the last entry. */
  twostate lemma SnocLinked(entries: seq<WriteEntry>, new e: WriteEntry)
    requires old(Linked(entries)) && e !in entries && e.next == null
    requires forall k :: 0 <= k < |entries| - 1 ==> entries[k].next == old(entries[k].next)
    requires entries != [] ==> entries[|entries| - 1].next == e
    ensures Linked(entries + [e])
  {
    var all := entries + [e];
    forall k | 0 <= k < |all| ensures all[k].next == At(all, k + 1) {
      if k < |entries| - 1 {
        assert old(entries[k].next == At(entries, k + 1));
      }
    }
  }

  lemma TailLinked(entries: seq<WriteEntry>)
    requires entries != [] && Linked(entries)
    ensures Linked(entries[1..]) && entries[0].next == At(entries[1..], 0)
    ensures At(entries[1..], |entries| - 2) == if |entries| == 1 then null else At(entries, |entries| - 1)
  {
    var rest := entries[1..];
    forall k | 0 <= k < |rest| ensures rest[k].next == At(rest, k + 1) {
      assert rest[k] == entries[k + 1];
    }
  }

  lemma SnocKept(entries: seq<WriteEntry>, e: WriteEntry)
    requires Kept(entries) && !e.deleted && !e.dataDeleted
    ensures Kept(entries + [e])
  {
  }

  lemma NotListed(entries: seq<WriteEntry>, added: seq<Item>, done: nat, e: WriteEntry)
    requires Hold(entries, added, done) && e.id < done
    ensures e !in entries
  {
  }

  lemma SnocHolds(entries: seq<WriteEntry>, added: seq<Item>, done: nat, e: WriteEntry)
    requires Hold(entries, added, done) && e.id == |added|
    ensures Hold(entries + [e], added + [e.item], done)
  {
  }

  lemma TailHolds(entries: seq<WriteEntry>, added: seq<Item>, done: nat)
    requires entries != [] && Hold(entries, added, done)
    ensures Hold(entries[1..], added, done + 1) && entries[0].id == done
    ensures done + 1 < |added| <==> |entries| > 1
  {
    var rest := entries[1..];
    forall k | 0 <= k < |rest| ensures rest[k].item == added[done + 1 + k] && rest[k].id == done + 1 + k {
      assert rest[k] == entries[k + 1];
    }
  }

  // ---- Every run ----

  /** What one thread does at a time: an add, or a part of a callback. */
  datatype Step = Add(item: Item, lastData: bool) | Detach | WriteError | Free(id: nat) | Close(id: nat)

  predicate Enabled(q: Queue, step: Step) {
    match step
    case Add(_, _) => true
    case Detach => q.writing
    case WriteError => q.writing
    case Free(id) => id in q.flights
    case Close(id) => id in q.closings
  }

  function Next(q: Queue, step: Step): Queue
    requires Enabled(q, step)
  {
    match step
    case Add(item, lastData) => Added(q, item, lastData)
    case Detach => Detached(q)
    case WriteError => Failed(q)
    case Free(id) => Freed(q, id)
    case Close(id) => Closed(q, id)
  }

  predicate Distinct(s: seq<nat>) {
    forall i, j :: 0 <= i < j < |s| ==> s[i] != s[j]
  }

  /** A write is outstanding only for the head, and without an error whenever there is one; the
      active flag tells whether the list is empty. */
  predicate ListInv(q: Queue) {
    && |q.marks| == |q.added| && q.done <= |q.added|
    && (q.writing ==> q.done < |q.added|)
    && (q.done < |q.added| && !q.writing ==> q.failed)
    && (q.active <==> q.done < |q.added|)
    && (q.writesComplete <==> q.marks != [] && q.marks[|q.marks| - 1])
  }

  /** Each detached item is either in a callback or freed, and freed once; a callback that closes
      or will close has detached an item marked as the last. */
  ghost predicate FlightInv(q: Queue) {
    && |q.marks| >= q.done
    && (forall id :: id in q.flights ==> id < q.done && id !in q.released)
    && (forall id :: id in q.released ==> id < q.done)
    && (forall id: nat :: id < q.done ==> id in q.flights || id in q.released)
    && Distinct(q.released)
    && (forall id :: id in q.flights && q.flights[id] ==> q.marks[id])
    && (forall id :: id in q.closings ==> id in q.released && q.marks[id])
  }

  ghost predicate Inv(q: Queue) {
    ListInv(q) && FlightInv(q)
  }

  lemma EmptyInv()
    ensures Inv(EMPTY)
  {
  }

  lemma InvStep(q: Queue, step: Step)
    requires Inv(q) && Enabled(q, step)
    ensures Inv(Next(q, step))
  {
    hide Next;
    ListStep(q, step);
    FlightStep(q, step);
    hide ListInv, FlightInv;
  }

  lemma ListStep(q: Queue, step: Step)
    requires ListInv(q) && Enabled(q, step)
    ensures ListInv(Next(q, step))
  {
  }

  lemma FlightStep(q: Queue, step: Step)
    requires Inv(q) && Enabled(q, step)
    ensures FlightInv(Next(q, step))
  {
  }

  ghost predicate IsRun(q: Queue, steps: seq<Step>)
    decreases |steps|
  {
    steps == [] || (Enabled(q, steps[0]) && IsRun(Next(q, steps[0]), steps[1..]))
  }

  ghost function After(q: Queue, steps: seq<Step>): Queue
    requires IsRun(q, steps)
    decreases |steps|
  {
    if steps == [] then q else After(Next(q, steps[0]), steps[1..])
  }

  lemma {:induction false} InvRun(q: Queue, steps: seq<Step>)
    requires Inv(q) && IsRun(q, steps)
    ensures Inv(After(q, steps))
    decreases |steps|
  {
    hide Inv, Enabled, Next;
    if steps != [] {
      InvStep(q, steps[0]);
      InvRun(Next(q, steps[0]), steps[1..]);
    }
  }

  /** The items and marks of the adds of a run, and how many heads it detaches. */
  function Items(steps: seq<Step>): seq<Item>
    decreases |steps|
  {
    if steps == [] then [] else (if steps[0].Add? then [steps[0].item] else []) + Items(steps[1..])
  }

  function Marks(steps: seq<Step>): seq<bool>
    decreases |steps|
  {
    if steps == [] then [] else (if steps[0].Add? then [steps[0].lastData] else []) + Marks(steps[1..])
  }

  function Detaches(steps: seq<Step>): nat
    decreases |steps|
  {
    if steps == [] then 0 else (if steps[0].Detach? then 1 else 0) + Detaches(steps[1..])
  }

  /** Over a run the additions pile up in order, and what was freed stays so, in its order. */
  lemma {:induction false} RunCounts(q: Queue, steps: seq<Step>)
    requires IsRun(q, steps)
    ensures var e := After(q, steps);
      && e.added == q.added + Items(steps) && e.marks == q.marks + Marks(steps)
      && e.done == q.done + Detaches(steps) && |Marks(steps)| == |Items(steps)|
      && q.released <= e.released && (q.closed ==> e.closed)
    decreases |steps|
  {
    if steps != [] {
      var q' := Next(q, steps[0]);
      StepCounts(q, steps[0]);
      hide Next, Enabled;
      RunCounts(q', steps[1..]);
      Regroup(q.added, if steps[0].Add? then [steps[0].item] else [], Items(steps[1..]));
      Regroup(q.marks, if steps[0].Add? then [steps[0].lastData] else [], Marks(steps[1..]));
    }
  }

  lemma StepCounts(q: Queue, step: Step)
    requires Enabled(q, step)
    ensures var q' := Next(q, step);
      && q'.added == q.added + (if step.Add? then [step.item] else [])
      && q'.marks == q.marks + (if step.Add? then [step.lastData] else [])
      && q'.done == q.done + (if step.Detach? then 1 else 0)
      && q.released <= q'.released && (q.closed ==> q'.closed)
  {
  }

  /** At every point of every run from the start: what was detached and what is listed is
      everything added, in order; of the detached items each is freed once and only after its
      write, except those whose callback has not come to it yet. */
  lemma EveryRun(steps: seq<Step>)
    requires IsRun(EMPTY, steps)
    ensures var e := After(EMPTY, steps);
      && Inv(e)
      && e.added == Items(steps) && e.marks == Marks(steps) && e.done == Detaches(steps) <= |Items(steps)|
      && multiset(e.released) + multiset(e.flights.Keys) == multiset(Places(e.done))
  {
    InvRun(EMPTY, steps);
    RunCounts(EMPTY, steps);
    var e := After(EMPTY, steps);
    Partition(e.released, e.flights.Keys, e.done);
  }

  function Places(n: nat): (r: set<nat>)
    ensures forall id: nat :: id in r <==> id < n
  {
    if n == 0 then {} else Places(n - 1) + {n - 1}
  }

  lemma Partition(released: seq<nat>, flying: set<nat>, done: nat)
    requires Distinct(released)
    requires forall id :: id in flying ==> id < done && id !in released
    requires forall id :: id in released ==> id < done
    requires forall id: nat :: id < done ==> id in flying || id in released
    ensures multiset(released) + multiset(flying) == multiset(Places(done))
  {
    forall id: nat ensures multiset(released)[id] == if id in released then 1 else 0 {
      Once(released, id);
    }
  }

  lemma {:induction false} Once(s: seq<nat>, id: nat)
    requires Distinct(s)
    ensures multiset(s)[id] == if id in s then 1 else 0
  {
    if s != [] {
      var front, last := s[..|s| - 1], s[|s| - 1];
      Once(front, id);
      assert s == front + [last];
      assert last !in front;
    }
  }

  /** Two callbacks may free their entries in either order. */
  lemma FreesOutOfOrder(a: Item, b: Item)
    ensures var steps := [Add(a, false), Add(b, true), Detach, Detach, Free(1), Free(0)];
      IsRun(EMPTY, steps) && After(EMPTY, steps).released == [1, 0]
  {
    var q1 := Next(EMPTY, Add(a, false));
    var q2 := Next(q1, Add(b, true));
    var q3 := Next(q2, Detach);
    var q4 := Next(q3, Detach);
    var q5 := Next(q4, Free(1));
    var q6 := Next(q5, Free(0));
    hide Next, Enabled;
    RunCons(q5, Free(0), []);
    RunCons(q4, Free(1), [Free(0)]);
    RunCons(q3, Detach, [Free(1), Free(0)]);
    RunCons(q2, Detach, [Detach, Free(1), Free(0)]);
    RunCons(q1, Add(b, true), [Detach, Detach, Free(1), Free(0)]);
    RunCons(EMPTY, Add(a, false), [Add(b, true), Detach, Detach, Free(1), Free(0)]);
  }

  lemma RunCons(q: Queue, step: Step, rest: seq<Step>)
    requires Enabled(q, step) && IsRun(Next(q, step), rest)
    ensures IsRun(q, [step] + rest) && After(q, [step] + rest) == After(Next(q, step), rest)
  {
    assert ([step] + rest)[1..] == rest;
  }

  lemma {:induction false} RunConcat(q: Queue, front: seq<Step>, rest: seq<Step>)
    requires IsRun(q, front) && IsRun(After(q, front), rest)
    ensures IsRun(q, front + rest) && After(q, front + rest) == After(After(q, front), rest)
    decreases |front|
  {
    hide Next, Enabled;
    if front == [] {
      assert front + rest == rest;
    } else {
      RunConcat(Next(q, front[0]), front[1..], rest);
      assert (front + rest)[1..] == front[1..] + rest;
    }
  }

  // ---- When the session closes ----

  /** Some callback has closed the socket or will. */
  ghost predicate Ending(q: Queue) {
    q.closed || q.closings != {} || exists id :: id in q.flights && q.flights[id]
  }

  /** Turn `k` of the run empties the list after an add marked as the last. */
  ghost predicate DrainedAt(q: Queue, steps: seq<Step>, k: nat)
    requires IsRun(q, steps)
    decreases |steps|
  {
    k < |steps| &&
    if k > 0 then DrainedAt(Next(q, steps[0]), steps[1..], k - 1)
    else steps[0].Detach? && q.done + 1 >= |q.added| && q.writesComplete
  }

  lemma EndingStep(q: Queue, step: Step)
    requires Enabled(q, step) && !step.WriteError? && (forall id :: id in q.flights ==> id < q.done)
    ensures Ending(Next(q, step)) <==> Ending(q) || (step.Detach? && q.done + 1 >= |q.added| && q.writesComplete)
  {
    var q' := Next(q, step);
    if id :| id in q.flights && q.flights[id] {
      assert (step.Free? && step.id == id) || (id in q'.flights && q'.flights[id]);
    }
    if step.Free? && q.flights[step.id] {
      assert step.id in q'.closings;
    }
    if step.Detach? {
      assert q.done in q'.flights;
    }
    if id :| id in q'.flights && q'.flights[id] {
      assert (step.Detach? && id == q.done) || (id in q.flights && q.flights[id]);
    }
  }

  /** Without write errors, a session is closed or about to be exactly when some completion of the
      run left the list empty after an add marked as the last data. */
  lemma {:induction false} ClosedExactly(q: Queue, steps: seq<Step>)
    requires Inv(q) && IsRun(q, steps) && forall k :: 0 <= k < |steps| ==> !steps[k].WriteError?
    ensures Ending(After(q, steps)) <==> Ending(q) || exists k: nat :: DrainedAt(q, steps, k)
    decreases |steps|
  {
    if steps == [] {
      assert forall k: nat :: !DrainedAt(q, steps, k);
    } else {
      var q', rest := Next(q, steps[0]), steps[1..];
      InvStep(q, steps[0]);
      EndingStep(q, steps[0]);
      DrainedNow(q, steps);
      hide Inv, Next, Enabled, Ending, DrainedAt;
      ClosedExactly(q', rest);
    }
  }

  lemma DrainedNow(q: Queue, steps: seq<Step>)
    requires IsRun(q, steps) && steps != []
    ensures (exists k: nat :: DrainedAt(q, steps, k)) <==>
      || (steps[0].Detach? && q.done + 1 >= |q.added| && q.writesComplete)
      || exists k: nat :: DrainedAt(Next(q, steps[0]), steps[1..], k)
  {
    var q', rest := Next(q, steps[0]), steps[1..];
    if k: nat :| DrainedAt(q, steps, k) {
      if k > 0 {
        assert DrainedAt(q', rest, k - 1);
        assert exists j: nat :: DrainedAt(q', rest, j);
      }
    }
    if k: nat :| DrainedAt(q', rest, k) {
      assert DrainedAt(q, steps, k + 1);
      assert exists j: nat :: DrainedAt(q, steps, j);
    }
    if steps[0].Detach? && q.done + 1 >= |q.added| && q.writesComplete {
      var k: nat := 0;
      assert DrainedAt(q, steps, k);
      assert exists j: nat :: DrainedAt(q, steps, j);
    }
  }

  // ---- What a close meets ----

  /** A completion empties the list after the last data. When its callback comes to the close, the
      list is filled again exactly when more adds than completions came in between; while none was
      completed, when any add came. */
  lemma CloseMeets(q: Queue, steps: seq<Step>)
    requires Inv(q) && q.writing && q.done + 1 == |q.added| && q.writesComplete
    requires IsRun(Next(q, Detach), steps)
    ensures Next(q, Detach).flights[q.done]
    ensures var e := After(Next(q, Detach), steps);
      && e.done <= |e.added|
      && (Pending(e) != [] <==> |Items(steps)| > Detaches(steps))
      && (Detaches(steps) == 0 ==> (Pending(e) != [] <==> exists k :: 0 <= k < |steps| && steps[k].Add?))
  {
    var d := Next(q, Detach);
    InvStep(q, Detach);
    InvRun(d, steps);
    RunCounts(d, steps);
    SomeAdd(steps);
  }

  lemma {:induction false} SomeAdd(steps: seq<Step>)
    ensures Items(steps) != [] <==> exists k :: 0 <= k < |steps| && steps[k].Add?
    decreases |steps|
  {
    if steps != [] {
      SomeAdd(steps[1..]);
      if k :| 0 <= k < |steps[1..]| && steps[1..][k].Add? {
        assert steps[k + 1].Add?;
      }
      if k :| 0 <= k < |steps| && steps[k].Add? {
        assert k > 0 ==> steps[1..][k - 1].Add?;
      }
    }
  }

  /** Every close of the run finds the list empty. */
  ghost predicate NoEarlyClose(q: Queue, steps: seq<Step>)
    requires IsRun(q, steps)
    decreases |steps|
  {
    steps == [] ||
    ((steps[0].Close? ==> q.done >= |q.added|) && NoEarlyClose(Next(q, steps[0]), steps[1..]))
  }

  /** Nothing is added after an add marked as the last. */
  predicate OnlyLast(marks: seq<bool>) {
    forall k :: 0 <= k < |marks| - 1 ==> !marks[k]
  }

  lemma {:induction false} OrderlyRun(q: Queue, steps: seq<Step>)
    requires Inv(q) && IsRun(q, steps) && OnlyLast(q.marks + Marks(steps))
    ensures NoEarlyClose(q, steps)
    decreases |steps|
  {
    if steps != [] {
      InvStep(q, steps[0]);
      StepCounts(q, steps[0]);
      if steps[0].Close? {
        assert (q.marks + Marks(steps))[steps[0].id] == q.marks[steps[0].id];
      }
      hide Inv, Enabled, Next;
      Regroup(q.marks, if steps[0].Add? then [steps[0].lastData] else [], Marks(steps[1..]));
      OrderlyRun(Next(q, steps[0]), steps[1..]);
    }
  }

  function AddSteps(items: seq<Item>, marks: seq<bool>): seq<Step>
    requires |items| == |marks|
  {
    if items == [] then [] else [Add(items[0], marks[0])] + AddSteps(items[1..], marks[1..])
  }

  function DetachSteps(n: nat): seq<Step> {
    if n == 0 then [] else [Detach] + DetachSteps(n - 1)
  }

  lemma {:induction false} AddRun(q: Queue, items: seq<Item>, marks: seq<bool>)
    requires |items| == |marks|
    ensures var steps := AddSteps(items, marks);
      && IsRun(q, steps) && Items(steps) == items && Marks(steps) == marks && Detaches(steps) == 0
      && var e := After(q, steps); e.flights == q.flights && e.closings == q.closings && e.failed == q.failed
    decreases |items|
  {
    if items != [] {
      var step := Add(items[0], marks[0]);
      AddRun(Next(q, step), items[1..], marks[1..]);
      RunCons(q, step, AddSteps(items[1..], marks[1..]));
      assert AddSteps(items, marks)[1..] == AddSteps(items[1..], marks[1..]);
    }
  }

  lemma {:induction false} DetachRun(q: Queue, n: nat)
    requires Inv(q) && !q.failed && q.done + n <= |q.added|
    ensures var steps := DetachSteps(n);
      && IsRun(q, steps) && Items(steps) == [] && Marks(steps) == [] && Detaches(steps) == n
      && var e := After(q, steps);
        n > 0 && q.done + n == |q.added| ==> e.done > 0 && e.done - 1 in e.flights && e.flights[e.done - 1] == q.writesComplete
    decreases n
  {
    if n > 0 {
      InvStep(q, Detach);
      var q' := Next(q, Detach);
      DetachRun(q', n - 1);
      RunCons(q, Detach, DetachSteps(n - 1));
      assert DetachSteps(n)[1..] == DetachSteps(n - 1);
    }
  }

  lemma {:induction false} EarlyConcat(q: Queue, front: seq<Step>, rest: seq<Step>)
    requires IsRun(q, front) && IsRun(After(q, front), rest) && !NoEarlyClose(After(q, front), rest)
    ensures IsRun(q, front + rest) && !NoEarlyClose(q, front + rest)
    decreases |front|
  {
    RunConcat(q, front, rest);
    hide Next, Enabled;
    if front == [] {
      assert front + rest == rest;
    } else {
      EarlyConcat(Next(q, front[0]), front[1..], rest);
      assert (front + rest)[1..] == front[1..] + rest;
    }
  }

  lemma {:induction false} ItemsConcat(front: seq<Step>, rest: seq<Step>)
    ensures Items(front + rest) == Items(front) + Items(rest) && Marks(front + rest) == Marks(front) + Marks(rest)
    decreases |front|
  {
    if front == [] {
      assert front + rest == rest;
    } else {
      ItemsConcat(front[1..], rest);
      assert (front + rest)[1..] == front[1..] + rest;
      Regroup(if front[0].Add? then [front[0].item] else [], Items(front[1..]), Items(rest));
      Regroup(if front[0].Add? then [front[0].lastData] else [], Marks(front[1..]), Marks(rest));
    }
  }

  lemma AllAdded(items: seq<Item>, marks: seq<bool>)
    requires |items| == |marks| > 0
    ensures var steps := AddSteps(items, marks);
      && IsRun(EMPTY, steps) && Items(steps) == items && Marks(steps) == marks
      && var q := After(EMPTY, steps);
        Inv(q) && !q.failed && q.done == 0 && q.added == items && q.writesComplete == marks[|marks| - 1]
  {
    hide AddSteps, IsRun, After, Items, Marks, Detaches, FlightInv;
    AddRun(EMPTY, items, marks);
    RunCounts(EMPTY, AddSteps(items, marks));
    EmptyInv();
    InvRun(EMPTY, AddSteps(items, marks));
    assert EMPTY.marks + marks == marks && EMPTY.added + items == items;
  }

  /** Add up to a mark, and complete all of it. */
  lemma Emptied(items: seq<Item>, marks: seq<bool>) returns (steps: seq<Step>)
    requires |items| == |marks| > 0 && marks[|marks| - 1]
    ensures IsRun(EMPTY, steps) && Items(steps) == items && Marks(steps) == marks
    ensures var e := After(EMPTY, steps);
      Inv(e) && e.done == |items| == |e.added| && |items| - 1 in e.flights && e.flights[|items| - 1]
  {
    hide *;
    var s1, s2 := AddSteps(items, marks), DetachSteps(|items|);
    AllAdded(items, marks);
    var q := After(EMPTY, s1);
    DetachRun(q, |items|);
    RunCounts(q, s2);
    InvRun(q, s2);
    RunConcat(EMPTY, s1, s2);
    ItemsConcat(s1, s2);
    steps := s1 + s2;
    assert items + [] == items && marks + [] == marks;
  }

  lemma CloseNow(q: Queue, id: nat)
    requires id in q.closings && q.done < |q.added|
    ensures IsRun(q, [Close(id)]) && !NoEarlyClose(q, [Close(id)])
    ensures Items([Close(id)]) == [] && Marks([Close(id)]) == []
  {
    RunCons(q, Close(id), []);
    assert [Close(id)][1..] == [];
  }

  /** Free the marked item, add the rest, and only then close. */
  lemma ClosedLate(q: Queue, k: nat, items: seq<Item>, marks: seq<bool>) returns (steps: seq<Step>)
    requires Inv(q) && k in q.flights && q.flights[k] && q.done == |q.added| && |items| == |marks| > 0
    ensures IsRun(q, steps) && Items(steps) == items && Marks(steps) == marks && !NoEarlyClose(q, steps)
  {
    var q1 := Next(q, Free(k));
    var adds := AddSteps(items, marks);
    AddRun(q1, items, marks);
    RunCounts(q1, adds);
    var q2 := After(q1, adds);
    assert k in q2.closings && q2.done < |q2.added|;
    CloseNow(q2, k);
    hide AddSteps, Inv;
    EarlyConcat(q1, adds, [Close(k)]);
    ItemsConcat(adds, [Close(k)]);
    ItemsConcat([Free(k)], adds + [Close(k)]);
    steps := [Free(k)] + (adds + [Close(k)]);
    assert steps[1..] == adds + [Close(k)];
    assert items + [] == items && marks + [] == marks && [] + items == items && [] + marks == marks;
  }

  lemma EarlyClose(items: seq<Item>, marks: seq<bool>, k: nat) returns (steps: seq<Step>)
    requires |items| == |marks| && k + 1 < |marks| && marks[k]
    ensures IsRun(EMPTY, steps) && Items(steps) == items && Marks(steps) == marks && !NoEarlyClose(EMPTY, steps)
  {
    hide *;
    var front := Emptied(items[..k + 1], marks[..k + 1]);
    var rest := ClosedLate(After(EMPTY, front), k, items[k + 1..], marks[k + 1..]);
    EarlyConcat(EMPTY, front, rest);
    ItemsConcat(front, rest);
    steps := front + rest;
    assert items[..k + 1] + items[k + 1..] == items && marks[..k + 1] + marks[k + 1..] == marks;
  }

  /** For a given sequence of adds, no run closes on a filled list exactly when the sequence marks
      nothing but its end. */
  lemma SafeExactly(items: seq<Item>, marks: seq<bool>)
    requires |items| == |marks|
    ensures (forall steps :: IsRun(EMPTY, steps) && Items(steps) == items && Marks(steps) == marks ==> NoEarlyClose(EMPTY, steps))
      <==> OnlyLast(marks)
  {
    if OnlyLast(marks) {
      forall steps | IsRun(EMPTY, steps) && Items(steps) == items && Marks(steps) == marks
        ensures NoEarlyClose(EMPTY, steps)
      {
        assert EMPTY.marks + Marks(steps) == marks;
        OrderlyRun(EMPTY, steps);
      }
    } else {
      var k :| 0 <= k < |marks| - 1 && marks[k];
      var steps := EarlyClose(items, marks, k);
    }
  }
}
