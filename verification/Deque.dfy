/** The growing ring buffer of inc/ge/data/Deque.h. Pointers into the buffer are offsets
    from its start; an uninitialised slot holds some value of the element type. */
module Deque {

  /** The `n` slots from `tail` on, around the end of the buffer. */
  function Ring<T>(data: seq<T>, tail: nat, n: nat): (r: seq<T>)
    requires n <= |data| && tail <= |data| && (n > 0 ==> tail < |data|)
    ensures |r| == n
  {
    if tail + n <= |data| then data[tail..tail + n] else data[tail..] + data[..tail + n - |data|]
  }

  lemma RingAt<T>(data: seq<T>, tail: nat, n: nat, i: nat)
    requires i < n <= |data| && tail < |data|
    ensures Ring(data, tail, n)[i] == data[Slot(|data|, tail, i)]
  {
  }

  /** The slot `n` places behind `tail`. */
  function Slot(length: nat, tail: nat, n: nat): int {
    if tail + n < length then tail + n else tail + n - length
  }

  class Deque<T(0)> {
    var data: array<T>
    var head: nat
    var tail: nat
    var size: nat
    /** Elements popped since the buffer was last laid out: the pops leave `size` as it is. */
    ghost var lag: nat

    function Reserved(): nat
      reads this
    {
      data.Length
    }

    ghost predicate Valid()
      reads this
    {
      && lag <= size <= data.Length
      && (data.Length == 0 ==> head == tail == 0)
      && (data.Length > 0 ==> tail < data.Length && (head == Slot(data.Length, tail, size - lag) || BehindEnd()))
    }

    /** The head where a reserve that the elements fill leaves it: one past the end in place of
        slot 0. The next add grows the buffer before it stores. */
    ghost predicate BehindEnd()
      reads this
    {
      && lag <= size == data.Length == head
      && (tail + (size - lag) == data.Length || tail + (size - lag) == 0)
    }

    /** The elements in order. */
    ghost function Contents(): (s: seq<T>)
      requires Valid()
      reads this, data
    {
      Ring(data[..], tail, size - lag)
    }

    /** What the buffer holds in as many slots as `size` says. */
    ghost function Window(): (s: seq<T>)
      requires Valid()
      reads this, data
    {
      Ring(data[..], tail, size)
    }

    constructor ()
      ensures Valid() && Contents() == [] && lag == 0 && Reserved() == 0 && fresh(data)
    {
      data := new T[0];
      head, tail, size := 0, 0, 0;
      lag := 0;
    }

    function NextPtr(ptr: nat): nat
      reads this
    {
      if ptr + 1 == data.Length then 0 else ptr + 1
    }

    function PrevPtr(ptr: nat): nat
      requires data.Length > 0
      reads this
    {
      if ptr == 0 then data.Length - 1 else ptr - 1
    }

    function IndexPtr(index: nat): int
      reads this
    {
      var ret := tail + index;
      if ret < data.Length then ret else ret - data.Length
    }

    method Get(index: nat) returns (value: T)
      requires Valid() && index < |Contents()|
      ensures value == Contents()[index]
    {
      RingAt(data[..], tail, size - lag, index);
      value := data[IndexPtr(index)];
    }

    method Front() returns (value: T)
      requires Valid() && Contents() != []
      ensures value == Contents()[0]
    {
      RingAt(data[..], tail, size - lag, 0);
      value := data[tail];
    }

    method Back() returns (value: T)
      requires Valid() && Contents() != []
      ensures value == Contents()[|Contents()| - 1]
    {
      RingAt(data[..], tail, size - lag, size - lag - 1);
      value := data[PrevPtr(head)];
    }

    /** A reserve that is not smaller than the buffer lays the window out from the start of a new
        one. The head then wraps only if a slot is left over: filling the new buffer exactly
        leaves it one past the end. */
    method Reserve(reserveSize: nat)
      requires Valid()
      modifies this
      ensures Valid() && size == old(size)
      ensures reserveSize < old(Reserved()) ==> data == old(data) && lag == old(lag) && Contents() == old(Contents())
      ensures reserveSize >= old(Reserved()) ==>
        && fresh(data) && Reserved() == (if reserveSize < 16 then 16 else reserveSize)
        && lag == 0 && tail == 0 && Contents() == old(Window())
        && (head == Reserved() <==> size == Reserved())
    {
      if reserveSize < Reserved() {
        return;
      }
      hide Ring;
      ghost var window := Window();
      var newSize := if reserveSize < 16 then 16 else reserveSize;
      var newData := new T[newSize];
      if size != 0 {
        var srcIter, destIter := tail, 0;
        for i := 0 to size
          invariant destIter == i && data == old(data) && data[..] == old(data[..])
          invariant size == old(size) && tail == old(tail) && lag == old(lag)
          invariant srcIter == Slot(data.Length, tail, i)
          invariant forall k :: 0 <= k < i ==> newData[k] == window[k]
        {
          RingAt(data[..], tail, size, i);
          newData[destIter] := data[srcIter];
          srcIter := NextPtr(srcIter);
          destIter := destIter + 1;
        }
      }
      assert newData[..size] == window;
      data := newData;
      head := size;
      tail := 0;
      lag := 0;
    }

    method AddBack(value: T)
      requires Valid()
      modifies this, data
      ensures Valid() && size == old(size) + 1
      ensures Contents() == (if old(size) == old(Reserved()) then old(Window()) else old(Contents())) + [value]
      ensures Contents() == old(Contents()) + [value] <==> old(size) < old(Reserved()) || old(lag) == 0
      ensures head == Slot(data.Length, tail, size - lag)
      ensures lag == if old(size) == old(Reserved()) then 0 else old(lag)
      ensures data == old(data) || fresh(data)
      ensures Reserved() == if old(size) < old(Reserved()) then old(Reserved()) else if old(size) < 8 then 16 else 2 * old(size)
    {
      hide Ring;
      if size == Reserved() {
        Reserve(size * 2);
      }
      ghost var was, n := data[..], size - lag;
      data[head] := value;
      RingSnoc(was, tail, n, value);
      head := NextPtr(head);
      size := size + 1;
    }

    method AddFront(value: T)
      requires Valid()
      modifies this, data
      ensures Valid() && size == old(size) + 1
      ensures Contents() == [value] + (if old(size) == old(Reserved()) then old(Window()) else old(Contents()))
      ensures Contents() == [value] + old(Contents()) <==> old(size) < old(Reserved()) || old(lag) == 0
      ensures head == Slot(data.Length, tail, size - lag)
      ensures lag == if old(size) == old(Reserved()) then 0 else old(lag)
      ensures data == old(data) || fresh(data)
      ensures Reserved() == if old(size) < old(Reserved()) then old(Reserved()) else if old(size) < 8 then 16 else 2 * old(size)
    {
      hide Ring;
      if size == Reserved() {
        Reserve(size * 2);
      }
      ghost var was, n := data[..], size - lag;
      RingCons(was, tail, n, value);
      tail := PrevPtr(tail);
      data[tail] := value;
      size := size + 1;
    }

    /** popFront as written: the element is gone, but `size` still counts it. */
    method PopFront()
      requires Valid() && Contents() != []
      modifies this
      ensures Valid() && Contents() == old(Contents())[1..]
      ensures size == old(size) && lag == old(lag) + 1 && data == old(data)
      ensures tail == Slot(data.Length, old(tail), 1) && head == old(head)
    {
      RingTail(data[..], tail, size - lag);
      tail := NextPtr(tail);
      lag := lag + 1;
    }

    /** popBack as written. */
    method PopBack()
      requires Valid() && Contents() != []
      modifies this
      ensures Valid() && Contents() == old(Contents())[..|old(Contents())| - 1]
      ensures size == old(size) && lag == old(lag) + 1 && data == old(data)
      ensures tail == old(tail) && head == Slot(data.Length, tail, size - lag)
    {
      RingFront(data[..], tail, size - lag);
      head := PrevPtr(head);
      lag := lag + 1;
    }

    /** The pops with the statement they lack: then nothing ever lags, and every operation acts
        on the contents alone. Only behind a reserve that the elements fill, lowering the size at
        the front lets the next addBack store past the end. */
    method PopFrontAsMeant()
      requires Valid() && Contents() != []
      modifies this
      ensures size == old(size) - 1 && lag == old(lag) && data == old(data)
      ensures old(head) < data.Length ==> Valid() && Contents() == old(Contents())[1..]
      ensures old(head) == data.Length ==> head == data.Length && size < Reserved() && !Valid()
    {
      PopFront();
      size, lag := size - 1, lag - 1;
    }

    method PopBackAsMeant()
      requires Valid() && Contents() != []
      modifies this
      ensures Valid() && Contents() == old(Contents())[..|old(Contents())| - 1]
      ensures size == old(size) - 1 && lag == old(lag) && data == old(data)
    {
      PopBack();
      size, lag := size - 1, lag - 1;
    }
  }

  // ---- The ring ----

  lemma RingSnoc<T>(data: seq<T>, tail: nat, n: nat, value: T)
    requires n < |data| && tail < |data|
    ensures 0 <= Slot(|data|, tail, n) < |data|
    ensures Ring(data[Slot(|data|, tail, n) := value], tail, n + 1) == Ring(data, tail, n) + [value]
  {
    hide Ring;
    var after := data[Slot(|data|, tail, n) := value];
    forall i | 0 <= i < n ensures Ring(after, tail, n + 1)[i] == Ring(data, tail, n)[i] {
      RingAt(after, tail, n + 1, i);
      RingAt(data, tail, n, i);
    }
    RingAt(after, tail, n + 1, n);
  }

  lemma RingCons<T>(data: seq<T>, tail: nat, n: nat, value: T)
    requires n < |data| && tail < |data|
    ensures var p := if tail == 0 then |data| - 1 else tail - 1;
      Ring(data[p := value], p, n + 1) == [value] + Ring(data, tail, n)
  {
    hide Ring;
    var p := if tail == 0 then |data| - 1 else tail - 1;
    var after := data[p := value];
    forall i | 0 <= i < n ensures Ring(after, p, n + 1)[i + 1] == Ring(data, tail, n)[i] {
      RingAt(after, p, n + 1, i + 1);
      RingAt(data, tail, n, i);
    }
    RingAt(after, p, n + 1, 0);
  }

  lemma RingTail<T>(data: seq<T>, tail: nat, n: nat)
    requires 0 < n <= |data| && tail < |data|
    ensures Ring(data, Slot(|data|, tail, 1), n - 1) == Ring(data, tail, n)[1..]
  {
  }

  lemma RingFront<T>(data: seq<T>, tail: nat, n: nat)
    requires 0 < n <= |data| && tail < |data|
    ensures Ring(data, tail, n - 1) == Ring(data, tail, n)[..n - 1]
  {
  }

  lemma RingRotates<T>(data: seq<T>, tail: nat)
    requires tail < |data|
    ensures var n, next := |data|, Slot(|data|, tail, 1);
      Ring(data, next, n) == Ring(data, tail, n)[1..] + [Ring(data, tail, n)[0]]
  {
    var n, next := |data|, Slot(|data|, tail, 1);
    forall i | 0 <= i < n
      ensures Ring(data, next, n)[i] == Ring(data, tail, n)[if i + 1 < n then i + 1 else 0]
    {
      RingAt(data, next, n, i);
      RingAt(data, tail, n, if i + 1 < n then i + 1 else 0);
    }
    hide Ring;
  }

  /** With the pops as written, removing the front of a full deque and adding at the back brings
      the removed element back, just before the added one. */
  method FullPopThenAddRevives<T(0)>(deque: Deque<T>, value: T)
    requires deque.Valid() && deque.lag == 0 && deque.size == deque.Reserved() > 0
    modifies deque, deque.data
    ensures deque.Valid()
    ensures var was := old(deque.Contents()); deque.Contents() == was[1..] + [was[0]] + [value]
  {
    RingRotates(deque.data[..], deque.tail);
    hide Ring;
    deque.PopFront();
    assert deque.Window() == old(deque.Contents()[1..] + [deque.Contents()[0]]);
    deque.AddBack(value);
  }
}
