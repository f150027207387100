/** The nodes of inc/ge/data/HashMap.h, their buckets, and the moves of put and resize on them. */
module HashTable {

  type Key(==, !new)
  type Value
  type Hash = x: int | 0 <= x < 0x1_0000_0000

  class TableVal {
    const key: Key
    const hashVal: Hash
    var value: Value
    var next: TableVal?

    constructor (key: Key, value: Value, hashVal: Hash)
      ensures this.key == key && this.value == value && this.hashVal == hashVal && next == null
    {
      this.key, this.value, this.hashVal := key, value, hashVal;
      next := null;
    }
  }

  // ---- Chains of nodes ----

  function At(s: seq<TableVal>, k: int): TableVal? {
    if 0 <= k < |s| then s[k] else null
  }

  /** The pointers lead from each node of `s` to the one after it, and end. */
  ghost predicate Linked(s: seq<TableVal>)
    reads s`next
  {
    forall k {:trigger s[k]} :: 0 <= k < |s| ==> s[k].next == At(s, k + 1)
  }

  /** The same, but the last node points to `x`. */
  ghost predicate LinkedTo(s: seq<TableVal>, x: TableVal)
    reads s`next
  {
    forall k {:trigger s[k]} :: 0 <= k < |s| ==> s[k].next == At(s + [x], k + 1)
  }

  ghost predicate DistinctKeys(s: seq<TableVal>) {
    forall j, k :: 0 <= j < k < |s| ==> s[j].key != s[k].key
  }

  /** The nodes of a table, bucket by bucket and all together. */
  datatype Buckets = Buckets(chains: seq<seq<TableVal>>, nodes: set<TableVal>)

  function Home(b: Buckets, x: TableVal): nat
    requires b.chains != []
  {
    x.hashVal % |b.chains|
  }

  /** Every node is in the bucket of its hash, which is the hash of its key, and no key is there
      twice. */
  ghost predicate Filed(b: Buckets, hasher: Key -> Hash) {
    && (forall i, x :: 0 <= i < |b.chains| && x in b.chains[i] ==> x in b.nodes && i == Home(b, x))
    && (forall x :: x in b.nodes ==> b.chains != [] && x in b.chains[Home(b, x)] && x.hashVal == hasher(x.key))
    && (forall i :: 0 <= i < |b.chains| ==> DistinctKeys(b.chains[i]))
  }

  ghost predicate AllLinked(b: Buckets)
    requires forall i, x :: 0 <= i < |b.chains| && x in b.chains[i] ==> x in b.nodes
    reads b.nodes`next
  {
    forall i :: 0 <= i < |b.chains| ==> Linked(b.chains[i])
  }

  /** `heads` are the slots of a table with these buckets. */
  ghost predicate Table(heads: seq<TableVal?>, b: Buckets, hasher: Key -> Hash)
    reads b.nodes`next
  {
    && Filed(b, hasher)
    && AllLinked(b)
    && |heads| == |b.chains|
    && forall i :: 0 <= i < |b.chains| ==> heads[i] == At(b.chains[i], 0)
  }

  ghost predicate Represents(nodes: set<TableVal>, contents: map<Key, Value>)
    reads nodes`value
  {
    && (forall x :: x in nodes ==> x.key in contents && contents[x.key] == x.value)
    && (forall key :: key in contents ==> exists x :: x in nodes && x.key == key)
  }

  /** No two nodes share a key. */
  lemma OneNodePerKey(b: Buckets, hasher: Key -> Hash)
    requires Filed(b, hasher)
    ensures forall x, y :: x in b.nodes && y in b.nodes && x.key == y.key ==> x == y
  {
    forall x, y | x in b.nodes && y in b.nodes && x.key == y.key ensures x == y {
      assert DistinctKeys(b.chains[Home(b, x)]);
    }
  }

  lemma Residents(b: Buckets, hasher: Key -> Hash, i: nat)
    requires Filed(b, hasher) && i < |b.chains|
    ensures DistinctKeys(b.chains[i])
    ensures forall x :: x in b.chains[i] <==> x in b.nodes && Home(b, x) == i
  {
  }

  /** A key is looked for in one bucket only. */
  lemma KeyAbsent(b: Buckets, hasher: Key -> Hash, key: Key)
    requires Filed(b, hasher) && b.chains != []
    requires forall x :: x in b.chains[hasher(key) % |b.chains|] ==> x.key != key
    ensures forall x :: x in b.nodes ==> x.key != key
  {
  }

  // ---- A node joins a table ----

  function With(b: Buckets, x: TableVal): Buckets
    requires b.chains != []
  {
    Buckets(b.chains[Home(b, x) := b.chains[Home(b, x)] + [x]], b.nodes + {x})
  }

  lemma FiledWith(b: Buckets, hasher: Key -> Hash, x: TableVal)
    requires Filed(b, hasher) && b.chains != [] && x.hashVal == hasher(x.key)
    requires forall y :: y in b.nodes ==> y.key != x.key
    ensures Filed(With(b, x), hasher)
  {
    var c := With(b, x);
    var s := b.chains[Home(b, x)];
    forall y | y in c.nodes ensures y in c.chains[Home(c, y)] {
      assert y == x || y in b.chains[Home(b, y)];
    }
    forall j, k | 0 <= j < k < |s| + 1 ensures (s + [x])[j].key != (s + [x])[k].key {
      assert DistinctKeys(s) && s[j] in s;
    }
  }

  twostate lemma LinkedFrame(s: seq<TableVal>)
    requires old(Linked(s)) && forall x :: x in s ==> x.next == old(x.next)
    ensures Linked(s)
  {
    forall k | 0 <= k < |s| ensures s[k].next == At(s, k + 1) {
      assert s[k] in s && old(s[k].next == At(s, k + 1));
    }
  }

  lemma LinkedSnoc(s: seq<TableVal>, x: TableVal)
    requires LinkedTo(s, x) && x.next == null
    ensures Linked(s + [x])
  {
    forall k | 0 <= k < |s + [x]| ensures (s + [x])[k].next == At(s + [x], k + 1) {
      assert k < |s| ==> (s + [x])[k] == s[k];
    }
  }

  /** After the node was hung behind its bucket, every bucket is linked again. */
  twostate lemma LinkedWith(b: Buckets, new hasher: Key -> Hash, new x: TableVal)
    requires b.chains != [] && Filed(b, hasher) && old(AllLinked(b)) && x.next == null
    requires x.hashVal == hasher(x.key) && forall y :: y in b.nodes ==> y.key != x.key
    requires LinkedTo(b.chains[Home(b, x)], x)
    requires forall y :: y in b.nodes && Home(b, y) != Home(b, x) ==> y.next == old(y.next)
    ensures Filed(With(b, x), hasher) && AllLinked(With(b, x))
  {
    hide DistinctKeys, Linked, LinkedTo, Filed;
    FiledWith(b, hasher, x);
    LinkedSnoc(b.chains[Home(b, x)], x);
    forall i | 0 <= i < |b.chains| && i != Home(b, x) ensures Linked(b.chains[i]) {
      Residents(b, hasher, i);
      LinkedFrame(b.chains[i]);
    }
  }

  // ---- resize ----

  /** Hangs `working` at the end of its bucket: the search for the tail in resize. */
  method Hang(newTable: array<TableVal?>, newIndex: nat, working: TableVal, ghost chain: seq<TableVal>)
    requires newIndex < newTable.Length && newTable[newIndex] == At(chain, 0) && Linked(chain) && DistinctKeys(chain)
    modifies newTable, chain`next
    ensures newTable[..] == old(newTable[..])[newIndex := At(chain + [working], 0)]
    ensures LinkedTo(chain, working)
  {
    var newTableIter := newTable[newIndex];
    if newTableIter == null {
      newTable[newIndex] := working;
    } else {
      ghost var k := 0;
      while newTableIter.next != null
        invariant 0 <= k < |chain| && newTableIter == chain[k]
        decreases |chain| - k
      {
        newTableIter := newTableIter.next;
        k := k + 1;
      }
      newTableIter.next := working;
    }
  }

  /** One turn of resize: the node leaves its old bucket and ends its new one. */
  method MoveNode(newTable: array<TableVal?>, working: TableVal, hasher: Key -> Hash, ghost moved: Buckets)
    returns (curVal: TableVal?)
    requires newTable.Length > 0 && Table(newTable[..], moved, hasher)
    requires working.hashVal == hasher(working.key) && forall y :: y in moved.nodes ==> y.key != working.key
    modifies newTable, (moved.nodes + {working})`next
    ensures curVal == old(working.next)
    ensures Table(newTable[..], With(moved, working), hasher)
  {
    var newIndex := working.hashVal % newTable.Length;
    ghost var chain := moved.chains[newIndex];
    hide Filed, Linked, LinkedTo, DistinctKeys;
    Residents(moved, hasher, newIndex);
    assert working !in moved.nodes;
    Hang(newTable, newIndex, working, chain);
    curVal := working.next;
    working.next := null;
    LinkedWith(moved, hasher, working);
  }

  /** The nodes join one after the other. */
  ghost function WithAll(b: Buckets, s: seq<TableVal>): (r: Buckets)
    requires b.chains != []
    ensures |r.chains| == |b.chains|
    decreases |s|
  {
    if s == [] then b else WithAll(With(b, s[0]), s[1..])
  }

  ghost function WithChains(b: Buckets, chains: seq<seq<TableVal>>): Buckets
    requires b.chains != []
    decreases |chains|
  {
    if chains == [] then b else WithChains(WithAll(b, chains[0]), chains[1..])
  }

  /** The nodes filed anew in `n` buckets, in the order of the old ones. */
  ghost function Rehash(b: Buckets, n: nat): Buckets
    requires n > 0
  {
    WithChains(Buckets(seq(n, _ => []), {}), b.chains)
  }

  ghost function NodeSet(s: seq<TableVal>): (r: set<TableVal>)
    ensures (forall x :: x in s ==> x in r) && (forall x :: x in r ==> x in s)
  {
    set x | x in s
  }

  /** No node of `s` has a key of the table. */
  ghost predicate Foreign(s: seq<TableVal>, b: Buckets, hasher: Key -> Hash) {
    && DistinctKeys(s)
    && forall x :: x in s ==> x.hashVal == hasher(x.key) && forall y :: y in b.nodes ==> y.key != x.key
  }

  lemma ForeignTail(s: seq<TableVal>, b: Buckets, hasher: Key -> Hash)
    requires Foreign(s, b, hasher) && s != [] && b.chains != []
    ensures Foreign(s[1..], With(b, s[0]), hasher)
    ensures s[0] !in s[1..]
    ensures NodeSet(s) == {s[0]} + NodeSet(s[1..])
  {
    assert s == [s[0]] + s[1..];
  }

  lemma LinkedTail(s: seq<TableVal>)
    requires Linked(s) && s != []
    ensures Linked(s[1..]) && s[0].next == At(s[1..], 0)
  {
    forall k | 0 <= k < |s[1..]| ensures s[1..][k].next == At(s[1..], k + 1) {
      assert s[1..][k] == s[k + 1];
    }
  }

  /** The inner loop of resize: a whole bucket moves. */
  method MoveBucket(newTable: array<TableVal?>, head: TableVal?, hasher: Key -> Hash,
                    ghost bucket: seq<TableVal>, ghost before: Buckets)
    returns (ghost moved: Buckets)
    requires newTable.Length > 0 && Table(newTable[..], before, hasher)
    requires head == At(bucket, 0) && Linked(bucket) && Foreign(bucket, before, hasher)
    modifies newTable, (before.nodes + NodeSet(bucket))`next
    ensures Table(newTable[..], moved, hasher) && moved.nodes == before.nodes + NodeSet(bucket)
    ensures before.chains != [] && moved == WithAll(before, bucket)
  {
    hide Linked, Filed, AllLinked, DistinctKeys, NodeSet;
    moved := before;
    var curVal := head;
    ghost var rest := bucket;
    while curVal != null
      invariant curVal == At(rest, 0) && Linked(rest) && Foreign(rest, moved, hasher)
      invariant Table(newTable[..], moved, hasher)
      invariant before.chains != [] && moved.chains != [] && WithAll(moved, rest) == WithAll(before, bucket)
      invariant moved.nodes + NodeSet(rest) == before.nodes + NodeSet(bucket)
      decreases |rest|
    {
      LinkedTail(rest);
      ForeignTail(rest, moved, hasher);
      curVal := MoveNode(newTable, curVal, hasher, moved);
      moved := With(moved, rest[0]);
      rest := rest[1..];
    }
  }

  /** The outer loop of resize. */
  method MoveAll(table: array<TableVal?>, tableSize: nat, newTable: array<TableVal?>, hasher: Key -> Hash,
                 ghost was: Buckets)
    returns (ghost moved: Buckets)
    requires tableSize == table.Length && table != newTable && Table(table[..], was, hasher)
    requires newTable.Length > 0 && forall i :: 0 <= i < newTable.Length ==> newTable[i] == null
    modifies newTable, was.nodes`next
    ensures Table(newTable[..], moved, hasher) && moved.nodes == was.nodes
    ensures moved == Rehash(was, newTable.Length)
  {
    hide Linked, Filed, AllLinked, DistinctKeys, Table, At, Home, NodeSet, With, WithAll, WithChains, Rehash;
    OpenTable(table[..], was, hasher);
    moved := Buckets(seq(newTable.Length, _ => []), {});
    RehashBegins(was, newTable.Length);
    NoNodes(newTable[..], moved, hasher);
    var i := 0;
    while i < tableSize
      invariant i <= tableSize
      invariant Table(newTable[..], moved, hasher) && moved.nodes <= was.nodes
      invariant moved.chains != [] && WithChains(moved, was.chains[i..]) == Rehash(was, newTable.Length)
      invariant forall x :: x in was.nodes ==> was.chains != [] && (x in moved.nodes <==> Home(was, x) < i)
      invariant forall h :: i <= h < tableSize ==> Linked(was.chains[h])
    {
      BucketForeign(was, moved, hasher, i);
      Residents(was, hasher, i);
      WithNext(moved, was.chains, i);
      label Before:
      moved := MoveBucket(newTable, table[i], hasher, was.chains[i], moved);
      RestFrame@Before(was, hasher, i);
      i := i + 1;
    }
    WithNone(moved, was.chains[i..]);
    AllMoved(was, moved);
  }

  lemma RehashBegins(b: Buckets, n: nat)
    requires n > 0
    ensures WithChains(Buckets(seq(n, _ => []), {}), b.chains[0..]) == Rehash(b, n)
  {
    assert b.chains[0..] == b.chains;
  }

  lemma WithNext(b: Buckets, chains: seq<seq<TableVal>>, i: nat)
    requires b.chains != [] && i < |chains|
    ensures WithChains(b, chains[i..]) == WithChains(WithAll(b, chains[i]), chains[i + 1..])
  {
    assert chains[i..][1..] == chains[i + 1..];
  }

  lemma WithNone(b: Buckets, chains: seq<seq<TableVal>>)
    requires b.chains != [] && chains == []
    ensures WithChains(b, chains) == b
  {
  }

  /** The buckets not moved yet are as they were. */
  twostate lemma RestFrame(b: Buckets, new hasher: Key -> Hash, new i: nat)
    requires Filed(b, hasher) && i < |b.chains| && forall h :: i <= h < |b.chains| ==> old(Linked(b.chains[h]))
    requires forall x :: x in b.nodes && Home(b, x) > i ==> x.next == old(x.next)
    ensures forall h :: i < h < |b.chains| ==> Linked(b.chains[h])
  {
    forall h | i < h < |b.chains| ensures Linked(b.chains[h]) {
      Residents(b, hasher, h);
      LinkedFrame(b.chains[h]);
    }
  }

  lemma OpenTable(heads: seq<TableVal?>, b: Buckets, hasher: Key -> Hash)
    requires Table(heads, b, hasher)
    ensures Filed(b, hasher) && |heads| == |b.chains| && (b.nodes != {} ==> b.chains != [])
    ensures forall i :: 0 <= i < |heads| ==> heads[i] == At(b.chains[i], 0) && Linked(b.chains[i])
  {
  }

  lemma AllMoved(was: Buckets, moved: Buckets)
    requires moved.nodes <= was.nodes
    requires forall x :: x in was.nodes ==> was.chains != [] && (x in moved.nodes <==> Home(was, x) < |was.chains|)
    ensures moved.nodes == was.nodes
  {
  }

  lemma Joined(nodes: set<TableVal>, contents: map<Key, Value>, x: TableVal)
    requires Represents(nodes, contents) && forall y :: y in nodes ==> y.key != x.key
    ensures Represents(nodes + {x}, contents[x.key := x.value]) && x.key !in contents
  {
  }

  lemma NoNodes(heads: seq<TableVal?>, b: Buckets, hasher: Key -> Hash)
    requires |heads| == |b.chains| && b.nodes == {}
    requires forall i :: 0 <= i < |heads| ==> heads[i] == null && b.chains[i] == []
    ensures Table(heads, b, hasher)
  {
  }

  lemma BucketForeign(b: Buckets, moved: Buckets, hasher: Key -> Hash, i: nat)
    requires Filed(b, hasher) && i < |b.chains|
    requires moved.nodes <= b.nodes && forall x :: x in moved.nodes ==> Home(b, x) < i
    ensures Foreign(b.chains[i], moved, hasher)
  {
    OneNodePerKey(b, hasher);
  }

  // ---- put ----

  /** The store of put through the pointer that ends a bucket: its slot or the next of its last
      node. */
  method StoreCell(table: array<TableVal?>, index: nat, prev: TableVal?, node: TableVal, ghost chain: seq<TableVal>)
    requires index < table.Length && table[index] == At(chain, 0) && prev == At(chain, |chain| - 1)
    requires Linked(chain) && DistinctKeys(chain)
    modifies table, chain`next
    ensures table[..] == old(table[..])[index := At(chain + [node], 0)]
    ensures LinkedTo(chain, node)
  {
    if prev == null {
      table[index] := node;
    } else {
      prev.next := node;
    }
  }

  method AddNode(table: array<TableVal?>, index: nat, prev: TableVal?, key: Key, value: Value, hashVal: Hash,
                 hasher: Key -> Hash, ghost b: Buckets)
    returns (node: TableVal)
    requires table.Length > 0 && Table(table[..], b, hasher)
    requires hashVal == hasher(key) && forall y :: y in b.nodes ==> y.key != key
    requires |b.chains| == table.Length && index == hashVal % table.Length
    requires prev == At(b.chains[index], |b.chains[index]| - 1)
    modifies table, b.nodes`next
    ensures fresh(node) && node.key == key && node.value == value && With(b, node).nodes == b.nodes + {node}
    ensures Table(table[..], With(b, node), hasher)
  {
    hide Filed, Linked, LinkedTo, DistinctKeys;
    Residents(b, hasher, index);
    node := new TableVal(key, value, hashVal);
    StoreCell(table, index, prev, node, b.chains[index]);
    LinkedWith(b, hasher, node);
  }

  // ---- erase ----

  ghost function Removed<T>(s: seq<T>, r: nat): seq<T>
    requires r < |s|
  {
    s[..r] + s[r + 1..]
  }

  /** The buckets without the node of place `r` in bucket `i`. */
  ghost function Without(b: Buckets, i: nat, r: nat): Buckets
    requires i < |b.chains| && r < |b.chains[i]|
  {
    Buckets(b.chains[i := Removed(b.chains[i], r)], b.nodes - {b.chains[i][r]})
  }

  lemma RemovedNodes(s: seq<TableVal>, r: nat)
    requires r < |s| && DistinctKeys(s)
    ensures DistinctKeys(Removed(s, r))
    ensures forall y :: y in Removed(s, r) <==> y in s && y != s[r]
  {
    var c := Removed(s, r);
    assert forall k :: 0 <= k < |c| ==> c[k] == s[if k < r then k else k + 1];
    forall y | y in s && y != s[r] ensures y in c {
      var k :| 0 <= k < |s| && s[k] == y;
      assert y == c[if k < r then k else k - 1];
    }
  }

  lemma FiledWithout(b: Buckets, hasher: Key -> Hash, i: nat, r: nat)
    requires Filed(b, hasher) && i < |b.chains| && r < |b.chains[i]|
    ensures Filed(Without(b, i, r), hasher)
  {
    RemovedNodes(b.chains[i], r);
    assert b.chains[i][r] in b.chains[i] && DistinctKeys(Removed(b.chains[i], r));
    hide Removed, DistinctKeys;
    var c := Without(b, i, r);
    forall y | y in c.nodes ensures y in c.chains[Home(c, y)] {
      assert y in b.chains[Home(b, y)];
    }
    forall j, y | 0 <= j < |c.chains| && y in c.chains[j] ensures y in c.nodes && j == Home(c, y) {
      if j == i {
        assert c.chains[j] == Removed(b.chains[i], r);
      } else {
        assert y in b.chains[j] && i == Home(b, b.chains[i][r]);
      }
    }
  }

  lemma LinkedWithout(s: seq<TableVal>, r: nat)
    requires r < |s| && DistinctKeys(s)
    requires forall k {:trigger s[k]} :: 0 <= k < |s| ==> s[k].next == At(s, if k + 1 == r then k + 2 else k + 1)
    ensures Linked(Removed(s, r))
  {
    var c := Removed(s, r);
    forall k | 0 <= k < |c| ensures c[k].next == At(c, k + 1) {
      if k + 1 < r {
        assert c[k] == s[k] && At(c, k + 1) == At(s, k + 1);
      } else if k + 1 == r {
        assert c[k] == s[k] && At(c, k + 1) == At(s, k + 2);
      } else {
        assert c[k] == s[k + 1] && At(c, k + 1) == At(s, k + 2);
      }
    }
  }

  lemma AtIn(s: seq<TableVal>, k: nat)
    requires k < |s|
    ensures At(s, k) == s[k]
  {
  }

  lemma Heads(s: seq<TableVal>, r: nat)
    requires r < |s| && DistinctKeys(s)
    ensures At(s, 0) == s[0] && (s[r] == s[0] <==> r == 0)
    ensures At(Removed(s, r), 0) == if r == 0 then At(s, 1) else s[0]
  {
  }

  /** The unlinking of erase. */
  method Unlink(table: array<TableVal?>, tableIndex: nat, tableVal: TableVal, ghost chain: seq<TableVal>, ghost r: nat)
    requires tableIndex < table.Length && table[tableIndex] == At(chain, 0) && Linked(chain) && DistinctKeys(chain)
    requires r < |chain| && chain[r] == tableVal
    modifies table, chain`next
    ensures table[..] == old(table[..])[tableIndex := At(Removed(chain, r), 0)]
    ensures Linked(Removed(chain, r))
  {
    hide Removed, At;
    Heads(chain, r);
    if tableVal == table[tableIndex] {
      table[tableIndex] := tableVal.next;
    } else {
      var prev := table[tableIndex];
      ghost var k := 0;
      while prev.next != tableVal
        invariant 0 <= k < r && prev == chain[k]
        decreases r - k
      {
        assert prev.next == chain[k + 1] by { AtIn(chain, k + 1); }
        prev := prev.next;
        k := k + 1;
      }
      assert k + 1 == r by { AtIn(chain, k + 1); }
      prev.next := tableVal.next;
    }
    LinkedWithout(chain, r);
  }

  twostate lemma LinkedAfter(b: Buckets, new hasher: Key -> Hash, new i: nat, new r: nat)
    requires Filed(b, hasher) && old(AllLinked(b)) && i < |b.chains| && r < |b.chains[i]|
    requires Linked(Removed(b.chains[i], r))
    requires forall y :: y in b.nodes && Home(b, y) != i ==> y.next == old(y.next)
    ensures Filed(Without(b, i, r), hasher) && AllLinked(Without(b, i, r))
  {
    FiledWithout(b, hasher, i, r);
    hide DistinctKeys, Linked, Removed;
    forall j | 0 <= j < |b.chains| && j != i ensures Linked(b.chains[j]) {
      LinkedFrame(b.chains[j]);
    }
  }

  method RemoveNode(table: array<TableVal?>, tableIndex: nat, tableVal: TableVal, hasher: Key -> Hash,
                    ghost b: Buckets, ghost r: nat)
    requires Table(table[..], b, hasher) && tableIndex < |b.chains|
    requires r < |b.chains[tableIndex]| && b.chains[tableIndex][r] == tableVal
    modifies table, b.nodes`next
    ensures Table(table[..], Without(b, tableIndex, r), hasher)
  {
    hide Filed, Linked, DistinctKeys, Removed;
    OpenTable(table[..], b, hasher);
    Residents(b, hasher, tableIndex);
    Unlink(table, tableIndex, tableVal, b.chains[tableIndex], r);
    LinkedAfter(b, hasher, tableIndex, r);
  }

  lemma Erased(nodes: set<TableVal>, contents: map<Key, Value>, x: TableVal)
    requires Represents(nodes, contents) && x in nodes
    requires forall y :: y in nodes && y.key == x.key ==> y == x
    ensures Represents(nodes - {x}, contents - {x.key})
    ensures x.key in contents && |contents - {x.key}| == |contents| - 1
  {
    forall key | key in contents - {x.key} ensures exists y :: y in nodes - {x} && y.key == key {
      var y :| y in nodes && y.key == key;
      assert y in nodes - {x};
    }
    assert contents == (contents - {x.key})[x.key := contents[x.key]];
  }
}
