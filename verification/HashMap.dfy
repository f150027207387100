/** The map of inc/ge/data/HashMap.h and its iterator. */
module HashMap {
  import opened Basics
  import opened HashTable

  class HashMap {
    const hasher: Key -> Hash
    /** An array without slots stands for the null pointer of a map never written to. */
    var table: array<TableVal?>
    var tableSize: nat
    var size: nat
    ghost var buckets: Buckets
    /** The map that the nodes stand for. */
    ghost var contents: map<Key, Value>
    /** How many erased entries `size` still counts. */
    ghost var lag: nat

    ghost predicate WellFormed()
      reads `table, `tableSize, `buckets, table, buckets.nodes`next
    {
      && tableSize == table.Length
      && Table(table[..], buckets, hasher)
    }

    ghost predicate Valid()
      reads this, table, buckets.nodes
    {
      && WellFormed()
      && Represents(buckets.nodes, contents)
      && size == |contents| + lag
      && size <= tableSize / 2 + tableSize / 4
    }

    constructor (hasher: Key -> Hash)
      ensures Valid() && fresh(table) && tableSize == 0
      ensures contents == map[] && lag == 0 && buckets.nodes == {}
    {
      this.hasher := hasher;
      table, tableSize, size := new TableVal?[0](_ => null), 0, 0;
      buckets, contents, lag := Buckets([], {}), map[], 0;
    }

    /** The loop of put: the node with the key, or null and the last node of the bucket. */
    method Search(key: Key, hashVal: Hash, index: nat) returns (found: TableVal?, prev: TableVal?)
      requires WellFormed() && tableSize > 0 && hashVal == hasher(key) && index == hashVal % tableSize
      ensures found != null ==> found in buckets.nodes && found.key == key
      ensures found == null ==> forall x :: x in buckets.nodes ==> x.key != key
      ensures found == null ==> prev == At(buckets.chains[index], |buckets.chains[index]| - 1)
    {
      hide Filed, AllLinked, DistinctKeys, Table;
      OpenTable(table[..], buckets, hasher);
      Residents(buckets, hasher, index);
      ghost var chain := buckets.chains[index];
      ghost var j := 0;
      prev := null;
      found := table[index];
      while found != null
        invariant j <= |chain| && found == At(chain, j) && prev == At(chain, j - 1)
        invariant forall k :: 0 <= k < j ==> chain[k].key != key
        decreases |chain| - j
      {
        if found.hashVal == hashVal && found.key == key {
          return;
        }
        prev := found;
        found := found.next;
        j := j + 1;
      }
      KeyAbsent(buckets, hasher, key);
    }

    method Put(key: Key, value: Value)
      requires Valid()
      modifies this, table, buckets.nodes
      ensures Valid() && contents == old(contents)[key := value] && lag == old(lag)
      ensures size == old(size) + if key in old(contents) then 0 else 1
      ensures tableSize == var slots := if old(tableSize) == 0 then 16 else old(tableSize);
        if size > slots / 2 + slots / 4 then 2 * slots else slots
      ensures fresh(buckets.nodes - old(buckets.nodes)) && (table == old(table) || fresh(table))
    {
      hide Table, Represents, Rehash, Filed, AllLinked, Linked, At;
      if table.Length == 0 {
        Resize(16);
      }
      var hashVal := hasher(key);
      var index := hashVal % tableSize;
      var found, prev := Search(key, hashVal, index);
      if found != null {
        Overwrite(found, value);
        return;
      }
      Insert(key, value, hashVal, index, prev);
      ResizeIfFull();
    }

    /** The end of put. */
    method ResizeIfFull()
      requires WellFormed() && Represents(buckets.nodes, contents) && tableSize > 0
      requires size <= tableSize / 2 + tableSize / 4 + 1
      modifies `table, `tableSize, `buckets, buckets.nodes`next
      ensures WellFormed() && Represents(buckets.nodes, contents) && buckets.nodes == old(buckets.nodes)
      ensures table == old(table) || fresh(table)
      ensures size <= tableSize / 2 + tableSize / 4
      ensures tableSize == if size > old(tableSize) / 2 + old(tableSize) / 4 then 2 * old(tableSize) else old(tableSize)
    {
      hide Table, Represents, Rehash;
      var resizeLimit := tableSize / 2 + tableSize / 4;
      if size > resizeLimit {
        Resize(tableSize * 2);
      }
    }

    /** The key is there: its value is replaced. */
    method Overwrite(found: TableVal, value: Value)
      requires WellFormed() && found in buckets.nodes && Represents(buckets.nodes, contents)
      modifies `contents, found`value
      ensures WellFormed() && Represents(buckets.nodes, contents)
      ensures found.key in old(contents) && contents == old(contents)[found.key := value]
    {
      hide Table, Filed, AllLinked, Linked;
      OpenTable(table[..], buckets, hasher);
      OneNodePerKey(buckets, hasher);
      found.value := value;
      contents := contents[found.key := value];
    }

    /** The key is new: a node for it ends its bucket. */
    method Insert(key: Key, value: Value, hashVal: Hash, index: nat, prev: TableVal?)
      requires WellFormed() && tableSize > 0 && hashVal == hasher(key) && index == hashVal % tableSize
      requires Represents(buckets.nodes, contents) && forall x :: x in buckets.nodes ==> x.key != key
      requires prev == At(buckets.chains[index], |buckets.chains[index]| - 1)
      modifies `buckets, `contents, `size, table, buckets.nodes`next
      ensures WellFormed() && fresh(buckets.nodes - old(buckets.nodes))
      ensures Represents(buckets.nodes, contents) && key !in old(contents) && contents == old(contents)[key := value]
      ensures size == old(size) + 1
    {
      hide Table, Represents, At, Home, With, Filed, Linked;
      OpenTable(table[..], buckets, hasher);
      var node := AddNode(table, index, prev, key, value, hashVal, hasher, buckets);
      Joined(buckets.nodes, contents, node);
      buckets := With(buckets, node);
      contents := contents[key := value];
      size := size + 1;
    }

    method Resize(newTableSize: nat)
      requires WellFormed() && newTableSize > 0
      modifies `table, `tableSize, `buckets, buckets.nodes`next
      ensures WellFormed() && fresh(table) && tableSize == newTableSize
      ensures buckets == Rehash(old(buckets), newTableSize) && buckets.nodes == old(buckets.nodes)
    {
      hide Table;
      var newTable := new TableVal?[newTableSize](_ => null);
      ghost var moved := MoveAll(table, tableSize, newTable, hasher, buckets);
      table := newTable;
      tableSize := newTableSize;
      buckets := moved;
    }

    /** Looks the key up in its bucket. As written the loop never moves on (`advances` false), so
        it spins at a first node with another key; a map that was never written to has no bucket, and
        the remainder by its size is not defined. */
    method Get(key: Key, advances: bool) returns (answer: Answer)
      requires Valid()
      ensures answer.DividesByZero? <==> tableSize == 0
      ensures answer.Spins? <==>
        tableSize > 0 && !advances && var first := table[hasher(key) % tableSize]; first != null && first.key != key
      ensures answer.Returned? ==>
        var iter := answer.iter;
        && fresh(iter) && iter.owner == this && iter.AtEntryOrEnd()
        && (iter.tableVal != null <==> key in contents)
        && (iter.tableVal != null <==> iter.tableIndex < tableSize)
        && (key in contents ==> iter.tableVal.key == key && iter.tableVal.value == contents[key])
    {
      hide Filed, AllLinked, Table, Represents, DistinctKeys, Linked, At;
      if tableSize == 0 {
        return DividesByZero;
      }
      var hashVal := hasher(key);
      var index := hashVal % tableSize;
      var spins, found, rank := Lookup(key, hashVal, index, advances);
      if spins {
        return Spins;
      }
      KeyKnown(buckets.nodes, contents, key, found);
      if found == null {
        index, rank := tableSize, 0;
      }
      var iter := new ConstIterator(this, index, found, null, rank);
      return Returned(iter);
    }

    /** The loop of get: the node with the key at place `rank` of its bucket, or null. */
    method Lookup(key: Key, hashVal: Hash, index: nat, advances: bool)
      returns (spins: bool, found: TableVal?, ghost rank: nat)
      requires WellFormed() && tableSize > 0 && hashVal == hasher(key) && index == hashVal % tableSize
      ensures |buckets.chains| == tableSize
      ensures spins <==> !advances && var first := table[index]; first != null && first.key != key
      ensures !spins && found != null ==> found in buckets.nodes && found.key == key
      ensures !spins && found != null ==>
        rank < |buckets.chains[index]| && found == At(buckets.chains[index], rank)
      ensures !spins && found == null ==> forall x :: x in buckets.nodes ==> x.key != key
    {
      hide Filed, AllLinked, Table, DistinctKeys;
      OpenTable(table[..], buckets, hasher);
      Residents(buckets, hasher, index);
      ghost var chain := buckets.chains[index];
      spins, found, rank := false, table[index], 0;
      while found != null
        invariant rank <= |chain| && found == At(chain, rank)
        invariant forall k :: 0 <= k < rank ==> chain[k].key != key
        invariant !advances ==> rank == 0
        decreases |chain| - rank
      {
        if found.hashVal == hashVal && found.key == key {
          return;
        }
        if !advances {
          return true, found, rank;
        }
        found := found.next;
        rank := rank + 1;
      }
      KeyAbsent(buckets, hasher, key);
    }

    /** Takes the entry of the iterator out. As written `size` stays (`lowers` false). */
    method Erase(iter: ConstIterator, lowers: bool)
      requires Valid() && iter.owner == this && iter.AtEntryOrEnd() && iter.tableIndex < tableSize
      modifies this, table, buckets.nodes`next, iter
      ensures Valid() && contents == old(contents) - {old(iter.tableVal).key}
      ensures old(iter.tableVal).key in old(contents)
      ensures buckets == Without(old(buckets), old(iter.tableIndex), old(iter.rank))
      ensures buckets.nodes <= old(buckets.nodes)
      ensures lag == old(lag) + if lowers then 0 else 1
      ensures iter.tableIndex == 0 && iter.tableVal == null && table == old(table)
    {
      hide Table, Represents, Without;
      Remove(iter.tableIndex, iter.tableVal, iter.rank);
      if lowers {
        size := size - 1;
      } else {
        lag := lag + 1;
      }
      iter.tableIndex := 0;
      iter.tableVal := null;
    }

    /** Unlinks and deletes the node. */
    method Remove(tableIndex: nat, tableVal: TableVal, ghost rank: nat)
      requires WellFormed() && Represents(buckets.nodes, contents) && tableIndex < |buckets.chains|
      requires rank < |buckets.chains[tableIndex]| && tableVal == buckets.chains[tableIndex][rank]
      modifies `buckets, `contents, table, buckets.nodes`next
      ensures WellFormed() && Represents(buckets.nodes, contents)
      ensures buckets == Without(old(buckets), tableIndex, rank) && buckets.nodes <= old(buckets.nodes)
      ensures tableVal.key in old(contents) && contents == old(contents) - {tableVal.key}
      ensures |contents| == |old(contents)| - 1
    {
      hide Table, Filed, Linked, AllLinked, DistinctKeys, Represents, At, Removed;
      ghost var b := buckets;
      OpenTable(table[..], b, hasher);
      Residents(b, hasher, tableIndex);
      OneNodePerKey(b, hasher);
      assert tableVal in b.chains[tableIndex];
      Erased(b.nodes, contents, tableVal);
      buckets := Without(b, tableIndex, rank);
      contents := contents - {tableVal.key};
      RemoveNode(table, tableIndex, tableVal, hasher, b, rank);
    }
  }

  datatype Answer = Spins | DividesByZero | Returned(iter: ConstIterator)

  class ConstIterator {
    const owner: HashMap
    var tableIndex: nat
    var tableVal: TableVal?
    /** The place of `tableVal` in its bucket. */
    ghost var rank: nat

    /** In a bucket of the map, perhaps after its last entry, or past the table. */
    ghost predicate InStep()
      reads this, owner, owner.table, owner.buckets.nodes`next
    {
      && owner.WellFormed()
      && tableIndex <= owner.tableSize == |owner.buckets.chains|
      && (tableIndex < owner.tableSize ==>
            rank <= |owner.buckets.chains[tableIndex]| && tableVal == At(owner.buckets.chains[tableIndex], rank))
    }

    /** At an entry of the map, or past the table. */
    ghost predicate AtEntryOrEnd()
      reads this, owner, owner.table, owner.buckets.nodes`next
    {
      InStep() && (tableIndex < owner.tableSize ==> tableVal != null)
    }

    /** The entries still to come. */
    ghost function Remaining(): seq<TableVal>
      requires InStep()
      reads this, owner, owner.table, owner.buckets.nodes`next
    {
      Rest(owner.buckets.chains, tableIndex, rank)
    }

    constructor (owner: HashMap, tableIndex: nat, tableVal: TableVal?, beyond: TableVal?, ghost rank: nat)
      requires owner.WellFormed() && tableIndex <= owner.tableSize == |owner.buckets.chains|
      requires tableIndex < owner.tableSize ==>
        rank <= |owner.buckets.chains[tableIndex]| && tableVal == At(owner.buckets.chains[tableIndex], rank)
      ensures this.owner == owner && AtEntryOrEnd() && Remaining() == Rest(owner.buckets.chains, tableIndex, rank)
      ensures tableVal != null || tableIndex == owner.tableSize ==>
        this.tableIndex == tableIndex && this.tableVal == tableVal && this.rank == rank
    {
      this.owner, this.tableIndex, this.tableVal, this.rank := owner, tableIndex, tableVal, rank;
      new;
      var stray := ScrollToValid(beyond);
    }

    /** Moves on to the next bucket with an entry. The loop may read the slot after the last one:
        `beyond` is what stands there, and `stray` reports the read. */
    method ScrollToValid(beyond: TableVal?) returns (stray: bool)
      requires InStep()
      modifies this
      ensures AtEntryOrEnd() && Remaining() == old(Remaining())
      ensures old(tableVal != null || tableIndex == owner.tableSize) ==>
        tableIndex == old(tableIndex) && tableVal == old(tableVal) && rank == old(rank)
      ensures stray <==> old(tableVal == null && tableIndex < owner.tableSize) && Remaining() == []
      ensures stray ==> tableVal == beyond
    {
      hide Table, Filed, Linked, AllLinked, Flat, Rest;
      OpenTable(owner.table[..], owner.buckets, owner.hasher);
      stray := false;
      if tableVal != null {
        if tableIndex < owner.tableSize {
          NextEntry(owner.buckets.chains, tableIndex, rank);
        }
        return;
      }
      while tableVal == null && tableIndex < owner.tableSize
        invariant InStep() && Remaining() == old(Remaining())
        invariant tableIndex >= old(tableIndex)
        invariant tableIndex == old(tableIndex) ==> tableVal == old(tableVal) && rank == old(rank)
        invariant stray <==> old(tableIndex) < tableIndex == owner.tableSize
        invariant stray ==> tableVal == beyond
        decreases owner.tableSize - tableIndex
      {
        NextBucket(owner.buckets.chains, tableIndex, rank);
        tableIndex := tableIndex + 1;
        rank := 0;
        stray := tableIndex >= owner.tableSize;
        tableVal := if stray then beyond else owner.table[tableIndex];
      }
      if tableIndex < owner.tableSize {
        NextEntry(owner.buckets.chains, tableIndex, rank);
      }
    }

    method HasNext() returns (r: bool)
      requires AtEntryOrEnd()
      ensures r <==> Remaining() != []
    {
      r := tableIndex < owner.tableSize && tableVal != null;
      if r {
        NextEntry(owner.buckets.chains, tableIndex, rank);
      }
    }

    /** Right at every entry; past the table only if no garbage was read there. */
    method IsValid() returns (r: bool)
      requires AtEntryOrEnd()
      ensures r <==> Remaining() != [] || tableVal != null
    {
      r := tableVal != null;
    }

    method Next(beyond: TableVal?) returns (ret: TableVal, stray: bool)
      requires AtEntryOrEnd() && Remaining() != []
      modifies this
      ensures AtEntryOrEnd() && [ret] + Remaining() == old(Remaining())
      ensures stray <==> Remaining() == []
      ensures stray ==> tableVal == beyond
    {
      hide Table, Filed, Linked, AllLinked, Flat, Rest;
      OpenTable(owner.table[..], owner.buckets, owner.hasher);
      ghost var chains := owner.buckets.chains;
      NextEntry(chains, tableIndex, rank);
      ret := tableVal;
      NextNode(chains[tableIndex], rank);
      tableVal := tableVal.next;
      rank := rank + 1;
      if rank < |chains[tableIndex]| {
        NextEntry(chains, tableIndex, rank);
      }
      stray := ScrollToValid(beyond);
    }
  }

  /** Visits every entry, in the order of the buckets. On a map that was never written to,
      `iterator()` looks for slot 0 behind a null pointer, and nothing comes back. */
  method VisitAll(owner: HashMap, beyond: TableVal?) returns (result: Option<seq<TableVal>>)
    requires owner.Valid()
    ensures result == if owner.tableSize == 0 then None else Some(Flat(owner.buckets.chains))
  {
    hide Table, Represents, Flat, Rest, At, HashMap.Valid, HashMap.WellFormed, ConstIterator.InStep, ConstIterator.Remaining;
    if owner.tableSize == 0 {
      return None;
    }
    FirstBucket(owner);
    RestAll(owner.buckets.chains);
    var iter := new ConstIterator(owner, 0, owner.table[0], beyond, 0);
    var visited := [];
    var more := iter.HasNext();
    while more
      invariant iter.owner == owner && iter.AtEntryOrEnd() && more == (iter.Remaining() != [])
      invariant visited + iter.Remaining() == Flat(owner.buckets.chains)
      decreases |iter.Remaining()|
    {
      var ret, stray := iter.Next(beyond);
      visited := visited + [ret];
      more := iter.HasNext();
    }
    assert visited == Flat(owner.buckets.chains);
    return Some(visited);
  }

  lemma FirstBucket(m: HashMap)
    requires m.Valid() && m.tableSize > 0
    ensures m.WellFormed() && m.tableSize == m.table.Length == |m.buckets.chains|
    ensures m.table[0] == At(m.buckets.chains[0], 0)
  {
  }

  /** Whether a key has a node decides whether the map has it. */
  lemma KeyKnown(nodes: set<TableVal>, contents: map<Key, Value>, key: Key, found: TableVal?)
    requires Represents(nodes, contents)
    requires if found == null then forall x :: x in nodes ==> x.key != key else found in nodes && found.key == key
    ensures found != null <==> key in contents
    ensures found != null ==> found.value == contents[key]
  {
  }

  /** A key that is put, looked up and erased again leaves the map without it and with nothing else
      changed: as it was, if the key was new. */
  method PutGetErase(m: HashMap, key: Key, value: Value)
    requires m.Valid()
    modifies m, m.table, m.buckets.nodes
    ensures m.Valid() && m.contents == old(m.contents) - {key} && m.lag == old(m.lag)
    ensures key !in old(m.contents) ==> m.contents == old(m.contents)
    ensures fresh(m.buckets.nodes - old(m.buckets.nodes)) && (m.table == old(m.table) || fresh(m.table))
  {
    hide *;
    ghost var before := m.contents;
    m.Put(key, value);
    assert m.contents - {key} == before - {key};
    TableIsThere(m, key);
    var answer := m.Get(key, true);
    m.Erase(answer.iter, true);
  }

  lemma TableIsThere(m: HashMap, key: Key)
    requires m.Valid() && key in m.contents
    ensures m.tableSize > 0
  {
  }

  method EmptyAgain(hasher: Key -> Hash, key: Key, value: Value) returns (m: HashMap)
    ensures fresh(m) && m.Valid() && m.contents == map[]
  {
    m := new HashMap(hasher);
    PutGetErase(m, key, value);
  }

  ghost function Flat(chains: seq<seq<TableVal>>): seq<TableVal> {
    if chains == [] then [] else chains[0] + Flat(chains[1..])
  }

  /** What comes from place `rank` of bucket `index` on. */
  ghost function Rest(chains: seq<seq<TableVal>>, index: nat, rank: nat): (r: seq<TableVal>)
    requires index <= |chains| && (index < |chains| ==> rank <= |chains[index]|)
    ensures index == |chains| ==> r == []
  {
    if index == |chains| then [] else chains[index][rank..] + Flat(chains[index + 1..])
  }

  lemma RestAll(chains: seq<seq<TableVal>>)
    requires chains != []
    ensures Rest(chains, 0, 0) == Flat(chains)
  {
  }

  lemma NextBucket(chains: seq<seq<TableVal>>, index: nat, rank: nat)
    requires index < |chains| && rank == |chains[index]|
    ensures Rest(chains, index, rank) == Rest(chains, index + 1, 0)
  {
  }

  lemma NextEntry(chains: seq<seq<TableVal>>, index: nat, rank: nat)
    requires index < |chains| && rank < |chains[index]|
    ensures Rest(chains, index, rank) == [chains[index][rank]] + Rest(chains, index, rank + 1)
  {
  }

  lemma NextNode(s: seq<TableVal>, k: nat)
    requires k < |s| && Linked(s)
    ensures s[k].next == At(s, k + 1)
  {
  }

  /** The visited sequence has every entry of the map exactly once. */
  lemma {:induction false} EveryEntryOnce(b: Buckets, hasher: Key -> Hash)
    requires Filed(b, hasher)
    ensures DistinctKeys(Flat(b.chains))
    ensures forall x :: x in Flat(b.chains) <==> x in b.nodes
  {
    FlatFrom(b, hasher, 0);
    assert b.chains[0..] == b.chains;
    forall x | x in b.nodes ensures x in Flat(b.chains) {
      assert x in b.chains[Home(b, x)];
    }
  }

  /** The same for the buckets from `i` on. */
  lemma {:induction false} FlatFrom(b: Buckets, hasher: Key -> Hash, i: nat)
    requires Filed(b, hasher) && i <= |b.chains|
    ensures DistinctKeys(Flat(b.chains[i..]))
    ensures forall x :: x in Flat(b.chains[i..]) <==> x in b.nodes && Home(b, x) >= i
    decreases |b.chains| - i
  {
    if i < |b.chains| {
      hide Filed, DistinctKeys, Home;
      var s := b.chains[i];
      FlatFrom(b, hasher, i + 1);
      Residents(b, hasher, i);
      OneNodePerKey(b, hasher);
      assert b.chains[i..] == [s] + b.chains[i + 1..];
      assert Flat(b.chains[i..]) == s + Flat(b.chains[i + 1..]);
      forall x, y | x in s && y in Flat(b.chains[i + 1..]) ensures x.key != y.key {
        assert Home(b, x) == i < Home(b, y);
      }
      DistinctTogether(s, Flat(b.chains[i + 1..]));
    }
  }

  lemma DistinctTogether(s: seq<TableVal>, t: seq<TableVal>)
    requires DistinctKeys(s) && DistinctKeys(t) && forall x, y :: x in s && y in t ==> x.key != y.key
    ensures DistinctKeys(s + t)
  {
    forall j, k | 0 <= j < k < |s + t| ensures (s + t)[j].key != (s + t)[k].key {
      if j < |s| <= k {
        assert s[j] in s && t[k - |s|] in t;
      }
    }
  }
}
