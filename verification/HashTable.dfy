// The chained hash table behind the name index (lib/zip_hash.c).
module HashTable {
  import opened Bytes
  import opened Bits
  import opened HashSize
  import opened NameMap

  class HashEntry {
    const name: Name
    const hashValue: nat
    var origIndex: int
    var currentIndex: int
    var next: HashEntry?

    constructor (name: Name, hashValue: nat)
      ensures this.name == name && this.hashValue == hashValue && origIndex == -1 && currentIndex == -1
    {
      this.name, this.hashValue := name, hashValue;
      origIndex, currentIndex, next := -1, -1, null;
    }
  }

  type Chains = seq<seq<HashEntry>>

  function EntryAt(chain: seq<HashEntry>, k: nat): HashEntry? {
    if k < |chain| then chain[k] else null
  }

  // The list starting at head consists of the entries of the chain, all of them among the nodes.
  ghost predicate Linked(nodes: set<HashEntry>, head: HashEntry?, chain: seq<HashEntry>)
    reads nodes`next
  {
    && head == EntryAt(chain, 0)
    && forall k :: 0 <= k < |chain| ==> chain[k] in nodes && chain[k].next == EntryAt(chain, k + 1)
  }

  ghost predicate AllLinked(nodes: set<HashEntry>, heads: seq<HashEntry?>, chains: Chains)
    reads nodes`next
    ensures AllLinked(nodes, heads, chains) ==> |heads| == |chains|
  {
    && |heads| == |chains|
    && forall b :: 0 <= b < |chains| ==> Linked(nodes, heads[b], chains[b])
  }

  // Each entry sits in the bucket its hash value says, once, and they are those of the given nodes.
  ghost predicate Bucketed(nodes: set<HashEntry>, chains: Chains) {
    && (forall b, k :: 0 <= b < |chains| && 0 <= k < |chains[b]| ==>
          chains[b][k] in nodes && chains[b][k].hashValue % |chains| == b)
    && (forall b, j, k :: 0 <= b < |chains| && 0 <= j < k < |chains[b]| ==> chains[b][j] != chains[b][k])
    && (forall e :: e in nodes ==> |chains| > 0 && e in chains[e.hashValue % |chains|])
  }

  function Bucket(e: HashEntry, size: nat): nat
    requires size > 0
  {
    e.hashValue % size
  }

  // An entry put at the head of its bucket.
  lemma BucketedInsert(nodes: set<HashEntry>, chains: Chains, e: HashEntry)
    requires Bucketed(nodes, chains) && e !in nodes && |chains| > 0
    ensures var b := Bucket(e, |chains|);
            Bucketed(nodes + {e}, chains[b := [e] + chains[b]])
  {
    var b := Bucket(e, |chains|);
    var after := chains[b := [e] + chains[b]];
    forall f | f in nodes + {e}
      ensures f in after[f.hashValue % |after|]
    {
      if f == e {
        assert after[b][0] == e;
      } else if f.hashValue % |after| == b {
        var k :| 0 <= k < |chains[b]| && chains[b][k] == f;
        assert after[b][k + 1] == f;
      }
    }
    forall k | 0 <= k < |after[b]|
      ensures after[b][k] in nodes + {e} && after[b][k].hashValue % |after| == b
      ensures k > 0 ==> after[b][k] != e
    {
      assert k > 0 ==> after[b][k] == chains[b][k - 1];
    }
  }

  lemma LinkedInsert(nodes: set<HashEntry>, heads: seq<HashEntry?>, chains: Chains, e: HashEntry, b: nat)
    requires AllLinked(nodes, heads, chains) && b < |chains| && e.next == heads[b]
    ensures AllLinked(nodes + {e}, heads[b := e], chains[b := [e] + chains[b]])
  {
    var chain := [e] + chains[b];
    assert Linked(nodes, heads[b], chains[b]);
    forall k | 0 <= k < |chain|
      ensures chain[k] in nodes + {e} && chain[k].next == EntryAt(chain, k + 1)
    {
      assert EntryAt(chain, k + 1) == EntryAt(chains[b], k);
      assert k > 0 ==> chain[k] == chains[b][k - 1];
    }
    assert Linked(nodes + {e}, e, chain);
    forall c | 0 <= c < |chains| && c != b
      ensures Linked(nodes + {e}, heads[c], chains[c])
    {
      assert Linked(nodes, heads[c], chains[c]);
    }
  }

  function Without<T>(s: seq<T>, k: nat): seq<T>
    requires k < |s|
  {
    s[..k] + s[k + 1..]
  }

  lemma WithoutAt(chain: seq<HashEntry>, k: nat)
    requires k < |chain|
    ensures var shorter := Without(chain, k);
            && |shorter| == |chain| - 1
            && (forall j :: 0 <= j < |shorter| ==> shorter[j] == chain[if j < k then j else j + 1])
            && forall j :: 0 <= j <= |shorter| ==> EntryAt(shorter, j) == EntryAt(chain, if j < k then j else j + 1)
  {
  }

  // An entry taken out of its bucket.
  lemma BucketedRemove(nodes: set<HashEntry>, chains: Chains, b: nat, k: nat)
    requires Bucketed(nodes, chains) && b < |chains| && k < |chains[b]|
    ensures Bucketed(nodes - {chains[b][k]}, chains[b := Without(chains[b], k)])
  {
    var e, chain := chains[b][k], Without(chains[b], k);
    var after := chains[b := chain];
    forall f | f in nodes - {e}
      ensures f in after[f.hashValue % |after|]
    {
      if f.hashValue % |after| == b {
        var j :| 0 <= j < |chains[b]| && chains[b][j] == f;
        assert f == chain[if j < k then j else j - 1];
      }
    }
    forall j | 0 <= j < |chain|
      ensures chain[j] == chains[b][if j < k then j else j + 1]
    {
    }
    forall c, j | 0 <= c < |after| && 0 <= j < |after[c]|
      ensures after[c][j] in nodes - {e} && after[c][j].hashValue % |after| == c
    {
      if c != b {
        assert after[c][j] == chains[c][j];
      }
    }
  }

  ghost predicate OnlyAt(chains: Chains, b: nat, k: nat)
    requires b < |chains| && k < |chains[b]|
  {
    forall c, j :: 0 <= c < |chains| && 0 <= j < |chains[c]| && chains[c][j] == chains[b][k] ==> c == b && j == k
  }

  lemma OnlyThere(nodes: set<HashEntry>, chains: Chains, b: nat, k: nat)
    requires Bucketed(nodes, chains) && b < |chains| && k < |chains[b]|
    ensures OnlyAt(chains, b, k) && chains[b][k] in nodes
  {
  }

  // Taking out the first entry of a bucket leaves the other lists alone.
  lemma LinkedRemoveFirst(nodes: set<HashEntry>, heads: seq<HashEntry?>, chains: Chains, b: nat)
    requires AllLinked(nodes, heads, chains) && Bucketed(nodes, chains) && b < |chains| && chains[b] != []
    ensures AllLinked(nodes - {chains[b][0]}, heads[b := chains[b][0].next], chains[b := Without(chains[b], 0)])
  {
    hide Bucketed, Linked;
    var e := chains[b][0];
    OnlyThere(nodes, chains, b, 0);
    LinkedTail(nodes, heads[b], chains[b]);
    forall c | 0 <= c < |chains| && c != b
      ensures Linked(nodes - {e}, heads[c], chains[c])
    {
      LinkedOthers(nodes, e, heads[c], chains[c]);
    }
  }

  lemma LinkedTail(nodes: set<HashEntry>, head: HashEntry?, chain: seq<HashEntry>)
    requires Linked(nodes, head, chain) && chain != [] && forall j :: 0 < j < |chain| ==> chain[j] != chain[0]
    ensures Linked(nodes - {chain[0]}, chain[0].next, Without(chain, 0))
  {
    assert forall j :: 0 <= j < |chain| ==> EntryAt(Without(chain, 0), j) == EntryAt(chain, j + 1);
  }

  lemma LinkedOthers(nodes: set<HashEntry>, e: HashEntry, head: HashEntry?, chain: seq<HashEntry>)
    requires Linked(nodes, head, chain) && e !in chain
    ensures Linked(nodes - {e}, head, chain)
  {
  }

  // The entries are named by the given names, one for each.
  ghost predicate Named(nodes: set<HashEntry>, names: set<Name>, siphash: Name -> nat) {
    && (forall e :: e in nodes ==> e.hashValue == siphash(e.name) && e.name in names)
    && (forall e, f :: e in nodes && f in nodes && e.name == f.name ==> e == f)
    && (forall n :: n in names ==> exists e :: e in nodes && e.name == n)
  }

  // The entries contain the indices of their names.
  ghost predicate Slotted(nodes: set<HashEntry>, index: Index)
    reads nodes`origIndex, nodes`currentIndex
  {
    forall e :: e in nodes ==> e.name in index && index[e.name] == Slot(e.origIndex, e.currentIndex)
  }

  ghost predicate AllReverted(done: set<HashEntry>)
    reads done`origIndex, done`currentIndex
  {
    forall e :: e in done ==> e.origIndex != -1 && e.currentIndex == e.origIndex
  }

  ghost predicate InSet(chain: seq<HashEntry>, s: set<HashEntry>) {
    forall k :: 0 <= k < |chain| ==> chain[k] in s
  }

  lemma NamedInsert(nodes: set<HashEntry>, names: set<Name>, siphash: Name -> nat, e: HashEntry)
    requires Named(nodes, names, siphash) && e.name !in names && e.hashValue == siphash(e.name)
    ensures Named(nodes + {e}, names + {e.name}, siphash) && e !in nodes
  {
    forall n | n in names
      ensures exists f :: f in nodes + {e} && f.name == n
    {
      var f :| f in nodes && f.name == n;
      assert f in nodes + {e};
    }
    assert e in nodes + {e};
  }

  lemma SameName(nodes: set<HashEntry>, names: set<Name>, siphash: Name -> nat, e: HashEntry)
    requires Named(nodes, names, siphash) && e in nodes
    ensures e.name in names && forall f :: f in nodes && f != e ==> f.name != e.name
  {
  }

  lemma NamedRemove(nodes: set<HashEntry>, names: set<Name>, siphash: Name -> nat, e: HashEntry)
    requires Named(nodes, names, siphash) && e in nodes
    ensures Named(nodes - {e}, names - {e.name}, siphash)
  {
    forall n | n in names - {e.name}
      ensures exists f :: f in nodes - {e} && f.name == n
    {
      var f :| f in nodes && f.name == n;
      assert f in nodes - {e};
    }
  }

  lemma SlottedInsert(nodes: set<HashEntry>, index: Index, e: HashEntry)
    requires Slotted(nodes, index) && e.name !in index
    ensures Slotted(nodes + {e}, index[e.name := Slot(e.origIndex, e.currentIndex)])
  {
  }

  lemma SlottedRemove(nodes: set<HashEntry>, index: Index, e: HashEntry)
    requires Slotted(nodes + {e}, index) && forall f :: f in nodes ==> f.name != e.name
    ensures Slotted(nodes, index - {e.name})
  {
    assert forall f :: f in nodes ==> f in nodes + {e};
  }

  class Hash {
    const siphash: Name -> nat
    var tableSize: nat
    var nentries: nat
    var table: array<HashEntry?>

    ghost var nodes: set<HashEntry>
    ghost var chains: Chains
    ghost var index: Index

    // The table is a well-formed representation of the index.
    ghost predicate Represents()
      reads this, table, nodes
    {
      && tableSize == table.Length == |chains|
      && AllLinked(nodes, table[..], chains)
      && Bucketed(nodes, chains)
      && Named(nodes, index.Keys, siphash)
      && Slotted(nodes, index)
      && nentries == |index|
    }

    ghost predicate Valid()
      reads this, table, nodes
    {
      && Represents()
      && Proper(index)
      && SizeFits()
    }

    // The table size is 0 or a power of two, and the table is at most three quarters full (lines 42-47).
    ghost predicate SizeFits()
      reads this
    {
      && (tableSize == 0 || PowerOfTwo(tableSize)) && tableSize <= HASH_MAX_SIZE
      && (4 * nentries <= 3 * tableSize || tableSize == HASH_MAX_SIZE)
    }

    constructor (siphash: Name -> nat)
      ensures Valid() && index == map[] && this.siphash == siphash && fresh(table) && nodes == {}
    {
      this.siphash := siphash;
      tableSize, nentries := 0, 0;
      table := new HashEntry?[0];
      nodes, chains, index := {}, [], map[];
    }

    // The entry for a name, if any, and the one before it in its list (lines 206-216, 260-285, 307-321).
    method Find(name: Name) returns (previous: HashEntry?, entry: HashEntry?, ghost k: nat)
      requires Represents() && tableSize > 0
      ensures entry == null ==> name !in index
      ensures entry != null ==>
        && entry in nodes && entry.name == name && name in index
        && index[name] == Slot(entry.origIndex, entry.currentIndex)
        && var chain := chains[siphash(name) % tableSize];
           k < |chain| && chain[k] == entry && previous == if k == 0 then null else chain[k - 1]
    {
      var b := siphash(name) % tableSize;
      ghost var chain := chains[b];
      assert Linked(nodes, table[..][b], chain);
      previous, entry, k := null, table[b], 0;
      while entry != null
        invariant k <= |chain| && entry == EntryAt(chain, k) && previous == if k == 0 then null else chain[k - 1]
        invariant forall j :: 0 <= j < k ==> chain[j].name != name
        decreases |chain| - k
      {
        if entry.name == name {
          return;
        }
        assert Linked(nodes, table[..][b], chain);
        previous, entry, k := entry, entry.next, k + 1;
      }
    }

    // The index a name has in one of the two views, -1 if none (lines 294-326).
    method Lookup(name: Name, original: bool) returns (r: int)
      requires Valid()
      ensures r == NameMap.Lookup(index, name, original)
    {
      if nentries > 0 {
        var _, entry, _ := Find(name);
        if entry != null {
          return if original then entry.origIndex else entry.currentIndex;
        }
      }
      return -1;
    }

    // Put a new entry at the head of its bucket (lines 219-228).
    method Insert(name: Name) returns (entry: HashEntry)
      requires Represents() && tableSize > 0 && name !in index
      modifies this`nentries, this`nodes, this`chains, this`index, table
      ensures Represents() && index == old(index)[name := Slot(-1, -1)]
      ensures fresh(entry) && entry.name == name && nodes == old(nodes) + {entry}
      ensures entry.origIndex == -1 && entry.currentIndex == -1
    {
      hide Named, Bucketed, AllLinked, Slotted;
      entry := NewEntry(name);
      LinkInFront(entry, entry.hashValue % tableSize);
      SlottedInsert(old(nodes), index, entry);
      nentries := nentries + 1;
      index := index[name := Slot(-1, -1)];
      assert index.Keys == old(index).Keys + {name};
    }

    method NewEntry(name: Name) returns (entry: HashEntry)
      requires Represents() && name !in index
      ensures Represents() && fresh(entry) && entry.name == name && entry.origIndex == entry.currentIndex == -1
      ensures entry.hashValue == siphash(name)
      ensures entry !in nodes && Named(nodes + {entry}, index.Keys + {name}, siphash)
    {
      hide Bucketed, AllLinked, Named;
      entry := new HashEntry(name, siphash(name));
      NamedInsert(nodes, index.Keys, siphash, entry);
    }

    method LinkInFront(entry: HashEntry, tableIndex: nat)
      requires tableSize == table.Length && tableSize > 0 && tableIndex == Bucket(entry, tableSize)
      requires Lists(nodes, table[..], chains) && entry !in nodes
      modifies entry`next, table, this`nodes, this`chains
      ensures Lists(nodes, table[..], chains) && nodes == old(nodes) + {entry} && |chains| == tableSize
    {
      hide Bucketed, AllLinked;
      BucketedInsert(nodes, chains, entry);
      ghost var heads := table[..];
      entry.next := table[tableIndex];
      LinkedInsert(nodes, table[..], chains, entry, tableIndex);
      table[tableIndex] := entry;
      assert table[..] == heads[tableIndex := entry];
      nodes, chains := nodes + {entry}, chains[tableIndex := [entry] + chains[tableIndex]];
    }

    // Change the indices of an entry (lines 236-239, 279, 373).
    method Update(entry: HashEntry, origIndex: int, currentIndex: int)
      requires Represents() && entry in nodes
      modifies entry`origIndex, entry`currentIndex, this`index
      ensures Represents() && index == old(index)[entry.name := Slot(origIndex, currentIndex)]
      ensures entry.origIndex == origIndex && entry.currentIndex == currentIndex
    {
      hide Bucketed, AllLinked, Named;
      SameName(nodes, index.Keys, siphash, entry);
      entry.origIndex, entry.currentIndex := origIndex, currentIndex;
      index := index[entry.name := Slot(origIndex, currentIndex)];
      assert index.Keys == old(index).Keys;
    }

    // Insert a new entry and double the table if it gets too full (lines 218-234).
    method InsertAndGrow(name: Name) returns (entry: HashEntry)
      requires Represents() && SizeFits() && tableSize > 0 && name !in index
      modifies this`nentries, this`nodes, this`chains, this`index, this`tableSize, this`table, table, nodes`next
      ensures Represents() && SizeFits() && index == old(index)[name := Slot(-1, -1)]
      ensures fresh(entry) && entry.name == name && nodes == old(nodes) + {entry}
      ensures entry.origIndex == -1 && entry.currentIndex == -1
      ensures table == old(table) || fresh(table)
      ensures nentries == old(nentries) + 1
      ensures tableSize == if 4 * nentries > 3 * old(tableSize)
              && old(tableSize) < HASH_MAX_SIZE then 2 * old(tableSize)
                           else old(tableSize)
    {
      hide Bucketed, AllLinked, Named, PowerOfTwo;
      entry := Insert(name);
      if 4 * nentries > 3 * tableSize && tableSize < HASH_MAX_SIZE {
        SizeLimits();
        DoubleFits(tableSize, HASH_MAX_SIZE);
        Resize(tableSize * 2);
      }
    }

    // Add a name (lines 187-242).
    method Add(name: Name, idx: nat, original: bool) returns (ok: bool)
      requires Valid()
      modifies this, table, nodes
      ensures Valid() && fresh(nodes - old(nodes)) && (table == old(table) || fresh(table))
      ensures ok == (idx <= INT64_MAX && CanAdd(old(index), name, original))
      ensures index == if ok then NameMap.Add(old(index), name, idx, original) else old(index)
    {
      hide Bucketed, AllLinked, Named, PowerOfTwo, Proper, NameMap.Add;
      if idx > INT64_MAX {
        return false;
      }
      SizeLimits();
      if tableSize == 0 {
        Resize(HASH_MIN_SIZE);
      }
      var _, entry, _ := Find(name);
      if entry != null {
        if (original && entry.origIndex != -1) || entry.currentIndex != -1 {
          return false;
        }
      } else {
        entry := InsertAndGrow(name);
      }
      Assign(entry, idx, original, old(index));
      return true;
    }

    // Set the indices of an entry that was found or made for a name (lines 236-239).
    method Assign(entry: HashEntry, idx: nat, original: bool, ghost before: Index)
      requires Represents() && entry in nodes && CanAdd(before, entry.name, original) && Proper(before)
      requires index == if entry.name in before then before else before[entry.name := Slot(-1, -1)]
      modifies entry`origIndex, entry`currentIndex, this`index
      ensures Represents() && index == NameMap.Add(before, entry.name, idx, original) && Proper(index)
    {
      hide Bucketed, AllLinked, Named, Proper;
      Update(entry, if original then idx else entry.origIndex, idx);
      assert index == NameMap.Add(before, entry.name, idx, original);
      AddKeepsProper(before, entry.name, idx, original);
    }

    // Take an entry out of its list (lines 264-269, 360-365).
    method LinkOut(ghost k: nat, b: nat, previous: HashEntry?, entry: HashEntry)
      requires Lists(nodes, table[..], chains) && b < |chains| && k < |chains[b]| && entry == chains[b][k]
      requires previous == if k == 0 then null else chains[b][k - 1]
      modifies table, nodes`next, this`nodes, this`chains
      ensures Lists(nodes, table[..], chains) && nodes == old(nodes) - {entry}
      ensures chains == old(chains)[b := Without(old(chains[b]), k)]
    {
      hide Bucketed, AllLinked;
      BucketedRemove(nodes, chains, b, k);
      if previous != null {
        OnlyThere(nodes, chains, b, k - 1);
        OnlyThere(nodes, chains, b, k);
        LinkPast(k, b, previous, entry);
      } else {
        FirstOfBucket(nodes, table[..], chains, b);
        LinkedRemoveFirst(nodes, table[..], chains, b);
        table[b] := entry.next;
      }
      nodes, chains := nodes - {entry}, chains[b := Without(chains[b], k)];
    }

    method LinkPast(ghost k: nat, ghost b: nat, previous: HashEntry, entry: HashEntry)
      requires AllLinked(nodes, table[..], chains) && b < |chains| && 0 < k < |chains[b]|
      requires previous == chains[b][k - 1] && entry == chains[b][k]
      requires OnlyAt(chains, b, k - 1) && OnlyAt(chains, b, k)
      modifies previous`next
      ensures AllLinked(nodes - {entry}, table[..], chains[b := Without(chains[b], k)])
    {
      hide Without;
      ghost var chain, shorter := chains[b], Without(chains[b], k);
      assert Linked(nodes, table[..][b], chain);
      previous.next := entry.next;
      WithoutAt(chain, k);
      assert Linked(nodes - {entry}, table[..][b], shorter);
      forall c | 0 <= c < |chains| && c != b
        ensures Linked(nodes - {entry}, table[..][c], chains[c])
      {
        assert old(Linked(nodes, table[..][c], chains[c]));
      }
    }

    // Take an entry out of the table.
    method Discard(ghost k: nat, b: nat, previous: HashEntry?, entry: HashEntry)
      requires Represents() && b < |chains| && k < |chains[b]| && entry == chains[b][k]
      requires previous == if k == 0 then null else chains[b][k - 1]
      modifies table, nodes`next, this`nodes, this`chains, this`index, this`nentries
      ensures Represents() && entry in old(nodes) && nodes == old(nodes) - {entry}
      ensures index == old(index) - {entry.name} && entry.name in old(index) && nentries == old(nentries) - 1
      ensures chains == old(chains)[b := Without(old(chains[b]), k)]
    {
      hide Bucketed, AllLinked, Named, Slotted, Without, OnlyAt;
      OnlyThere(nodes, chains, b, k);
      SameName(nodes, index.Keys, siphash, entry);
      NamedRemove(nodes, index.Keys, siphash, entry);
      SizeWithout(index, entry.name);
      ghost var before := nodes;
      LinkOut(k, b, previous, entry);
      assert nodes + {entry} == before;
      SlottedRemove(nodes, index, entry);
      nentries := nentries - 1;
      index := index - {entry.name};
    }

    // Halve the table while it is nearly empty (lines 272-276, 380-388).
    method Shrink()
      requires Represents() && SizeFits()
      modifies this`tableSize, this`table, this`chains, nodes`next
      ensures Represents() && SizeFits() && nodes == old(nodes) && index == old(index)
      ensures table == old(table) || fresh(table)
      ensures tableSize <= old(tableSize) && (tableSize <= HASH_MIN_SIZE || 100 * nentries >= tableSize)
      ensures tableSize == old(tableSize) || (50 * nentries < tableSize && 100 * nentries < old(tableSize))
    {
      hide Bucketed, AllLinked, Named;
      if 100 * nentries < tableSize && tableSize > HASH_MIN_SIZE {
        var newSize: nat := tableSize / 2;
        while 100 * nentries < newSize && newSize > HASH_MIN_SIZE
          invariant PowerOfTwo(newSize) && 50 * nentries < newSize <= HASH_MAX_SIZE
        {
          newSize := newSize / 2;
        }
        Resize(newSize);
      }
    }

    // Remove a name from the current view (lines 246-290).
    method Delete(name: Name) returns (ok: bool)
      requires Valid()
      modifies this, table, nodes
      ensures Valid() && nodes <= old(nodes) && (table == old(table) || fresh(table))
      ensures ok == (name in old(index)) && index == NameMap.Delete(old(index), name)
      ensures nentries == |index|
      ensures tableSize == if nentries < old(nentries) && 100 * nentries < old(tableSize)
              && old(tableSize) > HASH_MIN_SIZE
                           then old(tableSize) / 2 else old(tableSize)
    {
      hide Bucketed, AllLinked, Named, PowerOfTwo, Proper;
      DeleteKeepsProper(index, name);
      if nentries > 0 {
        var previous, entry, k := Find(name);
        if entry != null {
          if entry.origIndex == -1 {
            Discard(k, siphash(name) % tableSize, previous, entry);
            if 100 * nentries < tableSize && tableSize > HASH_MIN_SIZE {
              HalfOfTwo(tableSize);
              Resize(tableSize / 2);
            }
          } else {
            Update(entry, entry.origIndex, -1);
          }
          return true;
        }
      }
      return false;
    }

    // Make room for a number of entries (lines 329-347).
    method ReserveCapacity(capacity: nat)
      requires Valid()
      modifies this`tableSize, this`table, this`chains, nodes`next
      ensures Valid() && nodes == old(nodes) && index == old(index) && tableSize >= old(tableSize)
      ensures table == old(table) || fresh(table)
      ensures capacity >= 3 && tableSize < HASH_MAX_SIZE ==> 4 * capacity <= 3 * tableSize
      ensures tableSize == old(tableSize) || 4 * capacity / 3 > HASH_MAX_SIZE
              || forall n: nat :: PowerOfTwo(n) && 4 * capacity <= 3 * n ==> tableSize <= n
    {
      hide Bucketed, AllLinked, Named, PowerOfTwo;
      if capacity == 0 {
        return;
      }
      var newSize := SizeForCapacity(capacity);
      if newSize <= tableSize {
        return;
      }
      Resize(newSize);
    }

    // Drop the names that are only used in the current view and reset the others (lines 350-391).
    method Revert()
      requires Valid()
      modifies this, table, nodes
      ensures Valid() && nodes <= old(nodes) && (table == old(table) || fresh(table))
      ensures index == NameMap.Revert(old(index)) && tableSize <= old(tableSize)
      ensures tableSize <= HASH_MIN_SIZE || 100 * nentries >= tableSize
    {
      hide Bucketed, AllLinked, Named, PowerOfTwo, Reverting, Proper;
      ghost var before, done := index, {};
      RevertingNothing(index);
      for i := 0 to tableSize
        invariant Represents() && SizeFits() && tableSize == old(tableSize) && table == old(table)
        invariant nodes <= old(nodes) && Reverting(before, index)
        invariant AllReverted(done) && forall c :: 0 <= c < i ==> InSet(chains[c], done)
      {
        done := RevertBucket(i, before, done);
      }
      EverythingReverted(done, before);
      Shrink();
    }

    lemma EverythingReverted(done: set<HashEntry>, before: Index)
      requires Represents() && AllReverted(done) && forall c :: 0 <= c < tableSize ==> InSet(chains[c], done)
      requires Reverting(before, index) && Proper(before)
      ensures index == NameMap.Revert(before) && Proper(index)
    {
      forall n | n in index
        ensures index[n].orig != -1 && index[n].current == index[n].orig
      {
        var e :| e in nodes && e.name == n;
        assert e in chains[e.hashValue % tableSize];
        assert e in done;
      }
      RevertDone(before, index);
    }

    // Where the revert is in a bucket: at entry k, with the ones before it done.
    ghost predicate RevertingAt(i: nat, k: nat, previous: HashEntry?, entry: HashEntry?, before: Index,
        done: set<HashEntry>)
      reads this, table, nodes, done
    {
      && Represents() && SizeFits() && Reverting(before, index) && AllReverted(done)
      && i < tableSize && k <= |chains[i]|
      && entry == EntryAt(chains[i], k) && previous == (if k == 0 then null else chains[i][k - 1])
      && InSet(chains[i][..k], done)
    }

    // Revert the entries of one bucket (lines 355-377).
    method RevertBucket(i: nat, ghost before: Index, ghost done: set<HashEntry>) returns (ghost done': set<HashEntry>)
      requires Represents() && SizeFits() && i < tableSize && Reverting(before, index) && AllReverted(done)
      modifies table, nodes, this`nodes, this`chains, this`index, this`nentries
      ensures Represents() && SizeFits() && nodes <= old(nodes) && Reverting(before, index)
      ensures AllReverted(done') && done <= done' && InSet(chains[i], done')
      ensures forall c :: 0 <= c < tableSize && c != i ==> chains[c] == old(chains[c])
    {
      hide Bucketed, AllLinked, Named, PowerOfTwo, Reverting;
      done' := done;
      var previous: HashEntry?, entry: HashEntry? := null, table[i];
      ghost var k: nat := 0;
      HeadOfBucket(i);
      while entry != null
        invariant RevertingAt(i, k, previous, entry, before, done') && nodes <= old(nodes) && done <= done'
        invariant |chains| == |old(chains)| && forall c :: 0 <= c < tableSize && c != i ==> chains[c] == old(chains[c])
        decreases |chains[i]| - k
      {
        previous, entry, k, done' := RevertEntry(i, k, previous, entry, before, done');
      }
      assert chains[i][..k] == chains[i];
    }

    // Revert one entry (lines 358-376).
    method RevertEntry(ghost i: nat, ghost k: nat, previous: HashEntry?, entry: HashEntry, ghost before: Index,
        ghost done: set<HashEntry>)
      returns (previous': HashEntry?, entry': HashEntry?, ghost k': nat, ghost done': set<HashEntry>)
      requires RevertingAt(i, k, previous, entry, before, done)
      modifies table, nodes, this`nodes, this`chains, this`index, this`nentries
      ensures RevertingAt(i, k', previous', entry', before, done') && nodes <= old(nodes) && done <= done'
      ensures |chains[i]| - k' < |old(chains[i])| - k
      ensures forall c :: 0 <= c < tableSize && c != i ==> chains[c] == old(chains[c])
    {
      hide Bucketed, AllLinked, Named, PowerOfTwo, Reverting, Slotted;
      NextInBucket(i, k);
      previous', entry', k', done' := previous, entry.next, k, done;
      if entry.origIndex == -1 {
        ghost var chain := chains[i];
        RevertingDrop(before, index, entry.name);
        Discard(k, entry.hashValue % tableSize, previous, entry);
        assert chains[i][..k] == chain[..k];
        assert EntryAt(chains[i], k) == EntryAt(chain, k + 1);
        assert k > 0 ==> chains[i][k - 1] == chain[k - 1];
      } else {
        RevertingReset(before, index, entry.name);
        Update(entry, entry.origIndex, entry.origIndex);
        assert chains[i][..k + 1] == chains[i][..k] + [entry];
        previous', k', done' := entry, k + 1, done + {entry};
      }
    }

    lemma HeadOfBucket(i: nat)
      requires Represents() && i < tableSize
      ensures table[i] == EntryAt(chains[i], 0)
    {
      assert Linked(nodes, table[..][i], chains[i]);
    }

    lemma NextInBucket(i: nat, k: nat)
      requires Represents() && i < tableSize && k < |chains[i]|
      ensures var e := chains[i][k];
              && e in nodes && e.hashValue % tableSize == i && e.next == EntryAt(chains[i], k + 1)
              && e.name in index && index[e.name] == Slot(e.origIndex, e.currentIndex)
    {
      assert Linked(nodes, table[..][i], chains[i]);
    }

    // Move all entries to a new table (lines 77-112).
    method Resize(newSize: nat)
      requires Represents() && newSize > 0
      modifies this`tableSize, this`table, this`chains, nodes`next
      ensures Represents() && tableSize == newSize && nodes == old(nodes) && index == old(index)
      ensures table == old(table) || fresh(table)
    {
      hide AllLinked, Bucketed;
      if newSize == tableSize {
        return;
      }
      var newTable := new HashEntry?[newSize](_ => null);
      ghost var newChains: Chains := seq(newSize, _ => []);
      NoLists(newTable[..], newChains);
      if nentries > 0 {
        newChains := MoveAll(table, newTable, nodes, chains, newChains);
      } else {
        assert forall e :: e in nodes ==> e.name in index;
        assert nodes == {};
      }
      table := newTable;
      tableSize := newSize;
      chains := newChains;
    }
  }

  // Well-formed lists of exactly the given nodes.
  ghost predicate Lists(nodes: set<HashEntry>, heads: seq<HashEntry?>, chains: Chains)
    reads nodes`next
  {
    AllLinked(nodes, heads, chains) && Bucketed(nodes, chains)
  }

  lemma FirstOfBucket(nodes: set<HashEntry>, heads: seq<HashEntry?>, chains: Chains, b: nat)
    requires Lists(nodes, heads, chains) && b < |chains|
    ensures if heads[b] == null then chains[b] == []
            else chains[b] != [] && chains[b][0] == heads[b] && heads[b] in nodes
  {
    assert Linked(nodes, heads[b], chains[b]);
  }

  lemma NoLists(heads: seq<HashEntry?>, chains: Chains)
    requires |heads| == |chains| && forall b :: 0 <= b < |heads| ==> heads[b] == null && chains[b] == []
    ensures Lists({}, heads, chains)
  {
    assert forall b :: 0 <= b < |heads| ==> Linked({}, heads[b], chains[b]);
  }

  lemma NothingLeft(nodes: set<HashEntry>, chains: Chains)
    requires Bucketed(nodes, chains) && forall b :: 0 <= b < |chains| ==> chains[b] == []
    ensures nodes == {}
  {
    assert forall e :: e in nodes ==> e in chains[e.hashValue % |chains|];
  }

  // Move the entries of all buckets (lines 92-105).
  method MoveAll(table: array<HashEntry?>, newTable: array<HashEntry?>, ghost nodes: set<HashEntry>,
      ghost chains: Chains, ghost emptyChains: Chains)
    returns (ghost newChains: Chains)
    requires Lists(nodes, table[..], chains) && Lists({}, newTable[..], emptyChains)
    requires table != newTable && newTable.Length > 0
    modifies newTable, nodes`next
    ensures Lists(nodes, newTable[..], newChains)
  {
    hide AllLinked, Bucketed;
    newChains := emptyChains;
    ghost var todo, heads, rest := nodes, table[..], chains;
    assert nodes - todo == {};
    for i := 0 to table.Length
      invariant todo <= nodes && table.Length == |rest| == |heads|
      invariant Lists(todo, heads, rest) && Lists(nodes - todo, newTable[..], newChains)
      invariant forall c :: 0 <= c < i ==> rest[c] == []
      invariant forall c :: i <= c < table.Length ==> heads[c] == table[c]
    {
      ghost var before := todo;
      todo, heads, rest, newChains := MoveBucket(newTable, table[i], todo, heads, rest, i, nodes - todo, newChains);
      assert nodes - before + (before - todo) == nodes - todo;
    }
    NothingLeft(todo, rest);
    assert nodes - todo == nodes;
  }

  // Move the entries of one bucket (lines 93-104).
  method MoveBucket(newTable: array<HashEntry?>, head: HashEntry?,
                    ghost todo: set<HashEntry>, ghost heads: seq<HashEntry?>, ghost rest: Chains, ghost i: nat,
                    ghost done: set<HashEntry>, ghost newChains: Chains)
    returns (ghost todo': set<HashEntry>, ghost heads': seq<HashEntry?>, ghost rest': Chains, ghost newChains': Chains)
    requires Lists(todo, heads, rest) && i < |rest| && head == heads[i]
    requires Lists(done, newTable[..], newChains) && todo !! done && newTable.Length > 0
    modifies newTable, todo`next
    ensures todo' <= todo && |heads'| == |heads| == |rest| == |rest'| && |newChains'| == newTable.Length
    ensures Lists(todo', heads', rest') && Lists(done + (todo - todo'), newTable[..], newChains')
    ensures rest' == rest[i := []] && forall c :: 0 <= c < |rest| && c != i ==> heads'[c] == heads[c]
  {
    hide AllLinked, Bucketed;
    var entry := head;
    todo', heads', rest', newChains' := todo, heads, rest, newChains;
    assert done + (todo - todo') == done;
    while entry != null
      invariant todo' <= todo && |heads'| == |heads| == |rest| == |rest'| && |newChains'| == newTable.Length
      invariant Lists(todo', heads', rest') && Lists(done + (todo - todo'), newTable[..], newChains')
      invariant entry == heads'[i]
      invariant rest' == rest[i := rest'[i]] && forall c :: 0 <= c < |rest| && c != i ==> heads'[c] == heads[c]
      decreases todo'
    {
      FirstOfBucket(todo', heads', rest', i);
      var next := entry.next;
      newChains' := MoveEntry(newTable, entry, todo', heads', rest', i, done + (todo - todo'), newChains');
      assert done + (todo - (todo' - {entry})) == done + (todo - todo') + {entry};
      todo', heads', rest' := todo' - {entry}, heads'[i := next], rest'[i := Without(rest'[i], 0)];
      entry := next;
    }
    FirstOfBucket(todo', heads', rest', i);
  }

  // Move the first entry of a bucket to the head of its bucket in the new table (lines 95-100).
  method MoveEntry(newTable: array<HashEntry?>, entry: HashEntry,
                   ghost todo: set<HashEntry>, ghost heads: seq<HashEntry?>, ghost rest: Chains, ghost i: nat,
                   ghost done: set<HashEntry>, ghost newChains: Chains)
    returns (ghost newChains': Chains)
    requires Lists(todo, heads, rest) && i < |rest| == |heads| && entry == heads[i]
    requires Lists(done, newTable[..], newChains) && todo !! done && newTable.Length > 0
    modifies newTable, entry`next
    ensures entry in todo && rest[i] != [] && |newChains'| == newTable.Length
    ensures Lists(todo - {entry}, heads[i := old(entry.next)], rest[i := Without(rest[i], 0)])
    ensures Lists(done + {entry}, newTable[..], newChains')
  {
    hide Bucketed, AllLinked;
    FirstOfBucket(todo, heads, rest, i);
    LinkedRemoveFirst(todo, heads, rest, i);
    BucketedRemove(todo, rest, i, 0);
    var newIndex := Bucket(entry, newTable.Length);
    BucketedInsert(done, newChains, entry);
    entry.next := newTable[newIndex];
    LinkedInsert(done, newTable[..], newChains, entry, newIndex);
    ghost var newHeads := newTable[..];
    newTable[newIndex] := entry;
    assert newTable[..] == newHeads[newIndex := entry];
    newChains' := newChains[newIndex := [entry] + newChains[newIndex]];
  }
}
