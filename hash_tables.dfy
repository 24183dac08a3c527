/**
 * The chained hash table of week4/hash_tables/hash_tables.c: string keys,
 * integer values, DJB2 hashing, head insertion into the chains, growth by
 * half when the load factor reaches 0.75 and halving (never below 101
 * buckets) when it falls under 0.25.
 *
 * The table is a class whose bucket array holds one chain per bucket; the
 * chains are values (see HashLayout). Whether `malloc`/`calloc` returns NULL
 * is a parameter of each operation that allocates.
 */
module HashTables {
  import opened Basics
  import opened HashLayout

  const DEFAULT_HASH_TABLE_SIZE: nat := 101

  /** The status codes of the table's operations. */
  datatype Status = Success | Failure | MemoryError | InvalidInput | KeyNotFound

  /** The numeric value of each status in the C enum. */
  function Code(s: Status): (c: int)
    ensures 0 <= c <= 4
  {
    match s
    case Success => 0
    case Failure => 1
    case MemoryError => 2
    case InvalidInput => 3
    case KeyNotFound => 4
  }

  /** `statusToString`, taking the raw enum value: anything outside 0..4 is unknown. */
  function StatusToString(code: int): (r: string)
    ensures r != []
    ensures r == "Unknown status" <==> code < 0 || code > 4
  {
    if code == 0 then "Success"
    else if code == 1 then "General failure"
    else if code == 2 then "Memory allocation failed"
    else if code == 3 then "Invalid input"
    else if code == 4 then "Key not found"
    else "Unknown status"
  }

  /** Every status has its own message, and none of them reads as unknown. */
  lemma StatusMessagesDistinct(s: Status, t: Status)
    ensures StatusToString(Code(s)) != "Unknown status"
    ensures StatusToString(Code(s)) == StatusToString(Code(t)) <==> s == t
  {
  }

  /** A value outside the enum prints as unknown. */
  lemma UnknownStatus(code: int)
    ensures StatusToString(code) == "Unknown status" <==> !(0 <= code <= 4)
  {
  }

  /** `getLoadFactor`: elements per bucket, 0 for a table without buckets. */
  function LoadFactor(size: nat, capacity: nat): (f: real)
    ensures f >= 0.0
    ensures capacity > 0 ==> f * capacity as real == size as real
  {
    if capacity == 0 then 0.0 else size as real / capacity as real
  }

  /** The growth threshold in integers: load factor at least 0.75 iff `4 size >= 3 capacity`. */
  lemma GrowThreshold(size: nat, capacity: nat)
    requires capacity > 0
    ensures LoadFactor(size, capacity) >= 0.75 <==> 4 * size >= 3 * capacity
  {
    var f := LoadFactor(size, capacity);
    assert f * capacity as real == size as real;
  }

  /** The shrink threshold in integers: load factor below 0.25 iff `4 size < capacity`. */
  lemma ShrinkThreshold(size: nat, capacity: nat)
    requires capacity > 0
    ensures LoadFactor(size, capacity) < 0.25 <==> 4 * size < capacity
  {
    var f, c := LoadFactor(size, capacity), capacity as real;
    ScaleLess(f, 0.25, c);
    assert f * c == size as real;
  }

  /** Scaling by a positive factor keeps a strict order. */
  lemma ScaleLess(a: real, b: real, c: real)
    requires c > 0.0
    ensures a < b <==> a * c < b * c
  {
  }

  /** `(size_t)(capacity * 1.5)`, bumped to `capacity + 1` when that does not grow. */
  function GrownCapacity(capacity: nat): (c: nat)
    ensures c > capacity
    ensures capacity >= 2 ==> c == capacity + capacity / 2
  {
    if capacity * 3 / 2 <= capacity then capacity + 1 else capacity * 3 / 2
  }

  /** Half the capacity, but never below the default size. */
  function ShrunkCapacity(capacity: nat): (c: nat)
    ensures c >= DEFAULT_HASH_TABLE_SIZE
    ensures capacity > 2 * DEFAULT_HASH_TABLE_SIZE + 1 ==> c == capacity / 2 < capacity
    ensures capacity > DEFAULT_HASH_TABLE_SIZE ==> c < capacity
  {
    if capacity / 2 < DEFAULT_HASH_TABLE_SIZE then DEFAULT_HASH_TABLE_SIZE else capacity / 2
  }

  /** `hash`: DJB2 over the key, reduced modulo the table size; 0 for a NULL key or no buckets. */
  method Hash(key: Option<string>, tableSize: nat) returns (h: nat)
    ensures key.None? || tableSize == 0 ==> h == 0
    ensures key.Some? ==> h == Bucket(key.value, tableSize)
    ensures tableSize > 0 ==> h < tableSize
  {
    if key.None? || tableSize == 0 {
      return 0;
    }
    var s := key.value;
    var acc: nat := DJB2_SEED;
    var i := 0;
    while i < |s|
      invariant 0 <= i <= |s|
      invariant acc == Djb2(s[..i])
    {
      assert s[..i + 1][..i] == s[..i];
      acc := (acc * 33 + s[i] as int) % WORD;
      i := i + 1;
    }
    assert s[..i] == s;
    h := acc % tableSize;
  }

  /** The chain walk of `search` and `deleteElement`: the first entry with the key, if any. */
  method FindKey(chain: seq<Entry>, key: string) returns (r: Option<nat>)
    ensures r.Some? ==> r.value < |chain| && chain[r.value].key == key
    ensures r.Some? ==> forall k :: 0 <= k < r.value ==> chain[k].key != key
    ensures r.None? <==> forall x :: x in chain ==> x.key != key
  {
    var j := 0;
    while j < |chain|
      invariant 0 <= j <= |chain|
      invariant forall k :: 0 <= k < j ==> chain[k].key != key
    {
      if chain[j].key == key {
        return Some(j);
      }
      j := j + 1;
    }
    return None;
  }

  /** One step of `resize`: moving the entry at `(i, j)` of the old layout keeps the loop's invariants. */
  lemma RehashStep(ob: seq<seq<Entry>>, i: nat, j: nat, nb: seq<seq<Entry>>)
    requires Layout(ob) && Layout(nb)
    requires i < |ob| && j < |ob[i]|
    requires Entries(nb) == Moved(ob, i, j)
    requires TotalSize(nb) == TotalSize(ob[..i]) + j
    ensures var e := ob[i][j]; var h := Bucket(e.key, |nb|); var nb' := nb[h := [e] + nb[h]];
      && Layout(nb')
      && Entries(nb') == Moved(ob, i, j + 1)
      && TotalSize(nb') == TotalSize(ob[..i]) + j + 1
  {
    var e := ob[i][j];
    var h := Bucket(e.key, |nb|);
    forall x | x in nb[h] ensures x.key != e.key {
      assert x in Entries(nb);
      NotYetMoved(ob, i, j, x);
    }
    PrependEntry(nb, e);
    assert ob[i][..j + 1] == ob[i][..j] + [e];
  }

  /**
   * The rehashing loops of `resize`: every entry of the old chains, visited
   * bucket by bucket from each chain's head, is put at the front of its
   * bucket in a fresh array of `newCapacity` empty chains.
   */
  method Rehash(oldBuckets: array<seq<Entry>>, newCapacity: nat) returns (nb: array<seq<Entry>>)
    requires newCapacity > 0
    requires Layout(oldBuckets[..])
    ensures fresh(nb) && nb.Length == newCapacity
    ensures Layout(nb[..])
    ensures Entries(nb[..]) == Entries(oldBuckets[..])
    ensures TotalSize(nb[..]) == TotalSize(oldBuckets[..])
  {
    var ob := oldBuckets[..];
    nb := new seq<Entry>[newCapacity](_ => []);
    assert nb[..] == seq(newCapacity, _ => []);
    EmptyLayout(newCapacity);
    var i := 0;
    while i < oldBuckets.Length
      invariant 0 <= i <= oldBuckets.Length
      invariant fresh(nb) && nb.Length == newCapacity
      invariant Layout(nb[..])
      invariant Entries(nb[..]) == Entries(ob[..i])
      invariant TotalSize(nb[..]) == TotalSize(ob[..i])
    {
      var chain := oldBuckets[i];
      assert ob[i][..0] == [];
      var j := 0;
      while j < |chain|
        invariant 0 <= j <= |chain|
        invariant fresh(nb) && nb.Length == newCapacity
        invariant Layout(nb[..])
        invariant Entries(nb[..]) == Moved(ob, i, j)
        invariant TotalSize(nb[..]) == TotalSize(ob[..i]) + j
      {
        var e := chain[j];
        var h := Hash(Some(e.key), newCapacity);
        RehashStep(ob, i, j, nb[..]);
        nb[h] := [e] + nb[h];
        j := j + 1;
      }
      NextBucket(ob, i);
      i := i + 1;
    }
    assert ob[..i] == ob;
  }

  class HashTable {
    /** One chain per bucket, head first. */
    var buckets: array<seq<Entry>>
    var size: nat
    var capacity: nat
    /** The key/value map the table stands for. */
    ghost var contents: map<string, int>

    /** The bucket array has `capacity` chains forming a valid layout of `size` entries. */
    ghost predicate Valid()
      reads this, buckets
    {
      && buckets.Length == capacity
      && Layout(buckets[..])
      && size == TotalSize(buckets[..])
      && contents == HashLayout.Contents(buckets[..])
      && size == |contents|
    }

    /** `createHashTable` after its allocations succeed: an empty table, 101 buckets for a zero request. */
    constructor (initialCapacity: nat)
      ensures Valid() && fresh(buckets)
      ensures capacity == if initialCapacity == 0 then DEFAULT_HASH_TABLE_SIZE else initialCapacity
      ensures size == 0 && contents == map[]
    {
      var n := if initialCapacity == 0 then DEFAULT_HASH_TABLE_SIZE else initialCapacity;
      buckets := new seq<Entry>[n](_ => []);
      size := 0;
      capacity := n;
      contents := map[];
      new;
      assert buckets[..] == seq(n, _ => []);
      EmptyLayout(n);
    }

    /**
     * `resize`: moves every entry, chain by chain and head first, to the front
     * of its bucket in a fresh array of `newCapacity` buckets. A zero capacity
     * is invalid input; a failed allocation leaves the table as it was.
     */
    method Resize(newCapacity: nat, allocFails: bool) returns (status: Status)
      requires Valid()
      modifies this
      ensures Valid()
      ensures status == (if newCapacity == 0 then InvalidInput
                         else if allocFails then MemoryError else Success)
      ensures status == Success ==> capacity == newCapacity && fresh(buckets)
      ensures status != Success ==> capacity == old(capacity) && buckets == old(buckets)
      ensures size == old(size) && contents == old(contents)
      ensures unchanged(old(buckets))
    {
      if newCapacity == 0 {
        return InvalidInput;
      }
      if allocFails {
        return MemoryError;
      }
      var nb := Rehash(buckets, newCapacity);
      ghost var nbs := nb[..];
      SameEntriesSameContents(buckets[..], nbs);
      buckets := nb;
      capacity := newCapacity;
      assert buckets[..] == nbs;
      return Success;
    }
  
    /**
     * `insert`. A NULL key is invalid input. When the load factor has reached
     * 0.75 the table first grows, and a failed growth is reported as is; then
     * an existing key has its value overwritten, and a new key is put at the
     * head of its chain unless its element cannot be allocated.
     */
    method Insert(key: Option<string>, value: int, bucketsAllocFails: bool, elementAllocFails: bool)
      returns (status: Status)
      requires Valid()
      modifies this, buckets
      ensures Valid() && (buckets == old(buckets) || fresh(buckets))
      ensures key.None? ==> status == InvalidInput && capacity == old(capacity) && contents == old(contents)
      ensures key.Some? && 4 * old(size) >= 3 * old(capacity) && bucketsAllocFails ==>
        status == MemoryError && capacity == old(capacity) && contents == old(contents)
      ensures key.Some? && !(4 * old(size) >= 3 * old(capacity) && bucketsAllocFails) ==>
        && capacity == (if 4 * old(size) >= 3 * old(capacity) then GrownCapacity(old(capacity)) else old(capacity))
        && (key.value in old(contents) || !elementAllocFails ==>
              && status == Success && contents == old(contents)[key.value := value]
              && size == if key.value in old(contents) then old(size) else old(size) + 1)
        && (key.value !in old(contents) && elementAllocFails ==>
              status == MemoryError && contents == old(contents))
    {
      if key.None? {
        return InvalidInput;
      }
      var k := key.value;
      GrowThreshold(size, capacity);
      if LoadFactor(size, capacity) >= 0.75 {
        var resizeStatus := Resize(GrownCapacity(capacity), bucketsAllocFails);
        if resizeStatus != Success {
          return resizeStatus;
        }
      }
      status := Put(k, value, elementAllocFails);
    }

    /**
     * The second half of `insert`, once the table has room: overwrite the
     * value of an existing key, or put a new key at the head of its chain
     * unless its element cannot be allocated.
     */
    method Put(k: string, value: int, elementAllocFails: bool) returns (status: Status)
      requires Valid()
      modifies this, buckets
      ensures Valid() && buckets == old(buckets) && capacity == old(capacity)
      ensures k in old(contents) || !elementAllocFails ==>
        && status == Success && contents == old(contents)[k := value]
        && size == if k in old(contents) then old(size) else old(size) + 1
      ensures k !in old(contents) && elementAllocFails ==>
        status == MemoryError && contents == old(contents)
    {
      var h := Hash(Some(k), capacity);
      var existing := FindKey(buckets[h], k);
      if existing.Some? {
        ReplaceValue(h, existing.value, value);
        return Success;
      }
      NotInContents(buckets[..], k);
      if elementAllocFails {
        return MemoryError;
      }
      PushFront(h, Entry(k, value));
      return Success;
    }

    /** Overwriting the value of the entry at position `j` of chain `h`. */
    method ReplaceValue(h: nat, j: nat, value: int)
      requires Valid() && h < capacity && j < |buckets[h]|
      modifies this, buckets
      ensures Valid() && buckets == old(buckets) && capacity == old(capacity) && size == old(size)
      ensures contents == old(contents)[old(buckets[h][j]).key := value]
    {
      ghost var bs := buckets[..];
      var k := buckets[h][j].key;
      ContentsAt(bs, h, j);
      ReplaceEntry(bs, h, j, value);
      var chain := buckets[h][j := Entry(k, value)];
      buckets[h] := chain;
      assert buckets[..] == bs[h := chain];
      contents := contents[k := value];
    }

    /** Linking a new entry, whose key is absent, at the head of chain `h`, its bucket. */
    method PushFront(h: nat, e: Entry)
      requires Valid() && h < capacity && h == Bucket(e.key, capacity) && e.key !in contents
      modifies this, buckets
      ensures Valid() && buckets == old(buckets) && capacity == old(capacity)
      ensures size == old(size) + 1 && contents == old(contents)[e.key := e.value]
    {
      ghost var bs := buckets[..];
      PrependEntry(bs, e);
      var chain := [e] + buckets[h];
      buckets[h] := chain;
      assert buckets[..] == bs[h := chain];
      size := size + 1;
      contents := contents[e.key := e.value];
    }

    /** `search`: the value stored for the key; nothing for a NULL or absent key. */
    method Search(key: Option<string>) returns (r: Option<int>)
      requires Valid()
      ensures key.None? ==> r.None?
      ensures key.Some? ==> (r.Some? <==> key.value in contents)
      ensures r.Some? ==> key.Some? && r.value == contents[key.value]
    {
      if key.None? {
        return None;
      }
      var h := Hash(key, capacity);
      var j := FindKey(buckets[h], key.value);
      if j.None? {
        NotInContents(buckets[..], key.value);
        return None;
      }
      ContentsAt(buckets[..], h, j.value);
      return Some(buckets[h][j.value].value);
    }

    /**
     * `deleteElement`. A NULL key is invalid input and an absent key is not
     * found. A present key is unlinked; then, if the load factor has fallen
     * below 0.25 and the table is larger than the default, it is halved (not
     * below the default), and a failure of that shrink is ignored.
     */
    method Delete(key: Option<string>, bucketsAllocFails: bool) returns (status: Status)
      requires Valid()
      modifies this, buckets
      ensures Valid() && (buckets == old(buckets) || fresh(buckets))
      ensures key.None? ==> status == InvalidInput && capacity == old(capacity) && contents == old(contents)
      ensures key.Some? && key.value !in old(contents) ==>
        status == KeyNotFound && capacity == old(capacity) && contents == old(contents)
      ensures key.Some? && key.value in old(contents) ==>
        && status == Success
        && contents == old(contents) - {key.value}
        && size + 1 == old(size)
        && capacity == (if 4 * size < old(capacity) && old(capacity) > DEFAULT_HASH_TABLE_SIZE && !bucketsAllocFails
                        then ShrunkCapacity(old(capacity)) else old(capacity))
    {
      if key.None? {
        return InvalidInput;
      }
      var k := key.value;
      var h := Hash(key, capacity);
      var found := FindKey(buckets[h], k);
      if found.None? {
        NotInContents(buckets[..], k);
        return KeyNotFound;
      }
      RemoveAt(h, found.value);
      ShrinkThreshold(size, capacity);
      if LoadFactor(size, capacity) < 0.25 && capacity > DEFAULT_HASH_TABLE_SIZE {
        var _ := Resize(ShrunkCapacity(capacity), bucketsAllocFails);
      }
      return Success;
    }

    /** Unlinking the entry at position `j` of chain `h`. */
    method RemoveAt(h: nat, j: nat)
      requires Valid() && h < capacity && j < |buckets[h]|
      modifies this, buckets
      ensures Valid() && buckets == old(buckets) && capacity == old(capacity)
      ensures size + 1 == old(size) && contents == old(contents) - {old(buckets[h][j]).key}
    {
      ghost var bs := buckets[..];
      var k := buckets[h][j].key;
      ContentsAt(bs, h, j);
      RemoveEntry(bs, h, j);
      var chain := buckets[h][..j] + buckets[h][j + 1..];
      buckets[h] := chain;
      assert buckets[..] == bs[h := chain];
      size := size - 1;
      contents := contents - {k};
    }

    /** `freeHashTable`'s walk: every element of every chain is released once. */
    method Free() returns (released: nat)
      requires Valid()
      ensures released == size == |contents|
    {
      released := 0;
      var i := 0;
      while i < buckets.Length
        invariant 0 <= i <= buckets.Length
        invariant released == TotalSize(buckets[..i])
      {
        var chain := buckets[i];
        var j := 0;
        while j < |chain|
          invariant 0 <= j <= |chain|
          invariant released == TotalSize(buckets[..i]) + j
        {
          released := released + 1;
          j := j + 1;
        }
        NextBucket(buckets[..], i);
        assert buckets[..][..i + 1] == buckets[..i + 1];
        i := i + 1;
      }
      assert buckets[..i] == buckets[..];
    }
  }

  /** `createHashTable`: NULL when an allocation fails, otherwise an empty table. */
  method CreateHashTable(initialCapacity: nat, allocFails: bool) returns (t: HashTable?)
    ensures allocFails <==> t == null
    ensures t != null ==> fresh(t) && fresh(t.buckets) && t.Valid() && t.contents == map[]
    ensures t != null ==> t.capacity == if initialCapacity == 0 then DEFAULT_HASH_TABLE_SIZE else initialCapacity
  {
    if allocFails {
      return null;
    }
    t := new HashTable(initialCapacity);
  }

  /** Inserting a key that is absent, into a default-size table at most two entries full. */
  method InsertNew(t: HashTable, k: string, v: int)
    requires t.Valid() && t.capacity == DEFAULT_HASH_TABLE_SIZE && t.size <= 2 && k !in t.contents
    modifies t, t.buckets
    ensures t.Valid() && t.capacity == DEFAULT_HASH_TABLE_SIZE && (t.buckets == old(t.buckets) || fresh(t.buckets))
    ensures t.size == old(t.size) + 1 && t.contents == old(t.contents)[k := v]
  {
    var _ := t.Insert(Some(k), v, false, false);
  }

  /**
   * The opening of the demonstration program: three keys in a default-size
   * table, a search for the second, its deletion, and two keys left.
   */
  method Demo() returns (found: Option<int>, deleteStatus: Status, remaining: nat)
    ensures found == Some(2)
    ensures deleteStatus == Success
    ensures remaining == 2
  {
    assert "key1"[3] != "key2"[3] && "key1"[3] != "key3"[3] && "key2"[3] != "key3"[3];
    var t := new HashTable(DEFAULT_HASH_TABLE_SIZE);
    InsertNew(t, "key1", 1);
    InsertNew(t, "key2", 2);
    assert "key3" !in map[]["key1" := 1];
    assert "key3" !in map["key1" := 1]["key2" := 2];
    InsertNew(t, "key3", 3);
    found := t.Search(Some("key2"));
    deleteStatus := t.Delete(Some("key2"), false);
    remaining := t.size;
  }
}
